/** The data buffer as the object that FragmentBuffer updates in place (artdaq/DAQrate/FragmentBuffer.hh:432-441).
    Every method is proved to move View() as the functions on Buf say. */
module DataBufferObjects {
  import opened DataBuffers
  import opened Windows
  import opened BufferMode
  import opened Pipeline
  import WindowRuns

  lemma BytesOfOne(f: Fragment)
    ensures Bytes([f]) == f.bytes
  {
    assert [f][1..] == [];
  }

  lemma ScanNext(w: Span, s: seq<Fragment>, it: nat)
    requires it < |s|
    ensures s[it..] == [s[it]] + s[it + 1..] && s[it..][1..] == s[it + 1..]
    ensures Taken(w, s[it..]) == if s[it].timestamp < w.min then Taken(w, s[it + 1..])
                                 else if Beyond(w, s[it].timestamp) then [] else [s[it]] + Taken(w, s[it + 1..])
    ensures Left(w, s[it..]) == if s[it].timestamp < w.min then [s[it]] + Left(w, s[it + 1..])
                                else if Beyond(w, s[it].timestamp) then s[it..] else Left(w, s[it + 1..])
  {
    assert s[it..][0] == s[it] && s[it..][1..] == s[it + 1..];
  }

  lemma TakeNext(s: seq<Fragment>, it: nat, seqId: nat)
    requires it < |s|
    ensures Matching(s[it..], seqId) == (if s[it].seqId == seqId then [s[it]] else []) + Matching(s[it + 1..], seqId)
    ensures Others(s[it..], seqId) == (if s[it].seqId == seqId then [] else [s[it]]) + Others(s[it + 1..], seqId)
  {
    assert s[it..][0] == s[it] && s[it..][1..] == s[it + 1..];
  }

  // Of the list was, found has been moved out and now is left, of which the part before it has been examined.
  ghost predicate Moving(was: seq<Fragment>, found: seq<Fragment>, now: seq<Fragment>, it: nat, seqId: nat) {
    && it <= |now|
    && found + Matching(now[it..], seqId) == Matching(was, seqId)
    && now[..it] + Others(now[it..], seqId) == Others(was, seqId)
  }

  lemma MovingTakes(was: seq<Fragment>, found: seq<Fragment>, now: seq<Fragment>, it: nat, seqId: nat)
    requires it < |now| && now[it].seqId == seqId && Moving(was, found, now, it, seqId)
    ensures Moving(was, found + [now[it]], now[..it] + now[it + 1..], it, seqId)
  {
    TakeNext(now, it, seqId);
    Erased(now, it);
    Joined(found, [now[it]], Matching(now[it + 1..], seqId));
    assert [] + Others(now[it + 1..], seqId) == Others(now[it + 1..], seqId);
  }

  lemma MovingSkips(was: seq<Fragment>, found: seq<Fragment>, now: seq<Fragment>, it: nat, seqId: nat)
    requires it < |now| && now[it].seqId != seqId && Moving(was, found, now, it, seqId)
    ensures Moving(was, found, now, it + 1, seqId)
  {
    TakeNext(now, it, seqId);
    assert now[..it + 1] == now[..it] + [now[it]];
    Joined(now[..it], [now[it]], Others(now[it + 1..], seqId));
    assert [] + Matching(now[it + 1..], seqId) == Matching(now[it + 1..], seqId);
  }

  // The answer of SequenceID mode without the distinction whether anything was found.
  lemma TakingIs(cfg: Config, b: Buf, seqId: nat, ts: nat)
    requires cfg.mode == SequenceID && b.depthFrags == |b.frags|
    ensures var found, rest := Matching(b.frags, seqId), Others(b.frags, seqId);
            var highest := if seqId > b.highest then seqId else b.highest;
            AnsweredBuf(cfg, b, seqId, ts, false)
            == if seqId in b.sent then b.(highest := highest)
               else Buf(rest, |rest|, b.depthBytes - Bytes(found), b.sent + (if found == [] then {} else {seqId}),
                 highest, b.kept)
  {
    WindowRuns.TakingSplits(b.frags, seqId);
    if Matching(b.frags, seqId) == [] { assert b.sent + {} == b.sent; }
  }

  lemma BytesOfMore(s: seq<Fragment>, f: Fragment)
    ensures Bytes(s + [f]) == Bytes(s) + f.bytes
  {
    BytesOfConcat(s, [f]);
    BytesOfOne(f);
  }

  // Of the list was, content has been selected and now is left - without the selected ones, in unique mode -
  // when the scan that began at start has come to it.
  ghost predicate Selecting(w: Span, unique: bool, was: seq<Fragment>, start: nat, content: seq<Fragment>,
                            now: seq<Fragment>, it: nat)
    requires start <= |was|
  {
    && it <= |now|
    && content + Taken(w, now[it..]) == Taken(w, was[start..])
    && (if unique then now[..it] + Left(w, now[it..]) == was[..start] + Left(w, was[start..]) else now == was)
  }

  lemma SelectingSkips(w: Span, unique: bool, was: seq<Fragment>, start: nat, content: seq<Fragment>,
                       now: seq<Fragment>, it: nat)
    requires start <= |was| && it < |now| && Selecting(w, unique, was, start, content, now, it)
    requires now[it].timestamp < w.min
    ensures Selecting(w, unique, was, start, content, now, it + 1)
  {
    ScanNext(w, now, it);
    assert now[..it + 1] == now[..it] + [now[it]];
    Joined(now[..it], [now[it]], Left(w, now[it + 1..]));
  }

  lemma SelectingTakes(w: Span, unique: bool, was: seq<Fragment>, start: nat, content: seq<Fragment>,
                       now: seq<Fragment>, it: nat)
    requires start <= |was| && it < |now| && Selecting(w, unique, was, start, content, now, it)
    requires Inside(w, now[it].timestamp)
    ensures unique ==> Selecting(w, true, was, start, content + [now[it]], now[..it] + now[it + 1..], it)
    ensures !unique ==> Selecting(w, false, was, start, content + [now[it]], now, it + 1)
  {
    ScanNext(w, now, it);
    Erased(now, it);
    Joined(content, [now[it]], Taken(w, now[it + 1..]));
  }

  lemma ScanStops(w: Span, s: seq<Fragment>, it: nat)
    requires it <= |s| && (it < |s| ==> s[it].timestamp >= w.min && Beyond(w, s[it].timestamp))
    ensures Taken(w, s[it..]) == [] && Left(w, s[it..]) == s[it..]
  {
    if it < |s| { ScanNext(w, s, it); }
  }

  lemma SelectingStops(w: Span, unique: bool, was: seq<Fragment>, start: nat, content: seq<Fragment>,
                       now: seq<Fragment>, it: nat)
    requires start <= |was| && Selecting(w, unique, was, start, content, now, it)
    requires it < |now| ==> now[it].timestamp >= w.min && Beyond(w, now[it].timestamp)
    ensures content == Taken(w, was[start..]) && now == if unique then was[..start] + Left(w, was[start..]) else was
  {
    ScanStops(w, now, it);
    assert now[..it] + now[it..] == now;
    assert content + [] == content;
  }

  // Erasing the element at it moves the rest down.
  lemma Erased(s: seq<Fragment>, it: nat)
    requires it < |s|
    ensures var r := s[..it] + s[it + 1..]; |r| == |s| - 1 && r[..it] == s[..it] && r[it..] == s[it + 1..]
  {
  }

  class DataBuffer {
    var frags: seq<Fragment>
    var depthFrags: int
    var depthBytes: int
    var sent: set<nat>
    var highest: nat
    var kept: bool

    ghost function View(): Buf
      reads this
    {
      Buf(frags, depthFrags, depthBytes, sent, highest, kept)
    }

    constructor ()
      ensures View() == EMPTY_BUF
    {
      frags, depthFrags, depthBytes, sent, highest, kept := [], 0, 0, {}, 0, false;
    }

    // ---------------------------------------------------------------- adding and pruning

    method PopFront()
      requires frags != []
      modifies this
      ensures View() == DropFront(old(View()))
    {
      depthBytes := depthBytes - frags[0].bytes;
      frags := frags[1..];
      depthFrags := |frags|;
      kept := false;
    }

    // The over-size loops of waitForDataBufferReady in circular mode and of checkDataBuffer.
    method DropOldest(cfg: Config)
      requires DepthsExact(View())
      modifies this
      ensures View() == DropOverLimit(cfg, old(View())) && DepthsExact(View())
    {
      while TooLarge(cfg, depthFrags, depthBytes)
        invariant DepthsExact(View())
        invariant DropOverLimit(cfg, View()) == DropOverLimit(cfg, old(View()))
        decreases |frags|
      {
        PopFront();
      }
    }

    method DropBefore(min: nat)
      modifies this
      ensures View() == DropOlder(old(View()), min)
    {
      while frags != [] && frags[0].timestamp < min
        invariant DropOlder(View(), min) == DropOlder(old(View()), min)
        decreases |frags|
      {
        PopFront();
      }
    }

    // checkDataBuffer
    method Prune(cfg: Config)
      requires DepthsExact(View())
      modifies this
      ensures View() == Check(cfg, old(View()))
    {
      if depthFrags > 0 && cfg.mode != Single && cfg.mode != Ignored {
        DropOldest(cfg);
        if depthFrags > 0 && cfg.staleTimeout > 0 {
          var last := frags[|frags| - 1].timestamp;
          var min := if last > cfg.staleTimeout then last - cfg.staleTimeout else 0;
          DropBefore(min);
        }
      }
    }

    // One data buffer's share of AddFragmentsToBuffer.
    method Add(cfg: Config, fs: seq<Fragment>)
      requires DepthsExact(View()) && fs != []
      modifies this
      ensures View() == Receive(cfg, old(View()), fs)
    {
      if cfg.circular { DropOldest(cfg); }
      if cfg.mode == Single {
        var newest := fs[|fs| - 1];
        frags, depthBytes, depthFrags := [newest], newest.bytes, 1;
      } else {
        Append(fs);
      }
    }

    method Append(fs: seq<Fragment>)
      modifies this`frags, this`depthBytes, this`depthFrags
      ensures frags == old(frags) + fs && depthFrags == |frags| && depthBytes == old(depthBytes) + Bytes(fs)
    {
      var i := 0;
      while i < |fs|
        invariant i <= |fs| && frags == old(frags) + fs[..i] && depthBytes == old(depthBytes) + Bytes(fs[..i])
      {
        BytesOfConcat(fs[..i], [fs[i]]);
        BytesOfOne(fs[i]);
        assert fs[..i + 1] == fs[..i] + [fs[i]];
        depthBytes := depthBytes + fs[i].bytes;
        frags := frags + [fs[i]];
        i := i + 1;
      }
      assert fs[..i] == fs;
      depthFrags := |frags|;
    }

    // ---------------------------------------------------------------- answering

    // Buffer mode: everything new, and the latest once more when there is nothing new (lines 525-554).
    method RespondAll(cfg: Config) returns (content: seq<Fragment>)
      modifies this
      ensures content == ResponseContent(old(View())) && View() == AfterResponse(cfg, old(View()))
    {
      if kept && depthFrags > 1 && frags != [] {
        depthBytes := depthBytes - frags[0].bytes;
        frags := frags[1..];
        depthFrags := |frags|;
      }
      content := [];
      if frags != [] {
        content := frags[..|frags| - 1];
        frags := frags[|frags| - 1..];
        content := content + frags;
        if cfg.keepLatest {
          kept, depthBytes, depthFrags := true, frags[0].bytes, 1;
        } else {
          frags, kept, depthBytes, depthFrags := [], false, 0, 0;
        }
      }
    }

    // The iterator the scan for a timed-out window starts from (lines 616-627).
    method FindStart(w: Span, timeout: bool) returns (it: nat)
      ensures it == ScanStart(w, frags, timeout)
    {
      it := 0;
      if timeout && frags != [] {
        it := |frags| - 1;
        while it != 0 && !(frags[it].timestamp < w.min)
          invariant it < |frags| && BackFrom(w, frags, it) == BackFrom(w, frags, |frags| - 1)
        {
          it := it - 1;
        }
      }
    }

    // The selection loop (lines 631-656): in unique mode it erases what it selects.
    method Select(w: Span, unique: bool, start: nat) returns (content: seq<Fragment>)
      requires start <= |frags|
      modifies this`frags, this`depthBytes
      ensures content == Taken(w, old(frags[start..]))
      ensures frags == if unique then old(frags[..start]) + Left(w, old(frags[start..])) else old(frags)
      ensures depthBytes == old(depthBytes) - if unique then Bytes(content) else 0
    {
      content := [];
      var it: nat := start;
      assert [] + Taken(w, frags[start..]) == Taken(w, frags[start..]);
      while it < |frags| && !(frags[it].timestamp >= w.min && Beyond(w, frags[it].timestamp))
        invariant Selecting(w, unique, old(frags), start, content, frags, it)
        invariant depthBytes == old(depthBytes) - if unique then Bytes(content) else 0
        decreases |frags| - it
      {
        var f := frags[it];
        if f.timestamp < w.min {
          SelectingSkips(w, unique, old(frags), start, content, frags, it);
          it := it + 1;
        } else {
          SelectingTakes(w, unique, old(frags), start, content, frags, it);
          BytesOfMore(content, f);
          content := content + [f];
          if unique {
            depthBytes := depthBytes - f.bytes;
            frags := frags[..it] + frags[it + 1..];
          } else {
            it := it + 1;
          }
        }
      }
      SelectingStops(w, unique, old(frags), start, content, frags, it);
    }

    method RecordSent(seqId: nat)
      modifies this`depthFrags, this`sent, this`highest
      ensures depthFrags == |frags| && sent == old(sent) + {seqId}
      ensures highest == if seqId > old(highest) then seqId else old(highest)
    {
      depthFrags := |frags|;
      sent := sent + {seqId};
      if seqId > highest { highest := seqId; }
    }

    // applyRequestsWindowMode_CheckAndFillDataBuffer
    method FillWindow(cfg: Config, id: nat, seqId: nat, ts: nat, late: bool) returns (out: seq<Output>)
      modifies this
      ensures out == FilledOutput(cfg, old(View()), id, seqId, ts, late)
      ensures View() == FilledBuf(cfg, old(View()), seqId, ts, late)
    {
      out := [];
      var closed := depthFrags > 0 && frags != [] && frags[|frags| - 1].timestamp >= WindowMax(cfg, ts);
      if closed || late {
        var missing := !closed || frags[0].timestamp > WindowMin(cfg, ts);
        var content := TakeWindow(cfg, ts, closed);
        out := [Container(seqId, id, ts, missing, content)];
        RecordSent(seqId);
      }
    }

    method TakeWindow(cfg: Config, ts: nat, closed: bool) returns (content: seq<Fragment>)
      requires closed == Closed(cfg, View(), ts)
      modifies this`frags, this`depthBytes
      ensures content == Content(cfg, old(View()), ts)
      ensures frags == if cfg.unique then Remaining(cfg, old(View()), ts) else old(frags)
      ensures depthBytes == old(depthBytes) - if cfg.unique then Bytes(content) else 0
    {
      var w := WindowOf(cfg, ts);
      var start := FindStart(w, !closed);
      content := Select(w, cfg.unique, start);
    }

    // Window mode: a window is sent once (lines 713-716).
    method AnswerWindow(cfg: Config, id: nat, seqId: nat, ts: nat, late: bool) returns (out: seq<Output>)
      requires cfg.mode == Window
      modifies this
      ensures out == Answer(cfg, old(View()), id, seqId, ts, late)
      ensures View() == AnsweredBuf(cfg, old(View()), seqId, ts, late)
    {
      out := [];
      if seqId !in sent { out := FillWindow(cfg, id, seqId, ts, late); }
    }

    // SequenceID mode: move the fragments of seqId to the output (lines 751-773).
    method TakeSequence(cfg: Config, id: nat, seqId: nat, ts: nat) returns (out: seq<Output>)
      requires cfg.mode == SequenceID && DepthsExact(View())
      modifies this
      ensures out == Answer(cfg, old(View()), id, seqId, ts, false)
      ensures View() == AnsweredBuf(cfg, old(View()), seqId, ts, false)
    {
      TakingIs(cfg, View(), seqId, ts);
      out := [];
      if seqId !in sent {
        var found := MoveMatching(seqId);
        out := Plains(found);
      }
      if seqId > highest { highest := seqId; }
    }

    method MoveMatching(seqId: nat) returns (found: seq<Fragment>)
      requires depthFrags == |frags|
      modifies this`frags, this`depthFrags, this`depthBytes, this`sent
      ensures found == Matching(old(frags), seqId) && frags == Others(old(frags), seqId) && depthFrags == |frags|
      ensures depthBytes == old(depthBytes) - Bytes(found)
      ensures sent == old(sent) + if found == [] then {} else {seqId}
    {
      found := [];
      var it: nat := 0;
      assert frags[0..] == frags;
      while it < |frags|
        invariant depthFrags == |frags| && Moving(old(frags), found, frags, it, seqId)
        invariant depthBytes == old(depthBytes) - Bytes(found)
        invariant sent == old(sent) + if found == [] then {} else {seqId}
        decreases |frags| - it
      {
        if frags[it].seqId == seqId {
          MovingTakes(old(frags), found, frags, it, seqId);
          BytesOfMore(found, frags[it]);
          sent := sent + {seqId};
          depthBytes := depthBytes - frags[it].bytes;
          found := found + [frags[it]];
          frags := frags[..it] + frags[it + 1..];
          depthFrags := |frags|;
        } else {
          MovingSkips(old(frags), found, frags, it, seqId);
          it := it + 1;
        }
      }
    }

    // Ignored mode: everything goes to the output (lines 433-444).
    method MoveAll() returns (all: seq<Fragment>)
      modifies this
      ensures all == old(frags) && View() == old(View()).(frags := [], depthFrags := 0, depthBytes := 0, kept := false)
    {
      all := frags;
      frags, depthFrags, depthBytes, kept := [], 0, 0, false;
    }
  }
}
