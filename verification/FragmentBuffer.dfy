/** FragmentBuffer as the object the source implements (artdaq/DAQrate/FragmentBuffer.cc): a map of data buffers updated
    in place, a request buffer, and the sequence counter. Every method is proved to move View() as the steps of Pipeline
    say. */
module FragmentBuffers {
  import opened Ordered
  import opened DataBuffers
  import opened Pipeline
  import opened Arrivals
  import opened BufferLoops
  import opened CounterRuns
  import opened DataBufferObjects
  import LatestRuns
  import Requests

  ghost predicate Distinct(buffers: map<nat, DataBuffer>) {
    forall i, j :: i in buffers && j in buffers && i != j ==> buffers[i] != buffers[j]
  }

  ghost predicate AllEmpty(buffers: map<nat, DataBuffer>)
    reads buffers.Values
  {
    forall id :: id in buffers ==> buffers[id].View() == EMPTY_BUF
  }

  lemma DistinctMore(buffers: map<nat, DataBuffer>, id: nat, b: DataBuffer)
    requires Distinct(buffers) && b !in buffers.Values
    ensures Distinct(buffers[id := b])
    ensures buffers[id := b].Values <= buffers.Values + {b}
  {
    assert forall i :: i in buffers ==> buffers[i] in buffers.Values;
  }

  // One new, empty data buffer for each fragment ID.
  method MakeBuffers(ids: set<nat>) returns (buffers: map<nat, DataBuffer>)
    ensures buffers.Keys == ids && Distinct(buffers) && AllEmpty(buffers) && fresh(buffers.Values)
  {
    buffers := map[];
    var rest := ids;
    while rest != {}
      invariant rest <= ids && buffers.Keys == ids - rest
      invariant Distinct(buffers) && AllEmpty(buffers) && fresh(buffers.Values)
      decreases rest
    {
      var id := Least(rest);
      var b := new DataBuffer();
      DistinctMore(buffers, id, b);
      buffers := buffers[id := b];
      rest := rest - {id};
    }
  }

  class FragmentBuffer {
    const cfg: Config
    const buffers: map<nat, DataBuffer>
    const requests: Requests.RequestBuffer
    var next: nat
    var system: seq<Fragment>
    // History: everything emitted, and the sequence IDs that timed out.
    ghost var emitted: seq<Output>
    ghost var passed: set<nat>

    // No two fragment IDs share a data buffer.
    ghost predicate Valid() {
      Distinct(buffers)
    }

    ghost function Bufs(): map<nat, Buf>
      reads buffers.Values
    {
      map id | id in buffers :: buffers[id].View()
    }

    ghost function View(): Pipe
      reads this, requests, buffers.Values
    {
      Pipe(next, Bufs(), requests.View(), emitted, passed)
    }

    constructor (cfg: Config, ids: set<nat>, requests: Requests.RequestBuffer)
      ensures Valid() && this.cfg == cfg && this.requests == requests && system == []
      ensures View() == Pipe(1, FreshPipe(ids, 0).bufs, requests.View(), [], {})
      ensures fresh(buffers.Values)
    {
      this.cfg, this.requests, next, system, emitted, passed := cfg, requests, 1, [], [], {};
      var made := MakeBuffers(ids);
      buffers := made;
      new;
      assert Bufs() == FreshPipe(ids, 0).bufs;
    }

    lemma UpdatedOne(id: nat, was: map<nat, Buf>, b: Buf)
      requires Valid() && id in buffers && was.Keys == buffers.Keys
      requires forall k :: k in buffers && k != id ==> buffers[k].View() == was[k]
      requires buffers[id].View() == b
      ensures Bufs() == was[id := b]
    {
    }

    // ---------------------------------------------------------------- adding and pruning

    method AddOne(id: nat, fs: seq<Fragment>)
      requires Valid() && id in buffers && fs != [] && DepthsExact(buffers[id].View())
      modifies buffers[id]
      ensures Bufs() == old(Bufs())[id := Receive(cfg, old(Bufs())[id], fs)]
    {
      ghost var was := Bufs();
      buffers[id].Add(cfg, fs);
      UpdatedOne(id, was, buffers[id].View());
    }

    method AddEach(fs: seq<Fragment>, byId: map<nat, seq<Fragment>>)
      requires Valid() && AllExact(Bufs()) && byId.Keys <= buffers.Keys && Groups(byId, fs)
      modifies buffers.Values
      ensures Bufs() == AfterAdd(cfg, old(Bufs()), fs)
    {
      ghost var was, target := Bufs(), AfterAdd(cfg, Bufs(), fs);
      var rest := byId.Keys;
      HalfBegins(was, target, rest);
      while rest != {}
        invariant rest <= byId.Keys && Half(was, target, Bufs(), rest)
        decreases rest
      {
        var id := Least(rest);
        HalfNext(was, target, Bufs(), rest, id);
        AddOne(id, byId[id]);
        rest := rest - {id};
      }
      HalfEnds(was, target, Bufs());
    }

    // The first loop of AddFragmentsToBuffer: system fragments are set aside, data fragments grouped by their ID;
    // a fragment with an undeclared ID is an exception.
    method GroupById(fs: seq<Fragment>) returns (ok: bool, byId: map<nat, seq<Fragment>>)
      modifies this`system
      ensures ok == (Accepted(buffers.Keys, fs) == |fs|)
      ensures system == old(system) + SystemOnes(fs[..Accepted(buffers.Keys, fs)])
      ensures ok ==> byId.Keys <= buffers.Keys && Groups(byId, fs)
    {
      byId := map[];
      var i := 0;
      while i < |fs| && (fs[i].system || fs[i].id in buffers)
        invariant i <= |fs| && GroupedTo(buffers.Keys, old(system), fs[..i], system, byId)
      {
        GroupedNext(buffers.Keys, old(system), fs, i, system, byId);
        byId := GroupOne(fs[i], byId);
        i := i + 1;
      }
      GroupedAll(buffers.Keys, old(system), fs, i, system, byId);
      ok := i == |fs|;
    }

    method GroupOne(f: Fragment, byId: map<nat, seq<Fragment>>) returns (more: map<nat, seq<Fragment>>)
      modifies this`system
      ensures more == Grouped(byId, f) && system == old(system) + if f.system then [f] else []
    {
      more := byId;
      if f.system {
        system := system + [f];
      } else {
        more := byId[f.id := (if f.id in byId then byId[f.id] else []) + [f]];
      }
    }

    method AddFragmentsToBuffer(fs: seq<Fragment>) returns (ok: bool)
      requires Valid() && AllExact(Bufs())
      modifies this`system, buffers.Values
      ensures ok <==> forall f :: f in fs ==> f.system || f.id in buffers
      ensures View() == old(View()).(bufs := if ok then AfterAdd(cfg, old(Bufs()), fs) else old(Bufs()))
      ensures system == old(system) + SystemOnes(if ok then fs else fs[..Accepted(buffers.Keys, fs)])
      ensures AllExact(Bufs())
    {
      AddKeepsExact(cfg, Bufs(), fs);
      var byId;
      ok, byId := GroupById(fs);
      assert fs[..|fs|] == fs;
      if ok { AddEach(fs, byId); } else { assert fs[Accepted(buffers.Keys, fs)] in fs; }
    }

    method PruneOne(id: nat)
      requires Valid() && id in buffers && DepthsExact(buffers[id].View())
      modifies buffers[id]
      ensures Bufs() == old(Bufs())[id := Check(cfg, old(Bufs())[id])]
    {
      ghost var was := Bufs();
      buffers[id].Prune(cfg);
      UpdatedOne(id, was, buffers[id].View());
    }

    method CheckDataBuffers()
      requires Valid() && AllExact(Bufs())
      modifies buffers.Values
      ensures View() == Step(cfg, old(View()), Op.Prune)
      ensures AllExact(Bufs())
    {
      StepKeepsExact(cfg, View(), Op.Prune);
      ghost var was, target := Bufs(), Checked(cfg, Bufs());
      var rest := buffers.Keys;
      HalfBegins(was, target, rest);
      while rest != {}
        invariant rest <= buffers.Keys && Half(was, target, Bufs(), rest)
        decreases rest
      {
        var id := Least(rest);
        HalfNext(was, target, Bufs(), rest, id);
        PruneOne(id);
        rest := rest - {id};
      }
      HalfEnds(was, target, Bufs());
    }

    ghost method Emit(more: seq<Output>)
      modifies this`emitted
      ensures emitted == old(emitted) + more && Bufs() == old(Bufs())
    {
      emitted := emitted + more;
    }

    // ---------------------------------------------------------------- answering one request

    // The part of one data buffer in the answer to a request.
    method AnswerOne(id: nat, seqId: nat, ts: nat, late: bool) returns (out: seq<Output>)
      requires Valid() && id in buffers && DepthsExact(buffers[id].View())
      modifies buffers[id]
      ensures out == Answer(cfg, old(Bufs())[id], id, seqId, ts, late)
      ensures Bufs() == old(Bufs())[id := AnsweredBuf(cfg, old(Bufs())[id], seqId, ts, late)]
    {
      ghost var was := Bufs();
      match cfg.mode
      case Single =>
        out := if buffers[id].depthFrags > 0 then Copies(buffers[id].frags, seqId, ts) else [EmptyFragment(seqId, id)];
      case Buffer =>
        var content := buffers[id].RespondAll(cfg);
        out := [Container(seqId, id, ts, false, content)];
      case Window =>
        out := buffers[id].AnswerWindow(cfg, id, seqId, ts, late);
      case SequenceID =>
        out := buffers[id].TakeSequence(cfg, id, seqId, ts);
      case Ignored =>
        out := [];
      UpdatedOne(id, was, buffers[id].View());
    }

    method AnswerBuffers(seqId: nat, ts: nat, late: set<(nat, nat)>) returns (sent: seq<Output>)
      requires Valid() && AllExact(Bufs())
      modifies buffers.Values
      ensures Bufs() == AnsweredBufs(cfg, old(Bufs()), seqId, ts, late)
      ensures sent == AnswersOf(cfg, old(Bufs()), Sorted(old(Bufs()).Keys), seqId, ts, late)
    {
      ghost var was, ids := Bufs(), [];
      sent := [];
      var rest := buffers.Keys;
      AnsweringBegins(cfg, was, rest, seqId, ts, late);
      while rest != {}
        invariant rest <= buffers.Keys && Answering(cfg, was, ids, rest, Bufs(), sent, seqId, ts, late)
        decreases |rest|
      {
        var id := Least(rest);
        AnsweringNext(cfg, was, ids, rest, Bufs(), sent, seqId, ts, late);
        var out := AnswerOne(id, seqId, ts, (seqId, id) in late);
        sent, rest, ids := sent + out, rest - {id}, ids + [id];
      }
      AnsweringEnds(cfg, was, ids, Bufs(), sent, seqId, ts, late);
    }

    method AnswerEach(seqId: nat, ts: nat, late: set<(nat, nat)>) returns (sent: seq<Output>)
      requires Valid() && AllExact(Bufs())
      modifies this`emitted, buffers.Values
      ensures View() == AnswerAll(cfg, old(View()), seqId, ts, late)
      ensures emitted == old(emitted) + sent
      ensures AllExact(Bufs())
    {
      ghost var p := View();
      AnswersKeepExact(cfg, p.bufs, seqId, ts, late);
      sent := AnswerBuffers(seqId, ts, late);
      Emit(sent);
      AnswerAllIs(cfg, p, seqId, ts, late, Bufs(), sent);
    }

    // ---------------------------------------------------------------- Single and Buffer modes

    method SendEmpties(seqId: nat) returns (sent: seq<Output>)
      ensures sent == Empties(Sorted(Bufs().Keys), seqId)
    {
      sent := [];
      assert buffers.Keys == Bufs().Keys;
      var ids := InOrder(buffers.Keys);
      for i := 0 to |ids|
        invariant sent == Empties(ids[..i], seqId)
      {
        assert ids[..i + 1] == ids[..i] + [ids[i]];
        sent := sent + [EmptyFragment(seqId, ids[i])];
      }
      assert ids[..|ids|] == ids;
    }

    method SkipOne() returns (sent: seq<Output>)
      modifies this`next, this`emitted
      ensures View() == Pipeline.SkipOne(cfg, old(View()))
      ensures emitted == old(emitted) + sent
    {
      sent := [];
      if cfg.sendMissing { sent := SendEmpties(next); }
      Emit(sent);
      next := next + 1;
    }

    // sendEmptyFragments
    method SendEmptyFragments(target: nat) returns (sent: seq<Output>)
      modifies this`next, this`emitted
      ensures View() == SkipTo(cfg, old(View()), target)
      ensures emitted == old(emitted) + sent
    {
      sent := [];
      ghost var p, goal := View(), SkipTo(cfg, View(), target);
      while target > next
        invariant emitted == old(emitted) + sent
        invariant p == View() && SkipTo(cfg, p, target) == goal
        decreases target - next
      {
        SkipToNext(cfg, p, target);
        var empties := SkipOne();
        Joined(old(emitted), sent, empties);
        p := Pipeline.SkipOne(cfg, p);
        sent := sent + empties;
      }
    }

    // Only the latest request matters: the others are removed, oldest first.
    method RemoveAllButLast() returns (pending: map<nat, nat>)
      modifies requests
      ensures var rb := old(requests.View());
              if rb.requests == map[] then pending == map[] && requests.View() == rb
              else
                var last := Greatest(rb.requests.Keys);
                pending.Keys == {last} && pending[last] == rb.requests[last] && requests.View() == RemoveOlder(rb)
    {
      pending := requests.GetRequests();
      if pending == map[] { return; }
      ghost var all := pending;
      ghost var last := Greatest(all.Keys);
      ghost var goal := RemoveOlder(requests.View());
      while |pending| > 1
        invariant last in pending && pending.Keys <= all.Keys && forall k :: k in pending ==> pending[k] == all[k]
        invariant RemoveEach(requests.View(), Sorted(pending.Keys - {last})) == goal
        decreases |pending|
      {
        var first := Least(pending.Keys);
        OlderFirst(pending.Keys, last);
        requests.RemoveRequest(first);
        pending := pending - {first};
      }
      OnlyLast(pending.Keys, last);
    }

    // The answer to the request for next_sequence_id_.
    method AnswerNext(ts: nat) returns (sent: seq<Output>)
      requires Valid() && AllExact(Bufs())
      modifies this`next, this`emitted, requests, buffers.Values
      ensures View() == Respond(cfg, old(View()), ts)
      ensures emitted == old(emitted) + sent
    {
      sent := AnswerEach(next, ts, {});
      FinishRequest();
    }

    method FinishRequest()
      modifies this`next, requests
      ensures View() == old(View()).(rb := Requests.AfterRemove(old(requests.View()), old(next)), next := old(next) + 1)
    {
      requests.RemoveRequest(next);
      next := next + 1;
    }

    // The rest of a Single or Buffer mode pass, once only request last is left.
    method AnswerLast(last: nat, ts: nat) returns (sent: seq<Output>)
      requires Valid() && AllExact(Bufs())
      modifies this`next, this`emitted, requests, buffers.Values
      ensures View() == AnswerLatest(cfg, old(View()), last, ts)
      ensures emitted == old(emitted) + sent
    {
      LatestRuns.SkipKeepsBuffers(cfg, View(), last);
      sent := SendEmptyFragments(last);
      if next == last {
        var more := AnswerNext(ts);
        Joined(old(emitted), sent, more);
        sent := sent + more;
      }
    }

    // applyRequestsSingleMode and applyRequestsBufferMode
    method ApplyRequestsLatest() returns (sent: seq<Output>)
      requires Valid() && AllExact(Bufs())
      modifies this`next, this`emitted, requests, buffers.Values
      ensures View() == LatestPass(cfg, old(View()))
      ensures emitted == old(emitted) + sent
    {
      sent := [];
      ghost var p := View();
      var found, last, ts := LatestRequest();
      LatestPassIs(cfg, p, View(), last);
      if found { sent := AnswerLast(last, ts); }
    }

    method LatestRequest() returns (found: bool, last: nat, ts: nat)
      modifies requests
      ensures found <==> old(requests.View()).requests != map[]
      ensures !found ==> View() == old(View())
      ensures found ==>
                var rb := old(requests.View());
                last == Greatest(rb.requests.Keys) && ts == rb.requests[last]
                  && View() == old(View()).(rb := RemoveOlder(rb))
    {
      var pending := RemoveAllButLast();
      found, last, ts := pending != map[], 0, 0;
      if found {
        last := Least(pending.Keys);
        ts := pending[last];
      }
    }

    // ---------------------------------------------------------------- Window and SequenceID modes

    method ForgetOne(id: nat, seqId: nat)
      requires Valid() && id in buffers
      modifies buffers[id]
      ensures Bufs() == old(Bufs())[id := old(Bufs())[id].(sent := old(Bufs())[id].sent - {seqId})]
    {
      ghost var was := Bufs();
      buffers[id].sent := buffers[id].sent - {seqId};
      UpdatedOne(id, was, buffers[id].View());
    }

    method ForgetWindow(seqId: nat)
      requires Valid()
      modifies buffers.Values
      ensures Bufs() == Forget(old(Bufs()), seqId)
    {
      ghost var was, target := Bufs(), Forget(Bufs(), seqId);
      var rest := buffers.Keys;
      HalfBegins(was, target, rest);
      while rest != {}
        invariant rest <= buffers.Keys && Half(was, target, Bufs(), rest)
        decreases rest
      {
        var id := Least(rest);
        HalfNext(was, target, Bufs(), rest, id);
        ForgetOne(id, seqId);
        rest := rest - {id};
      }
      HalfEnds(was, target, Bufs());
    }

    // The first loop of checkSentWindows.
    method Inspect(seqId: nat, expired: set<nat>) returns (complete: bool, timeout: bool)
      ensures complete == SentByAll(Bufs(), seqId)
      ensures timeout == (seqId in expired && SentBySome(Bufs(), seqId))
    {
      complete, timeout := true, false;
      ghost var bufs := Bufs();
      var rest := buffers.Keys;
      while rest != {}
        invariant rest <= buffers.Keys
        invariant complete ==
                  forall id :: id in bufs && id !in rest ==> seqId in bufs[id].sent && bufs[id].highest >= seqId
        invariant timeout == (seqId in expired && exists id :: id in bufs && id !in rest && seqId in bufs[id].sent)
        decreases rest
      {
        var id := Least(rest);
        assert bufs[id] == buffers[id].View();
        if seqId !in buffers[id].sent || buffers[id].highest < seqId { complete := false; }
        if seqId in buffers[id].sent && seqId in expired { timeout := true; }
        rest := rest - {id};
      }
    }

    method Complete(seqId: nat)
      requires Valid()
      modifies this`next, requests, buffers.Values
      ensures View() == CompleteOne(old(View()), seqId)
    {
      requests.RemoveRequest(seqId);
      if next == seqId {
        ForgetWindow(seqId);
        next := next + 1;
      }
    }

    method PassNext()
      requires Valid()
      modifies this`next, this`passed, requests, buffers.Values
      ensures View() == PassOne(old(View()))
    {
      ForgetWindow(next);
      RecordPassed();
      FinishRequest();
    }

    ghost method RecordPassed()
      modifies this`passed
      ensures View() == old(View()).(passed := old(passed) + {next})
    {
      passed := passed + {next};
    }

    method PassTimedOut(seqId: nat)
      requires Valid()
      modifies this`next, this`passed, requests, buffers.Values
      ensures View() == PassThrough(old(View()), seqId)
    {
      ghost var p, goal := View(), PassThrough(View(), seqId);
      while next <= seqId
        invariant p == View() && PassThrough(p, seqId) == goal
        decreases seqId + 1 - next
      {
        PassNext();
        p := PassOne(p);
      }
    }

    method CheckSentWindows(seqId: nat, expired: set<nat>)
      requires Valid()
      modifies this`next, this`passed, requests, buffers.Values
      ensures View() == CheckSent(old(View()), seqId, expired)
    {
      var complete, timeout := Inspect(seqId, expired);
      if complete { Complete(seqId); }
      if timeout { PassTimedOut(seqId); }
    }

    // One request of the loops of applyRequestsWindowMode and applyRequestsSequenceIDMode.
    method ServeOne(seqId: nat, ts: nat, late: set<(nat, nat)>, expired: set<nat>) returns (sent: seq<Output>)
      requires Valid() && AllExact(Bufs())
      modifies this`next, this`passed, this`emitted, requests, buffers.Values
      ensures View() == Serve(cfg, old(View()), seqId, ts, late, expired)
      ensures emitted == old(emitted) + sent
      ensures AllExact(Bufs())
    {
      ServeKeepsExact(cfg, View(), seqId, ts, late, expired);
      sent := [];
      if cfg.mode == Window && seqId < next {
        requests.RemoveRequest(seqId);
      } else if cfg.mode == Window && ts == cfg.invalidTimestamp {
      } else {
        sent := AnswerEach(seqId, ts, late);
        CheckSentWindows(seqId, expired);
      }
    }

    method ServePending(late: set<(nat, nat)>, expired: set<nat>) returns (sent: seq<Output>)
      requires Valid() && AllExact(Bufs())
      modifies this`next, this`passed, this`emitted, requests, buffers.Values
      ensures var p := old(View());
              View() == ServeEach(cfg, p, p.rb.requests, Sorted(p.rb.requests.Keys), late, expired)
      ensures emitted == old(emitted) + sent
    {
      var pending := requests.GetRequests();
      var rest := InOrder(pending.Keys);
      sent := [];
      ghost var p, goal := View(), ServeEach(cfg, View(), pending, rest, late, expired);
      while rest != []
        invariant (forall k :: k in rest ==> k in pending) && AllExact(Bufs())
        invariant emitted == old(emitted) + sent
        invariant p == View() && ServeEach(cfg, p, pending, rest, late, expired) == goal
        decreases |rest|
      {
        var seqId := rest[0];
        ServeNext(cfg, p, pending, rest, late, expired);
        var more := ServeOne(seqId, pending[seqId], late, expired);
        p := Serve(cfg, p, seqId, pending[seqId], late, expired);
        Joined(old(emitted), sent, more);
        sent, rest := sent + more, rest[1..];
      }
    }

    // The IDs of all windows sent so far.
    method SentIds() returns (ids: set<nat>)
      ensures ids == AllSent(Bufs())
    {
      ghost var bufs := Bufs();
      ids := {};
      var rest := buffers.Keys;
      while rest != {}
        invariant rest <= buffers.Keys
        invariant forall k :: k in ids <==> exists id :: id in bufs && id !in rest && k in bufs[id].sent
        decreases rest
      {
        var id := Least(rest);
        assert bufs[id] == buffers[id].View();
        ids := ids + buffers[id].sent;
        rest := rest - {id};
      }
    }

    // The sweep over all sent windows, in ascending order.
    method Sweep(expired: set<nat>)
      requires Valid()
      modifies this`next, this`passed, requests, buffers.Values
      ensures View() == CheckEach(old(View()), Sorted(AllSent(old(Bufs()))), expired)
    {
      var ids := SentIds();
      var rest := InOrder(ids);
      ghost var p, goal := View(), CheckEach(View(), rest, expired);
      while rest != []
        invariant p == View() && CheckEach(p, rest, expired) == goal
        decreases |rest|
      {
        CheckSentWindows(rest[0], expired);
        p := CheckSent(p, rest[0], expired);
        rest := rest[1..];
      }
    }

    // applyRequestsWindowMode and applyRequestsSequenceIDMode
    method ApplyRequestsWaiting(late: set<(nat, nat)>, expired: set<nat>, expiredLater: set<nat>)
      returns (sent: seq<Output>)
      requires Valid() && AllExact(Bufs())
      modifies this`next, this`passed, this`emitted, requests, buffers.Values
      ensures View() == WindowPass(cfg, old(View()), late, expired, expiredLater)
      ensures emitted == old(emitted) + sent
    {
      sent := ServePending(late, expired);
      Sweep(expiredLater);
    }

    // ---------------------------------------------------------------- Ignored mode

    method DrainOne(id: nat) returns (out: seq<Output>)
      requires Valid() && id in buffers
      modifies this`next, buffers[id]
      ensures out == Plains(old(Bufs())[id].frags)
      ensures next == After(old(Bufs())[id].frags, old(next))
      ensures Bufs() == old(Bufs())[id := Drained(old(Bufs())[id])]
    {
      ghost var was := Bufs();
      var b := buffers[id];
      if b.frags != [] && b.frags[|b.frags| - 1].seqId >= next { next := b.frags[|b.frags| - 1].seqId + 1; }
      var all := b.MoveAll();
      out := Plains(all);
      UpdatedOne(id, was, b.View());
    }

    method DrainAll() returns (sent: seq<Output>)
      requires Valid()
      modifies this`next, buffers.Values
      ensures var was := old(Bufs());
              var ids := Sorted(was.Keys);
              Bufs() == AllDrained(was) && next == NextAfter(was, ids, old(next)) && sent == Everything(was, ids)
    {
      ghost var was, ids := Bufs(), [];
      sent := [];
      var rest := buffers.Keys;
      DrainingBegins(was, rest, next);
      while rest != {}
        invariant rest <= buffers.Keys && Draining(was, ids, rest, Bufs(), sent, old(next), next)
        decreases |rest|
      {
        var id := Least(rest);
        DrainingNext(was, ids, rest, Bufs(), sent, old(next), next);
        var out := DrainOne(id);
        sent, rest, ids := sent + out, rest - {id}, ids + [id];
      }
      DrainingEnds(was, ids, Bufs(), sent, old(next), next);
    }

    method ApplyRequestsIgnored() returns (sent: seq<Output>)
      requires Valid()
      modifies this`next, this`emitted, buffers.Values
      ensures View() == IgnoredPass(old(View()))
      ensures emitted == old(emitted) + sent
    {
      sent := DrainAll();
      Emit(sent);
    }

    // ---------------------------------------------------------------- applyRequests

    method Dispatch(late: set<(nat, nat)>, expired: set<nat>, expiredLater: set<nat>) returns (sent: seq<Output>)
      requires Valid() && AllExact(Bufs())
      modifies this`next, this`passed, this`emitted, requests, buffers.Values
      ensures View() == Step(cfg, old(View()), Pass(late, expired, expiredLater))
      ensures emitted == old(emitted) + sent
    {
      match cfg.mode
      case Single => sent := ApplyRequestsLatest();
      case Buffer => sent := ApplyRequestsLatest();
      case Window => sent := ApplyRequestsWaiting(late, expired, expiredLater);
      case SequenceID => sent := ApplyRequestsWaiting(late, expired, expiredLater);
      case Ignored => sent := ApplyRequestsIgnored();
    }

    method TakeSystemFragments() returns (out: seq<Output>)
      modifies this`system
      ensures out == Plains(old(system)) && system == []
    {
      out := Plains(system);
      system := [];
    }

    // What applyRequests does once it has data or requests: prune, hand out the system fragments, answer.
    method ApplyRequests(late: set<(nat, nat)>, expired: set<nat>, expiredLater: set<nat>)
      returns (frags: seq<Output>, ghost answers: seq<Output>)
      requires Valid() && AllExact(Bufs())
      modifies this`next, this`passed, this`emitted, this`system, requests, buffers.Values
      ensures View() == Applied(cfg, old(View()), late, expired, expiredLater)
      ensures frags == Plains(old(system)) + answers && emitted == old(emitted) + answers && system == []
      ensures AllExact(Bufs())
    {
      if cfg.mode != Ignored { CheckDataBuffers(); }
      StepKeepsExact(cfg, View(), Pass(late, expired, expiredLater));
      var waiting := TakeSystemFragments();
      var sent := Dispatch(late, expired, expiredLater);
      answers := sent;
      frags := waiting + sent;
    }
  }
}
