/** SharedMemoryEventManager as an object: its loops, proved against the steps of EventTable. */
module EventManagers {
  import opened Ordered
  import opened EventTable
  import opened EventInvariants
  import opened EventSteps
  import opened EventDropped
  import opened DroppedData

  // order lists the buffers by increasing sequence ID, as bufferComparator sorts them.
  ghost predicate InSequence(slots: seq<Slot>, order: seq<nat>, buffers: set<nat>) {
    && |order| == |buffers| && (forall i :: 0 <= i < |order| ==> order[i] in buffers && order[i] < |slots|)
    && forall i, j :: 0 <= i < j < |order| ==> slots[order[i]].seqId < slots[order[j]].seqId
  }

  ghost function IdsOf(slots: seq<Slot>, order: seq<nat>): seq<nat>
    requires forall i :: 0 <= i < |order| ==> order[i] < |slots|
  {
    seq(|order|, i requires 0 <= i < |order| => slots[order[i]].seqId)
  }

  // Releasing in that order appends the sorted IDs to the log.
  lemma InSequenceIsSorted(slots: seq<Slot>, order: seq<nat>, buffers: set<nat>)
    requires InSequence(slots, order, buffers) && Distinct(slots) && buffers <= In(slots, Writing)
    ensures IdsOf(slots, order) == Sorted(SeqIds(slots, buffers))
    ensures forall b :: b in order <==> b in buffers
  {
    var ids := IdsOf(slots, order);
    OrderCovers(slots, order, buffers);
    forall q ensures q in ids <==> q in SeqIds(slots, buffers) {
      if q in SeqIds(slots, buffers) {
        var b :| b in buffers && slots[b].seqId == q;
        var i :| 0 <= i < |order| && order[i] == b;
        assert ids[i] == q;
      }
    }
    IncreasingIsUnique(ids, Sorted(SeqIds(slots, buffers)));
  }

  lemma {:induction false} OrderCovers(slots: seq<Slot>, order: seq<nat>, buffers: set<nat>)
    requires InSequence(slots, order, buffers)
    ensures forall b :: b in buffers <==> b in order
  {
    if order != [] {
      var last, front := order[|order| - 1], order[..|order| - 1];
      assert last in buffers;
      forall i | 0 <= i < |front| ensures front[i] in buffers - {last} {
        assert slots[order[i]].seqId < slots[order[|order| - 1]].seqId;
      }
      OrderCovers(slots, front, buffers - {last});
      assert order == front + [last];
    }
  }

  ghost predicate PartlySorted(slots: seq<Slot>, order: seq<nat>, buffers: set<nat>, rest: set<nat>) {
    && rest <= buffers && InSequence(slots, order, buffers - rest)
    && forall a, b :: a in buffers - rest && b in rest ==> a < |slots| && b < |slots| && slots[a].seqId < slots[b].seqId
  }

  lemma SortNext(slots: seq<Slot>, order: seq<nat>, buffers: set<nat>, rest: set<nat>, next: nat)
    requires PartlySorted(slots, order, buffers, rest) && next in rest && (forall b :: b in buffers ==> b < |slots|)
    requires forall b :: b in rest && b != next ==> slots[next].seqId < slots[b].seqId
    ensures PartlySorted(slots, order + [next], buffers, rest - {next})
  {
    var done := buffers - rest;
    assert buffers - (rest - {next}) == done + {next};
  }

  function FirstOf(order: seq<nat>, i: nat): set<nat>
    requires i <= |order|
  {
    set b | b in order[..i]
  }

  // The table when the first i buffers of the order have been released.
  ghost function ReleasedFirst(t: Table, order: seq<nat>, i: nat): Table
    requires InSequence(t.slots, order, t.pending) && i <= |order|
  {
    t.(slots := MarkFull(t.slots, FirstOf(order, i)), pending := t.pending - FirstOf(order, i),
       log := t.log + IdsOf(t.slots, order[..i]), runEvents := t.runEvents + i)
  }

  lemma ReleasedNone(t: Table, order: seq<nat>)
    requires InSequence(t.slots, order, t.pending)
    ensures ReleasedFirst(t, order, 0) == t
  {
    assert MarkFull(t.slots, {}) == t.slots;
  }

  lemma FirstOnes(slots: seq<Slot>, order: seq<nat>, buffers: set<nat>, i: nat)
    requires InSequence(slots, order, buffers) && i < |order|
    ensures order[i] !in FirstOf(order, i) && FirstOf(order, i + 1) == FirstOf(order, i) + {order[i]}
    ensures IdsOf(slots, order[..i + 1]) == IdsOf(slots, order[..i]) + [slots[order[i]].seqId]
  {
    assert order[..i + 1] == order[..i] + [order[i]];
    assert forall j :: 0 <= j < i ==> slots[order[j]].seqId < slots[order[i]].seqId;
  }

  lemma MarkMore(slots: seq<Slot>, done: set<nat>, b: nat)
    requires b < |slots| && b !in done
    ensures MarkFull(slots, done)[b] == slots[b]
    ensures MarkFull(slots, done)[b := slots[b].(status := Full)] == MarkFull(slots, done + {b})
  {
  }

  lemma ReleaseNext(t: Table, order: seq<nat>, i: nat)
    requires InSequence(t.slots, order, t.pending) && i < |order|
    ensures var u, b := ReleasedFirst(t, order, i), order[i];
            && b < |u.slots|
            && ReleasedFirst(t, order, i + 1) ==
                 u.(slots := u.slots[b := u.slots[b].(status := Full)], pending := u.pending - {b},
                    log := u.log + [u.slots[b].seqId], runEvents := u.runEvents + 1)
  {
    FirstOnes(t.slots, order, t.pending, i);
    MarkMore(t.slots, FirstOf(order, i), order[i]);
  }

  lemma ReleasedAll(t: Table, order: seq<nat>)
    requires InSequence(t.slots, order, t.pending) && Distinct(t.slots) && t.pending <= In(t.slots, Writing)
    ensures ReleasedFirst(t, order, |order|) == ReleasePending(t)
  {
    InSequenceIsSorted(t.slots, order, t.pending);
    assert order[..|order|] == order;
    assert FirstOf(order, |order|) == t.pending;
  }

  // The table after DoneWritingFragment.
  ghost function Ended(cfg: Config, t: Table, seqId: nat, stale: set<nat>, isDropped: bool): Table
    requires t.pending == {}
  {
    if isDropped then DroppedDone(cfg, t, seqId, stale) else Done(cfg, t, seqId, stale)
  }

  lemma EndsSteadyIff(cfg: Config, t: Table, u: Table, seqId: nat, stale: set<nat>, isDropped: bool)
    requires Sane(cfg) && Steady(cfg, t) && (!isDropped ==> seqId in t.inFlight)
    requires u == Ended(cfg, t, seqId, stale, isDropped)
    ensures Steady(cfg, u) <==> !isDropped || Harmless(t, seqId, stale)
  {
    if isDropped { HarmlessIff(cfg, t, seqId, stale); } else { DoneKeepsSteady(cfg, t, seqId, stale); }
  }

  // Only a dropped fragment can be done without a buffer, and that leaves the table alone.
  lemma OnlyDroppedHasNone(cfg: Config, t: Table, seqId: nat, stale: set<nat>, isDropped: bool)
    requires Steady(cfg, t) && Holding(t.slots, seqId) == {} && (!isDropped ==> seqId in t.inFlight)
    ensures Ended(cfg, t, seqId, stale, isDropped) == t
  {
  }

  class EventManager {
    const cfg: Config
    var slots: seq<Slot>
    var active: set<nat>
    var pending: set<nat>
    var incomplete: map<nat, nat>
    var released: set<nat>
    var runEvents: nat
    var tokensSent: nat
    var dropped: seq<RawHeader>
    ghost var opens: nat
    ghost var completed: set<nat>
    ghost var log: seq<nat>
    ghost var accepted: multiset<nat>
    ghost var inFlight: multiset<nat>

    ghost function View(): Table
      reads this
    {
      Table(slots, active, pending, incomplete, released, runEvents, tokensSent, opens, completed, log, accepted,
        inFlight)
    }

    ghost predicate Valid()
      reads this
    {
      Sane(cfg) && Steady(cfg, View())
    }

    // startRun on a pool of empty buffers.
    constructor (cfg: Config, queueSize: nat)
      requires Sane(cfg)
      ensures this.cfg == cfg && Valid() && View() == StartRun(cfg, Pool(queueSize)) && dropped == []
    {
      this.cfg := cfg;
      slots, active, pending, incomplete, released := Pool(queueSize), {}, {}, map[], {};
      runEvents, tokensSent := 0, if cfg.routing then queueSize else 0;
      opens, completed, log, accepted, inFlight, dropped := 0, {}, [], multiset{}, multiset{}, [];
    }

    // The search of getBufferForSequenceID_, SharedMemoryEventManager.cc:1130-1139.
    method FindBuffer(seqId: nat) returns (found: bool, buffer: nat)
      ensures found <==> Holding(slots, seqId) != {}
      ensures found ==> buffer == Least(Holding(slots, seqId))
    {
      for b := 0 to |slots|
        invariant forall a :: 0 <= a < b ==> a !in Holding(slots, seqId)
      {
        if slots[b].status == Writing && slots[b].seqId == seqId {
          assert b in Holding(slots, seqId);
          return true, b;
        }
      }
      return false, 0;
    }

    // sorted_buffers.sort(bufferComparator)
    method SortPending() returns (order: seq<nat>)
      requires Distinct(slots) && pending <= In(slots, Writing)
      ensures InSequence(slots, order, pending)
    {
      order := [];
      var rest := pending;
      assert pending - rest == {};
      while rest != {}
        invariant PartlySorted(slots, order, pending, rest)
        decreases rest
      {
        var next := FirstInSequence(rest);
        SortNext(slots, order, pending, rest, next);
        order, rest := order + [next], rest - {next};
      }
      assert pending - {} == pending;
    }

    method FirstInSequence(buffers: set<nat>) returns (first: nat)
      requires buffers != {} && Distinct(slots) && buffers <= In(slots, Writing)
      ensures first in buffers && forall b :: b in buffers && b != first ==> slots[first].seqId < slots[b].seqId
    {
      first :| first in buffers;
      var rest := buffers - {first};
      while rest != {}
        invariant first in buffers - rest && rest <= buffers
        invariant forall b :: b in buffers - rest && b != first ==> slots[first].seqId < slots[b].seqId
        decreases rest
      {
        var b :| b in rest;
        rest := rest - {b};
        if slots[b].seqId < slots[first].seqId {
          first := b;
        }
      }
    }

    // The first loop of check_pending_buffers_, SharedMemoryEventManager.cc:1275-1319.
    method MoveExpired(stale: set<nat>)
      modifies this`active, this`pending, this`incomplete
      ensures View() == Expire(cfg, old(View()), stale)
    {
      ghost var t := View();
      ghost var gone := {};
      for b := 0 to |slots|
        invariant forall a :: a in gone ==> a < b && a in Expired(t, stale)
        invariant forall a :: a in Expired(t, stale) && a < b ==> a in gone
        invariant active == t.active - gone && pending == t.pending + gone
        invariant incomplete == WithMissing(cfg, t.slots, t.incomplete, gone)
      {
        assert b !in gone;
        var s := slots[b];
        if s.status == Writing && b in stale && b !in pending && b in active && s.writers == 0 {
          active := active - {b};
          pending := pending + {b};
          var before := if s.seqId !in incomplete then cfg.expected else incomplete[s.seqId];
          incomplete := incomplete[s.seqId := Minus(before, s.fragments)];
          assert Greatest(gone + {b}) == b && (gone + {b}) - {b} == gone;
          gone := gone + {b};
        }
      }
      assert gone == Expired(t, stale);
    }

    // The second loop, SharedMemoryEventManager.cc:1321-1350.
    method ReleaseAllPending()
      requires Distinct(slots) && pending <= In(slots, Writing)
      modifies this`slots, this`pending, this`runEvents, this`log
      ensures View() == ReleasePending(old(View()))
    {
      ghost var t := View();
      var order := SortPending();
      ReleasedNone(t, order);
      for i := 0 to |order|
        invariant View() == ReleasedFirst(t, order, i)
      {
        ReleaseNext(t, order, i);
        Release(order[i]);
      }
      ReleasedAll(t, order);
    }

    method Release(b: nat)
      requires b < |slots|
      modifies this`slots, this`pending, this`runEvents, this`log
      ensures var u := old(View());
              View() == u.(slots := u.slots[b := u.slots[b].(status := Full)], pending := u.pending - {b},
                           log := u.log + [u.slots[b].seqId], runEvents := u.runEvents + 1)
    {
      log := log + [slots[b].seqId];
      slots := slots[b := slots[b].(status := Full)];
      runEvents := runEvents + 1;
      pending := pending - {b};
    }

    // The token lines, SharedMemoryEventManager.cc:1352-1372.
    method SendRoutingTokens()
      modifies this`tokensSent
      ensures View() == SendTokens(cfg, old(View()))
    {
      if cfg.routing {
        var outstanding := Minus(tokensSent, runEvents);
        var available := |In(slots, Empty)|;
        if available > outstanding {
          var toSend := available - outstanding;
          while toSend > 0
            invariant toSend >= 0 && tokensSent + toSend == old(tokensSent) + (available - outstanding)
          {
            tokensSent := tokensSent + 1;
            toSend := toSend - 1;
          }
        }
      }
    }

    // check_pending_buffers_
    method CheckPendingBuffers(stale: set<nat>)
      requires Owned(View())
      modifies this`slots, this`active, this`pending, this`incomplete, this`runEvents, this`tokensSent, this`log
      ensures View() == CheckPending(cfg, old(View()), stale)
    {
      ExpireKeepsOwned(cfg, View(), stale);
      ExpiredAreWriting(View(), stale);
      MoveExpired(stale);
      ReleaseAllPending();
      SendRoutingTokens();
    }

    // The first half of complete_buffer_, SharedMemoryEventManager.cc:1223-1240.
    method MoveComplete(b: nat)
      requires b < |slots|
      requires |released| <= cfg.maxList
      modifies this`active, this`pending, this`released, this`completed
      ensures View() == MarkComplete(cfg, old(View()), b)
    {
      if slots[b].complete {
        active := active - {b};
        pending := pending + {b};
        ListReleased(slots[b].seqId);
        completed := completed + {slots[b].seqId};
      }
    }

    method ListReleased(seqId: nat)
      requires |released| <= cfg.maxList
      modifies this`released
      ensures released == AddReleased(old(released), seqId, cfg.maxList)
    {
      released := released + {seqId};
      ghost var more := released;
      assert |more| <= cfg.maxList + 1;
      while |released| > cfg.maxList
        invariant released == more || (|more| > cfg.maxList >= |released| && released == more - {Least(more)})
        decreases released
      {
        released := released - {Least(released)};
      }
    }

    // complete_buffer_, with the header's is_complete flag set before
    method CompleteBuffer(b: nat, complete: bool, stale: set<nat>)
      requires b < |slots| && pending == {} && Owned(View()) && b in active && |released| <= cfg.maxList
      modifies this`slots, this`active, this`pending, this`incomplete, this`runEvents, this`tokensSent, this`log,
               this`released, this`completed
      ensures View() == Complete(cfg, old(View()), b, complete, stale)
    {
      ghost var t := View();
      slots := slots[b := slots[b].(complete := complete)];
      RecountKeepsOwned(t, b, slots[b], View());
      MarkKeepsOwned(cfg, View(), b);
      MoveComplete(b);
      CheckPendingBuffers(stale);
    }

    // getBufferForSequenceID_ with create_new
    method GetBufferForSequenceID(seqId: nat, stale: set<nat>, slot: nat) returns (result: Found)
      requires Valid()
      modifies this`slots, this`active, this`pending, this`incomplete, this`runEvents, this`tokensSent, this`log,
        this`opens
      ensures (View(), result) == FindOrOpen(cfg, old(View()), seqId, stale, slot)
    {
      var found, b := FindBuffer(seqId);
      if found {
        return Buffer(b);
      }
      if seqId in incomplete || seqId in released {
        return Passed;
      }
      CheckPendingBuffers(stale);
      result := OpenBuffer(slot, seqId);
    }

    // SharedMemoryEventManager.cc:1160-1189; slot is what GetBufferForWriting offers.
    method OpenBuffer(slot: nat, seqId: nat) returns (result: Found)
      modifies this`slots, this`active, this`opens
      ensures (View(), result) == OpenIfEmpty(old(View()), slot, seqId)
    {
      if !(slot < |slots| && slots[slot].status == Empty) {
        return NoBuffer;
      }
      slots := slots[slot := Slot(Writing, seqId, 0, 0, false)];
      active := active + {slot};
      opens := opens + 1;
      return Buffer(slot);
    }

    // fits: whether there is room for the body, which EventLayout decides.
    method WriteFragmentHeader(frag: RawHeader, dropIfNoBuffers: bool, fits: bool, stale: set<nat>, slot: nat)
      returns (place: Place)
      requires Valid()
      modifies this`slots, this`active, this`pending, this`incomplete, this`runEvents, this`tokensSent, this`log,
               this`opens, this`accepted, this`inFlight, this`dropped
      ensures Valid() && View() == Header(cfg, old(View()), frag.seqId, stale, slot)
      ensures place == PlaceOf(FindOrOpen(cfg, old(View()), frag.seqId, stale, slot).1, dropIfNoBuffers, fits)
      ensures old(Placed(View(), place, frag.seqId, dropIfNoBuffers, fits, slot))
      ensures dropped == if place.InStore? then old(dropped) + [frag] else old(dropped)
    {
      PlaceIsExact(cfg, View(), frag.seqId, dropIfNoBuffers, fits, stale, slot);
      HeaderKeepsSteady(cfg, View(), frag.seqId, stale, slot);
      var result := GetBufferForSequenceID(frag.seqId, stale, slot);
      if !result.Buffer? {
        if result.NoBuffer? && !dropIfNoBuffers {
          return Nowhere;
        }
        dropped := dropped + [frag];
        return InStore;
      }
      PutFragment(result.b, true);
      place := StoreOversize(result.b, frag, fits);
    }

    method StoreOversize(b: nat, frag: RawHeader, fits: bool) returns (place: Place)
      modifies this`dropped
      ensures place == PlaceOf(Buffer(b), false, fits)
      ensures dropped == if fits then old(dropped) else old(dropped) + [frag]
    {
      if fits {
        return InBuffer(b);
      }
      dropped := dropped + [frag];
      return InStore;
    }

    method PutFragment(b: nat, writing: bool)
      requires b < |slots|
      modifies this`slots, this`accepted, this`inFlight
      ensures View() == Put(old(View()), b, writing)
    {
      var s := slots[b];
      slots := slots[b := s.(fragments := s.fragments + 1, writers := s.writers + if writing then 1 else 0)];
      accepted := accepted + multiset{s.seqId};
      if writing { inFlight := inFlight + multiset{s.seqId}; }
    }

    // The search for dropped data, SharedMemoryEventManager.cc:306-313.
    method TakeDropped(frag: RawHeader) returns (found: bool)
      modifies this`dropped
      ensures found <==> frag in old(dropped)
      ensures dropped == WithoutFirst(old(dropped), frag)
    {
      for i := 0 to |dropped|
        invariant dropped == old(dropped) && frag !in dropped[..i]
      {
        if dropped[i] == frag {
          FirstAt(dropped, i, frag);
          dropped := dropped[..i] + dropped[i + 1..];
          return true;
        }
        assert dropped[..i + 1] == dropped[..i] + [dropped[i]];
      }
      assert dropped[..|dropped|] == dropped;
      NotThere(dropped, frag);
      return false;
    }

    // Of a fragment in flight, or of one that was dropped, which the method cannot tell apart.
    method DoneWritingFragment(frag: RawHeader, stale: set<nat>, ghost isDropped: bool) returns (detached: bool)
      requires Valid() && (!isDropped ==> frag.seqId in inFlight)
      modifies this`slots, this`active, this`pending, this`incomplete, this`runEvents, this`tokensSent, this`log,
               this`released, this`completed, this`inFlight, this`dropped
      ensures View() == Ended(cfg, old(View()), frag.seqId, stale, isDropped)
      ensures Valid() <==> !isDropped || old(Harmless(View(), frag.seqId, stale))
      ensures dropped == AfterDone(old(View()), old(dropped), frag)
      ensures detached <==> Detaches(old(View()), old(dropped), frag)
    {
      ghost var t := View();
      EndsSteadyIff(cfg, t, Ended(cfg, t, frag.seqId, stale, isDropped), frag.seqId, stale, isDropped);
      detached := FinishOrTake(frag, stale, isDropped);
    }

    // Its search, and what follows from it.
    method FinishOrTake(frag: RawHeader, stale: set<nat>, ghost isDropped: bool) returns (detached: bool)
      requires Valid() && (!isDropped ==> frag.seqId in inFlight)
      modifies this`slots, this`active, this`pending, this`incomplete, this`runEvents, this`tokensSent, this`log,
               this`released, this`completed, this`inFlight, this`dropped
      ensures View() == Ended(cfg, old(View()), frag.seqId, stale, isDropped)
      ensures dropped == AfterDone(old(View()), old(dropped), frag)
      ensures detached <==> Detaches(old(View()), old(dropped), frag)
    {
      var found, b := FindBuffer(frag.seqId);
      if found {
        FinishFound(frag.seqId, b, stale, isDropped);
        return false;
      }
      OnlyDroppedHasNone(cfg, View(), frag.seqId, stale, isDropped);
      detached := EndWithoutBuffer(frag);
    }

    method EndWithoutBuffer(frag: RawHeader) returns (detached: bool)
      requires Holding(slots, frag.seqId) == {}
      modifies this`dropped
      ensures dropped == WithoutFirst(old(dropped), frag)
      ensures detached <==> Detaches(old(View()), old(dropped), frag)
    {
      var taken := TakeDropped(frag);
      return !taken && frag.seqId !in incomplete && frag.seqId !in released;
    }

    method FinishFound(seqId: nat, b: nat, stale: set<nat>, ghost isDropped: bool)
      requires Valid() && Holding(slots, seqId) != {} && b == Least(Holding(slots, seqId))
      requires !isDropped ==> seqId in inFlight
      modifies this`slots, this`active, this`pending, this`incomplete, this`runEvents, this`tokensSent, this`log,
               this`released, this`completed, this`inFlight
      ensures View() == Ended(cfg, old(View()), seqId, stale, isDropped)
    {
      if !isDropped {
        DoneIs(cfg, View(), seqId, stale);
        inFlight := inFlight - multiset{seqId};
      }
      HolderIsReady(cfg, View(), seqId);
      FinishFragment(b, stale);
    }

    // DoneWritingFragment once its buffer is found, SharedMemoryEventManager.cc:346-373.
    method FinishFragment(b: nat, stale: set<nat>)
      requires pending == {} && Owned(View()) && b in active && b < |slots| && |released| <= cfg.maxList
      modifies this`slots, this`active, this`pending, this`incomplete, this`runEvents, this`tokensSent, this`log,
               this`released, this`completed
      ensures View() == AfterFinish(cfg, old(View()), b, stale)
    {
      FinishIs(cfg, View(), b, stale);
      if slots[b].writers > 1 {
        DropWriter(b);
      } else {
        CompleteBuffer(b, slots[b].fragments >= cfg.expected, stale);
        DropWriter(b);
      }
    }

    method DropWriter(b: nat)
      requires b < |slots|
      modifies this`slots
      ensures View() == EventTable.DropWriter(old(View()), b)
    {
      slots := slots[b := slots[b].(writers := slots[b].writers - 1)];
    }

    method AddFragment(seqId: nat, stale: set<nat>, slot: nat) returns (accepted_: bool)
      requires Valid()
      modifies this`slots, this`active, this`pending, this`incomplete, this`runEvents, this`tokensSent, this`log,
               this`released, this`completed,
               this`opens, this`accepted, this`inFlight
      ensures Valid() && View() == Add(cfg, old(View()), seqId, stale, slot)
      ensures accepted_ <==> FindOrOpen(cfg, old(View()), seqId, stale, slot).1 != NoBuffer
    {
      AddKeepsSteady(cfg, View(), seqId, stale, slot);
      FindOrOpenKeepsMid(cfg, View(), seqId, stale, slot);
      var result := GetBufferForSequenceID(seqId, stale, slot);
      match result
      case NoBuffer => return false;
      case Passed => return true;
      case Buffer(b) =>
        ghost var t := View();
        PutFragment(b, false);
        RecountKeepsOwned(t, b, slots[b], View());
        CompleteBuffer(b, slots[b].fragments == cfg.expected && slots[b].writers == 0, stale);
        return true;
    }
  }
}
