/** RequestBuffer (artdaq/DAQrate/RequestBuffer.cc): which data requests are pending, and which were already served.
    Served sequence IDs are not kept: they are compressed into a watermark and a sparse set of IDs above it. */
module Requests {
  import opened Arithmetic
  import opened Ordered

  // increment: request_increment_; requests: requests_; highest: highest_seen_request_;
  // lastNext: last_next_request_; outOfOrder: out_of_order_requests_.
  datatype State = State(increment: nat, requests: map<nat, nat>, highest: nat, lastNext: nat, outOfOrder: set<nat>)

  function Fresh(increment: nat): State {
    State(increment, map[], 0, 0, {})
  }

  // ---------------------------------------------------------------- operations

  // The 32-bit int that the source initialises from a 64-bit unsigned difference.
  function Narrow(difference: int): (r: int)
    ensures -0x8000_0000 <= r < 0x8000_0000
  {
    var low := difference % 0x1_0000_0000;
    if low < 0x8000_0000 then low else low - 0x1_0000_0000
  }

  predicate Admits(s: State, id: nat) {
    id !in s.requests && Narrow(id - s.highest) > 0 && id !in s.outOfOrder
  }

  function AfterPush(s: State, id: nat, ts: nat): State {
    if Admits(s, id) then s.(requests := s.requests[id := ts]) else s
  }

  // Raise the watermark over the out-of-order IDs that have become contiguous with it.
  function Drain(highest: nat, increment: nat, ooo: set<nat>): (r: (nat, set<nat>))
    ensures r.1 <= ooo
    decreases ooo
  {
    if ooo != {} && Least(ooo) == highest + increment
    then Drain(highest + increment, increment, ooo - {highest + increment})
    else (highest, ooo)
  }

  lemma DrainOne(highest: nat, increment: nat)
    ensures Drain(highest, increment, {highest + increment}) == (highest + increment, {})
  {
    var only := {highest + increment};
    assert Least(only) == highest + increment;
    assert only - {highest + increment} == {};
  }

  function AfterRemove(s: State, id: nat): State {
    var pending := s.requests - {id};
    if id <= s.highest then s.(requests := pending)
    else
      var (h, ooo) := Drain(s.highest, s.increment, s.outOfOrder + {id});
      s.(requests := pending, highest := h, outOfOrder := ooo)
  }

  function Unreturned(s: State): set<nat> {
    set id | id in s.requests && id > s.lastNext
  }

  // The request GetNextRequest hands out; (0, 0) when there is none.
  function Next(s: State): (nat, nat) {
    if Unreturned(s) == {} then (0, 0)
    else var id := Least(Unreturned(s)); (id, s.requests[id])
  }

  function AfterNext(s: State): State {
    if Unreturned(s) == {} then s else s.(lastNext := Least(Unreturned(s)))
  }

  // GetAndClearRequests
  function AfterTakeAll(s: State): State {
    var top := if |s.requests| == 0 then s.highest else Greatest(s.requests.Keys);
    s.(requests := map[], highest := top, outOfOrder := {})
  }

  // ---------------------------------------------------------------- the compression is exact

  // What the compressed form says about an ID.
  predicate Served(s: State, id: nat) {
    id <= s.highest || id in s.outOfOrder
  }

  predicate Aligned(increment: nat, id: nat) {
    increment > 0 ==> id % increment == 0
  }

  // removed: every ID passed to RemoveRequest since the buffer was fresh.
  ghost predicate Compresses(s: State, removed: set<nat>) {
    && (forall id :: id in s.outOfOrder ==> id > s.highest && id in removed)
    && (forall id :: id in removed ==> Served(s, id))
    && (forall id :: 0 < id <= s.highest && Aligned(s.increment, id) ==> id in removed)
    && (if s.increment == 0 then s.highest == 0 else s.highest % s.increment == 0)
    && (s.outOfOrder != {} ==> Least(s.outOfOrder) != s.highest + s.increment)
  }

  lemma {:induction false} DrainCompresses(s: State, removed: set<nat>)
    requires forall id :: id in s.outOfOrder ==> id > s.highest && id in removed
    requires forall id :: id in removed ==> Served(s, id)
    requires forall id :: 0 < id <= s.highest && Aligned(s.increment, id) ==> id in removed
    requires if s.increment == 0 then s.highest == 0 else s.highest % s.increment == 0
    ensures var (h, ooo) := Drain(s.highest, s.increment, s.outOfOrder);
            Compresses(s.(highest := h, outOfOrder := ooo), removed)
    decreases s.outOfOrder
  {
    var next := s.highest + s.increment;
    if s.outOfOrder != {} && Least(s.outOfOrder) == next {
      var t := s.(highest := next, outOfOrder := s.outOfOrder - {next});
      assert s.increment > 0;
      assert next % s.increment == 0 by { NextMultiple(s.increment, s.highest, 0); }
      forall id | 0 < id <= t.highest && Aligned(t.increment, id) ensures id in removed {
        if s.highest < id {
          NextMultiple(s.increment, s.highest, id);
          assert id == next;
        }
      }
      DrainCompresses(t, removed);
    }
  }

  lemma RemoveCompresses(s: State, removed: set<nat>, id: nat)
    requires Compresses(s, removed)
    ensures Compresses(AfterRemove(s, id), removed + {id})
  {
    if id > s.highest {
      DrainCompresses(s.(outOfOrder := s.outOfOrder + {id}, requests := s.requests - {id}), removed + {id});
    }
  }

  // The increment divides every removed ID: then the compressed form is determined by the set it stands for.
  lemma CompressionIsCanonical(s: State, t: State, removed: set<nat>)
    requires Compresses(s, removed) && Compresses(t, removed) && s.increment == t.increment
    requires forall id :: id in removed ==> id > 0 && Aligned(s.increment, id)
    ensures s.highest + s.increment !in removed || s.increment == 0
    ensures s.highest == t.highest && s.outOfOrder == t.outOfOrder
  {
    WatermarkIsMaximal(s, removed);
    WatermarkIsMaximal(t, removed);
    if s.highest < t.highest { HigherWatermarkCovers(s, t, removed); }
    if t.highest < s.highest { HigherWatermarkCovers(t, s, removed); }
  }

  lemma WatermarkIsMaximal(s: State, removed: set<nat>)
    requires Compresses(s, removed)
    requires forall id :: id in removed ==> id > 0 && Aligned(s.increment, id)
    ensures s.increment > 0 ==> s.highest + s.increment !in removed
  {
    var next := s.highest + s.increment;
    if s.increment > 0 && next in removed {
      assert next in s.outOfOrder;
      NextMultiple(s.increment, s.highest, Least(s.outOfOrder));
      assert false;
    }
  }

  lemma HigherWatermarkCovers(s: State, t: State, removed: set<nat>)
    requires Compresses(s, removed) && Compresses(t, removed) && s.increment == t.increment
    requires s.highest < t.highest
    ensures s.increment > 0 && s.highest + s.increment in removed
  {
    NextMultiple(s.increment, s.highest, t.highest);
  }

  // ---------------------------------------------------------------- which requests are admitted

  // The distance of id from the watermark survives the narrowing to a 32-bit int with the right sign.
  predicate GapFits(highest: nat, id: nat) {
    if id > highest then 0 < (id - highest) % 0x1_0000_0000 < 0x8000_0000
    else (highest - id) % 0x1_0000_0000 <= 0x8000_0000
  }

  lemma NegatedMod(gap: int)
    ensures (-gap) % 0x1_0000_0000 == if gap % 0x1_0000_0000 == 0 then 0 else 0x1_0000_0000 - gap % 0x1_0000_0000
  {
    var q, r := gap / 0x1_0000_0000, gap % 0x1_0000_0000;
    assert -gap == (-q - 1) * 0x1_0000_0000 + (0x1_0000_0000 - r);
  }

  lemma NarrowKeepsSign(highest: nat, id: nat)
    ensures (Narrow(id - highest) > 0 <==> id > highest) <==> GapFits(highest, id)
  {
    if id <= highest { NegatedMod(highest - id); }
  }

  lemma NearGapFits(highest: nat, id: nat)
    requires -0x8000_0000 <= id - highest < 0x8000_0000
    ensures GapFits(highest, id)
  {
  }

  // A request that is not already pending is admitted exactly when its ID was never removed -
  // if and only if the narrowed distance can be trusted, or the ID is still listed as out of order.
  lemma AdmissionIsExactIff(s: State, removed: set<nat>, id: nat)
    requires Compresses(s, removed)
    requires id > 0 && Aligned(s.increment, id) && id !in s.requests
    ensures (Admits(s, id) <==> id !in removed) <==> (id in s.outOfOrder || GapFits(s.highest, id))
  {
    NarrowKeepsSign(s.highest, id);
  }

  // ---------------------------------------------------------------- whole runs

  datatype Op = DoPush(id: nat, ts: nat) | DoNext | DoRemove(id: nat) | DoClear | DoReset | DoTakeAll

  function Step(s: State, op: Op): State {
    match op
    case DoPush(id, ts) => AfterPush(s, id, ts)
    case DoNext => AfterNext(s)
    case DoRemove(id) => AfterRemove(s, id)
    case DoClear => s.(requests := map[])
    case DoReset => Fresh(s.increment)
    case DoTakeAll => AfterTakeAll(s)
  }

  function Run(increment: nat, ops: seq<Op>): State {
    if ops == [] then Fresh(increment)
    else Step(Run(increment, ops[..|ops| - 1]), ops[|ops| - 1])
  }

  // Every ID removed since the last reset.
  function Removed(ops: seq<Op>): set<nat> {
    if ops == [] then {}
    else
      var before := Removed(ops[..|ops| - 1]);
      match ops[|ops| - 1]
      case DoRemove(id) => before + {id}
      case DoReset => {}
      case _ => before
  }

  // Every ID GetNextRequest returned since the last reset, in order.
  function Returned(increment: nat, ops: seq<Op>): seq<nat> {
    if ops == [] then []
    else
      var before := Returned(increment, ops[..|ops| - 1]);
      var s := Run(increment, ops[..|ops| - 1]);
      match ops[|ops| - 1]
      case DoNext => if Unreturned(s) == {} then before else before + [Next(s).0]
      case DoReset => []
      case _ => before
  }

  lemma StepCompresses(s: State, removed: set<nat>, op: Op)
    requires Compresses(s, removed) && !op.DoTakeAll?
    ensures Step(s, op).increment == s.increment
    ensures Compresses(Step(s, op), match op case DoRemove(id) => removed + {id} case DoReset => {} case _ => removed)
  {
    match op
    case DoRemove(id) => RemoveCompresses(s, removed, id);
    case DoReset => FreshCompresses(s.increment);
    case _ =>
  }

  lemma FreshCompresses(increment: nat)
    ensures Compresses(Fresh(increment), {})
  {
    if increment > 0 { DivMod(0, increment, 0, 0); }
  }

  lemma {:induction false} RunCompresses(increment: nat, ops: seq<Op>)
    requires DoTakeAll !in ops
    ensures Run(increment, ops).increment == increment
    ensures Compresses(Run(increment, ops), Removed(ops))
  {
    if ops == [] {
      FreshCompresses(increment);
    } else {
      var front, op := ops[..|ops| - 1], ops[|ops| - 1];
      RunCompresses(increment, front);
      StepCompresses(Run(increment, front), Removed(front), op);
    }
  }

  // The compression loses nothing: after any run, the IDs it calls served are the IDs that were removed.
  lemma WatermarkIsExact(increment: nat, ops: seq<Op>, id: nat)
    requires DoTakeAll !in ops
    requires id > 0 && Aligned(increment, id)
    ensures Served(Run(increment, ops), id) <==> id in Removed(ops)
  {
    RunCompresses(increment, ops);
  }

  // A push of an ID at or below the watermark can be told by its narrowed distance.
  ghost predicate Told(s: State, id: nat) {
    id <= s.highest && Aligned(s.increment, id) ==> GapFits(s.highest, id)
  }

  // So can every such push of the run.
  ghost predicate PushesTold(increment: nat, ops: seq<Op>) {
    forall i :: 0 <= i < |ops| && ops[i].DoPush? ==> Told(Run(increment, ops[..i]), ops[i].id)
  }

  // No pending request was ever served.
  ghost predicate PendingIsNew(s: State, removed: set<nat>) {
    forall id :: id in s.requests && Aligned(s.increment, id) ==> id > 0 && id !in removed
  }

  lemma StepKeepsPendingNew(s: State, removed: set<nat>, op: Op)
    requires Compresses(s, removed) && PendingIsNew(s, removed)
    requires !op.DoTakeAll? && (op.DoPush? ==> Told(s, op.id))
    ensures PendingIsNew(Step(s, op), match op case DoRemove(id) => removed + {id} case DoReset => {} case _ => removed)
  {
    if op.DoPush? { NarrowKeepsSign(s.highest, op.id); }
  }

  lemma {:induction false} RunKeepsPendingNew(increment: nat, ops: seq<Op>)
    requires DoTakeAll !in ops && PushesTold(increment, ops)
    ensures PendingIsNew(Run(increment, ops), Removed(ops))
  {
    if ops != [] {
      var front, op := ops[..|ops| - 1], ops[|ops| - 1];
      assert forall i :: 0 <= i < |front| ==> front[i] == ops[i] && front[..i] == ops[..i];
      RunKeepsPendingNew(increment, front);
      RunCompresses(increment, front);
      StepKeepsPendingNew(Run(increment, front), Removed(front), op);
    }
  }

  // A push that cannot be told leaves an ID pending that was served, or 0.
  lemma UntoldPushIsAdmitted(s: State, removed: set<nat>, id: nat, ts: nat)
    requires Compresses(s, removed) && PendingIsNew(s, removed) && !Told(s, id)
    ensures !PendingIsNew(AfterPush(s, id, ts), removed)
  {
    NarrowKeepsSign(s.highest, id);
    assert Admits(s, id) && id in AfterPush(s, id, ts).requests;
  }

  // No served request is ever pending again, at any point of the run ...
  ghost predicate PendingStaysNew(increment: nat, ops: seq<Op>) {
    forall i :: 0 <= i <= |ops| ==> PendingIsNew(Run(increment, ops[..i]), Removed(ops[..i]))
  }

  // ... if and only if every push of an ID at or below the watermark is told by its distance.
  lemma PendingStaysNewIff(increment: nat, ops: seq<Op>)
    requires DoTakeAll !in ops
    ensures PendingStaysNew(increment, ops) <==> PushesTold(increment, ops)
  {
    if PushesTold(increment, ops) {
      forall i | 0 <= i <= |ops| ensures PendingIsNew(Run(increment, ops[..i]), Removed(ops[..i])) {
        PrefixOf(ops, i);
        RunKeepsPendingNew(increment, ops[..i]);
      }
    } else {
      var i :| 0 <= i < |ops| && ops[i].DoPush? && !Told(Run(increment, ops[..i]), ops[i].id);
      PrefixOf(ops, i);
      RunCompresses(increment, ops[..i]);
      var s, removed := Run(increment, ops[..i]), Removed(ops[..i]);
      if PendingIsNew(s, removed) {
        UntoldPushIsAdmitted(s, removed, ops[i].id, ops[i].ts);
        assert Run(increment, ops[..i + 1]) == AfterPush(s, ops[i].id, ops[i].ts) && Removed(ops[..i + 1]) == removed;
      }
    }
  }

  // In every reachable state, a request is admitted exactly when it is neither pending nor served - if and only if it
  // is pending or listed as out of order, or its narrowed distance can be trusted.
  lemma AdmittedIffNew(increment: nat, ops: seq<Op>, id: nat)
    requires DoTakeAll !in ops && id > 0 && Aligned(increment, id)
    ensures var s, removed := Run(increment, ops), Removed(ops);
            (Admits(s, id) <==> id !in s.requests && id !in removed)
            <==> (id in s.requests || id in s.outOfOrder || GapFits(s.highest, id))
    ensures PushesTold(increment, ops) ==> (id in Run(increment, ops).requests ==> id !in Removed(ops))
  {
    RunCompresses(increment, ops);
    var s, removed := Run(increment, ops), Removed(ops);
    if id !in s.requests { AdmissionIsExactIff(s, removed, id); }
    if PushesTold(increment, ops) { RunKeepsPendingNew(increment, ops); }
  }

  // GetNextRequest never returns the same request twice: what it returns strictly increases.
  lemma {:induction false} NextNeverRepeats(increment: nat, ops: seq<Op>)
    ensures var r := Returned(increment, ops);
            Increasing(r) && Run(increment, ops).lastNext == if r == [] then 0 else r[|r| - 1]
  {
    if ops != [] { NextNeverRepeats(increment, ops[..|ops| - 1]); }
  }

  // The documented result, the first pending request not yet returned, is what GetNextRequest gives
  // if and only if no unreturned request lies at or below the last one returned.
  lemma NextIsFirstUnreturnedIff(increment: nat, ops: seq<Op>)
    ensures var s := Run(increment, ops);
            var documented := set id | id in s.requests && id !in Returned(increment, ops);
            (if documented == {} then Unreturned(s) == {}
             else Unreturned(s) != {} && Least(Unreturned(s)) == Least(documented))
            <==> forall id :: id in documented ==> id > s.lastNext
  {
    NextNeverRepeats(increment, ops);
    var s := Run(increment, ops);
    var documented := set id | id in s.requests && id !in Returned(increment, ops);
    assert Unreturned(s) <= documented;
    if forall id :: id in documented ==> id > s.lastNext {
      assert Unreturned(s) == documented;
    }
  }

  // A request that comes after a later one was returned is the first not yet returned, and is not given.
  lemma LateRequestIsNotGiven(a: nat, b: nat)
    ensures var ops := [DoPush(5, a), DoNext, DoPush(3, b)];
            && Returned(1, ops) == [5] && Run(1, ops).requests == map[5 := a, 3 := b] && Next(Run(1, ops)) == (0, 0)
  {
    var ops := [DoPush(5, a), DoNext, DoPush(3, b)];
    assert ops[..2] == [DoPush(5, a), DoNext] && ops[..2][..1] == [DoPush(5, a)] && ops[..2][..1][..0] == [];
    var one := State(1, map[5 := a], 0, 0, {});
    assert Run(1, ops[..2][..1]) == one;
    assert Unreturned(one) == {5} && Next(one) == (5, a);
    assert Returned(1, ops[..2][..1]) == [];
    assert Run(1, ops[..2]) == one.(lastNext := 5) && Returned(1, ops[..2]) == [5];
    assert Run(1, ops).requests == map[5 := a, 3 := b];
    assert Unreturned(Run(1, ops)) == {};
  }

  function RemoveFirst(n: nat): seq<Op> {
    seq(n, i requires 0 <= i < n => DoRemove(i + 1))
  }

  // Removing 1, 2, ..., n moves the watermark to n.
  lemma {:induction false} RemovedInOrder(n: nat)
    ensures Run(1, RemoveFirst(n)) == State(1, map[], n, 0, {})
            && forall k :: 1 <= k <= n ==> k in Removed(RemoveFirst(n))
    decreases n
  {
    if n > 0 {
      RemovedInOrder(n - 1);
      assert RemoveFirst(n)[..n - 1] == RemoveFirst(n - 1);
      DrainOne(n - 1, 1);
      assert {} + {n} == {n};
    }
  }

  // Both ways in which an untrusted distance goes wrong: a request that was never served is refused in a fresh buffer,
  // and after the first 2^31 + 2 requests have been served in order the first one is admitted again.
  lemma AdmissionFailures()
    ensures !Admits(Run(1, []), 0x8000_0000) && 0x8000_0000 !in Removed([])
    ensures var ops := RemoveFirst(0x8000_0002); Admits(Run(1, ops), 1) && 1 in Removed(ops)
  {
    RemovedInOrder(0x8000_0002);
    assert Narrow(1 - 0x8000_0002) == 0x7FFF_FFFF;
  }

  // In any state GetAndClearRequests forgets exactly the served IDs above the new watermark, which may be lower than
  // the old one, and counts each pending request as served.
  lemma TakeAllForgets(s: State, id: nat)
    ensures Served(s, id) && !Served(AfterTakeAll(s), id)
        <==> id > AfterTakeAll(s).highest && (id in s.outOfOrder || id <= s.highest)
    ensures id in s.requests ==> Served(AfterTakeAll(s), id)
  {
    if |s.requests| > 0 {
      assert Greatest(s.requests.Keys) in s.requests;
    }
  }

  // In every reachable state: it forgets none but out-of-order IDs if and only if no request is pending or one at or
  // above the watermark is.
  lemma TakeAllForgetsOnlyOutOfOrderIff(increment: nat, ops: seq<Op>)
    requires DoTakeAll !in ops
    ensures var s := Run(increment, ops);
            (forall id: nat :: Served(s, id) && !Served(AfterTakeAll(s), id) ==> id in s.outOfOrder)
            <==> s.requests == map[] || exists p :: p in s.requests && p >= s.highest
  {
    RunCompresses(increment, ops);
    var s := Run(increment, ops);
    if s.requests != map[] {
      var top := Greatest(s.requests.Keys);
      assert top in s.requests && AfterTakeAll(s).highest == top;
      assert Served(s, s.highest) && s.highest !in s.outOfOrder;
      assert Served(AfterTakeAll(s), s.highest) <==> s.highest <= top;
    }
  }

  // With increment 10, 5 is pending and 10 has been served: GetAndClearRequests lowers the watermark from 10 to 5.
  lemma TakeAllLowersTheWatermark()
    ensures var ops := [DoPush(5, 0), DoRemove(10)];
            var s := Run(10, ops);
            && s.highest == 10 && s.outOfOrder == {} && 10 in Removed(ops)
            && AfterTakeAll(s).highest == 5 && !Served(AfterTakeAll(s), 10)
  {
    var ops := [DoPush(5, 0), DoRemove(10)];
    assert ops[..1] == [DoPush(5, 0)] && ops[..1][..0] == [];
    assert Run(10, ops[..1]) == State(10, map[5 := 0], 0, 0, {});
    RemoveTen(Run(10, ops[..1]));
    TakeFive(Run(10, ops));
  }

  lemma RemoveTen(s: State)
    requires s == State(10, map[5 := 0], 0, 0, {})
    ensures AfterRemove(s, 10) == State(10, map[5 := 0], 10, 0, {})
  {
    DrainOne(0, 10);
    assert {} + {10} == {10} && map[5 := 0] - {10} == map[5 := 0];
  }

  lemma TakeFive(s: State)
    requires s.requests == map[5 := 0]
    ensures AfterTakeAll(s).highest == 5 && AfterTakeAll(s).outOfOrder == {}
  {
    assert 5 in s.requests && s.requests.Keys == {5};
  }

  // ---------------------------------------------------------------- the object

  class RequestBuffer {
    const increment: nat
    var requests: map<nat, nat>
    var highest: nat
    var lastNext: nat
    var outOfOrder: set<nat>

    ghost function View(): State
      reads this
    {
      State(increment, requests, highest, lastNext, outOfOrder)
    }

    constructor (increment: nat)
      ensures View() == Fresh(increment)
    {
      this.increment := increment;
      requests, highest, lastNext, outOfOrder := map[], 0, 0, {};
    }

    method Push(id: nat, ts: nat)
      modifies this
      ensures View() == AfterPush(old(View()), id, ts)
      ensures forall r :: r in old(requests) ==> r in requests && requests[r] == old(requests)[r]
    {
      if id !in requests {
        var delta := Narrow(id - highest);
        if !(delta <= 0 || id in outOfOrder) {
          requests := requests[id := ts];
        }
      }
    }

    method Reset()
      modifies this
      ensures View() == Fresh(increment)
    {
      requests, highest, lastNext, outOfOrder := map[], 0, 0, {};
    }

    method GetRequests() returns (out: map<nat, nat>)
      ensures out == requests
    {
      out := map[];
      var keys := InOrder(requests.Keys);
      for i := 0 to |keys|
        invariant forall k :: k in out <==> k in keys[..i]
        invariant forall k :: k in out ==> out[k] == requests[k]
      {
        out := out[keys[i] := requests[keys[i]]];
      }
    }

    method GetNextRequest() returns (id: nat, ts: nat)
      modifies this
      ensures (id, ts) == Next(old(View()))
      ensures id > 0 ==> id in requests && ts == requests[id]
      ensures forall r :: r in requests && r > old(lastNext) ==> r >= id
      ensures View() == AfterNext(old(View()))
      ensures id > 0 <==> exists r :: r in requests && r > old(lastNext)
    {
      var keys := InOrder(requests.Keys);
      var it := 0;
      while it < |keys| && keys[it] <= lastNext
        invariant 0 <= it <= |keys|
        invariant forall j :: 0 <= j < it ==> keys[j] <= lastNext
      {
        it := it + 1;
      }
      if it == |keys| {
        return 0, 0;
      }
      assert keys[it] in Unreturned(View());
      assert Least(Unreturned(View())) in keys;
      lastNext := keys[it];
      return keys[it], requests[keys[it]];
    }

    method RemoveRequest(id: nat)
      modifies this
      ensures View() == AfterRemove(old(View()), id)
    {
      requests := requests - {id};
      if id > highest {
        if outOfOrder != {} || id != highest + increment {
          outOfOrder := outOfOrder + {id};
          AdvanceWatermark();
        } else {
          DrainOne(highest, increment);
          assert outOfOrder + {id} == {highest + increment};
          highest := id;
        }
      }
    }

    // The loop of RemoveRequest, RequestBuffer.cc:103-115.
    method AdvanceWatermark()
      modifies this`highest, this`outOfOrder
      ensures (highest, outOfOrder) == Drain(old(highest), increment, old(outOfOrder))
    {
      while outOfOrder != {}
        invariant Drain(highest, increment, outOfOrder) == Drain(old(highest), increment, old(outOfOrder))
        decreases outOfOrder
      {
        var first := Least(outOfOrder);
        if first == highest + increment {
          highest := first;
          outOfOrder := outOfOrder - {first};
        } else {
          break;
        }
      }
    }

    method ClearRequests()
      modifies this
      ensures View() == old(View()).(requests := map[])
    {
      requests := map[];
    }

    method GetAndClearRequests() returns (out: map<nat, nat>)
      modifies this
      ensures out == old(requests) && View() == AfterTakeAll(old(View()))
    {
      out := GetRequests();
      if |requests| > 0 {
        highest := Greatest(requests.Keys);
      }
      outOfOrder := {};
      requests := map[];
    }

    method Size() returns (n: nat)
      ensures n == |requests|
    {
      n := |requests|;
    }
  }
}
