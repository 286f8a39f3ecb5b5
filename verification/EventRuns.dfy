/** Whole runs of the event builder: any interleaving of receiver threads, timeouts, art and token sends. */
module EventRuns {
  import opened Ordered
  import opened EventTable
  import opened EventInvariants
  import opened EventSteps
  import opened EventSound
  import opened EventOnce
  import opened EventContents

  datatype Op =
    | HeaderOp(seqId: nat, stale: set<nat>, slot: nat)
    | DoneOp(seqId: nat, stale: set<nat>)
    | DroppedOp(seqId: nat, stale: set<nat>)   // DoneWritingFragment of a fragment that was dropped
    | AddOp(seqId: nat, stale: set<nat>, slot: nat)
    | CheckOp(stale: set<nat>)
    | TakeOp(b: nat)
    | FinishOp(b: nat)

  ghost function Step(cfg: Config, t: Table, op: Op): (u: Table)
    requires t.pending == {}
    ensures u.pending == {} && |u.slots| == |t.slots|
  {
    match op
    case HeaderOp(seqId, stale, slot) => Header(cfg, t, seqId, stale, slot)
    case DoneOp(seqId, stale) => Done(cfg, t, seqId, stale)
    case DroppedOp(seqId, stale) => DroppedDone(cfg, t, seqId, stale)
    case AddOp(seqId, stale, slot) => Add(cfg, t, seqId, stale, slot)
    case CheckOp(stale) => CheckPending(cfg, t, stale)
    case TakeOp(b) => Take(t, b)
    case FinishOp(b) => Finish(t, b)
  }

  ghost function Run(cfg: Config, queueSize: nat, ops: seq<Op>): (t: Table)
    ensures t.pending == {} && |t.slots| == queueSize
  {
    if ops == [] then StartRun(cfg, Pool(queueSize))
    else Step(cfg, Run(cfg, queueSize, ops[..|ops| - 1]), ops[|ops| - 1])
  }

  // A fragment that was not dropped is done while it is in flight, one that was while no buffer holds its event.
  ghost predicate Legal(t: Table, op: Op) {
    && (op.DoneOp? ==> op.seqId in t.inFlight)
    && (op.DroppedOp? ==> Holding(t.slots, op.seqId) == {})
  }

  ghost predicate Fetches(op: Op) {
    op.HeaderOp? || op.AddOp?
  }

  // No fragment arrives for an event that was completed so long ago that the list no longer names it.
  ghost predicate Timely(t: Table, op: Op) {
    Fetches(op) ==> Remembered(t, op.seqId)
  }

  // The step asks for a buffer for a new event.
  ghost predicate WantsBuffer(t: Table, op: Op) {
    Fetches(op) && Unknown(t, op.seqId)
  }

  // A new event comes in on a token.
  ghost predicate OnToken(t: Table, op: Op) {
    WantsBuffer(t, op) ==> t.opens < t.tokensSent
  }

  ghost predicate LegalRun(cfg: Config, queueSize: nat, ops: seq<Op>) {
    forall i :: 0 <= i < |ops| ==> Legal(Run(cfg, queueSize, ops[..i]), ops[i])
  }

  ghost predicate TimelyRun(cfg: Config, queueSize: nat, ops: seq<Op>) {
    forall i :: 0 <= i < |ops| ==> Timely(Run(cfg, queueSize, ops[..i]), ops[i])
  }

  ghost predicate TokenRun(cfg: Config, queueSize: nat, ops: seq<Op>) {
    forall i :: 0 <= i < |ops| ==> OnToken(Run(cfg, queueSize, ops[..i]), ops[i])
  }

  lemma Prefixes(ops: seq<Op>)
    requires ops != []
    ensures var front := ops[..|ops| - 1]; forall i :: 0 <= i < |front| ==> front[i] == ops[i] && front[..i] == ops[..i]
    ensures ops[..|ops|] == ops
  {
  }

  // ---------------------------------------------------------------- the event table

  lemma ArtKeepsSteady(cfg: Config, t: Table, b: nat)
    requires Steady(cfg, t)
    ensures Steady(cfg, Take(t, b)) && Steady(cfg, Finish(t, b))
  {
    if b < |t.slots| {
      if t.slots[b].status == Full { ReadKeepsSteady(cfg, t, b, t.slots[b].(status := Reading)); }
      if t.slots[b].status == Reading { ReadKeepsSteady(cfg, t, b, t.slots[b].(status := Empty)); }
    }
  }

  lemma StepKeepsSteady(cfg: Config, t: Table, op: Op)
    requires Sane(cfg) && Steady(cfg, t) && Legal(t, op)
    ensures Steady(cfg, Step(cfg, t, op))
  {
    if Fetches(op) {
      FetchKeepsSteady(cfg, t, op);
    } else {
      OtherOpKeepsSteady(cfg, t, op);
    }
  }

  lemma FetchKeepsSteady(cfg: Config, t: Table, op: Op)
    requires Sane(cfg) && Steady(cfg, t) && Fetches(op)
    ensures Steady(cfg, Step(cfg, t, op))
  {
    match op
    case HeaderOp(seqId, stale, slot) => HeaderKeepsSteady(cfg, t, seqId, stale, slot);
    case AddOp(seqId, stale, slot) => AddKeepsSteady(cfg, t, seqId, stale, slot);
  }

  lemma OtherOpKeepsSteady(cfg: Config, t: Table, op: Op)
    requires Sane(cfg) && Steady(cfg, t) && Legal(t, op) && !Fetches(op)
    ensures Steady(cfg, Step(cfg, t, op))
  {
    match op
    case DoneOp(seqId, stale) => DoneKeepsSteady(cfg, t, seqId, stale);
    case DroppedOp(_, _) =>
    case CheckOp(stale) => CheckKeepsMid(cfg, t, stale, -1, -1);
    case TakeOp(b) => ArtKeepsSteady(cfg, t, b);
    case FinishOp(b) => ArtKeepsSteady(cfg, t, b);
  }

  lemma StartIsSteady(cfg: Config, queueSize: nat)
    ensures Steady(cfg, StartRun(cfg, Pool(queueSize)))
  {
    assert In(Pool(queueSize), Writing) == {};
  }

  lemma StartIsOnce(cfg: Config, queueSize: nat)
    ensures Once(StartRun(cfg, Pool(queueSize)))
  {
    assert In(Pool(queueSize), Writing) == {};
  }

  lemma StepKeepsSound(cfg: Config, t: Table, op: Op)
    requires Sound(cfg, t)
    ensures Sound(cfg, Step(cfg, t, op))
  {
    match op
    case HeaderOp(seqId, stale, slot) => HeaderKeepsSound(cfg, t, seqId, stale, slot);
    case DoneOp(seqId, stale) => DoneKeepsSound(cfg, t, seqId, stale);
    case DroppedOp(seqId, stale) => DroppedKeepsSound(cfg, t, seqId, stale);
    case AddOp(seqId, stale, slot) => AddKeepsSound(cfg, t, seqId, stale, slot);
    case CheckOp(stale) => CheckKeepsSound(cfg, t, stale);
    case TakeOp(b) => ArtKeepsSound(cfg, t, b);
    case FinishOp(b) => ArtKeepsSound(cfg, t, b);
  }

  // In every reachable state of every run, whatever is done with fragments that were dropped.
  lemma {:induction false} RunIsSound(cfg: Config, queueSize: nat, ops: seq<Op>)
    ensures Sound(cfg, Run(cfg, queueSize, ops))
  {
    if ops == [] {
      assert In(Pool(queueSize), Writing) == {};
    } else {
      RunIsSound(cfg, queueSize, ops[..|ops| - 1]);
      StepKeepsSound(cfg, Run(cfg, queueSize, ops[..|ops| - 1]), ops[|ops| - 1]);
    }
  }

  // The whole event table invariant, with the writer counts, holds in every reachable state of legal runs.
  lemma {:induction false} RunIsSteady(cfg: Config, queueSize: nat, ops: seq<Op>)
    requires Sane(cfg) && LegalRun(cfg, queueSize, ops)
    ensures Steady(cfg, Run(cfg, queueSize, ops))
  {
    if ops == [] {
      StartIsSteady(cfg, queueSize);
    } else {
      Prefixes(ops);
      RunIsSteady(cfg, queueSize, ops[..|ops| - 1]);
      StepKeepsSteady(cfg, Run(cfg, queueSize, ops[..|ops| - 1]), ops[|ops| - 1]);
    }
  }

  // ---------------------------------------------------------------- released exactly once

  lemma ArtKeepsOnce(t: Table, b: nat)
    requires Owned(t) && Once(t) && t.pending == {}
    ensures Once(Take(t, b)) && Once(Finish(t, b))
  {
    if b < |t.slots| {
      if t.slots[b].status == Full { ReadKeepsOnce(t, b, t.slots[b].(status := Reading)); }
      if t.slots[b].status == Reading { ReadKeepsOnce(t, b, t.slots[b].(status := Empty)); }
    }
  }

  lemma StepKeepsOnce(cfg: Config, t: Table, op: Op)
    requires Sound(cfg, t) && Once(t) && Timely(t, op)
    ensures Once(Step(cfg, t, op))
  {
    match op
    case HeaderOp(seqId, stale, slot) => HeaderKeepsOnce(cfg, t, seqId, stale, slot);
    case DoneOp(seqId, stale) => DoneKeepsOnce(cfg, t, seqId, stale);
    case DroppedOp(seqId, stale) => DoneKeepsOnce(cfg, t, seqId, stale);
    case AddOp(seqId, stale, slot) => AddKeepsOnce(cfg, t, seqId, stale, slot);
    case CheckOp(stale) => CheckKeepsOnce(cfg, t, stale);
    case _ => ArtKeepsOnce(t, op.b);
  }

  lemma {:induction false} RunIsOnce(cfg: Config, queueSize: nat, ops: seq<Op>)
    requires TimelyRun(cfg, queueSize, ops)
    ensures Once(Run(cfg, queueSize, ops))
  {
    if ops == [] {
      StartIsOnce(cfg, queueSize);
    } else {
      Prefixes(ops);
      RunIsSound(cfg, queueSize, ops[..|ops| - 1]);
      RunIsOnce(cfg, queueSize, ops[..|ops| - 1]);
      StepKeepsOnce(cfg, Run(cfg, queueSize, ops[..|ops| - 1]), ops[|ops| - 1]);
    }
  }

  // ---------------------------------------------------------------- what is in a released event

  lemma StepKeepsBacked(cfg: Config, t: Table, op: Op)
    requires Sound(cfg, t) && Backed(cfg, t)
    ensures Backed(cfg, Step(cfg, t, op))
  {
    match op
    case HeaderOp(seqId, stale, slot) => HeaderKeepsBacked(cfg, t, seqId, stale, slot);
    case DoneOp(seqId, stale) => DoneKeepsBacked(cfg, t, seqId, stale);
    case DroppedOp(seqId, stale) => DroppedKeepsBacked(cfg, t, seqId, stale);
    case AddOp(seqId, stale, slot) => AddKeepsBacked(cfg, t, seqId, stale, slot);
    case CheckOp(stale) => CheckKeepsBacked(cfg, t, stale);
    case _ => ArtKeepsContents(cfg, t, op);
  }

  lemma ArtKeepsContents(cfg: Config, t: Table, op: Op)
    requires t.pending == {} && (op.TakeOp? || op.FinishOp?)
    ensures Backed(cfg, t) ==> Backed(cfg, Step(cfg, t, op))
    ensures Recorded(cfg, t) ==> Recorded(cfg, Step(cfg, t, op))
  {
    if op.b < |t.slots| && Backed(cfg, t) {
      ReadKeepsBacked(cfg, t, op.b, t.slots[op.b].(status := Reading));
      ReadKeepsBacked(cfg, t, op.b, t.slots[op.b].(status := Empty));
    }
  }

  lemma StartIsBacked(cfg: Config, queueSize: nat)
    ensures Backed(cfg, StartRun(cfg, Pool(queueSize)))
  {
  }

  lemma {:induction false} RunIsBacked(cfg: Config, queueSize: nat, ops: seq<Op>)
    ensures Backed(cfg, Run(cfg, queueSize, ops))
  {
    if ops == [] {
      StartIsBacked(cfg, queueSize);
    } else {
      RunIsSound(cfg, queueSize, ops[..|ops| - 1]);
      RunIsBacked(cfg, queueSize, ops[..|ops| - 1]);
      StepKeepsBacked(cfg, Run(cfg, queueSize, ops[..|ops| - 1]), ops[|ops| - 1]);
    }
  }

  // In every reachable state of every run, an event that was released was written in full or is listed as timed out: no
  // partial event goes to art as a complete one, whether DoneWritingFragment or AddFragment finished it.
  lemma ReleasedEventsAreFull(cfg: Config, queueSize: nat, ops: seq<Op>, e: nat)
    ensures var t := Run(cfg, queueSize, ops); e in t.log && e !in t.incomplete ==> t.accepted[e] >= cfg.expected
  {
    RunIsBacked(cfg, queueSize, ops);
    var t := Run(cfg, queueSize, ops);
    assert e in t.log ==> e in Elements(t.log);
  }

  lemma StepKeepsRecorded(cfg: Config, t: Table, op: Op)
    requires Sane(cfg) && Steady(cfg, t) && Once(t) && Recorded(cfg, t) && Legal(t, op) && Timely(t, op)
    ensures Recorded(cfg, Step(cfg, t, op))
  {
    match op
    case HeaderOp(seqId, stale, slot) => HeaderKeepsRecorded(cfg, t, seqId, stale, slot);
    case DoneOp(seqId, stale) => DoneKeepsRecorded(cfg, t, seqId, stale);
    case DroppedOp(_, _) =>
    case AddOp(seqId, stale, slot) => AddKeepsRecorded(cfg, t, seqId, stale, slot);
    case CheckOp(stale) => CheckKeepsRecorded(cfg, t, stale, -1);
    case _ => ArtKeepsContents(cfg, t, op);
  }

  lemma {:induction false} RunIsRecorded(cfg: Config, queueSize: nat, ops: seq<Op>)
    requires Sane(cfg) && LegalRun(cfg, queueSize, ops) && TimelyRun(cfg, queueSize, ops)
    ensures Recorded(cfg, Run(cfg, queueSize, ops))
  {
    if ops != [] {
      Prefixes(ops);
      RunIsSteady(cfg, queueSize, ops[..|ops| - 1]);
      RunIsOnce(cfg, queueSize, ops[..|ops| - 1]);
      RunIsRecorded(cfg, queueSize, ops[..|ops| - 1]);
      StepKeepsRecorded(cfg, Run(cfg, queueSize, ops[..|ops| - 1]), ops[|ops| - 1]);
    }
  }

  // An event that timed out is listed with the number of its fragments that were never accepted - from then on for
  // good.
  lemma MissingCountsAreExact(cfg: Config, queueSize: nat, ops: seq<Op>, e: nat)
    requires Sane(cfg) && LegalRun(cfg, queueSize, ops) && TimelyRun(cfg, queueSize, ops)
    ensures var t := Run(cfg, queueSize, ops);
            e in t.incomplete ==> t.incomplete[e] == cfg.expected - t.accepted[e] && 1 <= t.incomplete[e] < cfg.expected
  {
    RunIsRecorded(cfg, queueSize, ops);
    RunIsSteady(cfg, queueSize, ops);
  }

  // ---------------------------------------------------------------- the life of an event

  // Whatever the interleaving, and whatever is done with dropped fragments: no event is released twice or while a
  // buffer holds it, and only a timeout releases one that was not written in full. In legal runs, besides: an event
  // into which all expected fragments were written, none of them still in flight, was released; none is released while
  // a fragment of it is in flight; and one that timed out misses as many fragments as the list says.
  lemma WrittenEventsAreReleasedOnce(cfg: Config, queueSize: nat, ops: seq<Op>, e: nat)
    requires TimelyRun(cfg, queueSize, ops)
    ensures var t := Run(cfg, queueSize, ops);
            && NoRepeats(t.log)
            && (e in t.log ==> Holding(t.slots, e) == {})
            && (e in t.log && e !in t.incomplete ==> t.accepted[e] >= cfg.expected)
    ensures var t := Run(cfg, queueSize, ops);
            Sane(cfg) && LegalRun(cfg, queueSize, ops) ==>
              && (t.accepted[e] >= cfg.expected && e !in t.inFlight ==> e in t.log)
              && (e in t.log ==> e !in t.inFlight)
              && (e in t.log && e in t.incomplete ==> t.accepted[e] + t.incomplete[e] == cfg.expected)
  {
    var t := Run(cfg, queueSize, ops);
    RunIsSound(cfg, queueSize, ops);
    RunIsOnce(cfg, queueSize, ops);
    ReleasedEventsAreFull(cfg, queueSize, ops, e);
    if e in t.log { EndedIsIdle(cfg, t, e); }
    if Sane(cfg) && LegalRun(cfg, queueSize, ops) {
      RunIsSteady(cfg, queueSize, ops);
      MissingCountsAreExact(cfg, queueSize, ops, e);
      if t.accepted[e] >= cfg.expected && e !in t.inFlight { FullIsReleased(cfg, t, e); }
    }
  }

  lemma EndedIsIdle(cfg: Config, t: Table, e: nat)
    requires Sound(cfg, t) && Once(t) && e in t.log
    ensures Holding(t.slots, e) == {} && e in Ended(t)
  {
    assert e in Elements(t.log);
    assert SeqIds(t.slots, {}) == {};
    forall b | b in In(t.slots, Writing) ensures t.slots[b].seqId != e {}
    NotHolding(t.slots, e);
  }

  lemma NotHolding(slots: seq<Slot>, e: nat)
    requires forall b :: b in In(slots, Writing) ==> slots[b].seqId != e
    ensures Holding(slots, e) == {}
  {
    forall b | 0 <= b < |slots| ensures b !in Holding(slots, e) {
      assert slots[b].status == Writing ==> b in In(slots, Writing);
    }
  }

  lemma FullIsReleased(cfg: Config, t: Table, e: nat)
    requires Sane(cfg) && Steady(cfg, t) && Once(t) && t.accepted[e] >= cfg.expected && e !in t.inFlight
    ensures e in t.log
  {
    forall b | b in In(t.slots, Writing) ensures t.slots[b].seqId != e {}
    NotHolding(t.slots, e);
    assert e in t.accepted;
    assert e in Elements(t.log);
  }

  lemma LastDoneReleases(cfg: Config, t: Table, e: nat, stale: set<nat>)
    requires Sane(cfg) && Steady(cfg, t) && Once(t) && e in t.inFlight
    ensures e in Done(cfg, t, e, stale).log <==> t.inFlight[e] == 1 && t.accepted[e] >= cfg.expected
  {
    var b := Least(Holding(t.slots, e));
    HolderIsReady(cfg, t, e);
    NotYetReleased(cfg, t, b);
    if t.slots[b].writers == 1 {
      var u := t.(inFlight := t.inFlight - multiset{e});
      InFlightIsExtra(t, u.inFlight);
      CompleteReleasesIff(cfg, u, b, t.slots[b].fragments >= cfg.expected, stale);
    }
  }

  // In every reachable state, DoneWritingFragment releases its event exactly when no other fragment of it is in flight
  // and all have been written.
  lemma DoneReleasesIff(cfg: Config, queueSize: nat, ops: seq<Op>, e: nat, stale: set<nat>)
    requires Sane(cfg) && LegalRun(cfg, queueSize, ops) && TimelyRun(cfg, queueSize, ops)
    requires e in Run(cfg, queueSize, ops).inFlight
    ensures var t := Run(cfg, queueSize, ops);
            e in Done(cfg, t, e, stale).log <==> t.inFlight[e] == 1 && t.accepted[e] >= cfg.expected
  {
    RunIsSteady(cfg, queueSize, ops);
    RunIsOnce(cfg, queueSize, ops);
    LastDoneReleases(cfg, Run(cfg, queueSize, ops), e, stale);
  }

  lemma NotYetReleased(cfg: Config, t: Table, b: nat)
    requires Steady(cfg, t) && Once(t) && b in t.active && b < |t.slots| && t.slots[b].status == Writing
    ensures t.slots[b].writers == t.inFlight[t.slots[b].seqId] && t.slots[b].fragments == t.accepted[t.slots[b].seqId]
    ensures t.slots[b].seqId !in t.log
  {
    assert b in In(t.slots, Writing);
    assert t.slots[b].seqId !in Elements(t.log);
  }

  lemma CompleteReleasesIff(cfg: Config, t: Table, b: nat, complete: bool, stale: set<nat>)
    requires Owned(t) && t.pending == {} && b in t.active && b < |t.slots| && t.slots[b].status == Writing
    requires t.slots[b].writers == 1 && t.slots[b].seqId !in t.log
    ensures t.slots[b].seqId in Complete(cfg, t, b, complete, stale).log <==> complete
  {
    var u := SetComplete(t, b, complete);
    var v := MarkComplete(cfg, u, b);
    RecountKeepsOwned(t, b, u.slots[b], u);
    MarkKeepsOwned(cfg, u, b);
    ExpiredAreWriting(v, stale);
    CheckIs(cfg, v, stale);
    LeavingIds(v, b, v.pending + Expired(v, stale));
  }

  lemma LeavingIds(t: Table, b: nat, leaving: set<nat>)
    requires Distinct(t.slots) && b in In(t.slots, Writing) && leaving <= In(t.slots, Writing)
    ensures t.slots[b].seqId in Sorted(SeqIds(t.slots, leaving)) <==> b in leaving
  {
    assert forall a :: a in leaving && t.slots[a].seqId == t.slots[b].seqId ==> a == b;
  }

  // ---------------------------------------------------------------- duplicate protection

  lemma TopHoldsLargerOnes(k: nat, all: set<nat>, top: set<nat>, e: nat)
    requires IsTop(k, all, top) && e in all
    ensures e in top <==> |Larger(all, e)| < k
  {
    if e in top {
      assert Larger(all, e) <= top - {e};
      SetMonotone(Larger(all, e), top - {e});
    } else {
      assert top <= Larger(all, e);
      SetMonotone(top, Larger(all, e));
      if top == all { assert false; }
      SubsetSize(top, all);
    }
  }

  lemma SetMonotone(a: set<nat>, b: set<nat>)
    requires a <= b
    ensures |a| <= |b|
  {
    if a != b { SubsetSize(a, b); }
  }

  function Larger(all: set<nat>, e: nat): set<nat> {
    set y | y in all && y > e
  }

  lemma EndedReopens(cfg: Config, t: Table, e: nat, stale: set<nat>, slot: nat)
    requires Sound(cfg, t) && e in Ended(t) && Holding(t.slots, e) == {} && slot in In(t.slots, Empty)
    ensures FindOrOpen(cfg, t, e, stale, slot).1.Buffer?
        <==> e !in t.incomplete && |Larger(t.completed, e)| >= cfg.maxList
  {
    ExpiredAreWriting(t, stale);
    CheckIs(cfg, t, stale);
    MarkFullIn(t.slots, t.pending + Expired(t, stale));
    assert slot in In(CheckPending(cfg, t, stale).slots, Empty);
    if e in t.completed { TopHoldsLargerOnes(cfg.maxList, t.completed, t.released, e); }
    else { assert e !in t.released; }
  }

  // In every reachable state of every run: a fragment that arrives for an event that has ended opens a second buffer
  // for it, given that one is empty, exactly when it was completed and at least max_event_list_length_ larger IDs have
  // been completed as well; a timed-out event never reopens.
  lemma CompletedEventReopensIff(cfg: Config, queueSize: nat, ops: seq<Op>, e: nat, stale: set<nat>, slot: nat)
    requires var t := Run(cfg, queueSize, ops); e in Ended(t) && Holding(t.slots, e) == {} && slot in In(t.slots, Empty)
    ensures var t := Run(cfg, queueSize, ops);
            FindOrOpen(cfg, t, e, stale, slot).1.Buffer?
            <==> e !in t.incomplete && |Larger(t.completed, e)| >= cfg.maxList
  {
    RunIsSound(cfg, queueSize, ops);
    EndedReopens(cfg, Run(cfg, queueSize, ops), e, stale, slot);
  }
}
