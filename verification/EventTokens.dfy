/** Routing tokens never promise more room than there is (artdaq/DAQrate/SharedMemoryEventManager.cc:929 and
    1352-1372). */
module EventTokens {
  import opened Ordered
  import opened EventTable
  import opened EventInvariants
  import opened EventSteps
  import opened EventSound
  import opened EventOnce
  import opened EventRuns

  // The tokens not yet used by an event are covered by empty buffers.
  ghost predicate Credit(t: Table) {
    t.opens <= t.tokensSent <= t.opens + |In(t.slots, Empty)|
  }

  lemma {:induction false} BoundedSize(s: set<nat>, n: nat)
    requires forall x :: x in s ==> x < n
    ensures |s| <= n
    ensures |s| == n ==> forall x: nat :: x < n ==> x in s
    ensures (forall x: nat :: x < n ==> x in s) ==> |s| == n
  {
    if n == 0 {
      assert s == {};
    } else {
      var rest := s - {n - 1};
      BoundedSize(rest, n - 1);
      if n - 1 in s { assert s == rest + {n - 1}; } else { assert s == rest; }
    }
  }

  lemma InAreDisjoint(slots: seq<Slot>)
    ensures |In(slots, Writing)| + |In(slots, Empty)| <= |slots|
  {
    var both := In(slots, Writing) + In(slots, Empty);
    assert |both| == |In(slots, Writing)| + |In(slots, Empty)|;
    BoundedSize(both, |slots|);
  }

  lemma OpensAre(t: Table)
    requires Owned(t)
    ensures t.opens == t.runEvents + |In(t.slots, Writing)|
  {
    assert |t.active + t.pending| == |t.active| + |t.pending|;
  }

  // The unsigned subtraction of the events released from the tokens sent does not wrap.
  lemma OutstandingDoesNotWrap(t: Table)
    requires Owned(t) && Credit(t) && |t.slots| < SIZES
    ensures Minus(t.tokensSent, t.runEvents) == t.tokensSent - t.runEvents
    ensures t.runEvents <= t.tokensSent <= t.runEvents + |t.slots|
  {
    OpensAre(t);
    InAreDisjoint(t.slots);
  }

  // Tokens are sent until as many are outstanding as buffers are empty, however many events are being written or read.
  ghost predicate SendsUpTo(t: Table, u: Table) {
    var goal := u.runEvents + |In(u.slots, Empty)|;
    u.tokensSent == if goal > t.tokensSent then goal else t.tokensSent
  }

  lemma SendKeepsCredit(cfg: Config, t: Table)
    requires Owned(t) && Credit(t) && |t.slots| < SIZES
    ensures Credit(SendTokens(cfg, t))
    ensures if cfg.routing then SendsUpTo(t, SendTokens(cfg, t)) else SendTokens(cfg, t).tokensSent == t.tokensSent
  {
    OutstandingDoesNotWrap(t);
    OpensAre(t);
  }

  lemma CheckKeepsCredit(cfg: Config, t: Table, stale: set<nat>)
    requires Owned(t) && Credit(t) && |t.slots| < SIZES
    ensures Credit(CheckPending(cfg, t, stale))
    ensures CheckPending(cfg, t, stale).tokensSent >= t.tokensSent
    ensures if cfg.routing then SendsUpTo(t, CheckPending(cfg, t, stale))
            else CheckPending(cfg, t, stale).tokensSent == t.tokensSent
  {
    var u := Expire(cfg, t, stale);
    ExpireKeepsOwned(cfg, t, stale);
    ReleaseKeepsOwned(u);
    MarkFullIn(u.slots, u.pending);
    SendKeepsCredit(cfg, ReleasePending(u));
  }

  lemma OpenKeepsCredit(t: Table, slot: nat, seqId: nat)
    requires Credit(t) && t.opens < t.tokensSent && slot in In(t.slots, Empty)
    ensures Credit(OpenSlot(t, slot, seqId))
  {
    WriteInto(t.slots, slot, Slot(Writing, seqId, 0, 0, false));
  }

  lemma RecountKeepsCredit(t: Table, b: nat, s: Slot, u: Table)
    requires Credit(t) && b < |t.slots| && s.status == t.slots[b].status && s.seqId == t.slots[b].seqId
    requires u.slots == t.slots[b := s] && u.opens == t.opens && u.tokensSent == t.tokensSent
    ensures Credit(u)
  {
    RecountKeepsDistinct(t.slots, b, s);
  }

  lemma OpenIfEmptyKeepsCredit(t: Table, slot: nat, seqId: nat)
    requires Credit(t) && t.opens < t.tokensSent
    ensures Credit(OpenIfEmpty(t, slot, seqId).0)
  {
    if slot < |t.slots| && t.slots[slot].status == Empty { OpenKeepsCredit(t, slot, seqId); }
  }

  lemma FindOrOpenKeepsCredit(cfg: Config, t: Table, seqId: nat, stale: set<nat>, slot: nat)
    requires Sound(cfg, t) && Credit(t) && |t.slots| < SIZES
    requires Holding(t.slots, seqId) == {} && seqId !in t.incomplete && seqId !in t.released ==> t.opens < t.tokensSent
    ensures Credit(FindOrOpen(cfg, t, seqId, stale, slot).0)
  {
    if Holding(t.slots, seqId) == {} && seqId !in t.incomplete && seqId !in t.released {
      var u := CheckPending(cfg, t, stale);
      ExpiredAreWriting(t, stale);
      CheckIs(cfg, t, stale);
      CheckKeepsCredit(cfg, t, stale);
      OpenIfEmptyKeepsCredit(u, slot, seqId);
    }
  }

  lemma CompleteKeepsCredit(cfg: Config, t: Table, b: nat, complete: bool, stale: set<nat>)
    requires Sound(cfg, t) && b in t.active && b < |t.slots| && Credit(t) && |t.slots| < SIZES
    ensures Credit(Complete(cfg, t, b, complete, stale))
  {
    var u := SetComplete(t, b, complete);
    RecountKeepsSound(cfg, t, b, u.slots[b], u);
    RecountKeepsCredit(t, b, u.slots[b], u);
    MarkKeepsSound(cfg, u, b);
    CheckKeepsCredit(cfg, MarkComplete(cfg, u, b), stale);
  }

  lemma HeaderKeepsCredit(cfg: Config, t: Table, op: Op)
    requires Sound(cfg, t) && Credit(t) && |t.slots| < SIZES && op.HeaderOp? && OnToken(t, op)
    ensures Credit(Step(cfg, t, op))
  {
    FindOrOpenKeepsSound(cfg, t, op.seqId, op.stale, op.slot);
    FindOrOpenKeepsCredit(cfg, t, op.seqId, op.stale, op.slot);
    var (u, found) := FindOrOpen(cfg, t, op.seqId, op.stale, op.slot);
    if found.Buffer? { RecountKeepsCredit(u, found.b, Put(u, found.b, true).slots[found.b], Put(u, found.b, true)); }
  }

  lemma AddKeepsCredit(cfg: Config, t: Table, op: Op)
    requires Sound(cfg, t) && Credit(t) && |t.slots| < SIZES && op.AddOp? && OnToken(t, op)
    ensures Credit(Step(cfg, t, op))
  {
    FindOrOpenKeepsSound(cfg, t, op.seqId, op.stale, op.slot);
    FindOrOpenKeepsCredit(cfg, t, op.seqId, op.stale, op.slot);
    var (u, found) := FindOrOpen(cfg, t, op.seqId, op.stale, op.slot);
    if found.Buffer? {
      var b := found.b;
      var v := Put(u, b, false);
      RecountKeepsSound(cfg, u, b, v.slots[b], v);
      RecountKeepsCredit(u, b, v.slots[b], v);
      CompleteKeepsCredit(cfg, v, b, v.slots[b].fragments == cfg.expected && v.slots[b].writers == 0, op.stale);
    }
  }

  lemma LastFinishKeepsCredit(cfg: Config, t: Table, b: nat, complete: bool, stale: set<nat>)
    requires Sound(cfg, t) && b in t.active && b < |t.slots| && Credit(t) && |t.slots| < SIZES
    ensures Credit(DropWriter(Complete(cfg, t, b, complete, stale), b))
  {
    CompleteKeepsCredit(cfg, t, b, complete, stale);
    var v := Complete(cfg, t, b, complete, stale);
    RecountKeepsCredit(v, b, DropWriter(v, b).slots[b], DropWriter(v, b));
  }

  lemma FinishKeepsCredit(cfg: Config, t: Table, b: nat, stale: set<nat>)
    requires Sound(cfg, t) && b in t.active && b < |t.slots| && Credit(t) && |t.slots| < SIZES
    ensures Credit(AfterFinish(cfg, t, b, stale))
  {
    if t.slots[b].writers > 1 {
      RecountKeepsCredit(t, b, DropWriter(t, b).slots[b], DropWriter(t, b));
    } else {
      LastFinishKeepsCredit(cfg, t, b, t.slots[b].fragments >= cfg.expected, stale);
    }
  }

  lemma DoneKeepsCredit(cfg: Config, t: Table, seqId: nat, stale: set<nat>)
    requires Sound(cfg, t) && Credit(t) && |t.slots| < SIZES
    ensures Credit(Done(cfg, t, seqId, stale)) && Credit(DroppedDone(cfg, t, seqId, stale))
  {
    if Holding(t.slots, seqId) != {} {
      var b, u := Least(Holding(t.slots, seqId)), t.(inFlight := t.inFlight - multiset{seqId});
      HolderTakes(t, seqId);
      DoneIsFinish(cfg, t, seqId, stale);
      RecountKeepsSound(cfg, t, b, t.slots[b], u);
      FinishKeepsCredit(cfg, t, b, stale);
      FinishKeepsCredit(cfg, u, b, stale);
    }
  }

  lemma ArtKeepsCredit(t: Table, b: nat)
    requires Credit(t)
    ensures Credit(Take(t, b)) && Credit(Finish(t, b))
  {
    if b < |t.slots| {
      WriteInto(t.slots, b, t.slots[b].(status := Reading));
      WriteInto(t.slots, b, t.slots[b].(status := Empty));
    }
  }

  lemma StepKeepsCredit(cfg: Config, t: Table, op: Op)
    requires Sound(cfg, t) && Credit(t) && |t.slots| < SIZES && OnToken(t, op)
    ensures Credit(Step(cfg, t, op))
  {
    match op
    case HeaderOp(_, _, _) => HeaderKeepsCredit(cfg, t, op);
    case DoneOp(seqId, stale) => DoneKeepsCredit(cfg, t, seqId, stale);
    case DroppedOp(seqId, stale) => DoneKeepsCredit(cfg, t, seqId, stale);
    case AddOp(_, _, _) => AddKeepsCredit(cfg, t, op);
    case CheckOp(stale) => CheckKeepsCredit(cfg, t, stale);
    case TakeOp(b) => ArtKeepsCredit(t, b);
    case FinishOp(b) => ArtKeepsCredit(t, b);
  }

  // ---------------------------------------------------------------- whole runs

  // startRun sends a token for every buffer of the pool: that is covered if and only if all of them are empty.
  lemma StartIsCoveredIff(cfg: Config, slots: seq<Slot>)
    requires cfg.routing
    ensures Credit(StartRun(cfg, slots)) <==> forall b :: 0 <= b < |slots| ==> slots[b].status == Empty
  {
    BoundedSize(In(slots, Empty), |slots|);
    if Credit(StartRun(cfg, slots)) {
      forall b | 0 <= b < |slots| ensures slots[b].status == Empty {
        assert b in In(slots, Empty);
      }
    } else {
      assert !forall x: nat :: x < |slots| ==> x in In(slots, Empty);
    }
  }

  lemma {:induction false} RunKeepsCredit(cfg: Config, queueSize: nat, ops: seq<Op>)
    requires TokenRun(cfg, queueSize, ops) && queueSize < SIZES
    ensures Credit(Run(cfg, queueSize, ops))
  {
    if ops == [] {
      if cfg.routing { StartIsCoveredIff(cfg, Pool(queueSize)); }
    } else {
      var front := ops[..|ops| - 1];
      Prefixes(ops);
      RunIsSound(cfg, queueSize, front);
      RunKeepsCredit(cfg, queueSize, front);
      StepKeepsCredit(cfg, Run(cfg, queueSize, front), ops[|ops| - 1]);
    }
  }

  // In every reachable state the outstanding tokens fit in the queue, and those without an event in the empty buffers.
  lemma TokensNeverOvercommit(cfg: Config, queueSize: nat, ops: seq<Op>)
    requires TokenRun(cfg, queueSize, ops) && queueSize < SIZES
    ensures var t := Run(cfg, queueSize, ops);
            && t.runEvents <= t.opens <= t.tokensSent <= t.runEvents + queueSize
            && t.tokensSent - t.opens <= |In(t.slots, Empty)|
            && Minus(t.tokensSent, t.runEvents) == t.tokensSent - t.runEvents
  {
    RunIsSound(cfg, queueSize, ops);
    RunKeepsCredit(cfg, queueSize, ops);
    OutstandingDoesNotWrap(Run(cfg, queueSize, ops));
  }

  lemma CoveredEventGetsBuffer(cfg: Config, t: Table, op: Op)
    requires Sound(cfg, t) && Credit(t) && WantsBuffer(t, op) && OnToken(t, op)
    requires In(t.slots, Empty) != {} ==> op.slot in In(t.slots, Empty)
    ensures FindOrOpen(cfg, t, op.seqId, op.stale, op.slot).1 == Buffer(op.slot)
  {
    assert |In(t.slots, Empty)| > 0;
    ExpiredAreWriting(t, op.stale);
    CheckIs(cfg, t, op.stale);
    MarkFullIn(t.slots, t.pending + Expired(t, op.stale));
    assert op.slot in In(CheckPending(cfg, t, op.stale).slots, Empty);
  }

  // In every reachable state an event that comes in on a token gets a buffer.
  lemma TokenGetsBuffer(cfg: Config, queueSize: nat, ops: seq<Op>, op: Op)
    requires TokenRun(cfg, queueSize, ops) && queueSize < SIZES
    requires var t := Run(cfg, queueSize, ops);
             WantsBuffer(t, op) && OnToken(t, op) && (In(t.slots, Empty) != {} ==> op.slot in In(t.slots, Empty))
    ensures FindOrOpen(cfg, Run(cfg, queueSize, ops), op.seqId, op.stale, op.slot).1 == Buffer(op.slot)
  {
    RunIsSound(cfg, queueSize, ops);
    RunKeepsCredit(cfg, queueSize, ops);
    CoveredEventGetsBuffer(cfg, Run(cfg, queueSize, ops), op);
  }

  // In every reachable state a check sends tokens, if they are routed, exactly until as many are outstanding as buffers
  // are empty.
  lemma CheckSendsTokens(cfg: Config, queueSize: nat, ops: seq<Op>, stale: set<nat>)
    requires TokenRun(cfg, queueSize, ops) && queueSize < SIZES
    ensures var t := Run(cfg, queueSize, ops);
            var u := CheckPending(cfg, t, stale);
            if cfg.routing then SendsUpTo(t, u) else u.tokensSent == t.tokensSent
  {
    RunIsSound(cfg, queueSize, ops);
    RunKeepsCredit(cfg, queueSize, ops);
    CheckKeepsCredit(cfg, Run(cfg, queueSize, ops), stale);
  }

  // A step that makes a check last: a check on its own, the last of the writers of an event, or an added fragment.
  ghost predicate EndsWithCheck(cfg: Config, t: Table, op: Op)
    requires t.pending == {}
  {
    match op
    case CheckOp(_) => true
    case DoneOp(e, _) => Holding(t.slots, e) != {} && t.slots[Least(Holding(t.slots, e))].writers <= 1
    case DroppedOp(e, _) => Holding(t.slots, e) != {} && t.slots[Least(Holding(t.slots, e))].writers <= 1
    case AddOp(e, stale, slot) => FindOrOpen(cfg, t, e, stale, slot).1.Buffer?
    case _ => false
  }

  ghost predicate AllEmptyHaveTokens(t: Table) {
    |In(t.slots, Empty)| <= t.tokensSent - t.runEvents
  }

  lemma CompleteCoversEmpty(cfg: Config, t: Table, b: nat, complete: bool, stale: set<nat>)
    requires Sound(cfg, t) && b in t.active && b < |t.slots| && Credit(t) && |t.slots| < SIZES && cfg.routing
    ensures AllEmptyHaveTokens(Complete(cfg, t, b, complete, stale))
  {
    var u := SetComplete(t, b, complete);
    RecountKeepsSound(cfg, t, b, u.slots[b], u);
    RecountKeepsCredit(t, b, u.slots[b], u);
    MarkKeepsSound(cfg, u, b);
    CheckKeepsCredit(cfg, MarkComplete(cfg, u, b), stale);
  }

  lemma DropKeepsTokens(u: Table, b: nat)
    requires b < |u.slots| && AllEmptyHaveTokens(u)
    ensures AllEmptyHaveTokens(DropWriter(u, b))
  {
    RecountKeepsDistinct(u.slots, b, DropWriter(u, b).slots[b]);
  }

  lemma FinishCoversEmpty(cfg: Config, t: Table, b: nat, stale: set<nat>, v: Table)
    requires Sound(cfg, t) && b in t.active && b < |t.slots| && Credit(t) && |t.slots| < SIZES && cfg.routing
    requires t.slots[b].writers <= 1 && v == AfterFinish(cfg, t, b, stale)
    ensures AllEmptyHaveTokens(v)
  {
    FinishIs(cfg, t, b, stale);
    LastFinishCoversEmpty(cfg, t, b, t.slots[b].fragments >= cfg.expected, stale);
  }

  lemma LastFinishCoversEmpty(cfg: Config, t: Table, b: nat, complete: bool, stale: set<nat>)
    requires Sound(cfg, t) && b in t.active && b < |t.slots| && Credit(t) && |t.slots| < SIZES && cfg.routing
    ensures AllEmptyHaveTokens(DropWriter(Complete(cfg, t, b, complete, stale), b))
  {
    CompleteCoversEmpty(cfg, t, b, complete, stale);
    DropKeepsTokens(Complete(cfg, t, b, complete, stale), b);
  }

  lemma AddCoversEmpty(cfg: Config, t: Table, op: Op)
    requires Sound(cfg, t) && Credit(t) && |t.slots| < SIZES && op.AddOp? && OnToken(t, op) && cfg.routing
    requires FindOrOpen(cfg, t, op.seqId, op.stale, op.slot).1.Buffer?
    ensures AllEmptyHaveTokens(Step(cfg, t, op))
  {
    FindOrOpenKeepsSound(cfg, t, op.seqId, op.stale, op.slot);
    FindOrOpenKeepsCredit(cfg, t, op.seqId, op.stale, op.slot);
    var (u, found) := FindOrOpen(cfg, t, op.seqId, op.stale, op.slot);
    var b, v := found.b, Put(u, found.b, false);
    RecountKeepsSound(cfg, u, b, v.slots[b], v);
    RecountKeepsCredit(u, b, v.slots[b], v);
    CompleteCoversEmpty(cfg, v, b, v.slots[b].fragments == cfg.expected && v.slots[b].writers == 0, op.stale);
  }

  lemma TakenOutOfFlight(cfg: Config, t: Table, u: Table, e: nat)
    requires Sound(cfg, t) && Credit(t) && Holding(t.slots, e) != {}
    requires u == t.(inFlight := t.inFlight - multiset{e})
    ensures Sound(cfg, u) && Credit(u) && u.slots == t.slots && Least(Holding(t.slots, e)) in u.active
  {
    HolderTakes(t, e);
    RecountKeepsSound(cfg, t, Least(Holding(t.slots, e)), t.slots[Least(Holding(t.slots, e))], u);
  }

  lemma DoneCoversEmpty(cfg: Config, t: Table, u: Table, b: nat, e: nat, stale: set<nat>)
    requires Sound(cfg, t) && Credit(t) && |t.slots| < SIZES && cfg.routing
    requires Holding(t.slots, e) != {} && b == Least(Holding(t.slots, e)) && t.slots[b].writers <= 1
    requires u == t.(inFlight := t.inFlight - multiset{e})
    ensures AllEmptyHaveTokens(Done(cfg, t, e, stale))
  {
    TakenOutOfFlight(cfg, t, u, e);
    DoneIsFinish(cfg, t, e, stale);
    FinishCoversEmpty(cfg, u, b, stale, Done(cfg, t, e, stale));
  }

  lemma DroppedCoversEmpty(cfg: Config, t: Table, e: nat, stale: set<nat>)
    requires Sound(cfg, t) && Credit(t) && |t.slots| < SIZES && cfg.routing
    requires Holding(t.slots, e) != {} && t.slots[Least(Holding(t.slots, e))].writers <= 1
    ensures AllEmptyHaveTokens(DroppedDone(cfg, t, e, stale))
  {
    HolderTakes(t, e);
    FinishCoversEmpty(cfg, t, Least(Holding(t.slots, e)), stale, DroppedDone(cfg, t, e, stale));
  }

  // After every such step of a token run no buffer is empty without a token for it.
  lemma EmptyBuffersHaveTokens(cfg: Config, queueSize: nat, ops: seq<Op>, op: Op)
    requires TokenRun(cfg, queueSize, ops) && queueSize < SIZES && cfg.routing
    requires OnToken(Run(cfg, queueSize, ops), op) && EndsWithCheck(cfg, Run(cfg, queueSize, ops), op)
    ensures AllEmptyHaveTokens(Step(cfg, Run(cfg, queueSize, ops), op))
  {
    var t := Run(cfg, queueSize, ops);
    RunIsSound(cfg, queueSize, ops);
    RunKeepsCredit(cfg, queueSize, ops);
    match op
    case CheckOp(stale) => CheckSendsTokens(cfg, queueSize, ops, stale);
    case DoneOp(e, stale) =>
      DoneCoversEmpty(cfg, t, t.(inFlight := t.inFlight - multiset{e}), Least(Holding(t.slots, e)), e, stale);
    case DroppedOp(e, stale) => DroppedCoversEmpty(cfg, t, e, stale);
    case AddOp(_, _, _) => AddCoversEmpty(cfg, t, op);
  }

  // A new event, whether or not a buffer is offered for it: first tokens are sent as by any check.
  lemma NewEventSendsTokens(cfg: Config, queueSize: nat, ops: seq<Op>, op: Op)
    requires TokenRun(cfg, queueSize, ops) && queueSize < SIZES && cfg.routing
    requires WantsBuffer(Run(cfg, queueSize, ops), op)
    ensures var t := Run(cfg, queueSize, ops);
            var u := FindOrOpen(cfg, t, op.seqId, op.stale, op.slot).0;
            var goal := u.runEvents + |In(t.slots, Empty)|;
            u.tokensSent == if goal > t.tokensSent then goal else t.tokensSent
  {
    var t := Run(cfg, queueSize, ops);
    RunIsSound(cfg, queueSize, ops);
    RunKeepsCredit(cfg, queueSize, ops);
    CheckKeepsCredit(cfg, t, op.stale);
    CheckKeepsEmpty(cfg, t, op.stale);
    ChecksBeforeOpening(cfg, t, op);
  }

  lemma ChecksBeforeOpening(cfg: Config, t: Table, op: Op)
    requires t.pending == {} && WantsBuffer(t, op)
    ensures var u, v := FindOrOpen(cfg, t, op.seqId, op.stale, op.slot).0, CheckPending(cfg, t, op.stale);
            u.tokensSent == v.tokensSent && u.runEvents == v.runEvents && u.log == v.log
  {
  }

  lemma CheckKeepsEmpty(cfg: Config, t: Table, stale: set<nat>)
    requires Owned(t)
    ensures In(CheckPending(cfg, t, stale).slots, Empty) == In(t.slots, Empty)
  {
    ExpiredAreWriting(t, stale);
    CheckIs(cfg, t, stale);
    MarkFullIn(t.slots, t.pending + Expired(t, stale));
  }

  // In every reachable state with all buffers empty, the next check leaves exactly one outstanding token for each.
  lemma IdleRestoresTokens(cfg: Config, queueSize: nat, ops: seq<Op>, stale: set<nat>)
    requires TokenRun(cfg, queueSize, ops) && queueSize < SIZES && cfg.routing
    requires forall b :: 0 <= b < queueSize ==> Run(cfg, queueSize, ops).slots[b].status == Empty
    ensures var u := CheckPending(cfg, Run(cfg, queueSize, ops), stale); u.tokensSent - u.runEvents == queueSize
  {
    RunIsSound(cfg, queueSize, ops);
    RunKeepsCredit(cfg, queueSize, ops);
    IdleCheckRestores(cfg, Run(cfg, queueSize, ops), stale);
  }

  lemma IdleCheckRestores(cfg: Config, t: Table, stale: set<nat>)
    requires Sound(cfg, t) && Credit(t) && |t.slots| < SIZES && cfg.routing
    requires forall b :: 0 <= b < |t.slots| ==> t.slots[b].status == Empty
    ensures var u := CheckPending(cfg, t, stale); u.tokensSent - u.runEvents == |t.slots|
  {
    assert In(t.slots, Writing) == {};
    assert t.active == {} && Expired(t, stale) == {};
    BoundedSize(In(t.slots, Empty), |t.slots|);
    var u := Expire(cfg, t, stale);
    ExpireKeepsOwned(cfg, t, stale);
    ReleaseKeepsOwned(u);
    MarkFullIn(u.slots, u.pending);
    SendKeepsCredit(cfg, ReleasePending(u));
  }
}
