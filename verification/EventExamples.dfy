/** Concrete runs of the event builder: that the conditions of the theorems can be met, and how an event is built
    twice. */
module EventExamples {
  import opened Ordered
  import opened EventTable
  import opened EventSteps
  import opened EventRuns

  // Without pending or stale buffers and without tokens, a check does nothing.
  lemma QuietCheck(cfg: Config, t: Table)
    requires t.pending == {} && !cfg.routing
    ensures Expired(t, {}) == {} && CheckPending(cfg, t, {}) == t
  {
    assert MarkFull(t.slots, {}) == t.slots;
    assert SeqIds(t.slots, {}) == {} && Sorted({}) == [];
    assert t.log + [] == t.log;
  }

  lemma Opened(cfg: Config, t: Table, e: nat, slot: nat)
    requires t.pending == {} && !cfg.routing && slot < |t.slots| && t.slots[slot].status == Empty
    requires Holding(t.slots, e) == {} && e !in t.incomplete && e !in t.released
    ensures FindOrOpen(cfg, t, e, {}, slot) == (OpenSlot(t, slot, e), Buffer(slot))
  {
    QuietCheck(cfg, t);
  }

  // An event of one fragment is opened, and its only writer is in flight.
  lemma OneFragmentRun(e: nat)
    ensures var cfg, ops := Config(1, 1, false), [HeaderOp(e, {}, 0)];
            && LegalRun(cfg, 1, ops) && TimelyRun(cfg, 1, ops)
            && Run(cfg, 1, ops).inFlight == multiset{e} && Run(cfg, 1, ops).accepted == multiset{e}
  {
    var cfg, ops, t := Config(1, 1, false), [HeaderOp(e, {}, 0)], StartRun(Config(1, 1, false), Pool(1));
    assert ops[..0] == [];
    assert Run(cfg, 1, []) == t;
    Opened(cfg, t, e, 0);
    assert Run(cfg, 1, ops) == Put(OpenSlot(t, 0, e), 0, true);
  }

  // ---------------------------------------------------------------- an event that is built twice

  // t became u by building event e of one fragment in the empty buffer slot.
  ghost predicate Built(cfg: Config, t: Table, u: Table, e: nat, slot: nat) {
    && slot < |t.slots| && u.slots == t.slots[slot := Slot(Full, e, 1, 0, true)] && u.active == {} && u.pending == {}
    && u.incomplete == t.incomplete && u.released == AddReleased(t.released, e, cfg.maxList) && u.log == t.log + [e]
  }

  lemma AddedAtOnce(cfg: Config, t: Table, e: nat, slot: nat)
    requires cfg.expected == 1 && !cfg.routing && t.pending == {} && t.active == {}
    requires slot < |t.slots| && t.slots[slot].status == Empty
    requires Holding(t.slots, e) == {} && e !in t.incomplete && e !in t.released
    ensures Built(cfg, t, Add(cfg, t, e, {}, slot), e, slot)
  {
    var w := MarkComplete(cfg, SetComplete(Put(OpenSlot(t, slot, e), slot, false), slot, true), slot);
    MarkedAtOnce(cfg, t, e, slot);
    ReleasesOne(cfg, w, slot);
    AddChecks(cfg, t, e, slot);
  }

  lemma AddChecks(cfg: Config, t: Table, e: nat, slot: nat)
    requires cfg.expected == 1 && !cfg.routing && t.pending == {}
    requires slot < |t.slots| && t.slots[slot].status == Empty
    requires Holding(t.slots, e) == {} && e !in t.incomplete && e !in t.released
    ensures var w := MarkComplete(cfg, SetComplete(Put(OpenSlot(t, slot, e), slot, false), slot, true), slot);
            w.pending <= {slot} && Add(cfg, t, e, {}, slot) == CheckPending(cfg, w, {})
  {
    Opened(cfg, t, e, slot);
  }

  lemma MarkedAtOnce(cfg: Config, t: Table, e: nat, slot: nat)
    requires t.pending == {} && t.active == {} && slot < |t.slots|
    ensures var w := MarkComplete(cfg, SetComplete(Put(OpenSlot(t, slot, e), slot, false), slot, true), slot);
            && w.slots == t.slots[slot := Slot(Writing, e, 1, 0, true)] && w.pending == {slot} && w.active == {}
            && w.incomplete == t.incomplete && w.released == AddReleased(t.released, e, cfg.maxList) && w.log == t.log
  {
  }

  lemma ReleasesOne(cfg: Config, t: Table, slot: nat)
    requires t.pending == {slot} && slot < |t.slots| && !cfg.routing
    ensures var u := CheckPending(cfg, t, {});
            && u.slots == t.slots[slot := t.slots[slot].(status := Full)] && u.active == t.active && u.pending == {}
            && u.incomplete == t.incomplete && u.released == t.released && u.log == t.log + [t.slots[slot].seqId]
  {
    var q := t.slots[slot].seqId;
    assert Expired(t, {}) == {} && t.pending + {} == t.pending && t.active - {} == t.active;
    assert MarkFull(t.slots, {slot}) == t.slots[slot := t.slots[slot].(status := Full)];
    assert SeqIds(t.slots, {slot}) == {q};
    SortedFirst({q});
    assert {q} - {q} == {} && Sorted({}) == [];
    assert Sorted({q}) == [q];
  }

  // After ops, a legal run, the state is t.
  ghost predicate Reaches(cfg: Config, queueSize: nat, ops: seq<Op>, t: Table) {
    LegalRun(cfg, queueSize, ops) && t == Run(cfg, queueSize, ops)
  }

  lemma OneMoreStep(cfg: Config, queueSize: nat, ops: seq<Op>, t: Table, op: Op, u: Table)
    requires Reaches(cfg, queueSize, ops, t) && t.pending == {} && Legal(t, op) && u == Step(cfg, t, op)
    ensures Reaches(cfg, queueSize, ops + [op], u)
  {
    var more := ops + [op];
    assert more[..|more| - 1] == ops;
    forall i | 0 <= i < |more| ensures Legal(Run(cfg, queueSize, more[..i]), more[i]) {
      if i < |ops| { assert more[..i] == ops[..i] && more[i] == ops[i]; }
    }
  }

  lemma AddFirst(cfg: Config, t: Table, u: Table)
    requires Reaches(cfg, 3, [], t) && t.pending == {} && u == Add(cfg, t, 1, {}, 0)
    ensures Reaches(cfg, 3, [AddOp(1, {}, 0)], u)
  {
    OneMoreStep(cfg, 3, [], t, AddOp(1, {}, 0), u);
    assert [] + [AddOp(1, {}, 0)] == [AddOp(1, {}, 0)];
  }

  lemma AddSecond(cfg: Config, u: Table, v: Table)
    requires Reaches(cfg, 3, [AddOp(1, {}, 0)], u) && u.pending == {} && v == Add(cfg, u, 2, {}, 1)
    ensures Reaches(cfg, 3, [AddOp(1, {}, 0), AddOp(2, {}, 1)], v)
  {
    OneMoreStep(cfg, 3, [AddOp(1, {}, 0)], u, AddOp(2, {}, 1), v);
    assert [AddOp(1, {}, 0)] + [AddOp(2, {}, 1)] == [AddOp(1, {}, 0), AddOp(2, {}, 1)];
  }

  lemma TwoInAListOfOne()
    ensures AddReleased({}, 1, 1) == {1} && AddReleased({1}, 2, 1) == {2}
  {
    assert {} + {1} == {1} && {1} + {2} == {1, 2} && Least({1, 2}) == 1 && {1, 2} - {1} == {2};
    assert |{1, 2}| == 2;
  }

  lemma Second(cfg: Config, t: Table, u: Table, v: Table)
    requires cfg.maxList == 1 && t == StartRun(cfg, Pool(3)) && Built(cfg, t, u, 1, 0)
    ensures Holding(u.slots, 2) == {} && 2 !in u.incomplete && 2 !in u.released
    ensures Built(cfg, u, v, 2, 1) ==>
              Holding(v.slots, 1) == {} && 1 !in v.incomplete && 1 !in v.released && v.log == [1, 2]
                && v.slots[2].status == Empty
  {
    TwoInAListOfOne();
  }

  // With a list of one released event, event 1 is released, event 2 is released, and a fragment that then comes for
  // event 1 opens a second buffer for it.
  lemma ReleasedEventReopens()
    ensures var cfg, ops := Config(1, 1, false), [AddOp(1, {}, 0), AddOp(2, {}, 1)];
            var t := Run(cfg, 3, ops);
            LegalRun(cfg, 3, ops) && t.log == [1, 2] && FindOrOpen(cfg, t, 1, {}, 2).1 == Buffer(2)
  {
    var cfg := Config(1, 1, false);
    var t := StartRun(cfg, Pool(3));
    var u := Add(cfg, t, 1, {}, 0);
    var v := Add(cfg, u, 2, {}, 1);
    First(cfg, t, u);
    Third(cfg, t, u, v);
    AddFirst(cfg, t, u);
    AddSecond(cfg, u, v);
  }

  lemma First(cfg: Config, t: Table, u: Table)
    requires cfg == Config(1, 1, false) && t == StartRun(cfg, Pool(3)) && u == Add(cfg, t, 1, {}, 0)
    ensures Reaches(cfg, 3, [], t) && Built(cfg, t, u, 1, 0)
  {
    NoneHeld(3, 1);
    AddedAtOnce(cfg, t, 1, 0);
  }

  lemma Third(cfg: Config, t: Table, u: Table, v: Table)
    requires cfg == Config(1, 1, false) && t == StartRun(cfg, Pool(3)) && Built(cfg, t, u, 1, 0)
    requires v == Add(cfg, u, 2, {}, 1)
    ensures Built(cfg, u, v, 2, 1) && v.pending == {} && v.log == [1, 2] && v.slots[2].status == Empty
    ensures Holding(v.slots, 1) == {} && FindOrOpen(cfg, v, 1, {}, 2) == (OpenSlot(v, 2, 1), Buffer(2))
  {
    Second(cfg, t, u, v);
    AddedAtOnce(cfg, u, 2, 1);
    Opened(cfg, v, 1, 2);
  }

  lemma NoneHeld(queueSize: nat, e: nat)
    ensures Holding(Pool(queueSize), e) == {}
  {
  }
}
