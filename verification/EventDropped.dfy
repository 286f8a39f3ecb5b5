/** DoneWritingFragment does not remember which fragments were dropped
    (artdaq/DAQrate/SharedMemoryEventManager.cc:299-320 and 346-373): if the event of a dropped one has opened a buffer
    since, that buffer loses a writer it never counted. */
module EventDropped {
  import opened Ordered
  import opened EventTable
  import opened EventInvariants
  import opened EventSteps
  import opened EventSound
  import opened EventRuns
  import opened EventReleases
  import opened EventExamples

  // The buffer leaves in that call: it counts as complete, or it is idle and times out.
  predicate Leaves(cfg: Config, s: Slot, isStale: bool) {
    (s.writers == 1 && s.fragments >= cfg.expected) || (s.writers == 0 && isStale)
  }

  // u is t after b lost a writer.
  ghost predicate LostWriter(cfg: Config, t: Table, u: Table, b: nat, stale: set<nat>) {
    && u.inFlight == t.inFlight && |u.slots| == |t.slots| && b < |t.slots|
    && u.slots[b].seqId == t.slots[b].seqId && u.slots[b].writers == t.slots[b].writers - 1
    && u.slots[b].status == (if Leaves(cfg, t.slots[b], b in stale) then Full else Writing)
    && (forall a :: a in In(u.slots, Writing) ==> a in In(t.slots, Writing) && u.slots[a].seqId == t.slots[a].seqId)
  }

  lemma FinishTakesWriter(cfg: Config, t: Table, b: nat, stale: set<nat>)
    requires t.pending == {} && b in t.active && b in In(t.slots, Writing) && t.slots[b].writers >= 0
    requires t.slots[b].writers == 0 ==> t.slots[b].fragments < cfg.expected
    ensures LostWriter(cfg, t, AfterFinish(cfg, t, b, stale), b, stale)
  {
    if t.slots[b].writers > 1 {
      OneWriterLess(cfg, t, DropWriter(t, b), b, stale);
    } else {
      var complete := t.slots[b].fragments >= cfg.expected;
      CompleteLeaves(cfg, t, b, complete, stale);
      LeavesWithoutWriter(cfg, t, Complete(cfg, t, b, complete, stale), b, complete, stale);
    }
  }

  lemma OneWriterLess(cfg: Config, t: Table, u: Table, b: nat, stale: set<nat>)
    requires b in In(t.slots, Writing) && t.slots[b].writers > 1 && u.inFlight == t.inFlight
    requires u.slots == t.slots[b := t.slots[b].(writers := t.slots[b].writers - 1)]
    ensures LostWriter(cfg, t, u, b, stale)
  {
  }

  lemma CompleteLeaves(cfg: Config, t: Table, b: nat, complete: bool, stale: set<nat>)
    requires t.pending == {} && b in t.active && b < |t.slots|
    ensures var u := Complete(cfg, t, b, complete, stale);
            && u.inFlight == t.inFlight
            && u.slots == MarkFull(SetComplete(t, b, complete).slots, Leaving(t, b, complete, stale))
  {
    var v := MarkComplete(cfg, SetComplete(t, b, complete), b);
    MarkMarks(cfg, t, b, complete);
    MarkedLeave(t, v, b, complete, stale);
    CheckIs(cfg, v, stale);
  }

  lemma LeavesWithoutWriter(cfg: Config, t: Table, u: Table, b: nat, complete: bool, stale: set<nat>)
    requires t.pending == {} && b in t.active && b in In(t.slots, Writing) && 0 <= t.slots[b].writers <= 1
    requires complete == (t.slots[b].fragments >= cfg.expected) && (t.slots[b].writers == 0 ==> !complete)
    requires u.inFlight == t.inFlight
    requires u.slots == MarkFull(SetComplete(t, b, complete).slots, Leaving(t, b, complete, stale))
    ensures LostWriter(cfg, t, DropWriter(u, b), b, stale)
  {
    assert b in Leaving(t, b, complete, stale) <==> Leaves(cfg, t.slots[b], b in stale);
  }

  lemma HolderLosesWriter(cfg: Config, t: Table, e: nat, stale: set<nat>)
    requires Steady(cfg, t) && Holding(t.slots, e) != {}
    ensures var b := Least(Holding(t.slots, e));
            && b in t.active && b in In(t.slots, Writing) && t.slots[b].seqId == e
              && t.slots[b].writers == t.inFlight[e]
            && (t.slots[b].writers == 0 ==> t.slots[b].fragments < cfg.expected)
            && LostWriter(cfg, t, DroppedDone(cfg, t, e, stale), b, stale)
  {
    var b := Least(Holding(t.slots, e));
    HolderIsReady(cfg, t, e);
    IdleMeansNoneInFlight(t, b);
    FinishTakesWriter(cfg, t, b, stale);
  }

  // Only a buffer that times out in the same call, with no fragment in flight, comes out of it right.
  lemma LostWriterMiscounts(cfg: Config, t: Table, u: Table, b: nat, stale: set<nat>)
    requires Steady(cfg, t) && b in In(t.slots, Writing) && LostWriter(cfg, t, u, b, stale)
    requires t.slots[b].writers == t.inFlight[t.slots[b].seqId] && !(t.slots[b].writers == 0 && b in stale)
    ensures !Steady(cfg, u)
  {
    var e := t.slots[b].seqId;
    if Leaves(cfg, t.slots[b], b in stale) {
      forall a | a in Holding(u.slots, e) ensures a == b {
        assert a in In(u.slots, Writing) && a in In(t.slots, Writing);
      }
      assert b !in Holding(u.slots, e) && e in u.inFlight;
    } else {
      assert b in In(u.slots, Writing);
    }
  }

  lemma TimedOutInTime(cfg: Config, t: Table, b: nat, stale: set<nat>)
    requires Sane(cfg) && Steady(cfg, t) && b in t.active && b in In(t.slots, Writing) && b in stale
    requires t.slots[b].writers == 0 && t.slots[b].fragments < cfg.expected
    ensures Steady(cfg, AfterFinish(cfg, t, b, stale))
  {
    WeakenBuilding(cfg.expected, t.slots, t.active, b);
    CompleteKeepsMid(cfg, t, b, false, stale, -1);
    FinishTakesWriter(cfg, t, b, stale);
    FullMayLoseWriter(cfg, Complete(cfg, t, b, false, stale), b);
  }

  lemma FullMayLoseWriter(cfg: Config, u: Table, b: nat)
    requires u.pending == {} && Mid(cfg, u, -1, -1) && b < |u.slots| && DropWriter(u, b).slots[b].status == Full
    ensures Steady(cfg, DropWriter(u, b))
  {
    var s := u.slots[b].(writers := u.slots[b].writers - 1);
    assert DropWriter(u, b) == u.(slots := u.slots[b := s]);
    assert s.status == Full;
    ReadKeepsSteady(cfg, u, b, s);
  }

  // No buffer holds the event, or the one that does has no fragment in flight and times out in the same call.
  predicate Harmless(t: Table, e: nat, stale: set<nat>) {
    Holding(t.slots, e) == {} || (e !in t.inFlight && Least(Holding(t.slots, e)) in stale)
  }

  lemma HarmlessIff(cfg: Config, t: Table, e: nat, stale: set<nat>)
    requires Sane(cfg) && Steady(cfg, t)
    ensures Steady(cfg, DroppedDone(cfg, t, e, stale)) <==> Harmless(t, e, stale)
  {
    if Holding(t.slots, e) != {} {
      var b := Least(Holding(t.slots, e));
      HolderLosesWriter(cfg, t, e, stale);
      if t.slots[b].writers == 0 && b in stale { TimedOutInTime(cfg, t, b, stale); }
      else { LostWriterMiscounts(cfg, t, DroppedDone(cfg, t, e, stale), b, stale); }
    }
  }

  // In every reachable state: the writer counts survive the end of a dropped fragment if and only if it is harmless.
  lemma DroppedDoneIsHarmlessIff(cfg: Config, queueSize: nat, ops: seq<Op>, e: nat, stale: set<nat>)
    requires Sane(cfg) && LegalRun(cfg, queueSize, ops)
    ensures var t := Run(cfg, queueSize, ops);
            Steady(cfg, DroppedDone(cfg, t, e, stale)) <==> Harmless(t, e, stale)
  {
    RunIsSteady(cfg, queueSize, ops);
    HarmlessIff(cfg, Run(cfg, queueSize, ops), e, stale);
  }

  // In every reachable state: it sends its event to art while a fragment of it is in flight if and only if exactly one
  // is, and all expected fragments have been written.
  lemma DroppedDoneReleasesEarlyIff(cfg: Config, queueSize: nat, ops: seq<Op>, e: nat, stale: set<nat>)
    requires Sane(cfg) && LegalRun(cfg, queueSize, ops) && Holding(Run(cfg, queueSize, ops).slots, e) != {}
    ensures var t := Run(cfg, queueSize, ops);
            var b, u := Least(Holding(t.slots, e)), DroppedDone(cfg, t, e, stale);
            && b < |u.slots|
            && (u.slots[b].status == Full && e in u.inFlight
                <==> t.inFlight[e] == 1 && t.slots[b].fragments >= cfg.expected)
  {
    RunIsSteady(cfg, queueSize, ops);
    HolderLosesWriter(cfg, Run(cfg, queueSize, ops), e, stale);
  }

  // ---------------------------------------------------------------- the count is wrong from then on

  lemma OnlyHolder(t: Table, u: Table, b: nat, stale: set<nat>, cfg: Config)
    requires Owned(t) && b in In(t.slots, Writing) && LostWriter(cfg, t, u, b, stale) && b in In(u.slots, Writing)
    ensures Holding(u.slots, t.slots[b].seqId) == {b}
  {
    forall a | a in Holding(u.slots, t.slots[b].seqId) ensures a == b {
      assert a in In(u.slots, Writing) && a in In(t.slots, Writing);
    }
  }

  // u: no fragment of the event in b is in flight, and b counts one writer too few.
  lemma NextTimesOutInFlight(cfg: Config, u: Table, e: nat, b: nat, stale: set<nat>, slot: nat)
    requires Sound(cfg, u) && Holding(u.slots, e) == {b} && u.slots[b].writers == -1
    ensures var v := Header(cfg, u, e, stale, slot);
            && v.pending == {} && b < |v.slots| && v.slots[b].writers == 0 && b in Expired(v, {b}) && e in v.inFlight
            && e in CheckPending(cfg, v, {b}).log && e in CheckPending(cfg, v, {b}).inFlight
  {
    HolderTakes(u, e);
    var v := Put(u, b, true);
    assert Header(cfg, u, e, stale, slot) == v && b in Expired(v, {b});
    CheckIs(cfg, v, {b});
    assert v.slots[b].seqId in SeqIds(v.slots, v.pending + Expired(v, {b}));
  }

  // b counts -1 writers and cannot time out; once the next header of the event has been written it can time out, and go
  // to art, with that fragment in flight.
  ghost predicate Miscounted(cfg: Config, u: Table, b: nat, e: nat, stale: set<nat>, slot: nat) {
    && u.pending == {} && b < |u.slots| && u.slots[b].writers == -1 && (forall any: set<nat> :: b !in Expired(u, any))
    && var v := Header(cfg, u, e, stale, slot);
       && b in Expired(v, {b}) && e in CheckPending(cfg, v, {b}).log && e in CheckPending(cfg, v, {b}).inFlight
  }

  lemma NegativeIsMiscounted(cfg: Config, t: Table, u: Table, e: nat, b: nat, stale: set<nat>, late: set<nat>,
                             slot: nat)
    requires Owned(t) && b in In(t.slots, Writing) && t.slots[b].seqId == e && LostWriter(cfg, t, u, b, stale)
    requires t.slots[b].writers == 0 && b !in stale && Sound(cfg, u)
    ensures Miscounted(cfg, u, b, e, late, slot)
  {
    OnlyHolder(t, u, b, stale, cfg);
    NextTimesOutInFlight(cfg, u, e, b, late, slot);
  }

  // In every reachable state, if no fragment of the event is in flight and its buffer does not time out in the call.
  lemma DroppedDoneMiscounts(cfg: Config, queueSize: nat, ops: seq<Op>, e: nat, stale: set<nat>, late: set<nat>,
                             slot: nat)
    requires Sane(cfg) && LegalRun(cfg, queueSize, ops)
    requires var t := Run(cfg, queueSize, ops); !Harmless(t, e, stale) && e !in t.inFlight
    ensures var t := Run(cfg, queueSize, ops);
            Miscounted(cfg, DroppedDone(cfg, t, e, stale), Least(Holding(t.slots, e)), e, late, slot)
  {
    RunIsSteady(cfg, queueSize, ops);
    LosesCount(cfg, Run(cfg, queueSize, ops), e, stale, late, slot);
  }

  lemma LosesCount(cfg: Config, t: Table, e: nat, stale: set<nat>, late: set<nat>, slot: nat)
    requires Steady(cfg, t) && !Harmless(t, e, stale) && e !in t.inFlight
    ensures Miscounted(cfg, DroppedDone(cfg, t, e, stale), Least(Holding(t.slots, e)), e, late, slot)
  {
    HolderLosesWriter(cfg, t, e, stale);
    DroppedKeepsSound(cfg, t, e, stale);
    NegativeIsMiscounted(cfg, t, DroppedDone(cfg, t, e, stale), e, Least(Holding(t.slots, e)), stale, late, slot);
  }

  // ---------------------------------------------------------------- a run in which it releases the event early

  lemma IsDropped(cfg: Config, t: Table, u: Table)
    requires cfg == Config(1, 1, false) && t == StartRun(cfg, Pool(3)) && Built(cfg, t, u, 1, 0)
    ensures Step(cfg, u, HeaderOp(1, {}, 2)) == u && FindOrOpen(cfg, u, 1, {}, 2).1 == Passed
  {
    TwoInAListOfOne();
    assert Holding(u.slots, 1) == {};
  }

  // The second buffer of event 1, with its fragment in flight.
  ghost predicate Again(w: Table) {
    && |w.slots| == 3 && w.slots[2] == Slot(Writing, 1, 1, 1, false) && w.pending == {} && 2 in w.active
      && w.log == [1, 2]
    && Holding(w.slots, 1) == {2} && 1 in w.inFlight && w.released == {2} && w.incomplete == map[]
  }

  lemma PutAgain(v: Table)
    requires v.pending == {} && |v.slots| == 3 && v.log == [1, 2] && Holding(v.slots, 1) == {}
    requires v.released == {2} && v.incomplete == map[]
    ensures Again(Put(OpenSlot(v, 2, 1), 2, true))
  {
    var w := Put(OpenSlot(v, 2, 1), 2, true);
    forall b | b in Holding(w.slots, 1) ensures b == 2 { assert b in Holding(v.slots, 1) || b == 2; }
  }

  lemma ListedAgain()
    ensures AddReleased({2}, 1, 1) == {2}
  {
    assert {2} + {1} == {1, 2} && Least({1, 2}) == 1 && {1, 2} - {1} == {2};
    assert |{1, 2}| == 2;
  }

  lemma ReleasedTooEarly(cfg: Config, w: Table)
    requires cfg == Config(1, 1, false) && Again(w)
    ensures var u := DroppedDone(cfg, w, 1, {}); u.log == [1, 2, 1] && 1 in u.inFlight && Unknown(u, 1)
  {
    var v := MarkComplete(cfg, SetComplete(w, 2, true), 2);
    assert v.pending == {} + {2} == {2};
    ListedAgain();
    ReleasesOne(cfg, v, 2);
    assert [1, 2] + [1] == [1, 2, 1];
  }

  lemma AddAndDrop(cfg: Config) returns (u: Table)
    requires cfg == Config(1, 1, false)
    ensures Built(cfg, StartRun(cfg, Pool(3)), u, 1, 0) && FindOrOpen(cfg, u, 1, {}, 2).1 == Passed
    ensures Reaches(cfg, 3, [AddOp(1, {}, 0)], u) && Reaches(cfg, 3, [AddOp(1, {}, 0), HeaderOp(1, {}, 2)], u)
  {
    u := Add(cfg, StartRun(cfg, Pool(3)), 1, {}, 0);
    First(cfg, StartRun(cfg, Pool(3)), u);
    AddFirst(cfg, StartRun(cfg, Pool(3)), u);
    DropSecond(cfg, u);
  }

  lemma DropSecond(cfg: Config, u: Table)
    requires cfg == Config(1, 1, false) && Built(cfg, StartRun(cfg, Pool(3)), u, 1, 0)
    requires Reaches(cfg, 3, [AddOp(1, {}, 0)], u)
    ensures FindOrOpen(cfg, u, 1, {}, 2).1 == Passed && Reaches(cfg, 3, [AddOp(1, {}, 0), HeaderOp(1, {}, 2)], u)
  {
    IsDropped(cfg, StartRun(cfg, Pool(3)), u);
    OneMoreStep(cfg, 3, [AddOp(1, {}, 0)], u, HeaderOp(1, {}, 2), u);
    assert [AddOp(1, {}, 0)] + [HeaderOp(1, {}, 2)] == [AddOp(1, {}, 0), HeaderOp(1, {}, 2)];
  }

  lemma OpenAgain(cfg: Config, ops: seq<Op>, u: Table) returns (w: Table)
    requires cfg == Config(1, 1, false) && Built(cfg, StartRun(cfg, Pool(3)), u, 1, 0) && Reaches(cfg, 3, ops, u)
    ensures Again(w) && Reaches(cfg, 3, ops + [AddOp(2, {}, 1)] + [HeaderOp(1, {}, 2)], w)
  {
    var v := Add(cfg, u, 2, {}, 1);
    Third(cfg, StartRun(cfg, Pool(3)), u, v);
    PutAgain(v);
    w := Put(OpenSlot(v, 2, 1), 2, true);
    AddAfter(cfg, ops, u, v);
    HeaderAfter(cfg, ops + [AddOp(2, {}, 1)], v, w);
  }

  lemma AddAfter(cfg: Config, ops: seq<Op>, u: Table, v: Table)
    requires Reaches(cfg, 3, ops, u) && u.pending == {} && v == Add(cfg, u, 2, {}, 1)
    ensures Reaches(cfg, 3, ops + [AddOp(2, {}, 1)], v)
  {
    OneMoreStep(cfg, 3, ops, u, AddOp(2, {}, 1), v);
  }

  lemma HeaderAfter(cfg: Config, ops: seq<Op>, v: Table, w: Table)
    requires Reaches(cfg, 3, ops, v) && v.pending == {} && 2 < |v.slots|
    requires FindOrOpen(cfg, v, 1, {}, 2) == (OpenSlot(v, 2, 1), Buffer(2)) && w == Put(OpenSlot(v, 2, 1), 2, true)
    ensures Reaches(cfg, 3, ops + [HeaderOp(1, {}, 2)], w)
  {
    OneMoreStep(cfg, 3, ops, v, HeaderOp(1, {}, 2), w);
  }

  // With a list of one released event: event 1 is released (s), a second fragment of it is dropped, event 2 is
  // released, and a third fragment of event 1 opens a buffer again (t). When the dropped one is done, event 1 goes to
  // art with that one in flight, and is unknown from then on.
  lemma ReleasedWithAFragmentInFlight() returns (s: Table, t: Table)
    ensures var cfg := Config(1, 1, false);
            var ops := [AddOp(1, {}, 0), HeaderOp(1, {}, 2), AddOp(2, {}, 1), HeaderOp(1, {}, 2)];
            && Reaches(cfg, 3, ops[..1], s) && s.pending == {} && FindOrOpen(cfg, s, 1, {}, 2).1 == Passed
            && Reaches(cfg, 3, ops, t) && t.pending == {} && t.log == [1, 2]
            && var u := DroppedDone(cfg, t, 1, {}); u.log == [1, 2, 1] && 1 in u.inFlight && Unknown(u, 1)
  {
    var a, h, c := AddOp(1, {}, 0), HeaderOp(1, {}, 2), AddOp(2, {}, 1);
    s := AddAndDrop(Config(1, 1, false));
    t := OpenAgain(Config(1, 1, false), [a, h], s);
    FourOps(a, h, c, h);
    ReleasedTooEarly(Config(1, 1, false), t);
  }

  lemma FourOps(a: Op, b: Op, c: Op, d: Op)
    ensures [a, b] + [c] + [d] == [a, b, c, d] && [a, b, c, d][..1] == [a]
  {
  }
}
