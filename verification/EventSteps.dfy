/** Every step of the event table keeps the invariants of EventInvariants. */
module EventSteps {
  import opened Ordered
  import opened EventTable
  import opened EventInvariants

  // w: the buffer whose writer is just finishing; x: the buffer that is just being filled; -1 for none.
  ghost predicate Mid(cfg: Config, t: Table, w: int, x: int) {
    && Owned(t)
    && Counted(t.slots, t.pending, t.inFlight, w)
    && Building(cfg.expected, t.slots, t.active, x)
    && IsTop(cfg.maxList, t.completed, t.released)
    && Absent(t.slots, t.active, t.incomplete.Keys)
    && InRange(cfg.expected, t.incomplete)
  }

  // The invariant between steps.
  ghost predicate Steady(cfg: Config, t: Table) {
    t.pending == {} && Mid(cfg, t, -1, -1)
  }

  ghost predicate Sane(cfg: Config) {
    1 <= cfg.expected < SIZES
  }

  lemma CheckKeepsMid(cfg: Config, t: Table, stale: set<nat>, w: int, x: int)
    requires Sane(cfg) && Mid(cfg, t, w, x) && (0 <= x ==> x !in Expired(t, stale))
    ensures var u := CheckPending(cfg, t, stale); Mid(cfg, u, w, x) && u.pending == {}
  {
    var gone := Expired(t, stale);
    var u := CheckPending(cfg, t, stale);
    ExpiredAreWriting(t, stale);
    CheckIs(cfg, t, stale);
    CheckKeepsOwned(cfg, t, stale);
    LeaveKeepsCounted(t.slots, t.pending, gone, t.inFlight, w);
    ExpireKeepsLists(cfg, t, stale, x);
    FewerBuilding(cfg.expected, t.slots, t.active, u.active, x);
    LeaveKeepsBuilding(cfg.expected, t.slots, u.active, t.pending + gone, x);
    FullKeepsAbsent(t.slots, u.active, u.incomplete.Keys, t.pending + gone);
  }

  lemma OpenKeepsMid(cfg: Config, t: Table, slot: nat, seqId: nat)
    requires Steady(cfg, t) && slot < |t.slots| && t.slots[slot].status == Empty
    requires Holding(t.slots, seqId) == {} && seqId !in t.incomplete
    ensures Mid(cfg, OpenSlot(t, slot, seqId), -1, slot) && slot in OpenSlot(t, slot, seqId).active
  {
    OpenKeepsOwned(t, slot, seqId);
    var s := Slot(Writing, seqId, 0, 0, false);
    OpenKeepsCounted(t.slots, t.inFlight, slot, s);
    FillKeepsBuilding(cfg.expected, t.slots, t.active, -1, slot, s, slot);
    FillKeepsAbsent(t.slots, t.active, t.incomplete.Keys, slot, s);
  }

  // A buffer that may take another fragment of the event.
  ghost predicate Ready(expected: nat, t: Table, b: nat, seqId: nat) {
    && b in t.active && b < |t.slots| && t.slots[b].seqId == seqId && t.slots[b].status == Writing
    && (t.slots[b].writers == 0 ==> t.slots[b].fragments < expected)
  }

  lemma OpenIfEmptyKeepsMid(cfg: Config, t: Table, slot: nat, seqId: nat)
    requires Sane(cfg) && Steady(cfg, t) && Holding(t.slots, seqId) == {} && seqId !in t.incomplete
    ensures var (u, found) := OpenIfEmpty(t, slot, seqId);
            && Mid(cfg, u, -1, if found.Buffer? then found.b else -1)
            && (found.Buffer? ==> Ready(cfg.expected, u, found.b, seqId))
  {
    if slot < |t.slots| && t.slots[slot].status == Empty { OpenKeepsMid(cfg, t, slot, seqId); }
  }

  lemma FullDoesNotHold(slots: seq<Slot>, buffers: set<nat>, seqId: nat)
    requires Holding(slots, seqId) == {}
    ensures Holding(MarkFull(slots, buffers), seqId) == {}
  {
    forall b | 0 <= b < |slots| ensures b !in Holding(MarkFull(slots, buffers), seqId) {
      assert b !in Holding(slots, seqId);
    }
  }

  lemma ExpiredIdsWereOpen(cfg: Config, t: Table, stale: set<nat>, seqId: nat)
    requires Owned(t) && seqId !in t.incomplete && Holding(t.slots, seqId) == {}
    ensures seqId !in Expire(cfg, t, stale).incomplete
  {
    var gone := Expired(t, stale);
    WithMissingIs(cfg, t.slots, t.incomplete, gone);
    forall b | b in gone ensures t.slots[b].seqId != seqId {
      assert b !in Holding(t.slots, seqId);
    }
  }

  lemma HolderIsReady(cfg: Config, t: Table, seqId: nat)
    requires Owned(t) && t.pending == {} && Building(cfg.expected, t.slots, t.active, -1)
    requires Holding(t.slots, seqId) != {}
    ensures Ready(cfg.expected, t, Least(Holding(t.slots, seqId)), seqId)
  {
    assert Least(Holding(t.slots, seqId)) in In(t.slots, Writing);
  }

  lemma StillUnknown(cfg: Config, t: Table, seqId: nat, stale: set<nat>)
    requires Owned(t) && Holding(t.slots, seqId) == {} && seqId !in t.incomplete
    ensures var u := CheckPending(cfg, t, stale); Holding(u.slots, seqId) == {} && seqId !in u.incomplete
  {
    ExpiredAreWriting(t, stale);
    CheckIs(cfg, t, stale);
    FullDoesNotHold(t.slots, t.pending + Expired(t, stale), seqId);
    ExpiredIdsWereOpen(cfg, t, stale, seqId);
  }

  lemma FindOrOpenKeepsMid(cfg: Config, t: Table, seqId: nat, stale: set<nat>, slot: nat)
    requires Sane(cfg) && Steady(cfg, t)
    ensures var (u, found) := FindOrOpen(cfg, t, seqId, stale, slot);
            && u.pending == {} && Mid(cfg, u, -1, if found.Buffer? then found.b else -1)
            && (found.Buffer? ==> Ready(cfg.expected, u, found.b, seqId))
  {
    if Holding(t.slots, seqId) != {} {
      HolderIsReady(cfg, t, seqId);
      WeakenBuilding(cfg.expected, t.slots, t.active, Least(Holding(t.slots, seqId)));
    } else if !(seqId in t.incomplete || seqId in t.released) {
      var u := CheckPending(cfg, t, stale);
      CheckKeepsMid(cfg, t, stale, -1, -1);
      StillUnknown(cfg, t, seqId, stale);
      OpenIfEmptyKeepsMid(cfg, u, slot, seqId);
    }
  }

  lemma PutKeepsMid(cfg: Config, t: Table, b: nat, writing: bool)
    requires t.pending == {} && Mid(cfg, t, -1, b) && b in t.active
    requires b < |t.slots|
    ensures Mid(cfg, Put(t, b, writing), -1, if writing then -1 else b)
  {
    var s := Put(t, b, writing).slots[b];
    assert b in In(t.slots, Writing);
    PutKeepsCounted(t.slots, t.inFlight, b, s);
    RecountKeepsOwned(t, b, s, Put(t, b, writing));
    FillKeepsBuilding(cfg.expected, t.slots, t.active, b, b, s, if writing then -1 else b);
    FillKeepsAbsent(t.slots, t.active, t.incomplete.Keys, b, s);
  }

  lemma HeaderKeepsSteady(cfg: Config, t: Table, seqId: nat, stale: set<nat>, slot: nat)
    requires Sane(cfg) && Steady(cfg, t)
    ensures Steady(cfg, Header(cfg, t, seqId, stale, slot))
  {
    FindOrOpenKeepsMid(cfg, t, seqId, stale, slot);
    var (u, found) := FindOrOpen(cfg, t, seqId, stale, slot);
    if found.Buffer? { PutKeepsMid(cfg, u, found.b, true); }
  }

  // complete_buffer_ and the check behind it.
  ghost function Complete(cfg: Config, t: Table, b: nat, complete: bool, stale: set<nat>): Table
    requires b < |t.slots| && t.pending == {}
  {
    CheckPending(cfg, MarkComplete(cfg, SetComplete(t, b, complete), b), stale)
  }

  lemma CompletedKeepsMid(cfg: Config, u: Table, b: nat, w: int)
    requires u.pending == {} && Mid(cfg, u, w, b) && b in u.active && b < |u.slots|
    requires u.slots[b].complete && u.inFlight[u.slots[b].seqId] == 0
    ensures Mid(cfg, MarkComplete(cfg, u, b), w, -1)
  {
    MarkKeepsOwned(cfg, u, b);
    MarkKeepsCounted(u.slots, u.inFlight, b, w);
    LastBuilding(cfg.expected, u.slots, u.active, b);
    FewerAbsent(u.slots, u.active, u.active - {b}, u.incomplete.Keys);
    AddKeepsTop(cfg.maxList, u.completed, u.released, u.slots[b].seqId);
  }

  lemma MarkKeepsMid(cfg: Config, t: Table, b: nat, complete: bool, w: int)
    requires t.pending == {} && Mid(cfg, t, w, b) && b in t.active && b < |t.slots|
    requires complete ==> t.inFlight[t.slots[b].seqId] == 0
    requires !complete ==>
               1 <= t.slots[b].fragments && (t.slots[b].writers == 0 ==> t.slots[b].fragments < cfg.expected)
    ensures Mid(cfg, MarkComplete(cfg, SetComplete(t, b, complete), b), w, -1)
  {
    var s := t.slots[b].(complete := complete);
    var u := SetComplete(t, b, complete);
    RecountKeepsOwned(t, b, s, u);
    SameWriters(t.slots, {}, t.inFlight, w, b, s);
    FillKeepsBuilding(cfg.expected, t.slots, t.active, b, b, s, if complete then b else -1);
    FillKeepsAbsent(t.slots, t.active, t.incomplete.Keys, b, s);
    if complete { CompletedKeepsMid(cfg, u, b, w); }
  }

  lemma CompleteKeepsMid(cfg: Config, t: Table, b: nat, complete: bool, stale: set<nat>, w: int)
    requires Sane(cfg) && t.pending == {} && Mid(cfg, t, w, b) && b in t.active && b < |t.slots|
    requires complete ==> t.inFlight[t.slots[b].seqId] == 0
    requires !complete ==>
               1 <= t.slots[b].fragments && (t.slots[b].writers == 0 ==> t.slots[b].fragments < cfg.expected)
    ensures var u := Complete(cfg, t, b, complete, stale); Mid(cfg, u, w, -1) && u.pending == {}
  {
    MarkKeepsMid(cfg, t, b, complete, w);
    CheckKeepsMid(cfg, MarkComplete(cfg, SetComplete(t, b, complete), b), stale, w, -1);
  }

  // The writer of b that was just finishing is no longer counted.
  lemma WriterLeaves(cfg: Config, t: Table, b: nat)
    requires t.pending == {} && Mid(cfg, t, b, -1) && b < |t.slots|
    requires b in t.active ==>
               1 <= t.slots[b].fragments && (t.slots[b].writers == 1 ==> t.slots[b].fragments < cfg.expected)
    ensures Steady(cfg, DropWriter(t, b))
  {
    var s := t.slots[b].(writers := t.slots[b].writers - 1);
    RecountKeepsOwned(t, b, s, DropWriter(t, b));
    EndDone(t.slots, t.inFlight, b, s);
    RecountKeepsBuilding(cfg.expected, t.slots, t.active, -1, b, s);
    RecountKeepsAbsent(t.slots, t.active, t.incomplete.Keys, b, s);
  }

  lemma DoneStarts(cfg: Config, t: Table, b: nat)
    requires Steady(cfg, t) && b in In(t.slots, Writing) && t.slots[b].seqId in t.inFlight
    ensures var u := t.(inFlight := t.inFlight - multiset{t.slots[b].seqId});
            && Mid(cfg, u, b, -1) && Mid(cfg, u, b, b)
            && t.slots[b].writers == u.inFlight[t.slots[b].seqId] + 1
  {
    StartDone(t.slots, t.inFlight, b);
    WeakenBuilding(cfg.expected, t.slots, t.active, b);
  }

  // Completing and checking leaves the counts of the buffer alone; a complete one is no longer active.
  lemma CompleteIs(cfg: Config, t: Table, b: nat, complete: bool, stale: set<nat>)
    requires t.pending == {} && b in t.active && b < |t.slots|
    requires Owned(MarkComplete(cfg, SetComplete(t, b, complete), b))
    ensures var u := Complete(cfg, t, b, complete, stale);
            && |u.slots| == |t.slots| && u.slots[b].fragments == t.slots[b].fragments
            && u.slots[b].writers == t.slots[b].writers && (b in u.active ==> !complete)
            && u.inFlight == t.inFlight
  {
    ExpiredAreWriting(MarkComplete(cfg, SetComplete(t, b, complete), b), stale);
    CheckIs(cfg, MarkComplete(cfg, SetComplete(t, b, complete), b), stale);
  }

  lemma DoneKeepsSteady(cfg: Config, t: Table, seqId: nat, stale: set<nat>)
    requires Sane(cfg) && Steady(cfg, t) && seqId in t.inFlight
    ensures Steady(cfg, Done(cfg, t, seqId, stale))
  {
    assert Holding(t.slots, seqId) != {};
    var b := Least(Holding(t.slots, seqId));
    HolderIsReady(cfg, t, seqId);
    DoneStarts(cfg, t, b);
    var u := t.(inFlight := t.inFlight - multiset{seqId});
    if t.slots[b].writers > 1 {
      WriterLeaves(cfg, u, b);
    } else {
      var complete := t.slots[b].fragments >= cfg.expected;
      MarkKeepsMid(cfg, u, b, complete, b);
      CompleteKeepsMid(cfg, u, b, complete, stale, b);
      CompleteIs(cfg, u, b, complete, stale);
      WriterLeaves(cfg, Complete(cfg, u, b, complete, stale), b);
    }
  }

  // The end of DoneWritingFragment, when the buffer is found.
  ghost function AfterFinish(cfg: Config, t: Table, b: nat, stale: set<nat>): Table
    requires t.pending == {} && b < |t.slots|
  {
    if t.slots[b].writers > 1 then DropWriter(t, b)
    else DropWriter(Complete(cfg, t, b, t.slots[b].fragments >= cfg.expected, stale), b)
  }

  lemma FinishIs(cfg: Config, t: Table, b: nat, stale: set<nat>)
    requires t.pending == {} && b < |t.slots|
    ensures AfterFinish(cfg, t, b, stale)
            == DropWriter(if t.slots[b].writers > 1 then t
                          else Complete(cfg, t, b, t.slots[b].fragments >= cfg.expected, stale), b)
  {
  }

  // DoneWritingFragment of a fragment that was dropped: if a buffer holds its event, that buffer loses a writer all the
  // same.
  ghost function DroppedDone(cfg: Config, t: Table, seqId: nat, stale: set<nat>): Table
    requires t.pending == {}
  {
    if Holding(t.slots, seqId) == {} then t else AfterFinish(cfg, t, Least(Holding(t.slots, seqId)), stale)
  }

  lemma DoneIs(cfg: Config, t: Table, seqId: nat, stale: set<nat>)
    requires Sane(cfg) && Steady(cfg, t) && seqId in t.inFlight
    ensures Holding(t.slots, seqId) != {}
    ensures var b, u := Least(Holding(t.slots, seqId)), t.(inFlight := t.inFlight - multiset{seqId});
            && Owned(u) && b in u.active && b < |u.slots| && |u.released| <= cfg.maxList
            && Done(cfg, t, seqId, stale) == AfterFinish(cfg, u, b, stale)
  {
    assert Holding(t.slots, seqId) != {};
    HolderIsReady(cfg, t, seqId);
  }

  lemma AddKeepsSteady(cfg: Config, t: Table, seqId: nat, stale: set<nat>, slot: nat)
    requires Sane(cfg) && Steady(cfg, t)
    ensures Steady(cfg, Add(cfg, t, seqId, stale, slot))
  {
    FindOrOpenKeepsMid(cfg, t, seqId, stale, slot);
    var (u, found) := FindOrOpen(cfg, t, seqId, stale, slot);
    if found.Buffer? {
      var b := found.b;
      var v := Put(u, b, false);
      PutKeepsMid(cfg, u, b, false);
      IdleMeansNoneInFlight(v, b);
      CompleteKeepsMid(cfg, v, b, v.slots[b].fragments == cfg.expected && v.slots[b].writers == 0, stale, -1);
    }
  }

  lemma IdleMeansNoneInFlight(t: Table, b: nat)
    requires Counted(t.slots, t.pending, t.inFlight, -1) && b < |t.slots| && t.slots[b].status == Writing
    ensures t.slots[b].writers == t.inFlight[t.slots[b].seqId]
  {
    assert b in In(t.slots, Writing);
  }

  lemma ReadKeepsSteady(cfg: Config, t: Table, b: nat, s: Slot)
    requires Steady(cfg, t) && b < |t.slots| && t.slots[b].status != Writing && s.status != Writing
    ensures Steady(cfg, t.(slots := t.slots[b := s]))
  {
    ReadKeepsOwned(t, b, s);
    ReadKeepsCounted(t.slots, t.inFlight, b, s);
    RecountKeepsBuilding(cfg.expected, t.slots, t.active, -1, b, s);
    RecountKeepsAbsent(t.slots, t.active, t.incomplete.Keys, b, s);
  }
}
