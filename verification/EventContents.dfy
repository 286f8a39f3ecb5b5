/** What is in the events that have ended: all expected fragments in one that counts as complete, and in one that timed
    out exactly as many too few as the manager says. */
module EventContents {
  import opened Ordered
  import opened EventTable
  import opened EventInvariants
  import opened EventSteps
  import opened EventSound
  import opened EventOnce

  // No buffer holds more fragments than were accepted for its event, and complete events were written in full.
  ghost predicate Filled(expected: nat, slots: seq<Slot>, completed: set<nat>, accepted: multiset<nat>) {
    && (forall b :: b in In(slots, Writing) ==> slots[b].fragments <= accepted[slots[b].seqId])
    && (forall q :: q in completed ==> accepted[q] >= expected)
  }

  // Nothing was released, or is about to be, that has not ended.
  ghost predicate OnlyEnded(t: Table) {
    && (forall b :: b in t.pending ==> b < |t.slots|)
    && Elements(t.log) + SeqIds(t.slots, t.pending) <= Ended(t)
  }

  ghost predicate Backed(cfg: Config, t: Table) {
    Filled(cfg.expected, t.slots, t.completed, t.accepted) && OnlyEnded(t)
  }

  // ---------------------------------------------------------------- pieces

  lemma LeaveKeepsFilled(expected: nat, slots: seq<Slot>, completed: set<nat>, accepted: multiset<nat>,
                         leaving: set<nat>)
    requires Filled(expected, slots, completed, accepted) && leaving <= In(slots, Writing)
    ensures Filled(expected, MarkFull(slots, leaving), completed, accepted)
  {
    MarkFullIn(slots, leaving);
  }

  lemma WriteKeepsFilled(expected: nat, slots: seq<Slot>, completed: set<nat>, accepted: multiset<nat>, b: nat, s: Slot)
    requires Filled(expected, slots, completed, accepted) && b < |slots|
    requires s.status == Writing ==> s.fragments <= accepted[s.seqId]
    ensures Filled(expected, slots[b := s], completed, accepted)
  {
    WriteInto(slots, b, s);
  }

  lemma MoreKeepsFilled(expected: nat, slots: seq<Slot>, completed: set<nat>, accepted: multiset<nat>, q: nat)
    requires Filled(expected, slots, completed, accepted)
    ensures Filled(expected, slots, completed, accepted + multiset{q})
  {
  }

  lemma ReleaseKeepsEnded(log: seq<nat>, ids: set<nat>, ended: set<nat>)
    requires Elements(log) + ids <= ended
    ensures Elements(log + Sorted(ids)) <= ended
  {
    forall x | x in Elements(log + Sorted(ids)) ensures x in ended {
      assert x in log || x in Sorted(ids);
    }
  }

  lemma EndedGrows(cfg: Config, t: Table, stale: set<nat>)
    requires Owned(t)
    ensures Ended(Expire(cfg, t, stale)) == Ended(t) + SeqIds(t.slots, Expired(t, stale))
  {
    WithMissingIs(cfg, t.slots, t.incomplete, Expired(t, stale));
  }

  // ---------------------------------------------------------------- steps

  lemma CheckKeepsBacked(cfg: Config, t: Table, stale: set<nat>)
    requires Owned(t) && Backed(cfg, t)
    ensures Backed(cfg, CheckPending(cfg, t, stale))
  {
    ExpiredAreWriting(t, stale);
    CheckIs(cfg, t, stale);
    EndedGrows(cfg, t, stale);
    CheckedIsBacked(cfg, t, CheckPending(cfg, t, stale), Expired(t, stale));
  }

  lemma CheckedIsBacked(cfg: Config, t: Table, u: Table, gone: set<nat>)
    requires Backed(cfg, t) && t.pending + gone <= In(t.slots, Writing)
    requires u.slots == MarkFull(t.slots, t.pending + gone) && u.pending == {}
    requires u.completed == t.completed && u.accepted == t.accepted
    requires u.log == t.log + Sorted(SeqIds(t.slots, t.pending + gone)) && Ended(u) == Ended(t) + SeqIds(t.slots, gone)
    ensures Backed(cfg, u)
  {
    LeaveKeepsFilled(cfg.expected, t.slots, t.completed, t.accepted, t.pending + gone);
    IdsOfUnion(t.slots, t.pending, gone);
    ReleaseKeepsEnded(t.log, SeqIds(t.slots, t.pending + gone), Ended(u));
    assert SeqIds(u.slots, {}) == {};
  }

  // A step that only writes one buffer.
  lemma WriteKeepsBacked(cfg: Config, t: Table, u: Table, b: nat, s: Slot)
    requires t.pending == {} && Backed(cfg, t) && b < |t.slots|
    requires s.status == Writing ==> s.fragments <= t.accepted[s.seqId]
    requires u.slots == t.slots[b := s] && u.pending == {} && u.log == t.log
    requires u.completed == t.completed && u.incomplete == t.incomplete && u.accepted == t.accepted
    ensures Backed(cfg, u)
  {
    WriteKeepsFilled(cfg.expected, t.slots, t.completed, t.accepted, b, s);
  }

  lemma FindOrOpenKeepsBacked(cfg: Config, t: Table, seqId: nat, stale: set<nat>, slot: nat)
    requires Owned(t) && t.pending == {} && Backed(cfg, t)
    ensures Backed(cfg, FindOrOpen(cfg, t, seqId, stale, slot).0)
  {
    if Holding(t.slots, seqId) == {} && seqId !in t.incomplete && seqId !in t.released {
      var u := CheckPending(cfg, t, stale);
      CheckKeepsBacked(cfg, t, stale);
      if slot < |u.slots| && u.slots[slot].status == Empty {
        WriteKeepsBacked(cfg, u, OpenSlot(u, slot, seqId), slot, Slot(Writing, seqId, 0, 0, false));
      }
    }
  }

  lemma PutKeepsBacked(cfg: Config, t: Table, b: nat, writing: bool)
    requires t.pending == {} && Backed(cfg, t) && b in In(t.slots, Writing)
    ensures Backed(cfg, Put(t, b, writing))
  {
    var u, q := Put(t, b, writing), t.slots[b].seqId;
    MoreKeepsFilled(cfg.expected, t.slots, t.completed, t.accepted, q);
    WriteKeepsBacked(cfg, t.(accepted := t.accepted + multiset{q}), u, b, u.slots[b]);
  }

  lemma MarkKeepsBacked(cfg: Config, t: Table, b: nat)
    requires t.pending == {} && Backed(cfg, t) && b in In(t.slots, Writing)
    requires t.slots[b].complete ==> t.slots[b].fragments >= cfg.expected
    ensures Backed(cfg, MarkComplete(cfg, t, b))
  {
    assert SeqIds(t.slots, {} + {b}) == {t.slots[b].seqId};
  }

  lemma CompleteKeepsBacked(cfg: Config, t: Table, b: nat, complete: bool, stale: set<nat>)
    requires Owned(t) && t.pending == {} && Backed(cfg, t) && b in t.active && b < |t.slots|
    requires complete ==> t.slots[b].fragments >= cfg.expected
    ensures Backed(cfg, Complete(cfg, t, b, complete, stale))
  {
    var u := SetComplete(t, b, complete);
    assert b in In(t.slots, Writing);
    WriteKeepsBacked(cfg, t, u, b, u.slots[b]);
    RecountKeepsOwned(t, b, u.slots[b], u);
    MarkKeepsBacked(cfg, u, b);
    MarkKeepsOwned(cfg, u, b);
    CheckKeepsBacked(cfg, MarkComplete(cfg, u, b), stale);
  }

  lemma DropKeepsBacked(cfg: Config, t: Table, b: nat)
    requires t.pending == {} && Backed(cfg, t) && b < |t.slots|
    ensures Backed(cfg, DropWriter(t, b))
  {
    assert t.slots[b].status == Writing ==> b in In(t.slots, Writing);
    WriteKeepsBacked(cfg, t, DropWriter(t, b), b, DropWriter(t, b).slots[b]);
  }

  lemma HeaderKeepsBacked(cfg: Config, t: Table, seqId: nat, stale: set<nat>, slot: nat)
    requires Sound(cfg, t) && Backed(cfg, t)
    ensures Backed(cfg, Header(cfg, t, seqId, stale, slot))
  {
    FindOrOpenKeepsSound(cfg, t, seqId, stale, slot);
    FindOrOpenKeepsBacked(cfg, t, seqId, stale, slot);
    var (u, found) := FindOrOpen(cfg, t, seqId, stale, slot);
    if found.Buffer? { PutKeepsBacked(cfg, u, found.b, true); }
  }

  lemma AddKeepsBacked(cfg: Config, t: Table, seqId: nat, stale: set<nat>, slot: nat)
    requires Sound(cfg, t) && Backed(cfg, t)
    ensures Backed(cfg, Add(cfg, t, seqId, stale, slot))
  {
    FindOrOpenKeepsSound(cfg, t, seqId, stale, slot);
    FindOrOpenKeepsBacked(cfg, t, seqId, stale, slot);
    var (u, found) := FindOrOpen(cfg, t, seqId, stale, slot);
    if found.Buffer? {
      var b, v := found.b, Put(u, found.b, false);
      PutKeepsBacked(cfg, u, b, false);
      RecountKeepsOwned(u, b, v.slots[b], v);
      CompleteKeepsBacked(cfg, v, b, v.slots[b].fragments == cfg.expected && v.slots[b].writers == 0, stale);
    }
  }

  lemma FinishKeepsBacked(cfg: Config, u: Table, b: nat, stale: set<nat>)
    requires Owned(u) && u.pending == {} && Backed(cfg, u) && b in u.active && b < |u.slots|
    ensures Backed(cfg, AfterFinish(cfg, u, b, stale))
  {
    if u.slots[b].writers > 1 {
      DropKeepsBacked(cfg, u, b);
    } else {
      LastFinishKeepsBacked(cfg, u, b, u.slots[b].fragments >= cfg.expected, stale);
    }
  }

  lemma LastFinishKeepsBacked(cfg: Config, u: Table, b: nat, complete: bool, stale: set<nat>)
    requires Owned(u) && u.pending == {} && Backed(cfg, u) && b in u.active && b < |u.slots|
    requires complete ==> u.slots[b].fragments >= cfg.expected
    ensures Backed(cfg, DropWriter(Complete(cfg, u, b, complete, stale), b))
  {
    CompleteKeepsBacked(cfg, u, b, complete, stale);
    DropKeepsBacked(cfg, Complete(cfg, u, b, complete, stale), b);
  }

  lemma InFlightKeepsBacked(cfg: Config, t: Table, inFlight: multiset<nat>)
    requires Backed(cfg, t)
    ensures Backed(cfg, t.(inFlight := inFlight))
  {
  }

  lemma DoneKeepsBacked(cfg: Config, t: Table, seqId: nat, stale: set<nat>)
    requires Sound(cfg, t) && Backed(cfg, t)
    ensures Backed(cfg, Done(cfg, t, seqId, stale))
  {
    if Holding(t.slots, seqId) != {} {
      var b, u := Least(Holding(t.slots, seqId)), t.(inFlight := t.inFlight - multiset{seqId});
      HolderTakes(t, seqId);
      DoneIsFinish(cfg, t, seqId, stale);
      InFlightKeepsBacked(cfg, t, u.inFlight);
      RecountKeepsSound(cfg, t, b, t.slots[b], u);
      FinishKeepsBacked(cfg, u, b, stale);
    }
  }

  lemma DroppedKeepsBacked(cfg: Config, t: Table, seqId: nat, stale: set<nat>)
    requires Sound(cfg, t) && Backed(cfg, t)
    ensures Backed(cfg, DroppedDone(cfg, t, seqId, stale))
  {
    if Holding(t.slots, seqId) != {} {
      HolderTakes(t, seqId);
      FinishKeepsBacked(cfg, t, Least(Holding(t.slots, seqId)), stale);
    }
  }

  lemma ReadKeepsBacked(cfg: Config, t: Table, b: nat, s: Slot)
    requires t.pending == {} && Backed(cfg, t) && b < |t.slots| && s.status != Writing
    ensures Backed(cfg, t.(slots := t.slots[b := s]))
  {
    WriteKeepsBacked(cfg, t, t.(slots := t.slots[b := s]), b, s);
  }

  // ---------------------------------------------------------------- what is missing

  // The list of timed-out events says exactly how many fragments of each were never accepted.
  ghost predicate Recorded(cfg: Config, t: Table) {
    forall e :: e in t.incomplete ==> t.incomplete[e] == cfg.expected - t.accepted[e]
  }

  lemma CheckKeepsRecorded(cfg: Config, t: Table, stale: set<nat>, w: int)
    requires Sane(cfg) && Mid(cfg, t, w, -1) && Once(t) && Recorded(cfg, t)
    ensures Recorded(cfg, CheckPending(cfg, t, stale))
  {
    ExpiredAreWriting(t, stale);
    CheckIs(cfg, t, stale);
    assert CheckPending(cfg, t, stale).incomplete == WithMissing(cfg, t.slots, t.incomplete, Expired(t, stale));
    CheckedIsRecorded(cfg, t, CheckPending(cfg, t, stale), Expired(t, stale), w);
  }

  lemma CheckedIsRecorded(cfg: Config, t: Table, u: Table, gone: set<nat>, w: int)
    requires Sane(cfg) && Mid(cfg, t, w, -1) && Once(t) && Recorded(cfg, t)
    requires gone <= In(t.slots, Writing) && gone <= t.active && forall b :: b in gone ==> t.slots[b].writers == 0
    requires u.accepted == t.accepted && u.incomplete == WithMissing(cfg, t.slots, t.incomplete, gone)
    ensures Recorded(cfg, u)
  {
    WithMissingIs(cfg, t.slots, t.incomplete, gone);
    forall b | b in gone ensures Missing(cfg, t.incomplete, t.slots[b]) == cfg.expected - t.accepted[t.slots[b].seqId] {
      MissingInRange(cfg, t.incomplete, t.slots[b]);
    }
  }

  lemma FindOrOpenKeepsRecorded(cfg: Config, t: Table, seqId: nat, stale: set<nat>, slot: nat)
    requires Sane(cfg) && Steady(cfg, t) && Once(t) && Recorded(cfg, t)
    ensures Recorded(cfg, FindOrOpen(cfg, t, seqId, stale, slot).0)
  {
    if Holding(t.slots, seqId) == {} && seqId !in t.incomplete && seqId !in t.released {
      CheckKeepsRecorded(cfg, t, stale, -1);
      OpenKeepsRecorded(cfg, CheckPending(cfg, t, stale), slot, seqId);
    }
  }

  lemma OpenKeepsRecorded(cfg: Config, t: Table, slot: nat, seqId: nat)
    requires Recorded(cfg, t)
    ensures Recorded(cfg, OpenIfEmpty(t, slot, seqId).0)
  {
  }

  lemma PutKeepsRecorded(cfg: Config, t: Table, b: nat, writing: bool)
    requires Absent(t.slots, t.active, t.incomplete.Keys) && b in t.active && b < |t.slots| && Recorded(cfg, t)
    ensures Recorded(cfg, Put(t, b, writing))
  {
  }

  lemma CompleteKeepsRecorded(cfg: Config, t: Table, b: nat, complete: bool, stale: set<nat>, w: int)
    requires Sane(cfg) && t.pending == {} && Mid(cfg, t, w, b) && b in t.active && b < |t.slots|
    requires complete ==> t.inFlight[t.slots[b].seqId] == 0
    requires !complete ==>
               1 <= t.slots[b].fragments && (t.slots[b].writers == 0 ==> t.slots[b].fragments < cfg.expected)
    requires Once(t) && Recorded(cfg, t)
    ensures Recorded(cfg, Complete(cfg, t, b, complete, stale))
  {
    var u := SetComplete(t, b, complete);
    RecountKeepsAccounted(t.slots, Elements(t.log), t.accepted, b, u.slots[b]);
    RecountKeepsOnce(t, b, u.slots[b], u);
    RecountKeepsOwned(t, b, u.slots[b], u);
    MarkKeepsOnce(cfg, u, b);
    MarkKeepsMid(cfg, t, b, complete, w);
    CheckKeepsRecorded(cfg, MarkComplete(cfg, u, b), stale, w);
  }

  lemma HeaderKeepsRecorded(cfg: Config, t: Table, seqId: nat, stale: set<nat>, slot: nat)
    requires Sane(cfg) && Steady(cfg, t) && Once(t) && Recorded(cfg, t)
    ensures Recorded(cfg, Header(cfg, t, seqId, stale, slot))
  {
    FindOrOpenKeepsMid(cfg, t, seqId, stale, slot);
    FindOrOpenKeepsRecorded(cfg, t, seqId, stale, slot);
    var (u, found) := FindOrOpen(cfg, t, seqId, stale, slot);
    if found.Buffer? { PutKeepsRecorded(cfg, u, found.b, true); }
  }

  lemma AddKeepsRecorded(cfg: Config, t: Table, seqId: nat, stale: set<nat>, slot: nat)
    requires Sane(cfg) && Steady(cfg, t) && Once(t) && Remembered(t, seqId) && Recorded(cfg, t)
    ensures Recorded(cfg, Add(cfg, t, seqId, stale, slot))
  {
    FindOrOpenKeepsMid(cfg, t, seqId, stale, slot);
    FindOrOpenKeepsOnce(cfg, t, seqId, stale, slot);
    FindOrOpenKeepsRecorded(cfg, t, seqId, stale, slot);
    var (u, found) := FindOrOpen(cfg, t, seqId, stale, slot);
    if found.Buffer? {
      var b, v := found.b, Put(u, found.b, false);
      PutKeepsMid(cfg, u, b, false);
      PutKeepsOnce(u, b, false);
      PutKeepsRecorded(cfg, u, b, false);
      IdleMeansNoneInFlight(v, b);
      CompleteKeepsRecorded(cfg, v, b, v.slots[b].fragments == cfg.expected && v.slots[b].writers == 0, stale, -1);
    }
  }

  lemma DoneKeepsRecorded(cfg: Config, t: Table, seqId: nat, stale: set<nat>)
    requires Sane(cfg) && Steady(cfg, t) && Once(t) && seqId in t.inFlight && Recorded(cfg, t)
    ensures Recorded(cfg, Done(cfg, t, seqId, stale))
  {
    DoneIs(cfg, t, seqId, stale);
    var b, u := Least(Holding(t.slots, seqId)), t.(inFlight := t.inFlight - multiset{seqId});
    HolderIsReady(cfg, t, seqId);
    if u.slots[b].writers <= 1 {
      DoneStarts(cfg, t, b);
      InFlightIsExtra(t, u.inFlight);
      CompleteKeepsRecorded(cfg, u, b, u.slots[b].fragments >= cfg.expected, stale, b);
    }
  }
}
