/** Every event is released exactly once, with every fragment that was written into it. */
module EventOnce {
  import opened Ordered
  import opened EventTable
  import opened EventInvariants
  import opened EventSteps
  import opened EventSound

  // The events that are complete or timed out.
  function Ended(t: Table): set<nat> {
    t.completed + t.incomplete.Keys
  }

  // The ended events are the released ones, each released once, and the pending ones.
  ghost predicate Logged(log: seq<nat>, pendingIds: set<nat>, ended: set<nat>) {
    NoRepeats(log) && Elements(log) !! pendingIds && Elements(log) + pendingIds == ended
  }

  // A buffer holds every fragment accepted for its event; any other event with fragments was released.
  ghost predicate Accounted(slots: seq<Slot>, logged: set<nat>, accepted: multiset<nat>) {
    && (forall b :: b in In(slots, Writing) ==> accepted[slots[b].seqId] == slots[b].fragments)
    && (forall q :: q in accepted ==> q in logged || Holding(slots, q) != {})
  }

  // Holds next to Mid, as long as no ended event is opened again.
  ghost predicate Once(t: Table) {
    && (forall b :: b in t.pending ==> b < |t.slots|)
    && Absent(t.slots, t.active, Ended(t))
    && Logged(t.log, SeqIds(t.slots, t.pending), Ended(t))
    && Accounted(t.slots, Elements(t.log), t.accepted)
  }

  // ---------------------------------------------------------------- pieces

  lemma EndMore(log: seq<nat>, pendingIds: set<nat>, ended: set<nat>, more: set<nat>)
    requires Logged(log, pendingIds, ended) && more !! ended
    ensures Logged(log, pendingIds + more, ended + more)
  {
  }

  lemma ReleaseAll(log: seq<nat>, pendingIds: set<nat>, ended: set<nat>)
    requires Logged(log, pendingIds, ended)
    ensures Logged(log + Sorted(pendingIds), {}, ended)
    ensures Elements(log + Sorted(pendingIds)) == Elements(log) + pendingIds
  {
    var r := log + Sorted(pendingIds);
    forall i, j | 0 <= i < j < |r| ensures r[i] != r[j] {
      if i < |log| <= j {
        assert r[i] in Elements(log) && r[j] in Sorted(pendingIds);
      }
    }
    forall x ensures x in Elements(r) <==> x in Elements(log) || x in pendingIds {
      assert x in r <==> x in log || x in Sorted(pendingIds);
    }
  }

  lemma LeaveKeepsAccounted(slots: seq<Slot>, logged: set<nat>, accepted: multiset<nat>, leaving: set<nat>)
    requires Accounted(slots, logged, accepted) && leaving <= In(slots, Writing)
    ensures Accounted(MarkFull(slots, leaving), logged + SeqIds(slots, leaving), accepted)
  {
    MarkFullIn(slots, leaving);
    forall q | q in accepted
      ensures q in logged + SeqIds(slots, leaving) || Holding(MarkFull(slots, leaving), q) != {}
    {
      if q !in logged {
        var b :| b in Holding(slots, q);
        if b in leaving {
          assert q in SeqIds(slots, leaving);
        } else {
          FullKeepsHolding(slots, leaving, b);
        }
      }
    }
  }

  lemma OpenKeepsAccounted(slots: seq<Slot>, logged: set<nat>, accepted: multiset<nat>, b: nat, s: Slot)
    requires Accounted(slots, logged, accepted) && b < |slots| && slots[b].status != Writing
    requires s.status == Writing && s.fragments == 0 && s.seqId !in logged && Holding(slots, s.seqId) == {}
    ensures Accounted(slots[b := s], logged, accepted)
  {
    WriteInto(slots, b, s);
    forall q | q in accepted ensures q in logged || Holding(slots[b := s], q) != {} {
      if q !in logged {
        var a :| a in Holding(slots, q);
        assert a in Holding(slots[b := s], q);
      }
    }
  }

  lemma PutKeepsAccounted(slots: seq<Slot>, logged: set<nat>, accepted: multiset<nat>, b: nat, s: Slot)
    requires Distinct(slots) && Accounted(slots, logged, accepted) && b in In(slots, Writing)
    requires s.status == Writing && s.seqId == slots[b].seqId && s.fragments == slots[b].fragments + 1
    ensures Accounted(slots[b := s], logged, accepted + multiset{s.seqId})
  {
    RecountKeepsDistinct(slots, b, s);
    assert b in Holding(slots, s.seqId);
    forall a | a in In(slots, Writing) && a != b ensures slots[a].seqId != s.seqId {}
  }

  lemma RecountKeepsAccounted(slots: seq<Slot>, logged: set<nat>, accepted: multiset<nat>, b: nat, s: Slot)
    requires Accounted(slots, logged, accepted) && b < |slots|
    requires s.status == slots[b].status && s.seqId == slots[b].seqId && s.fragments == slots[b].fragments
    ensures Accounted(slots[b := s], logged, accepted)
  {
    RecountKeepsDistinct(slots, b, s);
  }

  lemma ReadKeepsAccounted(slots: seq<Slot>, logged: set<nat>, accepted: multiset<nat>, b: nat, s: Slot)
    requires Accounted(slots, logged, accepted) && b < |slots| && slots[b].status != Writing && s.status != Writing
    ensures Accounted(slots[b := s], logged, accepted)
  {
    WriteInto(slots, b, s);
    forall q | q in accepted ensures q in logged || Holding(slots[b := s], q) != {} {
      if q !in logged {
        var a :| a in Holding(slots, q);
        assert a in Holding(slots[b := s], q);
      }
    }
  }

  // ---------------------------------------------------------------- steps

  lemma IdsOfUnion(slots: seq<Slot>, a: set<nat>, b: set<nat>)
    requires forall i :: i in a + b ==> i < |slots|
    ensures SeqIds(slots, a + b) == SeqIds(slots, a) + SeqIds(slots, b)
  {
  }

  lemma ExpiredIds(cfg: Config, t: Table, stale: set<nat>)
    requires Owned(t) && Absent(t.slots, t.active, Ended(t))
    ensures var gone := Expired(t, stale);
            && gone <= In(t.slots, Writing) && SeqIds(t.slots, gone) !! Ended(t)
            && Ended(Expire(cfg, t, stale)) == Ended(t) + SeqIds(t.slots, gone)
            && Absent(t.slots, t.active - gone, Ended(t) + SeqIds(t.slots, gone))
  {
    var gone := Expired(t, stale);
    WithMissingIs(cfg, t.slots, t.incomplete, gone);
    forall b | b in t.active - gone ensures t.slots[b].seqId !in SeqIds(t.slots, gone) {
      assert b in In(t.slots, Writing);
    }
  }

  lemma CheckKeepsOnce(cfg: Config, t: Table, stale: set<nat>)
    requires Owned(t) && Once(t)
    ensures Once(CheckPending(cfg, t, stale))
  {
    var gone := Expired(t, stale);
    var leaving := t.pending + gone;
    var u := CheckPending(cfg, t, stale);
    ExpiredAreWriting(t, stale);
    CheckIs(cfg, t, stale);
    ExpiredIds(cfg, t, stale);
    IdsOfUnion(t.slots, t.pending, gone);
    EndMore(t.log, SeqIds(t.slots, t.pending), Ended(t), SeqIds(t.slots, gone));
    ReleaseAll(t.log, SeqIds(t.slots, leaving), Ended(t) + SeqIds(t.slots, gone));
    LeaveKeepsAccounted(t.slots, Elements(t.log), t.accepted, leaving);
    FullKeepsAbsent(t.slots, u.active, Ended(u), leaving);
    assert SeqIds(u.slots, {}) == {};
  }

  // An event that was completed is still on the bounded list of released events.
  predicate Remembered(t: Table, seqId: nat) {
    seqId in t.completed ==> seqId in t.released
  }

  lemma OpenKeepsOnce(t: Table, slot: nat, seqId: nat)
    requires Once(t) && t.pending == {} && slot < |t.slots| && t.slots[slot].status == Empty
    requires Holding(t.slots, seqId) == {} && seqId !in Ended(t)
    ensures Once(OpenSlot(t, slot, seqId))
  {
    var s := Slot(Writing, seqId, 0, 0, false);
    FillKeepsAbsent(t.slots, t.active, Ended(t), slot, s);
    OpenKeepsAccounted(t.slots, Elements(t.log), t.accepted, slot, s);
    assert SeqIds(t.slots, {}) == SeqIds(t.slots[slot := s], {});
  }

  lemma OpenIfEmptyKeepsOnce(t: Table, slot: nat, seqId: nat)
    requires Once(t) && t.pending == {} && Holding(t.slots, seqId) == {} && seqId !in Ended(t)
    ensures Once(OpenIfEmpty(t, slot, seqId).0)
  {
    if slot < |t.slots| && t.slots[slot].status == Empty { OpenKeepsOnce(t, slot, seqId); }
  }

  lemma FindOrOpenKeepsOnce(cfg: Config, t: Table, seqId: nat, stale: set<nat>, slot: nat)
    requires Sound(cfg, t) && Once(t) && Remembered(t, seqId)
    ensures Once(FindOrOpen(cfg, t, seqId, stale, slot).0)
  {
    if Holding(t.slots, seqId) == {} && seqId !in t.incomplete && seqId !in t.released {
      var u := CheckPending(cfg, t, stale);
      ExpiredAreWriting(t, stale);
      CheckIs(cfg, t, stale);
      CheckKeepsOnce(cfg, t, stale);
      StillUnknown(cfg, t, seqId, stale);
      OpenIfEmptyKeepsOnce(u, slot, seqId);
    }
  }

  lemma RecountKeepsOnce(t: Table, b: nat, s: Slot, u: Table)
    requires Once(t) && t.pending == {} && Owned(t) && b < |t.slots|
    requires s.status == t.slots[b].status && s.seqId == t.slots[b].seqId
    requires u == t.(slots := t.slots[b := s], accepted := u.accepted, inFlight := u.inFlight)
    requires Accounted(u.slots, Elements(t.log), u.accepted)
    ensures Once(u)
  {
    RecountKeepsAbsent(t.slots, t.active, Ended(t), b, s);
    assert SeqIds(u.slots, {}) == SeqIds(t.slots, {});
  }

  lemma PutKeepsOnce(t: Table, b: nat, writing: bool)
    requires Once(t) && t.pending == {} && Owned(t) && b in t.active && b < |t.slots| && t.slots[b].status == Writing
    ensures Once(Put(t, b, writing))
  {
    var u := Put(t, b, writing);
    assert b in In(t.slots, Writing);
    PutKeepsAccounted(t.slots, Elements(t.log), t.accepted, b, u.slots[b]);
    RecountKeepsOnce(t, b, u.slots[b], u);
  }

  lemma OthersAbsent(slots: seq<Slot>, active: set<nat>, ended: set<nat>, b: nat)
    requires Distinct(slots) && active <= In(slots, Writing) && b in active && Absent(slots, active, ended)
    ensures Absent(slots, active - {b}, ended + {slots[b].seqId}) && slots[b].seqId !in ended
  {
    forall a | a in active - {b} ensures slots[a].seqId != slots[b].seqId {
      assert a in In(slots, Writing) && b in In(slots, Writing);
    }
  }

  lemma InFlightIsExtra(t: Table, inFlight: multiset<nat>)
    ensures Owned(t) ==> Owned(t.(inFlight := inFlight))
    ensures Once(t) ==> Once(t.(inFlight := inFlight))
  {
  }

  lemma EndOne(log: seq<nat>, slots: seq<Slot>, pending: set<nat>, b: nat, ended: set<nat>)
    requires pending == {} && b < |slots| && Logged(log, SeqIds(slots, pending), ended) && slots[b].seqId !in ended
    ensures Logged(log, SeqIds(slots, pending + {b}), ended + {slots[b].seqId})
  {
    assert SeqIds(slots, pending + {b}) == SeqIds(slots, pending) + {slots[b].seqId};
    EndMore(log, SeqIds(slots, pending), ended, {slots[b].seqId});
  }

  lemma MarkKeepsOnce(cfg: Config, t: Table, b: nat)
    requires Once(t) && t.pending == {} && Owned(t) && b in t.active && b < |t.slots|
    ensures Once(MarkComplete(cfg, t, b))
  {
    if t.slots[b].complete {
      OthersAbsent(t.slots, t.active, Ended(t), b);
      EndOne(t.log, t.slots, t.pending, b, Ended(t));
      assert Ended(MarkComplete(cfg, t, b)) == Ended(t) + {t.slots[b].seqId};
    }
  }

  lemma CompleteKeepsOnce(cfg: Config, t: Table, b: nat, complete: bool, stale: set<nat>)
    requires Once(t) && t.pending == {} && Owned(t) && b in t.active && b < |t.slots|
    ensures Once(Complete(cfg, t, b, complete, stale))
  {
    var u := SetComplete(t, b, complete);
    RecountKeepsAccounted(t.slots, Elements(t.log), t.accepted, b, u.slots[b]);
    RecountKeepsOnce(t, b, u.slots[b], u);
    RecountKeepsOwned(t, b, u.slots[b], u);
    MarkKeepsOnce(cfg, u, b);
    MarkKeepsOwned(cfg, u, b);
    CheckKeepsOnce(cfg, MarkComplete(cfg, u, b), stale);
  }

  lemma DropKeepsOnce(t: Table, b: nat)
    requires Once(t) && t.pending == {} && Owned(t) && b < |t.slots|
    ensures Once(DropWriter(t, b))
  {
    var u := DropWriter(t, b);
    RecountKeepsAccounted(t.slots, Elements(t.log), t.accepted, b, u.slots[b]);
    RecountKeepsOnce(t, b, u.slots[b], u);
  }

  lemma HeaderKeepsOnce(cfg: Config, t: Table, seqId: nat, stale: set<nat>, slot: nat)
    requires Sound(cfg, t) && Once(t) && Remembered(t, seqId)
    ensures Once(Header(cfg, t, seqId, stale, slot))
  {
    FindOrOpenKeepsSound(cfg, t, seqId, stale, slot);
    FindOrOpenKeepsOnce(cfg, t, seqId, stale, slot);
    var (u, found) := FindOrOpen(cfg, t, seqId, stale, slot);
    if found.Buffer? { PutKeepsOnce(u, found.b, true); }
  }

  lemma AddKeepsOnce(cfg: Config, t: Table, seqId: nat, stale: set<nat>, slot: nat)
    requires Sound(cfg, t) && Once(t) && Remembered(t, seqId)
    ensures Once(Add(cfg, t, seqId, stale, slot))
  {
    FindOrOpenKeepsSound(cfg, t, seqId, stale, slot);
    FindOrOpenKeepsOnce(cfg, t, seqId, stale, slot);
    var (u, found) := FindOrOpen(cfg, t, seqId, stale, slot);
    if found.Buffer? {
      var b := found.b;
      var v := Put(u, b, false);
      PutKeepsOnce(u, b, false);
      RecountKeepsOwned(u, b, v.slots[b], v);
      CompleteKeepsOnce(cfg, v, b, v.slots[b].fragments == cfg.expected && v.slots[b].writers == 0, stale);
    }
  }

  lemma LastDoneKeepsOnce(cfg: Config, u: Table, b: nat, complete: bool, stale: set<nat>)
    requires Once(u) && u.pending == {} && Owned(u) && b in u.active && b < |u.slots|
    ensures Once(DropWriter(Complete(cfg, u, b, complete, stale), b))
  {
    var v := SetComplete(u, b, complete);
    RecountKeepsOwned(u, b, v.slots[b], v);
    MarkKeepsOwned(cfg, v, b);
    CheckKeepsOwned(cfg, MarkComplete(cfg, v, b), stale);
    CompleteKeepsOnce(cfg, u, b, complete, stale);
    ExpiredAreWriting(MarkComplete(cfg, v, b), stale);
    CheckIs(cfg, MarkComplete(cfg, v, b), stale);
    DropKeepsOnce(Complete(cfg, u, b, complete, stale), b);
  }

  lemma FinishKeepsOnce(cfg: Config, t: Table, b: nat, stale: set<nat>)
    requires Sound(cfg, t) && Once(t) && b in t.active && b < |t.slots|
    ensures Once(AfterFinish(cfg, t, b, stale))
  {
    FinishIs(cfg, t, b, stale);
    if t.slots[b].writers > 1 {
      DropKeepsOnce(t, b);
    } else {
      LastDoneKeepsOnce(cfg, t, b, t.slots[b].fragments >= cfg.expected, stale);
    }
  }

  lemma DoneKeepsOnce(cfg: Config, t: Table, seqId: nat, stale: set<nat>)
    requires Sound(cfg, t) && Once(t)
    ensures Once(Done(cfg, t, seqId, stale)) && Once(DroppedDone(cfg, t, seqId, stale))
  {
    if Holding(t.slots, seqId) != {} {
      var b, u := Least(Holding(t.slots, seqId)), t.(inFlight := t.inFlight - multiset{seqId});
      HolderTakes(t, seqId);
      InFlightIsExtra(t, u.inFlight);
      DoneIsFinish(cfg, t, seqId, stale);
      FinishKeepsOnce(cfg, t, b, stale);
      FinishKeepsOnce(cfg, u, b, stale);
    }
  }

  lemma ReadKeepsOnce(t: Table, b: nat, s: Slot)
    requires Once(t) && t.pending == {} && Owned(t) && b < |t.slots| && t.slots[b].status != Writing
    requires s.status != Writing
    ensures Once(t.(slots := t.slots[b := s]))
  {
    ReadKeepsOwned(t, b, s);
    RecountKeepsAbsent(t.slots, t.active, Ended(t), b, s);
    ReadKeepsAccounted(t.slots, Elements(t.log), t.accepted, b, s);
    assert SeqIds(t.slots[b := s], {}) == SeqIds(t.slots, {});
  }
}
