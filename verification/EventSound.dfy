/** What every step of the event builder keeps, even after the end of a dropped fragment has taken a writer from a
    buffer that never counted it: who owns which buffer, and what the bounded list names. */
module EventSound {
  import opened Ordered
  import opened EventTable
  import opened EventInvariants
  import opened EventSteps

  ghost predicate Sound(cfg: Config, t: Table) {
    t.pending == {} && Owned(t) && IsTop(cfg.maxList, t.completed, t.released)
  }

  // A buffer that is being written and takes fragments of the event.
  ghost predicate Takes(t: Table, b: nat, seqId: nat) {
    b in t.active && b in In(t.slots, Writing) && t.slots[b].seqId == seqId
  }

  lemma HolderTakes(t: Table, seqId: nat)
    requires t.pending == {} && Owned(t) && Holding(t.slots, seqId) != {}
    ensures Takes(t, Least(Holding(t.slots, seqId)), seqId)
  {
    assert Least(Holding(t.slots, seqId)) in In(t.slots, Writing);
  }

  // ---------------------------------------------------------------- pieces

  lemma CheckKeepsSound(cfg: Config, t: Table, stale: set<nat>)
    requires Owned(t) && IsTop(cfg.maxList, t.completed, t.released)
    ensures Sound(cfg, CheckPending(cfg, t, stale))
  {
    CheckKeepsOwned(cfg, t, stale);
    ExpiredAreWriting(t, stale);
    CheckIs(cfg, t, stale);
  }

  lemma OpenKeepsSound(cfg: Config, t: Table, slot: nat, seqId: nat)
    requires Sound(cfg, t) && Holding(t.slots, seqId) == {}
    ensures var (u, found) := OpenIfEmpty(t, slot, seqId);
            Sound(cfg, u) && (found.Buffer? ==> Takes(u, found.b, seqId))
  {
    if slot < |t.slots| && t.slots[slot].status == Empty { OpenKeepsOwned(t, slot, seqId); }
  }

  lemma FindOrOpenKeepsSound(cfg: Config, t: Table, seqId: nat, stale: set<nat>, slot: nat)
    requires Sound(cfg, t)
    ensures var (u, found) := FindOrOpen(cfg, t, seqId, stale, slot);
            Sound(cfg, u) && (found.Buffer? ==> Takes(u, found.b, seqId))
  {
    if Holding(t.slots, seqId) != {} {
      HolderTakes(t, seqId);
    } else if seqId !in t.incomplete && seqId !in t.released {
      CheckKeepsSound(cfg, t, stale);
      StillUnknown(cfg, t, seqId, stale);
      OpenKeepsSound(cfg, CheckPending(cfg, t, stale), slot, seqId);
    }
  }

  lemma RecountKeepsSound(cfg: Config, t: Table, b: nat, s: Slot, u: Table)
    requires Sound(cfg, t) && b < |t.slots| && s.status == t.slots[b].status && s.seqId == t.slots[b].seqId
    requires u == t.(slots := t.slots[b := s], accepted := u.accepted, inFlight := u.inFlight)
    ensures Sound(cfg, u)
  {
    RecountKeepsOwned(t, b, s, u);
  }

  lemma MarkKeepsSound(cfg: Config, t: Table, b: nat)
    requires Sound(cfg, t) && b in t.active && b < |t.slots|
    ensures var u := MarkComplete(cfg, t, b); Owned(u) && IsTop(cfg.maxList, u.completed, u.released)
  {
    MarkKeepsOwned(cfg, t, b);
    AddKeepsTop(cfg.maxList, t.completed, t.released, t.slots[b].seqId);
  }

  lemma CompleteKeepsSound(cfg: Config, t: Table, b: nat, complete: bool, stale: set<nat>)
    requires Sound(cfg, t) && b in t.active && b < |t.slots|
    ensures Sound(cfg, Complete(cfg, t, b, complete, stale))
  {
    var u := SetComplete(t, b, complete);
    RecountKeepsSound(cfg, t, b, u.slots[b], u);
    MarkKeepsSound(cfg, u, b);
    CheckKeepsSound(cfg, MarkComplete(cfg, u, b), stale);
  }

  // ---------------------------------------------------------------- steps

  lemma HeaderKeepsSound(cfg: Config, t: Table, seqId: nat, stale: set<nat>, slot: nat)
    requires Sound(cfg, t)
    ensures Sound(cfg, Header(cfg, t, seqId, stale, slot))
  {
    FindOrOpenKeepsSound(cfg, t, seqId, stale, slot);
    var (u, found) := FindOrOpen(cfg, t, seqId, stale, slot);
    if found.Buffer? {
      RecountKeepsSound(cfg, u, found.b, Put(u, found.b, true).slots[found.b], Put(u, found.b, true));
    }
  }

  lemma AddKeepsSound(cfg: Config, t: Table, seqId: nat, stale: set<nat>, slot: nat)
    requires Sound(cfg, t)
    ensures Sound(cfg, Add(cfg, t, seqId, stale, slot))
  {
    FindOrOpenKeepsSound(cfg, t, seqId, stale, slot);
    var (u, found) := FindOrOpen(cfg, t, seqId, stale, slot);
    if found.Buffer? {
      var b, v := found.b, Put(u, found.b, false);
      RecountKeepsSound(cfg, u, b, v.slots[b], v);
      CompleteKeepsSound(cfg, v, b, v.slots[b].fragments == cfg.expected && v.slots[b].writers == 0, stale);
    }
  }

  lemma FinishKeepsSound(cfg: Config, t: Table, b: nat, stale: set<nat>)
    requires Sound(cfg, t) && b in t.active && b < |t.slots|
    ensures Sound(cfg, AfterFinish(cfg, t, b, stale))
  {
    if t.slots[b].writers > 1 {
      DropKeepsSound(cfg, t, b);
    } else {
      LastFinishKeepsSound(cfg, t, b, t.slots[b].fragments >= cfg.expected, stale);
    }
  }

  lemma DropKeepsSound(cfg: Config, t: Table, b: nat)
    requires Sound(cfg, t) && b < |t.slots|
    ensures Sound(cfg, DropWriter(t, b))
  {
    RecountKeepsSound(cfg, t, b, t.slots[b].(writers := t.slots[b].writers - 1), DropWriter(t, b));
  }

  lemma LastFinishKeepsSound(cfg: Config, t: Table, b: nat, complete: bool, stale: set<nat>)
    requires Sound(cfg, t) && b in t.active && b < |t.slots|
    ensures Sound(cfg, DropWriter(Complete(cfg, t, b, complete, stale), b))
  {
    CompleteKeepsSound(cfg, t, b, complete, stale);
    DropKeepsSound(cfg, Complete(cfg, t, b, complete, stale), b);
  }

  lemma DroppedKeepsSound(cfg: Config, t: Table, seqId: nat, stale: set<nat>)
    requires Sound(cfg, t)
    ensures Sound(cfg, DroppedDone(cfg, t, seqId, stale))
  {
    if Holding(t.slots, seqId) != {} {
      HolderTakes(t, seqId);
      FinishKeepsSound(cfg, t, Least(Holding(t.slots, seqId)), stale);
    }
  }

  lemma DoneIsFinish(cfg: Config, t: Table, seqId: nat, stale: set<nat>)
    requires t.pending == {} && Holding(t.slots, seqId) != {}
    ensures Done(cfg, t, seqId, stale)
            == AfterFinish(cfg, t.(inFlight := t.inFlight - multiset{seqId}), Least(Holding(t.slots, seqId)), stale)
  {
  }

  lemma DoneKeepsSound(cfg: Config, t: Table, seqId: nat, stale: set<nat>)
    requires Sound(cfg, t)
    ensures Sound(cfg, Done(cfg, t, seqId, stale))
  {
    if Holding(t.slots, seqId) != {} {
      var b, u := Least(Holding(t.slots, seqId)), t.(inFlight := t.inFlight - multiset{seqId});
      HolderTakes(t, seqId);
      RecountKeepsSound(cfg, t, b, t.slots[b], u);
      DoneIsFinish(cfg, t, seqId, stale);
      FinishKeepsSound(cfg, u, b, stale);
    }
  }

  lemma ArtKeepsSound(cfg: Config, t: Table, b: nat)
    requires Sound(cfg, t)
    ensures Sound(cfg, Take(t, b)) && Sound(cfg, Finish(t, b))
  {
    if b < |t.slots| && t.slots[b].status != Writing {
      ReadKeepsOwned(t, b, t.slots[b].(status := Reading));
      ReadKeepsOwned(t, b, t.slots[b].(status := Empty));
    }
  }
}
