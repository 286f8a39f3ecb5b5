/** What is released to art when (artdaq/DAQrate/SharedMemoryEventManager.cc:1221-1256 and 1271-1350): by a check on its
    own, and by the checks of DoneWritingFragment and AddFragment, which meet the buffer of a complete event. */
module EventReleases {
  import opened Ordered
  import opened EventTable
  import opened EventInvariants
  import opened EventSteps
  import opened EventSound
  import opened EventRuns

  // t became u by releasing the events in gone, one for each buffer, in increasing order of sequence ID;
  // nothing is left pending.
  ghost predicate ReleasedInOrder(t: Table, u: Table, gone: set<nat>) {
    && (forall b :: b in gone ==> b < |t.slots|)
    && |SeqIds(t.slots, gone)| == |gone|
    && u.pending == {} && u.log == t.log + Sorted(SeqIds(t.slots, gone))
  }

  // The list says of each event in gone how many of its fragments were missing: some, but not all.
  ghost predicate MissingRecorded(cfg: Config, t: Table, u: Table, gone: set<nat>) {
    forall b :: b in gone ==>
      && b < |t.slots| && t.slots[b].seqId in u.incomplete
      && u.incomplete[t.slots[b].seqId] == cfg.expected - t.slots[b].fragments
      && 1 <= u.incomplete[t.slots[b].seqId] < cfg.expected
  }

  // The buffers that go to art when b has just been filled: b itself if it is complete, and the idle stale ones.
  function Leaving(t: Table, b: nat, complete: bool, stale: set<nat>): set<nat> {
    Expired(t, stale) + if complete then {b} else {}
  }

  // ---------------------------------------------------------------- one check

  // A check from any state a step can be in, also with the buffer of a complete event pending.
  lemma CheckReleases(cfg: Config, t: Table, stale: set<nat>)
    requires Owned(t)
    ensures ReleasedInOrder(t, CheckPending(cfg, t, stale), t.pending + Expired(t, stale))
  {
    ExpiredAreWriting(t, stale);
    CheckIs(cfg, t, stale);
    ImageSize(t.slots, t.pending + Expired(t, stale));
  }

  // If the writer counts are right, it says what is missing of those that timed out.
  lemma CheckRecords(cfg: Config, t: Table, stale: set<nat>, w: int)
    requires Sane(cfg) && Mid(cfg, t, w, -1)
    ensures MissingRecorded(cfg, t, CheckPending(cfg, t, stale), Expired(t, stale))
  {
    CheckIs(cfg, t, stale);
    ExpiredAreRecorded(cfg, t, stale);
  }

  lemma ExpiredAreRecorded(cfg: Config, t: Table, stale: set<nat>)
    requires Sane(cfg) && Owned(t) && Building(cfg.expected, t.slots, t.active, -1)
    requires Absent(t.slots, t.active, t.incomplete.Keys)
    ensures MissingRecorded(cfg, t, Expire(cfg, t, stale), Expired(t, stale))
  {
    var gone := Expired(t, stale);
    ExpiredAreWriting(t, stale);
    WithMissingIs(cfg, t.slots, t.incomplete, gone);
    forall b | b in gone ensures Missing(cfg, t.incomplete, t.slots[b]) == cfg.expected - t.slots[b].fragments >= 1 {
      MissingInRange(cfg, t.incomplete, t.slots[b]);
    }
  }

  // In every reachable state of every run a check releases exactly the idle stale buffers, in increasing order of
  // sequence ID, and leaves no buffer pending; in legal runs it records how many of the expected fragments are missing.
  lemma CheckReleasesInOrder(cfg: Config, queueSize: nat, ops: seq<Op>, stale: set<nat>)
    ensures var t := Run(cfg, queueSize, ops);
            var u := CheckPending(cfg, t, stale);
            && ReleasedInOrder(t, u, Expired(t, stale))
            && (Sane(cfg) && LegalRun(cfg, queueSize, ops) ==> MissingRecorded(cfg, t, u, Expired(t, stale)))
  {
    var t := Run(cfg, queueSize, ops);
    RunIsSound(cfg, queueSize, ops);
    CheckReleases(cfg, t, stale);
    assert t.pending + Expired(t, stale) == Expired(t, stale);
    if Sane(cfg) && LegalRun(cfg, queueSize, ops) {
      RunIsSteady(cfg, queueSize, ops);
      CheckRecords(cfg, t, stale, -1);
    }
  }

  // Those are the buffers that timed out and count no writer, in legal runs with no fragment in flight; a check leaves
  // all others as they were.
  lemma CheckReleasesIff(cfg: Config, queueSize: nat, ops: seq<Op>, stale: set<nat>, b: nat)
    requires b < queueSize
    ensures var t := Run(cfg, queueSize, ops);
            var u := CheckPending(cfg, t, stale);
            if t.slots[b].status == Writing && b in stale && t.slots[b].writers == 0
            then u.slots[b] == t.slots[b].(status := Full) else u.slots[b] == t.slots[b]
    ensures var t := Run(cfg, queueSize, ops);
            Sane(cfg) && LegalRun(cfg, queueSize, ops) && t.slots[b].status == Writing ==>
              t.slots[b].writers == t.inFlight[t.slots[b].seqId]
  {
    var t := Run(cfg, queueSize, ops);
    RunIsSound(cfg, queueSize, ops);
    CheckIs(cfg, t, stale);
    assert t.slots[b].status == Writing <==> b in In(t.slots, Writing);
    if Sane(cfg) && LegalRun(cfg, queueSize, ops) { RunIsSteady(cfg, queueSize, ops); }
  }

  // A new event makes the same check first, whether or not a buffer is then free for it.
  lemma NewEventReleasesInOrder(cfg: Config, queueSize: nat, ops: seq<Op>, op: Op)
    requires WantsBuffer(Run(cfg, queueSize, ops), op)
    ensures var t := Run(cfg, queueSize, ops);
            ReleasedInOrder(t, FindOrOpen(cfg, t, op.seqId, op.stale, op.slot).0, Expired(t, op.stale))
  {
    var t := Run(cfg, queueSize, ops);
    CheckReleasesInOrder(cfg, queueSize, ops, op.stale);
    assert FindOrOpen(cfg, t, op.seqId, op.stale, op.slot)
      == OpenIfEmpty(CheckPending(cfg, t, op.stale), op.slot, op.seqId);
  }

  // ---------------------------------------------------------------- the check of complete_buffer_

  // v is t with b marked complete, or not.
  ghost predicate Marked(t: Table, v: Table, b: nat, complete: bool) {
    && v.pending == (if complete then {b} else {}) && v.active == (if complete then t.active - {b} else t.active)
    && v.log == t.log && SameCounts(t.slots, v.slots)
  }

  ghost predicate SameCounts(slots: seq<Slot>, others: seq<Slot>) {
    && |slots| == |others|
    && forall a :: 0 <= a < |slots| ==> others[a] == slots[a].(complete := others[a].complete)
  }

  lemma MarkMarks(cfg: Config, t: Table, b: nat, complete: bool)
    requires t.pending == {} && b < |t.slots|
    ensures Marked(t, MarkComplete(cfg, SetComplete(t, b, complete), b), b, complete)
  {
  }

  lemma MarkedLeave(t: Table, v: Table, b: nat, complete: bool, stale: set<nat>)
    requires Marked(t, v, b, complete) && t.pending == {} && b in t.active
    ensures v.pending + Expired(v, stale) == Leaving(t, b, complete, stale)
    ensures Expired(v, stale) == Expired(t, stale) - if complete then {b} else {}
  {
  }

  lemma SameIdsRelease(t: Table, v: Table, u: Table, gone: set<nat>)
    requires |v.slots| == |t.slots| && forall a :: 0 <= a < |t.slots| ==> v.slots[a].seqId == t.slots[a].seqId
    requires v.log == t.log && ReleasedInOrder(v, u, gone)
    ensures ReleasedInOrder(t, u, gone)
  {
    assert SeqIds(v.slots, gone) == SeqIds(t.slots, gone);
  }

  lemma CompleteReleases(cfg: Config, t: Table, b: nat, complete: bool, stale: set<nat>)
    requires Sound(cfg, t) && b in t.active && b < |t.slots|
    ensures ReleasedInOrder(t, Complete(cfg, t, b, complete, stale), Leaving(t, b, complete, stale))
  {
    var u := SetComplete(t, b, complete);
    RecountKeepsSound(cfg, t, b, u.slots[b], u);
    MarkKeepsSound(cfg, u, b);
    MarkMarks(cfg, t, b, complete);
    MarkedReleases(cfg, t, MarkComplete(cfg, u, b), b, complete, stale);
  }

  lemma MarkedReleases(cfg: Config, t: Table, v: Table, b: nat, complete: bool, stale: set<nat>)
    requires Marked(t, v, b, complete) && t.pending == {} && b in t.active && Owned(v)
    ensures ReleasedInOrder(t, CheckPending(cfg, v, stale), Leaving(t, b, complete, stale))
  {
    CheckReleases(cfg, v, stale);
    MarkedLeave(t, v, b, complete, stale);
    SameIdsRelease(t, v, CheckPending(cfg, v, stale), Leaving(t, b, complete, stale));
  }

  lemma MarkedRecords(cfg: Config, t: Table, v: Table, u: Table, b: nat, complete: bool, expired: set<nat>)
    requires Marked(t, v, b, complete) && MissingRecorded(cfg, v, u, expired)
    ensures MissingRecorded(cfg, t, u, expired)
  {
  }

  lemma CompleteRecords(cfg: Config, t: Table, b: nat, complete: bool, stale: set<nat>, w: int)
    requires Sane(cfg) && t.pending == {} && Mid(cfg, t, w, b) && b in t.active && b < |t.slots|
    requires complete ==> t.inFlight[t.slots[b].seqId] == 0
    requires !complete ==>
               1 <= t.slots[b].fragments && (t.slots[b].writers == 0 ==> t.slots[b].fragments < cfg.expected)
    ensures MissingRecorded(cfg, t, Complete(cfg, t, b, complete, stale),
                            Expired(t, stale) - if complete then {b} else {})
  {
    var v := MarkComplete(cfg, SetComplete(t, b, complete), b);
    MarkKeepsMid(cfg, t, b, complete, w);
    CheckRecords(cfg, v, stale, w);
    MarkMarks(cfg, t, b, complete);
    MarkedLeave(t, v, b, complete, stale);
    MarkedRecords(cfg, t, v, CheckPending(cfg, v, stale), b, complete, Expired(v, stale));
  }

  // ---------------------------------------------------------------- DoneWritingFragment

  // What DoneWritingFragment releases: nothing while the buffer of the event counts another writer; else the event, if
  // all its fragments have been written, together with the idle stale ones, all in increasing order of sequence ID.
  ghost predicate DoneReleases(cfg: Config, t: Table, u: Table, e: nat, stale: set<nat>) {
    Holding(t.slots, e) != {} && FinishReleases(cfg, t, u, Least(Holding(t.slots, e)), stale)
  }

  ghost predicate FinishReleases(cfg: Config, t: Table, u: Table, b: nat, stale: set<nat>) {
    && b < |t.slots|
    && if t.slots[b].writers > 1 then u.log == t.log && u.pending == {}
       else ReleasedInOrder(t, u, Leaving(t, b, t.slots[b].fragments >= cfg.expected, stale))
  }

  lemma AfterFinishReleases(cfg: Config, t: Table, b: nat, stale: set<nat>)
    requires Sound(cfg, t) && b in t.active && b < |t.slots|
    ensures FinishReleases(cfg, t, AfterFinish(cfg, t, b, stale), b, stale)
  {
    FinishIs(cfg, t, b, stale);
    if t.slots[b].writers <= 1 { LastFinishReleases(cfg, t, b, t.slots[b].fragments >= cfg.expected, stale); }
  }

  lemma LastFinishReleases(cfg: Config, t: Table, b: nat, complete: bool, stale: set<nat>)
    requires Sound(cfg, t) && b in t.active && b < |t.slots|
    ensures ReleasedInOrder(t, DropWriter(Complete(cfg, t, b, complete, stale), b), Leaving(t, b, complete, stale))
  {
    CompleteReleases(cfg, t, b, complete, stale);
    DropReleases(t, Complete(cfg, t, b, complete, stale), b, Leaving(t, b, complete, stale));
  }

  lemma DropReleases(t: Table, u: Table, b: nat, gone: set<nat>)
    requires ReleasedInOrder(t, u, gone) && b < |u.slots|
    ensures ReleasedInOrder(t, DropWriter(u, b), gone)
  {
  }

  lemma EndReleases(cfg: Config, t: Table, e: nat, stale: set<nat>)
    requires Sound(cfg, t) && Holding(t.slots, e) != {}
    ensures DoneReleases(cfg, t, Done(cfg, t, e, stale), e, stale)
    ensures DoneReleases(cfg, t, DroppedDone(cfg, t, e, stale), e, stale)
  {
    var b, u := Least(Holding(t.slots, e)), t.(inFlight := t.inFlight - multiset{e});
    HolderTakes(t, e);
    DoneIsFinish(cfg, t, e, stale);
    RecountKeepsSound(cfg, t, b, t.slots[b], u);
    AfterFinishReleases(cfg, t, b, stale);
    AfterFinishReleases(cfg, u, b, stale);
    InFlightReleases(cfg, t, u.inFlight, Done(cfg, t, e, stale), b, stale);
  }

  lemma InFlightReleases(cfg: Config, t: Table, inFlight: multiset<nat>, v: Table, b: nat, stale: set<nat>)
    requires FinishReleases(cfg, t.(inFlight := inFlight), v, b, stale)
    ensures FinishReleases(cfg, t, v, b, stale)
  {
    assert Expired(t.(inFlight := inFlight), stale) == Expired(t, stale);
  }

  // The writer leaves after the check, and the fragment was no longer in flight before it.
  lemma AroundTheCheck(cfg: Config, t: Table, inFlight: multiset<nat>, v: Table, b: nat, complete: bool,
                       stale: set<nat>)
    requires b !in Expired(t, stale) && b < |v.slots|
    requires MissingRecorded(cfg, t.(inFlight := inFlight), v,
                             Expired(t.(inFlight := inFlight), stale) - if complete then {b} else {})
    ensures MissingRecorded(cfg, t, DropWriter(v, b), Expired(t, stale))
  {
    assert Expired(t.(inFlight := inFlight), stale) == Expired(t, stale);
    assert Expired(t, stale) - (if complete then {b} else {}) == Expired(t, stale);
  }

  lemma LastWriterRecords(cfg: Config, t: Table, b: nat, stale: set<nat>)
    requires Sane(cfg) && Steady(cfg, t) && b in t.active && b in In(t.slots, Writing)
    requires t.inFlight[t.slots[b].seqId] == 1 && Ready(cfg.expected, t, b, t.slots[b].seqId)
    ensures var complete := t.slots[b].fragments >= cfg.expected;
            var u := t.(inFlight := t.inFlight - multiset{t.slots[b].seqId});
            MissingRecorded(cfg, t, DropWriter(Complete(cfg, u, b, complete, stale), b), Expired(t, stale))
  {
    var complete, u := t.slots[b].fragments >= cfg.expected, t.(inFlight := t.inFlight - multiset{t.slots[b].seqId});
    DoneStarts(cfg, t, b);
    CompleteRecords(cfg, u, b, complete, stale, b);
    AroundTheCheck(cfg, t, u.inFlight, Complete(cfg, u, b, complete, stale), b, complete, stale);
  }

  lemma LastDoneRecords(cfg: Config, t: Table, e: nat, stale: set<nat>)
    requires Sane(cfg) && Steady(cfg, t) && e in t.inFlight
    ensures Holding(t.slots, e) != {}
    ensures var b := Least(Holding(t.slots, e));
            && b < |t.slots| && t.slots[b].writers == t.inFlight[e]
            && (t.inFlight[e] == 1 ==> MissingRecorded(cfg, t, Done(cfg, t, e, stale), Expired(t, stale)))
  {
    HolderIsReady(cfg, t, e);
    var b := Least(Holding(t.slots, e));
    IdleMeansNoneInFlight(t, b);
    if t.inFlight[e] == 1 {
      LastWriterRecords(cfg, t, b, stale);
      DoneIsFinish(cfg, t, e, stale);
    }
  }

  // In every reachable state of every run, whether the fragment was in flight or dropped; in legal runs the writers are
  // the fragments in flight, and the check of the last one says what is missing of those that time out.
  lemma DoneReleasesInOrder(cfg: Config, queueSize: nat, ops: seq<Op>, e: nat, stale: set<nat>)
    requires Holding(Run(cfg, queueSize, ops).slots, e) != {}
    ensures var t := Run(cfg, queueSize, ops);
            && DoneReleases(cfg, t, Done(cfg, t, e, stale), e, stale)
            && DoneReleases(cfg, t, DroppedDone(cfg, t, e, stale), e, stale)
    ensures var t := Run(cfg, queueSize, ops);
            Sane(cfg) && LegalRun(cfg, queueSize, ops) && e in t.inFlight ==>
              && t.slots[Least(Holding(t.slots, e))].writers == t.inFlight[e]
              && (t.inFlight[e] == 1 ==> MissingRecorded(cfg, t, Done(cfg, t, e, stale), Expired(t, stale)))
  {
    var t := Run(cfg, queueSize, ops);
    RunIsSound(cfg, queueSize, ops);
    EndReleases(cfg, t, e, stale);
    if Sane(cfg) && LegalRun(cfg, queueSize, ops) && e in t.inFlight {
      RunIsSteady(cfg, queueSize, ops);
      LastDoneRecords(cfg, t, e, stale);
    }
  }

  // ---------------------------------------------------------------- AddFragment

  // What AddFragment releases once it has put its fragment into buffer b of w: the event, if the fragment completes it
  // and no writer is in flight, together with the idle stale ones, in increasing order of sequence ID.
  ghost predicate AddReleases(cfg: Config, w: Table, b: nat, u: Table, stale: set<nat>) {
    && b < |w.slots|
    && var complete := w.slots[b].fragments + 1 == cfg.expected && w.slots[b].writers == 0;
       ReleasedInOrder(w, u, Leaving(w, b, complete, stale))
  }

  // Those that are not complete are listed with what they miss besides the fragment.
  ghost predicate AddRecords(cfg: Config, w: Table, b: nat, u: Table, stale: set<nat>) {
    && b < |w.slots|
    && var complete := w.slots[b].fragments + 1 == cfg.expected && w.slots[b].writers == 0;
       MissingRecorded(cfg, Put(w, b, false), u, Expired(w, stale) - if complete then {b} else {})
  }

  lemma AddedReleases(cfg: Config, w: Table, b: nat, complete: bool, stale: set<nat>)
    requires Sound(cfg, w) && b in w.active && b < |w.slots|
    ensures ReleasedInOrder(w, Complete(cfg, Put(w, b, false), b, complete, stale), Leaving(w, b, complete, stale))
  {
    var v := Put(w, b, false);
    RecountKeepsSound(cfg, w, b, v.slots[b], v);
    CompleteReleases(cfg, v, b, complete, stale);
    PutReleases(w, b, Complete(cfg, v, b, complete, stale), complete, stale);
  }

  lemma PutReleases(t: Table, b: nat, u: Table, complete: bool, stale: set<nat>)
    requires b < |t.slots| && ReleasedInOrder(Put(t, b, false), u, Leaving(Put(t, b, false), b, complete, stale))
    ensures ReleasedInOrder(t, u, Leaving(t, b, complete, stale))
  {
    SameExpired(t, b, stale);
    SameIdsRelease(t, Put(t, b, false), u, Leaving(t, b, complete, stale));
  }

  lemma AddedRecords(cfg: Config, w: Table, b: nat, stale: set<nat>)
    requires Sane(cfg) && w.pending == {} && Mid(cfg, w, -1, b) && b in w.active && b < |w.slots|
    requires w.slots[b].status == Writing && (w.slots[b].writers == 0 ==> w.slots[b].fragments < cfg.expected)
    ensures var complete := w.slots[b].fragments + 1 == cfg.expected && w.slots[b].writers == 0;
            MissingRecorded(cfg, Put(w, b, false), Complete(cfg, Put(w, b, false), b, complete, stale),
                            Expired(Put(w, b, false), stale) - if complete then {b} else {})
  {
    var v := Put(w, b, false);
    PutKeepsMid(cfg, w, b, false);
    IdleMeansNoneInFlight(v, b);
    CompleteRecords(cfg, v, b, w.slots[b].fragments + 1 == cfg.expected && w.slots[b].writers == 0, stale, -1);
  }

  // In every reachable state of every run. (If AddFragment opens a buffer, it makes a check before, which is that of
  // CheckReleasesInOrder.)
  lemma AddReleasesInOrder(cfg: Config, queueSize: nat, ops: seq<Op>, e: nat, stale: set<nat>, slot: nat)
    requires FindOrOpen(cfg, Run(cfg, queueSize, ops), e, stale, slot).1.Buffer?
    ensures var t := Run(cfg, queueSize, ops);
            var (w, found) := FindOrOpen(cfg, t, e, stale, slot);
            && AddReleases(cfg, w, found.b, Add(cfg, t, e, stale, slot), stale)
            && (Sane(cfg) && LegalRun(cfg, queueSize, ops) ==>
                  AddRecords(cfg, w, found.b, Add(cfg, t, e, stale, slot), stale))
  {
    RunIsSound(cfg, queueSize, ops);
    ArrivalReleases(cfg, Run(cfg, queueSize, ops), e, stale, slot);
    if Sane(cfg) && LegalRun(cfg, queueSize, ops) {
      RunIsSteady(cfg, queueSize, ops);
      ArrivalRecords(cfg, Run(cfg, queueSize, ops), e, stale, slot);
    }
  }

  lemma ArrivalReleases(cfg: Config, t: Table, e: nat, stale: set<nat>, slot: nat)
    requires Sound(cfg, t) && FindOrOpen(cfg, t, e, stale, slot).1.Buffer?
    ensures var (w, found) := FindOrOpen(cfg, t, e, stale, slot);
            AddReleases(cfg, w, found.b, Add(cfg, t, e, stale, slot), stale)
  {
    var (w, found) := FindOrOpen(cfg, t, e, stale, slot);
    var complete := w.slots[found.b].fragments + 1 == cfg.expected && w.slots[found.b].writers == 0;
    FindOrOpenKeepsSound(cfg, t, e, stale, slot);
    AddedReleases(cfg, w, found.b, complete, stale);
    AddIs(cfg, t, e, stale, slot);
  }

  lemma ArrivalRecords(cfg: Config, t: Table, e: nat, stale: set<nat>, slot: nat)
    requires Sane(cfg) && Steady(cfg, t) && FindOrOpen(cfg, t, e, stale, slot).1.Buffer?
    ensures var (w, found) := FindOrOpen(cfg, t, e, stale, slot);
            AddRecords(cfg, w, found.b, Add(cfg, t, e, stale, slot), stale)
  {
    var (w, found) := FindOrOpen(cfg, t, e, stale, slot);
    FindOrOpenKeepsMid(cfg, t, e, stale, slot);
    AddedRecords(cfg, w, found.b, stale);
    SameExpired(w, found.b, stale);
    AddIs(cfg, t, e, stale, slot);
  }

  lemma SameExpired(w: Table, b: nat, stale: set<nat>)
    requires b < |w.slots|
    ensures Expired(Put(w, b, false), stale) == Expired(w, stale)
  {
  }

  lemma AddIs(cfg: Config, t: Table, e: nat, stale: set<nat>, slot: nat)
    requires t.pending == {} && FindOrOpen(cfg, t, e, stale, slot).1.Buffer?
    ensures var (w, found) := FindOrOpen(cfg, t, e, stale, slot);
            var complete := w.slots[found.b].fragments + 1 == cfg.expected && w.slots[found.b].writers == 0;
            Add(cfg, t, e, stale, slot) == Complete(cfg, Put(w, found.b, false), found.b, complete, stale)
  {
  }
}
