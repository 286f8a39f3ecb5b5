/** The store for the data of fragments that get no buffer, or do not fit into the one they get: who waits in it, when a
    fragment is taken out again, and when the event builder gives up because it does not find one
    (artdaq/DAQrate/SharedMemoryEventManager.cc:212-320). */
module DroppedData {
  import opened Ordered
  import opened EventTable
  import opened EventInvariants
  import opened EventSteps
  import opened EventRuns
  import opened EventDropped
  import opened EventOnce

  datatype RawHeader = RawHeader(seqId: nat, fragmentId: nat, timestamp: nat, wordCount: nat)

  // dropped: dropped_data_; waiting: history, the fragments without a buffer that are not yet done.
  datatype Builder = Builder(t: Table, dropped: seq<RawHeader>, waiting: multiset<RawHeader>)

  // fits: whether the body has room in the buffer. OtherAct is any step that does not touch the store.
  datatype Act =
    | WriteAct(frag: RawHeader, dropIfNoBuffers: bool, fits: bool, stale: set<nat>, slot: nat)
    | DoneAct(frag: RawHeader, stale: set<nat>)
    | DroppedAct(frag: RawHeader, stale: set<nat>)   // DoneWritingFragment of a fragment without a buffer
    | OtherAct(op: Op)

  // Where WriteFragmentHeader lets the body be written: InStore for dropped data, Nowhere for a null pointer.
  datatype Place = InBuffer(b: nat) | InStore | Nowhere

  function PlaceOf(found: Found, dropIfNoBuffers: bool, fits: bool): Place {
    match found
    case Buffer(b) => if fits then InBuffer(b) else InStore
    case NoBuffer => if dropIfNoBuffers then InStore else Nowhere
    case Passed => InStore
  }

  function WithoutFirst(dropped: seq<RawHeader>, frag: RawHeader): seq<RawHeader> {
    if dropped == [] then []
    else if dropped[0] == frag then dropped[1..]
    else [dropped[0]] + WithoutFirst(dropped[1..], frag)
  }

  lemma {:induction false} OneIsTaken(dropped: seq<RawHeader>, frag: RawHeader)
    ensures multiset(WithoutFirst(dropped, frag)) == multiset(dropped) - multiset{frag}
  {
    if dropped != [] {
      assert dropped == [dropped[0]] + dropped[1..];
      OneIsTaken(dropped[1..], frag);
    }
  }

  lemma {:induction false} FirstIsFurther(front: seq<RawHeader>, rest: seq<RawHeader>, frag: RawHeader)
    requires frag !in front
    ensures WithoutFirst(front + rest, frag) == front + WithoutFirst(rest, frag)
  {
    if front == [] {
      assert front + rest == rest;
    } else {
      FirstIsFurther(front[1..], rest, frag);
      assert (front + rest)[1..] == front[1..] + rest;
      Regroup(front, WithoutFirst(rest, frag));
    }
  }

  lemma Regroup(front: seq<RawHeader>, rest: seq<RawHeader>)
    requires front != []
    ensures [front[0]] + (front[1..] + rest) == front + rest
  {
  }

  lemma FirstAt(dropped: seq<RawHeader>, i: nat, frag: RawHeader)
    requires i < |dropped| && frag !in dropped[..i] && dropped[i] == frag
    ensures WithoutFirst(dropped, frag) == dropped[..i] + dropped[i + 1..]
  {
    assert dropped == dropped[..i] + dropped[i..] && dropped[i..][1..] == dropped[i + 1..];
    FirstIsFurther(dropped[..i], dropped[i..], frag);
  }

  lemma NotThere(dropped: seq<RawHeader>, frag: RawHeader)
    requires frag !in dropped
    ensures WithoutFirst(dropped, frag) == dropped
  {
    assert dropped == dropped + [];
    FirstIsFurther(dropped, [], frag);
  }

  // The store after DoneWritingFragment: it is searched only if no buffer holds the event.
  function AfterDone(t: Table, dropped: seq<RawHeader>, frag: RawHeader): seq<RawHeader> {
    if Holding(t.slots, frag.seqId) == {} then WithoutFirst(dropped, frag) else dropped
  }

  // DoneWritingFragment detaches from the shared memory: the event is unknown, and so is the fragment.
  predicate Detaches(t: Table, dropped: seq<RawHeader>, frag: RawHeader) {
    Unknown(t, frag.seqId) && frag !in dropped
  }

  ghost function OpOf(act: Act): Op {
    match act
    case WriteAct(frag, _, _, stale, slot) => HeaderOp(frag.seqId, stale, slot)
    case DoneAct(frag, stale) => DoneOp(frag.seqId, stale)
    case DroppedAct(frag, stale) => DroppedOp(frag.seqId, stale)
    case OtherAct(op) => op
  }

  ghost function FoundBy(cfg: Config, t: Table, act: Act): Found
    requires t.pending == {} && act.WriteAct?
  {
    FindOrOpen(cfg, t, act.frag.seqId, act.stale, act.slot).1
  }

  ghost function Do(cfg: Config, m: Builder, act: Act): (n: Builder)
    requires m.t.pending == {}
    ensures n.t.pending == {}
  {
    var u := Step(cfg, m.t, OpOf(act));
    match act
    case WriteAct(frag, dropIfNoBuffers, fits, _, _) =>
      var found := FoundBy(cfg, m.t, act);
      if PlaceOf(found, dropIfNoBuffers, fits) != InStore then Builder(u, m.dropped, m.waiting)
      else
        Builder(u, m.dropped + [frag], if found.Buffer? then m.waiting else m.waiting + multiset{frag})
    case DoneAct(frag, _) => Builder(u, AfterDone(m.t, m.dropped, frag), m.waiting)
    case DroppedAct(frag, _) => Builder(u, AfterDone(m.t, m.dropped, frag), m.waiting - multiset{frag})
    case OtherAct(_) => Builder(u, m.dropped, m.waiting)
  }

  ghost function Acts(cfg: Config, queueSize: nat, acts: seq<Act>): (m: Builder)
    ensures m.t.pending == {}
  {
    if acts == [] then Builder(Run(cfg, queueSize, []), [], multiset{})
    else Do(cfg, Acts(cfg, queueSize, acts[..|acts| - 1]), acts[|acts| - 1])
  }

  // Only a fragment that was dropped and is not yet done is done as one. If another one is done whose event has lost
  // its buffer, no dropped one has the same header.
  ghost predicate Proper(m: Builder, act: Act) {
    && (act.DroppedAct? ==> act.frag in m.waiting)
    && (act.DoneAct? ==> Holding(m.t.slots, act.frag.seqId) != {} || act.frag !in m.waiting)
  }

  ghost predicate ProperRun(cfg: Config, queueSize: nat, acts: seq<Act>) {
    forall i :: 0 <= i < |acts| ==> Proper(Acts(cfg, queueSize, acts[..i]), acts[i])
  }

  lemma Fronts(acts: seq<Act>)
    requires acts != []
    ensures var front := acts[..|acts| - 1];
            forall i :: 0 <= i < |front| ==> front[i] == acts[i] && front[..i] == acts[..i]
    ensures acts[..|acts|] == acts
  {
  }

  ghost function Ops(acts: seq<Act>): seq<Op> {
    seq(|acts|, i requires 0 <= i < |acts| => OpOf(acts[i]))
  }

  lemma OneMoreAct(cfg: Config, m: Builder, act: Act)
    requires m.t.pending == {}
    ensures Do(cfg, m, act).t == Step(cfg, m.t, OpOf(act))
  {
  }

  // The event table moves as in a run of the steps, so what is proved about those holds here.
  lemma {:induction false} ActsAreSteps(cfg: Config, queueSize: nat, acts: seq<Act>)
    ensures Acts(cfg, queueSize, acts).t == Run(cfg, queueSize, Ops(acts))
  {
    if acts == [] {
      assert Ops([]) == [];
    } else {
      var n := |acts| - 1;
      ActsAreSteps(cfg, queueSize, acts[..n]);
      assert Ops(acts)[..n] == Ops(acts[..n]);
      OneMoreAct(cfg, Acts(cfg, queueSize, acts[..n]), acts[n]);
    }
  }

  // ---------------------------------------------------------------- where the body goes

  // Some buffer takes the fragment: one that holds its event, or the one offered for an unknown event.
  ghost predicate HasBuffer(t: Table, seqId: nat, slot: nat) {
    Holding(t.slots, seqId) != {} || (Unknown(t, seqId) && slot in In(t.slots, Empty))
  }

  // The fragment is refused if it has no buffer, its event has not ended, and the caller does not ask to drop it;
  // dropped if it has none and its event has ended or the caller asks to; and stored as well if its body does not fit.
  ghost predicate Placed(t: Table, place: Place, seqId: nat, dropIfNoBuffers: bool, fits: bool, slot: nat) {
    && (place.Nowhere? <==> !dropIfNoBuffers && Unknown(t, seqId) && slot !in In(t.slots, Empty))
    && (place.InStore? <==> if HasBuffer(t, seqId, slot) then !fits else dropIfNoBuffers || !Unknown(t, seqId))
    && (place.InBuffer? ==>
          place.b == if Holding(t.slots, seqId) != {} then Least(Holding(t.slots, seqId)) else slot)
  }

  lemma CheckOffersTheSame(cfg: Config, t: Table, stale: set<nat>, slot: nat)
    requires Owned(t) && t.pending == {}
    ensures var u := CheckPending(cfg, t, stale);
            slot < |u.slots| && u.slots[slot].status == Empty <==> slot in In(t.slots, Empty)
  {
    ExpiredAreWriting(t, stale);
    CheckIs(cfg, t, stale);
  }

  lemma FoundBufferIff(cfg: Config, t: Table, seqId: nat, stale: set<nat>, slot: nat)
    requires Owned(t) && t.pending == {}
    ensures var found := FindOrOpen(cfg, t, seqId, stale, slot).1;
            && (found.Buffer? <==> HasBuffer(t, seqId, slot))
            && (found.NoBuffer? <==> Unknown(t, seqId) && slot !in In(t.slots, Empty))
            && (found.Buffer? ==> found.b == if Holding(t.slots, seqId) != {} then Least(Holding(t.slots, seqId))
              else slot)
  {
    CheckOffersTheSame(cfg, t, stale, slot);
  }

  lemma PlaceIsExact(cfg: Config, t: Table, seqId: nat, dropIfNoBuffers: bool, fits: bool, stale: set<nat>, slot: nat)
    requires Owned(t) && t.pending == {}
    ensures Placed(t, PlaceOf(FindOrOpen(cfg, t, seqId, stale, slot).1, dropIfNoBuffers, fits), seqId, dropIfNoBuffers,
                   fits, slot)
  {
    FoundBufferIff(cfg, t, seqId, stale, slot);
  }

  // In every reachable state a header puts its fragment into the store if and only if it has a buffer and does not fit,
  // or has none and is not to be tried again; the store is left alone otherwise, and keeps what it had in any case.
  lemma StoredIff(cfg: Config, queueSize: nat, acts: seq<Act>, act: Act)
    requires act.WriteAct?
    ensures var m := Acts(cfg, queueSize, acts);
            var f := act.frag;
            Do(cfg, m, act).dropped
            == m.dropped + if (if HasBuffer(m.t, f.seqId, act.slot) then !act.fits
                               else act.dropIfNoBuffers || !Unknown(m.t, f.seqId)) then [f] else []
  {
    ActsAreSteps(cfg, queueSize, acts);
    RunIsSound(cfg, queueSize, Ops(acts));
    PlaceIsExact(cfg, Acts(cfg, queueSize, acts).t, act.frag.seqId, act.dropIfNoBuffers, act.fits, act.stale, act.slot);
  }

  // When f was stored: it did not fit into its buffer, or its event had ended.
  ghost predicate StoredRightly(t: Table, act: Act, f: RawHeader) {
    act.WriteAct? && act.frag == f && if HasBuffer(t, f.seqId, act.slot) then !act.fits else !Unknown(t, f.seqId)
  }

  lemma TakingKeepsOthers(dropped: seq<RawHeader>, frag: RawHeader)
    ensures forall f :: f in WithoutFirst(dropped, frag) ==> f in dropped
  {
    OneIsTaken(dropped, frag);
    forall f | f in WithoutFirst(dropped, frag) ensures f in dropped {
      assert f in multiset(WithoutFirst(dropped, frag)) && f in multiset(dropped);
    }
  }

  // In a run in which no caller asks to drop, only fragments of ended events and bodies that do not fit are stored.
  lemma {:induction false} NothingIsDroppedUnasked(cfg: Config, queueSize: nat, acts: seq<Act>, f: RawHeader)
    returns (i: nat)
    requires forall j :: 0 <= j < |acts| && acts[j].WriteAct? ==> !acts[j].dropIfNoBuffers
    requires f in Acts(cfg, queueSize, acts).dropped
    ensures i < |acts| && StoredRightly(Acts(cfg, queueSize, acts[..i]).t, acts[i], f)
  {
    var n := |acts| - 1;
    var m, act := Acts(cfg, queueSize, acts[..n]), acts[n];
    Fronts(acts);
    if act.WriteAct? { StoredIff(cfg, queueSize, acts[..n], act); }
    if act.DoneAct? || act.DroppedAct? { TakingKeepsOthers(m.dropped, act.frag); }
    if f in m.dropped {
      i := NothingIsDroppedUnasked(cfg, queueSize, acts[..n], f);
    } else {
      i := n;
    }
  }

  // ---------------------------------------------------------------- nothing that waits is lost

  lemma WaitingIsKept(waiting: multiset<RawHeader>, dropped: seq<RawHeader>, frag: RawHeader)
    requires waiting <= multiset(dropped)
    ensures waiting - multiset{frag} <= multiset(WithoutFirst(dropped, frag))
    ensures frag !in waiting ==> waiting <= multiset(WithoutFirst(dropped, frag))
  {
    OneIsTaken(dropped, frag);
  }

  lemma StoreKeepsWaiting(cfg: Config, m: Builder, act: Act)
    requires m.t.pending == {} && Proper(m, act) && m.waiting <= multiset(m.dropped)
    ensures Do(cfg, m, act).waiting <= multiset(Do(cfg, m, act).dropped)
  {
    if act.DoneAct? || act.DroppedAct? { WaitingIsKept(m.waiting, m.dropped, act.frag); }
  }

  // In every reachable state: the data of each dropped fragment that is not yet done is in the store, so that the end
  // of such a fragment never makes the event builder detach.
  lemma {:induction false} DroppedDataIsKept(cfg: Config, queueSize: nat, acts: seq<Act>)
    requires ProperRun(cfg, queueSize, acts)
    ensures var m := Acts(cfg, queueSize, acts);
            m.waiting <= multiset(m.dropped) && forall f :: f in m.waiting ==> !Detaches(m.t, m.dropped, f)
  {
    if acts != [] {
      Fronts(acts);
      DroppedDataIsKept(cfg, queueSize, acts[..|acts| - 1]);
      StoreKeepsWaiting(cfg, Acts(cfg, queueSize, acts[..|acts| - 1]), acts[|acts| - 1]);
    }
  }

  // In every reachable state of runs in which no dropped fragment takes a writer away, DoneWritingFragment never
  // detaches, whichever fragment is done.
  lemma DoneNeverDetaches(cfg: Config, queueSize: nat, acts: seq<Act>, frag: RawHeader)
    requires Sane(cfg) && ProperRun(cfg, queueSize, acts) && LegalRun(cfg, queueSize, Ops(acts))
    requires var m := Acts(cfg, queueSize, acts); frag in m.waiting || frag.seqId in m.t.inFlight
    ensures var m := Acts(cfg, queueSize, acts); !Detaches(m.t, m.dropped, frag)
  {
    DroppedDataIsKept(cfg, queueSize, acts);
    ActsAreSteps(cfg, queueSize, acts);
    RunIsSteady(cfg, queueSize, Ops(acts));
  }

  // In every reachable state of every run: the end of a fragment whose event has ended detaches if and only if no
  // dropped data has its header, the event did not time out, and at least max_event_list_length_ larger IDs have been
  // completed.
  lemma EndedDetachesIff(cfg: Config, queueSize: nat, ops: seq<Op>, dropped: seq<RawHeader>, frag: RawHeader)
    requires var t := Run(cfg, queueSize, ops); frag.seqId in Ended(t) && Holding(t.slots, frag.seqId) == {}
    ensures var t := Run(cfg, queueSize, ops);
            Detaches(t, dropped, frag)
            <==> frag !in dropped && frag.seqId !in t.incomplete && |Larger(t.completed, frag.seqId)| >= cfg.maxList
  {
    var t, e := Run(cfg, queueSize, ops), frag.seqId;
    RunIsSound(cfg, queueSize, ops);
    if e in t.completed { TopHoldsLargerOnes(cfg.maxList, t.completed, t.released, e); }
    else { assert e !in t.released; }
  }

  // And of one whose event has not been seen, if and only if no dropped data has its header.
  lemma UnseenDetachesIff(cfg: Config, queueSize: nat, ops: seq<Op>, dropped: seq<RawHeader>, frag: RawHeader)
    requires var t := Run(cfg, queueSize, ops); frag.seqId !in Ended(t) && Holding(t.slots, frag.seqId) == {}
    ensures Detaches(Run(cfg, queueSize, ops), dropped, frag) <==> frag !in dropped
  {
    var t := Run(cfg, queueSize, ops);
    RunIsSound(cfg, queueSize, ops);
    assert t.released <= t.completed;
  }

  // A run in which it does: the end of a dropped fragment sends event 1 to art while a fragment of it is in flight, and
  // when that one is done the event is unknown.
  lemma DoneMayDetach(frag: RawHeader, dropped: seq<RawHeader>) returns (ops: seq<Op>)
    requires frag.seqId == 1 && frag !in dropped
    ensures var t := Run(Config(1, 1, false), 3, ops); 1 in t.inFlight && Detaches(t, dropped, frag)
  {
    var s, t := ReleasedWithAFragmentInFlight();
    ops := [AddOp(1, {}, 0), HeaderOp(1, {}, 2), AddOp(2, {}, 1), HeaderOp(1, {}, 2)];
    OneMoreDropped(Config(1, 1, false), ops, t);
    ops := ops + [DroppedOp(1, {})];
  }

  lemma OneMoreDropped(cfg: Config, ops: seq<Op>, t: Table)
    requires t == Run(cfg, 3, ops)
    ensures Run(cfg, 3, ops + [DroppedOp(1, {})]) == DroppedDone(cfg, t, 1, {})
  {
    assert (ops + [DroppedOp(1, {})])[..|ops + [DroppedOp(1, {})]| - 1] == ops;
  }

  // ---------------------------------------------------------------- what is never taken out

  // The step leaves an entry in the store for good: the header of a fragment whose body does not fit in its buffer, or
  // of a dropped one that is done while a buffer holds its event.
  ghost predicate Leaks(cfg: Config, m: Builder, act: Act)
    requires m.t.pending == {}
  {
    || (act.WriteAct? && FoundBy(cfg, m.t, act).Buffer? && !act.fits)
    || (act.DroppedAct? && Holding(m.t.slots, act.frag.seqId) != {})
  }

  // A fragment in a buffer takes an entry with its header out of the store, as its event has lost the buffer.
  ghost predicate Recovers(m: Builder, act: Act) {
    act.DoneAct? && Holding(m.t.slots, act.frag.seqId) == {} && act.frag in m.dropped
  }

  // The entries left behind, less those recovered.
  ghost function Left(cfg: Config, queueSize: nat, acts: seq<Act>): int {
    if acts == [] then 0
    else
      var front := acts[..|acts| - 1];
      Left(cfg, queueSize, front) + Change(cfg, Acts(cfg, queueSize, front), acts[|acts| - 1])
  }

  ghost function Change(cfg: Config, m: Builder, act: Act): int
    requires m.t.pending == {}
  {
    if Leaks(cfg, m, act) then 1 else if Recovers(m, act) then -1 else 0
  }

  lemma StoreGrows(cfg: Config, m: Builder, act: Act)
    requires m.t.pending == {} && Proper(m, act) && m.waiting <= multiset(m.dropped)
    ensures var n := Do(cfg, m, act);
            |n.dropped| - |n.waiting| == |m.dropped| - |m.waiting| + Change(cfg, m, act)
  {
    if act.DroppedAct? { TakenOut(m.waiting, m.dropped, act.frag); }
    if act.DoneAct? { TakenOut(m.waiting, m.dropped, act.frag); }
  }

  lemma TakenOut(waiting: multiset<RawHeader>, dropped: seq<RawHeader>, frag: RawHeader)
    ensures |WithoutFirst(dropped, frag)| == |dropped| - if frag in dropped then 1 else 0
    ensures |waiting - multiset{frag}| == |waiting| - if frag in waiting then 1 else 0
    ensures frag in multiset(dropped) <==> frag in dropped
  {
    OneIsTaken(dropped, frag);
    SizeOf(dropped);
    SizeOf(WithoutFirst(dropped, frag));
  }

  lemma SizeOf(dropped: seq<RawHeader>)
    ensures |multiset(dropped)| == |dropped|
  {
  }

  // In every reachable state the store holds what waits, and what was left behind.
  lemma {:induction false} StoreIsExact(cfg: Config, queueSize: nat, acts: seq<Act>)
    requires ProperRun(cfg, queueSize, acts)
    ensures var m := Acts(cfg, queueSize, acts); |m.dropped| == |m.waiting| + Left(cfg, queueSize, acts)
  {
    if acts != [] {
      var front := acts[..|acts| - 1];
      Fronts(acts);
      StoreIsExact(cfg, queueSize, front);
      DroppedDataIsKept(cfg, queueSize, front);
      StoreGrows(cfg, Acts(cfg, queueSize, front), acts[|acts| - 1]);
    }
  }

  ghost predicate NoneRecovers(cfg: Config, queueSize: nat, acts: seq<Act>) {
    forall i :: 0 <= i < |acts| ==> !Recovers(Acts(cfg, queueSize, acts[..i]), acts[i])
  }

  ghost predicate NoneLeaks(cfg: Config, queueSize: nat, acts: seq<Act>) {
    forall i :: 0 <= i < |acts| ==> !Leaks(cfg, Acts(cfg, queueSize, acts[..i]), acts[i])
  }

  lemma {:induction false} NothingIsLeft(cfg: Config, queueSize: nat, acts: seq<Act>)
    requires NoneRecovers(cfg, queueSize, acts)
    ensures Left(cfg, queueSize, acts) >= 0
    ensures NoneLeaks(cfg, queueSize, acts) ==> Left(cfg, queueSize, acts) == 0
  {
    if acts != [] {
      Fronts(acts);
      NothingIsLeft(cfg, queueSize, acts[..|acts| - 1]);
    }
  }

  lemma {:induction false} SomethingIsLeft(cfg: Config, queueSize: nat, acts: seq<Act>, i: nat)
    requires NoneRecovers(cfg, queueSize, acts) && i < |acts|
    requires Leaks(cfg, Acts(cfg, queueSize, acts[..i]), acts[i])
    ensures Left(cfg, queueSize, acts) > 0
  {
    Fronts(acts);
    if i < |acts| - 1 {
      SomethingIsLeft(cfg, queueSize, acts[..|acts| - 1], i);
    } else {
      NothingIsLeft(cfg, queueSize, acts[..|acts| - 1]);
    }
  }

  // Once every dropped fragment is done, the store is empty again if and only if no step leaked - given that no entry
  // was recovered, which takes a fragment whose event lost its buffer while it was being written.
  lemma StoreEmptiesIff(cfg: Config, queueSize: nat, acts: seq<Act>)
    requires ProperRun(cfg, queueSize, acts) && NoneRecovers(cfg, queueSize, acts)
    requires Acts(cfg, queueSize, acts).waiting == multiset{}
    ensures Acts(cfg, queueSize, acts).dropped == [] <==> NoneLeaks(cfg, queueSize, acts)
  {
    StoreIsExact(cfg, queueSize, acts);
    NothingIsLeft(cfg, queueSize, acts);
    if Acts(cfg, queueSize, acts).dropped == [] {
      forall i | 0 <= i < |acts| ensures !Leaks(cfg, Acts(cfg, queueSize, acts[..i]), acts[i]) {
        if Leaks(cfg, Acts(cfg, queueSize, acts[..i]), acts[i]) { SomethingIsLeft(cfg, queueSize, acts, i); }
      }
    }
  }
}
