/** SequenceID and Ignored mode hand out the fragments themselves (artdaq/DAQrate/FragmentBuffer.cc:428-446 and
    739-795): over whole runs nothing is handed out twice, and without limits nothing is lost. */
module PlainRuns {
  import opened Ordered
  import opened DataBuffers
  import opened Pipeline
  import opened WindowRuns
  import opened CounterRuns
  import opened WindowAnswers
  import LatestRuns

  // The fragments of one ID that were handed out, in order.
  function FragmentIn(id: nat): Output -> seq<Fragment> {
    (o: Output) => if o.Plain? && o.fragment.id == id then [o.fragment] else []
  }

  function PlainsFor(out: seq<Output>, id: nat): seq<Fragment> {
    Collect(out, FragmentIn(id))
  }

  lemma PlainsForMore(out: seq<Output>, more: seq<Output>, id: nat)
    ensures PlainsFor(out + more, id) == PlainsFor(out, id) + PlainsFor(more, id)
  {
    CollectMore(out, more, FragmentIn(id));
  }

  ghost predicate Bears(s: seq<Fragment>, id: nat) {
    forall f :: f in s ==> f.id == id
  }

  lemma PlainsBack(s: seq<Fragment>)
    requires s != []
    ensures var n := |s| - 1; |Plains(s)| == n + 1 && Plains(s)[..n] == Plains(s[..n]) && Plains(s)[n] == Plain(s[n])
  {
  }

  lemma {:induction false} PlainsForOwn(s: seq<Fragment>, id: nat, q: nat)
    requires Bears(s, id)
    ensures PlainsFor(Plains(s), q) == if q == id then s else []
  {
    if s != [] {
      var front, last := s[..|s| - 1], s[|s| - 1];
      assert last in s && s == front + [last];
      PlainsForOwn(front, id, q);
      PlainsBack(s);
    }
  }

  ghost predicate AllBear(bufs: map<nat, Buf>) {
    forall id :: id in bufs ==> Bears(bufs[id].frags, id)
  }

  // What the data buffer of one ID hands out for a request in SequenceID mode.
  function Given(b: Buf, seqId: nat): seq<Fragment> {
    if seqId in b.sent then [] else Matching(b.frags, seqId)
  }

  lemma GivenBears(b: Buf, id: nat, seqId: nat)
    requires Bears(b.frags, id)
    ensures Bears(Given(b, seqId), id)
  {
    TakingSplits(b.frags, seqId);
  }

  lemma AnswerFor(cfg: Config, b: Buf, i: nat, seqId: nat, ts: nat, late: bool, q: nat)
    requires cfg.mode == SequenceID && Bears(b.frags, i)
    ensures PlainsFor(Answer(cfg, b, i, seqId, ts, late), q) == if q == i then Given(b, seqId) else []
  {
    assert Answer(cfg, b, i, seqId, ts, late) == Plains(Given(b, seqId));
    GivenBears(b, i, seqId);
    PlainsForOwn(Given(b, seqId), i, q);
  }

  lemma AnswersFor(cfg: Config, bufs: map<nat, Buf>, ids: seq<nat>, seqId: nat, ts: nat, late: set<(nat, nat)>, q: nat)
    requires cfg.mode == SequenceID && AllBear(bufs) && Increasing(ids) && forall i :: i in ids ==> i in bufs
    ensures PlainsFor(AnswersOf(cfg, bufs, ids, seqId, ts, late), q) == if q in ids then Given(bufs[q], seqId) else []
  {
    forall i | i in ids
      ensures PlainsFor(AnswerOf(cfg, bufs, i, seqId, ts, late), q) == if q == i then Given(bufs[i], seqId) else []
    {
      AnswerFor(cfg, bufs[i], i, seqId, ts, (seqId, i) in late, q);
    }
    CollectAnswers(cfg, bufs, ids, seqId, ts, late, FragmentIn(q), q);
  }

  lemma OwnIsLast(bufs: map<nat, Buf>, front: seq<nat>, last: nat, q: nat)
    requires AllBear(bufs) && last in bufs && forall i :: i in front ==> i in bufs
    ensures PlainsFor(Everything(bufs, front) + Plains(bufs[last].frags), q)
            == PlainsFor(Everything(bufs, front), q) + if q == last then bufs[last].frags else []
  {
    PlainsForOwn(bufs[last].frags, last, q);
    PlainsForMore(Everything(bufs, front), Plains(bufs[last].frags), q);
  }

  lemma {:induction false} EverythingFor(bufs: map<nat, Buf>, ids: seq<nat>, q: nat)
    requires AllBear(bufs) && Increasing(ids) && forall i :: i in ids ==> i in bufs
    ensures PlainsFor(Everything(bufs, ids), q) == if q in ids then bufs[q].frags else []
  {
    if ids != [] {
      var front, last := ids[..|ids| - 1], ids[|ids| - 1];
      LastIsNew(ids, q);
      EverythingFor(bufs, front, q);
      OwnIsLast(bufs, front, last, q);
      EitherOne(q in front, q == last, if q == last then bufs[last].frags else [],
        PlainsFor(Everything(bufs, front), q));
    }
  }

  // The sequence ID after the newest fragment of a data buffer.
  function Above(b: Buf): nat {
    if b.frags == [] then 0 else b.frags[|b.frags| - 1].seqId + 1
  }

  // The counter ends just above the newest fragments, or where it was.
  lemma {:induction false} NextIsAfterTheNewest(bufs: map<nat, Buf>, ids: seq<nat>, next: nat)
    requires forall id :: id in ids ==> id in bufs
    ensures var n := NextAfter(bufs, ids, next);
            n >= next && (forall id :: id in ids ==> Above(bufs[id]) <= n)
              && (n == next || exists id :: id in ids && Above(bufs[id]) == n)
  {
    if ids != [] {
      var front, last := ids[..|ids| - 1], ids[|ids| - 1];
      NextIsAfterTheNewest(bufs, front, next);
      assert forall id :: id in ids <==> id in front || id == last;
    }
  }

  // ---------------------------------------------------------------- conservation

  // What was handed out and what is held arrived, each fragment at most once; without limits it is all that arrived -
  // and in Ignored mode, where only circular mode makes room, in that order.
  ghost predicate Conserved(cfg: Config, given: seq<Fragment>, held: seq<Fragment>, arrived: seq<Fragment>) {
    && multiset(given) + multiset(held) <= multiset(arrived)
    && (Unlimited(cfg) ==> multiset(given) + multiset(held) == multiset(arrived))
    && (cfg.mode == Ignored && (Unlimited(cfg) || !cfg.circular) ==> given + held == arrived)
  }

  lemma ReceiveConserves(cfg: Config, b: Buf, given: seq<Fragment>, arrived: seq<Fragment>, fs: seq<Fragment>)
    requires DepthsExact(b) && cfg.mode != Single && fs != [] && Conserved(cfg, given, b.frags, arrived)
    ensures Conserved(cfg, given, Receive(cfg, b, fs).frags, arrived + fs)
  {
    SurvivorsAreLongestSuffix(cfg, b);
    PrunedIsPart(b, DropOverLimit(cfg, b));
    if Unlimited(cfg) { NothingToDrop(cfg, b); }
    Joined(given, b.frags, fs);
  }

  lemma CheckConserves(cfg: Config, b: Buf, given: seq<Fragment>, arrived: seq<Fragment>)
    requires DepthsExact(b) && Conserved(cfg, given, b.frags, arrived)
    ensures Conserved(cfg, given, Check(cfg, b).frags, arrived)
  {
    CheckPrunes(cfg, b);
    PrunedIsPart(b, Check(cfg, b));
    if Unlimited(cfg) { NothingToDrop(cfg, b); }
  }

  lemma {:induction false} TakingConserves(s: seq<Fragment>, seqId: nat)
    ensures multiset(Matching(s, seqId)) + multiset(Others(s, seqId)) == multiset(s)
  {
    if s != [] {
      TakingConserves(s[1..], seqId);
      assert s == [s[0]] + s[1..];
    }
  }

  // And in the order in which they came.
  lemma {:induction false} TakingKeepsOrder(s: seq<Fragment>, t: seq<Fragment>, seqId: nat)
    ensures Matching(s + t, seqId) == Matching(s, seqId) + Matching(t, seqId)
    ensures Others(s + t, seqId) == Others(s, seqId) + Others(t, seqId)
  {
    if s == [] {
      assert s + t == t;
    } else {
      assert (s + t)[1..] == s[1..] + t;
      TakingKeepsOrder(s[1..], t, seqId);
      Joined(if s[0].seqId == seqId then [s[0]] else [], Matching(s[1..], seqId), Matching(t, seqId));
      Joined(if s[0].seqId == seqId then [] else [s[0]], Others(s[1..], seqId), Others(t, seqId));
    }
  }

  lemma GivingConserves(cfg: Config, b: Buf, given: seq<Fragment>, arrived: seq<Fragment>, seqId: nat, ts: nat,
                        late: bool)
    requires cfg.mode == SequenceID && Conserved(cfg, given, b.frags, arrived)
    ensures Conserved(cfg, given + Given(b, seqId), AnsweredBuf(cfg, b, seqId, ts, late).frags, arrived)
  {
    TakingConserves(b.frags, seqId);
    TakingSplits(b.frags, seqId);
  }

  // ---------------------------------------------------------------- steps

  ghost predicate Inv(cfg: Config, p: Pipe, id: nat, arrived: seq<Fragment>) {
    id in p.bufs && AllBear(p.bufs) && Conserved(cfg, PlainsFor(p.out, id), p.bufs[id].frags, arrived)
  }

  lemma AdvanceKeepsInv(cfg: Config, p: Pipe, q: Pipe, id: nat, arrived: seq<Fragment>)
    requires Inv(cfg, p, id, arrived) && Advanced(p, q)
    ensures Inv(cfg, q, id, arrived)
  {
    forall i | i in q.bufs ensures q.bufs[i].frags == p.bufs[i].frags {
      assert q.bufs[i] == Trimmed(p.bufs[i], p.next, q.next);
    }
  }

  lemma AnswersBear(cfg: Config, bufs: map<nat, Buf>, seqId: nat, ts: nat, late: set<(nat, nat)>)
    requires cfg.mode == SequenceID && AllBear(bufs)
    ensures AllBear(AnsweredBufs(cfg, bufs, seqId, ts, late))
  {
    forall i | i in bufs ensures Bears(AnsweredBuf(cfg, bufs[i], seqId, ts, (seqId, i) in late).frags, i) {
      AnsweredKeepsOwn(cfg, bufs[i], seqId, ts, (seqId, i) in late);
    }
  }

  lemma AnswerAllKeepsInv(cfg: Config, p: Pipe, seqId: nat, ts: nat, late: set<(nat, nat)>, id: nat,
                          arrived: seq<Fragment>)
    requires cfg.mode == SequenceID && Inv(cfg, p, id, arrived)
    ensures Inv(cfg, AnswerAll(cfg, p, seqId, ts, late), id, arrived)
  {
    var ids := Sorted(p.bufs.Keys);
    AnswersBear(cfg, p.bufs, seqId, ts, late);
    AnswersFor(cfg, p.bufs, ids, seqId, ts, late, id);
    PlainsForMore(p.out, AnswersOf(cfg, p.bufs, ids, seqId, ts, late), id);
    GivingConserves(cfg, p.bufs[id], PlainsFor(p.out, id), arrived, seqId, ts, (seqId, id) in late);
  }

  lemma {:induction false} ServeEachKeepsInv(cfg: Config, p: Pipe, reqs: map<nat, nat>, ids: seq<nat>,
                                             late: set<(nat, nat)>, expired: set<nat>,
                                             id: nat, arrived: seq<Fragment>)
    requires cfg.mode == SequenceID && Inv(cfg, p, id, arrived) && forall k :: k in ids ==> k in reqs
    ensures Inv(cfg, ServeEach(cfg, p, reqs, ids, late, expired), id, arrived)
    decreases |ids|
  {
    if ids != [] {
      FirstIsIn(ids);
      var a := AnswerAll(cfg, p, ids[0], reqs[ids[0]], late);
      AnswerAllKeepsInv(cfg, p, ids[0], reqs[ids[0]], late, id, arrived);
      CheckSentAdvances(a, ids[0], expired);
      AdvanceKeepsInv(cfg, a, CheckSent(a, ids[0], expired), id, arrived);
      ServeEachKeepsInv(cfg, CheckSent(a, ids[0], expired), reqs, ids[1..], late, expired, id, arrived);
    }
  }

  lemma PassKeepsInv(cfg: Config, p: Pipe, late: set<(nat, nat)>, expired: set<nat>, expiredLater: set<nat>, id: nat,
                     arrived: seq<Fragment>)
    requires cfg.mode == SequenceID && Inv(cfg, p, id, arrived)
    ensures Inv(cfg, WindowPass(cfg, p, late, expired, expiredLater), id, arrived)
  {
    var ids := Sorted(p.rb.requests.Keys);
    ServeEachKeepsInv(cfg, p, p.rb.requests, ids, late, expired, id, arrived);
    var q := ServeEach(cfg, p, p.rb.requests, ids, late, expired);
    CheckEachAdvances(q, Sorted(AllSent(q.bufs)), expiredLater);
    AdvanceKeepsInv(cfg, q, CheckEach(q, Sorted(AllSent(q.bufs)), expiredLater), id, arrived);
  }

  lemma DrainKeepsInv(cfg: Config, p: Pipe, id: nat, arrived: seq<Fragment>)
    requires Inv(cfg, p, id, arrived)
    ensures Inv(cfg, IgnoredPass(p), id, arrived)
  {
    var ids := Sorted(p.bufs.Keys);
    EverythingFor(p.bufs, ids, id);
    PlainsForMore(p.out, Everything(p.bufs, ids), id);
  }

  lemma ReceiveBears(cfg: Config, b: Buf, id: nat, fs: seq<Fragment>)
    requires DepthsExact(b) && fs != [] && Bears(b.frags, id) && Bears(fs, id)
    ensures Bears(Receive(cfg, b, fs).frags, id)
  {
    SurvivorsAreLongestSuffix(cfg, b);
    PrunedIsPart(b, DropOverLimit(cfg, b));
  }

  lemma ArriveKeepsInv(cfg: Config, p: Pipe, i: nat, fs: seq<Fragment>, id: nat, arrived: seq<Fragment>)
    requires Inv(cfg, p, id, arrived) && AllExact(p.bufs) && cfg.mode != Single && Bears(fs, i)
    ensures Inv(cfg, Step(cfg, p, Arrive(i, fs)), id, arrived + if i == id then fs else [])
  {
    assert arrived + [] == arrived;
    if i in p.bufs && fs != [] {
      ReceiveBears(cfg, p.bufs[i], i, fs);
      if i == id { ReceiveConserves(cfg, p.bufs[id], PlainsFor(p.out, id), arrived, fs); }
      OneChangedKeepsInv(cfg, p, i, Receive(cfg, p.bufs[i], fs), id, arrived, arrived + if i == id then fs else []);
    }
  }

  lemma OneChangedKeepsInv(cfg: Config, p: Pipe, i: nat, r: Buf, id: nat, arrived: seq<Fragment>, more: seq<Fragment>)
    requires Inv(cfg, p, id, arrived) && Bears(r.frags, i)
    requires if i == id then Conserved(cfg, PlainsFor(p.out, id), r.frags, more) else more == arrived
    ensures Inv(cfg, p.(bufs := p.bufs[i := r]), id, more)
  {
  }

  lemma PruneKeepsInv(cfg: Config, p: Pipe, id: nat, arrived: seq<Fragment>)
    requires Inv(cfg, p, id, arrived) && AllExact(p.bufs)
    ensures Inv(cfg, p.(bufs := Checked(cfg, p.bufs)), id, arrived)
  {
    CheckConserves(cfg, p.bufs[id], PlainsFor(p.out, id), arrived);
    forall i | i in p.bufs ensures Bears(Check(cfg, p.bufs[i]).frags, i) {
      CheckPrunes(cfg, p.bufs[i]);
      PrunedIsPart(p.bufs[i], Check(cfg, p.bufs[i]));
    }
  }

  // ---------------------------------------------------------------- whole runs

  lemma PassIs(cfg: Config, p: Pipe, op: Op)
    requires (cfg.mode == SequenceID || cfg.mode == Ignored) && op.Pass?
    ensures Step(cfg, p, op)
            == if cfg.mode == Ignored then IgnoredPass(p) else WindowPass(cfg, p, op.late, op.expired, op.expiredLater)
  {
  }

  lemma AnyPassKeepsInv(cfg: Config, p: Pipe, q: Pipe, op: Op, id: nat, arrived: seq<Fragment>)
    requires (cfg.mode == SequenceID || cfg.mode == Ignored) && Inv(cfg, p, id, arrived) && op.Pass?
    requires q == if cfg.mode == Ignored then IgnoredPass(p)
            else WindowPass(cfg, p, op.late, op.expired, op.expiredLater)
    ensures Inv(cfg, q, id, arrived)
  {
    if cfg.mode == Ignored { DrainKeepsInv(cfg, p, id, arrived); }
    else { PassKeepsInv(cfg, p, op.late, op.expired, op.expiredLater, id, arrived); }
  }

  lemma StepKeepsInv(cfg: Config, p: Pipe, op: Op, id: nat, arrived: seq<Fragment>)
    requires cfg.mode == SequenceID || cfg.mode == Ignored
    requires Inv(cfg, p, id, arrived) && AllExact(p.bufs) && (op.Arrive? ==> Bears(op.fs, op.id))
    ensures Inv(cfg, Step(cfg, p, op), id, arrived + if op.Arrive? && op.id == id then op.fs else [])
  {
    assert arrived + [] == arrived;
    match op
    case Push(_, _) =>
    case Arrive(i, fs) => ArriveKeepsInv(cfg, p, i, fs, id, arrived);
    case Prune => PruneKeepsInv(cfg, p, id, arrived);
    case Pass(_, _, _) =>
      PassIs(cfg, p, op);
      AnyPassKeepsInv(cfg, p, Step(cfg, p, op), op, id, arrived);
  }

  lemma {:induction false} RunKeepsInv(cfg: Config, ids: set<nat>, increment: nat, ops: seq<Op>, id: nat)
    requires (cfg.mode == SequenceID || cfg.mode == Ignored) && LatestRuns.SortedById(ops) && id in ids
    ensures Inv(cfg, Run(cfg, ids, increment, ops), id, ArrivedFor(ops, id))
  {
    if ops != [] {
      var front := ops[..|ops| - 1];
      RunKeepsInv(cfg, ids, increment, front, id);
      DepthsStayExact(cfg, ids, increment, front);
      StepKeepsInv(cfg, Run(cfg, ids, increment, front), ops[|ops| - 1], id, ArrivedFor(front, id));
    }
  }

  // SequenceID and Ignored mode, over any run: no fragment is handed out twice or handed out and kept, none is made up,
  // and without limits each one that arrived was handed out or is still held. In Ignored mode, unless room is made in
  // circular mode, all are, whatever the limits, in the order of arrival.
  lemma FragmentsAreConserved(cfg: Config, ids: set<nat>, increment: nat, ops: seq<Op>, id: nat)
    requires (cfg.mode == SequenceID || cfg.mode == Ignored) && LatestRuns.SortedById(ops) && id in ids
    ensures var p := Run(cfg, ids, increment, ops);
            id in p.bufs && Conserved(cfg, PlainsFor(p.out, id), p.bufs[id].frags, ArrivedFor(ops, id))
  {
    RunKeepsInv(cfg, ids, increment, ops, id);
  }

  // ---------------------------------------------------------------- each request, each pass

  // From a to b request k takes its fragments from the data buffer of id, unless it has taken some before; the highest
  // request seen is the greatest that has asked, whether or not it found any.
  ghost predicate TakesItsOwn(a: Pipe, b: Pipe, k: nat, id: nat) {
    && id in a.bufs && id in b.bufs
    && var s, asks := a.bufs[id].frags, k !in a.bufs[id].sent;
       && PlainsFor(b.out, id) == PlainsFor(a.out, id) + (if asks then Matching(s, k) else [])
       && b.bufs[id].frags == (if asks then Others(s, k) else s)
       && b.bufs[id].highest == if k > a.bufs[id].highest then k else a.bufs[id].highest
  }

  lemma AskedTakes(cfg: Config, a: Pipe, k: nat, ts: nat, late: set<(nat, nat)>, id: nat)
    requires cfg.mode == SequenceID && id in a.bufs && AllBear(a.bufs)
    ensures TakesItsOwn(a, AnswerAll(cfg, a, k, ts, late), k, id)
  {
    var ids := Sorted(a.bufs.Keys);
    AnswersFor(cfg, a.bufs, ids, k, ts, late, id);
    PlainsForMore(a.out, AnswersOf(cfg, a.bufs, ids, k, ts, late), id);
    TakingSplits(a.bufs[id].frags, k);
  }

  lemma ServeTakes(cfg: Config, a: Pipe, k: nat, ts: nat, late: set<(nat, nat)>, expired: set<nat>, id: nat)
    requires cfg.mode == SequenceID && id in a.bufs && AllBear(a.bufs)
    ensures TakesItsOwn(a, Serve(cfg, a, k, ts, late, expired), k, id)
  {
    var m := AnswerAll(cfg, a, k, ts, late);
    AskedTakes(cfg, a, k, ts, late, id);
    CheckSentAdvances(m, k, expired);
    assert CheckSent(m, k, expired).bufs[id] == Trimmed(m.bufs[id], m.next, CheckSent(m, k, expired).next);
  }

  // In every reachable state of SequenceID mode, for each request of a pass in turn, whatever its timestamp.
  lemma EachRequestTakesItsOwn(cfg: Config, ids: set<nat>, increment: nat, ops: seq<Op>, late: set<(nat, nat)>,
                               expired: set<nat>, n: nat, id: nat)
    requires cfg.mode == SequenceID && LatestRuns.SortedById(ops) && id in ids
    requires n < |Sorted(Run(cfg, ids, increment, ops).rb.requests.Keys)|
    ensures var p := Run(cfg, ids, increment, ops);
            TakesItsOwn(Midway(cfg, p, late, expired, n), Midway(cfg, p, late, expired, n + 1),
                        Sorted(p.rb.requests.Keys)[n], id)
  {
    var p := Run(cfg, ids, increment, ops);
    RunKeepsInv(cfg, ids, increment, ops, id);
    MidwayBears(cfg, p, late, expired, n, id, ArrivedFor(ops, id));
    MidwayNext(cfg, p, late, expired, n);
    ServeTakes(cfg, Midway(cfg, p, late, expired, n), Sorted(p.rb.requests.Keys)[n],
      p.rb.requests[Sorted(p.rb.requests.Keys)[n]], late, expired, id);
  }

  lemma MidwayBears(cfg: Config, p: Pipe, late: set<(nat, nat)>, expired: set<nat>, n: nat, id: nat,
                    arrived: seq<Fragment>)
    requires cfg.mode == SequenceID && Inv(cfg, p, id, arrived) && n <= |Sorted(p.rb.requests.Keys)|
    ensures Inv(cfg, Midway(cfg, p, late, expired, n), id, arrived)
  {
    var ks := Sorted(p.rb.requests.Keys);
    assert forall i :: i in ks[..n] ==> i in ks;
    ServeEachKeepsInv(cfg, p, p.rb.requests, ks[..n], late, expired, id, arrived);
  }

  lemma {:induction false} EverythingComesInOrder(bufs: map<nat, Buf>, ids: seq<nat>)
    requires AllBear(bufs) && Increasing(ids) && forall id :: id in ids ==> id in bufs
    ensures LatestRuns.InIdOrder(Everything(bufs, ids), ids)
  {
    if ids != [] {
      var front, last := ids[..|ids| - 1], ids[|ids| - 1];
      assert ids == front + [last] && last in ids;
      EverythingComesInOrder(bufs, front);
      LatestRuns.OrderOfMore(Everything(bufs, front), Plains(bufs[last].frags), front, last);
    }
  }

  // A pass of Ignored mode empties all data buffers and leaves the counter just above the newest fragment of one of
  // them, or where it was.
  lemma IgnoredPassIsExact(cfg: Config, p: Pipe, late: set<(nat, nat)>, expired: set<nat>, expiredLater: set<nat>)
    requires cfg.mode == Ignored
    ensures var q := Step(cfg, p, Pass(late, expired, expiredLater));
            && q.next >= p.next && q.bufs.Keys == p.bufs.Keys && q.rb == p.rb && q.passed == p.passed
            && (forall id :: id in p.bufs ==> q.bufs[id].frags == [] && Above(p.bufs[id]) <= q.next)
            && (q.next == p.next || exists id :: id in p.bufs && Above(p.bufs[id]) == q.next)
  {
    NextIsAfterTheNewest(p.bufs, Sorted(p.bufs.Keys), p.next);
  }
}
