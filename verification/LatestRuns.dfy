/** Single and Buffer mode over whole runs: one output per fragment ID and sequence ID, without gaps or repetitions. */
module LatestRuns {
  import opened Ordered
  import opened DataBuffers
  import opened Pipeline
  import BufferMode
  import Requests

  function IdOf(o: Output): nat {
    match o
    case Container(_, id, _, _, _) => id
    case EmptyFragment(_, id) => id
    case Copy(_, id, _, _) => id
    case Plain(f) => f.id
  }

  function SeqIdOf(o: Output): nat {
    match o
    case Container(s, _, _, _, _) => s
    case EmptyFragment(s, _) => s
    case Copy(s, _, _, _) => s
    case Plain(f) => f.seqId
  }

  // The sequence IDs of the outputs for one fragment ID, in order.
  function NumberOf(id: nat): Output -> seq<nat> {
    (o: Output) => if IdOf(o) == id then [SeqIdOf(o)] else []
  }

  function Numbers(out: seq<Output>, id: nat): seq<nat> {
    Collect(out, NumberOf(id))
  }

  // 1, 2, ..., n
  function FirstN(n: nat): seq<nat> {
    seq(n, i => i + 1)
  }

  lemma NumbersOfMore(out: seq<Output>, more: seq<Output>, id: nat)
    ensures Numbers(out + more, id) == Numbers(out, id) + Numbers(more, id)
  {
    CollectMore(out, more, NumberOf(id));
  }

  lemma NumbersOfOne(o: Output, id: nat)
    ensures Numbers([o], id) == if IdOf(o) == id then [SeqIdOf(o)] else []
  {
    CollectOne(o, NumberOf(id));
  }

  // In Single mode a buffer holds at most its newest fragment; its fragments bear its ID.
  ghost predicate Answerable(cfg: Config, b: Buf, id: nat) {
    && DepthsExact(b)
    && (forall f :: f in b.frags ==> f.id == id)
    && (cfg.mode == Single ==> |b.frags| <= 1)
  }

  lemma OneAnswer(cfg: Config, b: Buf, id: nat, seqId: nat, ts: nat, late: bool, q: nat)
    requires Answerable(cfg, b, id) && (cfg.mode == Single || cfg.mode == Buffer)
    ensures Numbers(Answer(cfg, b, id, seqId, ts, late), q) == if q == id then [seqId] else []
  {
    var a := Answer(cfg, b, id, seqId, ts, late);
    assert |a| == 1 && IdOf(a[0]) == id && SeqIdOf(a[0]) == seqId by {
      if cfg.mode == Single && b.depthFrags > 0 { assert b.frags[0] in b.frags; }
    }
    assert a == [a[0]];
    NumbersOfOne(a[0], q);
  }

  ghost predicate AllAnswerable(cfg: Config, bufs: map<nat, Buf>) {
    forall id :: id in bufs ==> Answerable(cfg, bufs[id], id)
  }

  lemma OneAnswerEach(cfg: Config, bufs: map<nat, Buf>, ids: seq<nat>, seqId: nat, ts: nat, late: set<(nat, nat)>,
                      q: nat)
    requires cfg.mode == Single || cfg.mode == Buffer
    requires Increasing(ids) && AllAnswerable(cfg, bufs) && forall id :: id in ids ==> id in bufs
    ensures Numbers(AnswersOf(cfg, bufs, ids, seqId, ts, late), q) == if q in ids then [seqId] else []
  {
    forall i | i in ids ensures Numbers(AnswerOf(cfg, bufs, i, seqId, ts, late), q) == if q == i then [seqId] else [] {
      OneAnswer(cfg, bufs[i], i, seqId, ts, (seqId, i) in late, q);
    }
    CollectAnswers(cfg, bufs, ids, seqId, ts, late, NumberOf(q), q);
  }

  // The outputs come in the order of their fragment IDs, all among ids.
  ghost predicate InIdOrder(out: seq<Output>, ids: seq<nat>) {
    && (forall o :: o in out ==> IdOf(o) in ids)
    && forall i, j :: 0 <= i < j < |out| ==> IdOf(out[i]) <= IdOf(out[j])
  }

  lemma OrderOfMore(out: seq<Output>, more: seq<Output>, ids: seq<nat>, last: nat)
    requires InIdOrder(out, ids) && Increasing(ids + [last]) && forall o :: o in more ==> IdOf(o) == last
    ensures InIdOrder(out + more, ids + [last])
  {
    forall i, j | 0 <= i < j < |out + more| ensures IdOf((out + more)[i]) <= IdOf((out + more)[j]) {
      if i < |out| <= j {
        var k :| 0 <= k < |ids| && ids[k] == IdOf(out[i]);
        assert (ids + [last])[k] < (ids + [last])[|ids|] && more[j - |out|] in more;
      } else if |out| <= i {
        assert more[i - |out|] in more && more[j - |out|] in more;
      }
    }
  }

  lemma {:induction false} AnswersComeInOrder(cfg: Config, bufs: map<nat, Buf>, ids: seq<nat>, seqId: nat, ts: nat,
                                              late: set<(nat, nat)>)
    requires Increasing(ids) && forall id :: id in ids ==> id in bufs && forall f :: f in bufs[id].frags ==> f.id == id
    ensures InIdOrder(AnswersOf(cfg, bufs, ids, seqId, ts, late), ids)
  {
    if ids != [] {
      var front, last := ids[..|ids| - 1], ids[|ids| - 1];
      assert ids == front + [last] && last in ids;
      AnswersComeInOrder(cfg, bufs, front, seqId, ts, late);
      AnswerBearsId(cfg, bufs[last], last, seqId, ts, (seqId, last) in late);
      OrderOfMore(AnswersOf(cfg, bufs, front, seqId, ts, late), AnswerOf(cfg, bufs, last, seqId, ts, late), front,
        last);
    }
  }

  lemma AnswerBearsId(cfg: Config, b: Buf, id: nat, seqId: nat, ts: nat, late: bool)
    requires forall f :: f in b.frags ==> f.id == id
    ensures forall o :: o in Answer(cfg, b, id, seqId, ts, late) ==> IdOf(o) == id
  {
    if cfg.mode == SequenceID {
      MatchingIsPart(b.frags, seqId);
    }
  }

  lemma {:induction false} MatchingIsPart(s: seq<Fragment>, seqId: nat)
    ensures forall f :: f in Matching(s, seqId) ==> f in s
  {
    if s != [] { MatchingIsPart(s[1..], seqId); }
  }

  lemma LastEmpty(ids: seq<nat>, seqId: nat)
    requires ids != []
    ensures var all, last := Empties(ids, seqId), ids[|ids| - 1];
            |all| == |ids| && all[..|ids| - 1] == Empties(ids[..|ids| - 1], seqId)
              && all[|ids| - 1] == EmptyFragment(seqId, last)
  {
  }

  lemma {:induction false} OneEmptyEach(ids: seq<nat>, seqId: nat, q: nat)
    requires Increasing(ids)
    ensures Numbers(Empties(ids, seqId), q) == if q in ids then [seqId] else []
  {
    if ids != [] {
      var front, last := ids[..|ids| - 1], ids[|ids| - 1];
      LastIsNew(ids, q);
      OneEmptyEach(front, seqId, q);
      LastEmpty(ids, seqId);
    }
  }

  // ---------------------------------------------------------------- the invariant

  // The outputs for id bear increasing numbers below next - all of them when missing fragments are sent.
  ghost predicate Numbered(cfg: Config, out: seq<Output>, next: nat, id: nat) {
    && 1 <= next && Increasing(Numbers(out, id))
    && (forall n :: n in Numbers(out, id) ==> 1 <= n < next)
    && (cfg.sendMissing ==> Numbers(out, id) == FirstN(next - 1))
  }

  lemma OneMore(ns: seq<nat>, next: nat)
    requires Increasing(ns) && 1 <= next && forall n :: n in ns ==> 1 <= n < next
    ensures Increasing(ns + [next]) && forall n :: n in ns + [next] ==> 1 <= n < next + 1
  {
    forall i | 0 <= i < |ns| ensures ns[i] < next { assert ns[i] in ns; }
  }

  lemma FirstNMore(n: nat)
    requires n >= 1
    ensures FirstN(n) == FirstN(n - 1) + [n]
  {
  }

  lemma NumberedMore(cfg: Config, out: seq<Output>, next: nat, id: nat, more: seq<Output>)
    requires Numbered(cfg, out, next, id)
    requires Numbers(more, id) == [next] || (!cfg.sendMissing && Numbers(more, id) == [])
    ensures Numbered(cfg, out + more, next + 1, id)
  {
    NumbersOfMore(out, more, id);
    OneMore(Numbers(out, id), next);
    FirstNMore(next);
    assert Numbers(out, id) + [] == Numbers(out, id);
  }

  lemma SkipOneKeepsNumbered(cfg: Config, p: Pipe, id: nat)
    requires id in p.bufs && Numbered(cfg, p.out, p.next, id)
    ensures Numbered(cfg, SkipOne(cfg, p).out, p.next + 1, id)
  {
    OneEmptyEach(Sorted(p.bufs.Keys), p.next, id);
    NumberedMore(cfg, p.out, p.next, id, Missed(cfg, p));
  }

  lemma {:induction false} SkipKeepsNumbered(cfg: Config, p: Pipe, target: nat, id: nat)
    requires id in p.bufs && Numbered(cfg, p.out, p.next, id)
    ensures var q := SkipTo(cfg, p, target);
            && q.bufs == p.bufs && q.rb == p.rb && Numbered(cfg, q.out, q.next, id)
            && q.next == if target > p.next then target else p.next
    decreases target - p.next
  {
    if target > p.next {
      SkipOneKeepsNumbered(cfg, p, id);
      SkipKeepsNumbered(cfg, SkipOne(cfg, p), target, id);
    }
  }

  lemma AnsweredStaysAnswerable(cfg: Config, b: Buf, id: nat, seqId: nat, ts: nat, late: bool)
    requires Answerable(cfg, b, id) && (cfg.mode == Single || cfg.mode == Buffer)
    ensures Answerable(cfg, AnsweredBuf(cfg, b, seqId, ts, late), id)
  {
    if cfg.mode == Buffer { BufferMode.ResponseKeepsDepths(cfg, b); }
  }

  lemma AnsweredStayAnswerable(cfg: Config, bufs: map<nat, Buf>, seqId: nat, ts: nat, late: set<(nat, nat)>)
    requires (cfg.mode == Single || cfg.mode == Buffer) && AllAnswerable(cfg, bufs)
    ensures AllAnswerable(cfg, AnsweredBufs(cfg, bufs, seqId, ts, late))
    ensures AnsweredBufs(cfg, bufs, seqId, ts, late).Keys == bufs.Keys
  {
    forall i | i in bufs ensures Answerable(cfg, AnsweredBuf(cfg, bufs[i], seqId, ts, (seqId, i) in late), i) {
      AnsweredStaysAnswerable(cfg, bufs[i], i, seqId, ts, (seqId, i) in late);
    }
  }

  lemma RespondKeepsNumbered(cfg: Config, p: Pipe, ts: nat, id: nat)
    requires cfg.mode == Single || cfg.mode == Buffer
    requires AllAnswerable(cfg, p.bufs) && id in p.bufs && Numbered(cfg, p.out, p.next, id)
    ensures Numbered(cfg, Respond(cfg, p, ts).out, p.next + 1, id)
  {
    AnswersKeepNumbered(cfg, p.out, p.bufs, p.next, ts, id);
    assert Respond(cfg, p, ts).out == p.out + AnswersOf(cfg, p.bufs, Sorted(p.bufs.Keys), p.next, ts, {});
  }

  lemma RespondKeepsAnswerable(cfg: Config, p: Pipe, ts: nat)
    requires (cfg.mode == Single || cfg.mode == Buffer) && AllAnswerable(cfg, p.bufs)
    ensures var q := Respond(cfg, p, ts);
            AllAnswerable(cfg, q.bufs) && q.bufs.Keys == p.bufs.Keys && q.next == p.next + 1
  {
    AnsweredStayAnswerable(cfg, p.bufs, p.next, ts, {});
  }

  lemma AnswersKeepNumbered(cfg: Config, out: seq<Output>, bufs: map<nat, Buf>, next: nat, ts: nat, id: nat)
    requires cfg.mode == Single || cfg.mode == Buffer
    requires AllAnswerable(cfg, bufs) && id in bufs && Numbered(cfg, out, next, id)
    ensures Numbered(cfg, out + AnswersOf(cfg, bufs, Sorted(bufs.Keys), next, ts, {}), next + 1, id)
  {
    OneAnswerEach(cfg, bufs, Sorted(bufs.Keys), next, ts, {}, id);
    NumberedMore(cfg, out, next, id, AnswersOf(cfg, bufs, Sorted(bufs.Keys), next, ts, {}));
  }

  // The invariant of the two modes.
  ghost predicate Latest(cfg: Config, p: Pipe, ids: set<nat>) {
    p.bufs.Keys == ids && AllAnswerable(cfg, p.bufs) && forall id :: id in ids ==> Numbered(cfg, p.out, p.next, id)
  }

  lemma SkipKeepsLatest(cfg: Config, p: Pipe, ids: set<nat>, rb: Requests.State, target: nat)
    requires Latest(cfg, p, ids)
    ensures Latest(cfg, SkipTo(cfg, p.(rb := rb), target), ids)
  {
    forall id | id in ids
      ensures Numbered(cfg, SkipTo(cfg, p.(rb := rb), target).out, SkipTo(cfg, p.(rb := rb), target).next, id)
    {
      SkipKeepsNumbered(cfg, p.(rb := rb), target, id);
    }
    SkipKeepsBuffers(cfg, p.(rb := rb), target);
  }

  lemma {:induction false} SkipKeepsBuffers(cfg: Config, p: Pipe, target: nat)
    ensures SkipTo(cfg, p, target).bufs == p.bufs
    decreases target - p.next
  {
    if target > p.next {
      SkipKeepsBuffers(cfg, SkipOne(cfg, p), target);
    }
  }

  lemma RespondKeepsLatest(cfg: Config, p: Pipe, ids: set<nat>, ts: nat)
    requires (cfg.mode == Single || cfg.mode == Buffer) && Latest(cfg, p, ids)
    ensures Latest(cfg, Respond(cfg, p, ts), ids)
  {
    RespondKeepsAnswerable(cfg, p, ts);
    forall id | id in ids ensures Numbered(cfg, Respond(cfg, p, ts).out, Respond(cfg, p, ts).next, id) {
      RespondKeepsNumbered(cfg, p, ts, id);
    }
  }

  lemma LatestPassKeepsLatest(cfg: Config, p: Pipe, ids: set<nat>)
    requires (cfg.mode == Single || cfg.mode == Buffer) && Latest(cfg, p, ids)
    ensures Latest(cfg, LatestPass(cfg, p), ids)
  {
    if p.rb.requests != map[] {
      var last := Greatest(p.rb.requests.Keys);
      var rb := RemoveOlder(p.rb);
      SkipKeepsLatest(cfg, p, ids, rb, last);
      RespondKeepsLatest(cfg, SkipTo(cfg, p.(rb := rb), last), ids, p.rb.requests[last]);
    }
  }

  // ---------------------------------------------------------------- what a pass leaves pending

  lemma {:induction false} RemoveEachRemoves(rb: Requests.State, ids: seq<nat>)
    ensures RemoveEach(rb, ids).requests.Keys == set k | k in rb.requests && k !in ids
    ensures forall k :: k in RemoveEach(rb, ids).requests ==> RemoveEach(rb, ids).requests[k] == rb.requests[k]
    decreases |ids|
  {
    if ids != [] {
      var r := Requests.AfterRemove(rb, ids[0]);
      assert r.requests == rb.requests - {ids[0]};
      RemoveEachRemoves(r, ids[1..]);
      assert forall k :: k in ids <==> k == ids[0] || k in ids[1..];
    }
  }

  lemma OnlyLatestPending(rb: Requests.State)
    requires rb.requests != map[]
    ensures RemoveOlder(rb).requests.Keys == {Greatest(rb.requests.Keys)}
  {
    var last := Greatest(rb.requests.Keys);
    RemoveEachRemoves(rb, Sorted(rb.requests.Keys - {last}));
  }

  lemma {:induction false} SkipEndsAt(cfg: Config, p: Pipe, target: nat)
    ensures var q := SkipTo(cfg, p, target);
            q.rb == p.rb && q.next == (if target > p.next then target else p.next) && (target <= p.next ==> q == p)
    decreases target - p.next
  {
    if target > p.next { SkipEndsAt(cfg, SkipOne(cfg, p), target); }
  }

  // A pass answers the latest request, and then none is pending and the counter is just after it, if and only if the
  // counter has not passed it; otherwise that request stays pending and nothing is sent.
  lemma LatestIsAnsweredIff(cfg: Config, p: Pipe)
    requires (cfg.mode == Single || cfg.mode == Buffer) && p.rb.requests != map[]
    ensures var last, q := Greatest(p.rb.requests.Keys), LatestPass(cfg, p);
            && (q.rb.requests == map[] <==> last >= p.next)
            && (last >= p.next ==> q.next == last + 1)
            && (last < p.next ==> q.next == p.next && q.out == p.out && q.rb.requests.Keys == {last})
  {
    var last, q := Greatest(p.rb.requests.Keys), p.(rb := RemoveOlder(p.rb));
    OnlyLatestPending(p.rb);
    SkipEndsAt(cfg, q, last);
    assert Requests.AfterRemove(q.rb, last).requests == q.rb.requests - {last};
    assert last in q.rb.requests;
  }

  // ---------------------------------------------------------------- runs

  // A run in which that happens: request 5 is answered, request 3 comes late, and no pass ever answers it.
  lemma LateRequestStaysPending(cfg: Config, ids: set<nat>, a: nat, b: nat)
    requires cfg.mode == Single || cfg.mode == Buffer
    ensures var p := Run(cfg, ids, 1, [Push(5, a), Pass({}, {}, {}), Push(3, b), Pass({}, {}, {})]);
            p.next == 6 && p.rb.requests.Keys == {3} && LatestPass(cfg, p).rb.requests.Keys == {3}
  {
    var start := FreshPipe(ids, 1);
    var one := start.(rb := Requests.State(1, map[5 := a], 0, 0, {}));
    var two := LatestPass(cfg, one);
    var three := two.(rb := Requests.State(1, map[3 := b], 0, 0, {5}));
    FirstPush(cfg, start, 5, a);
    AnsweredOutOfOrder(cfg, one, a);
    LatestIsAnsweredIff(cfg, one);
    LatePush(two.rb, b);
    LatestIsAnsweredIff(cfg, three);
    LatestIsAnsweredIff(cfg, LatestPass(cfg, three));
    FourSteps(cfg, ids, 1, one, two, three, LatestPass(cfg, three), Push(5, a), Pass({}, {}, {}), Push(3, b),
      Pass({}, {}, {}));
  }

  lemma OneMoreStep(cfg: Config, ids: set<nat>, increment: nat, ops: seq<Op>, p: Pipe, op: Op, q: Pipe)
    requires p == Run(cfg, ids, increment, ops) && q == Step(cfg, p, op)
    ensures Run(cfg, ids, increment, ops + [op]) == q
  {
    assert (ops + [op])[..|ops + [op]| - 1] == ops;
  }

  lemma FourSteps(cfg: Config, ids: set<nat>, increment: nat, p: Pipe, q: Pipe, r: Pipe, s: Pipe, a: Op, b: Op, c: Op,
                  d: Op)
    requires p == Step(cfg, FreshPipe(ids, increment), a) && q == Step(cfg, p, b) && r == Step(cfg, q, c)
    requires s == Step(cfg, r, d)
    ensures Run(cfg, ids, increment, [a, b, c, d]) == s
  {
    assert [] + [a] == [a] && [a] + [b] == [a, b] && [a, b] + [c] == [a, b, c] && [a, b, c] + [d] == [a, b, c, d];
    OneMoreStep(cfg, ids, increment, [], FreshPipe(ids, increment), a, p);
    OneMoreStep(cfg, ids, increment, [a], p, b, q);
    OneMoreStep(cfg, ids, increment, [a, b], q, c, r);
    OneMoreStep(cfg, ids, increment, [a, b, c], r, d, s);
  }

  lemma FirstPush(cfg: Config, p: Pipe, seqId: nat, ts: nat)
    requires p.rb == Requests.Fresh(1) && 0 < seqId < 0x8000_0000
    ensures Step(cfg, p, Push(seqId, ts)) == p.(rb := Requests.State(1, map[seqId := ts], 0, 0, {}))
  {
    assert map[][seqId := ts] == map[seqId := ts];
  }

  lemma LatePush(rb: Requests.State, ts: nat)
    requires rb == Requests.State(1, map[], 0, 0, {5})
    ensures Requests.AfterPush(rb, 3, ts) == Requests.State(1, map[3 := ts], 0, 0, {5})
    ensures Greatest(map[3 := ts].Keys) == 3 && map[3 := ts] != map[]
  {
    assert 3 in map[3 := ts];
    assert map[][3 := ts] == map[3 := ts];
  }

  lemma AnsweredOutOfOrder(cfg: Config, p: Pipe, a: nat)
    requires p.next == 1 && p.rb == Requests.State(1, map[5 := a], 0, 0, {})
    ensures p.rb.requests != map[] && Greatest(p.rb.requests.Keys) == 5
    ensures LatestPass(cfg, p).rb == Requests.State(1, map[], 0, 0, {5})
  {
    assert 5 in p.rb.requests;
    assert p.rb.requests.Keys - {5} == {};
    assert RemoveOlder(p.rb) == p.rb;
    SkipEndsAt(cfg, p, 5);
    assert {} + {5} == {5} && Least({5}) == 5;
    assert map[5 := a] - {5} == map[];
  }

  // Fragments are sorted by their ID before they are added.
  ghost predicate SortedById(ops: seq<Op>) {
    forall i, f :: 0 <= i < |ops| && ops[i].Arrive? && f in ops[i].fs ==> f.id == ops[i].id
  }

  lemma ReceiveStaysAnswerable(cfg: Config, b: Buf, id: nat, fs: seq<Fragment>)
    requires Answerable(cfg, b, id) && fs != [] && forall f :: f in fs ==> f.id == id
    ensures Answerable(cfg, Receive(cfg, b, fs), id)
  {
    ReceiveKeepsDepths(cfg, b, fs);
    SurvivorsAreLongestSuffix(cfg, b);
  }

  lemma PruneStaysAnswerable(cfg: Config, b: Buf, id: nat)
    requires Answerable(cfg, b, id)
    ensures Answerable(cfg, Check(cfg, b), id)
  {
    CheckPrunes(cfg, b);
  }

  lemma StepKeepsLatest(cfg: Config, p: Pipe, op: Op, ids: set<nat>)
    requires (cfg.mode == Single || cfg.mode == Buffer) && Latest(cfg, p, ids)
    requires op.Arrive? ==> forall f :: f in op.fs ==> f.id == op.id
    ensures Latest(cfg, Step(cfg, p, op), ids)
  {
    match op
    case Push(_, _) =>
    case Arrive(i, fs) => if i in p.bufs && fs != [] { ReceiveStaysAnswerable(cfg, p.bufs[i], i, fs); }
    case Prune =>
      forall i | i in p.bufs
        ensures Answerable(cfg, Check(cfg, p.bufs[i]), i)
      {
        PruneStaysAnswerable(cfg, p.bufs[i], i);
      }
    case Pass(_, _, _) => LatestPassKeepsLatest(cfg, p, ids);
  }

  lemma {:induction false} RunIsLatest(cfg: Config, ids: set<nat>, increment: nat, ops: seq<Op>)
    requires (cfg.mode == Single || cfg.mode == Buffer) && SortedById(ops)
    ensures Latest(cfg, Run(cfg, ids, increment, ops), ids)
  {
    if ops != [] {
      RunIsLatest(cfg, ids, increment, ops[..|ops| - 1]);
      StepKeepsLatest(cfg, Run(cfg, ids, increment, ops[..|ops| - 1]), ops[|ops| - 1], ids);
    }
  }

  // Whatever requests arrive or are skipped: with missing fragments sent, the outputs for a fragment ID are numbered
  // exactly 1, 2, ..., next_sequence_id_ - 1; without, they are a strictly increasing part of that.
  lemma OneOutputPerSequenceId(cfg: Config, ids: set<nat>, increment: nat, ops: seq<Op>, id: nat)
    requires (cfg.mode == Single || cfg.mode == Buffer) && id in ids && SortedById(ops)
    ensures var p := Run(cfg, ids, increment, ops);
            && p.next >= 1 && Increasing(Numbers(p.out, id))
              && (forall n :: n in Numbers(p.out, id) ==> 1 <= n < p.next)
            && (cfg.sendMissing ==> Numbers(p.out, id) == FirstN(p.next - 1))
  {
    RunIsLatest(cfg, ids, increment, ops);
    assert Numbered(cfg, Run(cfg, ids, increment, ops).out, Run(cfg, ids, increment, ops).next, id);
  }

  // ---------------------------------------------------------------- Single mode answers with the latest fragment

  function Newest(s: seq<Fragment>): seq<Fragment> {
    if s == [] then [] else [s[|s| - 1]]
  }

  lemma StepKeepsNewest(cfg: Config, p: Pipe, op: Op, id: nat, arrived: seq<Fragment>)
    requires cfg.mode == Single && id in p.bufs && p.bufs[id].frags == Newest(arrived)
    ensures var q := Step(cfg, p, op);
            id in q.bufs && q.bufs[id].frags == Newest(arrived + if op.Arrive? && op.id == id then op.fs else [])
  {
    assert arrived + [] == arrived;
    if op.Pass? && p.rb.requests != map[] {
      SkipKeepsBuffers(cfg, p.(rb := RemoveOlder(p.rb)), Greatest(p.rb.requests.Keys));
    }
  }

  lemma {:induction false} RunHoldsNewest(cfg: Config, ids: set<nat>, increment: nat, ops: seq<Op>, id: nat)
    requires cfg.mode == Single && id in ids
    ensures var p := Run(cfg, ids, increment, ops); id in p.bufs && p.bufs[id].frags == Newest(ArrivedFor(ops, id))
  {
    if ops != [] {
      var front := ops[..|ops| - 1];
      RunHoldsNewest(cfg, ids, increment, front, id);
      StepKeepsNewest(cfg, Run(cfg, ids, increment, front), ops[|ops| - 1], id, ArrivedFor(front, id));
    }
  }

  // In every reachable state, Single mode answers a request with a copy of the latest fragment that arrived for the ID,
  // bearing the sequence ID and timestamp of the request; with an empty fragment if and only if none has arrived.
  lemma SingleAnswersWithTheLatest(cfg: Config, ids: set<nat>, increment: nat, ops: seq<Op>, id: nat, seqId: nat,
                                   ts: nat)
    requires cfg.mode == Single && id in ids && SortedById(ops)
    ensures var p, arrived := Run(cfg, ids, increment, ops), ArrivedFor(ops, id);
            && id in p.bufs
            && Answer(cfg, p.bufs[id], id, seqId, ts, false)
               == if arrived == [] then [EmptyFragment(seqId, id)] else [Copy(seqId, id, ts, arrived[|arrived| - 1])]
  {
    RunHoldsNewest(cfg, ids, increment, ops, id);
    RunIsLatest(cfg, ids, increment, ops);
    var b := Run(cfg, ids, increment, ops).bufs[id];
    assert Answerable(cfg, b, id);
    if b.frags != [] { assert b.frags[0] in b.frags; }
  }
}
