/** The calls that callers make (artdaq/DAQrate/FragmentBuffer.cc:143-210 and 797-878,
    artdaq/DAQrate/RequestBuffer.cc:20-46): runs of them are runs of the steps of Pipeline, and a call of applyRequests
    prunes before it answers. */
module ApplyCalls {
  import opened Ordered
  import opened DataBuffers
  import opened Pipeline
  import opened LatestRuns
  import opened CounterRuns
  import opened Arrivals
  import BufferMode
  import Requests

  datatype Call =
    | PushCall(seqId: nat, ts: nat)
    | AddCall(fs: seq<Fragment>)
    | ApplyCall(late: set<(nat, nat)>, expired: set<nat>, expiredLater: set<nat>)

  ghost predicate Declared(ids: set<nat>, fs: seq<Fragment>) {
    forall f :: f in fs ==> f.system || f.id in ids
  }

  ghost function Called(cfg: Config, p: Pipe, call: Call): Pipe {
    match call
    case PushCall(seqId, ts) => p.(rb := Requests.AfterPush(p.rb, seqId, ts))
    case AddCall(fs) => if Declared(p.bufs.Keys, fs) then p.(bufs := AfterAdd(cfg, p.bufs, fs)) else p
    case ApplyCall(late, expired, expiredLater) => Applied(cfg, p, late, expired, expiredLater)
  }

  ghost function CallRun(cfg: Config, ids: set<nat>, increment: nat, calls: seq<Call>): Pipe {
    if calls == [] then FreshPipe(ids, increment)
    else Called(cfg, CallRun(cfg, ids, increment, calls[..|calls| - 1]), calls[|calls| - 1])
  }

  // The data fragments of one ID in the calls that were accepted.
  ghost function AddedFor(ids: set<nat>, calls: seq<Call>, id: nat): seq<Fragment> {
    if calls == [] then []
    else
      var call := calls[|calls| - 1];
      AddedFor(ids, calls[..|calls| - 1], id)
        + if call.AddCall? && Declared(ids, call.fs) then Own(call.fs, id) else []
  }

  // ---------------------------------------------------------------- runs of calls

  lemma AnyStepKeepsIds(cfg: Config, p: Pipe, op: Op)
    ensures Step(cfg, p, op).bufs.Keys == p.bufs.Keys
  {
    match op
    case Pass(late, expired, expiredLater) =>
      PassKeepsIds(cfg, p, late, expired, expiredLater);
      LatestPassKeepsIds(cfg, p);
    case _ =>
  }

  lemma LatestPassKeepsIds(cfg: Config, p: Pipe)
    ensures LatestPass(cfg, p).bufs.Keys == p.bufs.Keys
  {
    if p.rb.requests != map[] {
      SkipKeepsBuffers(cfg, p.(rb := RemoveOlder(p.rb)), Greatest(p.rb.requests.Keys));
    }
  }

  lemma {:induction false} AnyRunKeepsIds(cfg: Config, ids: set<nat>, increment: nat, ops: seq<Op>)
    ensures Run(cfg, ids, increment, ops).bufs.Keys == ids
  {
    if ops != [] {
      AnyRunKeepsIds(cfg, ids, increment, ops[..|ops| - 1]);
      AnyStepKeepsIds(cfg, Run(cfg, ids, increment, ops[..|ops| - 1]), ops[|ops| - 1]);
    }
  }

  lemma {:induction false} RunThenSteps(cfg: Config, ids: set<nat>, increment: nat, ops: seq<Op>, more: seq<Op>)
    ensures Run(cfg, ids, increment, ops + more) == Steps(cfg, Run(cfg, ids, increment, ops), more)
  {
    if more == [] {
      assert ops + more == ops;
    } else {
      var n := |more| - 1;
      RunThenSteps(cfg, ids, increment, ops, more[..n]);
      assert (ops + more)[..|ops + more| - 1] == ops + more[..n] && (ops + more)[|ops + more| - 1] == more[n];
    }
  }

  lemma {:induction false} ArrivedForMore(ops: seq<Op>, more: seq<Op>, id: nat)
    ensures ArrivedFor(ops + more, id) == ArrivedFor(ops, id) + ArrivedFor(more, id)
  {
    if more == [] {
      assert ops + more == ops;
    } else {
      var n := |more| - 1;
      ArrivedForMore(ops, more[..n], id);
      assert (ops + more)[..|ops + more| - 1] == ops + more[..n] && (ops + more)[|ops + more| - 1] == more[n];
      Joined(ArrivedFor(ops, id), ArrivedFor(more[..n], id), if more[n].Arrive?
        && more[n].id == id then more[n].fs else []);
    }
  }

  lemma {:induction false} ArrivedOnce(ids: seq<nat>, fs: seq<Fragment>, id: nat)
    requires Increasing(ids)
    ensures ArrivedFor(ArrivalsOf(ids, fs), id) == if id in ids then Own(fs, id) else []
  {
    if ids != [] {
      LastIsNew(ids, id);
      ArrivalsBack(ids, fs);
      ArrivedOnce(ids[..|ids| - 1], fs, id);
    }
  }

  lemma SortedMore(ops: seq<Op>, more: seq<Op>)
    requires SortedById(ops) && SortedById(more)
    ensures SortedById(ops + more)
  {
    forall i, f | 0 <= i < |ops + more| && (ops + more)[i].Arrive? && f in (ops + more)[i].fs
      ensures f.id == (ops + more)[i].id
    {
      if i >= |ops| { assert (ops + more)[i] == more[i - |ops|]; }
    }
  }

  ghost function OpsOf(cfg: Config, p: Pipe, call: Call): seq<Op> {
    match call
    case PushCall(seqId, ts) => [Push(seqId, ts)]
    case AddCall(fs) => if Declared(p.bufs.Keys, fs) then ArrivalsOf(Sorted(p.bufs.Keys), fs) else []
    case ApplyCall(late, expired, expiredLater) =>
      if cfg.mode == Ignored then [Pass(late, expired, expiredLater)]
      else [Op.Prune, Pass(late, expired, expiredLater)]
  }

  lemma OneOrTwoSteps(cfg: Config, p: Pipe, a: Op, b: Op)
    ensures Steps(cfg, p, [a]) == Step(cfg, p, a) && Steps(cfg, p, [a, b]) == Step(cfg, Step(cfg, p, a), b)
  {
    assert [a][..0] == [] && [a, b][..1] == [a];
  }

  lemma CallIsSteps(cfg: Config, p: Pipe, call: Call)
    ensures Steps(cfg, p, OpsOf(cfg, p, call)) == Called(cfg, p, call) && SortedById(OpsOf(cfg, p, call))
  {
    match call
    case PushCall(seqId, ts) => OneOrTwoSteps(cfg, p, Push(seqId, ts), Op.Prune);
    case AddCall(fs) => AddIsArrivals(cfg, p, fs);
    case ApplyCall(late, expired, expiredLater) =>
      OneOrTwoSteps(cfg, p, Op.Prune, Pass(late, expired, expiredLater));
      OneOrTwoSteps(cfg, p, Pass(late, expired, expiredLater), Op.Prune);
  }

  lemma CallBrings(cfg: Config, p: Pipe, call: Call, id: nat)
    requires id in p.bufs
    ensures ArrivedFor(OpsOf(cfg, p, call), id)
            == if call.AddCall? && Declared(p.bufs.Keys, call.fs) then Own(call.fs, id) else []
  {
    if call.AddCall? {
      ArrivedOnce(Sorted(p.bufs.Keys), call.fs, id);
    } else {
      var ops := OpsOf(cfg, p, call);
      assert forall i :: 0 <= i < |ops| ==> !ops[i].Arrive?;
      NothingArrives(ops, id);
    }
  }

  lemma {:induction false} NothingArrives(ops: seq<Op>, id: nat)
    requires forall i :: 0 <= i < |ops| ==> !ops[i].Arrive?
    ensures ArrivedFor(ops, id) == []
  {
    if ops != [] { NothingArrives(ops[..|ops| - 1], id); }
  }

  // Any run of calls is a run of steps in which the same fragments arrive, so what is proved about runs of steps holds
  // for what callers do.
  lemma {:induction false} CallsAreSteps(cfg: Config, ids: set<nat>, increment: nat, calls: seq<Call>)
    returns (ops: seq<Op>)
    ensures Run(cfg, ids, increment, ops) == CallRun(cfg, ids, increment, calls) && SortedById(ops)
    ensures forall id :: id in ids ==> ArrivedFor(ops, id) == AddedFor(ids, calls, id)
  {
    ops := [];
    if calls != [] {
      var n := |calls| - 1;
      var p := CallRun(cfg, ids, increment, calls[..n]);
      var front := CallsAreSteps(cfg, ids, increment, calls[..n]);
      var more := OpsOf(cfg, p, calls[n]);
      ops := front + more;
      AnyRunKeepsIds(cfg, ids, increment, front);
      CallIsSteps(cfg, p, calls[n]);
      RunThenSteps(cfg, ids, increment, front, more);
      SortedMore(front, more);
      forall id | id in ids ensures ArrivedFor(ops, id) == AddedFor(ids, calls, id) {
        ArrivedForMore(front, more, id);
        CallBrings(cfg, p, calls[n], id);
      }
    }
  }

  // ---------------------------------------------------------------- pruned before it is answered

  // r is what is left of s: the longest end of it that is within the limits, without the stale fragments at its front.
  ghost predicate WellPruned(cfg: Config, s: seq<Fragment>, r: seq<Fragment>) {
    && |r| <= |s| && r == s[|s| - |r|..] && WithinLimits(cfg, r) && (r != [] ==> !Stale(cfg, r, 0))
    && forall k :: 0 <= k < |s| - |r| ==> !WithinLimits(cfg, s[k..]) || Stale(cfg, s, k)
  }

  lemma CheckedIsWellPruned(cfg: Config, b: Buf)
    requires DepthsExact(b) && cfg.mode != Single && cfg.mode != Ignored
    ensures WellPruned(cfg, b.frags, Check(cfg, b).frags)
  {
    CheckDropsOnlyWhatItMust(cfg, b);
    forall k | 0 <= k < |b.frags| - |Check(cfg, b).frags|
      ensures !WithinLimits(cfg, b.frags[k..]) || Stale(cfg, b.frags, k)
    {
      assert Over(cfg, b.frags[k..]) || Stale(cfg, b.frags, k);
    }
  }

  // A call answers from data buffers that have just been pruned - in Single and Ignored mode from those it finds.
  lemma CallPrunesFirst(cfg: Config, p: Pipe, late: set<(nat, nat)>, expired: set<nat>, expiredLater: set<nat>)
    returns (r: Pipe)
    requires AllExact(p.bufs)
    ensures r == p.(bufs := r.bufs) && r.bufs.Keys == p.bufs.Keys && AllExact(r.bufs)
    ensures forall id :: id in p.bufs ==>
              && r.bufs[id].sent == p.bufs[id].sent && r.bufs[id].highest == p.bufs[id].highest
              && (r.bufs[id].kept ==> p.bufs[id].kept)
              && if cfg.mode == Single || cfg.mode == Ignored then r.bufs[id] == p.bufs[id]
                 else WellPruned(cfg, p.bufs[id].frags, r.bufs[id].frags)
    ensures Called(cfg, p, ApplyCall(late, expired, expiredLater)) == Step(cfg, r, Pass(late, expired, expiredLater))
  {
    r := if cfg.mode == Ignored then p else Step(cfg, p, Op.Prune);
    StepKeepsExact(cfg, p, Op.Prune);
    forall id | id in p.bufs
      ensures r.bufs[id].sent == p.bufs[id].sent && r.bufs[id].highest == p.bufs[id].highest
      ensures r.bufs[id].kept ==> p.bufs[id].kept
      ensures if cfg.mode == Single || cfg.mode == Ignored then r.bufs[id] == p.bufs[id]
              else WellPruned(cfg, p.bufs[id].frags, r.bufs[id].frags)
    {
      CheckPrunes(cfg, p.bufs[id]);
      if cfg.mode != Single && cfg.mode != Ignored { CheckedIsWellPruned(cfg, p.bufs[id]); }
    }
  }

  // ---------------------------------------------------------------- containers of Buffer mode

  // The container holds what its data buffer responds with.
  predicate Responds(bufs: map<nat, Buf>, o: Output) {
    o.Container? ==> o.id in bufs && o.content == BufferMode.ResponseContent(bufs[o.id])
  }

  lemma {:induction false} AnswersRespond(cfg: Config, bufs: map<nat, Buf>, ids: seq<nat>, seqId: nat, ts: nat)
    requires cfg.mode == Buffer && forall id :: id in ids ==> id in bufs
    ensures forall o :: o in AnswersOf(cfg, bufs, ids, seqId, ts, {}) ==> Responds(bufs, o)
  {
    if ids != [] { AnswersRespond(cfg, bufs, ids[..|ids| - 1], seqId, ts); }
  }

  ghost predicate RespondsSince(bufs: map<nat, Buf>, before: seq<Output>, after: seq<Output>) {
    before <= after && forall i :: |before| <= i < |after| ==> Responds(bufs, after[i])
  }

  lemma {:induction false} SkippingSendsNoContainer(cfg: Config, p: Pipe, target: nat, bufs: map<nat, Buf>)
    ensures RespondsSince(bufs, p.out, SkipTo(cfg, p, target).out)
    decreases target - p.next
  {
    if target > p.next {
      assert RespondsSince(bufs, p.out, SkipOne(cfg, p).out);
      SkippingSendsNoContainer(cfg, SkipOne(cfg, p), target, bufs);
    }
  }

  lemma LatestPassResponds(cfg: Config, r: Pipe)
    requires cfg.mode == Buffer
    ensures RespondsSince(r.bufs, r.out, LatestPass(cfg, r).out)
  {
    if r.rb.requests != map[] {
      var last, ts, q := Greatest(r.rb.requests.Keys), r.rb.requests[Greatest(r.rb.requests.Keys)],
                         r.(rb := RemoveOlder(r.rb));
      var m := SkipTo(cfg, q, last);
      SkippingSendsNoContainer(cfg, q, last, r.bufs);
      SkipKeepsBuffers(cfg, q, last);
      AnswersRespond(cfg, r.bufs, Sorted(r.bufs.Keys), m.next, ts);
      MoreRespond(r.bufs, r.out, m.out, AnswersOf(cfg, r.bufs, Sorted(r.bufs.Keys), m.next, ts, {}));
    }
  }

  lemma MoreRespond(bufs: map<nat, Buf>, before: seq<Output>, after: seq<Output>, more: seq<Output>)
    requires RespondsSince(bufs, before, after) && forall o :: o in more ==> Responds(bufs, o)
    ensures RespondsSince(bufs, before, after + more)
  {
    forall i | |before| <= i < |after + more| ensures Responds(bufs, (after + more)[i]) {
      if i >= |after| { assert (after + more)[i] in more; }
    }
  }

  lemma EndFits(cfg: Config, s: seq<Fragment>, j: nat)
    requires WithinLimits(cfg, s) && j <= |s|
    ensures WithinLimits(cfg, s[j..])
  {
    assert s == s[..j] + s[j..];
    BytesOfConcat(s[..j], s[j..]);
  }

  // In Buffer mode each container of a call holds the fragments of its data buffer after pruning, but for one kept from
  // the response before: it is within the limits and has nothing in front of the first fragment young enough.
  lemma BufferCallIsPruned(cfg: Config, p: Pipe, late: set<(nat, nat)>, expired: set<nat>, expiredLater: set<nat>,
                           i: nat)
    returns (r: seq<Fragment>)
    requires cfg.mode == Buffer && AllExact(p.bufs)
    requires var q := Called(cfg, p, ApplyCall(late, expired, expiredLater));
            |p.out| <= i < |q.out| && q.out[i].Container?
    ensures var o := Called(cfg, p, ApplyCall(late, expired, expiredLater)).out[i];
            && o.id in p.bufs && WellPruned(cfg, p.bufs[o.id].frags, r) && WithinLimits(cfg, o.content)
            && (o.content == r || (p.bufs[o.id].kept && |r| > 1 && o.content == r[1..]))
  {
    var m := CallPrunesFirst(cfg, p, late, expired, expiredLater);
    var o := PassResponds(cfg, m, late, expired, expiredLater, i);
    r := m.bufs[o.id].frags;
    ContentIs(cfg, m.bufs[o.id]);
  }

  lemma PassResponds(cfg: Config, m: Pipe, late: set<(nat, nat)>, expired: set<nat>, expiredLater: set<nat>, i: nat)
    returns (o: Output)
    requires cfg.mode == Buffer
    requires var q := Step(cfg, m, Pass(late, expired, expiredLater)); |m.out| <= i < |q.out| && q.out[i].Container?
    ensures o == Step(cfg, m, Pass(late, expired, expiredLater)).out[i] && o.Container? && Responds(m.bufs, o)
  {
    o := Step(cfg, m, Pass(late, expired, expiredLater)).out[i];
    LatestPassResponds(cfg, m);
  }

  lemma ContentIs(cfg: Config, b: Buf)
    requires DepthsExact(b) && WithinLimits(cfg, b.frags)
    ensures var s, content := b.frags, BufferMode.ResponseContent(b);
            WithinLimits(cfg, content) && (content == s || (b.kept && |s| > 1 && content == s[1..]))
  {
    if b.frags != [] { EndFits(cfg, b.frags, 1); }
  }

  lemma CallsStayExact(cfg: Config, ids: set<nat>, increment: nat, calls: seq<Call>)
    ensures AllExact(CallRun(cfg, ids, increment, calls).bufs)
  {
    var ops := CallsAreSteps(cfg, ids, increment, calls);
    DepthsStayExact(cfg, ids, increment, ops);
  }
}
