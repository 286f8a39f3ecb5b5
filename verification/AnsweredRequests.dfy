/** Every answer is one to a request that was pushed, and bears its sequence ID and timestamp; only requests that were
    skipped are answered by empty fragments without one (artdaq/DAQrate/FragmentBuffer.cc:448-559, 684-737, 891-908). */
module AnsweredRequests {
  import opened Ordered
  import opened DataBuffers
  import opened Pipeline
  import opened LatestRuns
  import opened WindowRuns
  import Requests

  // The output is an answer to one of the requests; Single mode answers one with an empty fragment if it has no data.
  predicate AnswersOne(cfg: Config, o: Output, reqs: map<nat, nat>) {
    match o
    case Container(seqId, _, ts, missing, _) => seqId in reqs && reqs[seqId] == ts && (cfg.mode == Buffer ==> !missing)
    case Copy(seqId, _, ts, _) => seqId in reqs && reqs[seqId] == ts
    case EmptyFragment(seqId, _) => cfg.sendMissing || seqId in reqs
    case Plain(_) => true
  }

  // Each output since then answers one of the requests.
  ghost predicate AnswersSince(cfg: Config, before: seq<Output>, after: seq<Output>, reqs: map<nat, nat>) {
    before <= after && forall i :: |before| <= i < |after| ==> AnswersOne(cfg, after[i], reqs)
  }

  lemma SinceTwice(cfg: Config, a: seq<Output>, b: seq<Output>, c: seq<Output>, reqs: map<nat, nat>)
    requires AnswersSince(cfg, a, b, reqs) && AnswersSince(cfg, b, c, reqs)
    ensures AnswersSince(cfg, a, c, reqs)
  {
  }

  lemma AnswerIsOne(cfg: Config, b: Buf, id: nat, seqId: nat, ts: nat, late: bool, reqs: map<nat, nat>)
    requires seqId in reqs && reqs[seqId] == ts
    ensures forall o :: o in Answer(cfg, b, id, seqId, ts, late) ==> AnswersOne(cfg, o, reqs)
  {
  }

  lemma {:induction false} AnswersAreSome(cfg: Config, bufs: map<nat, Buf>, ids: seq<nat>, seqId: nat, ts: nat,
                                          late: set<(nat, nat)>, reqs: map<nat, nat>)
    requires seqId in reqs && reqs[seqId] == ts && forall id :: id in ids ==> id in bufs
    ensures forall o :: o in AnswersOf(cfg, bufs, ids, seqId, ts, late) ==> AnswersOne(cfg, o, reqs)
  {
    if ids != [] {
      var last := ids[|ids| - 1];
      AnswersAreSome(cfg, bufs, ids[..|ids| - 1], seqId, ts, late, reqs);
      AnswerIsOne(cfg, bufs[last], last, seqId, ts, (seqId, last) in late, reqs);
    }
  }

  lemma AskingAnswers(cfg: Config, p: Pipe, seqId: nat, ts: nat, late: set<(nat, nat)>, reqs: map<nat, nat>)
    requires seqId in reqs && reqs[seqId] == ts
    ensures AnswersSince(cfg, p.out, AnswerAll(cfg, p, seqId, ts, late).out, reqs)
  {
    var more := AnswersOf(cfg, p.bufs, Sorted(p.bufs.Keys), seqId, ts, late);
    AnswersAreSome(cfg, p.bufs, Sorted(p.bufs.Keys), seqId, ts, late, reqs);
    forall i | |p.out| <= i < |p.out + more| ensures AnswersOne(cfg, (p.out + more)[i], reqs) {
      assert (p.out + more)[i] in more;
    }
  }

  // ---------------------------------------------------------------- passes

  lemma {:induction false} SkippingAnswers(cfg: Config, p: Pipe, target: nat, reqs: map<nat, nat>)
    ensures AnswersSince(cfg, p.out, SkipTo(cfg, p, target).out, reqs)
    decreases target - p.next
  {
    if target > p.next {
      var q := SkipOne(cfg, p);
      assert AnswersSince(cfg, p.out, q.out, reqs);
      SkippingAnswers(cfg, q, target, reqs);
      SinceTwice(cfg, p.out, q.out, SkipTo(cfg, q, target).out, reqs);
    }
  }

  lemma LatestPassAnswers(cfg: Config, p: Pipe)
    ensures AnswersSince(cfg, p.out, LatestPass(cfg, p).out, p.rb.requests)
  {
    if p.rb.requests != map[] {
      var last, q := Greatest(p.rb.requests.Keys), p.(rb := RemoveOlder(p.rb));
      var r := SkipTo(cfg, q, last);
      SkippingAnswers(cfg, q, last, p.rb.requests);
      if r.next == last {
        AskingAnswers(cfg, r, last, p.rb.requests[last], {}, p.rb.requests);
        SinceTwice(cfg, p.out, r.out, Respond(cfg, r, p.rb.requests[last]).out, p.rb.requests);
      }
    }
  }

  lemma ServeAnswers(cfg: Config, p: Pipe, seqId: nat, ts: nat, late: set<(nat, nat)>, expired: set<nat>,
                     reqs: map<nat, nat>)
    requires seqId in reqs && reqs[seqId] == ts
    ensures AnswersSince(cfg, p.out, Serve(cfg, p, seqId, ts, late, expired).out, reqs)
  {
    AskingAnswers(cfg, p, seqId, ts, late, reqs);
    CheckSentAdvances(AnswerAll(cfg, p, seqId, ts, late), seqId, expired);
  }

  lemma {:induction false} ServingAnswers(cfg: Config, p: Pipe, reqs: map<nat, nat>, ids: seq<nat>,
                                          late: set<(nat, nat)>, expired: set<nat>)
    requires forall k :: k in ids ==> k in reqs
    ensures AnswersSince(cfg, p.out, ServeEach(cfg, p, reqs, ids, late, expired).out, reqs)
    decreases |ids|
  {
    if ids != [] {
      FirstIsIn(ids);
      var q := Serve(cfg, p, ids[0], reqs[ids[0]], late, expired);
      ServeAnswers(cfg, p, ids[0], reqs[ids[0]], late, expired, reqs);
      ServingAnswers(cfg, q, reqs, ids[1..], late, expired);
      SinceTwice(cfg, p.out, q.out, ServeEach(cfg, q, reqs, ids[1..], late, expired).out, reqs);
    }
  }

  lemma WindowPassAnswers(cfg: Config, p: Pipe, late: set<(nat, nat)>, expired: set<nat>, expiredLater: set<nat>)
    ensures AnswersSince(cfg, p.out, WindowPass(cfg, p, late, expired, expiredLater).out, p.rb.requests)
  {
    var ids := Sorted(p.rb.requests.Keys);
    ServingAnswers(cfg, p, p.rb.requests, ids, late, expired);
    var q := ServeEach(cfg, p, p.rb.requests, ids, late, expired);
    CheckEachAdvances(q, Sorted(AllSent(q.bufs)), expiredLater);
  }

  lemma {:induction false} EverythingIsPlain(bufs: map<nat, Buf>, ids: seq<nat>)
    requires forall id :: id in ids ==> id in bufs
    ensures forall o :: o in Everything(bufs, ids) ==> o.Plain?
  {
    if ids != [] { EverythingIsPlain(bufs, ids[..|ids| - 1]); }
  }

  lemma IgnoredPassAnswers(cfg: Config, p: Pipe)
    ensures AnswersSince(cfg, p.out, IgnoredPass(p).out, p.rb.requests)
  {
    var more := Everything(p.bufs, Sorted(p.bufs.Keys));
    EverythingIsPlain(p.bufs, Sorted(p.bufs.Keys));
    forall i | |p.out| <= i < |p.out + more| ensures AnswersOne(cfg, (p.out + more)[i], p.rb.requests) {
      assert (p.out + more)[i] in more;
    }
  }

  lemma StepAnswers(cfg: Config, p: Pipe, op: Op)
    ensures AnswersSince(cfg, p.out, Step(cfg, p, op).out, p.rb.requests)
  {
    match op
    case Pass(late, expired, expiredLater) =>
      LatestPassAnswers(cfg, p);
      WindowPassAnswers(cfg, p, late, expired, expiredLater);
      IgnoredPassAnswers(cfg, p);
    case _ =>
  }

  // ---------------------------------------------------------------- whole runs

  // No request is made up, and none changes its timestamp.
  ghost predicate OnlyLoses(rb: Requests.State, more: Requests.State) {
    forall k :: k in more.requests ==> k in rb.requests && more.requests[k] == rb.requests[k]
  }

  lemma {:induction false} PassingOnlyLoses(p: Pipe, k: nat)
    ensures OnlyLoses(p.rb, PassThrough(p, k).rb)
    decreases k + 1 - p.next
  {
    if p.next <= k { PassingOnlyLoses(PassOne(p), k); }
  }

  lemma CheckOnlyLoses(p: Pipe, k: nat, expired: set<nat>)
    ensures OnlyLoses(p.rb, CheckSent(p, k, expired).rb)
  {
    PassingOnlyLoses(if SentByAll(p.bufs, k) then CompleteOne(p, k) else p, k);
  }

  lemma {:induction false} SweepOnlyLoses(p: Pipe, ids: seq<nat>, expired: set<nat>)
    ensures OnlyLoses(p.rb, CheckEach(p, ids, expired).rb)
    decreases |ids|
  {
    if ids != [] {
      CheckOnlyLoses(p, ids[0], expired);
      SweepOnlyLoses(CheckSent(p, ids[0], expired), ids[1..], expired);
    }
  }

  lemma {:induction false} ServingOnlyLoses(cfg: Config, p: Pipe, reqs: map<nat, nat>, ids: seq<nat>,
                                            late: set<(nat, nat)>, expired: set<nat>)
    requires forall k :: k in ids ==> k in reqs
    ensures OnlyLoses(p.rb, ServeEach(cfg, p, reqs, ids, late, expired).rb)
    decreases |ids|
  {
    if ids != [] {
      FirstIsIn(ids);
      CheckOnlyLoses(AnswerAll(cfg, p, ids[0], reqs[ids[0]], late), ids[0], expired);
      ServingOnlyLoses(cfg, Serve(cfg, p, ids[0], reqs[ids[0]], late, expired), reqs, ids[1..], late, expired);
    }
  }

  lemma LatestPassOnlyLoses(cfg: Config, p: Pipe)
    ensures OnlyLoses(p.rb, LatestPass(cfg, p).rb)
  {
    if p.rb.requests != map[] {
      var last := Greatest(p.rb.requests.Keys);
      RemoveEachRemoves(p.rb, Sorted(p.rb.requests.Keys - {last}));
      SkipEndsAt(cfg, p.(rb := RemoveOlder(p.rb)), last);
    }
  }

  lemma PassOnlyLoses(cfg: Config, p: Pipe, op: Op)
    requires op.Pass?
    ensures OnlyLoses(p.rb, Step(cfg, p, op).rb)
  {
    var ids := Sorted(p.rb.requests.Keys);
    LatestPassOnlyLoses(cfg, p);
    ServingOnlyLoses(cfg, p, p.rb.requests, ids, op.late, op.expired);
    var q := ServeEach(cfg, p, p.rb.requests, ids, op.late, op.expired);
    SweepOnlyLoses(q, Sorted(AllSent(q.bufs)), op.expiredLater);
  }

  ghost predicate Pushed(ops: seq<Op>, seqId: nat, ts: nat) {
    exists i :: 0 <= i < |ops| && ops[i] == Push(seqId, ts)
  }

  ghost predicate AllPushed(ops: seq<Op>, reqs: map<nat, nat>) {
    forall k :: k in reqs ==> Pushed(ops, k, reqs[k])
  }

  lemma PushedBefore(ops: seq<Op>, seqId: nat, ts: nat)
    requires ops != [] && (Pushed(ops[..|ops| - 1], seqId, ts) || ops[|ops| - 1] == Push(seqId, ts))
    ensures Pushed(ops, seqId, ts)
  {
    var front := ops[..|ops| - 1];
    if Pushed(front, seqId, ts) {
      var i :| 0 <= i < |front| && front[i] == Push(seqId, ts);
      assert ops[i] == Push(seqId, ts);
    }
  }

  lemma {:induction false} PendingArePushed(cfg: Config, ids: set<nat>, increment: nat, ops: seq<Op>)
    ensures AllPushed(ops, Run(cfg, ids, increment, ops).rb.requests)
  {
    if ops != [] {
      var p, op := Run(cfg, ids, increment, ops[..|ops| - 1]), ops[|ops| - 1];
      PendingArePushed(cfg, ids, increment, ops[..|ops| - 1]);
      if op.Pass? { PassOnlyLoses(cfg, p, op); }
      forall k | k in Step(cfg, p, op).rb.requests ensures Pushed(ops, k, Step(cfg, p, op).rb.requests[k]) {
        PushedBefore(ops, k, Step(cfg, p, op).rb.requests[k]);
      }
    }
  }

  // The output bears the sequence ID and timestamp of a request that was pushed. Containers of Buffer mode are never
  // flagged; an empty fragment without a request comes only if missing fragments are sent.
  ghost predicate BearsARequest(cfg: Config, ops: seq<Op>, o: Output) {
    match o
    case Container(seqId, _, ts, missing, _) => Pushed(ops, seqId, ts) && (cfg.mode == Buffer ==> !missing)
    case Copy(seqId, _, ts, _) => Pushed(ops, seqId, ts)
    case EmptyFragment(seqId, _) => cfg.sendMissing || exists ts :: Pushed(ops, seqId, ts)
    case Plain(_) => true
  }

  lemma AnswerBears(cfg: Config, ops: seq<Op>, o: Output, reqs: map<nat, nat>)
    requires AnswersOne(cfg, o, reqs) && AllPushed(ops, reqs)
    ensures BearsARequest(cfg, ops, o)
  {
    if o.EmptyFragment? && !cfg.sendMissing { assert Pushed(ops, o.seqId, reqs[o.seqId]); }
  }

  lemma BearsMore(cfg: Config, ops: seq<Op>, o: Output)
    requires ops != [] && BearsARequest(cfg, ops[..|ops| - 1], o)
    ensures BearsARequest(cfg, ops, o)
  {
    match o
    case Container(seqId, _, ts, _, _) => PushedBefore(ops, seqId, ts);
    case Copy(seqId, _, ts, _) => PushedBefore(ops, seqId, ts);
    case EmptyFragment(seqId, _) =>
      if !cfg.sendMissing {
        var ts :| Pushed(ops[..|ops| - 1], seqId, ts);
        PushedBefore(ops, seqId, ts);
      }
    case Plain(_) =>
  }

  // In every reachable state, in every mode.
  lemma {:induction false} EveryAnswerBearsARequest(cfg: Config, ids: set<nat>, increment: nat, ops: seq<Op>, i: nat)
    requires i < |Run(cfg, ids, increment, ops).out|
    ensures BearsARequest(cfg, ops, Run(cfg, ids, increment, ops).out[i])
  {
    if ops != [] {
      var front := ops[..|ops| - 1];
      var p := Run(cfg, ids, increment, front);
      StepAnswers(cfg, p, ops[|ops| - 1]);
      PendingArePushed(cfg, ids, increment, front);
      if i < |p.out| {
        EveryAnswerBearsARequest(cfg, ids, increment, front, i);
      } else {
        AnswerBears(cfg, front, Run(cfg, ids, increment, ops).out[i], p.rb.requests);
      }
      BearsMore(cfg, ops, Run(cfg, ids, increment, ops).out[i]);
    }
  }
}
