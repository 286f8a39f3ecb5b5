/** The sequence counter of Window and SequenceID mode over whole runs, and its agreement with the request buffer. */
module CounterRuns {
  import opened Ordered
  import opened DataBuffers
  import opened Pipeline
  import opened LatestRuns
  import opened WindowRuns
  import opened CounterAgreement
  import Requests

  // ---------------------------------------------------------------- agreement with the request buffer, over whole runs

  // Every pushed ID below the counter, at or below the watermark, is told by its narrowed distance.
  ghost predicate OldPushesTold(cfg: Config, ids: set<nat>, increment: nat, ops: seq<Op>) {
    forall i :: 0 <= i < |ops| && ops[i].Push? ==>
      var p := Run(cfg, ids, increment, ops[..i]); ToldOld(p.rb, p.next, ops[i].seqId)
  }

  ghost predicate Agrees(p: Pipe, ids: set<nat>, increment: nat) {
    && InStep(p) && p.rb.increment == increment && p.bufs.Keys == ids
    && (ids != {} ==> !SentByAll(p.bufs, p.next))
  }

  lemma ArriveKeepsAgrees(cfg: Config, p: Pipe, id: nat, fs: seq<Fragment>, ids: set<nat>, increment: nat)
    requires Agrees(p, ids, increment) && AllExact(p.bufs) && id in p.bufs && fs != []
    ensures Agrees(p.(bufs := p.bufs[id := Receive(cfg, p.bufs[id], fs)]), ids, increment)
  {
    ReceiveKeepsSent(cfg, p.bufs[id], fs);
    SameSentAgrees(p, p.bufs[id := Receive(cfg, p.bufs[id], fs)], ids, increment);
  }

  // Only the records of sent windows matter.
  lemma SameSentAgrees(p: Pipe, bufs: map<nat, Buf>, ids: set<nat>, increment: nat)
    requires Agrees(p, ids, increment) && bufs.Keys == p.bufs.Keys
    requires forall i :: i in bufs ==> SameSent(p.bufs[i], bufs[i])
    ensures Agrees(p.(bufs := bufs), ids, increment)
  {
    forall k ensures SentByAll(bufs, k) <==> SentByAll(p.bufs, k) {}
    assert UpToHighest(bufs) by { assert UpToHighest(p.bufs); }
  }

  lemma PruneKeepsAgrees(cfg: Config, p: Pipe, ids: set<nat>, increment: nat)
    requires Agrees(p, ids, increment) && AllExact(p.bufs)
    ensures Agrees(p.(bufs := Checked(cfg, p.bufs)), ids, increment)
  {
    forall i | i in p.bufs ensures SameSent(p.bufs[i], Check(cfg, p.bufs[i])) { CheckKeepsSent(cfg, p.bufs[i]); }
    SameSentAgrees(p, Checked(cfg, p.bufs), ids, increment);
  }

  lemma PassKeepsAgrees(cfg: Config, p: Pipe, late: set<(nat, nat)>, expired: set<nat>, expiredLater: set<nat>,
                        ids: set<nat>, increment: nat)
    requires Agrees(p, ids, increment)
    ensures Agrees(WindowPass(cfg, p, late, expired, expiredLater), ids, increment)
  {
    PassKeepsInStep(cfg, p, late, expired, expiredLater);
    PassKeepsIds(cfg, p, late, expired, expiredLater);
    if ids != {} { PassDrains(cfg, p, late, expired, expiredLater); }
  }

  lemma StepKeepsAgrees(cfg: Config, p: Pipe, op: Op, ids: set<nat>, increment: nat)
    requires Waits(cfg) && Agrees(p, ids, increment) && AllExact(p.bufs)
    ensures Agrees(Step(cfg, p, op), ids, increment)
  {
    match op
    case Push(seqId, ts) => PushKeepsInStep(p, seqId, ts);
    case Arrive(id, fs) => if id in p.bufs && fs != [] { ArriveKeepsAgrees(cfg, p, id, fs, ids, increment); }
    case Prune => PruneKeepsAgrees(cfg, p, ids, increment);
    case Pass(late, expired, expiredLater) => PassKeepsAgrees(cfg, p, late, expired, expiredLater, ids, increment);
  }

  lemma StepKeepsNoneOld(cfg: Config, p: Pipe, op: Op)
    requires Waits(cfg) && InStep(p) && NoneOld(p.rb, p.next) && (op.Push? ==> ToldOld(p.rb, p.next, op.seqId))
    ensures NoneOld(Step(cfg, p, op).rb, Step(cfg, p, op).next)
  {
    match op
    case Push(seqId, ts) => PushKeepsInStep(p, seqId, ts);
    case Pass(late, expired, expiredLater) => PassKeepsInStep(cfg, p, late, expired, expiredLater);
    case _ =>
  }

  lemma StartAgrees(ids: set<nat>, increment: nat)
    ensures Agrees(FreshPipe(ids, increment), ids, increment)
  {
    if ids != {} {
      var id :| id in ids;
      assert id in FreshPipe(ids, increment).bufs;
    }
  }

  lemma {:induction false} RunAgrees(cfg: Config, ids: set<nat>, increment: nat, ops: seq<Op>)
    requires Waits(cfg)
    ensures Agrees(Run(cfg, ids, increment, ops), ids, increment)
  {
    if ops == [] {
      StartAgrees(ids, increment);
    } else {
      RunAgrees(cfg, ids, increment, ops[..|ops| - 1]);
      DepthsStayExact(cfg, ids, increment, ops[..|ops| - 1]);
      StepKeepsAgrees(cfg, Run(cfg, ids, increment, ops[..|ops| - 1]), ops[|ops| - 1], ids, increment);
    }
  }

  lemma {:induction false} RunKeepsNoneOld(cfg: Config, ids: set<nat>, increment: nat, ops: seq<Op>)
    requires Waits(cfg) && OldPushesTold(cfg, ids, increment, ops)
    ensures NoneOld(Run(cfg, ids, increment, ops).rb, Run(cfg, ids, increment, ops).next)
  {
    if ops != [] {
      var front := ops[..|ops| - 1];
      assert forall i :: 0 <= i < |front| ==> front[i] == ops[i] && front[..i] == ops[..i];
      RunKeepsNoneOld(cfg, ids, increment, front);
      RunAgrees(cfg, ids, increment, front);
      StepKeepsNoneOld(cfg, Run(cfg, ids, increment, front), ops[|ops| - 1]);
    }
  }

  // With increment 1 the two components agree in every reachable state, whatever is pushed:
  // highest_seen_request_ == next_sequence_id_ - 1.
  lemma WatermarkIsTheCounter(cfg: Config, ids: set<nat>, ops: seq<Op>)
    requires Waits(cfg) && ids != {}
    ensures var p := Run(cfg, ids, 1, ops); p.rb.highest + 1 == p.next
  {
    RunAgrees(cfg, ids, 1, ops);
    WatermarkMeetsCounter(Run(cfg, ids, 1, ops));
  }

  // No request older than next_sequence_id_ is pending, so no pass meets one, for any increment - as long as every
  // pushed ID below it, at or below the watermark, is told by its distance.
  lemma RequestBufferKeepsUp(cfg: Config, ids: set<nat>, increment: nat, ops: seq<Op>, late: set<(nat, nat)>,
                             expired: set<nat>)
    requires Waits(cfg) && OldPushesTold(cfg, ids, increment, ops)
    ensures var p := Run(cfg, ids, increment, ops);
            NoneOld(p.rb, p.next) && NeverPassed(cfg, p, p.rb.requests, Sorted(p.rb.requests.Keys), late, expired)
  {
    RunAgrees(cfg, ids, increment, ops);
    RunKeepsNoneOld(cfg, ids, increment, ops);
    var p := Run(cfg, ids, increment, ops);
    YoungRequestsAreNotPassed(cfg, p, p.rb.requests, Sorted(p.rb.requests.Keys), late, expired);
  }

  ghost predicate NeverOld(cfg: Config, ids: set<nat>, increment: nat, ops: seq<Op>) {
    forall i :: 0 <= i <= |ops| ==>
      NoneOld(Run(cfg, ids, increment, ops[..i]).rb, Run(cfg, ids, increment, ops[..i]).next)
  }

  // For any increment that condition is exact: over a run no old request is ever pending if and only if it is met.
  lemma RequestBufferKeepsUpIff(cfg: Config, ids: set<nat>, increment: nat, ops: seq<Op>)
    requires Waits(cfg)
    ensures NeverOld(cfg, ids, increment, ops) <==> OldPushesTold(cfg, ids, increment, ops)
  {
    if OldPushesTold(cfg, ids, increment, ops) {
      forall i | 0 <= i <= |ops|
        ensures NoneOld(Run(cfg, ids, increment, ops[..i]).rb, Run(cfg, ids, increment, ops[..i]).next)
      {
        PrefixOf(ops, i);
        RunKeepsNoneOld(cfg, ids, increment, ops[..i]);
      }
    } else {
      var i :| 0 <= i < |ops| && ops[i].Push?
               && !ToldOld(Run(cfg, ids, increment, ops[..i]).rb, Run(cfg, ids, increment, ops[..i]).next,
                 ops[i].seqId);
      var p := Run(cfg, ids, increment, ops[..i]);
      PrefixOf(ops, i);
      RunAgrees(cfg, ids, increment, ops[..i]);
      UntoldPushIsOld(p, ops[i].seqId, ops[i].ts);
      assert Run(cfg, ids, increment, ops[..i + 1]) == p.(rb := Requests.AfterPush(p.rb, ops[i].seqId, ops[i].ts));
    }
  }

  // ---------------------------------------------------------------- the windows sent, over whole runs

  lemma ReceiveKeepsInv(cfg: Config, p: Pipe, id: nat, fs: seq<Fragment>)
    requires Waits(cfg) && Inv(cfg, p) && id in p.bufs && fs != [] && forall f :: f in fs ==> f.id == id
    ensures Inv(cfg, p.(bufs := p.bufs[id := Receive(cfg, p.bufs[id], fs)]))
  {
    ReceiveStaysAnswerable(cfg, p.bufs[id], id, fs);
    ReceiveKeepsSent(cfg, p.bufs[id], fs);
  }

  lemma ReceiveKeepsSent(cfg: Config, b: Buf, fs: seq<Fragment>)
    requires DepthsExact(b) && fs != []
    ensures var r := Receive(cfg, b, fs); r.sent == b.sent && r.highest == b.highest
  {
    SurvivorsAreLongestSuffix(cfg, b);
  }

  // The same windows are remembered as sent.
  predicate SameSent(b: Buf, r: Buf) {
    r.sent == b.sent && r.highest == b.highest
  }

  lemma PruneKeepsTracked(cfg: Config, ns: seq<nat>, b: Buf, r: Buf, next: nat, passed: set<nat>)
    requires Tracked(cfg, ns, b, next, passed) && SameSent(b, r)
    ensures Tracked(cfg, ns, r, next, passed)
  {
  }

  lemma CheckKeepsSent(cfg: Config, b: Buf)
    requires DepthsExact(b)
    ensures SameSent(b, Check(cfg, b))
  {
    CheckPrunes(cfg, b);
  }

  lemma PruneKeepsInv(cfg: Config, p: Pipe)
    requires Inv(cfg, p)
    ensures Inv(cfg, p.(bufs := Checked(cfg, p.bufs)))
  {
    var q := p.(bufs := Checked(cfg, p.bufs));
    forall i | i in p.bufs ensures Answerable(cfg, q.bufs[i], i) {
      PruneStaysAnswerable(cfg, p.bufs[i], i);
    }
    forall i | i in p.bufs ensures Tracked(cfg, Numbers(q.out, i), q.bufs[i], q.next, q.passed) {
      CheckKeepsSent(cfg, p.bufs[i]);
      PruneKeepsTracked(cfg, Numbers(p.out, i), p.bufs[i], q.bufs[i], p.next, p.passed);
    }
  }

  lemma StepKeepsInv(cfg: Config, p: Pipe, op: Op)
    requires Waits(cfg) && Inv(cfg, p)
    requires op.Arrive? ==> forall f :: f in op.fs ==> f.id == op.id
    ensures Inv(cfg, Step(cfg, p, op))
  {
    match op
    case Push(_, _) =>
    case Arrive(id, fs) => if id in p.bufs && fs != [] { ReceiveKeepsInv(cfg, p, id, fs); }
    case Prune => PruneKeepsInv(cfg, p);
    case Pass(late, expired, expiredLater) => WindowPassKeepsInv(cfg, p, late, expired, expiredLater);
  }

  lemma {:induction false} RunKeepsInv(cfg: Config, ids: set<nat>, increment: nat, ops: seq<Op>)
    requires Waits(cfg) && SortedById(ops)
    ensures Inv(cfg, Run(cfg, ids, increment, ops)) && Run(cfg, ids, increment, ops).bufs.Keys == ids
  {
    if ops != [] {
      var front := ops[..|ops| - 1];
      assert forall i :: 0 <= i < |front| ==> front[i] == ops[i];
      RunKeepsInv(cfg, ids, increment, front);
      StepKeepsInv(cfg, Run(cfg, ids, increment, front), ops[|ops| - 1]);
      StepKeepsIds(cfg, Run(cfg, ids, increment, front), ops[|ops| - 1]);
    }
  }

  // No old request finds data in the pass.
  ghost predicate FindsNothingOld(cfg: Config, p: Pipe, op: Op) {
    op.Pass? ==> NoOldData(cfg, p, p.rb.requests.Keys)
  }

  ghost predicate NothingOldFound(cfg: Config, ids: set<nat>, increment: nat, ops: seq<Op>) {
    forall i :: 0 <= i < |ops| ==> FindsNothingOld(cfg, Run(cfg, ids, increment, ops[..i]), ops[i])
  }

  lemma SameSentAheadIff(p: Pipe, q: Pipe)
    requires q.bufs.Keys == p.bufs.Keys && q.next == p.next
    requires forall i :: i in p.bufs ==> SameSent(p.bufs[i], q.bufs[i])
    ensures Ahead(q) <==> Ahead(p)
  {
  }

  lemma StepAheadIff(cfg: Config, p: Pipe, op: Op)
    requires Waits(cfg) && AllExact(p.bufs)
    ensures Ahead(Step(cfg, p, op)) <==> Ahead(p) && FindsNothingOld(cfg, p, op)
  {
    match op
    case Push(_, _) =>
    case Arrive(id, fs) =>
      if id in p.bufs && fs != [] {
        ReceiveKeepsSent(cfg, p.bufs[id], fs);
        SameSentAheadIff(p, Step(cfg, p, op));
      }
    case Prune =>
      forall i | i in p.bufs ensures SameSent(p.bufs[i], Check(cfg, p.bufs[i])) { CheckKeepsSent(cfg, p.bufs[i]); }
      SameSentAheadIff(p, Step(cfg, p, op));
    case Pass(late, expired, expiredLater) => PassAheadIff(cfg, p, late, expired, expiredLater);
  }

  // In every reachable state no WindowsSent key is below next_sequence_id_, if and only if in no pass so far a request
  // below it found data - in Window mode always.
  lemma {:induction false} WindowsSentStayAheadIff(cfg: Config, ids: set<nat>, increment: nat, ops: seq<Op>)
    requires Waits(cfg)
    ensures Ahead(Run(cfg, ids, increment, ops)) <==> NothingOldFound(cfg, ids, increment, ops)
  {
    if ops != [] {
      var front := ops[..|ops| - 1];
      PrefixOf(ops, |front|);
      WindowsSentStayAheadIff(cfg, ids, increment, front);
      DepthsStayExact(cfg, ids, increment, front);
      StepAheadIff(cfg, Run(cfg, ids, increment, front), ops[|ops| - 1]);
      LastFound(cfg, ids, increment, ops);
    }
  }

  lemma LastFound(cfg: Config, ids: set<nat>, increment: nat, ops: seq<Op>)
    requires ops != []
    ensures var front := ops[..|ops| - 1];
            NothingOldFound(cfg, ids, increment, ops)
            <==> NothingOldFound(cfg, ids, increment, front)
                 && FindsNothingOld(cfg, Run(cfg, ids, increment, front), ops[|ops| - 1])
  {
    var n := |ops| - 1;
    PrefixOf(ops, n);
    if NothingOldFound(cfg, ids, increment, ops) {
      assert FindsNothingOld(cfg, Run(cfg, ids, increment, ops[..n]), ops[n]);
    } else {
      var i :| 0 <= i < |ops| && !FindsNothingOld(cfg, Run(cfg, ids, increment, ops[..i]), ops[i]);
      if i < n { FoundInFront(cfg, ids, increment, ops, i); }
    }
  }

  lemma FoundInFront(cfg: Config, ids: set<nat>, increment: nat, ops: seq<Op>, i: nat)
    requires i < |ops| - 1 && !FindsNothingOld(cfg, Run(cfg, ids, increment, ops[..i]), ops[i])
    ensures !NothingOldFound(cfg, ids, increment, ops[..|ops| - 1])
  {
    var front := ops[..|ops| - 1];
    assert front[..i] == ops[..i] && front[i] == ops[i];
  }

  lemma {:induction false} RunStaysAhead(cfg: Config, ids: set<nat>, increment: nat, ops: seq<Op>)
    requires Waits(cfg) && (cfg.mode == Window || OldPushesTold(cfg, ids, increment, ops))
    ensures Ahead(Run(cfg, ids, increment, ops))
  {
    if ops != [] {
      var front := ops[..|ops| - 1];
      assert forall i :: 0 <= i < |front| ==> front[i] == ops[i] && front[..i] == ops[..i];
      RunStaysAhead(cfg, ids, increment, front);
      DepthsStayExact(cfg, ids, increment, front);
      if cfg.mode == SequenceID { RunKeepsNoneOld(cfg, ids, increment, front); }
      StepAheadIff(cfg, Run(cfg, ids, increment, front), ops[|ops| - 1]);
    }
  }

  lemma StepKeepsIds(cfg: Config, p: Pipe, op: Op)
    requires Waits(cfg)
    ensures Step(cfg, p, op).bufs.Keys == p.bufs.Keys
  {
    if op.Pass? { PassKeepsIds(cfg, p, op.late, op.expired, op.expiredLater); }
  }

  lemma PassKeepsIds(cfg: Config, p: Pipe, late: set<(nat, nat)>, expired: set<nat>, expiredLater: set<nat>)
    ensures WindowPass(cfg, p, late, expired, expiredLater).bufs.Keys == p.bufs.Keys
  {
    var ids := Sorted(p.rb.requests.Keys);
    ServeEachKeepsIds(cfg, p, p.rb.requests, ids, late, expired);
    var q := ServeEach(cfg, p, p.rb.requests, ids, late, expired);
    CheckEachAdvances(q, Sorted(AllSent(q.bufs)), expiredLater);
  }

  // Window and SequenceID mode, whatever is pushed: every window still remembered as sent is at or below
  // HighestRequestSeen and was sent, those at or above next_sequence_id_ exactly; every sequence ID below
  // next_sequence_id_ was sent for all fragment IDs, or passed by the missing-window timeout. In Window mode each
  // fragment ID answers a sequence ID with at most one container. No window below next_sequence_id_ is remembered, in
  // SequenceID mode if the pushes are told.
  lemma EachWindowIsSentOnce(cfg: Config, ids: set<nat>, increment: nat, ops: seq<Op>, id: nat)
    requires Waits(cfg) && SortedById(ops) && id in ids
    ensures var p := Run(cfg, ids, increment, ops);
            var sent := Numbers(p.out, id);
            && id in p.bufs && (cfg.mode == Window ==> NoRepeats(sent))
            && (forall k :: k in p.bufs[id].sent ==> k <= p.bufs[id].highest && k in sent)
            && (forall k :: 1 <= k < p.next ==> k in p.passed || k in sent)
            && (forall k :: k >= p.next ==> (k in sent <==> k in p.bufs[id].sent))
            && (cfg.mode == Window || OldPushesTold(cfg, ids, increment, ops)
              ==> forall k :: k in p.bufs[id].sent ==> k >= p.next)
  {
    RunKeepsInv(cfg, ids, increment, ops);
    RunAgrees(cfg, ids, increment, ops);
    var p := Run(cfg, ids, increment, ops);
    assert Tracked(cfg, Numbers(p.out, id), p.bufs[id], p.next, p.passed);
    if cfg.mode == Window || OldPushesTold(cfg, ids, increment, ops) { RunStaysAhead(cfg, ids, increment, ops); }
  }

  ghost predicate UnsentBySome(bufs: map<nat, Buf>, seqId: nat) {
    exists id :: id in bufs && seqId !in bufs[id].sent
  }

  // In every reachable state of Window or SequenceID mode, and so after every pass, some data buffer has not sent
  // next_sequence_id_.
  lemma NextIsNeverComplete(cfg: Config, ids: set<nat>, increment: nat, ops: seq<Op>)
    requires Waits(cfg) && ids != {}
    ensures var p := Run(cfg, ids, increment, ops); UnsentBySome(p.bufs, p.next)
  {
    RunAgrees(cfg, ids, increment, ops);
    var p := Run(cfg, ids, increment, ops);
    var id :| id in p.bufs && !(p.next in p.bufs[id].sent && p.bufs[id].highest >= p.next);
  }

  // ---------------------------------------------------------------- the cached depths, in every mode

  ghost predicate AllExact(bufs: map<nat, Buf>) {
    forall id :: id in bufs ==> DepthsExact(bufs[id])
  }

  lemma AnswersKeepExact(cfg: Config, bufs: map<nat, Buf>, seqId: nat, ts: nat, late: set<(nat, nat)>)
    requires AllExact(bufs)
    ensures AllExact(AnsweredBufs(cfg, bufs, seqId, ts, late))
  {
    forall id | id in bufs ensures DepthsExact(AnsweredBuf(cfg, bufs[id], seqId, ts, (seqId, id) in late)) {
      AnsweredKeepsDepths(cfg, bufs[id], seqId, ts, (seqId, id) in late);
    }
  }

  lemma AdvancingKeepsExact(p: Pipe, q: Pipe)
    requires Advanced(p, q) && AllExact(p.bufs)
    ensures AllExact(q.bufs)
  {
    forall id | id in q.bufs ensures DepthsExact(q.bufs[id]) {
      assert q.bufs[id] == Trimmed(p.bufs[id], p.next, q.next);
    }
  }

  lemma ServeKeepsExact(cfg: Config, p: Pipe, seqId: nat, ts: nat, late: set<(nat, nat)>, expired: set<nat>)
    requires AllExact(p.bufs)
    ensures AllExact(Serve(cfg, p, seqId, ts, late, expired).bufs)
  {
    var a := AnswerAll(cfg, p, seqId, ts, late);
    AnswersKeepExact(cfg, p.bufs, seqId, ts, late);
    CheckSentAdvances(a, seqId, expired);
    AdvancingKeepsExact(a, CheckSent(a, seqId, expired));
  }

  lemma {:induction false} ServeEachKeepsExact(cfg: Config, p: Pipe, reqs: map<nat, nat>, ids: seq<nat>,
        late: set<(nat, nat)>, expired: set<nat>)
    requires AllExact(p.bufs) && forall k :: k in ids ==> k in reqs
    ensures AllExact(ServeEach(cfg, p, reqs, ids, late, expired).bufs)
    decreases |ids|
  {
    if ids != [] {
      FirstIsIn(ids);
      ServeKeepsExact(cfg, p, ids[0], reqs[ids[0]], late, expired);
      ServeEachKeepsExact(cfg, Serve(cfg, p, ids[0], reqs[ids[0]], late, expired), reqs, ids[1..], late, expired);
    }
  }

  lemma PassKeepsExact(cfg: Config, p: Pipe, late: set<(nat, nat)>, expired: set<nat>, expiredLater: set<nat>)
    requires AllExact(p.bufs)
    ensures AllExact(WindowPass(cfg, p, late, expired, expiredLater).bufs)
  {
    var ids := Sorted(p.rb.requests.Keys);
    ServeEachKeepsExact(cfg, p, p.rb.requests, ids, late, expired);
    var q := ServeEach(cfg, p, p.rb.requests, ids, late, expired);
    CheckEachAdvances(q, Sorted(AllSent(q.bufs)), expiredLater);
    AdvancingKeepsExact(q, CheckEach(q, Sorted(AllSent(q.bufs)), expiredLater));
  }

  lemma LatestPassKeepsExact(cfg: Config, p: Pipe)
    requires AllExact(p.bufs)
    ensures AllExact(LatestPass(cfg, p).bufs)
  {
    if p.rb.requests != map[] {
      var last := Greatest(p.rb.requests.Keys);
      var q := p.(rb := RemoveOlder(p.rb));
      SkipKeepsBuffers(cfg, q, last);
      AnswersKeepExact(cfg, p.bufs, SkipTo(cfg, q, last).next, p.rb.requests[last], {});
    }
  }

  lemma StepKeepsExact(cfg: Config, p: Pipe, op: Op)
    requires AllExact(p.bufs)
    ensures AllExact(Step(cfg, p, op).bufs)
  {
    match op
    case Push(_, _) =>
    case Arrive(id, fs) => if id in p.bufs && fs != [] { ReceiveKeepsDepths(cfg, p.bufs[id], fs); }
    case Prune =>
      forall i | i in p.bufs ensures DepthsExact(Check(cfg, p.bufs[i])) { CheckPrunes(cfg, p.bufs[i]); }
    case Pass(late, expired, expiredLater) =>
      PassKeepsExact(cfg, p, late, expired, expiredLater);
      LatestPassKeepsExact(cfg, p);
  }

  // The cached depths are those of the lists after every step of every run, in every mode.
  lemma {:induction false} DepthsStayExact(cfg: Config, ids: set<nat>, increment: nat, ops: seq<Op>)
    ensures AllExact(Run(cfg, ids, increment, ops).bufs)
  {
    if ops != [] {
      DepthsStayExact(cfg, ids, increment, ops[..|ops| - 1]);
      StepKeepsExact(cfg, Run(cfg, ids, increment, ops[..|ops| - 1]), ops[|ops| - 1]);
    }
  }
}
