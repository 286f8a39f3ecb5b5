/** FragmentBuffer and its RequestBuffer count separately and never exchange their counters
    (artdaq/DAQrate/FragmentBuffer.cc:695-736 and 910-962, artdaq/DAQrate/RequestBuffer.cc:96-122): how they stay in
    step. */
module CounterAgreement {
  import opened Ordered
  import opened DataBuffers
  import opened Pipeline
  import opened WindowRuns
  import Requests

  // ---------------------------------------------------------------- the sweep leaves no complete ID

  // A complete ID can only be met in the rest of the sweep.
  ghost predicate Sweeps(p: Pipe, ids: seq<nat>, from: nat) {
    && Increasing(ids) && (forall k :: k in ids ==> k >= from)
    && (forall k :: k in AllSent(p.bufs) && k >= from ==> k in ids)
    && (SentByAll(p.bufs, p.next) ==> p.next in ids)
  }

  lemma SentIsInAllSent(bufs: map<nat, Buf>, seqId: nat)
    requires SentByAll(bufs, seqId) && bufs != map[]
    ensures seqId in AllSent(bufs)
  {
    var id :| id in bufs;
    assert seqId in bufs[id].sent;
  }

  lemma AdvancingForgets(p: Pipe, q: Pipe)
    requires Advanced(p, q)
    ensures AllSent(q.bufs) <= AllSent(p.bufs)
  {
    forall k | k in AllSent(q.bufs) ensures k in AllSent(p.bufs) {
      var id :| id in q.bufs && k in q.bufs[id].sent;
      assert q.bufs[id] == Trimmed(p.bufs[id], p.next, q.next);
    }
  }

  lemma SweepStep(p: Pipe, ids: seq<nat>, from: nat, expired: set<nat>)
    requires ids != [] && p.bufs != map[] && Sweeps(p, ids, from)
    ensures Sweeps(CheckSent(p, ids[0], expired), ids[1..], ids[0] + 1) && CheckSent(p, ids[0], expired).bufs != map[]
  {
    var q := CheckSent(p, ids[0], expired);
    CheckSentAdvances(p, ids[0], expired);
    AdvancingForgets(p, q);
    FirstIsIn(ids);
    assert q.bufs.Keys == p.bufs.Keys;
    forall k | k in ids && k != ids[0] ensures k in ids[1..] {}
    if SentByAll(q.bufs, q.next) {
      StillSent(p, q, q.next);
      SentIsInAllSent(q.bufs, q.next);
    }
  }

  lemma {:induction false} SweepDrains(p: Pipe, ids: seq<nat>, from: nat, expired: set<nat>)
    requires p.bufs != map[] && Sweeps(p, ids, from)
    ensures var q := CheckEach(p, ids, expired); !SentByAll(q.bufs, q.next)
    decreases |ids|
  {
    if ids != [] {
      SweepStep(p, ids, from, expired);
      SweepDrains(CheckSent(p, ids[0], expired), ids[1..], ids[0] + 1, expired);
    }
  }

  // Whatever timed out on the way, the sweep at the end of a pass drains the whole run of complete IDs.
  lemma PassDrains(cfg: Config, p: Pipe, late: set<(nat, nat)>, expired: set<nat>, expiredLater: set<nat>)
    requires p.bufs != map[]
    ensures var q := WindowPass(cfg, p, late, expired, expiredLater); !SentByAll(q.bufs, q.next)
  {
    var q := ServeEach(cfg, p, p.rb.requests, Sorted(p.rb.requests.Keys), late, expired);
    ServeEachKeepsIds(cfg, p, p.rb.requests, Sorted(p.rb.requests.Keys), late, expired);
    assert q.bufs != map[];
    if SentByAll(q.bufs, q.next) { SentIsInAllSent(q.bufs, q.next); }
    SweepDrains(q, Sorted(AllSent(q.bufs)), 0, expiredLater);
  }

  lemma {:induction false} ServeEachKeepsIds(cfg: Config, p: Pipe, reqs: map<nat, nat>, ids: seq<nat>,
                                             late: set<(nat, nat)>, expired: set<nat>)
    requires forall k :: k in ids ==> k in reqs
    ensures ServeEach(cfg, p, reqs, ids, late, expired).bufs.Keys == p.bufs.Keys
    decreases |ids|
  {
    if ids != [] {
      FirstIsIn(ids);
      CheckSentAdvances(AnswerAll(cfg, p, ids[0], reqs[ids[0]], late), ids[0], expired);
      ServeEachKeepsIds(cfg, Serve(cfg, p, ids[0], reqs[ids[0]], late, expired), reqs, ids[1..], late, expired);
    }
  }

  // ---------------------------------------------------------------- what counts as served

  // Every ID the counter has passed counts as served.
  ghost predicate Covers(rb: Requests.State, next: nat) {
    && next >= 1
    && (forall k :: 1 <= k < next ==> Requests.Served(rb, k))
    && OutOfOrderAbove(rb.highest, rb.increment, rb.outOfOrder)
  }

  ghost predicate OutOfOrderAbove(highest: nat, increment: nat, ooo: set<nat>) {
    forall k :: k in ooo ==> k > highest && (increment == 1 ==> k != highest + 1)
  }

  // Nothing older than the counter is pending.
  ghost predicate NoneOld(rb: Requests.State, next: nat) {
    forall k :: k in rb.requests ==> k >= next
  }

  ghost predicate StillServed(highest: nat, ooo: set<nat>, h: nat, o: set<nat>) {
    forall k :: k <= highest || k in ooo ==> k <= h || k in o
  }

  lemma {:induction false} DrainKeepsServed(highest: nat, increment: nat, ooo: set<nat>)
    requires forall k :: k in ooo ==> k > highest
    ensures var (h, o) := Requests.Drain(highest, increment, ooo);
            && StillServed(highest, ooo, h, o) && OutOfOrderAbove(h, increment, o)
            && (increment == 1 ==> StillServed(h, o, highest, ooo))
    decreases ooo
  {
    if ooo != {} && Least(ooo) == highest + increment {
      DrainKeepsServed(highest + increment, increment, ooo - {highest + increment});
    }
  }

  // Removing a request makes its ID served, no served ID unserved, and with increment 1 no other ID served.
  lemma RemoveKeepsServed(rb: Requests.State, id: nat)
    requires OutOfOrderAbove(rb.highest, rb.increment, rb.outOfOrder)
    ensures var r := Requests.AfterRemove(rb, id);
            && (forall k :: Requests.Served(rb, k) || k == id ==> Requests.Served(r, k))
            && (rb.increment == 1 ==> forall k :: Requests.Served(r, k) ==> Requests.Served(rb, k) || k == id)
            && OutOfOrderAbove(r.highest, r.increment, r.outOfOrder)
            && r.requests == rb.requests - {id} && r.increment == rb.increment
  {
    if id > rb.highest { DrainKeepsServed(rb.highest, rb.increment, rb.outOfOrder + {id}); }
  }

  // ---------------------------------------------------------------- the two components side by side

  // From p to q both advanced: the request buffer covers what the counter passed, nothing old became pending,
  // and with increment 1 an ID that became served is one the counter passed or one that was complete.
  ghost predicate Together(p: Pipe, q: Pipe) {
    && Advanced(p, q)
    && q.rb.increment == p.rb.increment
    && (Covers(p.rb, p.next) ==> Covers(q.rb, q.next))
    && (NoneOld(p.rb, p.next) ==> NoneOld(q.rb, q.next))
    && (Covers(p.rb, p.next) && p.rb.increment == 1 ==>
          forall k: nat :: Requests.Served(q.rb, k) ==> Requests.Served(p.rb, k) || k < q.next || SentByAll(p.bufs, k))
  }

  lemma TogetherTwice(p: Pipe, q: Pipe, r: Pipe)
    requires Together(p, q) && Together(q, r)
    ensures Together(p, r)
  {
    AdvancedTwice(p, q, r);
    if Covers(p.rb, p.next) && p.rb.increment == 1 {
      forall k: nat | Requests.Served(r.rb, k) ensures Requests.Served(p.rb, k) || k < r.next || SentByAll(p.bufs, k) {
        if SentByAll(q.bufs, k) { StillSent(p, q, k); }
      }
    }
  }

  lemma NotMoved(p: Pipe)
    ensures Together(p, p)
  {
    NotAdvanced(p, p);
  }

  lemma RemoveCovers(rb: Requests.State, next: nat, id: nat)
    ensures var r := Requests.AfterRemove(rb, id);
            && r.increment == rb.increment && r.requests == rb.requests - {id}
            && (Covers(rb, next) ==> Covers(r, if id == next then next + 1 else next))
            && (NoneOld(rb, next) ==> NoneOld(r, if id == next then next + 1 else next))
            && (Covers(rb, next) && rb.increment == 1 ==>
                  forall k :: Requests.Served(r, k) ==> Requests.Served(rb, k) || k == id)
  {
    if Covers(rb, next) { RemoveKeepsServed(rb, id); }
  }

  lemma CompleteOneTogether(p: Pipe, seqId: nat)
    requires SentByAll(p.bufs, seqId)
    ensures Together(p, CompleteOne(p, seqId))
  {
    CompleteOneAdvances(p, seqId);
    RemoveCovers(p.rb, p.next, seqId);
  }

  lemma PassOneTogether(p: Pipe)
    ensures Together(p, PassOne(p))
  {
    ForgetAdvances(p, PassOne(p));
    RemoveCovers(p.rb, p.next, p.next);
  }

  lemma {:induction false} PassThroughTogether(p: Pipe, seqId: nat)
    ensures Together(p, PassThrough(p, seqId))
    decreases seqId + 1 - p.next
  {
    if p.next <= seqId {
      PassOneTogether(p);
      PassThroughTogether(PassOne(p), seqId);
      TogetherTwice(p, PassOne(p), PassThrough(PassOne(p), seqId));
    } else {
      NotMoved(p);
    }
  }

  lemma CheckSentTogether(p: Pipe, seqId: nat, expired: set<nat>)
    ensures Together(p, CheckSent(p, seqId, expired))
  {
    var q := if SentByAll(p.bufs, seqId) then CompleteOne(p, seqId) else p;
    if SentByAll(p.bufs, seqId) { CompleteOneTogether(p, seqId); } else { NotMoved(p); }
    PassThroughTogether(q, seqId);
    TogetherTwice(p, q, PassThrough(q, seqId));
  }

  lemma {:induction false} CheckEachTogether(p: Pipe, ids: seq<nat>, expired: set<nat>)
    ensures Together(p, CheckEach(p, ids, expired))
    decreases |ids|
  {
    if ids == [] {
      NotMoved(p);
    } else {
      CheckSentTogether(p, ids[0], expired);
      CheckEachTogether(CheckSent(p, ids[0], expired), ids[1..], expired);
      TogetherTwice(p, CheckSent(p, ids[0], expired), CheckEach(CheckSent(p, ids[0], expired), ids[1..], expired));
    }
  }

  // ---------------------------------------------------------------- the invariant of a pass

  // An ID at or above the counter counts as served only if its windows have been sent by all.
  ghost predicate ServedIsSent(p: Pipe) {
    forall k :: k >= p.next && Requests.Served(p.rb, k) ==> SentByAll(p.bufs, k)
  }

  // HighestRequestSeen is at or above every window remembered as sent.
  ghost predicate UpToHighest(bufs: map<nat, Buf>) {
    forall id, k :: id in bufs && k in bufs[id].sent ==> k <= bufs[id].highest
  }

  ghost predicate InStep(p: Pipe) {
    Covers(p.rb, p.next) && UpToHighest(p.bufs) && (p.rb.increment == 1 ==> ServedIsSent(p))
  }

  lemma AdvanceStaysUpToHighest(p: Pipe, q: Pipe)
    requires Advanced(p, q) && UpToHighest(p.bufs)
    ensures UpToHighest(q.bufs)
  {
    forall id, k | id in q.bufs && k in q.bufs[id].sent ensures k <= q.bufs[id].highest {
      assert q.bufs[id] == Trimmed(p.bufs[id], p.next, q.next);
    }
  }

  lemma TogetherKeepsInStep(p: Pipe, q: Pipe)
    requires Together(p, q) && InStep(p)
    ensures InStep(q) && (NoneOld(p.rb, p.next) ==> NoneOld(q.rb, q.next))
  {
    AdvanceStaysUpToHighest(p, q);
    if q.rb.increment == 1 {
      forall k | k >= q.next && Requests.Served(q.rb, k) ensures SentByAll(q.bufs, k) {
        assert SentByAll(p.bufs, k);
        SentStays(p, q, k);
      }
    }
  }

  lemma SentStays(p: Pipe, q: Pipe, k: nat)
    requires Advanced(p, q) && k >= q.next && SentByAll(p.bufs, k)
    ensures SentByAll(q.bufs, k)
  {
    forall id | id in q.bufs ensures k in q.bufs[id].sent && q.bufs[id].highest >= k {
      assert q.bufs[id] == Trimmed(p.bufs[id], p.next, q.next);
    }
  }

  // Asking the data buffers only adds to what was sent.
  lemma AnsweredKeepsSent(cfg: Config, b: Buf, seqId: nat, ts: nat, late: bool)
    ensures var r := AnsweredBuf(cfg, b, seqId, ts, late);
            b.sent <= r.sent <= b.sent + {seqId} && r.highest >= b.highest
              && (seqId in r.sent && seqId !in b.sent ==> r.highest >= seqId)
  {
  }

  lemma AnswersStayUpToHighest(cfg: Config, p: Pipe, seqId: nat, ts: nat, late: set<(nat, nat)>)
    requires UpToHighest(p.bufs)
    ensures UpToHighest(AnswerAll(cfg, p, seqId, ts, late).bufs)
  {
    var q := AnswerAll(cfg, p, seqId, ts, late);
    forall id, k | id in q.bufs && k in q.bufs[id].sent ensures k <= q.bufs[id].highest {
      AnsweredKeepsSent(cfg, p.bufs[id], seqId, ts, (seqId, id) in late);
    }
  }

  lemma AnswerAllKeepsInStep(cfg: Config, p: Pipe, seqId: nat, ts: nat, late: set<(nat, nat)>)
    requires InStep(p)
    ensures InStep(AnswerAll(cfg, p, seqId, ts, late))
  {
    var q := AnswerAll(cfg, p, seqId, ts, late);
    AnswersStayUpToHighest(cfg, p, seqId, ts, late);
    forall k | SentByAll(p.bufs, k) ensures SentByAll(q.bufs, k) {
      forall id | id in q.bufs ensures k in q.bufs[id].sent && q.bufs[id].highest >= k {
        AnsweredKeepsSent(cfg, p.bufs[id], seqId, ts, (seqId, id) in late);
      }
    }
  }

  lemma PassedKeepsInStep(p: Pipe, seqId: nat)
    requires InStep(p) && seqId < p.next
    ensures var q := p.(rb := Requests.AfterRemove(p.rb, seqId));
            InStep(q) && (NoneOld(p.rb, p.next) ==> NoneOld(q.rb, q.next))
  {
    RemoveCovers(p.rb, p.next, seqId);
  }

  lemma ServeKeepsInStep(cfg: Config, p: Pipe, seqId: nat, ts: nat, late: set<(nat, nat)>, expired: set<nat>)
    requires InStep(p)
    ensures var q := Serve(cfg, p, seqId, ts, late, expired);
            && InStep(q) && q.rb.increment == p.rb.increment && (NoneOld(p.rb, p.next) ==> NoneOld(q.rb, q.next))
            && (seqId >= p.next ==> q.next <= seqId + 1)
  {
    if cfg.mode == Window && seqId < p.next {
      PassedKeepsInStep(p, seqId);
      RemoveCovers(p.rb, p.next, seqId);
    } else if !(cfg.mode == Window && ts == cfg.invalidTimestamp) {
      var a := AnswerAll(cfg, p, seqId, ts, late);
      AnswerAllKeepsInStep(cfg, p, seqId, ts, late);
      CheckSentTogether(a, seqId, expired);
      TogetherKeepsInStep(a, CheckSent(a, seqId, expired));
      CheckSentAdvances(a, seqId, expired);
    }
  }

  lemma {:induction false} ServeEachKeepsInStep(cfg: Config, p: Pipe, reqs: map<nat, nat>, ids: seq<nat>,
        late: set<(nat, nat)>, expired: set<nat>)
    requires InStep(p) && forall k :: k in ids ==> k in reqs
    ensures var q := ServeEach(cfg, p, reqs, ids, late, expired);
            InStep(q) && q.rb.increment == p.rb.increment && (NoneOld(p.rb, p.next) ==> NoneOld(q.rb, q.next))
    decreases |ids|
  {
    if ids != [] {
      FirstIsIn(ids);
      ServeKeepsInStep(cfg, p, ids[0], reqs[ids[0]], late, expired);
      ServeEachKeepsInStep(cfg, Serve(cfg, p, ids[0], reqs[ids[0]], late, expired), reqs, ids[1..], late, expired);
    }
  }

  lemma PassKeepsInStep(cfg: Config, p: Pipe, late: set<(nat, nat)>, expired: set<nat>, expiredLater: set<nat>)
    requires InStep(p)
    ensures var q := WindowPass(cfg, p, late, expired, expiredLater);
            InStep(q) && q.rb.increment == p.rb.increment && (NoneOld(p.rb, p.next) ==> NoneOld(q.rb, q.next))
  {
    var ids := Sorted(p.rb.requests.Keys);
    ServeEachKeepsInStep(cfg, p, p.rb.requests, ids, late, expired);
    var q := ServeEach(cfg, p, p.rb.requests, ids, late, expired);
    CheckEachTogether(q, Sorted(AllSent(q.bufs)), expiredLater);
    TogetherKeepsInStep(q, CheckEach(q, Sorted(AllSent(q.bufs)), expiredLater));
  }

  // The branch for a request that the counter has already passed is never taken.
  ghost predicate NeverPassed(cfg: Config, p: Pipe, reqs: map<nat, nat>, ids: seq<nat>, late: set<(nat, nat)>,
                              expired: set<nat>)
    requires forall k :: k in ids ==> k in reqs
    decreases |ids|
  {
    ids != [] ==>
      && ids[0] >= p.next
      && NeverPassed(cfg, Serve(cfg, p, ids[0], reqs[ids[0]], late, expired), reqs, ids[1..], late, expired)
  }

  lemma {:induction false} YoungRequestsAreNotPassed(cfg: Config, p: Pipe, reqs: map<nat, nat>, ids: seq<nat>,
        late: set<(nat, nat)>, expired: set<nat>)
    requires InStep(p) && Increasing(ids) && forall k :: k in ids ==> k in reqs && k >= p.next
    ensures NeverPassed(cfg, p, reqs, ids, late, expired)
    decreases |ids|
  {
    if ids != [] {
      FirstIsIn(ids);
      forall k | k in ids[1..] ensures k in ids && k > ids[0] {}
      ServeKeepsInStep(cfg, p, ids[0], reqs[ids[0]], late, expired);
      YoungRequestsAreNotPassed(cfg, Serve(cfg, p, ids[0], reqs[ids[0]], late, expired), reqs, ids[1..], late, expired);
    }
  }

  // ---------------------------------------------------------------- pushes

  // The buffer can tell by the narrowed distance that an ID below the counter, at or below the watermark, was served.
  ghost predicate ToldOld(rb: Requests.State, next: nat, id: nat) {
    id < next && id <= rb.highest ==> Requests.GapFits(rb.highest, id)
  }

  lemma PushKeepsInStep(p: Pipe, id: nat, ts: nat)
    requires InStep(p)
    ensures var q := p.(rb := Requests.AfterPush(p.rb, id, ts));
            InStep(q) && (NoneOld(p.rb, p.next) && ToldOld(p.rb, p.next, id) ==> NoneOld(q.rb, q.next))
  {
    var r := Requests.AfterPush(p.rb, id, ts);
    assert forall k :: Requests.Served(r, k) == Requests.Served(p.rb, k);
    Requests.NarrowKeepsSign(p.rb.highest, id);
    assert Requests.Admits(p.rb, id) && ToldOld(p.rb, p.next, id) && id < p.next ==> !Requests.Served(p.rb, id);
  }

  // With increment 1, between passes: the watermark is just below the counter.
  lemma WatermarkMeetsCounter(p: Pipe)
    requires InStep(p) && p.rb.increment == 1 && !SentByAll(p.bufs, p.next)
    ensures p.rb.highest + 1 == p.next
  {
    assert !Requests.Served(p.rb, p.next);
    assert Requests.Served(p.rb, p.rb.highest + 1) ==> p.rb.highest + 1 in p.rb.outOfOrder;
  }

  // A push that the buffer cannot tell makes an old request pending.
  lemma UntoldPushIsOld(p: Pipe, id: nat, ts: nat)
    requires InStep(p) && !ToldOld(p.rb, p.next, id)
    ensures NoneOld(p.rb, p.next) ==> !NoneOld(Requests.AfterPush(p.rb, id, ts), p.next)
  {
    Requests.NarrowKeepsSign(p.rb.highest, id);
    if NoneOld(p.rb, p.next) {
      assert Requests.Admits(p.rb, id) && id in Requests.AfterPush(p.rb, id, ts).requests;
    }
  }
}
