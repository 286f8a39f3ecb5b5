/** How a window below the counter comes to be remembered as sent, in SequenceID mode: by a request that the 32-bit
    distance lets in again (artdaq/DAQrate/RequestBuffer.cc:32). */
module CounterExamples {
  import opened Ordered
  import opened DataBuffers
  import opened Pipeline
  import opened LatestRuns
  import opened WindowRuns
  import opened CounterAgreement
  import opened CounterRuns
  import Requests

  const PLAIN := Config(SequenceID, false, 0, 0, 0, true, false, false, 0, 0, 0)

  function FragmentOf(k: nat): Fragment {
    Fragment(0, k, 0, 1, 0, false)
  }

  // A request, its fragment, and a pass in which the window is overdue.
  function Round(k: nat): seq<Op> {
    [Push(k, 0), Arrive(0, [FragmentOf(k)]), Pass({}, {k}, {})]
  }

  // One data buffer, nothing pending and no window remembered.
  ghost predicate Quiet(p: Pipe) {
    && p.bufs.Keys == {0} && p.bufs[0].sent == {} && p.rb.requests == map[]
    && p.rb.increment == 1 && InStep(p) && p.rb.highest + 1 == p.next
  }

  // ---------------------------------------------------------------- one round

  lemma MatchesLast(s: seq<Fragment>, k: nat)
    ensures Matching(s + [FragmentOf(k)], k) != []
  {
    TakingSplits(s + [FragmentOf(k)], k);
    assert FragmentOf(k) in s + [FragmentOf(k)];
    assert FragmentOf(k) in Matching(s + [FragmentOf(k)], k);
  }

  // What the first two steps do.
  ghost predicate Waiting(p: Pipe, k: nat) {
    && p.bufs.Keys == {0} && p.bufs[0].sent == {} && p.rb.requests == map[k := 0]
    && Matching(p.bufs[0].frags, k) != []
  }

  lemma PushAndArrive(p: Pipe, k: nat)
    requires p.bufs.Keys == {0} && p.bufs[0].sent == {} && p.rb.requests == map[] && Requests.Admits(p.rb, k)
    ensures var q := Step(PLAIN, Step(PLAIN, p, Push(k, 0)), Arrive(0, [FragmentOf(k)]));
            Waiting(q, k) && q.next == p.next && q.rb == Requests.AfterPush(p.rb, k, 0)
  {
    MatchesLast(p.bufs[0].frags, k);
    assert map[][k := 0] == map[k := 0];
  }

  lemma {:induction false} PassThroughRequests(p: Pipe, seqId: nat)
    ensures PassThrough(p, seqId).rb.requests.Keys <= p.rb.requests.Keys
    decreases seqId + 1 - p.next
  {
    if p.next <= seqId { PassThroughRequests(PassOne(p), seqId); }
  }

  // Of the one data buffer that has sent k, the check forgets it and moves the counter after it.
  lemma CheckPasses(a: Pipe, k: nat)
    requires a.bufs.Keys == {0} && a.bufs[0].sent == {k} && UpToHighest(a.bufs) && a.next <= k
    requires a.rb.requests == map[k := 0]
    ensures var q := CheckSent(a, k, {k});
            && q.next == k + 1 && q.bufs.Keys == {0} && q.bufs[0].sent == {} && q.rb.requests.Keys <= {k}
  {
    assert SentByAll(a.bufs, k) && SentBySome(a.bufs, k);
    var c := CompleteOne(a, k);
    CompleteOneAdvances(a, k);
    PassThroughAdvances(c, k);
    PassThroughRequests(c, k);
    AdvancedTwice(a, c, PassThrough(c, k));
    assert PassThrough(c, k).bufs[0] == Trimmed(a.bufs[0], a.next, k + 1);
  }

  lemma AnswersOne(p: Pipe, k: nat)
    requires Waiting(p, k) && UpToHighest(p.bufs)
    ensures var a := AnswerAll(PLAIN, p, k, 0, {});
            && a.bufs.Keys == {0} && a.bufs[0].sent == {k} && UpToHighest(a.bufs)
            && a.rb == p.rb && a.next == p.next
  {
    AnswersStayUpToHighest(PLAIN, p, k, 0, {});
    assert {} + {k} == {k};
  }

  lemma SortedOne(k: nat)
    ensures Sorted({k}) == [k] && Sorted({}) == []
  {
    SortedFirst({k});
    assert {k} - {k} == {};
  }

  lemma ServesOne(p: Pipe, k: nat)
    requires Waiting(p, k) && UpToHighest(p.bufs) && p.next <= k
    ensures var q := Serve(PLAIN, p, k, 0, {}, {k});
            && q.next == k + 1 && q.bufs.Keys == {0} && q.bufs[0].sent == {} && q.rb.requests.Keys <= {k}
  {
    AnswersOne(p, k);
    CheckPasses(AnswerAll(PLAIN, p, k, 0, {}), k);
  }

  lemma PassServesOne(p: Pipe, k: nat)
    requires Waiting(p, k) && UpToHighest(p.bufs) && p.next <= k
    ensures var q := WindowPass(PLAIN, p, {}, {k}, {});
            && q.next == k + 1 && q.bufs.Keys == {0} && q.bufs[0].sent == {} && q.rb.requests.Keys <= {k}
  {
    SortedOne(k);
    ServesOne(p, k);
    assert p.rb.requests.Keys == {k};
    PassIsServe(p, k, Serve(PLAIN, p, k, 0, {}, {k}));
  }

  lemma PassIsServe(p: Pipe, k: nat, q: Pipe)
    requires p.rb.requests == map[k := 0] && Sorted(p.rb.requests.Keys) == [k] && Sorted({}) == []
    requires q == Serve(PLAIN, p, k, 0, {}, {k}) && q.bufs.Keys == {0} && q.bufs[0].sent == {}
    ensures WindowPass(PLAIN, p, {}, {k}, {}) == q
  {
    assert [k][1..] == [];
    assert ServeEach(PLAIN, q, p.rb.requests, [], {}, {k}) == q;
    assert AllSent(q.bufs) == {};
  }

  lemma NothingServedAhead(p: Pipe, k: nat)
    requires Quiet(p) && k >= p.next
    ensures !Requests.Served(p.rb, k)
  {
    assert 0 in p.bufs && k !in p.bufs[0].sent;
    assert !SentByAll(p.bufs, k);
  }

  lemma QuietRound(p: Pipe, k: nat)
    requires Quiet(p) && p.next <= k < p.rb.highest + 0x8000_0000
    ensures var b := Step(PLAIN, Step(PLAIN, p, Push(k, 0)), Arrive(0, [FragmentOf(k)]));
            var q := Step(PLAIN, b, Pass({}, {k}, {}));
            Quiet(q) && q.next == k + 1
  {
    NothingServedAhead(p, k);
    var b := Step(PLAIN, Step(PLAIN, p, Push(k, 0)), Arrive(0, [FragmentOf(k)]));
    PushAndArrive(p, k);
    PushStaysInStep(p, b, k);
    PassStaysQuiet(p, b, k);
  }

  lemma PushStaysInStep(p: Pipe, b: Pipe, k: nat)
    requires Quiet(p) && Waiting(b, k) && b.next == p.next && b.rb == Requests.AfterPush(p.rb, k, 0)
    ensures InStep(b)
  {
    forall i | i >= p.next ensures !Requests.Served(b.rb, i) {
      NothingServedAhead(p, i);
    }
  }

  lemma PassStaysQuiet(p: Pipe, b: Pipe, k: nat)
    requires Quiet(p) && p.next <= k && Waiting(b, k) && b.next == p.next && b.rb == Requests.AfterPush(p.rb, k, 0)
    requires InStep(b)
    ensures var q := WindowPass(PLAIN, b, {}, {k}, {}); Quiet(q) && q.next == k + 1
  {
    var q := WindowPass(PLAIN, b, {}, {k}, {});
    PassServesOne(b, k);
    PassKeepsInStep(PLAIN, b, {}, {k}, {});
    IsQuiet(q, k);
  }

  lemma IsQuiet(q: Pipe, k: nat)
    requires q.bufs.Keys == {0} && q.bufs[0].sent == {} && q.rb.increment == 1 && InStep(q) && q.next == k + 1
    requires q.rb.requests.Keys <= {k} && NoneOld(q.rb, q.next)
    ensures Quiet(q)
  {
    assert q.rb.requests == map[];
    assert 0 in q.bufs && !SentByAll(q.bufs, q.next);
    WatermarkMeetsCounter(q);
  }

  // ---------------------------------------------------------------- the run

  lemma RunHalf(ops: seq<Op>, p: Pipe, k: nat)
    requires p == Run(PLAIN, {0}, 1, ops)
    ensures Run(PLAIN, {0}, 1, ops + [Push(k, 0)] + [Arrive(0, [FragmentOf(k)])])
            == Step(PLAIN, Step(PLAIN, p, Push(k, 0)), Arrive(0, [FragmentOf(k)]))
  {
    var a := Step(PLAIN, p, Push(k, 0));
    OneMoreStep(PLAIN, {0}, 1, ops, p, Push(k, 0), a);
    OneMoreStep(PLAIN, {0}, 1, ops + [Push(k, 0)], a, Arrive(0, [FragmentOf(k)]),
                Step(PLAIN, a, Arrive(0, [FragmentOf(k)])));
  }

  lemma RunRound(ops: seq<Op>, p: Pipe, k: nat)
    requires p == Run(PLAIN, {0}, 1, ops) && Quiet(p) && p.next <= k < p.rb.highest + 0x8000_0000
    ensures var q := Run(PLAIN, {0}, 1, ops + Round(k)); Quiet(q) && q.next == k + 1
  {
    QuietRound(p, k);
    var b := Step(PLAIN, Step(PLAIN, p, Push(k, 0)), Arrive(0, [FragmentOf(k)]));
    RunHalf(ops, p, k);
    OneMoreStep(PLAIN, {0}, 1, ops + [Push(k, 0)] + [Arrive(0, [FragmentOf(k)])], b, Pass({}, {k}, {}),
                Step(PLAIN, b, Pass({}, {k}, {})));
    RoundJoins(ops, k);
  }

  lemma RoundJoins(ops: seq<Op>, k: nat)
    ensures ops + [Push(k, 0)] + [Arrive(0, [FragmentOf(k)])] + [Pass({}, {k}, {})] == ops + Round(k)
  {
  }

  lemma StartIsQuiet()
    ensures Quiet(Run(PLAIN, {0}, 1, []))
  {
    StartAgrees({0}, 1);
  }

  // Request 1 comes when the watermark is 2^31 + 2 or more: it is let in, and finds its data.
  lemma OldRequestFinds(ops: seq<Op>, p: Pipe)
    requires p == Run(PLAIN, {0}, 1, ops) && Quiet(p) && p.rb.highest == 0x8000_0002
    ensures !NothingOldFound(PLAIN, {0}, 1, ops + Round(1))
  {
    OneIsAdmitted(p);
    PushAndArrive(p, 1);
    RunHalf(ops, p, 1);
    FindsOld(ops, Step(PLAIN, Step(PLAIN, p, Push(1, 0)), Arrive(0, [FragmentOf(1)])));
  }

  lemma OneIsAdmitted(p: Pipe)
    requires Quiet(p) && p.rb.highest == 0x8000_0002
    ensures Requests.Admits(p.rb, 1) && p.next > 1
  {
    assert Requests.Narrow(1 - 0x8000_0002) == 0x7FFF_FFFF;
  }

  lemma FindsOld(ops: seq<Op>, b: Pipe)
    requires b == Run(PLAIN, {0}, 1, ops + [Push(1, 0)] + [Arrive(0, [FragmentOf(1)])])
    requires Waiting(b, 1) && b.next > 1
    ensures !NothingOldFound(PLAIN, {0}, 1, ops + Round(1))
  {
    var more := ops + Round(1);
    assert 1 in b.rb.requests.Keys && 0 in b.bufs;
    assert more[..|ops| + 2] == ops + [Push(1, 0)] + [Arrive(0, [FragmentOf(1)])];
    assert !FindsNothingOld(PLAIN, b, more[|ops| + 2]);
  }

  // Requests 2^31 - 1, 2^31 + 2 and then 1, each with its fragment: afterwards the window 1, far below the counter, is
  // remembered as sent.
  lemma OldWindowIsRemembered()
    ensures !Ahead(Run(PLAIN, {0}, 1, Round(0x7FFF_FFFF) + Round(0x8000_0002) + Round(1)))
  {
    StartIsQuiet();
    assert [] + Round(0x7FFF_FFFF) == Round(0x7FFF_FFFF);
    RunRound([], Run(PLAIN, {0}, 1, []), 0x7FFF_FFFF);
    var p := Run(PLAIN, {0}, 1, Round(0x7FFF_FFFF));
    RunRound(Round(0x7FFF_FFFF), p, 0x8000_0002);
    var ops := Round(0x7FFF_FFFF) + Round(0x8000_0002);
    OldRequestFinds(ops, Run(PLAIN, {0}, 1, ops));
    WindowsSentStayAheadIff(PLAIN, {0}, 1, ops + Round(1));
  }
}
