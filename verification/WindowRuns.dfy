/** Window and SequenceID mode over whole runs (artdaq/DAQrate/FragmentBuffer.cc:684-797, 910-962): each window is sent
    once, sequence IDs are passed only complete or timed out, and the cached depths stay those of the lists. */
module WindowRuns {
  import opened Ordered
  import opened DataBuffers
  import opened Windows
  import opened Pipeline
  import opened LatestRuns
  import BufferMode

  // The modes in which a request waits for its data.
  predicate Waits(cfg: Config) {
    cfg.mode == Window || cfg.mode == SequenceID
  }

  // ---------------------------------------------------------------- one data buffer

  lemma {:induction false} LeftIsPart(w: Span, s: seq<Fragment>)
    ensures forall f :: f in Left(w, s) ==> f in s
  {
    if s != [] { LeftIsPart(w, s[1..]); }
  }

  lemma FillKeepsOwn(cfg: Config, b: Buf, seqId: nat, ts: nat, late: bool)
    ensures forall f :: f in FilledBuf(cfg, b, seqId, ts, late).frags ==> f in b.frags
  {
    var w := WindowOf(cfg, ts);
    var start := ScanStart(w, b.frags, !Closed(cfg, b, ts));
    LeftIsPart(w, b.frags[start..]);
  }

  // Taking the fragments of one sequence ID takes all of them, and leaves the rest as it was.
  lemma {:induction false} TakingSplits(s: seq<Fragment>, seqId: nat)
    ensures Bytes(Matching(s, seqId)) + Bytes(Others(s, seqId)) == Bytes(s)
    ensures forall f :: f in Matching(s, seqId) <==> f in s && f.seqId == seqId
    ensures forall f :: f in Others(s, seqId) <==> f in s && f.seqId != seqId
    ensures Matching(s, seqId) == [] ==> Others(s, seqId) == s
  {
    if s != [] {
      TakingSplits(s[1..], seqId);
      assert s == [s[0]] + s[1..];
      BytesOfConcat(if s[0].seqId == seqId then [s[0]] else [], Matching(s[1..], seqId));
      BytesOfConcat(if s[0].seqId == seqId then [] else [s[0]], Others(s[1..], seqId));
      assert [s[0]][1..] == [];
    }
  }

  lemma TakingKeepsDepths(b: Buf, seqId: nat, sent: set<nat>, highest: nat)
    requires DepthsExact(b)
    ensures var rest := Others(b.frags, seqId);
            DepthsExact(Buf(rest, |rest|, b.depthBytes - Bytes(Matching(b.frags, seqId)), sent, highest, b.kept))
  {
    TakingSplits(b.frags, seqId);
  }

  lemma AnsweredKeepsDepths(cfg: Config, b: Buf, seqId: nat, ts: nat, late: bool)
    requires DepthsExact(b)
    ensures DepthsExact(AnsweredBuf(cfg, b, seqId, ts, late))
  {
    match cfg.mode
    case Single =>
    case Buffer => BufferMode.ResponseKeepsDepths(cfg, b);
    case Window => FillKeepsDepths(cfg, b, seqId, ts, late);
    case SequenceID => TakingKeepsDepths(b, seqId, b.sent + {seqId}, if seqId > b.highest then seqId else b.highest);
    case Ignored =>
  }

  lemma AnsweredKeepsOwn(cfg: Config, b: Buf, seqId: nat, ts: nat, late: bool)
    requires Waits(cfg)
    ensures forall f :: f in AnsweredBuf(cfg, b, seqId, ts, late).frags ==> f in b.frags
  {
    if cfg.mode == Window { FillKeepsOwn(cfg, b, seqId, ts, late); } else { TakingSplits(b.frags, seqId); }
  }

  lemma AnsweredKeepsAnswerable(cfg: Config, b: Buf, id: nat, seqId: nat, ts: nat, late: bool)
    requires Waits(cfg) && Answerable(cfg, b, id)
    ensures Answerable(cfg, AnsweredBuf(cfg, b, seqId, ts, late), id)
  {
    AnsweredKeepsDepths(cfg, b, seqId, ts, late);
    AnsweredKeepsOwn(cfg, b, seqId, ts, late);
  }

  // The data buffer answers the request now.
  predicate Sends(cfg: Config, b: Buf, seqId: nat, ts: nat, late: bool) {
    seqId !in b.sent && if cfg.mode == Window then Answers(cfg, b, ts, late) else Matching(b.frags, seqId) != []
  }

  lemma {:induction false} PlainNumbers(s: seq<Fragment>, id: nat, seqId: nat, q: nat)
    requires forall f :: f in s ==> f.id == id && f.seqId == seqId
    ensures var ns := Numbers(Plains(s), q);
            |ns| == (if q == id then |s| else 0) && forall n :: n in ns ==> n == seqId
  {
    if s != [] {
      var front, last := s[..|s| - 1], s[|s| - 1];
      PlainNumbers(front, id, seqId, q);
      assert last in s;
      assert Plains(s)[..|s| - 1] == Plains(front);
    }
  }

  // ns is what a data buffer sends for seqId: nothing, or only that.
  ghost predicate SendsOnly(cfg: Config, ns: seq<nat>, seqId: nat, sends: bool) {
    && (ns != [] <==> sends)
    && (forall n :: n in ns ==> n == seqId)
    && (cfg.mode == Window ==> |ns| <= 1)
  }

  lemma WindowNumbers(cfg: Config, b: Buf, id: nat, seqId: nat, ts: nat, late: bool, q: nat)
    requires cfg.mode == Window
    ensures SendsOnly(cfg, Numbers(Answer(cfg, b, id, seqId, ts, late), q), seqId,
                      q == id && Sends(cfg, b, seqId, ts, late))
  {
    var a := Answer(cfg, b, id, seqId, ts, late);
    if a != [] { NumbersOfOne(a[0], q); }
  }

  lemma TakingNumbers(cfg: Config, b: Buf, id: nat, seqId: nat, ts: nat, late: bool, q: nat)
    requires cfg.mode == SequenceID && Answerable(cfg, b, id)
    ensures SendsOnly(cfg, Numbers(Answer(cfg, b, id, seqId, ts, late), q), seqId,
                      q == id && Sends(cfg, b, seqId, ts, late))
  {
    if seqId !in b.sent {
      TakingSplits(b.frags, seqId);
      PlainNumbers(Matching(b.frags, seqId), id, seqId, q);
    }
  }

  lemma AnswerNumbers(cfg: Config, b: Buf, id: nat, seqId: nat, ts: nat, late: bool, q: nat)
    requires Waits(cfg) && Answerable(cfg, b, id)
    ensures SendsOnly(cfg, Numbers(Answer(cfg, b, id, seqId, ts, late), q), seqId,
                      q == id && Sends(cfg, b, seqId, ts, late))
  {
    if cfg.mode == Window {
      WindowNumbers(cfg, b, id, seqId, ts, late, q);
    } else {
      TakingNumbers(cfg, b, id, seqId, ts, late, q);
    }
  }

  // ---------------------------------------------------------------- what was sent

  // ns: the sequence IDs of everything sent for the fragment ID of b.
  ghost predicate Tracked(cfg: Config, ns: seq<nat>, b: Buf, next: nat, passed: set<nat>) {
    && (cfg.mode == Window ==> NoRepeats(ns))
    && (forall n :: n in ns ==> n < next || n in b.sent)
    && (forall k :: k in b.sent ==> k in ns)
    && (forall k :: 1 <= k < next ==> k in passed || k in ns)
  }

  lemma AnswerKeepsTracked(cfg: Config, ns: seq<nat>, b: Buf, id: nat, next: nat, passed: set<nat>, seqId: nat, ts: nat,
                           late: bool)
    requires Waits(cfg) && (cfg.mode == Window ==> seqId >= next)
    requires Answerable(cfg, b, id) && Tracked(cfg, ns, b, next, passed)
    ensures Tracked(cfg, ns + Numbers(Answer(cfg, b, id, seqId, ts, late), id), AnsweredBuf(cfg, b, seqId, ts, late),
            next, passed)
  {
    AnswerNumbers(cfg, b, id, seqId, ts, late, id);
    var more := Numbers(Answer(cfg, b, id, seqId, ts, late), id);
    if more != [] { assert more[0] in more; }
  }

  lemma AnswersNumbers(cfg: Config, bufs: map<nat, Buf>, ids: seq<nat>, seqId: nat, ts: nat, late: set<(nat, nat)>,
                       q: nat)
    requires Waits(cfg)
    requires Increasing(ids) && AllAnswerable(cfg, bufs) && forall id :: id in ids ==> id in bufs
    ensures Numbers(AnswersOf(cfg, bufs, ids, seqId, ts, late), q)
            == if q in ids then Numbers(Answer(cfg, bufs[q], q, seqId, ts, (seqId, q) in late), q) else []
  {
    forall i | i in ids && i != q ensures Numbers(AnswerOf(cfg, bufs, i, seqId, ts, late), q) == [] {
      AnswerNumbers(cfg, bufs[i], i, seqId, ts, (seqId, i) in late, q);
    }
    CollectAnswers(cfg, bufs, ids, seqId, ts, late, NumberOf(q), q);
  }

  // ---------------------------------------------------------------- advancing the counter

  function Trimmed(b: Buf, from: nat, to: nat): Buf {
    b.(sent := set k | k in b.sent && !(from <= k < to))
  }

  // q is p with the counter advanced: the windows between are forgotten, and each was complete or is passed.
  ghost predicate Advanced(p: Pipe, q: Pipe) {
    && p.next <= q.next && q.out == p.out && p.passed <= q.passed && q.bufs.Keys == p.bufs.Keys
    && (forall id :: id in p.bufs ==> q.bufs[id] == Trimmed(p.bufs[id], p.next, q.next))
    && (forall k :: p.next <= k < q.next ==> k in q.passed || SentByAll(p.bufs, k))
  }

  lemma NothingTrimmed(b: Buf, next: nat)
    ensures Trimmed(b, next, next) == b
  {
  }

  lemma NotAdvanced(p: Pipe, q: Pipe)
    requires q == p.(rb := q.rb)
    ensures Advanced(p, q)
  {
    forall id | id in p.bufs
      ensures q.bufs[id] == Trimmed(p.bufs[id], p.next, q.next)
    {
      NothingTrimmed(p.bufs[id], p.next);
    }
  }

  lemma TrimmedTwice(b: Buf, x: nat, y: nat, z: nat)
    requires x <= y <= z
    ensures Trimmed(Trimmed(b, x, y), y, z) == Trimmed(b, x, z)
  {
  }

  lemma AdvancedTwice(p: Pipe, q: Pipe, r: Pipe)
    requires Advanced(p, q) && Advanced(q, r)
    ensures Advanced(p, r)
  {
    forall id | id in p.bufs ensures r.bufs[id] == Trimmed(p.bufs[id], p.next, r.next) {
      TrimmedTwice(p.bufs[id], p.next, q.next, r.next);
    }
    forall k | p.next <= k < r.next ensures k in r.passed || SentByAll(p.bufs, k) {
      if k >= q.next && SentByAll(q.bufs, k) { StillSent(p, q, k); }
    }
  }

  lemma StillSent(p: Pipe, q: Pipe, k: nat)
    requires Advanced(p, q) && SentByAll(q.bufs, k)
    ensures SentByAll(p.bufs, k)
  {
    forall id | id in p.bufs ensures k in p.bufs[id].sent && p.bufs[id].highest >= k {
      assert k in q.bufs[id].sent;
    }
  }

  lemma ForgetAdvances(p: Pipe, q: Pipe)
    requires q.bufs == Forget(p.bufs, p.next) && q.next == p.next + 1 && q.out == p.out && p.passed <= q.passed
    requires p.next in q.passed || SentByAll(p.bufs, p.next)
    ensures Advanced(p, q)
  {
    forall id | id in p.bufs ensures q.bufs[id] == Trimmed(p.bufs[id], p.next, q.next) {
      assert p.bufs[id].sent - {p.next} == Trimmed(p.bufs[id], p.next, q.next).sent;
    }
  }

  lemma {:induction false} PassThroughAdvances(p: Pipe, seqId: nat)
    ensures Advanced(p, PassThrough(p, seqId))
    ensures PassThrough(p, seqId).next == if p.next <= seqId then seqId + 1 else p.next
    decreases seqId + 1 - p.next
  {
    if p.next <= seqId {
      ForgetAdvances(p, PassOne(p));
      PassThroughAdvances(PassOne(p), seqId);
      AdvancedTwice(p, PassOne(p), PassThrough(PassOne(p), seqId));
    } else {
      NotAdvanced(p, p);
    }
  }

  lemma CompleteOneAdvances(p: Pipe, seqId: nat)
    requires SentByAll(p.bufs, seqId)
    ensures Advanced(p, CompleteOne(p, seqId))
    ensures CompleteOne(p, seqId).next == if p.next == seqId then seqId + 1 else p.next
  {
    if p.next == seqId { ForgetAdvances(p, CompleteOne(p, seqId)); } else { NotAdvanced(p, CompleteOne(p, seqId)); }
  }

  // One check moves the counter to just after the ID it checks, or not at all; it never stays on a complete ID.
  lemma CheckSentAdvances(p: Pipe, seqId: nat, expired: set<nat>)
    ensures var q := CheckSent(p, seqId, expired);
            && Advanced(p, q)
            && (q.next == p.next || (q.next == seqId + 1 && p.next <= seqId))
            && (p.next == seqId && SentByAll(p.bufs, seqId) ==> q.next == seqId + 1)
  {
    var q := if SentByAll(p.bufs, seqId) then CompleteOne(p, seqId) else p;
    if SentByAll(p.bufs, seqId) { CompleteOneAdvances(p, seqId); } else { NotAdvanced(p, p); }
    PassThroughAdvances(q, seqId);
    AdvancedTwice(p, q, PassThrough(q, seqId));
  }

  lemma {:induction false} CheckEachAdvances(p: Pipe, ids: seq<nat>, expired: set<nat>)
    ensures Advanced(p, CheckEach(p, ids, expired))
    decreases |ids|
  {
    if ids == [] {
      NotAdvanced(p, p);
    } else {
      var q := CheckSent(p, ids[0], expired);
      CheckSentAdvances(p, ids[0], expired);
      CheckEachAdvances(q, ids[1..], expired);
      AdvancedTwice(p, q, CheckEach(q, ids[1..], expired));
    }
  }

  lemma AdvanceKeepsTracked(cfg: Config, p: Pipe, q: Pipe, ns: seq<nat>, id: nat)
    requires Advanced(p, q) && id in p.bufs && Tracked(cfg, ns, p.bufs[id], p.next, p.passed)
    ensures Tracked(cfg, ns, q.bufs[id], q.next, q.passed)
  {
    forall k | p.next <= k < q.next ensures k in q.passed || k in ns {
      if SentByAll(p.bufs, k) { assert k in p.bufs[id].sent; }
    }
  }

  // ---------------------------------------------------------------- the invariant

  ghost predicate AllTracked(cfg: Config, p: Pipe) {
    forall id :: id in p.bufs ==> Tracked(cfg, Numbers(p.out, id), p.bufs[id], p.next, p.passed)
  }

  ghost predicate Inv(cfg: Config, p: Pipe) {
    p.next >= 1 && AllAnswerable(cfg, p.bufs) && AllTracked(cfg, p)
  }

  lemma AdvanceKeepsInv(cfg: Config, p: Pipe, q: Pipe)
    requires Inv(cfg, p) && Advanced(p, q)
    ensures Inv(cfg, q)
  {
    forall id | id in q.bufs ensures Tracked(cfg, Numbers(q.out, id), q.bufs[id], q.next, q.passed) {
      AdvanceKeepsTracked(cfg, p, q, Numbers(p.out, id), id);
    }
    forall id | id in q.bufs ensures Answerable(cfg, q.bufs[id], id) {
      assert Answerable(cfg, p.bufs[id], id);
    }
  }

  lemma AnswerAllKeepsTracked(cfg: Config, p: Pipe, seqId: nat, ts: nat, late: set<(nat, nat)>, id: nat)
    requires Waits(cfg) && (cfg.mode == Window ==> seqId >= p.next)
    requires Inv(cfg, p) && id in p.bufs
    ensures var q := AnswerAll(cfg, p, seqId, ts, late); Tracked(cfg, Numbers(q.out, id), q.bufs[id], q.next, q.passed)
  {
    var ids := Sorted(p.bufs.Keys);
    AnswersNumbers(cfg, p.bufs, ids, seqId, ts, late, id);
    NumbersOfMore(p.out, AnswersOf(cfg, p.bufs, ids, seqId, ts, late), id);
    AnswerKeepsTracked(cfg, Numbers(p.out, id), p.bufs[id], id, p.next, p.passed, seqId, ts, (seqId, id) in late);
  }

  lemma AnswerAllKeepsInv(cfg: Config, p: Pipe, seqId: nat, ts: nat, late: set<(nat, nat)>)
    requires Waits(cfg) && (cfg.mode == Window ==> seqId >= p.next)
    requires Inv(cfg, p)
    ensures Inv(cfg, AnswerAll(cfg, p, seqId, ts, late))
  {
    var q := AnswerAll(cfg, p, seqId, ts, late);
    forall id | id in q.bufs ensures Tracked(cfg, Numbers(q.out, id), q.bufs[id], q.next, q.passed) {
      AnswerAllKeepsTracked(cfg, p, seqId, ts, late, id);
    }
    forall id | id in q.bufs ensures Answerable(cfg, q.bufs[id], id) {
      AnsweredKeepsAnswerable(cfg, p.bufs[id], id, seqId, ts, (seqId, id) in late);
    }
  }

  lemma ServeKeepsInv(cfg: Config, p: Pipe, seqId: nat, ts: nat, late: set<(nat, nat)>, expired: set<nat>)
    requires Waits(cfg) && Inv(cfg, p)
    ensures Inv(cfg, Serve(cfg, p, seqId, ts, late, expired))
  {
    if cfg.mode == Window && seqId < p.next {
      NotAdvanced(p, Serve(cfg, p, seqId, ts, late, expired));
      AdvanceKeepsInv(cfg, p, Serve(cfg, p, seqId, ts, late, expired));
    } else {
      var a := AnswerAll(cfg, p, seqId, ts, late);
      AnswerAllKeepsInv(cfg, p, seqId, ts, late);
      CheckSentAdvances(a, seqId, expired);
      AdvanceKeepsInv(cfg, a, CheckSent(a, seqId, expired));
    }
  }

  lemma {:induction false} ServeEachKeepsInv(cfg: Config, p: Pipe, reqs: map<nat, nat>, ids: seq<nat>,
                                             late: set<(nat, nat)>, expired: set<nat>)
    requires Waits(cfg) && Inv(cfg, p) && forall k :: k in ids ==> k in reqs
    ensures Inv(cfg, ServeEach(cfg, p, reqs, ids, late, expired))
    decreases |ids|
  {
    if ids != [] {
      FirstIsIn(ids);
      ServeKeepsInv(cfg, p, ids[0], reqs[ids[0]], late, expired);
      ServeEachKeepsInv(cfg, Serve(cfg, p, ids[0], reqs[ids[0]], late, expired), reqs, ids[1..], late, expired);
    }
  }

  lemma WindowPassKeepsInv(cfg: Config, p: Pipe, late: set<(nat, nat)>, expired: set<nat>, expiredLater: set<nat>)
    requires Waits(cfg) && Inv(cfg, p)
    ensures Inv(cfg, WindowPass(cfg, p, late, expired, expiredLater))
  {
    var ids := Sorted(p.rb.requests.Keys);
    ServeEachKeepsInv(cfg, p, p.rb.requests, ids, late, expired);
    var q := ServeEach(cfg, p, p.rb.requests, ids, late, expired);
    CheckEachAdvances(q, Sorted(AllSent(q.bufs)), expiredLater);
    AdvanceKeepsInv(cfg, q, CheckEach(q, Sorted(AllSent(q.bufs)), expiredLater));
  }

  // ---------------------------------------------------------------- nothing older than the counter is remembered

  // No window below the counter is remembered as sent.
  ghost predicate Ahead(p: Pipe) {
    forall id, k :: id in p.bufs && k in p.bufs[id].sent ==> k >= p.next
  }

  // No data buffer holds fragments of a sequence ID in ids below the counter. (Window mode removes such a request.)
  ghost predicate NoOldData(cfg: Config, p: Pipe, ids: set<nat>) {
    cfg.mode == SequenceID ==>
      forall k, id :: k in ids && k < p.next && id in p.bufs ==> Matching(p.bufs[id].frags, k) == []
  }

  // The counter passes no remembered window, and forgets none below it.
  lemma AdvanceAheadIff(p: Pipe, q: Pipe)
    requires Advanced(p, q)
    ensures Ahead(q) <==> Ahead(p)
  {
    if Ahead(p) {
      forall id, k | id in q.bufs && k in q.bufs[id].sent ensures k >= q.next {
        assert q.bufs[id] == Trimmed(p.bufs[id], p.next, q.next);
      }
    } else {
      var id, k :| id in p.bufs && k in p.bufs[id].sent && k < p.next;
      assert q.bufs[id] == Trimmed(p.bufs[id], p.next, q.next);
      assert k in q.bufs[id].sent;
    }
  }

  // r remembers what b does, and in SequenceID mode seqId if there are fragments of it.
  ghost predicate Remembers(cfg: Config, b: Buf, r: Buf, seqId: nat) {
    && b.sent <= r.sent <= b.sent + {seqId}
    && (cfg.mode == SequenceID ==> (seqId in r.sent <==> seqId in b.sent || Matching(b.frags, seqId) != []))
  }

  lemma AnswerRemembers(cfg: Config, b: Buf, seqId: nat, ts: nat, late: bool)
    requires Waits(cfg)
    ensures Remembers(cfg, b, AnsweredBuf(cfg, b, seqId, ts, late), seqId)
  {
  }

  lemma RememberedAheadIff(cfg: Config, p: Pipe, q: Pipe, seqId: nat)
    requires Waits(cfg) && (cfg.mode == Window ==> seqId >= p.next) && q.next == p.next && q.bufs.Keys == p.bufs.Keys
    requires forall id :: id in p.bufs ==> Remembers(cfg, p.bufs[id], q.bufs[id], seqId)
    ensures Ahead(q) <==> Ahead(p) && NoOldData(cfg, p, {seqId})
  {
    if !Ahead(p) {
      var id, k :| id in p.bufs && k in p.bufs[id].sent && k < p.next;
      assert k in q.bufs[id].sent;
    } else if !NoOldData(cfg, p, {seqId}) {
      var id :| id in p.bufs && Matching(p.bufs[id].frags, seqId) != [];
      assert seqId in q.bufs[id].sent;
    } else {
      forall id, k | id in q.bufs && k in q.bufs[id].sent ensures k >= q.next {
        assert k in p.bufs[id].sent || k == seqId;
      }
    }
  }

  lemma AnswersAheadIff(cfg: Config, p: Pipe, seqId: nat, ts: nat, late: set<(nat, nat)>)
    requires Waits(cfg) && (cfg.mode == Window ==> seqId >= p.next)
    ensures Ahead(AnswerAll(cfg, p, seqId, ts, late)) <==> Ahead(p) && NoOldData(cfg, p, {seqId})
  {
    var q := AnswerAll(cfg, p, seqId, ts, late);
    forall id | id in p.bufs ensures Remembers(cfg, p.bufs[id], q.bufs[id], seqId) {
      AnswerRemembers(cfg, p.bufs[id], seqId, ts, (seqId, id) in late);
    }
    RememberedAheadIff(cfg, p, q, seqId);
  }

  ghost predicate SameFrags(p: Pipe, q: Pipe) {
    q.bufs.Keys == p.bufs.Keys && forall id :: id in p.bufs ==> q.bufs[id].frags == p.bufs[id].frags
  }

  lemma NothingTaken(cfg: Config, p: Pipe, seqId: nat, ts: nat, late: set<(nat, nat)>)
    requires cfg.mode == SequenceID && seqId < p.next && NoOldData(cfg, p, {seqId})
    ensures SameFrags(p, AnswerAll(cfg, p, seqId, ts, late))
  {
  }

  lemma AdvanceKeepsFrags(p: Pipe, q: Pipe)
    requires Advanced(p, q)
    ensures SameFrags(p, q)
  {
    forall id | id in p.bufs ensures q.bufs[id].frags == p.bufs[id].frags {
      assert q.bufs[id] == Trimmed(p.bufs[id], p.next, q.next);
    }
  }

  // Serving a request keeps it so if and only if an old one finds no data; the counter ends at most just after the
  // request, and stays for an old one.
  lemma ServeAheadIff(cfg: Config, p: Pipe, seqId: nat, ts: nat, late: set<(nat, nat)>, expired: set<nat>)
    requires Waits(cfg)
    ensures var q := Serve(cfg, p, seqId, ts, late, expired);
            && (Ahead(q) <==> Ahead(p) && NoOldData(cfg, p, {seqId}))
            && (if seqId < p.next then q.next == p.next else q.next <= seqId + 1)
            && (cfg.mode == SequenceID && seqId < p.next && NoOldData(cfg, p, {seqId}) ==> SameFrags(p, q))
  {
    if !(cfg.mode == Window && (seqId < p.next || ts == cfg.invalidTimestamp)) {
      var a := AnswerAll(cfg, p, seqId, ts, late);
      AnswersAheadIff(cfg, p, seqId, ts, late);
      CheckSentAdvances(a, seqId, expired);
      AdvanceAheadIff(a, CheckSent(a, seqId, expired));
      if cfg.mode == SequenceID && seqId < p.next && NoOldData(cfg, p, {seqId}) {
        NothingTaken(cfg, p, seqId, ts, late);
        AdvanceKeepsFrags(a, CheckSent(a, seqId, expired));
      }
    }
  }

  // If no fragments were taken and the counter stayed, the rest is as before; after a young request none is old.
  lemma NoOldDataInRest(cfg: Config, p: Pipe, q: Pipe, ids: seq<nat>)
    requires ids != [] && Increasing(ids)
    requires ids[0] >= p.next ==> q.next <= ids[0] + 1
    requires ids[0] < p.next && NoOldData(cfg, p, {ids[0]}) && cfg.mode == SequenceID ==>
               q.next == p.next && SameFrags(p, q)
    ensures NoOldData(cfg, p, {ids[0]}) ==>
              (NoOldData(cfg, q, Elements(ids[1..])) <==> NoOldData(cfg, p, Elements(ids)))
    ensures !NoOldData(cfg, p, {ids[0]}) ==> !NoOldData(cfg, p, Elements(ids))
  {
    assert Elements(ids) == {ids[0]} + Elements(ids[1..]);
    forall k | k in ids[1..] ensures k in ids && k > ids[0] {}
  }

  lemma {:induction false} ServeEachAheadIff(cfg: Config, p: Pipe, reqs: map<nat, nat>, ids: seq<nat>,
                                             late: set<(nat, nat)>, expired: set<nat>)
    requires Waits(cfg) && Increasing(ids) && forall k :: k in ids ==> k in reqs
    ensures Ahead(ServeEach(cfg, p, reqs, ids, late, expired)) <==> Ahead(p) && NoOldData(cfg, p, Elements(ids))
    decreases |ids|
  {
    if ids != [] {
      FirstIsIn(ids);
      var q := Serve(cfg, p, ids[0], reqs[ids[0]], late, expired);
      ServeAheadIff(cfg, p, ids[0], reqs[ids[0]], late, expired);
      ServeEachAheadIff(cfg, q, reqs, ids[1..], late, expired);
      NoOldDataInRest(cfg, p, q, ids);
    }
  }

  // A pass forgets every window below the counter, or keeps to that, if and only if no old request finds data.
  lemma PassAheadIff(cfg: Config, p: Pipe, late: set<(nat, nat)>, expired: set<nat>, expiredLater: set<nat>)
    requires Waits(cfg)
    ensures Ahead(WindowPass(cfg, p, late, expired, expiredLater))
            <==> Ahead(p) && NoOldData(cfg, p, p.rb.requests.Keys)
  {
    var ids := Sorted(p.rb.requests.Keys);
    ServeEachAheadIff(cfg, p, p.rb.requests, ids, late, expired);
    assert Elements(ids) == p.rb.requests.Keys;
    var q := ServeEach(cfg, p, p.rb.requests, ids, late, expired);
    CheckEachAdvances(q, Sorted(AllSent(q.bufs)), expiredLater);
    AdvanceAheadIff(q, CheckEach(q, Sorted(AllSent(q.bufs)), expiredLater));
  }
}
