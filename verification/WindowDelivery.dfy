/** The missing-data flag for the whole FragmentBuffer: every run of it in Window mode is, for each fragment ID,
    a history of that one data buffer, so what the flag promises there it promises here. */
module WindowDelivery {
  import opened Ordered
  import opened DataBuffers
  import opened Windows
  import opened Pipeline
  import opened WindowRuns
  import History = WindowHistory

  // The containers for one fragment ID, in order.
  function AnswerIn(id: nat): Output -> seq<History.Answer> {
    (o: Output) => if o.Container? && o.id == id then [History.Answer(o.timestamp, o.missing, o.content)] else []
  }

  function AnswersFor(out: seq<Output>, id: nat): seq<History.Answer> {
    Collect(out, AnswerIn(id))
  }

  // b with another record of sent windows, on which nothing but the answering of requests depends.
  function Retag(b: Buf, r: Buf): Buf {
    b.(sent := r.sent, highest := r.highest)
  }

  lemma {:induction false} RetagDropOverLimit(cfg: Config, b: Buf, r: Buf)
    ensures DropOverLimit(cfg, Retag(b, r)) == Retag(DropOverLimit(cfg, b), r)
    decreases |b.frags|
  {
    if b.frags != [] && TooLarge(cfg, b.depthFrags, b.depthBytes) { RetagDropOverLimit(cfg, DropFront(b), r); }
  }

  lemma {:induction false} RetagDropOlder(b: Buf, r: Buf, min: nat)
    ensures DropOlder(Retag(b, r), min) == Retag(DropOlder(b, min), r)
    decreases |b.frags|
  {
    if b.frags != [] && b.frags[0].timestamp < min { RetagDropOlder(DropFront(b), r, min); }
  }

  lemma RetagCheck(cfg: Config, b: Buf, r: Buf)
    ensures Check(cfg, Retag(b, r)) == Retag(Check(cfg, b), r)
  {
    RetagDropOverLimit(cfg, b, r);
    var d := DropOverLimit(cfg, b);
    if d.frags != [] {
      var last := d.frags[|d.frags| - 1].timestamp;
      RetagDropOlder(d, r, if last > cfg.staleTimeout then last - cfg.staleTimeout else 0);
    }
  }

  lemma RetagReceive(cfg: Config, b: Buf, r: Buf, fs: seq<Fragment>)
    requires fs != []
    ensures Receive(cfg, Retag(b, r), fs) == Retag(Receive(cfg, b, fs), r)
  {
    RetagDropOverLimit(cfg, b, r);
  }

  lemma RetagContent(cfg: Config, b: Buf, r: Buf, ts: nat)
    ensures Closed(cfg, Retag(b, r), ts) == Closed(cfg, b, ts)
    ensures Content(cfg, Retag(b, r), ts) == Content(cfg, b, ts)
    ensures Remaining(cfg, Retag(b, r), ts) == Remaining(cfg, b, ts)
  {
  }

  lemma RetagAnswers(cfg: Config, b: Buf, r: Buf, ts: nat, late: bool)
    ensures Answers(cfg, Retag(b, r), ts, late) == Answers(cfg, b, ts, late)
    ensures Missing(cfg, Retag(b, r), ts) == Missing(cfg, b, ts)
  {
  }

  lemma RetagFill(cfg: Config, b: Buf, r: Buf, seqId: nat, ts: nat, late: bool)
    ensures var f := FilledBuf(cfg, Retag(b, r), seqId, ts, late);
            f == Retag(FilledBuf(cfg, b, seqId, ts, late), f)
  {
    RetagContent(cfg, b, r, ts);
    RetagAnswers(cfg, b, r, ts, late);
  }

  // ---------------------------------------------------------------- one data buffer of the run

  // h is what the run has done to the data buffer of id.
  ghost predicate Mirrors(p: Pipe, id: nat, arrived: seq<Fragment>, h: History.History) {
    id in p.bufs && h.buf == Retag(p.bufs[id], h.buf) && h.arrived == arrived && h.answers == AnswersFor(p.out, id)
  }

  lemma AdvanceMirrors(p: Pipe, q: Pipe, id: nat, arrived: seq<Fragment>, h: History.History)
    requires Mirrors(p, id, arrived, h) && Advanced(p, q)
    ensures Mirrors(q, id, arrived, h)
  {
    assert q.bufs[id] == Trimmed(p.bufs[id], p.next, q.next);
  }

  lemma AnswersForMore(out: seq<Output>, more: seq<Output>, id: nat)
    ensures AnswersFor(out + more, id) == AnswersFor(out, id) + AnswersFor(more, id)
  {
    CollectMore(out, more, AnswerIn(id));
  }

  lemma AnswersForOne(o: Output, id: nat)
    ensures AnswersFor([o], id)
            == if o.Container? && o.id == id then [History.Answer(o.timestamp, o.missing, o.content)] else []
  {
    CollectOne(o, AnswerIn(id));
  }

  // What the data buffer of id answers to one request.
  function OwnAnswer(cfg: Config, b: Buf, seqId: nat, ts: nat, late: bool): seq<History.Answer> {
    if seqId in b.sent || !Answers(cfg, b, ts, late) then []
    else [History.Answer(ts, Missing(cfg, b, ts), Content(cfg, b, ts))]
  }

  lemma AnswerForIs(cfg: Config, b: Buf, i: nat, seqId: nat, ts: nat, late: bool, id: nat)
    requires cfg.mode == Window
    ensures AnswersFor(Answer(cfg, b, i, seqId, ts, late), id)
            == if i == id then OwnAnswer(cfg, b, seqId, ts, late) else []
  {
    var a := Answer(cfg, b, i, seqId, ts, late);
    if a != [] { AnswersForOne(a[0], id); }
  }

  lemma OnlyOwnAnswer(cfg: Config, bufs: map<nat, Buf>, ids: seq<nat>, seqId: nat, ts: nat, late: set<(nat, nat)>,
                      id: nat)
    requires cfg.mode == Window && Increasing(ids) && forall i :: i in ids ==> i in bufs
    ensures AnswersFor(AnswersOf(cfg, bufs, ids, seqId, ts, late), id)
            == if id in ids then OwnAnswer(cfg, bufs[id], seqId, ts, (seqId, id) in late) else []
  {
    forall i | i in ids
      ensures AnswersFor(AnswerOf(cfg, bufs, i, seqId, ts, late), id)
              == if i == id then OwnAnswer(cfg, bufs[i], seqId, ts, (seqId, i) in late) else []
    {
      AnswerForIs(cfg, bufs[i], i, seqId, ts, (seqId, i) in late, id);
    }
    CollectAnswers(cfg, bufs, ids, seqId, ts, late, AnswerIn(id), id);
  }

  lemma MoreOps(cfg: Config, local: seq<History.Op>, op: History.Op)
    ensures History.Run(cfg, local + [op]) == History.Step(cfg, History.Run(cfg, local), op)
  {
    assert (local + [op])[..|local|] == local;
  }

  // Asking all data buffers for a request asks the one of id, or leaves it alone.
  lemma AnswerAllMirrors(cfg: Config, p: Pipe, seqId: nat, ts: nat, late: set<(nat, nat)>, id: nat,
                         arrived: seq<Fragment>, local: seq<History.Op>)
    returns (more: seq<History.Op>)
    requires cfg.mode == Window && Mirrors(p, id, arrived, History.Run(cfg, local))
    ensures Mirrors(AnswerAll(cfg, p, seqId, ts, late), id, arrived, History.Run(cfg, more))
  {
    var b, now := p.bufs[id], (seqId, id) in late;
    AnswerAllAt(cfg, p, seqId, ts, late, id);
    if seqId in b.sent || !Answers(cfg, b, ts, now) {
      more := local;
    } else {
      more := local + [History.Request(seqId, ts, now)];
      MoreOps(cfg, local, History.Request(seqId, ts, now));
      RequestMirrors(cfg, b, History.Run(cfg, local), seqId, ts, now);
    }
  }

  // What asking all data buffers does to the one of id and to its containers.
  lemma AnswerAllAt(cfg: Config, p: Pipe, seqId: nat, ts: nat, late: set<(nat, nat)>, id: nat)
    requires cfg.mode == Window && id in p.bufs
    ensures var b, now, q := p.bufs[id], (seqId, id) in late, AnswerAll(cfg, p, seqId, ts, late);
            && id in q.bufs && q.bufs[id] == AnsweredBuf(cfg, b, seqId, ts, now)
            && AnswersFor(q.out, id) == AnswersFor(p.out, id) + OwnAnswer(cfg, b, seqId, ts, now)
  {
    var ids := Sorted(p.bufs.Keys);
    OnlyOwnAnswer(cfg, p.bufs, ids, seqId, ts, late, id);
    AnswersForMore(p.out, AnswersOf(cfg, p.bufs, ids, seqId, ts, late), id);
  }

  lemma RequestMirrors(cfg: Config, b: Buf, h: History.History, seqId: nat, ts: nat, late: bool)
    requires h.buf == Retag(b, h.buf) && Answers(cfg, b, ts, late)
    ensures var g, f := History.Step(cfg, h, History.Request(seqId, ts, late)), FilledBuf(cfg, b, seqId, ts, late);
            && g.buf == Retag(f, g.buf) && g.arrived == h.arrived
            && g.answers == h.answers + [History.Answer(ts, Missing(cfg, b, ts), Content(cfg, b, ts))]
  {
    RetagFill(cfg, b, h.buf, seqId, ts, late);
    RetagContent(cfg, b, h.buf, ts);
    RetagAnswers(cfg, b, h.buf, ts, late);
  }

  lemma ServeMirrors(cfg: Config, p: Pipe, seqId: nat, ts: nat, late: set<(nat, nat)>, expired: set<nat>, id: nat,
                     arrived: seq<Fragment>,
                     local: seq<History.Op>)
    returns (more: seq<History.Op>)
    requires cfg.mode == Window && Mirrors(p, id, arrived, History.Run(cfg, local))
    ensures Mirrors(Serve(cfg, p, seqId, ts, late, expired), id, arrived, History.Run(cfg, more))
  {
    more := local;
    if seqId >= p.next && ts != cfg.invalidTimestamp {
      var a := AnswerAll(cfg, p, seqId, ts, late);
      more := AnswerAllMirrors(cfg, p, seqId, ts, late, id, arrived, local);
      CheckSentAdvances(a, seqId, expired);
      AdvanceMirrors(a, CheckSent(a, seqId, expired), id, arrived, History.Run(cfg, more));
    }
  }

  lemma {:induction false} ServeEachMirrors(cfg: Config, p: Pipe, reqs: map<nat, nat>, ids: seq<nat>,
                                            late: set<(nat, nat)>, expired: set<nat>,
                                            id: nat, arrived: seq<Fragment>, local: seq<History.Op>)
    returns (more: seq<History.Op>)
    requires forall k :: k in ids ==> k in reqs
    requires cfg.mode == Window && Mirrors(p, id, arrived, History.Run(cfg, local))
    ensures Mirrors(ServeEach(cfg, p, reqs, ids, late, expired), id, arrived, History.Run(cfg, more))
    decreases |ids|
  {
    more := local;
    if ids != [] {
      FirstIsIn(ids);
      more := ServeMirrors(cfg, p, ids[0], reqs[ids[0]], late, expired, id, arrived, more);
      more := ServeEachMirrors(cfg, Serve(cfg, p, ids[0], reqs[ids[0]], late, expired), reqs, ids[1..], late, expired,
        id, arrived, more);
    }
  }

  lemma PassMirrors(cfg: Config, p: Pipe, late: set<(nat, nat)>, expired: set<nat>, expiredLater: set<nat>, id: nat,
                    arrived: seq<Fragment>,
                    local: seq<History.Op>)
    returns (more: seq<History.Op>)
    requires cfg.mode == Window && Mirrors(p, id, arrived, History.Run(cfg, local))
    ensures Mirrors(WindowPass(cfg, p, late, expired, expiredLater), id, arrived, History.Run(cfg, more))
  {
    var ids := Sorted(p.rb.requests.Keys);
    more := ServeEachMirrors(cfg, p, p.rb.requests, ids, late, expired, id, arrived, local);
    var q := ServeEach(cfg, p, p.rb.requests, ids, late, expired);
    CheckEachAdvances(q, Sorted(AllSent(q.bufs)), expiredLater);
    AdvanceMirrors(q, CheckEach(q, Sorted(AllSent(q.bufs)), expiredLater), id, arrived, History.Run(cfg, more));
  }

  lemma ArriveMirrors(cfg: Config, p: Pipe, i: nat, fs: seq<Fragment>, id: nat, arrived: seq<Fragment>,
                      local: seq<History.Op>)
    returns (more: seq<History.Op>)
    requires Mirrors(p, id, arrived, History.Run(cfg, local))
    ensures Mirrors(Step(cfg, p, Arrive(i, fs)), id, arrived + (if i == id then fs else []), History.Run(cfg, more))
  {
    more := local;
    if i == id && fs != [] {
      more := local + [History.Arrive(fs)];
      MoreOps(cfg, local, History.Arrive(fs));
      RetagReceive(cfg, p.bufs[id], History.Run(cfg, local).buf, fs);
    } else {
      assert arrived + [] == arrived;
    }
  }

  lemma PruneMirrors(cfg: Config, p: Pipe, id: nat, arrived: seq<Fragment>, local: seq<History.Op>)
    returns (more: seq<History.Op>)
    requires Mirrors(p, id, arrived, History.Run(cfg, local))
    ensures Mirrors(p.(bufs := Checked(cfg, p.bufs)), id, arrived, History.Run(cfg, more))
  {
    more := local + [History.Prune];
    MoreOps(cfg, local, History.Prune);
    RetagCheck(cfg, p.bufs[id], History.Run(cfg, local).buf);
  }

  // ---------------------------------------------------------------- whole runs

  lemma {:induction false} RunMirrors(cfg: Config, ids: set<nat>, increment: nat, ops: seq<Op>, id: nat)
    returns (local: seq<History.Op>)
    requires cfg.mode == Window && id in ids
    ensures Mirrors(Run(cfg, ids, increment, ops), id, ArrivedFor(ops, id), History.Run(cfg, local))
  {
    local := [];
    if ops != [] {
      var front, op := ops[..|ops| - 1], ops[|ops| - 1];
      var p, arrived := Run(cfg, ids, increment, front), ArrivedFor(front, id);
      local := RunMirrors(cfg, ids, increment, front, id);
      assert arrived + [] == arrived;
      match op
      case Push(_, _) =>
      case Arrive(i, fs) => local := ArriveMirrors(cfg, p, i, fs, id, arrived, local);
      case Prune => local := PruneMirrors(cfg, p, id, arrived, local);
      case Pass(late, expired, expiredLater) =>
        local := PassMirrors(cfg, p, late, expired, expiredLater, id, arrived, local);
    }
  }

  // Whatever is requested, dropped for size or age, or timed out in a whole run of the FragmentBuffer, if the fragments
  // of one ID arrive in the order of their timestamps: a container for that ID that is not flagged as missing data
  // holds every fragment of its window that ever arrives, but those an earlier container took in unique mode - and,
  // only if timestamps may be equal, those excused; and no container holds anything else.
  lemma UnflaggedContainersHoldTheirWindow(cfg: Config, ids: set<nat>, increment: nat, ops: seq<Op>, id: nat,
                                           strict: bool, i: nat, f: Fragment)
    requires cfg.mode == Window && id in ids && History.InTime(strict, ArrivedFor(ops, id))
    requires i < |AnswersFor(Run(cfg, ids, increment, ops).out, id)|
    ensures var answers, arrived := AnswersFor(Run(cfg, ids, increment, ops).out, id), ArrivedFor(ops, id);
            var w := WindowOf(cfg, answers[i].ts);
            && (!answers[i].missing && f in arrived && Inside(w, f.timestamp) ==>
                  || f in answers[i].content || (cfg.unique && History.Delivered(answers[..i], f))
                  || History.Excused(strict, w, f.timestamp))
            && (f in answers[i].content ==> f in arrived && Inside(w, f.timestamp))
            && (cfg.unique && strict && f in answers[i].content ==> !History.Delivered(answers[..i], f))
  {
    var local := RunMirrors(cfg, ids, increment, ops, id);
    History.UnflaggedContainersAreComplete(cfg, strict, local, i, f);
  }

  // And in whatever order they arrive, with unique windows no fragment is in two containers, or twice in one, or in a
  // container and still in the buffer.
  lemma ContainersShareNothing(cfg: Config, ids: set<nat>, increment: nat, ops: seq<Op>, id: nat)
    requires cfg.mode == Window && cfg.unique && id in ids
    ensures var p := Run(cfg, ids, increment, ops);
            && id in p.bufs
            && multiset(History.AllContent(AnswersFor(p.out, id))) + multiset(p.bufs[id].frags)
               <= multiset(ArrivedFor(ops, id))
  {
    var local := RunMirrors(cfg, ids, increment, ops, id);
    History.UniqueWindowsShareNothing(cfg, local);
  }
}
