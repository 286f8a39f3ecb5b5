/** Buffer mode for the whole FragmentBuffer: every run of it is, for each fragment ID, a history of that one data
    buffer, whatever requests were skipped. */
module BufferDelivery {
  import opened Ordered
  import opened DataBuffers
  import opened Pipeline
  import LatestRuns
  import History = BufferMode

  // The contents of the containers for one fragment ID, in order.
  function ContentIn(id: nat): Output -> seq<seq<Fragment>> {
    (o: Output) => if o.Container? && o.id == id then [o.content] else []
  }

  function ContentsFor(out: seq<Output>, id: nat): seq<seq<Fragment>> {
    Collect(out, ContentIn(id))
  }

  function Contents(responses: seq<History.Response>): (r: seq<seq<Fragment>>)
    ensures |r| == |responses|
  {
    seq(|responses|, i requires 0 <= i < |responses| => responses[i].content)
  }

  lemma ContentsForMore(out: seq<Output>, more: seq<Output>, id: nat)
    ensures ContentsFor(out + more, id) == ContentsFor(out, id) + ContentsFor(more, id)
  {
    CollectMore(out, more, ContentIn(id));
  }

  lemma ContentForIs(cfg: Config, b: Buf, i: nat, seqId: nat, ts: nat, id: nat)
    requires cfg.mode == Buffer
    ensures ContentsFor(Answer(cfg, b, i, seqId, ts, false), id) == if i == id then [History.ResponseContent(b)] else []
  {
    CollectOne(Answer(cfg, b, i, seqId, ts, false)[0], ContentIn(id));
  }

  lemma OneContent(cfg: Config, bufs: map<nat, Buf>, ids: seq<nat>, seqId: nat, ts: nat, id: nat)
    requires cfg.mode == Buffer && Increasing(ids) && forall i :: i in ids ==> i in bufs
    ensures ContentsFor(AnswersOf(cfg, bufs, ids, seqId, ts, {}), id)
            == if id in ids then [History.ResponseContent(bufs[id])] else []
  {
    forall i | i in ids
      ensures ContentsFor(AnswerOf(cfg, bufs, i, seqId, ts, {}), id)
              == if i == id then [History.ResponseContent(bufs[i])] else []
    {
      ContentForIs(cfg, bufs[i], i, seqId, ts, id);
    }
    CollectAnswers(cfg, bufs, ids, seqId, ts, {}, ContentIn(id), id);
  }

  lemma {:induction false} NoContent(out: seq<Output>, id: nat)
    requires forall o :: o in out ==> !o.Container?
    ensures ContentsFor(out, id) == []
  {
    if out != [] { NoContent(out[..|out| - 1], id); }
  }

  lemma {:induction false} SkippingSendsNoContent(cfg: Config, p: Pipe, target: nat, id: nat)
    ensures ContentsFor(SkipTo(cfg, p, target).out, id) == ContentsFor(p.out, id)
    decreases target - p.next
  {
    if target > p.next {
      NoContent(Missed(cfg, p), id);
      ContentsForMore(p.out, Missed(cfg, p), id);
      SkippingSendsNoContent(cfg, SkipOne(cfg, p), target, id);
    }
  }

  // ---------------------------------------------------------------- one data buffer of the run

  // h is what the run has done to the data buffer of id.
  ghost predicate Mirrors(p: Pipe, id: nat, arrived: seq<Fragment>, h: History.History) {
    id in p.bufs && h.buf == p.bufs[id] && h.arrived == arrived && Contents(h.responses) == ContentsFor(p.out, id)
  }

  lemma MoreOps(cfg: Config, local: seq<History.Op>, op: History.Op)
    ensures History.Run(cfg, local + [op]) == History.Step(cfg, History.Run(cfg, local), op)
  {
    assert (local + [op])[..|local|] == local;
  }

  lemma RespondMirrors(cfg: Config, p: Pipe, ts: nat, id: nat, arrived: seq<Fragment>, local: seq<History.Op>)
    returns (more: seq<History.Op>)
    requires cfg.mode == Buffer && Mirrors(p, id, arrived, History.Run(cfg, local))
    ensures Mirrors(Respond(cfg, p, ts), id, arrived, History.Run(cfg, more))
  {
    more := local + [History.Request];
    MoreOps(cfg, local, History.Request);
    RespondAt(cfg, p, ts, id);
    OneMoreContent(cfg, History.Run(cfg, local));
  }

  // What the answer does to the data buffer of id and to its containers.
  lemma RespondAt(cfg: Config, p: Pipe, ts: nat, id: nat)
    requires cfg.mode == Buffer && id in p.bufs
    ensures var q, b := Respond(cfg, p, ts), p.bufs[id];
            && id in q.bufs && q.bufs[id] == History.AfterResponse(cfg, b)
            && ContentsFor(q.out, id) == ContentsFor(p.out, id) + [History.ResponseContent(b)]
  {
    var ids := Sorted(p.bufs.Keys);
    OneContent(cfg, p.bufs, ids, p.next, ts, id);
    ContentsForMore(p.out, AnswersOf(cfg, p.bufs, ids, p.next, ts, {}), id);
  }

  lemma OneMoreContent(cfg: Config, h: History.History)
    ensures var u := History.Step(cfg, h, History.Request);
            && u.buf == History.AfterResponse(cfg, h.buf) && u.arrived == h.arrived
            && Contents(u.responses) == Contents(h.responses) + [History.ResponseContent(h.buf)]
  {
  }

  lemma PassMirrors(cfg: Config, p: Pipe, id: nat, arrived: seq<Fragment>, local: seq<History.Op>)
    returns (more: seq<History.Op>)
    requires cfg.mode == Buffer && Mirrors(p, id, arrived, History.Run(cfg, local))
    ensures Mirrors(LatestPass(cfg, p), id, arrived, History.Run(cfg, more))
  {
    more := local;
    if p.rb.requests != map[] {
      var last, q := Greatest(p.rb.requests.Keys), p.(rb := RemoveOlder(p.rb));
      var r := SkipTo(cfg, q, last);
      SkippingSendsNoContent(cfg, q, last, id);
      LatestRuns.SkipKeepsBuffers(cfg, q, last);
      if r.next == last { more := RespondMirrors(cfg, r, p.rb.requests[last], id, arrived, local); }
    }
  }

  lemma ArriveMirrors(cfg: Config, p: Pipe, i: nat, fs: seq<Fragment>, id: nat, arrived: seq<Fragment>,
                      local: seq<History.Op>)
    returns (more: seq<History.Op>)
    requires Mirrors(p, id, arrived, History.Run(cfg, local))
    ensures Mirrors(Step(cfg, p, Arrive(i, fs)), id, arrived + (if i == id then fs else []), History.Run(cfg, more))
  {
    more := local;
    if i == id && fs != [] {
      more := local + [History.Arrive(fs)];
      MoreOps(cfg, local, History.Arrive(fs));
    } else {
      assert arrived + [] == arrived;
    }
  }

  // ---------------------------------------------------------------- whole runs

  lemma {:induction false} RunMirrors(cfg: Config, ids: set<nat>, increment: nat, ops: seq<Op>, id: nat)
    returns (local: seq<History.Op>)
    requires cfg.mode == Buffer && id in ids
    ensures Mirrors(Run(cfg, ids, increment, ops), id, ArrivedFor(ops, id), History.Run(cfg, local))
  {
    local := [];
    if ops != [] {
      var front, op := ops[..|ops| - 1], ops[|ops| - 1];
      var p, arrived := Run(cfg, ids, increment, front), ArrivedFor(front, id);
      local := RunMirrors(cfg, ids, increment, front, id);
      assert arrived + [] == arrived;
      match op
      case Push(_, _) =>
      case Arrive(i, fs) => local := ArriveMirrors(cfg, p, i, fs, id, arrived, local);
      case Prune => MoreOps(cfg, local, History.Prune); local := local + [History.Prune];
      case Pass(_, _, _) => local := PassMirrors(cfg, p, id, arrived, local);
    }
  }

  function Flattened(contents: seq<seq<Fragment>>): seq<Fragment> {
    if contents == [] then [] else Flattened(contents[..|contents| - 1]) + contents[|contents| - 1]
  }

  lemma {:induction false} NothingRepeats(cfg: Config, local: seq<History.Op>)
    requires cfg.mode == Buffer && !cfg.keepLatest
    ensures var h := History.Run(cfg, local); History.NewContent(h.responses) == Flattened(Contents(h.responses))
  {
    if local != [] {
      var front := local[..|local| - 1];
      NothingRepeats(cfg, front);
      History.KeptNeedsKeepLatest(cfg, front);
      var rs := History.Run(cfg, local).responses;
      if rs != [] { assert Contents(rs)[..|rs| - 1] == Contents(rs[..|rs| - 1]); }
    }
  }

  // The next response repeats the last fragment delivered if nothing is undelivered, and else hands out just what is.
  ghost predicate RespondsWithTheNew(b: Buf, delivered: seq<Fragment>) {
    if History.Undelivered(b) != [] || !b.kept then History.ResponseContent(b) == History.Undelivered(b)
    else delivered != [] && History.ResponseContent(b) == delivered[|delivered| - 1..]
  }

  // Whatever requests came, were skipped or never came, the containers for id are the responses of a history in which
  // each fragment that arrives leaves its buffer once, in order of arrival, by a container or by pruning; by a
  // container always if no limit is configured. A container repeats only the last fragment delivered, and only when
  // nothing newer is there.
  lemma EachFragmentIsDeliveredOnce(cfg: Config, ids: set<nat>, increment: nat, ops: seq<Op>, id: nat)
    returns (h: History.History)
    requires cfg.mode == Buffer && id in ids
    ensures var p, arrived := Run(cfg, ids, increment, ops), ArrivedFor(ops, id);
            && Mirrors(p, id, arrived, h)
            && History.NewContent(h.responses) == History.DeliveredOnly(h.exits)
            && History.Fragments(h.exits) + History.Undelivered(p.bufs[id]) == arrived
            && (Unlimited(cfg) ==> History.NewContent(h.responses) + History.Undelivered(p.bufs[id]) == arrived)
    ensures History.RepeatsTheLast(cfg, h.responses)
    ensures RespondsWithTheNew(Run(cfg, ids, increment, ops).bufs[id], History.NewContent(h.responses))
    ensures !cfg.keepLatest ==>
              History.NewContent(h.responses) == Flattened(ContentsFor(Run(cfg, ids, increment, ops).out, id))
  {
    var local := RunMirrors(cfg, ids, increment, ops, id);
    h := History.Run(cfg, local);
    History.DeliveredOnceInOrder(cfg, local);
    History.RepetitionsAreHonest(cfg, local);
    NextResponse(cfg, local);
    if !cfg.keepLatest { NothingRepeats(cfg, local); }
  }

  lemma NextResponse(cfg: Config, local: seq<History.Op>)
    requires cfg.mode == Buffer
    ensures var h := History.Run(cfg, local); RespondsWithTheNew(h.buf, History.NewContent(h.responses))
  {
    var h := History.Run(cfg, local);
    History.RunKeepsInv(cfg, local);
    History.RepeatsOnlyWhenNothingNew(cfg, local);
  }
}
