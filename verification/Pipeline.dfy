/** FragmentBuffer (artdaq/DAQrate/FragmentBuffer.cc) with its RequestBuffer: how pending requests are answered from the
    data buffers in each request mode, and how the sequence counter advances. Clock readings are arguments:
    late: the (sequence ID, fragment ID) pairs whose window has waited longer than window_close_timeout_us;
    expired: the sequence IDs with a window sent longer ago than missing_request_window_timeout_us. */
module Pipeline {
  import opened Ordered
  import opened DataBuffers
  import opened Windows
  import opened BufferMode
  import Requests

  // next: next_sequence_id_; bufs: dataBuffers_; rb: requestBuffer_.
  // History: out, everything emitted; passed: the IDs the missing-window timeout skipped.
  datatype Pipe = Pipe(next: nat, bufs: map<nat, Buf>, rb: Requests.State, out: seq<Output>, passed: set<nat>)

  function FreshPipe(ids: set<nat>, increment: nat): Pipe {
    Pipe(1, map id | id in ids :: EMPTY_BUF, Requests.Fresh(increment), [], {})
  }

  // ---------------------------------------------------------------- one data buffer

  function Matching(s: seq<Fragment>, seqId: nat): seq<Fragment> {
    if s == [] then [] else (if s[0].seqId == seqId then [s[0]] else []) + Matching(s[1..], seqId)
  }

  function Others(s: seq<Fragment>, seqId: nat): seq<Fragment> {
    if s == [] then [] else (if s[0].seqId == seqId then [] else [s[0]]) + Others(s[1..], seqId)
  }

  function Plains(s: seq<Fragment>): seq<Output> {
    seq(|s|, i requires 0 <= i < |s| => Plain(s[i]))
  }

  function Copies(s: seq<Fragment>, seqId: nat, ts: nat): seq<Output> {
    seq(|s|, i requires 0 <= i < |s| => Copy(seqId, s[i].id, ts, s[i]))
  }

  // The data buffer after it has been asked for request seqId.
  function AnsweredBuf(cfg: Config, b: Buf, seqId: nat, ts: nat, late: bool): Buf {
    match cfg.mode
    case Single => b
    case Buffer => AfterResponse(cfg, b)
    case Window => if seqId in b.sent then b else FilledBuf(cfg, b, seqId, ts, late)
    case SequenceID =>
      var found := Matching(b.frags, seqId);
      var d := if seqId in b.sent || found == [] then b
               else b.(frags := Others(b.frags, seqId), depthFrags := |Others(b.frags, seqId)|,
                       depthBytes := b.depthBytes - Bytes(found), sent := b.sent + {seqId});
      d.(highest := if seqId > b.highest then seqId else b.highest)
    case Ignored => b
  }

  // What it contributes to the output.
  function Answer(cfg: Config, b: Buf, id: nat, seqId: nat, ts: nat, late: bool): seq<Output> {
    match cfg.mode
    case Single => if b.depthFrags > 0 then Copies(b.frags, seqId, ts) else [EmptyFragment(seqId, id)]
    case Buffer => [Container(seqId, id, ts, false, ResponseContent(b))]
    case Window => if seqId in b.sent then [] else FilledOutput(cfg, b, id, seqId, ts, late)
    case SequenceID => if seqId in b.sent then [] else Plains(Matching(b.frags, seqId))
    case Ignored => []
  }

  // ---------------------------------------------------------------- all data buffers, in the order of ids

  function AnswersOf(cfg: Config, bufs: map<nat, Buf>, ids: seq<nat>, seqId: nat, ts: nat,
                     late: set<(nat, nat)>): seq<Output>
    requires forall id :: id in ids ==> id in bufs
  {
    if ids == [] then []
    else
      var last := ids[|ids| - 1];
      AnswersOf(cfg, bufs, ids[..|ids| - 1], seqId, ts, late)
        + Answer(cfg, bufs[last], last, seqId, ts, (seqId, last) in late)
  }

  function AnsweredBufs(cfg: Config, bufs: map<nat, Buf>, seqId: nat, ts: nat, late: set<(nat, nat)>): map<nat, Buf> {
    map id | id in bufs :: AnsweredBuf(cfg, bufs[id], seqId, ts, (seqId, id) in late)
  }

  ghost function AnswerAll(cfg: Config, p: Pipe, seqId: nat, ts: nat, late: set<(nat, nat)>): Pipe {
    p.(bufs := AnsweredBufs(cfg, p.bufs, seqId, ts, late),
       out := p.out + AnswersOf(cfg, p.bufs, Sorted(p.bufs.Keys), seqId, ts, late))
  }

  // ---------------------------------------------------------------- Single and Buffer modes

  function RemoveEach(rb: Requests.State, ids: seq<nat>): Requests.State
    decreases |ids|
  {
    if ids == [] then rb else RemoveEach(Requests.AfterRemove(rb, ids[0]), ids[1..])
  }

  function Empties(ids: seq<nat>, seqId: nat): seq<Output> {
    seq(|ids|, i requires 0 <= i < |ids| => EmptyFragment(seqId, ids[i]))
  }

  ghost function Missed(cfg: Config, p: Pipe): seq<Output> {
    if cfg.sendMissing then Empties(Sorted(p.bufs.Keys), p.next) else []
  }

  ghost function SkipOne(cfg: Config, p: Pipe): Pipe {
    p.(next := p.next + 1, out := p.out + Missed(cfg, p))
  }

  // sendEmptyFragments
  ghost function SkipTo(cfg: Config, p: Pipe, target: nat): Pipe
    decreases target - p.next
  {
    if target <= p.next then p else SkipTo(cfg, SkipOne(cfg, p), target)
  }

  // Only the latest request matters: the others are removed.
  ghost function RemoveOlder(rb: Requests.State): Requests.State
    requires rb.requests != map[]
  {
    RemoveEach(rb, Sorted(rb.requests.Keys - {Greatest(rb.requests.Keys)}))
  }

  // Skip to a request and answer it, unless the counter has passed it.
  ghost function AnswerLatest(cfg: Config, p: Pipe, last: nat, ts: nat): Pipe {
    var q := SkipTo(cfg, p, last);
    if q.next != last then q else Respond(cfg, q, ts)
  }

  // applyRequestsSingleMode, applyRequestsBufferMode
  ghost function LatestPass(cfg: Config, p: Pipe): Pipe {
    if p.rb.requests == map[] then p
    else
      var last := Greatest(p.rb.requests.Keys);
      AnswerLatest(cfg, p.(rb := RemoveOlder(p.rb)), last, p.rb.requests[last])
  }

  // The answer to the request for next_sequence_id_.
  ghost function Respond(cfg: Config, p: Pipe, ts: nat): Pipe {
    AnswerAll(cfg, p, p.next, ts, {}).(rb := Requests.AfterRemove(p.rb, p.next), next := p.next + 1)
  }

  // ---------------------------------------------------------------- Window and SequenceID modes

  // Every data buffer has sent the window.
  ghost predicate SentByAll(bufs: map<nat, Buf>, seqId: nat) {
    forall id :: id in bufs ==> seqId in bufs[id].sent && bufs[id].highest >= seqId
  }

  ghost predicate SentBySome(bufs: map<nat, Buf>, seqId: nat) {
    exists id :: id in bufs && seqId in bufs[id].sent
  }

  function Forget(bufs: map<nat, Buf>, seqId: nat): map<nat, Buf> {
    map id | id in bufs :: bufs[id].(sent := bufs[id].sent - {seqId})
  }

  function PassOne(p: Pipe): Pipe {
    p.(rb := Requests.AfterRemove(p.rb, p.next), bufs := Forget(p.bufs, p.next), next := p.next + 1,
      passed := p.passed + {p.next})
  }

  // The missing-window timeout skips everything up to and including seqId.
  function PassThrough(p: Pipe, seqId: nat): Pipe
    decreases seqId + 1 - p.next
  {
    if p.next <= seqId then PassThrough(PassOne(p), seqId) else p
  }

  ghost function CompleteOne(p: Pipe, seqId: nat): Pipe {
    var q := p.(rb := Requests.AfterRemove(p.rb, seqId));
    if p.next == seqId then q.(bufs := Forget(q.bufs, seqId), next := seqId + 1) else q
  }

  // checkSentWindows
  ghost function CheckSent(p: Pipe, seqId: nat, expired: set<nat>): Pipe {
    var q := if SentByAll(p.bufs, seqId) then CompleteOne(p, seqId) else p;
    if seqId in expired && SentBySome(p.bufs, seqId) then PassThrough(q, seqId) else q
  }

  ghost function CheckEach(p: Pipe, ids: seq<nat>, expired: set<nat>): Pipe
    decreases |ids|
  {
    if ids == [] then p else CheckEach(CheckSent(p, ids[0], expired), ids[1..], expired)
  }

  function AllSent(bufs: map<nat, Buf>): set<nat> {
    set id, k | id in bufs && k in bufs[id].sent :: k
  }

  // One request of the loop over the pending requests.
  ghost function Serve(cfg: Config, p: Pipe, seqId: nat, ts: nat, late: set<(nat, nat)>, expired: set<nat>): Pipe {
    if cfg.mode == Window && seqId < p.next then p.(rb := Requests.AfterRemove(p.rb, seqId))
    else if cfg.mode == Window && ts == cfg.invalidTimestamp then p
    else CheckSent(AnswerAll(cfg, p, seqId, ts, late), seqId, expired)
  }

  ghost function ServeEach(cfg: Config, p: Pipe, reqs: map<nat, nat>, ids: seq<nat>, late: set<(nat, nat)>,
                           expired: set<nat>): Pipe
    requires forall k :: k in ids ==> k in reqs
    decreases |ids|
  {
    if ids == [] then p
    else ServeEach(cfg, Serve(cfg, p, ids[0], reqs[ids[0]], late, expired), reqs, ids[1..], late, expired)
  }

  // applyRequestsWindowMode, applyRequestsSequenceIDMode; expired: before the sweep, and during it.
  ghost function WindowPass(cfg: Config, p: Pipe, late: set<(nat, nat)>, expired: set<nat>,
                            expiredLater: set<nat>): Pipe {
    var q := ServeEach(cfg, p, p.rb.requests, Sorted(p.rb.requests.Keys), late, expired);
    CheckEach(q, Sorted(AllSent(q.bufs)), expiredLater)
  }

  // ---------------------------------------------------------------- Ignored mode

  // The counter moves past the newest fragment.
  function After(frags: seq<Fragment>, next: nat): nat {
    if frags != [] && frags[|frags| - 1].seqId >= next then frags[|frags| - 1].seqId + 1 else next
  }

  function NextAfter(bufs: map<nat, Buf>, ids: seq<nat>, next: nat): nat
    requires forall id :: id in ids ==> id in bufs
  {
    if ids == [] then next
    else After(bufs[ids[|ids| - 1]].frags, NextAfter(bufs, ids[..|ids| - 1], next))
  }

  function Everything(bufs: map<nat, Buf>, ids: seq<nat>): seq<Output>
    requires forall id :: id in ids ==> id in bufs
  {
    if ids == [] then [] else Everything(bufs, ids[..|ids| - 1]) + Plains(bufs[ids[|ids| - 1]].frags)
  }

  function Drained(b: Buf): Buf {
    b.(frags := [], depthFrags := 0, depthBytes := 0, kept := false)
  }

  function AllDrained(bufs: map<nat, Buf>): map<nat, Buf> {
    map id | id in bufs :: Drained(bufs[id])
  }

  ghost function IgnoredPass(p: Pipe): Pipe {
    var ids := Sorted(p.bufs.Keys);
    p.(next := NextAfter(p.bufs, ids, p.next), out := p.out + Everything(p.bufs, ids), bufs := AllDrained(p.bufs))
  }

  // checkDataBuffers
  function Checked(cfg: Config, bufs: map<nat, Buf>): map<nat, Buf> {
    map id | id in bufs :: Check(cfg, bufs[id])
  }

  // ---------------------------------------------------------------- runs

  datatype Op =
    | Push(seqId: nat, ts: nat)
    | Arrive(id: nat, fs: seq<Fragment>)
    | Prune
    | Pass(late: set<(nat, nat)>, expired: set<nat>, expiredLater: set<nat>)

  ghost function Step(cfg: Config, p: Pipe, op: Op): Pipe {
    match op
    case Push(seqId, ts) => p.(rb := Requests.AfterPush(p.rb, seqId, ts))
    case Arrive(id, fs) =>
      if id in p.bufs && fs != [] then p.(bufs := p.bufs[id := Receive(cfg, p.bufs[id], fs)]) else p
    case Prune => p.(bufs := Checked(cfg, p.bufs))
    case Pass(late, expired, expiredLater) =>
      match cfg.mode
      case Single => LatestPass(cfg, p)
      case Buffer => LatestPass(cfg, p)
      case Window => WindowPass(cfg, p, late, expired, expiredLater)
      case SequenceID => WindowPass(cfg, p, late, expired, expiredLater)
      case Ignored => IgnoredPass(p)
  }

  // One call of applyRequests: outside Ignored mode the data buffers are pruned first.
  ghost function Applied(cfg: Config, p: Pipe, late: set<(nat, nat)>, expired: set<nat>, expiredLater: set<nat>): Pipe {
    Step(cfg, if cfg.mode == Ignored then p else Step(cfg, p, Op.Prune), Pass(late, expired, expiredLater))
  }

  ghost function Run(cfg: Config, ids: set<nat>, increment: nat, ops: seq<Op>): Pipe {
    if ops == [] then FreshPipe(ids, increment)
    else Step(cfg, Run(cfg, ids, increment, ops[..|ops| - 1]), ops[|ops| - 1])
  }

  // Everything that arrives for one fragment ID.
  function ArrivedFor(ops: seq<Op>, id: nat): seq<Fragment> {
    if ops == [] then []
    else
      var op := ops[|ops| - 1];
      ArrivedFor(ops[..|ops| - 1], id) + if op.Arrive? && op.id == id then op.fs else []
  }

  // ---------------------------------------------------------------- looking through the outputs

  // What find gives for each output, in order.
  function Collect<T>(out: seq<Output>, find: Output -> seq<T>): seq<T> {
    if out == [] then [] else Collect(out[..|out| - 1], find) + find(out[|out| - 1])
  }

  lemma CollectOne<T>(o: Output, find: Output -> seq<T>)
    ensures Collect([o], find) == find(o)
  {
    var out := [o];
    assert out[..0] == [] && Collect(out[..0], find) == [];
    assert [] + find(o) == find(o);
  }

  lemma {:induction false} CollectMore<T>(out: seq<Output>, more: seq<Output>, find: Output -> seq<T>)
    ensures Collect(out + more, find) == Collect(out, find) + Collect(more, find)
  {
    if more == [] {
      assert out + more == out;
    } else {
      var front, last := more[..|more| - 1], more[|more| - 1];
      assert (out + more)[..|out + more| - 1] == out + front && (out + more)[|out + more| - 1] == last;
      CollectMore(out, front, find);
      Joined(Collect(out, find), Collect(front, find), find(last));
    }
  }

  function AnswerOf(cfg: Config, bufs: map<nat, Buf>, id: nat, seqId: nat, ts: nat, late: set<(nat, nat)>): seq<Output>
    requires id in bufs
  {
    Answer(cfg, bufs[id], id, seqId, ts, (seqId, id) in late)
  }

  // If the answers of the other data buffers have nothing of what find looks for, all of it is in the one answer of q.
  lemma {:induction false} CollectAnswers<T>(cfg: Config, bufs: map<nat, Buf>, ids: seq<nat>, seqId: nat, ts: nat,
                                             late: set<(nat, nat)>,
                                             find: Output -> seq<T>, q: nat)
    requires Increasing(ids) && forall i :: i in ids ==> i in bufs
    requires forall i :: i in ids && i != q ==> Collect(AnswerOf(cfg, bufs, i, seqId, ts, late), find) == []
    ensures Collect(AnswersOf(cfg, bufs, ids, seqId, ts, late), find)
            == if q in ids then Collect(AnswerOf(cfg, bufs, q, seqId, ts, late), find) else []
  {
    if ids != [] {
      var front, last := ids[..|ids| - 1], ids[|ids| - 1];
      LastIsNew(ids, q);
      CollectAnswers(cfg, bufs, front, seqId, ts, late, find, q);
      CollectMore(AnswersOf(cfg, bufs, front, seqId, ts, late), AnswerOf(cfg, bufs, last, seqId, ts, late), find);
      EitherOne(q in front, q == last, Collect(AnswerOf(cfg, bufs, last, seqId, ts, late), find),
        Collect(AnswersOf(cfg, bufs, front, seqId, ts, late), find));
    }
  }

  lemma EitherOne<T>(earlier: bool, now: bool, own: seq<T>, before: seq<T>)
    requires !(earlier && now) && (!earlier ==> before == []) && (!now ==> own == [])
    ensures before + own == if earlier then before else own
  {
  }
}
