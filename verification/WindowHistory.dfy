/** What the missing-data flag of a window container means over a whole run: every fragment that arrived before,
    or arrives later, is accounted for (artdaq/DAQrate/FragmentBuffer.cc:592-612). */
module WindowHistory {
  import opened DataBuffers
  import opened Windows

  datatype Op = Arrive(fs: seq<Fragment>) | Prune | Request(seqId: nat, ts: nat, late: bool)

  datatype Answer = Answer(ts: nat, missing: bool, content: seq<Fragment>)

  // One data buffer, everything that arrived in it, and the containers it produced.
  datatype History = History(buf: Buf, arrived: seq<Fragment>, answers: seq<Answer>)

  function Step(cfg: Config, h: History, op: Op): History {
    match op
    case Arrive(fs) => if fs == [] then h else h.(buf := Receive(cfg, h.buf, fs), arrived := h.arrived + fs)
    case Prune => h.(buf := Check(cfg, h.buf))
    case Request(seqId, ts, late) =>
      if !Answers(cfg, h.buf, ts, late) then h
      else h.(buf := FilledBuf(cfg, h.buf, seqId, ts, late),
              answers := h.answers + [Answer(ts, Missing(cfg, h.buf, ts), Content(cfg, h.buf, ts))])
  }

  function Run(cfg: Config, ops: seq<Op>): History {
    if ops == [] then History(EMPTY_BUF, [], []) else Step(cfg, Run(cfg, ops[..|ops| - 1]), ops[|ops| - 1])
  }

  // ---------------------------------------------------------------- the invariant

  predicate Before(strict: bool, a: nat, b: nat) {
    a < b || (!strict && a == b)
  }

  // Data arrives in the order of its timestamps; strict: no two are the same.
  ghost predicate InTime(strict: bool, s: seq<Fragment>) {
    forall i, j :: 0 <= i < j < |s| ==> Before(strict, s[i].timestamp, s[j].timestamp)
  }

  ghost predicate Delivered(answers: seq<Answer>, f: Fragment) {
    exists j :: 0 <= j < |answers| && f in answers[j].content
  }

  // Everything in the buffer comes after f.
  ghost predicate LeftBehind(strict: bool, frags: seq<Fragment>, f: Fragment) {
    forall g :: g in frags ==> Before(strict, f.timestamp, g.timestamp)
  }

  ghost predicate Known(strict: bool, frags: seq<Fragment>, arrived: seq<Fragment>) {
    InTime(strict, frags) && forall f :: f in frags ==> f in arrived
  }

  // With equal timestamps, the two kinds of fragments of a window that an unflagged container may lack: one at the
  // start of the window, dropped from the front while another of the same time stayed; and, if the width is 0, one that
  // arrives at the end of the window later.
  predicate Excused(strict: bool, w: Span, t: nat) {
    !strict && (t == w.min || (w.closed && t == w.max))
  }

  // Where a fragment that arrived can be: in the buffer, in a container that took it, or dropped from the front.
  ghost predicate Located(cfg: Config, strict: bool, frags: seq<Fragment>, arrived: seq<Fragment>,
                          answers: seq<Answer>) {
    forall f :: f in arrived ==> f in frags || (cfg.unique && Delivered(answers, f)) || LeftBehind(strict, frags, f)
  }

  // The i-th container, unless it is flagged, holds all of its window but what earlier containers took.
  ghost predicate CompleteAt(cfg: Config, strict: bool, arrived: seq<Fragment>, answers: seq<Answer>, i: nat)
    requires i < |answers|
  {
    var w := WindowOf(cfg, answers[i].ts);
    !answers[i].missing ==>
      && (forall f :: f in arrived && Inside(w, f.timestamp) ==>
            f in answers[i].content || (cfg.unique && Delivered(answers[..i], f)) || Excused(strict, w, f.timestamp))
      && arrived != [] && arrived[|arrived| - 1].timestamp >= w.max
  }

  ghost predicate Complete(cfg: Config, strict: bool, arrived: seq<Fragment>, answers: seq<Answer>) {
    forall i :: 0 <= i < |answers| ==> CompleteAt(cfg, strict, arrived, answers, i)
  }

  // The i-th container holds fragments of its window that have arrived, and none that an earlier one took.
  ghost predicate HonestAt(cfg: Config, strict: bool, frags: seq<Fragment>, arrived: seq<Fragment>,
                           answers: seq<Answer>, i: nat)
    requires i < |answers|
  {
    && (forall f :: f in answers[i].content ==> f in arrived && Inside(WindowOf(cfg, answers[i].ts), f.timestamp))
    && (cfg.unique && strict ==> forall f :: f in answers[i].content ==> f !in frags && !Delivered(answers[..i], f))
  }

  ghost predicate Honest(cfg: Config, strict: bool, frags: seq<Fragment>, arrived: seq<Fragment>,
                         answers: seq<Answer>) {
    forall i :: 0 <= i < |answers| ==> HonestAt(cfg, strict, frags, arrived, answers, i)
  }

  ghost predicate Inv(cfg: Config, strict: bool, h: History) {
    && DepthsExact(h.buf)
    && Known(strict, h.buf.frags, h.arrived)
    && Located(cfg, strict, h.buf.frags, h.arrived, h.answers)
    && Complete(cfg, strict, h.arrived, h.answers)
    && Honest(cfg, strict, h.buf.frags, h.arrived, h.answers)
  }

  // ---------------------------------------------------------------- dropping from the front

  lemma SuffixIsKnown(strict: bool, s: seq<Fragment>, arrived: seq<Fragment>, k: nat)
    requires Known(strict, s, arrived) && k <= |s|
    ensures Known(strict, s[k..], arrived)
    ensures forall f :: f in s && f !in s[k..] ==> LeftBehind(strict, s[k..], f)
  {
    forall f | f in s && f !in s[k..] ensures LeftBehind(strict, s[k..], f) {
      assert s == s[..k] + s[k..];
      var i :| 0 <= i < |s[..k]| && s[..k][i] == f;
    }
  }

  lemma SuffixIsLocated(cfg: Config, strict: bool, s: seq<Fragment>, arrived: seq<Fragment>, answers: seq<Answer>,
                        k: nat)
    requires Known(strict, s, arrived) && Located(cfg, strict, s, arrived, answers) && k <= |s|
    ensures Located(cfg, strict, s[k..], arrived, answers)
  {
    SuffixIsKnown(strict, s, arrived, k);
    assert forall g :: g in s[k..] ==> g in s;
  }

  lemma PrunedKeepsInv(cfg: Config, strict: bool, h: History, r: Buf)
    requires Inv(cfg, strict, h) && Pruned(h.buf, r)
    ensures Inv(cfg, strict, h.(buf := r))
  {
    var k := |h.buf.frags| - |r.frags|;
    SuffixIsKnown(strict, h.buf.frags, h.arrived, k);
    SuffixIsLocated(cfg, strict, h.buf.frags, h.arrived, h.answers, k);
    FewerIsHonest(cfg, strict, h.buf.frags, r.frags, h.arrived, h.answers);
  }

  lemma FewerIsHonest(cfg: Config, strict: bool, s: seq<Fragment>, r: seq<Fragment>, arrived: seq<Fragment>,
                      answers: seq<Answer>)
    requires Honest(cfg, strict, s, arrived, answers) && forall f :: f in r ==> f in s
    ensures Honest(cfg, strict, r, arrived, answers)
  {
    forall i | 0 <= i < |answers| ensures HonestAt(cfg, strict, r, arrived, answers, i) {
      assert HonestAt(cfg, strict, s, arrived, answers, i);
    }
  }

  // ---------------------------------------------------------------- arrivals

  lemma ArriveKeepsKnown(strict: bool, s: seq<Fragment>, arrived: seq<Fragment>, fs: seq<Fragment>)
    requires Known(strict, s, arrived) && InTime(strict, arrived + fs)
    ensures Known(strict, s + fs, arrived + fs)
    ensures forall f, g :: f in arrived && g in fs ==> Before(strict, f.timestamp, g.timestamp)
  {
    forall f, g | f in arrived && g in fs ensures Before(strict, f.timestamp, g.timestamp) {
      var i :| 0 <= i < |arrived| && arrived[i] == f;
      var j :| 0 <= j < |fs| && fs[j] == g;
      assert (arrived + fs)[i] == f && (arrived + fs)[|arrived| + j] == g;
    }
    forall i, j | 0 <= i < j < |s + fs| ensures Before(strict, (s + fs)[i].timestamp, (s + fs)[j].timestamp) {
      if i < |s| <= j {
        assert s[i] in arrived && fs[j - |s|] in fs;
      } else if |s| <= i {
        assert (arrived + fs)[|arrived| + i - |s|] == fs[i - |s|] && (arrived + fs)[|arrived| + j - |s|] == fs[j - |s|];
      }
    }
  }

  lemma ArriveKeepsLocated(cfg: Config, strict: bool, s: seq<Fragment>, arrived: seq<Fragment>, fs: seq<Fragment>,
                           answers: seq<Answer>)
    requires Located(cfg, strict, s, arrived, answers)
    requires forall f, g :: f in arrived && g in fs ==> Before(strict, f.timestamp, g.timestamp)
    ensures Located(cfg, strict, s + fs, arrived + fs, answers)
  {
    forall f | f in arrived + fs && f !in s + fs && !(cfg.unique && Delivered(answers, f))
      ensures LeftBehind(strict, s + fs, f)
    {
      assert f in arrived && LeftBehind(strict, s, f);
    }
  }

  lemma ArriveKeepsComplete(cfg: Config, strict: bool, arrived: seq<Fragment>, fs: seq<Fragment>, answers: seq<Answer>)
    requires Complete(cfg, strict, arrived, answers) && fs != []
    requires forall f, g :: f in arrived && g in fs ==> Before(strict, f.timestamp, g.timestamp)
    ensures Complete(cfg, strict, arrived + fs, answers)
  {
    forall i | 0 <= i < |answers| ensures CompleteAt(cfg, strict, arrived + fs, answers, i) {
      assert CompleteAt(cfg, strict, arrived, answers, i);
      if !answers[i].missing {
        assert arrived[|arrived| - 1] in arrived && fs[|fs| - 1] in fs;
      }
    }
  }

  lemma ArriveKeepsHonest(cfg: Config, strict: bool, s: seq<Fragment>, arrived: seq<Fragment>, fs: seq<Fragment>,
                          answers: seq<Answer>)
    requires Honest(cfg, strict, s, arrived, answers)
    requires forall f, g :: f in arrived && g in fs ==> Before(strict, f.timestamp, g.timestamp)
    ensures Honest(cfg, strict, s + fs, arrived + fs, answers)
  {
    assert strict ==> forall f :: f in arrived ==> f !in fs;
    forall i | 0 <= i < |answers| ensures HonestAt(cfg, strict, s + fs, arrived + fs, answers, i) {
      assert HonestAt(cfg, strict, s, arrived, answers, i);
    }
  }

  lemma ArriveKeepsInv(cfg: Config, strict: bool, h: History, fs: seq<Fragment>)
    requires Inv(cfg, strict, h) && cfg.mode == Window && fs != [] && InTime(strict, h.arrived + fs)
    ensures Inv(cfg, strict, Step(cfg, h, Arrive(fs)))
  {
    SurvivorsAreLongestSuffix(cfg, h.buf);
    var r := if cfg.circular then DropOverLimit(cfg, h.buf) else h.buf;
    assert h.buf.frags[0..] == h.buf.frags;
    PrunedKeepsInv(cfg, strict, h, r);
    ArriveKeepsKnown(strict, r.frags, h.arrived, fs);
    ArriveKeepsLocated(cfg, strict, r.frags, h.arrived, fs, h.answers);
    ArriveKeepsComplete(cfg, strict, h.arrived, fs, h.answers);
    ArriveKeepsHonest(cfg, strict, r.frags, h.arrived, fs, h.answers);
    ReceiveKeepsDepths(cfg, h.buf, fs);
  }

  // ---------------------------------------------------------------- answers

  lemma WithoutIsKnown(strict: bool, w: Span, s: seq<Fragment>, arrived: seq<Fragment>)
    requires Known(strict, s, arrived)
    ensures Known(strict, Without(w, s), arrived)
  {
    FilterKeeps(w, s);
    WithoutRises(strict, w, s);
  }

  lemma {:induction false} WithoutRises(strict: bool, w: Span, s: seq<Fragment>)
    requires InTime(strict, s)
    ensures InTime(strict, Without(w, s))
  {
    if s != [] {
      WithoutRises(strict, w, s[1..]);
      FilterKeeps(w, s[1..]);
      PutFirst(strict, s[0], Without(w, s[1..]));
    }
  }

  lemma PutFirst(strict: bool, f: Fragment, s: seq<Fragment>)
    requires InTime(strict, s) && forall g :: g in s ==> Before(strict, f.timestamp, g.timestamp)
    ensures InTime(strict, [f] + s)
  {
    forall j | 0 <= j < |s| ensures Before(strict, f.timestamp, s[j].timestamp) { assert s[j] in s; }
  }

  lemma InTimeIsChronological(strict: bool, s: seq<Fragment>)
    requires InTime(strict, s)
    ensures Chronological(s)
  {
  }

  lemma NewAnswerDelivers(answers: seq<Answer>, a: Answer, f: Fragment)
    ensures Delivered(answers + [a], f) <==> Delivered(answers, f) || f in a.content
    ensures (answers + [a])[..|answers|] == answers
  {
    if f in a.content { assert (answers + [a])[|answers|] == a; }
    if Delivered(answers, f) {
      var j :| 0 <= j < |answers| && f in answers[j].content;
      assert (answers + [a])[j] == answers[j];
    }
  }

  lemma AnswerKeepsLocated(cfg: Config, strict: bool, s: seq<Fragment>, arrived: seq<Fragment>, answers: seq<Answer>,
                           w: Span, a: Answer)
    requires Located(cfg, strict, s, arrived, answers) && a.content == Within(w, s)
    ensures Located(cfg, strict, if cfg.unique then Without(w, s) else s, arrived, answers + [a])
  {
    FilterKeeps(w, s);
    forall f | f in arrived ensures Delivered(answers + [a], f) <==> Delivered(answers, f) || f in a.content {
      NewAnswerDelivers(answers, a, f);
    }
  }

  lemma AnswerKeepsComplete(cfg: Config, strict: bool, arrived: seq<Fragment>, answers: seq<Answer>, a: Answer)
    requires Complete(cfg, strict, arrived, answers) && CompleteAt(cfg, strict, arrived, answers + [a], |answers|)
    ensures Complete(cfg, strict, arrived, answers + [a])
  {
    forall i | 0 <= i < |answers| ensures CompleteAt(cfg, strict, arrived, answers + [a], i) {
      assert CompleteAt(cfg, strict, arrived, answers, i);
      assert (answers + [a])[..i] == answers[..i];
    }
  }

  // A container that is not flagged was made from a buffer that reached back to the start of the window and beyond its
  // end.
  lemma NewAnswerIsComplete(cfg: Config, strict: bool, b: Buf, arrived: seq<Fragment>, answers: seq<Answer>, a: Answer)
    requires DepthsExact(b) && Known(strict, b.frags, arrived) && Located(cfg, strict, b.frags, arrived, answers)
    requires InTime(strict, arrived)
    requires a == Answer(a.ts, Missing(cfg, b, a.ts), Within(WindowOf(cfg, a.ts), b.frags))
    ensures CompleteAt(cfg, strict, arrived, answers + [a], |answers|)
  {
    var w := WindowOf(cfg, a.ts);
    assert (answers + [a])[..|answers|] == answers;
    FilterKeeps(w, b.frags);
    if !a.missing {
      assert b.frags[0] in b.frags;
      LastIsLatest(strict, b.frags, arrived);
    }
  }

  lemma LastIsLatest(strict: bool, s: seq<Fragment>, arrived: seq<Fragment>)
    requires s != [] && Known(strict, s, arrived) && InTime(strict, arrived)
    ensures arrived != [] && s[|s| - 1].timestamp <= arrived[|arrived| - 1].timestamp
  {
    assert s[|s| - 1] in arrived;
    var i :| 0 <= i < |arrived| && arrived[i] == s[|s| - 1];
    assert i < |arrived| - 1 ==> Before(strict, arrived[i].timestamp, arrived[|arrived| - 1].timestamp);
  }

  lemma AnswerKeepsHonest(cfg: Config, strict: bool, s: seq<Fragment>, arrived: seq<Fragment>, answers: seq<Answer>,
                          a: Answer)
    requires Honest(cfg, strict, s, arrived, answers) && Known(strict, s, arrived)
    requires a.content == Within(WindowOf(cfg, a.ts), s)
    ensures Honest(cfg, strict, if cfg.unique then Without(WindowOf(cfg, a.ts), s) else s, arrived, answers + [a])
  {
    var w := WindowOf(cfg, a.ts);
    var r := if cfg.unique then Without(w, s) else s;
    FilterKeeps(w, s);
    forall i | 0 <= i < |answers| ensures HonestAt(cfg, strict, r, arrived, answers + [a], i) {
      assert HonestAt(cfg, strict, s, arrived, answers, i);
      assert (answers + [a])[..i] == answers[..i];
    }
    NewAnswerIsHonest(cfg, strict, s, arrived, answers, a);
  }

  lemma NewAnswerIsHonest(cfg: Config, strict: bool, s: seq<Fragment>, arrived: seq<Fragment>, answers: seq<Answer>,
                          a: Answer)
    requires Honest(cfg, strict, s, arrived, answers) && Known(strict, s, arrived)
    requires a.content == Within(WindowOf(cfg, a.ts), s)
    ensures HonestAt(cfg, strict, if cfg.unique then Without(WindowOf(cfg, a.ts), s) else s, arrived, answers + [a],
            |answers|)
  {
    FilterKeeps(WindowOf(cfg, a.ts), s);
    assert (answers + [a])[..|answers|] == answers;
    forall f | f in s && cfg.unique && strict ensures !Delivered(answers, f) {
      forall j | 0 <= j < |answers| ensures f !in answers[j].content {
        assert HonestAt(cfg, strict, s, arrived, answers, j);
      }
    }
  }

  lemma AnswerKeepsInv(cfg: Config, strict: bool, h: History, seqId: nat, ts: nat, late: bool)
    requires Inv(cfg, strict, h) && InTime(strict, h.arrived)
    ensures Inv(cfg, strict, Step(cfg, h, Request(seqId, ts, late)))
  {
    if Answers(cfg, h.buf, ts, late) {
      var w := WindowOf(cfg, ts);
      var s := h.buf.frags;
      var a := Answer(ts, Missing(cfg, h.buf, ts), Content(cfg, h.buf, ts));
      InTimeIsChronological(strict, s);
      BothScansFilter(w, s, !Closed(cfg, h.buf, ts));
      FillKeepsDepths(cfg, h.buf, seqId, ts, late);
      WithoutIsKnown(strict, w, s, h.arrived);
      AnswerKeepsLocated(cfg, strict, s, h.arrived, h.answers, w, a);
      NewAnswerIsComplete(cfg, strict, h.buf, h.arrived, h.answers, a);
      AnswerKeepsComplete(cfg, strict, h.arrived, h.answers, a);
      AnswerKeepsHonest(cfg, strict, s, h.arrived, h.answers, a);
    }
  }

  // ---------------------------------------------------------------- whole runs

  lemma {:induction false} RunKeepsInv(cfg: Config, strict: bool, ops: seq<Op>)
    requires cfg.mode == Window && InTime(strict, Run(cfg, ops).arrived)
    ensures Inv(cfg, strict, Run(cfg, ops))
  {
    if ops != [] {
      var h, op := Run(cfg, ops[..|ops| - 1]), ops[|ops| - 1];
      assert Run(cfg, ops) == Step(cfg, h, op);
      assert h.arrived <= Run(cfg, ops).arrived;
      assert forall i :: 0 <= i < |h.arrived| ==> h.arrived[i] == Run(cfg, ops).arrived[i];
      RunKeepsInv(cfg, strict, ops[..|ops| - 1]);
      match op
      case Arrive(fs) => if fs != [] { ArriveKeepsInv(cfg, strict, h, fs); }
      case Prune => CheckPrunes(cfg, h.buf); PrunedKeepsInv(cfg, strict, h, Check(cfg, h.buf));
      case Request(seqId, ts, late) => AnswerKeepsInv(cfg, strict, h, seqId, ts, late);
    }
  }

  // Over any run, whatever was dropped for size, age or in circular mode, if the fragments arrive in the order of their
  // timestamps: a container that is not flagged as missing data holds every fragment of its window that arrives in the
  // whole run, before or after it, except those that an earlier container took in unique mode - and, only if timestamps
  // may be equal, those excused; and nothing else.
  lemma UnflaggedContainersAreComplete(cfg: Config, strict: bool, ops: seq<Op>, i: nat, f: Fragment)
    requires cfg.mode == Window && InTime(strict, Run(cfg, ops).arrived) && i < |Run(cfg, ops).answers|
    ensures var h := Run(cfg, ops);
            var w := WindowOf(cfg, h.answers[i].ts);
            && (!h.answers[i].missing && f in h.arrived && Inside(w, f.timestamp) ==>
                  f in h.answers[i].content || (cfg.unique && Delivered(h.answers[..i], f))
                    || Excused(strict, w, f.timestamp))
            && (f in h.answers[i].content ==> f in h.arrived && Inside(w, f.timestamp))
            && (cfg.unique && strict && f in h.answers[i].content ==> !Delivered(h.answers[..i], f))
  {
    RunKeepsInv(cfg, strict, ops);
    var h := Run(cfg, ops);
    assert CompleteAt(cfg, strict, h.arrived, h.answers, i)
      && HonestAt(cfg, strict, h.buf.frags, h.arrived, h.answers, i);
  }

  // ---------------------------------------------------------------- equal timestamps

  const NARROW := Config(Window, false, 0, 5, 0, false, false, false, 2, 0, 0)
  const POINT := Config(Window, false, 0, 0, 0, false, false, false, 0, 0, 0)

  function At(timestamp: nat, body: nat): Fragment {
    Fragment(0, 0, timestamp, 1, body, false)
  }

  lemma ThreeSteps(cfg: Config, a: Op, b: Op, c: Op)
    ensures Run(cfg, [a, b, c]) == Step(cfg, Step(cfg, Step(cfg, History(EMPTY_BUF, [], []), a), b), c)
  {
    assert [a, b, c][..2] == [a, b] && [a, b][..1] == [a] && [a][..0] == [];
    assert Run(cfg, [a]) == Step(cfg, History(EMPTY_BUF, [], []), a);
    assert Run(cfg, [a, b]) == Step(cfg, Run(cfg, [a]), b);
  }

  lemma FirstArrival(cfg: Config, fs: seq<Fragment>)
    requires cfg.mode == Window && !cfg.circular && fs != []
    ensures Step(cfg, History(EMPTY_BUF, [], []), Arrive(fs)) == History(Buf(fs, |fs|, Bytes(fs), {}, 0, false), fs, [])
  {
    FirstReceived(cfg, fs);
    assert [] + fs == fs;
  }

  lemma FirstReceived(cfg: Config, fs: seq<Fragment>)
    requires cfg.mode == Window && !cfg.circular && fs != []
    ensures Receive(cfg, EMPTY_BUF, fs) == Buf(fs, |fs|, Bytes(fs), {}, 0, false)
  {
    assert [] + fs == fs;
  }

  lemma OneIsDropped(a: Fragment, b: Fragment, c: Fragment)
    ensures Check(NARROW, Buf([a, b, c], 3, Bytes([a, b, c]), {}, 0, false)).frags == [b, c]
    ensures Check(NARROW, Buf([a, b, c], 3, Bytes([a, b, c]), {}, 0, false)).depthFrags == 2
  {
    var s := [a, b, c];
    assert s[1..] == [b, c];
    var d := DropFront(Buf(s, 3, Bytes(s), {}, 0, false));
    assert DropOverLimit(NARROW, d) == d;
  }

  lemma ClosedWindowTakesFirst(cfg: Config, h: History, seqId: nat, ts: nat, rest: seq<Fragment>)
    requires h.buf.frags != [] && h.buf.depthFrags > 0 && h.buf.frags[1..] == rest
    requires Closed(cfg, h.buf, ts) && h.buf.frags[0].timestamp == WindowMin(cfg, ts)
    requires Inside(WindowOf(cfg, ts), h.buf.frags[0].timestamp)
    requires Taken(WindowOf(cfg, ts), rest) == []
    ensures var u := Step(cfg, h, Request(seqId, ts, false));
            u.answers == h.answers + [Answer(ts, false, [h.buf.frags[0]])] && u.arrived == h.arrived
  {
    var w, s := WindowOf(cfg, ts), h.buf.frags;
    assert s[0..] == s;
    assert [s[0]] + [] == [s[0]];
    assert Taken(w, s) == [s[0]];
    assert Content(cfg, h.buf, ts) == [s[0]] && !Missing(cfg, h.buf, ts);
  }

  // Of two fragments at the start of the window [10, 15) the first is dropped for size, and the container is not
  // flagged.
  lemma DroppedAtTheStart()
    ensures var h := Run(NARROW, [Arrive([At(10, 1), At(10, 2), At(20, 3)]), Prune, Request(1, 10, false)]);
            h.answers == [Answer(10, false, [At(10, 2)])] && h.arrived == [At(10, 1), At(10, 2), At(20, 3)]
  {
    var a, b, c := At(10, 1), At(10, 2), At(20, 3);
    ThreeSteps(NARROW, Arrive([a, b, c]), Prune, Request(1, 10, false));
    FirstArrival(NARROW, [a, b, c]);
    PrunedAndAsked(a, b, c, History(Buf([a, b, c], 3, Bytes([a, b, c]), {}, 0, false), [a, b, c], []));
  }

  lemma PrunedAndAsked(a: Fragment, b: Fragment, c: Fragment, h: History)
    requires h == History(Buf([a, b, c], 3, Bytes([a, b, c]), {}, 0, false), [a, b, c], [])
    requires b.timestamp == 10 && c.timestamp == 20
    ensures var u := Step(NARROW, Step(NARROW, h, Prune), Request(1, 10, false));
            u.answers == [Answer(10, false, [b])] && u.arrived == h.arrived
  {
    OneIsDropped(a, b, c);
    assert [b, c][1..] == [c];
    BeyondTakesNothing(c);
    ClosedWindowTakesFirst(NARROW, Step(NARROW, h, Prune), 1, 10, [c]);
  }

  lemma BeyondTakesNothing(c: Fragment)
    requires c.timestamp == 20
    ensures Taken(WindowOf(NARROW, 10), [c]) == []
  {
  }

  // With width 0 the window [10, 10] is closed by its own fragment, and another one arrives later.
  lemma ArrivesAtTheEnd()
    ensures var h := Run(POINT, [Arrive([At(10, 1)]), Request(1, 10, false), Arrive([At(10, 2)])]);
            h.answers == [Answer(10, false, [At(10, 1)])] && h.arrived == [At(10, 1), At(10, 2)]
  {
    var a, b := At(10, 1), At(10, 2);
    ThreeSteps(POINT, Arrive([a]), Request(1, 10, false), Arrive([b]));
    FirstArrival(POINT, [a]);
    AskedAndMore(a, b, History(Buf([a], 1, Bytes([a]), {}, 0, false), [a], []));
  }

  lemma AskedAndMore(a: Fragment, b: Fragment, h: History)
    requires h == History(Buf([a], 1, Bytes([a]), {}, 0, false), [a], []) && a.timestamp == 10
    ensures var u := Step(POINT, Step(POINT, h, Request(1, 10, false)), Arrive([b]));
            u.answers == [Answer(10, false, [a])] && u.arrived == [a, b]
  {
    assert [a][1..] == [];
    ClosedWindowTakesFirst(POINT, h, 1, 10, []);
    assert [a] + [b] == [a, b];
  }

  // ---------------------------------------------------------------- nothing is handed out twice in unique mode

  function AllContent(answers: seq<Answer>): seq<Fragment> {
    if answers == [] then [] else AllContent(answers[..|answers| - 1]) + answers[|answers| - 1].content
  }

  lemma {:induction false} ScanConserves(w: Span, s: seq<Fragment>)
    ensures multiset(Taken(w, s)) + multiset(Left(w, s)) == multiset(s)
  {
    if s != [] {
      ScanConserves(w, s[1..]);
      assert s == [s[0]] + s[1..];
    }
  }

  lemma AnswerConserves(cfg: Config, b: Buf, ts: nat)
    ensures multiset(Content(cfg, b, ts)) + multiset(Remaining(cfg, b, ts)) == multiset(b.frags)
  {
    var start := ScanStart(WindowOf(cfg, ts), b.frags, !Closed(cfg, b, ts));
    ScanConserves(WindowOf(cfg, ts), b.frags[start..]);
    assert b.frags == b.frags[..start] + b.frags[start..];
  }

  // In whatever order fragments arrive: with unique windows, each one is in at most one container, or still in the
  // buffer.
  lemma {:induction false} UniqueWindowsShareNothing(cfg: Config, ops: seq<Op>)
    requires cfg.mode == Window && cfg.unique
    ensures var h := Run(cfg, ops);
            DepthsExact(h.buf) && multiset(AllContent(h.answers)) + multiset(h.buf.frags) <= multiset(h.arrived)
  {
    if ops != [] {
      UniqueWindowsShareNothing(cfg, ops[..|ops| - 1]);
      StepSharesNothing(cfg, Run(cfg, ops[..|ops| - 1]), ops[|ops| - 1]);
    }
  }

  lemma StepSharesNothing(cfg: Config, h: History, op: Op)
    requires cfg.mode == Window && cfg.unique
    requires DepthsExact(h.buf) && multiset(AllContent(h.answers)) + multiset(h.buf.frags) <= multiset(h.arrived)
    ensures var u := Step(cfg, h, op);
            DepthsExact(u.buf) && multiset(AllContent(u.answers)) + multiset(u.buf.frags) <= multiset(u.arrived)
  {
    match op
    case Arrive(fs) =>
      if fs != [] {
        SurvivorsAreLongestSuffix(cfg, h.buf);
        PrunedIsPart(h.buf, DropOverLimit(cfg, h.buf));
        ReceiveKeepsDepths(cfg, h.buf, fs);
      }
    case Prune =>
      CheckPrunes(cfg, h.buf);
      PrunedIsPart(h.buf, Check(cfg, h.buf));
    case Request(seqId, ts, late) =>
      FillKeepsDepths(cfg, h.buf, seqId, ts, late);
      AnswerConserves(cfg, h.buf, ts);
      MoreContent(h.answers, Answer(ts, Missing(cfg, h.buf, ts), Content(cfg, h.buf, ts)));
  }

  lemma MoreContent(answers: seq<Answer>, a: Answer)
    ensures AllContent(answers + [a]) == AllContent(answers) + a.content
  {
    assert (answers + [a])[..|answers|] == answers;
  }
}
