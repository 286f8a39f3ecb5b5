/** Buffer mode on one data buffer: every response hands out what arrived since the last one
    (artdaq/DAQrate/FragmentBuffer.cc:514-555). Over any run each fragment is delivered once, in order of arrival. */
module BufferMode {
  import opened DataBuffers

  // A fragment kept from the previous response is discarded when more data has arrived.
  function DiscardKept(b: Buf): Buf {
    if b.kept && b.depthFrags > 1 && b.frags != []
    then b.(frags := b.frags[1..], depthFrags := |b.frags| - 1, depthBytes := b.depthBytes - b.frags[0].bytes)
    else b
  }

  function ResponseContent(b: Buf): seq<Fragment> {
    DiscardKept(b).frags
  }

  function AfterResponse(cfg: Config, b: Buf): Buf {
    var d := DiscardKept(b);
    if d.frags == [] then d
    else if cfg.keepLatest then
      var last := d.frags[|d.frags| - 1];
      d.(frags := [last], depthFrags := 1, depthBytes := last.bytes, kept := true)
    else d.(frags := [], depthFrags := 0, depthBytes := 0, kept := false)
  }

  lemma ResponseKeepsDepths(cfg: Config, b: Buf)
    requires DepthsExact(b)
    ensures DepthsExact(AfterResponse(cfg, b))
  {
    var d := DiscardKept(b);
    if d.frags != [] {
      assert [d.frags[|d.frags| - 1]][1..] == [];
    }
  }

  // With keepLatest the last fragment that was there stays, marked; nothing stays without.
  lemma ResponseKeepsTheLatest(cfg: Config, b: Buf)
    requires DepthsExact(b) && (b.kept ==> b.frags != [])
    ensures var u := AfterResponse(cfg, b);
            if cfg.keepLatest && b.frags != [] then u.kept && u.frags == b.frags[|b.frags| - 1..]
            else !u.kept && u.frags == []
  {
  }

  // ---------------------------------------------------------------- histories

  datatype Op = Arrive(fs: seq<Fragment>) | Prune | Request

  // repeats: the response had nothing new and sent the kept fragment again.
  datatype Response = Response(content: seq<Fragment>, repeats: bool)

  // A fragment leaves for the first time: in a response, or dropped by pruning.
  datatype Exit = Exit(fragment: Fragment, delivered: bool)

  datatype History = History(buf: Buf, arrived: seq<Fragment>, responses: seq<Response>, exits: seq<Exit>)

  // What the buffer holds and no response has contained.
  function Undelivered(b: Buf): seq<Fragment> {
    if b.kept && b.frags != [] then b.frags[1..] else b.frags
  }

  function Leave(fs: seq<Fragment>, delivered: bool): (r: seq<Exit>)
    ensures |r| == |fs|
  {
    seq(|fs|, i requires 0 <= i < |fs| => Exit(fs[i], delivered))
  }

  function Dropped(before: seq<Fragment>, after: seq<Fragment>): seq<Fragment> {
    if |after| <= |before| then before[..|before| - |after|] else []
  }

  function PruneTo(h: History, r: Buf): History {
    h.(buf := r, exits := h.exits + Leave(Dropped(Undelivered(h.buf), Undelivered(r)), false))
  }

  function Step(cfg: Config, h: History, op: Op): History {
    match op
    case Arrive(fs) =>
      if fs == [] then h
      else
        var p := PruneTo(h, if cfg.circular then DropOverLimit(cfg, h.buf) else h.buf);
        p.(buf := Receive(cfg, h.buf, fs), arrived := h.arrived + fs)
    case Prune => PruneTo(h, Check(cfg, h.buf))
    case Request =>
      var content := ResponseContent(h.buf);
      var repeats := h.buf.kept && h.buf.depthFrags <= 1;
      History(AfterResponse(cfg, h.buf), h.arrived, h.responses + [Response(content, repeats)],
              h.exits + Leave(if repeats then [] else content, true))
  }

  function Run(cfg: Config, ops: seq<Op>): History {
    if ops == [] then History(EMPTY_BUF, [], [], []) else Step(cfg, Run(cfg, ops[..|ops| - 1]), ops[|ops| - 1])
  }

  function Fragments(exits: seq<Exit>): (r: seq<Fragment>)
    ensures |r| == |exits|
  {
    seq(|exits|, i requires 0 <= i < |exits| => exits[i].fragment)
  }

  // What the responses contain without the repetitions.
  function NewContent(responses: seq<Response>): seq<Fragment> {
    if responses == [] then []
    else
      var last := responses[|responses| - 1];
      NewContent(responses[..|responses| - 1]) + if last.repeats then [] else last.content
  }

  function DeliveredOnly(exits: seq<Exit>): seq<Fragment> {
    if exits == [] then []
    else
      var last := exits[|exits| - 1];
      DeliveredOnly(exits[..|exits| - 1]) + if last.delivered then [last.fragment] else []
  }

  // ---------------------------------------------------------------- the invariant

  // A kept fragment is the one the last response ended with.
  ghost predicate KeptIsDelivered(h: History) {
    h.buf.kept ==>
      h.buf.frags != [] && h.exits != [] && h.exits[|h.exits| - 1] == Exit(h.buf.frags[0], true)
  }

  // What has left and what no response has contained yet is what arrived.
  ghost predicate Conserved(exits: seq<Exit>, undelivered: seq<Fragment>, arrived: seq<Fragment>) {
    Fragments(exits) + undelivered == arrived
  }

  ghost predicate Inv(h: History) {
    && DepthsExact(h.buf)
    && Conserved(h.exits, Undelivered(h.buf), h.arrived)
    && DeliveredOnly(h.exits) == NewContent(h.responses)
    && KeptIsDelivered(h)
  }

  lemma LeaveKeepsConserved(exits: seq<Exit>, undelivered: seq<Fragment>, arrived: seq<Fragment>, gone: seq<Fragment>,
                            rest: seq<Fragment>, delivered: bool)
    requires Conserved(exits, undelivered, arrived) && undelivered == gone + rest
    ensures Conserved(exits + Leave(gone, delivered), rest, arrived)
  {
    FragmentsOfMore(exits, gone, delivered);
  }

  lemma ArriveKeepsConserved(exits: seq<Exit>, undelivered: seq<Fragment>, arrived: seq<Fragment>, fs: seq<Fragment>)
    requires Conserved(exits, undelivered, arrived)
    ensures Conserved(exits, undelivered + fs, arrived + fs)
  {
  }

  lemma FragmentsOfMore(exits: seq<Exit>, fs: seq<Fragment>, delivered: bool)
    ensures Fragments(exits + Leave(fs, delivered)) == Fragments(exits) + fs
  {
  }

  lemma {:induction false} DeliveredOfMore(exits: seq<Exit>, fs: seq<Fragment>, delivered: bool)
    ensures DeliveredOnly(exits + Leave(fs, delivered)) == DeliveredOnly(exits) + if delivered then fs else []
  {
    if fs == [] {
      assert exits + Leave(fs, delivered) == exits;
    } else {
      var front, last := fs[..|fs| - 1], fs[|fs| - 1];
      var all := exits + Leave(fs, delivered);
      assert all[..|all| - 1] == exits + Leave(front, delivered) && all[|all| - 1] == Exit(last, delivered);
      DeliveredOfMore(exits, front, delivered);
      assert fs == front + [last];
    }
  }

  lemma PruneKeepsInv(h: History, r: Buf)
    requires Inv(h) && Pruned(h.buf, r)
    ensures Inv(PruneTo(h, r))
    ensures r.kept ==> PruneTo(h, r) == h
  {
    var dropped := Dropped(Undelivered(h.buf), Undelivered(r));
    UndeliveredIsSuffix(h.buf, r);
    LeaveKeepsConserved(h.exits, Undelivered(h.buf), h.arrived, dropped, Undelivered(r), false);
    DeliveredOfMore(h.exits, dropped, false);
    if r == h.buf { assert h.exits + Leave([], false) == h.exits; }
  }

  lemma UndeliveredIsSuffix(b: Buf, r: Buf)
    requires Pruned(b, r) && (b.kept ==> b.frags != [])
    ensures Dropped(Undelivered(b), Undelivered(r)) + Undelivered(r) == Undelivered(b)
    ensures r == b ==> Dropped(Undelivered(b), Undelivered(r)) == []
  {
  }

  lemma ArriveKeepsInv(cfg: Config, h: History, fs: seq<Fragment>)
    requires Inv(h) && cfg.mode == Buffer && fs != []
    ensures Inv(Step(cfg, h, Arrive(fs)))
  {
    var r := if cfg.circular then DropOverLimit(cfg, h.buf) else h.buf;
    RoomIsPruned(cfg, h.buf);
    PruneKeepsInv(h, r);
    ReceiveKeepsDepths(cfg, h.buf, fs);
    ArriveKeepsConserved(PruneTo(h, r).exits, Undelivered(r), h.arrived, fs);
    ReceiveAppends(cfg, h.buf, fs);
  }

  lemma RoomIsPruned(cfg: Config, b: Buf)
    requires DepthsExact(b)
    ensures Pruned(b, if cfg.circular then DropOverLimit(cfg, b) else b)
  {
    SurvivorsAreLongestSuffix(cfg, b);
    assert b.frags[0..] == b.frags;
  }

  lemma ReceiveAppends(cfg: Config, b: Buf, fs: seq<Fragment>)
    requires cfg.mode == Buffer && fs != []
    ensures var r := if cfg.circular then DropOverLimit(cfg, b) else b;
            var u := Receive(cfg, b, fs);
            u.kept == r.kept && ((r.kept ==> r.frags != []) ==> Undelivered(u) == Undelivered(r) + fs)
    ensures var r := if cfg.circular then DropOverLimit(cfg, b) else b;
            r.frags != [] ==> Receive(cfg, b, fs).frags[0] == r.frags[0]
  {
  }

  // A response hands out what is undelivered, and keeps at most the last fragment of it.
  lemma ResponseDelivers(cfg: Config, b: Buf)
    requires DepthsExact(b) && (b.kept ==> b.frags != [])
    ensures var added, u := if b.kept && b.depthFrags <= 1 then [] else ResponseContent(b), AfterResponse(cfg, b);
            && added == Undelivered(b) && Undelivered(u) == []
            && (u.kept ==> u.frags != [] && u.frags[0] == if added == [] then b.frags[0] else added[|added| - 1])
            && (u.kept && added == [] ==> b.kept)
  {
  }

  lemma RequestKeepsInv(cfg: Config, h: History)
    requires Inv(h)
    ensures Inv(Step(cfg, h, Request))
  {
    var added := if h.buf.kept && h.buf.depthFrags <= 1 then [] else ResponseContent(h.buf);
    ResponseKeepsDepths(cfg, h.buf);
    ResponseDelivers(cfg, h.buf);
    LeaveKeepsConserved(h.exits, Undelivered(h.buf), h.arrived, added, [], true);
    NewContentIsDelivered(cfg, h);
    if AfterResponse(cfg, h.buf).kept { LastExit(h.exits, added); }
  }

  lemma NewContentIsDelivered(cfg: Config, h: History)
    requires Inv(h)
    ensures var u := Step(cfg, h, Request); DeliveredOnly(u.exits) == NewContent(u.responses)
  {
    var u := Step(cfg, h, Request);
    DeliveredOfMore(h.exits, if h.buf.kept && h.buf.depthFrags <= 1 then [] else ResponseContent(h.buf), true);
    assert u.responses[..|u.responses| - 1] == h.responses;
  }

  lemma LastExit(exits: seq<Exit>, fs: seq<Fragment>)
    ensures var all := exits + Leave(fs, true);
            all != [] ==> all[|all| - 1] == if fs == [] then exits[|exits| - 1] else Exit(fs[|fs| - 1], true)
  {
  }

  lemma {:induction false} RunKeepsInv(cfg: Config, ops: seq<Op>)
    requires cfg.mode == Buffer
    ensures Inv(Run(cfg, ops))
  {
    if ops != [] {
      var h, op := Run(cfg, ops[..|ops| - 1]), ops[|ops| - 1];
      RunKeepsInv(cfg, ops[..|ops| - 1]);
      match op
      case Arrive(fs) => if fs != [] { ArriveKeepsInv(cfg, h, fs); }
      case Prune => CheckPrunes(cfg, h.buf); PruneKeepsInv(h, Check(cfg, h.buf));
      case Request => RequestKeepsInv(cfg, h);
    }
  }

  // Over any run, what left the buffer followed by what no response has contained yet is what arrived, in order;
  // the responses without their repetitions are the part that left by delivery, each fragment once -
  // which is all of it when no limit is configured.
  lemma DeliveredOnceInOrder(cfg: Config, ops: seq<Op>)
    requires cfg.mode == Buffer
    ensures var h := Run(cfg, ops);
            && Fragments(h.exits) + Undelivered(h.buf) == h.arrived
            && NewContent(h.responses) == DeliveredOnly(h.exits)
            && (Unlimited(cfg) ==> NewContent(h.responses) + Undelivered(h.buf) == h.arrived)
  {
    RunKeepsInv(cfg, ops);
    if Unlimited(cfg) {
      NothingIsDropped(cfg, ops);
      AllDelivered(Run(cfg, ops).exits);
    }
  }

  // Without a limit nothing leaves but by delivery.
  lemma {:induction false} NothingIsDropped(cfg: Config, ops: seq<Op>)
    requires cfg.mode == Buffer && Unlimited(cfg)
    ensures forall x :: x in Run(cfg, ops).exits ==> x.delivered
  {
    if ops != [] {
      var h := Run(cfg, ops[..|ops| - 1]);
      NothingIsDropped(cfg, ops[..|ops| - 1]);
      NothingToDrop(cfg, h.buf);
      StayingDropsNothing(h);
    }
  }

  lemma StayingDropsNothing(h: History)
    ensures PruneTo(h, h.buf) == h
  {
    assert Dropped(Undelivered(h.buf), Undelivered(h.buf)) == [];
    assert h.exits + Leave([], false) == h.exits;
  }

  lemma {:induction false} AllDelivered(exits: seq<Exit>)
    ensures (forall x :: x in exits ==> x.delivered) ==> DeliveredOnly(exits) == Fragments(exits)
  {
    if exits != [] {
      AllDelivered(exits[..|exits| - 1]);
      assert Fragments(exits) == Fragments(exits[..|exits| - 1]) + [exits[|exits| - 1].fragment];
    }
  }

  // A response repeats a fragment only when nothing has arrived since: it then consists of just the last fragment
  // delivered.
  lemma RepeatsOnlyWhenNothingNew(cfg: Config, ops: seq<Op>)
    requires cfg.mode == Buffer
    ensures var h := Run(cfg, ops);
            var u := Step(cfg, h, Request);
            var r := u.responses[|u.responses| - 1];
            && (r.repeats ==>
                  var d := DeliveredOnly(h.exits); Undelivered(h.buf) == [] && d != [] && r.content == d[|d| - 1..])
            && (!r.repeats ==> r.content == Undelivered(h.buf))
            && (r.repeats ==> cfg.keepLatest)
  {
    RunKeepsInv(cfg, ops);
    KeptNeedsKeepLatest(cfg, ops);
    var h := Run(cfg, ops);
    if h.buf.kept { KeptIsLastDelivered(h); }
    ResponseDelivers(cfg, h.buf);
  }

  // Every repetition in the responses is the last fragment they had delivered before.
  ghost predicate RepeatsTheLast(cfg: Config, responses: seq<Response>) {
    forall i :: 0 <= i < |responses| && responses[i].repeats ==>
      var d := NewContent(responses[..i]); cfg.keepLatest && d != [] && responses[i].content == d[|d| - 1..]
  }

  lemma {:induction false} RepetitionsAreHonest(cfg: Config, ops: seq<Op>)
    requires cfg.mode == Buffer
    ensures RepeatsTheLast(cfg, Run(cfg, ops).responses)
  {
    if ops != [] {
      var front := ops[..|ops| - 1];
      RepetitionsAreHonest(cfg, front);
      if ops[|ops| - 1].Request? {
        RepeatsOnlyWhenNothingNew(cfg, front);
        RunKeepsInv(cfg, front);
        var u := Step(cfg, Run(cfg, front), Request);
        OneMoreRepeats(cfg, Run(cfg, front).responses, u.responses[|u.responses| - 1]);
      }
    }
  }

  lemma OneMoreRepeats(cfg: Config, responses: seq<Response>, r: Response)
    requires RepeatsTheLast(cfg, responses)
    requires r.repeats ==> var d := NewContent(responses); cfg.keepLatest && d != [] && r.content == d[|d| - 1..]
    ensures RepeatsTheLast(cfg, responses + [r])
  {
    assert forall i :: 0 <= i <= |responses| ==> (responses + [r])[..i] == responses[..i];
    assert responses[..|responses|] == responses;
  }

  lemma KeptIsLastDelivered(h: History)
    requires Inv(h) && h.buf.kept
    ensures var d := DeliveredOnly(h.exits); h.buf.frags != [] && d != [] && d[|d| - 1..] == [h.buf.frags[0]]
  {
    assert DeliveredOnly(h.exits) == DeliveredOnly(h.exits[..|h.exits| - 1]) + [h.buf.frags[0]];
  }

  lemma {:induction false} KeptNeedsKeepLatest(cfg: Config, ops: seq<Op>)
    requires cfg.mode == Buffer
    ensures Run(cfg, ops).buf.kept ==> cfg.keepLatest
  {
    if ops != [] {
      KeptNeedsKeepLatest(cfg, ops[..|ops| - 1]);
      RunKeepsInv(cfg, ops[..|ops| - 1]);
      StepKeepsNoKept(cfg, Run(cfg, ops[..|ops| - 1]), ops[|ops| - 1]);
    }
  }

  lemma StepKeepsNoKept(cfg: Config, h: History, op: Op)
    requires Inv(h) && cfg.mode == Buffer
    ensures Step(cfg, h, op).buf.kept ==> h.buf.kept || cfg.keepLatest
  {
    match op
    case Arrive(fs) => if fs != [] { ReceiveSetsNoMark(cfg, h.buf, fs); }
    case Prune => CheckPrunes(cfg, h.buf);
    case Request =>
  }

  lemma ReceiveSetsNoMark(cfg: Config, b: Buf, fs: seq<Fragment>)
    requires DepthsExact(b) && fs != []
    ensures Receive(cfg, b, fs).kept ==> b.kept
  {
    SurvivorsAreLongestSuffix(cfg, b);
  }

  // If no limit is configured: with keepLatest the next response, when there is nothing new, is the last fragment ever
  // delivered, and never empty once there was one; without, it is empty.
  lemma NextResponseIs(cfg: Config, ops: seq<Op>)
    requires cfg.mode == Buffer && Unlimited(cfg)
    ensures var h := Run(cfg, ops);
            var d := DeliveredOnly(h.exits);
            ResponseContent(h.buf)
            == if Undelivered(h.buf) != [] then Undelivered(h.buf)
               else if cfg.keepLatest && d != [] then d[|d| - 1..] else []
  {
    var h := Run(cfg, ops);
    RunKeepsInv(cfg, ops);
    KeptNeedsKeepLatest(cfg, ops);
    if cfg.keepLatest { DeliveredIsKept(cfg, ops); }
    if h.buf.kept { KeptIsLastDelivered(h); }
    ResponseDelivers(cfg, h.buf);
  }

  lemma {:induction false} DeliveredIsKept(cfg: Config, ops: seq<Op>)
    requires cfg.mode == Buffer && Unlimited(cfg) && cfg.keepLatest
    ensures var h := Run(cfg, ops); DeliveredOnly(h.exits) != [] ==> h.buf.kept
  {
    if ops != [] {
      var h, op := Run(cfg, ops[..|ops| - 1]), ops[|ops| - 1];
      DeliveredIsKept(cfg, ops[..|ops| - 1]);
      RunKeepsInv(cfg, ops[..|ops| - 1]);
      NothingToDrop(cfg, h.buf);
      StayingDropsNothing(h);
      match op
      case Arrive(_) =>
      case Prune =>
      case Request =>
        ResponseKeepsTheLatest(cfg, h.buf);
        if h.buf.frags == [] { NothingDelivered(cfg, h); }
    }
  }

  lemma NothingDelivered(cfg: Config, h: History)
    requires Inv(h) && h.buf.frags == []
    ensures DeliveredOnly(Step(cfg, h, Request).exits) == DeliveredOnly(h.exits)
  {
    assert h.exits + Leave([], true) == h.exits;
  }

  // Whatever the limits: a request that follows another at once is answered, with keepLatest, by the last fragment of
  // that answer, and else by nothing.
  lemma RepeatedRequestRepeats(cfg: Config, ops: seq<Op>)
    requires cfg.mode == Buffer
    ensures var h := Run(cfg, ops);
            var content := ResponseContent(h.buf);
            ResponseContent(Step(cfg, h, Request).buf)
            == if cfg.keepLatest && content != [] then content[|content| - 1..] else []
  {
    RunKeepsInv(cfg, ops);
    ResponseKeepsTheLatest(cfg, Run(cfg, ops).buf);
    ResponseKeepsDepths(cfg, Run(cfg, ops).buf);
  }
}
