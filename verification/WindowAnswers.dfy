/** When a request is answered, with what, and how the container is flagged, at each request of each pass of Window mode
    (artdaq/DAQrate/FragmentBuffer.cc:561-717). */
module WindowAnswers {
  import opened Ordered
  import opened DataBuffers
  import opened Windows
  import opened Pipeline
  import opened LatestRuns
  import opened WindowRuns
  import opened CounterRuns
  import opened WindowDelivery
  import History = WindowHistory

  // The newest fragment is at or past the end of the window.
  predicate Reaches(cfg: Config, s: seq<Fragment>, ts: nat) {
    s != [] && s[|s| - 1].timestamp >= WindowMax(cfg, ts)
  }

  // The oldest fragment is at or before the start of the window.
  predicate GoesBack(cfg: Config, s: seq<Fragment>, ts: nat) {
    s != [] && s[0].timestamp <= WindowMin(cfg, ts)
  }

  // ---------------------------------------------------------------- one data buffer

  // In whatever order the data came, a window that is reached is looked for from the front, up to the first fragment
  // beyond it.
  ghost predicate FromTheFront(w: Span, unique: bool, s: seq<Fragment>, content: seq<Fragment>, rest: seq<Fragment>,
                               k: nat) {
    && k <= |s| && (k < |s| ==> Beyond(w, s[k].timestamp) && s[k].timestamp >= w.min)
    && (forall j :: 0 <= j < k ==> s[j].timestamp < w.min || !Beyond(w, s[j].timestamp))
    && content == Within(w, s[..k]) && rest == if unique then Without(w, s[..k]) + s[k..] else s
  }

  // One that is not is what lies between the last fragment before it and the first beyond it.
  ghost predicate FromTheBack(w: Span, unique: bool, s: seq<Fragment>, content: seq<Fragment>, rest: seq<Fragment>,
                              i: nat, k: nat) {
    && i <= k <= |s| && (i > 0 ==> s[i - 1].timestamp < w.min)
    && (forall j :: i <= j < |s| ==> s[j].timestamp >= w.min)
    && (forall j :: i <= j < k ==> !Beyond(w, s[j].timestamp)) && (k < |s| ==> Beyond(w, s[k].timestamp))
    && content == s[i..k] && rest == if unique then s[..i] + s[k..] else s
  }

  // What is answered from s, and what stays behind; for data in order of timestamps, exactly the window.
  ghost predicate IsAnswer(cfg: Config, s: seq<Fragment>, ts: nat, a: History.Answer, rest: seq<Fragment>) {
    && (if Reaches(cfg, s, ts) then exists k: nat :: FromTheFront(WindowOf(cfg, ts), cfg.unique, s, a.content, rest, k)
        else exists i: nat, k: nat :: FromTheBack(WindowOf(cfg, ts), cfg.unique, s, a.content, rest, i, k))
    && a.ts == ts && (a.missing <==> !(Reaches(cfg, s, ts) && GoesBack(cfg, s, ts)))
    && (forall f :: f in rest ==> f in s) && (!cfg.unique ==> rest == s)
    && (Chronological(s) ==>
          var w := WindowOf(cfg, ts);
          a.content == Within(w, s) && rest == if cfg.unique then Without(w, s) else s)
  }

  ghost predicate AnswersWith(cfg: Config, b: Buf, r: Buf, seqId: nat, ts: nat, late: bool,
                              more: seq<History.Answer>) {
    if seqId !in b.sent && (late || Reaches(cfg, b.frags, ts)) then
      && |more| == 1 && IsAnswer(cfg, b.frags, ts, more[0], r.frags)
      && r.sent == b.sent + {seqId} && r.highest == if seqId > b.highest then seqId else b.highest
    else
      more == [] && r == b
  }

  lemma {:induction false} ScanStops(w: Span, s: seq<Fragment>) returns (k: nat)
    ensures FromTheFront(w, true, s, Taken(w, s), Left(w, s), k)
  {
    k := 0;
    if s != [] {
      if s[0].timestamp >= w.min && Beyond(w, s[0].timestamp) {
        assert s[..0] == [] && s[0..] == s;
      } else {
        k := ScanStops(w, s[1..]);
        ScanGoesOn(w, s, k);
        k := k + 1;
      }
    }
  }

  lemma ScanGoesOn(w: Span, s: seq<Fragment>, k: nat)
    requires s != [] && !(s[0].timestamp >= w.min && Beyond(w, s[0].timestamp))
    requires FromTheFront(w, true, s[1..], Taken(w, s[1..]), Left(w, s[1..]), k)
    ensures FromTheFront(w, true, s, Taken(w, s), Left(w, s), k + 1)
  {
    var rest := s[1..];
    assert s[..k + 1][1..] == rest[..k] && s[k + 1..] == rest[k..];
    assert forall j :: 0 <= j < |rest| ==> rest[j] == s[j + 1];
    Joined(if s[0].timestamp < w.min then [s[0]] else [], Without(w, rest[..k]), rest[k..]);
  }

  // A scan of data none of which lies before the window takes what is in front of the first fragment beyond it.
  lemma {:induction false} NoneBefore(w: Span, s: seq<Fragment>) returns (k: nat)
    requires forall j :: 0 <= j < |s| ==> s[j].timestamp >= w.min
    ensures k <= |s| && (forall j :: 0 <= j < k ==> !Beyond(w, s[j].timestamp))
    ensures k < |s| ==> Beyond(w, s[k].timestamp)
    ensures Taken(w, s) == s[..k] && Left(w, s) == s[k..]
  {
    k := 0;
    if s != [] && !Beyond(w, s[0].timestamp) {
      var rest := s[1..];
      k := NoneBefore(w, rest);
      assert [s[0]] + rest[..k] == s[..k + 1] && rest[k..] == s[k + 1..];
      assert forall j :: 0 <= j < |rest| ==> rest[j] == s[j + 1];
      k := k + 1;
    }
  }

  lemma {:induction false} BackFromIsLast(w: Span, s: seq<Fragment>, i: nat)
    requires i < |s|
    ensures forall j :: BackFrom(w, s, i) < j <= i ==> s[j].timestamp >= w.min
  {
    if i > 0 && s[i].timestamp >= w.min { BackFromIsLast(w, s, i - 1); }
  }

  lemma LateScanStops(w: Span, s: seq<Fragment>) returns (i: nat, k: nat)
    ensures var start := ScanStart(w, s, true);
            FromTheBack(w, true, s, Taken(w, s[start..]), s[..start] + Left(w, s[start..]), i, k)
  {
    if s == [] {
      i, k := 0, 0;
    } else {
      BackFromIs(w, s, |s| - 1);
      BackFromIsLast(w, s, |s| - 1);
      i, k := ScanFromLast(w, s, BackFrom(w, s, |s| - 1));
    }
  }

  lemma ScanFromLast(w: Span, s: seq<Fragment>, start: nat) returns (i: nat, k: nat)
    requires start < |s| && (start > 0 ==> s[start].timestamp < w.min)
    requires forall j :: start < j < |s| ==> s[j].timestamp >= w.min
    ensures FromTheBack(w, true, s, Taken(w, s[start..]), s[..start] + Left(w, s[start..]), i, k)
  {
    i := if s[start].timestamp < w.min then start + 1 else start;
    var m := NoneBefore(w, s[i..]);
    k := i + m;
    SkipsBack(w, s, start, i, k);
    StopsThere(w, s, i, m);
  }

  lemma StopsThere(w: Span, s: seq<Fragment>, i: nat, m: nat)
    requires i <= |s| && m <= |s[i..]|
    requires forall j :: 0 <= j < m ==> !Beyond(w, s[i..][j].timestamp)
    requires m < |s[i..]| ==> Beyond(w, s[i..][m].timestamp)
    ensures forall j :: i <= j < i + m ==> !Beyond(w, s[j].timestamp)
    ensures i + m < |s| ==> Beyond(w, s[i + m].timestamp)
  {
    forall j | i <= j < i + m ensures !Beyond(w, s[j].timestamp) { assert s[j] == s[i..][j - i]; }
  }

  lemma SkipsBack(w: Span, s: seq<Fragment>, start: nat, i: nat, k: nat)
    requires start < |s| && i <= k <= |s| && i == if s[start].timestamp < w.min then start + 1 else start
    requires Taken(w, s[i..]) == s[i..][..k - i] && Left(w, s[i..]) == s[i..][k - i..]
    ensures Taken(w, s[start..]) == s[i..k] && s[..start] + Left(w, s[start..]) == s[..i] + s[k..]
  {
    assert s[i..][..k - i] == s[i..k] && s[i..][k - i..] == s[k..];
    if s[start].timestamp < w.min {
      assert s[start..][1..] == s[i..] && s[..i] == s[..start] + [s[start]];
      Joined(s[..start], [s[start]], s[k..]);
    }
  }

  lemma ContentIsExact(cfg: Config, b: Buf, ts: nat)
    requires DepthsExact(b)
    ensures var w, rest := WindowOf(cfg, ts), if cfg.unique then Remaining(cfg, b, ts) else b.frags;
            if Reaches(cfg, b.frags, ts) then
              exists k: nat :: FromTheFront(w, cfg.unique, b.frags, Content(cfg, b, ts), rest, k)
            else
              exists i: nat, k: nat :: FromTheBack(w, cfg.unique, b.frags, Content(cfg, b, ts), rest, i, k)
  {
    var w, s := WindowOf(cfg, ts), b.frags;
    if Reaches(cfg, s, ts) {
      assert s[0..] == s && s[..0] == [] && [] + Left(w, s) == Left(w, s);
      var k := ScanStops(w, s);
      assert FromTheFront(w, cfg.unique, s, Content(cfg, b, ts), if cfg.unique then Remaining(cfg, b, ts) else s, k);
    } else {
      var i, k := LateScanStops(w, s);
      assert FromTheBack(w, cfg.unique, s, Content(cfg, b, ts), if cfg.unique then Remaining(cfg, b, ts) else s, i, k);
    }
  }

  lemma AnswerIsExact(cfg: Config, b: Buf, seqId: nat, ts: nat, late: bool)
    requires cfg.mode == Window && DepthsExact(b)
    ensures AnswersWith(cfg, b, AnsweredBuf(cfg, b, seqId, ts, late), seqId, ts, late,
                        OwnAnswer(cfg, b, seqId, ts, late))
  {
    var w := WindowOf(cfg, ts);
    FillKeepsOwn(cfg, b, seqId, ts, late);
    ContentIsExact(cfg, b, ts);
    if Chronological(b.frags) { BothScansFilter(w, b.frags, !Closed(cfg, b, ts)); }
  }

  // ---------------------------------------------------------------- one request of a pass

  // The state after the first n of the requests that are pending when the pass begins.
  ghost function Midway(cfg: Config, p: Pipe, late: set<(nat, nat)>, expired: set<nat>, n: nat): Pipe
    requires n <= |Sorted(p.rb.requests.Keys)|
  {
    ServeEach(cfg, p, p.rb.requests, Sorted(p.rb.requests.Keys)[..n], late, expired)
  }

  lemma {:induction false} ServeOneMore(cfg: Config, p: Pipe, reqs: map<nat, nat>, ids: seq<nat>, k: nat,
                                        late: set<(nat, nat)>, expired: set<nat>)
    requires k in reqs && forall i :: i in ids ==> i in reqs
    ensures ServeEach(cfg, p, reqs, ids + [k], late, expired)
            == Serve(cfg, ServeEach(cfg, p, reqs, ids, late, expired), k, reqs[k], late, expired)
    decreases |ids|
  {
    if ids == [] {
      assert [k][1..] == [] && [] + [k] == [k];
    } else {
      FirstIsIn(ids);
      assert (ids + [k])[1..] == ids[1..] + [k];
      ServeOneMore(cfg, Serve(cfg, p, ids[0], reqs[ids[0]], late, expired), reqs, ids[1..], k, late, expired);
    }
  }

  lemma MidwayNext(cfg: Config, p: Pipe, late: set<(nat, nat)>, expired: set<nat>, n: nat)
    requires n < |Sorted(p.rb.requests.Keys)|
    ensures var k := Sorted(p.rb.requests.Keys)[n];
            && k in p.rb.requests
            && Midway(cfg, p, late, expired, n + 1)
               == Serve(cfg, Midway(cfg, p, late, expired, n), k, p.rb.requests[k], late, expired)
  {
    var ks := Sorted(p.rb.requests.Keys);
    assert ks[n] in ks && ks[..n + 1] == ks[..n] + [ks[n]];
    ServeOneMore(cfg, p, p.rb.requests, ks[..n], ks[n], late, expired);
  }

  // What every state within a pass has: exact depths, the same data buffers, and a counter that has not passed the
  // requests still to come unless it had before.
  lemma {:induction false} ServingKeeps(cfg: Config, p: Pipe, reqs: map<nat, nat>, ids: seq<nat>, bound: nat,
                                        late: set<(nat, nat)>, expired: set<nat>)
    requires Waits(cfg) && AllExact(p.bufs) && forall k :: k in ids ==> k in reqs && k < bound
    ensures var q := ServeEach(cfg, p, reqs, ids, late, expired);
            && AllExact(q.bufs) && q.bufs.Keys == p.bufs.Keys && p.next <= q.next
            && q.next <= if bound > p.next then bound else p.next
    decreases |ids|
  {
    if ids != [] {
      FirstIsIn(ids);
      assert forall k :: k in ids[1..] ==> k in ids;
      var q := Serve(cfg, p, ids[0], reqs[ids[0]], late, expired);
      ServeKeepsExact(cfg, p, ids[0], reqs[ids[0]], late, expired);
      ServeMovesNext(cfg, p, ids[0], reqs[ids[0]], late, expired);
      ServingKeeps(cfg, q, reqs, ids[1..], bound, late, expired);
    }
  }

  lemma ServeMovesNext(cfg: Config, p: Pipe, seqId: nat, ts: nat, late: set<(nat, nat)>, expired: set<nat>)
    ensures var q := Serve(cfg, p, seqId, ts, late, expired);
            q.bufs.Keys == p.bufs.Keys && p.next <= q.next
              && (q.next == p.next || (p.next <= seqId && q.next == seqId + 1))
  {
    CheckSentAdvances(AnswerAll(cfg, p, seqId, ts, late), seqId, expired);
  }

  lemma BeforeRequest(cfg: Config, p: Pipe, late: set<(nat, nat)>, expired: set<nat>, n: nat)
    requires Waits(cfg) && AllExact(p.bufs) && n < |Sorted(p.rb.requests.Keys)|
    ensures var k, a := Sorted(p.rb.requests.Keys)[n], Midway(cfg, p, late, expired, n);
            AllExact(a.bufs) && a.bufs.Keys == p.bufs.Keys && (k >= a.next <==> k >= p.next)
  {
    var ks := Sorted(p.rb.requests.Keys);
    assert forall i :: i in ks[..n] ==> i in p.rb.requests && i < ks[n];
    ServingKeeps(cfg, p, p.rb.requests, ks[..n], ks[n], late, expired);
  }

  // The check after an answer changes neither data nor outputs, only what is remembered.
  ghost predicate SameData(p: Pipe, q: Pipe) {
    q.out == p.out && q.bufs.Keys == p.bufs.Keys && forall i :: i in p.bufs ==> q.bufs[i].frags == p.bufs[i].frags
  }

  lemma CheckKeepsData(p: Pipe, seqId: nat, expired: set<nat>)
    ensures SameData(p, CheckSent(p, seqId, expired))
  {
    var q := CheckSent(p, seqId, expired);
    CheckSentAdvances(p, seqId, expired);
    forall i | i in p.bufs ensures q.bufs[i].frags == p.bufs[i].frags {
      assert q.bufs[i] == Trimmed(p.bufs[i], p.next, q.next);
    }
  }

  // A request is answered from the data buffer of id if it is not older than the counter, has a valid timestamp, has
  // not been answered before, and either has waited too long or is reached by the newest fragment.
  ghost predicate Due(cfg: Config, p: Pipe, a: Pipe, k: nat, ts: nat, late: set<(nat, nat)>, id: nat)
    requires id in a.bufs
  {
    && k >= p.next && ts != cfg.invalidTimestamp && k !in a.bufs[id].sent
    && ((k, id) in late || Reaches(cfg, a.bufs[id].frags, ts))
  }

  // From a to b the data buffer of id answers request k if it is due, with one container, and does nothing otherwise.
  ghost predicate AnswersIfDue(cfg: Config, p: Pipe, a: Pipe, b: Pipe, k: nat, ts: nat, late: set<(nat, nat)>,
                               id: nat) {
    && id in a.bufs && id in b.bufs
    && var s, before, after := a.bufs[id].frags, AnswersFor(a.out, id), AnswersFor(b.out, id);
       if Due(cfg, p, a, k, ts, late, id) then
         && |after| == |before| + 1 && after[..|before|] == before
         && IsAnswer(cfg, s, ts, after[|before|], b.bufs[id].frags)
         && Numbers(b.out, id) == Numbers(a.out, id) + [k]
       else
         after == before && b.bufs[id].frags == s && Numbers(b.out, id) == Numbers(a.out, id)
  }

  lemma ServeAnswersIfDue(cfg: Config, p: Pipe, a: Pipe, k: nat, ts: nat, late: set<(nat, nat)>, expired: set<nat>,
                          id: nat)
    requires cfg.mode == Window && id in a.bufs && AllExact(a.bufs) && (k >= a.next <==> k >= p.next)
    requires AllAnswerable(cfg, a.bufs)
    ensures AnswersIfDue(cfg, p, a, Serve(cfg, a, k, ts, late, expired), k, ts, late, id)
  {
    if k >= a.next && ts != cfg.invalidTimestamp {
      var m := AnswerAll(cfg, a, k, ts, late);
      AskedAnswersIfDue(cfg, p, a, k, ts, late, id);
      CheckKeepsData(m, k, expired);
    }
  }

  lemma AskedAnswersIfDue(cfg: Config, p: Pipe, a: Pipe, k: nat, ts: nat, late: set<(nat, nat)>, id: nat)
    requires cfg.mode == Window && id in a.bufs && AllAnswerable(cfg, a.bufs)
    requires k >= p.next && ts != cfg.invalidTimestamp
    ensures AnswersIfDue(cfg, p, a, AnswerAll(cfg, a, k, ts, late), k, ts, late, id)
  {
    AskedData(cfg, a, k, ts, late, id);
    AskedNumbers(cfg, a, k, ts, late, id);
  }

  lemma AskedData(cfg: Config, a: Pipe, k: nat, ts: nat, late: set<(nat, nat)>, id: nat)
    requires cfg.mode == Window && id in a.bufs && AllAnswerable(cfg, a.bufs)
    ensures var m, s := AnswerAll(cfg, a, k, ts, late), a.bufs[id].frags;
            var before, after := AnswersFor(a.out, id), AnswersFor(m.out, id);
            && id in m.bufs
            && if k !in a.bufs[id].sent && ((k, id) in late || Reaches(cfg, s, ts)) then
                 && |after| == |before| + 1 && after[..|before|] == before
                 && IsAnswer(cfg, s, ts, after[|before|], m.bufs[id].frags)
               else after == before && m.bufs[id].frags == s
  {
    var b := a.bufs[id];
    assert Answerable(cfg, b, id);
    AnswerAllAt(cfg, a, k, ts, late, id);
    AnswerIsExact(cfg, b, k, ts, (k, id) in late);
    NothingMore(AnswersFor(a.out, id));
  }

  lemma NothingMore<T>(s: seq<T>)
    ensures s + [] == s
  {
  }

  lemma AskedNumbers(cfg: Config, a: Pipe, k: nat, ts: nat, late: set<(nat, nat)>, id: nat)
    requires cfg.mode == Window && id in a.bufs && AllAnswerable(cfg, a.bufs)
    ensures Numbers(AnswerAll(cfg, a, k, ts, late).out, id)
            == Numbers(a.out, id)
               + if k !in a.bufs[id].sent && ((k, id) in late || Reaches(cfg, a.bufs[id].frags, ts)) then [k] else []
  {
    var ids := Sorted(a.bufs.Keys);
    assert Answerable(cfg, a.bufs[id], id);
    AnswersNumbers(cfg, a.bufs, ids, k, ts, late, id);
    NumbersOfMore(a.out, AnswersOf(cfg, a.bufs, ids, k, ts, late), id);
    OneNumber(cfg, a.bufs[id], id, k, ts, (k, id) in late);
  }

  lemma OneNumber(cfg: Config, b: Buf, id: nat, k: nat, ts: nat, late: bool)
    requires cfg.mode == Window && DepthsExact(b)
    ensures Numbers(Answer(cfg, b, id, k, ts, late), id)
            == if k !in b.sent && (late || Reaches(cfg, b.frags, ts)) then [k] else []
  {
    var a := Answer(cfg, b, id, k, ts, late);
    if a != [] { NumbersOfOne(a[0], id); }
  }

  // In every reachable state, for each request of a pass in turn and each data buffer: it is answered if and only if it
  // is due, with one container, unflagged if and only if the data reached back to the start of the window and on to its
  // end.
  lemma EachRequestIsAnsweredIffDue(cfg: Config, ids: set<nat>, increment: nat, ops: seq<Op>, late: set<(nat, nat)>,
                                    expired: set<nat>, n: nat, id: nat)
    requires cfg.mode == Window && SortedById(ops) && id in ids
    requires n < |Sorted(Run(cfg, ids, increment, ops).rb.requests.Keys)|
    ensures var p := Run(cfg, ids, increment, ops);
            var k := Sorted(p.rb.requests.Keys)[n];
            k in p.rb.requests
            && AnswersIfDue(cfg, p, Midway(cfg, p, late, expired, n), Midway(cfg, p, late, expired, n + 1), k,
                            p.rb.requests[k], late, id)
  {
    RunKeepsInv(cfg, ids, increment, ops);
    MidwayAnswers(cfg, Run(cfg, ids, increment, ops), late, expired, n, id);
  }

  lemma MidwayAnswers(cfg: Config, p: Pipe, late: set<(nat, nat)>, expired: set<nat>, n: nat, id: nat)
    requires cfg.mode == Window && Inv(cfg, p) && id in p.bufs && n < |Sorted(p.rb.requests.Keys)|
    ensures var k := Sorted(p.rb.requests.Keys)[n];
            k in p.rb.requests
            && AnswersIfDue(cfg, p, Midway(cfg, p, late, expired, n), Midway(cfg, p, late, expired, n + 1), k,
                            p.rb.requests[k], late, id)
  {
    var ks := Sorted(p.rb.requests.Keys);
    MidwayKeepsInv(cfg, p, late, expired, n);
    MidwayNext(cfg, p, late, expired, n);
    BeforeRequest(cfg, p, late, expired, n);
    ServeAnswersIfDue(cfg, p, Midway(cfg, p, late, expired, n), ks[n], p.rb.requests[ks[n]], late, expired, id);
  }

  lemma MidwayKeepsInv(cfg: Config, p: Pipe, late: set<(nat, nat)>, expired: set<nat>, n: nat)
    requires Waits(cfg) && Inv(cfg, p) && n <= |Sorted(p.rb.requests.Keys)|
    ensures Inv(cfg, Midway(cfg, p, late, expired, n))
    ensures AllExact(p.bufs)
  {
    var ks := Sorted(p.rb.requests.Keys);
    assert forall i :: i in ks[..n] ==> i in ks;
    ServeEachKeepsInv(cfg, p, p.rb.requests, ks[..n], late, expired);
  }

  // ---------------------------------------------------------------- whole passes

  // Since the pass began the data buffer of id has sent nothing but answers to the first n requests, and lost data
  // only.
  ghost predicate Since(cfg: Config, p: Pipe, a: Pipe, ks: seq<nat>, id: nat) {
    && id in p.bufs && id in a.bufs
    && (forall k :: k in Numbers(p.out, id) ==> k in Numbers(a.out, id))
    && (forall k :: k in Numbers(a.out, id) ==> k in Numbers(p.out, id) || k in ks)
    && (forall f :: f in a.bufs[id].frags ==> f in p.bufs[id].frags)
    && (!cfg.unique ==> a.bufs[id].frags == p.bufs[id].frags)
  }

  lemma SinceNext(cfg: Config, p: Pipe, a: Pipe, b: Pipe, ks: seq<nat>, k: nat, ts: nat, late: set<(nat, nat)>, id: nat)
    requires Since(cfg, p, a, ks, id) && AnswersIfDue(cfg, p, a, b, k, ts, late, id)
    ensures Since(cfg, p, b, ks + [k], id)
  {
  }

  lemma OneMore<T>(s: seq<T>, n: nat)
    requires n < |s|
    ensures s[..n + 1] == s[..n] + [s[n]]
  {
  }

  lemma {:induction false} MidwaySince(cfg: Config, p: Pipe, late: set<(nat, nat)>, expired: set<nat>, n: nat, id: nat)
    requires cfg.mode == Window && Inv(cfg, p) && id in p.bufs && n <= |Sorted(p.rb.requests.Keys)|
    ensures Since(cfg, p, Midway(cfg, p, late, expired, n), Sorted(p.rb.requests.Keys)[..n], id)
  {
    var ks := Sorted(p.rb.requests.Keys);
    if n == 0 {
      assert ks[..0] == [];
    } else {
      MidwaySince(cfg, p, late, expired, n - 1, id);
      MidwayAnswers(cfg, p, late, expired, n - 1, id);
      OneMore(ks, n - 1);
      SinceNext(cfg, p, Midway(cfg, p, late, expired, n - 1), Midway(cfg, p, late, expired, n), ks[..n - 1], ks[n - 1],
        p.rb.requests[ks[n - 1]], late, id);
    }
  }

  // What has been sent stays sent.
  lemma {:induction false} MidwayKeepsNumbers(cfg: Config, p: Pipe, late: set<(nat, nat)>, expired: set<nat>, m: nat,
                                              n: nat, id: nat)
    requires cfg.mode == Window && Inv(cfg, p) && id in p.bufs && m <= n <= |Sorted(p.rb.requests.Keys)|
    ensures forall k :: k in Numbers(Midway(cfg, p, late, expired, m).out, id)
                        ==> k in Numbers(Midway(cfg, p, late, expired, n).out, id)
    decreases n - m
  {
    if m < n {
      MidwayAnswers(cfg, p, late, expired, m, id);
      MidwayKeepsNumbers(cfg, p, late, expired, m + 1, n, id);
    }
  }

  lemma PassEnds(cfg: Config, p: Pipe, late: set<(nat, nat)>, expired: set<nat>, expiredLater: set<nat>)
    ensures var q := WindowPass(cfg, p, late, expired, expiredLater);
            SameData(Midway(cfg, p, late, expired, |Sorted(p.rb.requests.Keys)|), q)
  {
    var ks := Sorted(p.rb.requests.Keys);
    assert ks[..|ks|] == ks;
    var m := Midway(cfg, p, late, expired, |ks|);
    CheckEachAdvances(m, Sorted(AllSent(m.bufs)), expiredLater);
    AdvanceKeepsFrags(m, CheckEach(m, Sorted(AllSent(m.bufs)), expiredLater));
  }

  // The n-th request, at its turn.
  lemma AtItsTurn(cfg: Config, p: Pipe, late: set<(nat, nat)>, expired: set<nat>, n: nat, id: nat)
    requires cfg.mode == Window && Inv(cfg, p) && id in p.bufs && n < |Sorted(p.rb.requests.Keys)|
    ensures var k, a, b := Sorted(p.rb.requests.Keys)[n], Midway(cfg, p, late, expired, n),
                           Midway(cfg, p, late, expired, n + 1);
            && k in p.rb.requests && id in a.bufs
            && (k in Numbers(b.out, id)
                <==> k in Numbers(p.out, id) || Due(cfg, p, a, k, p.rb.requests[k], late, id))
            && (k >= p.next && k in a.bufs[id].sent ==> k in Numbers(p.out, id))
  {
    var ks := Sorted(p.rb.requests.Keys);
    var a := Midway(cfg, p, late, expired, n);
    MidwayAnswers(cfg, p, late, expired, n, id);
    MidwaySince(cfg, p, late, expired, n, id);
    MidwayKeepsInv(cfg, p, late, expired, n);
    assert Tracked(cfg, Numbers(a.out, id), a.bufs[id], a.next, a.passed);
    assert ks[n] !in ks[..n];
  }

  lemma SentInItsTurn(cfg: Config, p: Pipe, late: set<(nat, nat)>, expired: set<nat>, n: nat, id: nat)
    requires cfg.mode == Window && Inv(cfg, p) && id in p.bufs && n < |Sorted(p.rb.requests.Keys)|
    ensures var ks := Sorted(p.rb.requests.Keys);
            ks[n] in Numbers(Midway(cfg, p, late, expired, |ks|).out, id)
            <==> ks[n] in Numbers(Midway(cfg, p, late, expired, n + 1).out, id)
  {
    var ks := Sorted(p.rb.requests.Keys);
    MidwayKeepsNumbers(cfg, p, late, expired, n + 1, |ks|, id);
    if ks[n] in Numbers(Midway(cfg, p, late, expired, |ks|).out, id) {
      NotSentAfterwards(cfg, p, late, expired, ks, n, n + 1, id);
    }
  }

  lemma OthersStay(cfg: Config, p: Pipe, a: Pipe, b: Pipe, k: nat, ts: nat, late: set<(nat, nat)>, id: nat, other: nat)
    requires AnswersIfDue(cfg, p, a, b, k, ts, late, id) && other != k
    ensures other in Numbers(b.out, id) <==> other in Numbers(a.out, id)
  {
  }

  lemma NotSentInAnothersTurn(cfg: Config, p: Pipe, late: set<(nat, nat)>, expired: set<nat>, n: nat, m: nat, id: nat)
    requires cfg.mode == Window && Inv(cfg, p) && id in p.bufs && n < m < |Sorted(p.rb.requests.Keys)|
    ensures var k := Sorted(p.rb.requests.Keys)[n];
            k in Numbers(Midway(cfg, p, late, expired, m + 1).out, id)
            <==> k in Numbers(Midway(cfg, p, late, expired, m).out, id)
  {
    var ks := Sorted(p.rb.requests.Keys);
    MidwayAnswers(cfg, p, late, expired, m, id);
    OthersStay(cfg, p, Midway(cfg, p, late, expired, m), Midway(cfg, p, late, expired, m + 1), ks[m],
      p.rb.requests[ks[m]], late, id, ks[n]);
  }

  lemma {:induction false} NotSentAfterwards(cfg: Config, p: Pipe, late: set<(nat, nat)>, expired: set<nat>,
                                             ks: seq<nat>, n: nat, m: nat, id: nat)
    requires cfg.mode == Window && Inv(cfg, p) && id in p.bufs && n < m <= |ks| && ks == Sorted(p.rb.requests.Keys)
    requires ks[n] in Numbers(Midway(cfg, p, late, expired, |ks|).out, id)
    ensures ks[n] in Numbers(Midway(cfg, p, late, expired, m).out, id)
    decreases |ks| - m
  {
    if m < |ks| {
      NotSentAfterwards(cfg, p, late, expired, ks, n, m + 1, id);
      NotSentInAnothersTurn(cfg, p, late, expired, n, m, id);
    }
  }

  // From p to q the data buffer of id sends request k or not. A window that is open and has waited too long is sent;
  // one that is sent now is open, and has waited too long or is reached by some fragment. If containers share their
  // data, it is sent exactly if it is open and has waited too long or is reached by the newest fragment.
  ghost predicate SendsWhatIsDue(cfg: Config, p: Pipe, q: Pipe, late: set<(nat, nat)>, k: nat, id: nat)
    requires id in p.bufs && k in p.rb.requests
  {
    var ts, sent, before := p.rb.requests[k], k in Numbers(q.out, id), k in Numbers(p.out, id);
    var open := k >= p.next && ts != cfg.invalidTimestamp;
    && (before || (open && (k, id) in late) ==> sent)
    && (sent && !before ==>
          open && ((k, id) in late || exists f :: f in p.bufs[id].frags && f.timestamp >= WindowMax(cfg, ts)))
    && (!cfg.unique && !before ==> (sent <==> open && ((k, id) in late || Reaches(cfg, p.bufs[id].frags, ts))))
  }

  // A pass from any reachable state sends what is due of the requests pending when it begins.
  lemma PassSendsWhatIsDue(cfg: Config, ids: set<nat>, increment: nat, ops: seq<Op>, late: set<(nat, nat)>,
                           expired: set<nat>, expiredLater: set<nat>, k: nat, id: nat)
    requires cfg.mode == Window && SortedById(ops) && id in ids && k in Run(cfg, ids, increment, ops).rb.requests
    ensures var p := Run(cfg, ids, increment, ops);
            id in p.bufs && SendsWhatIsDue(cfg, p, Step(cfg, p, Pass(late, expired, expiredLater)), late, k, id)
  {
    var p := Run(cfg, ids, increment, ops);
    RunKeepsInv(cfg, ids, increment, ops);
    PassSends(cfg, p, late, expired, expiredLater, k, id);
    PassIsWindowPass(cfg, p, late, expired, expiredLater);
  }

  lemma PassIsWindowPass(cfg: Config, p: Pipe, late: set<(nat, nat)>, expired: set<nat>, expiredLater: set<nat>)
    requires Waits(cfg)
    ensures Step(cfg, p, Pass(late, expired, expiredLater)) == WindowPass(cfg, p, late, expired, expiredLater)
  {
  }

  lemma PassSends(cfg: Config, p: Pipe, late: set<(nat, nat)>, expired: set<nat>, expiredLater: set<nat>, k: nat,
                  id: nat)
    requires cfg.mode == Window && Inv(cfg, p) && id in p.bufs && k in p.rb.requests
    ensures SendsWhatIsDue(cfg, p, WindowPass(cfg, p, late, expired, expiredLater), late, k, id)
  {
    var ks, ts := Sorted(p.rb.requests.Keys), p.rb.requests[k];
    var n :| 0 <= n < |ks| && ks[n] == k;
    PassEnds(cfg, p, late, expired, expiredLater);
    SentInItsTurn(cfg, p, late, expired, n, id);
    AtItsTurn(cfg, p, late, expired, n, id);
    MidwaySince(cfg, p, late, expired, n, id);
    var s := Midway(cfg, p, late, expired, n).bufs[id].frags;
    if Reaches(cfg, s, ts) { assert s[|s| - 1] in s; }
  }
}
