/** Answering a request window from one data buffer: FragmentBuffer::applyRequestsWindowMode_CheckAndFillDataBuffer
    (artdaq/DAQrate/FragmentBuffer.cc:561-682). Timestamps are 64-bit unsigned integers. */
module Windows {
  import opened DataBuffers

  function WindowMin(cfg: Config, ts: nat): nat {
    if ts > cfg.offset then ts - cfg.offset else 0
  }

  // ts + width as a 64-bit sum, less the offset.
  function WindowMax(cfg: Config, ts: nat): nat {
    var end := (ts + cfg.width) % 0x1_0000_0000_0000_0000;
    if end > cfg.offset then end - cfg.offset else 1
  }

  // The window is [min, max), or [min, max] when the configured width is 0.
  datatype Span = Span(min: nat, max: nat, closed: bool)

  function WindowOf(cfg: Config, ts: nat): Span {
    Span(WindowMin(cfg, ts), WindowMax(cfg, ts), cfg.width == 0)
  }

  predicate Beyond(w: Span, t: nat) {
    t > w.max || (t == w.max && !w.closed)
  }

  predicate Inside(w: Span, t: nat) {
    w.min <= t && !Beyond(w, t)
  }

  // ---------------------------------------------------------------- the scan

  // What the scan moves to the container, and what it leaves behind.
  function Taken(w: Span, s: seq<Fragment>): seq<Fragment> {
    if s == [] then []
    else if s[0].timestamp < w.min then Taken(w, s[1..])
    else if Beyond(w, s[0].timestamp) then []
    else [s[0]] + Taken(w, s[1..])
  }

  function Left(w: Span, s: seq<Fragment>): seq<Fragment> {
    if s == [] then []
    else if s[0].timestamp < w.min then [s[0]] + Left(w, s[1..])
    else if Beyond(w, s[0].timestamp) then s
    else Left(w, s[1..])
  }

  // Where the timeout starts its scan: back from the end until a fragment before the window, or to the front.
  function BackFrom(w: Span, s: seq<Fragment>, i: nat): (r: nat)
    requires i < |s|
    ensures r <= i
  {
    if i == 0 || s[i].timestamp < w.min then i else BackFrom(w, s, i - 1)
  }

  function ScanStart(w: Span, s: seq<Fragment>, timeout: bool): (r: nat)
    ensures r <= |s|
  {
    if timeout && s != [] then BackFrom(w, s, |s| - 1) else 0
  }

  // ---------------------------------------------------------------- the answer

  predicate Closed(cfg: Config, b: Buf, ts: nat) {
    b.depthFrags > 0 && b.frags != [] && b.frags[|b.frags| - 1].timestamp >= WindowMax(cfg, ts)
  }

  predicate Missing(cfg: Config, b: Buf, ts: nat) {
    !Closed(cfg, b, ts) || b.frags[0].timestamp > WindowMin(cfg, ts)
  }

  // The window is answered when it is closed, or when it has waited too long.
  predicate Answers(cfg: Config, b: Buf, ts: nat, late: bool) {
    Closed(cfg, b, ts) || late
  }

  function Content(cfg: Config, b: Buf, ts: nat): seq<Fragment> {
    var w := WindowOf(cfg, ts);
    Taken(w, b.frags[ScanStart(w, b.frags, !Closed(cfg, b, ts))..])
  }

  function Remaining(cfg: Config, b: Buf, ts: nat): seq<Fragment> {
    var w := WindowOf(cfg, ts);
    var start := ScanStart(w, b.frags, !Closed(cfg, b, ts));
    b.frags[..start] + Left(w, b.frags[start..])
  }

  function FilledBuf(cfg: Config, b: Buf, seqId: nat, ts: nat, late: bool): Buf {
    if !Answers(cfg, b, ts, late) then b
    else
      var after := if cfg.unique then Remaining(cfg, b, ts) else b.frags;
      b.(frags := after, depthFrags := |after|,
         depthBytes := b.depthBytes - (if cfg.unique then Bytes(Content(cfg, b, ts)) else 0),
         sent := b.sent + {seqId}, highest := if seqId > b.highest then seqId else b.highest)
  }

  function FilledOutput(cfg: Config, b: Buf, id: nat, seqId: nat, ts: nat, late: bool): seq<Output> {
    if !Answers(cfg, b, ts, late) then []
    else [Container(seqId, id, ts, Missing(cfg, b, ts), Content(cfg, b, ts))]
  }

  // ---------------------------------------------------------------- the scan is a filter

  function Within(w: Span, s: seq<Fragment>): seq<Fragment> {
    if s == [] then [] else (if Inside(w, s[0].timestamp) then [s[0]] else []) + Within(w, s[1..])
  }

  function Without(w: Span, s: seq<Fragment>): seq<Fragment> {
    if s == [] then [] else (if Inside(w, s[0].timestamp) then [] else [s[0]]) + Without(w, s[1..])
  }

  // No fragment of the window hides behind one beyond it.
  ghost predicate Orderly(w: Span, s: seq<Fragment>) {
    forall i, j :: 0 <= i < j < |s| && s[i].timestamp >= w.min && Beyond(w, s[i].timestamp)
      ==> !Inside(w, s[j].timestamp)
  }

  lemma {:induction false} NothingWithin(w: Span, s: seq<Fragment>)
    ensures Within(w, s) == [] <==> forall j :: 0 <= j < |s| ==> !Inside(w, s[j].timestamp)
    ensures Within(w, s) == [] ==> Without(w, s) == s
  {
    if s != [] {
      NothingWithin(w, s[1..]);
      assert forall j :: 0 <= j < |s[1..]| ==> s[1..][j] == s[j + 1];
      assert s == [s[0]] + s[1..];
    }
  }

  // The scan stops at a fragment beyond the window.
  lemma StopsAtOnce(w: Span, s: seq<Fragment>)
    requires s != [] && s[0].timestamp >= w.min && Beyond(w, s[0].timestamp)
    ensures Taken(w, s) == [] && Left(w, s) == s
    ensures Within(w, s) == [] <==> Orderly(w, s)
    ensures Orderly(w, s) ==> Without(w, s) == s
  {
    NothingWithin(w, s);
    if Orderly(w, s) { assert forall j :: 0 < j < |s| ==> !Inside(w, s[j].timestamp); }
    else if Within(w, s) == [] { assert Orderly(w, s); }
  }

  // On any buffer at all, the forward scan selects the fragments of the window if and only if the buffer is orderly.
  lemma {:induction false} ScanIsFilterIff(w: Span, s: seq<Fragment>)
    ensures Taken(w, s) == Within(w, s) <==> Orderly(w, s)
    ensures Orderly(w, s) ==> Left(w, s) == Without(w, s)
  {
    if s != [] {
      var rest := s[1..];
      assert forall j :: 0 <= j < |rest| ==> rest[j] == s[j + 1];
      assert s == [s[0]] + rest;
      if s[0].timestamp >= w.min && Beyond(w, s[0].timestamp) {
        StopsAtOnce(w, s);
      } else {
        ScanIsFilterIff(w, rest);
        OrderlyTail(w, s);
        SameTails(s[0], Taken(w, rest), Within(w, rest));
      }
    }
  }

  lemma SameTails(f: Fragment, s: seq<Fragment>, t: seq<Fragment>)
    ensures [f] + s == [f] + t <==> s == t
  {
    assert ([f] + s)[1..] == s && ([f] + t)[1..] == t;
  }

  lemma OrderlyTail(w: Span, s: seq<Fragment>)
    requires s != [] && !(s[0].timestamp >= w.min && Beyond(w, s[0].timestamp))
    ensures Orderly(w, s) <==> Orderly(w, s[1..])
  {
    var rest := s[1..];
    if Orderly(w, rest) {
      forall i, j | 0 <= i < j < |s| && s[i].timestamp >= w.min && Beyond(w, s[i].timestamp)
        ensures !Inside(w, s[j].timestamp)
      {
        assert rest[i - 1] == s[i] && rest[j - 1] == s[j];
      }
    }
    if Orderly(w, s) {
      forall i, j | 0 <= i < j < |rest| && rest[i].timestamp >= w.min && Beyond(w, rest[i].timestamp)
        ensures !Inside(w, rest[j].timestamp)
      {
        assert rest[i] == s[i + 1] && rest[j] == s[j + 1];
      }
    }
  }

  lemma {:induction false} FilterSplits(w: Span, s: seq<Fragment>, t: seq<Fragment>)
    ensures Within(w, s + t) == Within(w, s) + Within(w, t)
    ensures Without(w, s + t) == Without(w, s) + Without(w, t)
  {
    if s == [] {
      assert s + t == t;
    } else {
      assert (s + t)[1..] == s[1..] + t;
      FilterSplits(w, s[1..], t);
      Joined(if Inside(w, s[0].timestamp) then [s[0]] else [], Within(w, s[1..]), Within(w, t));
      Joined(if Inside(w, s[0].timestamp) then [] else [s[0]], Without(w, s[1..]), Without(w, t));
    }
  }

  lemma {:induction false} BackFromIs(w: Span, s: seq<Fragment>, i: nat)
    requires i < |s|
    ensures BackFrom(w, s, i) == 0 || s[BackFrom(w, s, i)].timestamp < w.min
  {
    if i > 0 && s[i].timestamp >= w.min { BackFromIs(w, s, i - 1); }
  }

  // In a buffer in order of timestamps, everything the backward scan skips lies before the window.
  lemma SkippedAreEarly(w: Span, s: seq<Fragment>, timeout: bool)
    requires Chronological(s)
    ensures var start := ScanStart(w, s, timeout);
            Within(w, s[..start]) == [] && Without(w, s[..start]) == s[..start]
  {
    var start := ScanStart(w, s, timeout);
    if timeout && s != [] { BackFromIs(w, s, |s| - 1); }
    forall i | 0 <= i < |s[..start]| ensures !Inside(w, s[..start][i].timestamp) {
      assert s[i].timestamp <= s[start].timestamp;
    }
    NothingWithin(w, s[..start]);
  }

  lemma ChronologicalIsOrderly(w: Span, s: seq<Fragment>, start: nat)
    requires Chronological(s) && start <= |s|
    ensures Orderly(w, s[start..])
  {
    forall i, j | 0 <= i < j < |s[start..]| ensures s[start..][i].timestamp <= s[start..][j].timestamp {
      assert s[start + i].timestamp <= s[start + j].timestamp;
    }
  }

  // On a buffer in order of timestamps both scans - forward from the front, and backward then forward - select exactly
  // the fragments of the window, in order, and leave the others as they were.
  lemma BothScansFilter(w: Span, s: seq<Fragment>, timeout: bool)
    requires Chronological(s)
    ensures var start := ScanStart(w, s, timeout);
            Taken(w, s[start..]) == Within(w, s) && s[..start] + Left(w, s[start..]) == Without(w, s)
  {
    var start := ScanStart(w, s, timeout);
    SkippedAreEarly(w, s, timeout);
    ChronologicalIsOrderly(w, s, start);
    ScanIsFilterIff(w, s[start..]);
    Halves(s, start);
    FiltersJoin(w, s, s[..start], s[start..], Taken(w, s[start..]), Left(w, s[start..]));
  }

  lemma Halves(s: seq<Fragment>, start: nat)
    requires start <= |s|
    ensures s == s[..start] + s[start..]
  {
  }

  lemma FiltersJoin(w: Span, s: seq<Fragment>, skipped: seq<Fragment>, rest: seq<Fragment>, taken: seq<Fragment>,
                    left: seq<Fragment>)
    requires s == skipped + rest && Within(w, skipped) == [] && Without(w, skipped) == skipped
    requires taken == Within(w, rest) && left == Without(w, rest)
    ensures taken == Within(w, s) && skipped + left == Without(w, s)
  {
    FilterSplits(w, skipped, rest);
    assert [] + taken == taken;
  }

  // What a filter selects and leaves is in order, and together it is everything.
  lemma {:induction false} FilterKeeps(w: Span, s: seq<Fragment>)
    ensures Bytes(Within(w, s)) + Bytes(Without(w, s)) == Bytes(s)
    ensures forall f :: f in Within(w, s) <==> f in s && Inside(w, f.timestamp)
    ensures forall f :: f in Without(w, s) <==> f in s && !Inside(w, f.timestamp)
  {
    if s != [] {
      FilterKeeps(w, s[1..]);
      assert forall f :: f in s <==> f == s[0] || f in s[1..];
      BytesOfConcat(if Inside(w, s[0].timestamp) then [s[0]] else [], Within(w, s[1..]));
      BytesOfConcat(if Inside(w, s[0].timestamp) then [] else [s[0]], Without(w, s[1..]));
      assert [s[0]][1..] == [];
    }
  }

  // The scan moves bytes, it does not lose any.
  lemma {:induction false} ScanKeepsBytes(w: Span, s: seq<Fragment>)
    ensures Bytes(Taken(w, s)) + Bytes(Left(w, s)) == Bytes(s)
  {
    if s != [] {
      ScanKeepsBytes(w, s[1..]);
      BytesOfConcat([s[0]], Taken(w, s[1..]));
      BytesOfConcat([s[0]], Left(w, s[1..]));
      assert [s[0]][1..] == [];
    }
  }

  lemma FillKeepsDepths(cfg: Config, b: Buf, seqId: nat, ts: nat, late: bool)
    requires DepthsExact(b)
    ensures DepthsExact(FilledBuf(cfg, b, seqId, ts, late))
  {
    var w := WindowOf(cfg, ts);
    var start := ScanStart(w, b.frags, !Closed(cfg, b, ts));
    Halves(b.frags, start);
    PartKeepsBytes(w, b.frags, b.frags[..start], b.frags[start..]);
  }

  lemma PartKeepsBytes(w: Span, s: seq<Fragment>, front: seq<Fragment>, rest: seq<Fragment>)
    requires s == front + rest
    ensures Bytes(front + Left(w, rest)) == Bytes(s) - Bytes(Taken(w, rest))
  {
    ScanKeepsBytes(w, rest);
    BytesOfConcat(front, Left(w, rest));
    BytesOfConcat(front, rest);
  }

  // ---------------------------------------------------------------- the documented window

  // From timestamp - offset to timestamp - offset + width (artdaq/DAQrate/FragmentBuffer.hh:99-102), in integers; a
  // window of width 0 is the one timestamp it starts at.
  predicate Documented(cfg: Config, ts: nat, t: nat) {
    ts - cfg.offset <= t && (t < ts - cfg.offset + cfg.width || (cfg.width == 0 && t == ts - cfg.offset))
  }

  ghost predicate IsDocumented(cfg: Config, ts: nat) {
    forall t: nat :: t < 0x1_0000_0000_0000_0000 ==> (Inside(WindowOf(cfg, ts), t) <==> Documented(cfg, ts, t))
  }

  predicate StaysInTime(cfg: Config, ts: nat) {
    if cfg.width == 0 then ts > cfg.offset
    else ts + cfg.width > cfg.offset && (ts + cfg.width < 0x1_0000_0000_0000_0000 || ts + cfg.width == cfg.offset + 1)
  }

  // The window in use is the documented one if and only if it ends after time 0 and its 64-bit end does not wrap (or
  // the wrapped end happens to be right, when the window is [0, 1)).
  lemma WindowIsAsDocumentedIff(cfg: Config, ts: nat)
    requires ts < 0x1_0000_0000_0000_0000 && cfg.width < 0x1_0000_0000_0000_0000 && cfg.offset < 0x1_0000_0000_0000_0000
    ensures IsDocumented(cfg, ts) <==> StaysInTime(cfg, ts)
  {
    if !StaysInTime(cfg, ts) {
      var t: nat := if cfg.width == 0 then 1 else if ts + cfg.width <= cfg.offset then 0
        else if ts > cfg.offset then ts - cfg.offset else 1;
      assert Inside(WindowOf(cfg, ts), t) != Documented(cfg, ts, t);
    }
  }

  // A request 3 for a window of width 5 that starts 10 before it: the window is over before time 0, and [0, 1) is used.
  lemma WindowBeforeTimeZero(cfg: Config)
    requires cfg.offset == 10 && cfg.width == 5
    ensures Inside(WindowOf(cfg, 3), 0) && forall t: nat :: !Documented(cfg, 3, t)
  {
  }

  // A request for the last of all timestamps: the end wraps, and the window that starts there has nothing in it.
  lemma WindowPastTheEnd(cfg: Config)
    requires cfg.offset == 0 && cfg.width == 5
    ensures var last := 0xFFFF_FFFF_FFFF_FFFF;
            Documented(cfg, last, last) && forall t: nat :: !Inside(WindowOf(cfg, last), t)
  {
  }

  // ---------------------------------------------------------------- back-to-back requests tile time

  // The k-th of a series of requests that follow each other at the distance of the window width.
  function Request(cfg: Config, t0: nat, k: nat): Span {
    WindowOf(cfg, t0 + k * cfg.width)
  }

  ghost predicate InSome(cfg: Config, t0: nat, n: nat, t: nat) {
    exists k :: 0 <= k < n && Inside(Request(cfg, t0, k), t)
  }

  ghost predicate InAtMostOne(cfg: Config, t0: nat, n: nat, t: nat) {
    forall j, k :: 0 <= j < k < n ==> !(Inside(Request(cfg, t0, j), t) && Inside(Request(cfg, t0, k), t))
  }

  // From the documented start of the first window to the documented end of the last.
  predicate InStretch(cfg: Config, t0: nat, n: nat, t: nat) {
    t0 - cfg.offset <= t < t0 + n * cfg.width - cfg.offset
  }

  // Every timestamp in between is in exactly one window.
  ghost predicate Tiles(cfg: Config, t0: nat, n: nat) {
    forall t: nat :: t < 0x1_0000_0000_0000_0000 && InStretch(cfg, t0, n, t) ==>
      InSome(cfg, t0, n, t) && InAtMostOne(cfg, t0, n, t)
  }

  predicate NoWrap(cfg: Config, t0: nat, n: nat) {
    t0 + n * cfg.width < 0x1_0000_0000_0000_0000
  }

  lemma Multiples(width: nat, j: nat, k: nat)
    requires j <= k
    ensures j * width <= k * width && (k + 1) * width == k * width + width
  {
    assert k * width == j * width + (k - j) * width;
  }

  lemma Bounds(cfg: Config, t0: nat, n: nat, k: nat)
    requires NoWrap(cfg, t0, n) && k < n && cfg.width > 0
    ensures var r := t0 + k * cfg.width;
            && Request(cfg, t0, k).max == (if r + cfg.width > cfg.offset then r + cfg.width - cfg.offset else 1)
            && Request(cfg, t0, k).min == (if r > cfg.offset then r - cfg.offset else 0)
            && (t0 + cfg.width > cfg.offset && k > 0 ==> r > cfg.offset && Request(cfg, t0, k).min == r - cfg.offset)
  {
    Multiples(cfg.width, k + 1, n);
    Multiples(cfg.width, k, n);
    if k > 0 { Multiples(cfg.width, 1, k); }
  }

  // Each window begins where the one before it ends.
  lemma WindowsMeet(cfg: Config, t0: nat, n: nat)
    requires NoWrap(cfg, t0, n) && cfg.width > 0 && n > 1 && t0 + cfg.width > cfg.offset
    ensures NoWrap(cfg, t0, n - 1) && Request(cfg, t0, n - 2).max == Request(cfg, t0, n - 1).min
  {
    Multiples(cfg.width, n - 1, n);
    Multiples(cfg.width, n - 2, n);
    Bounds(cfg, t0, n - 1, n - 2);
    Bounds(cfg, t0, n, n - 1);
    assert (n - 1) * cfg.width == (n - 2) * cfg.width + cfg.width;
  }

  lemma {:induction false} EveryTimeIsInSome(cfg: Config, t0: nat, n: nat, t: nat)
    requires NoWrap(cfg, t0, n) && cfg.width > 0 && n > 0 && t0 + cfg.width > cfg.offset
    requires Request(cfg, t0, 0).min <= t < Request(cfg, t0, n - 1).max
    ensures InSome(cfg, t0, n, t)
  {
    if t >= Request(cfg, t0, n - 1).min {
      assert Inside(Request(cfg, t0, n - 1), t);
    } else {
      WindowsMeet(cfg, t0, n);
      EveryTimeIsInSome(cfg, t0, n - 1, t);
      var k :| 0 <= k < n - 1 && Inside(Request(cfg, t0, k), t);
      assert 0 <= k < n;
    }
  }

  lemma WindowsAreDisjoint(cfg: Config, t0: nat, n: nat, j: nat, k: nat, t: nat)
    requires NoWrap(cfg, t0, n) && cfg.width > 0 && t0 + cfg.width > cfg.offset && j < k < n
    ensures !(Inside(Request(cfg, t0, j), t) && Inside(Request(cfg, t0, k), t))
  {
    Bounds(cfg, t0, n, j);
    Bounds(cfg, t0, n, k);
    Multiples(cfg.width, j + 1, k);
    Multiples(cfg.width, 0, j);
  }

  // A series that begins at least its width before the offset: two windows begin and end at [0, 1).
  lemma ZeroIsInBoth(cfg: Config, t0: nat)
    requires cfg.width > 0 && t0 + cfg.width <= cfg.offset < 0x1_0000_0000_0000_0000
    ensures Inside(Request(cfg, t0, 0), 0) && Inside(Request(cfg, t0, 1), 0)
  {
    assert 0 * cfg.width == 0 && 1 * cfg.width == cfg.width;
  }

  // If the end of the last window wraps, nothing holds the timestamp at which it starts.
  lemma LastStartIsInNone(cfg: Config, t0: nat, n: nat)
    requires cfg.width > 0 && n > 1 && t0 + cfg.width > cfg.offset && cfg.width < 0x1_0000_0000_0000_0000
    requires t0 + (n - 1) * cfg.width < 0x1_0000_0000_0000_0000 <= t0 + n * cfg.width
    ensures var t := t0 + (n - 1) * cfg.width - cfg.offset;
            t > 0 && InStretch(cfg, t0, n, t) && !InSome(cfg, t0, n, t)
  {
    var t := t0 + (n - 1) * cfg.width - cfg.offset;
    Multiples(cfg.width, 1, n - 1);
    Multiples(cfg.width, n - 1, n);
    forall k | 0 <= k < n ensures !Inside(Request(cfg, t0, k), t) {
      if k < n - 1 {
        Bounds(cfg, t0, n - 1, k);
        Multiples(cfg.width, k + 1, n - 1);
        Multiples(cfg.width, 0, k);
      }
    }
  }

  lemma OneTilesIff(cfg: Config, t0: nat)
    requires 0 < cfg.width < 0x1_0000_0000_0000_0000 && cfg.offset < 0x1_0000_0000_0000_0000
    requires t0 < 0x1_0000_0000_0000_0000
    ensures Tiles(cfg, t0, 1) <==>
              t0 + cfg.width <= cfg.offset || t0 + cfg.width < 0x1_0000_0000_0000_0000
                || t0 + cfg.width == cfg.offset + 1
  {
    assert Request(cfg, t0, 0) == WindowOf(cfg, t0) && 1 * cfg.width == cfg.width;
    if t0 + cfg.width > cfg.offset + 1 && t0 + cfg.width >= 0x1_0000_0000_0000_0000 {
      var t: nat := if t0 > cfg.offset then t0 - cfg.offset else 1;
      assert InStretch(cfg, t0, 1, t) && !InSome(cfg, t0, 1, t);
    } else {
      forall t: nat | InStretch(cfg, t0, 1, t) ensures InSome(cfg, t0, 1, t) {
        assert Inside(Request(cfg, t0, 0), t);
      }
    }
  }

  lemma ManyTile(cfg: Config, t0: nat, n: nat)
    requires NoWrap(cfg, t0, n) && cfg.width > 0 && n > 1 && t0 + cfg.width > cfg.offset
    ensures Tiles(cfg, t0, n)
  {
    Bounds(cfg, t0, n, 0);
    Bounds(cfg, t0, n, n - 1);
    Multiples(cfg.width, n - 1, n);
    forall t: nat | InStretch(cfg, t0, n, t) ensures InSome(cfg, t0, n, t) && InAtMostOne(cfg, t0, n, t) {
      EveryTimeIsInSome(cfg, t0, n, t);
      forall j, k | 0 <= j < k < n ensures !(Inside(Request(cfg, t0, j), t) && Inside(Request(cfg, t0, k), t)) {
        WindowsAreDisjoint(cfg, t0, n, j, k, t);
      }
    }
  }

  // Windows of a series of 64-bit requests tile time if and only if the stretch lies before time 0, or the second one
  // starts after the offset and the last end does not wrap; a single one also if it is [0, 1).
  lemma BackToBackRequestsTileIff(cfg: Config, t0: nat, n: nat)
    requires 0 < cfg.width < 0x1_0000_0000_0000_0000 && cfg.offset < 0x1_0000_0000_0000_0000
    requires n > 0 && t0 + (n - 1) * cfg.width < 0x1_0000_0000_0000_0000
    ensures Tiles(cfg, t0, n) <==>
              || t0 + n * cfg.width <= cfg.offset
              || ((n == 1 || t0 + cfg.width > cfg.offset) && NoWrap(cfg, t0, n))
              || (n == 1 && t0 + cfg.width == cfg.offset + 1)
  {
    if n == 1 {
      OneTilesIff(cfg, t0);
    } else if t0 + n * cfg.width > cfg.offset {
      SeriesTilesIff(cfg, t0, n);
    }
  }

  lemma SeriesTilesIff(cfg: Config, t0: nat, n: nat)
    requires 0 < cfg.width < 0x1_0000_0000_0000_0000 && cfg.offset < 0x1_0000_0000_0000_0000
    requires n > 1 && t0 + (n - 1) * cfg.width < 0x1_0000_0000_0000_0000 && t0 + n * cfg.width > cfg.offset
    ensures Tiles(cfg, t0, n) <==> t0 + cfg.width > cfg.offset && NoWrap(cfg, t0, n)
  {
    if t0 + cfg.width <= cfg.offset {
      ZeroIsInBoth(cfg, t0);
      assert InStretch(cfg, t0, n, 0) && !InAtMostOne(cfg, t0, n, 0);
    } else if NoWrap(cfg, t0, n) {
      ManyTile(cfg, t0, n);
    } else {
      LastStartIsInNone(cfg, t0, n);
    }
  }
}
