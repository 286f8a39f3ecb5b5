/** The queue of fragments kept for one fragment ID, FragmentBuffer::DataBuffer
    (artdaq/DAQrate/FragmentBuffer.hh:432-441), with its cached depths, and the operations that add to it and prune
    it. */
module DataBuffers {

  // system: an EndOfRun, EndOfSubrun or Init fragment; body stands for the payload.
  datatype Fragment = Fragment(id: nat, seqId: nat, timestamp: nat, bytes: nat, body: nat, system: bool)

  datatype Mode = Single | Buffer | Window | SequenceID | Ignored

  datatype Config = Config(
    mode: Mode, keepLatest: bool, offset: nat, width: nat, staleTimeout: nat, unique: bool, sendMissing: bool,
    circular: bool, maxFragments: int, maxBytes: nat, invalidTimestamp: nat)

  // frags: DataBuffer; depthFrags, depthBytes: DataBufferDepthFragments, DataBufferDepthBytes;
  // sent: the keys of WindowsSent; highest: HighestRequestSeen; kept: BufferFragmentKept.
  datatype Buf = Buf(frags: seq<Fragment>, depthFrags: int, depthBytes: int, sent: set<nat>, highest: nat, kept: bool)

  datatype Output =
    | Container(seqId: nat, id: nat, timestamp: nat, missing: bool, content: seq<Fragment>)
    | EmptyFragment(seqId: nat, id: nat)
    | Copy(seqId: nat, id: nat, timestamp: nat, fragment: Fragment)
    | Plain(fragment: Fragment)

  const EMPTY_BUF := Buf([], 0, 0, {}, 0, false)

  function Bytes(s: seq<Fragment>): nat {
    if s == [] then 0 else s[0].bytes + Bytes(s[1..])
  }

  lemma {:induction false} BytesOfConcat(s: seq<Fragment>, t: seq<Fragment>)
    ensures Bytes(s + t) == Bytes(s) + Bytes(t)
  {
    if s == [] {
      assert s + t == t;
    } else {
      assert (s + t)[1..] == s[1..] + t;
      BytesOfConcat(s[1..], t);
    }
  }

  lemma Joined<T>(a: seq<T>, b: seq<T>, c: seq<T>)
    ensures (a + b) + c == a + (b + c)
  {
  }

  // The cached depths are those of the list.
  predicate DepthsExact(b: Buf) {
    b.depthFrags == |b.frags| && b.depthBytes == Bytes(b.frags)
  }

  // dataBufferIsTooLarge
  predicate TooLarge(cfg: Config, depthFrags: int, depthBytes: int) {
    (cfg.maxFragments > 0 && depthFrags > cfg.maxFragments) || (cfg.maxBytes > 0 && depthBytes > cfg.maxBytes)
  }

  predicate Over(cfg: Config, s: seq<Fragment>) {
    TooLarge(cfg, |s|, Bytes(s))
  }

  // ---------------------------------------------------------------- pruning

  function DropFront(b: Buf): Buf
    requires b.frags != []
  {
    b.(frags := b.frags[1..], depthFrags := |b.frags| - 1, depthBytes := b.depthBytes - b.frags[0].bytes, kept := false)
  }

  // The loops that drop the oldest fragments while the buffer is over its limits.
  function DropOverLimit(cfg: Config, b: Buf): (r: Buf)
    ensures |r.frags| <= |b.frags|
    decreases |b.frags|
  {
    if b.frags != [] && TooLarge(cfg, b.depthFrags, b.depthBytes) then DropOverLimit(cfg, DropFront(b)) else b
  }

  function DropOlder(b: Buf, min: nat): Buf
    decreases |b.frags|
  {
    if b.frags != [] && b.frags[0].timestamp < min then DropOlder(DropFront(b), min) else b
  }

  function DropStale(cfg: Config, b: Buf): Buf {
    if b.frags == [] || cfg.staleTimeout == 0 then b
    else
      var last := b.frags[|b.frags| - 1].timestamp;
      DropOlder(b, if last > cfg.staleTimeout then last - cfg.staleTimeout else 0)
  }

  // checkDataBuffer
  function Check(cfg: Config, b: Buf): Buf {
    if b.depthFrags > 0 && cfg.mode != Single && cfg.mode != Ignored then DropStale(cfg, DropOverLimit(cfg, b)) else b
  }

  // AddFragmentsToBuffer, for the fragments of one ID: in circular mode make room first.
  function Receive(cfg: Config, b: Buf, fs: seq<Fragment>): Buf
    requires fs != []
  {
    var r := if cfg.circular then DropOverLimit(cfg, b) else b;
    if cfg.mode == Single then
      var last := fs[|fs| - 1];
      r.(frags := [last], depthFrags := 1, depthBytes := last.bytes)
    else
      r.(frags := r.frags + fs, depthFrags := |r.frags| + |fs|, depthBytes := r.depthBytes + Bytes(fs))
  }

  // No size or age limit is configured.
  predicate Unlimited(cfg: Config) {
    cfg.maxFragments <= 0 && cfg.maxBytes == 0 && cfg.staleTimeout == 0
  }

  lemma NothingToDrop(cfg: Config, b: Buf)
    requires Unlimited(cfg)
    ensures DropOverLimit(cfg, b) == b && Check(cfg, b) == b
  {
  }

  // r is b without some of its oldest fragments, with exact depths; if any are gone, the front is no longer a kept one.
  predicate Pruned(b: Buf, r: Buf) {
    && DepthsExact(r)
    && |r.frags| <= |b.frags| && r.frags == b.frags[|b.frags| - |r.frags|..]
    && r.sent == b.sent && r.highest == b.highest
    && (r.kept || |r.frags| == |b.frags| ==> r == b)
  }

  lemma PrunedIsPart(b: Buf, r: Buf)
    requires Pruned(b, r)
    ensures multiset(r.frags) <= multiset(b.frags) && forall f :: f in r.frags ==> f in b.frags
  {
    var k := |b.frags| - |r.frags|;
    assert b.frags == b.frags[..k] + b.frags[k..];
  }

  lemma DropFrontPrunes(b: Buf, r: Buf)
    requires DepthsExact(b) && b.frags != []
    ensures DepthsExact(DropFront(b))
    ensures Pruned(DropFront(b), r) ==> Pruned(b, r)
  {
    assert b.frags[0..] == b.frags;
  }

  lemma PrunedTwice(b: Buf, c: Buf, r: Buf)
    requires Pruned(b, c) && Pruned(c, r)
    ensures Pruned(b, r)
  {
  }

  // What survives the size limits is the longest suffix within them: the buffer never stays over its limits,
  // the loop never meets an empty buffer that is over them, and nothing is dropped without need.
  lemma {:induction false} SurvivorsAreLongestSuffix(cfg: Config, b: Buf)
    requires DepthsExact(b)
    ensures var r := DropOverLimit(cfg, b);
            && Pruned(b, r) && !TooLarge(cfg, r.depthFrags, r.depthBytes)
            && (forall k :: 0 <= k < |b.frags| - |r.frags| ==> Over(cfg, b.frags[k..]))
    decreases |b.frags|
  {
    assert b.frags[0..] == b.frags;
    if b.frags != [] && TooLarge(cfg, b.depthFrags, b.depthBytes) {
      var d := DropFront(b);
      DropFrontPrunes(b, DropOverLimit(cfg, d));
      SurvivorsAreLongestSuffix(cfg, d);
      forall k | 0 <= k < |b.frags| - |DropOverLimit(cfg, d).frags| ensures Over(cfg, b.frags[k..]) {
        if k > 0 { assert b.frags[k..] == d.frags[k - 1..]; }
      }
    }
  }

  // Stale fragments leave from the front only, up to the first that is young enough.
  lemma {:induction false} StaleLeaveFromFront(b: Buf, min: nat)
    requires DepthsExact(b)
    ensures var r := DropOlder(b, min);
            && Pruned(b, r) && (r.frags != [] ==> r.frags[0].timestamp >= min)
            && (forall k :: 0 <= k < |b.frags| - |r.frags| ==> b.frags[k].timestamp < min)
    decreases |b.frags|
  {
    if b.frags != [] && b.frags[0].timestamp < min {
      DropFrontPrunes(b, DropOlder(DropFront(b), min));
      StaleLeaveFromFront(DropFront(b), min);
      var r := DropOlder(DropFront(b), min);
      forall k | 0 <= k < |b.frags| - |r.frags| ensures b.frags[k].timestamp < min {
        if k > 0 { assert b.frags[k] == DropFront(b).frags[k - 1]; }
      }
    }
  }

  lemma DropStalePrunes(cfg: Config, b: Buf)
    requires DepthsExact(b)
    ensures Pruned(b, DropStale(cfg, b))
  {
    if b.frags != [] && cfg.staleTimeout > 0 {
      var last := b.frags[|b.frags| - 1].timestamp;
      StaleLeaveFromFront(b, if last > cfg.staleTimeout then last - cfg.staleTimeout else 0);
    }
  }

  lemma CheckPrunes(cfg: Config, b: Buf)
    requires DepthsExact(b)
    ensures Pruned(b, Check(cfg, b))
  {
    SurvivorsAreLongestSuffix(cfg, b);
    DropStalePrunes(cfg, DropOverLimit(cfg, b));
    PrunedTwice(b, DropOverLimit(cfg, b), DropStale(cfg, DropOverLimit(cfg, b)));
  }

  // Fragment k of s is older than the last one by more than the limit.
  predicate Stale(cfg: Config, s: seq<Fragment>, k: nat)
    requires k < |s|
  {
    cfg.staleTimeout > 0 && s[k].timestamp + cfg.staleTimeout < s[|s| - 1].timestamp
  }

  lemma SuffixFits(cfg: Config, b: Buf, r: Buf)
    requires DepthsExact(b) && Pruned(b, r) && !TooLarge(cfg, b.depthFrags, b.depthBytes)
    ensures !TooLarge(cfg, r.depthFrags, r.depthBytes)
  {
    var k := |b.frags| - |r.frags|;
    assert b.frags == b.frags[..k] + b.frags[k..];
    BytesOfConcat(b.frags[..k], b.frags[k..]);
  }

  lemma NothingStale(b: Buf)
    requires DepthsExact(b)
    ensures Pruned(b, b)
  {
    assert b.frags[0..] == b.frags;
  }

  lemma LastStays(b: Buf, min: nat)
    requires DepthsExact(b) && b.frags != [] && b.frags[|b.frags| - 1].timestamp >= min
    ensures DropOlder(b, min).frags != []
  {
    StaleLeaveFromFront(b, min);
  }

  // r is what is left of b without the stale fragments at its front.
  ghost predicate StaleLeft(cfg: Config, b: Buf, r: Buf) {
    && Pruned(b, r) && (r.frags != [] ==> !Stale(cfg, r.frags, 0))
    && (forall k :: 0 <= k < |b.frags| - |r.frags| ==> Stale(cfg, b.frags, k))
  }

  lemma DropStaleIs(cfg: Config, b: Buf)
    requires DepthsExact(b)
    ensures StaleLeft(cfg, b, DropStale(cfg, b)) && (b.frags != [] ==> DropStale(cfg, b).frags != [])
  {
    if b.frags == [] || cfg.staleTimeout == 0 {
      NothingStale(b);
    } else {
      var last := b.frags[|b.frags| - 1].timestamp;
      var min := if last > cfg.staleTimeout then last - cfg.staleTimeout else 0;
      OlderAreStale(cfg, b, min);
      LastStays(b, min);
    }
  }

  lemma OlderAreStale(cfg: Config, b: Buf, min: nat)
    requires DepthsExact(b) && b.frags != [] && cfg.staleTimeout > 0
    requires var last := b.frags[|b.frags| - 1].timestamp;
            min == if last > cfg.staleTimeout then last - cfg.staleTimeout else 0
    ensures StaleLeft(cfg, b, DropOlder(b, min))
  {
    StaleLeaveFromFront(b, min);
    OlderIsStale(cfg, b.frags, min);
    var r := DropOlder(b, min);
    if r.frags != [] { SameLast(b.frags, |b.frags| - |r.frags|); }
  }

  lemma OlderIsStale(cfg: Config, s: seq<Fragment>, min: nat)
    requires s != [] && cfg.staleTimeout > 0
    requires var last := s[|s| - 1].timestamp; min == if last > cfg.staleTimeout then last - cfg.staleTimeout else 0
    ensures forall k :: 0 <= k < |s| ==> (Stale(cfg, s, k) <==> s[k].timestamp < min)
  {
  }

  lemma SameLast(s: seq<Fragment>, k: nat)
    requires k < |s|
    ensures s[k..] != [] && s[k..][|s[k..]| - 1] == s[|s| - 1]
  {
  }

  // checkDataBuffer drops what it must and nothing else: what is left is within the limits and begins with a fragment
  // young enough; each dropped fragment was too old, or the buffer from it on was too large.
  lemma CheckDropsOnlyWhatItMust(cfg: Config, b: Buf)
    requires DepthsExact(b) && cfg.mode != Single && cfg.mode != Ignored
    ensures var r := Check(cfg, b);
            && Pruned(b, r) && !TooLarge(cfg, r.depthFrags, r.depthBytes) && (r.frags != [] ==> !Stale(cfg, r.frags, 0))
            && (forall k :: 0 <= k < |b.frags| - |r.frags| ==> Over(cfg, b.frags[k..]) || Stale(cfg, b.frags, k))
  {
    var d := DropOverLimit(cfg, b);
    SurvivorsAreLongestSuffix(cfg, b);
    DropStaleIs(cfg, d);
    CheckPrunes(cfg, b);
    SuffixFits(cfg, d, DropStale(cfg, d));
    StaleInSuffix(cfg, b, d, |d.frags| - |DropStale(cfg, d).frags|);
  }

  lemma StaleInSuffix(cfg: Config, b: Buf, d: Buf, n: nat)
    requires Pruned(b, d) && n <= |d.frags| && forall k :: 0 <= k < n ==> Stale(cfg, d.frags, k)
    ensures var gone := |b.frags| - |d.frags|; forall k :: gone <= k < gone + n ==> Stale(cfg, b.frags, k)
  {
    var gone := |b.frags| - |d.frags|;
    forall k | gone <= k < gone + n ensures Stale(cfg, b.frags, k) {
      assert d.frags[k - gone] == b.frags[k] && Stale(cfg, d.frags, k - gone);
    }
  }

  // At most maxFragments fragments and maxBytes bytes; 0 stands for no limit.
  predicate WithinLimits(cfg: Config, s: seq<Fragment>) {
    (cfg.maxFragments > 0 ==> |s| <= cfg.maxFragments) && (cfg.maxBytes > 0 ==> Bytes(s) <= cfg.maxBytes)
  }

  // r is what is left of s when the oldest fragments are dropped until the rest is within the limits.
  ghost predicate MakesRoom(cfg: Config, s: seq<Fragment>, r: seq<Fragment>) {
    && |r| <= |s| && r == s[|s| - |r|..] && WithinLimits(cfg, r)
    && forall k :: 0 <= k < |s| - |r| ==> !WithinLimits(cfg, s[k..])
  }

  lemma DroppingMakesRoom(cfg: Config, b: Buf)
    requires DepthsExact(b)
    ensures MakesRoom(cfg, b.frags, DropOverLimit(cfg, b).frags)
  {
    SurvivorsAreLongestSuffix(cfg, b);
    var s := b.frags;
    forall k | 0 <= k < |s| - |DropOverLimit(cfg, b).frags| ensures !WithinLimits(cfg, s[k..]) {
      assert Over(cfg, s[k..]);
    }
  }

  // What fragments find when they arrive: in circular mode room is made first, and never otherwise; then all are added
  // at the end - in Single mode the last alone is kept.
  lemma ArrivalsFindRoom(cfg: Config, b: Buf, fs: seq<Fragment>)
    requires DepthsExact(b) && fs != []
    ensures var r := Receive(cfg, b, fs).frags;
            if cfg.mode == Single then r == fs[|fs| - 1..]
            else
              && |r| >= |fs| && r[|r| - |fs|..] == fs
              && if cfg.circular then MakesRoom(cfg, b.frags, r[..|r| - |fs|]) else r[..|r| - |fs|] == b.frags
  {
    DroppingMakesRoom(cfg, b);
  }

  // A check makes room as well, and then drops stale fragments from the front, up to the first that is not; in Single
  // and Ignored mode it does nothing.
  lemma CheckIsExact(cfg: Config, b: Buf) returns (s: seq<Fragment>, n: nat)
    requires DepthsExact(b)
    ensures if cfg.mode == Single || cfg.mode == Ignored then s == b.frags && n == 0 else MakesRoom(cfg, b.frags, s)
    ensures n <= |s| && Check(cfg, b).frags == s[n..]
    ensures cfg.mode != Single && cfg.mode != Ignored ==>
              (forall k :: 0 <= k < n ==> Stale(cfg, s, k)) && (s != [] ==> n < |s| && !Stale(cfg, s, n))
  {
    if cfg.mode == Single || cfg.mode == Ignored {
      s, n := b.frags, 0;
    } else {
      var d := DropOverLimit(cfg, b);
      DroppingMakesRoom(cfg, b);
      SurvivorsAreLongestSuffix(cfg, b);
      DropStaleIs(cfg, d);
      CheckIsDropStale(cfg, b);
      s, n := d.frags, |d.frags| - |DropStale(cfg, d).frags|;
      StaleGo(cfg, d, DropStale(cfg, d));
    }
  }

  lemma StaleGo(cfg: Config, d: Buf, r: Buf)
    requires StaleLeft(cfg, d, r) && (d.frags != [] ==> r.frags != [])
    ensures var s, n := d.frags, |d.frags| - |r.frags|;
            && n >= 0 && r.frags == s[n..] && (forall k :: 0 <= k < n ==> Stale(cfg, s, k))
            && (s != [] ==> n < |s| && !Stale(cfg, s, n))
  {
    if d.frags != [] { SameLast(d.frags, |d.frags| - |r.frags|); }
  }

  // ---------------------------------------------------------------- the documented rule for stale fragments

  ghost predicate Chronological(s: seq<Fragment>) {
    forall i, j :: 0 <= i < j < |s| ==> s[i].timestamp <= s[j].timestamp
  }

  // Older than the newest fragment, the last one stored, by at least the timeout
  // (artdaq/DAQrate/FragmentBuffer.hh:103-104).
  predicate AtLeastTimeoutOld(cfg: Config, s: seq<Fragment>, k: nat)
    requires k < |s|
  {
    s[k].timestamp + cfg.staleTimeout <= s[|s| - 1].timestamp
  }

  predicate JustTimeoutOld(cfg: Config, s: seq<Fragment>, k: nat)
    requires k < |s|
  {
    s[k].timestamp + cfg.staleTimeout == s[|s| - 1].timestamp
  }

  ghost predicate DocumentedRule(cfg: Config, s: seq<Fragment>) {
    forall k :: 0 <= k < |s| ==> !AtLeastTimeoutOld(cfg, s, k)
  }

  // Each fragment that the rule discards is, with all before it, older than the newest by more than the timeout.
  ghost predicate StaleUpToIt(cfg: Config, s: seq<Fragment>) {
    forall k :: 0 <= k < |s| && AtLeastTimeoutOld(cfg, s, k) ==> forall j :: 0 <= j <= k ==> Stale(cfg, s, j)
  }

  // The documented rule discards a fragment that is older than the newest by at least the timeout. After pruning it
  // holds if and only if, within the size limits, each such fragment and all in front of it were older by more than the
  // timeout: it fails for a fragment older by exactly that, and for one behind a younger fragment.
  lemma DocumentedRuleHoldsIff(cfg: Config, b: Buf)
    requires DepthsExact(b) && cfg.mode != Single && cfg.mode != Ignored && cfg.staleTimeout > 0
    ensures DocumentedRule(cfg, Check(cfg, b).frags) <==> StaleUpToIt(cfg, DropOverLimit(cfg, b).frags)
  {
    var d := DropOverLimit(cfg, b);
    SurvivorsAreLongestSuffix(cfg, b);
    DropStaleIs(cfg, d);
    CheckIsDropStale(cfg, b);
    RuleAfterDropping(cfg, d, DropStale(cfg, d));
  }

  lemma CheckIsDropStale(cfg: Config, b: Buf)
    requires DepthsExact(b) && cfg.mode != Single && cfg.mode != Ignored
    ensures Check(cfg, b) == DropStale(cfg, DropOverLimit(cfg, b))
  {
  }

  lemma RuleAfterDropping(cfg: Config, d: Buf, r: Buf)
    requires StaleLeft(cfg, d, r) && (d.frags != [] ==> r.frags != [])
    ensures DocumentedRule(cfg, r.frags) <==> StaleUpToIt(cfg, d.frags)
  {
    if d.frags != [] { RuleForSuffix(cfg, d.frags, |d.frags| - |r.frags|); }
  }

  // Of a list, n fragments at the front were too old and the next is not.
  lemma RuleForSuffix(cfg: Config, s: seq<Fragment>, n: nat)
    requires n < |s| && !Stale(cfg, s[n..], 0) && forall k :: 0 <= k < n ==> Stale(cfg, s, k)
    ensures DocumentedRule(cfg, s[n..]) <==> StaleUpToIt(cfg, s)
  {
    SameLast(s, n);
    forall k | n <= k < |s| ensures AtLeastTimeoutOld(cfg, s[n..], k - n) <==> AtLeastTimeoutOld(cfg, s, k) {}
    assert !Stale(cfg, s, n);
    if StaleUpToIt(cfg, s) {
      forall k | 0 <= k < |s[n..]| ensures !AtLeastTimeoutOld(cfg, s[n..], k) {
        assert AtLeastTimeoutOld(cfg, s[n..], k) <==> AtLeastTimeoutOld(cfg, s, n + k);
      }
    } else {
      var k :| 0 <= k < |s| && AtLeastTimeoutOld(cfg, s, k) && !forall j :: 0 <= j <= k ==> Stale(cfg, s, j);
      assert AtLeastTimeoutOld(cfg, s[n..], k - n);
    }
  }

  // In a buffer in order of timestamps only the first way is left.
  lemma DocumentedRuleInOrder(cfg: Config, b: Buf)
    requires DepthsExact(b) && cfg.mode != Single && cfg.mode != Ignored && cfg.staleTimeout > 0
    requires Chronological(b.frags)
    ensures DocumentedRule(cfg, Check(cfg, b).frags)
        <==> var s := DropOverLimit(cfg, b).frags; forall k :: 0 <= k < |s| ==> !JustTimeoutOld(cfg, s, k)
  {
    var s := DropOverLimit(cfg, b).frags;
    SurvivorsAreLongestSuffix(cfg, b);
    DocumentedRuleHoldsIff(cfg, b);
    OnlyJustTimeoutOld(cfg, s);
  }

  lemma OnlyJustTimeoutOld(cfg: Config, s: seq<Fragment>)
    requires Chronological(s) && cfg.staleTimeout > 0
    ensures StaleUpToIt(cfg, s) <==> forall k :: 0 <= k < |s| ==> !JustTimeoutOld(cfg, s, k)
  {
    if k :| 0 <= k < |s| && JustTimeoutOld(cfg, s, k) {
      assert AtLeastTimeoutOld(cfg, s, k) && !Stale(cfg, s, k);
    } else {
      forall k, j | 0 <= j <= k < |s| && AtLeastTimeoutOld(cfg, s, k) ensures Stale(cfg, s, j) {
        assert s[j].timestamp <= s[k].timestamp && !JustTimeoutOld(cfg, s, k);
      }
    }
  }

  // The two ways it fails. 0 and 10 are apart by the timeout, and nothing is discarded;
  lemma JustTimeoutOldStays(cfg: Config, f: Fragment, g: Fragment)
    requires cfg.mode == Window && cfg.staleTimeout == 10 && cfg.maxFragments == 0 && cfg.maxBytes == 0
    requires f.timestamp == 0 && g.timestamp == 10
    ensures var b := Buf([f, g], 2, Bytes([f, g]), {}, 0, false);
            DepthsExact(b) && Check(cfg, b) == b && AtLeastTimeoutOld(cfg, b.frags, 0)
  {
  }

  // and 0 stays behind 20, though 30 has come.
  lemma HiddenStaleStays(cfg: Config, f: Fragment, g: Fragment, h: Fragment)
    requires cfg.mode == Window && cfg.staleTimeout == 15 && cfg.maxFragments == 0 && cfg.maxBytes == 0
    requires f.timestamp == 20 && g.timestamp == 0 && h.timestamp == 30
    ensures var b := Buf([f, g, h], 3, Bytes([f, g, h]), {}, 0, false);
            DepthsExact(b) && Check(cfg, b) == b && Stale(cfg, b.frags, 1) && !Stale(cfg, b.frags, 0)
  {
  }

  lemma ReceiveKeepsDepths(cfg: Config, b: Buf, fs: seq<Fragment>)
    requires DepthsExact(b) && fs != []
    ensures DepthsExact(Receive(cfg, b, fs))
  {
    var r := if cfg.circular then DropOverLimit(cfg, b) else b;
    if cfg.mode == Single {
      assert [fs[|fs| - 1]][1..] == [];
    } else {
      SurvivorsAreLongestSuffix(cfg, b);
      BytesOfConcat(r.frags, fs);
    }
  }
}
