/** AddFragmentsToBuffer (artdaq/DAQrate/FragmentBuffer.cc:143-210): fragments of any IDs come together, are sorted by
    fragment ID, and each data buffer receives its own. */
module Arrivals {
  import opened Ordered
  import opened DataBuffers
  import opened Pipeline
  import opened BufferLoops
  import opened CounterRuns
  import LatestRuns

  // The data fragments of one ID, in order of arrival.
  function Own(fs: seq<Fragment>, id: nat): seq<Fragment> {
    if fs == [] then []
    else
      var last := fs[|fs| - 1];
      Own(fs[..|fs| - 1], id) + if !last.system && last.id == id then [last] else []
  }

  function SystemOnes(fs: seq<Fragment>): seq<Fragment> {
    if fs == [] then []
    else
      var last := fs[|fs| - 1];
      SystemOnes(fs[..|fs| - 1]) + if last.system then [last] else []
  }

  predicate Undeclared(ids: set<nat>, f: Fragment) {
    !f.system && f.id !in ids
  }

  // Where the first fragment with an undeclared ID is, or the end.
  function Accepted(ids: set<nat>, fs: seq<Fragment>): (n: nat)
    ensures n <= |fs|
    ensures forall i :: 0 <= i < n ==> !Undeclared(ids, fs[i])
    ensures n < |fs| ==> Undeclared(ids, fs[n])
  {
    if fs == [] then 0
    else
      var n := Accepted(ids, fs[..|fs| - 1]);
      if n < |fs| - 1 || Undeclared(ids, fs[|fs| - 1]) then n else |fs|
  }

  function AfterAdd(cfg: Config, bufs: map<nat, Buf>, fs: seq<Fragment>): map<nat, Buf> {
    map id | id in bufs :: if Own(fs, id) == [] then bufs[id] else Receive(cfg, bufs[id], Own(fs, id))
  }

  function ArrivalsOf(ids: seq<nat>, fs: seq<Fragment>): seq<Op> {
    seq(|ids|, i requires 0 <= i < |ids| => Arrive(ids[i], Own(fs, ids[i])))
  }

  ghost function Steps(cfg: Config, p: Pipe, ops: seq<Op>): Pipe {
    if ops == [] then p else Step(cfg, Steps(cfg, p, ops[..|ops| - 1]), ops[|ops| - 1])
  }

  // Sorting loses nothing and mixes nothing: each fragment is a system fragment or belongs to the buffer of its ID.
  lemma {:induction false} SortingIsExact(fs: seq<Fragment>, id: nat)
    ensures forall f :: f in Own(fs, id) <==> f in fs && !f.system && f.id == id
    ensures forall f :: f in SystemOnes(fs) <==> f in fs && f.system
  {
    if fs != [] {
      SortingIsExact(fs[..|fs| - 1], id);
      assert fs == fs[..|fs| - 1] + [fs[|fs| - 1]];
    }
  }

  // And in the order of arrival.
  lemma {:induction false} SortingKeepsOrder(fs: seq<Fragment>, gs: seq<Fragment>, id: nat)
    ensures Own(fs + gs, id) == Own(fs, id) + Own(gs, id) && SystemOnes(fs + gs) == SystemOnes(fs) + SystemOnes(gs)
  {
    if gs == [] {
      assert fs + gs == fs;
    } else {
      var front, last := gs[..|gs| - 1], gs[|gs| - 1];
      assert (fs + gs)[..|fs + gs| - 1] == fs + front && (fs + gs)[|fs + gs| - 1] == last;
      SortingKeepsOrder(fs, front, id);
      Joined(Own(fs, id), Own(front, id), if !last.system && last.id == id then [last] else []);
      Joined(SystemOnes(fs), SystemOnes(front), if last.system then [last] else []);
    }
  }

  // AddFragmentsToBuffer is one arrival for each fragment ID, of fragments that bear it.
  lemma {:induction false} AddingIsArriving(cfg: Config, p: Pipe, fs: seq<Fragment>, ids: seq<nat>, rest: set<nat>)
    requires Listed(p.bufs.Keys, ids, rest)
    ensures var q := Steps(cfg, p, ArrivalsOf(ids, fs));
            q == p.(bufs := q.bufs) && Half(p.bufs, AfterAdd(cfg, p.bufs, fs), q.bufs, rest)
    decreases |ids|
  {
    var target := AfterAdd(cfg, p.bufs, fs);
    if ids == [] {
      assert p.bufs.Keys - rest == {};
      HalfBegins(p.bufs, target, rest);
    } else {
      var n := |ids| - 1;
      ListedBack(p.bufs.Keys, ids, rest);
      AddingIsArriving(cfg, p, fs, ids[..n], rest + {ids[n]});
      var front := Steps(cfg, p, ArrivalsOf(ids[..n], fs));
      ArrivalsBack(ids, fs);
      HalfNext(p.bufs, target, front.bufs, rest + {ids[n]}, ids[n]);
      assert rest + {ids[n]} - {ids[n]} == rest;
      SameArrival(cfg, p.bufs, front, ids[n], fs);
    }
  }

  lemma ArrivalsBack(ids: seq<nat>, fs: seq<Fragment>)
    requires ids != []
    ensures var n, ops := |ids| - 1, ArrivalsOf(ids, fs);
            |ops| == n + 1 && ops[..n] == ArrivalsOf(ids[..n], fs) && ops[n] == Arrive(ids[n], Own(fs, ids[n]))
  {
  }

  lemma ArrivalsAreSorted(ids: seq<nat>, fs: seq<Fragment>)
    ensures LatestRuns.SortedById(ArrivalsOf(ids, fs))
  {
    forall i, f | 0 <= i < |ids| && f in Own(fs, ids[i]) ensures f.id == ids[i] { SortingIsExact(fs, ids[i]); }
  }

  lemma SameArrival(cfg: Config, was: map<nat, Buf>, front: Pipe, id: nat, fs: seq<Fragment>)
    requires id in was && id in front.bufs && front.bufs[id] == was[id]
    ensures Step(cfg, front, Arrive(id, Own(fs, id))) == front.(bufs := front.bufs[id := AfterAdd(cfg, was, fs)[id]])
  {
    if Own(fs, id) == [] { assert front.bufs[id := was[id]] == front.bufs; }
  }

  // The whole call, for all data buffers: what it does to the state is a run of arrivals, each of fragments with its
  // ID.
  lemma AddIsArrivals(cfg: Config, p: Pipe, fs: seq<Fragment>)
    ensures var ops := ArrivalsOf(Sorted(p.bufs.Keys), fs);
            Steps(cfg, p, ops) == p.(bufs := AfterAdd(cfg, p.bufs, fs)) && LatestRuns.SortedById(ops)
  {
    var ids := Sorted(p.bufs.Keys);
    assert p.bufs.Keys - {} == p.bufs.Keys;
    AddingIsArriving(cfg, p, fs, ids, {});
    HalfEnds(p.bufs, AfterAdd(cfg, p.bufs, fs), Steps(cfg, p, ArrivalsOf(ids, fs)).bufs);
    ArrivalsAreSorted(ids, fs);
  }

  // byId holds the data fragments of s under their IDs.
  ghost predicate Groups(byId: map<nat, seq<Fragment>>, s: seq<Fragment>) {
    forall id :: (if id in byId then byId[id] != [] && byId[id] == Own(s, id) else Own(s, id) == [])
  }

  function Grouped(byId: map<nat, seq<Fragment>>, f: Fragment): map<nat, seq<Fragment>> {
    if f.system then byId else byId[f.id := (if f.id in byId then byId[f.id] else []) + [f]]
  }

  lemma GroupsMore(byId: map<nat, seq<Fragment>>, s: seq<Fragment>, f: Fragment)
    requires Groups(byId, s)
    ensures Groups(Grouped(byId, f), s + [f])
    ensures SystemOnes(s + [f]) == SystemOnes(s) + if f.system then [f] else []
  {
    assert (s + [f])[..|s|] == s;
    forall id ensures Own(s + [f], id) == Own(s, id) + if !f.system && f.id == id then [f] else [] {}
  }

  lemma AcceptedIs(ids: set<nat>, fs: seq<Fragment>, n: nat)
    requires n <= |fs| && forall i :: 0 <= i < n ==> !Undeclared(ids, fs[i])
    requires n < |fs| ==> Undeclared(ids, fs[n])
    ensures Accepted(ids, fs) == n
  {
  }

  ghost predicate AllDeclared(ids: set<nat>, s: seq<Fragment>) {
    forall j :: 0 <= j < |s| ==> !Undeclared(ids, s[j])
  }

  lemma DeclaredMore(ids: set<nat>, s: seq<Fragment>, f: Fragment)
    requires AllDeclared(ids, s) && !Undeclared(ids, f)
    ensures AllDeclared(ids, s + [f])
  {
  }

  lemma KeysMore(ids: set<nat>, byId: map<nat, seq<Fragment>>, f: Fragment)
    requires byId.Keys <= ids && !Undeclared(ids, f)
    ensures Grouped(byId, f).Keys <= ids
  {
  }

  // The fragments of s, all declared, have been grouped.
  ghost predicate GroupedTo(ids: set<nat>, before: seq<Fragment>, s: seq<Fragment>, system: seq<Fragment>,
                            byId: map<nat, seq<Fragment>>) {
    system == before + SystemOnes(s) && Groups(byId, s) && byId.Keys <= ids && AllDeclared(ids, s)
  }

  lemma GroupedNext(ids: set<nat>, before: seq<Fragment>, fs: seq<Fragment>, i: nat, system: seq<Fragment>,
                    byId: map<nat, seq<Fragment>>)
    requires i < |fs| && GroupedTo(ids, before, fs[..i], system, byId) && !Undeclared(ids, fs[i])
    ensures var more := system + if fs[i].system then [fs[i]] else [];
            GroupedTo(ids, before, fs[..i + 1], more, Grouped(byId, fs[i]))
  {
    var s, f := fs[..i], fs[i];
    assert fs[..i + 1] == s + [f];
    GroupsMore(byId, s, f);
    DeclaredMore(ids, s, f);
    KeysMore(ids, byId, f);
    Joined(before, SystemOnes(s), if f.system then [f] else []);
  }

  lemma GroupedAll(ids: set<nat>, before: seq<Fragment>, fs: seq<Fragment>, i: nat, system: seq<Fragment>,
                   byId: map<nat, seq<Fragment>>)
    requires i <= |fs| && GroupedTo(ids, before, fs[..i], system, byId) && (i < |fs| ==> Undeclared(ids, fs[i]))
    ensures Accepted(ids, fs) == i && (i == |fs| ==> Groups(byId, fs))
  {
    forall j | 0 <= j < i ensures !Undeclared(ids, fs[j]) { assert fs[..i][j] == fs[j]; }
    AcceptedIs(ids, fs, i);
    if i == |fs| { assert fs[..i] == fs; }
  }

  lemma AddKeepsExact(cfg: Config, bufs: map<nat, Buf>, fs: seq<Fragment>)
    requires AllExact(bufs)
    ensures AllExact(AfterAdd(cfg, bufs, fs))
  {
    forall id | id in bufs && Own(fs, id) != [] ensures DepthsExact(Receive(cfg, bufs[id], Own(fs, id))) {
      ReceiveKeepsDepths(cfg, bufs[id], Own(fs, id));
    }
  }
}
