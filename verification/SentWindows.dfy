/** What a check of the windows already sent does (artdaq/DAQrate/FragmentBuffer.cc:910-962), for any set of data
    buffers: when the counter moves, how far, and what is forgotten; and what the checks of a whole pass leave. */
module SentWindows {
  import opened Ordered
  import opened DataBuffers
  import opened Pipeline
  import opened WindowRuns
  import opened CounterRuns
  import opened WindowAnswers

  ghost predicate RememberedBySome(p: Pipe, k: nat) {
    exists id :: id in p.bufs && k in p.bufs[id].sent
  }

  ghost predicate RememberedByAll(p: Pipe, k: nat) {
    forall id :: id in p.bufs ==> k in p.bufs[id].sent && p.bufs[id].highest >= k
  }

  // From p to q the counter moved, and no request and no window in the range it moved over is left.
  ghost predicate MovedOver(p: Pipe, q: Pipe) {
    && p.next <= q.next && q.bufs.Keys == p.bufs.Keys
    && (forall i :: p.next <= i < q.next ==> i !in q.rb.requests && !RememberedBySome(q, i))
  }

  // Nothing else is forgotten, and no request removed but those and perhaps k.
  ghost predicate KeepsTheRest(p: Pipe, q: Pipe, k: nat) {
    && (forall i :: i in p.rb.requests && i != k && !(p.next <= i < q.next) ==> i in q.rb.requests)
    && (forall i :: i in q.rb.requests ==> i in p.rb.requests)
    && (forall id, i :: id in p.bufs && id in q.bufs ==>
          (i in q.bufs[id].sent <==> i in p.bufs[id].sent && !(p.next <= i < q.next)))
  }

  ghost predicate Range(s: set<nat>, t: set<nat>, from: nat, to: nat) {
    forall i: nat :: i in t <==> i in s || from <= i < to
  }

  // The check of window k: the counter moves past k if the window has timed out and some data buffer remembers it, or
  // if all do and k is next; only a timeout passes IDs, all up to k that are left.
  ghost predicate Checks(p: Pipe, q: Pipe, k: nat, expired: set<nat>) {
    var timeout, complete := k in expired && RememberedBySome(p, k), RememberedByAll(p, k);
    && MovedOver(p, q) && KeepsTheRest(p, q, k)
    && q.next == (if k >= p.next && (timeout || (complete && k == p.next)) then k + 1 else p.next)
    && (if timeout && !(complete && k == p.next) then Range(p.passed, q.passed, p.next, k + 1)
      else q.passed == p.passed)
    && (complete ==> k !in q.rb.requests)
    && (!complete && k in p.rb.requests && !(p.next <= k < q.next) ==> k in q.rb.requests)
  }

  // ---------------------------------------------------------------- one check

  lemma AdvancedRemembers(p: Pipe, q: Pipe, id: nat, i: nat)
    requires Advanced(p, q) && id in p.bufs
    ensures id in q.bufs && (i in q.bufs[id].sent <==> i in p.bufs[id].sent && !(p.next <= i < q.next))
  {
    assert q.bufs[id] == Trimmed(p.bufs[id], p.next, q.next);
  }

  ghost predicate PassedThrough(p: Pipe, q: Pipe, k: nat) {
    && Range(p.passed, q.passed, p.next, k + 1)
    && (forall i :: i in q.rb.requests <==> i in p.rb.requests && !(p.next <= i <= k))
  }

  lemma {:induction false} PassThroughIs(p: Pipe, k: nat)
    ensures PassedThrough(p, PassThrough(p, k), k)
    decreases k + 1 - p.next
  {
    if p.next <= k {
      PassOneIs(p, k);
      PassThroughIs(PassOne(p), k);
    }
  }

  lemma PassOneIs(p: Pipe, k: nat)
    requires p.next <= k
    ensures var q := PassOne(p);
            && q.next == p.next + 1 && Range(p.passed, q.passed, p.next, q.next)
            && (forall i :: i in q.rb.requests <==> i in p.rb.requests && i != p.next)
  {
  }

  lemma CheckIsExact(p: Pipe, k: nat, expired: set<nat>)
    ensures Checks(p, CheckSent(p, k, expired), k, expired)
  {
    var complete, timeout := RememberedByAll(p, k), k in expired && RememberedBySome(p, k);
    var m := if complete then CompleteOne(p, k) else p;
    var q := CheckSent(p, k, expired);
    CheckSentAdvances(p, k, expired);
    if complete { CompleteOneAdvances(p, k); }
    PassThroughIs(m, k);
    PassThroughAdvances(m, k);
    CheckKeepsRest(p, q);
    SameParts(p, m, q, k, complete, timeout);
  }

  // What is remembered after the check.
  lemma CheckKeepsRest(p: Pipe, q: Pipe)
    requires Advanced(p, q)
    ensures forall i :: p.next <= i < q.next ==> !RememberedBySome(q, i)
    ensures forall id, i :: id in p.bufs && id in q.bufs ==>
              (i in q.bufs[id].sent <==> i in p.bufs[id].sent && !(p.next <= i < q.next))
  {
    forall id, i: nat | id in p.bufs
      ensures id in q.bufs && (i in q.bufs[id].sent <==> i in p.bufs[id].sent && !(p.next <= i < q.next))
    {
      AdvancedRemembers(p, q, id, i);
    }
  }

  lemma SameParts(p: Pipe, m: Pipe, q: Pipe, k: nat, complete: bool, timeout: bool)
    requires m == (if complete then CompleteOne(p, k) else p) && q == (if timeout then PassThrough(m, k) else m)
    requires PassedThrough(m, PassThrough(m, k), k)
    requires m.next == if complete && p.next == k then k + 1 else p.next
    requires PassThrough(m, k).next == if m.next <= k then k + 1 else m.next
    ensures q.next == (if k >= p.next && (timeout || (complete && k == p.next)) then k + 1 else p.next)
    ensures if timeout && !(complete && k == p.next) then Range(p.passed, q.passed, p.next, k + 1)
            else q.passed == p.passed
    ensures forall i :: i in q.rb.requests <==> i in p.rb.requests && !(p.next <= i < q.next) && !(complete && i == k)
  {
    assert forall i :: i in m.rb.requests <==> i in p.rb.requests && !(complete && i == k);
  }

  // ---------------------------------------------------------------- whole passes

  // Nothing is left to do for window k: it is not remembered from the counter on after a timeout, and no request for it
  // is pending once all data buffers have sent it.
  ghost predicate Settled(p: Pipe, k: nat, timedOut: bool) {
    && (timedOut && RememberedBySome(p, k) ==> k < p.next)
    && (p.bufs != map[] && RememberedByAll(p, k) ==> k !in p.rb.requests)
  }

  lemma CheckSettles(p: Pipe, k: nat, expired: set<nat>)
    ensures Settled(CheckSent(p, k, expired), k, k in expired)
  {
    var q := CheckSent(p, k, expired);
    CheckIsExact(p, k, expired);
    CheckSentAdvances(p, k, expired);
    if RememberedByAll(q, k) { StillSent(p, q, k); }
  }

  lemma CheckKeepsSettled(p: Pipe, k: nat, timedOut: bool, other: nat, expired: set<nat>)
    requires Settled(p, k, timedOut)
    ensures Settled(CheckSent(p, other, expired), k, timedOut)
  {
    var q := CheckSent(p, other, expired);
    CheckIsExact(p, other, expired);
    CheckSentAdvances(p, other, expired);
    if RememberedByAll(q, k) { StillSent(p, q, k); }
  }

  lemma {:induction false} SweepKeepsSettled(p: Pipe, ids: seq<nat>, expired: set<nat>, k: nat, timedOut: bool)
    requires Settled(p, k, timedOut)
    ensures Settled(CheckEach(p, ids, expired), k, timedOut)
    decreases |ids|
  {
    if ids != [] {
      CheckKeepsSettled(p, k, timedOut, ids[0], expired);
      SweepKeepsSettled(CheckSent(p, ids[0], expired), ids[1..], expired, k, timedOut);
    }
  }

  lemma {:induction false} SweepSettles(p: Pipe, ids: seq<nat>, expired: set<nat>, k: nat)
    requires k in ids
    ensures Settled(CheckEach(p, ids, expired), k, k in expired)
    decreases |ids|
  {
    var q := CheckSent(p, ids[0], expired);
    if k == ids[0] {
      CheckSettles(p, k, expired);
      SweepKeepsSettled(q, ids[1..], expired, k, k in expired);
    } else {
      SweepSettles(q, ids[1..], expired, k);
    }
  }

  lemma NobodyRemembers(p: Pipe, k: nat, timedOut: bool)
    requires k !in AllSent(p.bufs)
    ensures Settled(p, k, timedOut)
  {
    if p.bufs != map[] {
      var id :| id in p.bufs;
      assert k !in p.bufs[id].sent;
    }
  }

  lemma SweepSettlesAll(p: Pipe, expired: set<nat>, k: nat)
    ensures Settled(CheckEach(p, Sorted(AllSent(p.bufs)), expired), k, k in expired)
  {
    if k in AllSent(p.bufs) {
      SweepSettles(p, Sorted(AllSent(p.bufs)), expired, k);
    } else {
      NobodyRemembers(p, k, k in expired);
      SweepKeepsSettled(p, Sorted(AllSent(p.bufs)), expired, k, k in expired);
    }
  }

  // Serving another request keeps it so as well, as far as the timeout goes.
  ghost predicate PassedBy(p: Pipe, k: nat) {
    RememberedBySome(p, k) ==> k < p.next
  }

  lemma ServeKeepsPassedBy(cfg: Config, p: Pipe, other: nat, ts: nat, late: set<(nat, nat)>, expired: set<nat>, k: nat)
    requires Waits(cfg) && PassedBy(p, k) && other != k
    ensures PassedBy(Serve(cfg, p, other, ts, late, expired), k)
  {
    if !(cfg.mode == Window && (other < p.next || ts == cfg.invalidTimestamp)) {
      var m := AnswerAll(cfg, p, other, ts, late);
      forall id | id in m.bufs ensures k in m.bufs[id].sent ==> k in p.bufs[id].sent {
        AnswerRemembers(cfg, p.bufs[id], other, ts, (other, id) in late);
      }
      CheckIsExact(m, other, expired);
    }
  }

  // The request is looked at in a pass: in Window mode one that is not older than the counter and has a valid
  // timestamp.
  predicate Open(cfg: Config, p: Pipe, k: nat)
    requires k in p.rb.requests
  {
    cfg.mode == Window ==> k >= p.next && p.rb.requests[k] != cfg.invalidTimestamp
  }

  lemma ServedIsPassedBy(cfg: Config, p: Pipe, late: set<(nat, nat)>, expired: set<nat>, n: nat)
    requires Waits(cfg) && AllExact(p.bufs) && n < |Sorted(p.rb.requests.Keys)|
    ensures var k := Sorted(p.rb.requests.Keys)[n];
            k in p.rb.requests && (Open(cfg, p, k) && k in expired
              ==> PassedBy(Midway(cfg, p, late, expired, n + 1), k))
  {
    var k, a := Sorted(p.rb.requests.Keys)[n], Midway(cfg, p, late, expired, n);
    MidwayNext(cfg, p, late, expired, n);
    BeforeRequest(cfg, p, late, expired, n);
    CheckSettles(AnswerAll(cfg, a, k, p.rb.requests[k], late), k, expired);
  }

  lemma {:induction false} MidwayKeepsPassedBy(cfg: Config, p: Pipe, late: set<(nat, nat)>, expired: set<nat>,
                                               ks: seq<nat>, n: nat, m: nat)
    requires Waits(cfg) && n < m <= |ks| && ks == Sorted(p.rb.requests.Keys)
    requires PassedBy(Midway(cfg, p, late, expired, n + 1), ks[n])
    ensures PassedBy(Midway(cfg, p, late, expired, m), ks[n])
  {
    if n + 1 < m {
      MidwayKeepsPassedBy(cfg, p, late, expired, ks, n, m - 1);
      MidwayNext(cfg, p, late, expired, m - 1);
      ServeKeepsPassedBy(cfg, Midway(cfg, p, late, expired, m - 1), ks[m - 1], p.rb.requests[ks[m - 1]], late, expired,
        ks[n]);
    }
  }

  lemma {:induction false} SweepKeepsPassedBy(p: Pipe, ids: seq<nat>, expired: set<nat>, k: nat)
    requires PassedBy(p, k)
    ensures PassedBy(CheckEach(p, ids, expired), k)
    decreases |ids|
  {
    if ids != [] {
      CheckIsExact(p, ids[0], expired);
      SweepKeepsPassedBy(CheckSent(p, ids[0], expired), ids[1..], expired, k);
    }
  }

  // No request older than the counter is pending, except those still to be served.
  ghost predicate OldAreToCome(p: Pipe, ids: seq<nat>) {
    forall i :: i in p.rb.requests && i < p.next ==> i in ids
  }

  lemma ServeRemovesOld(cfg: Config, p: Pipe, ids: seq<nat>, ts: nat, late: set<(nat, nat)>, expired: set<nat>)
    requires cfg.mode == Window && ids != [] && OldAreToCome(p, ids)
    ensures OldAreToCome(Serve(cfg, p, ids[0], ts, late, expired), ids[1..])
  {
    if ids[0] >= p.next && ts != cfg.invalidTimestamp {
      CheckIsExact(AnswerAll(cfg, p, ids[0], ts, late), ids[0], expired);
    }
  }

  lemma {:induction false} ServingRemovesOld(cfg: Config, p: Pipe, reqs: map<nat, nat>, ids: seq<nat>,
                                             late: set<(nat, nat)>, expired: set<nat>)
    requires cfg.mode == Window && OldAreToCome(p, ids) && forall k :: k in ids ==> k in reqs
    ensures OldAreToCome(ServeEach(cfg, p, reqs, ids, late, expired), [])
    decreases |ids|
  {
    if ids != [] {
      FirstIsIn(ids);
      ServeRemovesOld(cfg, p, ids, reqs[ids[0]], late, expired);
      ServingRemovesOld(cfg, Serve(cfg, p, ids[0], reqs[ids[0]], late, expired), reqs, ids[1..], late, expired);
    }
  }

  lemma {:induction false} SweepRemovesOld(p: Pipe, ids: seq<nat>, expired: set<nat>)
    requires OldAreToCome(p, [])
    ensures OldAreToCome(CheckEach(p, ids, expired), [])
    decreases |ids|
  {
    if ids != [] {
      CheckIsExact(p, ids[0], expired);
      SweepRemovesOld(CheckSent(p, ids[0], expired), ids[1..], expired);
    }
  }

  // After a pass from any reachable state no window that had timed out, in the sweep or when its request was served, is
  // remembered from the counter on; no request is pending that all data buffers have answered; and in Window mode none
  // is older than the counter.
  lemma PassSettles(cfg: Config, ids: set<nat>, increment: nat, ops: seq<Op>, late: set<(nat, nat)>, expired: set<nat>,
                    expiredLater: set<nat>, k: nat)
    requires Waits(cfg)
    ensures var p := Run(cfg, ids, increment, ops);
            var q := Step(cfg, p, Pass(late, expired, expiredLater));
            && Settled(q, k, k in expiredLater || (k in expired && k in p.rb.requests && Open(cfg, p, k)))
            && (cfg.mode == Window ==> OldAreToCome(q, []))
  {
    var p := Run(cfg, ids, increment, ops);
    DepthsStayExact(cfg, ids, increment, ops);
    PassIsWindowPass(cfg, p, late, expired, expiredLater);
    WindowPassSettles(cfg, p, late, expired, expiredLater, k);
    if cfg.mode == Window { WindowPassRemovesOld(cfg, p, late, expired, expiredLater); }
  }

  lemma WindowPassSettles(cfg: Config, p: Pipe, late: set<(nat, nat)>, expired: set<nat>, expiredLater: set<nat>,
                          k: nat)
    requires Waits(cfg) && AllExact(p.bufs)
    ensures Settled(WindowPass(cfg, p, late, expired, expiredLater), k,
                    k in expiredLater || (k in expired && k in p.rb.requests && Open(cfg, p, k)))
  {
    var ks := Sorted(p.rb.requests.Keys);
    var m := Midway(cfg, p, late, expired, |ks|);
    assert ks[..|ks|] == ks;
    SweepSettlesAll(m, expiredLater, k);
    if k in expired && k in p.rb.requests && Open(cfg, p, k) {
      var n :| 0 <= n < |ks| && ks[n] == k;
      ServedIsPassedBy(cfg, p, late, expired, n);
      MidwayKeepsPassedBy(cfg, p, late, expired, ks, n, |ks|);
      SweepKeepsPassedBy(m, Sorted(AllSent(m.bufs)), expiredLater, k);
    }
  }

  lemma WindowPassRemovesOld(cfg: Config, p: Pipe, late: set<(nat, nat)>, expired: set<nat>, expiredLater: set<nat>)
    requires cfg.mode == Window
    ensures OldAreToCome(WindowPass(cfg, p, late, expired, expiredLater), [])
  {
    var ks := Sorted(p.rb.requests.Keys);
    ServingRemovesOld(cfg, p, p.rb.requests, ks, late, expired);
    var m := ServeEach(cfg, p, p.rb.requests, ks, late, expired);
    SweepRemovesOld(m, Sorted(AllSent(m.bufs)), expiredLater);
  }
}
