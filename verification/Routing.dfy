/** DataSenderManager::calcDest_ (artdaq/DAQrate/DataSenderManager.cc:142-168), without a routing manager:
    the destination of a sequence ID is found by stepping through the enabled destinations. */
module Routing {
  import opened Arithmetic
  import opened Ordered

  // TableReceiver::ROUTING_FAILED
  const ROUTING_FAILED: int := -1111

  // x % n, by repeated subtraction.
  function Residue(x: nat, n: nat): (r: nat)
    requires n > 0
    ensures r < n
  {
    if x < n then x else Residue(x - n, n)
  }

  lemma {:induction false} ResidueIsMod(x: nat, n: nat)
    requires n > 0
    ensures Residue(x, n) == x % n
    decreases x
  {
    if x < n {
      DivMod(x, n, 0, x);
    } else {
      ResidueIsMod(x - n, n);
      assert x - n == n * ((x - n) / n) + (x - n) % n;
      DivMod(x, n, (x - n) / n + 1, (x - n) % n);
    }
  }

  // The destination of a sequence ID: its residue counts the steps through the ordered destinations.
  function Destination(order: seq<nat>, sequenceId: nat): nat
    requires order != []
  {
    order[Residue(sequenceId, |order|)]
  }

  method CalcDest(enabled: set<nat>, sequenceId: nat) returns (dest: int)
    ensures enabled == {} ==> dest == ROUTING_FAILED
    ensures enabled != {} ==> dest == Destination(Sorted(enabled), sequenceId)
  {
    if enabled == {} {
      return ROUTING_FAILED;
    }
    var order := InOrder(enabled);
    if |enabled| == 1 {
      return order[0];
    }
    ResidueIsMod(sequenceId, |enabled|);
    var index := sequenceId % |enabled|;
    var it := 0;
    while index > 0
      invariant 0 <= index
      invariant it + index == Residue(sequenceId, |enabled|)
    {
      it := it + 1;
      if it == |order| {
        it := 0;
      }
      index := index - 1;
    }
    dest := order[it];
  }

  // Senders that list the same destinations agree on every route, however each came by its list.
  lemma SendersAgree(mine: seq<nat>, theirs: seq<nat>, sequenceId: nat)
    requires Increasing(mine) && Increasing(theirs) && mine != []
    requires forall d :: d in mine <==> d in theirs
    ensures theirs != [] && Destination(mine, sequenceId) == Destination(theirs, sequenceId)
  {
    IncreasingIsUnique(mine, theirs);
  }

  function Lower(s: set<nat>, x: nat): set<nat> {
    set d | d in s && d < x
  }

  // Destinations count from the least: as many lie below the one chosen as the remainder says.
  lemma DestinationIsByRank(enabled: set<nat>, sequenceId: nat)
    requires enabled != {}
    ensures var dest := Destination(Sorted(enabled), sequenceId);
            dest in enabled && |Lower(enabled, dest)| == sequenceId % |enabled|
  {
    var order := Sorted(enabled);
    var i := Residue(sequenceId, |order|);
    ResidueIsMod(sequenceId, |order|);
    assert order[i] in order;
    Below(order, enabled, i);
    ListSize(order[..i], Lower(enabled, order[i]));
  }

  lemma Below(order: seq<nat>, enabled: set<nat>, i: nat)
    requires Lists(order, enabled) && i < |order|
    ensures Increasing(order[..i]) && forall d :: d in order[..i] <==> d in enabled && d < order[i]
  {
    forall d | d in enabled && d < order[i] ensures d in order[..i] {
      var j :| 0 <= j < |order| && order[j] == d;
      assert j < i;
      assert order[..i][j] == d;
    }
  }

  lemma ListSize(s: seq<nat>, all: set<nat>)
    requires Increasing(s) && forall d :: d in s <==> d in all
    ensures |all| == |s|
  {
    IncreasingIsUnique(Sorted(all), s);
  }

  // How many of the IDs first, first + 1, ..., first + n - 1 go to dest.
  function Share(order: seq<nat>, first: nat, n: nat, dest: nat): nat
    requires order != []
  {
    if n == 0 then 0
    else Share(order, first, n - 1, dest) + if Destination(order, first + n - 1) == dest then 1 else 0
  }

  lemma {:induction false} ShareSplits(order: seq<nat>, first: nat, n: nat, m: nat, dest: nat)
    requires order != []
    ensures Share(order, first, n + m, dest) == Share(order, first, n, dest) + Share(order, first + n, m, dest)
  {
    if m > 0 {
      ShareSplits(order, first, n, m - 1, dest);
      assert n + m - 1 == n + (m - 1);
    }
  }

  // Two IDs less than one round apart never share a residue.
  lemma {:induction false} NearbyResiduesDiffer(a: nat, b: nat, n: nat)
    requires a < b < a + n
    ensures Residue(a, n) != Residue(b, n)
    decreases a
  {
    if a >= n { NearbyResiduesDiffer(a - n, b - n, n); }
    else if b >= n { assert Residue(b, n) == b - n; }
  }

  lemma {:induction false} ShareOfPartialRound(order: seq<nat>, first: nat, n: nat, dest: nat)
    requires Increasing(order) && 0 < |order| && n <= |order|
    ensures Share(order, first, n, dest) <= 1
    ensures (exists k :: first <= k < first + n && Destination(order, k) == dest) <==> Share(order, first, n, dest) == 1
  {
    if n > 0 {
      ShareOfPartialRound(order, first, n - 1, dest);
      var last := first + n - 1;
      if Destination(order, last) == dest {
        forall k | first <= k < last ensures Destination(order, k) != dest {
          NearbyResiduesDiffer(k, last, |order|);
        }
      }
    }
  }

  // Some ID of every round has a given residue.
  lemma {:induction false} RoundHits(first: nat, i: nat, n: nat) returns (k: nat)
    requires i < n
    ensures first <= k < first + n && Residue(k, n) == i
    decreases first
  {
    if first >= n {
      k := RoundHits(first - n, i, n);
      k := k + n;
    } else {
      k := if i >= first then i else i + n;
    }
  }

  // Any |order| consecutive IDs reach each destination exactly once.
  lemma RoundIsFair(order: seq<nat>, first: nat, dest: nat)
    requires Increasing(order) && dest in order
    ensures Share(order, first, |order|, dest) == 1
  {
    var i :| 0 <= i < |order| && order[i] == dest;
    var k := RoundHits(first, i, |order|);
    ShareOfPartialRound(order, first, |order|, dest);
    assert Destination(order, k) == dest;
  }

  lemma OneRoundMore(rounds: nat, n: nat)
    requires rounds > 0
    ensures rounds * n == (rounds - 1) * n + n && (rounds - 1) * n >= 0
  {
  }

  // Whole rounds load every destination equally.
  lemma {:induction false} RoundsAreEqual(order: seq<nat>, first: nat, rounds: nat, dest: nat)
    requires Increasing(order) && dest in order
    ensures Share(order, first, rounds * |order|, dest) == rounds
  {
    if rounds > 0 {
      var before := (rounds - 1) * |order|;
      RoundsAreEqual(order, first, rounds - 1, dest);
      OneRoundMore(rounds, |order|);
      ShareSplits(order, first, before, |order|, dest);
      RoundIsFair(order, first + before, dest);
    }
  }

  // Over any range of consecutive IDs the loads of two destinations differ by at most one.
  lemma {:induction false} LoadsDifferByAtMostOne(order: seq<nat>, first: nat, n: nat, d1: nat, d2: nat)
    requires Increasing(order) && d1 in order && d2 in order
    ensures -1 <= Share(order, first, n, d1) - Share(order, first, n, d2) <= 1
    decreases n
  {
    var d := |order|;
    if n <= d {
      ShareOfPartialRound(order, first, n, d1);
      ShareOfPartialRound(order, first, n, d2);
    } else {
      ShareSplits(order, first, d, n - d, d1);
      ShareSplits(order, first, d, n - d, d2);
      RoundIsFair(order, first, d1);
      RoundIsFair(order, first, d2);
      LoadsDifferByAtMostOne(order, first + d, n - d, d1, d2);
    }
  }
}
