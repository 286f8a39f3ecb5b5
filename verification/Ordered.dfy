/** The iteration order of std::set and std::map: the elements of a finite set, in increasing order. */
module Ordered {

  ghost predicate Increasing(s: seq<nat>) {
    forall i, j :: 0 <= i < j < |s| ==> s[i] < s[j]
  }

  ghost predicate NoRepeats(s: seq<nat>) {
    forall i, j :: 0 <= i < j < |s| ==> s[i] != s[j]
  }

  function Elements(s: seq<nat>): set<nat> {
    set x | x in s
  }

  predicate IsLeast(s: set<nat>, m: nat) {
    m in s && forall x :: x in s ==> m <= x
  }

  predicate IsGreatest(s: set<nat>, m: nat) {
    m in s && forall x :: x in s ==> x <= m
  }

  lemma {:induction false} LeastExists(s: set<nat>, bound: nat)
    requires bound in s
    ensures exists m :: IsLeast(s, m)
  {
    if y :| y in s && y < bound { LeastExists(s, y); } else { assert IsLeast(s, bound); }
  }

  lemma {:induction false} GreatestExists(s: set<nat>)
    requires s != {}
    ensures exists m :: IsGreatest(s, m)
    decreases s
  {
    var e :| e in s;
    var rest := s - {e};
    assert s == rest + {e};
    if rest == {} {
      assert IsGreatest(s, e);
    } else {
      GreatestExists(rest);
      var m :| IsGreatest(rest, m);
      assert IsGreatest(s, if m > e then m else e);
    }
  }

  // *s.begin()
  function Least(s: set<nat>): (m: nat)
    requires s != {}
    ensures IsLeast(s, m)
  {
    assert exists m :: IsLeast(s, m) by { var e :| e in s; LeastExists(s, e); }
    var m :| m in s && IsLeast(s, m);
    m
  }

  // *s.rbegin()
  function Greatest(s: set<nat>): (m: nat)
    requires s != {}
    ensures IsGreatest(s, m)
  {
    GreatestExists(s);
    var m :| m in s && IsGreatest(s, m);
    m
  }

  ghost predicate Lists(r: seq<nat>, s: set<nat>) {
    Increasing(r) && |r| == |s| && forall x :: x in r <==> x in s
  }

  lemma ListsMore(r: seq<nat>, s: set<nat>, m: nat)
    requires Lists(r, s) && forall x :: x in s ==> x < m
    ensures Lists(r + [m], s + {m})
  {
    forall i, j | 0 <= i < j < |r + [m]| ensures (r + [m])[i] < (r + [m])[j] {
      if j == |r| { assert r[i] in s; }
    }
  }

  lemma {:induction false} ListExists(s: set<nat>)
    ensures exists r :: Lists(r, s)
    decreases s
  {
    if s == {} {
      assert Lists([], s);
    } else {
      var m := Greatest(s);
      var rest := s - {m};
      assert s == rest + {m};
      ListExists(rest);
      var r :| Lists(r, rest);
      ListsMore(r, rest, m);
    }
  }

  // The elements of s from begin() to end().
  ghost function Sorted(s: set<nat>): (r: seq<nat>)
    ensures Lists(r, s)
  {
    ListExists(s);
    var r :| Lists(r, s);
    r
  }

  lemma FirstIsIn(s: seq<nat>)
    ensures s == [] || s[0] in s
  {
  }

  lemma PrefixOf<T>(s: seq<T>, i: nat)
    requires i <= |s|
    ensures forall j :: 0 <= j <= i ==> s[..i][..j] == s[..j]
    ensures forall j :: 0 <= j < i ==> s[..i][j] == s[j]
    ensures i < |s| ==> s[..i + 1][..i] == s[..i] && s[..i + 1][i] == s[i]
  {
  }

  // The last of an increasing sequence is not among those before it.
  lemma LastIsNew(ids: seq<nat>, q: nat)
    requires Increasing(ids) && ids != []
    ensures Increasing(ids[..|ids| - 1])
    ensures q in ids <==> q in ids[..|ids| - 1] || q == ids[|ids| - 1]
    ensures ids[|ids| - 1] !in ids[..|ids| - 1]
  {
    assert ids == ids[..|ids| - 1] + [ids[|ids| - 1]];
  }

  // Two increasing sequences with the same elements are the same sequence.
  lemma {:induction false} IncreasingIsUnique(a: seq<nat>, b: seq<nat>)
    requires Increasing(a) && Increasing(b)
    requires forall x :: x in a <==> x in b
    ensures a == b
  {
    if a == [] {
      FirstIsIn(b);
    } else {
      assert a[0] in b && b[0] in a;
      forall x ensures x in a[1..] <==> x in b[1..] {
        assert x in a[1..] <==> x in a && x != a[0];
        assert x in b[1..] <==> x in b && x != b[0];
      }
      IncreasingIsUnique(a[1..], b[1..]);
      assert a == [a[0]] + a[1..] && b == [b[0]] + b[1..];
    }
  }

  lemma ListIsUnique(s: set<nat>, a: seq<nat>, b: seq<nat>)
    requires Lists(a, s) && Lists(b, s)
    ensures a == b
  {
    IncreasingIsUnique(a, b);
  }

  lemma SortedFirst(s: set<nat>)
    requires s != {}
    ensures Sorted(s) == [Least(s)] + Sorted(s - {Least(s)})
  {
    var m, rest := Least(s), Sorted(s - {Least(s)});
    assert s == (s - {m}) + {m};
    forall i, j | 0 <= i < j < |[m] + rest| ensures ([m] + rest)[i] < ([m] + rest)[j] {
      if i == 0 { assert rest[j - 1] in rest; }
    }
    ListIsUnique(s, Sorted(s), [m] + rest);
  }

  // r lists the part of s below all of rest.
  ghost predicate Listed(s: set<nat>, r: seq<nat>, rest: set<nat>) {
    rest <= s && Lists(r, s - rest) && forall x, y :: x in s - rest && y in rest ==> x < y
  }

  lemma ListNext(s: set<nat>, r: seq<nat>, rest: set<nat>)
    requires rest != {} && Listed(s, r, rest)
    ensures Listed(s, r + [Least(rest)], rest - {Least(rest)})
  {
    var m := Least(rest);
    ListsMore(r, s - rest, m);
    assert s - (rest - {m}) == (s - rest) + {m};
  }

  lemma ListsBack(r: seq<nat>, s: set<nat>)
    requires r != [] && Lists(r, s)
    ensures var last := r[|r| - 1];
            last in s && Lists(r[..|r| - 1], s - {last}) && forall x :: x in s - {last} ==> x < last
  {
    var last, front := r[|r| - 1], r[..|r| - 1];
    assert r == front + [last] && last in r;
    forall x ensures x in front <==> x in s && x != last {
      assert x in r <==> x in front || x == last;
    }
  }

  lemma ListedBack(s: set<nat>, r: seq<nat>, rest: set<nat>)
    requires r != [] && Listed(s, r, rest)
    ensures var last := r[|r| - 1]; last in s && last !in rest && Listed(s, r[..|r| - 1], rest + {last})
  {
    ListsBack(r, s - rest);
    assert s - (rest + {r[|r| - 1]}) == (s - rest) - {r[|r| - 1]};
  }

  lemma ListedAll(s: set<nat>, r: seq<nat>)
    requires Listed(s, r, {})
    ensures r == Sorted(s)
  {
    assert s - {} == s;
    ListIsUnique(s, r, Sorted(s));
  }

  // Iteration from begin() to end().
  method InOrder(s: set<nat>) returns (r: seq<nat>)
    ensures r == Sorted(s)
  {
    var rest := s;
    r := [];
    assert s - rest == {};
    while rest != {}
      invariant Listed(s, r, rest)
      decreases rest
    {
      ListNext(s, r, rest);
      var m := Least(rest);
      r, rest := r + [m], rest - {m};
    }
    ListedAll(s, r);
  }
}
