/** Division facts the solver needs to be led through. */
module Arithmetic {
  lemma MulLe(d: nat, a: nat, b: nat)
    requires a <= b
    ensures d * a <= d * b
  {
    assert d * b == d * a + d * (b - a);
  }

  lemma QuotientUnique(d: nat, q: nat, r: nat, q1: nat, r1: nat)
    requires r < d && r1 < d && d * q + r == d * q1 + r1
    ensures q == q1 && r == r1
  {
    if q + 1 <= q1 { MulLe(d, q + 1, q1); }
    if q1 + 1 <= q { MulLe(d, q1 + 1, q); }
  }

  // Division with remainder is unique.
  lemma DivMod(x: nat, d: nat, q: nat, r: nat)
    requires r < d && x == d * q + r
    ensures x / d == q && x % d == r
  {
    var q1, r1 := x / d, x % d;
    assert x == d * q1 + r1;
    QuotientUnique(d, q, r, q1, r1);
  }

  // The multiples of inc are inc apart.
  lemma NextMultiple(inc: nat, h: nat, x: nat)
    requires inc > 0 && h % inc == 0
    ensures (h + inc) % inc == 0
    ensures x % inc == 0 && x > h ==> x >= h + inc
  {
    var a, b := h / inc, x / inc;
    assert h == inc * a;
    assert h + inc == inc * (a + 1) + 0;
    DivMod(h + inc, inc, a + 1, 0);
    if x % inc == 0 && x > h {
      assert x == inc * b;
      if b <= a { MulLe(inc, b, a); } else { MulLe(inc, a + 1, b); }
    }
  }
}
