// Division with a divisor that is not a constant.
module Arithmetic {
  lemma MultipleIsFar(k: int, d: int)
    requires d > 0
    ensures k >= 1 ==> k * d >= d
    ensures k <= -1 ==> k * d <= -d
  {
    if k >= 1 {
      assert k * d == (k - 1) * d + d;
    } else if k <= -1 {
      assert -(k * d) == (-k - 1) * d + d;
    }
  }

  lemma Division(x: int, d: int)
    requires d > 0
    ensures x == d * (x / d) + x % d
  {
  }

  lemma SameRemainder(d: int, q0: int, r0: int, q1: int, r1: int)
    requires 0 <= r0 < d && 0 <= r1 < d && d * q0 + r0 == d * q1 + r1
    ensures r0 == r1
  {
    assert (q1 - q0) * d == d * q1 - d * q0;
    MultipleIsFar(q1 - q0, d);
  }

  lemma NextRemainder(t: nat, d: nat)
    requires d > 0
    ensures (t + 1) % d == if t % d == d - 1 then 0 else t % d + 1
  {
    Division(t, d);
    Division(t + 1, d);
    var q, r := t / d, t % d;
    if r == d - 1 {
      assert d * (q + 1) == d * q + d;
      SameRemainder(d, q + 1, 0, (t + 1) / d, (t + 1) % d);
    } else {
      SameRemainder(d, q, r + 1, (t + 1) / d, (t + 1) % d);
    }
  }

  lemma SameQuotient(d: int, q0: int, r0: int, q1: int, r1: int)
    requires 0 <= r0 < d && 0 <= r1 < d && d * q0 + r0 == d * q1 + r1
    ensures q0 == q1
  {
    SameRemainder(d, q0, r0, q1, r1);
    assert (q1 - q0) * d == d * q1 - d * q0;
    MultipleIsFar(q1 - q0, d);
  }

  // Taking a number apart again that was put together from quotient and remainder.
  lemma DivideBack(q: nat, d: nat, r: nat)
    requires r < d
    ensures (d * q + r) / d == q && (d * q + r) % d == r
  {
    var x := d * q + r;
    Division(x, d);
    SameRemainder(d, q, r, x / d, x % d);
    SameQuotient(d, q, r, x / d, x % d);
  }

  lemma ProductGrows(d: int, q: int)
    requires d >= 2 && q >= 0
    ensures d * q >= 2 * q
  {
    assert d * q == 2 * q + (d - 2) * q;
  }

  lemma QuotientIsNatural(x: nat, d: nat)
    requires d > 0
    ensures x / d >= 0
  {
  }

  lemma QuotientIsSmaller(x: nat, d: nat)
    requires d >= 2 && x > 0
    ensures 2 * (x / d) <= x
  {
    Division(x, d);
    QuotientIsNatural(x, d);
    ProductGrows(d, x / d);
  }

  lemma BelowMultiple(q: int, r: int, d: int, p: int)
    requires 0 <= r < d
    ensures q < p <==> d * q + r < d * p
  {
    assert (p - q) * d == d * p - d * q;
    MultipleIsFar(p - q, d);
  }

  lemma SmallRemainder(x: nat, d: nat)
    requires x <= d && d > 0
    ensures x % d == if x < d then x else 0
  {
    Division(x, d);
    if x == d { SameRemainder(d, 1, 0, x / d, x % d); } else { SameRemainder(d, 0, x, x / d, x % d); }
  }
}
