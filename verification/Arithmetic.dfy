/** Division with remainder, and powers of 256. */
module Arithmetic {
  function Power256(n: nat): (p: nat)
    ensures p > 0
  {
    if n == 0 then 1 else 256 * Power256(n - 1)
  }

  lemma MultipleIsZeroOrFar(d: int, z: int)
    requires d > 0
    ensures z == 0 || d * z >= d || d * z <= -d
  {
    assert z >= 1 ==> d * z >= d * 1;
    assert z <= -1 ==> d * z <= d * -1;
  }

  lemma RemainderUnique(n: nat, d: nat, q: int, r: nat)
    requires d > 0 && n == d * q + r && r < d
    ensures n % d == r
  {
    var q' := n / d;
    assert d * (q' - q) == r - n % d;
    MultipleIsZeroOrFar(d, q' - q);
  }

  lemma QuotientUnique(n: nat, d: nat, q: nat, r: nat)
    requires d > 0 && n == d * q + r && r < d
    ensures n / d == q
  {
    assert d * (n / d - q) == r - n % d;
    MultipleIsZeroOrFar(d, n / d - q);
  }

  lemma MultipleHasNoRemainder(d: nat, q: nat)
    requires d > 0
    ensures (d * q) % d == 0
  {
    RemainderUnique(d * q, d, q, 0);
  }

  lemma RemainderOfSum(n: nat, d: nat)
    requires d > 0 && n >= d
    ensures (n - d) % d == n % d
  {
    var q, r := n / d, n % d;
    assert n == d * q + r;
    assert n - d == d * (q - 1) + r;
    RemainderUnique(n - d, d, q - 1, r);
  }

  lemma SmallRemainder(n: nat, d: nat)
    requires d > 0
    ensures n < d ==> n % d == n
  {
    if n < d {
      RemainderUnique(n, d, 0, n);
    }
  }

  lemma RemainderIsBelow(n: nat, d: nat)
    requires d > 0
    ensures n % d < d
  {
  }

  lemma MultipleOf(n: nat, d: nat) returns (q: nat)
    requires d > 0 && n % d == 0
    ensures n == d * q
  {
    q := n / d;
  }

  lemma Difference(d: nat, a: nat, b: nat)
    ensures d * a - d * b == d * (a - b)
  {
  }

  lemma ProductGrows(k: nat, x: nat, y: nat)
    requires x <= y
    ensures k * x <= k * y
  {
  }

  lemma ProductsApart(d: nat, a: nat, b: nat)
    ensures a > b ==> d * a >= d * b + d
    ensures a < b ==> d * b >= d * a + d
  {
    if a > b {
      ProductGrows(d, b + 1, a);
    } else if a < b {
      ProductGrows(d, a + 1, b);
    }
  }

  lemma ProductDifference(d: nat, a: nat, b: nat)
    requires d > 0 && a >= b
    ensures d * a >= d * b && (d * a - d * b) % d == 0
  {
    Difference(d, a, b);
    MultipleHasNoRemainder(d, a - b);
  }

  /** Different multiples of d are at least d apart, by a multiple of d. */
  lemma MultiplesApart(d: nat, x: nat, y: nat)
    requires d > 0 && x % d == 0 && y % d == 0
    ensures x == y || x >= y + d || y >= x + d
    ensures x >= y ==> (x - y) % d == 0
  {
    var a := MultipleOf(x, d);
    var b := MultipleOf(y, d);
    ProductsApart(d, a, b);
    if a >= b {
      ProductDifference(d, a, b);
    }
  }
}
