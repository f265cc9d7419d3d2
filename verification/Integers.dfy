/** Facts about products, Euclidean quotients and powers of two that the solver does not
    find alone. */
module Integers {
  import opened Words

  lemma MulOrder(a: int, b: int, d: int)
    requires 0 <= d
    ensures a <= b ==> a * d <= b * d
    ensures 0 < d && a < b ==> a * d < b * d
    ensures a * d < b * d ==> a < b
  {
    if a <= b {
      MulNonNeg(b - a, d);
      assert (b - a) * d == b * d - a * d;
      if a < b && 0 < d { MulNonNeg(b - a - 1, d); }
    } else {
      MulNonNeg(a - b, d);
      assert (a - b) * d == a * d - b * d;
    }
  }

  lemma MulNonNeg(a: int, b: int)
    requires 0 <= a && 0 <= b
    ensures 0 <= a * b
    ensures 0 < a && 0 < b ==> 0 < a * b
  {
  }

  lemma DivUnique(n: int, d: int, q: int)
    requires 0 < d && q * d <= n < q * d + d
    ensures n / d == q
  {
    var k := n / d;
    assert k * d <= n < k * d + d;
    assert (k + 1) * d == k * d + d && (q + 1) * d == q * d + d;
    MulOrder(k, q + 1, d);
    MulOrder(q, k + 1, d);
  }

  lemma QuotientBelow(n: int, d: int, bound: int)
    requires 0 < d && n < bound * d
    ensures n / d < bound
  {
    assert n == (n / d) * d + n % d;
    MulOrder(n / d, bound, d);
  }

  lemma QuotientAtLeast(n: int, d: int, bound: int)
    requires 0 < d && bound * d <= n
    ensures bound <= n / d
  {
    assert n == (n / d) * d + n % d;
    assert (n / d + 1) * d == (n / d) * d + d;
    MulOrder(bound, n / d + 1, d);
  }

  lemma QuotientAtMost(n: int, d: int)
    requires 0 <= n && 0 < d
    ensures 0 <= n / d <= n
  {
    QuotientAtLeast(n, d, 0);
    assert n == (n / d) * d + n % d;
    MulOrder(1, d, n / d);
  }

  lemma MulAssoc(a: int, b: int, c: int)
    ensures a * b * c == a * (b * c)
  {
  }

  /** Dividing twice is dividing once by the product. */
  lemma DivDiv(n: int, a: int, b: int)
    requires 0 <= n && 0 < a && 0 < b
    ensures 0 < a * b && (n / a) / b == n / (a * b)
  {
    MulNonNeg(a, b);
    var q := n / a;
    var p := q / b;
    assert n == q * a + n % a;
    assert q == p * b + q % b;
    assert q * a == p * b * a + (q % b) * a;
    MulAssoc(p, b, a);
    MulOrder(0, q % b, a);
    MulOrder(q % b, b - 1, a);
    assert (b - 1) * a == a * b - a;
    DivUnique(n, a * b, p);
  }

  lemma {:induction false} Pow2Add(a: nat, b: nat)
    ensures Pow2(a + b) == Pow2(a) * Pow2(b)
  {
    if a > 0 {
      Pow2Add(a - 1, b);
      MulAssoc(2, Pow2(a - 1), Pow2(b));
    }
  }

  lemma {:induction false} Pow2Positive(n: nat)
    ensures 1 <= Pow2(n)
    ensures 1 <= n ==> 2 <= Pow2(n)
  {
    if n > 0 { Pow2Positive(n - 1); }
  }

  lemma Pow2Values()
    ensures Pow2(1) == 2 && Pow2(2) == 4 && Pow2(4) == 16 && Pow2(8) == 256
    ensures Pow2(16) == 65536 && Pow2(32) == TWO32
  {
    assert Pow2(4) == 16;
    Pow2Add(4, 4);
    Pow2Add(8, 8);
    Pow2Add(16, 16);
  }

  /** The numbers lo, lo+1, ..., lo+n-1. */
  ghost function Range(lo: nat, n: nat): (r: set<nat>)
    ensures forall i :: i in r <==> lo <= i < lo + n
    ensures |r| == n
  {
    if n == 0 then {} else Range(lo, n - 1) + {lo + n - 1}
  }
}
