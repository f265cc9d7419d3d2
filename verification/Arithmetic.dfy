/** 64-bit division on a machine whose divide instruction takes a 64-bit dividend
    and a 32-bit divisor (lib/arithmetic.c). */
module Arithmetic {
  import opened Integers
  import opened Words

  // ----- the narrow branch

  /** With a one-word divisor, reducing the high word first leaves a quotient that fits
      in one word, and adding back the high quotient gives the whole one. */
  lemma NarrowQuotient(n1: int, n0: int, d: int)
    requires 0 < d && 0 <= n1 && 0 <= n0 < TWO32
    ensures (TWO32 * (n1 % d) + n0) / d < TWO32
    ensures (TWO32 * n1 + n0) / d == (TWO32 * (n1 % d) + n0) / d + TWO32 * (n1 / d)
  {
    var m, h := TWO32 * (n1 % d) + n0, n1 / d;
    QuotientBelow(m, d, TWO32);
    assert n1 == h * d + n1 % d;
    assert m == (m / d) * d + m % d;
    assert (m / d + TWO32 * h) * d == (m / d) * d + TWO32 * (h * d);
    DivUnique(TWO32 * n1 + n0, d, m / d + TWO32 * h);
  }

  // ----- the wide branch

  /** Dividing by an underestimate `D` of `d` overshoots the quotient by at most one
      as soon as n * (d - D) < d * D. */
  lemma CoarseDivisor(n: int, d: int, D: int)
    requires 0 <= n && 0 < D <= d && n * (d - D) < d * D
    ensures n / d <= n / D <= n / d + 1
  {
    var q := n / d;
    assert q * d <= n < q * d + d;
    CoarseLower(n, d, D, q);
    CoarseUpper(n, d, D, q);
  }

  lemma CoarseLower(n: int, d: int, D: int, q: int)
    requires 0 < D <= d && q * d <= n && 0 <= n && n < q * d + d
    ensures q <= n / D
  {
    assert (q + 1) * d == q * d + d;
    MulOrder(0, q + 1, d);
    MulOrder(D, d, q);
    QuotientAtLeast(n, D, q);
  }

  lemma CoarseUpper(n: int, d: int, D: int, q: int)
    requires 0 < D <= d && n < q * d + d && n * (d - D) < d * D
    ensures n / D <= q + 1
  {
    assert n * d - n * D < d * D by { assert n * (d - D) == n * d - n * D; }
    assert n * D < (q * d + d) * D by { MulOrder(n, q * d + d, D); }
    assert n * d < (q * d + d) * D + d * D;
    CoarseIdentity(q, d, D);
    assert n < (q + 2) * D by { MulOrder(n, (q + 2) * D, d); }
    QuotientBelow(n, D, q + 2);
  }

  lemma CoarseIdentity(q: int, d: int, D: int)
    ensures (q * d + d) * D + d * D == ((q + 2) * D) * d
  {
  }

  /** Shifting a divisor with `s` leading zeros to the top loses nothing. */
  lemma ShiftedDivisor(d: u64, s: nat)
    requires s < 32 && TWO31 <= (d / TWO32) * Pow2(s) < TWO32
    ensures TWO31 * TWO32 <= d * Pow2(s) < TWO64
  {
    hide Pow2;
    Pow2Positive(s);
    Pow2Add(s, 32 - s);
    Pow2Values();
    MultipleBelow(d / TWO32, Pow2(s), Pow2(32 - s));
    ShiftedWords(d / TWO32, d % TWO32, Pow2(s));
    assert d == TWO32 * (d / TWO32) + d % TWO32;
  }

  /** A multiple of S below S * P is at most S * P - S. */
  lemma MultipleBelow(k: int, S: int, P: int)
    requires 0 < S && k * S < S * P
    ensures k * S <= S * P - S
  {
    assert S * P == P * S;
    MulOrder(k, P, S);
    MulOrder(k, P - 1, S);
    assert (P - 1) * S == P * S - S;
  }

  lemma ShiftedWords(d1: int, d0: int, S: int)
    requires 0 <= d0 < TWO32 && 0 < S && d1 * S <= TWO32 - S
    ensures TWO32 * (d1 * S) <= (TWO32 * d1 + d0) * S < TWO64
  {
    MulOrder(0, d0, S);
    MulOrder(d0, TWO32, S);
    assert (TWO32 * d1 + d0) * S == TWO32 * (d1 * S) + d0 * S;
  }

  /** Keeping the 32 leading bits of a divisor with `s` leading zeros: what the hardware
      divides by is the divisor without its low 32-s bits. */
  lemma TruncatedDivisor(d: u64, s: nat)
    requires s < 32 && TWO31 <= (d / TWO32) * Pow2(s) < TWO32
    ensures 2 <= Pow2(32 - s)
    ensures (d * Pow2(s)) / TWO32 == d / Pow2(32 - s)
    ensures TWO31 <= d / Pow2(32 - s) < TWO32
  {
    var S, P := Pow2(s), Pow2(32 - s);
    Pow2Positive(32 - s);
    Pow2Positive(s);
    ShiftedDivisor(d, s);
    var x := d * S;
    assert x / TWO32 == d / P by {
      assert S * P == TWO32 by { Pow2Add(s, 32 - s); Pow2Values(); }
      DivDiv(x, S, P);
      DivUnique(x, S, d);
    }
  }

  /** The bound behind the estimate: with P = 2^(32-s) and v the truncated divisor,
      n (d - vP) < 2^64 (P - 1) <= 2^62 P^2 <= d * vP. */
  lemma EstimateGap(n: u64, d: u64, v: int, P: int)
    requires TWO31 <= v && 2 <= P && v * P <= d <= v * P + P - 1
    ensures 0 < v * P && n * (d - v * P) < d * (v * P)
  {
    var D := v * P;
    MulOrder(TWO31, v, P);
    GapBelow(n, d - D, P);
    GapAbove(d, D, P);
  }

  lemma GapBelow(n: u64, e: int, P: int)
    requires 0 <= e <= P - 1 && 2 <= P
    ensures n * e < TWO64 * (P - 1)
  {
    assert n * e <= n * (P - 1) by { MulOrder(e, P - 1, n); }
    MulOrder(n, TWO64, P - 1);
  }

  lemma GapAbove(d: int, D: int, P: int)
    requires 2 <= P && TWO31 * P <= D <= d
    ensures TWO64 * (P - 1) <= d * D
  {
    var E := TWO31 * P;
    assert E * E <= E * D by { MulOrder(E, D, E); }
    assert E * D <= d * D by { MulOrder(E, d, D); }
    SquareBound(P);
    assert E * E == (TWO31 * TWO31) * (P * P);
  }

  lemma SquareBound(P: int)
    ensures 4 * (P - 1) <= P * P
  {
    assert (P - 2) * (P - 2) == P * P - 4 * P + 4;
    MulSquare(P - 2);
  }

  lemma MulSquare(x: int)
    ensures 0 <= x * x
  {
    if x >= 0 { MulNonNeg(x, x); } else { MulNonNeg(-x, -x); }
  }

  /** The quotient estimate of the wide branch is the true quotient or one more than it,
      and the hardware divide that produces it does not trap. */
  lemma EstimateWithinOne(n: u64, d: u64, s: nat, v: int)
    requires s < 32 && TWO31 <= (d / TWO32) * Pow2(s) < TWO32
    requires v == (d * Pow2(s)) / TWO32
    ensures TWO31 <= v < TWO32 && (n / 2) / v < TWO32
    ensures 1 <= Pow2(31 - s)
    ensures n / d <= ((n / 2) / v) / Pow2(31 - s) <= n / d + 1
  {
    TruncatedDivisor(d, s);
    var P, H := Pow2(32 - s), Pow2(31 - s);
    assert P == 2 * H;
    QuotientBelow(n / 2, v, TWO32);
    Bracket(d, P);
    EstimateIsCoarse(n, v, H);
    EstimateGap(n, d, v, P);
    CoarseDivisor(n, d, v * P);
  }

  lemma Bracket(d: int, P: int)
    requires P > 0
    ensures (d / P) * P <= d <= (d / P) * P + P - 1
  {
    assert d == (d / P) * P + d % P;
  }

  /** Halving, dividing by `v` and shifting is one division by 2 H v. */
  lemma EstimateIsCoarse(n: int, v: int, H: int)
    requires 0 <= n && 0 < v && 0 < H
    ensures 0 < v * (2 * H) && ((n / 2) / v) / H == n / (v * (2 * H))
  {
    DivDiv(n / 2, v, H);
    DivDiv(n, 2, v * H);
    assert 2 * (v * H) == v * (2 * H);
  }

  /** One comparison repairs an estimate that is at most one too large; no product wraps. */
  lemma CorrectionStep(n: u64, d: u64, q: int)
    requires 0 < d <= n && n / d <= q <= n / d + 1
    ensures 1 <= q && 0 <= (q - 1) * d <= n
    ensures (if n - (q - 1) * d < d then q - 1 else q) == n / d
  {
    var k := n / d;
    assert n == k * d + n % d;
    QuotientAtLeast(n, d, 1);
    assert (k - 1) * d == k * d - d;
    MulNonNeg(k - 1, d);
  }

  // ----- the routines

  /** The DIVL instruction: its precondition is exactly the absence of a divide error. */
  method Divl(n: u64, d: u32) returns (q: u32)
    requires d != 0 && n / d < TWO32
    ensures q == n / d
  {
    q := n / d;
  }

  /** Number of leading zero bits: the shift that brings the top set bit to bit 31. */
  method Nlz(x0: u32) returns (n: nat)
    requires x0 != 0
    ensures n < 32 && TWO31 <= x0 * Pow2(n) < TWO32
  {
    Pow2Values();
    var x := x0;
    n := 0;
    n, x := ShiftIfSmall(x0, n, x, 0x0000_FFFF, 16, 0x1_0000);
    n, x := ShiftIfSmall(x0, n, x, 0x00FF_FFFF, 8, 0x100);
    n, x := ShiftIfSmall(x0, n, x, 0x0FFF_FFFF, 4, 0x10);
    n, x := ShiftIfSmall(x0, n, x, 0x3FFF_FFFF, 2, 4);
    n, x := ShiftIfSmall(x0, n, x, 0x7FFF_FFFF, 1, 2);
  }

  /** One step of the search: when `x` is at most `limit`, that is when its top `k` bits
      are clear, counts them and shifts them out; no set bit is lost. */
  method ShiftIfSmall(ghost x0: u32, n: nat, x: u32, limit: u32, k: nat, f: nat)
    returns (n': nat, x': u32)
    requires f == Pow2(k) && (limit + 1) * f == TWO32
    requires x == x0 * Pow2(n)
    ensures n' == (if x <= limit then n + k else n)
    ensures x' == (if x <= limit then x * f else x)
    ensures x' == x0 * Pow2(n')
  {
    if x <= limit {
      Pow2Add(n, k);
      MulAssoc(x0, Pow2(n), Pow2(k));
      MulOrder(x, limit, f);
      Pow2Positive(k);
      assert (limit + 1) * f == limit * f + f;
      n', x' := n + k, ToU32(x * f);
    } else {
      n', x' := n, x;
    }
  }

  /** Unsigned 64-bit division is exact for every nonzero divisor. */
  method Udiv64(n: u64, d: u64) returns (q: u64)
    requires d != 0
    ensures q == n / d
  {
    if d / TWO32 == 0 {
      q := UdivNarrow(n, ToU32(d));
    } else if n < d {
      DivUnique(n, d, 0);
      q := 0;
    } else {
      q := UdivWide(n, d);
    }
  }

  /** Divisor of one word: schoolbook division with the high word reduced first. */
  method UdivNarrow(n: u64, d0: u32) returns (q: u64)
    requires d0 != 0
    ensures q == n / d0
  {
    var b := TWO32;
    var n1: u32, n0: u32 := ToU32(n / TWO32), ToU32(n);
    NarrowQuotient(n1, n0, d0);
    QuotientAtMost(n, d0);
    QuotientAtMost(n1, d0);
    ghost var m := b * (n1 % d0) + n0;
    assert 0 <= m < TWO64;
    var low := Divl(ToU64(ToU64(b * (n1 % d0)) + n0), d0);
    assert low + b * (n1 / d0) == n / d0;
    q := ToU64(low + ToU64(b * (n1 / d0)));
  }

  /** Divisor of two words: one hardware division, a shift and a correction. */
  method UdivWide(n: u64, d: u64) returns (q: u64)
    requires TWO32 <= d <= n
    ensures q == n / d
  {
    var d1: u32 := ToU32(d / TWO32);
    var s := Nlz(d1);
    ShiftedDivisor(d, s);
    ghost var v := (d * Pow2(s)) / TWO32;
    EstimateWithinOne(n, d, s, v);
    var e := Divl(n / 2, ToU32(ToU64(d * Pow2(s)) / TWO32));
    q := e / Pow2(31 - s);
    CorrectionStep(n, d, q);
    q := if ToU64(n - ToU64(ToU64(q - 1) * d)) < d then q - 1 else q;
  }

  /** The unsigned remainder is returned in 32 bits: it is the true remainder exactly
      when that remainder fits. */
  method Umod64(n: u64, d: u64) returns (r: u32)
    requires d != 0
    ensures r == (n % d) % TWO32
    ensures r == n % d <==> n % d < TWO32
  {
    var q := Udiv64(n, d);
    assert n == d * q + n % d;
    assert 0 <= d * q by { QuotientAtMost(n, d); }
    r := ToU32(ToU64(n - ToU64(d * q)));
  }

  /** Quotient of C99 section 6.5.5: the algebraic quotient with its fraction discarded. */
  function TruncatedQuotient(n: int, d: int): int
    requires d != 0
  {
    var q := Abs(n) / Abs(d);
    if (n < 0) == (d < 0) then q else -q
  }

  function Abs(x: int): nat {
    if x < 0 then -x else x
  }

  /** Signed division truncates toward zero, with the one exception whose quotient
      is not representable. */
  method Sdiv64(n: i64, d: i64) returns (q: i64)
    requires d != 0
    ensures q == TruncatedQuotient(n, d) <==> !(n == -TWO63 && d == -1)
    ensures q == ToI64(TruncatedQuotient(n, d))
  {
    var nAbs: u64 := if n >= 0 then n else ToU64(0 - ToU64(n));
    var dAbs: u64 := if d >= 0 then d else ToU64(0 - ToU64(d));
    var qAbs := Udiv64(nAbs, dAbs);
    SignedQuotientFits(n, d);
    q := if (n < 0) == (d < 0) then ToI64(qAbs) else ToI64(0 - ToI64(qAbs));
  }

  lemma SignedQuotientFits(n: i64, d: i64)
    requires d != 0
    ensures Abs(n) / Abs(d) <= TWO63
    ensures TruncatedQuotient(n, d) == TWO63 <==> n == -TWO63 && d == -1
  {
    QuotientAtMost(Abs(n), Abs(d));
    if Abs(d) >= 2 {
      QuotientBelow(Abs(n), Abs(d), TWO63);
    }
  }

  /** Remainder with the sign of the dividend, as C99 defines it from the truncated quotient. */
  function TruncatedRemainder(n: int, d: int): int
    requires d != 0
  {
    n - d * TruncatedQuotient(n, d)
  }

  lemma SignedProducts(b: int, k: int)
    ensures (-b) * k == -(b * k) && b * (-k) == -(b * k) && (-b) * (-k) == b * k
  {
  }

  lemma RemainderMagnitude(n: int, d: int)
    requires d != 0
    ensures Abs(TruncatedRemainder(n, d)) == Abs(n) % Abs(d) <= Abs(n)
    ensures n < 0 ==> TruncatedRemainder(n, d) <= 0
    ensures n >= 0 ==> TruncatedRemainder(n, d) >= 0
  {
    var a, b := Abs(n), Abs(d);
    var k: int := a / b;
    assert a == b * k + a % b;
    QuotientAtLeast(a, b, 0);
    MulNonNeg(b, k);
    SignedProducts(b, k);
  }

  /** The signed remainder is returned in 32 bits: it is exact exactly when it fits.
      The overflowing quotient of the most negative dividend by -1 still gives remainder 0. */
  method Smod64(n: i64, d: i64) returns (r: i32)
    requires d != 0
    ensures r == ToI32(TruncatedRemainder(n, d))
    ensures r == TruncatedRemainder(n, d) <==> -TWO31 <= TruncatedRemainder(n, d) < TWO31
  {
    var q := Sdiv64(n, d);
    RemainderMagnitude(n, d);
    SignedQuotientFits(n, d);
    r := ToI32(ToI64(n - ToI64(d * q)));
  }

  /** 2^32 mod (2^32 + 1) is 2^32 and comes out as 0; 2^31 mod 2^32 is 2^31 and comes out negative. */
  method RemaindersCutOff() returns (u: u32, s: i32)
    ensures TWO32 % (TWO32 + 1) == TWO32 && u == 0
    ensures TruncatedRemainder(TWO31, TWO32) == TWO31 && s == -TWO31
  {
    u := Umod64(TWO32, TWO32 + 1);
    s := Smod64(TWO31, TWO32);
  }
}
