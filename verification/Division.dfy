/** 64-bit division built from a 32-bit divide instruction (pintos/src/lib/arithmetic.c).
    Machine words are integers with explicit bounds; every C operation that can wrap is
    written with `Wrap64` or `Wrap32`. */
module Division {
  import opened Basics

  type Uint32 = x: int | 0 <= x < 0x1_0000_0000
  type Uint64 = x: int | 0 <= x < 0x1_0000_0000_0000_0000
  type Int64 = x: int | -0x8000_0000_0000_0000 <= x < 0x8000_0000_0000_0000
  type Int32 = x: int | -0x8000_0000 <= x < 0x8000_0000

  function Wrap64(x: int): Uint64 { x % 0x1_0000_0000_0000_0000 }
  function Wrap32(x: int): Uint32 { x % 0x1_0000_0000 }
  function Signed64(x: int): Int64 {
    var u := x % 0x1_0000_0000_0000_0000;
    if u < 0x8000_0000_0000_0000 then u else u - 0x1_0000_0000_0000_0000
  }
  function Signed32(x: int): Int32 { var u := x % 0x1_0000_0000; if u < 0x8000_0000 then u else u - 0x1_0000_0000 }

  lemma {:induction false} Pow2Add(a: nat, b: nat)
    ensures Pow2(a + b) == Pow2(a) * Pow2(b)
  {
    if a != 0 {
      Pow2Add(a - 1, b);
      assert Pow2(a + b) == 2 * Pow2(a - 1 + b);
    }
  }

  lemma Pow2Values()
    ensures Pow2(1) == 2 && Pow2(2) == 4 && Pow2(4) == 16 && Pow2(8) == 256
    ensures Pow2(16) == 0x1_0000 && Pow2(31) == 0x8000_0000 && Pow2(32) == 0x1_0000_0000
  {
    assert Pow2(4) == 16;
    Pow2Add(4, 4);
    Pow2Add(8, 8);
    Pow2Add(16, 16);
    assert Pow2(32) == 2 * Pow2(31);
  }

  /** Euclidean division is the only quotient that leaves a small remainder. */
  lemma QuotientUnique(n: int, d: int, q: int)
    requires d > 0 && q * d <= n < (q + 1) * d
    ensures n / d == q
  {
    var r := n - q * d;
    var q' := n / d;
    assert n == q' * d + n % d;
    if q' > q {
      MulMono(d, q + 1, q');
    } else if q' < q {
      MulMono(d, q' + 1, q);
    }
  }

  lemma MulStrict(d: int, a: int, b: int)
    requires d > 0 && a < b
    ensures a * d < b * d
  {
  }

  lemma MulAssoc(a: int, b: int, c: int)
    ensures (a * b) * c == a * (b * c)
  {
  }

  /** The DIVL instruction: it traps unless the quotient fits in 32 bits, so that is its
      precondition. */
  function Divl(n: Uint64, d: Uint32): (q: Uint32)
    requires d != 0 && n / d < 0x1_0000_0000
  {
    n / d
  }

  /** x << n without a word limit. */
  function Shl(x: nat, n: nat): (r: nat)
    ensures r >= x
  {
    if n == 0 then x else 2 * Shl(x, n - 1)
  }

  lemma {:induction false} ShlIsMul(x: nat, n: nat)
    ensures Shl(x, n) == x * Pow2(n)
  {
    if n != 0 {
      ShlIsMul(x, n - 1);
    }
  }

  lemma {:induction false} ShlShl(x: nat, a: nat, b: nat)
    ensures Shl(Shl(x, a), b) == Shl(x, a + b)
  {
    if b != 0 {
      ShlShl(x, a, b - 1);
    }
  }

  lemma {:induction false} ShlStrict(x: nat, y: nat, n: nat)
    requires x < y
    ensures Shl(x, n) < Shl(y, n)
  {
    if n != 0 {
      ShlStrict(x, y, n - 1);
    }
  }

  /** One test of `nlz`: when x is below 2^(32-k), shifting it left by k loses nothing. */
  method NlzTest(ghost x0: Uint32, x: Uint32, n: nat, k: nat, ghost m: nat, limit: Uint32)
    returns (x': Uint32, n': nat)
    requires x0 != 0 && x == Shl(x0, n) && m == Pow2(k) && (limit + 1) * m == 0x1_0000_0000
    ensures x' == Shl(x0, n') && n <= n' <= n + k
    ensures x' == if x <= limit then x * m else x
  {
    x', n' := x, n;
    if x <= limit {
      ShlIsMul(limit + 1, k);
      ShlIsMul(x, k);
      ShlStrict(x, limit + 1, k);
      ShlShl(x0, n, k);
      n' := n + k;
      x' := Wrap32(Shl(x, k));
    }
  }

  /** `nlz`: n leading zeros means that shifting by n puts the top bit in place. */
  method Nlz(x0: Uint32) returns (n: nat)
    requires x0 != 0
    ensures n < 32 && 0x8000_0000 <= x0 * Pow2(n) < 0x1_0000_0000
  {
    Pow2Values();
    var x: Uint32;
    x, n := NlzTest(x0, x0, 0, 16, 0x1_0000, 0x0000_FFFF);
    x, n := NlzTest(x0, x, n, 8, 256, 0x00FF_FFFF);
    x, n := NlzTest(x0, x, n, 4, 16, 0x0FFF_FFFF);
    x, n := NlzTest(x0, x, n, 2, 4, 0x3FFF_FFFF);
    x, n := NlzTest(x0, x, n, 1, 2, 0x7FFF_FFFF);
    ShlIsMul(x0, n);
  }

  /** The small-divisor branch: dividing the high word first leaves a DIVL that cannot trap. */
  lemma SmallDivisor(n: Uint64, d: Uint32)
    requires d != 0
    ensures var m := 0x1_0000_0000 * (n / 0x1_0000_0000 % d) + n % 0x1_0000_0000;
            && m < 0x1_0000_0000_0000_0000 && m / d < 0x1_0000_0000
            && m / d + 0x1_0000_0000 * (n / 0x1_0000_0000 / d) == n / d
  {
    var n1, n0 := n / 0x1_0000_0000, n % 0x1_0000_0000;
    var q1, r1 := n1 / d, n1 % d;
    var m := 0x1_0000_0000 * r1 + n0;
    assert m < 0x1_0000_0000 * d;
    var q0 := m / d;
    DivBounds(m, d);
    if q0 >= 0x1_0000_0000 {
      MulMono(d, 0x1_0000_0000, q0);
    }
    assert n == 0x1_0000_0000 * (q1 * d + r1) + n0;
    assert (q0 + 0x1_0000_0000 * q1) * d == q0 * d + 0x1_0000_0000 * (q1 * d);
    assert (q0 + 0x1_0000_0000 * q1 + 1) * d == (q0 + 1) * d + 0x1_0000_0000 * (q1 * d);
    QuotientUnique(n, d, q0 + 0x1_0000_0000 * q1);
  }

  lemma DivBounds(n: int, d: int)
    requires d > 0
    ensures (n / d) * d <= n < (n / d + 1) * d
  {
    assert n == d * (n / d) + n % d;
  }

  /** A power of two e with d1 * e < 2^32 leaves room for a low word as well. */
  lemma ShiftedBelow(d1: nat, e: nat, g: nat, d0: nat)
    requires e > 0 && e * g == 0x1_0000_0000 && d1 * e < 0x1_0000_0000 && d0 < 0x1_0000_0000
    ensures (0x1_0000_0000 * d1 + d0) * e < 0x1_0000_0000_0000_0000
  {
    if d1 >= g {
      MulMono(e, g, d1);
    }
    MulMono(e, d1 + 1, g);
    MulStrict(e, 0x1_0000_0000 * d1 + d0, 0x1_0000_0000 * (d1 + 1));
    assert (0x1_0000_0000 * (d1 + 1)) * e == 0x1_0000_0000 * ((d1 + 1) * e);
  }

  /** Splitting the normalised divisor: with e = 2^s and f = 2^(31-s), shifting d left by s
      loses nothing and its high word v has d = 2*f*v + t with t < 2*f. */
  lemma HighWord(d: Uint64, e: nat, f: nat, v: nat)
    requires e > 0 && f > 0 && e * f == 0x8000_0000
    requires 0x8000_0000 <= (d / 0x1_0000_0000) * e < 0x1_0000_0000
    requires v == d * e / 0x1_0000_0000
    ensures d * e < 0x1_0000_0000_0000_0000 && 0x8000_0000 <= v < 0x1_0000_0000
    ensures 0x8000_0000 * f <= v * f && 2 * (v * f) <= d < 2 * (v * f) + 2 * f
  {
    var d1, d0 := d / 0x1_0000_0000, d % 0x1_0000_0000;
    ShiftedBelow(d1, e, 2 * f, d0);
    assert d * e == 0x1_0000_0000 * (d1 * e) + d0 * e;
    assert d0 * e >= 0;
    HighWordScaled(d * e, f, v);
    MulAssoc(d, e, f);
    MulMono(f, 0x8000_0000, v);
  }

  lemma HighWordScaled(x: nat, f: nat, v: nat)
    requires v == x / 0x1_0000_0000 && f > 0
    ensures 0x1_0000_0000 * (v * f) <= x * f < 0x1_0000_0000 * (v * f) + 0x1_0000_0000 * f
  {
    MulMono(f, v * 0x1_0000_0000, x);
    MulStrict(f, x, (v + 1) * 0x1_0000_0000);
    assert ((v + 1) * 0x1_0000_0000) * f == 0x1_0000_0000 * (v * f) + 0x1_0000_0000 * f;
    assert (v * 0x1_0000_0000) * f == 0x1_0000_0000 * (v * f);
  }

  /** The estimate in the large-divisor branch is the quotient or one more. */
  lemma Estimate(n: Uint64, d: Uint64, f: nat, g: nat, v: nat)
    requires 0 < f && f * g == 0x1_0000_0000 && v > 0
    requires 0x8000_0000 * f <= v * f && 2 * (v * f) <= d < 2 * (v * f) + 2 * f
    ensures n / d <= n / 2 / v / f <= n / d + 1
  {
    var u, w := n / 2, v * f;
    DivDiv(u, v, f);
    EstimateScaled(n, d, f, g, w);
  }

  lemma EstimateScaled(n: Uint64, d: Uint64, f: nat, g: nat, w: nat)
    requires 0 < f && f * g == 0x1_0000_0000 && w > 0
    requires 0x8000_0000 * f <= w && 2 * w <= d < 2 * w + 2 * f
    ensures n / d <= n / 2 / w <= n / d + 1
  {
    var Q, u := n / d, n / 2;
    DivBounds(n, d);
    DivBounds(u, w);
    QuotientAtMost(n, d);
    QuotientAtMost(u, w);
    EstimateMeet(n, d, f, g, w, Q, u / w);
  }

  lemma EstimateMeet(n: Uint64, d: Uint64, f: nat, g: nat, w: nat, Q: nat, q: nat)
    requires 0 < f && f * g == 0x1_0000_0000 && w > 0
    requires 0x8000_0000 * f <= w && 2 * w <= d < 2 * w + 2 * f
    requires Q * d <= n < (Q + 1) * d && q * w <= n / 2 < (q + 1) * w
    ensures Q <= q <= Q + 1
  {
    EstimateLoss(Q, d, f, g, w, d - 2 * w);
    EstimateBounds(n, d, w, d - 2 * w, Q, q);
  }

  lemma EstimateBounds(n: nat, d: nat, w: nat, t: nat, Q: nat, q: nat)
    requires w > 0 && d == 2 * w + t && (Q + 2) * t <= d
    requires Q * d <= n < (Q + 1) * d && q * w <= n / 2 < (q + 1) * w
    ensures Q <= q <= Q + 1
  {
    if q < Q {
      MulMono(w, q + 1, Q);
      MulMono(Q, 2 * w, d);
      DoubleMul(Q, w);
    }
    if q > Q + 1 {
      MulMono(w, Q + 2, q);
      SplitMul(Q, d, w, t);
    }
  }

  lemma SplitMul(Q: nat, d: nat, w: nat, t: nat)
    requires d == 2 * w + t
    ensures (Q + 1) * d + d == 2 * ((Q + 2) * w) + (Q + 2) * t
  {
  }

  lemma DivDiv(u: nat, v: nat, f: nat)
    requires v > 0 && f > 0
    ensures v * f > 0 && u / v / f == u / (v * f)
  {
    var a := u / v;
    var q := a / f;
    DivBounds(u, v);
    DivBounds(a, f);
    assert v * f > 0 by { MulStrict(f, 0, v); }
    assert q * (v * f) == (q * f) * v;
    assert (q + 1) * (v * f) == ((q + 1) * f) * v;
    MulMono(v, q * f, a);
    MulMono(v, a + 1, (q + 1) * f);
    QuotientUnique(u, v * f, q);
  }

  /** What the estimate loses by ignoring the low bits t of d is at most one divisor. */
  lemma EstimateLoss(Q: nat, d: nat, f: nat, g: nat, w: nat, t: nat)
    requires 0 < f && f * g == 0x1_0000_0000 && 0x1_0000_0000 * f <= 2 * w && d == 2 * w + t && t < 2 * f
    requires Q * d < 0x1_0000_0000_0000_0000
    ensures (Q + 2) * t <= d
  {
    LossBound(Q, d, f, g, w);
    if f == 1 {
      MulMono(Q + 1, t, 1);
      LossSum(Q, t, Q + 1);
    } else {
      MulMono(Q + 1, t, 2 * f);
      DoubleMul(Q + 1, f);
      LossSum(Q, t, 2 * ((Q + 1) * f));
    }
  }

  lemma LossSum(Q: nat, t: nat, bound: nat)
    requires t * (Q + 1) <= bound
    ensures (Q + 2) * t <= bound + t
  {
  }

  lemma DoubleMul(a: nat, f: nat)
    ensures (2 * f) * a == 2 * (a * f)
  {
  }

  lemma LossBound(Q: nat, d: nat, f: nat, g: nat, w: nat)
    requires 0 < f && f * g == 0x1_0000_0000 && 0x1_0000_0000 * f <= 2 * w <= d
    requires Q * d < 0x1_0000_0000_0000_0000
    ensures (Q + 1) * f <= 0x1_0000_0000
  {
    MulMono(Q, 0x1_0000_0000 * f, d);
    assert (0x1_0000_0000 * f) * Q == 0x1_0000_0000 * (Q * f);
    if Q >= g {
      MulMono(f, g, Q);
    }
    MulMono(f, Q + 1, g);
  }

  /** The final correction picks the quotient out of the two candidates, without wrapping. */
  lemma Correction(n: Uint64, d: Uint64, q: int)
    requires 0 < d <= n && n / d <= q <= n / d + 1
    ensures 0 <= n - (q - 1) * d <= n && 0 <= (q - 1) * d <= n && q > 0
    ensures (if n - (q - 1) * d < d then q - 1 else q) == n / d
  {
    var Q := n / d;
    DivBounds(n, d);
    assert (Q + 1) * d == Q * d + d;
    assert (Q - 1) * d == Q * d - d;
    if Q == 0 {
      assert false;
    }
    MulMono(d, 0, Q - 1);
  }

  lemma Wrap64Id(x: int)
    requires 0 <= x < 0x1_0000_0000_0000_0000
    ensures Wrap64(x) == x
  {
  }

  /** `udiv64` is floor division for every 64-bit n and nonzero d. */
  method Udiv64(n: Uint64, d: Uint64) returns (r: Uint64)
    requires d != 0
    ensures r == n / d
  {
    if d / 0x1_0000_0000 == 0 {
      SmallDivisor(n, d);
      QuotientAtMost(n, d);
      var n1, n0 := n / 0x1_0000_0000, n % 0x1_0000_0000;
      Wrap64Id(0x1_0000_0000 * (n1 % d) + n0);
      var q0 := Divl(Wrap64(0x1_0000_0000 * (n1 % d) + n0), d);
      Wrap64Id(q0 + 0x1_0000_0000 * (n1 / d));
      r := Wrap64(q0 + 0x1_0000_0000 * (n1 / d));
    } else if n < d {
      r := 0;
      QuotientUnique(n, d, 0);
    } else {
      r := UdivLarge(n, d);
    }
  }

  /** The divisor that the large branch hands to DIVL: the high word of d << s. */
  function Normalised(d: Uint64, s: nat): Uint32 { Wrap64(d * Pow2(s)) / 0x1_0000_0000 }

  lemma NormalisedTop(d: Uint64, s: nat)
    requires s < 32 && 0x8000_0000 <= (d / 0x1_0000_0000) * Pow2(s) < 0x1_0000_0000
    ensures Pow2(s) * Pow2(31 - s) == 0x8000_0000
    ensures Normalised(d, s) == d * Pow2(s) / 0x1_0000_0000 >= 0x8000_0000
  {
    assert Pow2(s) * Pow2(31 - s) == 0x8000_0000 by { Pow2Add(s, 31 - s); Pow2Values(); }
    HighWord(d, Pow2(s), Pow2(31 - s), d * Pow2(s) / 0x1_0000_0000);
    Wrap64Id(d * Pow2(s));
  }

  /** What the large-divisor branch relies on: the estimate q is the quotient or one more and
      the correction step neither wraps nor misses. */
  lemma LargeDivisor(n: Uint64, d: Uint64, s: nat, q: nat)
    requires s < 32 && 0x8000_0000 <= (d / 0x1_0000_0000) * Pow2(s) < 0x1_0000_0000 && d <= n
    requires Normalised(d, s) > 0 && q == n / 2 / Normalised(d, s) / Pow2(31 - s)
    ensures n / d <= q <= n / d + 1 && 0 < q
    ensures 0 <= (q - 1) * d <= n
    ensures (if n - (q - 1) * d < d then q - 1 else q) == n / d
  {
    var e, f, v := Pow2(s), Pow2(31 - s), Normalised(d, s);
    NormalisedTop(d, s);
    HighWord(d, e, f, v);
    EstimateFromTop(n, d, e, f, v);
    Correction(n, d, q);
  }

  lemma EstimateFromTop(n: Uint64, d: Uint64, e: nat, f: nat, v: nat)
    requires 0 < f && e * f == 0x8000_0000 && v > 0
    requires 0x8000_0000 * f <= v * f && 2 * (v * f) <= d < 2 * (v * f) + 2 * f
    ensures n / d <= n / 2 / v / f <= n / d + 1
  {
    assert f * (2 * e) == 0x1_0000_0000;
    Estimate(n, d, f, 2 * e, v);
  }

  /** The branch of `udiv64` for divisors of 2^32 and above. */
  method UdivLarge(n: Uint64, d: Uint64) returns (r: Uint64)
    requires 0x1_0000_0000 <= d <= n
    ensures r == n / d
  {
    var s := Nlz(d / 0x1_0000_0000);
    NormalisedTop(d, s);
    HalfOverTop(n / 2, Normalised(d, s));
    var q := Shr(Divl(n / 2, Normalised(d, s)), 31 - s);
    LargeDivisor(n, d, s, q);
    r := Corrected(n, d, q, (q - 1) * d);
  }

  /** x >> k */
  function Shr(x: Uint32, k: nat): (r: Uint32)
    ensures r == x / Pow2(k)
  {
    QuotientAtMost(x, Pow2(k));
    x / Pow2(k)
  }

  /** The last line of `udiv64`, in wrapping arithmetic. */
  function Corrected(n: Uint64, d: Uint64, q: Uint32, product: int): (r: Uint64)
    ensures 0 <= product <= n && q > 0 ==> r == if n - product < d then q - 1 else q
  {
    if Wrap64(n - Wrap64(product)) < d then Wrap64(q - 1) else q
  }

  lemma QuotientAtMost(n: nat, d: nat)
    requires d > 0
    ensures 0 <= n / d <= n
  {
    if n / d > n {
      DivBounds(n, d);
      MulMono(d, n + 1, n / d);
      MulMono(n + 1, 1, d);
    }
  }

  /** A 63-bit dividend over a divisor with its top bit set has a 32-bit quotient. */
  lemma HalfOverTop(u: nat, v: nat)
    requires u < 0x8000_0000_0000_0000 && v >= 0x8000_0000
    ensures u / v < 0x1_0000_0000
  {
    DivBounds(u, v);
    if u / v >= 0x1_0000_0000 {
      MulMono(v, 0x1_0000_0000, u / v);
    }
  }

  /** Quotient truncated toward zero and the remainder that goes with it, as in section 6.5.5
      of ISO C99. */
  function TruncDiv(n: int, d: int): int
    requires d != 0
  {
    if (n < 0) == (d < 0) then Abs(n) / Abs(d) else -(Abs(n) / Abs(d))
  }

  function TruncMod(n: int, d: int): int
    requires d != 0
  {
    n - TruncDiv(n, d) * d
  }

  /** The remainder is smaller than the divisor and takes the sign of the dividend. */
  lemma TruncModSign(n: int, d: int)
    requires d != 0
    ensures TruncMod(n, d) == if n < 0 then -(Abs(n) % Abs(d)) else Abs(n) % Abs(d)
  {
    var q, r := Abs(n) / Abs(d), Abs(n) % Abs(d);
    assert Abs(n) == q * Abs(d) + r;
    assert q * Abs(d) == if d < 0 then -(q * d) else q * d by { NegMul(q, d); }
    assert TruncDiv(n, d) * d == if (n < 0) == (d < 0) then q * d else -(q * d) by { NegMul(q, d); }
  }

  lemma NegMul(q: int, d: int)
    ensures (-q) * d == -(q * d) == q * (-d)
  {
  }

  function Abs(x: int): nat { if x < 0 then -x else x }

  /** `umod64` keeps only the low 32 bits of the remainder, because it returns uint32_t. */
  method Umod64(n: Uint64, d: Uint64) returns (r: Uint32)
    requires d != 0
    ensures r == (n % d) % 0x1_0000_0000
  {
    var q := Udiv64(n, d);
    DivBounds(n, d);
    assert n % d == n - d * (n / d);
    r := LowDifference(n, d * q);
  }

  /** The low 32 bits of n - p in 64-bit arithmetic. */
  function LowDifference(n: Uint64, p: int): (r: Uint32)
    requires 0 <= p <= n
    ensures r == (n - p) % 0x1_0000_0000
  {
    Wrap32(Wrap64(n - Wrap64(p)))
  }

  /** Two's complement negation; the negation of INT64_MIN is itself. */
  function Neg64(x: int): (r: Int64)
    requires -0x8000_0000_0000_0000 <= x < 0x8000_0000_0000_0000
    ensures r == if x == -0x8000_0000_0000_0000 then x else -x
  {
    Signed64(-x)
  }

  /** `sdiv64` truncates toward zero; only INT64_MIN / -1 does not fit and wraps. */
  method Sdiv64(n: Int64, d: Int64) returns (r: Int64)
    requires d != 0
    ensures r == Signed64(TruncDiv(n, d))
    ensures r == TruncDiv(n, d) <==> !(n == -0x8000_0000_0000_0000 && d == -1)
  {
    var nAbs, dAbs := Magnitude(n), Magnitude(d);
    var qAbs := Udiv64(nAbs, dAbs);
    QuotientFits(nAbs, dAbs);
    r := WithSign((n < 0) == (d < 0), qAbs);
  }

  /** |x| as `n >= 0 ? (uint64_t) n : -(uint64_t) n` computes it. */
  function Magnitude(x: Int64): (r: Uint64)
    ensures r == Abs(x)
  {
    if x >= 0 then Wrap64(x) else Wrap64(0x1_0000_0000_0000_0000 - Wrap64(x))
  }

  function WithSign(same: bool, q: int): (r: Int64)
    requires 0 <= q <= 0x8000_0000_0000_0000
    ensures r == Signed64(if same then q else -q)
    ensures r == (if same then q else -q) <==> !(same && q == 0x8000_0000_0000_0000)
  {
    if same then Signed64(q) else Neg64(Signed64(q))
  }

  lemma QuotientFits(n: nat, d: nat)
    requires d > 0 && n <= 0x8000_0000_0000_0000
    ensures n / d <= 0x8000_0000_0000_0000
    ensures n / d == 0x8000_0000_0000_0000 <==> n == 0x8000_0000_0000_0000 && d == 1
  {
    QuotientAtMost(n, d);
    DivBounds(n, d);
    if d >= 2 {
      MulMono(n / d, 2, d);
    }
  }

  /** Wrapping to 64 bits on the way does not change the low 32 bits. */
  lemma WrapOnce(n: int, p: int)
    ensures Signed32(Signed64(n - Signed64(p))) == Signed32(n - p)
  {
    var a := Signed64(p);
    ModLow(n - a);
    ModLow(p);
    ModSub(n, a, p);
  }

  lemma ModLow(x: int)
    ensures Signed64(x) % 0x1_0000_0000 == x % 0x1_0000_0000
  {
    var k := x / 0x1_0000_0000_0000_0000;
    ModShift(x, -0x1_0000_0000 * k);
    ModShift(x, -0x1_0000_0000 * (k + 1));
  }

  lemma ModShift(x: int, k: int)
    ensures (x + 0x1_0000_0000 * k) % 0x1_0000_0000 == x % 0x1_0000_0000
  {
  }

  lemma ModSub(n: int, a: int, b: int)
    requires a % 0x1_0000_0000 == b % 0x1_0000_0000
    ensures (n - a) % 0x1_0000_0000 == (n - b) % 0x1_0000_0000
  {
    ModShift(n - a, a / 0x1_0000_0000 - b / 0x1_0000_0000);
  }

  lemma SmodLow(n: Int64, d: Int64, q: Int64)
    requires d != 0 && q == Signed64(TruncDiv(n, d))
    requires q == TruncDiv(n, d) || (n == -0x8000_0000_0000_0000 && d == -1)
    ensures Signed32(Signed64(n - Signed64(d * q))) == Signed32(TruncMod(n, d))
  {
    if q == TruncDiv(n, d) {
      assert d * q == TruncDiv(n, d) * d;
      WrapOnce(n, d * q);
    } else {
      assert TruncDiv(n, d) == 0x8000_0000_0000_0000;
    }
  }

  /** `smod64` keeps only the low 32 bits of the remainder, read as a signed int32_t. */
  method Smod64(n: Int64, d: Int64) returns (r: Int32)
    requires d != 0
    ensures r == Signed32(TruncMod(n, d))
  {
    var q := Sdiv64(n, d);
    SmodLow(n, d, q);
    r := Signed32(Signed64(n - Signed64(d * q)));
  }

  /** The documented remainder is returned for every dividend exactly when d is at most 2^32. */
  lemma UmodExactIff(d: Uint64)
    requires d != 0
    ensures (forall n: Uint64 :: (n % d) % 0x1_0000_0000 == n % d) <==> d <= 0x1_0000_0000
  {
    if d > 0x1_0000_0000 {
      var n: Uint64 := 0x1_0000_0000;
      QuotientUnique(n, d, 0);
      assert (n % d) % 0x1_0000_0000 != n % d;
    }
  }

  /** The documented signed remainder is returned for every dividend exactly when |d| is at
      most 2^31. */
  lemma SmodExactIff(d: Int64)
    requires d != 0
    ensures (forall n: Int64 :: Signed32(TruncMod(n, d)) == TruncMod(n, d)) <==> Abs(d) <= 0x8000_0000
  {
    forall n: Int64 | Abs(d) <= 0x8000_0000
      ensures Signed32(TruncMod(n, d)) == TruncMod(n, d)
    {
      TruncModSign(n, d);
    }
    if Abs(d) > 0x8000_0000 {
      var n: Int64 := 0x8000_0000;
      QuotientUnique(n, Abs(d), 0);
      TruncModSign(n, d);
      assert Signed32(TruncMod(n, d)) != TruncMod(n, d);
    }
  }
}
