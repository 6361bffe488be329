/** IEEE 754 binary64 values and correctly rounded operations, as far as the TOTP counter uses them.
    Rounding is any rounding to nearest: nothing depends on how ties are broken. */
module Float64 {
  import opened Bytes

  function Pow2(k: nat): nat {
    if k == 0 then 1 else 2 * Pow2(k - 1)
  }

  const TWO52: int := 0x10_0000_0000_0000
  const TWO53: int := 0x20_0000_0000_0000

  /** `x` is a 53-bit integer divided by a power of two. */
  ghost predicate Divided(x: real, m: int, s: nat) {
    -TWO53 < m < TWO53 && s <= 1074 && x * Pow2(s) as real == m as real
  }

  /** `x` is a 53-bit integer multiplied by a power of two. */
  ghost predicate Multiplied(x: real, m: int, s: nat) {
    -TWO53 < m < TWO53 && s <= 971 && x == m as real * Pow2(s) as real
  }

  /** The finite binary64 values. */
  ghost predicate IsDouble(x: real) {
    || (exists m: int, s: nat :: Divided(x, m, s))
    || (exists m: int, s: nat :: Multiplied(x, m, s))
  }

  function Distance(x: real, y: real): real {
    if x < y then y - x else x - y
  }

  /** `y` is a binary64 value as close to `x` as any. */
  ghost predicate Nearest(x: real, y: real) {
    IsDouble(y) && forall z :: IsDouble(z) ==> Distance(x, y) <= Distance(x, z)
  }

  /** The operations of the machine: conversion from int64, division, addition, conversion to uint64. */
  datatype Machine = Machine(ofInt: int -> real, div: (real, real) -> real, add: (real, real) -> real,
                             toUint64: real -> int)

  ghost predicate CorrectlyRounded(f: Machine) {
    && (forall n: int | -TWO63 <= n < TWO63 :: Nearest(n as real, f.ofInt(n)))
    && (forall a: real, b: real | IsDouble(a) && IsDouble(b) && b != 0.0 && Distance(0.0, a / b) <= TWO64 as real ::
          Nearest(a / b, f.div(a, b)))
    && (forall a: real, b: real | IsDouble(a) && IsDouble(b) && Distance(0.0, a + b) <= TWO64 as real ::
          Nearest(a + b, f.add(a, b)))
    && (forall x: real :: 0 <= f.toUint64(x) < TWO64 && (0.0 <= x < TWO64 as real ==> f.toUint64(x) == x.Floor))
  }

  // ------------------------------------------------------------ exact values

  lemma NearestExact(x: real, y: real)
    requires IsDouble(x) && Nearest(x, y)
    ensures y == x
  {
  }

  lemma SmallInteger(n: int)
    requires -TWO53 < n < TWO53
    ensures IsDouble(n as real)
  {
    assert Pow2(0) == 1;
    assert Divided(n as real, n, 0);
  }

  lemma Two53()
    ensures IsDouble(TWO53 as real)
  {
    assert Pow2(1) == 2 * Pow2(0) == 2;
    assert Multiplied(TWO53 as real, TWO52, 1);
  }

  /** Rounding does not cross a binary64 value. */
  lemma NearestAbove(x: real, y: real, b: real)
    requires Nearest(x, y) && IsDouble(b) && b <= x
    ensures b <= y
  {
  }

  lemma NearestBelow(x: real, y: real, b: real)
    requires Nearest(x, y) && IsDouble(b) && x <= b
    ensures y <= b
  {
  }

  /** Rounding keeps order. */
  lemma NearestMonotone(x: real, y: real, x': real, y': real)
    requires Nearest(x, y) && Nearest(x', y') && x < x'
    ensures y <= y'
  {
  }

  lemma {:induction false} Pow2Sum(a: nat, b: nat)
    ensures Pow2(a + b) == Pow2(a) * Pow2(b)
  {
    if a != 0 {
      Pow2Sum(a - 1, b);
      Twice(Pow2(a - 1), Pow2(b));
    }
  }

  lemma Twice(a: int, b: int)
    ensures 2 * (a * b) == (2 * a) * b
  {
  }

  lemma {:induction false} Pow2Mono(a: nat, b: nat)
    requires a < b
    ensures Pow2(a) < Pow2(b)
  {
    Pow2Positive(a);
    if a + 1 < b { Pow2Mono(a, b - 1); }
  }

  lemma Pow2At53()
    ensures Pow2(52) == TWO52 && Pow2(53) == TWO53
  {
    Pow2Sum(13, 13);
    Pow2Sum(26, 26);
    assert Pow2(13) == 8192;
    assert Pow2(26) == 8192 * 8192;
  }

  /** The position of the leading bit. */
  lemma {:induction false} LeadingBit(k: int) returns (j: nat)
    requires 1 <= k
    ensures Pow2(j) <= k < Pow2(j + 1)
  {
    if k == 1 {
      j := 0;
    } else {
      j := LeadingBit(k / 2);
      j := j + 1;
    }
  }

  /** A power of two that scales `k` into the top binade while `k + 1` does not leave it. */
  lemma Normalise(k: int) returns (s: nat)
    requires 0 <= k < TWO53
    ensures s <= 53 && (k + 1) * Pow2(s) <= TWO53
    ensures k == 0 ==> Pow2(s) == TWO53
    ensures k >= 1 ==> k * Pow2(s) >= TWO52
  {
    Pow2At53();
    if k == 0 {
      s := 53;
    } else {
      var j := LeadingBit(k);
      if j > 52 {
        if j > 53 { Pow2Mono(53, j); }
        assert false;
      }
      s := 52 - j;
      Pow2Sum(j, s);
      Pow2Sum(j + 1, s);
      Scale(Pow2(j), k, Pow2(s));
      Scale(k + 1, Pow2(j + 1), Pow2(s));
    }
  }

  lemma Scale(a: int, b: int, c: nat)
    requires a <= b
    ensures a * c <= b * c
  {
  }

  // ---------------------------------------------------------------- quotients

  /** One step of `1/n` below an integer, when the integer times `n` fits in 53 bits. */
  lemma JustBelow(k: int, s: nat, u: real)
    requires 1 <= k && s <= 53 && k * Pow2(s) <= TWO53 && u * Pow2(s) as real == 1.0
    ensures IsDouble(k as real - u)
  {
    Pow2Positive(s);
    var m := BelowScaled(k, Pow2(s), u);
    assert Divided(k as real - u, m, s);
  }

  lemma BelowScaled(k: int, n: int, u: real) returns (m: int)
    requires 1 <= k && 1 <= n && k * n <= TWO53 && u * n as real == 1.0
    ensures (k as real - u) * n as real == m as real && 0 <= m < TWO53
  {
    m := k * n - 1;
    Minus(k as real, u, n as real);
    Product(k, n);
    Scale(1, k, n);
  }

  lemma Minus(a: real, b: real, c: real)
    ensures (a - b) * c == a * c - b * c
  {
  }

  lemma Product(a: int, b: int)
    ensures a as real * b as real == (a * b) as real
  {
  }

  lemma Reciprocal(n: int) returns (u: real)
    requires n > 0
    ensures u > 0.0 && u * n as real == 1.0
  {
    u := 1.0 / n as real;
  }

  lemma Less(a: real, b: real, c: real)
    requires a < b && c > 0.0
    ensures a * c < b * c
  {
  }

  lemma {:induction false} Pow2Positive(s: nat)
    ensures Pow2(s) > 0
  {
    if s != 0 { Pow2Positive(s - 1); }
  }

  lemma GapExceedsHalf(k: int, p: int, m: int, n: nat)
    requires 0 <= k && 1 <= p && k * p <= m < TWO53 && n > 0
    requires k == 0 ==> n == TWO53 && p <= TWO53
    requires k >= 1 ==> k * n >= TWO52
    ensures p < 2 * n
  {
    if k >= 1 && p >= 2 * n {
      Doubled(k, n, p);
      assert false;
    }
  }

  lemma Doubled(k: nat, n: int, p: int)
    requires 2 * n <= p
    ensures 2 * (k * n) <= k * p
  {
    ScaleLeft(2 * n, p, k);
    assert k * (2 * n) == 2 * (k * n);
  }

  lemma ScaleLeft(a: int, b: int, c: nat)
    requires a <= b
    ensures c * a <= c * b
  {
  }

  /** If `1 <= d * p` and `p < 2n` then half a step `u` of `1/n` is less than `d`. */
  lemma HalfGap(d: real, p: int, n: int, u: real)
    requires 0 < p < 2 * n && d * p as real >= 1.0 && u * n as real == 1.0
    ensures d > 0.0 && u < 2.0 * d
  {
    if d <= 0.0 {
      NotPositive(d, p as real);
      assert false;
    }
    Less(p as real, 2.0 * n as real, d);
    if u >= 2.0 * d {
      NotLess(2.0 * d, u, n as real);
      assert false;
    }
  }

  lemma NotPositive(d: real, c: real)
    requires d <= 0.0 && c > 0.0
    ensures d * c <= 0.0
  {
  }

  lemma NotLess(a: real, b: real, c: real)
    requires a <= b && c > 0.0
    ensures a * c <= b * c
  {
  }

  /** The correctly rounded quotient of integers below 2^53 has the floor of the exact quotient. */
  lemma QuotientFloor(n: int, p: int, y: real)
    requires 0 <= n < TWO53 && 1 <= p <= TWO53
    requires Nearest(n as real / p as real, y)
    ensures y.Floor == n / p
  {
    var q, k := n as real / p as real, n / p;
    Quotient(n, p);
    BoundBelow(n, p, q, k);
    SmallInteger(k);
    NearestAbove(q, y, k as real);
    NotRoundedUp(n, p, k, q, y);
  }

  lemma Quotient(n: int, p: int)
    requires 0 <= n && 1 <= p
    ensures (n as real / p as real) * p as real == n as real
    ensures n / p * p <= n < (n / p + 1) * p && 0 <= n / p <= n
  {
    assert n == n / p * p + n % p;
    ScaleLeft(1, p, n / p);
  }

  lemma NotRoundedUp(n: int, p: int, k: int, q: real, y: real)
    requires 0 <= k <= n < TWO53 && 1 <= p <= TWO53 && k * p <= n < (k + 1) * p
    requires q * p as real == n as real && Nearest(q, y)
    ensures y < (k + 1) as real
  {
    var m, u := GapFor(n, p, k);
    Missing(n, p, k + 1, q);
    StaysBelow((k + 1) as real, p, q, y, m, u);
  }

  lemma GapFor(n: int, p: int, k: int) returns (m: int, u: real)
    requires 0 <= k <= n < TWO53 && 1 <= p <= TWO53 && k * p <= n
    ensures p < 2 * m && u > 0.0 && u * m as real == 1.0 && IsDouble((k + 1) as real - u)
  {
    var s := Normalise(k);
    Pow2Positive(s);
    m := Pow2(s);
    u := Reciprocal(m);
    JustBelow(k + 1, s, u);
    GapExceedsHalf(k, p, n, m);
  }

  lemma StaysBelow(b: real, p: int, q: real, y: real, m: int, u: real)
    requires 0 < p < 2 * m && u > 0.0 && u * m as real == 1.0 && IsDouble(b - u)
    requires (b - q) * p as real >= 1.0 && Nearest(q, y)
    ensures y < b
  {
    HalfGap(b - q, p, m, u);
    if y >= b {
      NotNearest(q, b, u, y);
      assert false;
    }
  }

  lemma Missing(n: int, p: int, k: int, q: real)
    requires n < k * p && q * p as real == n as real
    ensures (k as real - q) * p as real >= 1.0
  {
    Product(k, p);
    Minus(k as real, q, p as real);
  }

  /** A value between the one just below `b` and `b`, closer to the former, is not rounded past `b`. */
  lemma NotNearest(q: real, b: real, u: real, y: real)
    requires q < b <= y && 0.0 < u < 2.0 * (b - q) && IsDouble(b - u)
    ensures !Nearest(q, y)
  {
    assert Distance(q, b - u) < Distance(q, y);
  }

  lemma BoundBelow(n: int, p: int, q: real, k: int)
    requires 1 <= p && q * p as real == n as real && k * p <= n
    ensures k as real <= q
  {
    if q < k as real {
      Less(q, k as real, p as real);
      assert false;
    }
  }

  /** From 2^53 on, binary64 values are integers. */
  lemma LargeIsInteger(y: real)
    requires IsDouble(y) && y >= TWO53 as real
    ensures y.Floor as real == y
  {
    if m: int, s: nat :| Divided(y, m, s) {
      Pow2Positive(s);
      NotLess(1.0, Pow2(s) as real, y);
      assert false;
    } else {
      var m: int, s: nat :| Multiplied(y, m, s);
      Product(m, Pow2(s));
      WholeNumber(y, m * Pow2(s));
    }
  }

  lemma WholeNumber(y: real, i: int)
    requires y == i as real
    ensures y.Floor as real == y
  {
  }

  // ----------------------------------------------------------- rounding errors

  /** Some binary64 value lies within one step of `1/n` of a real between `k` and `k + 1`. */
  lemma GridPoint(x: real, k: int, s: nat) returns (z: real)
    requires 0 <= k < TWO53 && k as real <= x <= (k + 1) as real && s <= 53 && (k + 1) * Pow2(s) <= TWO53
    ensures IsDouble(z) && Distance(x, z) * Pow2(s) as real <= 1.0
  {
    Pow2Positive(s);
    var p := Pow2(s) as real;
    var m := (x * p).Floor;
    FloorScaled(x, k, Pow2(s), m);
    if m == TWO53 {
      z := x;
      TopOfGrid(x, k, Pow2(s));
    } else {
      z := Scaled(m, Pow2(s));
      assert Divided(z, m, s);
      StepBelow(x, z, p, m);
    }
  }

  lemma Scaled(m: int, n: int) returns (z: real)
    requires n > 0
    ensures z * n as real == m as real
  {
    z := m as real / n as real;
  }

  lemma FloorScaled(x: real, k: int, n: int, m: int)
    requires 0 <= k && n > 0 && k as real <= x <= (k + 1) as real && (k + 1) * n <= TWO53 && m == (x * n as real).Floor
    ensures 0 <= m <= TWO53
  {
    var b := k + 1;
    assert b as real >= 0.0 && x >= 0.0;
    NotLess(x, b as real, n as real);
    NotNegative(x, n as real);
    Product(b, n);
    InRange(x * n as real, b as real * n as real, b * n);
  }

  lemma NotNegative(a: real, b: real)
    requires a >= 0.0 && b >= 0.0
    ensures a * b >= 0.0
  {
  }

  lemma InRange(x: real, y: real, n: int)
    requires 0.0 <= x <= y && y == n as real
    ensures 0 <= x.Floor <= n
  {
  }

  /** The upper end of the grid is the integer `k + 1`. */
  lemma TopOfGrid(x: real, k: int, n: int)
    requires 0 <= k < TWO53 && n > 0 && k as real <= x <= (k + 1) as real && (k + 1) * n <= TWO53
    requires (x * n as real).Floor == TWO53
    ensures IsDouble(x)
  {
    if x < (k + 1) as real {
      Less(x, (k + 1) as real, n as real);
      Product(k + 1, n);
      assert false;
    }
    if k + 1 < TWO53 { SmallInteger(k + 1); } else { Two53(); }
  }

  lemma StepBelow(x: real, z: real, p: real, m: int)
    requires p > 0.0 && z * p == m as real && m == (x * p).Floor
    ensures Distance(x, z) * p <= 1.0
  {
    if x < z {
      Less(x, z, p);
      assert false;
    }
    Minus(x, z, p);
  }

  /** How far rounding moves a real between `k` and `k + 1`. */
  lemma RoundingError(x: real, y: real, k: int)
    requires 0 <= k < TWO53 && k as real <= x <= (k + 1) as real && Nearest(x, y)
    ensures k == 0 ==> Distance(x, y) * TWO53 as real <= 1.0
    ensures k >= 1 ==> Distance(x, y) * TWO52 as real <= k as real
  {
    var n := WithinStep(x, y, k);
    if k >= 1 { ErrorBound(Distance(x, y), k, n); }
  }

  lemma WithinStep(x: real, y: real, k: int) returns (n: int)
    requires 0 <= k < TWO53 && k as real <= x <= (k + 1) as real && Nearest(x, y)
    ensures n > 0 && Distance(x, y) * n as real <= 1.0
    ensures (k == 0 ==> n == TWO53) && (k >= 1 ==> k * n >= TWO52)
  {
    var z;
    z, n := GridFor(x, k);
    Closest(x, y, z);
    SmallerError(Distance(x, y), Distance(x, z), n as real);
  }

  lemma GridFor(x: real, k: int) returns (z: real, n: int)
    requires 0 <= k < TWO53 && k as real <= x <= (k + 1) as real
    ensures n > 0 && IsDouble(z) && Distance(x, z) * n as real <= 1.0
    ensures (k == 0 ==> n == TWO53) && (k >= 1 ==> k * n >= TWO52)
  {
    var s := Normalise(k);
    Pow2Positive(s);
    n := Pow2(s);
    z := GridPoint(x, k, s);
  }

  lemma SmallerError(d: real, e: real, p: real)
    requires d <= e && p > 0.0 && e * p <= 1.0
    ensures d * p <= 1.0
  {
    NotLess(d, e, p);
  }

  lemma Closest(x: real, y: real, z: real)
    requires Nearest(x, y) && IsDouble(z)
    ensures Distance(x, y) <= Distance(x, z)
  {
  }

  lemma ErrorBound(d: real, k: int, n: int)
    requires d >= 0.0 && k >= 1 && n > 0 && d * n as real <= 1.0 && k * n >= TWO52
    ensures d * TWO52 as real <= k as real
  {
    Product(k, n);
    if d > 0.0 { NotLess(TWO52 as real, k as real * n as real, d); }
    NotLess(d * n as real, 1.0, k as real);
    assert k as real * n as real * d == d * n as real * k as real;
  }
}
