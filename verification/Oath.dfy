/** One-time passwords: handshake/oath.go, hmac/oath.go and the HMAC of provider/file.go. */
module Oath {
  import opened Bytes
  import opened Float64
  import opened Outcomes

  const SECOND: int := 1_000_000_000

  datatype Hash = Sha256 | OtherHash(name: string)

  /** HMAC as an uninterpreted function of hash, key and message. */
  type Hmac = (Hash, bytes, bytes) -> bytes

  /** Go's integer quotient, which truncates toward zero. */
  function Truncated(d: int, m: int): int
    requires m > 0
  {
    if d < 0 then -(-d / m) else d / m
  }

  /** time.Duration.Seconds of a duration in nanoseconds. */
  function Seconds(f: Machine, d: int): real {
    var sec := Truncated(d, SECOND);
    f.add(f.ofInt(sec), f.div(f.ofInt(d - sec * SECOND), SECOND as real))
  }

  /** The counter both implementations compute: the quotient in floating point, then its floor. */
  function Counter(f: Machine, unix: int, period: int): int {
    f.toUint64(f.div(f.ofInt(unix), Seconds(f, period)).Floor as real)
  }

  /** The number of time steps of section 4.2 of RFC 6238. */
  function TimeStep(unix: int, p: int): nat
    requires 0 <= unix && 1 <= p
  {
    unix / p
  }

  lemma WholeSeconds(f: Machine, p: int)
    requires CorrectlyRounded(f) && 0 <= p && p * SECOND < TWO63
    ensures Seconds(f, p * SECOND) == p as real
  {
    assert Truncated(p * SECOND, SECOND) == p;
    SmallInteger(0);
    SmallInteger(SECOND);
    SmallInteger(p);
    NearestExact(0.0, f.ofInt(0));
    NearestExact(p as real, f.ofInt(p));
    assert 0.0 / SECOND as real == 0.0;
    NearestExact(0.0, f.div(0.0, SECOND as real));
    assert p as real + 0.0 == p as real;
    NearestExact(p as real, f.add(p as real, 0.0));
  }

  /** Section 4.2 of RFC 6238: for whole-second periods and every time before 2^53 the floating-point
      counter is the integer quotient. */
  lemma CounterExact(f: Machine, unix: int, p: int)
    requires CorrectlyRounded(f) && 0 <= unix < TWO53 && 1 <= p && p * SECOND < TWO63
    ensures Counter(f, unix, p * SECOND) == TimeStep(unix, p)
  {
    WholeSeconds(f, p);
    SmallInteger(unix);
    SmallInteger(p);
    NearestExact(unix as real, f.ofInt(unix));
    SmallQuotient(unix, p);
    var y := f.div(unix as real, p as real);
    assert Nearest(unix as real / p as real, y);
    QuotientFloor(unix, p, y);
    Quotient(unix, p);
  }

  lemma AtLeast(a: real, b: real)
    requires 0.0 <= a && 1.0 <= b
    ensures a <= a * b
  {
    if a > 0.0 { NotLess(1.0, b, a); }
  }

  lemma Divide(a: real, b: real)
    requires 0.0 <= a && 1.0 <= b
    ensures a / b * b == a && 0.0 <= a / b <= a
  {
    var q := a / b;
    if q < 0.0 {
      Less(q, 0.0, b);
      assert false;
    }
    if q > a {
      Less(a, q, b);
      AtLeast(a, b);
      assert false;
    }
  }

  lemma SmallQuotient(n: int, p: int)
    requires 0 <= n < TWO53 && 1 <= p
    ensures Distance(0.0, n as real / p as real) <= TWO64 as real
  {
    Divide(n as real, p as real);
  }

  /** With a period of one second the counter is the time itself exactly for the times that are
      binary64 values; 2^53 + 1 is the first that is not. */
  lemma CounterPeriodOne(f: Machine, unix: int)
    requires CorrectlyRounded(f) && 0 <= unix < TWO63
    ensures Counter(f, unix, SECOND) == unix <==> IsDouble(unix as real)
  {
    WholeSeconds(f, 1);
    var x := f.ofInt(unix);
    BelowTwo63(unix as real, x);
    SmallInteger(0);
    NearestAbove(unix as real, x, 0.0);
    SmallInteger(1);
    assert x / 1.0 == x;
    NearestExact(x, f.div(x, 1.0));
    FloorInRange(x);
    if IsDouble(unix as real) {
      NearestExact(unix as real, x);
    } else {
      if unix < TWO53 {
        SmallInteger(unix);
        assert false;
      }
      Two53();
      NearestAbove(unix as real, x, TWO53 as real);
      LargeIsInteger(x);
    }
  }

  lemma FloorInRange(x: real)
    requires 0.0 <= x <= TWO63 as real
    ensures 0.0 <= x.Floor as real <= TWO63 as real && (x.Floor as real).Floor == x.Floor
  {
  }

  /** Conversion from int64 stays within 2^63, which is a binary64 value. */
  lemma BelowTwo63(x: real, y: real)
    requires x <= TWO63 as real && Nearest(x, y)
    ensures y <= TWO63 as real
  {
    Pow2Sum(5, 6);
    assert Pow2(5) == 32 && Pow2(6) == 64 && Pow2(11) == 2048;
    assert Multiplied(TWO63 as real, TWO52, 11);
    NearestBelow(x, y, TWO63 as real);
  }

  lemma FirstInexactTime()
    ensures !IsDouble((TWO53 + 1) as real)
  {
    var n := TWO53 + 1;
    var x := n as real;
    if m: int, s: nat :| Divided(x, m, s) {
      Pow2Positive(s);
      NotLess(1.0, Pow2(s) as real, x);
      assert false;
    }
    if m: int, s: nat :| Multiplied(x, m, s) {
      MultipliedInteger(m, s, n);
      EvenOrSmall(m, s);
      assert false;
    }
  }

  lemma MultipliedInteger(m: int, s: nat, n: int)
    requires Multiplied(n as real, m, s)
    ensures m * Pow2(s) == n
  {
    Product(m, Pow2(s));
    assert (m * Pow2(s)) as real == n as real;
  }

  lemma EvenOrSmall(m: int, s: nat)
    ensures if s == 0 then m * Pow2(s) == m else m * Pow2(s) % 2 == 0
  {
    if s > 0 { TwiceIsEven(m, Pow2(s - 1)); }
  }

  lemma TwiceIsEven(m: int, n: int)
    ensures m * (2 * n) % 2 == 0
  {
    assert m * (2 * n) == 2 * (m * n);
  }

  // -------------------------------------------------------------- monotonicity

  lemma Rounds(f: Machine, a: real, b: real)
    requires CorrectlyRounded(f) && IsDouble(a) && IsDouble(b) && 0.0 <= a <= TWO63 as real && 1.0 <= b
    ensures Nearest(a / b, f.div(a, b)) && a / b * b == a && 0.0 <= a / b <= a
  {
    Divide(a, b);
  }

  /** The fraction of a second, in floating point. */
  lemma Fraction(f: Machine, nsec: int)
    requires CorrectlyRounded(f) && 0 <= nsec < SECOND
    ensures var y := f.div(f.ofInt(nsec), SECOND as real); IsDouble(y) && 0.0 <= y <= 1.0
    ensures Nearest(nsec as real / SECOND as real, f.div(f.ofInt(nsec), SECOND as real))
  {
    SmallInteger(0);
    SmallInteger(1);
    SmallInteger(SECOND);
    SmallInteger(nsec);
    NearestExact(nsec as real, f.ofInt(nsec));
    var a, b := nsec as real, SECOND as real;
    Rounds(f, a, b);
    NearestAbove(a / b, f.div(a, b), 0.0);
    BelowOne(a, b);
    NearestBelow(a / b, f.div(a, b), 1.0);
  }

  lemma AddFraction(f: Machine, sec: int, y: real)
    requires CorrectlyRounded(f) && 1 <= sec < TWO53 && IsDouble(y) && 0.0 <= y <= 1.0
    ensures var s := f.add(f.ofInt(sec), y); IsDouble(s) && s >= 1.0
  {
    SmallInteger(1);
    SmallInteger(sec);
    NearestExact(sec as real, f.ofInt(sec));
    NearestAbove(sec as real + y, f.add(sec as real, y), 1.0);
  }

  /** A period of at least a second is read as a binary64 value of at least one. */
  lemma SecondsAtLeastOne(f: Machine, period: int)
    requires CorrectlyRounded(f) && SECOND <= period < TWO63
    ensures IsDouble(Seconds(f, period)) && Seconds(f, period) >= 1.0
  {
    var sec, nsec := WholeAndRest(period);
    Fraction(f, nsec);
    AddFraction(f, sec, f.div(f.ofInt(nsec), SECOND as real));
  }

  lemma WholeAndRest(period: int) returns (sec: int, nsec: int)
    requires SECOND <= period < TWO63
    ensures 1 <= sec < TWO53 && 0 <= nsec < SECOND
    ensures sec == Truncated(period, SECOND) && nsec == period - sec * SECOND
  {
    sec := period / SECOND;
    nsec := period % SECOND;
  }

  lemma BelowOne(a: real, b: real)
    requires 0.0 <= a < b && 1.0 <= b
    ensures a / b < 1.0
  {
    Divide(a, b);
    if a / b >= 1.0 {
      NotLess(1.0, a / b, b);
      assert false;
    }
  }

  lemma Exactly(d: int, sec: int, nsec: int)
    requires d == sec * SECOND + nsec
    ensures d as real / SECOND as real == sec as real + nsec as real / SECOND as real
  {
  }

  lemma SumRounds(f: Machine, sec: int, y: real)
    requires CorrectlyRounded(f) && 0 <= sec < TWO53 && IsDouble(y) && 0.0 <= y <= 1.0
    ensures Nearest(sec as real + y, f.add(f.ofInt(sec), y))
  {
    SmallInteger(sec);
    NearestExact(sec as real, f.ofInt(sec));
  }

  /** A period is read with an error of at most one unit in the last place of its whole seconds plus one:
      the nanoseconds count. */
  lemma SecondsNear(f: Machine, d: int)
    requires CorrectlyRounded(f) && 0 <= d < TWO63
    ensures Distance(Seconds(f, d), d as real / SECOND as real) * TWO52 as real <= (d / SECOND + 1) as real
  {
    var sec, nsec := Parts(d);
    PartsNear(f, sec, nsec);
    Exactly(d, sec, nsec);
  }

  lemma PartsNear(f: Machine, sec: int, nsec: int)
    requires CorrectlyRounded(f) && 0 <= sec < TWO53 && 0 <= nsec < SECOND
    ensures Distance(f.add(f.ofInt(sec), f.div(f.ofInt(nsec), SECOND as real)),
                     sec as real + nsec as real / SECOND as real) * TWO52 as real <= (sec + 1) as real
  {
    var y := f.div(f.ofInt(nsec), SECOND as real);
    FractionNear(f, nsec);
    SumNear(f, sec, y);
    TwoErrors(nsec as real / SECOND as real, y, sec, f.add(f.ofInt(sec), y));
  }

  lemma Parts(d: int) returns (sec: int, nsec: int)
    requires 0 <= d < TWO63
    ensures 0 <= sec < TWO53 && 0 <= nsec < SECOND && d == sec * SECOND + nsec
    ensures sec == d / SECOND == Truncated(d, SECOND)
  {
    sec := d / SECOND;
    nsec := d % SECOND;
  }

  lemma FractionNear(f: Machine, nsec: int)
    requires CorrectlyRounded(f) && 0 <= nsec < SECOND
    ensures var y := f.div(f.ofInt(nsec), SECOND as real);
            IsDouble(y) && 0.0 <= y <= 1.0 && Distance(nsec as real / SECOND as real, y) * TWO53 as real <= 1.0
  {
    Fraction(f, nsec);
    var a, b := nsec as real, SECOND as real;
    Divide(a, b);
    BelowOne(a, b);
    RoundingError(a / b, f.div(f.ofInt(nsec), b), 0);
  }

  lemma SumNear(f: Machine, sec: int, y: real)
    requires CorrectlyRounded(f) && 0 <= sec < TWO53 && IsDouble(y) && 0.0 <= y <= 1.0
    ensures var z := f.add(f.ofInt(sec), y);
            if sec == 0 then Distance(sec as real + y, z) * TWO53 as real <= 1.0
            else Distance(sec as real + y, z) * TWO52 as real <= sec as real
  {
    SumRounds(f, sec, y);
    RoundingError(sec as real + y, f.add(f.ofInt(sec), y), sec);
  }

  lemma TwoErrors(x: real, y: real, sec: int, z: real)
    requires sec >= 0 && Distance(x, y) * TWO53 as real <= 1.0
    requires if sec == 0 then Distance(sec as real + y, z) * TWO53 as real <= 1.0
             else Distance(sec as real + y, z) * TWO52 as real <= sec as real
    ensures Distance(z, sec as real + x) * TWO52 as real <= (sec + 1) as real
  {
    assert Distance(z, sec as real + x) <= Distance(sec as real + y, z) + Distance(x, y);
  }

  /** The quotient for a period `s` that was read instead of `p`. */
  lemma QuotientError(unix: real, s: real, p: real, q: real, t: real)
    requires s >= 1.0 && p >= 1.0 && 0.0 <= q && 0.0 <= t && q * s == unix && t * p == unix
    requires Distance(s, p) * TWO52 as real <= 2.0 * p
    ensures Distance(q, t) * TWO52 as real <= 2.0 * q
  {
    var d, e := Distance(q, t), Distance(s, p);
    assert d * p == q * e by { SameProduct(s, p, q, t); }
    Scales(q, e * TWO52 as real, 2.0 * p);
    Regrouped(d, p, q, e);
    Cancels(d * TWO52 as real, 2.0 * q, p);
  }

  lemma SameProduct(s: real, p: real, q: real, t: real)
    requires q * s == t * p && p > 0.0 && q >= 0.0
    ensures Distance(q, t) * p == q * Distance(s, p)
  {
    Minus(q, t, p);
    Minus(t, q, p);
    Spread(q, p, s);
    Spread(q, s, p);
    if q < t {
      Less(q, t, p);
      if s < p { Scales(q, s, p); }
    } else {
      NotLess(t, q, p);
      if s >= p { Scales(q, p, s); }
    }
  }

  lemma Spread(a: real, b: real, c: real)
    ensures a * (b - c) == a * b - a * c
  {
  }

  lemma Scales(a: real, b: real, c: real)
    requires a >= 0.0 && b <= c
    ensures a * b <= a * c
  {
  }

  lemma Regrouped(d: real, p: real, q: real, e: real)
    requires d * p == q * e
    ensures d * TWO52 as real * p == q * (e * TWO52 as real) && q * (2.0 * p) == 2.0 * q * p
  {
  }

  lemma Cancels(a: real, b: real, p: real)
    requires p > 0.0 && a * p <= b * p
    ensures a <= b
  {
    if a > b {
      Less(b, a, p);
      assert false;
    }
  }

  lemma TimeInRange(f: Machine, unix: int)
    requires CorrectlyRounded(f) && 0 <= unix < TWO63
    ensures Nearest(unix as real, f.ofInt(unix)) && 0.0 <= f.ofInt(unix) <= TWO63 as real
  {
    SmallInteger(0);
    NearestAbove(unix as real, f.ofInt(unix), 0.0);
    BelowTwo63(unix as real, f.ofInt(unix));
  }

  lemma Converts(f: Machine, x: real, s: real)
    requires CorrectlyRounded(f) && IsDouble(x) && IsDouble(s) && 0.0 <= x <= TWO63 as real && s >= 1.0
    ensures f.toUint64(f.div(x, s).Floor as real) == f.div(x, s).Floor
  {
    Rounds(f, x, s);
    SmallInteger(0);
    NearestAbove(x / s, f.div(x, s), 0.0);
    BelowTwo63(x / s, f.div(x, s));
    FloorInRange(f.div(x, s));
  }

  lemma TimesOrdered(f: Machine, t1: int, t2: int)
    requires CorrectlyRounded(f) && 0 <= t1 <= t2 < TWO63
    ensures f.ofInt(t1) <= f.ofInt(t2)
  {
    if t1 < t2 { NearestMonotone(t1 as real, f.ofInt(t1), t2 as real, f.ofInt(t2)); }
  }

  lemma QuotientsOrdered(f: Machine, x1: real, x2: real, s: real)
    requires CorrectlyRounded(f) && IsDouble(x1) && IsDouble(x2) && IsDouble(s)
    requires 0.0 <= x1 <= x2 <= TWO63 as real && s >= 1.0
    ensures f.div(x1, s) <= f.div(x2, s)
  {
    if x1 < x2 {
      Rounds(f, x1, s);
      Rounds(f, x2, s);
      DivideLess(x1, x2, s);
      NearestMonotone(x1 / s, f.div(x1, s), x2 / s, f.div(x2, s));
    }
  }

  /** Time never runs backwards: for every period of at least a second, whole or not, and all times from
      1970 on, a later time has no smaller counter. */
  lemma CounterMonotone(f: Machine, t1: int, t2: int, period: int)
    requires CorrectlyRounded(f) && 0 <= t1 <= t2 < TWO63 && SECOND <= period < TWO63
    ensures Counter(f, t1, period) <= Counter(f, t2, period)
  {
    var s, x1, x2 := Seconds(f, period), f.ofInt(t1), f.ofInt(t2);
    SecondsAtLeastOne(f, period);
    TimeInRange(f, t1);
    TimeInRange(f, t2);
    Converts(f, x1, s);
    Converts(f, x2, s);
    TimesOrdered(f, t1, t2);
    QuotientsOrdered(f, x1, x2, s);
    FloorMonotone(f.div(x1, s), f.div(x2, s));
  }

  /** The period as a real, and how well it is read. */
  lemma PeriodRead(f: Machine, period: int)
    requires CorrectlyRounded(f) && SECOND <= period < TWO63
    ensures var (s, p) := (Seconds(f, period), period as real / SECOND as real);
            IsDouble(s) && s >= 1.0 && p >= 1.0 && Distance(s, p) * TWO52 as real <= 2.0 * p
  {
    SecondsAtLeastOne(f, period);
    SecondsNear(f, period);
    WholePart(period);
  }

  lemma WholePart(period: int)
    requires SECOND <= period
    ensures var p := period as real / SECOND as real; p >= 1.0 && (period / SECOND + 1) as real <= 2.0 * p
  {
    var sec, nsec := period / SECOND, period % SECOND;
    Exactly(period, sec, nsec);
    Divide(nsec as real, SECOND as real);
  }

  /** The counter is the floor of the rounded quotient by the period as it is read. */
  lemma CounterRounded(f: Machine, unix: int, period: int, s: real) returns (y: real)
    requires CorrectlyRounded(f) && 0 <= unix < TWO53 && SECOND <= period < TWO63
    requires s == Seconds(f, period) && IsDouble(s) && s >= 1.0
    ensures Nearest(unix as real / s, y) && Counter(f, unix, period) == y.Floor
  {
    var x := unix as real;
    SmallInteger(unix);
    NearestExact(x, f.ofInt(unix));
    Rounds(f, x, s);
    Converts(f, x, s);
    y := f.div(x, s);
  }

  lemma CounterFacts(f: Machine, unix: int, period: int) returns (s: real, y: real)
    requires CorrectlyRounded(f) && 0 <= unix < TWO53 && SECOND <= period < TWO63
    ensures s >= 1.0
    ensures Distance(s, period as real / SECOND as real) * TWO52 as real <= 2.0 * (period as real / SECOND as real)
    ensures Nearest(unix as real / s, y) && Counter(f, unix, period) == y.Floor
  {
    PeriodRead(f, period);
    s := Seconds(f, period);
    y := CounterRounded(f, unix, period, s);
  }

  const TWO49: int := 0x2_0000_0000_0000

  /** `c` is the floor of `t` up to a relative error of 2^-49. */
  predicate FloorWithin(c: real, t: real) {
    (c - t) * TWO49 as real <= t + 1.0 && (t - 1.0 - c) * TWO49 as real <= t + 1.0
  }

  /** For every period of at least a second, fractions included, the counter is the floor of the quotient of
      section 4.2 of RFC 6238 up to a relative error of 2^-49. */
  lemma CounterNear(f: Machine, unix: int, period: int)
    requires CorrectlyRounded(f) && 0 <= unix < TWO53 && SECOND <= period < TWO63
    ensures FloorWithin(Counter(f, unix, period) as real, unix as real / (period as real / SECOND as real))
  {
    var s, y := CounterFacts(f, unix, period);
    QuotientNear(unix, period, s, y);
  }

  lemma QuotientNear(unix: int, period: int, s: real, y: real)
    requires 0 <= unix < TWO53 && SECOND <= period && s >= 1.0
    requires Distance(s, period as real / SECOND as real) * TWO52 as real <= 2.0 * (period as real / SECOND as real)
    requires Nearest(unix as real / s, y)
    ensures FloorWithin(y.Floor as real, unix as real / (period as real / SECOND as real))
  {
    var x, p := unix as real, period as real / SECOND as real;
    WholePart(period);
    Divide(x, s);
    Divide(x, p);
    QuotientError(x, s, p, x / s, x / p);
    QuotientRounding(x / s, y);
    FloorNear(x / s, y, x / p);
  }

  lemma QuotientRounding(q: real, y: real)
    requires 0.0 <= q < TWO53 as real && Nearest(q, y)
    ensures Distance(q, y) * TWO52 as real <= q + 1.0
  {
    RoundingError(q, y, q.Floor);
  }

  lemma FloorNear(q: real, y: real, t: real)
    requires 0.0 <= q && 0.0 <= t
    requires Distance(q, t) * TWO52 as real <= 2.0 * q && Distance(q, y) * TWO52 as real <= q + 1.0
    ensures FloorWithin(y.Floor as real, t)
  {
  }

  lemma DivideLess(a: real, b: real, c: real)
    requires 0.0 <= a < b && 1.0 <= c
    ensures a / c < b / c
  {
    Divide(a, c);
    Divide(b, c);
    if b / c <= a / c {
      NotLess(b / c, a / c, c);
      assert false;
    }
  }

  lemma FloorMonotone(a: real, b: real)
    requires a <= b
    ensures a.Floor <= b.Floor
  {
  }

  // -------------------------------------------------------- counter challenges

  /** `v >> 8k`. */
  function Shifted(v: nat, k: nat): nat {
    if k == 0 then v else Shifted(v, k - 1) / 256
  }

  /** The eight octets of section 5.2 of RFC 4226. */
  function Challenge(v: nat): bytes {
    [Shifted(v, 7) % 256, Shifted(v, 6) % 256, Shifted(v, 5) % 256, Shifted(v, 4) % 256,
     Shifted(v, 3) % 256, Shifted(v, 2) % 256, Shifted(v, 1) % 256, v % 256]
  }

  lemma {:induction false} ShiftedBound(v: nat, k: nat, n: nat)
    requires v < Pow256(n + k)
    ensures Shifted(v, k) < Pow256(n)
    decreases k
  {
    if k > 0 { ShiftedBound(v, k - 1, n + 1); }
  }

  lemma {:induction false} ChallengePrefix(v: nat, k: nat)
    requires v < TWO64 && k <= 8
    ensures BigEndian(Challenge(v)[..8 - k]) == Shifted(v, k)
    decreases 8 - k
  {
    if k == 8 {
      assert Pow256(4) == 256 * (256 * (256 * 256));
      assert Pow256(8) == 256 * (256 * (256 * (256 * Pow256(4))));
      ShiftedBound(v, 8, 0);
    } else {
      ChallengePrefix(v, k + 1);
      var c := Challenge(v);
      assert c[..8 - k][..7 - k] == c[..7 - k];
      assert c[7 - k] == Shifted(v, k) % 256;
    }
  }

  /** The challenge is the counter, so distinct counters have distinct challenges. */
  lemma ChallengeValue(v: nat)
    requires v < TWO64
    ensures |Challenge(v)| == 8 && BigEndian(Challenge(v)) == v
  {
    ChallengePrefix(v, 0);
    assert Challenge(v)[..8] == Challenge(v);
  }

  /** Two clocks yield the same challenge exactly when they are in the same period. */
  lemma SameWindow(f: Machine, t1: int, t2: int, p: int)
    requires CorrectlyRounded(f) && 0 <= t1 < TWO53 && 0 <= t2 < TWO53 && 1 <= p && p * SECOND < TWO63
    ensures Challenge(Counter(f, t1, p * SECOND)) == Challenge(Counter(f, t2, p * SECOND)) <==>
            TimeStep(t1, p) == TimeStep(t2, p)
  {
    CounterExact(f, t1, p);
    CounterExact(f, t2, p);
    ChallengeValue(Counter(f, t1, p * SECOND));
    ChallengeValue(Counter(f, t2, p * SECOND));
  }

  // ------------------------------------------------- the two implementations

  /** binary.BigEndian.PutUint64. */
  method PutUint64(buf: array<byte>, v: nat)
    requires buf.Length == 8 && v < TWO64
    modifies buf
    ensures buf[..] == Challenge(v) && BigEndian(buf[..]) == v
  {
    buf[0] := Shifted(v, 7) % 256;
    buf[1] := Shifted(v, 6) % 256;
    buf[2] := Shifted(v, 5) % 256;
    buf[3] := Shifted(v, 4) % 256;
    buf[4] := Shifted(v, 3) % 256;
    buf[5] := Shifted(v, 2) % 256;
    buf[6] := Shifted(v, 1) % 256;
    buf[7] := v % 256;
    ChallengeValue(v);
  }

  /** OATHHandshake: the key is anything that can compute an HMAC, or fail to. */
  class OathHandshake<E> {
    const timestep: int
    const mac: bytes -> Outcome<bytes, E>

    constructor (timestep: int, mac: bytes -> Outcome<bytes, E>)
      ensures this.timestep == timestep && this.mac == mac
    {
      this.timestep, this.mac := timestep, mac;
    }

    method CalculateHOTP(counter: nat) returns (code: Outcome<bytes, E>)
      requires counter < TWO64
      ensures code == mac(Challenge(counter))
    {
      var buf := new byte[8];
      PutUint64(buf, counter);
      code := mac(buf[..]);
    }

    method CalculateTOTP(f: Machine, unix: int) returns (code: Outcome<bytes, E>)
      requires CorrectlyRounded(f)
      ensures code == mac(Challenge(Counter(f, unix, timestep)))
    {
      var counter := Counter(f, unix, timestep);
      code := CalculateHOTP(counter);
    }
  }

  /** hash.Hash as crypto/hmac provides it: writes accumulate, Sum authenticates what was written. */
  class MacState {
    const hmac: Hmac
    const hash: Hash
    const key: bytes
    var written: bytes

    constructor (hmac: Hmac, hash: Hash, key: bytes)
      ensures this.hmac == hmac && this.hash == hash && this.key == key && written == []
    {
      this.hmac, this.hash, this.key, this.written := hmac, hash, key, [];
    }

    method Write(data: bytes)
      modifies this
      ensures written == old(written) + data
    {
      written := written + data;
    }

    method Sum() returns (tag: bytes)
      ensures tag == hmac(hash, key, written)
    {
      tag := hmac(hash, key, written);
    }
  }

  /** A file key as a key that can compute an HMAC: SHA-256, and never an error. */
  function FileKeyMac<E>(hmac: Hmac, key: bytes): bytes -> Outcome<bytes, E> {
    chal => Ok(hmac(Sha256, key, chal))
  }

  method FileKeyHmac<E>(hmac: Hmac, key: bytes, chal: bytes) returns (tag: Outcome<bytes, E>)
    ensures tag == FileKeyMac(hmac, key)(chal)
  {
    var h := new MacState(hmac, Sha256, key);
    h.Write(chal);
    assert [] + chal == chal;
    var sum := h.Sum();
    tag := Ok(sum);
  }

  /** The second implementation, with its own hash and key. */
  class OathKey {
    const hmac: Hmac
    const hash: Hash
    const period: int
    const key: bytes

    constructor (hmac: Hmac, hash: Hash, period: int, key: bytes)
      ensures this.hmac == hmac && this.hash == hash && this.period == period && this.key == key
    {
      this.hmac, this.hash, this.period, this.key := hmac, hash, period, key;
    }

    method CalculateHOTP(counter: nat) returns (code: bytes)
      requires counter < TWO64
      ensures code == hmac(hash, key, Challenge(counter))
    {
      var buf := new byte[8];
      PutUint64(buf, counter);
      var mac := new MacState(hmac, hash, key);
      mac.Write(buf[..]);
      assert [] + buf[..] == buf[..];
      code := mac.Sum();
    }

    method CalculateTOTP(f: Machine, unix: int) returns (code: bytes)
      requires CorrectlyRounded(f)
      ensures code == hmac(hash, key, Challenge(Counter(f, unix, period)))
    {
      var counter := Counter(f, unix, period);
      code := CalculateHOTP(counter);
    }

    /** The comparison is inverted: every code is accepted except the right one. */
    method ValidateHOTP(counter: nat, code: bytes) returns (ok: bool)
      requires counter < TWO64
      ensures ok <==> code != hmac(hash, key, Challenge(counter))
    {
      var code2 := CalculateHOTP(counter);
      ok := ConstantTimeCompare(code2, code) == 0;
    }

    method ValidateTOTP(f: Machine, unix: int, code: bytes) returns (ok: bool)
      requires CorrectlyRounded(f)
      ensures ok <==> code != hmac(hash, key, Challenge(Counter(f, unix, period)))
    {
      var code2 := CalculateTOTP(f, unix);
      ok := ConstantTimeCompare(code2, code) == 0;
    }
  }

  /** crypto/subtle: 1 for equal contents, 0 otherwise. */
  function ConstantTimeCompare(x: bytes, y: bytes): int {
    if x == y then 1 else 0
  }

  /** A handshake over a file key and the second implementation with SHA-256 return the same code, for
      every key, every period and every time, those without a meaningful counter included. */
  method BothImplementations<E>(f: Machine, hmac: Hmac, key: bytes, period: int, unix: int)
    returns (a: Outcome<bytes, E>, b: bytes)
    requires CorrectlyRounded(f)
    ensures a == Ok(b) && b == hmac(Sha256, key, Challenge(Counter(f, unix, period)))
  {
    var first := new OathHandshake(period, FileKeyMac(hmac, key));
    var second := new OathKey(hmac, Sha256, period, key);
    a := first.CalculateTOTP(f, unix);
    b := second.CalculateTOTP(f, unix);
  }

  /** Parties whose clocks are in the same period of whole seconds derive the same code, whichever of
      the two implementations each of them uses. */
  method SamePeriodSameCode<E>(f: Machine, hmac: Hmac, key: bytes, p: int, t1: int, t2: int)
    returns (a: Outcome<bytes, E>, b: bytes)
    requires CorrectlyRounded(f) && 0 <= t1 < TWO53 && 0 <= t2 < TWO53 && 1 <= p && p * SECOND < TWO63
    ensures a == Ok(hmac(Sha256, key, Challenge(TimeStep(t1, p))))
    ensures b == hmac(Sha256, key, Challenge(TimeStep(t2, p)))
    ensures TimeStep(t1, p) == TimeStep(t2, p) ==> a == Ok(b)
  {
    CounterExact(f, t1, p);
    CounterExact(f, t2, p);
    var b1, a2;
    a, b1 := BothImplementations(f, hmac, key, p * SECOND, t1);
    a2, b := BothImplementations<E>(f, hmac, key, p * SECOND, t2);
  }
}
