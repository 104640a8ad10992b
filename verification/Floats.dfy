/** Rounding to double precision: 53 binary digits, to the nearest, ties to even. Numbers too large or too small
    for the exponent do not occur here. */
module Floats {
  import opened Numbers

  // ---- powers of two ----

  function Pow(e: int): (p: real)
    ensures p > 0.0
    decreases if e < 0 then -e else e
  {
    if e == 0 then 1.0 else if e > 0 then 2.0 * Pow(e - 1) else Pow(e + 1) / 2.0
  }

  lemma PowStep(e: int)
    ensures Pow(e + 1) == 2.0 * Pow(e)
  {
  }

  lemma {:induction false} PowAdd(a: int, b: nat)
    ensures Pow(a + b) == Pow(a) * Pow(b)
    decreases b
  {
    if b > 0 {
      hide Pow;
      PowAdd(a, b - 1);
      PowStep(a + b - 1);
      PowStep(b - 1);
      TwoTimes(Pow(a), Pow(b - 1));
    }
  }

  lemma TwoTimes(a: real, b: real)
    ensures 2.0 * (a * b) == a * (2.0 * b)
  {
  }

  lemma {:induction false} PowIsInteger(e: nat)
    ensures Pow(e) == Pow2(e) as real
  {
    if e > 0 {
      PowIsInteger(e - 1);
    }
  }

  lemma {:induction false} PowMonotone(a: int, b: int)
    requires a <= b
    ensures Pow(a) <= Pow(b)
    decreases b - a
  {
    if a < b {
      PowMonotone(a, b - 1);
      PowStep(b - 1);
    }
  }

  /** A power and its inverse. */
  lemma PowInverse(e: int)
    ensures Pow(e) * Pow(-e) == 1.0
  {
    if e >= 0 {
      PowAdd(-e, e);
    } else {
      PowAdd(e, -e);
    }
  }

  // ---- the exponent ----

  function ExponentAbove(x: real): (e: nat)
    requires x >= 1.0
    ensures Pow(e) <= x < Pow(e + 1)
    decreases x.Floor
  {
    if x < 2.0 then 0 else 1 + ExponentAbove(x / 2.0)
  }

  function ExponentBelow(x: real): (e: int)
    requires 0.0 < x < 2.0
    ensures Pow(e) <= x < Pow(e + 1)
    decreases (1.0 / x).Floor
  {
    if x >= 1.0 then 0
    else
      Inverses(x);
      ExponentBelow(2.0 * x) - 1
  }

  lemma PositiveFactor(d: real, x: real)
    requires x > 0.0 && d * x > 0.0
    ensures d > 0.0
  {
  }

  lemma Inverses(x: real)
    requires 0.0 < x < 1.0
    ensures (1.0 / (2.0 * x)).Floor < (1.0 / x).Floor && (1.0 / (2.0 * x)).Floor >= 0
  {
    var y := 1.0 / x;
    assert y * x == 1.0;
    assert (y - 1.0) * x > 0.0;
    PositiveFactor(y - 1.0, x);
    assert 1.0 / (2.0 * x) == y / 2.0;
  }

  /** The exponent of the leading binary digit. */
  function Exponent(x: real): (e: int)
    requires x > 0.0
    ensures Pow(e) <= x < Pow(e + 1)
  {
    if x >= 1.0 then ExponentAbove(x) else ExponentBelow(x)
  }

  lemma ExponentIs(x: real, e: int)
    requires x > 0.0 && Pow(e) <= x < Pow(e + 1)
    ensures Exponent(x) == e
  {
    var f := Exponent(x);
    if f < e {
      PowMonotone(f + 1, e);
    } else if f > e {
      PowMonotone(e + 1, f);
    }
  }

  // ---- rounding ----

  /** The nearest whole number, the even one of two that are equally near. */
  function Nearest(y: real): int {
    var f := y.Floor;
    var d := y - f as real;
    if d < 0.5 || (d == 0.5 && f % 2 == 0) then f else f + 1
  }

  lemma NearestIsNear(y: real, k: int)
    ensures -0.5 <= Nearest(y) as real - y <= 0.5
    ensures (y <= k as real ==> Nearest(y) <= k) && (y >= k as real ==> Nearest(y) >= k)
    ensures k % 2 == 0 && y >= k as real ==> (Nearest(y) > k <==> y > k as real + 0.5)
  {
  }

  const DIGITS := 52

  /** x in units of its last binary digit. */
  function Scaled(x: real): real
    requires x > 0.0
  {
    x * Pow(DIGITS - Exponent(x))
  }

  /** The double nearest to x. */
  function Float(x: real): real
    requires x > 0.0
  {
    Nearest(Scaled(x)) as real * Pow(Exponent(x) - DIGITS)
  }

  /** Half of the last binary digit of x. */
  function HalfUlp(x: real): real
    requires x > 0.0
  {
    Pow(Exponent(x) - DIGITS - 1)
  }

  /** The rounding error is at most half of the last digit. */
  lemma FloatIsNear(x: real)
    requires x > 0.0
    ensures -HalfUlp(x) <= Float(x) - x <= HalfUlp(x)
    ensures HalfUlp(x) * Pow(DIGITS + 1) <= x
    ensures Float(x) > 0.0
  {
    hide Pow, Nearest, Exponent;
    var e := Exponent(x);
    PowInverse(DIGITS - e);
    PowStep(e - DIGITS - 1);
    PowAdd(e - DIGITS - 1, DIGITS + 1);
    NearestIsNear(Scaled(x), 0);
    NearInUnits(x, Pow(DIGITS - e), Pow(e - DIGITS), Nearest(Scaled(x)) as real);
    HalfIsLess(x);
  }

  lemma NearInUnits(x: real, s: real, u: real, m: real)
    requires s * u == 1.0 && u > 0.0 && -0.5 <= m - x * s <= 0.5
    ensures -(u / 2.0) <= m * u - x <= u / 2.0
  {
    Associate(x, s, u);
    ScaleBack(m - x * s, u);
  }

  lemma Associate(a: real, b: real, c: real)
    ensures (a * b) * c == a * (b * c)
  {
  }

  lemma ScaleBack(d: real, u: real)
    requires -0.5 <= d <= 0.5 && u > 0.0
    ensures -(u / 2.0) <= d * u <= u / 2.0
  {
  }

  lemma HalfIsLess(x: real)
    requires x > 0.0
    ensures HalfUlp(x) < x
  {
    var e := Exponent(x);
    PowMonotone(e - DIGITS - 1, e - 1);
    PowStep(e - 1);
  }

  /** On the grid of x's last digit, whole numbers are whole multiples, even ones when a digit is to spare. */
  lemma WholeInUnits(n: nat, e: int)
    requires e <= DIGITS
    ensures n as real * Pow(DIGITS - e) == (n * Pow2(DIGITS - e)) as real
    ensures e < DIGITS ==> n * Pow2(DIGITS - e) % 2 == 0
  {
    PowIsInteger(DIGITS - e);
    if e < DIGITS {
      var h := Pow2(DIGITS - e - 1);
      assert n * (2 * h) == 2 * (n * h);
    }
  }

  lemma ExponentBelowDigits(x: real, d: int)
    requires 0.0 < x < Pow(d)
    ensures Exponent(x) < d
  {
    if Exponent(x) >= d {
      PowMonotone(d, Exponent(x));
    }
  }

  /** On a grid of step u, the nearest grid point keeps the order with the point k. */
  lemma KeptOnGrid(x: real, y: real, n: real, s: real, u: real, k: real, m: real)
    requires s > 0.0 && u > 0.0 && s * u == 1.0 && n * s == k && x * s == y
    requires (y <= k ==> m <= k) && (y >= k ==> m >= k)
    ensures (x <= n ==> m * u <= n) && (x >= n ==> m * u >= n)
  {
    Ordered(x, n, s);
    InUnits(n, s, u, m);
  }

  lemma ScaledIs(x: real)
    requires x > 0.0
    ensures Scaled(x) == x * Pow(DIGITS - Exponent(x)) && Float(x) == Nearest(Scaled(x)) as real * Pow(Exponent(x) - DIGITS)
  {
    hide Pow, Nearest, Exponent;
  }

  lemma Ordered(x: real, n: real, s: real)
    requires s > 0.0
    ensures (x <= n ==> x * s <= n * s) && (x >= n ==> x * s >= n * s)
  {
    assert (x - n) * s == x * s - n * s;
    SameSign(x - n, s);
  }

  /** Rounding does not cross whole numbers. */
  lemma FloatKeepsOrder(x: real, n: nat)
    requires 0.0 < x < Pow(DIGITS + 1)
    ensures x <= n as real ==> Float(x) <= n as real
    ensures x >= n as real ==> Float(x) >= n as real
  {
    hide Pow, Nearest, Exponent, Pow2, Float, Scaled;
    var e := Exponent(x);
    ExponentBelowDigits(x, DIGITS + 1);
    ScaledIs(x);
    WholeInUnits(n, e);
    PowInverse(DIGITS - e);
    WholeUnits(Scaled(x), n * Pow2(DIGITS - e));
    KeptOnGrid(x, Scaled(x), n as real, Pow(DIGITS - e), Pow(e - DIGITS), (n * Pow2(DIGITS - e)) as real, Nearest(Scaled(x)) as real);
  }

  lemma WholeUnits(y: real, k: int)
    ensures (y <= k as real ==> Nearest(y) as real <= k as real) && (y >= k as real ==> Nearest(y) as real >= k as real)
  {
    hide Nearest;
    NearestIsNear(y, k);
  }

  lemma InUnits(n: real, s: real, u: real, m: real)
    requires s > 0.0 && u > 0.0 && s * u == 1.0
    ensures (m <= n * s ==> m * u <= n) && (m >= n * s ==> m * u >= n)
  {
    Associate(n, s, u);
    assert (m - n * s) * u == m * u - n;
    SameSign(m - n * s, u);
  }

  lemma SameSign(d: real, u: real)
    requires u > 0.0
    ensures (d >= 0.0 <==> d * u >= 0.0) && (d <= 0.0 <==> d * u <= 0.0)
  {
  }

  /** Whole numbers of up to 53 binary digits are doubles. */
  lemma FloatOfWhole(n: nat)
    requires 0 < n && (n as real) < Pow(DIGITS + 1)
    ensures Float(n as real) == n as real
  {
    FloatKeepsOrder(n as real, n);
  }

  /** A number above n is rounded to more than n exactly when it is further from n than half of n's last digit. */
  lemma FloatIsAbove(x: real, n: nat)
    requires 0 < n && n as real <= x < Pow(DIGITS)
    ensures Float(x) > n as real <==> x - n as real > HalfUlp(n as real)
  {
    hide Pow, Nearest, Exponent, Pow2, Float, Scaled, HalfUlp;
    var e, f := Exponent(x), Exponent(n as real);
    ExponentBelowDigits(x, DIGITS);
    if e == f {
      ScaledIs(x);
      HalfUlpIs(n as real);
      WholeInUnits(n, e);
      PowInverse(DIGITS - e);
      PowStep(e - DIGITS - 1);
      Ordered(x, n as real, Pow(DIGITS - e));
      EvenUnits(Scaled(x), n * Pow2(DIGITS - e));
      AboveInUnits(x, Scaled(x), n as real, Pow(DIGITS - e), Pow(e - DIGITS), (n * Pow2(DIGITS - e)) as real, Nearest(Scaled(x)) as real);
    } else {
      NextBinade(x, n);
    }
  }

  lemma EvenUnits(y: real, k: int)
    requires k % 2 == 0 && y >= k as real
    ensures Nearest(y) as real > k as real <==> y > k as real + 0.5
  {
    hide Nearest;
    NearestIsNear(y, k);
  }

  lemma HalfUlpIs(x: real)
    requires x > 0.0
    ensures HalfUlp(x) == Pow(Exponent(x) - DIGITS - 1)
  {
  }

  lemma AboveInUnits(x: real, y: real, n: real, s: real, u: real, k: real, m: real)
    requires s > 0.0 && u > 0.0 && s * u == 1.0 && n * s == k && x * s == y
    requires m > k <==> y > k + 0.5
    ensures m * u > n <==> x - n > u / 2.0
  {
    Associate(n, s, u);
    Associate(x, s, u);
    assert (m - k) * u == m * u - k * u;
    assert (y - (k + 0.5)) * u == y * u - k * u - u / 2.0;
    SameSign(m - k, u);
    SameSign(y - (k + 0.5), u);
  }

  /** Between n and a number with more digits lies a power of two. */
  lemma NextBinade(x: real, n: nat)
    requires 0 < n && n as real <= x < Pow(DIGITS) && Exponent(x) != Exponent(n as real)
    ensures Float(x) > n as real && x - n as real > HalfUlp(n as real)
  {
    hide Pow, Nearest, Exponent, Float;
    var e, f := Exponent(x), Exponent(n as real);
    ExponentBelowDigits(x, DIGITS);
    if e < f {
      PowMonotone(e + 1, f);
    }
    if f < 0 {
      PowMonotone(f + 1, 0);
      PowZero();
    }
    PowMonotone(f + 1, e);
    PowMonotone(e, DIGITS);
    PowIsInteger(f + 1);
    var p := Pow2(f + 1);
    assert x >= p as real && p > n;
    PowMonotone(DIGITS, DIGITS + 1);
    FloatKeepsOrder(x, p);
    PowMonotone(f - DIGITS - 1, -1);
    PowZero();
  }

  lemma PowZero()
    ensures Pow(0) == 1.0 && Pow(-1) == 0.5
  {
  }
}
