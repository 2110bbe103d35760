/** Powers of two over the reals, and frexp. */
module Dyadic {
  import opened Bits

  function Two(e: int): (r: real)
    ensures r > 0.0
  {
    if e >= 0 then Pow2(e) as real else 1.0 / Pow2(-e) as real
  }

  lemma {:induction false} TwoNext(e: int)
    ensures Two(e + 1) == 2.0 * Two(e)
  {
    if e < -1 {
      var p := Pow2(-e - 1) as real;
      assert Pow2(-e) == 2 * Pow2(-e - 1);
      assert Pow2(-e) as real == 2.0 * p;
      Halve(p);
    } else if e == -1 {
      assert Pow2(1) == 2;
    } else {
      assert Pow2(e + 1) == 2 * Pow2(e);
    }
  }

  lemma TwoZero()
    ensures Two(0) == 1.0
  {
  }

  lemma Halve(p: real)
    requires p > 0.0
    ensures 1.0 / p == 2.0 * (1.0 / (2.0 * p))
  {
  }

  lemma TwoInverse(e: int)
    requires e < 0
    ensures Two(e) == 1.0 / Two(-e)
  {
  }

  function Magnitude(x: real): (r: real)
    ensures r >= 0.0
  {
    if x < 0.0 then -x else x
  }

  /** How far a number is from [1/2, 1). */
  function Distance(x: real): nat
    requires x > 0.0
  {
    if x >= 1.0 then x.Floor else if x < 0.5 then InverseFloor(x); (1.0 / x).Floor else 0
  }

  lemma InverseFloor(x: real)
    requires 0.0 < x < 0.5
    ensures 1.0 / x > 2.0 && (1.0 / x).Floor >= 2
  {
    var y := 1.0 / x;
    assert y * x == 1.0;
    ScaleReal(y, 2.0, x);
  }

  lemma ScaleReal(a: real, b: real, x: real)
    requires x > 0.0
    ensures a <= b ==> a * x <= b * x
  {
  }

  lemma DistanceShrinks(x: real)
    requires x > 0.0
    ensures x >= 1.0 ==> Distance(x / 2.0) < Distance(x)
    ensures x < 0.5 ==> Distance(2.0 * x) < Distance(x)
  {
    if x < 0.5 {
      InverseFloor(x);
      var y := 1.0 / x;
      Halve(x);
      assert 1.0 / (2.0 * x) == y / 2.0;
    }
  }

  /** The mantissa in [1/2, 1) and the exponent. */
  function Frexp(x: real): (r: (real, int))
    requires x > 0.0
    decreases Distance(x)
  {
    DistanceShrinks(x);
    if x >= 1.0 then var r := Frexp(x / 2.0); (r.0, r.1 + 1)
    else if x < 0.5 then var r := Frexp(2.0 * x); (r.0, r.1 - 1)
    else (x, 0)
  }

  lemma FrexpLarge(x: real, y: real)
    requires x >= 1.0 && x == 2.0 * y
    ensures y > 0.0 && Frexp(x) == (Frexp(y).0, Frexp(y).1 + 1)
  {
    assert x / 2.0 == y;
  }

  lemma FrexpSmall(x: real, y: real)
    requires 0.0 < x < 0.5 && y == 2.0 * x
    ensures Frexp(x) == (Frexp(y).0, Frexp(y).1 - 1)
  {
  }

  /** frexp finds the one way to write a number so. */
  lemma {:induction false} FrexpUnique(x: real, m: real, e: int)
    requires 0.5 <= m < 1.0 && x == m * Two(e)
    ensures x > 0.0 && Frexp(x) == (m, e)
    decreases if e < 0 then -e else e
  {
    hide Two, Frexp;
    Product(m, Two(e));
    if e > 0 {
      var y := m * Two(e - 1);
      TwoNext(e - 1);
      Doubled(m, Two(e), Two(e - 1));
      AtLeastOne(m, e);
      FrexpLarge(x, y);
      FrexpUnique(y, m, e - 1);
    } else if e < 0 {
      var y := m * Two(e + 1);
      TwoNext(e);
      Doubled(m, Two(e + 1), Two(e));
      BelowHalf(m, e);
      FrexpSmall(x, y);
      FrexpUnique(y, m, e + 1);
    } else {
      TwoZero();
      FrexpUnit(m, x);
    }
  }

  lemma Doubled(m: real, a: real, b: real)
    requires a == 2.0 * b
    ensures m * a == 2.0 * (m * b)
  {
  }

  lemma FrexpUnit(m: real, x: real)
    requires 0.5 <= m < 1.0 && x == m * 1.0
    ensures Frexp(x) == (m, 0)
  {
  }

  lemma Product(a: real, b: real)
    requires a > 0.0 && b > 0.0
    ensures a * b > 0.0
  {
  }

  lemma AtLeastOne(m: real, e: int)
    requires 0.5 <= m && e > 0
    ensures m * Two(e) >= 1.0
  {
    assert Pow2(e) == 2 * Pow2(e - 1);
    var p := Two(e);
    assert p >= 2.0;
    assert m * p >= 0.5 * p;
  }

  lemma BelowHalf(m: real, e: int)
    requires 0.0 < m < 1.0 && e < 0
    ensures m * Two(e) < 0.5
  {
    assert Pow2(-e) == 2 * Pow2(-e - 1);
    var p := Pow2(-e) as real;
    assert p >= 2.0;
    var q := 1.0 / p;
    assert q * p == 1.0;
    assert q <= 0.5;
    assert m * q < q;
  }

  /** Smaller numbers are written as zero. */
  const TINY := 0.000000000000000000000000000001

  /** Scaling by the exponent, as a product or a quotient. */
  function Scaled(v: real, exponent: int): real
  {
    if exponent > 0 then v * Two(exponent) else if exponent < 0 then v / Two(-exponent) else v
  }

  lemma ScaledIsProduct(v: real, exponent: int)
    ensures Scaled(v, exponent) == v * Two(exponent)
  {
    hide Two;
    if exponent == 0 {
      TwoZero();
    } else if exponent < 0 {
      TwoInverse(exponent);
      QuotientIsProduct(v, Two(-exponent));
    }
  }

  lemma QuotientIsProduct(v: real, t: real)
    requires t > 0.0
    ensures v / t == v * (1.0 / t)
  {
  }

  lemma HalfDouble(s: real, t: real)
    ensures s * t == (s / 2.0) * (2.0 * t)
  {
  }

  lemma Negated(s: real, t: real)
    ensures (-s) * t == -(s * t)
  {
  }
}
