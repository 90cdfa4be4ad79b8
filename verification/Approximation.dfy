/** The guarantee of the flow solver for the delta and the scale that the source computes: its result
    is within (1-e)^3 of every flow the capacities allow. The logarithms behind it are replaced by
    comparing powers, with the inequality of arithmetic and geometric means. */
module Approximation {
  import opened RealVectors
  import opened Growth
  import opened FlowNetwork
  import opened FlowAnalysis
  import opened SingleLink
  import opened MaxFlow

  // ------------------------------------------------------------------
  // Powers and means

  lemma NotNegative(x: real, y: real)
    requires x >= 0.0 && y >= 0.0
    ensures Mul(x, y) >= 0.0
  {}

  lemma LessTimes(x: real, y: real, z: real)
    requires x <= y && z >= 0.0
    ensures Mul(x, z) <= Mul(y, z) && Mul(z, x) <= Mul(z, y)
  {}

  lemma LessStrictly(x: real, y: real, z: real)
    requires z > 0.0 && (Mul(x, z) < Mul(y, z) || Mul(z, x) < Mul(z, y))
    ensures x < y
  {}

  lemma SameFactor(x: real, y: real, z: real)
    requires z > 0.0 && Mul(x, z) == Mul(y, z)
    ensures x == y
  {}

  lemma QuotientOf(x: real, y: real)
    requires y > 0.0
    ensures Mul(x / y, y) == x && (x > 0.0 ==> x / y > 0.0)
  {}

  lemma {:induction false} Bernoulli(y: real, n: nat)
    requires y >= 0.0
    ensures Pow(y, n) >= 1.0 + Mul(n as real, y - 1.0)
  {
    hide Mul;
    if n == 0 {
      MulZero(y - 1.0);
    } else {
      Bernoulli(y, n - 1);
      PowOrder(y, y, n - 1);
      BernoulliStep(y, (n - 1) as real, Pow(y, n - 1));
    }
  }

  lemma BernoulliStep(y: real, n: real, p: real)
    requires y >= 0.0 && n >= 0.0 && p >= 0.0 && p >= 1.0 + Mul(n, y - 1.0)
    ensures Mul(y, p) >= 1.0 + Mul(n + 1.0, y - 1.0)
  {
    hide Mul;
    var z := y - 1.0;
    BernoulliTerms(n, z);
    NotNegative(y, p);
    if z >= 0.0 { NotNegative(n, z); }
    LessTimes(1.0 + Mul(n, z), p, y);
  }

  lemma BernoulliTerms(n: real, z: real)
    requires n >= 0.0
    ensures Mul(1.0 + z, 1.0 + Mul(n, z)) >= 1.0 + Mul(n + 1.0, z) && Mul(n + 1.0, z) == Mul(n, z) + z
  {
    Square(n, z);
    assert (1.0 + z) * (1.0 + n * z) == 1.0 + n * z + z + n * (z * z);
  }

  lemma Square(n: real, z: real)
    requires n >= 0.0
    ensures n * (z * z) >= 0.0
  {
    assert z * z >= 0.0;
  }

  // The mean of k numbers b and n - k ones.
  function Mean(b: real, k: nat, n: nat): real
    requires 0 < k <= n
  {
    (Mul(b, k as real) + (n as real - k as real)) / n as real
  }

  lemma MeanIs(b: real, k: nat, n: nat)
    requires 0 < k <= n
    ensures Mul(Mean(b, k, n), n as real) == Mul(b, k as real) + (n as real - k as real)
    ensures b > 0.0 ==> Mean(b, k, n) > 0.0
  {
    hide Mul;
    QuotientOf(Mul(b, k as real) + (n as real - k as real), n as real);
    if b > 0.0 { PositiveProduct(b, k as real); }
  }

  /** The geometric mean is not above the arithmetic one. */
  lemma {:induction false} MeanPower(b: real, k: nat, n: nat)
    requires b > 0.0 && 0 < k <= n
    ensures Pow(Mean(b, k, n), n) >= Pow(b, k)
    decreases n
  {
    hide Mean, Pow, Mul;
    MeanIs(b, k, n);
    if n == k {
      SameFactor(Mean(b, k, n), b, n as real);
    } else {
      MeanPower(b, k, n - 1);
      MeanIs(b, k, n - 1);
      OneMore(Mean(b, k, n - 1), Mean(b, k, n), n);
    }
  }

  lemma OneMore(a: real, c: real, n: nat)
    requires n > 0 && a > 0.0 && c > 0.0 && Mul(c, n as real) == Mul(a, (n - 1) as real) + 1.0
    ensures Pow(c, n) >= Pow(a, n - 1)
  {
    hide Mul;
    var y := c / a;
    QuotientOf(c, a);
    Bernoulli(y, n);
    PowProduct(y, a, n);
    PowPositive(a, n - 1);
    OneMoreReal(a, c, y, n as real);
    GrowBy(a, 1.0 + Mul(n as real, y - 1.0), Pow(y, n), Pow(a, n - 1));
  }

  lemma OneMoreReal(a: real, c: real, y: real, n: real)
    requires Mul(y, a) == c && Mul(c, n) == Mul(a, n - 1.0) + 1.0
    ensures Mul(a, 1.0 + Mul(n, y - 1.0)) == 1.0
  {
    assert a * (n * (y - 1.0)) == n * (y * a) - n * a;
    assert a * (1.0 + n * (y - 1.0)) == a + a * (n * (y - 1.0));
  }

  lemma GrowBy(a: real, low: real, y: real, p: real)
    requires a > 0.0 && p > 0.0 && low <= y && Mul(a, low) == 1.0
    ensures Mul(y, Mul(a, p)) >= p
  {
    hide Mul;
    LessTimes(low, y, a);
    TimesAssociate(y, a, p);
    Commutes(y, a);
    LessTimes(1.0, Mul(y, a), p);
    OneTimes(p);
  }

  lemma Commutes(x: real, y: real)
    ensures Mul(x, y) == Mul(y, x)
  {}

  lemma {:induction false} PowFalls(b: real, j: nat, k: nat)
    requires 0.0 < b < 1.0 && j < k
    ensures Pow(b, k) < Pow(b, j)
  {
    hide Mul;
    PowPositive(b, k - 1);
    Shrinks(b, Pow(b, k - 1));
    if j < k - 1 { PowFalls(b, j, k - 1); }
  }

  lemma Shrinks(b: real, p: real)
    requires 0.0 < b < 1.0 && p > 0.0
    ensures Mul(b, p) < p
  {}

  lemma PowOrderStrict(x: real, y: real, k: nat)
    requires 0.0 < x < y && k > 0
    ensures Pow(x, k) < Pow(y, k)
  {
    hide Mul;
    PowPositive(x, k - 1);
    PowOrder(x, y, k - 1);
    StrictTimes(x, y, Pow(x, k - 1));
    LessTimes(Pow(x, k - 1), Pow(y, k - 1), y);
  }

  lemma StrictTimes(x: real, y: real, z: real)
    requires x < y && z > 0.0
    ensures Mul(x, z) < Mul(y, z)
  {}

  // Powers of numbers below one: the exponents are as far apart as the distances from one allow.
  lemma CompareBelowOne(w: real, b: real, x: nat, y: nat)
    requires 0.0 < b <= w < 1.0 && Pow(w, x) <= Pow(b, y)
    ensures Mul(x as real, 1.0 - w) >= Mul(y as real, 1.0 - b)
  {
    hide Pow, Mean, Mul;
    if Mul(x as real, 1.0 - w) < Mul(y as real, 1.0 - b) {
      PowOrder(b, w, x);
      NotNegative(x as real, 1.0 - w);
      if y == 0 {
        MulZero(1.0 - b);
      } else if y > x {
        PowFalls(b, x, y);
      } else {
        MeanIs(b, y, x);
        BelowMean(w, b, x as real, y as real, Mean(b, y, x));
        MeanPower(b, y, x);
        PowOrderStrict(Mean(b, y, x), w, x);
      }
      assert false;
    }
  }

  lemma BelowMean(w: real, b: real, x: real, y: real, mean: real)
    requires x > 0.0 && Mul(x, 1.0 - w) < Mul(y, 1.0 - b) && Mul(mean, x) == Mul(b, y) + (x - y)
    ensures mean < w
  {
    assert x * (1.0 - w) == x - w * x && y * (1.0 - b) == y - b * y;
    LessStrictly(mean, w, x);
  }

  // Powers of numbers above one.
  lemma CompareAboveOne(y: real, e: real, x: nat, n: nat)
    requires 0.0 < e <= y && Pow(1.0 + y, x) >= Pow(1.0 + e, n)
    ensures Mul(x as real, y) >= Mul(n as real, e)
  {
    hide Pow, Mean, Mul;
    if Mul(x as real, y) < Mul(n as real, e) {
      Smaller(x as real, n as real, y, e);
      if x == 0 {
        PowStrict(1.0 + e, 0, n);
        PowZero(1.0 + y);
        PowZero(1.0 + e);
      } else {
        var z := Mul(n as real, e) / x as real;
        QuotientOf(Mul(n as real, e), x as real);
        Commutes(y, x as real);
        LessStrictly(y, z, x as real);
        MeanIs(1.0 + z, x, n);
        MeanAbove(z, x as real, n as real, e);
        SameFactor(Mean(1.0 + z, x, n), 1.0 + e, n as real);
        MeanPower(1.0 + z, x, n);
        PowOrderStrict(1.0 + y, 1.0 + z, x);
      }
      assert false;
    }
  }

  lemma PowZero(b: real)
    ensures Pow(b, 0) == 1.0
  {}

  lemma Smaller(x: real, n: real, y: real, e: real)
    requires 0.0 < e <= y && x >= 0.0 && Mul(x, y) < Mul(n, e)
    ensures x < n
  {
    hide Mul;
    LessTimes(e, y, x);
    LessStrictly(x, n, e);
  }

  lemma MeanAbove(z: real, x: real, n: real, e: real)
    requires Mul(z, x) == Mul(n, e)
    ensures Mul(1.0 + z, x) + (n - x) == Mul(1.0 + e, n)
  {}

  /** If x factors 1-e/r outweigh y factors 1+e, then x is at least (1-e) r times y. */
  lemma RatioOfPowers(e: real, r: real, x: nat, y: nat)
    requires 0.0 < e < 1.0 && r >= 1.0 && Mul(Pow(1.0 - e / r, x), Pow(1.0 + e, y)) <= 1.0
    ensures x as real >= Mul(Mul(1.0 - e, r), y as real)
  {
    hide Pow, Mul;
    var w, b := 1.0 - e / r, 1.0 / (1.0 + e);
    Parts(e, r);
    PowPositive(1.0 + e, y);
    InversePower(1.0 + e, b, y);
    AtMostInverse(Pow(w, x), Pow(1.0 + e, y), Pow(b, y));
    if r >= 1.0 + e {
      CompareBelowOne(w, b, x, y);
      LargeRatio(e, r, x as real, y as real);
    } else {
      var z := e / (r - e);
      InversePower(w, 1.0 + z, x);
      PowPositive(w, x);
      AtLeastInverse(Pow(w, x), Pow(1.0 + z, x), Pow(1.0 + e, y));
      CompareAboveOne(z, e, x, y);
      SmallRatio(e, r, x as real, y as real, z);
    }
  }

  lemma Parts(e: real, r: real)
    requires 0.0 < e < 1.0 && r >= 1.0
    ensures 0.0 < 1.0 - e <= 1.0 - e / r < 1.0 && 0.0 < 1.0 / (1.0 + e) < 1.0 && Mul(1.0 + e, 1.0 / (1.0 + e)) == 1.0
    ensures r >= 1.0 + e ==> 1.0 / (1.0 + e) <= 1.0 - e / r
    ensures r > e && Mul(1.0 - e / r, 1.0 + e / (r - e)) == 1.0
    ensures r <= 1.0 + e ==> e / (r - e) >= e
  {
    var z, b := e / r, 1.0 / (1.0 + e);
    QuotientOf(e, r);
    QuotientOf(1.0, 1.0 + e);
    Commutes(1.0 + e, b);
    QuotientAtMost(e, r);
    FirstPart(e, r, z, b);
    var y := e / (r - e);
    QuotientOf(e, r - e);
    SecondPart(e, r, z, y);
  }

  lemma QuotientAtMost(e: real, r: real)
    requires e > 0.0 && r >= 1.0
    ensures e / r <= e
  {
    QuotientOf(e, r);
    LessTimes(1.0, r, e / r);
  }

  lemma FirstPart(e: real, r: real, z: real, b: real)
    requires 0.0 < e && r >= 1.0 && Mul(z, r) == e && Mul(b, 1.0 + e) == 1.0 && b > 0.0 && z > 0.0
    ensures b < 1.0 && (r >= 1.0 + e ==> b <= 1.0 - z)
  {
    assert b * (1.0 + e) == b + b * e;
    assert b * e > 0.0;
    if r >= 1.0 + e {
      LessTimes(1.0 + e, r, z);
      assert (1.0 - z) * (1.0 + e) == 1.0 + e - z * (1.0 + e);
      if b > 1.0 - z {
        StrictTimes(1.0 - z, b, 1.0 + e);
        assert false;
      }
    }
  }

  lemma SecondPart(e: real, r: real, z: real, y: real)
    requires 0.0 < e < r && Mul(z, r) == e && Mul(y, r - e) == e
    ensures Mul(1.0 - z, 1.0 + y) == 1.0 && (r <= 1.0 + e ==> y >= e)
  {
    assert ((1.0 - z) * (1.0 + y)) * r == (r - z * r) * (1.0 + y);
    assert (r - e) * (1.0 + y) == (r - e) + y * (r - e);
    SameFactor((1.0 - z) * (1.0 + y), 1.0, r);
    if r <= 1.0 + e && y < e {
      StrictTimes(y, e, r - e);
      LessTimes(r - e, 1.0, e);
      assert false;
    }
  }

  lemma InversePower(a: real, b: real, k: nat)
    requires Mul(a, b) == 1.0
    ensures Mul(Pow(a, k), Pow(b, k)) == 1.0
  {
    PowProduct(a, b, k);
    PowOfOne(k);
  }

  lemma AtMostInverse(x: real, a: real, b: real)
    requires a > 0.0 && Mul(x, a) <= 1.0 && Mul(a, b) == 1.0
    ensures x <= b
  {
    if x > b {
      StrictTimes(b, x, a);
      assert false;
    }
  }

  lemma AtLeastInverse(x: real, v: real, a: real)
    requires x > 0.0 && Mul(x, v) == 1.0 && Mul(x, a) <= 1.0
    ensures v >= a
  {
    if v < a {
      StrictTimes(v, a, x);
      assert false;
    }
  }

  lemma LargeRatio(e: real, r: real, x: real, y: real)
    requires 0.0 < e < 1.0 && r >= 1.0 && x >= 0.0 && y >= 0.0
    requires Mul(x, 1.0 - (1.0 - e / r)) >= Mul(y, 1.0 - 1.0 / (1.0 + e))
    ensures x >= Mul(Mul(1.0 - e, r), y)
  {
    hide Mul;
    QuotientOf(e, r);
    QuotientOf(1.0, 1.0 + e);
    LargeTerms(e, r, x, y, e / r, 1.0 / (1.0 + e));
  }

  lemma LargeTerms(e: real, r: real, x: real, y: real, z: real, b: real)
    requires 0.0 < e < 1.0 && r >= 1.0 && y >= 0.0
    requires Mul(z, r) == e && Mul(b, 1.0 + e) == 1.0 && Mul(x, 1.0 - (1.0 - z)) >= Mul(y, 1.0 - b)
    ensures x >= Mul(Mul(1.0 - e, r), y)
  {
    var d := 1.0 - b;
    assert d * (1.0 + e) == e;
    var f := 1.0 + e;
    assert x * z >= y * d;
    LessTimes(y * d, x * z, r);
    assert (x * z) * r == x * (z * r);
    assert x * e >= (y * d) * r;
    LessTimes((y * d) * r, x * e, f);
    assert ((y * d) * r) * f == (y * r) * (d * f);
    assert (x * e) * f == (x * f) * e;
    LessThan(y * r, x * f, e);
    NotNegative(r, y);
    AlmostOne(e, y * r, x);
  }

  lemma LessThan(x: real, y: real, z: real)
    requires z > 0.0 && Mul(x, z) <= Mul(y, z)
    ensures x <= y
  {}

  lemma AlmostOne(e: real, y: real, x: real)
    requires 0.0 < e < 1.0 && y >= 0.0 && x * (1.0 + e) >= y
    ensures x >= (1.0 - e) * y
  {
    LessTimes(y, x * (1.0 + e), 1.0 - e);
    assert (x * (1.0 + e)) * (1.0 - e) == x - x * (e * e);
    if x < 0.0 {
      StrictTimes(x, 0.0, 1.0 + e);
      assert false;
    }
    NotNegative(x, e * e);
  }

  lemma SmallRatio(e: real, r: real, x: real, y: real, z: real)
    requires 0.0 < e < 1.0 && r >= 1.0 && y >= 0.0 && z == e / (r - e) && Mul(x, z) >= Mul(y, e)
    ensures x >= Mul(Mul(1.0 - e, r), y)
  {
    hide Mul;
    QuotientOf(e, r - e);
    SmallTerms(e, r, x, y, z);
  }

  lemma SmallTerms(e: real, r: real, x: real, y: real, z: real)
    requires 0.0 < e < 1.0 && r >= 1.0 && y >= 0.0 && Mul(z, r - e) == e && Mul(x, z) >= Mul(y, e)
    ensures x >= Mul(Mul(1.0 - e, r), y)
  {
    var d := r - e;
    LessTimes(y * e, x * z, d);
    assert (x * z) * d == x * (z * d);
    assert (y * e) * d == (y * d) * e;
    LessThan(y * d, x, e);
    LessTimes(1.0, r, e);
    assert (1.0 - e) * r == r - e * r;
    LessTimes((1.0 - e) * r, d, y);
  }

  // ------------------------------------------------------------------
  // The source's delta

  /** delta is m/(1-eps) to the power -1/eps: delta^u is at most ((1-eps)/m)^v exactly when u/v is at
      least eps. */
  ghost predicate IsDelta(eps: real, m: real, delta: real) {
    delta > 0.0 && forall u: nat, v: nat :: v > 0 ==>
      (Mul(Pow(delta, u), Pow(m, v)) <= Pow(1.0 - eps, v) <==> u as real >= Mul(eps, v as real))
  }

  /** Such a delta exists: for eps = 1/n it is the n-th power of (1-eps)/m. */
  lemma ExactDelta(n: nat, eps: real, m: real)
    requires n > 1 && eps == 1.0 / n as real && m >= 1.0
    ensures IsDelta(eps, m, Pow((1.0 - eps) / m, n))
  {
    hide Pow, Mul;
    var c := (1.0 - eps) / m;
    UnitFraction(n, eps);
    QuotientOf(1.0 - eps, m);
    LessTimes(1.0, m, c);
    OneTimes(c);
    PowPositive(c, n);
    forall u: nat, v: nat | v > 0
      ensures Mul(Pow(Pow(c, n), u), Pow(m, v)) <= Pow(1.0 - eps, v) <==> u as real >= Mul(eps, v as real)
    {
      PowTimes(c, n, u);
      PowProduct(c, m, v);
      PowPositive(m, v);
      Ordered(Pow(c, n * u), Pow(c, v), Pow(m, v));
      PowerOrder(c, n * u, v);
      TimesFraction(n, u, v, eps);
    }
  }

  lemma UnitFraction(n: nat, eps: real)
    requires n > 1 && eps == 1.0 / n as real
    ensures 0.0 < eps < 1.0 && Mul(eps, n as real) == 1.0
  {
    QuotientOf(1.0, n as real);
    LessStrictly(eps, 1.0, n as real);
  }

  lemma Ordered(x: real, y: real, z: real)
    requires z > 0.0
    ensures Mul(x, z) <= Mul(y, z) <==> x <= y
  {
    hide Mul;
    if x <= y { LessTimes(x, y, z); } else { StrictTimes(y, x, z); }
  }

  lemma PowerOrder(c: real, j: nat, k: nat)
    requires 0.0 < c < 1.0
    ensures Pow(c, j) <= Pow(c, k) <==> j >= k
  {
    if j < k { PowFalls(c, j, k); } else if k < j { PowFalls(c, k, j); }
  }

  lemma TimesFraction(n: nat, u: nat, v: nat, eps: real)
    requires n > 0 && Mul(eps, n as real) == 1.0
    ensures n * u >= v <==> u as real >= Mul(eps, v as real)
  {
    hide Mul;
    RealProduct(n, u);
    FractionTerms(n as real, u as real, v as real, eps);
    Ordered(Mul(eps, v as real), u as real, n as real);
  }

  lemma FractionTerms(n: real, u: real, v: real, eps: real)
    requires Mul(eps, n) == 1.0
    ensures Mul(Mul(eps, v), n) == v && Mul(u, n) == n * u
  {
    Associate(eps, v, n);
    Associate(eps, n, v);
  }

  lemma DeltaAt(eps: real, m: real, delta: real, u: nat, v: nat)
    requires IsDelta(eps, m, delta) && v > 0 && u as real >= Mul(eps, v as real)
    ensures delta > 0.0 && Mul(Pow(delta, u), Pow(m, v)) <= Pow(1.0 - eps, v)
  {
    hide Pow, Mul;
  }

  // What one phase more or less means at the power v.
  lemma OnePhaseLess(eps: real, m: real, delta: real, w: real, t: nat, u: nat, v: nat)
    requires 0.0 < 1.0 - eps <= w < 1.0 && m >= 1.0 && delta > 0.0 && u <= v && v > 0
    requires Mul(Pow(delta, u), Pow(m, v)) <= Pow(1.0 - eps, v) && t > 0 && Pow(w, t) <= Mul(m, delta)
    ensures Pow(w, (t - 1) * v) <= Pow(delta, v - u)
  {
    hide Pow, Mul;
    PowPositive(w, t);
    PowOrder(Pow(w, t), Mul(m, delta), v);
    PowTimes(w, t, v);
    PowProduct(m, delta, v);
    PowAdd(delta, u, v - u);
    PowOrder(1.0 - eps, w, v);
    PowPositive(w, v);
    PowPositive(delta, v - u);
    assert t * v == v + (t - 1) * v;
    PowAdd(w, v, (t - 1) * v);
    Chain(Pow(w, v), Pow(w, (t - 1) * v), Pow(m, v), Pow(delta, u), Pow(delta, v - u), Pow(1.0 - eps, v));
  }

  lemma Chain(w: real, rest: real, m: real, d: real, d': real, low: real)
    requires w > 0.0 && d' > 0.0 && Mul(w, rest) <= Mul(m, Mul(d, d')) && Mul(d, m) <= low <= w
    ensures rest <= d'
  {
    Associate(m, d, d');
    assert m * (d * d') == (d * m) * d';
    LessTimes(d * m, w, d');
    assert rest * w <= d' * w;
    LessThan(rest, d', w);
  }

  lemma PhasePower(eps: real, m: real, delta: real, r: real, t: nat, u: nat, v: nat, p: nat, q: nat)
    requires 0.0 < eps < 1.0 && m >= 1.0 && r >= 1.0 && IsDelta(eps, m, delta) && Pow(1.0 - eps / r, t) <= Mul(m, delta)
    requires v > 0 && u <= v && u as real >= Mul(eps, v as real) && q > 0 && !Covers(eps, delta, p, q)
    ensures t > 0 && Mul(Pow(1.0 - eps / r, (t - 1) * v * q), Pow(1.0 + eps, p * (v - u))) <= 1.0
  {
    hide Pow, Mul, IsDelta;
    var w := 1.0 - eps / r;
    Parts(eps, r);
    SomePhase(eps, m, delta, w, t);
    DeltaAt(eps, m, delta, u, v);
    OnePhaseLess(eps, m, delta, w, t, u, v);
    PowPositive(w, (t - 1) * v);
    PowOrder(Pow(w, (t - 1) * v), Pow(delta, v - u), q);
    PowTimes(w, (t - 1) * v, q);
    PowTimes(delta, v - u, q);
    BelowCover(eps, delta, p, q, v - u);
    assert (v - u) * q == q * (v - u);
    PowPositive(1.0 + eps, p * (v - u));
    LessTimes(Pow(w, (t - 1) * v * q), Pow(delta, q * (v - u)), Pow(1.0 + eps, p * (v - u)));
  }

  lemma SomePhase(eps: real, m: real, delta: real, w: real, t: nat)
    requires 0.0 < eps < 1.0 && IsDelta(eps, m, delta) && Pow(w, t) <= Mul(m, delta)
    ensures t > 0
  {
    hide IsDelta, Mul, Pow;
    OneTimes(eps);
    DeltaAt(eps, m, delta, 1, 1);
    PowOne(delta);
    PowOne(m);
    PowOne(1.0 - eps);
    Commutes(m, delta);
    PowZero(w);
  }

  lemma PowOne(b: real)
    ensures Pow(b, 1) == b
  {
    assert Pow(b, 1) == b * Pow(b, 0);
  }

  lemma BelowCover(eps: real, delta: real, p: nat, q: nat, k: nat)
    requires eps > 0.0 && delta > 0.0 && q > 0 && !Covers(eps, delta, p, q)
    ensures Mul(Pow(delta, q * k), Pow(1.0 + eps, p * k)) <= 1.0
  {
    hide Pow, Mul;
    PowPositive(delta, q);
    PowPositive(1.0 + eps, p);
    PositiveProduct(Pow(delta, q), Pow(1.0 + eps, p));
    PowOrder(Mul(Pow(delta, q), Pow(1.0 + eps, p)), 1.0, k);
    PowOfOne(k);
    PowProduct(Pow(delta, q), Pow(1.0 + eps, p), k);
    PowTimes(delta, q, k);
    PowTimes(1.0 + eps, p, k);
  }

  /** The number of phases: times the scale it is at least (1-eps)^2 r for every feasible r from one on. */
  lemma PhasesServe(eps: real, m: real, delta: real, s: real, r: real, t: nat)
    requires 0.0 < eps < 1.0 && m >= 1.0 && r >= 1.0 && IsDelta(eps, m, delta) && IsLogScale(eps, delta, s)
    requires Pow(1.0 - eps / r, t) <= Mul(m, delta)
    ensures Mul(s, t as real - 1.0) >= Mul(Mul(1.0 - eps, 1.0 - eps), r)
  {
    hide Pow, Mul, IsDelta, IsLogScale, Covers, Level;
    Parts(eps, r);
    SomePhase(eps, m, delta, 1.0 - eps / r, t);
    ScalePositive(eps, delta, s);
    var n := (t - 1) as real;
    if Mul(s, n) < Mul(Mul(1.0 - eps, 1.0 - eps), r) {
      var a, v, p, q := TooFewPhases(eps, s, r, n);
      NotReached(eps, delta, s, p, q);
      PhasePower(eps, m, delta, r, t, v - a, v, p, q);
      RatioOfPowers(eps, r, (t - 1) * v * q, p * a);
      InReals(t - 1, v, q, p, a);
      assert false;
    }
  }

  lemma NotReached(eps: real, delta: real, s: real, p: nat, q: nat)
    requires IsLogScale(eps, delta, s) && q > 0 && q as real > Mul(s, p as real)
    ensures !Covers(eps, delta, p, q)
  {
    hide Covers, Mul;
  }

  lemma InReals(t: nat, v: nat, q: nat, p: nat, a: nat)
    ensures (t * v * q) as real == Mul(Mul(t as real, v as real), q as real)
    ensures (p * a) as real == Mul(p as real, a as real)
  {
    RealProduct(t * v, q);
    RealProduct(t, v);
    RealProduct(p, a);
  }

  // Fractions a/v and p/q below 1-eps and 1/s that n is too small for.
  lemma TooFewPhases(eps: real, s: real, r: real, n: real) returns (a: nat, v: nat, p: nat, q: nat)
    requires 0.0 < eps < 1.0 && s > 0.0 && r >= 1.0 && n >= 0.0 && Mul(s, n) < Mul(Mul(1.0 - eps, 1.0 - eps), r)
    ensures v > 0 && a <= v && (v - a) as real >= Mul(eps, v as real) && q > 0 && q as real > Mul(s, p as real)
    ensures Mul(Mul(n, v as real), q as real) < Mul(Mul(1.0 - eps, r), Mul(p as real, a as real))
  {
    hide Mul, Level;
    var c := 1.0 - eps;
    PositiveProduct(c, r);
    var x := n / Mul(c, r);
    QuotientOf(n, Mul(c, r));
    ShareBelow(s, n, c, r, x);
    NotNegative(x, s);
    a, v := FractionBetween((Mul(x, s) + c) / 2.0, c);
    Portion(a, v, c, (Mul(x, s) + c) / 2.0);
    var l := Level(a, v);
    var at, top := x / l, 1.0 / s;
    QuotientOf(x, l);
    QuotientOf(1.0, s);
    RoomLeft(x, s, l, at, top);
    p, q := FractionBetween((at + top) / 2.0 , (at + top) / 2.0 + (top - at) / 4.0);
    LevelIs(p, q);
    LevelIs(a, v);
    BelowTop(s, top, Level(p, q), p as real, q as real);
    Exceeds(x, l, at, Level(p, q));
    Together(n, Mul(c, r), x, l, Level(p, q), a as real, v as real, p as real, q as real);
  }

  lemma LevelIs(p: nat, q: nat)
    requires q > 0
    ensures Mul(Level(p, q), q as real) == p as real
  {}

  lemma ShareBelow(s: real, n: real, c: real, r: real, x: real)
    requires s > 0.0 && c > 0.0 && r > 0.0 && n >= 0.0 && Mul(x, Mul(c, r)) == n && Mul(s, n) < Mul(Mul(c, c), r)
    ensures Mul(x, s) < c && x >= 0.0
  {
    assert s * n == (x * s) * (c * r);
    assert (c * c) * r == c * (c * r);
    LessStrictly(x * s, c, c * r);
    if x < 0.0 {
      StrictTimes(x, 0.0, c * r);
      assert false;
    }
  }

  lemma Portion(a: nat, v: nat, c: real, low: real)
    requires v > 0 && 0.0 < low <= Level(a, v) <= c < 1.0
    ensures a <= v && (v - a) as real >= Mul(1.0 - c, v as real)
  {
    LevelIs(a, v);
    LessTimes(Level(a, v), c, v as real);
    assert (1.0 - c) * v as real == v as real - c * v as real;
    LessTimes(c, 1.0, v as real);
    assert a as real <= v as real;
  }

  lemma RoomLeft(x: real, s: real, l: real, at: real, top: real)
    requires s > 0.0 && l > 0.0 && x >= 0.0 && Mul(x, s) < l && Mul(at, l) == x && Mul(top, s) == 1.0
    ensures 0.0 <= at < top
  {
    if at < 0.0 {
      StrictTimes(at, 0.0, l);
      assert false;
    }
    assert (at * s) * l == x * s;
    LessStrictly(at * s, 1.0, l);
    LessStrictly(at, top, s);
  }

  lemma BelowTop(s: real, top: real, l: real, p: real, q: real)
    requires s > 0.0 && Mul(top, s) == 1.0 && l < top && q > 0.0 && Mul(l, q) == p
    ensures q > Mul(s, p)
  {
    StrictTimes(l, top, s);
    StrictTimes(l * s, 1.0, q);
    assert (l * s) * q == s * p;
  }

  lemma Exceeds(x: real, l: real, at: real, top: real)
    requires l > 0.0 && Mul(at, l) == x && at < top
    ensures x < Mul(top, l)
  {
    StrictTimes(at, top, l);
  }

  lemma Together(n: real, f: real, x: real, l: real, k: real, a: real, v: real, p: real, q: real)
    requires f > 0.0 && Mul(x, f) == n && x < Mul(k, l) && v > 0.0 && q > 0.0 && Mul(l, v) == a && Mul(k, q) == p
    ensures Mul(Mul(n, v), q) < Mul(f, Mul(p, a))
  {
    var z := (f * v) * q;
    PositiveProduct(f, v);
    PositiveProduct(f * v, q);
    assert (n * v) * q == x * z;
    assert f * (p * a) == (k * l) * z;
    StrictTimes(x, k * l, z);
  }

  /** The logarithm is at least 1/eps. */
  lemma ScaleAtMostEps(eps: real, m: real, delta: real, s: real)
    requires 0.0 < eps < 1.0 && m >= 1.0 && IsDelta(eps, m, delta) && IsLogScale(eps, delta, s)
    ensures s <= eps
  {
    hide Pow, Mul, IsDelta, IsLogScale, Covers, Level;
    if s > eps {
      var q, p := FractionBetween((eps + s) / 2.0, s);
      LevelIs(q, p);
      LessTimes(eps, Level(q, p), p as real);
      LessTimes(Level(q, p), s, p as real);
      PositiveLevel(q, p);
      ScaleCovers(eps, delta, s, p, q);
      DeltaAt(eps, m, delta, q, p);
      NoCover(eps, m, delta, p, q);
      assert false;
    }
  }

  lemma PositiveLevel(q: nat, p: nat)
    requires p > 0 && Level(q, p) > 0.0
    ensures q > 0
  {}

  lemma NoCover(eps: real, m: real, delta: real, p: nat, q: nat)
    requires 0.0 < eps < 1.0 && m >= 1.0 && delta > 0.0 && p > 0 && Mul(Pow(delta, q), Pow(m, p)) <= Pow(1.0 - eps, p)
    ensures !Covers(eps, delta, p, q)
  {
    hide Pow, Mul;
    PowMonotone(m, 0, p);
    PowZero(m);
    PowPositive(delta, q);
    LessTimes(1.0, Pow(m, p), Pow(delta, q));
    OneTimes(Pow(delta, q));
    PowPositive(1.0 + eps, p);
    LessTimes(Pow(delta, q), Pow(1.0 - eps, p), Pow(1.0 + eps, p));
    PowProduct(1.0 - eps, 1.0 + eps, p);
    BelowOne(eps);
    PowBelowOne(Mul(1.0 - eps, 1.0 + eps), p);
  }

  lemma BelowOne(eps: real)
    requires 0.0 < eps < 1.0
    ensures 0.0 <= Mul(1.0 - eps, 1.0 + eps) < 1.0
  {
    PositiveProduct(eps, eps);
    Shrinks(eps, eps);
    Conjugate(eps);
  }

  lemma Conjugate(x: real)
    ensures Mul(1.0 - x, 1.0 + x) == 1.0 - Mul(x, x)
  {}

  // ------------------------------------------------------------------
  // The guarantee

  /** With the delta and the scale of the source, the solver's result serves every demand at least
      (1-eps)^2 times what any flow within the capacities does, and loads no edge beyond 1/(1-eps)
      capacities. Scaled down by 1-eps it is such a flow itself, within (1-eps)^3 of the best. */
  lemma Guarantee(g: Network, eps: real, delta: real, s: real, w: seq<real>, ds: seq<MfDemand>, phases: nat,
                  flows: seq<PathFlow>, r: real)
    requires g.Valid() && 0.0 < eps < 1.0 && |g.cap| > 0 && Commodities(g, Cs(ds))
    requires IsDelta(eps, |g.cap| as real, delta) && IsLogScale(eps, delta, s) && Solution(g, eps, delta, s, w, ds, phases)
    requires r >= 1.0 && Concurrent(g, Cs(ds), flows, r)
    ensures Served(ds, Mul(Mul(1.0 - eps, 1.0 - eps), r))
    ensures forall e: nat :: e < |g.cap| ==> Mul(1.0 - eps, Load(g, Flows(ds), e)) <= g.cap[e]
    ensures Concurrent(g, Cs(ds), Flows(ScaleAllDown(ds, 1.0 - eps)), Mul(Pow(1.0 - eps, 3), r))
  {
    hide Pow, Mul, IsDelta, IsLogScale, Load, Total, Amount, Covers, Level;
    var m, f := |g.cap| as real, 1.0 - eps;
    PhasesServe(eps, m, delta, s, r, phases);
    ServedMore(g, ds, Mul(s, phases as real - 1.0), Mul(Mul(f, f), r));
    ScaleAtMostEps(eps, m, delta, s);
    forall e: nat | e < |g.cap|
      ensures Mul(f, Load(g, Flows(ds), e)) <= g.cap[e]
    {
      LogScaleOvershoot(g, eps, delta, s, w, ds, phases, e);
      Within(eps, s, g.cap[e], Load(g, Flows(ds), e));
    }
    ScaledDown(g, ds, f, Mul(Mul(f, f), r));
    Cube(f, r);
  }

  lemma ServedMore(g: Network, ds: seq<MfDemand>, t: real, t': real)
    requires Served(ds, t) && t' <= t && Commodities(g, Cs(ds))
    ensures Served(ds, t')
  {
    hide Mul;
    forall i | 0 <= i < |ds|
      ensures ds[i].flow >= Mul(t', ds[i].c.demand)
    {
      assert CommodityOk(g, Cs(ds)[i]);
      LessTimes(t', t, ds[i].c.demand);
    }
  }

  lemma Within(eps: real, s: real, c: real, load: real)
    requires 0.0 < eps < 1.0 && s <= eps && c > 0.0 && load <= Mul(c, 1.0 + s)
    ensures Mul(1.0 - eps, load) <= c
  {
    hide Mul;
    BelowOne(eps);
    LessTimes(1.0 + s, 1.0 + eps, c);
    LessTimes(load, Mul(c, 1.0 + eps), 1.0 - eps);
    Regrouped(1.0 - eps, c, 1.0 + eps);
    LessTimes(Mul(1.0 - eps, 1.0 + eps), 1.0, c);
    OneTimes(c);
  }

  lemma Regrouped(x: real, y: real, z: real)
    ensures Mul(x, Mul(y, z)) == Mul(Mul(x, z), y)
  {
    Associate(x, z, y);
  }

  lemma ScaledDown(g: Network, ds: seq<MfDemand>, f: real, t: real)
    requires g.Valid() && f > 0.0 && Served(ds, t) && forall i :: 0 <= i < |ds| ==> DemandOk(g, ds[i])
    requires forall e: nat :: e < |g.cap| ==> Mul(f, Load(g, Flows(ds), e)) <= g.cap[e]
    ensures Concurrent(g, Cs(ds), Flows(ScaleAllDown(ds, f)), Mul(f, t))
  {
    hide Mul, Total, Load;
    var ds' := ScaleAllDown(ds, f);
    assert forall i :: 0 <= i < |ds| ==> Scaled(ds[i], ds'[i], f);
    forall i | 0 <= i < |ds|
      ensures Routes(g, Cs(ds)[i], Flows(ds')[i]) && Amount(Flows(ds')[i]) >= Mul(Mul(f, t), Cs(ds)[i].demand)
    {
      assert DemandOk(g, ds[i]);
      ScaledDemandOk(g, ds[i], ds'[i], f);
      assert DemandOk(g, ds'[i]);
      LessTimes(Mul(t, ds[i].c.demand), ds[i].flow, f);
      TimesAssociate(f, t, ds[i].c.demand);
    }
    forall e | 0 <= e < |g.ends|
      ensures Load(g, Flows(ds'), e) <= g.cap[e]
    {
      ScaledLoad(g, ds, ds', f, e);
    }
  }

  lemma Cube(f: real, r: real)
    ensures Mul(f, Mul(Mul(f, f), r)) == Mul(Pow(f, 3), r)
  {
    PowOne(f);
    assert Pow(f, 2) == Mul(f, Pow(f, 1)) && Pow(f, 3) == Mul(f, Pow(f, 2));
    TimesAssociate(f, Mul(f, f), r);
  }
}
