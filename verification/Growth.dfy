/** The growth function that replaces the logarithm in the analysis of the flow solver:
    (1+e)^floor(s) * (1 + e*frac(s)), the piecewise linear interpolation of (1+e)^s. */
module Growth {
  import opened RealVectors

  function Pow(b: real, k: nat): real
  {
    if k == 0 then 1.0 else Mul(b, Pow(b, k - 1))
  }

  lemma {:induction false} PowPositive(b: real, k: nat)
    requires b > 0.0
    ensures Pow(b, k) > 0.0
  {
    if k > 0 { PowPositive(b, k - 1); }
  }

  lemma {:induction false} PowMonotone(b: real, j: nat, k: nat)
    requires b >= 1.0 && j <= k
    ensures Pow(b, j) <= Pow(b, k)
    decreases k
  {
    if j < k {
      PowPositive(b, k - 1);
      PowMonotone(b, j, k - 1);
    }
  }

  function Frac(s: real): real
  {
    s - s.Floor as real
  }

  function G(e: real, s: real): real
    requires s >= 0.0
  {
    Mul(Pow(1.0 + e, s.Floor), 1.0 + Mul(e, Frac(s)))
  }

  // Growing by a fraction a of one capacity multiplies G by at most 1 + e*a.
  lemma GStep(e: real, s: real, a: real)
    requires 0.0 < e && 0.0 <= s && 0.0 <= a <= 1.0
    ensures G(e, s + a) <= Mul(G(e, s), 1.0 + Mul(e, a))
  {
    hide Mul;
    var n, f, p := s.Floor, Frac(s), Pow(1.0 + e, s.Floor);
    PowPositive(1.0 + e, n);
    if f + a < 1.0 {
      assert (s + a).Floor == n && Frac(s + a) == f + a;
      SameStep(p, e, f, a);
    } else {
      assert (s + a).Floor == n + 1 && Frac(s + a) == f + a - 1.0;
      assert Pow(1.0 + e, n + 1) == Mul(1.0 + e, p);
      NextStep(p, e, f, a);
    }
  }

  lemma SameStep(p: real, e: real, f: real, a: real)
    requires p > 0.0 && e > 0.0 && f >= 0.0 && a >= 0.0
    ensures Mul(p, 1.0 + Mul(e, f + a)) <= Mul(Mul(p, 1.0 + Mul(e, f)), 1.0 + Mul(e, a))
  {
    var x, y := e * f, e * a;
    assert x * y >= 0.0;
    assert (1.0 + x) * (1.0 + y) == 1.0 + x + y + x * y;
    assert e * (f + a) == x + y;
    assert p * (1.0 + x + y) <= p * ((1.0 + x) * (1.0 + y));
    Associate(p, 1.0 + x, 1.0 + y);
  }

  lemma NextStep(p: real, e: real, f: real, a: real)
    requires p > 0.0 && e > 0.0 && 0.0 <= f <= 1.0 && 0.0 <= a <= 1.0
    ensures Mul(Mul(1.0 + e, p), 1.0 + Mul(e, f + a - 1.0)) <= Mul(Mul(p, 1.0 + Mul(e, f)), 1.0 + Mul(e, a))
  {
    hide Mul;
    var z, x, y := 1.0 + Mul(e, f + a - 1.0), 1.0 + Mul(e, f), 1.0 + Mul(e, a);
    CrossTerm(e, f, a, x, y, z);
    ScaleBoth(p, 1.0 + e, z, x, y);
  }

  lemma ScaleBoth(p: real, q: real, z: real, x: real, y: real)
    requires p > 0.0 && Mul(q, z) <= Mul(x, y)
    ensures Mul(Mul(q, p), z) <= Mul(Mul(p, x), y)
  {
    assert p * (q * z) <= p * (x * y);
    Associate(p, x, y);
    Associate(p, q, z);
  }

  lemma CrossTerm(e: real, f: real, a: real, x: real, y: real, z: real)
    requires 0.0 < e && 0.0 <= f <= 1.0 && 0.0 <= a <= 1.0
    requires x == 1.0 + Mul(e, f) && y == 1.0 + Mul(e, a) && z == 1.0 + Mul(e, f + a - 1.0)
    ensures Mul(1.0 + e, z) <= Mul(x, y)
  {
    var g := (1.0 - f) * (1.0 - a);
    assert g >= 0.0;
    assert e * e * g >= 0.0;
    assert (1.0 + e * f) * (1.0 + e * a) - (1.0 + e) * (1.0 + e * (f + a - 1.0)) == e * e * g;
  }

  // G stays under the K-th power only below K.
  lemma GBelow(e: real, s: real, k: nat)
    requires 0.0 < e && 0.0 <= s
    requires G(e, s) < Pow(1.0 + e, k)
    ensures s < k as real
  {
    if s >= k as real {
      PowMonotone(1.0 + e, k, s.Floor);
      PowPositive(1.0 + e, s.Floor);
      MulMonotone(Pow(1.0 + e, s.Floor), Pow(1.0 + e, s.Floor), 1.0, 1.0 + e * Frac(s));
      assert false;
    }
  }

  // ------------------------------------------------------------------
  // Powers

  lemma {:induction false} PowAdd(b: real, j: nat, k: nat)
    ensures Pow(b, j + k) == Mul(Pow(b, j), Pow(b, k))
  {
    hide Mul;
    if j == 0 {
      OneTimes(Pow(b, k));
    } else {
      PowAdd(b, j - 1, k);
      TimesAssociate(b, Pow(b, j - 1), Pow(b, k));
    }
  }

  lemma {:induction false} PowTimes(b: real, j: nat, k: nat)
    ensures Pow(Pow(b, j), k) == Pow(b, j * k)
  {
    hide Mul;
    if k > 0 {
      PowTimes(b, j, k - 1);
      assert j * k == j + j * (k - 1);
      PowAdd(b, j, j * (k - 1));
    }
  }

  lemma {:induction false} PowProduct(a: real, b: real, k: nat)
    ensures Pow(Mul(a, b), k) == Mul(Pow(a, k), Pow(b, k))
  {
    hide Mul;
    if k == 0 {
      OneTimes(1.0);
    } else {
      PowProduct(a, b, k - 1);
      Exchange(a, b, Pow(a, k - 1), Pow(b, k - 1));
    }
  }

  lemma OneTimes(x: real)
    ensures Mul(1.0, x) == x && Mul(x, 1.0) == x
  {}

  lemma TimesAssociate(x: real, y: real, z: real)
    ensures Mul(Mul(x, y), z) == Mul(x, Mul(y, z))
  {
    Associate(x, y, z);
  }

  lemma Exchange(a: real, b: real, x: real, y: real)
    ensures Mul(Mul(a, b), Mul(x, y)) == Mul(Mul(a, x), Mul(b, y))
  {
    Associate(a, b, x * y);
    Associate(b, x, y);
    Associate(x, b, y);
    Associate(a, x, b * y);
    assert b * x == x * b;
  }

  // Powers of at most one, of at least one, and in between.
  lemma {:induction false} PowOrder(x: real, y: real, k: nat)
    requires 0.0 <= x <= y
    ensures 0.0 <= Pow(x, k) <= Pow(y, k)
  {
    if k > 0 {
      PowOrder(x, y, k - 1);
      MulMonotone(x, y, Pow(x, k - 1), Pow(y, k - 1));
    }
  }

  lemma {:induction false} PowOfOne(k: nat)
    ensures Pow(1.0, k) == 1.0
  {
    if k > 0 { PowOfOne(k - 1); }
  }

  lemma PowBelowOne(x: real, k: nat)
    requires 0.0 <= x < 1.0 && k > 0
    ensures Pow(x, k) < 1.0
  {
    PowOrder(x, 1.0, k - 1);
    PowOfOne(k - 1);
    assert x * Pow(x, k - 1) <= x;
  }

  lemma PowStrict(b: real, j: nat, k: nat)
    requires b > 1.0
    ensures j < k <==> Pow(b, j) < Pow(b, k)
  {
    if j < k {
      PowPositive(b, k - 1);
      PowMonotone(b, j, k - 1);
      assert b * Pow(b, k - 1) > Pow(b, k - 1);
    } else {
      PowMonotone(b, k, j);
    }
  }

  // Bernoulli: powers of anything above one exceed every bound.
  lemma {:induction false} PowGrows(y: real, k: nat)
    requires y >= 1.0
    ensures Pow(y, k) >= 1.0 + Mul(k as real, y - 1.0)
  {
    if k > 0 {
      PowGrows(y, k - 1);
      var z, n := y - 1.0, (k - 1) as real;
      assert n * z >= 0.0 && z * z * n >= 0.0;
      assert y * (1.0 + n * z) == 1.0 + (n + 1.0) * z + z * z * n;
      MulMonotone(y, y, 1.0 + n * z, Pow(y, k - 1));
    }
  }

  lemma PowReaches(y: real, bound: real) returns (k: nat)
    requires y > 1.0
    ensures k > 0 && Pow(y, k) >= bound
  {
    var z := y - 1.0;
    var x := bound / z;
    k := if x < 0.0 then 1 else x.Floor + 1;
    PowGrows(y, k);
    assert x * z == bound;
    assert k as real >= x;
    assert k as real * z >= x * z;
  }

  // ------------------------------------------------------------------
  // G against roots of powers

  lemma {:induction false} GShift(e: real, n: nat, s: real)
    requires 0.0 <= s
    ensures G(e, n as real + s) == Mul(Pow(1.0 + e, n), G(e, s))
  {
    hide Mul;
    var t := n as real + s;
    assert t.Floor == n + s.Floor && Frac(t) == Frac(s);
    PowAdd(1.0 + e, n, s.Floor);
    TimesAssociate(Pow(1.0 + e, n), Pow(1.0 + e, s.Floor), 1.0 + Mul(e, Frac(s)));
  }

  lemma GPositive(e: real, s: real)
    requires 0.0 < e && 0.0 <= s
    ensures G(e, s) > 0.0
  {
    PowPositive(1.0 + e, s.Floor);
    assert e * Frac(s) >= 0.0;
  }

  // Growing by a and then by b is at least growing by both.
  lemma GProduct(e: real, a: real, b: real)
    requires 0.0 < e && 0.0 <= a && 0.0 <= b
    ensures G(e, a + b) <= Mul(G(e, a), G(e, b))
  {
    hide Mul;
    var n, f, p := a.Floor, Frac(a), Pow(1.0 + e, a.Floor);
    assert a + b == n as real + (b + f);
    GShift(e, n, b + f);
    GStep(e, b, f);
    PowPositive(1.0 + e, n);
    Regroup(p, G(e, b + f), G(e, b), 1.0 + Mul(e, f));
  }

  lemma Regroup(p: real, x: real, y: real, z: real)
    requires p > 0.0 && x <= Mul(y, z)
    ensures Mul(p, x) <= Mul(Mul(p, z), y)
  {
    assert p * x <= p * (y * z);
    Associate(p, z, y);
    assert y * z == z * y;
  }

  lemma {:induction false} GPower(e: real, s: real, q: nat)
    requires 0.0 < e && 0.0 <= s
    ensures Mul(q as real, s) >= 0.0 && G(e, Mul(q as real, s)) <= Pow(G(e, s), q)
  {
    if q == 0 {
      assert G(e, 0.0) == 1.0;
    } else {
      GPower(e, s, q - 1);
      var r := Mul((q - 1) as real, s);
      assert s + r == Mul(q as real, s);
      GProduct(e, s, r);
      GPositive(e, s);
      GPositive(e, r);
      MulMonotone(G(e, s), G(e, s), G(e, r), Pow(G(e, s), q - 1));
    }
  }

  /** When delta times G(s) is below one, s is below every p/q with delta^q (1+e)^p at least one. */
  lemma GBelowRatio(e: real, delta: real, s: real, p: nat, q: nat)
    requires 0.0 < e && 0.0 < delta && 0.0 <= s && q > 0
    requires Mul(delta, G(e, s)) < 1.0 && Mul(Pow(delta, q), Pow(1.0 + e, p)) >= 1.0
    ensures Mul(q as real, s) < p as real
  {
    hide Mul, G, Pow;
    GPositive(e, s);
    GPower(e, s, q);
    PositiveProduct(delta, G(e, s));
    PowBelowOne(Mul(delta, G(e, s)), q);
    PowProduct(delta, G(e, s), q);
    PowPositive(delta, q);
    Cancel(Pow(delta, q), G(e, Mul(q as real, s)), Pow(G(e, s), q), Pow(1.0 + e, p));
    GBelow(e, Mul(q as real, s), p);
  }

  lemma PositiveProduct(x: real, y: real)
    requires x > 0.0 && y > 0.0
    ensures Mul(x, y) > 0.0
  {}

  lemma Cancel(d: real, x: real, y: real, z: real)
    requires d > 0.0 && x <= y && Mul(d, y) < 1.0 <= Mul(d, z)
    ensures x < z
  {
    assert d * x <= d * y;
  }
}
