/** The solver on one link, where its result can be computed exactly, and the scale by which the
    source divides the flow: the logarithm of 1/delta to base 1+e, without the +1 that the load
    bound has. */
module SingleLink {
  import opened RealVectors
  import opened Growth
  import opened FlowNetwork
  import opened FlowAnalysis

  // ------------------------------------------------------------------
  // The scale

  /** s is one over the logarithm of 1/delta to base 1+eps: p/q reaches the logarithm exactly when it
      reaches 1/s. */
  ghost predicate IsLogScale(eps: real, delta: real, s: real) {
    s > 0.0 && forall p: nat, q: nat :: q > 0 ==> (Covers(eps, delta, p, q) <==> q as real <= Mul(s, p as real))
  }

  lemma ScalePositive(eps: real, delta: real, s: real)
    requires IsLogScale(eps, delta, s)
    ensures s > 0.0
  {}

  // n pushes of a whole capacity are the fewest that bring delta up to one.
  ghost predicate FewestPushes(eps: real, delta: real, n: nat) {
    Mul(delta, Pow(1.0 + eps, n)) >= 1.0 && (n > 0 ==> Mul(delta, Pow(1.0 + eps, n - 1)) < 1.0)
  }

  // delta^q (1+eps)^(nq) is the q-th power of delta (1+eps)^n.
  lemma CoversPower(eps: real, delta: real, n: nat, q: nat)
    ensures Mul(Pow(delta, q), Pow(1.0 + eps, n * q)) == Pow(Mul(delta, Pow(1.0 + eps, n)), q)
  {
    hide Mul, Pow;
    PowTimes(1.0 + eps, n, q);
    PowProduct(delta, Pow(1.0 + eps, n), q);
  }

  lemma OneLess(eps: real, d: real, k: nat)
    requires eps > 0.0 && k > 0 && Mul(d, Pow(1.0 + eps, k)) >= 1.0 + eps
    ensures Mul(d, Pow(1.0 + eps, k - 1)) >= 1.0
  {
    var x := Pow(1.0 + eps, k - 1);
    assert d * ((1.0 + eps) * x) == (1.0 + eps) * (d * x);
  }

  // If the last push overshoots one, some p/q below n already reaches the logarithm.
  lemma SmallerCover(eps: real, delta: real, n: nat) returns (q: nat)
    requires eps > 0.0 && n > 0 && Mul(delta, Pow(1.0 + eps, n)) > 1.0
    ensures q > 0 && n * q > 0 && Covers(eps, delta, n * q - 1, q)
  {
    q := PowReaches(Mul(delta, Pow(1.0 + eps, n)), 1.0 + eps);
    CoversPower(eps, delta, n, q);
    assert n * q > 0;
    OneLess(eps, Pow(delta, q), n * q);
  }

  // If it meets one exactly, nothing below n reaches the logarithm.
  lemma NoSmallerCover(eps: real, delta: real, n: nat, p: nat, q: nat)
    requires eps > 0.0 && delta > 0.0 && q > 0 && Mul(delta, Pow(1.0 + eps, n)) == 1.0 && Covers(eps, delta, p, q)
    ensures p >= n * q
  {
    hide Mul, Pow;
    CoversPower(eps, delta, n, q);
    PowOfOne(q);
    PowPositive(delta, q);
    LargerFactor(Pow(delta, q), Pow(1.0 + eps, n * q), Pow(1.0 + eps, p));
    PowStrict(1.0 + eps, p, n * q);
  }

  lemma LargerFactor(d: real, x: real, y: real)
    requires d > 0.0 && Mul(d, x) == 1.0 <= Mul(d, y)
    ensures x <= y
  {}

  /** Dividing n whole capacities by the logarithm leaves at most one capacity exactly when the last
      of the fewest pushes brings delta to one without overshooting it. */
  lemma LogScaleFitsIff(eps: real, delta: real, s: real, n: nat)
    requires eps > 0.0 && delta > 0.0 && IsLogScale(eps, delta, s) && n > 0 && FewestPushes(eps, delta, n)
    ensures Mul(s, n as real) <= 1.0 <==> Mul(delta, Pow(1.0 + eps, n)) == 1.0
  {
    hide Pow, Mul, Covers;
    if Mul(delta, Pow(1.0 + eps, n)) > 1.0 {
      var q := SmallerCover(eps, delta, n);
      AboveOne(s, n, q);
    } else if Mul(s, n as real) > 1.0 {
      var q := RoomBelow(s, n);
      assert Covers(eps, delta, n * q - 1, q);
      NoSmallerCover(eps, delta, n, n * q - 1, q);
    }
  }

  lemma AboveOne(s: real, n: nat, q: nat)
    requires s > 0.0 && q > 0 && n * q > 0 && q as real <= Mul(s, (n * q - 1) as real)
    ensures Mul(s, n as real) > 1.0
  {
    hide Mul;
    RealProduct(n, q);
    AboveOneReal(s, n as real, q as real, (n * q - 1) as real);
  }

  lemma AboveOneReal(s: real, x: real, y: real, z: real)
    requires s > 0.0 && y > 0.0 && z == x * y - 1.0 && y <= Mul(s, z)
    ensures Mul(s, x) > 1.0
  {
    TakeOne(s, x, y);
    FactorAboveOne(s * x, y);
  }

  lemma RealProduct(n: nat, q: nat)
    ensures (n * q) as real == n as real * q as real
  {}

  lemma TakeOne(s: real, x: real, y: real)
    ensures Mul(s, x * y - 1.0) == (s * x) * y - s
  {
    Distribute(s, x * y, -1.0);
    Associate(s, x, y);
  }

  lemma FactorAboveOne(a: real, y: real)
    requires y > 0.0 && a * y > y
    ensures a > 1.0
  {}

  // A multiple of n less one that is still large enough.
  lemma RoomBelow(s: real, n: nat) returns (q: nat)
    requires s > 0.0 && n > 0 && Mul(s, n as real) > 1.0
    ensures q > 0 && n * q > 0 && q as real <= Mul(s, (n * q - 1) as real)
  {
    hide Mul;
    var x := n as real;
    assert s * x > 1.0 by { ProductIs(s, x); }
    var t := s / (s * x - 1.0);
    FloorNotNegative(s, s * x - 1.0);
    q := t.Floor + 1;
    assert n * q > 0;
    LessOne(n, q);
    assert q as real > t;
    RoomReal(s, x, q as real, (n * q - 1) as real);
  }

  lemma LessOne(n: nat, q: nat)
    ensures (n * q - 1) as real == n as real * q as real - 1.0
  {
    RealProduct(n, q);
    assert (n * q - 1) as real == (n * q) as real - 1.0;
  }

  lemma ProductIs(s: real, x: real)
    ensures Mul(s, x) == s * x
  {}

  lemma FloorNotNegative(s: real, room: real)
    requires s > 0.0 && room > 0.0
    ensures s / room > 0.0 && (s / room).Floor >= 0
  {}

  lemma RoomReal(s: real, x: real, y: real, z: real)
    requires s > 0.0 && s * x > 1.0 && y >= s / (s * x - 1.0) && z == x * y - 1.0
    ensures y <= Mul(s, z)
  {
    hide Mul;
    TakeOne(s, x, y);
    Spare(s, s * x - 1.0, y);
    SplitOff(s * x, y);
  }

  lemma Spare(s: real, room: real, y: real)
    requires room > 0.0 && y >= s / room
    ensures room * y >= s
  {
    assert room * (s / room) == s;
  }

  lemma SplitOff(a: real, y: real)
    ensures a * y == y + (a - 1.0) * y
  {}

  /** Such scales exist: when delta is the n-th power of 1/(1+eps), the logarithm is n. */
  lemma ExactLogScale(eps: real, delta: real, n: nat)
    requires eps > 0.0 && delta > 0.0 && n > 0 && Mul(delta, Pow(1.0 + eps, n)) == 1.0
    ensures IsLogScale(eps, delta, 1.0 / n as real)
  {
    hide Mul, Pow;
    var s := 1.0 / n as real;
    forall p: nat, q: nat | q > 0
      ensures Covers(eps, delta, p, q) <==> q as real <= Mul(s, p as real)
    {
      CoversPower(eps, delta, n, q);
      PowOfOne(q);
      ShareOf(n, p, q);
      if p >= n * q {
        PowMonotone(1.0 + eps, n * q, p);
        PowPositive(delta, q);
        SmallerFactor(Pow(delta, q), Pow(1.0 + eps, n * q), Pow(1.0 + eps, p));
      } else if Covers(eps, delta, p, q) {
        NoSmallerCover(eps, delta, n, p, q);
      }
    }
  }

  lemma SmallerFactor(d: real, x: real, y: real)
    requires d > 0.0 && Mul(d, x) == 1.0 && x <= y
    ensures Mul(d, y) >= 1.0
  {}

  lemma ShareOf(n: nat, p: nat, q: nat)
    requires n > 0
    ensures p >= n * q <==> q as real <= Mul(1.0 / n as real, p as real)
  {
    var x, y, z := n as real, p as real, q as real;
    var s := 1.0 / x;
    assert s * x == 1.0;
    assert (n * q) as real == x * z;
    if y >= x * z {
      assert s * y >= s * (x * z);
      Associate(s, x, z);
    } else {
      assert s * y < s * (x * z);
      Associate(s, x, z);
    }
  }

  // ------------------------------------------------------------------
  // How far the scale can miss in general

  // Between any two different numbers there is a fraction.
  lemma FractionBetween(x: real, y: real) returns (p: nat, q: nat)
    requires 0.0 <= x < y
    ensures q > 0 && x <= Level(p, q) <= y
  {
    var d := y - x;
    var t := 1.0 / d;
    q := t.Floor + 1;
    var z := q as real;
    assert t * d == 1.0 && z >= t;
    assert z * d >= 1.0;
    var u := x * z;
    assert u >= 0.0;
    p := u.Floor + 1;
    assert u <= p as real <= u + 1.0;
    assert y * z == u + z * d;
    FractionOf(x, y, p, q);
  }

  lemma FractionOf(x: real, y: real, p: nat, q: nat)
    requires q > 0 && x * q as real <= p as real <= y * q as real
    ensures x <= Level(p, q) <= y
  {
    assert Level(p, q) * q as real == p as real;
  }

  // A bound at every level that reaches the logarithm is a bound at the logarithm.
  lemma BoundAtLog(eps: real, delta: real, s: real, c: real, load: real, extra: real)
    requires IsLogScale(eps, delta, s) && c > 0.0 && extra >= 0.0
    requires forall p: nat, q: nat :: Covers(eps, delta, p, q) ==> load < Mul(s, Mul(c, Level(p, q) + extra))
    ensures load <= Mul(c, 1.0 + Mul(s, extra))
  {
    hide Covers, Level;
    if load > Mul(c, 1.0 + Mul(s, extra)) {
      var p, q := LevelBelow(s, c, load, extra);
      ScaleCovers(eps, delta, s, p, q);
    }
  }

  lemma ScaleCovers(eps: real, delta: real, s: real, p: nat, q: nat)
    requires IsLogScale(eps, delta, s) && q > 0 && q as real <= Mul(s, p as real)
    ensures Covers(eps, delta, p, q)
  {
    hide Covers;
  }

  // A level that reaches the logarithm and is still too small for the load.
  lemma LevelBelow(s: real, c: real, load: real, extra: real) returns (p: nat, q: nat)
    requires s > 0.0 && c > 0.0 && extra >= 0.0 && load > Mul(c, 1.0 + Mul(s, extra))
    ensures q > 0 && q as real <= Mul(s, p as real) && Mul(s, Mul(c, Level(p, q) + extra)) <= load
  {
    var at, y := 1.0 / s, s * c;
    assert s * at == 1.0 && y > 0.0;
    var x := load / y;
    assert x * y == load;
    AtLogarithm(s, c, at, extra);
    BiggerFactor(at + extra, x, y);
    p, q := FractionBetween(at, x - extra);
    ReachesScale(s, at, p, q);
    var l := Level(p, q) + extra;
    assert l * y <= x * y;
    Associate(s, c, l);
    assert s * (c * l) == l * y;
  }

  lemma AtLogarithm(s: real, c: real, at: real, extra: real)
    requires s * at == 1.0
    ensures (at + extra) * (s * c) == c * (1.0 + s * extra)
  {
    assert (at + extra) * (s * c) == at * (s * c) + extra * (s * c);
    assert at * (s * c) == (s * at) * c;
    assert extra * (s * c) == c * (s * extra);
  }

  lemma BiggerFactor(a: real, b: real, y: real)
    requires y > 0.0 && b * y > a * y
    ensures b > a
  {}

  lemma ReachesScale(s: real, at: real, p: nat, q: nat)
    requires s > 0.0 && s * at == 1.0 && q > 0 && at <= Level(p, q)
    ensures q as real <= Mul(s, p as real)
  {
    var l, z := Level(p, q), q as real;
    assert l * z == p as real;
    assert s * l >= s * at;
    MulMonotone(1.0, s * l, z, z);
    Associate(s, l, z);
  }

  // ------------------------------------------------------------------
  // One link

  ghost predicate IsLink(g: Network) {
    g.n == 2 && g.ends == [(0, 1)] && |g.cap| == 1
  }

  // A whole number of capacities.
  ghost predicate Whole(x: real, c: real) {
    exists k: nat :: x == Times(k, c)
  }

  function Times(k: nat, c: real): real {
    Mul(k as real, c)
  }

  lemma EdgeOfLink(g: Network, p: Path, i: nat)
    requires IsLink(g) && g.IsPath(p) && i < |p| - 1
    ensures p[i] == 0 && p[i + 1] == 1
  {
    assert g.IsEdge(p[i], p[i + 1]);
  }

  lemma OnlyPath(g: Network, p: Path, s: nat, t: nat)
    requires IsLink(g) && g.IsPathFromTo(p, s, t) && s != t
    ensures p == [0, 1] && s == 0 && t == 1
  {
    assert |p| > 1;
    EdgeOfLink(g, p, 0);
    if |p| > 2 {
      EdgeOfLink(g, p, 1);
    }
  }

  lemma LinkDistance(g: Network, c: Commodity, w: seq<real>, oracle: Oracle)
    requires IsLink(g) && g.Valid() && g.Lengths(w) && IsOracle(g, oracle) && CommodityOk(g, c)
    ensures c.sink < |oracle(w, c.source).dist| && oracle(w, c.source).dist[c.sink] == w[0]
  {
    hide IsOracle;
    var p := OraclePath(g, c, w, oracle);
    OnlyPath(g, p, c.source, c.sink);
    assert p[1..] == [1];
    assert g.Edge(0, 1) == 0;
  }

  lemma {:induction false} SameTotal(m: PathFlow, a: Measure, b: Measure)
    requires forall p :: p in m ==> a.Of(p) == b.Of(p)
    ensures Total(m, a) == Total(m, b)
    decreases |m|
  {
    hide Measure.Of, Mul;
    if m != map[] {
      var p := Pick(m);
      SameTotal(m - {p}, a, b);
    }
  }

  lemma OnlyCrossing(g: Network)
    requires IsLink(g) && g.Valid() && g.IsPath([0, 1])
    ensures g.Crossings([0, 1], 0) == 1
  {
    assert [0, 1][1..] == [1] && g.IsPath([1]);
    assert g.Crossings([1], 0) == 0;
    assert g.Edge(0, 1) == 0;
  }

  lemma LinkLoad(g: Network, ds: seq<MfDemand>)
    requires IsLink(g) && g.Valid() && |ds| == 1 && DemandOk(g, ds[0]) && ds[0].c.source != ds[0].c.sink
    ensures Load(g, Flows(ds), 0) == ds[0].flow
  {
    var m := ds[0].pathFlow;
    forall p | p in m
      ensures Uses(g, 0).Of(p) == Unit.Of(p)
    {
      OnlyPath(g, p, ds[0].c.source, ds[0].c.sink);
      OnlyCrossing(g);
    }
    SameTotal(m, Uses(g, 0), Unit);
    assert Flows(ds)[1..] == [];
  }

  // After n pushes of a whole capacity.
  ghost predicate LinkAt(c: real, eps: real, delta: real, d: real, flow: real, n: nat) {
    && flow == Mul(n as real, c) && d == Mul(delta, Pow(1.0 + eps, n))
    && (n > 0 ==> Mul(delta, Pow(1.0 + eps, n - 1)) < 1.0)
  }

  // On one link with one demand of whole capacities, every push so far was a whole capacity.
  ghost predicate LinkState(g: Network, eps: real, delta: real, w: seq<real>, ds: seq<MfDemand>) {
    IsLink(g) && |ds| == 1 && Whole(ds[0].c.demand, g.cap[0]) ==> |w| == 1 && exists n: nat :: LinkAt(g.cap[0], eps, delta, Dot(w, g.cap), ds[0].flow, n)
  }

  ghost predicate WholeLeft(g: Network, ds: seq<MfDemand>, remaining: real) {
    IsLink(g) && |ds| == 1 && Whole(ds[0].c.demand, g.cap[0]) ==> Whole(remaining, g.cap[0])
  }

  lemma LinkStart(g: Network, eps: real, delta: real, w: seq<real>, ds: seq<MfDemand>)
    requires |w| == |g.cap| && Dot(w, g.cap) == Mul(|g.cap| as real, delta) && forall i :: 0 <= i < |ds| ==> ds[i].flow == 0.0
    ensures LinkState(g, eps, delta, w, ds)
  {
    if IsLink(g) && |ds| == 1 {
      assert Pow(1.0 + eps, 0) == 1.0;
      assert LinkAt(g.cap[0], eps, delta, Dot(w, g.cap), 0.0, 0);
    }
  }

  lemma WholeAmount(x: real, remaining: real, c: real)
    requires c > 0.0 && Whole(remaining, c) && 0.0 < x <= remaining && x <= c && (x == remaining || x == c)
    ensures x == c && Whole(remaining - x, c)
  {
    var k: nat :| remaining == Times(k, c);
    assert k > 0;
    assert k as real * c >= 1.0 * c;
    assert remaining - c == Times(k - 1, c);
  }

  lemma NextPush(c: real, eps: real, delta: real, d: real, w: real, flow: real, n: nat)
    requires LinkAt(c, eps, delta, d, flow, n) && d < 1.0 && d == Mul(w, c)
    ensures LinkAt(c, eps, delta, d + Mul(Mul(eps, c), w), flow + c, n + 1)
  {
    var p := Pow(1.0 + eps, n);
    assert Pow(1.0 + eps, n + 1) == (1.0 + eps) * p;
    assert delta * ((1.0 + eps) * p) == (1.0 + eps) * (delta * p);
    assert eps * c * w == eps * (w * c);
    assert (n + 1) as real * c == n as real * c + c;
  }

  lemma PushKeepsLink(g: Network, eps: real, delta: real, w: seq<real>, w': seq<real>, ds: seq<MfDemand>, ds': seq<MfDemand>,
                      remaining: real, x: real, dist: real)
    requires g.Valid() && |w| == |g.cap| == |w'| && LinkState(g, eps, delta, w, ds) && WholeLeft(g, ds, remaining) && |ds| == |ds'| > 0
    requires Dot(w, g.cap) < 1.0 && 0.0 < x <= remaining && (exists e :: 0 <= e < |g.cap| && x <= g.cap[e] && (x == remaining || x == g.cap[e]))
    requires ds'[0].c == ds[0].c && (|ds| == 1 ==> ds'[0].flow == ds[0].flow + x)
    requires IsLink(g) && |ds| == 1 ==> dist == w[0]
    requires |ds| == 1 ==> Dot(w', g.cap) == Dot(w, g.cap) + Mul(Mul(eps, x), dist)
    ensures LinkState(g, eps, delta, w', ds') && WholeLeft(g, ds', remaining - x)
  {
    hide LinkAt, Mul, Pow, Whole;
    if IsLink(g) && |ds| == 1 && Whole(ds[0].c.demand, g.cap[0]) {
      var c := g.cap[0];
      WholeAmount(x, remaining, c);
      var n: nat :| LinkAt(c, eps, delta, Dot(w, g.cap), ds[0].flow, n);
      OneTerm(w, g.cap);
      NextPush(c, eps, delta, Dot(w, g.cap), w[0], ds[0].flow, n);
      assert LinkAt(c, eps, delta, Dot(w', g.cap), ds'[0].flow, n + 1);
    }
  }

  lemma OneTerm(a: seq<real>, b: seq<real>)
    requires |a| == |b| == 1
    ensures Dot(a, b) == Mul(a[0], b[0])
  {
    assert a[1..] == [] && b[1..] == [];
  }
}
