/** The max-concurrent-flow approximation of the traffic-engineering topology manager
    (TopologyManager/tm_max_flow.cpp): multiplicative edge lengths, phases, steps and iterations. */
module FlowAnalysis {
  import opened RealVectors
  import opened Growth
  import opened FlowNetwork

  /** A demand with the flow routed for it so far. */
  datatype MfDemand = MfDemand(c: Commodity, flow: real, pathFlow: PathFlow)

  ghost function Flows(ds: seq<MfDemand>): (r: seq<PathFlow>)
    ensures |r| == |ds|
  {
    seq(|ds|, i requires 0 <= i < |ds| => ds[i].pathFlow)
  }

  ghost function Cs(ds: seq<MfDemand>): (r: seq<Commodity>)
    ensures |r| == |ds|
  {
    seq(|ds|, i requires 0 <= i < |ds| => ds[i].c)
  }

  // ------------------------------------------------------------------
  // One edge

  // The length update of the source: w * (1 + (e*x)/c).
  function Raise(w: real, c: real, eps: real, x: real): real
    requires c > 0.0
  {
    w * (1.0 + (eps * x) / c)
  }

  lemma RaiseGrows(w: real, c: real, eps: real, x: real)
    requires w > 0.0 && c > 0.0 && eps > 0.0 && x > 0.0
    ensures Raise(w, c, eps, x) > w
  {
    assert (eps * x) / c > 0.0;
  }

  lemma RaiseVolume(w: real, c: real, eps: real, x: real)
    requires c > 0.0
    ensures Mul(Raise(w, c, eps, x) - w, c) == Mul(Mul(eps, x), w)
  {
    var y := (eps * x) / c;
    assert y * c == eps * x;
    assert w * (1.0 + y) - w == w * y;
    Associate(w, y, c);
  }

  // p/q is at least the logarithm of 1/delta to base 1+eps.
  ghost predicate Covers(eps: real, delta: real, p: nat, q: nat) {
    q > 0 && Mul(Pow(delta, q), Pow(1.0 + eps, p)) >= 1.0
  }

  function Level(p: nat, q: nat): real
    requires q > 0
  {
    p as real / q as real
  }

  // The lower bound on an edge's length in terms of its load, and the load bound it gives.
  ghost predicate EdgeOk(c: real, w: real, load: real, eps: real, delta: real) {
    && c > 0.0 && w > 0.0 && load >= 0.0
    && Mul(c, w) >= Mul(delta, G(eps, load / c))
    && forall p: nat, q: nat :: Covers(eps, delta, p, q) ==> load < Mul(c, Level(p, q) + 1.0)
  }

  lemma EdgeLength(c: real, w: real, load: real, x: real, eps: real, delta: real)
    requires c > 0.0 && w > 0.0 && load >= 0.0 && 0.0 < x <= c && eps > 0.0 && delta > 0.0
    requires Mul(c, w) >= Mul(delta, G(eps, load / c))
    ensures Mul(c, Raise(w, c, eps, x)) >= Mul(delta, G(eps, (load + x) / c))
  {
    var s, a := load / c, x / c;
    Divided(load, x, c);
    RaisedProduct(w, c, eps, x, a);
    GStep(eps, s, a);
    Chain(Mul(c, w), delta, G(eps, s), 1.0 + Mul(eps, a), G(eps, s + a));
  }

  lemma Divided(load: real, x: real, c: real)
    requires c > 0.0 && load >= 0.0 && 0.0 < x <= c
    ensures (load + x) / c == load / c + x / c && 0.0 <= x / c <= 1.0 && load / c >= 0.0
  {}

  lemma RaisedProduct(w: real, c: real, eps: real, x: real, a: real)
    requires c > 0.0 && a == x / c
    ensures Mul(c, Raise(w, c, eps, x)) == Mul(Mul(c, w), 1.0 + Mul(eps, a))
  {
    assert (eps * x) / c == eps * a;
    Associate(c, w, 1.0 + eps * a);
  }

  lemma Chain(cw: real, delta: real, g: real, f: real, g': real)
    requires delta > 0.0 && f >= 1.0 && cw >= Mul(delta, g) && g' <= Mul(g, f)
    ensures Mul(cw, f) >= Mul(delta, g')
  {
    assert cw * f >= delta * g * f;
    Associate(delta, g, f);
    assert delta * (g * f) >= delta * g';
  }

  lemma EdgePush(c: real, w: real, load: real, x: real, eps: real, delta: real)
    requires EdgeOk(c, w, load, eps, delta) && 0.0 < x <= c && eps > 0.0 && delta > 0.0
    requires Mul(c, w) < 1.0
    ensures EdgeOk(c, Raise(w, c, eps, x), load + x, eps, delta)
  {
    hide Mul, Raise, G, Pow, Level;
    RaiseGrows(w, c, eps, x);
    EdgeLength(c, w, load, x, eps, delta);
    forall p: nat, q: nat | Covers(eps, delta, p, q)
      ensures load + x < Mul(c, Level(p, q) + 1.0)
    {
      BelowLevel(c, w, load, eps, delta, p, q);
      BelowNext(c, load, x, Level(p, q));
    }
  }

  /** While an edge's length times capacity is below one its load is below p/q capacities, for every
      p/q that reaches the logarithm. */
  lemma BelowLevel(c: real, w: real, load: real, eps: real, delta: real, p: nat, q: nat)
    requires EdgeOk(c, w, load, eps, delta) && eps > 0.0 && delta > 0.0 && Mul(c, w) < 1.0 && Covers(eps, delta, p, q)
    ensures load < Mul(c, Level(p, q))
  {
    hide Mul, G, Pow;
    var s := load / c;
    GBelowRatio(eps, delta, s, p, q);
    LevelOf(c, load, p, q);
  }

  lemma LevelOf(c: real, load: real, p: nat, q: nat)
    requires c > 0.0 && load >= 0.0 && q > 0 && Mul(q as real, load / c) < p as real
    ensures load < Mul(c, Level(p, q))
  {
    var s, l := load / c, Level(p, q);
    assert l * q as real == p as real;
    assert s < l;
    assert c * s == load;
  }

  lemma BelowNext(c: real, load: real, x: real, level: real)
    requires c > 0.0 && x <= c && load < Mul(c, level)
    ensures load + x < Mul(c, level + 1.0)
  {
    assert c * (level + 1.0) == c * level + c;
  }

  // ------------------------------------------------------------------
  // One push along a path

  ghost function RaiseAlong(g: Network, w: seq<real>, p: Path, eps: real, x: real): (r: seq<real>)
    requires g.Valid() && |w| == |g.ends| && g.IsPath(p)
    ensures |r| == |w|
  {
    if |p| == 1 then w else
      var r, e := RaiseAlong(g, w, p[1..], eps, x), g.Edge(p[0], p[1]);
      r[e := Raise(r[e], g.cap[e], eps, x)]
  }

  lemma {:induction false} RaiseAlongAt(g: Network, w: seq<real>, p: Path, eps: real, x: real, e: nat)
    requires g.Valid() && |w| == |g.ends| && g.IsPath(p) && Simple(p) && e < |w|
    ensures RaiseAlong(g, w, p, eps, x)[e] ==
            if g.Crossings(p, e) == 1 then Raise(w[e], g.cap[e], eps, x) else w[e]
  {
    hide Raise;
    SimpleCrossesOnce(g, p, e);
    if |p| > 1 {
      RaiseAlongAt(g, w, p[1..], eps, x, e);
      SimpleCrossesOnce(g, p[1..], e);
    }
  }

  // A push of x along p raises the dual value by exactly eps * x * length(p).
  lemma {:induction false} RaiseAlongVolume(g: Network, w: seq<real>, p: Path, eps: real, x: real)
    requires g.Valid() && |w| == |g.ends| && g.IsPath(p) && Simple(p)
    ensures Dot(RaiseAlong(g, w, p, eps, x), g.cap) == Dot(w, g.cap) + Mul(Mul(eps, x), g.Length(w, p))
  {
    MulZero(Mul(eps, x));
    hide Mul, Raise;
    if |p| > 1 {
      var r, e := RaiseAlong(g, w, p[1..], eps, x), g.Edge(p[0], p[1]);
      RaiseAlongVolume(g, w, p[1..], eps, x);
      RaiseAlongAt(g, w, p[1..], eps, x, e);
      SimpleCrossesOnce(g, p[1..], e);
      assert r[e] == w[e];
      var inc := Raise(w[e], g.cap[e], eps, x) - w[e];
      DotUpdate(r, g.cap, e, inc);
      RaiseVolume(w[e], g.cap[e], eps, x);
      MulDistribute(Mul(eps, x), w[e], g.Length(w, p[1..]));
    }
  }

  lemma MulDistribute(x: real, y: real, z: real)
    ensures Mul(x, y + z) == Mul(x, y) + Mul(x, z)
  {}

  ghost predicate DemandOk(g: Network, d: MfDemand) {
    && d.flow == Amount(d.pathFlow)
    && forall p :: p in d.pathFlow ==>
         g.IsPathFromTo(p, d.c.source, d.c.sink) && Simple(p) && d.pathFlow[p] > 0.0
  }

  ghost predicate SolverOk(g: Network, eps: real, delta: real, w: seq<real>, ds: seq<MfDemand>) {
    && g.Valid() && |w| == |g.ends|
    && (forall i :: 0 <= i < |ds| ==> DemandOk(g, ds[i]))
    && (forall e :: 0 <= e < |w| ==> EdgeOk(g.cap[e], w[e], Load(g, Flows(ds), e), eps, delta))
  }

  function Credit(d: MfDemand, p: Path, x: real): MfDemand {
    d.(flow := d.flow + x, pathFlow := d.pathFlow[p := (if p in d.pathFlow then d.pathFlow[p] else 0.0) + x])
  }

  lemma CreditOk(g: Network, d: MfDemand, p: Path, x: real)
    requires DemandOk(g, d) && g.IsPathFromTo(p, d.c.source, d.c.sink) && Simple(p) && x > 0.0
    ensures DemandOk(g, Credit(d, p, x))
  {
    TotalUpdate(d.pathFlow, p, x, Unit);
  }

  lemma {:induction false} LoadUpdate(g: Network, flows: seq<PathFlow>, i: nat, m: PathFlow, e: nat)
    requires i < |flows|
    ensures Load(g, flows[i := m], e) == Load(g, flows, e) + Total(m, Uses(g, e)) - Total(flows[i], Uses(g, e))
  {
    hide Total;
    if i == 0 {
      assert flows[0 := m][1..] == flows[1..];
    } else {
      assert flows[i := m][1..] == flows[1..][i - 1 := m];
      LoadUpdate(g, flows[1..], i - 1, m, e);
    }
  }

  lemma CreditLoad(g: Network, ds: seq<MfDemand>, i: nat, p: Path, x: real, e: nat)
    requires i < |ds| && g.IsPath(p)
    ensures Load(g, Flows(ds[i := Credit(ds[i], p, x)]), e) == Load(g, Flows(ds), e) + Mul(x, g.Crossings(p, e) as real)
  {
    hide Mul, Total;
    var d := Credit(ds[i], p, x);
    assert Flows(ds[i := d]) == Flows(ds)[i := d.pathFlow];
    LoadUpdate(g, Flows(ds), i, d.pathFlow, e);
    TotalUpdate(ds[i].pathFlow, p, x, Uses(g, e));
  }

  ghost predicate Fits(g: Network, p: Path, x: real)
    requires g.Valid() && g.IsPath(p)
  {
    forall e :: 0 <= e < |g.ends| && g.Crossings(p, e) == 1 ==> x <= g.cap[e]
  }

  /** Every push keeps, for every edge, the length bound and hence the load bound. */
  lemma PushKeepsSolverOk(g: Network, eps: real, delta: real, w: seq<real>, ds: seq<MfDemand>, i: nat, p: Path, x: real)
    requires SolverOk(g, eps, delta, w, ds) && eps > 0.0 && delta > 0.0
    requires i < |ds| && g.IsPathFromTo(p, ds[i].c.source, ds[i].c.sink) && Simple(p) && x > 0.0 && Fits(g, p, x)
    requires Dot(w, g.cap) < 1.0
    ensures SolverOk(g, eps, delta, RaiseAlong(g, w, p, eps, x), ds[i := Credit(ds[i], p, x)])
  {
    hide Mul, Raise, EdgeOk, Credit;
    CreditOk(g, ds[i], p, x);
    var w', ds' := RaiseAlong(g, w, p, eps, x), ds[i := Credit(ds[i], p, x)];
    forall e | 0 <= e < |w|
      ensures EdgeOk(g.cap[e], w'[e], Load(g, Flows(ds'), e), eps, delta)
    {
      SimpleCrossesOnce(g, p, e);
      RaiseAlongAt(g, w, p, eps, x, e);
      CreditLoad(g, ds, i, p, x, e);
      EdgeBelowVolume(g, w, ds, eps, delta, e);
      if g.Crossings(p, e) == 1 {
        EdgePush(g.cap[e], w[e], Load(g, Flows(ds), e), x, eps, delta);
        TimesOne(x);
      } else {
        MulZero(x);
      }
    }
  }

  lemma TimesOne(x: real)
    ensures Mul(x, 1.0) == x
  {}

  lemma EdgeBelowVolume(g: Network, w: seq<real>, ds: seq<MfDemand>, eps: real, delta: real, e: nat)
    requires SolverOk(g, eps, delta, w, ds) && e < |w|
    ensures Mul(g.cap[e], w[e]) <= Dot(w, g.cap)
  {
    forall i | 0 <= i < |w|
      ensures 0.0 <= w[i] && 0.0 <= g.cap[i]
    {
      assert EdgeOk(g.cap[i], w[i], Load(g, Flows(ds), i), eps, delta);
    }
    DotComponent(w, g.cap, e);
  }

  // ------------------------------------------------------------------
  // One phase

  /** Within a phase the dual value has grown by at most eps times what was pushed so far,
      priced at the current distances. */
  ghost predicate PhaseOk(g: Network, cs: seq<Commodity>, oracle: Oracle, eps: real,
                          w0: seq<real>, w: seq<real>, pushed: seq<real>)
  {
    && |w0| == |w| == |g.cap| && |pushed| == |cs|
    && (forall i :: 0 <= i < |cs| ==> 0.0 <= pushed[i] <= cs[i].demand)
    && Dot(w, g.cap) <= Dot(w0, g.cap) + Mul(eps, Dot(pushed, Distances(cs, w, oracle)))
  }

  ghost predicate Grown(w: seq<real>, w': seq<real>) {
    |w| == |w'| && forall i :: 0 <= i < |w| ==> w[i] <= w'[i]
  }

  lemma DistancesGrow(g: Network, cs: seq<Commodity>, oracle: Oracle, w: seq<real>, w': seq<real>)
    requires g.Valid() && g.Lengths(w) && g.Lengths(w') && IsOracle(g, oracle) && Commodities(g, cs) && Grown(w, w')
    ensures forall i :: 0 <= i < |cs| ==> 0.0 <= Distances(cs, w, oracle)[i] <= Distances(cs, w', oracle)[i]
  {
    forall i | 0 <= i < |cs|
      ensures 0.0 <= Distances(cs, w, oracle)[i] <= Distances(cs, w', oracle)[i]
    {
      DistanceAtLeast(g, cs[i], w, oracle, 0.0);
      DistanceMonotone(g, cs[i], w, w', oracle);
    }
  }

  lemma PushKeepsPhaseOk(g: Network, cs: seq<Commodity>, oracle: Oracle, eps: real,
                         w0: seq<real>, w: seq<real>, w': seq<real>, pushed: seq<real>, i: nat, x: real)
    requires g.Valid() && g.Lengths(w) && g.Lengths(w') && IsOracle(g, oracle) && Commodities(g, cs) && Grown(w, w')
    requires PhaseOk(g, cs, oracle, eps, w0, w, pushed) && eps > 0.0
    requires i < |cs| && x > 0.0 && pushed[i] + x <= cs[i].demand
    requires Dot(w', g.cap) == Dot(w, g.cap) + Mul(Mul(eps, x), Distances(cs, w, oracle)[i])
    ensures PhaseOk(g, cs, oracle, eps, w0, w', pushed[i := pushed[i] + x])
  {
    hide Mul;
    var d, d', pushed' := Distances(cs, w, oracle), Distances(cs, w', oracle), pushed[i := pushed[i] + x];
    DotUpdate(pushed, d, i, x);
    MulDistribute(eps, Dot(pushed, d), Mul(x, d[i]));
    MulAssociate(eps, x, d[i]);
    DistancesGrow(g, cs, oracle, w, w');
    DotMonotone(pushed', pushed', d, d');
    MulMonotone(eps, eps, Dot(pushed', d), Dot(pushed', d'));
  }

  lemma MulAssociate(x: real, y: real, z: real)
    ensures Mul(Mul(x, y), z) == Mul(x, Mul(y, z))
  {
    Associate(x, y, z);
  }

  /** For every flow that serves each demand r > eps times within the capacities, t phases
      multiply the dual value by at most (1 - eps/r)^-t. */
  ghost predicate DualBound(g: Network, cs: seq<Commodity>, eps: real, start: real, d: real, t: nat)
    requires eps > 0.0
  {
    forall flows, r :: r > eps && Concurrent(g, cs, flows, r) ==> Mul(d, Pow(1.0 - eps / r, t)) <= start
  }

  lemma PhaseKeepsDualBound(g: Network, cs: seq<Commodity>, oracle: Oracle, eps: real, start: real,
                            w0: seq<real>, w: seq<real>, pushed: seq<real>, t: nat)
    requires g.Valid() && g.Lengths(w0) && g.Lengths(w) && IsOracle(g, oracle) && Commodities(g, cs) && eps > 0.0
    requires PhaseOk(g, cs, oracle, eps, w0, w, pushed)
    requires DualBound(g, cs, eps, start, Dot(w0, g.cap), t)
    ensures DualBound(g, cs, eps, start, Dot(w, g.cap), t + 1)
  {
    hide Mul, Concurrent;
    forall flows, r | r > eps && Concurrent(g, cs, flows, r)
      ensures Mul(Dot(w, g.cap), Pow(1.0 - eps / r, t + 1)) <= start
    {
      var d, alpha := Dot(w, g.cap), Alpha(cs, w, oracle);
      OracleHere(g, oracle, w);
      WeakDuality(g, cs, flows, w, oracle, r);
      DistancesGrow(g, cs, oracle, w, w);
      DotMonotone(pushed, Demands(cs), Distances(cs, w, oracle), Distances(cs, w, oracle));
      MulMonotone(eps, eps, Dot(pushed, Distances(cs, w, oracle)), alpha);
      ShrinkStep(d, Dot(w0, g.cap), eps, alpha, r);
      PowStep(d, Dot(w0, g.cap), 1.0 - eps / r, t);
    }
  }

  lemma RatioBelowOne(eps: real, r: real)
    requires 0.0 < eps < r
    ensures 0.0 < eps / r < 1.0 && (eps / r) * r == eps
  {
    var q := eps / r;
    assert q * r == eps;
    assert (1.0 - q) * r == r - eps;
    PositiveFactor(1.0 - q, r);
  }

  lemma PositiveFactor(x: real, y: real)
    requires y > 0.0 && x * y > 0.0
    ensures x > 0.0
  {}

  lemma ShrinkStep(d: real, d0: real, eps: real, alpha: real, r: real)
    requires eps > 0.0 && r > eps && d <= d0 + Mul(eps, alpha) && d >= Mul(r, alpha)
    ensures 0.0 < 1.0 - eps / r && Mul(d, 1.0 - eps / r) <= d0
  {
    var q := eps / r;
    RatioBelowOne(eps, r);
    assert d * q >= (r * alpha) * q;
    assert (r * alpha) * q == (q * r) * alpha;
    Distribute(d, 1.0, -q);
  }

  lemma PowStep(d: real, d0: real, q: real, t: nat)
    requires q > 0.0 && Mul(d, q) <= d0
    ensures Mul(d, Pow(q, t + 1)) <= Mul(d0, Pow(q, t))
  {
    PowPositive(q, t);
    assert d * q * Pow(q, t) <= d0 * Pow(q, t);
    Associate(d, q, Pow(q, t));
  }

  // ------------------------------------------------------------------
  // The initial lengths

  ghost function InitialLengths(g: Network, delta: real): (w: seq<real>)
    requires g.Valid()
    ensures |w| == |g.ends|
  {
    seq(|g.ends|, e requires 0 <= e < |g.ends| => delta / g.cap[e])
  }

  lemma {:induction false} InitialVolume(w: seq<real>, cap: seq<real>, delta: real)
    requires |w| == |cap|
    requires forall e :: 0 <= e < |cap| ==> cap[e] > 0.0 && w[e] == delta / cap[e]
    ensures Dot(w, cap) == Mul(|cap| as real, delta)
  {
    if cap != [] {
      InitialVolume(w[1..], cap[1..], delta);
      assert Mul(w[0], cap[0]) == delta;
      MulAdd(1.0, |cap[1..]| as real, delta);
    }
  }

  lemma InitialEdge(c: real, eps: real, delta: real)
    requires c > 0.0 && eps > 0.0 && delta > 0.0
    ensures EdgeOk(c, delta / c, 0.0, eps, delta)
  {
    assert (0.0 / c) == 0.0;
    assert G(eps, 0.0) == 1.0;
    assert Mul(c, delta / c) == delta;
    forall p: nat, q: nat | Covers(eps, delta, p, q)
      ensures 0.0 < Mul(c, Level(p, q) + 1.0)
    {
      assert Level(p, q) >= 0.0;
    }
  }

  function Unrouted(ds: seq<MfDemand>): (r: seq<MfDemand>)
    ensures |r| == |ds|
  {
    seq(|ds|, i requires 0 <= i < |ds| => ds[i].(flow := 0.0, pathFlow := map[]))
  }

  lemma {:induction false} NoLoad(g: Network, flows: seq<PathFlow>, e: nat)
    requires forall i :: 0 <= i < |flows| ==> flows[i] == map[]
    ensures Load(g, flows, e) == 0.0
  {
    if flows != [] { NoLoad(g, flows[1..], e); }
  }

  lemma InitiallyOk(g: Network, eps: real, delta: real, ds: seq<MfDemand>)
    requires g.Valid() && eps > 0.0 && delta > 0.0
    ensures SolverOk(g, eps, delta, InitialLengths(g, delta), Unrouted(ds))
  {
    forall e | 0 <= e < |g.ends|
      ensures EdgeOk(g.cap[e], InitialLengths(g, delta)[e], Load(g, Flows(Unrouted(ds)), e), eps, delta)
    {
      NoLoad(g, Flows(Unrouted(ds)), e);
      InitialEdge(g.cap[e], eps, delta);
    }
  }
}
