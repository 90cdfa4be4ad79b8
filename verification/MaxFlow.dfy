/** The solver itself: `Graph_mf` of TopologyManager/tm_max_flow.cpp with its loops. Dijkstra's
    algorithm, the shuffle of the demand order and the values of pow and log are parameters. */
module MaxFlow {
  import opened RealVectors
  import opened Growth
  import opened FlowNetwork
  import opened FlowAnalysis
  import opened SingleLink

  // Some positive lower bound of finitely many positive numbers.
  ghost function LowerBound(s: seq<real>): (r: real)
    requires forall i :: 0 <= i < |s| ==> s[i] > 0.0
    ensures r > 0.0 && forall i :: 0 <= i < |s| ==> r <= s[i]
  {
    if s == [] then 1.0 else
      var r := LowerBound(s[1..]);
      assert forall i :: 1 <= i < |s| ==> s[i] == s[1..][i - 1];
      if s[0] < r then s[0] else r
  }

  // How many units fit into x, rounded up: the termination measure of the loops.
  ghost function Units(x: real, unit: real): nat
    requires unit > 0.0
  {
    if x <= 0.0 then 0 else assert x / unit >= 0.0; (x / unit).Floor + 1
  }

  lemma UnitsDrop(x: real, y: real, unit: real)
    requires unit > 0.0 && x > 0.0 && (y <= 0.0 || y <= x - unit)
    ensures Units(y, unit) < Units(x, unit)
  {
    if y > 0.0 {
      DividedDrop(x, y, unit);
    }
  }

  lemma DividedDrop(x: real, y: real, unit: real)
    requires unit > 0.0 && y <= x - unit
    ensures y / unit <= x / unit - 1.0
  {
    var q, r := x / unit, y / unit;
    assert q * unit == x && r * unit == y;
    assert (q - 1.0 - r) * unit == x - unit - y;
    NonNegativeFactor(q - 1.0 - r, unit);
  }

  lemma NonNegativeFactor(x: real, y: real)
    requires y > 0.0 && x * y >= 0.0
    ensures x >= 0.0
  {}

  ghost predicate IsOrder(order: seq<nat>, n: nat) {
    && |order| == n
    && (forall j :: 0 <= j < n ==> order[j] < n)
    && (forall j, k :: 0 <= j < k < n ==> order[j] != order[k])
    && (forall i :: 0 <= i < n ==> i in order)
  }

  class GraphMf {
    const g: Network
    const oracle: Oracle
    const dblMax: real
    var gdual: seq<real>
    var demands: seq<MfDemand>
    var lambda: real
    var beta: real
    var totalphases: nat

    constructor (g: Network, oracle: Oracle, dblMax: real, demands: seq<MfDemand>)
      ensures this.g == g && this.oracle == oracle && this.dblMax == dblMax && this.demands == demands
    {
      this.g, this.oracle, this.dblMax, this.demands := g, oracle, dblMax, demands;
      gdual, lambda, beta, totalphases := [], 0.0, 0.0, 0;
    }

    ghost predicate Valid()
      reads this
    {
      g.Valid() && IsOracle(g, oracle) && Commodities(g, Cs(demands))
    }

    ghost predicate Solving(eps: real, delta: real)
      reads this
    {
      && Valid() && eps > 0.0 && delta > 0.0
      && g.Lengths(gdual) && SolverOk(g, eps, delta, gdual, demands) && LinkState(g, eps, delta, gdual, demands)
    }

    method CalcD() returns (sum: real)
      requires |gdual| == |g.cap|
      ensures sum == Dot(gdual, g.cap)
    {
      sum := 0.0;
      for i := 0 to |gdual|
        invariant sum + Dot(gdual[i..], g.cap[i..]) == Dot(gdual, g.cap)
      {
        assert gdual[i..][1..] == gdual[i + 1..] && g.cap[i..][1..] == g.cap[i + 1..];
        sum := sum + gdual[i] * g.cap[i];
      }
    }

    // The first backward walk: the smallest capacity on the tree path.
    method MinCapacity(t: Tree, source: nat, sink: nat, ghost p: Path) returns (mincap: real)
      requires g.Valid() && g.IsPathFromTo(p, source, sink) && Simple(p) && Follows(t, p, source)
      requires source != sink && |t.penult| == g.n
      ensures Fits(g, p, mincap) && exists k :: 0 <= k < |p| - 1 && mincap == HopCap(g, p, k)
    {
      hide Network.Valid, Fits, Simple;
      var f := sink;
      var pre := t.penult[f];
      ghost var k := |p| - 2;
      assert StepsBack(t, p[k], p[k + 1]);
      LastFits(g, p);
      mincap := g.cap[g.Edge(pre, f)];
      ghost var narrow := k;
      f := pre;
      while f != source
        invariant 0 <= k < |p| - 1 && f == p[k]
        invariant 0 <= narrow < |p| - 1 && mincap == HopCap(g, p, narrow)
        invariant g.IsPath(p[k..]) && Fits(g, p[k..], mincap)
        decreases k
      {
        pre := t.penult[f];
        assert k > 0 && StepsBack(t, p[k - 1], p[k]);
        EarlierFits(g, p, k, mincap);
        var cap := g.cap[g.Edge(pre, f)];
        if cap < mincap {
          mincap, narrow := cap, k - 1;
        }
        k := k - 1;
        f := pre;
      }
      assert k == 0;
      assert p[0..] == p;
    }

    // The second backward walk: lengthen every edge of the path and record the path.
    method Lengthen(t: Tree, source: nat, sink: nat, eps: real, x: real, ghost p: Path) returns (path: Path)
      requires g.Valid() && |gdual| == |g.ends|
      requires g.IsPathFromTo(p, source, sink) && Follows(t, p, source)
      requires |t.penult| == g.n
      modifies this`gdual
      ensures path == p && gdual == RaiseAlong(g, old(gdual), p, eps, x)
    {
      hide Raise, RaiseAlong, Network.IsPath;
      var f := sink;
      path := [f];
      RaiseNothing(g, gdual, p, eps, x);
      while f != source
        invariant 0 < |path| <= |p| && path == p[|p| - |path|..] && f == path[0]
        invariant g.IsPath(path) && gdual == RaiseAlong(g, old(gdual), path, eps, x)
        decreases |p| - |path|
      {
        var k := |p| - |path|;
        assert k > 0 && StepsBack(t, p[k - 1], p[k]);
        var pre := t.penult[f];
        assert [pre] + path == p[k - 1..];
        RaiseOne(g, old(gdual), p, k, eps, x);
        var e := g.Edge(pre, f);
        gdual := gdual[e := Raise(gdual[e], g.cap[e], eps, x)];
        path := [pre] + path;
        f := pre;
      }
      assert |path| == |p|;
    }

    /** One iteration: a shortest path, its bottleneck, the length update, the flow record.
        It raises the dual value by exactly eps times amount times distance, and either uses up
        the remaining demand or fills a bottleneck edge. */
    method Push(i: nat, remaining: real, eps: real, ghost delta: real) returns (x: real, ghost p: Path)
      requires Solving(eps, delta) && i < |demands| && remaining > 0.0 && Dot(gdual, g.cap) < 1.0 && WholeLeft(g, demands, remaining)
      modifies this`gdual, this`demands
      ensures Solving(eps, delta) && 0.0 < x <= remaining && WholeLeft(g, demands, remaining - x)
      ensures exists e :: 0 <= e < |g.cap| && x <= g.cap[e] && (x == remaining || x == g.cap[e])
      ensures Grown(old(gdual), gdual)
      ensures |demands| == |old(demands)| && Cs(demands) == old(Cs(demands))
      ensures Dot(gdual, g.cap) == old(Dot(gdual, g.cap)) + Mul(Mul(eps, x), Distances(Cs(demands), old(gdual), oracle)[i])
      ensures demands[i].flow == old(demands)[i].flow + x
      ensures demands == old(demands)[i := demands[i]]
      ensures Pushed(g, oracle, old(gdual), gdual, old(demands)[i], demands[i], remaining, eps, x, p)
    {
      hide SolverOk, Credit, Mul, Raise, RaiseAlong, Fits, IsOracle, Simple, Follows, LinkState, WholeLeft, HopCap;
      var c := demands[i].c;
      assert CommodityOk(g, Cs(demands)[i]);
      var t := oracle(gdual, c.source);
      p := OraclePath(g, c, gdual, oracle);
      var mincap := MinCapacity(t, c.source, c.sink, p);
      ghost var k :| 0 <= k < |p| - 1 && mincap == HopCap(g, p, k);
      HopCapIs(g, p, k);
      x := if remaining < mincap then remaining else mincap;
      ghost var w, ds := gdual, demands;
      SmallerFits(g, p, mincap, x);
      PushEffect(g, oracle, eps, delta, w, ds, i, p, x);
      var path := Lengthen(t, c.source, c.sink, eps, x, p);
      demands := demands[i := Credit(demands[i], path, x)];
      PushOnLink(g, oracle, eps, delta, w, gdual, ds, demands, i, remaining, x);
    }

    /** One step: push until the demand is used up or the dual value reaches one. */
    method Route(i: nat, eps: real, d0: real, ghost delta: real, ghost low: real,
                 ghost w0: seq<real>, ghost pushed0: seq<real>)
      returns (d: real, ghost pushed: seq<real>)
      requires Solving(eps, delta) && i < |demands| && d0 == Dot(gdual, g.cap)
      requires PhaseOk(g, Cs(demands), oracle, eps, w0, gdual, pushed0) && pushed0[i] == 0.0
      requires low > 0.0 && forall e :: 0 <= e < |gdual| ==> gdual[e] >= low
      modifies this`gdual, this`demands
      ensures Solving(eps, delta) && Grown(old(gdual), gdual) && d == Dot(gdual, g.cap) >= d0
      ensures |demands| == |old(demands)| && Cs(demands) == old(Cs(demands))
      ensures PhaseOk(g, Cs(demands), oracle, eps, w0, gdual, pushed)
      ensures pushed == pushed0[i := pushed[i]]
      ensures d < 1.0 ==> pushed[i] == demands[i].c.demand
      ensures d >= d0 + Mul(Mul(eps, pushed[i]), low)
      ensures demands[i].flow == old(demands)[i].flow + pushed[i]
      ensures demands == old(demands)[i := demands[i]]
    {
      hide SolverOk, Mul, PhaseOk, IsOracle, Units, Dot, Distances, StepOk, Grown, LinkState, WholeLeft;
      WholeStart(g, demands);
      ghost var unit, cs, flow0 := LowerBound(g.cap), Cs(demands), demands[i].flow;
      CommoditiesPositive(g, cs);
      var remaining := demands[i].c.demand;
      d, pushed := d0, pushed0;
      StepStart(g, cs, oracle, eps, low, w0, gdual, pushed0, i);
      while d < 1.0 && remaining > 0.0
        invariant Solving(eps, delta) && d == Dot(gdual, g.cap)
        invariant |demands| == |old(demands)| && Cs(demands) == cs && |pushed| == |cs|
        invariant StepOk(g, cs, oracle, eps, low, w0, old(gdual), gdual, pushed0, pushed, i)
        invariant pushed[i] == cs[i].demand - remaining && 0.0 <= remaining <= cs[i].demand && WholeLeft(g, demands, remaining)
        invariant demands[i].flow == flow0 + pushed[i] && demands == old(demands)[i := demands[i]]
        decreases Units(remaining, unit)
      {
        ghost var w := gdual;
        var x, _ := Push(i, remaining, eps, delta);
        PushKeepsStepOk(g, cs, oracle, eps, low, w0, old(gdual), w, gdual, pushed0, pushed, i, x);
        UnitsDrop(remaining, remaining - x, unit);
        pushed := pushed[i := pushed[i] + x];
        remaining := remaining - x;
        d := CalcD();
      }
      StepOkMeans(g, cs, oracle, eps, low, w0, old(gdual), gdual, pushed0, pushed, i);
    }

    /** One phase over all demands in the shuffled order. */
    method Phase(order: seq<nat>, eps: real, d0: real, ghost delta: real, ghost low: real)
      returns (d: real, ghost pushed: seq<real>)
      requires Solving(eps, delta) && IsOrder(order, |demands|) && d0 == Dot(gdual, g.cap)
      requires low > 0.0 && forall e :: 0 <= e < |gdual| ==> gdual[e] >= low
      modifies this`gdual, this`demands
      ensures Solving(eps, delta) && Grown(old(gdual), gdual) && d == Dot(gdual, g.cap)
      ensures |demands| == |old(demands)| && Cs(demands) == old(Cs(demands))
      ensures PhaseOk(g, Cs(demands), oracle, eps, old(gdual), gdual, pushed)
      ensures forall i :: 0 <= i < |demands| ==> demands[i].flow == old(demands)[i].flow + pushed[i]
      ensures d < 1.0 ==> pushed == Demands(Cs(demands))
      ensures |demands| > 0 && d < 1.0 ==> d >= d0 + Mul(Mul(eps, demands[0].c.demand), low)
    {
      hide SolverOk, Mul, IsOracle, PhaseOk, Dot, Distances, Grown, LowerBound, Commodities, LinkState;
      ghost var cs := Cs(demands);
      pushed := seq(|demands|, i => 0.0);
      CommoditiesPositive(g, cs);
      PhaseStart(g, cs, oracle, eps, gdual, pushed);
      d := d0;
      for j := 0 to |order|
        invariant Solving(eps, delta) && Grown(old(gdual), gdual) && d == Dot(gdual, g.cap) >= d0
        invariant |demands| == |old(demands)| && Cs(demands) == cs && |pushed| == |cs|
        invariant PhaseOk(g, cs, oracle, eps, old(gdual), gdual, pushed)
        invariant forall i :: 0 <= i < |demands| ==> demands[i].flow == old(demands)[i].flow + pushed[i]
        invariant forall k :: j <= k < |order| ==> pushed[order[k]] == 0.0
        invariant d < 1.0 ==> forall k :: 0 <= k < j ==> pushed[order[k]] == cs[order[k]].demand
        invariant d < 1.0 && |cs| > 0 && 0 in order[..j] ==> d >= d0 + Mul(Mul(eps, cs[0].demand), low)
      {
        ghost var before, now := pushed, gdual;
        assert order[..j + 1] == order[..j] + [order[j]];
        GainNonNegative(eps, cs[order[j]].demand, low);
        PhaseSizes(g, cs, oracle, eps, old(gdual), gdual, pushed);
        StillAbove(old(gdual), gdual, low);
        d, pushed := Route(order[j], eps, d, delta, low, old(gdual), before);
        PhaseSizes(g, cs, oracle, eps, old(gdual), gdual, pushed);
        GrownTransitive(old(gdual), now, gdual);
      }
      assert order[..|order|] == order;
      forall i | 0 <= i < |cs| && d < 1.0
        ensures pushed[i] == Demands(cs)[i]
      {
        assert i in order;
        var k :| 0 <= k < |order| && order[k] == i;
      }
    }

    method RescaleFlows(scale: real)
      modifies this`demands
      ensures |demands| == |old(demands)|
      ensures forall i :: 0 <= i < |demands| ==> Scaled(old(demands)[i], demands[i], scale)
    {
      hide Mul;
      for i := 0 to |demands|
        invariant |demands| == |old(demands)|
        invariant forall j :: 0 <= j < i ==> Scaled(old(demands)[j], demands[j], scale)
        invariant forall j :: i <= j < |demands| ==> demands[j] == old(demands)[j]
      {
        var d, now := demands[i], demands;
        var flow, left := d.pathFlow, d.pathFlow.Keys;
        while left != {}
          invariant demands == now && flow.Keys == d.pathFlow.Keys && left <= flow.Keys
          invariant forall p :: p in flow ==>
            flow[p] == if p in left then d.pathFlow[p] else Mul(scale, d.pathFlow[p])
        {
          var p :| p in left;
          MulCommutes(scale, flow[p]);
          flow := flow[p := Mul(flow[p], scale)];
          left := left - {p};
        }
        MulCommutes(scale, d.flow);
        demands := demands[i := d.(flow := Mul(d.flow, scale), pathFlow := flow)];
      }
    }

    method RescaleDemands(scale: real)
      modifies this`demands
      ensures demands == WithDemands(old(demands), ScaledDemands(old(demands), scale))
    {
      for i := 0 to |demands|
        invariant |demands| == |old(demands)|
        invariant forall j :: 0 <= j < i ==>
          demands[j] == old(demands)[j].(c := old(demands)[j].c.(demand := old(demands)[j].c.demand * scale))
        invariant forall j :: i <= j < |demands| ==> demands[j] == old(demands)[j]
      {
        demands := demands[i := demands[i].(c := demands[i].c.(demand := demands[i].c.demand * scale))];
      }
      var scaled := WithDemands(old(demands), ScaledDemands(old(demands), scale));
      assert forall j :: 0 <= j < |demands| ==> demands[j] == scaled[j];
    }

    // The smallest ratio of flow to demand, starting from the largest double.
    method CalcLambda() returns (low: real)
      requires Commodities(g, Cs(demands))
      modifies this`lambda
      ensures low == lambda && IsLambda(demands, lambda, dblMax)
    {
      CommoditiesPositive(g, Cs(demands));
      assert forall i :: 0 <= i < |demands| ==> Cs(demands)[i] == demands[i].c;
      lambda := dblMax;
      for i := 0 to |demands|
        invariant lambda <= dblMax && forall j :: 0 <= j < i ==> lambda <= Ratio(demands[j])
        invariant lambda == dblMax || exists j :: 0 <= j < i && lambda == Ratio(demands[j])
      {
        lambda := if Ratio(demands[i]) < lambda then Ratio(demands[i]) else lambda;
      }
      low := lambda;
    }

    /** The dual value over the demand-weighted distance: by weak duality no flow within the
        capacities can serve the demands at a better ratio. */
    method CalcBeta() returns (b: real)
      requires Valid() && g.Lengths(gdual) && |demands| > 0
      ensures b > 0.0 && IsBeta(g, oracle, Cs(demands), gdual, b)
      ensures forall flows, r :: r >= 0.0 && Concurrent(g, Cs(demands), flows, r) ==> r <= b
    {
      ghost var cs := Cs(demands);
      var alpha := 0.0;
      ghost var ds, dist := Demands(cs), Distances(cs, gdual, oracle);
      for i := 0 to |demands|
        invariant alpha + Dot(ds[i..], dist[i..]) == Dot(ds, dist)
      {
        assert CommodityOk(g, cs[i]);
        DistanceAtLeast(g, cs[i], gdual, oracle, 0.0);
        var t := oracle(gdual, demands[i].c.source);
        assert ds[i..][1..] == ds[i + 1..] && dist[i..][1..] == dist[i + 1..];
        alpha := alpha + Mul(demands[i].c.demand, t.dist[demands[i].c.sink]);
      }
      var d := CalcD();
      AlphaPositive(g, cs, gdual, oracle);
      VolumePositive(g, cs[0], gdual, oracle);
      b := d / alpha;
      assert b * alpha == d;
      forall flows, r | r >= 0.0 && Concurrent(g, cs, flows, r)
        ensures r <= b
      {
        OracleHere(g, oracle, gdual);
        WeakDuality(g, cs, flows, gdual, oracle, r);
        QuotientBound(d, alpha, r);
      }
    }

    // Unit flow records, lengths delta/c and their dual value.
    method Initialise(eps: real, delta: real) returns (d: real)
      requires Valid() && eps > 0.0 && delta > 0.0
      modifies this
      ensures Solving(eps, delta) && |demands| == |old(demands)| && Cs(demands) == old(Cs(demands))
      ensures d == Dot(gdual, g.cap) == Mul(|g.cap| as real, delta)
      ensures Served(demands, 0.0) && Served(demands, -1.0) && totalphases == 0
    {
      hide SolverOk, Mul, Dot, IsOracle, InitialLengths, Unrouted, Served, LinkState;
      InitialFacts(g, eps, delta, demands);
      demands := Unrouted(demands);
      gdual := seq(|g.ends|, e requires 0 <= e < |g.ends| => delta / g.cap[e]);
      InitialIs(g, delta, gdual);
      d := CalcD();
      totalphases := 0;
    }

    // The phases, until the dual value reaches one.
    method Solve(eps: real, delta: real, shuffle: nat -> seq<nat>)
      requires Valid() && eps > 0.0 && delta > 0.0 && |demands| > 0
      requires forall t: nat :: IsOrder(shuffle(t), |demands|)
      modifies this
      ensures Solving(eps, delta) && |demands| == |old(demands)| && Cs(demands) == old(Cs(demands))
      ensures Dot(gdual, g.cap) >= 1.0 && Served(demands, totalphases as real - 1.0)
      ensures DualBound(g, Cs(demands), eps, Mul(|g.cap| as real, delta), Dot(gdual, g.cap), totalphases)
    {
      hide SolverOk, Mul, PhaseOk, IsOracle, Units, Dot, SolveOk, DualBound, Served, Grown, LinkState;
      ghost var cs := Cs(demands);
      CommoditiesPositive(g, cs);
      var d := Initialise(eps, delta);
      ghost var low := LowerBound(gdual);
      ghost var gain := Mul(Mul(eps, cs[0].demand), low);
      GainPositive(eps, cs[0].demand, low);
      SolveStart(g, eps, delta, low, gdual, demands);
      while d < 1.0
        invariant Solving(eps, delta) && d == Dot(gdual, g.cap)
        invariant |demands| == |old(demands)| && Cs(demands) == cs
        invariant SolveOk(g, eps, delta, low, gdual, demands, totalphases)
        decreases Units(1.0 - d, gain)
      {
        ghost var w0, ds0, d0 := gdual, demands, d;
        ghost var pushed;
        SolveOkMeans(g, eps, delta, low, gdual, demands, totalphases);
        d, pushed := Phase(shuffle(totalphases), eps, d, delta, low);
        PhaseKeepsSolveOk(g, oracle, eps, delta, low, w0, gdual, ds0, demands, pushed, totalphases);
        assert Cs(demands)[0] == demands[0].c;
        UnitsDrop(1.0 - d0, 1.0 - d, gain);
        totalphases := totalphases + 1;
      }
      SolveOkMeans(g, eps, delta, low, gdual, demands, totalphases);
    }

    /** The approximation: within the capacities after dividing by any p/q + 1 with
        (1+eps)^p * delta^q >= 1, at least totalphases-1 times every demand before scaling, and
        totalphases large whenever a good flow exists. */
    method MaxConcurrentFlow(eps: real, delta: real, scalef: real, shuffle: nat -> seq<nat>)
      requires Valid() && eps > 0.0 && delta > 0.0 && scalef > 0.0 && |demands| > 0
      requires forall t: nat :: IsOrder(shuffle(t), |demands|)
      modifies this
      ensures Valid() && |demands| == |old(demands)| && Cs(demands) == old(Cs(demands)) && g.Lengths(gdual)
      ensures Solution(g, eps, delta, scalef, gdual, demands, totalphases) && LinkResult(g, eps, delta, scalef, demands)
      ensures IsLambda(demands, lambda, dblMax) && beta > 0.0 && IsBeta(g, oracle, Cs(demands), gdual, beta)
      ensures forall flows, r :: r >= 0.0 && Concurrent(g, Cs(demands), flows, r) ==> r <= beta
    {
      hide SolverOk, IsOracle, Dot, DualBound, Served, Solution, Concurrent, LinkState, LinkResult, Scaled, IsBeta;
      Solve(eps, delta, shuffle);
      ghost var ds := demands;
      RescaleFlows(scalef);
      FinishedSolution(g, eps, delta, scalef, gdual, ds, demands, totalphases);
      FinishedLink(g, eps, delta, scalef, gdual, ds, demands);
      lambda := CalcLambda();
      beta := CalcBeta();
    }

    /** Solve twice, rescaling the demands in between, then judge the flow by the original
        demands. `lambda0` is whatever positive scale the shortest-path pass produced. The demands are
        solved for at s times their amount, half of what the lengths w1 of the first run allow. */
    method MaxConcurrentFlowPrescaled(lambda0: real, eps2: real, delta2: real, scalef2: real, shuffle2: nat -> seq<nat>,
                                      eps: real, delta: real, scalef: real, shuffle: nat -> seq<nat>)
      returns (ghost s: real, ghost beta1: real, ghost w1: seq<real>)
      requires Valid() && |demands| > 0 && lambda0 > 0.0
      requires eps2 > 0.0 && delta2 > 0.0 && scalef2 > 0.0 && (forall t: nat :: IsOrder(shuffle2(t), |demands|))
      requires eps > 0.0 && delta > 0.0 && scalef > 0.0 && (forall t: nat :: IsOrder(shuffle(t), |demands|))
      modifies this
      ensures Valid() && |demands| == |old(demands)| && Cs(demands) == old(Cs(demands)) && s > 0.0
      ensures Solution(g, eps, delta, scalef, gdual, WithDemands(demands, ScaledDemands(old(demands), s)), totalphases)
      ensures IsLambda(demands, lambda, dblMax) && beta > 0.0 && IsBeta(g, oracle, Cs(demands), gdual, beta)
      ensures forall flows, r :: r >= 0.0 && Concurrent(g, Cs(demands), flows, r) ==> r <= beta
      ensures s == lambda0 * (beta1 / 2.0) && g.Lengths(w1)
      ensures IsBeta(g, oracle, Cs(WithDemands(old(demands), ScaledDemands(old(demands), lambda0))), w1, beta1)
    {
      hide Solution, Concurrent, IsOracle, IsLambda, Commodities, IsBeta, Network.Valid, Load, DemandOk;
      var saved := demands;
      ScaledCommodities(g, demands, lambda0);
      RescaleDemands(lambda0);
      MaxConcurrentFlow(eps2, delta2, scalef2, shuffle2);
      beta1, w1 := beta, gdual;
      ghost var half, first := beta / 2.0, demands;
      s := lambda0 * half;
      ScaledCommodities(g, demands, half);
      RescaleDemands(beta / 2.0);
      MaxConcurrentFlow(eps, delta, scalef, shuffle);
      Restored(saved, first, demands, lambda0, half, s);
      demands := WithDemands(demands, Originals(saved));
      lambda := CalcLambda();
      beta := CalcBeta();
    }

    /** Scale the concurrent flow down to the demands: when every demand received some flow,
        each ends with at least its demand and the worst served one with exactly its demand. They all
        do if the scaled demands leave room for more than eps of each. Otherwise the source divides by
        zero. */
    method MinCongestionFlow(lambda0: real, eps2: real, delta2: real, scalef2: real, shuffle2: nat -> seq<nat>,
                             eps: real, delta: real, scalef: real, shuffle: nat -> seq<nat>)
      returns (served: bool, ghost s: real)
      requires Valid() && |demands| > 0 && lambda0 > 0.0
      requires eps2 > 0.0 && delta2 > 0.0 && scalef2 > 0.0 && (forall t: nat :: IsOrder(shuffle2(t), |demands|))
      requires eps > 0.0 && delta > 0.0 && scalef > 0.0 && (forall t: nat :: IsOrder(shuffle(t), |demands|))
      modifies this
      ensures Valid() && |demands| == |old(demands)| && Cs(demands) == old(Cs(demands))
      ensures served <==> lambda > 0.0
      ensures dblMax > 0.0 ==> (served <==> forall i :: 0 <= i < |demands| ==> demands[i].flow > 0.0)
      ensures s > 0.0 && (dblMax > 0.0 && Room(g, eps, delta, Cs(WithDemands(old(demands), ScaledDemands(old(demands), s)))) ==> served)
      ensures served ==> forall i :: 0 <= i < |demands| ==> DemandOk(g, demands[i]) && demands[i].flow >= demands[i].c.demand
      ensures served && lambda < dblMax ==> exists i :: 0 <= i < |demands| && demands[i].flow == demands[i].c.demand
      ensures served ==> forall e, p: nat, q: nat :: 0 <= e < |g.cap| && Covers(eps, delta, p, q) ==>
                Load(g, Flows(demands), e) < Mul(1.0 / lambda, Mul(scalef, Mul(g.cap[e], Level(p, q) + 1.0)))
    {
      hide Solution, IsLambda, Room, Commodities, Mul, Level, Covers;
      ghost var beta1, w1;
      s, beta1, w1 := MaxConcurrentFlowPrescaled(lambda0, eps2, delta2, scalef2, shuffle2, eps, delta, scalef, shuffle);
      served := lambda > 0.0;
      SameScaled(old(demands), demands, ScaledDemands(old(demands), s));
      ScaledCommodities(g, old(demands), s);
      LambdaIff(demands, lambda, dblMax);
      RoomServes(g, eps, delta, scalef, gdual, WithDemands(demands, ScaledDemands(old(demands), s)), totalphases);
      ghost var ds := demands;
      if served {
        RescaleFlows(1.0 / lambda);
        StillServed(ds, demands, 1.0 / lambda);
        Inverse(lambda);
        Congestion(g, eps, delta, scalef, ds, demands, ScaledDemands(old(demands), s), totalphases, lambda, 1.0 / lambda, dblMax, gdual);
      }
    }
  }

  /** beta is the dual value over the demand-weighted distance, the best bound the lengths w give. */
  ghost predicate IsBeta(g: Network, oracle: Oracle, cs: seq<Commodity>, w: seq<real>, b: real)
    requires |w| == |g.cap|
  {
    Mul(b, Alpha(cs, w, oracle)) == Dot(w, g.cap)
  }

  /** On one link with one demand that bound is the capacity over the demand, whatever the lengths. */
  lemma LinkBeta(g: Network, oracle: Oracle, cs: seq<Commodity>, w: seq<real>, b: real)
    requires g.Valid() && IsLink(g) && g.Lengths(w) && IsOracle(g, oracle) && |cs| == 1 && CommodityOk(g, cs[0])
    requires IsBeta(g, oracle, cs, w, b)
    ensures Mul(b, cs[0].demand) == g.cap[0]
  {
    hide IsOracle;
    LinkDistance(g, cs[0], w, oracle);
    OneTerm(Demands(cs), Distances(cs, w, oracle));
    OneTerm(w, g.cap);
    SharedFactor(b, cs[0].demand, w[0], g.cap[0]);
  }

  lemma SharedFactor(b: real, demand: real, w: real, c: real)
    requires w > 0.0 && Mul(b, Mul(demand, w)) == Mul(w, c)
    ensures Mul(b, demand) == c
  {
    Associate(b, demand, w);
    assert (b * demand - c) * w == 0.0;
  }

  /** So there the second run is for exactly half of the capacity. */
  lemma LinkPrescaled(g: Network, oracle: Oracle, ds: seq<MfDemand>, lambda0: real, s: real, beta1: real, w1: seq<real>)
    requires g.Valid() && IsLink(g) && g.Lengths(w1) && IsOracle(g, oracle) && |ds| == 1 && CommodityOk(g, ds[0].c) && lambda0 > 0.0
    requires s == lambda0 * (beta1 / 2.0) && IsBeta(g, oracle, Cs(WithDemands(ds, ScaledDemands(ds, lambda0))), w1, beta1)
    ensures Mul(s, ds[0].c.demand) == g.cap[0] / 2.0
  {
    hide IsOracle, IsBeta;
    var cs := Cs(WithDemands(ds, ScaledDemands(ds, lambda0)));
    assert cs[0] == ds[0].c.(demand := ds[0].c.demand * lambda0);
    assert ds[0].c.demand * lambda0 > 0.0;
    LinkBeta(g, oracle, cs, w1, beta1);
    HalfOf(s, lambda0, beta1, ds[0].c.demand, g.cap[0]);
  }

  lemma HalfOf(s: real, l: real, b: real, d: real, c: real)
    requires s == l * (b / 2.0) && Mul(b, d * l) == c
    ensures Mul(s, d) == c / 2.0
  {
    assert s * d == (b * (d * l)) / 2.0;
  }

  // Some flow within the capacities serves all demands more than eps times, and visibly so at delta.
  ghost predicate Room(g: Network, eps: real, delta: real, cs: seq<Commodity>) {
    exists flows, r :: Concurrent(g, cs, flows, r) && Spacious(eps, r, |g.cap| as real, delta)
  }

  ghost predicate Spacious(eps: real, r: real, m: real, delta: real) {
    0.0 < eps < r && 1.0 - eps / r > Mul(m, delta)
  }

  /** With room for every demand, there are at least two phases and every demand receives flow. */
  lemma RoomServes(g: Network, eps: real, delta: real, s: real, w: seq<real>, ds: seq<MfDemand>, phases: nat)
    requires g.Valid() && eps > 0.0 && s > 0.0 && Solution(g, eps, delta, s, w, ds, phases) && Commodities(g, Cs(ds))
    ensures Room(g, eps, delta, Cs(ds)) ==> phases > 1 && forall i :: 0 <= i < |ds| ==> ds[i].flow > 0.0
  {
    hide Mul, Pow, Covers, Level, Load;
    if Room(g, eps, delta, Cs(ds)) {
      var flows, r :| Concurrent(g, Cs(ds), flows, r) && Spacious(eps, r, |g.cap| as real, delta);
      TwoPhases(eps, r, Mul(|g.cap| as real, delta), phases);
      forall i | 0 <= i < |ds|
        ensures ds[i].flow > 0.0
      {
        assert CommodityOk(g, Cs(ds)[i]);
        PositiveProduct(s, phases as real - 1.0);
        PositiveProduct(Mul(s, phases as real - 1.0), ds[i].c.demand);
      }
    }
  }

  lemma TwoPhases(eps: real, r: real, bound: real, t: nat)
    requires 0.0 < eps < r && 1.0 - eps / r > bound && Pow(1.0 - eps / r, t) <= bound
    ensures t > 1
  {
    var w := 1.0 - eps / r;
    assert eps / r > 0.0;
    assert Pow(w, 0) == 1.0;
    assert Pow(w, 1) == w * Pow(w, 0);
  }

  lemma LambdaIff(ds: seq<MfDemand>, lambda: real, cap: real)
    requires IsLambda(ds, lambda, cap)
    ensures cap > 0.0 ==> (lambda > 0.0 <==> forall i :: 0 <= i < |ds| ==> ds[i].flow > 0.0)
  {
    hide Ratio;
    forall i | 0 <= i < |ds|
      ensures Ratio(ds[i]) > 0.0 <==> ds[i].flow > 0.0
    {
      RatioPositive(ds[i]);
    }
  }

  lemma RatioPositive(d: MfDemand)
    requires d.c.demand > 0.0
    ensures Ratio(d) > 0.0 <==> d.flow > 0.0
  {
    assert Ratio(d) * d.c.demand == d.flow;
  }

  lemma SameScaled(ds: seq<MfDemand>, ds': seq<MfDemand>, amounts: seq<real>)
    requires |ds| == |ds'| == |amounts| && Cs(ds) == Cs(ds')
    ensures Cs(WithDemands(ds', amounts)) == Cs(WithDemands(ds, amounts))
    ensures forall i :: 0 <= i < |ds| ==> WithDemands(ds', amounts)[i].flow == ds'[i].flow
  {
    forall i | 0 <= i < |ds|
      ensures ds'[i].c == ds[i].c
    {
      assert Cs(ds)[i] == Cs(ds')[i];
    }
  }

  lemma StillServed(ds: seq<MfDemand>, ds': seq<MfDemand>, f: real)
    requires |ds| == |ds'| && f > 0.0 && forall i :: 0 <= i < |ds| ==> Scaled(ds[i], ds'[i], f)
    ensures forall i :: 0 <= i < |ds| ==> (ds'[i].flow > 0.0 <==> ds[i].flow > 0.0)
  {
    hide Mul;
    forall i | 0 <= i < |ds|
      ensures ds'[i].flow > 0.0 <==> ds[i].flow > 0.0
    {
      assert Scaled(ds[i], ds'[i], f);
      SamePositive(f, ds[i].flow);
    }
  }

  lemma Inverse(x: real)
    requires x > 0.0
    ensures Mul(1.0 / x, x) == 1.0
  {}

  lemma SamePositive(f: real, x: real)
    requires f > 0.0
    ensures Mul(f, x) > 0.0 <==> x > 0.0
  {}

  lemma Congestion(g: Network, eps: real, delta: real, scalef: real, ds: seq<MfDemand>, ds': seq<MfDemand>,
                   amounts: seq<real>, phases: nat, lambda: real, f: real, cap: real, w: seq<real>)
    requires g.Valid() && eps > 0.0 && |amounts| == |ds| && lambda > 0.0 && f > 0.0 && Mul(f, lambda) == 1.0
    requires Solution(g, eps, delta, scalef, w, WithDemands(ds, amounts), phases) && IsLambda(ds, lambda, cap)
    requires |ds| == |ds'| && forall i :: 0 <= i < |ds| ==> Scaled(ds[i], ds'[i], f)
    ensures Cs(ds') == Cs(ds)
    ensures forall i :: 0 <= i < |ds| ==> DemandOk(g, ds'[i]) && ds'[i].flow >= ds'[i].c.demand
    ensures lambda < cap ==> exists i :: 0 <= i < |ds| && ds'[i].flow == ds'[i].c.demand
    ensures forall e, p: nat, q: nat :: 0 <= e < |g.cap| && Covers(eps, delta, p, q) ==>
              Load(g, Flows(ds'), e) < Mul(f, Mul(scalef, Mul(g.cap[e], Level(p, q) + 1.0)))
  {
    hide Mul, Served, Ratio, Total;
    var solved := WithDemands(ds, amounts);
    forall i | 0 <= i < |ds|
      ensures ds'[i].c == ds[i].c && DemandOk(g, ds'[i]) && ds'[i].flow >= ds'[i].c.demand
      ensures lambda == Ratio(ds[i]) ==> ds'[i].flow == ds'[i].c.demand
    {
      assert Scaled(ds[i], ds'[i], f);
      assert DemandOk(g, solved[i]);
      assert DemandOk(g, ds[i]);
      ScaledDemandOk(g, ds[i], ds'[i], f);
      ScaledToDemand(ds[i], lambda, f);
    }
    assert Flows(solved) == Flows(ds);
    forall e, p: nat, q: nat | 0 <= e < |g.cap| && Covers(eps, delta, p, q)
      ensures Load(g, Flows(ds'), e) < Mul(f, Mul(scalef, Mul(g.cap[e], Level(p, q) + 1.0)))
    {
      ScaledLoad(g, ds, ds', f, e);
      MulKeepsStrictOrder(f, Load(g, Flows(ds), e), Mul(scalef, Mul(g.cap[e], Level(p, q) + 1.0)));
    }
    assert Cs(ds') == Cs(ds);
  }

  lemma ScaledToDemand(d: MfDemand, lambda: real, q: real)
    requires d.c.demand > 0.0 && lambda > 0.0 && lambda <= Ratio(d) && q > 0.0 && Mul(q, lambda) == 1.0
    ensures Mul(q, d.flow) >= d.c.demand
    ensures lambda == Ratio(d) ==> Mul(q, d.flow) == d.c.demand
  {
    var flow, demand, rho := d.flow, d.c.demand, Ratio(d);
    assert rho * demand == flow;
    assert lambda * demand <= rho * demand;
    assert q * (lambda * demand) <= q * flow;
    Associate(q, lambda, demand);
  }

  function Originals(ds: seq<MfDemand>): (r: seq<real>)
    ensures |r| == |ds|
  {
    seq(|ds|, i requires 0 <= i < |ds| => ds[i].c.demand)
  }

  lemma Restored(saved: seq<MfDemand>, first: seq<MfDemand>, last: seq<MfDemand>, a: real, b: real, s: real)
    requires |saved| == |first| == |last| && s == a * b
    requires Cs(first) == Cs(WithDemands(saved, ScaledDemands(saved, a)))
    requires Cs(last) == Cs(WithDemands(first, ScaledDemands(first, b)))
    ensures var back := WithDemands(last, Originals(saved));
      |back| == |saved| && Cs(back) == Cs(saved) && WithDemands(back, ScaledDemands(saved, s)) == last
  {
    var back := WithDemands(last, Originals(saved));
    forall i | 0 <= i < |saved|
      ensures back[i].c == saved[i].c && WithDemands(back, ScaledDemands(saved, s))[i] == last[i]
    {
      assert Cs(first)[i] == first[i].c && Cs(last)[i] == last[i].c;
      assert first[i].c == saved[i].c.(demand := saved[i].c.demand * a);
      assert last[i].c == first[i].c.(demand := first[i].c.demand * b);
      Associate(saved[i].c.demand, a, b);
    }
    assert Cs(back) == Cs(saved);
    assert WithDemands(back, ScaledDemands(saved, s)) == last;
  }

  lemma ScaledCommodities(g: Network, ds: seq<MfDemand>, s: real)
    requires Commodities(g, Cs(ds)) && s > 0.0
    ensures Commodities(g, Cs(WithDemands(ds, ScaledDemands(ds, s))))
  {
    var ds' := WithDemands(ds, ScaledDemands(ds, s));
    forall i | 0 <= i < |ds|
      ensures CommodityOk(g, Cs(ds')[i])
    {
      assert CommodityOk(g, Cs(ds)[i]);
      assert ds[i].c.demand * s > 0.0;
    }
  }

  ghost predicate Scaled(d: MfDemand, d': MfDemand, s: real) {
    && d'.c == d.c && d'.flow == Mul(s, d.flow) && d'.pathFlow.Keys == d.pathFlow.Keys
    && forall p :: p in d.pathFlow ==> d'.pathFlow[p] == Mul(s, d.pathFlow[p])
  }

  lemma MulCommutes(x: real, y: real)
    ensures Mul(x, y) == Mul(y, x)
  {}

  function WithDemands(ds: seq<MfDemand>, amounts: seq<real>): (r: seq<MfDemand>)
    requires |ds| == |amounts|
  {
    seq(|ds|, i requires 0 <= i < |ds| => ds[i].(c := ds[i].c.(demand := amounts[i])))
  }

  function ScaledDemands(ds: seq<MfDemand>, s: real): (r: seq<real>)
    ensures |r| == |ds|
  {
    seq(|ds|, i requires 0 <= i < |ds| => ds[i].c.demand * s)
  }

  function Ratio(d: MfDemand): real
    requires d.c.demand > 0.0
  {
    d.flow / d.c.demand
  }

  ghost predicate IsLambda(ds: seq<MfDemand>, lambda: real, cap: real) {
    && (forall i :: 0 <= i < |ds| ==> ds[i].c.demand > 0.0)
    && lambda <= cap && (forall i :: 0 <= i < |ds| ==> lambda <= Ratio(ds[i]))
    && (lambda == cap || exists i :: 0 <= i < |ds| && lambda == Ratio(ds[i]))
  }

  lemma AlphaPositive(g: Network, cs: seq<Commodity>, w: seq<real>, oracle: Oracle)
    requires g.Valid() && g.Lengths(w) && IsOracle(g, oracle) && Commodities(g, cs) && |cs| > 0
    ensures Alpha(cs, w, oracle) > 0.0
  {
    CommoditiesPositive(g, cs);
    DistancesGrow(g, cs, oracle, w, w);
    DotComponent(Demands(cs), Distances(cs, w, oracle), 0);
    assert CommodityOk(g, cs[0]);
    DistanceAtLeast(g, cs[0], w, oracle, LowerBound(w));
    assert cs[0].demand * Distances(cs, w, oracle)[0] > 0.0;
  }

  lemma VolumePositive(g: Network, c: Commodity, w: seq<real>, oracle: Oracle)
    requires g.Valid() && g.Lengths(w) && IsOracle(g, oracle) && CommodityOk(g, c)
    ensures Dot(w, g.cap) > 0.0
  {
    var p := OraclePath(g, c, w, oracle);
    assert g.IsEdge(p[0], p[1]);
    DotComponent(w, g.cap, 0);
    assert w[0] * g.cap[0] > 0.0;
  }

  lemma QuotientBound(d: real, alpha: real, r: real)
    requires alpha > 0.0 && d >= Mul(r, alpha)
    ensures r <= d / alpha
  {
    var q := d / alpha;
    assert q * alpha == d;
    assert (q - r) * alpha == d - r * alpha;
    NonNegativeFactor(q - r, alpha);
  }

  // Every demand has been routed at least t times over.
  ghost predicate Served(ds: seq<MfDemand>, t: real) {
    forall i :: 0 <= i < |ds| ==> ds[i].flow >= Mul(t, ds[i].c.demand)
  }

  lemma MulZeroServed(ds: seq<MfDemand>)
    requires forall i :: 0 <= i < |ds| ==> ds[i].flow >= 0.0 && ds[i].c.demand >= 0.0
    ensures Served(ds, 0.0) && Served(ds, -1.0)
  {}

  lemma PhaseServes(g: Network, oracle: Oracle, eps: real, w0: seq<real>, w: seq<real>,
                    ds: seq<MfDemand>, ds': seq<MfDemand>, pushed: seq<real>, t: real, d: real)
    requires |ds| == |ds'| && Cs(ds) == Cs(ds') && PhaseOk(g, Cs(ds'), oracle, eps, w0, w, pushed)
    requires Served(ds, t)
    requires forall i :: 0 <= i < |ds| ==> ds'[i].flow == ds[i].flow + pushed[i]
    requires d < 1.0 ==> pushed == Demands(Cs(ds'))
    ensures Served(ds', t) && (d < 1.0 ==> Served(ds', t + 1.0))
  {
    hide Mul;
    forall i | 0 <= i < |ds|
      ensures ds'[i].flow >= Mul(t, ds'[i].c.demand)
      ensures d < 1.0 ==> ds'[i].flow >= Mul(t + 1.0, ds'[i].c.demand)
    {
      assert Cs(ds)[i] == ds[i].c && Cs(ds')[i] == ds'[i].c;
      MulAdd(t, 1.0, ds[i].c.demand);
      MulCommutes(1.0, ds[i].c.demand);
      TimesOne(ds[i].c.demand);
    }
  }

  // What every phase keeps.
  ghost predicate SolveOk(g: Network, eps: real, delta: real, low: real, w: seq<real>, ds: seq<MfDemand>, t: nat)
    requires eps > 0.0
  {
    && |w| == |g.cap| && (forall e :: 0 <= e < |w| ==> w[e] >= low)
    && DualBound(g, Cs(ds), eps, Mul(|g.cap| as real, delta), Dot(w, g.cap), t)
    && Served(ds, t as real - 1.0) && (Dot(w, g.cap) < 1.0 ==> Served(ds, t as real))
  }

  lemma SolveStart(g: Network, eps: real, delta: real, low: real, w: seq<real>, ds: seq<MfDemand>)
    requires eps > 0.0 && |w| == |g.cap| && (forall e :: 0 <= e < |w| ==> w[e] >= low)
    requires Dot(w, g.cap) == Mul(|g.cap| as real, delta) && Served(ds, 0.0) && Served(ds, -1.0)
    ensures SolveOk(g, eps, delta, low, w, ds, 0)
  {
    hide Mul, Dot;
    DualBoundStart(g, Cs(ds), eps, Dot(w, g.cap));
  }

  lemma SolveOkMeans(g: Network, eps: real, delta: real, low: real, w: seq<real>, ds: seq<MfDemand>, t: nat)
    requires eps > 0.0 && SolveOk(g, eps, delta, low, w, ds, t)
    ensures |w| == |g.cap| && (forall e :: 0 <= e < |w| ==> w[e] >= low)
    ensures DualBound(g, Cs(ds), eps, Mul(|g.cap| as real, delta), Dot(w, g.cap), t)
    ensures Served(ds, t as real - 1.0)
  {}

  lemma PhaseKeepsSolveOk(g: Network, oracle: Oracle, eps: real, delta: real, low: real, w0: seq<real>, w: seq<real>,
                          ds0: seq<MfDemand>, ds: seq<MfDemand>, pushed: seq<real>, t: nat)
    requires g.Valid() && g.Lengths(w0) && g.Lengths(w) && IsOracle(g, oracle) && eps > 0.0 && Grown(w0, w)
    requires |ds| == |ds0| && Cs(ds) == Cs(ds0) && Commodities(g, Cs(ds))
    requires SolveOk(g, eps, delta, low, w0, ds0, t) && Dot(w0, g.cap) < 1.0
    requires PhaseOk(g, Cs(ds), oracle, eps, w0, w, pushed)
    requires forall i :: 0 <= i < |ds| ==> ds[i].flow == ds0[i].flow + pushed[i]
    requires Dot(w, g.cap) < 1.0 ==> pushed == Demands(Cs(ds))
    ensures SolveOk(g, eps, delta, low, w, ds, t + 1)
  {
    hide Mul, Dot, DualBound, Served;
    PhaseKeepsDualBound(g, Cs(ds), oracle, eps, Mul(|g.cap| as real, delta), w0, w, pushed, t);
    PhaseServes(g, oracle, eps, w0, w, ds0, ds, pushed, t as real, Dot(w, g.cap));
    assert forall e :: 0 <= e < |w| ==> w0[e] <= w[e];
  }

  lemma DualBoundStart(g: Network, cs: seq<Commodity>, eps: real, d: real)
    requires eps > 0.0
    ensures DualBound(g, cs, eps, d, d, 0)
  {}

  lemma InitialIs(g: Network, delta: real, w: seq<real>)
    requires g.Valid() && |w| == |g.ends| && forall e :: 0 <= e < |g.ends| ==> w[e] == delta / g.cap[e]
    ensures w == InitialLengths(g, delta)
  {}

  lemma InitialFacts(g: Network, eps: real, delta: real, ds: seq<MfDemand>)
    requires g.Valid() && eps > 0.0 && delta > 0.0 && Commodities(g, Cs(ds))
    ensures var w, ds' := InitialLengths(g, delta), Unrouted(ds);
      && g.Lengths(w) && SolverOk(g, eps, delta, w, ds') && LinkState(g, eps, delta, w, ds') && Cs(ds') == Cs(ds)
      && Dot(w, g.cap) == Mul(|g.cap| as real, delta) && Served(ds', 0.0) && Served(ds', -1.0)
  {
    hide SolverOk, Mul, Dot, LinkState, Served;
    var w, ds' := InitialLengths(g, delta), Unrouted(ds);
    assert Cs(ds') == Cs(ds);
    InitiallyOk(g, eps, delta, ds);
    InitialVolume(w, g.cap, delta);
    InitialPositive(g, delta);
    LinkStart(g, eps, delta, w, ds');
    UnroutedServed(g, ds);
  }

  lemma UnroutedServed(g: Network, ds: seq<MfDemand>)
    requires Commodities(g, Cs(ds))
    ensures Served(Unrouted(ds), 0.0) && Served(Unrouted(ds), -1.0)
  {
    CommoditiesPositive(g, Cs(ds));
    assert forall i :: 0 <= i < |ds| ==> Cs(ds)[i] == ds[i].c;
    MulZeroServed(Unrouted(ds));
  }

  lemma InitialPositive(g: Network, delta: real)
    requires g.Valid() && delta > 0.0
    ensures g.Lengths(InitialLengths(g, delta))
  {}

  lemma {:induction false} ScaledLoad(g: Network, ds: seq<MfDemand>, ds': seq<MfDemand>, s: real, e: nat)
    requires |ds| == |ds'| && forall i :: 0 <= i < |ds| ==> Scaled(ds[i], ds'[i], s)
    ensures Load(g, Flows(ds'), e) == Mul(s, Load(g, Flows(ds), e))
  {
    MulZero(s);
    hide Mul, Total;
    if ds != [] {
      assert Flows(ds)[1..] == Flows(ds[1..]) && Flows(ds')[1..] == Flows(ds'[1..]);
      ScaledLoad(g, ds[1..], ds'[1..], s, e);
      assert Scaled(ds[0], ds'[0], s);
      TotalScale(ds[0].pathFlow, ds'[0].pathFlow, s, Uses(g, e));
      MulDistribute(s, Total(ds[0].pathFlow, Uses(g, e)), Load(g, Flows(ds[1..]), e));
    }
  }

  lemma ScaledDemandOk(g: Network, d: MfDemand, d': MfDemand, s: real)
    requires DemandOk(g, d) && Scaled(d, d', s) && s > 0.0
    ensures DemandOk(g, d')
  {
    TotalScale(d.pathFlow, d'.pathFlow, s, Unit);
    forall p | p in d'.pathFlow
      ensures d'.pathFlow[p] > 0.0
    {
      assert s * d.pathFlow[p] > 0.0;
    }
  }

  lemma FinishedSolution(g: Network, eps: real, delta: real, s: real, w: seq<real>,
                         ds: seq<MfDemand>, ds': seq<MfDemand>, phases: nat)
    requires SolverOk(g, eps, delta, w, ds) && eps > 0.0 && delta > 0.0 && s > 0.0 && Dot(w, g.cap) >= 1.0
    requires Served(ds, phases as real - 1.0)
    requires DualBound(g, Cs(ds), eps, Mul(|g.cap| as real, delta), Dot(w, g.cap), phases)
    requires |ds| == |ds'| && forall i :: 0 <= i < |ds| ==> Scaled(ds[i], ds'[i], s)
    ensures Cs(ds') == Cs(ds) && Solution(g, eps, delta, s, w, ds', phases)
  {
    hide Mul, Concurrent;
    forall i | 0 <= i < |ds|
      ensures DemandOk(g, ds'[i]) && ds'[i].c == ds[i].c
      ensures ds'[i].flow >= Mul(Mul(s, phases as real - 1.0), ds'[i].c.demand)
    {
      assert Scaled(ds[i], ds'[i], s);
      ScaledDemandOk(g, ds[i], ds'[i], s);
      MulAssociate(s, phases as real - 1.0, ds[i].c.demand);
      MulKeepsOrder(s, Mul(phases as real - 1.0, ds[i].c.demand), ds[i].flow);
    }
    forall e, p: nat, q: nat | 0 <= e < |g.cap| && Covers(eps, delta, p, q)
      ensures Load(g, Flows(ds'), e) < Mul(s, Mul(g.cap[e], Level(p, q) + 1.0))
    {
      ScaledLoad(g, ds, ds', s, e);
      assert EdgeOk(g.cap[e], w[e], Load(g, Flows(ds), e), eps, delta);
      MulKeepsStrictOrder(s, Load(g, Flows(ds), e), Mul(g.cap[e], Level(p, q) + 1.0));
    }
    forall e, p: nat, q: nat | 0 <= e < |g.cap| && Covers(eps, delta, p, q) && Mul(g.cap[e], w[e]) < 1.0
      ensures Load(g, Flows(ds'), e) < Mul(s, Mul(g.cap[e], Level(p, q)))
    {
      ScaledLoad(g, ds, ds', s, e);
      assert EdgeOk(g.cap[e], w[e], Load(g, Flows(ds), e), eps, delta);
      BelowLevel(g.cap[e], w[e], Load(g, Flows(ds), e), eps, delta, p, q);
      MulKeepsStrictOrder(s, Load(g, Flows(ds), e), Mul(g.cap[e], Level(p, q)));
    }
    assert Cs(ds') == Cs(ds);
    forall flows, r | r > eps && Concurrent(g, Cs(ds'), flows, r)
      ensures Pow(1.0 - eps / r, phases) <= Mul(|g.cap| as real, delta)
    {
      RatioBelowOne(eps, r);
      PowPositive(1.0 - eps / r, phases);
      AtLeastOnce(Dot(w, g.cap), Pow(1.0 - eps / r, phases));
    }
  }

  lemma MulKeepsOrder(s: real, x: real, y: real)
    requires s > 0.0 && x <= y
    ensures Mul(s, x) <= Mul(s, y)
  {}

  lemma MulKeepsStrictOrder(s: real, x: real, y: real)
    requires s > 0.0 && x < y
    ensures Mul(s, x) < Mul(s, y)
  {}

  lemma AtLeastOnce(d: real, p: real)
    requires d >= 1.0 && p > 0.0
    ensures p <= Mul(d, p)
  {}

  /** What a finished run guarantees. */
  ghost predicate Solution(g: Network, eps: real, delta: real, s: real, w: seq<real>, ds: seq<MfDemand>, phases: nat)
    requires g.Valid() && eps > 0.0
  {
    && (forall i :: 0 <= i < |ds| ==> DemandOk(g, ds[i]))
    && (forall e, p: nat, q: nat :: 0 <= e < |g.cap| && Covers(eps, delta, p, q) ==>
          Load(g, Flows(ds), e) < Mul(s, Mul(g.cap[e], Level(p, q) + 1.0)))
    && |w| == |g.cap| && (forall e, p: nat, q: nat :: 0 <= e < |g.cap| && Covers(eps, delta, p, q) && Mul(g.cap[e], w[e]) < 1.0 ==>
          Load(g, Flows(ds), e) < Mul(s, Mul(g.cap[e], Level(p, q))))
    && Served(ds, Mul(s, phases as real - 1.0))
    && (forall flows, r :: r > eps && Concurrent(g, Cs(ds), flows, r) ==>
          Pow(1.0 - eps / r, phases) <= Mul(|g.cap| as real, delta))
  }

  lemma MulZeros(eps: real, low: real)
    ensures Mul(Mul(eps, 0.0), low) == 0.0
  {}

  lemma GainNonNegative(eps: real, x: real, low: real)
    requires eps > 0.0 && x >= 0.0 && low > 0.0
    ensures Mul(Mul(eps, x), low) >= 0.0
  {}

  lemma GainPositive(eps: real, x: real, low: real)
    requires eps > 0.0 && x > 0.0 && low > 0.0
    ensures Mul(Mul(eps, x), low) > 0.0
  {
    assert eps * x > 0.0;
  }

  lemma CommoditiesPositive(g: Network, cs: seq<Commodity>)
    requires Commodities(g, cs)
    ensures forall i :: 0 <= i < |cs| ==> cs[i].demand > 0.0
  {
    forall i | 0 <= i < |cs|
      ensures cs[i].demand > 0.0
    {
      assert CommodityOk(g, cs[i]);
    }
  }

  lemma GainAdds(eps: real, x: real, y: real, dist: real, low: real)
    requires eps > 0.0 && x >= 0.0 && y >= 0.0 && dist >= low >= 0.0
    ensures Mul(Mul(eps, x), low) + Mul(Mul(eps, y), dist) >= Mul(Mul(eps, x + y), low)
  {
    Distribute(eps, x, y);
    MulAdd(eps * x, eps * y, low);
    MulMonotone(eps * y, eps * y, low, dist);
  }

  // What the pushes of one step keep: the phase bound, growth since its start, and a minimum gain.
  ghost predicate StepOk(g: Network, cs: seq<Commodity>, oracle: Oracle, eps: real, low: real, w0: seq<real>,
                         wStart: seq<real>, w: seq<real>, pushed0: seq<real>, pushed: seq<real>, i: nat)
  {
    && PhaseOk(g, cs, oracle, eps, w0, w, pushed) && Grown(wStart, w) && |wStart| == |w0|
    && low > 0.0 && (forall e :: 0 <= e < |wStart| ==> wStart[e] >= low)
    && |pushed0| == |pushed| && i < |pushed| && pushed == pushed0[i := pushed[i]]
    && Dot(w, g.cap) >= Dot(wStart, g.cap) + Mul(Mul(eps, pushed[i]), low)
  }

  lemma RaiseNothing(g: Network, w: seq<real>, p: Path, eps: real, x: real)
    requires g.Valid() && |w| == |g.ends| && g.IsPath(p)
    ensures p != [] && p[|p| - 1..] == [p[|p| - 1]] && g.IsPath([p[|p| - 1]]) && RaiseAlong(g, w, [p[|p| - 1]], eps, x) == w
  {}

  lemma RaiseOne(g: Network, w: seq<real>, p: Path, k: nat, eps: real, x: real)
    requires g.Valid() && |w| == |g.ends| && g.IsPath(p) && 0 < k < |p|
    ensures g.IsPath(p[k..]) && g.IsPath(p[k - 1..]) && g.IsEdge(p[k - 1], p[k])
    ensures var e, w' := g.Edge(p[k - 1], p[k]), RaiseAlong(g, w, p[k..], eps, x);
      |w'| == |w| && RaiseAlong(g, w, p[k - 1..], eps, x) == w'[e := Raise(w'[e], g.cap[e], eps, x)]
  {
    assert p[k - 1..][1..] == p[k..];
    assert p[k - 1..][0] == p[k - 1] && p[k - 1..][1] == p[k];
    assert g.IsEdge(p[k - 1], p[k - 1 + 1]);
  }

  lemma PhaseStart(g: Network, cs: seq<Commodity>, oracle: Oracle, eps: real, w: seq<real>, pushed: seq<real>)
    requires |w| == |g.cap| && |pushed| == |cs| && forall i :: 0 <= i < |cs| ==> pushed[i] == 0.0 && cs[i].demand > 0.0
    ensures PhaseOk(g, cs, oracle, eps, w, w, pushed) && Grown(w, w)
  {
    DotZeros(pushed, Distances(cs, w, oracle));
    MulZero(eps);
  }

  lemma PhaseSizes(g: Network, cs: seq<Commodity>, oracle: Oracle, eps: real, w0: seq<real>, w: seq<real>, pushed: seq<real>)
    requires PhaseOk(g, cs, oracle, eps, w0, w, pushed)
    ensures |w0| == |w| == |g.cap| && |pushed| == |cs|
  {}

  lemma StillAbove(w0: seq<real>, w: seq<real>, low: real)
    requires Grown(w0, w) && forall e :: 0 <= e < |w0| ==> w0[e] >= low
    ensures forall e :: 0 <= e < |w| ==> w[e] >= low
  {
    assert forall e :: 0 <= e < |w| ==> w0[e] <= w[e];
  }

  lemma GrownTransitive(a: seq<real>, b: seq<real>, c: seq<real>)
    requires Grown(a, b) && Grown(b, c)
    ensures Grown(a, c)
  {}

  lemma StepStart(g: Network, cs: seq<Commodity>, oracle: Oracle, eps: real, low: real, w0: seq<real>,
                  w: seq<real>, pushed: seq<real>, i: nat)
    requires PhaseOk(g, cs, oracle, eps, w0, w, pushed) && i < |cs| && pushed[i] == 0.0
    requires low > 0.0 && forall e :: 0 <= e < |w| ==> w[e] >= low
    ensures StepOk(g, cs, oracle, eps, low, w0, w, w, pushed, pushed, i) && |pushed| == |cs|
  {
    hide Mul, Dot, Distances;
    MulZeros(eps, low);
    assert pushed == pushed[i := pushed[i]];
  }

  lemma StepOkMeans(g: Network, cs: seq<Commodity>, oracle: Oracle, eps: real, low: real, w0: seq<real>,
                    wStart: seq<real>, w: seq<real>, pushed0: seq<real>, pushed: seq<real>, i: nat)
    requires eps > 0.0 && StepOk(g, cs, oracle, eps, low, w0, wStart, w, pushed0, pushed, i)
    ensures PhaseOk(g, cs, oracle, eps, w0, w, pushed) && Grown(wStart, w) && |g.cap| == |w|
    ensures |pushed0| == |pushed| && i < |pushed| && pushed == pushed0[i := pushed[i]]
    ensures Dot(w, g.cap) >= Dot(wStart, g.cap) + Mul(Mul(eps, pushed[i]), low)
    ensures Dot(w, g.cap) >= Dot(wStart, g.cap)
  {
    GainNonNegative(eps, pushed[i], low);
  }

  lemma PushKeepsStepOk(g: Network, cs: seq<Commodity>, oracle: Oracle, eps: real, low: real, w0: seq<real>,
                        wStart: seq<real>, w: seq<real>, w': seq<real>, pushed0: seq<real>, pushed: seq<real>, i: nat, x: real)
    requires g.Valid() && g.Lengths(w) && g.Lengths(w') && IsOracle(g, oracle) && Commodities(g, cs) && Grown(w, w')
    requires eps > 0.0 && StepOk(g, cs, oracle, eps, low, w0, wStart, w, pushed0, pushed, i)
    requires i < |cs| == |pushed| && x > 0.0 && pushed[i] + x <= cs[i].demand
    requires Dot(w', g.cap) == Dot(w, g.cap) + Mul(Mul(eps, x), Distances(cs, w, oracle)[i])
    ensures StepOk(g, cs, oracle, eps, low, w0, wStart, w', pushed0, pushed[i := pushed[i] + x], i)
  {
    assert forall e :: 0 <= e < |w| ==> wStart[e] <= w[e];
    assert CommodityOk(g, cs[i]);
    DistanceAtLeast(g, cs[i], w, oracle, low);
    PushKeepsPhaseOk(g, cs, oracle, eps, w0, w, w', pushed, i, x);
    GainAdds(eps, pushed[i], x, Distances(cs, w, oracle)[i], low);
  }

  lemma PushEffect(g: Network, oracle: Oracle, eps: real, delta: real, w: seq<real>, ds: seq<MfDemand>, i: nat, p: Path, x: real)
    requires g.Valid() && IsOracle(g, oracle) && Commodities(g, Cs(ds)) && eps > 0.0 && delta > 0.0
    requires g.Lengths(w) && SolverOk(g, eps, delta, w, ds) && i < |ds|
    requires g.IsPathFromTo(p, ds[i].c.source, ds[i].c.sink) && Simple(p) && x > 0.0 && Fits(g, p, x)
    requires ds[i].c.sink < |oracle(w, ds[i].c.source).dist|
    requires g.Length(w, p) == oracle(w, ds[i].c.source).dist[ds[i].c.sink]
    requires Dot(w, g.cap) < 1.0
    ensures var w', ds' := RaiseAlong(g, w, p, eps, x), ds[i := Credit(ds[i], p, x)];
      && g.Lengths(w') && Grown(w, w') && SolverOk(g, eps, delta, w', ds')
      && Dot(w', g.cap) == Dot(w, g.cap) + Mul(Mul(eps, x), Distances(Cs(ds'), w, oracle)[i])
      && Cs(ds') == Cs(ds) && ds'[i].flow == ds[i].flow + x
  {
    PushKeepsSolverOk(g, eps, delta, w, ds, i, p, x);
    RaiseAlongVolume(g, w, p, eps, x);
    RaiseAlongGrows(g, w, p, eps, x);
    hide SolverOk, EdgeOk, Mul, Raise, RaiseAlong, Fits, Simple;
    assert Cs(ds[i := Credit(ds[i], p, x)]) == Cs(ds);
    assert Distances(Cs(ds), w, oracle)[i] == g.Length(w, p);
  }

  lemma SimplePathFits(g: Network, p: Path, x: real)
    requires g.Valid() && g.IsPath(p) && |p| > 1 && Simple(p)
    requires x <= g.cap[g.Edge(p[0], p[1])]
    requires exists y :: x <= y && Fits(g, p[1..], y)
    ensures Fits(g, p, x)
  {
    forall e | 0 <= e < |g.ends| && g.Crossings(p, e) == 1
      ensures x <= g.cap[e]
    {
      SimpleCrossesOnce(g, p[1..], e);
    }
  }

  // The capacity of the k-th link of a path.
  ghost function HopCap(g: Network, p: Path, k: nat): real
    requires g.Valid() && g.IsPath(p) && k < |p| - 1
  {
    g.cap[g.Edge(p[k], p[k + 1])]
  }

  lemma HopCapIs(g: Network, p: Path, k: nat)
    requires g.Valid() && g.IsPath(p) && k < |p| - 1
    ensures exists e :: 0 <= e < |g.cap| && HopCap(g, p, k) == g.cap[e]
  {
    assert g.IsEdge(p[k], p[k + 1]);
    var e := g.Edge(p[k], p[k + 1]);
    assert 0 <= e < |g.cap| && HopCap(g, p, k) == g.cap[e];
  }

  /** One iteration as a whole: x goes along a shortest path p, which it fits and which it fills at its
      narrowest link unless the demand is used up; the lengths and the record of the demand follow. */
  ghost predicate Pushed(g: Network, oracle: Oracle, w: seq<real>, w': seq<real>, d: MfDemand, d': MfDemand,
                         remaining: real, eps: real, x: real, p: Path)
    requires g.Valid() && |w| == |g.ends|
  {
    && g.IsPathFromTo(p, d.c.source, d.c.sink) && Simple(p)
    && d.c.sink < |oracle(w, d.c.source).dist| && g.Length(w, p) == oracle(w, d.c.source).dist[d.c.sink]
    && Fits(g, p, x) && (x == remaining || exists k :: 0 <= k < |p| - 1 && x == HopCap(g, p, k))
    && w' == RaiseAlong(g, w, p, eps, x) && d' == Credit(d, p, x)
  }

  // The parts of a simple path that a backward walk has seen.
  lemma LastFits(g: Network, p: Path)
    requires g.Valid() && g.IsPath(p) && |p| > 1 && Simple(p)
    ensures var k := |p| - 2; g.IsPath(p[k..]) && 0 <= g.Edge(p[k], p[k + 1]) < |g.cap| && Fits(g, p[k..], g.cap[g.Edge(p[k], p[k + 1])])
  {
    var k := |p| - 2;
    assert p[k..][1..] == [p[k + 1]] && Simple(p[k..]);
    assert Fits(g, p[k..][1..], g.cap[g.Edge(p[k], p[k + 1])]);
    SimplePathFits(g, p[k..], g.cap[g.Edge(p[k], p[k + 1])]);
  }

  lemma EarlierFits(g: Network, p: Path, k: nat, x: real)
    requires g.Valid() && g.IsPath(p) && 0 < k < |p| - 1 && Simple(p) && Fits(g, p[k..], x)
    ensures g.IsPath(p[k - 1..]) && 0 <= g.Edge(p[k - 1], p[k]) < |g.cap|
    ensures var cap := g.cap[g.Edge(p[k - 1], p[k])]; Fits(g, p[k - 1..], if cap < x then cap else x)
  {
    var cap := g.cap[g.Edge(p[k - 1], p[k])];
    assert p[k - 1..][1..] == p[k..] && Simple(p[k - 1..]);
    SimplePathFits(g, p[k - 1..], if cap < x then cap else x);
  }

  lemma SmallerFits(g: Network, p: Path, y: real, x: real)
    requires g.Valid() && g.IsPath(p) && Fits(g, p, y) && x <= y
    ensures Fits(g, p, x)
  {}

  lemma RaiseAlongGrows(g: Network, w: seq<real>, p: Path, eps: real, x: real)
    requires g.Valid() && g.Lengths(w) && g.IsPath(p) && Simple(p) && eps > 0.0 && x > 0.0
    ensures g.Lengths(RaiseAlong(g, w, p, eps, x)) && Grown(w, RaiseAlong(g, w, p, eps, x))
  {
    hide Raise;
    forall e | 0 <= e < |w|
      ensures w[e] <= RaiseAlong(g, w, p, eps, x)[e]
    {
      RaiseAlongAt(g, w, p, eps, x, e);
      RaiseGrows(w[e], g.cap[e], eps, x);
    }
  }

  // ------------------------------------------------------------------
  // The guarantee in one statement

  function ScaleDown(d: MfDemand, f: real): MfDemand {
    d.(flow := Mul(f, d.flow), pathFlow := map p | p in d.pathFlow :: Mul(f, d.pathFlow[p]))
  }

  function ScaleAllDown(ds: seq<MfDemand>, f: real): (r: seq<MfDemand>)
    ensures |r| == |ds|
  {
    seq(|ds|, i requires 0 <= i < |ds| => ScaleDown(ds[i], f))
  }

  /** Dividing the solution by scale*(p/q + 1) respects every capacity and serves every demand at
      ratio (phases-1)/(p/q + 1). How this compares with the best flow is Approximation.Guarantee. */
  lemma AchievedRatio(g: Network, eps: real, delta: real, s: real, w: seq<real>, ds: seq<MfDemand>, phases: nat,
                      p: nat, q: nat, f: real, r: real)
    requires g.Valid() && eps > 0.0 && s > 0.0 && Solution(g, eps, delta, s, w, ds, phases) && Covers(eps, delta, p, q)
    requires f > 0.0 && Mul(f, Mul(s, Level(p, q) + 1.0)) == 1.0 && Mul(r, Level(p, q) + 1.0) == phases as real - 1.0
    ensures Concurrent(g, Cs(ds), Flows(ScaleAllDown(ds, f)), r)
  {
    var n, ds' := Level(p, q) + 1.0, ScaleAllDown(ds, f);
    hide Mul, Covers, Total;
    assert forall i :: 0 <= i < |ds| ==> Scaled(ds[i], ds'[i], f);
    forall i | 0 <= i < |ds|
      ensures Routes(g, Cs(ds)[i], Flows(ds')[i]) && Amount(Flows(ds')[i]) >= Mul(r, Cs(ds)[i].demand)
    {
      assert DemandOk(g, ds[i]);
      ScaledDemandOk(g, ds[i], ds'[i], f);
      assert DemandOk(g, ds'[i]);
      RatioTerm(s, n, phases as real - 1.0, f, r, ds[i].c.demand, ds[i].flow);
    }
    forall e | 0 <= e < |g.ends|
      ensures Load(g, Flows(ds'), e) <= g.cap[e]
    {
      ScaledLoad(g, ds, ds', f, e);
      LoadTerm(s, n, f, g.cap[e], Load(g, Flows(ds), e));
    }
  }

  lemma RatioTerm(s: real, n: real, t: real, f: real, r: real, demand: real, flow: real)
    requires f > 0.0 && Mul(f, Mul(s, n)) == 1.0 && Mul(r, n) == t && flow >= Mul(Mul(s, t), demand)
    ensures Mul(f, flow) >= Mul(r, demand)
  {
    assert s * t == (s * n) * r;
    Associate(s * n, r, demand);
    assert f * flow >= f * ((s * n) * (r * demand));
    Associate(f, s * n, r * demand);
  }

  lemma LoadTerm(s: real, n: real, f: real, c: real, load: real)
    requires f > 0.0 && Mul(f, Mul(s, n)) == 1.0 && load < Mul(s, Mul(c, n))
    ensures Mul(f, load) <= c
  {
    assert s * (c * n) == (s * n) * c;
    assert f * load <= f * ((s * n) * c);
    Associate(f, s * n, c);
  }

  // ------------------------------------------------------------------
  // The source's scale

  lemma PushOnLink(g: Network, oracle: Oracle, eps: real, delta: real, w: seq<real>, w': seq<real>,
                   ds: seq<MfDemand>, ds': seq<MfDemand>, i: nat, remaining: real, x: real)
    requires g.Valid() && g.Lengths(w) && |w'| == |w| && IsOracle(g, oracle) && Commodities(g, Cs(ds)) && i < |ds| == |ds'|
    requires LinkState(g, eps, delta, w, ds) && WholeLeft(g, ds, remaining) && Dot(w, g.cap) < 1.0
    requires 0.0 < x <= remaining && exists e :: 0 <= e < |g.cap| && x <= g.cap[e] && (x == remaining || x == g.cap[e])
    requires Cs(ds') == Cs(ds) && ds'[i].flow == ds[i].flow + x
    requires Dot(w', g.cap) == Dot(w, g.cap) + Mul(Mul(eps, x), Distances(Cs(ds'), w, oracle)[i])
    ensures LinkState(g, eps, delta, w', ds') && WholeLeft(g, ds', remaining - x)
  {
    hide IsOracle, Mul, Dot, LinkState, WholeLeft;
    var dist := Distances(Cs(ds'), w, oracle)[i];
    assert Cs(ds')[0] == ds'[0].c && Cs(ds)[0] == ds[0].c;
    if IsLink(g) && |ds| == 1 {
      assert CommodityOk(g, Cs(ds)[0]);
      LinkDistance(g, Cs(ds)[0], w, oracle);
    }
    PushKeepsLink(g, eps, delta, w, w', ds, ds', remaining, x, dist);
  }

  lemma WholeStart(g: Network, ds: seq<MfDemand>)
    ensures forall i :: 0 <= i < |ds| ==> WholeLeft(g, ds, ds[i].c.demand)
  {}

  /** What the solver leaves on a single link with one demand of whole capacities: the fewest whole
      pushes that bring the dual value to one, times the scale. */
  ghost predicate LinkResult(g: Network, eps: real, delta: real, s: real, ds: seq<MfDemand>) {
    IsLink(g) && |ds| == 1 && Whole(ds[0].c.demand, g.cap[0]) ==>
      exists n: nat :: FewestPushes(eps, delta, n) && Load(g, Flows(ds), 0) == Mul(s, Times(n, g.cap[0]))
  }

  lemma FinishedLink(g: Network, eps: real, delta: real, s: real, w: seq<real>, ds: seq<MfDemand>, ds': seq<MfDemand>)
    requires SolverOk(g, eps, delta, w, ds) && Commodities(g, Cs(ds)) && LinkState(g, eps, delta, w, ds) && Dot(w, g.cap) >= 1.0
    requires |ds| == |ds'| && forall i :: 0 <= i < |ds| ==> Scaled(ds[i], ds'[i], s)
    ensures LinkResult(g, eps, delta, s, ds')
  {
    hide Mul, Pow, EdgeOk, Load, Whole, Scaled, DemandOk;
    if IsLink(g) && |ds'| == 1 && Whole(ds'[0].c.demand, g.cap[0]) {
      assert ds'[0].c == ds[0].c by { ScaledKeeps(ds[0], ds'[0], s); }
      var n: nat :| LinkAt(g.cap[0], eps, delta, Dot(w, g.cap), ds[0].flow, n);
      assert CommodityOk(g, Cs(ds)[0]);
      LinkLoad(g, ds);
      ScaledLoad(g, ds, ds', s, 0);
      assert FewestPushes(eps, delta, n);
    }
  }

  lemma ScaledKeeps(d: MfDemand, d': MfDemand, s: real)
    requires Scaled(d, d', s)
    ensures d'.c == d.c
  {}

  /** The source divides by the logarithm. Then no load exceeds (1 + scale) capacities, and an edge
      whose own length times capacity ended below one keeps within its capacity. */
  lemma LogScaleOvershoot(g: Network, eps: real, delta: real, s: real, w: seq<real>, ds: seq<MfDemand>, phases: nat, e: nat)
    requires g.Valid() && eps > 0.0 && Solution(g, eps, delta, s, w, ds, phases) && IsLogScale(eps, delta, s) && e < |g.cap|
    ensures Load(g, Flows(ds), e) <= Mul(g.cap[e], 1.0 + s)
    ensures Mul(g.cap[e], w[e]) < 1.0 ==> Load(g, Flows(ds), e) <= g.cap[e]
  {
    hide Mul, Covers, Level, IsLogScale, Load, Served, Concurrent;
    SolutionBounds(g, eps, delta, s, w, ds, phases, e);
    BoundAtLog(eps, delta, s, g.cap[e], Load(g, Flows(ds), e), 1.0);
    OneTimes(s);
    if Mul(g.cap[e], w[e]) < 1.0 {
      BoundAtLog(eps, delta, s, g.cap[e], Load(g, Flows(ds), e), 0.0);
      MulZero(s);
      OneTimes(g.cap[e]);
    }
  }

  lemma SolutionBounds(g: Network, eps: real, delta: real, s: real, w: seq<real>, ds: seq<MfDemand>, phases: nat, e: nat)
    requires g.Valid() && eps > 0.0 && Solution(g, eps, delta, s, w, ds, phases) && e < |g.cap|
    ensures |w| == |g.cap|
    ensures forall p: nat, q: nat :: Covers(eps, delta, p, q) ==> Load(g, Flows(ds), e) < Mul(s, Mul(g.cap[e], Level(p, q) + 1.0))
    ensures Mul(g.cap[e], w[e]) < 1.0 ==>
      forall p: nat, q: nat :: Covers(eps, delta, p, q) ==> Load(g, Flows(ds), e) < Mul(s, Mul(g.cap[e], Level(p, q) + 0.0))
  {
    hide Mul, Load, Served, Concurrent;
    assert forall p: nat, q: nat :: q > 0 ==> Level(p, q) + 0.0 == Level(p, q);
  }

  // delta is the n-th power of 1/(1+eps).
  ghost predicate MeetsOne(eps: real, delta: real, n: nat) {
    Mul(delta, Pow(1.0 + eps, n)) == 1.0
  }

  /** On one link the scaled load keeps within the capacity exactly when delta is a power of
      1/(1+eps), so that the last push brings the dual value to one and not beyond. */
  lemma LogScaleOnLinkIff(g: Network, eps: real, delta: real, s: real, ds: seq<MfDemand>)
    requires g.Valid() && eps > 0.0 && 0.0 < delta < 1.0 && IsLogScale(eps, delta, s) && LinkResult(g, eps, delta, s, ds)
    requires IsLink(g) && |ds| == 1 && Whole(ds[0].c.demand, g.cap[0])
    ensures Load(g, Flows(ds), 0) <= g.cap[0] <==> exists n: nat :: MeetsOne(eps, delta, n)
  {
    hide Mul, Pow, Load, IsLogScale, Whole;
    var n: nat :| FewestPushes(eps, delta, n) && Load(g, Flows(ds), 0) == Mul(s, Times(n, g.cap[0]));
    AtLeastOnePush(eps, delta, n);
    LogScaleFitsIff(eps, delta, s, n);
    InCapacities(s, n, g.cap[0]);
    assert MeetsOne(eps, delta, n) <==> Load(g, Flows(ds), 0) <= g.cap[0];
    if m: nat :| MeetsOne(eps, delta, m) {
      OnlyPower(eps, delta, n, m);
    }
  }

  lemma AtLeastOnePush(eps: real, delta: real, n: nat)
    requires delta < 1.0 && FewestPushes(eps, delta, n)
    ensures n > 0
  {
    assert Pow(1.0 + eps, 0) == 1.0;
  }

  lemma InCapacities(s: real, n: nat, c: real)
    requires c > 0.0
    ensures Mul(s, Times(n, c)) <= c <==> Mul(s, n as real) <= 1.0
  {
    var y := s * n as real;
    Associate(s, n as real, c);
    if y <= 1.0 { assert y * c <= 1.0 * c; } else { assert y * c > 1.0 * c; }
  }

  // The fewest pushes are the exponent, if there is one.
  lemma OnlyPower(eps: real, delta: real, n: nat, m: nat)
    requires eps > 0.0 && delta > 0.0 && n > 0 && FewestPushes(eps, delta, n) && Mul(delta, Pow(1.0 + eps, m)) == 1.0
    ensures m == n
  {
    hide Mul, Pow;
    PowStrict(1.0 + eps, n, m);
    PowStrict(1.0 + eps, n - 1, m);
    SmallerPower(delta, Pow(1.0 + eps, n - 1), Pow(1.0 + eps, m));
    LargerFactor(delta, Pow(1.0 + eps, m), Pow(1.0 + eps, n));
  }

  lemma SmallerPower(d: real, x: real, y: real)
    requires d > 0.0 && Mul(d, x) < Mul(d, y)
    ensures x < y
  {}

  ghost function OneEdge(): Network {
    Network(2, [(0, 1)], [1.0])
  }

  /** One edge of capacity 1 with a demand of 4, eps one half and delta one quarter: the solver pushes
      4, and the scaled load exceeds the capacity. */
  method LogScaleOvershoots(g: Network, oracle: Oracle, dblMax: real, s: real, shuffle: nat -> seq<nat>) returns (solver: GraphMf)
    requires g == OneEdge() && IsOracle(g, oracle) && IsLogScale(0.5, 0.25, s) && forall t: nat :: IsOrder(shuffle(t), 1)
    ensures solver.g == g && Load(g, Flows(solver.demands), 0) == Mul(s, 4.0) > g.cap[0]
  {
    hide IsOracle, LinkResult, Solution, IsLogScale, Load, Whole;
    solver := new GraphMf(g, oracle, dblMax, [MfDemand(Commodity(0, 1, 4.0), 0.0, map[])]);
    OneEdgeReady(g);
    assert s > 0.0 by { ScalePositive(0.5, 0.25, s); }
    solver.MaxConcurrentFlow(0.5, 0.25, s, shuffle);
    assert Cs(solver.demands)[0] == Commodity(0, 1, 4.0);
    FourPushes(g, s, solver.demands);
  }

  lemma OneEdgeReady(g: Network)
    requires g == OneEdge()
    ensures g.Valid() && Commodities(g, Cs([MfDemand(Commodity(0, 1, 4.0), 0.0, map[])]))
  {
    assert g.ends[0] == (0, 1);
    assert g.IsPathFromTo([0, 1], 0, 1);
    assert CommodityOk(g, Commodity(0, 1, 4.0));
  }

  lemma FourPushes(g: Network, s: real, ds: seq<MfDemand>)
    requires g == OneEdge() && LinkResult(g, 0.5, 0.25, s, ds) && IsLogScale(0.5, 0.25, s)
    requires |ds| == 1 && ds[0].c == Commodity(0, 1, 4.0)
    ensures Load(g, Flows(ds), 0) == Mul(s, 4.0) > g.cap[0]
  {
    hide IsLogScale, Load;
    assert 4.0 == Times(4, 1.0);
    var n: nat :| FewestPushes(0.5, 0.25, n) && Load(g, Flows(ds), 0) == Mul(s, Times(n, g.cap[0]));
    FewestIsFour(n);
    LogScaleFitsIff(0.5, 0.25, s, 4);
  }

  lemma FewestIsFour(n: nat)
    requires FewestPushes(0.5, 0.25, n)
    ensures n == 4 && FewestPushes(0.5, 0.25, 4) && Mul(0.25, Pow(1.5, 4)) != 1.0
  {
    assert Pow(1.5, 1) == 1.5;
    assert Pow(1.5, 2) == 2.25;
    assert Pow(1.5, 3) == 3.375;
    assert Pow(1.5, 4) == 5.0625;
    if n < 4 {
      PowMonotone(1.5, n, 3);
    } else if n > 4 {
      PowMonotone(1.5, 4, n - 1);
    }
  }
}
