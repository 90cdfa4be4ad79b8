/** The capacitated network of the traffic-engineering solver: paths as the source stores them
    (vertex lists from source to sink), edge lengths, shortest-path certificates, multicommodity
    flows as one path-to-amount map per demand, and weak duality. */
module FlowNetwork {
  import opened RealVectors

  type Path = seq<nat>

  /** A directed graph without parallel edges; `ends[i]` and `cap[i]` describe edge i. */
  datatype Network = Network(n: nat, ends: seq<(nat, nat)>, cap: seq<real>) {
    ghost predicate Valid() {
      && |ends| == |cap|
      && (forall i :: 0 <= i < |ends| ==> ends[i].0 < n && ends[i].1 < n)
      && (forall i :: 0 <= i < |cap| ==> cap[i] > 0.0)
      && (forall i, j :: 0 <= i < j < |ends| ==> ends[i] != ends[j])
    }

    ghost predicate IsEdge(u: nat, v: nat) {
      (u, v) in ends
    }

    // The edge lookup of the source: edge(u, v, graph).
    function EdgeFrom(u: nat, v: nat, i: nat): (r: nat)
      requires i <= |ends| && (u, v) in ends[i..]
      ensures r < |ends| && ends[r] == (u, v)
      decreases |ends| - i
    {
      if ends[i] == (u, v) then i else EdgeFrom(u, v, i + 1)
    }

    function Edge(u: nat, v: nat): (r: nat)
      requires IsEdge(u, v)
      ensures r < |ends| && ends[r] == (u, v)
    {
      EdgeFrom(u, v, 0)
    }

    ghost predicate IsPath(p: Path) {
      && p != []
      && (forall i :: 0 <= i < |p| ==> p[i] < n)
      && (forall i :: 0 <= i < |p| - 1 ==> IsEdge(p[i], p[i + 1]))
    }

    ghost predicate IsPathFromTo(p: Path, s: nat, t: nat) {
      IsPath(p) && p[0] == s && p[|p| - 1] == t
    }

    ghost predicate Lengths(w: seq<real>) {
      |w| == |ends| && forall i :: 0 <= i < |w| ==> w[i] > 0.0
    }

    ghost function Length(w: seq<real>, p: Path): real
      requires IsPath(p) && |w| == |ends|
    {
      if |p| == 1 then 0.0 else w[Edge(p[0], p[1])] + Length(w, p[1..])
    }

    // How often a path uses edge e.
    ghost function Crossings(p: Path, e: nat): nat
      requires IsPath(p)
    {
      if |p| == 1 then 0 else (if Edge(p[0], p[1]) == e then 1 else 0) + Crossings(p[1..], e)
    }
  }

  ghost predicate Simple(p: Path) {
    forall i, j :: 0 <= i < j < |p| ==> p[i] != p[j]
  }

  lemma {:induction false} SimpleCrossesOnce(g: Network, p: Path, e: nat)
    requires g.Valid() && g.IsPath(p) && Simple(p)
    ensures g.Crossings(p, e) <= 1
    ensures g.Crossings(p, e) == 1 ==> e < |g.ends| && g.ends[e].0 in p
  {
    if |p| > 1 {
      SimpleCrossesOnce(g, p[1..], e);
      if g.Edge(p[0], p[1]) == e && g.Crossings(p[1..], e) == 1 {
        assert false;
      }
    }
  }

  lemma {:induction false} LengthMonotone(g: Network, w: seq<real>, w': seq<real>, p: Path)
    requires g.IsPath(p) && |w| == |w'| == |g.ends|
    requires forall i :: 0 <= i < |w| ==> w[i] <= w'[i]
    ensures g.Length(w, p) <= g.Length(w', p)
  {
    if |p| > 1 { LengthMonotone(g, w, w', p[1..]); }
  }

  // ------------------------------------------------------------------
  // Shortest-path trees

  /** What Dijkstra's algorithm returns: a predecessor and a distance for every vertex. */
  datatype Tree = Tree(penult: seq<nat>, dist: seq<real>)

  /** The local certificate of a shortest-path tree from s over the vertex set `reached`:
      tree edges are tight, no edge can be relaxed, and `reached` is closed under edges. */
  ghost predicate IsTree(g: Network, w: seq<real>, s: nat, reached: set<nat>, t: Tree)
    requires |w| == |g.ends|
  {
    && |t.penult| == |t.dist| == g.n
    && s in reached && (forall v :: v in reached ==> v < g.n)
    && t.dist[s] == 0.0
    && (forall v :: v in reached && v != s ==>
          && t.penult[v] in reached && g.IsEdge(t.penult[v], v)
          && t.dist[v] == t.dist[t.penult[v]] + w[g.Edge(t.penult[v], v)])
    && (forall u: nat, v: nat :: u in reached && g.IsEdge(u, v) ==>
          v in reached && t.dist[v] <= t.dist[u] + w[g.Edge(u, v)])
  }

  // The vertices some path from s reaches.
  ghost predicate Reaches(g: Network, s: nat, v: nat) {
    exists p :: g.IsPathFromTo(p, s, v)
  }

  // The certificate bounds every path, not only tree paths.
  lemma {:induction false} TreeIsShortest(g: Network, w: seq<real>, s: nat, reached: set<nat>, t: Tree, p: Path)
    requires g.Valid() && |w| == |g.ends| && IsTree(g, w, s, reached, t)
    requires g.IsPath(p) && p[0] in reached
    ensures p[|p| - 1] in reached
    ensures t.dist[p[|p| - 1]] <= t.dist[p[0]] + g.Length(w, p)
  {
    if |p| > 1 {
      assert g.IsEdge(p[0], p[1]);
      TreeIsShortest(g, w, s, reached, t, p[1..]);
    }
  }

  /** The shortest-path routine as a function of the current lengths and the source vertex. */
  type Oracle = (seq<real>, nat) -> Tree

  ghost predicate ReachedBy(g: Network, s: nat, reached: set<nat>) {
    forall v: nat :: v in reached <==> v < g.n && Reaches(g, s, v)
  }

  ghost predicate IsOracle(g: Network, oracle: Oracle) {
    forall w, s: nat, reached :: g.Lengths(w) && s < g.n && ReachedBy(g, s, reached) ==>
      IsTree(g, w, s, reached, oracle(w, s))
  }

  ghost function ReachedSet(g: Network, s: nat): (r: set<nat>)
    ensures ReachedBy(g, s, r)
  {
    set v: nat | v < g.n && Reaches(g, s, v)
  }

  // ------------------------------------------------------------------
  // Path flows

  type PathFlow = map<Path, real>

  /** What a path contributes per unit of flow: one unit sent, its crossings of an edge, or its length. */
  datatype Measure = Unit | Uses(g: Network, e: nat) | Cost(g: Network, w: seq<real>) {
    ghost function Of(p: Path): real {
      match this
      case Unit => 1.0
      case Uses(g, e) => if g.IsPath(p) then g.Crossings(p, e) as real else 0.0
      case Cost(g, w) => if g.IsPath(p) && |w| == |g.ends| then g.Length(w, p) else 0.0
    }
  }

  // The sum over a path flow of amount times measure.
  ghost function Total(m: PathFlow, weight: Measure): real
    decreases |m|
  {
    if m == map[] then 0.0 else
      var p := Pick(m);
      Mul(m[p], weight.Of(p)) + Total(m - {p}, weight)
  }

  ghost function Pick(m: PathFlow): (p: Path)
    requires m != map[]
    ensures p in m
  {
    assert m.Keys != {};
    var p :| p in m;
    p
  }

  // The chosen order does not matter: any key can be split off.
  lemma {:induction false} TotalSplit(m: PathFlow, q: Path, weight: Measure)
    requires q in m
    ensures Total(m, weight) == Mul(m[q], weight.Of(q)) + Total(m - {q}, weight)
    decreases |m|
  {
    hide Mul, Measure.Of;
    var p := Pick(m);
    if p != q {
      TotalSplit(m - {p}, q, weight);
      assert p in m - {q};
      TotalSplit(m - {q}, p, weight);
      assert m - {p} - {q} == m - {q} - {p};
    }
  }

  lemma TotalUpdate(m: PathFlow, q: Path, x: real, weight: Measure)
    ensures Total(m[q := (if q in m then m[q] else 0.0) + x], weight) == Total(m, weight) + Mul(x, weight.Of(q))
  {
    hide Mul, Measure.Of;
    var old_ := if q in m then m[q] else 0.0;
    var m' := m[q := old_ + x];
    TotalSplit(m', q, weight);
    assert m' - {q} == m - {q};
    if q in m {
      TotalSplit(m, q, weight);
    } else {
      assert m - {q} == m;
    }
    MulAdd(old_, x, weight.Of(q));
  }

  lemma {:induction false} TotalScale(m: PathFlow, m': PathFlow, s: real, weight: Measure)
    requires m.Keys == m'.Keys
    requires forall p :: p in m ==> m'[p] == Mul(s, m[p])
    ensures Total(m', weight) == Mul(s, Total(m, weight))
    decreases |m|
  {
    MulZero(s);
    hide Mul, Measure.Of;
    if m != map[] {
      var p := Pick(m);
      TotalSplit(m', p, weight);
      TotalScale(m - {p}, m' - {p}, s, weight);
      MulScale(s, m[p], weight.Of(p), Total(m - {p}, weight));
    } else {
      assert m' == map[];
    }
  }

  lemma BoundTerm(a: real, b: real, low: real, rest: real)
    requires a >= 0.0 && b >= low
    ensures Mul(a, b) + Mul(low, rest) >= Mul(low, Mul(a, 1.0) + rest)
  {
    assert a * b >= a * low;
    Distribute(low, a, rest);
  }

  lemma {:induction false} TotalBounds(m: PathFlow, low: real, weight: Measure)
    requires forall p :: p in m ==> m[p] >= 0.0 && weight.Of(p) >= low
    ensures Total(m, weight) >= Mul(low, Total(m, Unit))
    decreases |m|
  {
    MulZero(low);
    hide Mul;
    if m != map[] {
      var p := Pick(m);
      TotalBounds(m - {p}, low, weight);
      BoundTerm(m[p], weight.Of(p), low, Total(m - {p}, Unit));
    }
  }

  // The amount a path flow sends.
  ghost function Amount(m: PathFlow): real {
    Total(m, Unit)
  }

  // The load of a list of path flows (one per demand) on edge e.
  ghost function Load(g: Network, flows: seq<PathFlow>, e: nat): real {
    if flows == [] then 0.0 else Total(flows[0], Uses(g, e)) + Load(g, flows[1..], e)
  }

  ghost function Loads(g: Network, flows: seq<PathFlow>): (r: seq<real>)
    ensures |r| == |g.ends|
  {
    seq(|g.ends|, e requires 0 <= e < |g.ends| => Load(g, flows, e))
  }

  ghost function Footprint(g: Network, p: Path): (r: seq<real>)
    ensures |r| == |g.ends|
  {
    seq(|g.ends|, e requires 0 <= e < |g.ends| => Uses(g, e).Of(p))
  }

  // Summing lengths over the edges of a path is the same as over all edges by crossings.
  lemma {:induction false} FootprintLength(g: Network, w: seq<real>, p: Path)
    requires g.Valid() && |w| == |g.ends| && g.IsPath(p)
    ensures Dot(Footprint(g, p), w) == g.Length(w, p)
  {
    if |p| == 1 {
      DotZeros(Footprint(g, p), w);
    } else {
      FootprintLength(g, w, p[1..]);
      var e, rest := g.Edge(p[0], p[1]), Footprint(g, p[1..]);
      assert Footprint(g, p) == rest[e := rest[e] + 1.0];
      DotUpdate(rest, w, e, 1.0);
    }
  }

  // Exchange of summation for one path flow: edge volume equals path cost.
  lemma {:induction false} FlowVolume(g: Network, m: PathFlow, loads: seq<real>, w: seq<real>)
    requires g.Valid() && |w| == |loads| == |g.ends|
    requires forall p :: p in m ==> g.IsPath(p)
    requires forall e :: 0 <= e < |loads| ==> loads[e] == Total(m, Uses(g, e))
    ensures Dot(loads, w) == Total(m, Cost(g, w))
    decreases |m|
  {
    hide Mul;
    if m == map[] {
      DotZeros(loads, w);
    } else {
      var p, foot := Pick(m), Footprint(g, Pick(m));
      var part := seq(|foot|, e requires 0 <= e < |foot| => Mul(m[p], foot[e]));
      var rest := seq(|foot|, e requires 0 <= e < |foot| => Total(m - {p}, Uses(g, e)));
      FlowVolume(g, m - {p}, rest, w);
      FootprintLength(g, w, p);
      DotScale(foot, part, w, m[p]);
      DotAdd(part, rest, loads, w);
    }
  }

  ghost function Costs(g: Network, flows: seq<PathFlow>, w: seq<real>): real
    requires |w| == |g.ends|
  {
    if flows == [] then 0.0 else Total(flows[0], Cost(g, w)) + Costs(g, flows[1..], w)
  }

  lemma {:induction false} FlowsVolume(g: Network, flows: seq<PathFlow>, w: seq<real>)
    requires g.Valid() && |w| == |g.ends|
    requires forall i, p :: 0 <= i < |flows| && p in flows[i] ==> g.IsPath(p)
    ensures Dot(Loads(g, flows), w) == Costs(g, flows, w)
  {
    if flows == [] {
      DotZeros(Loads(g, flows), w);
    } else {
      assert forall p :: p in flows[0] ==> g.IsPath(p);
      var first := seq(|w|, e requires 0 <= e < |w| => Total(flows[0], Uses(g, e)));
      FlowVolume(g, flows[0], first, w);
      FlowsVolume(g, flows[1..], w);
      DotAdd(first, Loads(g, flows[1..]), Loads(g, flows), w);
    }
  }

  // ------------------------------------------------------------------
  // Concurrent flows and weak duality

  datatype Commodity = Commodity(source: nat, sink: nat, demand: real)

  ghost predicate CommodityOk(g: Network, c: Commodity) {
    && c.source < g.n && c.sink < g.n && c.source != c.sink
    && c.demand > 0.0 && Reaches(g, c.source, c.sink)
  }

  ghost predicate Commodities(g: Network, cs: seq<Commodity>) {
    forall i :: 0 <= i < |cs| ==> CommodityOk(g, cs[i])
  }

  ghost predicate Routes(g: Network, c: Commodity, m: PathFlow) {
    forall p :: p in m ==> g.IsPathFromTo(p, c.source, c.sink) && m[p] >= 0.0
  }

  /** A flow that respects the capacities and serves every demand r times over. */
  ghost predicate Concurrent(g: Network, cs: seq<Commodity>, flows: seq<PathFlow>, r: real) {
    && |flows| == |cs| && |g.ends| == |g.cap|
    && (forall i :: 0 <= i < |cs| ==> Routes(g, cs[i], flows[i]) && Amount(flows[i]) >= Mul(r, cs[i].demand))
    && (forall e :: 0 <= e < |g.ends| ==> Load(g, flows, e) <= g.cap[e])
  }

  ghost function Distances(cs: seq<Commodity>, w: seq<real>, oracle: Oracle): (r: seq<real>)
    ensures |r| == |cs|
  {
    seq(|cs|, i requires 0 <= i < |cs| =>
      var t := oracle(w, cs[i].source);
      if cs[i].sink < |t.dist| then t.dist[cs[i].sink] else 0.0)
  }

  ghost function Demands(cs: seq<Commodity>): (r: seq<real>)
    ensures |r| == |cs|
  {
    seq(|cs|, i requires 0 <= i < |cs| => cs[i].demand)
  }

  // The demand-weighted distance: the denominator of the dual ratio.
  ghost function Alpha(cs: seq<Commodity>, w: seq<real>, oracle: Oracle): real {
    Dot(Demands(cs), Distances(cs, w, oracle))
  }

  // The routine is right at these lengths.
  ghost predicate OracleAt(g: Network, oracle: Oracle, w: seq<real>)
    requires |w| == |g.ends|
  {
    forall s: nat, reached :: s < g.n && ReachedBy(g, s, reached) ==> IsTree(g, w, s, reached, oracle(w, s))
  }

  lemma OracleHere(g: Network, oracle: Oracle, w: seq<real>)
    requires g.Lengths(w) && IsOracle(g, oracle)
    ensures OracleAt(g, oracle, w) && NonNegative(w)
  {
    hide IsTree, ReachedBy;
  }

  ghost predicate NonNegative(w: seq<real>) {
    forall i :: 0 <= i < |w| ==> w[i] >= 0.0
  }

  lemma DistanceIsShortest(g: Network, c: Commodity, w: seq<real>, oracle: Oracle, p: Path)
    requires g.Valid() && |w| == |g.ends| && OracleAt(g, oracle, w) && CommodityOk(g, c)
    requires g.IsPathFromTo(p, c.source, c.sink)
    ensures |oracle(w, c.source).dist| == g.n
    ensures oracle(w, c.source).dist[c.sink] <= g.Length(w, p)
  {
    hide IsTree;
    var reached := ReachedSet(g, c.source);
    assert IsTree(g, w, c.source, reached, oracle(w, c.source));
    SourceReached(g, w, c.source, reached, oracle(w, c.source));
    TreeIsShortest(g, w, c.source, reached, oracle(w, c.source), p);
  }

  lemma SourceReached(g: Network, w: seq<real>, s: nat, reached: set<nat>, t: Tree)
    requires |w| == |g.ends| && s < g.n && IsTree(g, w, s, reached, t)
    ensures s in reached && |t.dist| == g.n && t.dist[s] == 0.0
  {}

  lemma ServeTerm(r: real, demand: real, d: real, amount: real)
    requires amount >= Mul(r, demand) && d >= 0.0
    ensures Mul(d, amount) >= Mul(Mul(r, demand), d)
  {
    assert d * amount >= d * (r * demand);
  }

  lemma NoGain(r: real, demand: real, d: real, amount: real)
    requires r >= 0.0 && demand > 0.0 && d < 0.0
    ensures Mul(Mul(r, demand), d) <= 0.0 && Mul(0.0, amount) == 0.0
  {
    assert r * demand >= 0.0;
  }

  // What serving one demand costs.
  lemma CostTerm(g: Network, c: Commodity, m: PathFlow, w: seq<real>, oracle: Oracle, r: real, d: real)
    requires g.Valid() && |w| == |g.ends| && NonNegative(w) && OracleAt(g, oracle, w) && CommodityOk(g, c) && r >= 0.0
    requires Routes(g, c, m) && Amount(m) >= Mul(r, c.demand)
    requires |oracle(w, c.source).dist| == g.n ==> d == oracle(w, c.source).dist[c.sink]
    ensures Total(m, Cost(g, w)) >= Mul(Mul(r, c.demand), d)
  {
    hide Mul, Total, OracleAt;
    forall p | p in m
      ensures Cost(g, w).Of(p) >= d && Cost(g, w).Of(p) >= 0.0
    {
      DistanceIsShortest(g, c, w, oracle, p);
      LengthAtLeast(g, w, p, 0.0);
    }
    if d >= 0.0 {
      TotalBounds(m, d, Cost(g, w));
      ServeTerm(r, c.demand, d, Amount(m));
    } else {
      TotalBounds(m, 0.0, Cost(g, w));
      NoGain(r, c.demand, d, Amount(m));
    }
  }

  lemma {:induction false} CostsAtLeastAlpha(g: Network, cs: seq<Commodity>, flows: seq<PathFlow>, w: seq<real>, oracle: Oracle, r: real)
    requires g.Valid() && |w| == |g.ends| && NonNegative(w) && OracleAt(g, oracle, w) && Commodities(g, cs) && |flows| == |cs| && r >= 0.0
    requires forall i :: 0 <= i < |cs| ==> Routes(g, cs[i], flows[i]) && Amount(flows[i]) >= Mul(r, cs[i].demand)
    ensures Costs(g, flows, w) >= Mul(r, Alpha(cs, w, oracle))
  {
    hide Mul, OracleAt, Total, CommodityOk, Routes, Amount;
    if cs == [] {
      MulZero(r);
    } else {
      var d := Distances(cs, w, oracle)[0];
      assert CommodityOk(g, cs[0]);
      SinkInRange(g, cs[0]);
      CostTerm(g, cs[0], flows[0], w, oracle, r, d);
      CostsAtLeastAlpha(g, cs[1..], flows[1..], w, oracle, r);
      AlphaSplit(cs, w, oracle);
      MulScale(r, cs[0].demand, d, Alpha(cs[1..], w, oracle));
    }
  }

  lemma SinkInRange(g: Network, c: Commodity)
    requires CommodityOk(g, c)
    ensures c.sink < g.n
  {}

  lemma AlphaSplit(cs: seq<Commodity>, w: seq<real>, oracle: Oracle)
    requires cs != []
    ensures Alpha(cs, w, oracle) == Mul(cs[0].demand, Distances(cs, w, oracle)[0]) + Alpha(cs[1..], w, oracle)
  {
    assert Distances(cs, w, oracle)[1..] == Distances(cs[1..], w, oracle);
    assert Demands(cs)[1..] == Demands(cs[1..]);
  }

  /** Weak duality: for any non-negative lengths, the volume of the capacities is at least the
      concurrent ratio of any capacity-respecting flow times the demand-weighted distance. */
  lemma WeakDuality(g: Network, cs: seq<Commodity>, flows: seq<PathFlow>, w: seq<real>, oracle: Oracle, r: real)
    requires g.Valid() && |w| == |g.ends| && NonNegative(w) && OracleAt(g, oracle, w) && Commodities(g, cs) && r >= 0.0
    requires Concurrent(g, cs, flows, r)
    ensures Dot(w, g.cap) >= Mul(r, Alpha(cs, w, oracle))
  {
    hide Mul, OracleAt;
    CostsAtLeastAlpha(g, cs, flows, w, oracle, r);
    FlowsVolume(g, flows, w);
    LoadsNonNegative(g, cs, flows);
    DotMonotone(Loads(g, flows), g.cap, w, w);
    DotCommutes(g.cap, w);
  }

  lemma {:induction false} LoadsNonNegative(g: Network, cs: seq<Commodity>, flows: seq<PathFlow>)
    requires |cs| == |flows|
    requires forall i :: 0 <= i < |cs| ==> Routes(g, cs[i], flows[i])
    ensures forall e :: 0 <= e < |g.ends| ==> Load(g, flows, e) >= 0.0
  {
    if flows != [] {
      LoadsNonNegative(g, cs[1..], flows[1..]);
      assert Routes(g, cs[0], flows[0]);
      forall e | 0 <= e < |g.ends|
        ensures Load(g, flows, e) >= 0.0
      {
        TotalBounds(flows[0], 0.0, Uses(g, e));
      }
    }
  }

  lemma {:induction false} LengthAppend(g: Network, w: seq<real>, p: Path, v: nat)
    requires g.IsPath(p) && |w| == |g.ends| && v < g.n && g.IsEdge(p[|p| - 1], v)
    ensures g.IsPath(p + [v])
    ensures g.Length(w, p + [v]) == g.Length(w, p) + w[g.Edge(p[|p| - 1], v)]
  {
    assert (p + [v])[1..] == p[1..] + [v];
    if |p| == 1 {
      assert (p + [v])[1..] == [v];
    } else {
      LengthAppend(g, w, p[1..], v);
    }
  }

  // A path follows the predecessor map back to s without meeting s again.
  ghost predicate Follows(t: Tree, p: Path, s: nat) {
    && (forall k :: 1 <= k < |p| ==> p[k] != s)
    && (forall k :: 0 <= k < |p| - 1 ==> StepsBack(t, p[k], p[k + 1]))
  }

  ghost predicate StepsBack(t: Tree, u: nat, v: nat) {
    v < |t.penult| && u == t.penult[v]
  }

  // A walk that ends at v: simple, along predecessors, no farther out than v, as long as v is far.
  ghost predicate Walk(g: Network, w: seq<real>, t: Tree, s: nat, p: Path, v: nat)
    requires |w| == |g.ends| && |t.dist| == g.n
  {
    && v < g.n && g.IsPathFromTo(p, s, v) && Simple(p) && Follows(t, p, s)
    && (forall k :: 0 <= k < |p| ==> t.dist[p[k]] <= t.dist[v])
    && g.Length(w, p) == t.dist[v]
  }

  lemma ExtendWalk(g: Network, w: seq<real>, t: Tree, s: nat, q: Path, u: nat, v: nat)
    requires |w| == |g.ends| && |t.dist| == |t.penult| == g.n
    requires Walk(g, w, t, s, q, u)
    requires v < g.n && v != s && t.penult[v] == u && g.IsEdge(u, v) && t.dist[u] < t.dist[v]
    requires t.dist[v] == t.dist[u] + w[g.Edge(u, v)]
    ensures Walk(g, w, t, s, q + [v], v)
  {
    LengthAppend(g, w, q, v);
    var p := q + [v];
    assert forall k :: 0 <= k < |q| ==> p[k] == q[k] && q[k] != v;
    assert StepsBack(t, u, v);
    assert forall k :: 0 <= k < |q| - 1 ==> StepsBack(t, q[k], q[k + 1]);
    assert Follows(t, p, s);
  }

  lemma TreeStep(g: Network, w: seq<real>, s: nat, reached: set<nat>, t: Tree, v: nat)
    requires g.Lengths(w) && IsTree(g, w, s, reached, t) && v in reached && v != s
    ensures var u := t.penult[v];
      u in reached && u < g.n && v < g.n && g.IsEdge(u, v) && t.dist[u] < t.dist[v] && t.dist[v] == t.dist[u] + w[g.Edge(u, v)]
  {}

  lemma TreeRoot(g: Network, w: seq<real>, s: nat, reached: set<nat>, t: Tree)
    requires |w| == |g.ends| && IsTree(g, w, s, reached, t)
    ensures |t.penult| == |t.dist| == g.n && Walk(g, w, t, s, [s], s)
  {}

  /** Following predecessors strictly lowers the distance, so the walk never repeats a vertex,
      ends at the source, and spells a simple path whose length is the recorded distance.
      `left` holds the vertices the walk may still visit. */
  lemma {:induction false} TreePath(g: Network, w: seq<real>, s: nat, reached: set<nat>, t: Tree, left: set<nat>, v: nat)
    returns (p: Path)
    requires g.Valid() && g.Lengths(w) && IsTree(g, w, s, reached, t)
    requires v in left && left <= reached
    requires forall u :: u in reached && u !in left ==> t.dist[u] > t.dist[v]
    ensures Walk(g, w, t, s, p, v)
    decreases left
  {
    hide IsTree, Walk, Network.Valid;
    TreeRoot(g, w, s, reached, t);
    if v == s {
      p := [s];
    } else {
      TreeStep(g, w, s, reached, t, v);
      var u := t.penult[v];
      var q := TreePath(g, w, s, reached, t, left - {v}, u);
      ExtendWalk(g, w, t, s, q, u, v);
      p := q + [v];
    }
  }

  lemma OraclePath(g: Network, c: Commodity, w: seq<real>, oracle: Oracle) returns (p: Path)
    requires g.Valid() && g.Lengths(w) && IsOracle(g, oracle) && CommodityOk(g, c)
    ensures var t := oracle(w, c.source);
      && |t.penult| == |t.dist| == g.n
      && g.IsPathFromTo(p, c.source, c.sink) && Simple(p) && Follows(t, p, c.source)
      && g.Length(w, p) == t.dist[c.sink]
  {
    var reached := ReachedSet(g, c.source);
    assert IsTree(g, w, c.source, reached, oracle(w, c.source));
    p := TreePath(g, w, c.source, reached, oracle(w, c.source), reached, c.sink);
  }

  lemma {:induction false} LengthAtLeast(g: Network, w: seq<real>, p: Path, low: real)
    requires g.IsPath(p) && |w| == |g.ends| && low >= 0.0
    requires forall i :: 0 <= i < |w| ==> w[i] >= low
    ensures g.Length(w, p) >= 0.0
    ensures |p| > 1 ==> g.Length(w, p) >= low
  {
    if |p| > 1 { LengthAtLeast(g, w, p[1..], low); }
  }

  // Distinct endpoints are at least one edge apart.
  lemma DistanceAtLeast(g: Network, c: Commodity, w: seq<real>, oracle: Oracle, low: real)
    requires g.Valid() && g.Lengths(w) && IsOracle(g, oracle) && CommodityOk(g, c) && low >= 0.0
    requires forall i :: 0 <= i < |w| ==> w[i] >= low
    ensures |oracle(w, c.source).dist| == g.n
    ensures oracle(w, c.source).dist[c.sink] >= low
  {
    var p := OraclePath(g, c, w, oracle);
    LengthAtLeast(g, w, p, low);
  }

  // Longer edges never shorten a distance.
  lemma DistanceMonotone(g: Network, c: Commodity, w: seq<real>, w': seq<real>, oracle: Oracle)
    requires g.Valid() && g.Lengths(w) && g.Lengths(w') && IsOracle(g, oracle) && CommodityOk(g, c)
    requires forall i :: 0 <= i < |w| ==> w[i] <= w'[i]
    ensures |oracle(w, c.source).dist| == |oracle(w', c.source).dist| == g.n
    ensures oracle(w, c.source).dist[c.sink] <= oracle(w', c.source).dist[c.sink]
  {
    var p := OraclePath(g, c, w', oracle);
    LengthMonotone(g, w, w', p);
    OracleHere(g, oracle, w);
    DistanceIsShortest(g, c, w, oracle, p);
  }
}
