/** What the traffic-engineering topology manager does with a solved flow: `update_paths` turns each
    demand's path flows into paths, probabilities and FIDs, and `get_fid` samples one of them
    (TopologyManager/te_graph_mf.cpp). */
module PathSampler {
  import opened RealVectors
  import opened FlowNetwork
  import opened FlowAnalysis
  import T = TopologyGraph

  // ------------------------------------------------------------------
  // Sums

  function Sum(s: seq<real>): real {
    if s == [] then 0.0 else Sum(s[..|s| - 1]) + s[|s| - 1]
  }

  lemma SumAppend(s: seq<real>, x: real)
    ensures Sum(s + [x]) == Sum(s) + x
  {
    assert (s + [x])[..|s|] == s;
  }

  // Dividing every part by f divides the sum by f.
  lemma {:induction false} SumShares(parts: seq<real>, probs: seq<real>, f: real)
    requires f > 0.0 && |parts| == |probs| && forall i :: 0 <= i < |parts| ==> probs[i] == parts[i] / f
    ensures Sum(probs) == Sum(parts) / f
  {
    if parts != [] {
      SumShares(parts[..|parts| - 1], probs[..|parts| - 1], f);
      Distributes(Sum(parts[..|parts| - 1]), parts[|parts| - 1], f);
    }
  }

  lemma Distributes(x: real, y: real, f: real)
    requires f > 0.0
    ensures (x + y) / f == x / f + y / f
  {}

  lemma SumPrefix(s: seq<real>, i: nat)
    requires i < |s|
    ensures Sum(s[..i + 1]) == Sum(s[..i]) + s[i]
  {
    assert s[..i + 1] == s[..i] + [s[i]];
    SumAppend(s[..i], s[i]);
  }

  lemma {:induction false} SumMonotone(s: seq<real>, i: nat, j: nat)
    requires i <= j <= |s| && forall k :: 0 <= k < |s| ==> s[k] > 0.0
    ensures Sum(s[..i]) <= Sum(s[..j])
    decreases j
  {
    if i < j {
      SumPrefix(s, j - 1);
      SumMonotone(s, i, j - 1);
    }
  }

  // ------------------------------------------------------------------
  // The applied demands

  datatype TeDemand = TeDemand(paths: seq<Path>, flows: seq<real>, probs: seq<real>, fids: seq<T.Bits>)

  // The solver's network and the manager's graph have the same edges.
  ghost predicate SameEdges(g: Network, graph: seq<T.Link>) {
    forall u, v :: g.IsEdge(u, v) ==> T.Edge(u, v) in T.Live(graph)
  }

  // The paths are the flow's paths, each once, with their amounts, shares and codes.
  ghost predicate Lists(d: MfDemand, live: T.Lids, ilid: T.Bits, te: TeDemand, done: set<Path>) {
    && |te.paths| == |te.flows| == |te.probs| == |te.fids| && done <= d.pathFlow.Keys
    && (forall p :: p in te.paths <==> p in done)
    && (forall i, j :: 0 <= i < j < |te.paths| ==> te.paths[i] != te.paths[j])
    && (forall i :: 0 <= i < |te.paths| ==> te.paths[i] in d.pathFlow && te.flows[i] == d.pathFlow[te.paths[i]])
    && d.flow != 0.0 && (forall i :: 0 <= i < |te.paths| ==> te.probs[i] == te.flows[i] / d.flow)
    && (forall i :: 0 <= i < |te.paths| ==> te.fids[i] == T.PathBits(live, te.paths[i]) + ilid)
  }

  /** A finished entry: shares are positive and sum to one, and every FID encodes a path from
      source to sink. */
  ghost predicate Applied(d: MfDemand, live: T.Lids, ilid: map<T.Vertex, T.Bits>, te: TeDemand) {
    && d.c.sink in ilid && Lists(d, live, ilid[d.c.sink], te, d.pathFlow.Keys)
    && |te.paths| > 0 && Sum(te.probs) == 1.0
    && (forall i :: 0 <= i < |te.probs| ==> te.probs[i] > 0.0)
    && (forall i :: 0 <= i < |te.fids| ==> T.Encodes(live, ilid, d.c.source, d.c.sink, te.fids[i]))
  }

  lemma {:induction false} AmountPositive(m: PathFlow)
    requires m != map[] && forall p :: p in m ==> m[p] > 0.0
    ensures Amount(m) > 0.0
    decreases |m|
  {
    var p := Pick(m);
    TotalSplit(m, p, Unit);
    if m - {p} != map[] { AmountPositive(m - {p}); }
  }

  lemma AmountRest(m: PathFlow, done: set<Path>, p: Path)
    requires p in m && p !in done
    ensures Amount(m - done) == m[p] + Amount(m - (done + {p}))
  {
    TotalSplit(m - done, p, Unit);
    assert m - done - {p} == m - (done + {p});
  }

  lemma AppliedWhenDone(g: Network, d: MfDemand, live: T.Lids, ilid: map<T.Vertex, T.Bits>, te: TeDemand)
    requires DemandOk(g, d) && d.pathFlow != map[] && d.c.sink in ilid
    requires forall u, v :: g.IsEdge(u, v) ==> T.Edge(u, v) in live
    requires Lists(d, live, ilid[d.c.sink], te, d.pathFlow.Keys) && Sum(te.flows) == Amount(d.pathFlow)
    ensures Applied(d, live, ilid, te)
  {
    hide Amount, Sum, T.PathBits, T.Encodes, Network.IsPathFromTo, Simple;
    AmountPositive(d.pathFlow);
    SumShares(te.flows, te.probs, d.flow);
    assert Sum(te.flows) == d.flow && d.flow / d.flow == 1.0;
    assert Sum(te.probs) == 1.0;
    SharesPositive(d.pathFlow, te, d.flow);
    assert d.pathFlow.Keys != {};
    var q :| q in d.pathFlow;
    assert q in te.paths;
    CodesOk(g, d, live, ilid, te);
  }

  lemma CodesOk(g: Network, d: MfDemand, live: T.Lids, ilid: map<T.Vertex, T.Bits>, te: TeDemand)
    requires DemandOk(g, d) && d.c.sink in ilid && forall u, v :: g.IsEdge(u, v) ==> T.Edge(u, v) in live
    requires Lists(d, live, ilid[d.c.sink], te, d.pathFlow.Keys)
    ensures forall i :: 0 <= i < |te.fids| ==> T.Encodes(live, ilid, d.c.source, d.c.sink, te.fids[i])
  {
    hide Amount, Network.IsPathFromTo, Simple, T.IsPath, T.PathBits;
    forall i | 0 <= i < |te.fids|
      ensures T.Encodes(live, ilid, d.c.source, d.c.sink, te.fids[i])
    {
      PathCarriesOver(g, live, te.paths[i], d.c.source, d.c.sink);
    }
  }

  lemma SharesPositive(m: PathFlow, te: TeDemand, f: real)
    requires f > 0.0 && |te.paths| == |te.flows| == |te.probs| && forall p :: p in m ==> m[p] > 0.0
    requires forall i :: 0 <= i < |te.paths| ==> te.paths[i] in m && te.flows[i] == m[te.paths[i]] && te.probs[i] == te.flows[i] / f
    ensures forall i :: 0 <= i < |te.probs| ==> te.probs[i] > 0.0
  {}

  lemma PathCarriesOver(g: Network, live: T.Lids, p: Path, s: nat, t: nat)
    requires g.IsPathFromTo(p, s, t) && forall u, v :: g.IsEdge(u, v) ==> T.Edge(u, v) in live
    ensures T.IsPath(live, p, s, t)
  {
    forall i | 0 <= i < |p| - 1
      ensures T.Edge(p[i], p[i + 1]) in live
    {
      assert g.IsEdge(p[i], p[i + 1]);
    }
  }

  // The internal LID of the sink, then the LID of every edge along the list.
  method PathFid(graph: seq<T.Link>, edgeLid: map<nat, T.Bits>, p: Path, sink: T.Bits) returns (fid: T.Bits)
    requires p != [] && T.NoParallel(graph) && forall i: nat :: i < |graph| ==> i in edgeLid && edgeLid[i] == graph[i].lid
    requires forall i :: 0 <= i < |p| - 1 ==> T.Edge(p[i], p[i + 1]) in T.Live(graph)
    ensures fid == T.PathBits(T.Live(graph), p) + sink
  {
    hide T.Live;
    ghost var live := T.Live(graph);
    fid := sink;
    var head := p[0];
    for i := 1 to |p|
      invariant head == p[i - 1] && fid == T.PathBits(live, p[..i]) + sink
    {
      var tail := p[i];
      assert T.Edge(p[i - 1], p[i - 1 + 1]) in live;
      var eid := T.Eid(graph, T.Edge(head, tail));
      assert p[..i + 1][..i] == p[..i];
      fid := fid + edgeLid[eid];
      head := tail;
    }
    assert p[..|p|] == p;
  }

  // One more path of the flow.
  method AddPath(d: MfDemand, graph: seq<T.Link>, edgeLid: map<nat, T.Bits>, sink: T.Bits, te: TeDemand, p: Path, ghost done: set<Path>)
    returns (te': TeDemand)
    requires p != [] && T.NoParallel(graph) && forall i: nat :: i < |graph| ==> i in edgeLid && edgeLid[i] == graph[i].lid
    requires forall i :: 0 <= i < |p| - 1 ==> T.Edge(p[i], p[i + 1]) in T.Live(graph)
    requires d.flow != 0.0 && p in d.pathFlow && p !in done && Lists(d, T.Live(graph), sink, te, done)
    requires Sum(te.flows) == Amount(d.pathFlow) - Amount(d.pathFlow - done)
    ensures Lists(d, T.Live(graph), sink, te', done + {p})
    ensures Sum(te'.flows) == Amount(d.pathFlow) - Amount(d.pathFlow - (done + {p}))
  {
    hide T.Live, Amount, Sum, T.PathBits;
    var fid := PathFid(graph, edgeLid, p, sink);
    te' := TeDemand(te.paths + [p], te.flows + [d.pathFlow[p]], te.probs + [d.pathFlow[p] / d.flow], te.fids + [fid]);
    AmountRest(d.pathFlow, done, p);
    SumAppend(te.flows, d.pathFlow[p]);
  }

  lemma PathsUsable(g: Network, d: MfDemand, graph: seq<T.Link>, p: Path)
    requires DemandOk(g, d) && SameEdges(g, graph) && p in d.pathFlow
    ensures p != [] && forall i :: 0 <= i < |p| - 1 ==> T.Edge(p[i], p[i + 1]) in T.Live(graph)
  {
    PathCarriesOver(g, T.Live(graph), p, d.c.source, d.c.sink);
  }

  // All paths of one demand, in whatever order the path map is walked.
  method BuildDemand(g: Network, d: MfDemand, graph: seq<T.Link>, edgeLid: map<nat, T.Bits>, ilid: map<T.Vertex, T.Bits>) returns (te: TeDemand)
    requires DemandOk(g, d) && d.pathFlow != map[] && d.c.sink in ilid && SameEdges(g, graph)
    requires T.NoParallel(graph) && forall i: nat :: i < |graph| ==> i in edgeLid && edgeLid[i] == graph[i].lid
    ensures Applied(d, T.Live(graph), ilid, te)
  {
    hide T.Live, Amount, T.PathBits, T.NoParallel, DemandOk, SameEdges, Lists, Sum, Applied;
    FlowPositive(g, d);
    te := TeDemand([], [], [], []);
    var rest := d.pathFlow.Keys;
    ghost var done: set<Path> := {};
    StartLists(d, T.Live(graph), ilid[d.c.sink]);
    while rest != {}
      invariant rest == d.pathFlow.Keys - done && done <= d.pathFlow.Keys
      invariant Lists(d, T.Live(graph), ilid[d.c.sink], te, done)
      invariant Sum(te.flows) == Amount(d.pathFlow) - Amount(d.pathFlow - done)
    {
      var p :| p in rest;
      PathsUsable(g, d, graph, p);
      te := AddPath(d, graph, edgeLid, ilid[d.c.sink], te, p, done);
      done := done + {p};
      rest := rest - {p};
    }
    assert done == d.pathFlow.Keys;
    NothingLeft(d.pathFlow);
    EdgesCarryOver(g, graph);
    AppliedWhenDone(g, d, T.Live(graph), ilid, te);
  }

  lemma EdgesCarryOver(g: Network, graph: seq<T.Link>)
    requires SameEdges(g, graph)
    ensures forall u, v :: g.IsEdge(u, v) ==> T.Edge(u, v) in T.Live(graph)
  {}

  lemma FlowPositive(g: Network, d: MfDemand)
    requires DemandOk(g, d) && d.pathFlow != map[]
    ensures d.flow > 0.0
  {
    hide Amount, Network.IsPathFromTo, Simple;
    AmountPositive(d.pathFlow);
  }

  lemma StartLists(d: MfDemand, live: T.Lids, ilid: T.Bits)
    requires d.flow != 0.0
    ensures Lists(d, live, ilid, TeDemand([], [], [], []), {})
    ensures Sum([]) == Amount(d.pathFlow) - Amount(d.pathFlow - {})
  {
    assert d.pathFlow - {} == d.pathFlow;
  }

  lemma NothingLeft(m: PathFlow)
    ensures Amount(m - m.Keys) == 0.0
  {
    assert m - m.Keys == map[];
  }

  type DemandMap = map<(nat, nat), TeDemand>

  ghost predicate HasDemand(ds: seq<MfDemand>, n: nat, live: T.Lids, ilid: map<T.Vertex, T.Bits>, key: (nat, nat), te: TeDemand)
    requires n <= |ds|
  {
    exists i :: 0 <= i < n && key == (ds[i].c.source, ds[i].c.sink) && Applied(ds[i], live, ilid, te)
  }

  /** All demands. A demand without any path gets no entry. */
  method UpdatePaths(g: Network, ds: seq<MfDemand>, graph: seq<T.Link>, edgeLid: map<nat, T.Bits>, ilid: map<T.Vertex, T.Bits>)
    returns (applied: DemandMap)
    requires SameEdges(g, graph) && T.NoParallel(graph) && forall i: nat :: i < |graph| ==> i in edgeLid && edgeLid[i] == graph[i].lid
    requires forall i :: 0 <= i < |ds| ==> DemandOk(g, ds[i]) && ds[i].c.sink in ilid
    ensures forall i :: 0 <= i < |ds| && ds[i].pathFlow != map[] ==> (ds[i].c.source, ds[i].c.sink) in applied
    ensures forall key :: key in applied ==> HasDemand(ds, |ds|, T.Live(graph), ilid, key, applied[key])
  {
    hide T.Live, DemandOk, SameEdges, Applied, T.NoParallel;
    applied := map[];
    for k := 0 to |ds|
      invariant forall i :: 0 <= i < k && ds[i].pathFlow != map[] ==> (ds[i].c.source, ds[i].c.sink) in applied
      invariant forall key :: key in applied ==> HasDemand(ds, k, T.Live(graph), ilid, key, applied[key])
    {
      if ds[k].pathFlow != map[] {
        var te := BuildDemand(g, ds[k], graph, edgeLid, ilid);
        applied := applied[(ds[k].c.source, ds[k].c.sink) := te];
      }
    }
  }

  // ------------------------------------------------------------------
  // Sampling

  function Cumulative(probs: seq<real>, k: nat): real
    requires k <= |probs|
  {
    Sum(probs[..k])
  }

  // i is where the cumulative shares first cover the draw, the last one if they never do.
  ghost predicate Selects(probs: seq<real>, draw: real, i: nat) {
    && i < |probs| && (forall k :: 0 < k <= i ==> Cumulative(probs, k) < draw)
    && (i < |probs| - 1 ==> draw <= Cumulative(probs, i + 1))
  }

  method GetFid(applied: DemandMap, source: nat, sink: nat, draw: real) returns (fid: T.Bits, i: nat)
    requires (source, sink) in applied ==> var te := applied[(source, sink)]; |te.probs| == |te.flows| == |te.fids| > 0
    ensures (source, sink) !in applied ==> fid == {}
    ensures (source, sink) in applied ==> var te := applied[(source, sink)]; Selects(te.probs, draw, i) && fid == te.fids[i]
  {
    i := 0;
    if (source, sink) !in applied {
      return {}, 0;
    }
    var te := applied[(source, sink)];
    var cumul := 0.0;
    while i < |te.flows| - 1
      invariant i < |te.flows| && cumul == Cumulative(te.probs, i)
      invariant forall k :: 0 < k <= i ==> Cumulative(te.probs, k) < draw
    {
      SumPrefix(te.probs, i);
      cumul := cumul + te.probs[i];
      if draw <= cumul {
        break;
      }
      i := i + 1;
    }
    fid := te.fids[i];
  }

  /** For positive shares that sum to one, index i is selected by exactly the draws in the interval
      between its two cumulative sums, whose length is its share. */
  lemma SelectsInterval(probs: seq<real>, draw: real, i: nat)
    requires i < |probs| && Sum(probs) == 1.0 && 0.0 <= draw <= 1.0 && forall k :: 0 <= k < |probs| ==> probs[k] > 0.0
    ensures Selects(probs, draw, i) <==> (i == 0 || Cumulative(probs, i) < draw) && draw <= Cumulative(probs, i + 1)
    ensures Cumulative(probs, i + 1) - Cumulative(probs, i) == probs[i]
  {
    SumPrefix(probs, i);
    assert i == |probs| - 1 ==> probs[..i + 1] == probs;
    if i == 0 || Cumulative(probs, i) < draw {
      forall k | 0 < k <= i
        ensures Cumulative(probs, k) < draw
      {
        SumMonotone(probs, k, i);
      }
    }
  }
}
