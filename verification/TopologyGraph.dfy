/** The topology manager's view of the network: numbered directed edges carrying link identifiers
    (LIDs), paths over them, and the forwarding identifiers (FIDs) that encode paths. An identifier
    is the set of its one-bits, so the bitwise or is union. */
module TopologyGraph {

  type Vertex = nat
  type Bits = set<nat>
  datatype Edge = Edge(from: Vertex, to: Vertex)
  datatype Link = Link(edge: Edge, lid: Bits)
  type Lids = map<Edge, Bits>

  function Flip(e: Edge): Edge {
    Edge(e.to, e.from)
  }

  // ------------------------------------------------------------------
  // The edge list as a map; edge numbers are positions in the list

  function Live(g: seq<Link>): Lids {
    if g == [] then map[] else Live(g[..|g| - 1])[g[|g| - 1].edge := g[|g| - 1].lid]
  }

  ghost predicate NoParallel(g: seq<Link>) {
    forall i, j :: 0 <= i < j < |g| ==> g[i].edge != g[j].edge
  }

  lemma {:induction false} LiveAt(g: seq<Link>, i: nat)
    requires NoParallel(g) && i < |g|
    ensures g[i].edge in Live(g) && Live(g)[g[i].edge] == g[i].lid
  {
    if i < |g| - 1 { LiveAt(g[..|g| - 1], i); }
  }

  // The number of an edge, or -1.
  function Eid(g: seq<Link>, e: Edge): (i: int)
    ensures -1 <= i < |g| && (i >= 0 <==> e in Live(g))
    ensures i >= 0 ==> g[i].edge == e && g[i].lid == Live(g)[e]
  {
    if g == [] then -1 else if g[|g| - 1].edge == e then |g| - 1 else Eid(g[..|g| - 1], e)
  }

  // The list without some edges; the remaining ones keep their order and are renumbered.
  function Without(g: seq<Link>, es: set<Edge>): seq<Link> {
    if g == [] then []
    else Without(g[..|g| - 1], es) + (if g[|g| - 1].edge in es then [] else [g[|g| - 1]])
  }

  lemma LastIsNew(g: seq<Link>)
    requires NoParallel(g) && g != []
    ensures g[|g| - 1].edge !in Live(g[..|g| - 1])
  {
    var h := g[..|g| - 1];
    var i := Eid(h, g[|g| - 1].edge);
    assert forall k :: 0 <= k < |h| ==> h[k].edge != g[|g| - 1].edge;
  }

  lemma DroppedLive(live: Lids, e: Edge, lid: Bits, es: set<Edge>)
    ensures live[e := lid] - es == if e in es then live - es else (live - es)[e := lid]
  {}

  lemma {:induction false} WithoutLive(g: seq<Link>, es: set<Edge>)
    requires NoParallel(g)
    ensures NoParallel(Without(g, es)) && Live(Without(g, es)) == Live(g) - es
  {
    if g != [] {
      var h, last := g[..|g| - 1], g[|g| - 1];
      WithoutLive(h, es);
      LastIsNew(g);
      DroppedLive(Live(h), last.edge, last.lid, es);
      if last.edge in es {
        assert Without(g, es) == Without(h, es);
      } else {
        AppendLive(Without(h, es), last);
        AppendParallel(Without(h, es), last);
      }
    }
  }

  lemma AppendLive(g: seq<Link>, l: Link)
    ensures Live(g + [l]) == Live(g)[l.edge := l.lid]
  {
    assert (g + [l])[..|g|] == g;
  }

  lemma AppendParallel(g: seq<Link>, l: Link)
    requires NoParallel(g) && l.edge !in Live(g)
    ensures NoParallel(g + [l])
  {
    forall i | 0 <= i < |g|
      ensures g[i].edge != l.edge
    {
      LiveAt(g, i);
    }
  }

  // ------------------------------------------------------------------
  // Paths

  ghost predicate IsPath(live: Lids, p: seq<Vertex>, u: Vertex, v: Vertex) {
    && p != [] && p[0] == u && p[|p| - 1] == v
    && forall i :: 0 <= i < |p| - 1 ==> Edge(p[i], p[i + 1]) in live
  }

  ghost predicate Reachable(live: Lids, u: Vertex, v: Vertex) {
    exists p :: IsPath(live, p, u, v)
  }

  // Every LID along the path, or-ed together.
  function PathBits(live: Lids, p: seq<Vertex>): Bits {
    if |p| <= 1 then {}
    else PathBits(live, p[..|p| - 1]) + BitsOf(live, Edge(p[|p| - 2], p[|p| - 1]))
  }

  function BitsOf(live: Lids, e: Edge): Bits {
    if e in live then live[e] else {}
  }

  // One more link.
  lemma PathGrows(live: Lids, p: seq<Vertex>, j: nat)
    requires j < |p| - 1
    ensures PathBits(live, p[..j + 2]) == PathBits(live, p[..j + 1]) + BitsOf(live, Edge(p[j], p[j + 1]))
  {
    assert p[..j + 2][..j + 1] == p[..j + 1];
  }

  lemma {:induction false} PathHasLid(live: Lids, p: seq<Vertex>, i: nat)
    requires i < |p| - 1
    ensures BitsOf(live, Edge(p[i], p[i + 1])) <= PathBits(live, p)
  {
    if i < |p| - 2 { PathHasLid(live, p[..|p| - 1], i); }
  }

  lemma {:induction false} PathBitsFrom(live: Lids, p: seq<Vertex>, b: nat) returns (i: nat)
    requires b in PathBits(live, p)
    ensures i < |p| - 1 && b in BitsOf(live, Edge(p[i], p[i + 1]))
  {
    if b in BitsOf(live, Edge(p[|p| - 2], p[|p| - 1])) {
      i := |p| - 2;
    } else {
      i := PathBitsFrom(live, p[..|p| - 1], b);
    }
  }

  lemma {:induction false} PathBitsSame(live: Lids, live': Lids, p: seq<Vertex>)
    requires forall i :: 0 <= i < |p| - 1 ==> BitsOf(live, Edge(p[i], p[i + 1])) == BitsOf(live', Edge(p[i], p[i + 1]))
    ensures PathBits(live, p) == PathBits(live', p)
  {
    if |p| > 1 {
      PathBitsSame(live, live', p[..|p| - 1]);
      assert BitsOf(live, Edge(p[|p| - 2], p[|p| - 2 + 1])) == BitsOf(live', Edge(p[|p| - 2], p[|p| - 2 + 1]));
    }
  }

  // Every edge has its reverse.
  ghost predicate Symmetric(live: Lids) {
    forall e :: e in live ==> Flip(e) in live
  }

  lemma ReversedPath(live: Lids, u: Vertex, v: Vertex)
    requires Symmetric(live) && Reachable(live, u, v)
    ensures Reachable(live, v, u)
  {
    var p :| IsPath(live, p, u, v);
    var q := seq(|p|, i requires 0 <= i < |p| => p[|p| - 1 - i]);
    forall i | 0 <= i < |q| - 1
      ensures Edge(q[i], q[i + 1]) in live
    {
      var k := |p| - 2 - i;
      assert Edge(p[k], p[k + 1]) in live;
      assert Flip(Edge(p[k], p[k + 1])) == Edge(q[i], q[i + 1]);
    }
    assert IsPath(live, q, v, u);
  }

  lemma ReachTransitive(live: Lids, u: Vertex, v: Vertex, w: Vertex)
    requires Reachable(live, u, v) && Reachable(live, v, w)
    ensures Reachable(live, u, w)
  {
    var p :| IsPath(live, p, u, v);
    var q :| IsPath(live, q, v, w);
    var r := p + q[1..];
    forall i | 0 <= i < |r| - 1
      ensures Edge(r[i], r[i + 1]) in live
    {
      if i < |p| - 1 {
        assert Edge(p[i], p[i + 1]) in live;
      } else {
        var k := i - (|p| - 1);
        assert Edge(q[k], q[k + 1]) in live;
        assert r[i] == q[k] && r[i + 1] == q[k + 1];
      }
    }
    assert r[|r| - 1] == w;
    assert IsPath(live, r, u, w);
  }

  ghost predicate Sub(live: Lids, live': Lids) {
    forall e :: e in live ==> e in live' && live'[e] == live[e]
  }

  lemma ReachMonotone(live: Lids, live': Lids, u: Vertex, v: Vertex)
    requires Sub(live, live') && Reachable(live, u, v)
    ensures Reachable(live', u, v)
  {
    var p :| IsPath(live, p, u, v);
    assert IsPath(live', p, u, v);
  }

  lemma ReachSelf(live: Lids, u: Vertex)
    ensures Reachable(live, u, u)
  {
    assert IsPath(live, [u], u, u);
  }

  // ------------------------------------------------------------------
  // Shortest-path routing

  type Router = (seq<Link>, Vertex, Vertex) -> seq<Vertex>

  // A path if there is one, and then a shortest one; otherwise nothing.
  ghost predicate Routes(route: Router, g: seq<Link>, u: Vertex, v: Vertex) {
    if Reachable(Live(g), u, v)
    then IsPath(Live(g), route(g, u, v), u, v) && forall p :: IsPath(Live(g), p, u, v) ==> |route(g, u, v)| <= |p|
    else route(g, u, v) == []
  }

  ghost predicate IsRouter(route: Router) {
    forall g, u, v :: NoParallel(g) ==> Routes(route, g, u, v)
  }

  // ------------------------------------------------------------------
  // Forwarding identifiers

  // fid is the or of the LIDs of some live path and the last node's internal LID.
  ghost predicate Encodes(live: Lids, ilid: map<Vertex, Bits>, u: Vertex, v: Vertex, fid: Bits) {
    v in ilid && exists p :: IsPath(live, p, u, v) && fid == PathBits(live, p) + ilid[v]
  }

  // Zero exactly when there is no path, otherwise the code of a live path.
  ghost predicate Honest(live: Lids, ilid: map<Vertex, Bits>, u: Vertex, v: Vertex, fid: Bits) {
    if Reachable(live, u, v) then Encodes(live, ilid, u, v, fid) else fid == {}
  }

  // Zero, or the code of a live path.
  ghost predicate Safe(live: Lids, ilid: map<Vertex, Bits>, u: Vertex, v: Vertex, fid: Bits) {
    fid == {} || Encodes(live, ilid, u, v, fid)
  }

  lemma EncodesReaches(live: Lids, ilid: map<Vertex, Bits>, u: Vertex, v: Vertex, fid: Bits)
    requires Encodes(live, ilid, u, v, fid)
    ensures Reachable(live, u, v) && (ilid[v] != {} ==> fid != {})
  {
    var p :| IsPath(live, p, u, v) && fid == PathBits(live, p) + ilid[v];
    if ilid[v] != {} {
      var b :| b in ilid[v];
      assert b in fid;
    }
  }

  // More links leave a code valid.
  lemma EncodesMonotone(live: Lids, live': Lids, ilid: map<Vertex, Bits>, u: Vertex, v: Vertex, fid: Bits)
    requires Encodes(live, ilid, u, v, fid) && Sub(live, live')
    ensures Encodes(live', ilid, u, v, fid)
  {
    var p :| IsPath(live, p, u, v) && fid == PathBits(live, p) + ilid[v];
    PathBitsSame(live, live', p);
    assert IsPath(live', p, u, v);
  }

  ghost predicate Unmatched(freed: Lids, fid: Bits) {
    forall e :: e in freed ==> !(freed[e] <= fid)
  }

  /** A code that contains no freed LID survives the removal of freed links, whatever overlaps the
      identifiers have. */
  lemma UnmatchedSurvives(before: Lids, live: Lids, freed: Lids, ilid: map<Vertex, Bits>, u: Vertex, v: Vertex, fid: Bits)
    requires Encodes(before, ilid, u, v, fid) && Unmatched(freed, fid) && Sub(live, before)
    requires forall e :: e in before && e !in live ==> e in freed && freed[e] == before[e]
    ensures Encodes(live, ilid, u, v, fid)
  {
    var p :| IsPath(before, p, u, v) && fid == PathBits(before, p) + ilid[v];
    forall i | 0 <= i < |p| - 1
      ensures Edge(p[i], p[i + 1]) in live
    {
      var e := Edge(p[i], p[i + 1]);
      assert e in before;
      PathHasLid(before, p, i);
      assert BitsOf(before, e) <= fid;
    }
    PathBitsSame(before, live, p);
    assert IsPath(live, p, u, v);
  }
}
