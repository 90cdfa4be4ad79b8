/** What the forwarders of src/forwarder.cc do with the identifiers that the topology manager caches:
    a packet that carries one arrives, over the links that are up now. */
module Delivery {
  import opened TopologyGraph
  import opened TopologyManager
  import opened Multicast
  import opened Forwarding

  // A path along links whose LIDs are in the identifier.
  ghost predicate Matched(live: Lids, fid: Bits, p: seq<Vertex>, u: Vertex, v: Vertex) {
    IsPath(live, p, u, v) && forall i :: 0 <= i < |p| - 1 ==> live[Edge(p[i], p[i + 1])] <= fid
  }

  ghost predicate TurnsBack(p: seq<Vertex>, i: int) {
    0 <= i < |p| - 2 && p[i] == p[i + 2]
  }

  /** Leaving out the detours over one link and back leaves a path that never turns back. */
  lemma {:induction false} Straighten(live: Lids, fid: Bits, p: seq<Vertex>, u: Vertex, v: Vertex) returns (q: seq<Vertex>)
    requires Matched(live, fid, p, u, v)
    ensures Matched(live, fid, q, u, v) && forall i :: !TurnsBack(q, i)
    decreases |p|
  {
    if i :| TurnsBack(p, i) {
      var r := p[..i + 1] + p[i + 3..];
      Shortcut(live, fid, p, u, v, i, r);
      q := Straighten(live, fid, r, u, v);
    } else {
      q := p;
    }
  }

  lemma Shortcut(live: Lids, fid: Bits, p: seq<Vertex>, u: Vertex, v: Vertex, i: nat, r: seq<Vertex>)
    requires Matched(live, fid, p, u, v) && TurnsBack(p, i) && r == p[..i + 1] + p[i + 3..]
    ensures Matched(live, fid, r, u, v) && |r| < |p|
  {
    forall k | 0 <= k < |r| - 1
      ensures Edge(r[k], r[k + 1]) in live && live[Edge(r[k], r[k + 1])] <= fid
    {
      var j := if k < i then k else k + 2;
      assert r[k] == p[j] && r[k + 1] == p[j + 1];
      assert Edge(p[j], p[j + 1]) in live;
    }
  }

  lemma EncodedMatches(live: Lids, ilid: map<Vertex, Bits>, u: Vertex, v: Vertex, fid: Bits) returns (p: seq<Vertex>)
    requires Encodes(live, ilid, u, v, fid)
    ensures Matched(live, fid, p, u, v) && v in ilid && ilid[v] <= fid
  {
    p :| IsPath(live, p, u, v) && fid == PathBits(live, p) + ilid[v];
    forall i | 0 <= i < |p| - 1
      ensures live[Edge(p[i], p[i + 1])] <= fid
    {
      PathHasLid(live, p, i);
      assert Edge(p[i], p[i + 1]) in live;
    }
  }

  // No hop of a path that does not turn back is suppressed.
  lemma StraightIsJourney(fab: Fabric, fid: Bits, q: seq<Vertex>, u: Vertex, v: Vertex)
    requires fab.Valid() && Matched(fab.Live(), fid, q, u, v) && (forall i :: !TurnsBack(q, i))
    requires !AllOnes(fid) || |q| <= 2
    ensures fab.Journey(fid, q)
  {
    hide World.Valid, AllOnes, Skips;
    forall i | 0 <= i < |q| - 2
      ensures fab.Sends(fid, Edge(q[i], q[i + 1]), Edge(q[i + 1], q[i + 2]))
    {
      assert !TurnsBack(q, i);
      assert Edge(q[i], q[i + 1]) in fab.Live() && Edge(q[i + 1], q[i + 1 + 1]) in fab.Live();
      OnlyBackIsSkipped(fab, Edge(q[i], q[i + 1]), Edge(q[i + 1], q[i + 2]));
    }
  }

  // The packet needs no forwarding after the first link.
  ghost predicate Direct(fab: Fabric, fid: Bits, u: Vertex, v: Vertex) {
    Edge(u, v) in fab.Live() && fab.Live()[Edge(u, v)] <= fid
  }

  /** An identifier that encodes a live path gets its packet to the end of it, whatever overlaps the
      LIDs have, unless all bits are set and the end is no neighbour. Where nothing overlaps it gets it
      nowhere else. */
  lemma EncodedIsDelivered(fab: Fabric, fid: Bits, u: Vertex, v: Vertex)
    requires fab.Valid() && Encodes(fab.Live(), fab.w.ilid, u, v, fid) && u != v
    ensures fab.Delivers(fid, u, v) <==> !AllOnes(fid) || Direct(fab, fid, u, v)
    ensures Separate(fab.Live(), fab.w.ilid) ==> forall x :: fab.Delivers(fid, u, x) ==> x == v
  {
    hide World.Valid, AllOnes, Fabric.Journey, Fabric.Valid, Separate, Encodes;
    var p := EncodedMatches(fab.Live(), fab.w.ilid, u, v, fid);
    if !AllOnes(fid) {
      var q := Straighten(fab.Live(), fid, p, u, v);
      StraightIsJourney(fab, fid, q, u, v);
    } else if Direct(fab, fid, u, v) {
      DirectIsJourney(fab, fid, u, v);
    } else if fab.Delivers(fid, u, v) {
      AllOnesIsDirect(fab, fid, u, v);
    }
    if Separate(fab.Live(), fab.w.ilid) {
      forall x | fab.Delivers(fid, u, x)
        ensures x == v
      {
        OneEnd(fab.Live(), fab.w.ilid, u, v, fid, x);
      }
    }
  }

  lemma DirectIsJourney(fab: Fabric, fid: Bits, u: Vertex, v: Vertex)
    requires fab.Valid() && Direct(fab, fid, u, v)
    ensures fab.Journey(fid, [u, v])
  {
    hide World.Valid, AllOnes, Skips;
  }

  lemma AllOnesIsDirect(fab: Fabric, fid: Bits, u: Vertex, v: Vertex)
    requires fab.Valid() && AllOnes(fid) && fab.Delivers(fid, u, v)
    ensures Direct(fab, fid, u, v)
  {
    hide World.Valid, AllOnes;
    var q :| fab.Journey(fid, q) && |q| > 1 && q[0] == u && q[|q| - 1] == v;
    JourneyStarts(fab, fid, q);
    assert Edge(q[0], q[0 + 1]) in fab.Live() && fab.Live()[Edge(q[0], q[0 + 1])] <= fid;
  }

  // With identifiers that share no bit, a code contains one internal LID.
  lemma OneEnd(live: Lids, ilid: map<Vertex, Bits>, u: Vertex, v: Vertex, fid: Bits, x: Vertex)
    requires Separate(live, ilid) && Encodes(live, ilid, u, v, fid) && x in ilid && ilid[x] <= fid
    ensures x == v
  {
    var p :| IsPath(live, p, u, v) && fid == PathBits(live, p) + ilid[v];
    PathAvoids(live, p, ilid[x]);
    var b :| b in ilid[x];
    assert b in fid;
  }

  /** The three cached identifiers of a node, while the tables keep their guarantees: TM-to-node
      delivers exactly when there is a path, and each way back that is not zero delivers too. */
  lemma CachedIsDelivered(net: Net, fab: Fabric, fids: map<Vertex, Fids>, v: Vertex)
    requires net.Valid() && fab.Valid() && fab.w.ilid == net.ilid && TablesOk(net, fab.Live(), fids) && v < net.nodes
    ensures v in fids
    ensures v != net.tm ==> var fid := fids[v].toNode;
      (fab.Delivers(fid, net.tm, v) <==> Reachable(fab.Live(), net.tm, v) && (!AllOnes(fid) || Direct(fab, fid, net.tm, v)))
    ensures v != net.rv ==> var fid := fids[v].rv;
      (fab.Delivers(fid, v, net.rv) <==> fid != {} && (!AllOnes(fid) || Direct(fab, fid, v, net.rv)))
    ensures v != net.tm ==> var fid := fids[v].tm;
      (fab.Delivers(fid, v, net.tm) <==> fid != {} && (!AllOnes(fid) || Direct(fab, fid, v, net.tm)))
  {
    hide World.Valid, AllOnes, Fabric.Valid, Encodes, Reachable, Direct;
    assert NodeOk(net, fab.Live(), v, fids[v]);
    if v != net.tm {
      SafeDelivery(fab, fids[v].toNode, net.tm, v);
      SafeDelivery(fab, fids[v].tm, v, net.tm);
      HonestZero(fab, fids[v].toNode, net.tm, v);
    }
    if v != net.rv { SafeDelivery(fab, fids[v].rv, v, net.rv); }
  }

  lemma SafeDelivery(fab: Fabric, fid: Bits, u: Vertex, v: Vertex)
    requires fab.Valid() && u != v && v in fab.w.ilid && fab.w.ilid[v] != {} && Safe(fab.Live(), fab.w.ilid, u, v, fid)
    ensures fab.Delivers(fid, u, v) <==> fid != {} && (!AllOnes(fid) || Direct(fab, fid, u, v))
  {
    hide World.Valid, AllOnes, Fabric.Valid, Encodes, Direct, Fabric.Journey;
    if fid != {} {
      EncodedIsDelivered(fab, fid, u, v);
    }
  }

  lemma HonestZero(fab: Fabric, fid: Bits, u: Vertex, v: Vertex)
    requires v in fab.w.ilid && fab.w.ilid[v] != {} && Honest(fab.Live(), fab.w.ilid, u, v, fid)
    ensures fid != {} <==> Reachable(fab.Live(), u, v)
  {
    hide Encodes;
    if Reachable(fab.Live(), u, v) { EncodesReaches(fab.Live(), fab.w.ilid, u, v, fid); }
  }

  lemma EncodedSpares(live: Lids, ilid: map<Vertex, Bits>, u: Vertex, v: Vertex, fid: Bits, b: nat)
    requires Encodes(live, ilid, u, v, fid) && Spare(live, ilid, b)
    ensures !AllOnes(fid)
  {
    hide AllOnes;
    var p :| IsPath(live, p, u, v) && fid == PathBits(live, p) + ilid[v];
    PathSpares(live, p, b);
    MissingBit(fid, b);
  }

  /** While one bit is used by no link and no node, every code of a live path delivers. */
  lemma SpareIsDelivered(fab: Fabric, fid: Bits, u: Vertex, v: Vertex, b: nat)
    requires fab.Valid() && Spare(fab.Live(), fab.w.ilid, b) && Encodes(fab.Live(), fab.w.ilid, u, v, fid) && u != v
    ensures fab.Delivers(fid, u, v)
  {
    hide World.Valid, AllOnes, Fabric.Valid, Encodes, Spare, Direct, Fabric.Journey;
    EncodedSpares(fab.Live(), fab.w.ilid, u, v, fid, b);
    EncodedIsDelivered(fab, fid, u, v);
  }

  /** And every cached identifier delivers: TM-to-node exactly to the nodes the TM reaches, the ways
      back exactly if they are not zero. */
  lemma SpareCachedIsDelivered(net: Net, fab: Fabric, fids: map<Vertex, Fids>, v: Vertex, b: nat)
    requires net.Valid() && fab.Valid() && fab.w.ilid == net.ilid && TablesOk(net, fab.Live(), fids) && v < net.nodes
    requires Spare(fab.Live(), fab.w.ilid, b)
    ensures v in fids
    ensures v != net.tm ==> (fab.Delivers(fids[v].toNode, net.tm, v) <==> Reachable(fab.Live(), net.tm, v))
    ensures v != net.rv ==> (fab.Delivers(fids[v].rv, v, net.rv) <==> fids[v].rv != {})
    ensures v != net.tm ==> (fab.Delivers(fids[v].tm, v, net.tm) <==> fids[v].tm != {})
  {
    hide World.Valid, AllOnes, Fabric.Valid, Encodes, Spare, Direct, Fabric.Journey, Reachable;
    CachedIsDelivered(net, fab, fids, v);
    assert NodeOk(net, fab.Live(), v, fids[v]);
    if fids[v].toNode != {} { EncodedSpares(fab.Live(), fab.w.ilid, net.tm, v, fids[v].toNode, b); }
    if fids[v].rv != {} { EncodedSpares(fab.Live(), fab.w.ilid, v, net.rv, fids[v].rv, b); }
    if fids[v].tm != {} { EncodedSpares(fab.Live(), fab.w.ilid, v, net.tm, fids[v].tm, b); }
    HonestZero(fab, fids[v].toNode, net.tm, v);
  }
}
