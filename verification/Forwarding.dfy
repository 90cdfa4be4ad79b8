/** Hop-by-hop forwarding of a packet that carries a forwarding identifier: the link matching, loop
    suppression and local delivery of `Forwarder::push` in src/forwarder.cc, and what a network of
    such forwarders does with an identifier composed by the topology manager. */
module Forwarding {
  import opened TopologyGraph
  import opened Multicast

  const WIDTH := 256  // bits of an identifier

  // One outgoing link of a node: its own address, the neighbour's address and the LID.
  datatype Entry = Entry(src: nat, dst: nat, lid: Bits)

  predicate AllOnes(fid: Bits) {
    forall b :: 0 <= b < WIDTH ==> b in fid
  }

  // A packet from src to dst is not sent back, and over Ethernet not where it came from or went to.
  predicate Skips(mac: bool, src: nat, dst: nat, fe: Entry) {
    (src == fe.dst && dst == fe.src) || (mac && (src == fe.src || dst == fe.dst))
  }

  ghost predicate Increasing(s: seq<nat>) {
    forall i, j :: 0 <= i < j < |s| ==> s[i] < s[j]
  }

  /** A packet from the node itself: every matching link, each once, in table order. */
  method PushLocal(fid: Bits, table: seq<Entry>) returns (outs: seq<nat>)
    ensures Increasing(outs) && forall i: nat :: i in outs <==> i < |table| && table[i].lid <= fid
  {
    outs := [];
    for i := 0 to |table|
      invariant Increasing(outs) && forall k: nat :: k in outs <==> k < i && table[k].lid <= fid
    {
      if fid * table[i].lid == table[i].lid {
        assert table[i].lid <= fid;
        assert forall k :: 0 <= k < |outs| ==> outs[k] in outs;
        outs := outs + [i];
      } else {
        assert !(table[i].lid <= fid);
      }
    }
  }

  /** A packet from the network: every matching link that is not suppressed, none at all for the
      all-ones identifier, and local delivery exactly when the internal LID matches. */
  method PushNetwork(mac: bool, fid: Bits, src: nat, dst: nat, table: seq<Entry>, ilid: Bits) returns (outs: seq<nat>, local: bool)
    ensures Increasing(outs)
    ensures forall i: nat :: i in outs <==> i < |table| && !AllOnes(fid) && table[i].lid <= fid && !Skips(mac, src, dst, table[i])
    ensures local <==> ilid <= fid
  {
    hide AllOnes, Skips;
    outs := [];
    if !AllOnes(fid) {
      for i := 0 to |table|
        invariant Increasing(outs)
        invariant forall k: nat :: k in outs <==> k < i && table[k].lid <= fid && !Skips(mac, src, dst, table[k])
      {
        if fid * table[i].lid == table[i].lid {
          assert table[i].lid <= fid;
          if !Skips(mac, src, dst, table[i]) {
            assert forall k :: 0 <= k < |outs| ==> outs[k] in outs;
            outs := outs + [i];
          }
        } else {
          assert !(table[i].lid <= fid);
        }
      }
    }
    local := fid * ilid == ilid;
    assert local <==> ilid <= fid;
  }

  // ------------------------------------------------------------------
  // A network of forwarders

  /** The links with the sender's address on each of them; `mac` is the Ethernet mode. */
  datatype Fabric = Fabric(w: World, addr: map<Edge, nat>, mac: bool) {
    function Live(): Lids {
      TopologyGraph.Live(w.graph)
    }

    // Both ends of every link have addresses, and no two nodes share one.
    ghost predicate Valid() {
      && w.Valid()
      && (forall e :: e in Live() ==> e.from != e.to && e in addr && Flip(e) in addr)
      && (forall e, f :: e in addr && f in addr && addr[e] == addr[f] ==> e.from == f.from)
    }

    function EntryOf(e: Edge): Entry
      requires e in Live() && e in addr && Flip(e) in addr
    {
      Entry(addr[e], addr[Flip(e)], Live()[e])
    }

    // The packet that arrived over e leaves over f.
    ghost predicate Sends(fid: Bits, e: Edge, f: Edge)
      requires Valid() && e in Live()
    {
      && f in Live() && f.from == e.to && !AllOnes(fid)
      && Live()[f] <= fid && !Skips(mac, addr[e], addr[Flip(e)], EntryOf(f))
    }

    // A copy of the packet travels q, starting with the local push at q[0].
    ghost predicate Journey(fid: Bits, q: seq<Vertex>)
      requires Valid()
    {
      && q != []
      && (forall i :: 0 <= i < |q| - 1 ==> Edge(q[i], q[i + 1]) in Live() && Live()[Edge(q[i], q[i + 1])] <= fid)
      && (forall i :: 0 <= i < |q| - 2 ==> Sends(fid, Edge(q[i], q[i + 1]), Edge(q[i + 1], q[i + 2])))
    }

    // A copy comes in from the network at v and is handed up there.
    ghost predicate Delivers(fid: Bits, s: Vertex, v: Vertex)
      requires Valid()
    {
      v in w.ilid && w.ilid[v] <= fid && exists q :: Journey(fid, q) && |q| > 1 && q[0] == s && q[|q| - 1] == v
    }

    // A forwarder configured with the outgoing links of v.
    ghost predicate TableFor(v: Vertex, table: seq<Entry>)
      requires Valid()
    {
      && (forall f :: f in Live() && f.from == v ==> EntryOf(f) in table)
      && (forall fe :: fe in table ==> exists f :: f in Live() && f.from == v && EntryOf(f) == fe)
    }
  }

  /** The links picked by the forwarder at the end of e are the links the packet leaves over. */
  lemma PushIsSends(fab: Fabric, fid: Bits, e: Edge, table: seq<Entry>, outs: seq<nat>, f: Edge)
    requires fab.Valid() && e in fab.Live() && fab.TableFor(e.to, table) && f in fab.Live() && f.from == e.to
    requires forall i: nat :: i in outs <==>
      i < |table| && !AllOnes(fid) && table[i].lid <= fid && !Skips(fab.mac, fab.addr[e], fab.addr[Flip(e)], table[i])
    ensures fab.Sends(fid, e, f) <==> exists i: nat :: i < |table| && i in outs && table[i] == fab.EntryOf(f)
  {
    hide AllOnes, Skips, World.Valid;
    assert fab.EntryOf(f) in table;
    var i :| 0 <= i < |table| && table[i] == fab.EntryOf(f);
    assert i in outs <==> fab.Sends(fid, e, f);
  }

  /** With addresses that belong to one node each, only the link back is suppressed. */
  lemma OnlyBackIsSkipped(fab: Fabric, e: Edge, f: Edge)
    requires fab.Valid() && e in fab.Live() && f in fab.Live() && f.from == e.to
    ensures Skips(fab.mac, fab.addr[e], fab.addr[Flip(e)], fab.EntryOf(f)) <==> f == Flip(e)
  {
    hide World.Valid;
    assert Flip(Flip(e)) == e;
    if f != Flip(e) {
      assert Flip(f).from != e.from;
    }
  }

  // ------------------------------------------------------------------
  // Identifiers that do not overlap

  ghost predicate Separate(live: Lids, ilid: map<Vertex, Bits>) {
    && (forall e :: e in live ==> live[e] != {}) && (forall v :: v in ilid ==> ilid[v] != {})
    && (forall e, f :: e in live && f in live && e != f ==> live[e] !! live[f])
    && (forall v, u :: v in ilid && u in ilid && v != u ==> ilid[v] !! ilid[u])
    && (forall e, v :: e in live && v in ilid ==> live[e] !! ilid[v])
  }

  // fid is the or of the codes of the shortest paths from s to all of ts.
  ghost predicate Carries(w: World, s: Vertex, ts: set<Vertex>, fid: Bits) {
    IsOr(w, s, ts, fid) && forall t :: t in ts ==> t in w.ilid && Reachable(Live(w.graph), s, t)
  }

  // e is the k-th link of the path to t.
  ghost predicate OnPath(w: World, s: Vertex, t: Vertex, k: nat, e: Edge) {
    k + 1 < |w.Path(s, t)| && w.Path(s, t)[k] == e.from && w.Path(s, t)[k + 1] == e.to
  }

  // A link whose LID is in the identifier is a link of some chosen path.
  lemma MatchedIsChosen(w: World, s: Vertex, ts: set<Vertex>, fid: Bits, e: Edge) returns (t: Vertex, k: nat)
    requires w.Valid() && Separate(Live(w.graph), w.ilid) && Carries(w, s, ts, fid)
    requires e in Live(w.graph) && Live(w.graph)[e] <= fid
    ensures t in ts && OnPath(w, s, t, k, e)
  {
    hide World.Valid, Reachable;
    var live := Live(w.graph);
    var b :| b in live[e];
    assert b in fid;
    t :| t in ts && b in w.Code(s, t);
    assert live[e] !! w.ilid[t];
    k := PathBitsFrom(live, w.Path(s, t), b);
    var f := Edge(w.Path(s, t)[k], w.Path(s, t)[k + 1]);
    assert f in live && b in live[f];
    assert f == e;
  }

  lemma {:induction false} PathAvoids(live: Lids, p: seq<Vertex>, bits: Bits)
    requires forall e :: e in live ==> live[e] !! bits
    ensures PathBits(live, p) !! bits
  {
    if |p| > 1 { PathAvoids(live, p[..|p| - 1], bits); }
  }

  lemma OwnerIsChosen(w: World, s: Vertex, ts: set<Vertex>, fid: Bits, v: Vertex)
    requires w.Valid() && Separate(Live(w.graph), w.ilid) && Carries(w, s, ts, fid)
    requires v in w.ilid && w.ilid[v] <= fid
    ensures v in ts
  {
    hide World.Valid, Reachable;
    var live := Live(w.graph);
    var b :| b in w.ilid[v];
    assert b in fid;
    var t :| t in ts && b in w.Code(s, t);
    PathAvoids(live, w.Path(s, t), w.ilid[v]);
    assert b in w.ilid[t];
  }

  // ------------------------------------------------------------------
  // Levels: the k-th node of a shortest path is k links away

  lemma PathFacts(w: World, s: Vertex, t: Vertex)
    requires w.Valid() && Reachable(Live(w.graph), s, t)
    ensures IsPath(Live(w.graph), w.Path(s, t), s, t)
    ensures forall p :: IsPath(Live(w.graph), p, s, t) ==> |w.Path(s, t)| <= |p|
  {
    assert Routes(w.route, w.graph, s, t);
  }

  lemma Spliced(live: Lids, p: seq<Vertex>, q: seq<Vertex>, k: nat, s: Vertex, t: Vertex)
    requires IsPath(live, p, s, t) && k < |p| && IsPath(live, q, s, p[k])
    ensures IsPath(live, q + p[k + 1..], s, t)
  {
    var r := q + p[k + 1..];
    forall i | 0 <= i < |r| - 1
      ensures Edge(r[i], r[i + 1]) in live
    {
      if i < |q| - 1 {
        assert Edge(q[i], q[i + 1]) in live;
      } else {
        var j := k + i - (|q| - 1);
        assert Edge(p[j], p[j + 1]) in live;
        assert r[i] == p[j] && r[i + 1] == p[j + 1];
      }
    }
  }

  lemma PrefixIsPath(live: Lids, p: seq<Vertex>, k: nat, s: Vertex, t: Vertex)
    requires IsPath(live, p, s, t) && k < |p|
    ensures IsPath(live, p[..k + 1], s, p[k])
  {}

  lemma Level(w: World, s: Vertex, t: Vertex, k: nat)
    requires w.Valid() && Reachable(Live(w.graph), s, t) && k < |w.Path(s, t)|
    ensures Reachable(Live(w.graph), s, w.Path(s, t)[k]) && |w.Path(s, w.Path(s, t)[k])| == k + 1
  {
    hide World.Valid, IsPath;
    var live, p := Live(w.graph), w.Path(s, t);
    PathFacts(w, s, t);
    PrefixIsPath(live, p, k, s, t);
    PathFacts(w, s, p[k]);
    Spliced(live, p, w.Path(s, p[k]), k, s, t);
  }

  lemma OnlyOneSource(w: World, s: Vertex)
    requires w.Valid()
    ensures |w.Path(s, s)| == 1
  {
    assert IsPath(Live(w.graph), [s], s, s);
    PathFacts(w, s, s);
  }

  /** Hop i of every journey is hop i of some chosen shortest path, so each crossing takes the
      packet one link further from the publisher. */
  lemma {:induction false} JourneyOnPaths(fab: Fabric, fid: Bits, s: Vertex, ts: set<Vertex>, q: seq<Vertex>, i: nat)
    requires fab.Valid() && Separate(fab.Live(), fab.w.ilid) && Carries(fab.w, s, ts, fid)
    requires fab.Journey(fid, q) && q[0] == s && i < |q|
    ensures |fab.w.Path(s, q[i])| == i + 1
    ensures i + 1 < |q| ==> exists t :: t in ts && OnPath(fab.w, s, t, i, Edge(q[i], q[i + 1]))
  {
    hide World.Valid, Separate, Fabric.Sends, Reachable, IsOr;
    if i == 0 {
      OnlyOneSource(fab.w, s);
    } else {
      JourneyOnPaths(fab, fid, s, ts, q, i - 1);
      var t :| t in ts && OnPath(fab.w, s, t, i - 1, Edge(q[i - 1], q[i - 1 + 1]));
      Level(fab.w, s, t, i);
    }
    if i + 1 < |q| {
      var t, k := MatchedIsChosen(fab.w, s, ts, fid, Edge(q[i], q[i + 1]));
      Level(fab.w, s, t, k);
    }
  }

  /** Every copy dies: no journey is longer than the longest chosen path. */
  lemma JourneysEnd(fab: Fabric, fid: Bits, s: Vertex, ts: set<Vertex>, q: seq<Vertex>)
    requires fab.Valid() && Separate(fab.Live(), fab.w.ilid) && Carries(fab.w, s, ts, fid)
    requires fab.Journey(fid, q) && q[0] == s && |q| > 1
    ensures exists t :: t in ts && |q| <= |fab.w.Path(s, t)|
  {
    hide World.Valid, Separate, Fabric.Sends, Carries, Fabric.Valid, Fabric.Journey;
    JourneyOnPaths(fab, fid, s, ts, q, |q| - 2);
    var t :| t in ts && OnPath(fab.w, s, t, |q| - 2, Edge(q[|q| - 2], q[|q| - 2 + 1]));
    assert |q| <= |fab.w.Path(s, t)|;
  }

  // ------------------------------------------------------------------
  // Delivery

  // The chosen path matches the identifier all along.
  lemma ChosenMatches(w: World, s: Vertex, ts: set<Vertex>, fid: Bits, t: Vertex, k: nat)
    requires w.Valid() && Carries(w, s, ts, fid) && t in ts && k < |w.Path(s, t)| - 1
    ensures var e := Edge(w.Path(s, t)[k], w.Path(s, t)[k + 1]); e in Live(w.graph) && Live(w.graph)[e] <= fid
  {
    hide World.Valid, Reachable;
    var live := Live(w.graph);
    PathFacts(w, s, t);
    PathHasLid(live, w.Path(s, t), k);
    forall b | b in BitsOf(live, Edge(w.Path(s, t)[k], w.Path(s, t)[k + 1]))
      ensures b in fid
    {
      assert b in w.Code(s, t);
    }
  }

  lemma InternalMatches(w: World, s: Vertex, ts: set<Vertex>, fid: Bits, t: Vertex)
    requires Carries(w, s, ts, fid) && t in ts
    ensures t in w.ilid && w.ilid[t] <= fid
  {
    forall b | b in w.ilid[t]
      ensures b in fid
    {
      assert b in w.Code(s, t);
    }
  }

  // A shortest path never turns back, so no hop of it is suppressed.
  lemma ChosenSends(fab: Fabric, fid: Bits, s: Vertex, ts: set<Vertex>, t: Vertex, k: nat)
    requires fab.Valid() && Carries(fab.w, s, ts, fid) && t in ts && !AllOnes(fid) && k < |fab.w.Path(s, t)| - 2
    ensures var p := fab.w.Path(s, t);
      Edge(p[k], p[k + 1]) in fab.Live() && fab.Sends(fid, Edge(p[k], p[k + 1]), Edge(p[k + 1], p[k + 2]))
  {
    hide World.Valid, IsOr, Skips, AllOnes, Reachable;
    var p := fab.w.Path(s, t);
    ChosenMatches(fab.w, s, ts, fid, t, k);
    ChosenMatches(fab.w, s, ts, fid, t, k + 1);
    Level(fab.w, s, t, k);
    Level(fab.w, s, t, k + 2);
    OnlyBackIsSkipped(fab, Edge(p[k], p[k + 1]), Edge(p[k + 1], p[k + 2]));
  }

  lemma ChosenIsJourney(fab: Fabric, fid: Bits, s: Vertex, ts: set<Vertex>, t: Vertex)
    requires fab.Valid() && Carries(fab.w, s, ts, fid) && t in ts && (!AllOnes(fid) || |fab.w.Path(s, t)| <= 2)
    ensures fab.Journey(fid, fab.w.Path(s, t))
  {
    hide World.Valid, IsOr, AllOnes, Reachable, Fabric.Sends;
    var p := fab.w.Path(s, t);
    PathFacts(fab.w, s, t);
    forall k | 0 <= k < |p| - 1
      ensures Edge(p[k], p[k + 1]) in fab.Live() && fab.Live()[Edge(p[k], p[k + 1])] <= fid
    {
      ChosenMatches(fab.w, s, ts, fid, t, k);
    }
    forall k | 0 <= k < |p| - 2
      ensures fab.Sends(fid, Edge(p[k], p[k + 1]), Edge(p[k + 1], p[k + 2]))
    {
      ChosenSends(fab, fid, s, ts, t, k);
    }
  }

  // With all bits set nothing is forwarded after the first link.
  lemma AllOnesStops(fab: Fabric, fid: Bits, s: Vertex, v: Vertex)
    requires fab.Valid() && AllOnes(fid) && fab.Delivers(fid, s, v)
    ensures Edge(s, v) in fab.Live()
  {
    hide World.Valid, AllOnes, Fabric.Journey;
    var q :| fab.Journey(fid, q) && |q| > 1 && q[0] == s && q[|q| - 1] == v;
    JourneyStarts(fab, fid, q);
  }

  lemma JourneyStarts(fab: Fabric, fid: Bits, q: seq<Vertex>)
    requires fab.Valid() && fab.Journey(fid, q) && |q| > 1
    ensures Edge(q[0], q[1]) in fab.Live() && (|q| > 2 ==> !AllOnes(fid))
  {
    hide World.Valid, AllOnes, Skips;
    assert Edge(q[0], q[0 + 1]) in fab.Live();
    if |q| > 2 { assert fab.Sends(fid, Edge(q[0], q[0 + 1]), Edge(q[0 + 1], q[0 + 2])); }
  }

  lemma DirectIsShort(fab: Fabric, s: Vertex, t: Vertex)
    requires fab.Valid() && Edge(s, t) in fab.Live()
    ensures |fab.w.Path(s, t)| <= 2
  {
    hide World.Valid;
    assert IsPath(fab.Live(), [s, t], s, t);
    PathFacts(fab.w, s, t);
  }

  lemma PathToOther(w: World, s: Vertex, t: Vertex)
    requires w.Valid() && s != t && Reachable(Live(w.graph), s, t)
    ensures |w.Path(s, t)| > 1 && w.Path(s, t)[0] == s && w.Path(s, t)[|w.Path(s, t)| - 1] == t
  {
    hide World.Valid;
    PathFacts(w, s, t);
  }

  /** Delivery is exact: away from the publisher a packet is handed up at the intended subscribers
      and nowhere else, unless its identifier has all bits set and the subscriber is no neighbour. */
  lemma DeliveryExact(fab: Fabric, fid: Bits, s: Vertex, ts: set<Vertex>, v: Vertex)
    requires fab.Valid() && Separate(fab.Live(), fab.w.ilid) && Carries(fab.w, s, ts, fid) && v != s
    ensures fab.Delivers(fid, s, v) <==> v in ts && (!AllOnes(fid) || Edge(s, v) in fab.Live())
  {
    hide World.Valid, Separate, AllOnes, IsOr, Fabric.Journey, Fabric.Valid, Reachable;
    assert fab.w.Valid() by { FabricWorld(fab); }
    if fab.Delivers(fid, s, v) {
      OwnerIsChosen(fab.w, s, ts, fid, v);
      if AllOnes(fid) { AllOnesStops(fab, fid, s, v); }
    }
    if v in ts && (!AllOnes(fid) || Edge(s, v) in fab.Live()) {
      if Edge(s, v) in fab.Live() { DirectIsShort(fab, s, v); }
      ChosenIsJourney(fab, fid, s, ts, v);
      InternalMatches(fab.w, s, ts, fid, v);
      PathToOther(fab.w, s, v);
    }
  }

  lemma FabricWorld(fab: Fabric)
    requires fab.Valid()
    ensures fab.w.Valid()
  {}

  // A composed entry carries exactly the assigned subscribers.
  lemma ComposedCarries(w: World, pubs: seq<Vertex>, subs: seq<Vertex>, result: map<Vertex, Option<Bits>>, s: Vertex)
    requires w.Valid() && Composed(w, pubs, subs, result) && s in result && result[s].Some?
    requires forall t :: t in subs ==> t in w.ilid
    ensures Carries(w, s, Assigned(w, pubs, subs, s), result[s].value)
  {
    hide World.Valid, Best, Reachable, IsOr, World.Code;
    assert EntryOk(w, pubs, subs, s, result[s]);
    forall t | t in Assigned(w, pubs, subs, s)
      ensures t in w.ilid && Reachable(Live(w.graph), s, t)
    {
      BestIsNearest(w, pubs, t);
    }
  }

  /** A whole request: every subscriber has a publisher at minimum hop count whose packets reach it,
      and it receives nothing from the other publishers. */
  lemma RequestIsServed(fab: Fabric, pubs: seq<Vertex>, subs: seq<Vertex>, t: Vertex, s: Vertex)
    requires fab.Valid() && Separate(fab.Live(), fab.w.ilid)
    requires t in subs && s in pubs && s != t && forall u :: u in subs ==> u in fab.w.ilid && Reached(fab.w, pubs, u)
    requires var r := ServeAll(fab.w, pubs, subs).result; s in r && r[s].Some? ==> !AllOnes(r[s].value)
    ensures var r := ServeAll(fab.w, pubs, subs).result;
      && s in r && (Best(fab.w, pubs, t) == Some(s) ==> r[s].Some?)
      && (r[s].Some? ==> (fab.Delivers(r[s].value, s, t) <==> Best(fab.w, pubs, t) == Some(s)))
  {
    hide World.Valid, Separate, AllOnes, Fabric.Valid, Best, Reached, ServeAll, Fabric.Delivers, Carries, IsOr;
    FabricWorld(fab);
    AllServed(fab.w, pubs, subs);
    var r := ServeAll(fab.w, pubs, subs).result;
    assert EntryOk(fab.w, pubs, subs, s, r[s]);
    assert t in Assigned(fab.w, pubs, subs, s) <==> Best(fab.w, pubs, t) == Some(s);
    if r[s].Some? {
      ComposedCarries(fab.w, pubs, subs, r, s);
      DeliveryExact(fab, r[s].value, s, Assigned(fab.w, pubs, subs, s), t);
    }
  }

  /** No link and no node uses bit b of the identifiers. */
  ghost predicate Spare(live: Lids, ilid: map<Vertex, Bits>, b: nat) {
    b < WIDTH && (forall e :: e in live ==> b !in live[e]) && (forall v :: v in ilid ==> b !in ilid[v])
  }

  lemma MissingBit(fid: Bits, b: nat)
    requires b < WIDTH && b !in fid
    ensures !AllOnes(fid)
  {}

  lemma {:induction false} PathSpares(live: Lids, p: seq<Vertex>, b: nat)
    requires forall e :: e in live ==> b !in live[e]
    ensures b !in PathBits(live, p)
  {
    if |p| > 1 { PathSpares(live, p[..|p| - 1], b); }
  }

  lemma CodeSpares(w: World, s: Vertex, t: Vertex, b: nat)
    requires Spare(Live(w.graph), w.ilid, b) && t in w.ilid
    ensures b !in w.Code(s, t)
  {
    PathSpares(Live(w.graph), w.Path(s, t), b);
  }

  /** With one bit to spare no composed identifier has all bits set, so every request is served. */
  lemma SpareRequestIsServed(fab: Fabric, pubs: seq<Vertex>, subs: seq<Vertex>, t: Vertex, s: Vertex, b: nat)
    requires fab.Valid() && Separate(fab.Live(), fab.w.ilid) && Spare(fab.Live(), fab.w.ilid, b)
    requires t in subs && s in pubs && s != t && forall u :: u in subs ==> u in fab.w.ilid && Reached(fab.w, pubs, u)
    ensures var r := ServeAll(fab.w, pubs, subs).result;
      && s in r && (Best(fab.w, pubs, t) == Some(s) ==> r[s].Some?)
      && (r[s].Some? ==> (fab.Delivers(r[s].value, s, t) <==> Best(fab.w, pubs, t) == Some(s)))
  {
    hide World.Valid, Separate, AllOnes, Fabric.Valid, Best, Reached, ServeAll, Fabric.Delivers, World.Code, Spare, Reachable;
    FabricWorld(fab);
    AllServed(fab.w, pubs, subs);
    var r := ServeAll(fab.w, pubs, subs).result;
    assert EntryOk(fab.w, pubs, subs, s, r[s]);
    if r[s].Some? {
      ComposedCarries(fab.w, pubs, subs, r, s);
      forall u | u in Assigned(fab.w, pubs, subs, s)
        ensures b !in fab.w.Code(s, u)
      {
        CodeSpares(fab.w, s, u, b);
      }
      SpareBound(fab.Live(), fab.w.ilid, b);
      MissingBit(r[s].value, b);
    }
    RequestIsServed(fab, pubs, subs, t, s);
  }

  lemma SpareBound(live: Lids, ilid: map<Vertex, Bits>, b: nat)
    requires Spare(live, ilid, b)
    ensures b < WIDTH
  {}

  // ------------------------------------------------------------------
  // Composition with unreached subscribers, when identifiers do not overlap

  lemma OnlyOwnCode(w: World, s: Vertex, u: Vertex, v: Vertex, b: nat)
    requires Separate(Live(w.graph), w.ilid) && u in w.ilid && b in w.ilid[u] && b in w.Code(s, v)
    ensures u == v
  {
    PathAvoids(Live(w.graph), w.Path(s, v), w.ilid[u]);
  }

  lemma RecoveredIff(w: World, pubs: seq<Vertex>, subs: seq<Vertex>, s: Vertex)
    requires Separate(Live(w.graph), w.ilid) && forall t :: t in subs ==> t in w.ilid
    ensures Recovered(w, pubs, subs, s) <==> Survivors(w, pubs, subs, s) == Assigned(w, pubs, subs, s)
  {
    hide Best, Survivors;
    SurvivorsAssigned(w, pubs, subs, s);
    if Recovered(w, pubs, subs, s) {
      forall u | u in Assigned(w, pubs, subs, s)
        ensures u in Survivors(w, pubs, subs, s)
      {
        var b :| b in w.ilid[u];
        assert b in w.Code(s, u);
        var v :| v in Survivors(w, pubs, subs, s) && b in w.Code(s, v);
        OnlyOwnCode(w, s, u, v, b);
      }
    }
  }

  /** With identifiers that share no bit, the entries of any request are right exactly when nobody was
      wiped out. */
  lemma ComposedIffAllSurvive(w: World, pubs: seq<Vertex>, subs: seq<Vertex>)
    requires w.Valid() && Separate(Live(w.graph), w.ilid) && forall t :: t in subs ==> t in w.ilid
    ensures Composed(w, pubs, subs, ServeAll(w, pubs, subs).result) <==>
            forall s :: s in pubs ==> Survivors(w, pubs, subs, s) == Assigned(w, pubs, subs, s)
  {
    hide World.Valid, Separate, Recovered, Survivors, Assigned, Composed, ServeAll;
    ComposedIff(w, pubs, subs);
    forall s | s in pubs
      ensures Recovered(w, pubs, subs, s) <==> Survivors(w, pubs, subs, s) == Assigned(w, pubs, subs, s)
    {
      RecoveredIff(w, pubs, subs, s);
    }
  }

  /** The same by position, for a request that names each subscriber once: right exactly when no
      subscriber that is followed by an unreached one shares its publisher with an earlier one. */
  lemma ComposedIffNoneWiped(w: World, pubs: seq<Vertex>, subs: seq<Vertex>)
    requires w.Valid() && Separate(Live(w.graph), w.ilid) && (forall t :: t in subs ==> t in w.ilid) && Distinct(subs)
    ensures Composed(w, pubs, subs, ServeAll(w, pubs, subs).result) <==> NoneWiped(w, pubs, subs)
  {
    hide World.Valid, Separate, Survivors, Composed, ServeAll, NoneWiped, Best;
    ComposedIffAllSurvive(w, pubs, subs);
    AllLeftIff(w, pubs, subs);
    forall s: Vertex | s !in pubs
      ensures Survivors(w, pubs, subs, s) == Assigned(w, pubs, subs, s)
    {
      SurvivorsAssigned(w, pubs, subs, s);
      OnlyPublishers(w, pubs, subs, s);
    }
  }

  lemma OnlyPublishers(w: World, pubs: seq<Vertex>, subs: seq<Vertex>, s: Vertex)
    requires w.Valid() && s !in pubs
    ensures Assigned(w, pubs, subs, s) == {}
  {
    hide World.Valid, Best;
    if t :| t in Assigned(w, pubs, subs, s) {
      BestIsNearest(w, pubs, t);
      assert false;
    }
  }

  /** One unreached subscriber at the end: right exactly when the last subscriber's publisher serves
      nobody else. */
  lemma UnreachedKeepsIffAlone(w: World, pubs: seq<Vertex>, h: seq<Vertex>, t: Vertex)
    requires w.Valid() && Separate(Live(w.graph), w.ilid) && forall u :: u in h ==> u in w.ilid
    requires h != [] && (forall u :: u in h ==> Reached(w, pubs, u)) && !Reached(w, pubs, t)
    ensures var last := h[|h| - 1];
      var b := Best(w, pubs, last);
      && b.Some?
      && (Composed(w, pubs, h + [t], ServeAll(w, pubs, h + [t]).result) <==> Assigned(w, pubs, h, b.value) == {last})
  {
    hide World.Valid, Composed, ServeAll, Best, Reached;
    UnreachedKeepsIff(w, pubs, h, t);
    var last := h[|h| - 1];
    var p := Best(w, pubs, last).value;
    assert last in Assigned(w, pubs, h, p);
    forall u | u in Assigned(w, pubs, h, p) && w.Code(p, u) <= w.Code(p, last)
      ensures u == last
    {
      var b :| b in w.ilid[u];
      assert b in w.Code(p, u);
      OnlyOwnCode(w, p, u, last, b);
    }
  }
}
