/** The topology manager as a state machine over link-state events: `updateGraph` and
    `updateTMStates` of TopologyManager/tm_igraph.cpp, the three cached FID tables of
    `calculateRVTMFIDs`, and the event handlers of TopologyManager/tm.cpp that maintain them.
    Node identifiers are their vertex numbers. */
module TopologyManager {
  import opened TopologyGraph

  // The nodes, the topology manager's own node, the rendezvous node and the internal LIDs.
  datatype Net = Net(nodes: nat, tm: Vertex, rv: Vertex, ilid: map<Vertex, Bits>) {
    ghost predicate Valid() {
      && tm < nodes && rv < nodes
      && forall v: Vertex :: v < nodes ==> v in ilid && ilid[v] != {}
    }
  }

  // What is cached for one node: TM_to_nodeFID, RVFID and TMFID.
  datatype Fids = Fids(toNode: Bits, rv: Bits, tm: Bits)

  // ------------------------------------------------------------------
  // What the tables promise

  // TM-to-node is exact; the way to the RV and to the TM are never stale.
  ghost predicate NodeOk(net: Net, live: Lids, v: Vertex, f: Fids) {
    && Honest(live, net.ilid, net.tm, v, f.toNode)
    && Safe(live, net.ilid, v, net.rv, f.rv) && Safe(live, net.ilid, v, net.tm, f.tm)
  }

  ghost predicate TablesOk(net: Net, live: Lids, fids: map<Vertex, Fids>) {
    forall v: Vertex :: v < net.nodes ==> v in fids && NodeOk(net, live, v, fids[v])
  }

  // TMFID is exact as well.
  ghost predicate TmExact(net: Net, live: Lids, fids: map<Vertex, Fids>) {
    forall v: Vertex :: v < net.nodes ==> v in fids && Honest(live, net.ilid, v, net.tm, fids[v].tm)
  }

  // A node the TM can reach has an RVFID if it has a path to the RV.
  ghost predicate RvComplete(net: Net, live: Lids, fids: map<Vertex, Fids>) {
    forall v: Vertex :: v < net.nodes && v in fids && Reachable(live, net.tm, v) && Reachable(live, v, net.rv) ==> fids[v].rv != {}
  }

  // ------------------------------------------------------------------
  // What one event does to one node's entries

  ghost predicate NoneEmpty(lids: Lids) {
    forall e :: e in lids ==> lids[e] != {}
  }

  // Recalculated, or kept with no freed LID in it; a zero entry contains no LID and is kept.
  ghost predicate Rechecked(live: Lids, freed: Lids, ilid: map<Vertex, Bits>, u: Vertex, v: Vertex, was: Bits, now: Bits) {
    && ((now == was && Unmatched(freed, now)) || Honest(live, ilid, u, v, now))
    && (was == {} && NoneEmpty(freed) ==> now == {})
  }

  ghost predicate AfterRemoval(net: Net, live: Lids, freed: Lids, v: Vertex, was: Fids, now: Fids) {
    && Rechecked(live, freed, net.ilid, net.tm, v, was.toNode, now.toNode)
    && (if now.toNode != {}
        then Rechecked(live, freed, net.ilid, v, net.rv, was.rv, now.rv) && Rechecked(live, freed, net.ilid, v, net.tm, was.tm, now.tm)
        else now.rv == {} && now.tm == {})
  }

  ghost predicate AfterRestoration(net: Net, live: Lids, v: Vertex, was: Fids, now: Fids) {
    if was.toNode == {} && Reachable(live, net.tm, v)
    then Honest(live, net.ilid, net.tm, v, now.toNode) && Honest(live, net.ilid, v, net.rv, now.rv) && Honest(live, net.ilid, v, net.tm, now.tm)
    else now == was
  }

  // Some links of `before` were freed.
  ghost predicate Shrunk(before: Lids, live: Lids, freed: Lids) {
    Sub(live, before) && forall e :: e in before && e !in live ==> e in freed && freed[e] == before[e]
  }

  lemma RecheckedSafe(before: Lids, live: Lids, freed: Lids, ilid: map<Vertex, Bits>, u: Vertex, v: Vertex, was: Bits, now: Bits)
    requires Shrunk(before, live, freed) && Rechecked(live, freed, ilid, u, v, was, now) && Safe(before, ilid, u, v, was)
    ensures Safe(live, ilid, u, v, now)
  {
    hide Encodes, Reachable, Unmatched;
    if now == was && Unmatched(freed, now) && now != {} {
      UnmatchedSurvives(before, live, freed, ilid, u, v, now);
    }
  }

  lemma RecheckedHonest(before: Lids, live: Lids, freed: Lids, ilid: map<Vertex, Bits>, u: Vertex, v: Vertex, was: Bits, now: Bits)
    requires Shrunk(before, live, freed) && Rechecked(live, freed, ilid, u, v, was, now) && Honest(before, ilid, u, v, was)
    ensures Honest(live, ilid, u, v, now)
  {
    hide Encodes, Reachable, Unmatched;
    if Reachable(live, u, v) {
      ReachMonotone(live, before, u, v);
      if now == was && Unmatched(freed, now) { UnmatchedSurvives(before, live, freed, ilid, u, v, now); }
    } else if now == was && Unmatched(freed, now) && Reachable(before, u, v) {
      UnmatchedSurvives(before, live, freed, ilid, u, v, now);
      EncodesReaches(live, ilid, u, v, now);
    }
  }

  lemma RecheckedFound(before: Lids, live: Lids, freed: Lids, ilid: map<Vertex, Bits>, u: Vertex, v: Vertex, was: Bits, now: Bits)
    requires Shrunk(before, live, freed) && Rechecked(live, freed, ilid, u, v, was, now) && was != {}
    requires Reachable(live, u, v) && v in ilid && ilid[v] != {}
    ensures now != {}
  {
    hide Encodes, Reachable, Unmatched;
    if Honest(live, ilid, u, v, now) { EncodesReaches(live, ilid, u, v, now); }
  }

  // Honest entries are zero exactly when there is no path.
  lemma HonestZero(live: Lids, ilid: map<Vertex, Bits>, u: Vertex, v: Vertex, fid: Bits)
    requires Honest(live, ilid, u, v, fid) && v in ilid && ilid[v] != {}
    ensures fid == {} <==> !Reachable(live, u, v)
  {
    hide Encodes, Reachable;
    if Reachable(live, u, v) { EncodesReaches(live, ilid, u, v, fid); }
  }

  // ------------------------------------------------------------------
  // Removal keeps everything

  ghost predicate AllRemoved(net: Net, live: Lids, freed: Lids, was: map<Vertex, Fids>, now: map<Vertex, Fids>) {
    forall v: Vertex :: v < net.nodes ==> v in was && v in now && AfterRemoval(net, live, freed, v, was[v], now[v])
  }

  lemma RemovalKeepsTables(net: Net, before: Lids, live: Lids, freed: Lids, was: map<Vertex, Fids>, now: map<Vertex, Fids>)
    requires net.Valid() && Shrunk(before, live, freed) && TablesOk(net, before, was) && AllRemoved(net, live, freed, was, now)
    ensures TablesOk(net, live, now)
  {
    hide Shrunk, Rechecked, Honest, Safe, Reachable;
    forall v: Vertex | v < net.nodes
      ensures v in now && NodeOk(net, live, v, now[v])
    {
      assert AfterRemoval(net, live, freed, v, was[v], now[v]) && NodeOk(net, before, v, was[v]);
      RecheckedHonest(before, live, freed, net.ilid, net.tm, v, was[v].toNode, now[v].toNode);
      if now[v].toNode != {} {
        RecheckedSafe(before, live, freed, net.ilid, v, net.rv, was[v].rv, now[v].rv);
        RecheckedSafe(before, live, freed, net.ilid, v, net.tm, was[v].tm, now[v].tm);
      } else {
        ZeroSafe(live, net.ilid, v, net.rv);
        ZeroSafe(live, net.ilid, v, net.tm);
      }
    }
  }

  lemma ZeroSafe(live: Lids, ilid: map<Vertex, Bits>, u: Vertex, v: Vertex)
    ensures Safe(live, ilid, u, v, {})
  {}

  lemma RemovalKeepsTm(net: Net, before: Lids, live: Lids, freed: Lids, was: map<Vertex, Fids>, now: map<Vertex, Fids>)
    requires net.Valid() && Shrunk(before, live, freed) && TablesOk(net, before, was) && AllRemoved(net, live, freed, was, now)
    requires TmExact(net, before, was) && Symmetric(live)
    ensures TmExact(net, live, now)
  {
    hide Shrunk, Rechecked, Honest, Safe, Reachable, Symmetric;
    forall v: Vertex | v < net.nodes
      ensures v in now && Honest(live, net.ilid, v, net.tm, now[v].tm)
    {
      assert AfterRemoval(net, live, freed, v, was[v], now[v]) && NodeOk(net, before, v, was[v]);
      if now[v].toNode != {} {
        RecheckedHonest(before, live, freed, net.ilid, v, net.tm, was[v].tm, now[v].tm);
      } else {
        RecheckedHonest(before, live, freed, net.ilid, net.tm, v, was[v].toNode, now[v].toNode);
        HonestZero(live, net.ilid, net.tm, v, now[v].toNode);
        NoWayBack(live, net.ilid, v, net.tm);
      }
    }
  }

  // Without a path out there is none back, and zero is the honest entry.
  lemma NoWayBack(live: Lids, ilid: map<Vertex, Bits>, v: Vertex, tm: Vertex)
    requires Symmetric(live) && !Reachable(live, tm, v)
    ensures Honest(live, ilid, v, tm, {})
  {
    hide Reachable, Symmetric;
    if Reachable(live, v, tm) { ReversedPath(live, v, tm); }
  }

  lemma RemovalKeepsRv(net: Net, before: Lids, live: Lids, freed: Lids, was: map<Vertex, Fids>, now: map<Vertex, Fids>)
    requires net.Valid() && Shrunk(before, live, freed) && TablesOk(net, before, was) && AllRemoved(net, live, freed, was, now)
    requires RvComplete(net, before, was)
    ensures RvComplete(net, live, now)
  {
    hide Rechecked, Honest, Safe, Reachable, Sub;
    forall v: Vertex | v < net.nodes && Reachable(live, net.tm, v) && Reachable(live, v, net.rv)
      ensures v in now ==> now[v].rv != {}
    {
      assert AfterRemoval(net, live, freed, v, was[v], now[v]) && NodeOk(net, before, v, was[v]);
      RecheckedHonest(before, live, freed, net.ilid, net.tm, v, was[v].toNode, now[v].toNode);
      HonestZero(live, net.ilid, net.tm, v, now[v].toNode);
      ReachMonotone(live, before, net.tm, v);
      ReachMonotone(live, before, v, net.rv);
      RecheckedFound(before, live, freed, net.ilid, v, net.rv, was[v].rv, now[v].rv);
    }
  }

  // ------------------------------------------------------------------
  // Restoration keeps everything but the way to a returning RV

  ghost predicate AllRestored(net: Net, live: Lids, was: map<Vertex, Fids>, now: map<Vertex, Fids>) {
    forall v: Vertex :: v < net.nodes ==> v in was && v in now && AfterRestoration(net, live, v, was[v], now[v])
  }

  lemma SafeMonotone(before: Lids, live: Lids, ilid: map<Vertex, Bits>, u: Vertex, v: Vertex, fid: Bits)
    requires Sub(before, live) && Safe(before, ilid, u, v, fid)
    ensures Safe(live, ilid, u, v, fid)
  {
    hide Encodes, Sub;
    if fid != {} { EncodesMonotone(before, live, ilid, u, v, fid); }
  }

  lemma HonestSafe(live: Lids, ilid: map<Vertex, Bits>, u: Vertex, v: Vertex, fid: Bits)
    requires Honest(live, ilid, u, v, fid)
    ensures Safe(live, ilid, u, v, fid)
  {}

  // An honest entry stays honest if it was a path, or if there is still no path.
  lemma HonestMonotone(before: Lids, live: Lids, ilid: map<Vertex, Bits>, u: Vertex, v: Vertex, fid: Bits)
    requires Sub(before, live) && Honest(before, ilid, u, v, fid) && v in ilid && ilid[v] != {}
    requires fid != {} || !Reachable(live, u, v)
    ensures Honest(live, ilid, u, v, fid)
  {
    hide Encodes, Sub, Reachable;
    HonestZero(before, ilid, u, v, fid);
    if fid != {} {
      EncodesMonotone(before, live, ilid, u, v, fid);
      ReachMonotone(before, live, u, v);
    }
  }

  lemma RestorationKeepsTables(net: Net, before: Lids, live: Lids, was: map<Vertex, Fids>, now: map<Vertex, Fids>)
    requires net.Valid() && Sub(before, live) && TablesOk(net, before, was) && AllRestored(net, live, was, now)
    ensures TablesOk(net, live, now)
  {
    hide Sub, Honest, Safe, Reachable;
    forall v: Vertex | v < net.nodes
      ensures v in now && NodeOk(net, live, v, now[v])
    {
      assert AfterRestoration(net, live, v, was[v], now[v]) && NodeOk(net, before, v, was[v]);
      if was[v].toNode == {} && Reachable(live, net.tm, v) {
        HonestSafe(live, net.ilid, v, net.rv, now[v].rv);
        HonestSafe(live, net.ilid, v, net.tm, now[v].tm);
      } else {
        HonestMonotone(before, live, net.ilid, net.tm, v, was[v].toNode);
        SafeMonotone(before, live, net.ilid, v, net.rv, was[v].rv);
        SafeMonotone(before, live, net.ilid, v, net.tm, was[v].tm);
      }
    }
  }

  lemma RestorationKeepsTm(net: Net, before: Lids, live: Lids, was: map<Vertex, Fids>, now: map<Vertex, Fids>)
    requires net.Valid() && Sub(before, live) && TablesOk(net, before, was) && AllRestored(net, live, was, now)
    requires TmExact(net, before, was) && Symmetric(before) && Symmetric(live)
    ensures TmExact(net, live, now)
  {
    hide Sub, Honest, Safe, Reachable, Symmetric;
    forall v: Vertex | v < net.nodes
      ensures v in now && Honest(live, net.ilid, v, net.tm, now[v].tm)
    {
      assert AfterRestoration(net, live, v, was[v], now[v]) && NodeOk(net, before, v, was[v]);
      if !(was[v].toNode == {} && Reachable(live, net.tm, v)) {
        KeptTm(net, before, live, v, was[v]);
      }
    }
  }

  lemma KeptTm(net: Net, before: Lids, live: Lids, v: Vertex, f: Fids)
    requires net.Valid() && v < net.nodes && Sub(before, live) && Symmetric(before) && Symmetric(live)
    requires Honest(before, net.ilid, net.tm, v, f.toNode) && Honest(before, net.ilid, v, net.tm, f.tm)
    requires f.toNode != {} || !Reachable(live, net.tm, v)
    ensures Honest(live, net.ilid, v, net.tm, f.tm)
  {
    hide Sub, Honest, Reachable, Symmetric;
    HonestZero(before, net.ilid, net.tm, v, f.toNode);
    HonestZero(before, net.ilid, v, net.tm, f.tm);
    if Reachable(before, net.tm, v) { ReversedPath(before, net.tm, v); }
    if Reachable(live, v, net.tm) { ReversedPath(live, v, net.tm); }
    HonestMonotone(before, live, net.ilid, v, net.tm, f.tm);
  }

  /** The RVFIDs of a restoration are complete again exactly when the RV did not just come back:
      the handler looks only at nodes the TM could not reach, so nodes on the TM's side keep the
      zero RVFID they got while the RV was away. */
  lemma RestorationKeepsRvIff(net: Net, before: Lids, live: Lids, was: map<Vertex, Fids>, now: map<Vertex, Fids>)
    requires net.Valid() && Sub(before, live) && TablesOk(net, before, was) && AllRestored(net, live, was, now)
    requires RvComplete(net, before, was) && Symmetric(before)
    ensures RvComplete(net, live, now) <==> (Reachable(live, net.tm, net.rv) ==> Reachable(before, net.tm, net.rv))
  {
    hide Sub, Honest, Safe, Reachable, Symmetric, RvComplete, TablesOk;
    if Reachable(live, net.tm, net.rv) ==> Reachable(before, net.tm, net.rv) {
      RvStaysComplete(net, before, live, was, now);
    } else {
      RvStaysZero(net, before, live, was, now);
    }
  }

  lemma RvStaysComplete(net: Net, before: Lids, live: Lids, was: map<Vertex, Fids>, now: map<Vertex, Fids>)
    requires net.Valid() && Sub(before, live) && TablesOk(net, before, was) && AllRestored(net, live, was, now)
    requires RvComplete(net, before, was) && Symmetric(before)
    requires Reachable(live, net.tm, net.rv) ==> Reachable(before, net.tm, net.rv)
    ensures RvComplete(net, live, now)
  {
    hide Sub, Honest, Safe, Reachable, Symmetric;
    forall v: Vertex | v < net.nodes && v in now && Reachable(live, net.tm, v) && Reachable(live, v, net.rv)
      ensures now[v].rv != {}
    {
      assert AfterRestoration(net, live, v, was[v], now[v]) && NodeOk(net, before, v, was[v]);
      if was[v].toNode == {} {
        HonestZero(live, net.ilid, v, net.rv, now[v].rv);
      } else {
        HonestZero(before, net.ilid, net.tm, v, was[v].toNode);
        ReachTransitive(live, net.tm, v, net.rv);
        ReversedPath(before, net.tm, v);
        ReachTransitive(before, v, net.tm, net.rv);
      }
    }
  }

  lemma RvStaysZero(net: Net, before: Lids, live: Lids, was: map<Vertex, Fids>, now: map<Vertex, Fids>)
    requires net.Valid() && Sub(before, live) && TablesOk(net, before, was) && AllRestored(net, live, was, now)
    requires Reachable(live, net.tm, net.rv) && !Reachable(before, net.tm, net.rv)
    ensures net.tm in now && now[net.tm].rv == {} && !RvComplete(net, live, now)
  {
    hide Sub, Honest, Reachable;
    var t := net.tm;
    assert AfterRestoration(net, live, t, was[t], now[t]) && NodeOk(net, before, t, was[t]);
    ReachSelf(before, t);
    HonestZero(before, net.ilid, t, t, was[t].toNode);
    if was[t].rv != {} {
      EncodesReaches(before, net.ilid, t, net.rv, was[t].rv);
    }
    ReachSelf(live, t);
  }

  // ------------------------------------------------------------------
  // The edge indexes

  // Each edge number has its LID, and each LID the first edge that carries it.
  ghost predicate Indexed(g: seq<Link>, n: nat, edgeLid: map<nat, Bits>, reverseEdge: map<Bits, nat>)
    requires n <= |g|
  {
    && (forall i: nat :: i in edgeLid <==> i < n)
    && (forall i: nat :: i < n ==> edgeLid[i] == g[i].lid)
    && (forall i: nat :: i < n ==> g[i].lid in reverseEdge && reverseEdge[g[i].lid] <= i)
    && (forall l :: l in reverseEdge ==> reverseEdge[l] < n && g[reverseEdge[l]].lid == l)
  }

  ghost predicate DistinctLids(lids: Lids) {
    forall e, e' :: e in lids && e' in lids && lids[e] == lids[e'] ==> e == e'
  }

  /** With distinct LIDs the two indexes are inverse to each other. */
  lemma IndexesInverse(g: seq<Link>, edgeLid: map<nat, Bits>, reverseEdge: map<Bits, nat>, i: nat, l: Bits)
    requires Indexed(g, |g|, edgeLid, reverseEdge) && NoParallel(g) && DistinctLids(Live(g))
    ensures i in edgeLid && edgeLid[i] == l <==> l in reverseEdge && reverseEdge[l] == i
  {
    if i < |g| && g[i].lid == l {
      LiveAt(g, i);
      LiveAt(g, reverseEdge[l]);
    }
  }

  // ------------------------------------------------------------------
  // The state machine

  // Every link ever known is either live or freed, with the LID it started with.
  ghost predicate Conserved(all: Lids, live: Lids, freed: Lids) {
    && live.Keys !! freed.Keys && live.Keys + freed.Keys == all.Keys
    && Sub(live, all) && Sub(freed, all)
  }

  ghost predicate NoLoops(all: Lids) {
    forall e :: e in all ==> e.from != e.to
  }

  function Moved(u: Vertex, v: Vertex, bidirectional: bool): set<Edge> {
    if bidirectional then {Edge(u, v), Edge(v, u)} else {Edge(u, v)}
  }

  function Picked(lids: Lids, es: set<Edge>): Lids
    requires es <= lids.Keys
  {
    map e | e in es :: lids[e]
  }

  /** The links an event leaves live and freed, and whether it changes anything: a removal needs
      the link live, a restoration needs it freed. */
  function Updated(live: Lids, freed: Lids, u: Vertex, v: Vertex, bidirectional: bool, remove: bool): (r: (bool, Lids, Lids)) {
    var es := Moved(u, v, bidirectional);
    if remove && es <= live.Keys then (true, live - es, freed + Picked(live, es))
    else if !remove && Edge(u, v) !in live && es <= freed.Keys then (true, live + Picked(freed, es), freed - es)
    else (false, live, freed)
  }

  /** No event loses, invents or relabels a link. */
  lemma UpdateConserves(all: Lids, live: Lids, freed: Lids, u: Vertex, v: Vertex, bidirectional: bool, remove: bool)
    requires Conserved(all, live, freed)
    ensures var (updated, live', freed') := Updated(live, freed, u, v, bidirectional, remove);
      && Conserved(all, live', freed')
      && (if remove then Shrunk(live, live', freed') else Sub(live, live'))
  {
    hide Conserved, Shrunk, Sub;
    var es := Moved(u, v, bidirectional);
    var (updated, live', freed') := Updated(live, freed, u, v, bidirectional, remove);
    if !updated {
      UnchangedLinks(live, freed);
    } else if remove {
      FreedConserved(all, live, freed, es, live', freed');
    } else {
      RestoredConserved(all, live, freed, es, live', freed');
    }
  }

  ghost predicate Named(e: Edge, u: Vertex, v: Vertex, bidirectional: bool) {
    e == Edge(u, v) || (bidirectional && e == Edge(v, u))
  }

  /** What one event does to every single link: those it names change sides with their LIDs if all of
      them are on the side the event needs, and nothing else ever changes. */
  lemma UpdateExact(all: Lids, live: Lids, freed: Lids, u: Vertex, v: Vertex, bidirectional: bool, remove: bool, e: Edge)
    requires Conserved(all, live, freed)
    ensures var (updated, live', freed') := Updated(live, freed, u, v, bidirectional, remove);
      && (updated <==> if remove then Edge(u, v) in live && (bidirectional ==> Edge(v, u) in live)
                       else Edge(u, v) in freed && (bidirectional ==> Edge(v, u) in freed))
      && (updated && Named(e, u, v, bidirectional) && remove ==> e in live && e !in live' && e in freed' && freed'[e] == live[e])
      && (updated && Named(e, u, v, bidirectional) && !remove ==> e in freed && e !in freed' && e in live' && live'[e] == freed[e])
      && (!updated || !Named(e, u, v, bidirectional) ==>
            (e in live' <==> e in live) && (e in live ==> live'[e] == live[e]) &&
            (e in freed' <==> e in freed) && (e in freed ==> freed'[e] == freed[e]))
  {}

  /** A removal of a link that is down and a restoration of one that is not freed do nothing. */
  lemma OutOfPlace(live: Lids, freed: Lids, u: Vertex, v: Vertex, bidirectional: bool, remove: bool)
    requires if remove then Edge(u, v) !in live else Edge(u, v) !in freed
    ensures Updated(live, freed, u, v, bidirectional, remove) == (false, live, freed)
  {
    assert Edge(u, v) in Moved(u, v, bidirectional);
  }

  /** Both ends may report an event: the second report, from either end, does nothing. */
  lemma ReportedTwice(live: Lids, freed: Lids, u: Vertex, v: Vertex, remove: bool)
    requires live.Keys !! freed.Keys
    ensures var (_, live', freed') := Updated(live, freed, u, v, true, remove);
      && Updated(live', freed', u, v, true, remove) == (false, live', freed')
      && Updated(live', freed', v, u, true, remove) == (false, live', freed')
  {
    assert Edge(u, v) in Moved(u, v, true) && Edge(v, u) in Moved(u, v, true);
    assert Edge(u, v) in Moved(v, u, true) && Edge(v, u) in Moved(v, u, true);
  }

  lemma UnchangedLinks(live: Lids, freed: Lids)
    ensures Shrunk(live, live, freed) && Sub(live, live)
  {}

  /** Restoring what was just removed gives back every link with its LID. */
  lemma RestoreUndoesRemove(all: Lids, live: Lids, freed: Lids, u: Vertex, v: Vertex, bidirectional: bool)
    requires Conserved(all, live, freed) && Edge(u, v) in live && (bidirectional ==> Edge(v, u) in live)
    ensures var (_, live', freed') := Updated(live, freed, u, v, bidirectional, true);
      Updated(live', freed', u, v, bidirectional, false) == (true, live, freed)
  {
    var es := Moved(u, v, bidirectional);
    assert live - es + Picked(live, es) == live;
    assert freed + Picked(live, es) - es == freed;
    assert Picked(freed + Picked(live, es), es) == Picked(live, es);
  }

  lemma PickedIs(live: Lids, freed: Lids, u: Vertex, v: Vertex, bidirectional: bool)
    requires Moved(u, v, bidirectional) <= live.Keys
    ensures Edge(u, v) in live && (bidirectional ==> Edge(v, u) in live)
    ensures freed + Picked(live, Moved(u, v, bidirectional)) ==
            if bidirectional then freed[Edge(u, v) := live[Edge(u, v)]][Edge(v, u) := live[Edge(v, u)]]
            else freed[Edge(u, v) := live[Edge(u, v)]]
  {
    assert Edge(u, v) in Moved(u, v, bidirectional);
    assert bidirectional ==> Edge(v, u) in Moved(u, v, bidirectional);
  }

  lemma FreedConserved(all: Lids, live: Lids, freed: Lids, es: set<Edge>, live': Lids, freed': Lids)
    requires Conserved(all, live, freed) && es <= live.Keys && live' == live - es
    requires freed' == freed + Picked(live, es)
    ensures Conserved(all, live', freed') && Shrunk(live, live', freed')
  {}

  lemma RestoredConserved(all: Lids, live: Lids, freed: Lids, es: set<Edge>, live': Lids, freed': Lids)
    requires Conserved(all, live, freed) && es <= freed.Keys && freed' == freed - es
    requires live' == live + Picked(freed, es)
    ensures Conserved(all, live', freed') && Sub(live, live')
  {}

  lemma MovedSymmetric(live: Lids, u: Vertex, v: Vertex, live': Lids)
    requires Symmetric(live) && (live'.Keys == live.Keys - Moved(u, v, true) || live'.Keys == live.Keys + Moved(u, v, true))
    ensures Symmetric(live')
  {
    forall e | e in live'
      ensures Flip(e) in live'
    {
      assert Flip(Flip(e)) == e;
      assert e in live ==> Flip(e) in live;
      assert Flip(e) in live ==> Flip(Flip(e)) in live;
    }
  }

  lemma UpdateSymmetric(live: Lids, freed: Lids, u: Vertex, v: Vertex, bidirectional: bool, remove: bool)
    ensures Symmetric(live) && bidirectional ==> Symmetric(Updated(live, freed, u, v, bidirectional, remove).1)
  {
    hide Symmetric;
    var live' := Updated(live, freed, u, v, bidirectional, remove).1;
    if Symmetric(live) && bidirectional && live' != live { MovedSymmetric(live, u, v, live'); }
  }

  lemma UnchangedUpdate(live: Lids, freed: Lids, u: Vertex, v: Vertex, bidirectional: bool, remove: bool)
    requires !Updated(live, freed, u, v, bidirectional, remove).0
    ensures Updated(live, freed, u, v, bidirectional, remove) == (false, live, freed)
  {}

  // A recheck that still has the links `es` to go.
  ghost predicate Partly(live: Lids, freed: Lids, es: set<Edge>, ilid: map<Vertex, Bits>, u: Vertex, v: Vertex, was: Bits, now: Bits) {
    && ((now == was && forall e :: e in freed && e !in es ==> !(freed[e] <= now)) || Honest(live, ilid, u, v, now))
    && (was == {} && NoneEmpty(freed) ==> now == {})
  }

  // A reported failure or recovery of a link in both directions.
  datatype Event = Event(affected: Vertex, publisher: Vertex, remove: bool)

  // The live and the freed links after a run.
  function LinksAfter(live: Lids, freed: Lids, events: seq<Event>): (Lids, Lids) {
    if events == [] then (live, freed)
    else
      var (l, f) := LinksAfter(live, freed, events[..|events| - 1]);
      var e := events[|events| - 1];
      var (_, l', f') := Updated(l, f, e.affected, e.publisher, true, e.remove);
      (l', f')
  }

  /** After any run every link is live or freed with the LID it started with, and links that come in
      pairs stay in pairs. */
  lemma {:induction false} RunConserves(all: Lids, live: Lids, freed: Lids, events: seq<Event>)
    requires Conserved(all, live, freed)
    ensures var (l, f) := LinksAfter(live, freed, events); Conserved(all, l, f) && (Symmetric(live) ==> Symmetric(l))
  {
    hide Conserved, Symmetric, Updated;
    if events != [] {
      RunConserves(all, live, freed, events[..|events| - 1]);
      var (l, f) := LinksAfter(live, freed, events[..|events| - 1]);
      var e := events[|events| - 1];
      UpdateConserves(all, l, f, e.affected, e.publisher, true, e.remove);
      UpdateSymmetric(l, f, e.affected, e.publisher, true, e.remove);
    }
  }

  // Event i is the last one about link e.
  ghost predicate LastAbout(events: seq<Event>, e: Edge, i: int) {
    && 0 <= i < |events| && Named(e, events[i].affected, events[i].publisher, true)
    && forall j :: i < j < |events| ==> !Named(e, events[j].affected, events[j].publisher, true)
  }

  // Whether a link is up is decided by the last event about it, or by the start if there is none.
  ghost predicate EndsAs(start: bool, events: seq<Event>, e: Edge, now: bool) {
    && (forall i :: LastAbout(events, e, i) ==> (now <==> !events[i].remove))
    && ((forall i :: !LastAbout(events, e, i)) ==> (now <==> start))
  }

  /** Every link at the end of a run: live exactly if the last event about it was a recovery, or if
      there was none and it was live before. */
  lemma {:induction false} LastEventDecides(all: Lids, live: Lids, freed: Lids, events: seq<Event>, e: Edge)
    requires Conserved(all, live, freed) && Symmetric(all) && Symmetric(live) && e in all
    ensures EndsAs(e in live, events, e, e in LinksAfter(live, freed, events).0)
  {
    hide Conserved, Symmetric, Updated, LinksAfter;
    if events == [] {
      assert forall i :: !LastAbout(events, e, i);
      NoEvents(live, freed);
    } else {
      var h, last := events[..|events| - 1], events[|events| - 1];
      LastEventDecides(all, live, freed, h, e);
      RunConserves(all, live, freed, h);
      var (l, f) := LinksAfter(live, freed, h);
      OneMoreEvent(live, freed, events);
      EventDecides(all, l, f, last, e);
      EndsStep(e in live, events, e, e in l, e in LinksAfter(live, freed, events).0);
    }
  }

  lemma EndsStep(start: bool, events: seq<Event>, e: Edge, before: bool, now: bool)
    requires events != [] && EndsAs(start, events[..|events| - 1], e, before)
    requires var last := events[|events| - 1];
      now <==> if Named(e, last.affected, last.publisher, true) then !last.remove else before
    ensures EndsAs(start, events, e, now)
  {
    hide LastAbout;
    var n := |events| - 1;
    LastMoves(events, e);
    if Named(e, events[n].affected, events[n].publisher, true) {
      assert LastAbout(events, e, n);
    } else {
      forall i | LastAbout(events, e, i)
        ensures 0 <= i < n && (now <==> !events[i].remove)
      {
        LastRange(events[..n], e, i);
      }
    }
  }

  lemma LastRange(events: seq<Event>, e: Edge, i: int)
    requires LastAbout(events, e, i)
    ensures 0 <= i < |events|
  {}

  lemma NoEvents(live: Lids, freed: Lids)
    ensures LinksAfter(live, freed, []) == (live, freed)
  {}

  lemma OneMoreEvent(live: Lids, freed: Lids, events: seq<Event>)
    requires events != []
    ensures var (l, f) := LinksAfter(live, freed, events[..|events| - 1]);
      var last := events[|events| - 1];
      LinksAfter(live, freed, events).0 == Updated(l, f, last.affected, last.publisher, true, last.remove).1
  {}

  lemma EventDecides(all: Lids, live: Lids, freed: Lids, ev: Event, e: Edge)
    requires Conserved(all, live, freed) && Symmetric(all) && Symmetric(live) && e in all
    ensures var live' := Updated(live, freed, ev.affected, ev.publisher, true, ev.remove).1;
      e in live' <==> if Named(e, ev.affected, ev.publisher, true) then !ev.remove else e in live
  {
    hide Updated;
    UpdateExact(all, live, freed, ev.affected, ev.publisher, true, ev.remove, e);
    assert Flip(Edge(ev.affected, ev.publisher)) == Edge(ev.publisher, ev.affected);
    assert Flip(Edge(ev.publisher, ev.affected)) == Edge(ev.affected, ev.publisher);
  }

  lemma LastMoves(events: seq<Event>, e: Edge)
    requires events != []
    ensures var h, last := events[..|events| - 1], events[|events| - 1];
      forall i :: LastAbout(events, e, i) <==>
        (if Named(e, last.affected, last.publisher, true) then i == |events| - 1 else LastAbout(h, e, i))
  {
    var h := events[..|events| - 1];
    forall i
      ensures LastAbout(events, e, i) <==>
        if Named(e, events[|h|].affected, events[|h|].publisher, true) then i == |h| else LastAbout(h, e, i)
    {
      if LastAbout(h, e, i) { assert forall j :: i < j < |h| ==> h[j] == events[j]; }
      if LastAbout(events, e, i) && i < |h| { assert forall j :: i < j < |h| ==> h[j] == events[j]; }
    }
  }

  lemma LinksStep(live: Lids, freed: Lids, events: seq<Event>, k: nat)
    requires k < |events|
    ensures var (l, f) := LinksAfter(live, freed, events[..k]);
      var (_, l', f') := Updated(l, f, events[k].affected, events[k].publisher, true, events[k].remove);
      LinksAfter(live, freed, events[..k + 1]) == (l', f')
  {
    assert events[..k + 1][..k] == events[..k];
  }

  // The TM reaches the RV before the run and after each of its first n events.
  ghost predicate Steady(net: Net, live: Lids, freed: Lids, events: seq<Event>, n: nat)
    requires n <= |events|
  {
    forall k :: 0 <= k <= n ==> Reachable(LinksAfter(live, freed, events[..k]).0, net.tm, net.rv)
  }

  lemma SteadyStep(net: Net, live: Lids, freed: Lids, events: seq<Event>, n: nat)
    requires n < |events|
    ensures Steady(net, live, freed, events, n + 1) <==>
            Steady(net, live, freed, events, n) && Reachable(LinksAfter(live, freed, events[..n + 1]).0, net.tm, net.rv)
    ensures Steady(net, live, freed, events, n) ==> Reachable(LinksAfter(live, freed, events[..n]).0, net.tm, net.rv)
  {
    hide Reachable, LinksAfter;
  }

  lemma SteadyStart(net: Net, live: Lids, freed: Lids, events: seq<Event>)
    ensures Steady(net, live, freed, events, 0) <==> Reachable(live, net.tm, net.rv)
    ensures LinksAfter(live, freed, events[..0]) == (live, freed)
  {
    hide Reachable;
    assert events[..0] == [];
  }

  /** A zero RVFID of the TM's own node stays zero: a removal keeps zero entries, and a restoration
      does not look at a node that the TM reaches. */
  lemma ZeroStaysAfterRemoval(net: Net, live: Lids, freed: Lids, was: map<Vertex, Fids>, now: map<Vertex, Fids>)
    requires net.Valid() && AllRemoved(net, live, freed, was, now) && NoneEmpty(freed)
    ensures net.tm in was && net.tm in now && (was[net.tm].rv == {} ==> now[net.tm].rv == {})
  {
    hide Honest, Unmatched;
    assert AfterRemoval(net, live, freed, net.tm, was[net.tm], now[net.tm]);
  }

  lemma ZeroStaysAfterRestoration(net: Net, before: Lids, live: Lids, was: map<Vertex, Fids>, now: map<Vertex, Fids>)
    requires net.Valid() && TablesOk(net, before, was) && AllRestored(net, live, was, now)
    ensures net.tm in was && net.tm in now && now[net.tm] == was[net.tm]
  {
    hide Honest, Reachable, Safe;
    var t := net.tm;
    assert AfterRestoration(net, live, t, was[t], now[t]) && NodeOk(net, before, t, was[t]);
    ReachSelf(before, t);
    HonestZero(before, net.ilid, t, t, was[t].toNode);
  }

  // A non-zero RVFID of the TM shows that the RV is reachable; a complete table has one if it is.
  lemma OwnRvFid(net: Net, live: Lids, fids: map<Vertex, Fids>)
    requires net.Valid() && TablesOk(net, live, fids)
    ensures net.tm in fids && (fids[net.tm].rv != {} ==> Reachable(live, net.tm, net.rv))
    ensures RvComplete(net, live, fids) && Reachable(live, net.tm, net.rv) ==> fids[net.tm].rv != {}
    ensures !Reachable(live, net.tm, net.rv) ==> RvComplete(net, live, fids)
  {
    hide Honest, Reachable, Encodes;
    var t := net.tm;
    assert NodeOk(net, live, t, fids[t]);
    if fids[t].rv != {} { EncodesReaches(live, net.ilid, t, net.rv, fids[t].rv); }
    ReachSelf(live, t);
    if !Reachable(live, t, net.rv) {
      forall v: Vertex | v < net.nodes && Reachable(live, t, v) && Reachable(live, v, net.rv)
        ensures false
      {
        ReachTransitive(live, t, v, net.rv);
      }
    }
  }

  class Manager {
    const net: Net
    const route: Router
    ghost const all: Lids
    var graph: seq<Link>
    var edgeLid: map<nat, Bits>
    var reverseEdge: map<Bits, nat>
    var freed: Lids
    var fids: map<Vertex, Fids>

    ghost predicate GraphOk()
      reads this
    {
      && net.Valid() && IsRouter(route) && NoLoops(all)
      && NoParallel(graph) && Conserved(all, Live(graph), freed) && Indexed(graph, |graph|, edgeLid, reverseEdge)
    }

    ghost predicate Valid()
      reads this
    {
      GraphOk() && TablesOk(net, Live(graph), fids)
    }

    // After an event: the three guarantees over the tables and what they need.
    ghost predicate Balanced()
      reads this
    {
      Symmetric(Live(graph)) && TmExact(net, Live(graph), fids)
    }

    ghost predicate RvOk()
      reads this
    {
      RvComplete(net, Live(graph), fids)
    }

    method UpdateTMStates()
      modifies this`edgeLid, this`reverseEdge
      ensures Indexed(graph, |graph|, edgeLid, reverseEdge)
    {
      edgeLid, reverseEdge := map[], map[];
      for i := 0 to |graph|
        invariant Indexed(graph, i, edgeLid, reverseEdge)
      {
        var lid := graph[i].lid;
        if lid !in reverseEdge {
          reverseEdge := reverseEdge[lid := i];
        }
        edgeLid := edgeLid[i := lid];
      }
    }

    // A link that is about to go keeps its LID among the freed ones.
    method Free(e: Edge)
      requires Indexed(graph, |graph|, edgeLid, reverseEdge) && e in Live(graph)
      modifies this`freed
      ensures freed == old(freed)[e := Live(graph)[e]]
    {
      hide Live;
      var eid := Eid(graph, e);
      freed := freed[e := edgeLid[eid]];
    }

    // Both indexes and the freed links follow the edges that go.
    method RemoveEdges(u: Vertex, v: Vertex, bidirectional: bool)
      requires GraphOk() && Moved(u, v, bidirectional) <= Live(graph).Keys
      modifies this`graph, this`freed, this`edgeLid, this`reverseEdge
      ensures GraphOk() && Live(graph) == old(Live(graph)) - Moved(u, v, bidirectional)
      ensures freed == old(freed) + Picked(old(Live(graph)), Moved(u, v, bidirectional))
    {
      hide IsRouter, NoLoops, Conserved, Live, Indexed, NoParallel, Net.Valid, Picked;
      ghost var live, es := Live(graph), Moved(u, v, bidirectional);
      PickedIs(live, freed, u, v, bidirectional);
      Free(Edge(u, v));
      if bidirectional {
        Free(Edge(v, u));
      }
      WithoutLive(graph, es);
      FreedConserved(all, live, old(freed), es, live - es, freed);
      graph := Without(graph, Moved(u, v, bidirectional));
      UpdateTMStates();
    }

    // The edges come back with the LIDs they had.
    method RestoreEdges(u: Vertex, v: Vertex, bidirectional: bool)
      requires GraphOk() && Moved(u, v, bidirectional) <= freed.Keys
      modifies this`graph, this`freed, this`edgeLid, this`reverseEdge
      ensures GraphOk() && Live(graph) == old(Live(graph)) + Picked(old(freed), Moved(u, v, bidirectional))
      ensures freed == old(freed) - Moved(u, v, bidirectional)
    {
      hide IsRouter, Indexed, Live;
      ghost var live, es := Live(graph), Moved(u, v, bidirectional);
      assert Edge(u, v) in es;
      var forward := Link(Edge(u, v), freed[Edge(u, v)]);
      AppendLive(graph, forward);
      AppendParallel(graph, forward);
      graph := graph + [forward];
      if bidirectional {
        assert Edge(v, u) in es && u != v;
        var backward := Link(Edge(v, u), freed[Edge(v, u)]);
        AppendLive(graph, backward);
        AppendParallel(graph, backward);
        graph := graph + [backward];
      }
      freed := freed - Moved(u, v, bidirectional);
      assert Live(graph) == live + Picked(old(freed), es);
      RestoredConserved(all, live, old(freed), es, Live(graph), freed);
      UpdateTMStates();
    }

    /** One link-state change. Removing both directions relies on the reverse edge being there. */
    method UpdateGraph(u: Vertex, v: Vertex, bidirectional: bool, remove: bool) returns (updated: bool)
      requires GraphOk() && (bidirectional && remove && Edge(u, v) in Live(graph) ==> Edge(v, u) in Live(graph))
      modifies this`graph, this`freed, this`edgeLid, this`reverseEdge
      ensures GraphOk() && (updated, Live(graph), freed) == Updated(old(Live(graph)), old(freed), u, v, bidirectional, remove)
      ensures !updated ==> graph == old(graph) && edgeLid == old(edgeLid) && reverseEdge == old(reverseEdge)
    {
      hide IsRouter, NoLoops, Conserved, Live, Indexed;
      var broken := Edge(u, v) in freed && (bidirectional ==> Edge(v, u) in freed);
      var exists_ := Eid(graph, Edge(u, v)) > -1;
      if remove && exists_ {
        RemoveEdges(u, v, bidirectional);
        updated := true;
      } else if !remove && !exists_ && broken {
        RestoreEdges(u, v, bidirectional);
        updated := true;
      } else {
        updated := false;
      }
    }

    /** The code of a shortest path, or zero: the first `calculateFID`. */
    method CalculateFID(source: Vertex, destination: Vertex) returns (fid: Bits)
      requires GraphOk() && destination < net.nodes
      ensures Honest(Live(graph), net.ilid, source, destination, fid)
    {
      hide Conserved, Indexed, Reachable, NoLoops;
      ghost var live := Live(graph);
      var path := route(graph, source, destination);
      assert Routes(route, graph, source, destination);
      fid := {};
      var j := 0;
      while j < |path| - 1
        invariant 0 <= j && (path != [] ==> j < |path|)
        invariant fid == PathBits(live, path[..if path == [] then 0 else j + 1])
      {
        assert Edge(path[j], path[j + 1]) in live;
        var eid := Eid(graph, Edge(path[j], path[j + 1]));
        PathGrows(live, path, j);
        fid := fid + graph[eid].lid;
        j := j + 1;
      }
      if |path| > 0 {
        assert path[..|path|] == path;
        assert IsPath(live, path, source, destination);
        fid := fid + net.ilid[destination];
      }
    }

    /** All three tables from scratch. */
    method CalculateRVTMFIDs()
      requires GraphOk()
      modifies this`fids
      ensures Valid() && RvOk() && TmExact(net, Live(graph), fids)
    {
      hide Conserved, Indexed, Reachable, NoLoops, IsRouter, Honest, Safe;
      fids := map[];
      for v := 0 to net.nodes
        invariant forall w: Vertex :: w < v ==> w in fids && NodeOk(net, Live(graph), w, fids[w])
        invariant forall w: Vertex :: w < v ==>
          Honest(Live(graph), net.ilid, w, net.rv, fids[w].rv) && Honest(Live(graph), net.ilid, w, net.tm, fids[w].tm)
      {
        var rv := CalculateFID(v, net.rv);
        var tm := CalculateFID(v, net.tm);
        var toNode := CalculateFID(net.tm, v);
        HonestSafe(Live(graph), net.ilid, v, net.rv, rv);
        HonestSafe(Live(graph), net.ilid, v, net.tm, tm);
        fids := fids[v := Fids(toNode, rv, tm)];
      }
      forall v: Vertex | v < net.nodes && Reachable(Live(graph), net.tm, v) && Reachable(Live(graph), v, net.rv)
        ensures fids[v].rv != {}
      {
        HonestZero(Live(graph), net.ilid, v, net.rv, fids[v].rv);
      }
    }

    // Recalculate the way to a node if a freed LID is in it.
    method RecheckToNode(v: Vertex)
      requires GraphOk() && v < net.nodes && v in fids
      modifies this`fids
      ensures v in fids && fids == old(fids)[v := old(fids)[v].(toNode := fids[v].toNode)]
      ensures Rechecked(Live(graph), freed, net.ilid, net.tm, v, old(fids)[v].toNode, fids[v].toNode)
    {
      hide Conserved, Indexed, NoLoops, IsRouter, Honest, Net.Valid, NoParallel, Live;
      var es := freed.Keys;
      while es != {}
        invariant es <= freed.Keys && v in fids && fids == old(fids)[v := old(fids)[v].(toNode := fids[v].toNode)]
        invariant Partly(Live(graph), freed, es, net.ilid, net.tm, v, old(fids)[v].toNode, fids[v].toNode)
      {
        var e :| e in es;
        if freed[e] * fids[v].toNode == freed[e] {
          var fid := CalculateFID(net.tm, v);
          fids := fids[v := fids[v].(toNode := fid)];
        } else {
          assert !(freed[e] <= fids[v].toNode);
        }
        es := es - {e};
      }
    }

    // The same for the ways back.
    method RecheckWaysBack(v: Vertex)
      requires GraphOk() && v < net.nodes && v in fids
      modifies this`fids
      ensures v in fids && fids == old(fids)[v := fids[v]] && fids[v].toNode == old(fids)[v].toNode
      ensures Rechecked(Live(graph), freed, net.ilid, v, net.rv, old(fids)[v].rv, fids[v].rv)
      ensures Rechecked(Live(graph), freed, net.ilid, v, net.tm, old(fids)[v].tm, fids[v].tm)
    {
      hide Conserved, Indexed, NoLoops, IsRouter, Honest, NoParallel, Live;
      var es := freed.Keys;
      while es != {}
        invariant es <= freed.Keys && v in fids && fids == old(fids)[v := fids[v]] && fids[v].toNode == old(fids)[v].toNode
        invariant Partly(Live(graph), freed, es, net.ilid, v, net.rv, old(fids)[v].rv, fids[v].rv)
        invariant Partly(Live(graph), freed, es, net.ilid, v, net.tm, old(fids)[v].tm, fids[v].tm)
      {
        var e :| e in es;
        RecheckRv(v, e, es, old(fids)[v].rv);
        RecheckTm(v, e, es, old(fids)[v].tm);
        es := es - {e};
      }
    }

    method RecheckRv(v: Vertex, e: Edge, ghost es: set<Edge>, ghost was: Bits)
      requires GraphOk() && v < net.nodes && v in fids && e in es && es <= freed.Keys
      requires Partly(Live(graph), freed, es, net.ilid, v, net.rv, was, fids[v].rv)
      modifies this`fids
      ensures v in fids && fids == old(fids)[v := old(fids)[v].(rv := fids[v].rv)]
      ensures Partly(Live(graph), freed, es - {e}, net.ilid, v, net.rv, was, fids[v].rv)
    {
      hide Conserved, Indexed, NoLoops, IsRouter, Honest, NoParallel, Live;
      if freed[e] * fids[v].rv == freed[e] {
        var fid := CalculateFID(v, net.rv);
        fids := fids[v := fids[v].(rv := fid)];
      } else {
        assert !(freed[e] <= fids[v].rv);
      }
    }

    method RecheckTm(v: Vertex, e: Edge, ghost es: set<Edge>, ghost was: Bits)
      requires GraphOk() && v < net.nodes && v in fids && e in es && es <= freed.Keys
      requires Partly(Live(graph), freed, es, net.ilid, v, net.tm, was, fids[v].tm)
      modifies this`fids
      ensures v in fids && fids == old(fids)[v := old(fids)[v].(tm := fids[v].tm)]
      ensures Partly(Live(graph), freed, es - {e}, net.ilid, v, net.tm, was, fids[v].tm)
    {
      hide Conserved, Indexed, NoLoops, IsRouter, Honest, NoParallel, Live;
      if freed[e] * fids[v].tm == freed[e] {
        var fid := CalculateFID(v, net.tm);
        fids := fids[v := fids[v].(tm := fid)];
      } else {
        assert !(freed[e] <= fids[v].tm);
      }
    }

    method RefreshNode(v: Vertex)
      requires GraphOk() && v < net.nodes && v in fids
      modifies this`fids
      ensures v in fids && fids == old(fids)[v := fids[v]]
      ensures AfterRemoval(net, Live(graph), freed, v, old(fids)[v], fids[v])
    {
      hide Conserved, Indexed, NoLoops, IsRouter, Honest, NoParallel, Live, Rechecked, Net.Valid;
      RecheckToNode(v);
      if fids[v].toNode != {} {
        RecheckWaysBack(v);
      } else {
        // isolated
        fids := fids[v := fids[v].(rv := {}, tm := {})];
      }
    }

    method RefreshAll()
      requires GraphOk() && forall v: Vertex :: v < net.nodes ==> v in fids
      modifies this`fids
      ensures AllRemoved(net, Live(graph), freed, old(fids), fids)
    {
      hide Conserved, Indexed, NoLoops, IsRouter, NoParallel, Live, Net.Valid, AfterRemoval;
      for v := 0 to net.nodes
        invariant forall w: Vertex :: w < net.nodes ==> w in fids
        invariant forall w: Vertex :: w < v ==> AfterRemoval(net, Live(graph), freed, w, old(fids)[w], fids[w])
        invariant forall w: Vertex :: v <= w < net.nodes ==> fids[w] == old(fids)[w]
      {
        RefreshNode(v);
      }
    }

    method ReconnectNode(v: Vertex)
      requires GraphOk() && v < net.nodes && v in fids
      modifies this`fids
      ensures v in fids && fids == old(fids)[v := fids[v]]
      ensures AfterRestoration(net, Live(graph), v, old(fids)[v], fids[v])
    {
      hide Conserved, Indexed, NoLoops, IsRouter, Honest, NoParallel, Live, Reachable;
      if fids[v].toNode == {} {
        var toNode := CalculateFID(net.tm, v);
        HonestZero(Live(graph), net.ilid, net.tm, v, toNode);
        if toNode != {} {
          fids := fids[v := fids[v].(toNode := toNode)];
          var rv := CalculateFID(v, net.rv);
          fids := fids[v := fids[v].(rv := rv)];
          var tm := CalculateFID(v, net.tm);
          fids := fids[v := fids[v].(tm := tm)];
        }
      }
    }

    method ReconnectAll()
      requires GraphOk() && forall v: Vertex :: v < net.nodes ==> v in fids
      modifies this`fids
      ensures AllRestored(net, Live(graph), old(fids), fids)
    {
      hide Conserved, Indexed, NoLoops, IsRouter, NoParallel, Live, Net.Valid, AfterRestoration;
      for v := 0 to net.nodes
        invariant forall w: Vertex :: w < net.nodes ==> w in fids
        invariant forall w: Vertex :: w < v ==> AfterRestoration(net, Live(graph), w, old(fids)[w], fids[w])
        invariant forall w: Vertex :: v <= w < net.nodes ==> fids[w] == old(fids)[w]
      {
        ReconnectNode(v);
      }
    }

    lemma FreedNoneEmpty()
      requires GraphOk() && NoneEmpty(all)
      ensures NoneEmpty(freed)
    {
      hide Indexed, NoLoops, IsRouter, NoParallel, Live, Net.Valid;
    }

    lemma HasTables()
      requires Valid()
      ensures forall v: Vertex :: v < net.nodes ==> v in fids
      ensures net.tm in fids && net.Valid() && Conserved(all, Live(graph), freed)
    {}

    /** One notification, whoever sent it. TM-to-node stays exact and the other two tables are never
        stale. On a symmetric topology TMFID stays exact too, and RVFID stays complete except when
        the event brings the RV back to the TM. */
    method HandleLinkState(affected: Vertex, publisher: Vertex, bidirectional: bool, remove: bool)
      requires Valid() && (bidirectional && remove && Edge(affected, publisher) in Live(graph) ==> Edge(publisher, affected) in Live(graph))
      modifies this
      ensures Valid()
      ensures var (updated, live, gone) := Updated(old(Live(graph)), old(freed), affected, publisher, bidirectional, remove);
        Live(graph) == live && freed == gone && (!updated ==> graph == old(graph) && fids == old(fids))
      ensures old(Balanced()) && bidirectional ==> Balanced()
      ensures old(RvOk()) && remove ==> RvOk()
      ensures old(RvOk()) && old(Balanced()) && !remove ==>
        (RvOk() <==> (Reachable(Live(graph), net.tm, net.rv) ==> Reachable(old(Live(graph)), net.tm, net.rv)))
      ensures net.tm in old(fids) && net.tm in fids
      ensures NoneEmpty(all) && old(fids)[net.tm].rv == {} ==> fids[net.tm].rv == {}
    {
      hide Conserved, Indexed, NoLoops, IsRouter, NoParallel, Live, Reachable, Symmetric, Net.Valid, Updated,
           TablesOk, TmExact, RvComplete, AllRemoved, AllRestored, Shrunk, Sub, NoneEmpty;
      ghost var before, was, old_ := Live(graph), fids, freed;
      HasTables();
      UpdateConserves(all, before, old_, affected, publisher, bidirectional, remove);
      UpdateSymmetric(before, old_, affected, publisher, bidirectional, remove);
      var updated := UpdateGraph(affected, publisher, bidirectional, remove);
      if updated && remove {
        RefreshAll();
        RemovalKeeps(before, was);
        if NoneEmpty(all) { FreedNoneEmpty(); ZeroStaysAfterRemoval(net, Live(graph), freed, was, fids); }
      } else if updated {
        ReconnectAll();
        RestorationKeeps(before, was);
        ZeroStaysAfterRestoration(net, before, Live(graph), was, fids);
      } else {
        UnchangedUpdate(before, old_, affected, publisher, bidirectional, remove);
      }
      HasTables();
    }

    lemma RemovalKeeps(before: Lids, was: map<Vertex, Fids>)
      requires GraphOk() && Shrunk(before, Live(graph), freed) && TablesOk(net, before, was)
      requires AllRemoved(net, Live(graph), freed, was, fids)
      ensures TablesOk(net, Live(graph), fids)
      ensures TmExact(net, before, was) && Symmetric(Live(graph)) ==> TmExact(net, Live(graph), fids)
      ensures RvComplete(net, before, was) ==> RvComplete(net, Live(graph), fids)
    {
      hide Conserved, Indexed, NoLoops, IsRouter, NoParallel, Live, Symmetric, Net.Valid, TablesOk, TmExact, RvComplete, AllRemoved, Shrunk;
      RemovalKeepsTables(net, before, Live(graph), freed, was, fids);
      if TmExact(net, before, was) && Symmetric(Live(graph)) { RemovalKeepsTm(net, before, Live(graph), freed, was, fids); }
      if RvComplete(net, before, was) { RemovalKeepsRv(net, before, Live(graph), freed, was, fids); }
    }

    lemma RestorationKeeps(before: Lids, was: map<Vertex, Fids>)
      requires GraphOk() && Sub(before, Live(graph)) && TablesOk(net, before, was)
      requires AllRestored(net, Live(graph), was, fids)
      ensures TablesOk(net, Live(graph), fids)
      ensures TmExact(net, before, was) && Symmetric(before) && Symmetric(Live(graph)) ==> TmExact(net, Live(graph), fids)
      ensures RvComplete(net, before, was) && Symmetric(before) ==>
        (RvComplete(net, Live(graph), fids) <==> (Reachable(Live(graph), net.tm, net.rv) ==> Reachable(before, net.tm, net.rv)))
    {
      hide Conserved, Indexed, NoLoops, IsRouter, NoParallel, Live, Symmetric, Net.Valid, TablesOk, TmExact, RvComplete, AllRestored, Sub, Reachable;
      RestorationKeepsTables(net, before, Live(graph), was, fids);
      if TmExact(net, before, was) && Symmetric(before) && Symmetric(Live(graph)) { RestorationKeepsTm(net, before, Live(graph), was, fids); }
      if RvComplete(net, before, was) && Symmetric(before) { RestorationKeepsRvIff(net, before, Live(graph), was, fids); }
    }

    /** Any run of bidirectional events on a symmetric topology: the links are what the events make
        of them and the tables keep their guarantees. RVFID is complete at the end if the TM reached
        the RV all along, and, unless some LID is zero, exactly if it did or does not now. */
    method Run(events: seq<Event>)
      requires Valid() && Balanced() && RvOk()
      modifies this
      ensures Valid() && Balanced()
      ensures (Live(graph), freed) == LinksAfter(old(Live(graph)), old(freed), events)
      ensures Symmetric(all) ==> forall e :: e in all ==> EndsAs(e in old(Live(graph)), events, e, e in Live(graph))
      ensures Steady(net, old(Live(graph)), old(freed), events, |events|) ==> RvOk()
      ensures NoneEmpty(all) ==>
        (RvOk() <==> Steady(net, old(Live(graph)), old(freed), events, |events|) || !Reachable(Live(graph), net.tm, net.rv))
    {
      hide Conserved, Indexed, NoLoops, IsRouter, NoParallel, Live, Reachable, Net.Valid, Updated, TablesOk, TmExact, RvComplete,
           Steady, NoneEmpty, LinksAfter, EndsAs;
      ghost var l, f := Live(graph), freed;
      AllDecided(events);
      SteadyStart(net, l, f, events);
      OwnEntry();
      for i := 0 to |events|
        invariant Valid() && Balanced() && (Live(graph), freed) == LinksAfter(l, f, events[..i])
        invariant Steady(net, l, f, events, i) ==> RvOk()
        invariant net.tm in fids && (NoneEmpty(all) && fids[net.tm].rv != {} ==> Steady(net, l, f, events, i))
      {
        var e := events[i];
        assert Flip(Edge(e.affected, e.publisher)) == Edge(e.publisher, e.affected);
        LinksStep(l, f, events, i);
        SteadyStep(net, l, f, events, i);
        HandleLinkState(e.affected, e.publisher, true, e.remove);
        OwnEntry();
      }
      assert events[..|events|] == events;
      OwnEntry();
    }

    lemma AllDecided(events: seq<Event>)
      requires Valid() && Balanced()
      ensures Symmetric(all) ==> forall e :: e in all ==> EndsAs(e in Live(graph), events, e, e in LinksAfter(Live(graph), freed, events).0)
    {
      hide Conserved, Indexed, NoLoops, IsRouter, NoParallel, Live, Symmetric, Net.Valid, TablesOk, TmExact, EndsAs, LinksAfter;
      if Symmetric(all) {
        forall e | e in all
          ensures EndsAs(e in Live(graph), events, e, e in LinksAfter(Live(graph), freed, events).0)
        {
          LastEventDecides(all, Live(graph), freed, events, e);
        }
      }
    }

    lemma OwnEntry()
      requires Valid()
      ensures net.tm in fids && (fids[net.tm].rv != {} ==> Reachable(Live(graph), net.tm, net.rv))
      ensures RvOk() && Reachable(Live(graph), net.tm, net.rv) ==> fids[net.tm].rv != {}
      ensures !Reachable(Live(graph), net.tm, net.rv) ==> RvOk()
    {
      hide Conserved, Indexed, NoLoops, IsRouter, NoParallel, Live, Reachable, Net.Valid, TablesOk, RvComplete;
      OwnRvFid(net, Live(graph), fids);
    }

    constructor (net: Net, route: Router, topology: seq<Link>)
      requires net.Valid() && IsRouter(route) && NoParallel(topology) && NoLoops(Live(topology))
      ensures Valid() && RvOk() && TmExact(net, Live(graph), fids) && this.net == net && graph == topology && freed == map[]
    {
      hide IsRouter, NoParallel, NoLoops, Net.Valid, Indexed, TablesOk, RvComplete, TmExact, Live;
      this.net, this.route, all := net, route, Live(topology);
      graph, freed, fids := topology, map[], map[];
      new;
      UpdateTMStates();
      CalculateRVTMFIDs();
    }
  }

  /** Two nodes and one link between TM and RV: after it failed and came back, the TM's own RVFID is
      still zero although the RV is reachable again. */
  lemma ReturningRvIsMissed()
    ensures var net, live, was := TwoNodes(), OneLink(), CutApart();
      exists now :: AllRestored(net, live, was, now) && TablesOk(net, map[], was) && RvComplete(net, map[], was)
        && Reachable(live, net.tm, net.rv) && !RvComplete(net, live, now)
  {
    hide AllRestored, TablesOk, RvComplete, Reachable;
    var net, live, was := TwoNodes(), OneLink(), CutApart();
    var now := map[0 := Fids({10}, {}, {10}), 1 := Fids({0, 11}, {11}, {1, 10})];
    BeforeRecovery();
    AfterRecovery(now);
    LinkCode(live, net.ilid, 0, 1);
    NoLinksNoPaths(0, 1);
    assert Sub(map[], live) && net.Valid();
    RvStaysZero(net, map[], live, was, now);
  }

  function TwoNodes(): Net { Net(2, 0, 1, map[0 := {10}, 1 := {11}]) }
  function OneLink(): Lids { map[Edge(0, 1) := {0}, Edge(1, 0) := {1}] }

  // The tables after the removal of that link.
  function CutApart(): map<Vertex, Fids> { map[0 := Fids({10}, {}, {10}), 1 := Fids({}, {}, {})] }

  lemma BeforeRecovery()
    ensures TablesOk(TwoNodes(), map[], CutApart()) && RvComplete(TwoNodes(), map[], CutApart())
  {
    hide Honest, Reachable;
    var net, none: Lids, was := TwoNodes(), map[], CutApart();
    NoLinksNoPaths(0, 1);
    NoLinksNoPaths(1, 0);
    SelfCode(none, net.ilid, 0);
    ZeroHonest(none, net.ilid, 0, 1);
    assert NodeOk(net, none, 0, was[0]) by { HonestSafe(none, net.ilid, 0, 0, {10}); }
    assert NodeOk(net, none, 1, was[1]);
  }

  lemma ZeroHonest(live: Lids, ilid: map<Vertex, Bits>, u: Vertex, v: Vertex)
    requires !Reachable(live, u, v)
    ensures Honest(live, ilid, u, v, {})
  {
    hide Reachable;
  }

  lemma AfterRecovery(now: map<Vertex, Fids>)
    requires now == map[0 := Fids({10}, {}, {10}), 1 := Fids({0, 11}, {11}, {1, 10})]
    ensures AllRestored(TwoNodes(), OneLink(), CutApart(), now)
  {
    hide Honest, Reachable;
    var net, live, was := TwoNodes(), OneLink(), CutApart();
    SelfCode(live, net.ilid, 1);
    LinkCode(live, net.ilid, 0, 1);
    LinkCode(live, net.ilid, 1, 0);
    assert {0} + {11} == {0, 11} && {1} + {10} == {1, 10};
    assert AfterRestoration(net, live, 0, was[0], now[0]);
    assert AfterRestoration(net, live, 1, was[1], now[1]);
  }

  lemma NoLinksNoPaths(u: Vertex, v: Vertex)
    requires u != v
    ensures !Reachable(map[], u, v)
  {
    var none: Lids := map[];
    assert forall p :: IsPath(none, p, u, v) ==> |p| > 1 && Edge(p[0], p[0 + 1]) in none;
  }

  lemma SelfCode(live: Lids, ilid: map<Vertex, Bits>, v: Vertex)
    requires v in ilid
    ensures Honest(live, ilid, v, v, ilid[v]) && Reachable(live, v, v)
  {
    assert IsPath(live, [v], v, v) && PathBits(live, [v]) + ilid[v] == ilid[v];
  }

  lemma LinkCode(live: Lids, ilid: map<Vertex, Bits>, u: Vertex, v: Vertex)
    requires Edge(u, v) in live && v in ilid
    ensures Honest(live, ilid, u, v, live[Edge(u, v)] + ilid[v]) && Reachable(live, u, v)
  {
    var p := [u, v];
    assert IsPath(live, p, u, v);
    assert p[..1] == [u];
    assert PathBits(live, p) == PathBits(live, [u]) + live[Edge(u, v)] == live[Edge(u, v)];
  }
}
