/** How the topology manager assigns subscribers to publishers and composes one forwarding
    identifier per publisher: `calculateFID` over publisher and subscriber sets and
    `UcalculateFID` of TopologyManager/tm_igraph.cpp. */
module Multicast {
  import opened TopologyGraph

  const UINT_MAX := 0xFFFF_FFFF

  datatype Option<T> = None | Some(value: T)

  datatype World = World(graph: seq<Link>, route: Router, ilid: map<Vertex, Bits>) {
    ghost predicate Valid() {
      && NoParallel(graph) && IsRouter(route)
      && forall u, v :: |route(graph, u, v)| < UINT_MAX
    }

    function Path(u: Vertex, v: Vertex): seq<Vertex> {
      route(graph, u, v)
    }

    // Vertices on the shortest path; the largest number if there is none.
    function Hops(u: Vertex, v: Vertex): nat {
      if Path(u, v) == [] then UINT_MAX else |Path(u, v)|
    }

    // The LIDs of the path and the internal LID of its last node.
    function Code(u: Vertex, v: Vertex): Bits {
      PathBits(Live(graph), Path(u, v)) + if v in ilid then ilid[v] else {}
    }
  }

  lemma HopsFound(w: World, u: Vertex, v: Vertex)
    requires w.Valid()
    ensures w.Hops(u, v) < UINT_MAX <==> Reachable(Live(w.graph), u, v)
    ensures w.Hops(u, v) <= UINT_MAX
  {
    assert Routes(w.route, w.graph, u, v);
    assert |w.route(w.graph, u, v)| < UINT_MAX;
  }

  // The edge index agrees with the graph, as updateTMStates leaves it.
  ghost predicate EdgesIndexed(g: seq<Link>, edgeLid: map<nat, Bits>) {
    forall i: nat :: i < |g| ==> i in edgeLid && edgeLid[i] == g[i].lid
  }

  /** The pairwise `calculateFID`: the code of the shortest path and its hop count. */
  method CalculateFID(w: World, edgeLid: map<nat, Bits>, source: Vertex, destination: Vertex) returns (fid: Bits, hops: nat)
    requires w.Valid() && EdgesIndexed(w.graph, edgeLid) && destination in w.ilid
    ensures fid == w.Code(source, destination) && hops == w.Hops(source, destination)
  {
    hide Reachable, Live;
    ghost var live := Live(w.graph);
    var path := w.route(w.graph, source, destination);
    assert Routes(w.route, w.graph, source, destination);
    fid := {};
    var j := 0;
    while j < |path| - 1
      invariant 0 <= j && (path != [] ==> j < |path|)
      invariant fid == PathBits(live, path[..if path == [] then 0 else j + 1])
    {
      assert Edge(path[j], path[j + 1]) in live;
      var eid := Eid(w.graph, Edge(path[j], path[j + 1]));
      PathGrows(live, path, j);
      fid := fid + edgeLid[eid];
      j := j + 1;
    }
    assert path != [] ==> path[..|path|] == path;
    hops := |path|;
    if hops == 0 {
      hops := UINT_MAX;
    }
    fid := fid + w.ilid[destination];
  }

  // ------------------------------------------------------------------
  // The publisher a subscriber is assigned to

  function MinHops(w: World, best: Option<Vertex>, t: Vertex): nat {
    if best.None? then UINT_MAX else w.Hops(best.value, t)
  }

  // The first publisher with strictly fewer hops than all before it.
  function Best(w: World, pubs: seq<Vertex>, t: Vertex): Option<Vertex> {
    if pubs == [] then None
    else
      var before := Best(w, pubs[..|pubs| - 1], t);
      if MinHops(w, before, t) > w.Hops(pubs[|pubs| - 1], t) then Some(pubs[|pubs| - 1]) else before
  }

  /** A publisher at minimum hop count, unless no publisher reaches the subscriber. */
  lemma {:induction false} BestIsNearest(w: World, pubs: seq<Vertex>, t: Vertex)
    requires w.Valid()
    ensures forall s :: s in pubs ==> MinHops(w, Best(w, pubs, t), t) <= w.Hops(s, t)
    ensures var b := Best(w, pubs, t);
      if exists s :: s in pubs && Reachable(Live(w.graph), s, t)
      then b.Some? && b.value in pubs && Reachable(Live(w.graph), b.value, t)
      else b == None
  {
    hide Reachable;
    if pubs != [] {
      var h, last := pubs[..|pubs| - 1], pubs[|pubs| - 1];
      assert pubs == h + [last];
      BestIsNearest(w, h, t);
      HopsFound(w, last, t);
      forall s | s in pubs
        ensures w.Hops(s, t) < UINT_MAX <==> Reachable(Live(w.graph), s, t)
      {
        HopsFound(w, s, t);
      }
    }
  }

  /** Of several at minimum hop count the first in the list. */
  lemma {:induction false} BestIsFirst(w: World, pubs: seq<Vertex>, t: Vertex)
    ensures var b := Best(w, pubs, t);
      b.Some? ==> exists i :: 0 <= i < |pubs| && pubs[i] == b.value && forall j :: 0 <= j < i ==> w.Hops(pubs[j], t) > w.Hops(pubs[i], t)
  {
    hide World.Hops;
    if pubs != [] && Best(w, pubs, t).Some? {
      var h, last := pubs[..|pubs| - 1], pubs[|pubs| - 1];
      BestIsFirst(w, h, t);
      if Best(w, pubs, t) == Best(w, h, t) {
        var i :| 0 <= i < |h| && h[i] == Best(w, h, t).value && forall j :: 0 <= j < i ==> w.Hops(h[j], t) > w.Hops(h[i], t);
        assert pubs[i] == h[i] && forall j :: 0 <= j < i ==> pubs[j] == h[j];
      } else {
        BestBound(w, h, t);
        var n := |h|;
        assert pubs[n] == last && forall j :: 0 <= j < n ==> pubs[j] == h[j];
        assert forall j :: 0 <= j < n ==> w.Hops(pubs[j], t) > w.Hops(pubs[n], t);
      }
    }
  }

  lemma {:induction false} BestBound(w: World, pubs: seq<Vertex>, t: Vertex)
    ensures forall j :: 0 <= j < |pubs| ==> MinHops(w, Best(w, pubs, t), t) <= w.Hops(pubs[j], t)
  {
    hide World.Hops;
    if pubs != [] {
      var h := pubs[..|pubs| - 1];
      BestBound(w, h, t);
      assert forall j :: 0 <= j < |h| ==> pubs[j] == h[j];
    }
  }

  /** The hop count is the length of the shortest path, and the largest number without one. */
  lemma HopsShortest(w: World, u: Vertex, v: Vertex)
    requires w.Valid()
    ensures forall p :: IsPath(Live(w.graph), p, u, v) ==> w.Hops(u, v) <= |p|
    ensures if Reachable(Live(w.graph), u, v) then exists p :: IsPath(Live(w.graph), p, u, v) && |p| == w.Hops(u, v) else w.Hops(u, v) == UINT_MAX
  {
    assert Routes(w.route, w.graph, u, v);
    forall p | IsPath(Live(w.graph), p, u, v)
      ensures Reachable(Live(w.graph), u, v)
    {}
    if Reachable(Live(w.graph), u, v) { assert IsPath(Live(w.graph), w.Path(u, v), u, v) && |w.Path(u, v)| == w.Hops(u, v); }
  }

  // ------------------------------------------------------------------
  // Composing the publishers' identifiers

  // The last choice made; it outlives the subscriber it was made for.
  datatype Choice = Choice(publisher: Vertex, fid: Bits)
  datatype Tally = Tally(result: map<Vertex, Option<Bits>>, last: Option<Choice>)

  function Put(result: map<Vertex, Option<Bits>>, s: Vertex, fid: Bits, found: bool): map<Vertex, Option<Bits>> {
    if s !in result || result[s].None? || !found then result[s := Some(fid)] else result[s := Some(result[s].value + fid)]
  }

  function Serve(w: World, pubs: seq<Vertex>, t: Vertex, tally: Tally): Tally {
    match Best(w, pubs, t)
    case Some(s) => Tally(Put(tally.result, s, w.Code(s, t), true), Some(Choice(s, w.Code(s, t))))
    case None => if tally.last.None? then tally
                 else Tally(Put(tally.result, tally.last.value.publisher, tally.last.value.fid, false), tally.last)
  }

  function ServeAll(w: World, pubs: seq<Vertex>, subs: seq<Vertex>): Tally {
    if subs == [] then Tally(map s | s in pubs :: None, None)
    else Serve(w, pubs, subs[|subs| - 1], ServeAll(w, pubs, subs[..|subs| - 1]))
  }

  // The subscribers assigned to s.
  function Assigned(w: World, pubs: seq<Vertex>, subs: seq<Vertex>, s: Vertex): set<Vertex> {
    set t | t in subs && Best(w, pubs, t) == Some(s)
  }

  // fid is the or of the codes from s to all of ts.
  ghost predicate IsOr(w: World, s: Vertex, ts: set<Vertex>, fid: Bits) {
    forall b :: b in fid <==> exists t :: t in ts && b in w.Code(s, t)
  }

  // Each publisher's entry is exactly the or over its subscribers, nothing if it has none.
  ghost predicate Composed(w: World, pubs: seq<Vertex>, subs: seq<Vertex>, result: map<Vertex, Option<Bits>>) {
    && (forall s :: s in result <==> s in pubs)
    && forall s :: s in result ==> EntryOk(w, pubs, subs, s, result[s])
  }

  ghost predicate EntryOk(w: World, pubs: seq<Vertex>, subs: seq<Vertex>, s: Vertex, entry: Option<Bits>) {
    var ts := Assigned(w, pubs, subs, s);
    if ts == {} then entry == None else entry.Some? && IsOr(w, s, ts, entry.value)
  }

  ghost predicate Reached(w: World, pubs: seq<Vertex>, t: Vertex) {
    exists s :: s in pubs && Reachable(Live(w.graph), s, t)
  }

  lemma AssignedGrows(w: World, pubs: seq<Vertex>, subs: seq<Vertex>, s: Vertex)
    requires subs != []
    ensures var h, t := subs[..|subs| - 1], subs[|subs| - 1];
      Assigned(w, pubs, subs, s) == if Best(w, pubs, t) == Some(s) then Assigned(w, pubs, h, s) + {t} else Assigned(w, pubs, h, s)
  {
    assert subs == subs[..|subs| - 1] + [subs[|subs| - 1]];
  }

  lemma OrGrows(w: World, s: Vertex, ts: set<Vertex>, fid: Bits, t: Vertex)
    requires IsOr(w, s, ts, fid)
    ensures IsOr(w, s, ts + {t}, fid + w.Code(s, t)) && IsOr(w, s, {t}, w.Code(s, t))
  {}

  /** One more subscriber that a publisher reaches. */
  lemma ServeComposes(w: World, pubs: seq<Vertex>, subs: seq<Vertex>, tally: Tally)
    requires w.Valid() && subs != [] && Reached(w, pubs, subs[|subs| - 1])
    requires Composed(w, pubs, subs[..|subs| - 1], tally.result)
    ensures Composed(w, pubs, subs, Serve(w, pubs, subs[|subs| - 1], tally).result)
  {
    hide World.Valid, Reachable, Best, IsOr, World.Code;
    var h, t := subs[..|subs| - 1], subs[|subs| - 1];
    BestIsNearest(w, pubs, t);
    var b := Best(w, pubs, t).value;
    var result := Serve(w, pubs, t, tally).result;
    assert b in tally.result;
    forall s | s in result
      ensures EntryOk(w, pubs, subs, s, result[s])
    {
      AssignedGrows(w, pubs, subs, s);
      assert EntryOk(w, pubs, h, s, tally.result[s]);
      if s == b {
        assert t in Assigned(w, pubs, subs, s);
        var ts := Assigned(w, pubs, h, s);
        if ts == {} {
          NoneOr(w, s);
          OrGrows(w, s, {}, {}, t);
          assert ts + {t} == {t};
        } else {
          OrGrows(w, s, ts, tally.result[s].value, t);
        }
      }
    }
  }

  lemma NoneOr(w: World, s: Vertex)
    ensures IsOr(w, s, {}, {})
  {}

  /** When every subscriber is reached by some publisher, each publisher's identifier is exactly
      the or of the codes to the subscribers nearest to it. */
  lemma {:induction false} AllServed(w: World, pubs: seq<Vertex>, subs: seq<Vertex>)
    requires w.Valid() && forall t :: t in subs ==> Reached(w, pubs, t)
    ensures Composed(w, pubs, subs, ServeAll(w, pubs, subs).result)
  {
    hide World.Valid, Reached, Serve;
    if subs != [] {
      AllServed(w, pubs, subs[..|subs| - 1]);
      ServeComposes(w, pubs, subs, ServeAll(w, pubs, subs[..|subs| - 1]));
    }
  }

  // ------------------------------------------------------------------
  // Subscribers that no publisher reaches

  // The last subscriber of the list that some publisher reaches.
  function LastReached(w: World, pubs: seq<Vertex>, subs: seq<Vertex>): Option<Vertex> {
    if subs == [] then None
    else if Best(w, pubs, subs[|subs| - 1]).Some? then Some(subs[|subs| - 1])
    else LastReached(w, pubs, subs[..|subs| - 1])
  }

  // The subscribers of s whose codes are still in its entry: an unreached subscriber wipes out all of
  // its publisher's but the one reached last.
  function Survivors(w: World, pubs: seq<Vertex>, subs: seq<Vertex>, s: Vertex): set<Vertex> {
    if subs == [] then {}
    else
      var h, t := subs[..|subs| - 1], subs[|subs| - 1];
      var last := LastReached(w, pubs, h);
      if Best(w, pubs, t) == Some(s) then Survivors(w, pubs, h, s) + {t}
      else if Best(w, pubs, t) == None && last.Some? && Best(w, pubs, last.value) == Some(s) then {last.value}
      else Survivors(w, pubs, h, s)
  }

  lemma {:induction false} LastIsReached(w: World, pubs: seq<Vertex>, subs: seq<Vertex>)
    ensures var u := LastReached(w, pubs, subs); u.Some? ==> u.value in subs && Best(w, pubs, u.value).Some?
  {
    if subs != [] { LastIsReached(w, pubs, subs[..|subs| - 1]); }
  }

  lemma {:induction false} SurvivorsAssigned(w: World, pubs: seq<Vertex>, subs: seq<Vertex>, s: Vertex)
    ensures Survivors(w, pubs, subs, s) <= Assigned(w, pubs, subs, s)
    ensures Survivors(w, pubs, subs, s) == {} <==> Assigned(w, pubs, subs, s) == {}
  {
    hide Best;
    if subs != [] {
      var h, t := subs[..|subs| - 1], subs[|subs| - 1];
      SurvivorsAssigned(w, pubs, h, s);
      AssignedGrows(w, pubs, subs, s);
      LastIsReached(w, pubs, h);
      if Best(w, pubs, t) == Some(s) { assert t in Survivors(w, pubs, subs, s); }
      var last := LastReached(w, pubs, h);
      if last.Some? && Best(w, pubs, last.value) == Some(s) { assert last.value in Assigned(w, pubs, h, s); }
    }
  }

  ghost predicate Survives(w: World, pubs: seq<Vertex>, subs: seq<Vertex>, s: Vertex, entry: Option<Bits>) {
    var ts := Survivors(w, pubs, subs, s);
    if ts == {} then entry == None else entry.Some? && IsOr(w, s, ts, entry.value)
  }

  /** For every list of subscribers, reached or not, each entry is exactly the or over the survivors,
      and the choice carried along is the code for the subscriber reached last. */
  lemma {:induction false} EntriesSurvive(w: World, pubs: seq<Vertex>, subs: seq<Vertex>)
    requires w.Valid()
    ensures var tally := ServeAll(w, pubs, subs);
      && (forall s :: s in tally.result <==> s in pubs)
      && (forall s :: s in pubs ==> Survives(w, pubs, subs, s, tally.result[s]))
      && Carried(w, pubs, subs, tally.last)
  {
    hide World.Valid, Best, World.Code, Survives, Carried;
    if subs == [] {
      NothingServed(w, pubs);
    } else {
      var h, t := subs[..|subs| - 1], subs[|subs| - 1];
      EntriesSurvive(w, pubs, h);
      BestIsNearest(w, pubs, t);
      var tally := ServeAll(w, pubs, h);
      CarriedParts(w, pubs, h, tally.last);
      forall s | s in pubs
        ensures Survives(w, pubs, subs, s, ServeAll(w, pubs, subs).result[s])
      {
        OneSurvives(w, pubs, subs, s, tally);
      }
      CarriedOn(w, pubs, subs, tally);
    }
  }

  // The last choice belongs to the subscriber reached last.
  ghost predicate Carried(w: World, pubs: seq<Vertex>, subs: seq<Vertex>, last: Option<Choice>) {
    var u := LastReached(w, pubs, subs);
    if u.None? then last == None
    else var b := Best(w, pubs, u.value);
      b.Some? && b.value in pubs && last == Some(Choice(b.value, w.Code(b.value, u.value)))
  }

  lemma NothingServed(w: World, pubs: seq<Vertex>)
    ensures forall s :: s in pubs ==> Survives(w, pubs, [], s, None)
    ensures Carried(w, pubs, [], None)
  {}

  lemma CarriedParts(w: World, pubs: seq<Vertex>, subs: seq<Vertex>, last: Option<Choice>)
    requires Carried(w, pubs, subs, last)
    ensures last.Some? ==> last.value.publisher in pubs
  {}

  lemma CarriedOn(w: World, pubs: seq<Vertex>, subs: seq<Vertex>, tally: Tally)
    requires w.Valid() && subs != [] && Carried(w, pubs, subs[..|subs| - 1], tally.last)
    ensures Carried(w, pubs, subs, Serve(w, pubs, subs[|subs| - 1], tally).last)
  {
    hide World.Valid, Best, World.Code;
    BestIsNearest(w, pubs, subs[|subs| - 1]);
  }

  lemma OneSurvives(w: World, pubs: seq<Vertex>, subs: seq<Vertex>, s: Vertex, tally: Tally)
    requires w.Valid() && subs != [] && s in pubs && s in tally.result
    requires Survives(w, pubs, subs[..|subs| - 1], s, tally.result[s]) && Carried(w, pubs, subs[..|subs| - 1], tally.last)
    ensures s in Serve(w, pubs, subs[|subs| - 1], tally).result
    ensures Survives(w, pubs, subs, s, Serve(w, pubs, subs[|subs| - 1], tally).result[s])
  {
    hide World.Valid, Best, World.Code, IsOr;
    var h, t := subs[..|subs| - 1], subs[|subs| - 1];
    var ts, b, last := Survivors(w, pubs, h, s), Best(w, pubs, t), LastReached(w, pubs, h);
    NoneOr(w, s);
    if b == Some(s) {
      assert t in Survivors(w, pubs, subs, s);
      if ts == {} {
        OrGrows(w, s, {}, {}, t);
        assert ts + {t} == {t};
      } else {
        OrGrows(w, s, ts, tally.result[s].value, t);
      }
    } else if b == None && last.Some? && Best(w, pubs, last.value) == Some(s) {
      OrGrows(w, s, {}, {}, last.value);
      assert last.value in Survivors(w, pubs, subs, s);
    }
  }

  // Every bit an assigned subscriber needs is there for a surviving one.
  ghost predicate Recovered(w: World, pubs: seq<Vertex>, subs: seq<Vertex>, s: Vertex) {
    forall u, b :: u in Assigned(w, pubs, subs, s) && b in w.Code(s, u) ==> exists v :: v in Survivors(w, pubs, subs, s) && b in w.Code(s, v)
  }

  /** For any list of subscribers the entries are right exactly when, for each publisher, the codes of
      the surviving subscribers cover those of all its subscribers. */
  lemma ComposedIff(w: World, pubs: seq<Vertex>, subs: seq<Vertex>)
    requires w.Valid()
    ensures Composed(w, pubs, subs, ServeAll(w, pubs, subs).result) <==> forall s :: s in pubs ==> Recovered(w, pubs, subs, s)
  {
    hide World.Valid, Best, World.Code, Recovered, Survives, ServeAll, EntryOk;
    EntriesSurvive(w, pubs, subs);
    var r := ServeAll(w, pubs, subs).result;
    forall s | s in pubs
      ensures EntryOk(w, pubs, subs, s, r[s]) <==> Recovered(w, pubs, subs, s)
    {
      EntryIff(w, pubs, subs, s, r[s]);
    }
  }

  lemma EntryIff(w: World, pubs: seq<Vertex>, subs: seq<Vertex>, s: Vertex, entry: Option<Bits>)
    requires Survives(w, pubs, subs, s, entry)
    ensures EntryOk(w, pubs, subs, s, entry) <==> Recovered(w, pubs, subs, s)
  {
    hide Best, World.Code, Survivors, Assigned;
    SurvivorsAssigned(w, pubs, subs, s);
    var all, left := Assigned(w, pubs, subs, s), Survivors(w, pubs, subs, s);
    if all != {} { OrIff(w, s, all, left, entry.value); }
  }

  lemma OrIff(w: World, s: Vertex, all: set<Vertex>, left: set<Vertex>, fid: Bits)
    requires left <= all && IsOr(w, s, left, fid)
    ensures IsOr(w, s, all, fid) <==> forall u, b :: u in all && b in w.Code(s, u) ==> exists v :: v in left && b in w.Code(s, v)
  {
    hide World.Code;
    if forall u, b :: u in all && b in w.Code(s, u) ==> exists v :: v in left && b in w.Code(s, v) {
      forall b
        ensures b in fid <==> exists t :: t in all && b in w.Code(s, t)
      {}
    }
    if IsOr(w, s, all, fid) {
      forall u, b | u in all && b in w.Code(s, u)
        ensures exists v :: v in left && b in w.Code(s, v)
      {
        assert b in fid;
      }
    }
  }

  ghost predicate Distinct(subs: seq<Vertex>) {
    forall i, j :: 0 <= i < j < |subs| ==> subs[i] != subs[j]
  }

  // Subscriber j is reached, the next one is not, and an earlier one has the same publisher.
  ghost predicate Wipes(w: World, pubs: seq<Vertex>, subs: seq<Vertex>, j: int) {
    && 0 < j < |subs| - 1 && Best(w, pubs, subs[j]).Some? && Best(w, pubs, subs[j + 1]).None?
    && exists k :: 0 <= k < j && Best(w, pubs, subs[k]) == Best(w, pubs, subs[j])
  }

  ghost predicate NoneWiped(w: World, pubs: seq<Vertex>, subs: seq<Vertex>) {
    forall j :: !Wipes(w, pubs, subs, j)
  }

  ghost predicate AllLeft(w: World, pubs: seq<Vertex>, subs: seq<Vertex>) {
    forall s :: Survivors(w, pubs, subs, s) == Assigned(w, pubs, subs, s)
  }

  /** Nobody is wiped out exactly when no subscriber that an unreached one follows shares its publisher
      with an earlier one. */
  lemma {:induction false} AllLeftIff(w: World, pubs: seq<Vertex>, subs: seq<Vertex>)
    requires Distinct(subs)
    ensures AllLeft(w, pubs, subs) <==> NoneWiped(w, pubs, subs)
  {
    hide Best, AllLeft, NoneWiped;
    if subs == [] {
      NothingLeft(w, pubs);
    } else {
      AllLeftIff(w, pubs, subs[..|subs| - 1]);
      if Best(w, pubs, subs[|subs| - 1]).Some? {
        ReachedAtEnd(w, pubs, subs);
      } else {
        UnreachedAtEnd(w, pubs, subs);
      }
    }
  }

  lemma NothingLeft(w: World, pubs: seq<Vertex>)
    ensures AllLeft(w, pubs, []) && NoneWiped(w, pubs, [])
  {}

  lemma ReachedAtEnd(w: World, pubs: seq<Vertex>, subs: seq<Vertex>)
    requires Distinct(subs) && subs != [] && Best(w, pubs, subs[|subs| - 1]).Some?
    ensures AllLeft(w, pubs, subs) <==> AllLeft(w, pubs, subs[..|subs| - 1])
    ensures NoneWiped(w, pubs, subs) <==> NoneWiped(w, pubs, subs[..|subs| - 1])
  {
    hide Best;
    var h, t := subs[..|subs| - 1], subs[|subs| - 1];
    forall s: Vertex
      ensures Survivors(w, pubs, subs, s) == Assigned(w, pubs, subs, s) <==> Survivors(w, pubs, h, s) == Assigned(w, pubs, h, s)
    {
      AssignedGrows(w, pubs, subs, s);
      SurvivorsAssigned(w, pubs, h, s);
      assert t !in h;
      if Best(w, pubs, t) == Some(s) {
        assert Survivors(w, pubs, h, s) == Survivors(w, pubs, subs, s) - {t};
        assert Assigned(w, pubs, h, s) == Assigned(w, pubs, subs, s) - {t};
      }
    }
    WipedBefore(w, pubs, subs);
  }

  // Only the last but one subscriber can be wiped out by the last.
  lemma WipedBefore(w: World, pubs: seq<Vertex>, subs: seq<Vertex>)
    requires subs != []
    ensures NoneWiped(w, pubs, subs) <==>
            NoneWiped(w, pubs, subs[..|subs| - 1]) && !Wipes(w, pubs, subs, |subs| - 2)
  {
    hide Best;
    var h := subs[..|subs| - 1];
    forall j | j != |subs| - 2
      ensures Wipes(w, pubs, subs, j) <==> Wipes(w, pubs, h, j)
    {
      if 0 < j < |h| - 1 { assert forall k :: 0 <= k < j ==> h[k] == subs[k]; }
    }
    assert !Wipes(w, pubs, h, |subs| - 2);
  }

  lemma UnreachedAtEnd(w: World, pubs: seq<Vertex>, subs: seq<Vertex>)
    requires Distinct(subs) && subs != [] && Best(w, pubs, subs[|subs| - 1]).None?
    ensures AllLeft(w, pubs, subs) <==> AllLeft(w, pubs, subs[..|subs| - 1]) && !Wipes(w, pubs, subs, |subs| - 2)
    ensures NoneWiped(w, pubs, subs) <==>
            NoneWiped(w, pubs, subs[..|subs| - 1]) && !Wipes(w, pubs, subs, |subs| - 2)
  {
    hide Best, AllLeft, NoneWiped, Wipes;
    WipedBefore(w, pubs, subs);
    var h := subs[..|subs| - 1];
    if h != [] && Best(w, pubs, h[|h| - 1]).Some? {
      WipesAtEnd(w, pubs, subs);
    } else {
      NothingMore(w, pubs, subs);
    }
  }

  // The second of two unreached subscribers changes nothing.
  lemma NothingMore(w: World, pubs: seq<Vertex>, subs: seq<Vertex>)
    requires subs != [] && Best(w, pubs, subs[|subs| - 1]).None?
    requires |subs| > 1 ==> Best(w, pubs, subs[|subs| - 2]).None?
    ensures AllLeft(w, pubs, subs) <==> AllLeft(w, pubs, subs[..|subs| - 1])
    ensures !Wipes(w, pubs, subs, |subs| - 2)
  {
    hide Best;
    var h := subs[..|subs| - 1];
    forall s: Vertex
      ensures Survivors(w, pubs, subs, s) == Survivors(w, pubs, h, s) && Assigned(w, pubs, subs, s) == Assigned(w, pubs, h, s)
    {
      AssignedGrows(w, pubs, subs, s);
      if h != [] { assert LastReached(w, pubs, h) == LastReached(w, pubs, h[..|h| - 1]); }
    }
  }

  lemma WipesAtEnd(w: World, pubs: seq<Vertex>, subs: seq<Vertex>)
    requires Distinct(subs) && |subs| > 1
    requires Best(w, pubs, subs[|subs| - 1]).None? && Best(w, pubs, subs[|subs| - 2]).Some?
    ensures AllLeft(w, pubs, subs) <==> AllLeft(w, pubs, subs[..|subs| - 1]) && !Wipes(w, pubs, subs, |subs| - 2)
  {
    hide Best;
    var h, last := subs[..|subs| - 1], subs[|subs| - 2];
    var p := Best(w, pubs, last).value;
    assert h[|h| - 1] == last;
    forall s: Vertex
      ensures Survivors(w, pubs, subs, s) == if s == p then {last} else Survivors(w, pubs, h, s)
      ensures Assigned(w, pubs, subs, s) == Assigned(w, pubs, h, s)
    {
      AssignedGrows(w, pubs, subs, s);
    }
    SurvivorsAssigned(w, pubs, h, p);
    AloneIff(w, pubs, subs);
  }

  lemma AloneIff(w: World, pubs: seq<Vertex>, subs: seq<Vertex>)
    requires Distinct(subs) && |subs| > 1
    requires Best(w, pubs, subs[|subs| - 1]).None? && Best(w, pubs, subs[|subs| - 2]).Some?
    ensures var last := subs[|subs| - 2];
      Assigned(w, pubs, subs[..|subs| - 1], Best(w, pubs, last).value) == {last} <==> !Wipes(w, pubs, subs, |subs| - 2)
  {
    hide Best;
    var h, j := subs[..|subs| - 1], |subs| - 2;
    var last := subs[j];
    var p := Best(w, pubs, last).value;
    assert h[j] == last;
    assert last in Assigned(w, pubs, h, p);
    if k :| 0 <= k < j && Best(w, pubs, subs[k]) == Best(w, pubs, last) {
      assert h[k] in Assigned(w, pubs, h, p) && h[k] != last;
    } else {
      forall u | u in Assigned(w, pubs, h, p)
        ensures u == last
      {
        var k :| 0 <= k < |h| && h[k] == u;
      }
    }
  }

  /** One unreached subscriber at the end of a list of reached ones: the entries stay right exactly
      when every code of the last subscriber's publisher is contained in the last one. */
  lemma UnreachedKeepsIff(w: World, pubs: seq<Vertex>, h: seq<Vertex>, t: Vertex)
    requires w.Valid() && h != [] && (forall u :: u in h ==> Reached(w, pubs, u)) && !Reached(w, pubs, t)
    ensures var last := h[|h| - 1];
      var b := Best(w, pubs, last);
      && b.Some?
      && (Composed(w, pubs, h + [t], ServeAll(w, pubs, h + [t]).result) <==>
          forall u :: u in Assigned(w, pubs, h, b.value) ==> w.Code(b.value, u) <= w.Code(b.value, last))
  {
    hide World.Valid, Best, World.Code, Composed, ServeAll, Survivors, Recovered, Reachable;
    var subs, last := h + [t], h[|h| - 1];
    assert last in h && Reached(w, pubs, last);
    BestIsNearest(w, pubs, last);
    BestIsNearest(w, pubs, t);
    var p := Best(w, pubs, last).value;
    assert subs[..|subs| - 1] == h;
    ComposedIff(w, pubs, subs);
    AllSurvive(w, pubs, h);
    forall s | s in pubs
      ensures Recovered(w, pubs, subs, s) <==> s == p ==> forall u :: u in Assigned(w, pubs, h, p) ==> w.Code(p, u) <= w.Code(p, last)
    {
      LastWipes(w, pubs, h, t, s);
    }
  }

  // Without unreached subscribers everyone survives.
  lemma {:induction false} AllSurvive(w: World, pubs: seq<Vertex>, subs: seq<Vertex>)
    requires w.Valid() && forall u :: u in subs ==> Reached(w, pubs, u)
    ensures forall s :: Survivors(w, pubs, subs, s) == Assigned(w, pubs, subs, s)
  {
    hide World.Valid, Best, Reached;
    if subs != [] {
      AllSurvive(w, pubs, subs[..|subs| - 1]);
      FirstServed(w, pubs, subs[|subs| - 1]);
      forall s
        ensures Survivors(w, pubs, subs, s) == Assigned(w, pubs, subs, s)
      {
        AssignedGrows(w, pubs, subs, s);
      }
    }
  }

  lemma LastWipes(w: World, pubs: seq<Vertex>, h: seq<Vertex>, t: Vertex, s: Vertex)
    requires h != [] && Best(w, pubs, h[|h| - 1]).Some? && Best(w, pubs, t) == None
    requires Survivors(w, pubs, h, s) == Assigned(w, pubs, h, s)
    ensures var last := h[|h| - 1];
      var p := Best(w, pubs, last).value;
      Recovered(w, pubs, h + [t], s) <==> (s == p ==> forall u :: u in Assigned(w, pubs, h, p) ==> w.Code(p, u) <= w.Code(p, last))
  {
    hide Best, World.Code;
    var subs, last := h + [t], h[|h| - 1];
    assert subs[..|subs| - 1] == h && subs[|subs| - 1] == t;
    AssignedGrows(w, pubs, subs, s);
    assert LastReached(w, pubs, h) == Some(last);
    if Some(s) == Best(w, pubs, last) {
      assert Survivors(w, pubs, subs, s) == {last};
      assert forall u, b :: u in Assigned(w, pubs, h, s) && b in w.Code(s, u) && w.Code(s, u) <= w.Code(s, last) ==> b in w.Code(s, last);
    } else {
      assert Survivors(w, pubs, subs, s) == Assigned(w, pubs, subs, s);
    }
  }

  // What the last choice always is: the code for some subscriber assigned to that publisher.
  lemma {:induction false} LastIsAssigned(w: World, pubs: seq<Vertex>, subs: seq<Vertex>)
    requires w.Valid()
    ensures var last := ServeAll(w, pubs, subs).last;
      last.Some? ==>
        && last.value.publisher in pubs
        && exists t :: t in Assigned(w, pubs, subs, last.value.publisher) && last.value.fid == w.Code(last.value.publisher, t)
  {
    hide World.Valid, World.Code, Best;
    if subs != [] {
      var h, t := subs[..|subs| - 1], subs[|subs| - 1];
      LastIsAssigned(w, pubs, h);
      BestIsNearest(w, pubs, t);
      var last := ServeAll(w, pubs, subs).last;
      if last.Some? {
        AssignedGrows(w, pubs, subs, last.value.publisher);
        if Best(w, pubs, t).Some? { assert t in Assigned(w, pubs, subs, last.value.publisher); }
      }
    }
  }

  /** Publisher 0 with neighbours 1 and 2; subscriber 3 is cut off. Its turn wipes out what was
      composed for subscriber 1, whatever shortest paths are used. */
  lemma CutOffSubscriberWipesOut(route: Router)
    requires IsRouter(route)
    requires var g := [Link(Edge(0, 1), {0}), Link(Edge(0, 2), {1})]; forall u, v :: |route(g, u, v)| < UINT_MAX
    ensures var w := World([Link(Edge(0, 1), {0}), Link(Edge(0, 2), {1})], route, map[1 := {11}, 2 := {12}, 3 := {13}]);
      && ServeAll(w, [0], [1, 2]).result == map[0 := Some({0, 1, 11, 12})]
      && ServeAll(w, [0], [1, 2, 3]).result == map[0 := Some({1, 12})]
  {
    var g := [Link(Edge(0, 1), {0}), Link(Edge(0, 2), {1})];
    var w := World(g, route, map[1 := {11}, 2 := {12}, 3 := {13}]);
    hide World.Valid, World.Code, World.Hops, Best, ServeAll, NoParallel, IsRouter, Live, Serve;
    TwoLinks(g);
    assert w.Valid() by { WorldOk(w); }
    Neighbour(w, 1);
    Neighbour(w, 2);
    BestOfOne(w, 0, 1);
    BestOfOne(w, 0, 2);
    CutOff(w, 3);
    BestOfOne(w, 0, 3);
    WipedOut(w);
    assert {0} + {11} == {0, 11} && {1} + {12} == {1, 12} && {0, 11} + {1, 12} == {0, 1, 11, 12};
  }

  lemma WipedOut(w: World)
    requires Best(w, [0], 1) == Some(0) && Best(w, [0], 2) == Some(0) && Best(w, [0], 3) == None
    ensures ServeAll(w, [0], [1, 2]).result == map[0 := Some(w.Code(0, 1) + w.Code(0, 2))]
    ensures ServeAll(w, [0], [1, 2, 3]).result == map[0 := Some(w.Code(0, 2))]
  {
    hide World.Code, Best, ServeAll;
    var none: map<Vertex, Option<Bits>> := map[0 := None];
    assert (map s | s in [0] :: None) == none;
    ServeAllSteps(w, [0], 1, 2, 3);
  }

  lemma WorldOk(w: World)
    requires NoParallel(w.graph) && IsRouter(w.route) && forall u, v :: |w.route(w.graph, u, v)| < UINT_MAX
    ensures w.Valid()
  {}

  lemma ServeAllSteps(w: World, pubs: seq<Vertex>, a: Vertex, b: Vertex, c: Vertex)
    ensures var start := Tally(map s | s in pubs :: None, None);
      && ServeAll(w, pubs, [a, b]) == Serve(w, pubs, b, Serve(w, pubs, a, start))
      && ServeAll(w, pubs, [a, b, c]) == Serve(w, pubs, c, Serve(w, pubs, b, Serve(w, pubs, a, start)))
  {
    hide Serve;
    assert [a, b, c][..2] == [a, b] && [a, b][..1] == [a] && [a][..0] == [];
    assert ServeAll(w, pubs, [a]) == Serve(w, pubs, a, ServeAll(w, pubs, []));
    assert ServeAll(w, pubs, [a, b]) == Serve(w, pubs, b, ServeAll(w, pubs, [a]));
  }

  lemma TwoLinks(g: seq<Link>)
    requires g == [Link(Edge(0, 1), {0}), Link(Edge(0, 2), {1})]
    ensures NoParallel(g) && Live(g) == map[Edge(0, 1) := {0}, Edge(0, 2) := {1}]
  {
    assert g[..1] == [Link(Edge(0, 1), {0})] && g[..1][..0] == [];
    assert Live(g[..1]) == map[Edge(0, 1) := {0}];
  }

  lemma Neighbour(w: World, t: Vertex)
    requires w.Valid() && t in w.ilid && t != 0 && Edge(0, t) in Live(w.graph)
    ensures w.Path(0, t) == [0, t] && w.Code(0, t) == Live(w.graph)[Edge(0, t)] + w.ilid[t] && w.Hops(0, t) == 2
  {
    var live, p := Live(w.graph), [0, t];
    assert IsPath(live, p, 0, t);
    assert Reachable(live, 0, t);
    assert Routes(w.route, w.graph, 0, t);
    assert |w.Path(0, t)| <= 2;
    assert p[..1] == [0] && PathBits(live, [0]) == {};
  }

  lemma CutOff(w: World, t: Vertex)
    requires w.Valid() && t != 0 && forall e :: e in Live(w.graph) ==> e.to != t
    ensures w.Hops(0, t) == UINT_MAX
  {
    var live := Live(w.graph);
    assert forall p :: IsPath(live, p, 0, t) ==> |p| > 1 && Edge(p[|p| - 2], p[|p| - 2 + 1]) in live;
    assert Routes(w.route, w.graph, 0, t);
  }

  lemma BestOfOne(w: World, s: Vertex, t: Vertex)
    ensures Best(w, [s], t) == if w.Hops(s, t) < UINT_MAX then Some(s) else None
  {
    assert [s][..0] == [];
  }

  /** The composition for a whole request. Its first subscriber must be reached: before any
      publisher has been chosen there is no entry to write. */
  method CalculateFIDs(w: World, edgeLid: map<nat, Bits>, pubs: seq<Vertex>, subs: seq<Vertex>)
    returns (result: map<Vertex, Option<Bits>>)
    requires w.Valid() && EdgesIndexed(w.graph, edgeLid) && forall t :: t in subs ==> t in w.ilid
    requires subs != [] ==> Reached(w, pubs, subs[0])
    ensures result == ServeAll(w, pubs, subs).result
    ensures (forall t :: t in subs ==> Reached(w, pubs, t)) ==> Composed(w, pubs, subs, result)
  {
    hide World.Valid, EdgesIndexed, Reached, Composed, Serve, Best;
    result := map s | s in pubs :: None;
    var last: Option<Choice> := None;
    for k := 0 to |subs|
      invariant Tally(result, last) == ServeAll(w, pubs, subs[..k])
      invariant k > 0 ==> last.Some?
    {
      assert subs[..k + 1][..k] == subs[..k];
      var best, found := ChoosePublisher(w, edgeLid, pubs, subs[k], last);
      ServeIs(w, pubs, subs[k], Tally(result, last), best, found);
      if k == 0 { BestIsNearest(w, pubs, subs[0]); FirstServed(w, pubs, subs[0]); }
      if best.Some? {
        result, last := Put(result, best.value.publisher, best.value.fid, found), best;
      }
    }
    assert subs[..|subs|] == subs;
    if forall t :: t in subs ==> Reached(w, pubs, t) { AllServed(w, pubs, subs); }
  }

  lemma FirstServed(w: World, pubs: seq<Vertex>, t: Vertex)
    requires w.Valid() && Reached(w, pubs, t)
    ensures Best(w, pubs, t).Some?
  {
    hide Best, World.Valid;
    BestIsNearest(w, pubs, t);
  }

  lemma ServeIs(w: World, pubs: seq<Vertex>, t: Vertex, tally: Tally, best: Option<Choice>, found: bool)
    requires found == Best(w, pubs, t).Some?
    requires best == if found then Some(Choice(Best(w, pubs, t).value, w.Code(Best(w, pubs, t).value, t))) else tally.last
    ensures Serve(w, pubs, t, tally) ==
            if best.Some? then Tally(Put(tally.result, best.value.publisher, best.value.fid, found), best) else tally
  {}

  // The loop over publishers; with no path found the earlier choice stands.
  method ChoosePublisher(w: World, edgeLid: map<nat, Bits>, pubs: seq<Vertex>, t: Vertex, last: Option<Choice>)
    returns (best: Option<Choice>, found: bool)
    requires w.Valid() && EdgesIndexed(w.graph, edgeLid) && t in w.ilid
    ensures found == Best(w, pubs, t).Some?
    ensures best == if found then Some(Choice(Best(w, pubs, t).value, w.Code(Best(w, pubs, t).value, t))) else last
  {
    hide World.Valid, EdgesIndexed, World.Code, World.Hops;
    best, found := last, false;
    var minimum := UINT_MAX;
    for i := 0 to |pubs|
      invariant found == Best(w, pubs[..i], t).Some? && minimum == MinHops(w, Best(w, pubs[..i], t), t)
      invariant best == if found then Some(Choice(Best(w, pubs[..i], t).value, w.Code(Best(w, pubs[..i], t).value, t))) else last
    {
      assert pubs[..i + 1][..i] == pubs[..i];
      var fid, hops := CalculateFID(w, edgeLid, pubs[i], t);
      if minimum > hops {
        minimum := hops;
        best, found := Some(Choice(pubs[i], fid)), true;
      }
    }
    assert pubs[..|pubs|] == pubs;
  }

  // ------------------------------------------------------------------
  // Unicast: one publisher, the nearest subscriber

  /** Only the nearest reachable subscriber gets an identifier, and one does if any is reachable. */
  method UcalculateFID(w: World, edgeLid: map<nat, Bits>, publisher: Vertex, subs: seq<Vertex>)
    returns (result: map<Vertex, Option<Bits>>)
    requires w.Valid() && EdgesIndexed(w.graph, edgeLid) && forall t :: t in subs ==> t in w.ilid
    ensures forall t :: t in result <==> t in subs
    ensures forall t, t' :: t in result && t' in result && result[t].Some? && result[t'].Some? ==> t == t'
    ensures forall t :: t in result && result[t].Some? ==>
      && result[t].value == w.Code(publisher, t) && Reachable(Live(w.graph), publisher, t)
      && forall t' :: t' in subs ==> w.Hops(publisher, t) <= w.Hops(publisher, t')
    ensures (exists t :: t in subs && Reachable(Live(w.graph), publisher, t)) ==> exists t :: t in result && result[t].Some?
  {
    hide World.Valid, EdgesIndexed, World.Code, World.Hops, Reachable;
    result := map[];
    var best: Option<Choice> := None;
    var minimum := UINT_MAX;
    for i := 0 to |subs|
      invariant forall t :: t in result <==> t in subs[..i]
      invariant forall t :: t in result ==> result[t] == None
      invariant minimum == if best.Some? then w.Hops(publisher, best.value.publisher) else UINT_MAX
      invariant minimum <= UINT_MAX && (best.Some? ==> minimum < UINT_MAX)
      invariant best.Some? ==> best.value.publisher in subs[..i] && best.value.fid == w.Code(publisher, best.value.publisher)
      invariant forall t :: t in subs[..i] ==> minimum <= w.Hops(publisher, t)
    {
      assert subs[..i + 1] == subs[..i] + [subs[i]];
      var subscriber := subs[i];
      if subscriber !in result {
        result := result[subscriber := None];
      }
      var fid, hops := CalculateFID(w, edgeLid, publisher, subscriber);
      HopsFound(w, publisher, subscriber);
      if minimum > hops {
        minimum := hops;
        best := Some(Choice(subscriber, fid));
      }
    }
    assert subs[..|subs|] == subs;
    forall t | t in subs
      ensures w.Hops(publisher, t) < UINT_MAX <==> Reachable(Live(w.graph), publisher, t)
    {
      HopsFound(w, publisher, t);
    }
    if best.Some? {
      result := result[best.value.publisher := Some(best.value.fid)];
      assert best.value.publisher in result && result[best.value.publisher].Some?;
    }
  }
}
