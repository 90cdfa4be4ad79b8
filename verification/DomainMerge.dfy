/** The dynamic deployment tool's domain: adding and deleting nodes with `mergeDomains`, label
    generation and LID allocation (deployment/network.cpp). A LID is the set of its one-bits. */
module DomainMerge {
  import opened DomainLabels

  type Ip = nat
  type Bits = set<nat>

  datatype Connection = Connection(src: Label, dst: Label, lid: Bits)
  datatype Node = Node(name: Label, ip: Ip, ilid: Bits, connections: seq<Connection>)

  // ------------------------------------------------------------------
  // The identifiers in use, with multiplicity

  function ConnLids(cs: seq<Connection>): multiset<Bits> {
    if cs == [] then multiset{} else ConnLids(cs[..|cs| - 1]) + multiset{cs[|cs| - 1].lid}
  }

  function NodeLids(n: Node): multiset<Bits> {
    multiset{n.ilid} + ConnLids(n.connections)
  }

  function AllLids(ns: seq<Node>): multiset<Bits> {
    if ns == [] then multiset{} else AllLids(ns[..|ns| - 1]) + NodeLids(ns[|ns| - 1])
  }

  // No identifier is used twice, and all are recorded.
  ghost predicate Unique(m: multiset<Bits>, lids: seq<Bits>) {
    forall x :: m[x] <= 1 && (m[x] > 0 ==> x in lids)
  }

  lemma UniqueFewer(m: multiset<Bits>, m': multiset<Bits>, lids: seq<Bits>)
    requires Unique(m, lids) && m' <= m
    ensures Unique(m', lids)
  {
    forall x
      ensures m'[x] <= m[x]
    {}
  }

  lemma UniqueMore(m: multiset<Bits>, lids: seq<Bits>, x: Bits)
    requires Unique(m, lids) && x !in lids
    ensures Unique(m, lids + [x]) && Unique(m + multiset{x}, lids + [x])
  {
    assert m[x] == 0;
  }

  lemma ConnAppend(cs: seq<Connection>, c: Connection)
    ensures ConnLids(cs + [c]) == ConnLids(cs) + multiset{c.lid}
  {
    assert (cs + [c])[..|cs|] == cs;
  }

  lemma NodeAppend(ns: seq<Node>, n: Node)
    ensures AllLids(ns + [n]) == AllLids(ns) + NodeLids(n)
  {
    assert (ns + [n])[..|ns|] == ns;
  }

  // One more connection at one node.
  lemma {:induction false} ConnectLids(ns: seq<Node>, i: nat, c: Connection)
    requires i < |ns|
    ensures AllLids(ns[i := Connected(ns[i], c)]) == AllLids(ns) + multiset{c.lid}
  {
    hide NodeLids, ConnLids;
    var h, last := ns[..|ns| - 1], ns[|ns| - 1];
    assert ns == h + [last];
    NodeAppend(h, last);
    if i == |ns| - 1 {
      ConnectOne(last, c);
      assert ns[i := Connected(ns[i], c)] == h + [Connected(last, c)];
      NodeAppend(h, Connected(last, c));
    } else {
      ConnectLids(h, i, c);
      var h' := h[i := Connected(h[i], c)];
      assert ns[i := Connected(ns[i], c)] == h' + [last];
      NodeAppend(h', last);
    }
  }

  lemma ConnectOne(n: Node, c: Connection)
    ensures NodeLids(Connected(n, c)) == NodeLids(n) + multiset{c.lid}
  {
    ConnAppend(n.connections, c);
  }

  function Connected(n: Node, c: Connection): Node {
    n.(connections := n.connections + [c])
  }

  // ------------------------------------------------------------------
  // The domain's invariant

  function Labels(ns: seq<Node>): set<Label> {
    set n | n in ns :: n.name
  }

  ghost predicate DistinctLabels(ns: seq<Node>) {
    forall i, j :: 0 <= i < j < |ns| ==> ns[i].name != ns[j].name
  }

  // Connections start at their node and end at a node, or at one that is about to be added.
  ghost predicate Endpoints(ns: seq<Node>, labels: set<Label>) {
    forall n, c :: n in ns && c in n.connections ==> c.src == n.name && c.dst in labels
  }

  ghost predicate DomainOk(ns: seq<Node>, lids: seq<Bits>) {
    DistinctLabels(ns) && Endpoints(ns, Labels(ns)) && Unique(AllLids(ns), lids)
  }

  lemma {:induction false} LabelCount(ns: seq<Node>)
    ensures |Labels(ns)| <= |ns|
  {
    if ns != [] {
      LabelCount(ns[..|ns| - 1]);
      assert ns == ns[..|ns| - 1] + [ns[|ns| - 1]];
      assert Labels(ns) == Labels(ns[..|ns| - 1]) + {ns[|ns| - 1].name};
    } else {
      assert Labels(ns) == {};
    }
  }

  // ------------------------------------------------------------------
  // Labels and LIDs

  method LabelExists(ns: seq<Node>, name: Label) returns (found: bool)
    ensures found <==> name in Labels(ns)
  {
    for i := 0 to |ns|
      invariant forall j :: 0 <= j < i ==> ns[j].name != name
    {
      if ns[i].name == name {
        assert ns[i] in ns;
        return true;
      }
    }
    return false;
  }

  /** A label no node has, found within one try more than there are nodes. */
  method GenerateLabel(ns: seq<Node>, width: nat) returns (name: Label, tries: nat)
    ensures name !in Labels(ns) && 1 <= tries <= |ns| + 1 && name == LabelOf(|ns| + tries, width)
    ensures forall n :: |ns| < n < |ns| + tries ==> LabelOf(n, width) in Labels(ns)
  {
    hide LabelOf;
    LabelCount(ns);
    ghost var seen: set<Label> := {};
    var previous := |ns| + 1;
    name := LabelOf(previous, width);
    var taken := LabelExists(ns, name);
    while taken
      invariant |ns| < previous && name == LabelOf(previous, width) && (taken <==> name in Labels(ns))
      invariant |seen| == previous - |ns| - 1 && seen <= Labels(ns) && |seen| <= |ns|
      invariant forall n: nat :: n >= previous ==> LabelOf(n, width) !in seen
      invariant forall n :: |ns| < n < previous ==> LabelOf(n, width) in Labels(ns)
      decreases 2 * |ns| + 2 - previous
    {
      NotAgain(width, previous);
      seen := seen + {name};
      Within(seen, Labels(ns));
      previous := previous + 1;
      name := LabelOf(previous, width);
      taken := LabelExists(ns, name);
    }
    tries := previous - |ns|;
  }

  lemma NotAgain(width: nat, previous: nat)
    ensures forall n: nat :: n > previous ==> LabelOf(n, width) != LabelOf(previous, width)
  {
    hide LabelOf;
    forall n: nat | n > previous
      ensures LabelOf(n, width) != LabelOf(previous, width)
    {
      LabelsDiffer(n, previous, width);
    }
  }

  lemma Within<T>(a: set<T>, b: set<T>)
    requires a <= b
    ensures |a| <= |b|
  {
    if a != {} {
      var x :| x in a;
      Within(a - {x}, b - {x});
    }
  }

  // The one-bit LIDs still to be had.
  function Free(lids: seq<Bits>, width: nat): set<nat> {
    set b: nat | b < width && {b} !in lids
  }

  lemma FreeAfter(lids: seq<Bits>, width: nat, b: nat)
    requires b in Free(lids, width)
    ensures |Free(lids + [{b}], width)| == |Free(lids, width)| - 1
  {
    assert forall x: nat :: {x} == {b} ==> x in {b};
    assert Free(lids + [{b}], width) == Free(lids, width) - {b};
  }

  // ------------------------------------------------------------------
  // Attaching a new node

  // The first node with this testbed address.
  function FirstWithIp(ns: seq<Node>, ip: Ip): (i: int)
    ensures -1 <= i < |ns| && (i >= 0 ==> ns[i].ip == ip)
    ensures i == -1 <==> forall n :: n in ns ==> n.ip != ip
    ensures forall j :: 0 <= j < i ==> ns[j].ip != ip
  {
    if ns == [] then -1
    else if FirstWithIp(ns[..|ns| - 1], ip) >= 0 then FirstWithIp(ns[..|ns| - 1], ip)
    else if ns[|ns| - 1].ip == ip then
      assert ns[|ns| - 1] in ns; |ns| - 1
    else
      assert forall n :: n in ns ==> n in ns[..|ns| - 1] || n == ns[|ns| - 1]; -1
  }

  // The domain while a node is being attached: only the new node itself is missing.
  ghost predicate Attaching(ns: seq<Node>, lids: seq<Bits>, name: Label, kept: seq<Connection>) {
    && DistinctLabels(ns) && name !in Labels(ns) && Endpoints(ns, Labels(ns) + {name})
    && (forall c :: c in kept ==> c.src == name && c.dst in Labels(ns) && Answered(ns, c))
    && Unique(AllLids(ns) + ConnLids(kept), lids)
  }

  // The node at the other end has a connection back.
  ghost predicate Answered(ns: seq<Node>, c: Connection) {
    exists n, back :: n in ns && n.name == c.dst && back in n.connections && back.dst == c.src
  }

  // Same nodes, possibly with more connections.
  ghost predicate SameNodes(ns: seq<Node>, ns': seq<Node>) {
    |ns| == |ns'| && forall i :: 0 <= i < |ns| ==> ns'[i].name == ns[i].name && ns'[i].ip == ns[i].ip && ns[i].connections <= ns'[i].connections
  }

  lemma SameLabels(ns: seq<Node>, ns': seq<Node>)
    requires SameNodes(ns, ns')
    ensures Labels(ns) == Labels(ns') && (DistinctLabels(ns) ==> DistinctLabels(ns'))
  {
    forall l
      ensures l in Labels(ns) <==> l in Labels(ns')
    {
      if l in Labels(ns) {
        var n :| n in ns && n.name == l;
        var i :| 0 <= i < |ns| && ns[i] == n;
        assert ns'[i] in ns';
      }
      if l in Labels(ns') {
        var n :| n in ns' && n.name == l;
        var i :| 0 <= i < |ns'| && ns'[i] == n;
        assert ns[i] in ns;
      }
    }
  }

  lemma StillAnswered(ns: seq<Node>, ns': seq<Node>, c: Connection)
    requires SameNodes(ns, ns') && Answered(ns, c)
    ensures Answered(ns', c)
  {
    var n, back :| n in ns && n.name == c.dst && back in n.connections && back.dst == c.src;
    var i :| 0 <= i < |ns| && ns[i] == n;
    var k :| 0 <= k < |n.connections| && n.connections[k] == back;
    assert ns'[i].connections[k] == back && ns'[i] in ns';
  }

  lemma ConnectedNodes(ns: seq<Node>, i: nat, c: Connection)
    requires i < |ns|
    ensures SameNodes(ns, ns[i := Connected(ns[i], c)])
  {}

  lemma ConnectedEndpoints(ns: seq<Node>, i: nat, c: Connection, labels: set<Label>)
    requires i < |ns| && Endpoints(ns, labels) && c.src == ns[i].name && c.dst in labels
    ensures Endpoints(ns[i := Connected(ns[i], c)], labels)
  {
    var ns' := ns[i := Connected(ns[i], c)];
    forall n, d | n in ns' && d in n.connections
      ensures d.src == n.name && d.dst in labels
    {
      var k :| 0 <= k < |ns'| && ns'[k] == n;
      assert ns[k] in ns;
      assert d in ns[k].connections || d == c;
    }
  }

  // Attach to node i in both directions, with two unused LIDs.
  lemma AttachKeeps(ns: seq<Node>, lids: seq<Bits>, name: Label, kept: seq<Connection>, i: nat, out: Bits, back: Bits)
    requires Attaching(ns, lids, name, kept) && i < |ns| && out !in lids && back !in lids + [out]
    ensures var ns' := ns[i := Connected(ns[i], Connection(ns[i].name, name, back))];
      && SameNodes(ns, ns')
      && Attaching(ns', lids + [out] + [back], name, kept + [Connection(name, ns[i].name, out)])
  {
    hide Unique, DistinctLabels, Endpoints, SameNodes, Answered, Labels, AllLids, ConnLids;
    var mine, theirs := Connection(name, ns[i].name, out), Connection(ns[i].name, name, back);
    var ns' := ns[i := Connected(ns[i], theirs)];
    ConnectedNodes(ns, i, theirs);
    SameLabels(ns, ns');
    ConnectedEndpoints(ns, i, theirs, Labels(ns) + {name});
    ConnectLids(ns, i, theirs);
    ConnAppend(kept, mine);
    UniqueMore(AllLids(ns) + ConnLids(kept), lids, out);
    UniqueMore(AllLids(ns) + ConnLids(kept) + multiset{out}, lids + [out], back);
    assert AllLids(ns) + multiset{back} + (ConnLids(kept) + multiset{out}) == AllLids(ns) + ConnLids(kept) + multiset{out} + multiset{back};
    LabelIn(ns, i);
    NowAnswered(ns', i, mine, theirs);
    forall c | c in kept + [mine]
      ensures c.src == name && c.dst in Labels(ns') && Answered(ns', c)
    {
      if c in kept { StillAnswered(ns, ns', c); }
    }
  }

  lemma LabelIn(ns: seq<Node>, i: nat)
    requires i < |ns|
    ensures ns[i].name in Labels(ns)
  {
    assert ns[i] in ns;
  }

  lemma NowAnswered(ns: seq<Node>, i: nat, mine: Connection, theirs: Connection)
    requires i < |ns| && ns[i].name == mine.dst && ns[i].connections != [] && theirs.dst == mine.src
    requires ns[i].connections[|ns[i].connections| - 1] == theirs
    ensures Answered(ns, mine)
  {
    assert ns[i] in ns && theirs in ns[i].connections;
  }

  // A LID spent on a connection that is dropped.
  lemma DropKeeps(ns: seq<Node>, lids: seq<Bits>, name: Label, kept: seq<Connection>, out: Bits)
    requires Attaching(ns, lids, name, kept) && out !in lids
    ensures Attaching(ns, lids + [out], name, kept)
  {
    hide DistinctLabels, Endpoints, Answered, Labels, Unique;
    UniqueMore(AllLids(ns) + ConnLids(kept), lids, out);
  }

  /** With at least one connection, adding the node completes the domain. */
  lemma AddCompletes(ns: seq<Node>, lids: seq<Bits>, name: Label, ip: Ip, kept: seq<Connection>, ilid: Bits)
    requires Attaching(ns, lids, name, kept) && ilid !in lids
    ensures DomainOk(ns + [Node(name, ip, ilid, kept)], lids + [ilid])
  {
    hide AllLids, ConnLids, Answered, Unique;
    var n := Node(name, ip, ilid, kept);
    NodeAppend(ns, n);
    UniqueMore(AllLids(ns) + ConnLids(kept), lids, ilid);
    assert AllLids(ns) + (multiset{ilid} + ConnLids(kept)) == AllLids(ns) + ConnLids(kept) + multiset{ilid};
    LabelsAppend(ns, n);
  }

  lemma LabelsAppend(ns: seq<Node>, n: Node)
    requires DistinctLabels(ns) && n.name !in Labels(ns)
    ensures Labels(ns + [n]) == Labels(ns) + {n.name} && DistinctLabels(ns + [n])
  {
    assert forall m :: m in ns + [n] <==> m in ns || m == n;
    forall i | 0 <= i < |ns|
      ensures ns[i].name != n.name
    {
      LabelIn(ns, i);
    }
  }

  // ------------------------------------------------------------------
  // Deleting nodes

  function KeepConns(cs: seq<Connection>, name: Label): seq<Connection> {
    if cs == [] then []
    else KeepConns(cs[..|cs| - 1], name) + (if cs[|cs| - 1].src == name || cs[|cs| - 1].dst == name then [] else [cs[|cs| - 1]])
  }

  function Trimmed(n: Node, name: Label): Node {
    n.(connections := KeepConns(n.connections, name))
  }

  function Others(ns: seq<Node>, ip: Ip): seq<Node> {
    if ns == [] then [] else Others(ns[..|ns| - 1], ip) + (if ns[|ns| - 1].ip == ip then [] else [ns[|ns| - 1]])
  }

  // The label of the last node with this address, empty if there is none.
  function LastLabel(ns: seq<Node>, ip: Ip): Label {
    if ns == [] then "" else if ns[|ns| - 1].ip == ip then ns[|ns| - 1].name else LastLabel(ns[..|ns| - 1], ip)
  }

  function TrimAll(ns: seq<Node>, name: Label): (r: seq<Node>)
    ensures |r| == |ns| && forall i :: 0 <= i < |ns| ==> r[i] == Trimmed(ns[i], name)
  {
    if ns == [] then [] else TrimAll(ns[..|ns| - 1], name) + [Trimmed(ns[|ns| - 1], name)]
  }

  function Deleted(ns: seq<Node>, ip: Ip): seq<Node> {
    TrimAll(Others(ns, ip), LastLabel(ns, ip))
  }

  lemma {:induction false} KeptConns(cs: seq<Connection>, name: Label)
    ensures forall c :: c in KeepConns(cs, name) <==> c in cs && c.src != name && c.dst != name
    ensures ConnLids(KeepConns(cs, name)) <= ConnLids(cs)
  {
    hide KeepConns, ConnLids;
    KeepLast(cs, name);
    if cs != [] {
      var h, last := cs[..|cs| - 1], cs[|cs| - 1];
      KeptConns(h, name);
      assert cs == h + [last];
      ConnAppend(h, last);
      ConnAppend(KeepConns(h, name), last);
    }
  }

  lemma KeepLast(cs: seq<Connection>, name: Label)
    ensures cs == [] ==> KeepConns(cs, name) == []
    ensures cs != [] ==> var h, last := cs[..|cs| - 1], cs[|cs| - 1];
      KeepConns(cs, name) == if last.src == name || last.dst == name then KeepConns(h, name) else KeepConns(h, name) + [last]
  {}

  lemma {:induction false} OtherNodes(ns: seq<Node>, ip: Ip)
    ensures forall n :: n in Others(ns, ip) <==> n in ns && n.ip != ip
  {
    if ns != [] {
      var h, last := ns[..|ns| - 1], ns[|ns| - 1];
      OtherNodes(h, ip);
      assert ns == h + [last];
    }
  }

  /** Deleting works node by node: those with the address go, the others stay in order. */
  lemma {:induction false} OthersOf(ns: seq<Node>, ms: seq<Node>, ip: Ip)
    ensures Others(ns + ms, ip) == Others(ns, ip) + Others(ms, ip)
  {
    hide Others;
    if ms == [] {
      NoOthers(ip);
      assert ns + ms == ns;
    } else {
      var h := ms[..|ms| - 1];
      OthersOf(ns, h, ip);
      assert (ns + ms)[..|ns + ms| - 1] == ns + h;
      OthersLast(ns + ms, ip);
      OthersLast(ms, ip);
    }
  }

  lemma OthersOfOne(n: Node, ip: Ip)
    ensures Others([n], ip) == if n.ip == ip then [] else [n]
  {
    assert [n][..0] == [];
  }

  /** Connections likewise: those that name the label at either end go. */
  lemma {:induction false} KeepConnsOf(cs: seq<Connection>, ds: seq<Connection>, name: Label)
    ensures KeepConns(cs + ds, name) == KeepConns(cs, name) + KeepConns(ds, name)
  {
    hide KeepConns;
    KeepLast(ds, name);
    if ds == [] {
      assert cs + ds == cs;
    } else {
      var h := ds[..|ds| - 1];
      KeepConnsOf(cs, h, name);
      assert (cs + ds)[..|cs + ds| - 1] == cs + h;
      KeepLast(cs + ds, name);
    }
  }

  lemma KeepConnsOfOne(c: Connection, name: Label)
    ensures KeepConns([c], name) == if c.src == name || c.dst == name then [] else [c]
  {
    assert [c][..0] == [];
  }

  /** The label whose connections go is that of the last node with the address. */
  lemma {:induction false} LastLabelIs(ns: seq<Node>, ip: Ip)
    ensures if forall n :: n in ns ==> n.ip != ip then LastLabel(ns, ip) == ""
            else exists i :: 0 <= i < |ns| && ns[i].ip == ip && ns[i].name == LastLabel(ns, ip) && forall j :: i < j < |ns| ==> ns[j].ip != ip
  {
    hide LastLabel;
    LastStep(ns, ip);
    if ns != [] {
      var h, last := ns[..|ns| - 1], ns[|ns| - 1];
      LastLabelIs(h, ip);
      assert ns == h + [last];
      if last.ip == ip {
        assert last in ns && ns[|ns| - 1] == last;
      } else if n :| n in h && n.ip == ip {
        var i :| 0 <= i < |h| && h[i].ip == ip && h[i].name == LastLabel(h, ip) && forall j :: i < j < |h| ==> h[j].ip != ip;
        StillLast(ns, ip, i);
        assert n in ns;
      }
    }
  }

  lemma LastStep(ns: seq<Node>, ip: Ip)
    ensures ns == [] ==> LastLabel(ns, ip) == ""
    ensures ns != [] ==> LastLabel(ns, ip) == if ns[|ns| - 1].ip == ip then ns[|ns| - 1].name else LastLabel(ns[..|ns| - 1], ip)
  {}

  lemma StillLast(ns: seq<Node>, ip: Ip, i: nat)
    requires ns != [] && i < |ns| - 1 && ns[|ns| - 1].ip != ip
    requires var h := ns[..|ns| - 1]; forall j :: i < j < |h| ==> h[j].ip != ip
    ensures ns[..|ns| - 1][i] == ns[i] && forall j :: i < j < |ns| ==> ns[j].ip != ip
  {
    var h := ns[..|ns| - 1];
    assert forall j :: i < j < |h| ==> ns[j] == h[j];
  }

  lemma {:induction false} OtherLids(ns: seq<Node>, ip: Ip)
    ensures AllLids(Others(ns, ip)) <= AllLids(ns)
  {
    hide NodeLids;
    if ns != [] {
      var h, last := ns[..|ns| - 1], ns[|ns| - 1];
      OtherLids(h, ip);
      if last.ip == ip {
        assert Others(ns, ip) == Others(h, ip);
      } else {
        NodeAppend(Others(h, ip), last);
      }
    }
  }

  lemma {:induction false} OtherLabels(ns: seq<Node>, ip: Ip)
    requires DistinctLabels(ns)
    ensures DistinctLabels(Others(ns, ip))
  {
    hide Labels;
    if ns != [] {
      var h, last := ns[..|ns| - 1], ns[|ns| - 1];
      OtherLabels(h, ip);
      OtherNodes(h, ip);
      assert forall n :: n in h ==> n.name != last.name;
      if last.ip == ip {
        assert Others(ns, ip) == Others(h, ip);
      } else {
        var o := Others(h, ip);
        assert forall i :: 0 <= i < |o| ==> o[i] in o;
      }
    }
  }

  lemma {:induction false} TrimmedLids(ns: seq<Node>, name: Label)
    ensures AllLids(TrimAll(ns, name)) <= AllLids(ns)
  {
    if ns != [] {
      var h, last := ns[..|ns| - 1], ns[|ns| - 1];
      TrimmedLids(h, name);
      KeptConns(last.connections, name);
      NodeAppend(TrimAll(h, name), Trimmed(last, name));
    }
  }

  lemma TrimmedLabels(ns: seq<Node>, name: Label)
    ensures Labels(TrimAll(ns, name)) == Labels(ns) && (DistinctLabels(ns) ==> DistinctLabels(TrimAll(ns, name)))
  {
    var r := TrimAll(ns, name);
    forall l
      ensures l in Labels(ns) <==> l in Labels(r)
    {
      if l in Labels(ns) {
        var n :| n in ns && n.name == l;
        var i :| 0 <= i < |ns| && ns[i] == n;
        assert r[i] in r;
      }
      if l in Labels(r) {
        var n :| n in r && n.name == l;
        var i :| 0 <= i < |r| && r[i] == n;
        assert ns[i] in ns;
      }
    }
  }

  // A remaining node still refers to a deleted one that is not the last.
  ghost predicate Dangling(ns: seq<Node>, ip: Ip) {
    exists n, c, m :: n in ns && n.ip != ip && c in n.connections && m in ns && m.ip == ip
      && c.dst == m.name && m.name != LastLabel(ns, ip) && c.src != LastLabel(ns, ip)
  }

  /** Deletion keeps labels and LIDs distinct always, and keeps every connection's ends exactly when
      no remaining node is connected to a deleted node other than the last one. */
  lemma DeletedOkIff(ns: seq<Node>, lids: seq<Bits>, ip: Ip)
    requires DomainOk(ns, lids)
    ensures var r := Deleted(ns, ip);
      DistinctLabels(r) && Unique(AllLids(r), lids) && (Endpoints(r, Labels(r)) <==> !Dangling(ns, ip))
  {
    hide Unique, DistinctLabels, Endpoints, Dangling, AllLids, Labels, LastLabel, Others, TrimAll;
    var name := LastLabel(ns, ip);
    OtherLids(ns, ip);
    OtherLabels(ns, ip);
    TrimmedLabels(Others(ns, ip), name);
    TrimmedLids(Others(ns, ip), name);
    UniqueFewer(AllLids(ns), AllLids(Deleted(ns, ip)), lids);
    DeletedEnds(ns, ip);
  }

  lemma TrimmedMember(ns: seq<Node>, name: Label, n: Node)
    requires n in TrimAll(ns, name)
    ensures exists m :: m in ns && n == Trimmed(m, name)
  {
    var i :| 0 <= i < |TrimAll(ns, name)| && TrimAll(ns, name)[i] == n;
    assert ns[i] in ns && n == Trimmed(ns[i], name);
  }

  lemma TrimmedIn(ns: seq<Node>, name: Label, m: Node)
    requires m in ns
    ensures Trimmed(m, name) in TrimAll(ns, name)
  {
    var i :| 0 <= i < |ns| && ns[i] == m;
    assert TrimAll(ns, name)[i] == Trimmed(m, name);
  }

  lemma DeletedEnds(ns: seq<Node>, ip: Ip)
    requires DistinctLabels(ns) && Endpoints(ns, Labels(ns))
    ensures var r := Deleted(ns, ip); Endpoints(r, Labels(r)) <==> !Dangling(ns, ip)
  {
    hide DistinctLabels, LastLabel, Others, TrimAll, KeepConns, Dangling, Endpoints;
    if !Dangling(ns, ip) {
      NoneDangles(ns, ip);
    } else {
      SomeDangles(ns, ip);
    }
  }

  lemma NoneDangles(ns: seq<Node>, ip: Ip)
    requires Endpoints(ns, Labels(ns)) && !Dangling(ns, ip)
    ensures Endpoints(Deleted(ns, ip), Labels(Deleted(ns, ip)))
  {
    hide LastLabel, Others, TrimAll, KeepConns;
    var name, r := LastLabel(ns, ip), Deleted(ns, ip);
    OtherNodes(ns, ip);
    TrimmedLabels(Others(ns, ip), name);
    forall n, c | n in r && c in n.connections
      ensures c.src == n.name && c.dst in Labels(r)
    {
      TrimmedMember(Others(ns, ip), name, n);
      var m :| m in Others(ns, ip) && n == Trimmed(m, name);
      KeptConns(m.connections, name);
      assert m in ns && c in m.connections;
      var d :| d in ns && d.name == c.dst;
      assert d.ip != ip;
      assert d in Others(ns, ip);
    }
  }

  lemma SomeDangles(ns: seq<Node>, ip: Ip)
    requires DistinctLabels(ns) && Dangling(ns, ip)
    ensures !Endpoints(Deleted(ns, ip), Labels(Deleted(ns, ip)))
  {
    hide LastLabel, Others, TrimAll, KeepConns, DistinctLabels;
    var name, r := LastLabel(ns, ip), Deleted(ns, ip);
    var n, c, m :| n in ns && n.ip != ip && c in n.connections && m in ns && m.ip == ip
      && c.dst == m.name && m.name != name && c.src != name;
    OtherNodes(ns, ip);
    TrimmedLabels(Others(ns, ip), name);
    TrimmedIn(Others(ns, ip), name, n);
    KeptConns(n.connections, name);
    assert c in Trimmed(n, name).connections;
    GoneLabel(ns, ip, m);
  }

  lemma GoneLabel(ns: seq<Node>, ip: Ip, m: Node)
    requires DistinctLabels(ns) && m in ns && m.ip == ip
    ensures m.name !in Labels(Others(ns, ip))
  {
    hide Others;
    OtherNodes(ns, ip);
    forall d | d in Others(ns, ip)
      ensures d.name != m.name
    {
      var i :| 0 <= i < |ns| && ns[i] == m;
      var j :| 0 <= j < |ns| && ns[j] == d;
      assert i != j;
    }
  }

  ghost predicate DistinctIps(ns: seq<Node>) {
    forall i, j :: 0 <= i < j < |ns| ==> ns[i].ip != ns[j].ip
  }

  /** With one node per testbed address nothing dangles. */
  lemma {:induction false} DistinctIpsSafe(ns: seq<Node>, ip: Ip)
    requires DistinctIps(ns)
    ensures forall m :: m in ns && m.ip == ip ==> m.name == LastLabel(ns, ip)
    ensures !Dangling(ns, ip)
  {
    if ns != [] {
      var h, last := ns[..|ns| - 1], ns[|ns| - 1];
      assert ns == h + [last];
      DistinctIpsSafe(h, ip);
      if last.ip == ip { assert forall m :: m in h ==> m.ip != ip; }
    }
  }

  const LinkA := Connection("c", "a", {1})
  const LinkB := Connection("c", "b", {2})
  const NodeA := Node("a", 1, {3}, [])
  const NodeB := Node("b", 1, {4}, [])
  const NodeC := Node("c", 2, {0}, [LinkA, LinkB])

  /** Nodes "a" and "b" share a testbed address and "c" is connected to both: deleting that address
      leaves c's connection to "a" behind, which ends nowhere. */
  lemma SharedIpDangles()
    ensures var ns := [NodeA, NodeB, NodeC];
      && DomainOk(ns, [{0}, {1}, {2}, {3}, {4}])
      && !Endpoints(Deleted(ns, 1), Labels(Deleted(ns, 1)))
  {
    hide AllLids, Unique, Endpoints, Labels, Deleted, Dangling, DistinctLabels;
    var ns := [NodeA, NodeB, NodeC];
    SharedEnds(ns);
    SharedLids(ns);
    DeletedOkIff(ns, [{0}, {1}, {2}, {3}, {4}], 1);
  }

  lemma SharedEnds(ns: seq<Node>)
    requires ns == [NodeA, NodeB, NodeC]
    ensures DistinctLabels(ns) && Endpoints(ns, Labels(ns)) && Dangling(ns, 1)
  {
    assert "a" != "b" && "a" != "c" && "b" != "c";
    LabelIn(ns, 0);
    LabelIn(ns, 1);
    assert ns[..2] == [NodeA, NodeB];
    assert LastLabel([NodeA, NodeB], 1) == "b";
    assert LastLabel(ns, 1) == "b";
    assert NodeC in ns && NodeA in ns && LinkA in NodeC.connections;
  }

  lemma SharedLids(ns: seq<Node>)
    requires ns == [NodeA, NodeB, NodeC]
    ensures Unique(AllLids(ns), [{0}, {1}, {2}, {3}, {4}])
  {
    hide Unique, AllLids, ConnLids, NodeLids;
    NoLids();
    var none: seq<Node> := [];
    NodeAppend(none, NodeA);
    NodeAppend(none + [NodeA], NodeB);
    NodeAppend(none + [NodeA] + [NodeB], NodeC);
    assert none + [NodeA] + [NodeB] + [NodeC] == ns;
    SharedNodeLids();
    FiveTogether();
    FiveApart();
  }

  lemma FiveTogether()
    ensures var m: multiset<Bits> := multiset{};
      m + multiset{{3}} + multiset{{4}} + (multiset{{0}} + multiset{{1}, {2}}) == multiset{{3}, {4}} + (multiset{{0}} + multiset{{1}, {2}})
  {}

  lemma NoLids()
    ensures AllLids([]) == multiset{} && ConnLids([]) == multiset{}
  {}

  lemma SharedNodeLids()
    ensures NodeLids(NodeA) == multiset{{3}} && NodeLids(NodeB) == multiset{{4}}
    ensures NodeLids(NodeC) == multiset{{0}} + multiset{{1}, {2}}
  {
    hide ConnLids;
    NoLids();
    LinkLids();
  }

  lemma LinkLids()
    ensures ConnLids([LinkA, LinkB]) == multiset{{1}, {2}}
  {
    hide ConnLids;
    NoLids();
    var none: seq<Connection> := [];
    ConnAppend(none, LinkA);
    ConnAppend(none + [LinkA], LinkB);
    assert none + [LinkA] + [LinkB] == [LinkA, LinkB];
  }

  lemma FiveApart()
    ensures Unique(multiset{{3}, {4}} + (multiset{{0}} + multiset{{1}, {2}}), [{0}, {1}, {2}, {3}, {4}])
  {
    var none: multiset<Bits> := multiset{};
    var l0: seq<Bits> := [];
    assert Unique(none, l0);
    assert 0 in {0} && 1 in {1} && 2 in {2} && 3 in {3} && 4 in {4};
    UniqueMore(none, l0, {0});
    UniqueMore(none + multiset{{0}}, l0 + [{0}], {1});
    UniqueMore(none + multiset{{0}} + multiset{{1}}, l0 + [{0}] + [{1}], {2});
    UniqueMore(none + multiset{{0}} + multiset{{1}} + multiset{{2}}, l0 + [{0}] + [{1}] + [{2}], {3});
    UniqueMore(none + multiset{{0}} + multiset{{1}} + multiset{{2}} + multiset{{3}}, l0 + [{0}] + [{1}] + [{2}] + [{3}], {4});
    assert l0 + [{0}] + [{1}] + [{2}] + [{3}] + [{4}] == [{0}, {1}, {2}, {3}, {4}];
    assert none + multiset{{0}} + multiset{{1}} + multiset{{2}} + multiset{{3}} + multiset{{4}} ==
           multiset{{3}, {4}} + (multiset{{0}} + multiset{{1}, {2}});
  }

  // ------------------------------------------------------------------
  // The operations

  // A reported node: to be added with connections to the given addresses, or to be deleted.
  datatype Candidate = Addition(ip: Ip, peers: seq<Ip>) | Deletion(ip: Ip)
  datatype MergingResult = NodeAdded | NodeDeleted | Failed

  // ------------------------------------------------------------------
  // Runs, as far as the testbed addresses decide them

  function Ips(ns: seq<Node>): set<Ip> {
    set n | n in ns :: n.ip
  }

  // How many of the requested peers are known.
  function Known(ips: set<Ip>, peers: seq<Ip>): nat {
    if peers == [] then 0 else Known(ips, peers[..|peers| - 1]) + if peers[|peers| - 1] in ips then 1 else 0
  }

  // The LIDs an addition draws: one per request, one back per known peer, one for the node itself.
  function Draws(ips: set<Ip>, peers: seq<Ip>): nat {
    |peers| + Known(ips, peers) + if Known(ips, peers) > 0 then 1 else 0
  }

  function Cost(ips: set<Ip>, c: Candidate): nat {
    if c.Addition? then Draws(ips, c.peers) else 0
  }

  function IpsAfter(ips: set<Ip>, c: Candidate): set<Ip> {
    if c.Deletion? then ips - {c.ip} else if Known(ips, c.peers) > 0 then ips + {c.ip} else ips
  }

  function Costs(ips: set<Ip>, cs: seq<Candidate>): nat
    decreases |cs|
  {
    if cs == [] then 0 else Cost(ips, cs[0]) + Costs(IpsAfter(ips, cs[0]), cs[1..])
  }

  // No node is added while another one has its address.
  ghost predicate Legal(ips: set<Ip>, cs: seq<Candidate>)
    decreases |cs|
  {
    cs == [] || ((cs[0].Addition? ==> cs[0].ip !in ips) && Legal(IpsAfter(ips, cs[0]), cs[1..]))
  }

  lemma AddedIps(ns: seq<Node>, ns': seq<Node>, ip: Ip, peers: seq<Label>)
    requires Added(ns, ns', ip, peers) && DistinctIps(ns) && ip !in Ips(ns)
    ensures DistinctIps(ns') && Ips(ns') == Ips(ns) + {ip}
  {
    hide Labels, Answered, Dsts, Grew;
    forall i | 0 <= i < |ns'|
      ensures ns'[i].ip == if i == |ns| then ip else ns[i].ip
    {
      assert i < |ns| ==> ns'[..|ns|][i] == ns'[i];
    }
    assert forall i :: 0 <= i < |ns| ==> ns[i] in ns;
    SameIpSet(ns, ns', ip);
  }

  lemma SameIpSet(ns: seq<Node>, ns': seq<Node>, ip: Ip)
    requires |ns'| == |ns| + 1 && forall i :: 0 <= i < |ns'| ==> ns'[i].ip == if i == |ns| then ip else ns[i].ip
    ensures Ips(ns') == Ips(ns) + {ip}
  {
    forall x
      ensures x in Ips(ns') <==> x in Ips(ns) + {ip}
    {
      if x in Ips(ns) {
        var i :| 0 <= i < |ns| && ns[i].ip == x;
        assert ns'[i] in ns';
      }
      if x in Ips(ns') {
        var i :| 0 <= i < |ns'| && ns'[i].ip == x;
        assert i < |ns| ==> ns[i] in ns;
      }
      assert ns'[|ns|] in ns';
    }
  }

  lemma {:induction false} OthersIps(ns: seq<Node>, ip: Ip)
    requires DistinctIps(ns)
    ensures DistinctIps(Others(ns, ip)) && Ips(Others(ns, ip)) == Ips(ns) - {ip}
  {
    hide Others, Ips, DistinctIps;
    OtherNodes(ns, ip);
    RemainingIps(ns, Others(ns, ip), ip);
    if ns != [] {
      var h, last := ns[..|ns| - 1], ns[|ns| - 1];
      DistinctBefore(ns);
      OthersIps(h, ip);
      OtherNodes(h, ip);
      OthersLast(ns, ip);
      if last.ip != ip { DistinctMore(ns, Others(h, ip)); }
    } else {
      NoOthers(ip);
    }
  }

  lemma RemainingIps(ns: seq<Node>, rest: seq<Node>, ip: Ip)
    requires forall n :: n in rest <==> n in ns && n.ip != ip
    ensures Ips(rest) == Ips(ns) - {ip}
  {}

  lemma DistinctBefore(ns: seq<Node>)
    requires DistinctIps(ns) && ns != []
    ensures DistinctIps(ns[..|ns| - 1])
  {}

  lemma OthersLast(ns: seq<Node>, ip: Ip)
    requires ns != []
    ensures var h, last := ns[..|ns| - 1], ns[|ns| - 1];
      Others(ns, ip) == if last.ip == ip then Others(h, ip) else Others(h, ip) + [last]
  {}

  lemma NoOthers(ip: Ip)
    ensures Others([], ip) == [] && DistinctIps([])
  {}

  // A last node can follow any of the nodes before it.
  lemma DistinctMore(ns: seq<Node>, some: seq<Node>)
    requires DistinctIps(ns) && ns != [] && DistinctIps(some) && forall n :: n in some ==> n in ns[..|ns| - 1]
    ensures DistinctIps(some + [ns[|ns| - 1]])
  {
    var h, last := ns[..|ns| - 1], ns[|ns| - 1];
    forall i | 0 <= i < |some|
      ensures some[i].ip != last.ip
    {
      assert some[i] in some;
    }
  }

  lemma TrimmedIps(ns: seq<Node>, name: Label)
    ensures DistinctIps(ns) ==> DistinctIps(TrimAll(ns, name))
    ensures Ips(TrimAll(ns, name)) == Ips(ns)
  {
    var r := TrimAll(ns, name);
    forall x
      ensures x in Ips(r) <==> x in Ips(ns)
    {
      if x in Ips(ns) {
        var i :| 0 <= i < |ns| && ns[i].ip == x;
        assert r[i] in r;
      }
      if x in Ips(r) {
        var i :| 0 <= i < |r| && r[i].ip == x;
        assert ns[i] in ns;
      }
    }
  }

  lemma DeletedIps(ns: seq<Node>, ip: Ip)
    requires DistinctIps(ns)
    ensures DistinctIps(Deleted(ns, ip)) && Ips(Deleted(ns, ip)) == Ips(ns) - {ip}
  {
    hide Others, LastLabel, TrimAll, DistinctIps, Ips;
    OthersIps(ns, ip);
    TrimmedIps(Others(ns, ip), LastLabel(ns, ip));
  }

  lemma FirstIsKnown(ns: seq<Node>, ip: Ip)
    ensures FirstWithIp(ns, ip) >= 0 <==> ip in Ips(ns)
  {}

  lemma {:induction false} PeerCount(ns: seq<Node>, peers: seq<Ip>)
    ensures |PeerLabels(ns, peers)| == Known(Ips(ns), peers)
  {
    hide FirstWithIp, Ips;
    if peers != [] {
      PeerCount(ns, peers[..|peers| - 1]);
      FirstIsKnown(ns, peers[|peers| - 1]);
    }
  }

  /** The domain at some point of a run. */
  datatype State = State(nodes: seq<Node>, count: int, lids: seq<Bits>)

  ghost predicate StateOk(s: State) {
    DomainOk(s.nodes, s.lids) && s.count == |s.nodes|
  }

  // What a candidate makes of the domain.
  ghost predicate Follows(s: State, c: Candidate, s': State) {
    && s.lids <= s'.lids
    && match c
       case Addition(ip, peers) => if SomePeer(s.nodes, peers) then Added(s.nodes, s'.nodes, ip, PeerLabels(s.nodes, peers)) else s'.nodes == s.nodes
       case Deletion(ip) => s'.nodes == Deleted(s.nodes, ip) && s'.lids == s.lids
  }

  // Some requested peer is in the domain.
  ghost predicate SomePeer(ns: seq<Node>, peers: seq<Ip>) {
    exists p :: p in peers && FirstWithIp(ns, p) >= 0
  }

  // The labels the accepted connections lead to, in order.
  function PeerLabels(ns: seq<Node>, peers: seq<Ip>): seq<Label> {
    if peers == [] then []
    else
      var i := FirstWithIp(ns, peers[|peers| - 1]);
      PeerLabels(ns, peers[..|peers| - 1]) + if i >= 0 then [ns[i].name] else []
  }

  /** One label for each requested peer that is known, in the order of the requests. */
  lemma {:induction false} PeerLabelsOf(ns: seq<Node>, peers: seq<Ip>, more: seq<Ip>)
    ensures PeerLabels(ns, peers + more) == PeerLabels(ns, peers) + PeerLabels(ns, more)
  {
    hide PeerLabels, FirstWithIp;
    PeerLast(ns, more);
    if more == [] {
      assert peers + more == peers;
    } else {
      var m := more[..|more| - 1];
      PeerLabelsOf(ns, peers, m);
      assert (peers + more)[..|peers + more| - 1] == peers + m;
      PeerLast(ns, peers + more);
    }
  }

  function PeerLabel(ns: seq<Node>, ip: Ip): seq<Label> {
    var i := FirstWithIp(ns, ip);
    if i >= 0 then [ns[i].name] else []
  }

  lemma PeerLast(ns: seq<Node>, peers: seq<Ip>)
    ensures peers == [] ==> PeerLabels(ns, peers) == []
    ensures peers != [] ==> PeerLabels(ns, peers) == PeerLabels(ns, peers[..|peers| - 1]) + PeerLabel(ns, peers[|peers| - 1])
  {}

  function Dsts(cs: seq<Connection>): (r: seq<Label>)
    ensures |r| == |cs| && forall i :: 0 <= i < |cs| ==> r[i] == cs[i].dst
  {
    seq(|cs|, i requires 0 <= i < |cs| => cs[i].dst)
  }

  lemma DstsAppend(cs: seq<Connection>, c: Connection)
    ensures Dsts(cs + [c]) == Dsts(cs) + [c.dst]
  {}

  lemma {:induction false} SameFirst(ns: seq<Node>, ns': seq<Node>, ip: Ip)
    requires SameNodes(ns, ns')
    ensures FirstWithIp(ns, ip) == FirstWithIp(ns', ip)
  {
    if ns != [] { SameFirst(ns[..|ns| - 1], ns'[..|ns| - 1], ip); }
  }

  lemma {:induction false} PeerLabelsEmpty(ns: seq<Node>, peers: seq<Ip>)
    ensures PeerLabels(ns, peers) != [] <==> SomePeer(ns, peers)
  {
    hide FirstWithIp;
    if peers != [] {
      var h, last := peers[..|peers| - 1], peers[|peers| - 1];
      PeerLabelsEmpty(ns, h);
      assert peers == h + [last];
    }
  }

  class Domain {
    var nodes: seq<Node>
    var numberOfNodes: int
    var lids: seq<Bits>
    const idLen: nat
    const bits: nat  // the width of a LID

    ghost predicate Valid()
      reads this
    {
      DomainOk(nodes, lids) && numberOfNodes == |nodes|
    }

    // An unused one-bit LID, recorded as used.
    method CalculateLID() returns (lid: Bits)
      requires Free(lids, bits) != {}
      modifies this`lids
      ensures lid !in old(lids) && lids == old(lids) + [lid] && |lid| == 1
      ensures |Free(lids, bits)| == |Free(old(lids), bits)| - 1
    {
      var b :| b in Free(lids, bits);
      FreeAfter(lids, bits, b);
      lid := {b};
      lids := lids + [lid];
    }

    method FindPeer(ip: Ip) returns (i: int)
      ensures i == FirstWithIp(nodes, ip)
    {
      i := 0;
      while i < |nodes|
        invariant 0 <= i <= |nodes| && FirstWithIp(nodes[..i], ip) == -1
      {
        assert nodes[..i + 1][..i] == nodes[..i];
        if nodes[i].ip == ip {
          FirstStays(nodes, i + 1, ip);
          return i;
        }
        i := i + 1;
      }
      assert nodes[..|nodes|] == nodes;
      return -1;
    }

    // One requested connection: made in both directions, or dropped.
    method Attach(name: Label, peer: Ip, kept: seq<Connection>) returns (kept': seq<Connection>)
      requires Attaching(nodes, lids, name, kept) && |Free(lids, bits)| >= (if FirstWithIp(nodes, peer) >= 0 then 2 else 1)
      modifies this`nodes, this`lids
      ensures Attaching(nodes, lids, name, kept') && SameNodes(old(nodes), nodes) && old(lids) <= lids
      ensures |Free(lids, bits)| == |Free(old(lids), bits)| - (if FirstWithIp(old(nodes), peer) >= 0 then 2 else 1)
      ensures var i := FirstWithIp(old(nodes), peer);
        if i >= 0 then Dsts(kept') == Dsts(kept) + [old(nodes)[i].name] && Grew(old(nodes), nodes, name, [old(nodes)[i].name])
        else kept' == kept && nodes == old(nodes)
    {
      hide Attaching, Free, FirstWithIp, Dsts, Grew;
      AttachParts(nodes, lids, name, kept);
      var out := CalculateLID();
      var i := FindPeer(peer);
      if i >= 0 {
        var back := CalculateLID();
        var mine := Connection(name, nodes[i].name, out);
        AttachKeeps(nodes, old(lids), name, kept, i, out, back);
        GrewOne(nodes, i, name, back);
        DstsAppend(kept, mine);
        nodes := nodes[i := Connected(nodes[i], Connection(nodes[i].name, name, back))];
        kept' := kept + [mine];
      } else {
        DropKeeps(nodes, old(lids), name, kept, out);
        kept' := kept;
      }
    }

    method AttachAll(name: Label, peers: seq<Ip>) returns (kept: seq<Connection>)
      requires Attaching(nodes, lids, name, []) && |Free(lids, bits)| >= |peers| + |PeerLabels(nodes, peers)|
      modifies this`nodes, this`lids
      ensures Attaching(nodes, lids, name, kept) && SameNodes(old(nodes), nodes) && old(lids) <= lids
      ensures Dsts(kept) == PeerLabels(old(nodes), peers) && (kept == [] ==> nodes == old(nodes))
      ensures Grew(old(nodes), nodes, name, Dsts(kept))
      ensures |Free(lids, bits)| == |Free(old(lids), bits)| - |peers| - |PeerLabels(old(nodes), peers)|
    {
      hide Attaching, Free, FirstWithIp, SameNodes, Grew;
      kept := [];
      SameRefl(nodes);
      GrewRefl(nodes, name);
      for k := 0 to |peers|
        invariant Attaching(nodes, lids, name, kept) && SameNodes(old(nodes), nodes)
        invariant |Free(lids, bits)| == |Free(old(lids), bits)| - k - |PeerLabels(old(nodes), peers[..k])| && old(lids) <= lids
        invariant Dsts(kept) == PeerLabels(old(nodes), peers[..k]) && (kept == [] ==> nodes == old(nodes))
        invariant Grew(old(nodes), nodes, name, Dsts(kept))
      {
        ghost var was, had := nodes, Dsts(kept);
        assert peers[..k + 1][..k] == peers[..k];
        PeerPrefix(old(nodes), peers, k + 1);
        SameFirst(old(nodes), nodes, peers[k]);
        SameAt(old(nodes), nodes);
        kept := Attach(name, peers[k], kept);
        SameTransitive(old(nodes), was, nodes);
        if FirstWithIp(was, peers[k]) >= 0 {
          GrewTransitive(old(nodes), was, nodes, name, had, [was[FirstWithIp(was, peers[k])].name]);
        }
      }
      assert peers[..|peers|] == peers;
    }

    /** A merge. An addition succeeds exactly when some requested peer is known, connects the new
        node and those peers in both directions and otherwise changes nothing but spent LIDs. A
        deletion removes every node with the address, and keeps the domain in order exactly when no
        remaining node is connected to a removed node other than the last. An addition needs as
        many free LIDs as it draws. */
    method Merge(candidate: Candidate) returns (r: MergingResult)
      requires Valid() && |Free(lids, bits)| >= Cost(Ips(nodes), candidate)
      modifies this`nodes, this`numberOfNodes, this`lids
      ensures numberOfNodes == |nodes| && DistinctLabels(nodes) && Unique(AllLids(nodes), lids)
      ensures candidate.Addition? ==> Valid() && r == (if SomePeer(old(nodes), candidate.peers) then NodeAdded else Failed)
      ensures r == Failed ==> nodes == old(nodes)
      ensures candidate.Addition? && r == NodeAdded ==>
        Added(old(nodes), nodes, candidate.ip, PeerLabels(old(nodes), candidate.peers))
      ensures candidate.Deletion? ==> r == NodeDeleted && nodes == Deleted(old(nodes), candidate.ip) && lids == old(lids)
      ensures candidate.Deletion? ==> (Valid() <==> !Dangling(old(nodes), candidate.ip))
      ensures |Free(lids, bits)| == |Free(old(lids), bits)| - Cost(Ips(old(nodes)), candidate) && old(lids) <= lids
    {
      hide DistinctLabels, Unique, Endpoints, AllLids, Attaching, Free, PeerLabels, SomePeer, Added, Dangling, Deleted, Dsts, SameNodes;
      match candidate
      case Addition(ip, peers) =>
        r := Add(ip, peers);
      case Deletion(ip) =>
        DeletedOkIff(nodes, lids, ip);
        Delete(ip);
        r := NodeDeleted;
    }

    method Add(ip: Ip, peers: seq<Ip>) returns (r: MergingResult)
      requires Valid() && |Free(lids, bits)| >= Draws(Ips(nodes), peers)
      modifies this`nodes, this`numberOfNodes, this`lids
      ensures Valid() && r == (if SomePeer(old(nodes), peers) then NodeAdded else Failed)
      ensures r == Failed ==> nodes == old(nodes)
      ensures r == NodeAdded ==> Added(old(nodes), nodes, ip, PeerLabels(old(nodes), peers))
      ensures |Free(lids, bits)| == |Free(old(lids), bits)| - Draws(Ips(old(nodes)), peers) && old(lids) <= lids
    {
      hide DomainOk, Attaching, Free, PeerLabels, SomePeer, Added, Dsts, SameNodes, Labels, Grew, Known, Ips;
      PeerCount(nodes, peers);
      var name, tries := GenerateLabel(nodes, idLen);
      ReadyToAttach(nodes, lids, name);
      var kept := AttachAll(name, peers);
      PeerLabelsEmpty(old(nodes), peers);
      DstsEmpty(kept);
      if |kept| != 0 {
        ghost var spent := lids;
        var ilid := CalculateLID();
        AddCompletes(nodes, spent, name, ip, kept, ilid);
        Attached(nodes, spent, name, kept);
        SameAt(old(nodes), nodes);
        AddedIs(old(nodes), nodes, ip, name, ilid, kept);
        nodes := nodes + [Node(name, ip, ilid, kept)];
        numberOfNodes := numberOfNodes + 1;
        r := NodeAdded;
      } else {
        NotAttached(nodes, lids, name, old(lids));
        r := Failed;
      }
    }

    ghost function Now(): State
      reads this
    {
      State(nodes, numberOfNodes, lids)
    }

    /** Any run of additions and deletions with distinct testbed addresses: each candidate has its
        effect, and at every point labels are distinct, the count is exact, every connection ends at
        a node and no identifier is used twice. */
    method Run(cs: seq<Candidate>) returns (ghost trace: seq<State>)
      requires Valid() && DistinctIps(nodes) && Legal(Ips(nodes), cs) && |Free(lids, bits)| >= Costs(Ips(nodes), cs)
      modifies this`nodes, this`numberOfNodes, this`lids
      ensures Valid() && DistinctIps(nodes)
      ensures |trace| == |cs| + 1 && trace[0] == old(Now()) && trace[|cs|] == Now()
      ensures forall k :: 0 <= k < |cs| ==> Follows(trace[k], cs[k], trace[k + 1])
      ensures forall k :: 0 <= k <= |cs| ==> StateOk(trace[k])
    {
      hide DomainOk, DistinctIps, Free, Dangling, Deleted, Added, PeerLabels, SomePeer, Unique, AllLids, DistinctLabels, Ips, Known,
           Follows, Cost, IpsAfter;
      trace := [Now()];
      for k := 0 to |cs|
        invariant Valid() && DistinctIps(nodes) && Legal(Ips(nodes), cs[k..]) && |Free(lids, bits)| >= Costs(Ips(nodes), cs[k..])
        invariant |trace| == k + 1 && trace[0] == old(Now()) && trace[k] == Now()
        invariant forall i :: 0 <= i < k ==> Follows(trace[i], cs[i], trace[i + 1])
        invariant forall i :: 0 <= i <= k ==> StateOk(trace[i])
      {
        assert cs[k..][0] == cs[k] && cs[k..][1..] == cs[k + 1..];
        ghost var was := Now();
        DistinctIpsSafe(was.nodes, cs[k].ip);
        var r := Merge(cs[k]);
        Stepped(was, cs[k], Now(), r);
        trace := trace + [Now()];
      }
    }

    method Delete(ip: Ip)
      modifies this`nodes, this`numberOfNodes
      ensures nodes == Deleted(old(nodes), ip) && numberOfNodes == old(numberOfNodes) - |old(nodes)| + |nodes|
    {
      hide Others, LastLabel, TrimAll;
      var deleted := RemoveNodes(ip);
      TrimConnections(deleted);
    }

    // Every remaining node loses its connections with the deleted one.
    method TrimConnections(deleted: Label)
      modifies this`nodes
      ensures nodes == TrimAll(old(nodes), deleted)
    {
      hide Trimming, TrimAll;
      ghost var rest := nodes;
      TrimStart(rest, deleted);
      var i := 0;
      while i < |nodes|
        invariant |nodes| == |rest| && Trimming(rest, nodes, i, deleted)
      {
        TrimNext(rest, nodes, i, deleted);
        var kept := DropConnections(nodes[i].connections, deleted);
        nodes := nodes[i := nodes[i].(connections := kept)];
        i := i + 1;
      }
      TrimEnd(rest, nodes, i, deleted);
    }

    method RemoveNodes(ip: Ip) returns (deleted: Label)
      modifies this`nodes, this`numberOfNodes
      ensures nodes == Others(old(nodes), ip) && deleted == LastLabel(old(nodes), ip)
      ensures numberOfNodes == old(numberOfNodes) - |old(nodes)| + |nodes|
    {
      hide Others, LastLabel;
      ghost var was := nodes;
      deleted := "";
      var i := 0;
      ghost var k := 0;  // how many of the nodes have been looked at
      OthersStart(was, ip);
      while i < |nodes|
        invariant Removing(was, ip, nodes, i, k) && deleted == LastLabel(was[..k], ip)
        invariant numberOfNodes == old(numberOfNodes) - |was| + |nodes|
        decreases |was| - k
      {
        OthersStep(was, ip, nodes, i, k);
        if nodes[i].ip == ip {
          deleted := nodes[i].name;
          nodes := nodes[..i] + nodes[i + 1..];
          numberOfNodes := numberOfNodes - 1;
        } else {
          i := i + 1;
        }
        k := k + 1;
      }
      OthersEnd(was, ip, nodes, i, k);
    }
  }

  // The list while it is being thinned out: the first k nodes of the old one are done.
  ghost predicate Removing(was: seq<Node>, ip: Ip, now: seq<Node>, i: nat, k: nat) {
    k <= |was| && now == Others(was[..k], ip) + was[k..] && i == |Others(was[..k], ip)|
  }

  lemma OthersStart(was: seq<Node>, ip: Ip)
    ensures Removing(was, ip, was, 0, 0) && LastLabel(was[..0], ip) == ""
  {
    assert was[..0] == [] && was[0..] == was;
  }

  lemma OthersStep(was: seq<Node>, ip: Ip, now: seq<Node>, i: nat, k: nat)
    requires Removing(was, ip, now, i, k) && i < |now|
    ensures k < |was| && now[i] == was[k]
    ensures if now[i].ip == ip then Removing(was, ip, now[..i] + now[i + 1..], i, k + 1) && LastLabel(was[..k + 1], ip) == now[i].name
            else Removing(was, ip, now, i + 1, k + 1) && LastLabel(was[..k + 1], ip) == LastLabel(was[..k], ip)
  {
    var o := Others(was[..k], ip);
    assert was[..k + 1][..k] == was[..k] && was[k..] == [was[k]] + was[k + 1..];
    if now[i].ip == ip {
      assert now[..i] + now[i + 1..] == o + was[k + 1..];
    } else {
      assert now == (o + [was[k]]) + was[k + 1..];
    }
  }

  lemma OthersEnd(was: seq<Node>, ip: Ip, now: seq<Node>, i: nat, k: nat)
    requires Removing(was, ip, now, i, k) && i >= |now|
    ensures now == Others(was, ip) && was[..k] == was
  {
    assert |now| == i + (|was| - k);
    assert was[..k] == was;
  }

  // The list while connections are being dropped: the first i nodes are done.
  ghost predicate Trimming(rest: seq<Node>, now: seq<Node>, i: nat, name: Label) {
    i <= |rest| == |now| && now == TrimAll(rest[..i], name) + rest[i..]
  }

  lemma TrimStart(rest: seq<Node>, name: Label)
    ensures Trimming(rest, rest, 0, name)
  {}

  lemma TrimNext(rest: seq<Node>, now: seq<Node>, i: nat, name: Label)
    requires Trimming(rest, now, i, name) && i < |rest|
    ensures now[i] == rest[i] && Trimming(rest, now[i := Trimmed(rest[i], name)], i + 1, name)
  {
    assert rest[..i + 1][..i] == rest[..i];
  }

  lemma TrimEnd(rest: seq<Node>, now: seq<Node>, i: nat, name: Label)
    requires Trimming(rest, now, i, name) && i >= |now|
    ensures now == TrimAll(rest, name)
  {
    assert rest[..i] == rest;
  }

  method DropConnections(cs: seq<Connection>, name: Label) returns (kept: seq<Connection>)
    ensures kept == KeepConns(cs, name)
  {
    kept := [];
    for i := 0 to |cs|
      invariant kept == KeepConns(cs[..i], name)
    {
      assert cs[..i + 1][..i] == cs[..i];
      if !(cs[i].src == name || cs[i].dst == name) {
        kept := kept + [cs[i]];
      }
    }
    assert cs[..|cs|] == cs;
  }

  // Every node has its old connections, then one to the new node for each time it was asked for.
  ghost predicate Grew(ns: seq<Node>, ns': seq<Node>, name: Label, labels: seq<Label>) {
    |ns| == |ns'| && forall i :: 0 <= i < |ns| ==> GrewAt(ns[i], ns'[i], name, labels)
  }

  ghost predicate GrewAt(n: Node, n': Node, name: Label, labels: seq<Label>) {
    && n'.name == n.name && n'.ip == n.ip && n'.ilid == n.ilid && n.connections <= n'.connections
    && |n'.connections| == |n.connections| + multiset(labels)[n.name]
    && forall k :: |n.connections| <= k < |n'.connections| ==> n'.connections[k].src == n.name && n'.connections[k].dst == name
  }

  lemma GrewRefl(ns: seq<Node>, name: Label)
    ensures Grew(ns, ns, name, [])
  {}

  lemma GrewOne(ns: seq<Node>, i: nat, name: Label, lid: Bits)
    requires DistinctLabels(ns) && i < |ns|
    ensures Grew(ns, ns[i := Connected(ns[i], Connection(ns[i].name, name, lid))], name, [ns[i].name])
  {
    assert forall j :: 0 <= j < |ns| && j != i ==> ns[j].name != ns[i].name;
  }

  lemma GrewTransitive(a: seq<Node>, b: seq<Node>, c: seq<Node>, name: Label, l: seq<Label>, m: seq<Label>)
    requires Grew(a, b, name, l) && Grew(b, c, name, m)
    ensures Grew(a, c, name, l + m)
  {
    forall i | 0 <= i < |a|
      ensures GrewAt(a[i], c[i], name, l + m)
    {
      assert GrewAt(a[i], b[i], name, l) && GrewAt(b[i], c[i], name, m);
      GrewAtTransitive(a[i], b[i], c[i], name, l, m);
    }
  }

  lemma GrewAtTransitive(a: Node, b: Node, c: Node, name: Label, l: seq<Label>, m: seq<Label>)
    requires GrewAt(a, b, name, l) && GrewAt(b, c, name, m)
    ensures GrewAt(a, c, name, l + m)
  {
    assert multiset(l + m) == multiset(l) + multiset(m);
    forall k | |a.connections| <= k < |c.connections|
      ensures c.connections[k].src == a.name && c.connections[k].dst == name
    {
      if k < |b.connections| { assert c.connections[k] == b.connections[k]; }
    }
  }

  lemma AttachParts(ns: seq<Node>, lids: seq<Bits>, name: Label, kept: seq<Connection>)
    requires Attaching(ns, lids, name, kept)
    ensures DistinctLabels(ns)
  {
    hide DistinctLabels, Unique, AllLids, Endpoints;
  }

  lemma {:induction false} PeerPrefix(ns: seq<Node>, peers: seq<Ip>, k: nat)
    requires k <= |peers|
    ensures |PeerLabels(ns, peers[..k])| <= |PeerLabels(ns, peers)|
    decreases |peers|
  {
    hide FirstWithIp;
    if k < |peers| {
      PeerPrefix(ns, peers[..|peers| - 1], k);
      assert peers[..|peers| - 1][..k] == peers[..k];
    } else {
      assert peers[..k] == peers;
    }
  }

  // One step of a run.
  lemma Stepped(s: State, c: Candidate, s': State, r: MergingResult)
    requires s.lids <= s'.lids && DistinctIps(s.nodes) && (c.Addition? ==> c.ip !in Ips(s.nodes))
    requires c.Addition? ==> r == if SomePeer(s.nodes, c.peers) then NodeAdded else Failed
    requires r == Failed ==> s'.nodes == s.nodes
    requires c.Addition? && r == NodeAdded ==> Added(s.nodes, s'.nodes, c.ip, PeerLabels(s.nodes, c.peers))
    requires c.Deletion? ==> s'.nodes == Deleted(s.nodes, c.ip) && s'.lids == s.lids
    ensures Follows(s, c, s') && DistinctIps(s'.nodes) && Ips(s'.nodes) == IpsAfter(Ips(s.nodes), c)
  {
    hide DistinctIps, Ips, Added, Deleted, PeerLabels, SomePeer, Known;
    if c.Addition? {
      PeerLabelsEmpty(s.nodes, c.peers);
      PeerCount(s.nodes, c.peers);
      if r == NodeAdded { AddedIps(s.nodes, s'.nodes, c.ip, PeerLabels(s.nodes, c.peers)); }
    } else {
      DeletedIps(s.nodes, c.ip);
    }
  }

  // The old nodes with their new connections, and one new node connected both ways to the given labels.
  ghost predicate Added(ns: seq<Node>, ns': seq<Node>, ip: Ip, peers: seq<Label>) {
    && |ns'| == |ns| + 1 && ns'[|ns|].ip == ip && ns'[|ns|].name !in Labels(ns)
    && SameNodes(ns, ns'[..|ns|]) && Grew(ns, ns'[..|ns|], ns'[|ns|].name, peers)
    && Dsts(ns'[|ns|].connections) == peers
    && forall c :: c in ns'[|ns|].connections ==> c.src == ns'[|ns|].name && Answered(ns'[..|ns|], c)
  }

  lemma AddedIs(was: seq<Node>, ns: seq<Node>, ip: Ip, name: Label, ilid: Bits, kept: seq<Connection>)
    requires SameNodes(was, ns) && name !in Labels(was) && forall c :: c in kept ==> c.src == name && Answered(ns, c)
    requires Grew(was, ns, name, Dsts(kept))
    ensures Added(was, ns + [Node(name, ip, ilid, kept)], ip, Dsts(kept))
  {
    hide Labels, Answered, Grew;
    assert (ns + [Node(name, ip, ilid, kept)])[..|was|] == ns;
  }

  lemma Attached(ns: seq<Node>, lids: seq<Bits>, name: Label, kept: seq<Connection>)
    requires Attaching(ns, lids, name, kept)
    ensures forall c :: c in kept ==> c.src == name && Answered(ns, c)
  {
    hide Unique, DistinctLabels, AllLids, Endpoints, Answered, Labels;
  }

  lemma ReadyToAttach(ns: seq<Node>, lids: seq<Bits>, name: Label)
    requires DomainOk(ns, lids) && name !in Labels(ns)
    ensures Attaching(ns, lids, name, [])
  {
    hide Unique, DistinctLabels, AllLids;
    assert AllLids(ns) + ConnLids([]) == AllLids(ns);
  }

  // Nothing attached: the domain is as it was, apart from the spent LIDs.
  lemma NotAttached(ns: seq<Node>, lids: seq<Bits>, name: Label, was: seq<Bits>)
    requires Attaching(ns, lids, name, []) && DomainOk(ns, was)
    ensures DomainOk(ns, lids)
  {
    hide Unique, DistinctLabels, AllLids, Endpoints;
    assert AllLids(ns) + ConnLids([]) == AllLids(ns);
  }

  lemma DstsEmpty(cs: seq<Connection>)
    ensures Dsts(cs) == [] <==> cs == []
  {}

  lemma SameRefl(ns: seq<Node>)
    ensures SameNodes(ns, ns)
  {}

  lemma SameTransitive(a: seq<Node>, b: seq<Node>, c: seq<Node>)
    requires SameNodes(a, b) && SameNodes(b, c)
    ensures SameNodes(a, c)
  {}

  lemma SameAt(a: seq<Node>, b: seq<Node>)
    requires SameNodes(a, b)
    ensures |a| == |b| && forall i :: 0 <= i < |a| ==> a[i].name == b[i].name
  {}

  lemma {:induction false} FirstStays(ns: seq<Node>, i: nat, ip: Ip)
    requires 0 < i <= |ns| && FirstWithIp(ns[..i], ip) >= 0
    ensures FirstWithIp(ns, ip) == FirstWithIp(ns[..i], ip)
  {
    if i < |ns| {
      assert ns[..|ns| - 1][..i] == ns[..i];
      FirstStays(ns[..|ns| - 1], i, ip);
    } else {
      assert ns[..i] == ns;
    }
  }
}
