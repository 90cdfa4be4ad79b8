/** Taking links and objects out of the information graph again: what the unpublish operations of
    src/localrv.cc leave of the labels, the identifier tables and the recorded links. */
module Removal {
  import opened IdTables
  import opened InfoGraph

  ghost predicate Leaf(g: Graph, x: Ref) {
    forall y :: y in g.fathers ==> x !in g.fathers[y]
  }

  /** The objects cs lose their link under f, and those that had no other are gone. */
  ghost function Cut(g: Graph, f: Ref, cs: set<Ref>): Graph {
    var gone := set c | c in cs && c in g.fathers && g.fathers[c] <= {f};
    Graph(map c | c in g.fathers && c !in gone :: if c in cs then g.fathers[c] - {f} else g.fathers[c],
          g.frag - gone, g.items - gone)
  }

  // x can lose its link under f, or is a root, and f is x.
  ghost predicate Cuttable(g: Graph, f: Ref, x: Ref) {
    g.Valid() && x in g.fathers && Leaf(g, x) && (if g.fathers[x] == {} then f == x else f in g.fathers[x])
  }

  lemma CutValid(g: Graph, f: Ref, x: Ref)
    requires Cuttable(g, f, x)
    ensures Cut(g, f, {x}).Valid()
  {}

  lemma CutUnambiguous(g: Graph, f: Ref, x: Ref)
    requires Cuttable(g, f, x) && g.Unambiguous() && Cut(g, f, {x}).Valid()
    ensures Cut(g, f, {x}).Unambiguous()
  {
    var g' := Cut(g, f, {x});
    assert x in g'.fathers ==> g'.fathers[x] != {};
    assert forall y :: y in g'.fathers ==> y in g.fathers && g'.frag[y] == g.frag[y] && g'.fathers[y] <= g.fathers[y];
    assert forall y :: y in g'.fathers && g'.fathers[y] == {} ==> g.fathers[y] == {};
  }

  lemma CutRanked(g: Graph, f: Ref, x: Ref, rank: map<Ref, nat>)
    requires Cuttable(g, f, x) && g.Ranked(rank) && Cut(g, f, {x}).Valid()
    ensures Cut(g, f, {x}).Ranked(if g.fathers[x] <= {f} then rank - {x} else rank)
  {
    var g' := Cut(g, f, {x});
    assert g'.fathers.Keys == if g.fathers[x] <= {f} then g.fathers.Keys - {x} else g.fathers.Keys;
  }

  // Labels of other objects stay.
  lemma {:induction false} CutKeepsLabels(g: Graph, f: Ref, x: Ref, y: Ref, l: Label)
    requires Cuttable(g, f, x) && Cut(g, f, {x}).Valid() && y != x
    ensures Cut(g, f, {x}).IsLabel(y, l) <==> g.IsLabel(y, l)
    decreases |l|
  {
    var g' := Cut(g, f, {x});
    if |l| > 1 && y in g.fathers {
      assert g'.fathers[y] == g.fathers[y];
      forall h | h in g.fathers[y]
        ensures g'.IsLabel(h, l[..|l| - 1]) <==> g.IsLabel(h, l[..|l| - 1])
      {
        CutKeepsLabels(g, f, x, h, l[..|l| - 1]);
      }
    }
  }

  // Of its own labels, x loses those through f: a label leads through one father only.
  lemma CutOwnLabels(g: Graph, f: Ref, x: Ref, l: Label)
    requires Cuttable(g, f, x) && g.Unambiguous() && Cut(g, f, {x}).Valid() && x in Cut(g, f, {x}).fathers
    ensures Cut(g, f, {x}).IsLabel(x, l) <==> g.IsLabel(x, l) && !(|l| > 1 && g.IsLabel(f, l[..|l| - 1]))
  {
    hide Graph.Unambiguous, Leaf;
    var g' := Cut(g, f, {x});
    assert g'.fathers[x] == g.fathers[x] - {f};
    if |l| > 1 {
      var m := l[..|l| - 1];
      forall h | h in g.fathers[x]
        ensures g'.IsLabel(h, m) <==> g.IsLabel(h, m)
      {
        assert h != x by { hide Graph.IsLabel; assert Leaf(g, x); NotItsOwnFather(g, x); }
        CutKeepsLabels(g, f, x, h, m);
      }
      if g'.IsLabel(x, l) {
        var h :| h in g'.fathers[x] && g'.IsLabel(h, m);
        if g.IsLabel(f, m) { LabelUnique(g, f, h, m); }
      }
      if g.IsLabel(x, l) && !g.IsLabel(f, m) {
        var h :| h in g.fathers[x] && g.IsLabel(h, m);
        assert h in g'.fathers[x];
      }
    }
  }

  lemma NotItsOwnFather(g: Graph, x: Ref)
    requires Leaf(g, x) && x in g.fathers
    ensures x !in g.fathers[x]
  {}

  // ------------------------------------------------------------------
  // The tables

  function Suffixed(ls: set<Label>, suffix: Fragment): set<Label> {
    set l | l in ls :: l + [suffix]
  }

  lemma InSuffixed(ls: set<Label>, suffix: Fragment, l: Label)
    ensures l + [suffix] in Suffixed(ls, suffix) <==> l in ls
  {
    if l + [suffix] in Suffixed(ls, suffix) {
      var m :| m in ls && m + [suffix] == l + [suffix];
      assert m == (m + [suffix])[..|m|] && l == (l + [suffix])[..|l|];
    }
  }

  // The identifiers x has through f.
  function Under(ids: Ids, f: Ref, suffix: Fragment): set<Label>
    requires f in ids
  {
    Suffixed(ids[f].Keys, suffix)
  }

  lemma InUnder(ids: Ids, f: Ref, suffix: Fragment, m: Label)
    requires f in ids && forall l :: l in ids[f] ==> l != []
    ensures m in Under(ids, f, suffix) <==> |m| > 1 && m[|m| - 1] == suffix && m[..|m| - 1] in ids[f]
  {
    if m in Under(ids, f, suffix) {
      var l :| l in ids[f] && m == l + [suffix];
      assert m[..|m| - 1] == l;
    }
    if |m| > 1 && m[|m| - 1] == suffix && m[..|m| - 1] in ids[f] {
      assert m == m[..|m| - 1] + [suffix];
    }
  }

  // The identifiers that go with the link of x under f.
  function Erased(fathers: map<Ref, set<Ref>>, ids: Ids, f: Ref, x: Ref, suffix: Fragment): set<Label>
    requires f in ids && x in ids && x in fathers
  {
    if fathers[x] <= {f} then ids[x].Keys else Under(ids, f, suffix)
  }

  function Trimmed(fathers: map<Ref, set<Ref>>, ids: Ids, f: Ref, x: Ref, suffix: Fragment): Ids
    requires f in ids && x in ids && x in fathers
  {
    if fathers[x] <= {f} then ids - {x} else ids[x := ids[x] - Under(ids, f, suffix)]
  }

  lemma CutExact(g: Graph, ids: Ids, f: Ref, x: Ref)
    requires Cuttable(g, f, x) && g.Unambiguous() && Covers(g, ids) && Exact(g, ids) && f in ids && Cut(g, f, {x}).Valid()
    ensures var g', ids' := Cut(g, f, {x}), Trimmed(g.fathers, ids, f, x, g.frag[x]);
      Covers(g', ids') && Exact(g', ids')
  {
    hide Graph.Unambiguous, Graph.IsLabel, Leaf;
    var g', ids' := Cut(g, f, {x}), Trimmed(g.fathers, ids, f, x, g.frag[x]);
    forall y, l | y in g'.fathers
      ensures l in ids'[y] <==> g'.IsLabel(y, l)
    {
      if y != x {
        CutKeepsLabels(g, f, x, y, l);
      } else {
        CutOwnLabels(g, f, x, l);
        LabelsEnd(g, x, l);
        assert forall m :: m in ids[f] ==> m != [] by { NoEmptyLabel(g, ids, f); }
        InUnder(ids, f, g.frag[x], l);
      }
    }
  }

  lemma LabelsEnd(g: Graph, x: Ref, l: Label)
    requires g.Valid()
    ensures g.IsLabel(x, l) ==> x in g.fathers && l != [] && l[|l| - 1] == g.frag[x]
  {}

  lemma NoEmptyLabel(g: Graph, ids: Ids, f: Ref)
    requires g.Valid() && Covers(g, ids) && Exact(g, ids) && f in ids
    ensures forall m :: m in ids[f] ==> m != []
  {}

  // With another father, x keeps an identifier.
  lemma CutNamed(g: Graph, ids: Ids, f: Ref, x: Ref)
    requires Cuttable(g, f, x) && Covers(g, ids) && f in ids && AllNamed(ids) && Cut(g, f, {x}).Valid()
    requires var g', ids' := Cut(g, f, {x}), Trimmed(g.fathers, ids, f, x, g.frag[x]); Covers(g', ids') && Exact(g', ids')
    ensures AllNamed(Trimmed(g.fathers, ids, f, x, g.frag[x]))
  {
    hide Graph.IsLabel, Under, Exact;
    var g', ids' := Cut(g, f, {x}), Trimmed(g.fathers, ids, f, x, g.frag[x]);
    if x in g'.fathers {
      assert g'.fathers[x] != {};
      var h :| h in g'.fathers[x];
      assert h != x && ids'[h] == ids[h] && ids[h].Keys != {};
      var l :| l in ids[h];
      ExactIffClosed(g', ids');
      assert Closed(g', ids', x);
      assert l + [g'.frag[x]] in ids'[x];
    }
  }

  lemma CutIndexed(g: Graph, ids: Ids, scopeIndex: map<Label, Ref>, pubIndex: map<Label, Ref>, f: Ref, x: Ref)
    requires Cuttable(g, f, x) && Covers(g, ids) && f in ids && Indexed(g.items, ids, scopeIndex, pubIndex)
    requires Under(ids, f, g.frag[x]) <= ids[x].Keys || g.fathers[x] <= {f}
    requires forall y, l :: y in ids && l in ids[y] && l in ids[x] ==> y == x
    ensures var erased := Erased(g.fathers, ids, f, x, g.frag[x]);
      Indexed(Cut(g, f, {x}).items, Trimmed(g.fathers, ids, f, x, g.frag[x]),
              if x in g.items then scopeIndex else scopeIndex - erased, if x in g.items then pubIndex - erased else pubIndex)
  {
    hide Under, Leaf, Cut, Indexed;
    CutItems(g, f, x);
    if g.fathers[x] <= {f} {
      GoneIndexed(g.items, ids, scopeIndex, pubIndex, x);
    } else {
      BranchIndexed(g.items, ids, scopeIndex, pubIndex, x, Under(ids, f, g.frag[x]));
    }
  }

  lemma CutItems(g: Graph, f: Ref, x: Ref)
    requires x in g.fathers
    ensures Cut(g, f, {x}).items == if g.fathers[x] <= {f} then g.items - {x} else g.items
  {}

  lemma GoneIndexed(items: set<Ref>, ids: Ids, scopeIndex: map<Label, Ref>, pubIndex: map<Label, Ref>, x: Ref)
    requires x in ids && Indexed(items, ids, scopeIndex, pubIndex)
    requires forall y, l :: y in ids && l in ids[y] && l in ids[x] ==> y == x
    ensures Indexed(items - {x}, ids - {x}, if x in items then scopeIndex else scopeIndex - ids[x].Keys,
                    if x in items then pubIndex - ids[x].Keys else pubIndex)
  {}

  lemma BranchIndexed(items: set<Ref>, ids: Ids, scopeIndex: map<Label, Ref>, pubIndex: map<Label, Ref>, x: Ref, erased: set<Label>)
    requires x in ids && Indexed(items, ids, scopeIndex, pubIndex) && erased <= ids[x].Keys
    requires forall y, l :: y in ids && l in ids[y] && l in ids[x] ==> y == x
    ensures Indexed(items, ids[x := ids[x] - erased], if x in items then scopeIndex else scopeIndex - erased,
                    if x in items then pubIndex - erased else pubIndex)
  {}

  lemma UnderOwn(g: Graph, ids: Ids, f: Ref, x: Ref)
    requires g.Valid() && Covers(g, ids) && Exact(g, ids) && x in g.fathers && f in g.fathers[x]
    ensures Under(ids, f, g.frag[x]) <= ids[x].Keys
    ensures forall l :: l in ids[f] ==> l + [g.frag[x]] in ids[x]
  {
    hide Graph.IsLabel, Exact;
    ExactIffClosed(g, ids);
    assert Closed(g, ids, x);
  }

  lemma OneOwner(g: Graph, ids: Ids, x: Ref)
    requires g.Valid() && g.Unambiguous() && Covers(g, ids) && Exact(g, ids) && x in ids
    ensures forall y, l :: y in ids && l in ids[y] && l in ids[x] ==> y == x
  {
    hide Graph.IsLabel, Graph.Unambiguous;
    forall y, l | y in ids && l in ids[y] && l in ids[x]
      ensures y == x
    {
      LabelUnique(g, y, x, l);
    }
  }

  /** A cut keeps the tables exact and the indexes their inverse. */
  lemma CutTables(g: Graph, ids: Ids, scopeIndex: map<Label, Ref>, pubIndex: map<Label, Ref>, f: Ref, x: Ref)
    requires Cuttable(g, f, x) && g.Unambiguous() && Tables(g, ids, scopeIndex, pubIndex) && Exact(g, ids) && AllNamed(ids) && f in ids
    ensures var g', ids', erased := Cut(g, f, {x}), Trimmed(g.fathers, ids, f, x, g.frag[x]), Erased(g.fathers, ids, f, x, g.frag[x]);
      && g'.Valid() && g'.Unambiguous() && Covers(g', ids') && Exact(g', ids') && AllNamed(ids')
      && Tables(g', ids', if x in g.items then scopeIndex else scopeIndex - erased, if x in g.items then pubIndex - erased else pubIndex)
  {
    hide Graph.IsLabel, Graph.Unambiguous, Indexed, AllNamed, Cut, Trimmed, Erased, Under, Exact, Sound, Leaf;
    CutValid(g, f, x);
    CutUnambiguous(g, f, x);
    CutExact(g, ids, f, x);
    ExactIffClosed(Cut(g, f, {x}), Trimmed(g.fathers, ids, f, x, g.frag[x]));
    CutNamed(g, ids, f, x);
    OneOwner(g, ids, x);
    if g.fathers[x] != {} { UnderOwn(g, ids, f, x); }
    CutIndexed(g, ids, scopeIndex, pubIndex, f, x);
  }

  // ------------------------------------------------------------------
  // The links

  function Unlinked(links: Links, f: Ref, x: Ref): Links
    requires x in links.fathers
  {
    if links.fathers[x] <= {f} then links.Unlink(f, x).Delete(x) else links.Unlink(f, x)
  }

  lemma CutOf(links: Links, frags: map<Ref, Fragment>, f: Ref, x: Ref)
    requires Cuttable(links.Of(frags), f, x)
    ensures Unlinked(links, f, x).Of(if links.fathers[x] <= {f} then frags - {x} else frags) == Cut(links.Of(frags), f, {x})
  {
    hide Leaf;
    var g, g' := links.Of(frags), Cut(links.Of(frags), f, {x});
    if links.fathers[x] <= {f} {
      assert (set c | c in {x} && c in g.fathers && g.fathers[c] <= {f}) == {x};
    } else {
      assert (set c | c in {x} && c in g.fathers && g.fathers[c] <= {f}) == {};
    }
    assert Unlinked(links, f, x).fathers == g'.fathers;
  }

  lemma CutLists(g: Graph, f: Ref, x: Ref, m: map<Ref, set<Ref>>, item: bool)
    requires Cuttable(g, f, x) && Lists(g, m, item)
    ensures var m' := if x in g.items <==> item then TakeOut(m, f, x) else m;
      Lists(Cut(g, f, {x}), if g.fathers[x] <= {f} then m' - {x} else m', item)
  {
    hide Lists, Cut, TakeOut;
    CutKeys(g, f, x);
    if x in g.items <==> item {
      CutOwnList(g, f, x, m, item);
    } else {
      CutOtherList(g, f, x, m, item);
    }
  }

  // g' is g without the link of x under f.
  ghost predicate IsCut(g: Graph, g': Graph, f: Ref, x: Ref)
    requires x in g.fathers
  {
    && (forall y :: y in g'.fathers <==> y in g.fathers && !(y == x && g.fathers[x] <= {f}))
    && (forall y :: y in g'.fathers ==> g'.fathers[y] == if y == x then g.fathers[x] - {f} else g.fathers[y])
    && (forall y :: y in g'.fathers ==> (y in g'.items <==> y in g.items))
  }

  lemma CutParts(g: Graph, f: Ref, x: Ref)
    requires x in g.fathers
    ensures IsCut(g, Cut(g, f, {x}), f, x)
  {}

  lemma CutOwnList(g: Graph, f: Ref, x: Ref, m: map<Ref, set<Ref>>, item: bool)
    requires Cuttable(g, f, x) && Lists(g, m, item) && (x in g.items <==> item)
    ensures Lists(Cut(g, f, {x}), if g.fathers[x] <= {f} then TakeOut(m, f, x) - {x} else TakeOut(m, f, x), item)
  {
    hide Graph.Valid, Cut, IsCut, Leaf, TakeOut;
    var g', gone := Cut(g, f, {x}), g.fathers[x] <= {f};
    var m' := if gone then TakeOut(m, f, x) - {x} else TakeOut(m, f, x);
    CutKeys(g, f, x);
    assert m'.Keys == g'.fathers.Keys by { TakenKeys(m, f, x); }
    forall h, y
      ensures h in m' && y in m'[h] <==> y in g'.fathers && (y in g'.items <==> item) && h in g'.fathers[y]
    {
      assert h in m && y in m[h] <==> y in g.fathers && (y in g.items <==> item) && h in g.fathers[y];
      CutParts(g, f, x);
      CutAt(g, g', f, x, h, y);
      TakenAt(m, f, x, h, y);
    }
  }

  lemma TakenKeys(m: map<Ref, set<Ref>>, f: Ref, x: Ref)
    ensures TakeOut(m, f, x).Keys == m.Keys && (TakeOut(m, f, x) - {x}).Keys == m.Keys - {x}
  {}

  lemma TakenAt(m: map<Ref, set<Ref>>, f: Ref, x: Ref, h: Ref, y: Ref)
    ensures h in TakeOut(m, f, x) <==> h in m
    ensures h in m ==> (y in TakeOut(m, f, x)[h] <==> y in m[h] && !(h == f && y == x))
    ensures h in TakeOut(m, f, x) - {x} <==> h in m && h != x
    ensures h in m && h != x ==> (TakeOut(m, f, x) - {x})[h] == TakeOut(m, f, x)[h]
  {}

  lemma CutAt(g: Graph, g': Graph, f: Ref, x: Ref, h: Ref, y: Ref)
    requires Cuttable(g, f, x) && IsCut(g, g', f, x)
    ensures y in g'.fathers && h in g'.fathers[y] <==> y in g.fathers && h in g.fathers[y] && !(y == x && h == f)
    ensures y in g'.fathers ==> y in g.fathers && (y in g'.items <==> y in g.items)
    ensures y in g.fathers && h in g.fathers[y] ==> h != x
  {}

  lemma CutOtherList(g: Graph, f: Ref, x: Ref, m: map<Ref, set<Ref>>, item: bool)
    requires Cuttable(g, f, x) && Lists(g, m, item) && !(x in g.items <==> item)
    ensures Lists(Cut(g, f, {x}), if g.fathers[x] <= {f} then m - {x} else m, item)
  {
    hide Graph.Valid, Cut, IsCut, Leaf;
    var g', gone := Cut(g, f, {x}), g.fathers[x] <= {f};
    var m' := if gone then m - {x} else m;
    CutKeys(g, f, x);
    forall h, y
      ensures h in m' && y in m'[h] <==> y in g'.fathers && (y in g'.items <==> item) && h in g'.fathers[y]
    {
      assert h in m && y in m[h] <==> y in g.fathers && (y in g.items <==> item) && h in g.fathers[y];
      CutParts(g, f, x);
      CutAt(g, g', f, x, h, y);
    }
  }

  lemma CutKeepsLinks(links: Links, frags: map<Ref, Fragment>, rank: map<Ref, nat>, f: Ref, x: Ref)
    requires LinksOk(links, frags, rank) && Cuttable(links.Of(frags), f, x)
    ensures var gone := links.fathers[x] <= {f};
      LinksOk(Unlinked(links, f, x), if gone then frags - {x} else frags, if gone then rank - {x} else rank)
  {
    hide Lists, Graph.Unambiguous, Graph.Ranked, Graph.Valid, Cut, TakeOut, Leaf;
    var g := links.Of(frags);
    CutOf(links, frags, f, x);
    CutValid(g, f, x);
    CutUnambiguous(g, f, x);
    CutRanked(g, f, x, rank);
    CutLists(g, f, x, links.childrenScopes, false);
    CutLists(g, f, x, links.informationItems, true);
    CutKeys(g, f, x);
  }

  // Nothing below x is listed if it is a leaf, and the other way round.
  lemma ListedLeaf(g: Graph, scopes: map<Ref, set<Ref>>, items: map<Ref, set<Ref>>, x: Ref)
    requires Lists(g, scopes, false) && Lists(g, items, true) && x in scopes && x in items
    ensures Leaf(g, x) <==> scopes[x] == {} && items[x] == {}
  {
    forall y
      ensures y in scopes[x] || y in items[x] <==> y in g.fathers && x in g.fathers[y]
    {}
  }

  lemma CutFresh(links: Links, f: Ref, x: Ref, next: Ref)
    requires x in links.fathers && Fresh(links.fathers, next)
    ensures Fresh(Unlinked(links, f, x).fathers, next)
    ensures forall y :: y in Unlinked(links, f, x).strategy ==> y in links.strategy && Unlinked(links, f, x).strategy[y] == links.strategy[y]
  {}

  lemma CutKeys(g: Graph, f: Ref, x: Ref)
    requires x in g.fathers
    ensures Cut(g, f, {x}).fathers.Keys == if g.fathers[x] <= {f} then g.fathers.Keys - {x} else g.fathers.Keys
  {}

  // ------------------------------------------------------------------
  // Publishers

  function Delisted(ids: Ids, x: Ref, l: Label, host: Host): Ids
    requires x in ids && l in ids[x]
  {
    ids[x := ids[x][l := ids[x][l].(publishers := ids[x][l].publishers - {host})]]
  }

  lemma DelistedKeeps(g: Graph, ids: Ids, scopeIndex: map<Label, Ref>, pubIndex: map<Label, Ref>, x: Ref, l: Label, host: Host)
    requires Tables(g, ids, scopeIndex, pubIndex) && Exact(g, ids) && AllNamed(ids) && x in ids && l in ids[x]
    ensures var ids' := Delisted(ids, x, l, host);
      Tables(g, ids', scopeIndex, pubIndex) && Exact(g, ids') && AllNamed(ids')
  {
    hide Graph.IsLabel, Graph.Valid, Indexed, Sound, Exact, AllNamed;
    var ids' := Delisted(ids, x, l, host);
    assert SameKeys(ids, ids');
    SameKeysIndexed(g.items, ids, ids', scopeIndex, pubIndex);
    SameKeysExact(g, ids, ids');
    SameKeysNamed(ids, ids');
  }

  // What remains is as before, less the host under the given identifiers.
  ghost predicate Thinned(before: Ids, after: Ids, host: Host, at: set<Label>) {
    forall y :: y in after ==> y in before && Fewer(before[y], after[y], host, at)
  }

  ghost predicate Fewer(before: map<Label, HostPair>, after: map<Label, HostPair>, host: Host, at: set<Label>) {
    forall m :: m in after ==> m in before && after[m] == Less(before[m], host, m in at)
  }

  function Less(pair: HostPair, host: Host, leaves: bool): HostPair {
    if leaves then pair.(publishers := pair.publishers - {host}) else pair
  }

  lemma ThinnedAgain(a: Ids, b: Ids, c: Ids, host: Host, at: set<Label>, more: set<Label>)
    requires Thinned(a, b, host, at) && Thinned(b, c, host, more)
    ensures Thinned(a, c, host, at + more)
  {
    forall y | y in c
      ensures y in a && Fewer(a[y], c[y], host, at + more)
    {
      assert y in b && Fewer(a[y], b[y], host, at) && Fewer(b[y], c[y], host, more);
    }
  }

  // Nobody but these publishers is interested.
  ghost predicate Only(pair: HostPair, hosts: set<Host>) {
    pair.publishers <= hosts && pair.subscribers == {}
  }

  // Nobody uses x under f.
  ghost predicate Idle(ids: Ids, f: Ref, x: Ref, suffix: Fragment) {
    && f in ids && x in ids
    && forall m :: m in ids[f] ==> m + [suffix] in ids[x] && Only(ids[x][m + [suffix]], {})
  }

  // The host's publication under l is the last use of x under f.
  ghost predicate LastUse(ids: Ids, f: Ref, x: Ref, suffix: Fragment, l: Label, host: Host) {
    && f in ids && x in ids
    && forall m :: m in ids[f] ==> m + [suffix] in ids[x] && Only(ids[x][m + [suffix]], if m == l then {host} else {})
  }

  lemma IdleAfter(ids: Ids, f: Ref, x: Ref, suffix: Fragment, l: Label, host: Host)
    requires f in ids && x in ids && f != x && l + [suffix] in ids[x]
    ensures Idle(Delisted(ids, x, l + [suffix], host), f, x, suffix) <==> LastUse(ids, f, x, suffix, l, host)
  {
    var ids' := Delisted(ids, x, l + [suffix], host);
    forall m | m in ids[f]
      ensures (m + [suffix] in ids'[x] && Only(ids'[x][m + [suffix]], {})) <==>
              (m + [suffix] in ids[x] && Only(ids[x][m + [suffix]], if m == l then {host} else {}))
    {
      assert m == (m + [suffix])[..|m|] && l == (l + [suffix])[..|l|];
    }
  }

  // The host publishes x under f, and no one else uses it there.
  ghost predicate SoleUser(ids: Ids, f: Ref, x: Ref, suffix: Fragment, host: Host) {
    && f in ids && x in ids
    && (forall m :: m in ids[f] ==> m + [suffix] in ids[x] && Only(ids[x][m + [suffix]], {host}))
    && exists m :: m in ids[f] && host in ids[x][m + [suffix]].publishers
  }

  // Under one of ls, the host publishes x.
  ghost predicate StillUsed(ids: Ids, x: Ref, suffix: Fragment, host: Host, ls: set<Label>) {
    x in ids && exists m :: m in ls && m + [suffix] in ids[x] && host in ids[x][m + [suffix]].publishers
  }

  /** One step of ending the host's publications of c under x, with ls still to come: it finds the
      last use only if the host was the sole user, and then finds it under the last of its own. */
  lemma UserStep(was: Ids, now: Ids, x: Ref, c: Ref, suffix: Fragment, host: Host, ls: set<Label>, l: Label)
    requires x in was && c in was && x in now && c in now && now[x] == was[x] && l in ls && ls <= was[x].Keys
    requires Thinned(was, now, host, Suffixed(was[x].Keys - ls, suffix))
    requires forall m :: m in was[x] ==> m + [suffix] in now[c]
    ensures host in now[c][l + [suffix]].publishers ==>
      if LastUse(now, x, c, suffix, l, host) then SoleUser(was, x, c, suffix, host)
      else SoleUser(was, x, c, suffix, host) ==> StillUsed(was, c, suffix, host, ls - {l})
    ensures host !in now[c][l + [suffix]].publishers && SoleUser(was, x, c, suffix, host) && StillUsed(was, c, suffix, host, ls) ==>
      StillUsed(was, c, suffix, host, ls - {l})
  {
    hide Suffixed;
    var at := Suffixed(was[x].Keys - ls, suffix);
    assert Fewer(was[c], now[c], host, at);
    forall m | m in was[x]
      ensures m + [suffix] in was[c] && now[c][m + [suffix]] == Less(was[c][m + [suffix]], host, m !in ls)
    {
      InSuffixed(was[x].Keys - ls, suffix, m);
    }
    if host in now[c][l + [suffix]].publishers {
      if LastUse(now, x, c, suffix, l, host) {
        assert l in was[x] && host in was[c][l + [suffix]].publishers;
      } else if SoleUser(was, x, c, suffix, host) {
        var m :| m in now[x] && !Only(now[c][m + [suffix]], if m == l then {host} else {});
        assert Only(was[c][m + [suffix]], {host});
      }
    }
  }

  // Of the tables only those of x changed.
  ghost predicate OnlyAt(before: Ids, after: Ids, x: Ref) {
    && (forall y :: y in before && y != x ==> y in after && after[y] == before[y])
    && (forall y :: y in after ==> y in before)
  }

  lemma OnlyAtOther(before: Ids, after: Ids, x: Ref, y: Ref)
    requires OnlyAt(before, after, x) && y in before && y != x
    ensures y in after && after[y] == before[y]
  {}

  lemma OnlyAtAgain(a: Ids, b: Ids, c: Ids, x: Ref)
    requires OnlyAt(a, b, x) && OnlyAt(b, c, x)
    ensures OnlyAt(a, c, x)
  {}

  lemma ErasedUnder(g: Graph, ids: Ids, index: map<Label, Ref>, f: Ref, x: Ref)
    requires g.Valid() && Covers(g, ids) && Exact(g, ids) && x in g.fathers && f in g.fathers[x]
    ensures f in ids && forall l :: l in ids[f] ==> l + [g.frag[x]] !in index - Erased(g.fathers, ids, f, x, g.frag[x])
  {
    hide Exact, Graph.IsLabel;
    UnderOwn(g, ids, f, x);
    forall l | l in ids[f]
      ensures l + [g.frag[x]] in Erased(g.fathers, ids, f, x, g.frag[x])
    {
      assert l + [g.frag[x]] in Under(ids, f, g.frag[x]);
    }
  }

  // Both steps of an unpublication that ends a link.
  lemma TakenOut(fathers: map<Ref, set<Ref>>, ids: Ids, f: Ref, x: Ref, suffix: Fragment, l: Label, host: Host)
    requires f in ids && x in ids && x in fathers && l in ids[x] && forall y :: y in ids && l in ids[y] ==> y == x
    ensures var ids' := Trimmed(fathers, Delisted(ids, x, l, host), f, x, suffix);
      Thinned(ids, ids', host, {l}) && OnlyAt(ids, ids', x)
  {
    hide Thinned, OnlyAt, Trimmed;
    var mid := Delisted(ids, x, l, host);
    DelistedParts(ids, x, l, host);
    TrimmedParts(fathers, mid, f, x, suffix, host);
    ThinnedAgain(ids, mid, Trimmed(fathers, mid, f, x, suffix), host, {l}, {});
    OnlyAtAgain(ids, mid, Trimmed(fathers, mid, f, x, suffix), x);
    assert {l} + {} == {l};
  }

  lemma AllStillUsed(ids: Ids, x: Ref, c: Ref, suffix: Fragment, host: Host)
    requires x in ids
    ensures SoleUser(ids, x, c, suffix, host) ==> StillUsed(ids, c, suffix, host, ids[x].Keys)
    ensures Suffixed(ids[x].Keys - ids[x].Keys, suffix) == {}
  {}

  lemma AllDone(ids: Ids, x: Ref, c: Ref, suffix: Fragment, host: Host)
    requires x in ids
    ensures !StillUsed(ids, c, suffix, host, {}) && ids[x].Keys - {} == ids[x].Keys
  {}

  lemma NothingThinned(ids: Ids, host: Host, x: Ref)
    ensures Thinned(ids, ids, host, {}) && OnlyAt(ids, ids, x)
  {}

  // A host that is not there leaves no trace.
  lemma NotThere(ids: Ids, host: Host, l: Label)
    requires forall y :: y in ids && l in ids[y] ==> host !in ids[y][l].publishers
    ensures Thinned(ids, ids, host, {l})
  {
    forall y, m | y in ids && m in ids[y]
      ensures ids[y][m] == Less(ids[y][m], host, m in {l})
    {
      if m == l { assert ids[y][m].publishers - {host} == ids[y][m].publishers; }
    }
  }

  lemma OneMoreSuffix(all: set<Label>, ls: set<Label>, suffix: Fragment, l: Label)
    requires l in ls && ls <= all
    ensures Suffixed(all - ls, suffix) + {l + [suffix]} == Suffixed(all - (ls - {l}), suffix)
  {}

  lemma DelistedParts(ids: Ids, x: Ref, l: Label, host: Host)
    requires x in ids && l in ids[x]
    ensures Thinned(ids, Delisted(ids, x, l, host), host, {l}) <== forall y :: y in ids && l in ids[y] ==> y == x
    ensures OnlyAt(ids, Delisted(ids, x, l, host), x)
  {}

  lemma TrimmedParts(fathers: map<Ref, set<Ref>>, ids: Ids, f: Ref, x: Ref, suffix: Fragment, host: Host)
    requires f in ids && x in ids && x in fathers
    ensures var ids' := Trimmed(fathers, ids, f, x, suffix); Thinned(ids, ids', host, {}) && OnlyAt(ids, ids', x)
  {}

  lemma CutMore(g: Graph, f: Ref, cs: set<Ref>, c: Ref)
    requires c !in cs
    ensures Cut(Cut(g, f, cs), f, {c}) == Cut(g, f, cs + {c})
  {
    var g1, g2, g3 := Cut(g, f, cs), Cut(Cut(g, f, cs), f, {c}), Cut(g, f, cs + {c});
    assert g2.fathers == g3.fathers && g2.frag == g3.frag && g2.items == g3.items;
  }

  lemma CutKept(g: Graph, f: Ref, cs: set<Ref>, c: Ref)
    requires c !in cs && c in g.fathers && g.Valid()
    ensures var g' := Cut(g, f, cs);
      c in g'.fathers && g'.fathers[c] == g.fathers[c] && c in g'.frag && g'.frag[c] == g.frag[c] && (c in g'.items <==> c in g.items)
  {}

  // ------------------------------------------------------------------
  // All items of a scope

  // The items among cs that the host alone uses under x.
  ghost function Lone(ids: Ids, frag: map<Ref, Fragment>, x: Ref, cs: set<Ref>, host: Host): set<Ref> {
    set c | c in cs && c in frag && SoleUser(ids, x, c, frag[c], host)
  }

  // Their identifiers under x.
  ghost function ItemNames(ids: Ids, frag: map<Ref, Fragment>, x: Ref, cs: set<Ref>): set<Label> {
    set c, l | c in cs && c in frag && x in ids && l in ids[x] :: l + [frag[c]]
  }

  lemma NoneYet(g: Graph, ids: Ids, frag: map<Ref, Fragment>, x: Ref, host: Host)
    ensures Lone(ids, frag, x, {}, host) == {} && ItemNames(ids, frag, x, {}) == {} && Cut(g, x, {}) == g
  {
    assert Cut(g, x, {}).fathers == g.fathers;
    assert Cut(g, x, {}).frag == g.frag;
  }

  lemma OneMoreItem(ids: Ids, frag: map<Ref, Fragment>, x: Ref, cs: set<Ref>, c: Ref, host: Host)
    requires c in frag && x in ids
    ensures Lone(ids, frag, x, cs + {c}, host) == Lone(ids, frag, x, cs, host) + if SoleUser(ids, x, c, frag[c], host) then {c} else {}
    ensures ItemNames(ids, frag, x, cs + {c}) == ItemNames(ids, frag, x, cs) + Under(ids, x, frag[c])
  {
    hide SoleUser;
    var names := ItemNames(ids, frag, x, cs) + Under(ids, x, frag[c]);
    forall m | m in names
      ensures m in ItemNames(ids, frag, x, cs + {c})
    {
      if m in Under(ids, x, frag[c]) { var l :| l in ids[x] && m == l + [frag[c]]; }
    }
    forall m | m in ItemNames(ids, frag, x, cs + {c})
      ensures m in names
    {
      var d, l :| d in cs + {c} && d in frag && l in ids[x] && m == l + [frag[d]];
      if d == c { assert m in Under(ids, x, frag[c]); }
    }
  }

  // The tables outside cs did not change.
  ghost predicate OnlyIn(before: Ids, after: Ids, cs: set<Ref>) {
    forall y :: y in before && y !in cs ==> y in after && after[y] == before[y]
  }

  lemma OnlyInOther(before: Ids, after: Ids, cs: set<Ref>, y: Ref)
    requires OnlyIn(before, after, cs) && y in before && y !in cs
    ensures y in after && after[y] == before[y]
  {}

  lemma OnlyInMore(a: Ids, b: Ids, c: Ids, cs: set<Ref>, x: Ref)
    requires OnlyIn(a, b, cs) && OnlyAt(b, c, x)
    ensures OnlyIn(a, c, cs + {x})
  {}

  lemma SameSoleUser(a: Ids, b: Ids, x: Ref, c: Ref, suffix: Fragment, host: Host)
    requires x in a && c in a && x in b && c in b && b[x] == a[x] && b[c] == a[c]
    ensures SoleUser(a, x, c, suffix, host) <==> SoleUser(b, x, c, suffix, host)
    ensures Under(a, x, suffix) == Under(b, x, suffix)
  {}

  /** The host no longer publishes the items cs under x: g' and `now` are what is left of g and `was`. */
  ghost predicate ItemsDone(g: Graph, g': Graph, was: Ids, now: Ids, frag: map<Ref, Fragment>, x: Ref, cs: set<Ref>, host: Host) {
    && g' == Cut(g, x, Lone(was, frag, x, cs, host))
    && Thinned(was, now, host, ItemNames(was, frag, x, cs)) && OnlyIn(was, now, cs)
  }

  lemma NoItemsDone(g: Graph, ids: Ids, frag: map<Ref, Fragment>, x: Ref, host: Host)
    ensures ItemsDone(g, g, ids, ids, frag, x, {}, host)
  {
    NoneYet(g, ids, frag, x, host);
    NothingThinned(ids, host, x);
  }

  lemma ItemStep(g: Graph, g': Graph, g'': Graph, was: Ids, now: Ids, after: Ids, frag: map<Ref, Fragment>, x: Ref, cs: set<Ref>, c: Ref, host: Host)
    requires c in frag && x in was && c in was && c !in cs && x !in cs && x in now && c in now
    requires ItemsDone(g, g', was, now, frag, x, cs, host)
    requires g'' == if SoleUser(now, x, c, frag[c], host) then Cut(g', x, {c}) else g'
    requires Thinned(now, after, host, Under(now, x, frag[c])) && OnlyAt(now, after, c)
    ensures ItemsDone(g, g'', was, after, frag, x, cs + {c}, host)
  {
    hide SoleUser, Thinned, Cut, Under, ItemNames, Lone, OnlyAt;
    SameSoleUser(was, now, x, c, frag[c], host);
    OneMoreItem(was, frag, x, cs, c, host);
    OnlyInMore(was, now, after, cs, c);
    ThinnedAgain(was, now, after, host, ItemNames(was, frag, x, cs), Under(now, x, frag[c]));
    NotLoneYet(was, frag, x, cs, c, host);
    CutMore(g, x, Lone(was, frag, x, cs, host), c);
    assert Lone(was, frag, x, cs, host) + {} == Lone(was, frag, x, cs, host);
  }

  // An item not in cs is still there as it was.
  lemma ItemNotDone(g: Graph, g': Graph, was: Ids, now: Ids, frag: map<Ref, Fragment>, x: Ref, cs: set<Ref>, c: Ref, host: Host)
    requires g.Valid() && ItemsDone(g, g', was, now, frag, x, cs, host) && c !in cs && c in g.fathers && c in was
    ensures c in g'.fathers && g'.fathers[c] == g.fathers[c] && c in g'.frag && g'.frag[c] == g.frag[c] && (c in g'.items <==> c in g.items)
    ensures c in now && now[c] == was[c]
  {
    hide SoleUser, Thinned, Cut, ItemNames, Lone;
    NotLoneYet(was, frag, x, cs, c, host);
    CutKept(g, x, Lone(was, frag, x, cs, host), c);
  }

  lemma NotLoneYet(ids: Ids, frag: map<Ref, Fragment>, x: Ref, cs: set<Ref>, c: Ref, host: Host)
    requires c !in cs
    ensures c !in Lone(ids, frag, x, cs, host)
  {}

  // ------------------------------------------------------------------
  // The scope itself

  // The host's publication under the given identifier is the last use of scope x: under the father
  // that the prefix names, or at all if it is a root.
  ghost predicate LastScopeUse(ids: Ids, index: map<Label, Ref>, x: Ref, prefix: Label, id: Fragment, host: Host) {
    if prefix in index then LastUse(ids, index[prefix], x, id, prefix, host)
    else x in ids && forall m :: m in ids[x] ==> Only(ids[x][m], if m == prefix + [id] then {host} else {})
  }

  lemma SameScopeUse(a: Ids, b: Ids, index: map<Label, Ref>, x: Ref, prefix: Label, id: Fragment, host: Host)
    requires x in a && x in b && b[x] == a[x]
    requires prefix in index ==> index[prefix] in a && index[prefix] in b && b[index[prefix]] == a[index[prefix]]
    ensures LastScopeUse(a, index, x, prefix, id, host) <==> LastScopeUse(b, index, x, prefix, id, host)
  {}

  lemma RootIdleAfter(ids: Ids, x: Ref, l: Label, host: Host)
    requires x in ids && l in ids[x]
    ensures var ids' := Delisted(ids, x, l, host);
      (forall m :: m in ids'[x] ==> Only(ids'[x][m], {})) <==> (forall m :: m in ids[x] ==> Only(ids[x][m], if m == l then {host} else {}))
  {
    var ids' := Delisted(ids, x, l, host);
    forall m | m in ids[x]
      ensures m in ids'[x] && (Only(ids'[x][m], {}) <==> Only(ids[x][m], if m == l then {host} else {}))
    {}
  }

  // ------------------------------------------------------------------
  // Publishing and taking it back

  lemma UncutLink(g: Graph, f: Ref, x: Ref, frag: Fragment, item: bool)
    requires g.Valid() && x !in g.fathers && f in g.fathers
    ensures var g' := WithLink(g, f, x, frag, item);
      && Cut(g', f, {x}) == g && Leaf(g', x) && x in g'.fathers && f in g'.fathers[x] && x in g'.frag && g'.frag[x] == frag
      && (x in g'.items <==> item) && (f in g'.items <==> f in g.items)
  {
    var g' := WithLink(g, f, x, frag, item);
    assert g'.fathers[x] == {f};
    assert (set c | c in {x} && c in g'.fathers && g'.fathers[c] <= {f}) == {x};
    assert Cut(g', f, {x}).fathers == g.fathers;
    assert Cut(g', f, {x}).frag == g.frag;
  }

  lemma NewLastUse(before: Ids, after: Ids, f: Ref, x: Ref, suffix: Fragment, l: Label, host: Host)
    requires OthersKept(before, after, l + [suffix]) && First(after, x, l + [suffix], host) && x !in before
    requires f in after && forall m :: m in after[f] ==> m + [suffix] in after[x]
    ensures LastUse(after, f, x, suffix, l, host)
  {
    forall m | m in after[f]
      ensures Only(after[x][m + [suffix]], if m == l then {host} else {})
    {
      if m != l { assert m == (m + [suffix])[..|m|] && l == (l + [suffix])[..|l|]; }
    }
  }

  /** Exact tables of one graph have the same identifiers, so what was added and taken away again
      leaves them as they were. */
  lemma BackToBefore(g: Graph, before: Ids, mid: Ids, after: Ids, host: Host, l: Label)
    requires g.Valid() && Covers(g, before) && Covers(g, after) && Exact(g, before) && Exact(g, after)
    requires OthersKept(before, mid, l) && Thinned(mid, after, host, {l}) && forall y :: y in before ==> l !in before[y]
    ensures after == before
  {
    hide Graph.IsLabel;
    forall y | y in before
      ensures after[y] == before[y]
    {
      assert after[y].Keys == before[y].Keys;
      assert Fewer(mid[y], after[y], host, {l});
      forall m | m in before[y]
        ensures after[y][m] == before[y][m]
      {
        assert m != l && m in after[y];
      }
    }
  }

  lemma SameIndexes(items: set<Ref>, ids: Ids, s: map<Label, Ref>, p: map<Label, Ref>, s': map<Label, Ref>, p': map<Label, Ref>)
    requires Indexed(items, ids, s, p) && Indexed(items, ids, s', p')
    ensures s == s' && p == p'
  {}

  // ------------------------------------------------------------------
  // What these notions come to, link by link and host by host

  /** A cut takes away the links from f to cs and nothing else, and an object only with its last link. */
  lemma CutExactly(g: Graph, f: Ref, cs: set<Ref>, h: Ref, y: Ref)
    requires g.Valid()
    ensures var g' := Cut(g, f, cs);
      && (y in g'.fathers <==> y in g.fathers && !(y in cs && forall k :: k in g.fathers[y] ==> k == f))
      && (y in g'.fathers ==> (h in g'.fathers[y] <==> h in g.fathers[y] && !(h == f && y in cs)))
      && (y in g'.fathers ==> g'.frag[y] == g.frag[y] && (y in g'.items <==> y in g.items))
  {}

  /** A link adds itself and, if need be, the object it leads to. */
  lemma LinkExactly(g: Graph, f: Ref, x: Ref, frag: Fragment, item: bool, h: Ref, y: Ref)
    requires g.Valid() && (x in g.fathers ==> g.frag[x] == frag && (x in g.items <==> item))
    ensures var g' := WithLink(g, f, x, frag, item);
      && (y in g'.fathers <==> y in g.fathers || y == x)
      && (y in g'.fathers ==> (h in g'.fathers[y] <==> (y in g.fathers && h in g.fathers[y]) || (h == f && y == x)))
      && (y in g'.fathers ==> g'.frag[y] == (if y == x then frag else g.frag[y]) && (y in g'.items <==> if y == x then item else y in g.items))
  {}

  // Host h publishes or subscribes to x under the identifier l.
  ghost predicate Uses(ids: Ids, x: Ref, l: Label, h: Host) {
    x in ids && l in ids[x] && (h in ids[x][l].publishers || h in ids[x][l].subscribers)
  }

  /** Idle: nobody uses x through f. */
  lemma IdleMeans(ids: Ids, f: Ref, x: Ref, suffix: Fragment)
    requires f in ids && x in ids && forall m :: m in ids[f] ==> m + [suffix] in ids[x]
    ensures Idle(ids, f, x, suffix) <==> forall m, h :: m in ids[f] ==> !Uses(ids, x, m + [suffix], h)
  {
    forall m | m in ids[f] && !Only(ids[x][m + [suffix]], {})
      ensures exists h :: Uses(ids, x, m + [suffix], h)
    {
      SomeUser(ids, x, m + [suffix]);
    }
  }

  lemma SomeUser(ids: Ids, x: Ref, l: Label)
    requires x in ids && l in ids[x] && !Only(ids[x][l], {})
    ensures exists h :: Uses(ids, x, l, h)
  {
    var pair := ids[x][l];
    if pair.publishers != {} {
      var h :| h in pair.publishers;
      assert Uses(ids, x, l, h);
    } else {
      var h :| h in pair.subscribers;
      assert Uses(ids, x, l, h);
    }
  }

  /** Last use: apart from the host's publication under l, nobody uses x through f. */
  lemma LastUseMeans(ids: Ids, f: Ref, x: Ref, suffix: Fragment, l: Label, host: Host)
    requires f in ids && x in ids && forall m :: m in ids[f] ==> m + [suffix] in ids[x]
    ensures LastUse(ids, f, x, suffix, l, host) <==>
            forall m, h :: m in ids[f] && Uses(ids, x, m + [suffix], h) ==> m == l && h == host && h !in ids[x][m + [suffix]].subscribers
  {
    forall m | m in ids[f] && !Only(ids[x][m + [suffix]], if m == l then {host} else {})
      ensures exists h :: Uses(ids, x, m + [suffix], h) && !(m == l && h == host && h !in ids[x][m + [suffix]].subscribers)
    {
      OtherUser(ids, x, m + [suffix], if m == l then {host} else {});
    }
  }

  lemma OtherUser(ids: Ids, x: Ref, l: Label, hosts: set<Host>)
    requires x in ids && l in ids[x] && !Only(ids[x][l], hosts)
    ensures exists h :: Uses(ids, x, l, h) && (h !in hosts || h in ids[x][l].subscribers)
  {
    var pair := ids[x][l];
    if pair.subscribers != {} {
      var h :| h in pair.subscribers;
      assert Uses(ids, x, l, h);
    } else {
      var h :| h in pair.publishers && h !in hosts;
      assert Uses(ids, x, l, h);
    }
  }

  /** Sole user: the host publishes x through f, nobody else uses it there and nobody subscribes. */
  lemma SoleUserMeans(ids: Ids, f: Ref, x: Ref, suffix: Fragment, host: Host)
    requires f in ids && x in ids && forall m :: m in ids[f] ==> m + [suffix] in ids[x]
    ensures SoleUser(ids, f, x, suffix, host) <==>
            && (exists m :: m in ids[f] && host in ids[x][m + [suffix]].publishers)
            && forall m, h :: m in ids[f] && Uses(ids, x, m + [suffix], h) ==> h == host && h !in ids[x][m + [suffix]].subscribers
  {
    forall m | m in ids[f] && !Only(ids[x][m + [suffix]], {host})
      ensures exists h :: Uses(ids, x, m + [suffix], h) && !(h == host && h !in ids[x][m + [suffix]].subscribers)
    {
      OtherUser(ids, x, m + [suffix], {host});
    }
  }
}
