/** The identifier tables of a rendezvous point and the lemmas about them: what a walk, a new link
    and a new publisher do to the tables, their indexes and the recorded links. */
module IdTables {
  import opened InfoGraph

  // ------------------------------------------------------------------
  // What a walk does to the identifier tables

  const NobodyYet := HostPair({}, {})

  // Identifiers were only added, each without publishers or subscribers.
  ghost predicate Grown(before: Ids, after: Ids) {
    && before.Keys == after.Keys
    && (forall x, l :: x in before && l in before[x] ==> l in after[x] && after[x][l] == before[x][l])
    && (forall x, l :: x in before && l in after[x] && l !in before[x] ==> after[x][l] == NobodyYet)
  }

  lemma GrownTransitive(a: Ids, b: Ids, c: Ids)
    requires Grown(a, b) && Grown(b, c)
    ensures Grown(a, c)
  {}

  lemma GrownHas(a: Ids, b: Ids, x: Ref, l: Label)
    requires Grown(a, b) && x in a && l in a[x]
    ensures x in b && l in b[x]
  {}

  lemma GrownKeys(a: Ids, b: Ids, x: Ref)
    requires Grown(a, b) && x in a
    ensures x in b && a[x].Keys <= b[x].Keys
  {}

  lemma SameIds(a: Ids, x: Ref)
    ensures Grown(a, a) && Untouched(a, a, {x})
  {}

  // The identifiers of f, extended by one fragment, are identifiers of x.
  ghost predicate Extended(ids: Ids, f: Ref, x: Ref, suffix: Fragment)
    requires f in ids && x in ids
  {
    forall l :: l in ids[f] ==> l + [suffix] in ids[x]
  }

  lemma ExtendedKept(a: Ids, b: Ids, fs: set<Ref>, x: Ref, suffix: Fragment)
    requires Grown(a, b) && Untouched(a, b, {x}) && x in a
    requires forall f :: f in fs ==> f != x && f in a && Extended(a, f, x, suffix)
    ensures forall f :: f in fs ==> f in b && Extended(b, f, x, suffix)
  {}

  lemma AllExtendedCloses(g: Graph, ids: Ids, x: Ref)
    requires g.Valid() && Covers(g, ids) && x in g.fathers && g.fathers[x] != {}
    requires forall f :: f in g.fathers[x] ==> f in ids && Extended(ids, f, x, g.frag[x])
    ensures Closed(g, ids, x)
  {
    forall f, l | f in g.fathers[x] && l in ids[f]
      ensures l + [g.frag[x]] in ids[x]
    {
      assert Extended(ids, f, x, g.frag[x]);
    }
  }

  ghost predicate Untouched(before: Ids, after: Ids, touched: set<Ref>) {
    before.Keys == after.Keys && forall x :: x in before && x !in touched ==> after[x] == before[x]
  }

  // A set of objects with everything below them, all of whose links are closed.
  ghost predicate Swept(g: Graph, ids: Ids, touched: set<Ref>)
    requires g.Valid() && Covers(g, ids)
  {
    && touched <= g.fathers.Keys
    && (forall x :: x in touched ==> Closed(g, ids, x))
    && (forall x, f :: x in g.fathers && f in g.fathers[x] && f in touched ==> x in touched)
  }

  lemma ClosedKept(g: Graph, before: Ids, after: Ids, touched: set<Ref>, x: Ref)
    requires g.Valid() && Covers(g, before) && Untouched(before, after, touched)
    requires x in g.fathers && x !in touched && g.fathers[x] !! touched && Closed(g, before, x)
    ensures Closed(g, after, x)
  {}

  lemma SweptUnion(g: Graph, before: Ids, after: Ids, t1: set<Ref>, t2: set<Ref>)
    requires g.Valid() && Covers(g, before) && Untouched(before, after, t2)
    requires Swept(g, before, t1) && Swept(g, after, t2)
    ensures Swept(g, after, t1 + t2)
  {
    forall x | x in t1 + t2
      ensures Closed(g, after, x)
    {
      if x !in t2 {
        assert forall f :: f in g.fathers[x] && f in t2 ==> x in t2;
        ClosedKept(g, before, after, t2, x);
      }
    }
  }

  /** After a swept walk from the only object that was not closed, everything is closed. */
  lemma SweepClosesAll(g: Graph, before: Ids, after: Ids, touched: set<Ref>, start: Ref)
    requires g.Valid() && Covers(g, before) && Untouched(before, after, touched) && Swept(g, after, touched)
    requires start in touched && forall x :: x in g.fathers && x != start ==> Closed(g, before, x)
    ensures AllClosed(g, after)
  {
    forall x | x in g.fathers
      ensures Closed(g, after, x)
    {
      if x !in touched {
        assert forall f :: f in g.fathers[x] && f in touched ==> x in touched;
        ClosedKept(g, before, after, touched, x);
      }
    }
  }

  // Every object has an identifier; `Named` excepts one.
  ghost predicate Named(ids: Ids, x: Ref) {
    forall y :: y in ids && y != x ==> ids[y] != map[]
  }

  ghost predicate AllNamed(ids: Ids) {
    forall y :: y in ids ==> ids[y] != map[]
  }

  lemma NamedFacts(ids: Ids, x: Ref)
    requires AllNamed(ids)
    ensures Named(ids, x) && (x in ids ==> ids[x] != map[])
  {}

  lemma GrownNamed(before: Ids, after: Ids)
    requires Grown(before, after) && AllNamed(before)
    ensures AllNamed(after)
  {
    forall y | y in after
      ensures after[y] != map[]
    {
      assert before[y].Keys != {};
      var l :| l in before[y];
      assert l in after[y];
    }
  }

  // The state of a walk at x: x is closed, and so is all that has been visited below it.
  ghost predicate Below(g: Graph, rank: map<Ref, nat>, before: Ids, ids: Ids, x: Ref, touched: set<Ref>) {
    && g.Valid() && g.Ranked(rank) && Covers(g, ids) && x in g.fathers
    && Grown(before, ids) && Untouched(before, ids, touched + {x})
    && Swept(g, ids, touched) && Closed(g, ids, x)
    && forall y :: y in touched ==> rank[y] < rank[x]
  }

  // A finished walk from x.
  ghost predicate Walked(g: Graph, rank: map<Ref, nat>, before: Ids, ids: Ids, x: Ref, touched: set<Ref>) {
    && g.Valid() && g.Ranked(rank) && Covers(g, ids) && x in touched
    && Grown(before, ids) && Untouched(before, ids, touched) && Swept(g, ids, touched)
    && forall y :: y in touched ==> rank[y] <= rank[x]
  }

  lemma StartBelow(g: Graph, rank: map<Ref, nat>, before: Ids, ids: Ids, x: Ref)
    requires g.Valid() && g.Ranked(rank) && Covers(g, before) && x in g.fathers && g.fathers[x] != {} && Named(before, x)
    requires Grown(before, ids) && Untouched(before, ids, {x}) && Covers(g, ids) && Closed(g, ids, x)
    ensures Below(g, rank, before, ids, x, {}) && AllNamed(ids)
  {
    hide Grown, Named, AllNamed, Closed;
    assert {} + {x} == {x};
    StartNamed(g, before, ids, x);
  }

  lemma StartNamed(g: Graph, before: Ids, ids: Ids, x: Ref)
    requires g.Valid() && Covers(g, before) && x in g.fathers && g.fathers[x] != {} && x !in g.fathers[x] && Named(before, x)
    requires Untouched(before, ids, {x}) && Covers(g, ids) && Closed(g, ids, x)
    ensures AllNamed(ids)
  {
    var f :| f in g.fathers[x];
    assert before[f].Keys != {};
    var l :| l in before[f];
    assert l + [g.frag[x]] in ids[x];
  }

  lemma JoinBelow(g: Graph, rank: map<Ref, nat>, before: Ids, now: Ids, after: Ids, x: Ref, c: Ref, touched: set<Ref>, t: set<Ref>)
    requires Below(g, rank, before, now, x, touched) && Walked(g, rank, now, after, c, t)
    requires c in g.fathers && rank[c] < rank[x] && AllNamed(now)
    ensures Below(g, rank, before, after, x, touched + t) && c in touched + t && AllNamed(after)
  {
    GrownTransitive(before, now, after);
    GrownNamed(now, after);
    SweptUnion(g, now, after, touched, t);
    ClosedKept(g, now, after, t, x);
  }

  lemma ItemWalked(g: Graph, rank: map<Ref, nat>, before: Ids, ids: Ids, c: Ref)
    requires g.Valid() && g.Ranked(rank) && Covers(g, ids) && c in g.items && Closed(g, ids, c)
    requires Grown(before, ids) && Untouched(before, ids, {c})
    ensures Walked(g, rank, before, ids, c, {c})
  {}

  lemma FinishBelow(g: Graph, rank: map<Ref, nat>, before: Ids, ids: Ids, x: Ref, touched: set<Ref>)
    requires Below(g, rank, before, ids, x, touched)
    requires forall y :: y in g.fathers && x in g.fathers[y] ==> y in touched
    ensures Walked(g, rank, before, ids, x, touched + {x})
  {}

  // Every link except those into x is closed.
  ghost predicate AlmostClosed(g: Graph, ids: Ids, x: Ref) {
    g.Valid() && Covers(g, ids) && forall y :: y in g.fathers && y != x ==> Closed(g, ids, y)
  }

  // g' is g with x added or given another father; roots stay roots.
  ghost predicate Extends(g: Graph, g': Graph, x: Ref) {
    && g.Valid() && g'.Valid() && x in g'.fathers && g'.fathers.Keys == g.fathers.Keys + {x}
    && g'.fathers[x] != {} && g'.items - {x} == g.items - {x}
    && (forall y :: y in g.fathers && y != x ==> g'.fathers[y] == g.fathers[y])
    && (forall y :: y in g.fathers ==> g'.frag[y] == g.frag[y])
    && (x in g.fathers ==> g.fathers[x] != {} && g.fathers[x] <= g'.fathers[x] && (x in g.items <==> x in g'.items))
  }

  lemma {:induction false} LabelStays(g: Graph, g': Graph, x: Ref, y: Ref, l: Label)
    requires Extends(g, g', x) && g.IsLabel(y, l)
    ensures g'.IsLabel(y, l)
    decreases |l|
  {
    if |l| > 1 {
      var f :| f in g.fathers[y] && g.IsLabel(f, l[..|l| - 1]);
      LabelStays(g, g', x, f, l[..|l| - 1]);
    }
  }

  // A new object starts without identifiers.
  function Opened(ids: Ids, x: Ref): Ids {
    if x in ids then ids else ids[x := map[]]
  }

  // The tables carry over to the extended graph.
  lemma ExtendedTables(g: Graph, g': Graph, ids: Ids, scopeIndex: map<Label, Ref>, pubIndex: map<Label, Ref>, x: Ref)
    requires Extends(g, g', x) && Tables(g, ids, scopeIndex, pubIndex) && Exact(g, ids)
    ensures var ids' := Opened(ids, x);
      Tables(g', ids', scopeIndex, pubIndex) && AlmostClosed(g', ids', x)
  {
    hide Indexed, Graph.IsLabel;
    var ids' := Opened(ids, x);
    forall y, l | y in ids' && l in ids'[y]
      ensures g'.IsLabel(y, l)
    {
      LabelStays(g, g', x, y, l);
    }
    ExactIffClosed(g, ids);
    forall y | y in g'.fathers && y != x
      ensures Closed(g', ids', y)
    {
      assert Closed(g, ids, y);
    }
    ReindexedItems(g.items, g'.items, ids, ids', scopeIndex, pubIndex, x);
  }

  lemma ReindexedItems(items: set<Ref>, items': set<Ref>, ids: Ids, ids': Ids,
                       scopeIndex: map<Label, Ref>, pubIndex: map<Label, Ref>, x: Ref)
    requires Indexed(items, ids, scopeIndex, pubIndex) && ids' == Opened(ids, x)
    requires items' - {x} == items - {x} && (x in ids ==> (x in items <==> x in items'))
    ensures Indexed(items', ids', scopeIndex, pubIndex)
  {
    assert forall y :: y != x && y in items' ==> y in items' - {x};
    assert forall y :: y != x && y in items ==> y in items - {x};
    assert forall y :: y in ids ==> (y in items <==> y in items');
  }

  ghost predicate Indexed(items: set<Ref>, ids: Ids, scopeIndex: map<Label, Ref>, pubIndex: map<Label, Ref>) {
    && (forall x, l :: x in ids && l in ids[x] ==>
          if x in items then l in pubIndex && pubIndex[l] == x else l in scopeIndex && scopeIndex[l] == x)
    && (forall l :: l in scopeIndex ==> scopeIndex[l] in ids && scopeIndex[l] !in items && l in ids[scopeIndex[l]])
    && (forall l :: l in pubIndex ==> pubIndex[l] in ids && pubIndex[l] in items && l in ids[pubIndex[l]])
  }

  // The tables hold only path labels and the indexes are their exact inverse.
  ghost predicate Tables(g: Graph, ids: Ids, scopeIndex: map<Label, Ref>, pubIndex: map<Label, Ref>) {
    g.Valid() && Covers(g, ids) && Sound(g, ids) && Indexed(g.items, ids, scopeIndex, pubIndex)
  }

  lemma PrefixNamesFather(g: Graph, ids: Ids, scopeIndex: map<Label, Ref>, pubIndex: map<Label, Ref>, x: Ref,
                          prefix: Label, id: Fragment)
    requires Tables(g, ids, scopeIndex, pubIndex) && Exact(g, ids) && x in g.fathers && prefix + [id] in ids[x]
    ensures g.frag[x] == id && (prefix in scopeIndex <==> g.fathers[x] != {})
    ensures prefix in scopeIndex ==> scopeIndex[prefix] in g.fathers[x] && prefix in ids[scopeIndex[prefix]]
  {
    hide Sound;
    var full := prefix + [id];
    assert g.IsLabel(x, full) && full[..|full| - 1] == prefix;
    if g.fathers[x] != {} {
      var f :| f in g.fathers[x] && g.IsLabel(f, prefix);
      assert f !in g.items && prefix in ids[f];
    }
  }

  lemma NobodyElse(g: Graph, ids: Ids, x: Ref, l: Label)
    requires g.Valid() && g.Unambiguous() && Covers(g, ids) && Sound(g, ids) && g.IsLabel(x, l) && l !in ids[x]
    ensures forall y :: y in ids ==> l !in ids[y]
  {
    forall y | y in ids && l in ids[y]
      ensures false
    {
      LabelUnique(g, x, y, l);
    }
  }

  lemma AddedIndexed(items: set<Ref>, ids: Ids, scopeIndex: map<Label, Ref>, pubIndex: map<Label, Ref>, x: Ref, l: Label)
    requires Indexed(items, ids, scopeIndex, pubIndex) && x in ids && forall y :: y in ids ==> l !in ids[y]
    ensures var ids' := ids[x := ids[x][l := NobodyYet]];
      Indexed(items, ids', if x in items then scopeIndex else scopeIndex[l := x], if x in items then pubIndex[l := x] else pubIndex)
  {
    assert forall m :: m in scopeIndex ==> m != l;
    assert forall m :: m in pubIndex ==> m != l;
  }

  lemma AddedSound(g: Graph, ids: Ids, x: Ref, l: Label)
    requires g.Valid() && Covers(g, ids) && Sound(g, ids) && x in ids && g.IsLabel(x, l)
    ensures var ids' := ids[x := ids[x][l := NobodyYet]];
      Covers(g, ids') && Sound(g, ids')
  {}

  lemma AddedTables(g: Graph, ids: Ids, scopeIndex: map<Label, Ref>, pubIndex: map<Label, Ref>, x: Ref, l: Label)
    requires Tables(g, ids, scopeIndex, pubIndex) && g.Unambiguous() && g.IsLabel(x, l) && l !in ids[x]
    ensures var ids' := ids[x := ids[x][l := NobodyYet]];
      && Grown(ids, ids') && Untouched(ids, ids', {x}) && l in ids'[x]
      && Tables(g, ids', if x in g.items then scopeIndex else scopeIndex[l := x], if x in g.items then pubIndex[l := x] else pubIndex)
  {
    NobodyElse(g, ids, x, l);
    AddedIndexed(g.items, ids, scopeIndex, pubIndex, x, l);
    AddedSound(g, ids, x, l);
  }

  /** The links and kinds of all objects, as the objects record them. */
  datatype Links = Links(fathers: map<Ref, set<Ref>>, childrenScopes: map<Ref, set<Ref>>, informationItems: map<Ref, set<Ref>>,
                         items: set<Ref>, strategy: map<Ref, nat>)
  {
    ghost function Of(frag: map<Ref, Fragment>): Graph {
      Graph(fathers, frag, items)
    }

    function AddRoot(x: Ref, strat: nat): Links {
      Links(fathers[x := {}], childrenScopes[x := {}], informationItems[x := {}], items, strategy[x := strat])
    }

    // Link x under f at both ends; an x not seen before starts with nothing below it.
    function Add(f: Ref, x: Ref, item: bool, strat: nat): Links {
      Links(fathers[x := (if x in fathers then fathers[x] else {}) + {f}],
            if item then WithKey(childrenScopes, x) else PutIn(childrenScopes, f, x),
            if item then PutIn(informationItems, f, x) else WithKey(informationItems, x),
            if item then items + {x} else items,
            if x in strategy then strategy else strategy[x := strat])
    }

    // Take the link of x under f out at both ends.
    function Unlink(f: Ref, x: Ref): Links {
      Links(if x in fathers then fathers[x := fathers[x] - {f}] else fathers,
            if x in items then childrenScopes else TakeOut(childrenScopes, f, x),
            if x in items then TakeOut(informationItems, f, x) else informationItems,
            items, strategy)
    }

    function Delete(x: Ref): Links {
      Links(fathers - {x}, childrenScopes - {x}, informationItems - {x}, items - {x}, strategy - {x})
    }
  }

  ghost predicate LinksOk(links: Links, frag: map<Ref, Fragment>, rank: map<Ref, nat>) {
    && links.Of(frag).Valid() && links.Of(frag).Ranked(rank) && links.Of(frag).Unambiguous()
    && links.strategy.Keys == links.fathers.Keys
    && Lists(links.Of(frag), links.childrenScopes, false) && Lists(links.Of(frag), links.informationItems, true)
  }

  // x under f, whether x is new or gets another father.
  ghost function WithLink(g: Graph, f: Ref, x: Ref, frag: Fragment, item: bool): Graph {
    Graph(g.fathers[x := (if x in g.fathers then g.fathers[x] else {}) + {f}], g.frag[x := frag],
          if item then g.items + {x} else g.items)
  }

  lemma NewStrategy(links: Links, f: Ref, x: Ref, item: bool, strat: nat)
    ensures links.Add(f, x, item, strat).strategy == if x in links.strategy then links.strategy else links.strategy[x := strat]
  {}

  // No object under f ends in this fragment.
  ghost predicate NoSibling(g: Graph, f: Ref, frag: Fragment)
    requires g.Valid()
  {
    forall y :: y in g.fathers && f in g.fathers[y] ==> g.frag[y] != frag
  }

  // What linking x under f requires of the graph.
  ghost predicate Linkable(g: Graph, f: Ref, x: Ref, frag: Fragment, item: bool) {
    && g.Valid() && g.Unambiguous() && f in g.fathers && f !in g.items && f != x && NoSibling(g, f, frag)
    && (x in g.fathers ==> g.fathers[x] != {} && g.frag[x] == frag && (x in g.items <==> item))
    && (x !in g.fathers ==> forall y :: y in g.fathers ==> x !in g.fathers[y])
  }

  lemma LinkValid(g: Graph, f: Ref, x: Ref, frag: Fragment, item: bool)
    requires Linkable(g, f, x, frag, item)
    ensures Extends(g, WithLink(g, f, x, frag, item), x)
  {
    hide Graph.Unambiguous, NoSibling;
    assert x !in g.fathers ==> x !in g.items;
    assert WithLink(g, f, x, frag, item).Valid();
  }

  lemma LinkUnambiguous(g: Graph, f: Ref, x: Ref, frag: Fragment, item: bool)
    requires Linkable(g, f, x, frag, item) && WithLink(g, f, x, frag, item).Valid()
    ensures WithLink(g, f, x, frag, item).Unambiguous()
  {
    var g' := WithLink(g, f, x, frag, item);
    forall y, z, h | y in g'.fathers && z in g'.fathers && h in g'.fathers[y] && h in g'.fathers[z] && g'.frag[y] == g'.frag[z]
      ensures y == z
    {
      assert y != x ==> y in g.fathers && h in g.fathers[y] && g.frag[y] == g'.frag[y];
      assert z != x ==> z in g.fathers && h in g.fathers[z] && g.frag[z] == g'.frag[z];
    }
  }

  function WithKey(m: map<Ref, set<Ref>>, x: Ref): map<Ref, set<Ref>> {
    if x in m then m else m[x := {}]
  }

  function PutIn(m: map<Ref, set<Ref>>, f: Ref, x: Ref): map<Ref, set<Ref>> {
    var n := WithKey(m, x);
    n[f := (if f in n then n[f] else {}) + {x}]
  }

  function TakeOut(m: map<Ref, set<Ref>>, f: Ref, x: Ref): map<Ref, set<Ref>> {
    if f in m then m[f := m[f] - {x}] else m
  }

  // Each table of children lists exactly the objects of its kind.
  ghost predicate Lists(g: Graph, m: map<Ref, set<Ref>>, item: bool) {
    && m.Keys == g.fathers.Keys
    && forall f, x :: f in m && x in m[f] <==> x in g.fathers && (x in g.items <==> item) && f in g.fathers[x]
  }

  lemma LinkLists(g: Graph, f: Ref, x: Ref, frag: Fragment, item: bool, m: map<Ref, set<Ref>>)
    requires Linkable(g, f, x, frag, item) && Lists(g, m, item)
    ensures Lists(WithLink(g, f, x, frag, item), PutIn(m, f, x), item)
  {
    hide Graph.Unambiguous, NoSibling;
    var g', m' := WithLink(g, f, x, frag, item), PutIn(m, f, x);
    assert x !in g.fathers ==> x !in g.items;
    forall h, y
      ensures h in m' && y in m'[h] <==> y in g'.fathers && (y in g'.items <==> item) && h in g'.fathers[y]
    {
      assert h in m && y in m[h] <==> y in g.fathers && (y in g.items <==> item) && h in g.fathers[y];
    }
  }

  lemma LinkKeepsOthers(g: Graph, f: Ref, x: Ref, frag: Fragment, item: bool, m: map<Ref, set<Ref>>)
    requires Linkable(g, f, x, frag, item) && Lists(g, m, !item)
    ensures Lists(WithLink(g, f, x, frag, item), WithKey(m, x), !item)
  {
    hide Graph.Unambiguous, NoSibling;
    var g', m' := WithLink(g, f, x, frag, item), WithKey(m, x);
    assert x !in g.fathers ==> x !in g.items;
    forall h, y
      ensures h in m' && y in m'[h] <==> y in g'.fathers && (y in g'.items <==> !item) && h in g'.fathers[y]
    {
      assert h in m && y in m[h] <==> y in g.fathers && (y in g.items <==> !item) && h in g.fathers[y];
    }
  }

  lemma LinkKeepsLinks(links: Links, frags: map<Ref, Fragment>, f: Ref, x: Ref, frag: Fragment, item: bool, strat: nat,
                       rank: map<Ref, nat>, rank': map<Ref, nat>)
    requires LinksOk(links, frags, rank) && Linkable(links.Of(frags), f, x, frag, item)
    requires var g' := WithLink(links.Of(frags), f, x, frag, item); g'.Valid() && g'.Ranked(rank')
    ensures var g' := WithLink(links.Of(frags), f, x, frag, item);
      && Extends(links.Of(frags), g', x) && links.Add(f, x, item, strat).Of(frags[x := frag]) == g'
      && LinksOk(links.Add(f, x, item, strat), frags[x := frag], rank')
  {
    hide Lists, Graph.Unambiguous, Graph.Ranked, Graph.Valid, Linkable, Extends, PutIn, WithKey;
    var g := links.Of(frags);
    LinkValid(g, f, x, frag, item);
    LinkUnambiguous(g, f, x, frag, item);
    if item {
      LinkLists(g, f, x, frag, item, links.informationItems);
      LinkKeepsOthers(g, f, x, frag, item, links.childrenScopes);
    } else {
      LinkLists(g, f, x, frag, item, links.childrenScopes);
      LinkKeepsOthers(g, f, x, frag, item, links.informationItems);
    }
  }

  ghost predicate Fresh(fathers: map<Ref, set<Ref>>, next: Ref) {
    forall x :: x in fathers ==> x < next
  }

  lemma LinkFacts(g: Graph, f: Ref, x: Ref, frag: Fragment, item: bool, rank: map<Ref, nat>, ids: Ids, next: Ref)
    requires WithLink(g, f, x, frag, item).Valid() && WithLink(g, f, x, frag, item).Ranked(rank)
    requires AllNamed(ids) && Fresh(g.fathers, next) && x <= next
    ensures var g' := WithLink(g, f, x, frag, item);
      && x in g'.fathers && x in g'.frag && g'.fathers[x] != {} && x in rank
      && Named(Opened(ids, x), x) && Fresh(g'.fathers, if x == next then next + 1 else next)
  {
    assert f in WithLink(g, f, x, frag, item).fathers[x];
  }

  lemma Settled(g: Graph, rank: map<Ref, nat>, before: Ids, ids: Ids, scopeIndex: map<Label, Ref>, pubIndex: map<Label, Ref>, x: Ref, touched: set<Ref>)
    requires Walked(g, rank, before, ids, x, touched) && AlmostClosed(g, before, x) && Tables(g, ids, scopeIndex, pubIndex)
    ensures Exact(g, ids) && Grown(before, ids)
  {
    SweepClosesAll(g, before, ids, touched, x);
    ExactIffClosed(g, ids);
  }

  // The host is a publisher of x under l, also if x did not have this identifier.
  function Enlisted(ids: Ids, x: Ref, l: Label, host: Host): Ids {
    if x in ids then
      var pair := if l in ids[x] then ids[x][l] else NobodyYet;
      ids[x := ids[x][l := pair.(publishers := pair.publishers + {host})]]
    else ids
  }

  lemma EnlistedIs(ids: Ids, x: Ref, l: Label, host: Host)
    requires x in ids && l in ids[x]
    ensures Enlisted(ids, x, l, host) ==
            if host in ids[x][l].publishers then ids
            else ids[x := ids[x][l := ids[x][l].(publishers := ids[x][l].publishers + {host})]]
  {
    if host in ids[x][l].publishers {
      assert ids[x][l].publishers + {host} == ids[x][l].publishers;
      assert ids[x][l := ids[x][l]] == ids[x];
    }
  }

  lemma EnlistedAnew(ids: Ids, x: Ref, l: Label, host: Host)
    requires x in ids && l !in ids[x]
    ensures Enlisted(ids, x, l, host) == ids[x := ids[x][l := HostPair({host}, {})]]
  {
    assert NobodyYet.publishers + {host} == {host};
  }

  lemma TablesCover(g: Graph, ids: Ids, scopeIndex: map<Label, Ref>, pubIndex: map<Label, Ref>)
    requires Tables(g, ids, scopeIndex, pubIndex)
    ensures g.Valid() && Covers(g, ids)
  {}

  // An identifier that spells no path breaks exactness.
  lemma EnlistedBreaks(g: Graph, ids: Ids, x: Ref, l: Label, host: Host)
    requires g.Valid() && Covers(g, ids) && Exact(g, ids) && x in ids && l !in ids[x]
    ensures var ids' := Enlisted(ids, x, l, host); Covers(g, ids') && !Exact(g, ids')
  {
    hide Graph.IsLabel, Graph.Valid;
    var ids' := Enlisted(ids, x, l, host);
    assert l in ids'[x] && !g.IsLabel(x, l);
  }

  // Only the keys matter to exactness and indexing.
  ghost predicate SameKeys(ids: Ids, ids': Ids) {
    ids.Keys == ids'.Keys && forall y, l :: y in ids ==> (l in ids[y] <==> l in ids'[y])
  }

  lemma SameKeysIndexed(items: set<Ref>, ids: Ids, ids': Ids, scopeIndex: map<Label, Ref>, pubIndex: map<Label, Ref>)
    requires SameKeys(ids, ids') && Indexed(items, ids, scopeIndex, pubIndex)
    ensures Indexed(items, ids', scopeIndex, pubIndex)
  {}

  lemma SameKeysExact(g: Graph, ids: Ids, ids': Ids)
    requires SameKeys(ids, ids') && g.Valid() && Covers(g, ids)
    ensures Covers(g, ids') && (Exact(g, ids) ==> Exact(g, ids')) && (Sound(g, ids) ==> Sound(g, ids'))
  {
    hide Graph.IsLabel, Graph.Valid;
  }

  lemma SameKeysNamed(ids: Ids, ids': Ids)
    requires SameKeys(ids, ids') && AllNamed(ids)
    ensures AllNamed(ids')
  {
    forall y | y in ids'
      ensures ids'[y] != map[]
    {
      assert ids[y].Keys != {};
      var l :| l in ids[y];
      assert l in ids'[y];
    }
  }

  lemma EnlistedKeeps(g: Graph, ids: Ids, scopeIndex: map<Label, Ref>, pubIndex: map<Label, Ref>, x: Ref, l: Label, host: Host)
    requires Tables(g, ids, scopeIndex, pubIndex) && Exact(g, ids) && AllNamed(ids) && x in ids && l in ids[x]
    ensures var ids' := Enlisted(ids, x, l, host);
      Tables(g, ids', scopeIndex, pubIndex) && Exact(g, ids') && AllNamed(ids')
  {
    hide Graph.IsLabel, Graph.Valid, Indexed, Sound, Exact, AllNamed;
    var ids' := Enlisted(ids, x, l, host);
    assert SameKeys(ids, ids');
    SameKeysIndexed(g.items, ids, ids', scopeIndex, pubIndex);
    SameKeysExact(g, ids, ids');
    SameKeysNamed(ids, ids');
  }

  // ------------------------------------------------------------------
  // What the operations decide

  datatype Result = Success | Exists | DoesNotExist | StrategyMismatch | FatherDoesNotExist
    | InfoItemWithSameId | ScopeWithSameId | ScopeDoesNotExist | InfoDoesNotExist

  // An identifier taken by no index leads to no object under the father.
  lemma FreeMeansNoSibling(g: Graph, ids: Ids, scopeIndex: map<Label, Ref>, pubIndex: map<Label, Ref>, prefix: Label, id: Fragment)
    requires Tables(g, ids, scopeIndex, pubIndex) && Exact(g, ids) && prefix in scopeIndex
    requires prefix + [id] !in scopeIndex && prefix + [id] !in pubIndex
    ensures scopeIndex[prefix] in g.fathers && scopeIndex[prefix] !in g.items && NoSibling(g, scopeIndex[prefix], id)
  {
    hide Graph.IsLabel;
    var f := scopeIndex[prefix];
    ExactIffClosed(g, ids);
    forall y | y in g.fathers && f in g.fathers[y]
      ensures g.frag[y] != id
    {
      assert Closed(g, ids, y);
      assert prefix + [g.frag[y]] in ids[y];
    }
  }

  // Ranks for a link into an object with nothing below it.
  ghost function LeafRank(g: Graph, rank: map<Ref, nat>, x: Ref): map<Ref, nat>
    requires rank.Keys == g.fathers.Keys
  {
    map y | y in g.fathers.Keys + {x} :: if y == x then 0 else rank[y] + 1
  }

  lemma LeafRanked(g: Graph, f: Ref, x: Ref, frag: Fragment, item: bool, rank: map<Ref, nat>)
    requires Linkable(g, f, x, frag, item) && g.Ranked(rank) && WithLink(g, f, x, frag, item).Valid()
    requires forall y :: y in g.fathers ==> x !in g.fathers[y]
    ensures WithLink(g, f, x, frag, item).Ranked(LeafRank(g, rank, x))
  {
    hide Graph.Unambiguous, NoSibling;
  }

  // A new object can be linked under the scope the prefix names.
  lemma NewLinkable(links: Links, frags: map<Ref, Fragment>, rank: map<Ref, nat>, ids: Ids, scopeIndex: map<Label, Ref>,
                    pubIndex: map<Label, Ref>, next: Ref, prefix: Label, id: Fragment, item: bool)
    requires LinksOk(links, frags, rank) && Tables(links.Of(frags), ids, scopeIndex, pubIndex) && Exact(links.Of(frags), ids)
    requires Fresh(links.fathers, next) && prefix in scopeIndex && prefix + [id] !in scopeIndex && prefix + [id] !in pubIndex
    ensures var g, f := links.Of(frags), scopeIndex[prefix];
      && Linkable(g, f, next, id, item) && WithLink(g, f, next, id, item).Valid() && rank.Keys == g.fathers.Keys
      && WithLink(g, f, next, id, item).Ranked(LeafRank(g, rank, next)) && f in links.strategy && next !in ids
  {
    hide Indexed, Sound, Exact, Graph.Unambiguous, NoSibling;
    var g, f := links.Of(frags), scopeIndex[prefix];
    FreeMeansNoSibling(g, ids, scopeIndex, pubIndex, prefix, id);
    LinkValid(g, f, next, id, item);
    LeafRanked(g, f, next, id, item, rank);
  }

  // An existing object can be given the scope the prefix names as another father.
  lemma OldLinkable(g: Graph, ids: Ids, scopeIndex: map<Label, Ref>, pubIndex: map<Label, Ref>, prefix: Label, old_: Label, x: Ref)
    requires Tables(g, ids, scopeIndex, pubIndex) && g.Unambiguous() && Exact(g, ids) && prefix in scopeIndex && |old_| > 1
    requires x in ids && old_ in ids[x] && prefix + [old_[|old_| - 1]] !in scopeIndex && prefix + [old_[|old_| - 1]] !in pubIndex
    requires scopeIndex[prefix] != x
    ensures x in g.fathers && g.frag[x] == old_[|old_| - 1]
    ensures Linkable(g, scopeIndex[prefix], x, g.frag[x], x in g.items)
    ensures WithLink(g, scopeIndex[prefix], x, g.frag[x], x in g.items).Valid()
  {
    hide Indexed, Graph.Unambiguous, NoSibling;
    assert g.IsLabel(x, old_);
    FreeMeansNoSibling(g, ids, scopeIndex, pubIndex, prefix, g.frag[x]);
    LinkValid(g, scopeIndex[prefix], x, g.frag[x], x in g.items);
  }

  lemma LinkParts(g: Graph, f: Ref, x: Ref, frag: Fragment, item: bool)
    ensures var g' := WithLink(g, f, x, frag, item);
      && x in g'.fathers && f in g'.fathers[x] && x in g'.frag && g'.frag[x] == frag
      && (x in g'.items <==> item || x in g.items)
  {}

  lemma LinkKeepsItems(g: Graph, f: Ref, x: Ref, frag: Fragment, item: bool)
    ensures x in WithLink(g, f, x, frag, item).items <==> item || x in g.items
  {}

  lemma OpenedParts(ids: Ids, x: Ref, f: Ref, prefix: Label)
    requires f in ids && prefix in ids[f]
    ensures var ids' := Opened(ids, x);
      x in ids' && f in ids' && prefix in ids'[f] && (x !in ids ==> forall l :: l !in ids'[x]) && (x in ids ==> ids' == ids)
  {}

  lemma GrownBlank(a: Ids, b: Ids, x: Ref, l: Label)
    requires Grown(a, b) && x in a && x in b && l !in a[x] && l in b[x]
    ensures b[x][l] == NobodyYet
  {}

  lemma EnlistedFirst(ids: Ids, x: Ref, l: Label, host: Host)
    requires x in ids && l in ids[x] && ids[x][l] == NobodyYet
    ensures var ids' := Enlisted(ids, x, l, host); x in ids' && l in ids'[x] && ids'[x][l] == HostPair({host}, {})
  {}

  lemma LinkRanked(g: Graph, f: Ref, x: Ref, frag: Fragment, item: bool, rank: map<Ref, nat>)
    requires g.Valid() && g.Ranked(rank) && f in g.fathers && x in g.fathers && rank[f] > rank[x]
    requires WithLink(g, f, x, frag, item).Valid()
    ensures WithLink(g, f, x, frag, item).Ranked(rank)
  {}

  /** Linking a scope under itself or under something below it leaves no closed finite tables: the
      walk of such a republication cannot end. Otherwise ranks exist and the walk does end. */
  lemma LinkBelowItselfNeverCloses(g: Graph, f: Ref, x: Ref, frag: Fragment, ids: Ids)
    requires g.Valid() && x in g.fathers && f in g.fathers && AtOrBelow(g, f, x)
    requires WithLink(g, f, x, frag, false).Valid() && Covers(WithLink(g, f, x, frag, false), ids) && ids[x] != map[]
    ensures !AllClosed(WithLink(g, f, x, frag, false), ids)
  {
    var g' := WithLink(g, f, x, frag, false);
    var path :| Descends(g, path) && path[0] == x && path[|path| - 1] == f;
    var cycle := path + [x];
    forall i | 0 <= i < |cycle| - 1
      ensures cycle[i] in g'.fathers[cycle[i + 1]]
    {
      if i < |path| - 1 { assert path[i] in g.fathers[path[i + 1]]; }
    }
    CycleNeverCloses(g', ids, cycle);
  }

  // With x linked under f, no tables that give x an identifier are closed.
  ghost predicate NeverCloses(g: Graph, f: Ref, x: Ref, frag: Fragment) {
    var g' := WithLink(g, f, x, frag, false);
    forall ids: Ids :: g'.Valid() && Covers(g', ids) && x in ids && ids[x] != map[] ==> !AllClosed(g', ids)
  }

  // The two graphs on the way to a scope under itself.
  lemma RootOnly(g: Graph, a: Ref, frag: Fragment)
    requires g == Graph(map[], map[], {})
    ensures WithRoot(g, a, frag).Valid() && WithRoot(g, a, frag).fathers.Keys == {a}
    ensures forall x, l :: WithRoot(g, a, frag).IsLabel(x, l) ==> |l| == 1
  {}

  lemma RootAndChild(g: Graph, a: Ref, f: Ref, b: Ref)
    requires g == Graph(map[], map[], {}) && f == a && b != a
    ensures var g' := WithLink(WithRoot(g, a, 1), f, b, 2, false);
      g'.Valid() && forall x :: !g'.IsLabel(x, [1, 2] + [2])
  {
    var g', l := WithLink(WithRoot(g, a, 1), f, b, 2, false), [1, 2] + [2];
    assert l[..|l| - 1] == [1, 2];
    assert !g'.IsLabel(a, [1, 2]);
  }

  lemma SelfIsBelow(g: Graph, x: Ref)
    requires g.Valid() && x in g.fathers
    ensures AtOrBelow(g, x, x) && forall frag :: NeverCloses(g, x, x, frag)
  {
    hide AllClosed, WithLink, Graph.Valid;
    assert Descends(g, [x]);
    forall frag, ids: Ids | WithLink(g, x, x, frag, false).Valid() && Covers(WithLink(g, x, x, frag, false), ids) && x in ids && ids[x] != map[]
      ensures !AllClosed(WithLink(g, x, x, frag, false), ids)
    {
      LinkBelowItselfNeverCloses(g, x, x, frag, ids);
    }
  }

  lemma NotIndexed(items: set<Ref>, ids: Ids, scopeIndex: map<Label, Ref>, pubIndex: map<Label, Ref>, x: Ref, l: Label)
    requires Indexed(items, ids, scopeIndex, pubIndex) && x in ids && l !in scopeIndex && l !in pubIndex
    ensures l !in ids[x]
  {}

  lemma RootReady(links: Links, frags: map<Ref, Fragment>, rank: map<Ref, nat>, x: Ref, frag: Fragment, strat: nat)
    requires LinksOk(links, frags, rank) && Fresh(links.fathers, x)
    ensures x !in links.fathers && links.Of(frags).Valid() && links.Of(frags).Unambiguous()
    ensures links.AddRoot(x, strat).Of(frags[x := frag]) == WithRoot(links.Of(frags), x, frag)
    ensures Fresh(links.AddRoot(x, strat).fathers, x + 1)
  {}

  lemma RootLinks(links: Links, frags: map<Ref, Fragment>, rank: map<Ref, nat>, x: Ref, frag: Fragment, strat: nat)
    requires LinksOk(links, frags, rank) && x !in links.fathers
    requires WithRoot(links.Of(frags), x, frag).Valid() && WithRoot(links.Of(frags), x, frag).Unambiguous()
    ensures LinksOk(links.AddRoot(x, strat), frags[x := frag], rank[x := 0])
  {
    hide Graph.Unambiguous, Graph.Ranked, Graph.Valid, Lists, WithRoot;
    var g := links.Of(frags);
    RootOf(links, frags, x, frag, strat);
    RootRanked(g, x, frag, rank);
    RootLists(g, x, frag, links.childrenScopes, false);
    RootLists(g, x, frag, links.informationItems, true);
  }

  lemma RootStrategy(links: Links, x: Ref, strat: nat)
    ensures var links' := links.AddRoot(x, strat); links'.strategy == links.strategy[x := strat] && links'.items == links.items
  {}

  lemma RootOf(links: Links, frags: map<Ref, Fragment>, x: Ref, frag: Fragment, strat: nat)
    ensures links.AddRoot(x, strat).Of(frags[x := frag]) == WithRoot(links.Of(frags), x, frag)
  {}

  lemma RootRanked(g: Graph, x: Ref, frag: Fragment, rank: map<Ref, nat>)
    requires g.Valid() && g.Ranked(rank) && x !in g.fathers && WithRoot(g, x, frag).Valid()
    ensures WithRoot(g, x, frag).Ranked(rank[x := 0])
  {}

  lemma RootLists(g: Graph, x: Ref, frag: Fragment, m: map<Ref, set<Ref>>, item: bool)
    requires g.Valid() && x !in g.fathers && Lists(g, m, item)
    ensures Lists(WithRoot(g, x, frag), m[x := {}], item)
  {
    hide Graph.Unambiguous;
    var g', m' := WithRoot(g, x, frag), m[x := {}];
    forall f, y
      ensures f in m' && y in m'[f] <==> y in g'.fathers && (y in g'.items <==> item) && f in g'.fathers[y]
    {
      assert f in m && y in m[f] <==> y in g.fathers && (y in g.items <==> item) && f in g.fathers[y];
    }
  }

  // A new root scope.
  ghost function WithRoot(g: Graph, x: Ref, frag: Fragment): Graph {
    Graph(g.fathers[x := {}], g.frag[x := frag], g.items)
  }

  lemma {:induction false} RootLabels(g: Graph, x: Ref, frag: Fragment, y: Ref, l: Label)
    requires g.Valid() && x !in g.fathers && WithRoot(g, x, frag).Valid()
    ensures y != x ==> (WithRoot(g, x, frag).IsLabel(y, l) <==> g.IsLabel(y, l))
    ensures WithRoot(g, x, frag).IsLabel(x, l) <==> l == [frag]
    decreases |l|
  {
    var g' := WithRoot(g, x, frag);
    if |l| > 1 && y in g.fathers {
      forall f | f in g.fathers[y]
        ensures g'.IsLabel(f, l[..|l| - 1]) <==> g.IsLabel(f, l[..|l| - 1])
      {
        assert f != x;
        RootLabels(g, x, frag, f, l[..|l| - 1]);
      }
    }
  }

  lemma RootTables(g: Graph, ids: Ids, scopeIndex: map<Label, Ref>, pubIndex: map<Label, Ref>, x: Ref, frag: Fragment, host: Host)
    requires Tables(g, ids, scopeIndex, pubIndex) && Exact(g, ids) && AllNamed(ids) && x !in g.fathers && [frag] !in scopeIndex && g.Unambiguous()
    ensures var g', ids', index' := WithRoot(g, x, frag), ids[x := map[[frag] := HostPair({host}, {})]], scopeIndex[[frag] := x];
      && g'.Valid() && g'.Unambiguous() && Tables(g', ids', index', pubIndex) && Exact(g', ids') && AllNamed(ids')
  {
    hide Graph.IsLabel, Graph.Unambiguous, Graph.Valid, Exact, Sound, Indexed, AllNamed, WithRoot;
    RootUnambiguous(g, ids, scopeIndex, pubIndex, x, frag);
    RootExact(g, ids, x, frag, HostPair({host}, {}));
    RootItems(g, ids, x, frag);
    RootIndexed(g, ids, scopeIndex, pubIndex, x, frag, HostPair({host}, {}));
  }

  lemma RootExact(g: Graph, ids: Ids, x: Ref, frag: Fragment, pair: HostPair)
    requires g.Valid() && Covers(g, ids) && Exact(g, ids) && AllNamed(ids) && x !in g.fathers && WithRoot(g, x, frag).Valid()
    ensures var g', ids' := WithRoot(g, x, frag), ids[x := map[[frag] := pair]];
      Covers(g', ids') && Exact(g', ids') && Sound(g', ids') && AllNamed(ids')
  {
    hide Graph.IsLabel;
    var g', ids' := WithRoot(g, x, frag), ids[x := map[[frag] := pair]];
    forall y, l | y in g'.fathers
      ensures l in ids'[y] <==> g'.IsLabel(y, l)
    {
      RootLabels(g, x, frag, y, l);
    }
    assert [frag] in ids'[x];
  }

  // Items are never roots.
  lemma RootItems(g: Graph, ids: Ids, x: Ref, frag: Fragment)
    requires g.Valid() && Covers(g, ids) && Exact(g, ids)
    ensures forall y :: y in ids && [frag] in ids[y] ==> y !in g.items
    ensures WithRoot(g, x, frag).items == g.items
  {
    forall y | y in ids && [frag] in ids[y]
      ensures y !in g.items
    {
      assert g.IsLabel(y, [frag]);
    }
  }

  lemma RootUnambiguous(g: Graph, ids: Ids, scopeIndex: map<Label, Ref>, pubIndex: map<Label, Ref>, x: Ref, frag: Fragment)
    requires Tables(g, ids, scopeIndex, pubIndex) && Exact(g, ids) && x !in g.fathers && [frag] !in scopeIndex && g.Unambiguous()
    ensures WithRoot(g, x, frag).Valid() && WithRoot(g, x, frag).Unambiguous()
  {
    hide Graph.Unambiguous, Indexed, Sound, Exact;
    OtherRoots(g, ids, scopeIndex, pubIndex, frag);
    RootValid(g, x, frag);
  }

  lemma OtherRoots(g: Graph, ids: Ids, scopeIndex: map<Label, Ref>, pubIndex: map<Label, Ref>, frag: Fragment)
    requires Tables(g, ids, scopeIndex, pubIndex) && Exact(g, ids) && [frag] !in scopeIndex
    ensures forall y :: y in g.fathers && g.fathers[y] == {} ==> g.frag[y] != frag
  {
    hide Sound;
    forall y | y in g.fathers && g.fathers[y] == {}
      ensures g.frag[y] != frag
    {
      assert g.IsLabel(y, [g.frag[y]]);
      assert [g.frag[y]] in ids[y];
    }
  }

  lemma RootValid(g: Graph, x: Ref, frag: Fragment)
    requires g.Valid() && g.Unambiguous() && x !in g.fathers
    requires forall y :: y in g.fathers && g.fathers[y] == {} ==> g.frag[y] != frag
    ensures WithRoot(g, x, frag).Valid() && WithRoot(g, x, frag).Unambiguous()
  {}

  lemma RootIndexed(g: Graph, ids: Ids, scopeIndex: map<Label, Ref>, pubIndex: map<Label, Ref>, x: Ref, frag: Fragment, pair: HostPair)
    requires g.Valid() && Covers(g, ids) && Indexed(g.items, ids, scopeIndex, pubIndex) && x !in g.fathers && [frag] !in scopeIndex
    requires forall y :: y in ids && [frag] in ids[y] ==> y !in g.items
    ensures Indexed(g.items, ids[x := map[[frag] := pair]], scopeIndex[[frag] := x], pubIndex)
  {}

  // Under every identifier but l, recorded hosts are as before and new identifiers have none.
  ghost predicate OthersKept(before: Ids, after: Ids, l: Label) {
    && before.Keys <= after.Keys
    && (forall x, m :: x in before && m in before[x] && m != l ==> m in after[x] && after[x][m] == before[x][m])
    && (forall x, m :: x in after && m in after[x] && m != l && (x !in before || m !in before[x]) ==> after[x][m] == NobodyYet)
  }

  lemma OthersHas(before: Ids, after: Ids, l: Label, x: Ref, m: Label)
    requires OthersKept(before, after, l) && x in before && m in before[x] && m != l
    ensures x in after && m in after[x]
  {}

  lemma GrownOthers(a: Ids, b: Ids, x: Ref, l: Label, host: Host)
    requires Grown(Opened(a, x), b)
    ensures OthersKept(a, Enlisted(b, x, l, host), l)
  {}

  lemma EnlistedOthers(a: Ids, x: Ref, l: Label, host: Host)
    ensures OthersKept(a, Enlisted(a, x, l, host), l) && OthersKept(a, a, l)
  {}

  lemma RootOthers(a: Ids, x: Ref, frag: Fragment, pair: HostPair)
    requires x !in a
    ensures OthersKept(a, a[x := map[[frag] := pair]], [frag])
  {}

  // The host is the one user of x under its identifier l.
  ghost predicate First(ids: Ids, x: Ref, l: Label, host: Host) {
    x in ids && l in ids[x] && ids[x][l] == HostPair({host}, {})
  }

  // Objects may have gone; those that stay keep their strategies.
  ghost predicate Left(before: map<Ref, nat>, after: map<Ref, nat>) {
    forall y :: y in after ==> y in before && after[y] == before[y]
  }

  lemma NoneLeft(strategy: map<Ref, nat>)
    ensures Left(strategy, strategy)
  {}

  lemma LeftAgain(a: map<Ref, nat>, b: map<Ref, nat>, c: map<Ref, nat>)
    requires Left(a, b) && Left(b, c)
    ensures Left(a, c)
  {}

  /** What any operation does to the strategies: an object that is there afterwards was there before
      with the same strategy, or was created by the operation and never seen before. */
  ghost predicate StrategyStep(before: map<Ref, nat>, next: Ref, after: map<Ref, nat>, next': Ref) {
    && next <= next' && (forall y :: y in before ==> y < next)
    && forall y :: y in after ==> (y in before && after[y] == before[y]) || next <= y < next'
  }

  lemma StepsFrom(strategy: map<Ref, nat>, next: Ref, strat: nat)
    requires forall y :: y in strategy ==> y < next
    ensures StrategyStep(strategy, next, strategy, next) && StrategyStep(strategy, next, strategy[next := strat], next + 1)
    ensures forall after :: Left(strategy, after) ==> StrategyStep(strategy, next, after, next)
  {}

  // The strategies and the next free reference after each operation of a run.
  datatype Strategies = Strategies(of: map<Ref, nat>, next: Ref)

  ghost predicate StrategyRun(run: seq<Strategies>) {
    forall k :: 0 <= k < |run| - 1 ==> StrategyStep(run[k].of, run[k].next, run[k + 1].of, run[k + 1].next)
  }

  /** Over every run: an object has one strategy, that of its creation, and once removed it does not
      come back. */
  lemma {:induction false} StrategyForLife(run: seq<Strategies>, i: nat, j: nat, x: Ref)
    requires StrategyRun(run) && i <= j < |run| && x in run[i].of && x in run[j].of
    ensures run[j].of[x] == run[i].of[x] && forall k :: i <= k <= j ==> x in run[k].of
    decreases j - i
  {
    if i < j {
      RunRefs(run, i, j - 1, x);
      assert StrategyStep(run[j - 1].of, run[j - 1].next, run[j - 1 + 1].of, run[j - 1 + 1].next);
      StrategyForLife(run, i, j - 1, x);
    }
  }

  lemma {:induction false} RunRefs(run: seq<Strategies>, i: nat, j: nat, x: Ref)
    requires StrategyRun(run) && i <= j < |run| - 1 && x in run[i].of
    ensures x < run[j].next
    decreases j - i
  {
    if i < j {
      RunRefs(run, i, j - 1, x);
      assert StrategyStep(run[j - 1].of, run[j - 1].next, run[j - 1 + 1].of, run[j - 1 + 1].next);
    } else {
      assert StrategyStep(run[i].of, run[i].next, run[i + 1].of, run[i + 1].next);
    }
  }
}
