/** The rendezvous point that maintains the information graph: the identifier walk of
    src/scope.cc and src/informationitem.cc, and the operations of src/localrv.cc that call it.
    Objects are named by references into the tables of one class. */
module Rendezvous {
  import opened IdTables
  import opened InfoGraph
  import opened Removal

  class Point {
    var links: Links
    var ids: Ids
    var scopeIndex: map<Label, Ref>
    var pubIndex: map<Label, Ref>
    var nextRef: Ref  // the next object to be allocated
    ghost var frag: map<Ref, Fragment>
    ghost var rank: map<Ref, nat>

    ghost function G(): Graph
      reads this`links, this`frag
    {
      links.Of(frag)
    }

    // Links are recorded at both ends, have no cycle and spell unambiguous labels.
    ghost predicate Structured()
      reads this`links, this`frag, this`rank
    {
      LinksOk(links, frag, rank)
    }

    // What holds before, during and after every walk.
    ghost predicate Walking()
      reads this
    {
      Structured() && Tables(G(), ids, scopeIndex, pubIndex)
    }

    lemma WalkingMeans()
      requires Walking()
      ensures G().Valid() && G().Unambiguous() && Covers(G(), ids)
    {}

    lemma FatherOf(x: Ref, f: Ref)
      requires Walking() && x in links.fathers && f in links.fathers[x]
      ensures f in ids && f != x && f !in links.items
      ensures forall l :: l in ids[f] ==> G().IsLabel(f, l)
    {}

    method AddId(x: Ref, l: Label)
      requires Walking() && x in ids && G().IsLabel(x, l)
      modifies this`ids, this`scopeIndex, this`pubIndex
      ensures Walking() && Grown(old(ids), ids) && Untouched(old(ids), ids, {x}) && l in ids[x]
    {
      hide Structured, Tables, Grown, Untouched, Graph.Valid, Graph.Unambiguous, Graph.IsLabel, Covers;
      WalkingMeans();
      SameIds(ids, x);
      if l !in ids[x] {
        AddedTables(G(), ids, scopeIndex, pubIndex, x, l);
        if x in links.items {
          pubIndex := pubIndex[l := x];
        } else {
          scopeIndex := scopeIndex[l := x];
        }
        ids := ids[x := ids[x][l := NobodyYet]];
      }
    }

    // One father's identifiers.
    method UpdateFrom(x: Ref, suffixID: Fragment, f: Ref)
      requires Walking() && x in ids && x in links.fathers && f in links.fathers[x] && x in frag && suffixID == frag[x]
      modifies this`ids, this`scopeIndex, this`pubIndex
      ensures Walking() && Grown(old(ids), ids) && Untouched(old(ids), ids, {x})
      ensures x in ids && f in ids && Extended(ids, f, x, suffixID)
    {
      hide Structured, Tables, Grown, Graph.Valid, Graph.Unambiguous, Graph.IsLabel, Covers;
      WalkingMeans();
      FatherOf(x, f);
      SameIds(ids, x);
      ghost var g := G();
      var ls := ids[f].Keys;
      while ls != {}
        invariant Walking() && Grown(old(ids), ids) && Untouched(old(ids), ids, {x}) && ls <= ids[f].Keys
        invariant forall l :: l in ids[f] && l !in ls ==> l + [suffixID] in ids[x]
      {
        ghost var now := ids;
        var l :| l in ls;
        LabelExtends(g, f, x, l);
        AddId(x, l + [suffixID]);
        GrownTransitive(old(ids), now, ids);
        GrownKeys(now, ids, x);
        ls := ls - {l};
      }
    }

    // One object: every identifier of every father, extended by the suffix, becomes its own.
    method UpdateIDs(x: Ref, suffixID: Fragment)
      requires Walking() && x in ids && x in links.fathers && links.fathers[x] != {} && x in frag && suffixID == frag[x]
      modifies this`ids, this`scopeIndex, this`pubIndex
      ensures Walking() && Grown(old(ids), ids) && Untouched(old(ids), ids, {x})
      ensures G().Valid() && Covers(G(), ids) && Closed(G(), ids, x)
    {
      hide Structured, Tables, Grown, Graph.Valid, Graph.Unambiguous, Graph.IsLabel, Extended;
      WalkingMeans();
      SameIds(ids, x);
      ghost var g := G();
      var fs := links.fathers[x];
      while fs != {}
        invariant Walking() && Grown(old(ids), ids) && Untouched(old(ids), ids, {x}) && fs <= links.fathers[x]
        invariant forall f :: f in links.fathers[x] - fs ==> f != x && f in ids && Extended(ids, f, x, suffixID)
      {
        ghost var now := ids;
        var f :| f in fs;
        FatherOf(x, f);
        UpdateFrom(x, suffixID, f);
        GrownTransitive(old(ids), now, ids);
        ExtendedKept(now, ids, links.fathers[x] - fs, x, suffixID);
        fs := fs - {f};
      }
      AllExtendedCloses(g, ids, x);
    }

    // The last fragment of any one identifier is the object's own.
    method SuffixOf(c: Ref) returns (suffix: Fragment)
      requires Walking() && c in ids && ids[c] != map[]
      ensures c in frag && suffix == frag[c]
    {
      assert ids[c].Keys != {};
      var l :| l in ids[c];
      assert G().IsLabel(c, l);
      suffix := l[|l| - 1];
    }

    lemma ChildFacts(x: Ref, c: Ref)
      requires Walking() && x in links.fathers && x in links.childrenScopes && c in links.childrenScopes[x]
      ensures c in ids && c in links.fathers && x in links.fathers[c] && c in frag && c !in links.items && c in rank && x in rank && rank[c] < rank[x]
    {
      hide Indexed, Sound, Graph.Unambiguous;
    }

    lemma ItemFacts(x: Ref, c: Ref)
      requires Walking() && x in links.fathers && x in links.informationItems && c in links.informationItems[x]
      ensures c in ids && c in links.fathers && x in links.fathers[c] && c in frag && c in links.items && c in rank && x in rank && rank[c] < rank[x]
    {
      hide Indexed, Sound, Graph.Unambiguous;
    }

    // Children and links.items together are everything directly below x.
    lemma DirectlyBelow(x: Ref, touched: set<Ref>)
      requires Walking() && x in links.fathers
      requires x in links.childrenScopes && x in links.informationItems && links.childrenScopes[x] <= touched && links.informationItems[x] <= touched
      ensures forall y :: y in links.fathers && x in links.fathers[y] ==> y in touched
    {}

    lemma KeysHere()
      requires Valid()
      ensures links.informationItems.Keys == links.fathers.Keys == ids.Keys == links.strategy.Keys && G().Valid()
    {
      hide Sound, Exact, Graph.Unambiguous, Graph.Ranked, Indexed, AllNamed, Fresh;
    }

    lemma RankedHere()
      requires Walking()
      ensures G().Valid() && G().Ranked(rank) && Covers(G(), ids)
      ensures links.childrenScopes.Keys == links.informationItems.Keys == links.fathers.Keys == ids.Keys == links.strategy.Keys
    {}

    // The items of x, after its child scopes.
    method UpdateItems(x: Ref, ghost was: Ids, ghost before: set<Ref>) returns (ghost touched: set<Ref>)
      requires Walking() && AllNamed(ids) && x in links.fathers && Below(G(), rank, was, ids, x, before)
      modifies this`ids, this`scopeIndex, this`pubIndex
      ensures Walking() && AllNamed(ids) && Below(G(), rank, was, ids, x, touched)
      ensures before <= touched && x in links.informationItems && links.informationItems[x] <= touched
    {
      hide Walking, Structured, Tables, Grown, Untouched, Graph.Valid, Graph.Ranked, Covers, Swept, Closed, Below, Walked,
           Named, AllNamed;
      RankedHere();
      ghost var g := G();
      touched := before;
      var ps := links.informationItems[x];
      while ps != {}
        invariant Walking() && AllNamed(ids) && Below(g, rank, was, ids, x, touched) && before <= touched
        invariant ps <= links.informationItems[x] && links.informationItems[x] - ps <= touched
      {
        ghost var now := ids;
        var c :| c in ps;
        ItemFacts(x, c);
        NamedFacts(ids, c);
        var suffix := SuffixOf(c);
        UpdateIDs(c, suffix);
        ItemWalked(g, rank, now, ids, c);
        JoinBelow(g, rank, was, now, ids, x, c, touched, {c});
        touched := touched + {c};
        ps := ps - {c};
      }
    }

    /** The recursive walk: afterwards x and everything below it is closed, nothing else changed,
        identifiers were only added, and both indexes are still exact. */
    method RecursivelyUpdateIDs(x: Ref, suffixID: Fragment) returns (ghost touched: set<Ref>)
      requires Walking() && x in links.fathers && links.fathers[x] != {} && x in frag && suffixID == frag[x]
      requires Named(ids, x) && x in rank
      modifies this`ids, this`scopeIndex, this`pubIndex
      ensures Walking() && AllNamed(ids) && Walked(G(), rank, old(ids), ids, x, touched)
      decreases rank[x], 1
    {
      hide Walking, Structured, Tables, Grown, Untouched, Graph.Valid, Graph.Ranked, Covers, Swept, Closed, Below, Walked,
           Named, AllNamed;
      RankedHere();
      ghost var g, was := G(), ids;
      UpdateIDs(x, suffixID);
      StartBelow(g, rank, was, ids, x);
      touched := UpdateChildren(x, was);
      touched := UpdateItems(x, was, touched);
      DirectlyBelow(x, touched);
      FinishBelow(g, rank, was, ids, x, touched);
      touched := touched + {x};
    }

    // The child scopes of x and everything below them.
    method UpdateChildren(x: Ref, ghost was: Ids) returns (ghost touched: set<Ref>)
      requires Walking() && AllNamed(ids) && x in links.fathers && x in rank && Below(G(), rank, was, ids, x, {})
      modifies this`ids, this`scopeIndex, this`pubIndex
      ensures Walking() && AllNamed(ids) && Below(G(), rank, was, ids, x, touched)
      ensures x in links.childrenScopes && links.childrenScopes[x] <= touched
      decreases rank[x], 0
    {
      hide Walking, Structured, Tables, Grown, Untouched, Graph.Valid, Graph.Ranked, Covers, Swept, Closed, Below, Walked,
           Named, AllNamed;
      RankedHere();
      ghost var g := G();
      touched := {};
      var cs := links.childrenScopes[x];
      while cs != {}
        invariant Walking() && AllNamed(ids) && Below(g, rank, was, ids, x, touched)
        invariant cs <= links.childrenScopes[x] && links.childrenScopes[x] - cs <= touched
      {
        ghost var now := ids;
        var c :| c in cs;
        ChildFacts(x, c);
        NamedFacts(ids, c);
        var suffix := SuffixOf(c);
        ghost var t := RecursivelyUpdateIDs(c, suffix);
        JoinBelow(g, rank, was, now, ids, x, c, touched, t);
        touched := touched + t;
        cs := cs - {c};
      }
    }

    /** Between operations: identifiers are exactly the path labels, and every object has one. */
    ghost predicate Valid()
      reads this
    {
      Walking() && AllNamed(ids) && Exact(G(), ids) && Fresh(links.fathers, nextRef)
    }

    // Ready to walk from x: everything else is closed and named.
    ghost predicate Ready(x: Ref)
      reads this
    {
      && Walking() && Named(ids, x) && x in links.fathers && x in frag && links.fathers[x] != {} && x in rank
      && AlmostClosed(G(), ids, x) && Fresh(links.fathers, nextRef)
    }

    constructor ()
      ensures Valid() && links.fathers == map[] && scopeIndex == map[] && pubIndex == map[]
    {
      links := Links(map[], map[], map[], {}, map[]);
      ids, scopeIndex, pubIndex, nextRef, frag, rank := map[], map[], map[], 0, map[], map[];
    }

    // Record the link at both ends; x is new or an object of the same kind and fragment.
    method Link(f: Ref, x: Ref, ghost fragment: Fragment, item: bool, strat: nat, ghost newRank: map<Ref, nat>)
      requires Valid() && x <= nextRef && Linkable(G(), f, x, fragment, item)
      requires WithLink(G(), f, x, fragment, item).Valid() && WithLink(G(), f, x, fragment, item).Ranked(newRank)
      modifies this`links, this`frag, this`rank, this`ids, this`nextRef
      ensures Ready(x) && G() == WithLink(old(G()), f, x, fragment, item)
      ensures ids == Opened(old(ids), x) && links == old(links).Add(f, x, item, strat)
      ensures nextRef == if x == old(nextRef) then old(nextRef) + 1 else old(nextRef)
    {
      hide LinksOk, Tables, Exact, Linkable, AlmostClosed, AllNamed, Named, Extends, Graph.Valid, Graph.Ranked,
           Covers, Fresh, WithLink, Links.Add, Opened;
      LinkKeepsLinks(links, frag, f, x, fragment, item, strat, rank, newRank);
      ExtendedTables(G(), WithLink(G(), f, x, fragment, item), ids, scopeIndex, pubIndex, x);
      LinkFacts(G(), f, x, fragment, item, newRank, ids, nextRef);
      links, frag, rank := links.Add(f, x, item, strat), frag[x := fragment], newRank;
      ids := Opened(ids, x);
      nextRef := if x == nextRef then nextRef + 1 else nextRef;
    }

    // The walk after linking a scope, and its one-object form for an item.
    method Settle(x: Ref, suffixID: Fragment, item: bool)
      requires Ready(x) && suffixID == frag[x] && (item <==> x in links.items)
      modifies this`ids, this`scopeIndex, this`pubIndex
      ensures Valid() && Grown(old(ids), ids)
    {
      hide LinksOk, Tables, Exact, AlmostClosed, AllNamed, Named, Graph.Valid, Graph.Ranked, Covers, Fresh, Walked,
           Grown, Closed, Untouched;
      ghost var g, was := G(), ids;
      RankedHere();
      if item {
        UpdateIDs(x, suffixID);
        StartBelow(g, rank, was, ids, x);
        ItemWalked(g, rank, was, ids, x);
        Settled(g, rank, was, ids, scopeIndex, pubIndex, x, {x});
      } else {
        ghost var touched := RecursivelyUpdateIDs(x, suffixID);
        Settled(g, rank, was, ids, scopeIndex, pubIndex, x, touched);
      }
    }

    /** Add a publisher under an identifier; false if it was there. A missing identifier is added too,
        and then the tables are no longer exact: every caller passes one the object has. */
    method UpdatePublishers(x: Ref, l: Label, host: Host) returns (added: bool)
      requires Valid() && x in ids
      modifies this`ids
      ensures ids == Enlisted(old(ids), x, l, host) && (Valid() <==> l in old(ids)[x])
      ensures added <==> l in old(ids)[x] ==> host !in old(ids)[x][l].publishers
    {
      hide LinksOk, Tables, Exact, AllNamed, Graph.Valid, Fresh, Enlisted;
      if l in ids[x] {
        EnlistedKeeps(G(), ids, scopeIndex, pubIndex, x, l, host);
        EnlistedIs(ids, x, l, host);
        added := host !in ids[x][l].publishers;
        if added {
          var pair := ids[x][l];
          ids := ids[x := ids[x][l := pair.(publishers := pair.publishers + {host})]];
        }
      } else {
        TablesCover(G(), ids, scopeIndex, pubIndex);
        EnlistedBreaks(G(), ids, x, l, host);
        EnlistedAnew(ids, x, l, host);
        ids := ids[x := ids[x][l := HostPair({host}, {})]];
        added := true;
      }
    }

    lemma StrategyHere(strat: nat)
      requires Valid()
      ensures StrategyStep(links.strategy, nextRef, links.strategy, nextRef)
      ensures StrategyStep(links.strategy, nextRef, links.strategy[nextRef := strat], nextRef + 1)
      ensures forall after :: Left(links.strategy, after) ==> StrategyStep(links.strategy, nextRef, after, nextRef)
    {
      hide Sound, Exact, Graph.Unambiguous, Lists, Indexed, Graph.Ranked, AllNamed, StrategyStep, Left;
      StepsFrom(links.strategy, nextRef, strat);
    }

    lemma ScopeFacts(l: Label)
      requires Valid() && l in scopeIndex
      ensures scopeIndex[l] in ids && scopeIndex[l] in links.fathers && scopeIndex[l] in links.strategy && scopeIndex[l] !in links.items
      ensures l in ids[scopeIndex[l]]
    {
      hide Sound, Exact, Graph.Unambiguous, Lists;
    }

    lemma NewFacts(prefix: Label, id: Fragment, item: bool)
      requires Valid() && prefix in scopeIndex && prefix + [id] !in scopeIndex && prefix + [id] !in pubIndex
      ensures Linkable(G(), scopeIndex[prefix], nextRef, id, item) && rank.Keys == links.fathers.Keys
      ensures var g' := WithLink(G(), scopeIndex[prefix], nextRef, id, item); g'.Valid() && g'.Ranked(LeafRank(G(), rank, nextRef))
      ensures nextRef !in ids && nextRef !in links.items && nextRef !in links.strategy
    {
      hide LinksOk, Tables, Exact, Linkable, Fresh, AllNamed, Graph.Ranked;
      NewLinkable(links, frag, rank, ids, scopeIndex, pubIndex, nextRef, prefix, id, item);
      FreshItems();
    }

    lemma FreshItems()
      requires Valid()
      ensures nextRef !in links.items && nextRef !in links.strategy
    {
      hide Sound, Exact, Graph.Unambiguous, Lists, Indexed, Graph.Ranked;
    }

    // A closed link carries the father's identifier down.
    lemma LinkNamed(f: Ref, x: Ref, prefix: Label)
      requires Valid() && x in links.fathers && f in links.fathers[x] && f in ids && prefix in ids[f]
      ensures x in ids && x in frag && prefix + [frag[x]] in ids[x]
    {
      hide Sound, Graph.Unambiguous, Lists, Indexed, Graph.Ranked, Graph.IsLabel, Exact, Fresh, AllNamed;
      ExactIffClosed(G(), ids);
      assert Closed(G(), ids, x);
    }

    /** A new object of either kind under the scope that `prefix` names, with its first publisher. */
    method Create(prefix: Label, id: Fragment, item: bool, strat: nat, host: Host)
      requires Valid() && prefix in scopeIndex && prefix + [id] !in scopeIndex && prefix + [id] !in pubIndex
      modifies this
      ensures Valid() && G() == WithLink(old(G()), old(scopeIndex)[prefix], old(nextRef), id, item)
      ensures (if item then ItemPublishers(prefix + [id]) else ScopePublishers(prefix + [id])) == {host}
      ensures OthersKept(old(ids), ids, prefix + [id]) && (!item ==> StrategyOf(prefix + [id], scopeIndex) == strat)
      ensures First(ids, old(nextRef), prefix + [id], host)
      ensures links.strategy == old(links.strategy)[old(nextRef) := strat] && nextRef == old(nextRef) + 1
    {
      hide LinksOk, Tables, Exact, Linkable, Fresh, AllNamed, Graph.Valid, Graph.Ranked, Covers, WithLink, LeafRank,
           AlmostClosed, Named, Opened, OthersKept, ItemPublishers, ScopePublishers, Links.Add, StrategyOf;
      var f, x := scopeIndex[prefix], nextRef;
      ScopeFacts(prefix);
      NewFacts(prefix, id, item);
      LinkParts(G(), f, x, id, item);
      NewStrategy(links, f, x, item, strat);
      Link(f, x, id, item, strat, LeafRank(G(), rank, x));
      OpenedParts(old(ids), x, f, prefix);
      AttachTo(f, x, prefix, id, item, host, old(ids));
      PublishersAt(x, prefix + [id]);
      LinkKeepsItems(old(G()), f, x, id, item);
      if !item { StrategyAt(x, prefix + [id]); }
    }

    // The rest of every link operation: walk, then add the publisher under the new identifier.
    method AttachTo(f: Ref, x: Ref, prefix: Label, id: Fragment, item: bool, host: Host, ghost was: Ids)
      requires Ready(x) && ids == Opened(was, x) && id == frag[x] && (item <==> x in links.items) && f in links.fathers[x]
      requires f in ids && prefix in ids[f] && x in ids && prefix + [id] !in ids[x]
      modifies this`ids, this`scopeIndex, this`pubIndex
      ensures Valid() && x in ids && prefix + [id] in ids[x] && ids[x][prefix + [id]] == HostPair({host}, {})
      ensures OthersKept(was, ids, prefix + [id])
    {
      hide LinksOk, Tables, Exact, Fresh, AllNamed, Graph.Valid, Graph.Ranked, Covers, AlmostClosed, Named, Grown,
           Enlisted, OthersKept, Opened;
      Settle(x, id, item);
      GrownOthers(was, ids, x, prefix + [id], host);
      GrownHas(old(ids), ids, f, prefix);
      LinkNamed(f, x, prefix);
      GrownBlank(old(ids), ids, x, prefix + [id]);
      EnlistedFirst(ids, x, prefix + [id], host);
      var added := UpdatePublishers(x, prefix + [id], host);
    }

    // The publishers of the object an index entry leads to.
    function ScopePublishers(l: Label): set<Host>
      reads this
    {
      if l in scopeIndex && scopeIndex[l] in ids && l in ids[scopeIndex[l]] then ids[scopeIndex[l]][l].publishers else {}
    }

    function ItemPublishers(l: Label): set<Host>
      reads this
    {
      if l in pubIndex && pubIndex[l] in ids && l in ids[pubIndex[l]] then ids[pubIndex[l]][l].publishers else {}
    }

    function StrategyOf(l: Label, index: map<Label, Ref>): nat
      reads this
    {
      if l in index && index[l] in links.strategy then links.strategy[index[l]] else 0
    }

    lemma IndexedItemFacts(l: Label)
      requires Valid() && l in pubIndex
      ensures pubIndex[l] in ids && pubIndex[l] in links.fathers && pubIndex[l] in links.items
      ensures l in ids[pubIndex[l]]
    {
      hide Sound, Exact, Graph.Unambiguous, Lists;
    }

    lemma PublishersAt(x: Ref, l: Label)
      requires Valid() && x in ids && l in ids[x]
      ensures (if x in links.items then ItemPublishers(l) else ScopePublishers(l)) == ids[x][l].publishers
    {
      hide Sound, Exact, Graph.Unambiguous, Lists, Graph.Ranked;
    }

    lemma StrategyAt(x: Ref, l: Label)
      requires Valid() && x in ids && l in ids[x] && x !in links.items
      ensures x in links.strategy && StrategyOf(l, scopeIndex) == links.strategy[x]
    {
      hide Sound, Exact, Graph.Unambiguous, Lists, Graph.Ranked;
    }

    method JoinScope(l: Label, strat: nat, host: Host) returns (r: Result)
      requires Valid() && l in scopeIndex
      modifies this`ids
      ensures Valid()
      ensures r == if old(StrategyOf(l, scopeIndex)) != strat then StrategyMismatch else if host in old(ScopePublishers(l)) then Exists else Success
      ensures r == Success ==> ScopePublishers(l) == old(ScopePublishers(l)) + {host}
      ensures OthersKept(old(ids), ids, l) && (r != Success ==> unchanged(this))
    {
      hide LinksOk, Tables, Exact, Fresh, AllNamed, Enlisted, OthersKept;
      ScopeFacts(l);
      var sc := scopeIndex[l];
      EnlistedOthers(ids, sc, l, host);
      if links.strategy[sc] == strat {
        EnlistedIs(ids, sc, l, host);
        var added := UpdatePublishers(sc, l, host);
        r := if added then Success else Exists;
      } else {
        r := StrategyMismatch;
      }
    }

    // The strategy compared for an item is its father's.
    method JoinItem(l: Label, same: bool, host: Host) returns (r: Result)
      requires Valid() && l in pubIndex
      modifies this`ids
      ensures Valid()
      ensures r == if !same then StrategyMismatch else if host in old(ItemPublishers(l)) then Exists else Success
      ensures r == Success ==> ItemPublishers(l) == old(ItemPublishers(l)) + {host}
      ensures OthersKept(old(ids), ids, l) && (r != Success ==> unchanged(this))
    {
      hide LinksOk, Tables, Exact, Fresh, AllNamed, Enlisted, OthersKept;
      IndexedItemFacts(l);
      EnlistedOthers(ids, pubIndex[l], l, host);
      if same {
        EnlistedIs(ids, pubIndex[l], l, host);
        var added := UpdatePublishers(pubIndex[l], l, host);
        r := if added then Success else Exists;
      } else {
        r := StrategyMismatch;
      }
    }

    method PublishRootScope(host: Host, id: Fragment, strat: nat) returns (r: Result)
      requires Valid()
      modifies this
      ensures Valid()
      ensures var full := [id];
        && (r == Success ==> host in ScopePublishers(full))
        && OthersKept(old(ids), ids, full) && (r != Success ==> unchanged(this))
      ensures r == if [id] !in old(scopeIndex) then Success
                   else if old(StrategyOf([id], scopeIndex)) != strat then StrategyMismatch
                   else if host in old(ScopePublishers([id])) then Exists else Success
      ensures G() == if [id] !in old(scopeIndex) then WithRoot(old(G()), old(nextRef), id) else old(G())
      ensures r == Success ==> StrategyOf([id], scopeIndex) == strat
      ensures links.strategy == if [id] !in old(scopeIndex) then old(links.strategy)[old(nextRef) := strat] else old(links.strategy)
      ensures StrategyStep(old(links.strategy), old(nextRef), links.strategy, nextRef)
    {
      hide StrategyStep, LinksOk, Tables, Exact, Fresh, AllNamed, Graph.Valid, Graph.Ranked, Graph.Unambiguous, WithRoot,
           OthersKept, ScopePublishers, ItemPublishers;
      EnlistedOthers(ids, nextRef, [id], host);
      StrategyHere(strat);
      if [id] !in scopeIndex {
        AddRoot(host, id, strat);
        r := Success;
      } else {
        r := JoinScope([id], strat, host);
      }
    }

    lemma RootIsNew()
      requires Valid()
      ensures nextRef !in ids
    {
      hide StrategyStep, Sound, Exact, Graph.Unambiguous, Lists, Graph.Ranked, Indexed;
    }

    method AddRoot(host: Host, id: Fragment, strat: nat)
      requires Valid() && [id] !in scopeIndex
      modifies this
      ensures Valid() && G() == WithRoot(old(G()), old(nextRef), id)
      ensures ScopePublishers([id]) == {host} && OthersKept(old(ids), ids, [id]) && StrategyOf([id], scopeIndex) == strat
      ensures links.strategy == old(links.strategy)[old(nextRef) := strat] && nextRef == old(nextRef) + 1
    {
      hide LinksOk, Tables, Exact, Fresh, AllNamed, Graph.Valid, Graph.Ranked, Graph.Unambiguous, WithRoot,
           Links.AddRoot, OthersKept, ScopePublishers, ItemPublishers, StrategyOf;
      RootIsNew();
      FreshItems();
      RootOthers(ids, nextRef, id, HostPair({host}, {}));
      RootReady(links, frag, rank, nextRef, id, strat);
      RootTables(G(), ids, scopeIndex, pubIndex, nextRef, id, host);
      RootLinks(links, frag, rank, nextRef, id, strat);
      RootStrategy(links, nextRef, strat);
      ids, scopeIndex := ids[nextRef := map[[id] := HostPair({host}, {})]], scopeIndex[[id] := nextRef];
      links, frag, rank := links.AddRoot(nextRef, strat), frag[nextRef := id], rank[nextRef := 0];
      nextRef := nextRef + 1;
      PublishersAt(nextRef - 1, [id]);
      StrategyAt(nextRef - 1, [id]);
    }

    method PublishInnerScope(host: Host, id: Fragment, prefix: Label, strat: nat) returns (r: Result)
      requires Valid()
      modifies this
      ensures Valid()
      ensures var full := prefix + [id];
        && (r == Success ==> host in ScopePublishers(full))
        && OthersKept(old(ids), ids, full) && (r != Success ==> unchanged(this))
      ensures var full := prefix + [id];
        && r == (if full in old(pubIndex) then InfoItemWithSameId
                 else if prefix !in old(scopeIndex) then FatherDoesNotExist
                 else if full !in old(scopeIndex) then (if old(StrategyOf(prefix, scopeIndex)) == strat then Success else StrategyMismatch)
                 else if old(StrategyOf(full, scopeIndex)) != strat then StrategyMismatch
                 else if host in old(ScopePublishers(full)) then Exists else Success)
        && G() == if r == Success && full !in old(scopeIndex)
                  then WithLink(old(G()), old(scopeIndex)[prefix], old(nextRef), id, false) else old(G())
      ensures r == Success ==> StrategyOf(prefix + [id], scopeIndex) == strat
      ensures links.strategy == if r == Success && prefix + [id] !in old(scopeIndex)
                                then old(links.strategy)[old(nextRef) := strat] else old(links.strategy)
      ensures StrategyStep(old(links.strategy), old(nextRef), links.strategy, nextRef)
      ensures r == Success && prefix + [id] !in old(scopeIndex) ==> First(ids, old(nextRef), prefix + [id], host)
    {
      hide StrategyStep, LinksOk, Tables, Exact, Fresh, AllNamed, Graph.Valid, WithLink, OthersKept, ScopePublishers, ItemPublishers;
      EnlistedOthers(ids, nextRef, prefix + [id], host);
      StrategyHere(strat);
      var full := prefix + [id];
      if full in pubIndex {
        r := InfoItemWithSameId;
      } else if prefix !in scopeIndex {
        r := FatherDoesNotExist;
      } else if full !in scopeIndex {
        ScopeFacts(prefix);
        if links.strategy[scopeIndex[prefix]] == strat {
          Create(prefix, id, false, strat, host);
          r := Success;
        } else {
          r := StrategyMismatch;
        }
      } else {
        r := JoinScope(full, strat, host);
      }
    }

    method AdvertiseInfo(host: Host, id: Fragment, prefix: Label, strat: nat) returns (r: Result)
      requires Valid()
      modifies this
      ensures Valid()
      ensures var full := prefix + [id];
        && (r == Success ==> host in ItemPublishers(full))
        && OthersKept(old(ids), ids, full) && (r != Success ==> unchanged(this))
      ensures var full := prefix + [id];
        && r == (if prefix !in old(scopeIndex) then FatherDoesNotExist
                 else if full in old(pubIndex) then
                   (if old(StrategyOf(prefix, scopeIndex)) != strat then StrategyMismatch
                    else if host in old(ItemPublishers(full)) then Exists else Success)
                 else if full in old(scopeIndex) then ScopeWithSameId
                 else if old(StrategyOf(prefix, scopeIndex)) == strat then Success else StrategyMismatch)
        && G() == if r == Success && full !in old(pubIndex)
                  then WithLink(old(G()), old(scopeIndex)[prefix], old(nextRef), id, true) else old(G())
      ensures links.strategy == if r == Success && prefix + [id] !in old(pubIndex)
                                then old(links.strategy)[old(nextRef) := strat] else old(links.strategy)
      ensures StrategyStep(old(links.strategy), old(nextRef), links.strategy, nextRef)
      ensures r == Success && prefix + [id] !in old(pubIndex) ==> First(ids, old(nextRef), prefix + [id], host)
    {
      hide StrategyStep, LinksOk, Tables, Exact, Fresh, AllNamed, Graph.Valid, WithLink, OthersKept, ScopePublishers, ItemPublishers;
      EnlistedOthers(ids, nextRef, prefix + [id], host);
      StrategyHere(strat);
      var full := prefix + [id];
      if prefix !in scopeIndex {
        return FatherDoesNotExist;
      }
      ScopeFacts(prefix);
      var same := links.strategy[scopeIndex[prefix]] == strat;
      if full in pubIndex {
        r := JoinItem(full, same, host);
      } else if full in scopeIndex {
        r := ScopeWithSameId;
      } else if same {
        Create(prefix, id, true, strat, host);
        r := Success;
      } else {
        r := StrategyMismatch;
      }
    }

    // An existing scope or item gets another father and the identifiers that come with it.
    method Relink(prefix: Label, named: Label, x: Ref, ghost newRank: map<Ref, nat>, host: Host)
      requires Valid() && prefix in scopeIndex && |named| > 1 && x in ids && named in ids[x] && scopeIndex[prefix] != x
      requires prefix + [named[|named| - 1]] !in scopeIndex && prefix + [named[|named| - 1]] !in pubIndex
      requires WithLink(G(), scopeIndex[prefix], x, named[|named| - 1], x in links.items).Valid()
      requires WithLink(G(), scopeIndex[prefix], x, named[|named| - 1], x in links.items).Ranked(newRank)
      modifies this
      ensures Valid() && G() == WithLink(old(G()), old(scopeIndex)[prefix], x, named[|named| - 1], x in old(links.items))
      ensures var full := prefix + [named[|named| - 1]];
        && (if x in old(links.items) then ItemPublishers(full) else ScopePublishers(full)) == {host}
        && OthersKept(old(ids), ids, full)
      ensures links.strategy == old(links.strategy) && nextRef == old(nextRef)
    {
      hide LinksOk, Tables, Exact, Linkable, Fresh, AllNamed, Graph.Valid, Graph.Ranked, Covers, WithLink,
           AlmostClosed, Named, Opened, OthersKept, ItemPublishers, ScopePublishers;
      var f, suffix, item := scopeIndex[prefix], named[|named| - 1], x in links.items;
      ScopeFacts(prefix);
      RelinkFacts(prefix, named, x);
      LinkParts(G(), f, x, suffix, item);
      NewStrategy(links, f, x, item, 0);
      Link(f, x, suffix, item, 0, newRank);
      OpenedParts(old(ids), x, f, prefix);
      AttachTo(f, x, prefix, suffix, item, host, old(ids));
      PublishersAt(x, prefix + [suffix]);
      LinkKeepsItems(old(G()), f, x, suffix, item);
    }

    lemma RelinkFacts(prefix: Label, named: Label, x: Ref)
      requires Valid() && prefix in scopeIndex && |named| > 1 && x in ids && named in ids[x] && scopeIndex[prefix] != x
      requires prefix + [named[|named| - 1]] !in scopeIndex && prefix + [named[|named| - 1]] !in pubIndex
      ensures Linkable(G(), scopeIndex[prefix], x, named[|named| - 1], x in links.items) && x in links.fathers && G().Valid()
      ensures WithLink(G(), scopeIndex[prefix], x, named[|named| - 1], x in links.items).Valid()
      ensures x < nextRef && x in links.strategy && prefix + [named[|named| - 1]] !in ids[x]
    {
      hide Graph.Ranked, Lists, Linkable, Indexed;
      OldLinkable(G(), ids, scopeIndex, pubIndex, prefix, named, x);
      NotIndexed(links.items, ids, scopeIndex, pubIndex, x, prefix + [named[|named| - 1]]);
    }

    // An item has nothing below it, so another link into it keeps the ranks falling.
    lemma ItemRanks(x: Ref, f: Ref, fragment: Fragment)
      requires Valid() && Linkable(G(), f, x, fragment, true) && x in links.items && WithLink(G(), f, x, fragment, true).Valid()
      ensures rank.Keys == links.fathers.Keys && WithLink(G(), f, x, fragment, true).Ranked(LeafRank(G(), rank, x))
    {
      hide Sound, Exact, Graph.Unambiguous, Lists, Indexed, Linkable, LeafRank, WithLink;
      LeafRanked(G(), f, x, fragment, true, rank);
    }

    lemma ScopeRanks(x: Ref, f: Ref, fragment: Fragment) returns (lifted: map<Ref, nat>)
      requires Valid() && G().Valid() && f in links.fathers && x in links.fathers && !AtOrBelow(G(), f, x)
      requires WithLink(G(), f, x, fragment, false).Valid()
      ensures WithLink(G(), f, x, fragment, false).Ranked(lifted)
    {
      hide Sound, Exact, Graph.Unambiguous, Lists, Indexed, Linkable, AtOrBelow, WithLink, Graph.Ranked;
      assert G().Ranked(rank);
      lifted := RanksForLink(G(), rank, f, x);
      LinkRanked(G(), f, x, fragment, false, lifted);
    }

    lemma FatherIsNotBelow(f: Ref, x: Ref)
      requires Valid() && G().Valid() && x in links.fathers && !AtOrBelow(G(), f, x)
      ensures f != x
    {
      hide Sound, Exact, Graph.Unambiguous, Lists, Indexed;
      assert Descends(G(), [x]);
    }

    /** Republishing an existing scope elsewhere. It must not be put at or below itself: the walk
        would not end (LinkBelowItselfNeverCloses). */
    method RepublishInnerScope(host: Host, named: Label, prefix: Label, strat: nat) returns (r: Result)
      requires Valid() && |named| > 1 && G().Valid()
      requires prefix in scopeIndex && named in scopeIndex && prefix + [named[|named| - 1]] !in scopeIndex
        && prefix + [named[|named| - 1]] !in pubIndex && StrategyOf(prefix, scopeIndex) == strat
        ==> !AtOrBelow(G(), scopeIndex[prefix], scopeIndex[named])
      modifies this
      ensures Valid()
      ensures var full := prefix + [named[|named| - 1]];
        && (r == Success ==> host in ScopePublishers(full))
        && OthersKept(old(ids), ids, full) && (r != Success ==> unchanged(this))
      ensures var full := prefix + [named[|named| - 1]];
        && r == (if full in old(pubIndex) then InfoItemWithSameId
                 else if prefix !in old(scopeIndex) then FatherDoesNotExist
                 else if named !in old(scopeIndex) then ScopeDoesNotExist
                 else if full !in old(scopeIndex) then (if old(StrategyOf(prefix, scopeIndex)) == strat then Success else StrategyMismatch)
                 else if old(StrategyOf(full, scopeIndex)) != strat then StrategyMismatch
                 else if host in old(ScopePublishers(full)) then Exists else Success)
        && G() == if r == Success && full !in old(scopeIndex)
                  then WithLink(old(G()), old(scopeIndex)[prefix], old(scopeIndex)[named], named[|named| - 1], false) else old(G())
      ensures links.strategy == old(links.strategy) && StrategyStep(old(links.strategy), old(nextRef), links.strategy, nextRef)
    {
      hide StrategyStep, LinksOk, Tables, Exact, Fresh, AllNamed, Graph.Valid, Graph.Ranked, WithLink, AtOrBelow, Linkable,
           OthersKept, ScopePublishers, ItemPublishers;
      EnlistedOthers(ids, nextRef, prefix + [named[|named| - 1]], host);
      StrategyHere(strat);
      var full := prefix + [named[|named| - 1]];
      if full in pubIndex {
        return InfoItemWithSameId;
      } else if prefix !in scopeIndex {
        return FatherDoesNotExist;
      } else if named !in scopeIndex {
        return ScopeDoesNotExist;
      }
      ScopeFacts(prefix);
      ScopeFacts(named);
      var f, x := scopeIndex[prefix], scopeIndex[named];
      if full in scopeIndex {
        r := JoinScope(full, strat, host);
      } else if links.strategy[f] == strat {
        FatherIsNotBelow(f, x);
        RelinkFacts(prefix, named, x);
        ghost var lifted := ScopeRanks(x, f, named[|named| - 1]);
        Relink(prefix, named, x, lifted, host);
        r := Success;
      } else {
        r := StrategyMismatch;
      }
    }

    /** The condition of RepublishInnerScope fails on a graph two publications away from the empty one:
        root scope 1, scope 2 in it, and now that scope under itself. The identifier it would get is
        free, and no tables close the link. */
    static method ScopeUnderItself(host: Host, strat: nat) returns (p: Point)
      ensures p.Valid() && p.G().Valid() && [1, 2] in p.scopeIndex && p.StrategyOf([1, 2], p.scopeIndex) == strat
      ensures [1, 2] + [2] !in p.scopeIndex && [1, 2] + [2] !in p.pubIndex
      ensures var x := p.scopeIndex[[1, 2]];
        x in p.G().fathers && AtOrBelow(p.G(), x, x) && NeverCloses(p.G(), x, x, 2)
    {
      hide LinksOk, Tables, Exact, Fresh, AllNamed, Graph.Valid, Graph.IsLabel, WithRoot, WithLink, OthersKept,
           AtOrBelow, NeverCloses;
      p := new Point();
      p.EmptyFacts();
      ghost var g, a := p.G(), p.nextRef;
      var r := p.PublishRootScope(host, 1, strat);
      RootOnly(g, a, 1);
      p.NotALabel([1] + [2]);
      p.ScopeFacts([1]);
      p.RootIsNew();
      ghost var f, b := p.scopeIndex[[1]], p.nextRef;
      r := p.PublishInnerScope(host, 2, [1], strat);
      assert [1] + [2] == [1, 2];
      p.ScopeFacts([1, 2]);
      RootAndChild(g, a, f, b);
      p.NotALabel([1, 2] + [2]);
      ghost var x := p.scopeIndex[[1, 2]];
      SelfIsBelow(p.G(), x);
    }

    lemma EmptyFacts()
      requires Valid() && links.fathers == map[]
      ensures G() == Graph(map[], map[], {})
    {
      hide Sound, Exact, Graph.Unambiguous, Lists, Graph.Ranked, Indexed;
      assert frag.Keys == {} && links.items == {};
    }

    // What spells no path is in no index.
    lemma NotALabel(l: Label)
      requires Valid() && G().Valid() && forall x :: !G().IsLabel(x, l)
      ensures l !in scopeIndex && l !in pubIndex
    {
      hide Graph.Unambiguous, Lists, Graph.Ranked, Graph.IsLabel, Graph.Valid;
      if l in scopeIndex { ScopeFacts(l); }
      if l in pubIndex { IndexedItemFacts(l); }
    }

    method ReadvertiseInfo(host: Host, named: Label, prefix: Label, strat: nat) returns (r: Result)
      requires Valid() && |named| > 1
      modifies this
      ensures Valid()
      ensures var full := prefix + [named[|named| - 1]];
        && (r == Success ==> host in ItemPublishers(full))
        && OthersKept(old(ids), ids, full) && (r != Success ==> unchanged(this))
      ensures var full := prefix + [named[|named| - 1]];
        && r == (if full in old(scopeIndex) then ScopeWithSameId
                 else if prefix !in old(scopeIndex) then FatherDoesNotExist
                 else if named !in old(pubIndex) then InfoDoesNotExist
                 else if full !in old(pubIndex) then (if old(StrategyOf(prefix, scopeIndex)) == strat then Success else StrategyMismatch)
                 else if old(StrategyOf(prefix, scopeIndex)) != strat then StrategyMismatch
                 else if host in old(ItemPublishers(full)) then Exists else Success)
        && G() == if r == Success && full !in old(pubIndex)
                  then WithLink(old(G()), old(scopeIndex)[prefix], old(pubIndex)[named], named[|named| - 1], true) else old(G())
      ensures links.strategy == old(links.strategy) && StrategyStep(old(links.strategy), old(nextRef), links.strategy, nextRef)
    {
      hide StrategyStep, LinksOk, Tables, Exact, Fresh, AllNamed, Graph.Valid, Graph.Ranked, WithLink, Linkable, LeafRank,
           OthersKept, ScopePublishers, ItemPublishers;
      EnlistedOthers(ids, nextRef, prefix + [named[|named| - 1]], host);
      StrategyHere(strat);
      var full := prefix + [named[|named| - 1]];
      if full in scopeIndex {
        return ScopeWithSameId;
      } else if prefix !in scopeIndex {
        return FatherDoesNotExist;
      } else if named !in pubIndex {
        return InfoDoesNotExist;
      }
      ScopeFacts(prefix);
      IndexedItemFacts(named);
      var f, x := scopeIndex[prefix], pubIndex[named];
      var same := links.strategy[f] == strat;
      if full in pubIndex {
        r := JoinItem(full, same, host);
      } else if same {
        RelinkFacts(prefix, named, x);
        ItemRanks(x, f, named[|named| - 1]);
        Relink(prefix, named, x, LeafRank(G(), rank, x), host);
        r := Success;
      } else {
        r := StrategyMismatch;
      }
    }

    // ------------------------------------------------------------------
    // Unpublication

    method RemovePublisher(x: Ref, l: Label, host: Host)
      requires Valid() && x in ids && l in ids[x]
      modifies this`ids
      ensures Valid() && ids == Delisted(old(ids), x, l, host)
    {
      hide LinksOk, Tables, Exact, AllNamed, Graph.Valid, Fresh, Covers;
      DelistedKeeps(G(), ids, scopeIndex, pubIndex, x, l, host);
      var pair := ids[x][l];
      ids := ids[x := ids[x][l := pair.(publishers := pair.publishers - {host})]];
    }

    lemma BranchFacts(f: Ref, x: Ref)
      requires Valid() && x in links.fathers && f in links.fathers[x]
      ensures f in ids && x in ids && x in frag && ids[x] != map[] && f != x && f !in links.items
      ensures forall l :: l in ids[f] ==> l + [frag[x]] in ids[x]
    {
      hide Sound, Exact, Graph.Unambiguous, Lists, Indexed, Graph.Ranked, Graph.IsLabel;
      FatherOf(x, f);
      UnderOwn(G(), ids, f, x);
    }

    // Whether anybody publishes or subscribes to x under f.
    method CheckForOtherPubSub(f: Ref, x: Ref) returns (some: bool)
      requires Valid() && x in links.fathers && f in links.fathers[x]
      ensures x in frag && (some <==> !Idle(ids, f, x, frag[x]))
    {
      hide LinksOk, Tables, Exact, AllNamed, Graph.Valid, Fresh, Covers;
      BranchFacts(f, x);
      var suffix := SuffixOf(x);
      var ls := ids[f].Keys;
      while ls != {}
        invariant ls <= ids[f].Keys
        invariant forall m :: m in ids[f] && m !in ls ==> Only(ids[x][m + [suffix]], {})
      {
        var l :| l in ls;
        var pair := ids[x][l + [suffix]];
        if pair.publishers != {} || pair.subscribers != {} {
          return true;
        }
        ls := ls - {l};
      }
      some := false;
    }

    // The same for a root scope, under all of its identifiers.
    method CheckForOtherPubSubOfRoot(x: Ref) returns (some: bool)
      requires x in ids
      ensures some <==> !forall m :: m in ids[x] ==> Only(ids[x][m], {})
    {
      var ls := ids[x].Keys;
      while ls != {}
        invariant ls <= ids[x].Keys
        invariant forall m :: m in ids[x] && m !in ls ==> Only(ids[x][m], {})
      {
        var l :| l in ls;
        var pair := ids[x][l];
        if pair.publishers != {} || pair.subscribers != {} {
          return true;
        }
        ls := ls - {l};
      }
      some := false;
    }

    // Take identifiers out of the index of one kind.
    method EraseIndexed(ls: set<Label>, item: bool)
      modifies this`scopeIndex, this`pubIndex
      ensures scopeIndex == (if item then old(scopeIndex) else old(scopeIndex) - ls)
      ensures pubIndex == (if item then old(pubIndex) - ls else old(pubIndex))
    {
      var rest := ls;
      assert old(scopeIndex) - (ls - rest) == old(scopeIndex) && old(pubIndex) - (ls - rest) == old(pubIndex);
      while rest != {}
        invariant rest <= ls
        invariant scopeIndex == (if item then old(scopeIndex) else old(scopeIndex) - (ls - rest))
        invariant pubIndex == (if item then old(pubIndex) - (ls - rest) else old(pubIndex))
      {
        var l :| l in rest;
        if item {
          pubIndex := pubIndex - {l};
        } else {
          scopeIndex := scopeIndex - {l};
        }
        rest := rest - {l};
      }
      assert ls - rest == ls;
    }

    // Take the identifiers through f out of the table of x and its index.
    method EraseBranch(f: Ref, x: Ref, suffix: Fragment)
      requires f in ids && x in ids && f != x
      modifies this`ids, this`scopeIndex, this`pubIndex
      ensures ids == old(ids)[x := old(ids)[x] - Under(old(ids), f, suffix)]
      ensures scopeIndex == (if x in links.items then old(scopeIndex) else old(scopeIndex) - Under(old(ids), f, suffix))
      ensures pubIndex == (if x in links.items then old(pubIndex) - Under(old(ids), f, suffix) else old(pubIndex))
    {
      var ls := ids[f].Keys;
      ghost var done: set<Label> := {};
      assert old(ids)[x] - done == old(ids)[x];
      while ls != {}
        invariant ls <= old(ids)[f].Keys && done <= Under(old(ids), f, suffix)
        invariant forall l :: l in old(ids)[f] && l !in ls ==> l + [suffix] in done
        invariant x in ids && ids[x] == old(ids)[x] - done && ids == old(ids)[x := ids[x]]
        invariant scopeIndex == (if x in links.items then old(scopeIndex) else old(scopeIndex) - done)
        invariant pubIndex == (if x in links.items then old(pubIndex) - done else old(pubIndex))
      {
        var l :| l in ls;
        ids := ids[x := ids[x] - {l + [suffix]}];
        EraseIndexed({l + [suffix]}, x in links.items);
        done := done + {l + [suffix]};
        ls := ls - {l};
      }
      assert done == Under(old(ids), f, suffix);
    }

    lemma CuttableFacts(f: Ref, x: Ref)
      requires Valid() && Cuttable(G(), f, x) && f in ids
      ensures x in ids && x in frag && ids[x] != map[] && x in links.fathers && (x in links.items <==> x in G().items)
      ensures f == x ==> links.fathers[x] <= {f}
    {
      hide Sound, Exact, Graph.Unambiguous, Lists, Indexed, Graph.Ranked, Graph.IsLabel;
    }

    /** Take out the link of x under f, and x with it if it was the last one. */
    method Drop(f: Ref, x: Ref)
      requires Valid() && Cuttable(G(), f, x) && f in ids
      modifies this
      ensures Valid() && G() == Cut(old(G()), f, {x}) && nextRef == old(nextRef)
      ensures x in old(ids) && x in old(frag) && x in old(links.fathers)
      ensures ids == Trimmed(old(links.fathers), old(ids), f, x, old(frag)[x])
      ensures var erased := Erased(old(links.fathers), old(ids), f, x, old(frag)[x]);
        && scopeIndex == (if x in old(links.items) then old(scopeIndex) else old(scopeIndex) - erased)
        && pubIndex == (if x in old(links.items) then old(pubIndex) - erased else old(pubIndex))
      ensures Left(old(links.strategy), links.strategy) && nextRef == old(nextRef)
    {
      hide LinksOk, Tables, Exact, AllNamed, Graph.Valid, Graph.Unambiguous, Graph.Ranked, Fresh, Covers, Cut,
           Cuttable, Under, Links.Unlink, Links.Delete;
      CuttableFacts(f, x);
      WalkingMeans();
      CutTables(G(), ids, scopeIndex, pubIndex, f, x);
      CutKeepsLinks(links, frag, rank, f, x);
      CutOf(links, frag, f, x);
      CutFresh(links, f, x, nextRef);
      var suffix := SuffixOf(x);
      if links.fathers[x] <= {f} {
        DropObject(f, x);
      } else {
        EraseBranch(f, x, suffix);
        links := links.Unlink(f, x);
      }
    }

    method DropObject(f: Ref, x: Ref)
      requires x in ids && x in links.fathers
      modifies this`links, this`ids, this`scopeIndex, this`pubIndex, this`frag, this`rank
      ensures links == old(links).Unlink(f, x).Delete(x) && ids == old(ids) - {x} && frag == old(frag) - {x} && rank == old(rank) - {x}
      ensures scopeIndex == (if x in old(links.items) then old(scopeIndex) else old(scopeIndex) - old(ids)[x].Keys)
      ensures pubIndex == (if x in old(links.items) then old(pubIndex) - old(ids)[x].Keys else old(pubIndex))
    {
      hide Links.Unlink, Links.Delete;
      EraseIndexed(ids[x].Keys, x in links.items);
      links, ids, frag, rank := links.Unlink(f, x).Delete(x), ids - {x}, frag - {x}, rank - {x};
    }

    // The prefix of an identifier names a father, unless the object is a root.
    lemma NamedBy(x: Ref, prefix: Label, id: Fragment)
      requires Valid() && x in ids && prefix + [id] in ids[x]
      ensures x in links.fathers && x in frag && frag[x] == id && (prefix in scopeIndex <==> links.fathers[x] != {})
      ensures prefix in scopeIndex ==> scopeIndex[prefix] in links.fathers[x] && scopeIndex[prefix] in ids && prefix in ids[scopeIndex[prefix]]
    {
      hide Graph.Unambiguous, Lists, Graph.Ranked, Sound, Exact, Indexed, Graph.IsLabel, AllNamed, Fresh;
      PrefixNamesFather(G(), ids, scopeIndex, pubIndex, x, prefix, id);
    }

    // Items are never roots and have nothing below them.
    lemma ItemCuttable(x: Ref, f: Ref)
      requires Valid() && x in links.items
      ensures x in links.fathers && links.fathers[x] != {} && (f in links.fathers[x] ==> Cuttable(G(), f, x))
    {
      hide Graph.Unambiguous, Lists, Graph.Ranked, Sound, Exact, Indexed;
    }

    lemma OwnerOf(x: Ref)
      requires Valid() && x in ids
      ensures forall y, l :: y in ids && l in ids[y] && l in ids[x] ==> y == x
    {
      hide Graph.Ranked, Sound, Exact, Indexed, Graph.IsLabel, Lists;
      OneOwner(G(), ids, x);
    }

    lemma ErasedFromIndex(f: Ref, x: Ref)
      requires Valid() && x in links.fathers && f in links.fathers[x] && x in ids && f in ids && x in frag
      ensures forall l :: l in ids[f] ==> l + [frag[x]] !in pubIndex - Erased(links.fathers, ids, f, x, frag[x])
    {
      hide Graph.Ranked, Sound, Exact, Indexed, Graph.IsLabel, Lists;
      ErasedUnder(G(), ids, pubIndex, f, x);
    }

    /** A host stops publishing an item under one identifier. The item loses its link under the father
        named by the prefix exactly when this was the last use of it there. */
    method UnpublishInfo(host: Host, id: Fragment, prefix: Label, strat: nat) returns (r: Result)
      requires Valid()
      modifies this
      ensures Valid() && scopeIndex == old(scopeIndex)
      ensures var full := prefix + [id];
        r == if full !in old(pubIndex) then InfoDoesNotExist
             else if old(StrategyOf(prefix, scopeIndex)) != strat then StrategyMismatch
             else if host !in old(ItemPublishers(full)) then DoesNotExist else Success
      ensures r != Success ==> unchanged(this)
      ensures r == Success ==> prefix in old(scopeIndex)
      ensures r == Success ==>
        var x, f := old(pubIndex)[prefix + [id]], old(scopeIndex)[prefix];
        && x in old(links.fathers) && f in old(links.fathers)[x] && x in old(frag) && old(frag)[x] == id
        && G() == (if LastUse(old(ids), f, x, id, prefix, host) then Cut(old(G()), f, {x}) else old(G()))
        && Thinned(old(ids), ids, host, {prefix + [id]}) && OnlyAt(old(ids), ids, x)
        && (LastUse(old(ids), f, x, id, prefix, host) ==> forall l :: l in old(ids)[f] ==> l + [id] !in pubIndex)
        && (!LastUse(old(ids), f, x, id, prefix, host) ==> pubIndex == old(pubIndex))
      ensures Left(old(links.strategy), links.strategy) && nextRef == old(nextRef)
      ensures StrategyStep(old(links.strategy), old(nextRef), links.strategy, nextRef)
    {
      hide StrategyStep, LinksOk, Tables, Exact, AllNamed, Graph.Valid, Fresh, Covers, Cut, Cuttable, Thinned, OnlyAt, Idle,
           LastUse, Trimmed, Erased;
      StrategyHere(strat);
      var full := prefix + [id];
      if full !in pubIndex {
        return InfoDoesNotExist;
      }
      IndexedItemFacts(full);
      var x := pubIndex[full];
      NamedBy(x, prefix, id);
      ItemCuttable(x, x);
      var f := scopeIndex[prefix];
      ScopeFacts(prefix);
      OwnerOf(x);
      if links.strategy[f] != strat {
        return StrategyMismatch;
      } else if host !in ids[x][full].publishers {
        return DoesNotExist;
      }
      ghost var was := ids;
      BranchFacts(f, x);
      IdleAfter(ids, f, x, id, prefix, host);
      DelistedParts(ids, x, full, host);
      RemovePublisher(x, full, host);
      var some := CheckForOtherPubSub(f, x);
      if !some {
        ItemCuttable(x, f);
        ErasedFromIndex(f, x);
        TakenOut(links.fathers, was, f, x, id, full, host);
        Drop(f, x);
      }
      r := Success;
    }

    lemma ItemListed(x: Ref, c: Ref)
      requires Valid() && x in links.informationItems && c in links.informationItems[x]
      ensures c in links.items && c in links.fathers && x in links.fathers[c]
    {
      hide StrategyStep, Graph.Unambiguous, Graph.Ranked, Sound, Exact, Graph.IsLabel, Indexed;
    }

    // The identifiers of a scope, extended, are those of its item, and both are indexed.
    lemma ItemLabels(x: Ref, c: Ref)
      requires Valid() && c in links.items && c in links.fathers && x in links.fathers[c]
      ensures c in ids && c in frag && x in ids && x != c && x in links.strategy && ids[c] != map[]
      ensures forall l :: l in ids[x] ==> l in scopeIndex && scopeIndex[l] == x
      ensures forall l :: l in ids[x] ==> l + [frag[c]] in ids[c] && l + [frag[c]] in pubIndex && pubIndex[l + [frag[c]]] == c
    {
      hide StrategyStep, Graph.Unambiguous, Graph.Ranked, Sound, Exact, Graph.IsLabel, Lists;
      BranchFacts(x, c);
    }

    /** Every publication of the host of one item under a scope ends. The item loses its link there
        exactly when the host was its only user there, in whichever order the identifiers come. */
    method UnpublishItem(host: Host, x: Ref, c: Ref, strat: nat)
      requires Valid() && x in links.informationItems && c in links.informationItems[x]
      requires x in links.strategy && links.strategy[x] == strat
      modifies this
      ensures Valid() && scopeIndex == old(scopeIndex) && x in old(ids) && c in old(frag)
      ensures G() == if SoleUser(old(ids), x, c, old(frag)[c], host) then Cut(old(G()), x, {c}) else old(G())
      ensures Thinned(old(ids), ids, host, Under(old(ids), x, old(frag)[c])) && OnlyAt(old(ids), ids, c)
      ensures Left(old(links.strategy), links.strategy) && nextRef == old(nextRef)
    {
      hide LinksOk, Tables, Exact, AllNamed, Graph.Valid, Fresh, Covers, Cut, Thinned, OnlyAt, LastUse, SoleUser,
           StillUsed, Suffixed, ItemPublishers;
      ItemListed(x, c);
      ItemLabels(x, c);
      OwnerOf(c);
      CutParts(G(), x, c);
      var suffix := SuffixOf(c);
      ghost var was := ids;
      var ls := ids[x].Keys;
      ghost var cut := false;
      NothingThinned(ids, host, c);
      AllStillUsed(ids, x, c, suffix, host);
      while ls != {}
        invariant Valid() && scopeIndex == old(scopeIndex) && ls <= was[x].Keys
        invariant Thinned(was, ids, host, Suffixed(was[x].Keys - ls, suffix)) && OnlyAt(was, ids, c)
        invariant x in ids && ids[x] == was[x]
        invariant Left(old(links.strategy), links.strategy) && nextRef == old(nextRef)
        invariant G() == if cut then Cut(old(G()), x, {c}) else old(G())
        invariant cut ==> SoleUser(was, x, c, suffix, host) && forall l :: l in was[x] ==> l + [suffix] !in pubIndex
        invariant !cut ==> pubIndex == old(pubIndex) && (SoleUser(was, x, c, suffix, host) ==> StillUsed(was, c, suffix, host, ls))
      {
        var l :| l in ls;
        ghost var now := ids;
        OneMoreSuffix(was[x].Keys, ls, suffix, l);
        if cut {
          RankedHere();
          GoneFrom(was, c, l + [suffix], host);
        } else {
          StepFacts(was, x, c, suffix, l, host, ls);
        }
        var r := UnpublishInfo(host, suffix, l, strat);
        NothingThinned(now, host, c);
        cut := cut || (r == Success && LastUse(now, x, c, suffix, l, host));
        ThinnedAgain(was, now, ids, host, Suffixed(was[x].Keys - ls, suffix), {l + [suffix]});
        OnlyAtAgain(was, now, ids, c);
        OnlyAtOther(was, ids, c, x);
        ls := ls - {l};
      }
      AllDone(was, x, c, suffix, host);
    }

    // After the link is cut, an identifier through it is nobody's.
    lemma GoneFrom(was: Ids, c: Ref, l: Label, host: Host)
      requires Valid() && OnlyAt(was, ids, c) && c in was && l !in pubIndex && (c in ids ==> c in links.items)
      requires l in was[c] && forall y :: y in was && l in was[y] ==> y == c
      ensures Thinned(ids, ids, host, {l})
    {
      hide Graph.Unambiguous, Graph.Ranked, Sound, Exact, Graph.IsLabel, Lists, Thinned;
      NotThere(ids, host, l);
    }

    // Before it is cut, the next step meets the item and the host's publication, or not.
    lemma StepFacts(was: Ids, x: Ref, c: Ref, suffix: Fragment, l: Label, host: Host, ls: set<Label>)
      requires Valid() && c in links.items && c in links.fathers && x in links.fathers[c] && c in frag && suffix == frag[c]
      requires x in was && c in was && OnlyAt(was, ids, c) && l in ls && ls <= was[x].Keys
      requires Thinned(was, ids, host, Suffixed(was[x].Keys - ls, suffix))
      ensures x in ids && x in links.strategy && l in scopeIndex && scopeIndex[l] == x
      ensures c in ids && l + [suffix] in ids[c] && l + [suffix] in pubIndex && pubIndex[l + [suffix]] == c
      ensures ItemPublishers(l + [suffix]) == ids[c][l + [suffix]].publishers
      ensures host !in ids[c][l + [suffix]].publishers ==> Thinned(ids, ids, host, {l + [suffix]})
      ensures host in ids[c][l + [suffix]].publishers ==>
        if LastUse(ids, x, c, suffix, l, host) then SoleUser(was, x, c, suffix, host)
        else SoleUser(was, x, c, suffix, host) ==> StillUsed(was, c, suffix, host, ls - {l})
      ensures host !in ids[c][l + [suffix]].publishers && SoleUser(was, x, c, suffix, host) && StillUsed(was, c, suffix, host, ls) ==>
        StillUsed(was, c, suffix, host, ls - {l})
    {
      hide LinksOk, Tables, Exact, AllNamed, Graph.Valid, Fresh, Covers, Thinned, LastUse, SoleUser, StillUsed,
           Suffixed;
      ItemLabels(x, c);
      assert ids[x] == was[x];
      ScopeFacts(l);
      OwnerOf(c);
      UserStep(was, ids, x, c, suffix, host, ls, l);
      if host !in ids[c][l + [suffix]].publishers { NotThere(ids, host, l + [suffix]); }
    }

    lemma ItemStillListed(x: Ref, c: Ref)
      requires Valid() && c in links.items && c in links.fathers && x in links.fathers[c]
      ensures x in links.informationItems && c in links.informationItems[x]
    {
      hide Graph.Unambiguous, Graph.Ranked, Sound, Exact, Graph.IsLabel, Indexed;
    }

    /** The host's publications of all items under a scope end. */
    method UnpublishItems(host: Host, x: Ref, strat: nat)
      requires Valid() && x in links.informationItems && x in links.strategy && links.strategy[x] == strat && x !in links.items && x in ids
      modifies this
      ensures Valid() && scopeIndex == old(scopeIndex)
      ensures ItemsDone(old(G()), G(), old(ids), ids, old(frag), x, old(links.informationItems)[x], host)
      ensures Left(old(links.strategy), links.strategy) && nextRef == old(nextRef)
    {
      hide Valid, Walking, Graph.Valid, Cut, Thinned, OnlyAt, SoleUser, ItemsDone, Under;
      var cs := links.informationItems[x];
      ghost var was, g, frags, all, done: set<Ref> := ids, G(), frag, cs, {};
      AllItems(x);
      NoItemsDone(g, was, frags, x, host);
      KeysHere();
      while cs != {}
        invariant done + cs == all && done !! cs && Valid() && scopeIndex == old(scopeIndex)
        invariant ItemsDone(g, G(), was, ids, frags, x, done, host)
        invariant Left(old(links.strategy), links.strategy) && nextRef == old(nextRef)
      {
        var c :| c in cs;
        ghost var now, g' := ids, G();
        ItemNotDone(g, g', was, now, frags, x, done, c, host);
        ItemNotDone(g, g', was, now, frags, x, done, x, host);
        ItemStillListed(x, c);
        ItemLabels(x, c);
        UnpublishItem(host, x, c, strat);
        ItemStep(g, g', G(), was, now, ids, frags, x, done, c, host);
        done, cs := done + {c}, cs - {c};
      }
      assert done == all;
    }

    lemma AllItems(x: Ref)
      requires Valid() && x in links.informationItems
      ensures forall c :: c in links.informationItems[x] ==> c in links.items && c in links.fathers && x in links.fathers[c] && c in frag && c in ids
    {
      hide Graph.Unambiguous, Graph.Ranked, Sound, Exact, Graph.IsLabel, Indexed;
    }

    // A scope is a leaf if both of its lists are empty.
    lemma LeafLists(x: Ref)
      requires Valid() && x in links.childrenScopes && x in links.informationItems
      ensures Leaf(G(), x) <==> links.childrenScopes[x] == {} && links.informationItems[x] == {}
    {
      hide Graph.Unambiguous, Graph.Ranked, Sound, Exact, Graph.IsLabel, Graph.Valid, Indexed, Lists, AllNamed, Fresh;
      ListedLeaf(G(), links.childrenScopes, links.informationItems, x);
    }

    // A leaf loses its link under f if nobody uses it there, after the host has left it.
    method DropIfIdle(f: Ref, x: Ref, ghost was: Ids, ghost full: Label, ghost host: Host)
      requires Valid() && x in links.fathers && f in links.fathers[x] && Leaf(G(), x) && x in frag
      requires x in was && full in was[x] && ids == Delisted(was, x, full, host) && forall y :: y in was && full in was[y] ==> y == x
      modifies this
      ensures Valid() && Thinned(was, ids, host, {full}) && Left(old(links.strategy), links.strategy) && nextRef == old(nextRef)
      ensures G() == if Idle(old(ids), f, x, old(frag)[x]) then Cut(old(G()), f, {x}) else old(G())
    {
      hide LinksOk, Tables, Exact, AllNamed, Graph.Valid, Fresh, Covers, Cut, Cuttable, Leaf, Thinned, OnlyAt, Idle,
           Trimmed, Erased;
      DelistedParts(was, x, full, host);
      LeafCuttable(f, x);
      var some := CheckForOtherPubSub(f, x);
      if !some {
        TakenOut(links.fathers, was, f, x, frag[x], full, host);
        Drop(f, x);
      }
    }

    // The same for a root scope.
    method DropRootIfIdle(x: Ref, ghost was: Ids, ghost full: Label, ghost host: Host)
      requires Valid() && x in links.fathers && links.fathers[x] == {} && Leaf(G(), x) && x in frag && x in ids
      requires x in was && full in was[x] && ids == Delisted(was, x, full, host) && forall y :: y in was && full in was[y] ==> y == x
      modifies this
      ensures Valid() && Thinned(was, ids, host, {full}) && Left(old(links.strategy), links.strategy) && nextRef == old(nextRef)
      ensures G() == if forall m :: m in old(ids)[x] ==> Only(old(ids)[x][m], {}) then Cut(old(G()), x, {x}) else old(G())
    {
      hide LinksOk, Tables, Exact, AllNamed, Graph.Valid, Fresh, Covers, Cut, Cuttable, Leaf, Thinned, OnlyAt,
           Trimmed, Erased;
      DelistedParts(was, x, full, host);
      LeafCuttable(x, x);
      var some := CheckForOtherPubSubOfRoot(x);
      if !some {
        TakenOut(links.fathers, was, x, x, frag[x], full, host);
        Drop(x, x);
      }
    }

    // End the host's publication of a scope, and its link if this was the last use.
    method LeaveScope(host: Host, id: Fragment, prefix: Label, x: Ref)
      requires Valid() && prefix + [id] in scopeIndex && scopeIndex[prefix + [id]] == x
      modifies this
      ensures Valid()
      ensures G() == if Leaf(old(G()), x) && LastScopeUse(old(ids), old(scopeIndex), x, prefix, id, host)
                     then Cut(old(G()), if prefix in old(scopeIndex) then old(scopeIndex)[prefix] else x, {x}) else old(G())
      ensures Thinned(old(ids), ids, host, {prefix + [id]}) && Left(old(links.strategy), links.strategy) && nextRef == old(nextRef)
    {
      hide Valid, Walking, Graph.Valid, Cut, Leaf, Thinned, Idle, LastScopeUse, Delisted;
      var full := prefix + [id];
      ghost var was := ids;
      LeaveFacts(host, id, prefix, x);
      LeaveUse(host, id, prefix, x);
      RemovePublisher(x, full, host);
      if links.childrenScopes[x] == {} && links.informationItems[x] == {} {
        if prefix in scopeIndex {
          DropIfIdle(scopeIndex[prefix], x, was, full, host);
        } else {
          DropRootIfIdle(x, was, full, host);
        }
      }
    }

    lemma LeaveFacts(host: Host, id: Fragment, prefix: Label, x: Ref)
      requires Valid() && prefix + [id] in scopeIndex && scopeIndex[prefix + [id]] == x
      ensures x in links.fathers && x in frag && frag[x] == id && x in links.childrenScopes && x in links.informationItems
      ensures Leaf(G(), x) <==> links.childrenScopes[x] == {} && links.informationItems[x] == {}
      ensures if prefix in scopeIndex then scopeIndex[prefix] in links.fathers[x] else links.fathers[x] == {}
      ensures x in ids && prefix + [id] in ids[x] && forall y :: y in ids && prefix + [id] in ids[y] ==> y == x
      ensures var ids' := Delisted(ids, x, prefix + [id], host);
        && x in ids' && Thinned(ids, ids', host, {prefix + [id]})
    {
      hide LinksOk, Tables, Exact, AllNamed, Graph.Valid, Fresh, Covers, Leaf, Thinned, OnlyAt;
      ScopeFacts(prefix + [id]);
      NamedBy(x, prefix, id);
      OwnerOf(x);
      RankedHere();
      LeafLists(x);
      DelistedParts(ids, x, prefix + [id], host);
    }

    lemma LeaveUse(host: Host, id: Fragment, prefix: Label, x: Ref)
      requires Valid() && x in ids && prefix + [id] in ids[x]
      ensures x in Delisted(ids, x, prefix + [id], host)
      ensures var ids' := Delisted(ids, x, prefix + [id], host);
        (LastScopeUse(ids, scopeIndex, x, prefix, id, host) <==>
            if prefix in scopeIndex then Idle(ids', scopeIndex[prefix], x, id) else forall m :: m in ids'[x] ==> Only(ids'[x][m], {}))
    {
      hide LinksOk, Tables, Exact, AllNamed, Graph.Valid, Fresh, Covers, Idle, LastUse;
      NamedBy(x, prefix, id);
      if prefix in scopeIndex {
        BranchFacts(scopeIndex[prefix], x);
        IdleAfter(ids, scopeIndex[prefix], x, id, prefix, host);
      } else {
        RootIdleAfter(ids, x, prefix + [id], host);
      }
    }

    lemma LeafCuttable(f: Ref, x: Ref)
      requires Valid() && x in links.fathers && Leaf(G(), x) && (if links.fathers[x] == {} then f == x else f in links.fathers[x])
      ensures Cuttable(G(), f, x) && f in ids && x in ids
    {
      hide Graph.Unambiguous, Graph.Ranked, Sound, Exact, Graph.IsLabel, Indexed, Lists, Leaf;
      RankedHere();
    }

    /** A host stops publishing a scope under one identifier. Its publications of all items in the scope
        end first, also if it does not publish the scope; then the scope itself loses its link under the
        father that the prefix names, if it is empty and this was the last use of it there. */
    method UnpublishScope(host: Host, id: Fragment, prefix: Label, strat: nat) returns (r: Result)
      requires Valid()
      modifies this
      ensures Valid()
      ensures var full := prefix + [id];
        r == if full !in old(scopeIndex) then ScopeDoesNotExist
             else if old(StrategyOf(full, scopeIndex)) != strat then StrategyMismatch
             else if host !in old(ScopePublishers(full)) then DoesNotExist else Success
      ensures r == ScopeDoesNotExist || r == StrategyMismatch ==> unchanged(this)
      ensures r == Success || r == DoesNotExist ==> old(scopeIndex)[prefix + [id]] in old(links.informationItems)
      ensures r == Success || r == DoesNotExist ==>
        var x := old(scopeIndex)[prefix + [id]];
        var cs := old(links.informationItems)[x];
        var g := Cut(old(G()), x, Lone(old(ids), old(frag), x, cs, host));
        && G() == (if r == Success && Leaf(g, x) && LastScopeUse(old(ids), old(scopeIndex), x, prefix, id, host)
                   then Cut(g, if prefix in old(scopeIndex) then old(scopeIndex)[prefix] else x, {x}) else g)
        && Thinned(old(ids), ids, host, ItemNames(old(ids), old(frag), x, cs) + {prefix + [id]})
      ensures Left(old(links.strategy), links.strategy)
      ensures StrategyStep(old(links.strategy), old(nextRef), links.strategy, nextRef)
    {
      hide Valid, Walking, StrategyStep, Left, Graph.Valid, Cut, Leaf, Thinned, LastScopeUse, Lone, ItemNames, OnlyIn;
      StrategyHere(strat);
      var full := prefix + [id];
      if full !in scopeIndex {
        NoneLeft(links.strategy);
        return ScopeDoesNotExist;
      }
      ScopeFacts(full);
      KeysHere();
      var x := scopeIndex[full];
      if links.strategy[x] != strat {
        NoneLeft(links.strategy);
        return StrategyMismatch;
      }
      ghost var was, cs := ids, links.informationItems[x];
      ghost var at := ItemNames(was, frag, x, cs);
      AllItems(x);
      if prefix in scopeIndex { ScopeFacts(prefix); }
      UnpublishItems(host, x, strat);
      ghost var now := ids;
      OnlyInOther(was, ids, cs, x);
      ScopeFacts(full);
      OwnerOf(x);
      if host !in ids[x][full].publishers {
        NotThere(ids, host, full);
        ThinnedAgain(was, now, ids, host, at, {full});
        return DoesNotExist;
      }
      if prefix in scopeIndex {
        OnlyInOther(was, ids, cs, scopeIndex[prefix]);
      }
      SameScopeUse(was, now, scopeIndex, x, prefix, id, host);
      ghost var strategies := links.strategy;
      LeaveScope(host, id, prefix, x);
      LeftAgain(old(links.strategy), strategies, links.strategy);
      ThinnedAgain(was, now, ids, host, at, {full});
      r := Success;
    }

    // What a new object leaves for the operation that takes it back.
    lemma NewObject(g: Graph, before: Ids, f: Ref, x: Ref, prefix: Label, id: Fragment, item: bool, host: Host)
      requires Valid() && g.Valid() && Covers(g, before) && x !in g.fathers && f in g.fathers && f !in g.items && G() == WithLink(g, f, x, id, item)
      requires f in before && prefix in before[f] && OthersKept(before, ids, prefix + [id]) && First(ids, x, prefix + [id], host)
      ensures f in ids && prefix in scopeIndex && scopeIndex[prefix] == f && f in links.strategy && x in links.strategy
      ensures Leaf(G(), x) && LastUse(ids, f, x, id, prefix, host) && Cut(G(), f, {x}) == g
      ensures if item then prefix + [id] in pubIndex && pubIndex[prefix + [id]] == x else prefix + [id] in scopeIndex && scopeIndex[prefix + [id]] == x
    {
      hide StrategyStep, LinksOk, Tables, Exact, AllNamed, Fresh, WithLink, LastUse, Cut, Leaf, OthersKept;
      RankedHere();
      UncutLink(g, f, x, id, item);
      assert |prefix| != |prefix + [id]|;
      OthersHas(before, ids, prefix + [id], f, prefix);
      IndexedHere(f, prefix);
      IndexedHere(x, prefix + [id]);
      BranchFacts(f, x);
      NewLastUse(before, ids, f, x, id, prefix, host);
    }

    lemma IndexedHere(x: Ref, l: Label)
      requires Valid() && x in ids && l in ids[x]
      ensures if x in links.items then l in pubIndex && pubIndex[l] == x else l in scopeIndex && scopeIndex[l] == x
    {
      hide StrategyStep, Graph.Unambiguous, Graph.Ranked, Sound, Exact, Graph.IsLabel, Lists;
    }

    lemma FreeLabel(l: Label)
      requires Valid() && l !in scopeIndex && l !in pubIndex
      ensures forall y :: y in ids ==> l !in ids[y]
    {
      forall y | y in ids
        ensures l !in ids[y]
      {
        if l in ids[y] { IndexedHere(y, l); }
      }
    }

    lemma BackHere(g: Graph, before: Ids, mid: Ids, host: Host, l: Label, scopes: map<Label, Ref>, pubs: map<Label, Ref>)
      requires Valid() && G() == g && g.Valid() && Covers(g, before) && Exact(g, before) && Indexed(g.items, before, scopes, pubs)
      requires OthersKept(before, mid, l) && Thinned(mid, ids, host, {l}) && forall y :: y in before ==> l !in before[y]
      ensures ids == before && scopeIndex == scopes && pubIndex == pubs
    {
      hide StrategyStep, Graph.IsLabel, Exact, Sound, Indexed, Lists, OthersKept, Thinned, Graph.Unambiguous, Graph.Ranked,
           AllNamed, Fresh;
      BackToBefore(g, before, mid, ids, host, l);
      SameIndexes(g.items, ids, scopeIndex, pubIndex, scopes, pubs);
    }

    lemma ExactHere()
      requires Valid()
      ensures G().Valid() && Covers(G(), ids) && Exact(G(), ids) && Indexed(G().items, ids, scopeIndex, pubIndex) && nextRef !in links.fathers
    {
      hide StrategyStep, Graph.IsLabel, Exact, Sound, Indexed, Lists, Graph.Unambiguous, Graph.Ranked, AllNamed;
    }

    /** Advertising a new item and unpublishing it again restores the whole graph and all tables. */
    method AdvertiseAndBack(host: Host, id: Fragment, prefix: Label, strat: nat) returns (r: Result)
      requires Valid() && prefix in scopeIndex && StrategyOf(prefix, scopeIndex) == strat
      requires prefix + [id] !in scopeIndex && prefix + [id] !in pubIndex
      modifies this
      ensures r == Success && Valid()
      ensures G() == old(G()) && ids == old(ids) && scopeIndex == old(scopeIndex) && pubIndex == old(pubIndex)
    {
      hide LinksOk, Tables, Exact, AllNamed, Graph.Valid, Fresh, Cut, LastUse, Thinned, OthersKept, WithLink, Indexed,
           Leaf, First;
      ghost var g, was, f, x := G(), ids, scopeIndex[prefix], nextRef;
      ScopeFacts(prefix);
      FreeLabel(prefix + [id]);
      ExactHere();
      r := AdvertiseInfo(host, id, prefix, strat);
      ghost var mid := ids;
      NewObject(g, was, f, x, prefix, id, true, host);
      PublishersAt(x, prefix + [id]);
      r := UnpublishInfo(host, id, prefix, strat);
      BackHere(g, was, mid, host, prefix + [id], old(scopeIndex), old(pubIndex));
    }

    /** The same for a new scope. */
    method PublishAndBack(host: Host, id: Fragment, prefix: Label, strat: nat) returns (r: Result)
      requires Valid() && prefix in scopeIndex && StrategyOf(prefix, scopeIndex) == strat
      requires prefix + [id] !in scopeIndex && prefix + [id] !in pubIndex
      modifies this
      ensures r == Success && Valid()
      ensures G() == old(G()) && ids == old(ids) && scopeIndex == old(scopeIndex) && pubIndex == old(pubIndex)
    {
      hide LinksOk, Tables, Exact, AllNamed, Graph.Valid, Fresh, Cut, LastUse, Thinned, OthersKept, WithLink, Indexed,
           Leaf, First, Lone, ItemNames;
      ghost var g, was, f, x := G(), ids, scopeIndex[prefix], nextRef;
      ScopeFacts(prefix);
      FreeLabel(prefix + [id]);
      ExactHere();
      r := PublishInnerScope(host, id, prefix, strat);
      ghost var mid := ids;
      NewObject(g, was, f, x, prefix, id, false, host);
      PublishersAt(x, prefix + [id]);
      RankedHere();
      LeafLists(x);
      NoneYet(G(), ids, frag, x, host);
      assert ItemNames(ids, frag, x, {}) + {prefix + [id]} == {prefix + [id]};
      r := UnpublishScope(host, id, prefix, strat);
      BackHere(g, was, mid, host, prefix + [id], old(scopeIndex), old(pubIndex));
    }

    /** Publishing the same scope again reports that it exists, and under another strategy that the
        strategies differ; neither changes anything. */
    method PublishTwice(host: Host, id: Fragment, prefix: Label, strat: nat, other: nat) returns (first: Result, again: Result, differs: Result)
      requires Valid() && other != strat
      modifies this
      ensures Valid() && (first == Success ==> again == Exists && differs == StrategyMismatch && host in ScopePublishers(prefix + [id]))
    {
      hide LinksOk, Tables, Exact, AllNamed, Fresh, OthersKept, First, StrategyStep, StrategyOf, Graph.Valid, Covers;
      ghost var f := if prefix in scopeIndex then scopeIndex[prefix] else 0;
      if prefix in scopeIndex { ScopeFacts(prefix); }
      first := PublishInnerScope(host, id, prefix, strat);
      if first == Success {
        assert |prefix| != |prefix + [id]|;
        OthersHas(old(ids), ids, prefix + [id], f, prefix);
        IndexedHere(f, prefix);
        OnlyAScope(prefix + [id]);
      }
      again := PublishInnerScope(host, id, prefix, strat);
      differs := PublishInnerScope(host, id, prefix, other);
    }

    lemma OnlyAScope(l: Label)
      requires Valid() && l in scopeIndex
      ensures l !in pubIndex
    {
      hide LinksOk, Tables, Exact, AllNamed, Fresh;
      ScopeFacts(l);
      OwnerOf(scopeIndex[l]);
      if l in pubIndex {
        IndexedItemFacts(l);
        assert false;
      }
    }
  }
}
