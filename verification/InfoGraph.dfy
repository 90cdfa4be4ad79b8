/** The information graph of a rendezvous point as a plain structure: scopes and information
    items, their father links and last identifier fragments. An object's identifiers are the
    fragment sequences along paths from a root scope down to it. */
module InfoGraph {

  type Ref = nat
  type Fragment = nat  // the eight bytes of one identifier fragment
  type Label = seq<Fragment>
  type Host = nat

  // Publishers and subscribers under one identifier.
  datatype HostPair = HostPair(publishers: set<Host>, subscribers: set<Host>)

  type Ids = map<Ref, map<Label, HostPair>>

  datatype Graph = Graph(fathers: map<Ref, set<Ref>>, frag: map<Ref, Fragment>, items: set<Ref>) {

    ghost predicate Valid() {
      && fathers.Keys == frag.Keys && items <= fathers.Keys
      && (forall x, f :: x in fathers && f in fathers[x] ==> f in fathers && f !in items)
      && (forall x :: x in items ==> fathers[x] != {})
    }

    // No two objects under one father, and no two roots, share a fragment.
    ghost predicate Unambiguous()
      requires Valid()
    {
      && (forall x, y, f :: x in fathers && y in fathers && f in fathers[x] && f in fathers[y] && frag[x] == frag[y] ==> x == y)
      && (forall x, y :: x in fathers && y in fathers && fathers[x] == {} && fathers[y] == {} && frag[x] == frag[y] ==> x == y)
    }

    // l spells the fragments of some path from a root to x.
    ghost predicate IsLabel(x: Ref, l: Label)
      requires Valid()
      decreases |l|
    {
      && x in fathers && l != [] && l[|l| - 1] == frag[x]
      && (if |l| == 1 then fathers[x] == {}
          else exists f :: f in fathers[x] && IsLabel(f, l[..|l| - 1]))
    }

    // Ranks that fall along every link from father to child: a witness of acyclicity.
    ghost predicate Ranked(rank: map<Ref, nat>)
      requires Valid()
    {
      && rank.Keys == fathers.Keys
      && forall x, f :: x in fathers && f in fathers[x] ==> rank[f] > rank[x]
    }
  }

  ghost predicate Covers(g: Graph, ids: Ids) {
    ids.Keys == g.fathers.Keys
  }

  // Every identifier of a father, extended by x's fragment, is an identifier of x.
  ghost predicate Closed(g: Graph, ids: Ids, x: Ref)
    requires g.Valid() && Covers(g, ids) && x in g.fathers
  {
    && (forall f, l :: f in g.fathers[x] && l in ids[f] ==> l + [g.frag[x]] in ids[x])
    && (g.fathers[x] == {} ==> [g.frag[x]] in ids[x])
  }

  ghost predicate AllClosed(g: Graph, ids: Ids)
    requires g.Valid() && Covers(g, ids)
  {
    forall x :: x in g.fathers ==> Closed(g, ids, x)
  }

  ghost predicate Sound(g: Graph, ids: Ids)
    requires g.Valid() && Covers(g, ids)
  {
    forall x, l :: x in ids && l in ids[x] ==> g.IsLabel(x, l)
  }

  /** The identifier tables are exact: the identifiers of every object are its path labels. */
  ghost predicate Exact(g: Graph, ids: Ids)
    requires g.Valid() && Covers(g, ids)
  {
    forall x, l :: x in g.fathers ==> (l in ids[x] <==> g.IsLabel(x, l))
  }

  // A label leads to one object.
  lemma {:induction false} LabelUnique(g: Graph, x: Ref, y: Ref, l: Label)
    requires g.Valid() && g.Unambiguous() && g.IsLabel(x, l) && g.IsLabel(y, l)
    ensures x == y
    decreases |l|
  {
    if |l| > 1 {
      var f :| f in g.fathers[x] && g.IsLabel(f, l[..|l| - 1]);
      var f' :| f' in g.fathers[y] && g.IsLabel(f', l[..|l| - 1]);
      LabelUnique(g, f, f', l[..|l| - 1]);
    }
  }

  lemma LabelExtends(g: Graph, f: Ref, x: Ref, l: Label)
    requires g.Valid() && x in g.fathers && f in g.fathers[x] && g.IsLabel(f, l)
    ensures g.IsLabel(x, l + [g.frag[x]])
  {
    var m := l + [g.frag[x]];
    assert m[..|m| - 1] == l;
  }

  lemma {:induction false} ClosedHasLabel(g: Graph, ids: Ids, x: Ref, l: Label)
    requires g.Valid() && Covers(g, ids) && AllClosed(g, ids) && g.IsLabel(x, l)
    ensures l in ids[x]
    decreases |l|
  {
    assert Closed(g, ids, x);
    if |l| == 1 {
      assert l == [g.frag[x]];
    } else {
      var f :| f in g.fathers[x] && g.IsLabel(f, l[..|l| - 1]);
      ClosedHasLabel(g, ids, f, l[..|l| - 1]);
      assert l == l[..|l| - 1] + [g.frag[x]];
    }
  }

  /** Closed links and sound tables make exact tables, and the other way round. */
  lemma ExactIffClosed(g: Graph, ids: Ids)
    requires g.Valid() && Covers(g, ids)
    ensures Exact(g, ids) <==> Sound(g, ids) && AllClosed(g, ids)
  {
    if Sound(g, ids) && AllClosed(g, ids) {
      forall x, l | x in g.fathers
        ensures l in ids[x] <==> g.IsLabel(x, l)
      {
        if g.IsLabel(x, l) { ClosedHasLabel(g, ids, x, l); }
      }
    }
    if Exact(g, ids) {
      forall x | x in g.fathers
        ensures Closed(g, ids, x)
      {
        forall f, l | f in g.fathers[x] && l in ids[f]
          ensures l + [g.frag[x]] in ids[x]
        {
          LabelExtends(g, f, x, l);
        }
        if g.fathers[x] == {} { assert g.IsLabel(x, [g.frag[x]]); }
      }
    }
  }

  // ------------------------------------------------------------------
  // Cycles

  // A walk down the links: each element is a father of the next.
  ghost predicate Descends(g: Graph, path: seq<Ref>)
    requires g.Valid()
  {
    && path != [] && (forall i :: 0 <= i < |path| ==> path[i] in g.fathers)
    && (forall i :: 0 <= i < |path| - 1 ==> path[i] in g.fathers[path[i + 1]])
  }

  lemma {:induction false} LabelGrows(g: Graph, ids: Ids, path: seq<Ref>, l: Label) returns (m: Label)
    requires g.Valid() && Covers(g, ids) && AllClosed(g, ids) && Descends(g, path) && l in ids[path[0]]
    ensures m in ids[path[|path| - 1]] && |m| == |l| + |path| - 1
  {
    if |path| == 1 {
      m := l;
    } else {
      assert path[0] in g.fathers[path[1]] && Closed(g, ids, path[1]);
      m := LabelGrows(g, ids, path[1..], l + [g.frag[path[1]]]);
    }
  }

  // Some identifier is at least as long as every other one of a finite non-empty table.
  lemma {:induction false} Longest(table: map<Label, HostPair>) returns (m: Label)
    requires table != map[]
    ensures m in table && forall l :: l in table ==> |l| <= |m|
    decreases |table|
  {
    assert table.Keys != {};
    m :| m in table;
    var rest := table - {m};
    if rest != map[] {
      assert rest.Keys == table.Keys - {m};
      assert |rest| == |rest.Keys| && |table| == |table.Keys|;
      var n := Longest(rest);
      assert forall l :: l in table && l != m ==> l in rest;
      if |n| > |m| { m := n; }
    } else {
      assert forall l :: l in table && l != m ==> l in rest;
    }
  }

  /** Below a cycle no finite identifier tables are closed, so a walk that only stops once the
      links below its start are closed cannot stop there. */
  lemma CycleNeverCloses(g: Graph, ids: Ids, path: seq<Ref>)
    requires g.Valid() && Covers(g, ids) && Descends(g, path)
    requires |path| > 1 && path[0] == path[|path| - 1] && ids[path[0]] != map[]
    ensures !AllClosed(g, ids)
  {
    if AllClosed(g, ids) {
      var l := Longest(ids[path[0]]);
      var m := LabelGrows(g, ids, path, l);
      assert false;
    }
  }

  // Ranks exclude cycles.
  lemma {:induction false} RankedDescends(g: Graph, rank: map<Ref, nat>, path: seq<Ref>)
    requires g.Valid() && g.Ranked(rank) && Descends(g, path)
    ensures |path| > 1 ==> rank[path[0]] > rank[path[|path| - 1]]
  {
    if |path| > 1 {
      assert path[0] in g.fathers[path[1]];
      RankedDescends(g, rank, path[1..]);
    }
  }

  // f is x or lies below it.
  ghost predicate AtOrBelow(g: Graph, f: Ref, x: Ref)
    requires g.Valid()
  {
    exists path :: Descends(g, path) && path[0] == x && path[|path| - 1] == f
  }

  lemma ChildOfBelow(g: Graph, x: Ref, h: Ref, y: Ref)
    requires g.Valid() && AtOrBelow(g, h, x) && y in g.fathers && h in g.fathers[y]
    ensures AtOrBelow(g, y, x)
  {
    var path :| Descends(g, path) && path[0] == x && path[|path| - 1] == h;
    assert Descends(g, path + [y]) && (path + [y])[0] == x;
  }

  /** When f is not below x, ranks exist that also fall from f to x: everything not below x is
      lifted above it. */
  lemma RanksForLink(g: Graph, rank: map<Ref, nat>, f: Ref, x: Ref) returns (lifted: map<Ref, nat>)
    requires g.Valid() && g.Ranked(rank) && f in g.fathers && x in g.fathers && !AtOrBelow(g, f, x)
    ensures g.Ranked(lifted) && lifted[f] > lifted[x]
  {
    lifted := map y | y in g.fathers :: if AtOrBelow(g, y, x) then rank[y] else rank[y] + rank[x] + 1;
    assert Descends(g, [x]);
    assert AtOrBelow(g, x, x);
    forall y, h | y in g.fathers && h in g.fathers[y]
      ensures lifted[h] > lifted[y]
    {
      if AtOrBelow(g, h, x) {
        ChildOfBelow(g, x, h, y);
      } else if AtOrBelow(g, y, x) {
        BelowIsLower(g, rank, y, x);
      }
    }
  }

  lemma BelowIsLower(g: Graph, rank: map<Ref, nat>, y: Ref, x: Ref)
    requires g.Valid() && g.Ranked(rank) && AtOrBelow(g, y, x)
    ensures y in rank && x in rank && rank[y] <= rank[x]
  {
    var path :| Descends(g, path) && path[0] == x && path[|path| - 1] == y;
    RankedDescends(g, rank, path);
  }
}
