/** Compilation of a node's links into OpenFlow rules (deployment/network.cpp, writeOFlows): one
    rule per set of ports ("bridges") or one table per port ("tables"). Both are shown to mean
    what the Forwarder itself does. Identifiers are sets of bit positions. */
module FlowRules {
  import opened Combinatorics

  type Bits = set<nat>

  const PRIORITY_BASE: nat := 1000
  const DROP_PRIORITY: nat := 500

  /** A flow entry: matches a packet whose identifier has all bits of `mask`; outputs on `ports`
      and, in a pipeline, continues at table `next`. */
  datatype Rule = Rule(priority: nat, mask: Bits, ports: seq<nat>, next: Next)
  datatype Next = Stop | Resubmit(table: nat)

  // ------------------------------------------------------------------
  // The Forwarder

  // The links a Forwarder sends on, in table order: those whose identifier is contained in fid.
  function Matching(lids: seq<Bits>, fid: Bits): seq<nat> {
    if lids == [] then [] else
      var n := |lids| - 1;
      Matching(lids[..n], fid) + if lids[n] * fid == lids[n] then [n] else []
  }

  /** Each link whose identifier is contained in fid, once and in table order. */
  lemma {:induction false} MatchingIs(lids: seq<Bits>, fid: Bits)
    ensures forall i: nat :: i in Matching(lids, fid) <==> i < |lids| && lids[i] <= fid
    ensures forall i, j :: 0 <= i < j < |Matching(lids, fid)| ==> Matching(lids, fid)[i] < Matching(lids, fid)[j]
  {
    hide Matching;
    MatchingLast(lids, fid);
    if lids != [] {
      var n := |lids| - 1;
      var before := Matching(lids[..n], fid);
      MatchingIs(lids[..n], fid);
      assert forall k :: 0 <= k < |before| ==> before[k] in before;
      OneMoreMatch(before, n, lids[n] <= fid);
      assert forall i: nat :: i < n ==> lids[..n][i] == lids[i];
    }
  }

  lemma MatchingLast(lids: seq<Bits>, fid: Bits)
    ensures lids == [] ==> Matching(lids, fid) == []
    ensures lids != [] ==> var n := |lids| - 1; Matching(lids, fid) == Matching(lids[..n], fid) + if lids[n] <= fid then [n] else []
  {
    if lids != [] {
      var n := |lids| - 1;
      assert lids[n] * fid == lids[n] <==> lids[n] <= fid;
    }
  }

  lemma OneMoreMatch(before: seq<nat>, n: nat, taken: bool)
    requires (forall i, j :: 0 <= i < j < |before| ==> before[i] < before[j]) && forall k :: 0 <= k < |before| ==> before[k] < n
    ensures var after := before + if taken then [n] else [];
      && (forall i, j :: 0 <= i < j < |after| ==> after[i] < after[j])
      && forall i: nat :: i in after <==> i in before || (taken && i == n)
  {}

  method ForwarderMatch(fwTable: seq<Bits>, fid: Bits) returns (outLinks: seq<nat>)
    ensures outLinks == Matching(fwTable, fid)
    ensures forall i: nat :: i in outLinks <==> i < |fwTable| && fwTable[i] <= fid
  {
    outLinks := [];
    for i := 0 to |fwTable|
      invariant outLinks == Matching(fwTable[..i], fid)
    {
      assert fwTable[..i + 1][..i] == fwTable[..i];
      var andVector := fid * fwTable[i];
      if andVector == fwTable[i] {
        outLinks := outLinks + [i];
      }
    }
    assert fwTable[..|fwTable|] == fwTable;
    MatchingIs(fwTable, fid);
  }

  // ------------------------------------------------------------------
  // What a switch does with rules

  predicate Matches(r: Rule, fid: Bits) {
    r.mask <= fid
  }

  /** Section 5.3 of the OpenFlow Switch Specification 1.3.0: the entry taken is one that matches
      and has the highest priority among those that match. */
  ghost predicate Selected(table: seq<Rule>, fid: Bits, r: Rule) {
    && r in table && Matches(r, fid)
    && forall q :: q in table && Matches(q, fid) ==> q.priority <= r.priority
  }

  /** Section 5.1: a packet visits tables in increasing order and is output along the way.
      `out` is a possible result of processing from table t on. */
  ghost predicate Processed(tables: seq<seq<Rule>>, t: nat, fid: Bits, out: seq<nat>)
    decreases |tables| - t
  {
    if t >= |tables| then out == [] else
      exists r :: Selected(tables[t], fid, r) && r.ports <= out &&
        if r.next == Stop then out == r.ports
        else t < r.next.table && Processed(tables, r.next.table, fid, out[|r.ports|..])
  }

  // ------------------------------------------------------------------
  // One rule per set of ports

  function Union(lids: seq<Bits>, j: nat): Bits {
    if lids == [] then {} else
      var n := |lids| - 1;
      Union(lids[..n], j) + if Bit(j, n) then lids[n] else {}
  }

  function Members(n: nat, j: nat): seq<nat> {
    if n == 0 then [] else Members(n - 1, j) + if Bit(j, n - 1) then [n - 1] else []
  }

  function Priority(n: nat, j: nat): nat {
    PRIORITY_BASE + Smaller(n, Pop(j)) + Count(Pop(j), j)
  }

  function SubsetRule(lids: seq<Bits>, j: nat): Rule {
    Rule(Priority(|lids|, j), Union(lids, j), Members(|lids|, j), Stop)
  }

  function BridgeTable(lids: seq<Bits>): (r: seq<Rule>)
    ensures |r| == Pow2(|lids|) > 0
  {
    Pow2Positive(|lids|);
    [Rule(DROP_PRIORITY, {}, [], Stop)] +
    seq(Pow2(|lids|) - 1, i requires 0 <= i < Pow2(|lids|) - 1 => SubsetRule(lids, i + 1))
  }

  lemma {:induction false} Pow2Positive(n: nat)
    ensures Pow2(n) > 0
  {
    if n > 0 { Pow2Positive(n - 1); }
  }

  lemma {:induction false} MembersLength(n: nat, j: nat)
    requires j < Pow2(n)
    ensures |Members(n, j)| == Pop(j)
  {
    MembersPop(n, j);
    TruncateSmall(n, j);
  }

  // Pop of the n lowest digits.
  function PopLow(n: nat, j: nat): nat {
    if n == 0 then 0 else PopLow(n - 1, j) + if Bit(j, n - 1) then 1 else 0
  }

  lemma {:induction false} MembersPop(n: nat, j: nat)
    ensures |Members(n, j)| == PopLow(n, j)
  {
    if n > 0 { MembersPop(n - 1, j); }
  }

  lemma {:induction false} PopLowShift(n: nat, j: nat)
    ensures PopLow(n + 1, j) == j % 2 + PopLow(n, j / 2)
  {
    if n > 0 { PopLowShift(n - 1, j); }
  }

  lemma {:induction false} TruncateSmall(n: nat, j: nat)
    requires j < Pow2(n)
    ensures PopLow(n, j) == Pop(j)
  {
    if n > 0 {
      PopLowShift(n - 1, j);
      TruncateSmall(n - 1, j / 2);
    }
  }

  // The loop over the ports: those of the j-th set, their number and their identifiers together.
  method PortSet(lids: seq<Bits>, j: nat) returns (mask: Bits, ports: seq<nat>, links: nat)
    requires j < Pow2(|lids|)
    ensures mask == Union(lids, j) && ports == Members(|lids|, j) && links == |ports| == Pop(j)
  {
    mask, ports, links := {}, [], 0;
    for k := 0 to |lids|
      invariant mask == Union(lids[..k], j) && ports == Members(k, j) && links == |ports|
    {
      assert lids[..k + 1][..k] == lids[..k];
      if Bit(j, k) {
        mask := mask + lids[k];
        ports := ports + [k];
        links := links + 1;
      }
    }
    assert lids[..|lids|] == lids;
    MembersLength(|lids|, j);
  }

  /** The generator: the counter array, the drop rule and the loop over all non-empty port sets. */
  method WriteBridgeRules(lids: seq<Bits>) returns (rules: seq<Rule>)
    ensures rules == BridgeTable(lids)
  {
    hide BridgeTable, SubsetRule, Smaller, Count, Pop, Pow2, Union, Members;
    var n := |lids|;
    var counter := Counters(n);
    rules := [Rule(DROP_PRIORITY, {}, [], Stop)];
    Pow2Positive(n);
    CountOne(n);
    BridgeStart(lids);
    for j := 1 to Pow2(n)
      invariant fresh(counter)
      invariant forall i :: 0 <= i < n ==> counter[i] == Smaller(n, i + 1) + Count(i + 1, j)
      invariant rules == BridgeTable(lids)[..j]
    {
      var mask, ports, links := PortSet(lids, j);
      PopBelow(n, j);
      BridgeNext(lids, j);
      CountNext(n, j);
      rules := rules + [Rule(PRIORITY_BASE + counter[links - 1], mask, ports, Stop)];
      counter[links - 1] := counter[links - 1] + 1;
    }
    assert BridgeTable(lids)[..Pow2(n)] == BridgeTable(lids);
  }

  // The first priority of every size.
  method Counters(n: nat) returns (counter: array<nat>)
    ensures fresh(counter) && counter.Length == n
    ensures forall i :: 0 <= i < n ==> counter[i] == Smaller(n, i + 1)
  {
    counter := new nat[n];
    for f := 0 to n
      invariant forall i :: 0 <= i < f ==> counter[i] == Smaller(n, i + 1)
    {
      if f == 0 {
        counter[f] := 0;
      } else {
        QuotientIsChoose(n, f);
        counter[f] := counter[f - 1] + Factorial(n) / (Factorial(f) * Factorial(n - f));
      }
    }
  }

  lemma BridgeStart(lids: seq<Bits>)
    ensures BridgeTable(lids)[..1] == [Rule(DROP_PRIORITY, {}, [], Stop)]
  {}

  lemma BridgeNext(lids: seq<Bits>, j: nat)
    requires 0 < j < Pow2(|lids|)
    ensures BridgeTable(lids)[..j + 1] == BridgeTable(lids)[..j] +
            [Rule(PRIORITY_BASE + Smaller(|lids|, Pop(j)) + Count(Pop(j), j), Union(lids, j), Members(|lids|, j), Stop)]
  {
    assert BridgeTable(lids)[j] == SubsetRule(lids, j);
  }

  lemma CountNext(n: nat, j: nat)
    ensures forall i: nat :: 0 < i <= n ==> Count(i, j + 1) == Count(i, j) + if i == Pop(j) then 1 else 0
  {}

  lemma {:induction false} CountOne(n: nat)
    ensures forall i: nat :: 0 < i <= n ==> Count(i, 1) == 0
  {
    forall i: nat | 0 < i <= n
      ensures Count(i, 1) == 0
    {
      assert Count(i, 0) == 0 && Pop(0) == 0;
    }
  }

  // ------------------------------------------------------------------
  // Priorities

  lemma PriorityInBand(n: nat, j: nat)
    requires 0 < j < Pow2(n)
    ensures 0 < Pop(j) <= n
    ensures Smaller(n, Pop(j)) <= Priority(n, j) - PRIORITY_BASE < Smaller(n, Pop(j)) + Choose(n, Pop(j))
  {
    PopBelow(n, j);
    CountMonotone(Pop(j), j, Pow2(n));
    CountIsChoose(n, Pop(j));
  }

  /** A set with more ports always has the higher priority. */
  lemma LargerSetsWin(n: nat, i: nat, j: nat)
    requires 0 < i < Pow2(n) && 0 < j < Pow2(n) && Pop(i) < Pop(j)
    ensures Priority(n, i) < Priority(n, j)
  {
    PriorityInBand(n, i);
    SmallerMonotone(n, Pop(i), Pop(j));
  }

  /** No two sets share a priority. */
  lemma PrioritiesDistinct(n: nat, i: nat, j: nat)
    requires 0 < i < Pow2(n) && 0 < j < Pow2(n) && i != j
    ensures Priority(n, i) != Priority(n, j)
  {
    if Pop(i) < Pop(j) {
      LargerSetsWin(n, i, j);
    } else if Pop(j) < Pop(i) {
      LargerSetsWin(n, j, i);
    } else if i < j {
      CountMonotone(Pop(i), i, j);
    } else {
      CountMonotone(Pop(i), j, i);
    }
  }

  /** The priorities fill exactly 1000 .. 1000 + 2^n - 2. */
  lemma PrioritiesFill(n: nat, p: nat)
    ensures (exists j :: 0 < j < Pow2(n) && Priority(n, j) == p) <==> PRIORITY_BASE <= p < PRIORITY_BASE + Pow2(n) - 1
  {
    hide Priority, Smaller, Pow2;
    forall j | 0 < j < Pow2(n)
      ensures PRIORITY_BASE <= Priority(n, j) < PRIORITY_BASE + Pow2(n) - 1
    {
      PriorityAbove(n, j);
    }
    if PRIORITY_BASE <= p < PRIORITY_BASE + Pow2(n) - 1 {
      var j := PriorityTaken(n, p);
    }
  }

  lemma PriorityAbove(n: nat, j: nat)
    requires 0 < j < Pow2(n)
    ensures PRIORITY_BASE <= Priority(n, j) < PRIORITY_BASE + Pow2(n) - 1
  {
    SmallerTotal(n);
    PriorityInBand(n, j);
    SmallerMonotone(n, Pop(j), n + 1);
  }

  lemma PriorityTaken(n: nat, p: nat) returns (j: nat)
    requires PRIORITY_BASE <= p < PRIORITY_BASE + Pow2(n) - 1
    ensures 0 < j < Pow2(n) && Priority(n, j) == p
  {
    SmallerTotal(n);
    var k := FindBand(n, n + 1, p - PRIORITY_BASE);
    CountIsChoose(n, k);
    j := CountReaches(k, Pow2(n), p - PRIORITY_BASE - Smaller(n, k));
    assert Pop(0) == 0;
  }

  lemma {:induction false} FindBand(n: nat, k: nat, p: nat) returns (i: nat)
    requires p < Smaller(n, k)
    ensures 0 < i < k && Smaller(n, i) <= p < Smaller(n, i) + Choose(n, i)
    decreases k
  {
    if Smaller(n, k - 1) <= p {
      i := k - 1;
    } else {
      i := FindBand(n, k - 1, p);
    }
  }

  /** All priorities are 16-bit numbers exactly for up to 15 ports. */
  lemma PrioritiesFit16Bits(n: nat)
    requires n > 0
    ensures (forall j :: 0 < j < Pow2(n) ==> Priority(n, j) < 65536) <==> n <= 15
  {
    assert Pow2(4) == 16 && Pow2(8) == 16 * Pow2(4) && Pow2(12) == 16 * Pow2(8);
    assert Pow2(15) == 8 * Pow2(12) == 32768;
    if n <= 15 {
      Pow2Monotone(n, 15);
      forall j | 0 < j < Pow2(n)
        ensures Priority(n, j) < 65536
      {
        PrioritiesFill(n, Priority(n, j));
      }
    } else {
      Pow2Monotone(16, n);
      PrioritiesFill(n, 65536);
    }
  }

  lemma {:induction false} Pow2Monotone(i: nat, n: nat)
    requires i <= n
    ensures Pow2(i) <= Pow2(n)
    decreases n
  {
    Pow2Positive(n);
    if i < n { Pow2Monotone(i, n - 1); }
  }

  // ------------------------------------------------------------------
  // Meaning

  ghost function Flags(lids: seq<Bits>, fid: Bits): (r: seq<bool>)
    ensures |r| == |lids|
  {
    seq(|lids|, k requires 0 <= k < |lids| => lids[k] <= fid)
  }

  // A set's rule matches exactly when every member link matches.
  lemma {:induction false} UnionMatches(lids: seq<Bits>, j: nat, fid: Bits)
    ensures Union(lids, j) <= fid <==> forall k :: 0 <= k < |lids| && Bit(j, k) ==> lids[k] <= fid
  {
    if lids != [] {
      UnionMatches(lids[..|lids| - 1], j, fid);
    }
  }

  lemma {:induction false} MatchingIsMembers(lids: seq<Bits>, fid: Bits, j: nat)
    requires forall k :: 0 <= k < |lids| ==> (Bit(j, k) <==> lids[k] <= fid)
    ensures Matching(lids, fid) == Members(|lids|, j)
  {
    if lids != [] {
      var n := |lids| - 1;
      MatchingIsMembers(lids[..n], fid, j);
      assert lids[n] * fid == lids[n] <==> lids[n] <= fid;
    }
  }

  // The rule of the set of all matching links beats every other matching rule.
  lemma BestSet(lids: seq<Bits>, fid: Bits, j: nat)
    requires 0 < j < Pow2(|lids|) && Matches(SubsetRule(lids, j), fid)
    ensures var best := MaskOf(Flags(lids, fid));
      && 0 < best < Pow2(|lids|)
      && (j != best ==> Priority(|lids|, j) < Priority(|lids|, best))
  {
    var flags := Flags(lids, fid);
    var best := MaskOf(flags);
    UnionMatches(lids, j, fid);
    forall k: nat | Bit(j, k)
      ensures Bit(best, k)
    {
      BitsBelow(|lids|, j, k);
      MaskOfBits(flags, k);
    }
    SubsetPops(j, best);
    MaskOfBits(flags, 0);
    PopBelow(|lids|, j);
    if j != best { LargerSetsWin(|lids|, j, best); }
  }

  lemma BestMatches(lids: seq<Bits>, fid: Bits)
    ensures var best := MaskOf(Flags(lids, fid));
      best < Pow2(|lids|) && Union(lids, best) <= fid && Members(|lids|, best) == Matching(lids, fid)
  {
    var flags := Flags(lids, fid);
    forall k | 0 <= k < |lids|
      ensures Bit(MaskOf(flags), k) <==> lids[k] <= fid
    {
      MaskOfBits(flags, k);
    }
    MaskOfBits(flags, 0);
    UnionMatches(lids, MaskOf(flags), fid);
    MatchingIsMembers(lids, fid, MaskOf(flags));
  }

  lemma InBridgeTable(lids: seq<Bits>, r: Rule) returns (j: nat)
    requires r in BridgeTable(lids) && r.priority != DROP_PRIORITY
    ensures 0 < j < Pow2(|lids|) && r == SubsetRule(lids, j)
  {
    var i :| 0 <= i < |BridgeTable(lids)| && BridgeTable(lids)[i] == r;
    assert i > 0;
    j := i;
  }

  /** The selected rule of the bridge compilation outputs exactly on the matching links, and
      one is always selected. */
  lemma BridgeSelects(lids: seq<Bits>, fid: Bits, r: Rule)
    ensures Selected(BridgeTable(lids), fid, r) ==> r.ports == Matching(lids, fid) && r.next == Stop
    ensures exists q :: Selected(BridgeTable(lids), fid, q)
  {
    var table, best := BridgeTable(lids), MaskOf(Flags(lids, fid));
    var drop := table[0];
    BestMatches(lids, fid);
    var top := if best == 0 then drop else SubsetRule(lids, best);
    assert top in table by {
      if best != 0 { assert table[best] == top; }
    }
    forall q | q in table && Matches(q, fid)
      ensures q == top || q.priority < top.priority
    {
      if q.priority == DROP_PRIORITY {
        DropIsFirst(lids, q);
      } else {
        var j := InBridgeTable(lids, q);
        BestSet(lids, fid, j);
      }
    }
    assert Selected(table, fid, top);
    if best == 0 { NoMembers(|lids|); }
  }

  lemma DropIsFirst(lids: seq<Bits>, q: Rule)
    requires q in BridgeTable(lids) && q.priority == DROP_PRIORITY
    ensures q == Rule(DROP_PRIORITY, {}, [], Stop)
  {
    var i :| 0 <= i < |BridgeTable(lids)| && BridgeTable(lids)[i] == q;
    assert i > 0 ==> q == SubsetRule(lids, i);
  }

  lemma {:induction false} NoMembers(n: nat)
    ensures Members(n, 0) == []
  {
    if n > 0 {
      NoMembers(n - 1);
      NoBits(n - 1);
    }
  }

  // ------------------------------------------------------------------
  // One table per port

  function PortTable(lids: seq<Bits>, j: nat): seq<Rule>
    requires j < |lids|
  {
    var next := if j < |lids| - 1 then Resubmit(j + 1) else Stop;
    [Rule(DROP_PRIORITY, {}, [], next), Rule(PRIORITY_BASE, lids[j], [j], next)]
  }

  function PortTables(lids: seq<Bits>): seq<seq<Rule>> {
    seq(|lids|, j requires 0 <= j < |lids| => PortTable(lids, j))
  }

  method WritePortTables(lids: seq<Bits>) returns (tables: seq<seq<Rule>>)
    ensures tables == PortTables(lids)
  {
    tables := [];
    for j := 0 to |lids|
      invariant tables == PortTables(lids)[..j]
    {
      if j < |lids| - 1 {
        tables := tables + [[Rule(DROP_PRIORITY, {}, [], Resubmit(j + 1)), Rule(PRIORITY_BASE, lids[j], [j], Resubmit(j + 1))]];
      } else {
        tables := tables + [[Rule(DROP_PRIORITY, {}, [], Stop), Rule(PRIORITY_BASE, lids[j], [j], Stop)]];
      }
    }
  }

  // The matching links from link t on.
  function MatchingFrom(lids: seq<Bits>, t: nat, fid: Bits): seq<nat>
    decreases |lids| - t
  {
    if t >= |lids| then [] else (if lids[t] <= fid then [t] else []) + MatchingFrom(lids, t + 1, fid)
  }

  lemma {:induction false} MatchingSplit(lids: seq<Bits>, t: nat, fid: Bits)
    requires t <= |lids|
    ensures Matching(lids, fid) == Matching(lids[..t], fid) + MatchingFrom(lids, t, fid)
    decreases |lids| - t
  {
    if t == |lids| {
      assert lids[..t] == lids;
    } else {
      MatchingSplit(lids, t + 1, fid);
      var here := if lids[t] <= fid then [t] else [];
      assert Matching(lids[..t + 1], fid) == Matching(lids[..t], fid) + here by {
        assert lids[..t + 1][..t] == lids[..t];
        assert lids[t] * fid == lids[t] <==> lids[t] <= fid;
      }
      assert MatchingFrom(lids, t, fid) == here + MatchingFrom(lids, t + 1, fid);
    }
  }

  lemma PortSelected(lids: seq<Bits>, j: nat, fid: Bits, r: Rule)
    requires j < |lids|
    ensures var t := PortTable(lids, j);
      Selected(t, fid, r) <==> r == if lids[j] <= fid then t[1] else t[0]
  {
    var t := PortTable(lids, j);
    assert forall q :: q in t <==> q == t[0] || q == t[1];
    assert Matches(t[0], fid);
  }

  lemma {:induction false} PipelineFrom(lids: seq<Bits>, t: nat, fid: Bits, out: seq<nat>)
    ensures Processed(PortTables(lids), t, fid, out) <==> out == MatchingFrom(lids, t, fid)
    decreases |lids| - t
  {
    if t < |lids| {
      var table := PortTable(lids, t);
      var taken := if lids[t] <= fid then table[1] else table[0];
      forall r
        ensures Selected(table, fid, r) <==> r == taken
      {
        PortSelected(lids, t, fid, r);
      }
      var rest := MatchingFrom(lids, t + 1, fid);
      assert MatchingFrom(lids, t, fid) == taken.ports + rest;
      hide Selected;
      if taken.ports <= out {
        assert out == taken.ports + out[|taken.ports|..];
        PipelineFrom(lids, t + 1, fid, out[|taken.ports|..]);
      }
    }
  }

  /** Meaning preservation: for every link table, overlapping identifiers included, and every
      packet, the only possible result of either compilation is the Forwarder's own link list. */
  lemma CompilationsAgree(lids: seq<Bits>, fid: Bits, out: seq<nat>)
    ensures Processed([BridgeTable(lids)], 0, fid, out) <==> out == Matching(lids, fid)
    ensures Processed(PortTables(lids), 0, fid, out) <==> out == Matching(lids, fid)
  {
    MatchingSplit(lids, 0, fid);
    PipelineFrom(lids, 0, fid, out);
    var table := BridgeTable(lids);
    forall r
      ensures Selected(table, fid, r) ==> r.ports == Matching(lids, fid) && r.next == Stop
    {
      BridgeSelects(lids, fid, r);
    }
    BridgeSelects(lids, fid, table[0]);
    var q :| Selected(table, fid, q);
    assert [table][0] == table;
    hide Selected, BridgeTable;
    if out == Matching(lids, fid) {
      assert Selected([table][0], fid, q) && q.ports <= out && out == q.ports;
    }
  }
}
