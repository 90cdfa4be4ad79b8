/** The table of unacknowledged control requests (`Pending_LRU` in src/controlreliability.cc):
    two hash maps and a doubly linked list, and the sequence of entries they stand for, oldest
    transmission (tail) first. */
module PendingTable {

  newtype Byte = x: int | 0 <= x < 256
  type Packet = seq<Byte>

  datatype Entry = Entry(ackID: nat, data: Packet, sentAt: int, retransmissions: nat)

  // ------------------------------------------------------------------
  // The table as a sequence

  ghost predicate Distinct(es: seq<Entry>) {
    forall i, j :: 0 <= i < j < |es| ==> es[i].ackID != es[j].ackID
  }

  predicate Has(es: seq<Entry>, id: nat) {
    exists i :: 0 <= i < |es| && es[i].ackID == id
  }

  function Find(es: seq<Entry>, id: nat): (i: nat)
    requires Has(es, id)
    ensures i < |es| && es[i].ackID == id
  {
    if es[0].ackID == id then 0 else
      assert Has(es[1..], id) by {
        var i :| 0 <= i < |es| && es[i].ackID == id;
        assert es[1..][i - 1].ackID == id;
      }
      1 + Find(es[1..], id)
  }

  // Remove the entry with this id, if there is one.
  function Removed(es: seq<Entry>, id: nat): seq<Entry> {
    if Has(es, id) then Cut(es, Find(es, id)) else es
  }

  // Restart the clock of an entry and make it the youngest.
  function Refreshed(es: seq<Entry>, id: nat, now: int): seq<Entry>
    requires Has(es, id)
  {
    Removed(es, id) + [es[Find(es, id)].(sentAt := now)]
  }

  lemma RefreshedOldest(es: seq<Entry>, id: nat, now: int)
    requires Has(es, id) && Find(es, id) == 0
    ensures Refreshed(es, id, now) == es[1..] + [es[0].(sentAt := now)]
  {}

  function Trimmed(es: seq<Entry>, max: nat): (r: seq<Entry>)
  {
    if |es| <= max then es else Trimmed(es[1..], max)
  }

  // A new id evicts from the old end while the table is over its nominal size.
  function Inserted(es: seq<Entry>, id: nat, data: Packet, now: int, max: nat): seq<Entry> {
    if Has(es, id) then Refreshed(es, id, now)
    else Trimmed(es, max) + [Entry(id, data, now, 0)]
  }

  lemma FindUnique(es: seq<Entry>, id: nat, k: nat)
    requires Distinct(es) && k < |es| && es[k].ackID == id
    ensures Has(es, id) && Find(es, id) == k
  {
    var i := Find(es, id);
    if i < k { assert false; } else if k < i { assert false; }
  }

  // ------------------------------------------------------------------
  // The linked structure

  class Node {
    const ackID: nat
    const data: Packet
    var retransmissions: nat
    var prev: Node?
    var next: Node?

    constructor (ackID: nat, data: Packet)
      ensures this.ackID == ackID && this.data == data && retransmissions == 0 && prev == null && next == null
    {
      this.ackID, this.data := ackID, data;
      retransmissions, prev, next := 0, null, null;
    }
  }

  ghost predicate NoRepeats(nodes: seq<Node>) {
    forall i, j :: 0 <= i < j < |nodes| ==> nodes[i] != nodes[j]
  }

  function Cut<T>(s: seq<T>, k: nat): seq<T>
    requires k < |s|
  {
    s[..k] + s[k + 1..]
  }

  // A node and its table entry, as the two maps record them.
  ghost predicate Recorded(n: Node, e: Entry, objects: map<nat, Node>, times: map<nat, int>) {
    && e.ackID == n.ackID && e.data == n.data
    && n.ackID in objects && objects[n.ackID] == n
    && n.ackID in times && times[n.ackID] == e.sentAt
  }

  // Both maps record the listed nodes and, by their size, nothing else.
  ghost predicate Indexed(nodes: seq<Node>, es: seq<Entry>, objects: map<nat, Node>, times: map<nat, int>) {
    && |nodes| == |es| == |objects| && objects.Keys == times.Keys
    && forall i :: 0 <= i < |nodes| ==> Recorded(nodes[i], es[i], objects, times)
  }

  function Ids(es: seq<Entry>): set<nat> {
    set i | 0 <= i < |es| :: es[i].ackID
  }

  lemma {:induction false} IdsCount(es: seq<Entry>)
    requires Distinct(es)
    ensures |Ids(es)| == |es|
  {
    if es != [] {
      var n := |es| - 1;
      IdsCount(es[..n]);
      assert Ids(es) == Ids(es[..n]) + {es[n].ackID};
      assert es[n].ackID !in Ids(es[..n]);
    }
  }

  lemma SameSizeSubset(a: set<nat>, b: set<nat>)
    requires a <= b && |a| == |b|
    ensures a == b
  {
    assert |b - a| == |b| - |a|;
    assert b == a + (b - a);
  }

  lemma IndexedDistinct(nodes: seq<Node>, es: seq<Entry>, objects: map<nat, Node>, times: map<nat, int>)
    requires NoRepeats(nodes) && Indexed(nodes, es, objects, times)
    ensures Distinct(es)
  {
    forall i, j | 0 <= i < j < |es|
      ensures es[i].ackID != es[j].ackID
    {
      assert Recorded(nodes[i], es[i], objects, times) && Recorded(nodes[j], es[j], objects, times);
    }
  }

  lemma IndexedMeans(nodes: seq<Node>, es: seq<Entry>, objects: map<nat, Node>, times: map<nat, int>)
    requires NoRepeats(nodes) && Indexed(nodes, es, objects, times)
    ensures Distinct(es) && forall id :: id in objects <==> Has(es, id)
  {
    IndexedDistinct(nodes, es, objects, times);
    IdsCount(es);
    forall id | id in Ids(es)
      ensures id in objects
    {
      var i :| 0 <= i < |es| && es[i].ackID == id;
      assert Recorded(nodes[i], es[i], objects, times);
    }
    assert |objects.Keys| == |objects|;
    SameSizeSubset(Ids(es), objects.Keys);
    assert forall id :: id in Ids(es) <==> Has(es, id);
  }

  lemma HasIff(nodes: seq<Node>, es: seq<Entry>, objects: map<nat, Node>, times: map<nat, int>, id: nat)
    requires NoRepeats(nodes) && Indexed(nodes, es, objects, times)
    ensures id in objects <==> Has(es, id)
  {
    IndexedMeans(nodes, es, objects, times);
  }

  lemma IndexOf(nodes: seq<Node>, es: seq<Entry>, objects: map<nat, Node>, times: map<nat, int>, id: nat) returns (k: nat)
    requires NoRepeats(nodes) && Indexed(nodes, es, objects, times) && id in objects
    ensures k < |nodes| && nodes[k] == objects[id] && nodes[k].ackID == id && Has(es, id) && Find(es, id) == k
  {
    IndexedMeans(nodes, es, objects, times);
    k := Find(es, id);
    assert Recorded(nodes[k], es[k], objects, times);
  }

  lemma IndexedCut(nodes: seq<Node>, es: seq<Entry>, objects: map<nat, Node>, times: map<nat, int>, k: nat)
    requires NoRepeats(nodes) && Indexed(nodes, es, objects, times) && k < |nodes|
    ensures Indexed(Cut(nodes, k), Cut(es, k), objects - {nodes[k].ackID}, times - {nodes[k].ackID})
  {
    var id, objects' := nodes[k].ackID, objects - {nodes[k].ackID};
    assert Recorded(nodes[k], es[k], objects, times);
    assert objects'.Keys == objects.Keys - {id};
    assert |objects'| == |objects'.Keys| && |objects| == |objects.Keys|;
  }

  lemma IndexedAppend(nodes: seq<Node>, es: seq<Entry>, objects: map<nat, Node>, times: map<nat, int>, n: Node, e: Entry)
    requires Indexed(nodes, es, objects, times) && n.ackID !in objects && e.ackID == n.ackID && e.data == n.data
    ensures n !in nodes
    ensures Indexed(nodes + [n], es + [e], objects[n.ackID := n], times[n.ackID := e.sentAt])
  {
    var objects' := objects[n.ackID := n];
    assert objects'.Keys == objects.Keys + {n.ackID};
    assert |objects'| == |objects'.Keys| && |objects| == |objects.Keys|;
  }

  // Moving a node to the young end is dropping and appending it.
  lemma IndexedMove(nodes: seq<Node>, es: seq<Entry>, objects: map<nat, Node>, times: map<nat, int>, k: nat, now: int)
    requires NoRepeats(nodes) && Indexed(nodes, es, objects, times) && k < |nodes|
    ensures Indexed(Cut(nodes, k) + [nodes[k]], Cut(es, k) + [es[k].(sentAt := now)], objects, times[nodes[k].ackID := now])
  {
    var n := nodes[k];
    IndexedCut(nodes, es, objects, times, k);
    assert Recorded(n, es[k], objects, times);
    hide Indexed;
    IndexedAppend(Cut(nodes, k), Cut(es, k), objects - {n.ackID}, times - {n.ackID}, n, es[k].(sentAt := now));
    assert (objects - {n.ackID})[n.ackID := n] == objects;
    assert (times - {n.ackID})[n.ackID := now] == times[n.ackID := now];
  }

  // No other listed node has this one's id.
  ghost predicate OnlyAt(nodes: seq<Node>, k: nat)
    requires k < |nodes|
  {
    forall i :: 0 <= i < |nodes| && nodes[i].ackID == nodes[k].ackID ==> i == k
  }

  lemma OnlyOne(nodes: seq<Node>, es: seq<Entry>, objects: map<nat, Node>, times: map<nat, int>, k: nat)
    requires NoRepeats(nodes) && Indexed(nodes, es, objects, times) && k < |nodes|
    ensures |objects| == |nodes| == |es|
    ensures OnlyAt(nodes, k) && nodes[k] !in Cut(nodes, k)
  {
    forall i | 0 <= i < |nodes| && nodes[i].ackID == nodes[k].ackID
      ensures i == k
    {
      assert Recorded(nodes[i], es[i], objects, times) && Recorded(nodes[k], es[k], objects, times);
    }
  }

  ghost predicate Counted(nodes: seq<Node>, es: seq<Entry>)
    reads nodes`retransmissions
  {
    |nodes| == |es| && forall i :: 0 <= i < |nodes| ==> nodes[i].retransmissions == es[i].retransmissions
  }

  lemma CountedCut(nodes: seq<Node>, es: seq<Entry>, k: nat, e: Entry)
    requires Counted(nodes, es) && k < |nodes| && e.retransmissions == es[k].retransmissions
    ensures Counted(Cut(nodes, k), Cut(es, k))
    ensures Counted(Cut(nodes, k) + [nodes[k]], Cut(es, k) + [e])
  {}

  class PendingLru {
    var objects: map<nat, Node>
    var sentTimes: map<nat, int>
    var head: Node?
    var tail: Node?
    const max: nat
    ghost var order: seq<Node>  // tail to head
    ghost var repr: set<Node>  // the listed nodes
    ghost var contents: seq<Entry>  // what the table stands for

    // The links of the list; the newest node's `next` may point anywhere.
    ghost predicate Linked()
      reads this`order, this`repr, this`head, this`tail, repr`prev, repr`next
    {
      && NoRepeats(order) && (forall i :: 0 <= i < |order| ==> order[i] in repr)
      && (forall i {:trigger order[i].next} :: 0 <= i < |order| - 1 ==> order[i].next == order[i + 1])
      && (forall i {:trigger order[i].prev} :: 1 <= i < |order| ==> order[i].prev == order[i - 1])
      && (if order == [] then head == null && tail == null
          else tail == order[0] && head == order[|order| - 1] && tail.prev == null)
    }

    ghost predicate Valid()
      reads this, repr
    {
      Linked() && Counted(order, contents) && Indexed(order, contents, objects, sentTimes)
    }

    constructor (max: nat)
      ensures Valid() && contents == [] && this.max == max && repr == {}
    {
      this.max := max;
      objects, sentTimes, head, tail, order, contents, repr := map[], map[], null, null, [], [], {};
    }

    // Take a node that is not the newest out of the list.
    method UnlinkOlder(obj: Node, ghost k: nat)
      requires Linked() && k < |order| - 1 && obj == order[k]
      modifies this`tail, this`order, repr`prev, repr`next
      ensures Linked() && order == old(Cut(order, k))
    {
      if obj == tail {
        tail := obj.next;
        tail.prev := null;
      } else {
        obj.next.prev := obj.prev;
        obj.prev.next := obj.next;
      }
      order := Cut(order, k);
    }

    // Take the newest node out of a list of several.
    method UnlinkNewest(obj: Node)
      requires Linked() && |order| > 1 && obj == order[|order| - 1]
      modifies this`head, this`order, repr`next
      ensures Linked() && order == old(Cut(order, |order| - 1))
    {
      obj.prev.next := null;
      head := obj.prev;
      order := Cut(order, |order| - 1);
    }

    // Link a node in as the newest.
    method LinkNewest(obj: Node)
      requires Linked() && order != [] && obj in repr && obj !in order
      modifies this`head, this`order, repr`prev, repr`next
      ensures Linked() && order == old(order) + [obj]
    {
      head.next := obj;
      obj.prev := head;
      head := obj;
      order := order + [obj];
    }

    // The three cases of removal from a list of several, told apart by id, and the last node.
    method Unlink(obj: Node, single: bool, ghost k: nat)
      requires Linked() && k < |order| && obj == order[k] && (single <==> |order| == 1)
      requires OnlyAt(order, k)
      modifies this`head, this`tail, this`order, repr`prev, repr`next
      ensures Linked() && order == old(Cut(order, k))
    {
      if !single {
        if obj.ackID == head.ackID {
          UnlinkNewest(obj);
        } else {
          UnlinkOlder(obj, k);
        }
      } else {
        head := null;
        tail := null;
        order := Cut(order, k);
      }
    }

    method RemoveStored(id: nat, ghost k: nat)
      requires Valid() && id in objects && k < |order| && order[k] == objects[id] && order[k].ackID == id
      modifies this`objects, this`sentTimes, this`head, this`tail, this`order, this`contents, repr`prev, repr`next
      ensures Valid() && contents == Cut(old(contents), k)
    {
      hide Indexed, Counted, OnlyAt, Linked, NoRepeats, Cut;
      RemoveFacts(id, k);
      var obj, single := objects[id], |objects| == 1;
      sentTimes := sentTimes - {id};
      objects := objects - {id};
      contents := Cut(contents, k);
      Unlink(obj, single, k);
    }

    lemma RemoveFacts(id: nat, k: nat)
      requires Valid() && id in objects && k < |order| && order[k] == objects[id] && order[k].ackID == id
      ensures |order| == |contents| == |objects| && OnlyAt(order, k)
      ensures Indexed(Cut(order, k), Cut(contents, k), objects - {id}, sentTimes - {id})
      ensures Counted(Cut(order, k), Cut(contents, k))
    {
      hide Indexed, Counted, OnlyAt, NoRepeats, Cut;
      assert NoRepeats(order);
      OnlyOne(order, contents, objects, sentTimes, k);
      IndexedCut(order, contents, objects, sentTimes, k);
      CountedCut(order, contents, k, contents[k]);
    }

    // Drop an acknowledged, failed or evicted request.
    method Remove(id: nat) returns (missing: bool)
      requires Valid()
      modifies this`objects, this`sentTimes, this`head, this`tail, this`order, this`contents, repr`prev, repr`next
      ensures Valid() && contents == Removed(old(contents), id)
      ensures missing <==> !Has(old(contents), id)
    {
      HasIff(order, contents, objects, sentTimes, id);
      if id !in objects {
        return true;
      }
      missing := false;
      ghost var k := IndexOf(order, contents, objects, sentTimes, id);
      RemoveStored(id, k);
    }

    // Restart a request's clock and make it the newest.
    method Update(id: nat, now: int)
      requires Valid() && id in objects
      modifies this`sentTimes, this`head, this`tail, this`order, this`contents, repr`prev, repr`next
      ensures Valid() && objects == old(objects)
      ensures Has(old(contents), id) && contents == Refreshed(old(contents), id, now)
      ensures head == objects[id]
    {
      hide Indexed, Counted, OnlyAt, Linked, NoRepeats, Cut, Has, Find, Refreshed;
      var obj := objects[id];
      ghost var k := UpdateFacts(id, now);
      ghost var moved := Cut(order, k) + [order[k]];
      sentTimes := sentTimes[id := now];
      contents := Cut(contents, k) + [contents[k].(sentAt := now)];
      HeadIs(k);
      if obj.ackID == head.ackID {
        HeadMoved(k);
      } else {
        MoveToHead(obj, k);
      }
    }

    // The node goes from its place to the newest end.
    method MoveToHead(obj: Node, ghost k: nat)
      requires Linked() && k < |order| - 1 && obj == order[k] && obj !in Cut(order, k) && obj in repr
      modifies this`head, this`tail, this`order, repr`prev, repr`next
      ensures Linked() && order == old(Cut(order, k) + [order[k]]) && head == obj
    {
      UnlinkOlder(obj, k);
      LinkNewest(obj);
    }

    lemma HeadIs(k: nat)
      requires Linked() && k < |order| && OnlyAt(order, k)
      ensures head != null && head == order[|order| - 1] && order[k] in repr && (order[k].ackID == head.ackID <==> k == |order| - 1)
    {}

    lemma HeadMoved(k: nat)
      requires k == |order| - 1
      ensures Cut(order, k) + [order[k]] == order
    {}

    lemma UpdateFacts(id: nat, now: int) returns (k: nat)
      requires Valid() && id in objects
      ensures k < |order| == |contents| && order[k] == objects[id] && order[k].ackID == id && OnlyAt(order, k) && order[k] !in Cut(order, k)
      ensures Has(contents, id) && Refreshed(contents, id, now) == Cut(contents, k) + [contents[k].(sentAt := now)]
      ensures Indexed(Cut(order, k) + [order[k]], Cut(contents, k) + [contents[k].(sentAt := now)], objects, sentTimes[id := now])
      ensures Counted(Cut(order, k) + [order[k]], Cut(contents, k) + [contents[k].(sentAt := now)])
    {
      hide Indexed, Counted, OnlyAt, NoRepeats, Has, Find, Cut;
      assert NoRepeats(order);
      k := IndexOf(order, contents, objects, sentTimes, id);
      OnlyOne(order, contents, objects, sentTimes, k);
      IndexedMove(order, contents, objects, sentTimes, k, now);
      CountedCut(order, contents, k, contents[k].(sentAt := now));
    }

    // The size test runs before the insertion, so the table can hold one more than its maximum.
    method Evict(ghost id: nat)
      requires Valid() && id !in objects
      modifies this`objects, this`sentTimes, this`head, this`tail, this`order, this`contents, repr`prev, repr`next
      ensures Valid() && id !in objects && contents == Trimmed(old(contents), max)
    {
      while |objects| > max
        invariant Valid() && id !in objects
        invariant Trimmed(contents, max) == Trimmed(old(contents), max)
        decreases |objects|
      {
        hide Indexed, Counted, Linked, NoRepeats, Has, Find, Cut;
        OldestIsTail(id);
        var missing := Remove(tail.ackID);
        StillAbsent(id);
      }
    }

    // The tail is the first entry, and an id that is not stored stays so when it goes.
    lemma OldestIsTail(id: nat)
      requires Valid() && |objects| > 0 && id !in objects
      ensures tail != null && contents != [] && Removed(contents, tail.ackID) == contents[1..]
      ensures !Has(contents[1..], id)
    {
      hide Counted;
      HasIff(order, contents, objects, sentTimes, id);
      assert Recorded(tail, contents[0], objects, sentTimes);
      IndexedDistinct(order, contents, objects, sentTimes);
      FindUnique(contents, tail.ackID, 0);
    }

    lemma StillAbsent(id: nat)
      requires Valid() && !Has(contents, id)
      ensures id !in objects
    {
      hide Counted;
      HasIff(order, contents, objects, sentTimes, id);
    }

    method Store(obj: Node, now: int)
      requires Valid() && obj !in repr && obj.ackID !in objects && obj.prev == null && obj.retransmissions == 0
      modifies this`objects, this`sentTimes, this`head, this`tail, this`order, this`contents, this`repr
      modifies repr`prev, repr`next, obj`prev, obj`next
      ensures Valid() && contents == old(contents) + [Entry(obj.ackID, obj.data, now, 0)]
      ensures repr == old(repr) + {obj}
    {
      hide Indexed, Counted, Linked, NoRepeats;
      StoreFacts(obj, now);
      objects := objects[obj.ackID := obj];
      sentTimes := sentTimes[obj.ackID := now];
      contents := contents + [Entry(obj.ackID, obj.data, now, 0)];
      LinkNew(obj);
    }

    lemma StoreFacts(obj: Node, now: int)
      requires Valid() && obj.ackID !in objects && obj.retransmissions == 0
      ensures obj !in order
      ensures var e := Entry(obj.ackID, obj.data, now, 0);
        && Indexed(order + [obj], contents + [e], objects[obj.ackID := obj], sentTimes[obj.ackID := now])
        && Counted(order + [obj], contents + [e])
    {
      hide Indexed, Linked;
      IndexedAppend(order, contents, objects, sentTimes, obj, Entry(obj.ackID, obj.data, now, 0));
    }

    // The first node of a list, or a new newest one.
    method LinkNew(obj: Node)
      requires Linked() && obj !in repr && obj !in order && obj.prev == null
      modifies this`head, this`tail, this`order, this`repr, repr`prev, repr`next, obj`prev, obj`next
      ensures Linked() && order == old(order) + [obj] && repr == old(repr) + {obj}
    {
      repr := repr + {obj};
      if head == null {
        head := obj;
        tail := obj;
        order := order + [obj];
      } else {
        LinkNewest(obj);
      }
    }

    /** Store a request; on a repeated id only the clock restarts and the stored one stays. */
    method Insert(obj: Node, now: int)
      requires Valid() && obj !in repr && obj.prev == null && obj.retransmissions == 0
      modifies this`objects, this`sentTimes, this`head, this`tail, this`order, this`contents, this`repr
      modifies repr`prev, repr`next, obj`prev, obj`next
      ensures Valid() && contents == Inserted(old(contents), obj.ackID, obj.data, now, max)
      ensures repr <= old(repr) + {obj}
    {
      HasIff(order, contents, objects, sentTimes, obj.ackID);
      hide Linked, Indexed, Counted;
      if obj.ackID in objects {
        Update(obj.ackID, now);
        return;
      }
      Evict(obj.ackID);
      Store(obj, now);
    }

    // The oldest entry is the tail's, and its id finds it in both maps.
    lemma SameSize()
      requires Valid()
      ensures |objects| == |contents|
    {}

    lemma OldestEntry()
      requires Valid() && |objects| > 0
      ensures tail != null && tail in repr && |contents| == |objects| == |order| && order[0] == tail
      ensures Recorded(tail, contents[0], objects, sentTimes)
      ensures tail.retransmissions == contents[0].retransmissions
      ensures Has(contents, tail.ackID) && Find(contents, tail.ackID) == 0
    {
      assert Recorded(order[0], contents[0], objects, sentTimes);
      IndexedDistinct(order, contents, objects, sentTimes);
      FindUnique(contents, tail.ackID, 0);
    }

    // Count a retransmission of the newest request.
    method CountRetransmission(obj: Node)
      requires Valid() && head == obj
      modifies this`contents, obj`retransmissions
      ensures Valid() && |contents| == |old(contents)| > 0
      ensures contents == old(contents)[|contents| - 1 := old(contents)[|contents| - 1].(retransmissions := old(contents)[|contents| - 1].retransmissions + 1)]
    {
      ghost var n := |order| - 1;
      assert order[n] == obj;
      obj.retransmissions := obj.retransmissions + 1;
      contents := contents[n := contents[n].(retransmissions := contents[n].retransmissions + 1)];
      forall i | 0 <= i < |order|
        ensures Recorded(order[i], contents[i], objects, sentTimes)
      {
        assert Recorded(order[i], old(contents)[i], objects, sentTimes);
      }
    }
  }
}
