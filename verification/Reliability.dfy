/** The control-plane reliability protocol (src/controlreliability.cc) as steps of hosts that
    exchange requests and acknowledgements over a network that loses, repeats and reorders. */
module Reliability {
  import opened PendingTable

  const CPR_LRU_SIZE: nat := 100
  const CPR_STATE_SIZE: nat := 100
  const CPR_MAX_RETRANSMISSIONS: nat := 3
  const CPR_TIMER_EXPIRATION: int := 1000

  /** One host: its unacknowledged requests (oldest transmission first), the ring of ids it
      passed up last with the slot to overwrite next, and whether the timer is scheduled. */
  datatype Host = Host(pending: seq<Entry>, ring: seq<nat>, slot: nat, armed: bool)

  // ------------------------------------------------------------------
  // Steps of one host

  function Submitted(h: Host, id: nat, data: Packet, now: int): Host {
    h.(pending := Inserted(h.pending, id, data, now, CPR_LRU_SIZE), armed := true)
  }

  // A request is passed up unless its id is in the ring; it is acknowledged either way.
  function RequestReceived(h: Host, id: nat): Host {
    if id in h.ring || h.slot >= |h.ring| then h
    else h.(ring := h.ring[h.slot := id], slot := if h.slot + 1 == |h.ring| then 0 else h.slot + 1)
  }

  function AckReceived(h: Host, id: nat): Host {
    h.(pending := Removed(h.pending, id))
  }

  datatype Outcome = Idle | TooEarly | Failure(id: nat) | Retransmit(id: nat, data: Packet)

  // What a firing timer does, at time `now`; `later` is the clock when a retransmission is stamped.
  function TimerOutcome(h: Host, now: int): Outcome {
    if h.pending == [] then Idle
    else if now - h.pending[0].sentAt - CPR_TIMER_EXPIRATION < 0 then TooEarly
    else if h.pending[0].retransmissions >= CPR_MAX_RETRANSMISSIONS then Failure(h.pending[0].ackID)
    else Retransmit(h.pending[0].ackID, h.pending[0].data)
  }

  function TimerFired(h: Host, now: int, later: int): Host {
    match TimerOutcome(h, now)
    case Idle => h.(armed := false)
    case TooEarly => h.(armed := true)
    case Failure(id) => h.(pending := h.pending[1..], armed := |h.pending| > 1)
    case Retransmit(id, data) =>
      var e := h.pending[0];
      h.(pending := h.pending[1..] + [e.(sentAt := later, retransmissions := e.retransmissions + 1)], armed := true)
  }

  // ------------------------------------------------------------------
  // What every step keeps

  ghost predicate HostOk(h: Host, clock: int) {
    && Distinct(h.pending) && |h.pending| <= CPR_LRU_SIZE + 1
    && (forall i, j :: 0 <= i < j < |h.pending| ==> h.pending[i].sentAt <= h.pending[j].sentAt)
    && (forall i :: 0 <= i < |h.pending| ==>
          h.pending[i].sentAt <= clock && h.pending[i].retransmissions <= CPR_MAX_RETRANSMISSIONS)
    && (h.pending != [] ==> h.armed)
  }

  lemma {:induction false} TrimmedIsSuffix(es: seq<Entry>, max: nat)
    ensures Trimmed(es, max) == if |es| <= max then es else es[|es| - max..]
  {
    if |es| > max {
      TrimmedIsSuffix(es[1..], max);
    }
  }

  // A table without one entry is still in order, and a youngest entry can be added.
  lemma CutKeepsOk(h: Host, k: nat, clock: int)
    requires HostOk(h, clock) && k < |h.pending|
    ensures HostOk(h.(pending := Cut(h.pending, k)), clock)
    ensures !Has(Cut(h.pending, k), h.pending[k].ackID) && |Cut(h.pending, k)| <= CPR_LRU_SIZE
  {
    var rest := Cut(h.pending, k);
    assert forall i :: 0 <= i < |rest| ==> rest[i] == h.pending[if i < k then i else i + 1];
  }

  lemma AppendKeepsOk(h: Host, e: Entry, clock: int)
    requires HostOk(h, clock) && clock <= e.sentAt && |h.pending| <= CPR_LRU_SIZE && !Has(h.pending, e.ackID)
    requires e.retransmissions <= CPR_MAX_RETRANSMISSIONS
    ensures HostOk(h.(pending := h.pending + [e], armed := true), e.sentAt)
  {}

  lemma TrimKeepsOk(h: Host, clock: int)
    requires HostOk(h, clock)
    ensures HostOk(h.(pending := Trimmed(h.pending, CPR_LRU_SIZE)), clock)
    ensures |Trimmed(h.pending, CPR_LRU_SIZE)| <= CPR_LRU_SIZE
    ensures forall id :: Has(Trimmed(h.pending, CPR_LRU_SIZE), id) ==> Has(h.pending, id)
  {
    TrimmedIsSuffix(h.pending, CPR_LRU_SIZE);
  }

  lemma SubmitKeepsOk(h: Host, id: nat, data: Packet, now: int, clock: int)
    requires HostOk(h, clock) && clock <= now
    ensures HostOk(Submitted(h, id, data, now), now)
  {
    if Has(h.pending, id) {
      var k := Find(h.pending, id);
      var e := h.pending[k].(sentAt := now);
      CutKeepsOk(h, k, clock);
      assert e.retransmissions <= CPR_MAX_RETRANSMISSIONS;
      hide HostOk;
      AppendKeepsOk(h.(pending := Cut(h.pending, k)), e, clock);
    } else {
      TrimKeepsOk(h, clock);
      hide HostOk;
      AppendKeepsOk(h.(pending := Trimmed(h.pending, CPR_LRU_SIZE)), Entry(id, data, now, 0), clock);
    }
  }

  /** After a submission the request is the youngest entry, stamped with the time; a known one keeps its
      data and its count. Every other entry stays as it is unless it is evicted, oldest first, and none
      is while the table is not over its size. */
  lemma SubmitExact(h: Host, id: nat, data: Packet, now: int, clock: int)
    requires HostOk(h, clock)
    ensures var es, r := h.pending, Submitted(h, id, data, now).pending;
      && r != [] && r[|r| - 1].ackID == id && r[|r| - 1].sentAt == now
      && (forall e :: e in r && e != r[|r| - 1] ==> e in es && e.ackID != id)
      && (if Has(es, id) then
            var e := es[Find(es, id)];
            |r| == |es| && r[|r| - 1].data == e.data && r[|r| - 1].retransmissions == e.retransmissions &&
            forall e' :: e' in es && e'.ackID != id ==> e' in r
          else
            var n := if |es| > CPR_LRU_SIZE then |es| - CPR_LRU_SIZE else 0;
            r == es[n..] + [Entry(id, data, now, 0)])
    ensures Submitted(h, id, data, now).armed && Submitted(h, id, data, now).ring == h.ring && Submitted(h, id, data, now).slot == h.slot
  {
    var es, r := h.pending, Submitted(h, id, data, now).pending;
    if Has(es, id) {
      var k := Find(es, id);
      RemovedExact(es, id);
      assert r == Removed(es, id) + [es[k].(sentAt := now)];
    } else {
      TrimmedIsSuffix(es, CPR_LRU_SIZE);
      assert es[0..] == es;
    }
  }

  // An id is removed and nothing else.
  lemma RemovedExact(es: seq<Entry>, id: nat)
    requires Distinct(es)
    ensures forall e :: e in Removed(es, id) <==> e in es && e.ackID != id
    ensures |Removed(es, id)| == |es| - (if Has(es, id) then 1 else 0)
  {
    hide Find, Cut;
    if Has(es, id) {
      CutExact(es, Find(es, id));
    } else {
      assert forall i :: 0 <= i < |es| ==> es[i].ackID != id;
    }
  }

  lemma CutExact(es: seq<Entry>, k: nat)
    requires Distinct(es) && k < |es|
    ensures |Cut(es, k)| == |es| - 1 && forall e :: e in Cut(es, k) <==> e in es && e.ackID != es[k].ackID
  {
    var r := Cut(es, k);
    forall e | e in es && e.ackID != es[k].ackID
      ensures e in r
    {
      var i :| 0 <= i < |es| && es[i] == e;
      assert r[if i < k then i else i - 1] == e;
    }
    forall e | e in r
      ensures e in es && e.ackID != es[k].ackID
    {
      var i :| 0 <= i < |r| && r[i] == e;
      assert r[i] == es[if i < k then i else i + 1];
    }
  }

  /** An acknowledgement takes its request out of the table and changes nothing else. */
  lemma AckExact(h: Host, id: nat, clock: int)
    requires HostOk(h, clock)
    ensures var h' := AckReceived(h, id);
      && !Has(h'.pending, id) && (forall e :: e in h'.pending <==> e in h.pending && e.ackID != id)
      && h'.ring == h.ring && h'.slot == h.slot && h'.armed == h.armed
  {
    RemovedExact(h.pending, id);
    var r := AckReceived(h, id).pending;
    assert forall i :: 0 <= i < |r| ==> r[i] in r;
  }

  /** A firing timer concerns the oldest entry only, and only if it is due: it goes after the last
      retransmission, and before that becomes the youngest, stamped with the new time. */
  lemma TimerExact(h: Host, now: int, later: int)
    ensures var h' := TimerFired(h, now, later);
      && h'.ring == h.ring && h'.slot == h.slot && (h'.armed <==> h'.pending != [])
      && (h.pending == [] || now - h.pending[0].sentAt < CPR_TIMER_EXPIRATION ==> h'.pending == h.pending)
      && (h.pending != [] && now - h.pending[0].sentAt >= CPR_TIMER_EXPIRATION ==>
            var e := h.pending[0];
            h'.pending == if e.retransmissions >= CPR_MAX_RETRANSMISSIONS then h.pending[1..]
                          else h.pending[1..] + [Entry(e.ackID, e.data, later, e.retransmissions + 1)])
  {}

  lemma AckKeepsOk(h: Host, id: nat, clock: int)
    requires HostOk(h, clock)
    ensures HostOk(AckReceived(h, id), clock)
  {
    if Has(h.pending, id) { CutKeepsOk(h, Find(h.pending, id), clock); }
  }

  lemma LaterKeepsOk(h: Host, clock: int, later: int)
    requires HostOk(h, clock) && clock <= later
    ensures HostOk(h, later) && HostOk(h.(armed := true), later) && (h.pending == [] ==> HostOk(h.(armed := false), later))
  {}

  lemma CutOldest(h: Host, clock: int)
    requires HostOk(h, clock) && h.pending != []
    ensures HostOk(h.(pending := h.pending[1..]), clock) && h.pending[0].retransmissions <= CPR_MAX_RETRANSMISSIONS
    ensures !Has(h.pending[1..], h.pending[0].ackID) && |h.pending[1..]| <= CPR_LRU_SIZE
  {
    CutKeepsOk(h, 0, clock);
    assert Cut(h.pending, 0) == h.pending[1..];
  }

  lemma TimerKeepsOk(h: Host, now: int, later: int, clock: int)
    requires HostOk(h, clock) && clock <= now <= later
    ensures HostOk(TimerFired(h, now, later), later)
  {
    hide HostOk, Has;
    LaterKeepsOk(h, clock, later);
    if h.pending != [] {
      CutOldest(h, clock);
      var rest, e := h.(pending := h.pending[1..]), h.pending[0];
      LaterKeepsOk(rest, clock, later);
      if e.retransmissions < CPR_MAX_RETRANSMISSIONS {
        AppendKeepsOk(rest, e.(sentAt := later, retransmissions := e.retransmissions + 1), clock);
      }
    }
  }

  /** The list is sorted by time, so looking at the oldest entry is enough. */
  lemma NoneTimedOut(h: Host, now: int, clock: int, i: nat)
    requires HostOk(h, clock) && TimerOutcome(h, now) == TooEarly && i < |h.pending|
    ensures now - h.pending[i].sentAt < CPR_TIMER_EXPIRATION
  {
    assert h.pending[0].sentAt <= h.pending[i].sentAt;
  }

  // ------------------------------------------------------------------
  // Draining

  // Timeouts left before a table without new requests is empty.
  function Work(es: seq<Entry>): int {
    if es == [] then 0 else CPR_MAX_RETRANSMISSIONS + 1 - es[0].retransmissions + Work(es[1..])
  }

  lemma {:induction false} WorkConcat(a: seq<Entry>, b: seq<Entry>)
    ensures Work(a + b) == Work(a) + Work(b)
  {
    if a == [] {
      assert a + b == b;
    } else {
      assert (a + b)[1..] == a[1..] + b;
      WorkConcat(a[1..], b);
    }
  }

  lemma {:induction false} WorkPositive(h: Host, clock: int)
    requires HostOk(h, clock)
    ensures Work(h.pending) >= |h.pending|
    decreases |h.pending|
  {
    if h.pending != [] { WorkPositive(h.(pending := h.pending[1..]), clock); }
  }

  /** Each timeout does exactly one unit of the remaining work; acknowledgements only save work. */
  lemma TimeoutWork(h: Host, now: int, later: int, clock: int)
    requires HostOk(h, clock) && (TimerOutcome(h, now).Failure? || TimerOutcome(h, now).Retransmit?)
    ensures Work(TimerFired(h, now, later).pending) == Work(h.pending) - 1
  {
    if TimerOutcome(h, now).Retransmit? {
      var e := h.pending[0];
      WorkConcat(h.pending[1..], [e.(sentAt := later, retransmissions := e.retransmissions + 1)]);
    }
  }

  lemma AckWork(h: Host, id: nat, clock: int)
    requires HostOk(h, clock)
    ensures Work(AckReceived(h, id).pending) <= Work(h.pending)
  {
    if Has(h.pending, id) {
      var k := Find(h.pending, id);
      assert h.pending == h.pending[..k] + ([h.pending[k]] + h.pending[k + 1..]);
      WorkConcat(h.pending[..k], [h.pending[k]] + h.pending[k + 1..]);
      WorkConcat(h.pending[..k], h.pending[k + 1..]);
    }
  }

  datatype Quiet = Acked(id: nat) | TimedOut(now: int, later: int)

  // A run of one host with acknowledgements and timeouts but no new requests.
  ghost predicate QuietRun(h: Host, clock: int, events: seq<Quiet>, last: Host)
    decreases |events|
  {
    if events == [] then last == h else
      match events[0]
      case Acked(id) => QuietRun(AckReceived(h, id), clock, events[1..], last)
      case TimedOut(now, later) =>
        && clock <= now <= later && (TimerOutcome(h, now).Failure? || TimerOutcome(h, now).Retransmit?)
        && QuietRun(TimerFired(h, now, later), later, events[1..], last)
  }

  function Timeouts(events: seq<Quiet>): nat {
    if events == [] then 0 else (if events[0].TimedOut? then 1 else 0) + Timeouts(events[1..])
  }

  /** Without new requests the table is empty after at most Work timeouts. */
  lemma {:induction false} Drains(h: Host, clock: int, events: seq<Quiet>, last: Host)
    requires HostOk(h, clock) && QuietRun(h, clock, events, last)
    ensures Work(last.pending) <= Work(h.pending) - Timeouts(events)
    ensures Timeouts(events) <= Work(h.pending)
    ensures Timeouts(events) == Work(h.pending) ==> last.pending == []
    decreases |events|
  {
    WorkPositive(h, clock);
    if events != [] {
      match events[0]
      case Acked(id) =>
        AckKeepsOk(h, id, clock);
        AckWork(h, id, clock);
        Drains(AckReceived(h, id), clock, events[1..], last);
        if Timeouts(events) == Work(h.pending) { assert Timeouts(events[1..]) == Work(AckReceived(h, id).pending); }
      case TimedOut(now, later) =>
        TimerKeepsOk(h, now, later, clock);
        TimeoutWork(h, now, later, clock);
        Drains(TimerFired(h, now, later), later, events[1..], last);
    }
  }

  // ------------------------------------------------------------------
  // The ring

  // The ring holds the last |ring| ids passed up, and `slot` is where the oldest is.
  ghost predicate RingOk(h: Host, up: seq<nat>) {
    && |h.ring| > 0 && h.slot == |up| % |h.ring|
    && forall i :: 0 <= i < |up| && |up| - |h.ring| <= i ==> h.ring[i % |h.ring|] == up[i]
  }

  lemma ModDiffers(i: int, j: int, n: int)
    requires n > 0 && 0 <= i < j < i + n
    ensures i % n != j % n
  {
    var d := j / n - i / n;
    assert j - i == d * n + (j % n - i % n);
    if i % n == j % n {
      SmallMultipleZero(d, n, j - i);
      assert false;
    }
  }

  lemma NextSlot(k: int, n: int)
    requires n > 0 && k >= 0
    ensures (k + 1) % n == if k % n + 1 == n then 0 else k % n + 1
  {
    assert k + 1 == (k / n) * n + (k % n + 1);
    if k % n + 1 == n {
      assert k + 1 == (k / n + 1) * n;
      ModOfMultiple(k / n + 1, n, 0);
    } else {
      ModOfMultiple(k / n, n, k % n + 1);
    }
  }

  lemma ModOfMultiple(q: int, n: int, r: int)
    requires n > 0 && 0 <= r < n
    ensures (q * n + r) % n == r
  {
    var x := q * n + r;
    assert x == (x / n) * n + x % n;
    assert (x / n - q) * n == r - x % n;
    SmallMultipleZero(x / n - q, n, r - x % n);
  }

  lemma SmallMultipleZero(d: int, n: int, x: int)
    requires n > 0 && x == d * n && -n < x < n
    ensures x == 0
  {}

  lemma PassUpKeepsRing(h: Host, up: seq<nat>, id: nat)
    requires RingOk(h, up) && id !in h.ring
    ensures RingOk(RequestReceived(h, id), up + [id])
  {
    var n, h' := |h.ring|, RequestReceived(h, id);
    NextSlot(|up|, n);
    forall i | 0 <= i < |up| + 1 && |up| + 1 - n <= i
      ensures h'.ring[i % n] == (up + [id])[i]
    {
      if i < |up| { ModDiffers(i, |up|, n); }
    }
  }

  // Equal ids are passed up more than a ring length apart.
  ghost predicate Spaced(up: seq<nat>, n: nat) {
    forall i, j :: 0 <= i < j < |up| && up[i] == up[j] ==> j - i > n
  }

  lemma PassUpKeepsSpaced(h: Host, up: seq<nat>, id: nat)
    requires RingOk(h, up) && Spaced(up, |h.ring|) && id !in h.ring
    ensures Spaced(up + [id], |h.ring|)
  {
    forall i | 0 <= i < |up| && up[i] == id
      ensures |up| - i > |h.ring|
    {
      assert h.ring[i % |h.ring|] != id;
    }
  }
}
