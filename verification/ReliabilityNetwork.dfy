/** Runs of any number of hosts over an unreliable network: everything ever sent stays
    deliverable, any number of times and in any order, or never. */
module ReliabilityNetwork {
  import opened PendingTable
  import opened Reliability

  datatype Msg = Req(id: nat, data: Packet) | Ack(id: nat)

  datatype Reason = Acknowledged | GaveUp | Evicted

  // A host's bookkeeping of its stored requests.
  datatype Event = Stored(id: nat) | Sent(id: nat) | Retired(id: nat, why: Reason)

  // The ids and the packets passed up, in order.
  datatype Peer = Peer(h: Host, up: seq<nat>, got: seq<Packet>, log: seq<Event>)

  datatype System = System(peers: seq<Peer>, net: set<Msg>, clock: int)

  datatype Action =
    | Submit(p: nat, id: nat, data: Packet, now: int)
    | Deliver(p: nat, m: Msg)
    | Fire(p: nat, now: int, later: int)

  predicate Enabled(s: System, a: Action) {
    match a
    case Submit(p, id, data, now) => p < |s.peers| && s.clock <= now
    case Deliver(p, m) => p < |s.peers| && m in s.net
    case Fire(p, now, later) => p < |s.peers| && s.clock <= now <= later && s.peers[p].h.armed
  }

  // The entries an insertion pushes out.
  function Evictions(es: seq<Entry>, max: nat): seq<Event> {
    if |es| <= max then [] else [Retired(es[0].ackID, Evicted)] + Evictions(es[1..], max)
  }

  function SubmitLog(q: Peer, id: nat): seq<Event> {
    if Has(q.h.pending, id) then q.log
    else q.log + Evictions(q.h.pending, CPR_LRU_SIZE) + [Stored(id), Sent(id)]
  }

  function PeerDelivers(q: Peer, m: Msg): Peer {
    match m
    case Req(id, data) =>
      if id in q.h.ring then q else q.(h := RequestReceived(q.h, id), up := q.up + [id], got := q.got + [data])
    case Ack(id) =>
      q.(h := AckReceived(q.h, id), log := if Has(q.h.pending, id) then q.log + [Retired(id, Acknowledged)] else q.log)
  }

  function PeerFires(q: Peer, now: int, later: int): Peer {
    var h' := TimerFired(q.h, now, later);
    match TimerOutcome(q.h, now)
    case Failure(id) => q.(h := h', log := q.log + [Retired(id, GaveUp)])
    case Retransmit(id, data) => q.(h := h', log := q.log + [Sent(id)])
    case _ => q.(h := h')
  }

  function FireSends(q: Peer, now: int): set<Msg> {
    match TimerOutcome(q.h, now)
    case Retransmit(id, data) => {Req(id, data)}
    case _ => {}
  }

  function Step(s: System, a: Action): System {
    if !Enabled(s, a) then s else
      match a
      case Submit(p, id, data, now) =>
        var q := s.peers[p];
        System(s.peers[p := q.(h := Submitted(q.h, id, data, now), log := SubmitLog(q, id))], s.net + {Req(id, data)}, now)
      case Deliver(p, m) =>
        System(s.peers[p := PeerDelivers(s.peers[p], m)], s.net + (if m.Req? then {Ack(m.id)} else {}), s.clock)
      case Fire(p, now, later) =>
        System(s.peers[p := PeerFires(s.peers[p], now, later)], s.net + FireSends(s.peers[p], now), later)
  }

  function Run(s: System, actions: seq<Action>): System {
    if actions == [] then s else Step(Run(s, actions[..|actions| - 1]), actions[|actions| - 1])
  }

  // Nothing stored, nothing sent; the rings hold whatever memory held.
  ghost predicate Initial(s: System) {
    && s.net == {}
    && forall p :: 0 <= p < |s.peers| ==>
         var q := s.peers[p];
         q.up == [] && q.got == [] && q.log == [] && q.h.pending == [] && |q.h.ring| == CPR_STATE_SIZE && q.h.slot == 0
  }

  // ------------------------------------------------------------------
  // Accounting

  datatype Life = Absent | Live(sent: nat)

  // Whether a request is stored after a log, and how often it was transmitted since.
  function Status(log: seq<Event>, id: nat): Life {
    if log == [] then Absent else
      var rest, e := Status(log[..|log| - 1], id), log[|log| - 1];
      if e.id != id then rest else Advance(rest, e)
  }

  ghost predicate LegalNext(before: seq<Event>, e: Event) {
    match e
    case Stored(id) => Status(before, id) == Absent
    case Sent(id) => Status(before, id).Live? && Status(before, id).sent <= CPR_MAX_RETRANSMISSIONS
    case Retired(id, _) => Status(before, id).Live?
  }

  /** Requests are stored only when absent, transmitted at most 1 + CPR_MAX_RETRANSMISSIONS times
      while stored, and leave exactly once per storing, for exactly one reason. */
  ghost predicate Legal(log: seq<Event>) {
    log == [] || (Legal(log[..|log| - 1]) && LegalNext(log[..|log| - 1], log[|log| - 1]))
  }

  function Expected(es: seq<Entry>, id: nat): Life {
    if Has(es, id) then Live(es[Find(es, id)].retransmissions + 1) else Absent
  }

  ghost predicate Accounted(es: seq<Entry>, log: seq<Event>) {
    Legal(log) && forall id :: Status(log, id) == Expected(es, id)
  }

  function Advance(life: Life, e: Event): Life {
    match e
    case Stored(_) => Live(0)
    case Sent(_) => if life.Live? then Live(life.sent + 1) else life
    case Retired(_, _) => Absent
  }

  lemma StatusAfter(log: seq<Event>, e: Event, id: nat)
    ensures Status(log + [e], id) == if e.id != id then Status(log, id) else Advance(Status(log, id), e)
  {
    assert (log + [e])[..|log|] == log;
  }

  lemma LegalAfter(log: seq<Event>, e: Event)
    requires Legal(log) && LegalNext(log, e)
    ensures Legal(log + [e])
  {
    assert (log + [e])[..|log|] == log;
  }

  lemma CutAt(es: seq<Entry>, k: nat, i: nat)
    requires k < |es| && i < |es| - 1
    ensures |Cut(es, k)| == |es| - 1 && Cut(es, k)[i] == es[if i < k then i else i + 1]
  {}

  lemma CutDistinct(es: seq<Entry>, k: nat)
    requires Distinct(es) && k < |es|
    ensures Distinct(Cut(es, k))
  {}

  lemma ExpectedCut(es: seq<Entry>, k: nat, id: nat)
    requires Distinct(es) && k < |es|
    ensures Expected(Cut(es, k), id) == if id == es[k].ackID then Absent else Expected(es, id)
  {
    hide Cut, Find;
    var rest := Cut(es, k);
    CutDistinct(es, k);
    if Has(rest, id) {
      var i := Find(rest, id);
      assert |rest| == |es| - 1 by { CutLength(es, k); }
      CutAt(es, k, i);
      FindUnique(es, id, if i < k then i else i + 1);
    } else if Has(es, id) && id != es[k].ackID {
      var j := Find(es, id);
      var j' := if j < k then j else j - 1;
      CutAt(es, k, j');
    }
  }

  lemma CutLength(es: seq<Entry>, k: nat)
    requires k < |es|
    ensures |Cut(es, k)| == |es| - 1
  {}

  lemma ExpectedAppend(es: seq<Entry>, e: Entry, id: nat)
    requires Distinct(es) && !Has(es, e.ackID)
    ensures Expected(es + [e], id) == if id == e.ackID then Live(e.retransmissions + 1) else Expected(es, id)
  {
    var es' := es + [e];
    if id == e.ackID {
      assert es'[|es|].ackID == id;
      FindUnique(es', id, |es|);
    } else if Has(es, id) {
      var j := Find(es, id);
      assert es'[j] == es[j];
      FindUnique(es', id, j);
    }
  }

  // Dropping one entry goes with retiring its id.
  lemma CutAccounted(es: seq<Entry>, log: seq<Event>, k: nat, why: Reason)
    requires Distinct(es) && k < |es| && Accounted(es, log)
    ensures Accounted(Cut(es, k), log + [Retired(es[k].ackID, why)])
  {
    var e := Retired(es[k].ackID, why);
    FindUnique(es, es[k].ackID, k);
    assert Status(log, es[k].ackID) == Expected(es, es[k].ackID);
    LegalAfter(log, e);
    forall id
      ensures Status(log + [e], id) == Expected(Cut(es, k), id)
    {
      StatusAfter(log, e, id);
      ExpectedCut(es, k, id);
    }
  }

  lemma StoreAccounted(es: seq<Entry>, log: seq<Event>, e: Entry)
    requires Distinct(es) && !Has(es, e.ackID) && e.retransmissions == 0 && Accounted(es, log)
    ensures Accounted(es + [e], log + [Stored(e.ackID), Sent(e.ackID)])
  {
    var mid, last := log + [Stored(e.ackID)], log + [Stored(e.ackID), Sent(e.ackID)];
    assert last == mid + [Sent(e.ackID)];
    LegalAfter(log, Stored(e.ackID));
    StatusAfter(log, Stored(e.ackID), e.ackID);
    LegalAfter(mid, Sent(e.ackID));
    forall id
      ensures Status(last, id) == Expected(es + [e], id)
    {
      StatusAfter(log, Stored(e.ackID), id);
      StatusAfter(mid, Sent(e.ackID), id);
      ExpectedAppend(es, e, id);
    }
  }

  lemma {:induction false} TrimAccounted(es: seq<Entry>, log: seq<Event>, max: nat)
    requires Distinct(es) && Accounted(es, log)
    ensures Accounted(Trimmed(es, max), log + Evictions(es, max))
    decreases |es|
  {
    hide Accounted;
    if |es| <= max {
      assert log + [] == log;
    } else {
      assert Distinct(es[1..]);
      hide Distinct;
      var e := Retired(es[0].ackID, Evicted);
      CutAccounted(es, log, 0, Evicted);
      assert Cut(es, 0) == es[1..];
      TrimAccounted(es[1..], log + [e], max);
      assert log + [e] + Evictions(es[1..], max) == log + ([e] + Evictions(es[1..], max));
    }
  }

  // Restarting a clock, with or without counting a transmission.
  lemma MoveAccounted(es: seq<Entry>, log: seq<Event>, k: nat, e: Entry)
    requires Distinct(es) && k < |es| && e.ackID == es[k].ackID && Accounted(es, log)
    ensures e.retransmissions == es[k].retransmissions ==> Accounted(Cut(es, k) + [e], log)
    ensures e.retransmissions == es[k].retransmissions + 1 <= CPR_MAX_RETRANSMISSIONS ==>
              Accounted(Cut(es, k) + [e], log + [Sent(e.ackID)])
  {
    FindUnique(es, es[k].ackID, k);
    var rest := Cut(es, k);
    assert Distinct(rest) && !Has(rest, e.ackID) by {
      assert forall i :: 0 <= i < |rest| ==> rest[i] == es[if i < k then i else i + 1];
    }
    forall id
      ensures Expected(rest + [e], id) == if id == e.ackID then Live(e.retransmissions + 1) else Expected(es, id)
    {
      ExpectedCut(es, k, id);
      ExpectedAppend(rest, e, id);
    }
    assert Status(log, e.ackID) == Live(es[k].retransmissions + 1);
    if e.retransmissions == es[k].retransmissions + 1 <= CPR_MAX_RETRANSMISSIONS {
      LegalAfter(log, Sent(e.ackID));
      forall id
        ensures Status(log + [Sent(e.ackID)], id) == Expected(rest + [e], id)
      {
        StatusAfter(log, Sent(e.ackID), id);
      }
    }
  }

  // ------------------------------------------------------------------
  // The invariant

  ghost predicate PeerOk(q: Peer, clock: int) {
    && HostOk(q.h, clock) && |q.h.ring| == CPR_STATE_SIZE
    && RingOk(q.h, q.up) && Spaced(q.up, CPR_STATE_SIZE)
    && Accounted(q.h.pending, q.log)
  }

  lemma SubmitPeerOk(q: Peer, id: nat, data: Packet, now: int, clock: int)
    requires PeerOk(q, clock) && clock <= now
    ensures PeerOk(q.(h := Submitted(q.h, id, data, now), log := SubmitLog(q, id)), now)
  {
    SubmitKeepsOk(q.h, id, data, now, clock);
    var es := q.h.pending;
    if Has(es, id) {
      var k := Find(es, id);
      MoveAccounted(es, q.log, k, es[k].(sentAt := now));
    } else {
      TrimKeepsOk(q.h, clock);
      TrimAccounted(es, q.log, CPR_LRU_SIZE);
      var mid := q.log + Evictions(es, CPR_LRU_SIZE);
      StoreAccounted(Trimmed(es, CPR_LRU_SIZE), mid, Entry(id, data, now, 0));
      assert SubmitLog(q, id) == mid + [Stored(id), Sent(id)];
    }
  }

  lemma DeliverPeerOk(q: Peer, m: Msg, clock: int)
    requires PeerOk(q, clock)
    ensures PeerOk(PeerDelivers(q, m), clock)
  {
    match m
    case Req(id, data) =>
      if id !in q.h.ring {
        PassUpKeepsRing(q.h, q.up, id);
        PassUpKeepsSpaced(q.h, q.up, id);
      }
    case Ack(id) =>
      AckKeepsOk(q.h, id, clock);
      if Has(q.h.pending, id) {
        CutAccounted(q.h.pending, q.log, Find(q.h.pending, id), Acknowledged);
      }
  }

  lemma FirePeerOk(q: Peer, now: int, later: int, clock: int)
    requires PeerOk(q, clock) && clock <= now <= later
    ensures PeerOk(PeerFires(q, now, later), later)
  {
    hide Accounted, Distinct, HostOk, Spaced, RingOk, TimerFired, TimerOutcome;
    TimerKeepsOk(q.h, now, later, clock);
    PendingDistinct(q.h, clock);
    FiresKeepsRing(q, now, later);
    match TimerOutcome(q.h, now)
    case Failure(id) => GiveUpAccounted(q, now, later);
    case Retransmit(id, data) => RetransmitAccounted(q, now, later);
    case _ => NoTimeout(q.h, now, later);
  }

  lemma PendingDistinct(h: Host, clock: int)
    requires HostOk(h, clock)
    ensures Distinct(h.pending)
  {}

  lemma FiresKeepsRing(q: Peer, now: int, later: int)
    ensures var q' := PeerFires(q, now, later);
      && q'.h == TimerFired(q.h, now, later) && q'.up == q.up && q'.h.ring == q.h.ring
      && (RingOk(q.h, q.up) ==> RingOk(q'.h, q'.up))
  {}

  lemma NoTimeout(h: Host, now: int, later: int)
    requires TimerOutcome(h, now).Idle? || TimerOutcome(h, now).TooEarly?
    ensures TimerFired(h, now, later).pending == h.pending
  {}

  lemma GiveUpAccounted(q: Peer, now: int, later: int)
    requires Distinct(q.h.pending) && Accounted(q.h.pending, q.log) && TimerOutcome(q.h, now).Failure?
    ensures var q' := PeerFires(q, now, later); Accounted(q'.h.pending, q'.log)
  {
    hide Accounted, Distinct;
    assert Cut(q.h.pending, 0) == q.h.pending[1..];
    CutAccounted(q.h.pending, q.log, 0, GaveUp);
  }

  lemma RetransmitAccounted(q: Peer, now: int, later: int)
    requires Distinct(q.h.pending) && Accounted(q.h.pending, q.log) && TimerOutcome(q.h, now).Retransmit?
    ensures var q' := PeerFires(q, now, later); Accounted(q'.h.pending, q'.log)
  {
    hide Accounted, Distinct;
    var e := q.h.pending[0];
    assert Cut(q.h.pending, 0) == q.h.pending[1..];
    MoveAccounted(q.h.pending, q.log, 0, e.(sentAt := later, retransmissions := e.retransmissions + 1));
  }

  lemma LaterOk(q: Peer, clock: int, later: int)
    requires PeerOk(q, clock) && clock <= later
    ensures PeerOk(q, later)
  {}

  // Some host has passed this id up.
  ghost predicate PassedUp(s: System, id: nat) {
    exists p :: 0 <= p < |s.peers| && id in s.peers[p].up
  }

  // Ids that were in some ring before anything ran.
  ghost predicate Stale(first: System, id: nat) {
    exists p :: 0 <= p < |first.peers| && id in first.peers[p].h.ring
  }

  ghost predicate RingsExplained(first: System, s: System) {
    forall p, id :: 0 <= p < |s.peers| && id in s.peers[p].h.ring ==> Stale(first, id) || PassedUp(s, id)
  }

  ghost predicate AcksExplained(first: System, s: System) {
    forall id :: Ack(id) in s.net ==> Stale(first, id) || PassedUp(s, id)
  }

  ghost predicate LogsExplained(first: System, s: System) {
    forall p, id :: 0 <= p < |s.peers| && Retired(id, Acknowledged) in s.peers[p].log ==> Stale(first, id) || PassedUp(s, id)
  }

  ghost predicate PeersOk(s: System) {
    forall p :: 0 <= p < |s.peers| ==> PeerOk(s.peers[p], s.clock)
  }

  lemma StepPeersOk(s: System, a: Action)
    requires PeersOk(s)
    ensures PeersOk(Step(s, a))
  {
    if Enabled(s, a) {
      var s' := Step(s, a);
      hide PeerOk;
      forall p | 0 <= p < |s'.peers|
        ensures PeerOk(s'.peers[p], s'.clock)
      {
        var q := s.peers[p];
        assert PeerOk(q, s.clock);
        LaterOk(q, s.clock, s'.clock);
        match a
        case Submit(r, id, data, now) => SubmitPeerOk(q, id, data, now, s.clock);
        case Deliver(r, m) => DeliverPeerOk(q, m, s.clock);
        case Fire(r, now, later) => FirePeerOk(q, now, later, s.clock);
      }
    }
  }

  // ------------------------------------------------------------------
  // Explanations

  ghost predicate Explained(first: System, s: System) {
    RingsExplained(first, s) && AcksExplained(first, s) && LogsExplained(first, s)
  }

  // Whatever was passed up stays passed up.
  lemma PassedUpGrows(s: System, a: Action, id: nat)
    requires PassedUp(s, id)
    ensures PassedUp(Step(s, a), id)
  {
    var p :| 0 <= p < |s.peers| && id in s.peers[p].up;
    var s' := Step(s, a);
    assert forall x :: x in s.peers[p].up ==> x in s'.peers[p].up;
  }

  lemma UpdatedMember(ring: seq<nat>, slot: nat, x: nat, id: nat)
    requires slot < |ring| && id in ring[slot := x]
    ensures id == x || id in ring
  {}

  lemma NewRingEntry(s: System, a: Action, p: nat, id: nat)
    requires p < |s.peers| && id in Step(s, a).peers[p].h.ring
    ensures id in s.peers[p].h.ring || PassedUp(Step(s, a), id)
  {
    if Enabled(s, a) && a.Deliver? && a.p == p && a.m.Req? && a.m.id !in s.peers[p].h.ring {
      var q, q' := s.peers[p], Step(s, a).peers[p];
      assert q'.up[|q.up|] == a.m.id;
      if q.h.slot < |q.h.ring| { UpdatedMember(q.h.ring, q.h.slot, a.m.id, id); }
    }
  }

  lemma StepRingsExplained(first: System, s: System, a: Action)
    requires RingsExplained(first, s)
    ensures RingsExplained(first, Step(s, a))
  {
    var s' := Step(s, a);
    forall p, id | 0 <= p < |s'.peers| && id in s'.peers[p].h.ring
      ensures Stale(first, id) || PassedUp(s', id)
    {
      NewRingEntry(s, a, p, id);
      if id in s.peers[p].h.ring && !Stale(first, id) { PassedUpGrows(s, a, id); }
    }
  }

  // An acknowledgement answers a request that the receiver passes up now or has in its ring.
  lemma StepAcksExplained(first: System, s: System, a: Action)
    requires RingsExplained(first, s) && AcksExplained(first, s)
    ensures AcksExplained(first, Step(s, a))
  {
    var s' := Step(s, a);
    forall id | Ack(id) in s'.net
      ensures Stale(first, id) || PassedUp(s', id)
    {
      if Ack(id) in s.net {
        if !Stale(first, id) { PassedUpGrows(s, a, id); }
      } else {
        assert a.Deliver? && a.m.Req? && a.m.id == id;
        var q, q' := s.peers[a.p], s'.peers[a.p];
        if id in q.h.ring {
          if !Stale(first, id) { PassedUpGrows(s, a, id); }
        } else {
          assert q'.up[|q.up|] == id;
        }
      }
    }
  }

  lemma {:induction false} EvictionsOnly(es: seq<Entry>, max: nat, id: nat)
    ensures Retired(id, Acknowledged) !in Evictions(es, max)
    decreases |es|
  {
    if |es| > max { EvictionsOnly(es[1..], max, id); }
  }

  lemma NewLogEntry(s: System, a: Action, p: nat, id: nat)
    requires p < |s.peers| && Retired(id, Acknowledged) in Step(s, a).peers[p].log
    ensures Retired(id, Acknowledged) in s.peers[p].log || Ack(id) in s.net
  {
    if Enabled(s, a) && a.Submit? && a.p == p {
      EvictionsOnly(s.peers[p].h.pending, CPR_LRU_SIZE, id);
    }
  }

  lemma StepLogsExplained(first: System, s: System, a: Action)
    requires AcksExplained(first, s) && LogsExplained(first, s)
    ensures LogsExplained(first, Step(s, a))
  {
    var s' := Step(s, a);
    forall p, id | 0 <= p < |s'.peers| && Retired(id, Acknowledged) in s'.peers[p].log
      ensures Stale(first, id) || PassedUp(s', id)
    {
      NewLogEntry(s, a, p, id);
      if !Stale(first, id) { PassedUpGrows(s, a, id); }
    }
  }

  lemma {:induction false} RunKeeps(first: System, actions: seq<Action>)
    requires Initial(first)
    ensures PeersOk(Run(first, actions)) && Explained(first, Run(first, actions))
    ensures |Run(first, actions).peers| == |first.peers|
  {
    if actions == [] {
      forall p | 0 <= p < |first.peers|
        ensures PeerOk(first.peers[p], first.clock)
      {}
    } else {
      var n := |actions| - 1;
      RunKeeps(first, actions[..n]);
      var s := Run(first, actions[..n]);
      StepPeersOk(s, actions[n]);
      StepRingsExplained(first, s, actions[n]);
      StepAcksExplained(first, s, actions[n]);
      StepLogsExplained(first, s, actions[n]);
    }
  }

  /** In every run, a request is retired by an acknowledgement only if some host passed a request
      with its id up, unless that id sat in an uninitialised ring from the start. */
  lemma AcknowledgedMeansDelivered(first: System, actions: seq<Action>, p: nat, id: nat)
    requires Initial(first) && p < |first.peers| && !Stale(first, id)
    requires |Run(first, actions).peers| == |first.peers|
    requires Retired(id, Acknowledged) in Run(first, actions).peers[p].log
    ensures PassedUp(Run(first, actions), id)
  {
    RunKeeps(first, actions);
  }

  /** In every run, a host passes the same id up twice only with at least CPR_STATE_SIZE other
      deliveries in between. */
  lemma DuplicatesAreFarApart(first: System, actions: seq<Action>, p: nat, i: nat, j: nat)
    requires Initial(first) && p < |first.peers| && |Run(first, actions).peers| == |first.peers|
    requires i < j < |Run(first, actions).peers[p].up|
    requires Run(first, actions).peers[p].up[i] == Run(first, actions).peers[p].up[j]
    ensures j - i - 1 >= CPR_STATE_SIZE
  {
    RunKeeps(first, actions);
    assert PeerOk(Run(first, actions).peers[p], Run(first, actions).clock);
  }

  /** In every run, every host's table is bounded, in time order and accounted for, and its timer
      is scheduled whenever a request is stored. */
  lemma TablesStayOk(first: System, actions: seq<Action>, p: nat)
    requires Initial(first) && p < |first.peers|
    ensures |Run(first, actions).peers| == |first.peers|
    ensures var q := Run(first, actions).peers[p];
      HostOk(q.h, Run(first, actions).clock) && Legal(q.log) && forall id :: Status(q.log, id) == Expected(q.h.pending, id)
  {
    RunKeeps(first, actions);
    assert PeerOk(Run(first, actions).peers[p], Run(first, actions).clock);
  }

  /** The ring must start clean: for any id left in some ring there is a run in which a request
      is acknowledged although no host ever passed its id up. */
  lemma StaleIdIsLost(first: System, id: nat) returns (actions: seq<Action>, p: nat)
    requires Initial(first) && Stale(first, id)
    ensures p < |first.peers| == |Run(first, actions).peers|
    ensures Retired(id, Acknowledged) in Run(first, actions).peers[p].log && !PassedUp(Run(first, actions), id)
  {
    p :| 0 <= p < |first.peers| && id in first.peers[p].h.ring;
    var a0, a1, a2 := Submit(p, id, [], first.clock), Deliver(p, Req(id, [])), Deliver(p, Ack(id));
    actions := [a0] + [a1] + [a2];
    var s1 := Step(first, a0);
    var s2 := Step(s1, a1);
    var s3 := Step(s2, a2);
    assert [] + [a0] == [a0];
    RunAppend(first, [], a0);
    RunAppend(first, [a0], a1);
    RunAppend(first, [a0] + [a1], a2);
    hide Run;
    var e := Entry(id, [], first.clock, 0);
    assert s1.peers[p].h.pending == [e];
    assert s1.peers[p].h.ring == first.peers[p].h.ring && s1.peers[p].up == [];
    assert s2.peers[p] == s1.peers[p] && Ack(id) in s2.net;
    assert [e][0].ackID == id;
    assert s3.peers[p].log == s2.peers[p].log + [Retired(id, Acknowledged)];
    assert forall q :: 0 <= q < |s3.peers| ==> s3.peers[q].up == [];
  }

  lemma RunAppend(s: System, actions: seq<Action>, a: Action)
    ensures Run(s, actions + [a]) == Step(Run(s, actions), a)
  {
    assert (actions + [a])[..|actions|] == actions;
  }

  // ------------------------------------------------------------------
  // Where the data comes from

  // Action k of the run submits this request.
  ghost predicate SubmittedAt(first: System, actions: seq<Action>, id: nat, data: Packet, k: int) {
    && 0 <= k < |actions| && actions[k].Submit? && actions[k].id == id && actions[k].data == data
    && Enabled(Run(first, actions[..k]), actions[k])
  }

  ghost predicate WasSubmitted(first: System, actions: seq<Action>, id: nat, data: Packet) {
    exists k :: SubmittedAt(first, actions, id, data, k)
  }

  ghost predicate Pending(s: System, p: nat, id: nat) {
    p < |s.peers| && Has(s.peers[p].h.pending, id)
  }

  // It does so at host p, where the id is not pending before and has been ever since.
  ghost predicate StoredAt(first: System, actions: seq<Action>, p: nat, id: nat, data: Packet, k: int) {
    && SubmittedAt(first, actions, id, data, k) && actions[k].p == p && !Pending(Run(first, actions[..k]), p, id)
    && forall j :: k < j <= |actions| ==> Pending(Run(first, actions[..j]), p, id)
  }

  ghost predicate WasStored(first: System, actions: seq<Action>, p: nat, id: nat, data: Packet) {
    exists k :: StoredAt(first, actions, p, id, data, k)
  }

  // An entry with this id and data.
  ghost predicate Holds(es: seq<Entry>, id: nat, data: Packet) {
    exists i :: 0 <= i < |es| && es[i].ackID == id && es[i].data == data
  }

  lemma {:induction false} TrimmedHolds(es: seq<Entry>, max: nat, id: nat, data: Packet)
    requires Holds(Trimmed(es, max), id, data)
    ensures Holds(es, id, data)
    decreases |es|
  {
    if |es| > max {
      TrimmedHolds(es[1..], max, id, data);
      var i :| 0 <= i < |es[1..]| && es[1..][i].ackID == id && es[1..][i].data == data;
      assert es[i + 1].ackID == id && es[i + 1].data == data;
    }
  }

  lemma RemovedHolds(es: seq<Entry>, gone: nat, id: nat, data: Packet)
    requires Holds(Removed(es, gone), id, data)
    ensures Holds(es, id, data)
  {
    if Has(es, gone) {
      var k := Find(es, gone);
      var i :| 0 <= i < |Cut(es, k)| && Cut(es, k)[i].ackID == id && Cut(es, k)[i].data == data;
      assert Cut(es, k)[i] == es[if i < k then i else i + 1];
    }
  }

  lemma InsertedHolds(es: seq<Entry>, new_: nat, packet: Packet, now: int, id: nat, data: Packet)
    requires Holds(Inserted(es, new_, packet, now, CPR_LRU_SIZE), id, data)
    ensures Holds(es, id, data) || (id == new_ && data == packet && !Has(es, id))
  {
    var r := Inserted(es, new_, packet, now, CPR_LRU_SIZE);
    var i :| 0 <= i < |r| && r[i].ackID == id && r[i].data == data;
    if Has(es, new_) {
      if i < |r| - 1 {
        assert r[i] == Removed(es, new_)[i];
        RemovedHolds(es, new_, id, data);
      }
    } else if i < |r| - 1 {
      assert r[i] == Trimmed(es, CPR_LRU_SIZE)[i];
      TrimmedHolds(es, CPR_LRU_SIZE, id, data);
    }
  }

  lemma FiredHolds(h: Host, now: int, later: int, id: nat, data: Packet)
    requires Holds(TimerFired(h, now, later).pending, id, data)
    ensures Holds(h.pending, id, data)
  {
    var es, r := h.pending, TimerFired(h, now, later).pending;
    var i :| 0 <= i < |r| && r[i].ackID == id && r[i].data == data;
    match TimerOutcome(h, now)
    case Failure(_) => assert r[i] == es[i + 1];
    case Retransmit(_, _) =>
      if i < |es| - 1 { assert r[i] == es[i + 1]; } else { assert r[i].ackID == es[0].ackID && r[i].data == es[0].data; }
    case _ =>
  }

  // A pending request was pending before with the same data, or is stored by this action.
  lemma EntryFrom(s: System, a: Action, p: nat, id: nat, data: Packet)
    requires p < |s.peers| && Holds(Step(s, a).peers[p].h.pending, id, data)
    ensures Holds(s.peers[p].h.pending, id, data) ||
      (a.Submit? && Enabled(s, a) && a.p == p && a.id == id && a.data == data && !Has(s.peers[p].h.pending, id))
  {
    hide Inserted, Removed, TimerFired, TimerOutcome, Holds;
    if Enabled(s, a) && a.p == p {
      match a
      case Submit(_, new_, packet, now) => InsertedHolds(s.peers[p].h.pending, new_, packet, now, id, data);
      case Deliver(_, m) => if m.Ack? { RemovedHolds(s.peers[p].h.pending, m.id, id, data); }
      case Fire(_, now, later) => FiredHolds(s.peers[p].h, now, later, id, data);
    }
  }

  lemma HoldsHas(es: seq<Entry>, id: nat, data: Packet)
    requires Holds(es, id, data)
    ensures Has(es, id)
  {}

  /** Every pending request holds the data of the submission at that host that stored it. */
  lemma {:induction false} PendingWasStored(first: System, actions: seq<Action>, p: nat, id: nat, data: Packet)
    requires Initial(first) && p < |first.peers| == |Run(first, actions).peers|
    requires Holds(Run(first, actions).peers[p].h.pending, id, data)
    ensures WasStored(first, actions, p, id, data)
  {
    hide Step, Holds, Enabled;
    if actions == [] {
      NothingHeld(first, p, id, data);
    } else {
      var n := |actions| - 1;
      var h := actions[..n];
      RunKeeps(first, h);
      EntryFrom(Run(first, h), actions[n], p, id, data);
      HoldsHas(Run(first, actions).peers[p].h.pending, id, data);
      assert actions[..|actions|] == actions;
      if Holds(Run(first, h).peers[p].h.pending, id, data) {
        PendingWasStored(first, h, p, id, data);
        var k :| StoredAt(first, h, p, id, data, k);
        StillStored(first, actions, p, id, data, k);
      } else {
        assert StoredAt(first, actions, p, id, data, n);
      }
    }
  }

  lemma NothingHeld(first: System, p: nat, id: nat, data: Packet)
    requires Initial(first) && p < |first.peers|
    ensures !Holds(first.peers[p].h.pending, id, data)
  {}

  lemma StillStored(first: System, actions: seq<Action>, p: nat, id: nat, data: Packet, k: int)
    requires actions != [] && StoredAt(first, actions[..|actions| - 1], p, id, data, k) && Pending(Run(first, actions), p, id)
    ensures StoredAt(first, actions, p, id, data, k)
  {
    hide Run, Pending, Enabled;
    var n := |actions| - 1;
    var h := actions[..n];
    assert h[..k] == actions[..k] && h[k] == actions[k];
    forall j | k < j <= |actions|
      ensures Pending(Run(first, actions[..j]), p, id)
    {
      if j <= n { assert h[..j] == actions[..j]; } else { assert actions[..j] == actions; }
    }
  }

  lemma StoredSubmitted(first: System, actions: seq<Action>, p: nat, id: nat, data: Packet)
    requires WasStored(first, actions, p, id, data)
    ensures WasSubmitted(first, actions, id, data)
  {
    var k :| StoredAt(first, actions, p, id, data, k);
    assert SubmittedAt(first, actions, id, data, k);
  }

  lemma SubmittedBefore(first: System, actions: seq<Action>, id: nat, data: Packet)
    requires actions != [] && WasSubmitted(first, actions[..|actions| - 1], id, data)
    ensures WasSubmitted(first, actions, id, data)
  {
    hide Run, Enabled;
    var h := actions[..|actions| - 1];
    var k :| SubmittedAt(first, h, id, data, k);
    assert h[..k] == actions[..k] && h[k] == actions[k];
    assert SubmittedAt(first, actions, id, data, k);
  }

  // A request that this action puts into the network is submitted by it or pending.
  lemma RequestFrom(s: System, a: Action, id: nat, data: Packet)
    requires Req(id, data) in Step(s, a).net && Req(id, data) !in s.net
    ensures Enabled(s, a)
    ensures (a.Submit? && a.id == id && a.data == data) || (a.p < |s.peers| && Holds(s.peers[a.p].h.pending, id, data))
  {
    if a.Fire? {
      var es := s.peers[a.p].h.pending;
      assert es[0].ackID == id && es[0].data == data;
    }
  }

  /** Whatever request is in the network, in the first transmission or any later one, carries data that
      was submitted under its id. */
  lemma {:induction false} RequestsWereSubmitted(first: System, actions: seq<Action>, id: nat, data: Packet)
    requires Initial(first) && Req(id, data) in Run(first, actions).net
    ensures WasSubmitted(first, actions, id, data)
  {
    hide Step, Holds, Enabled, WasStored;
    if actions != [] {
      var n := |actions| - 1;
      var h := actions[..n];
      var s := Run(first, h);
      if Req(id, data) in s.net {
        RequestsWereSubmitted(first, h, id, data);
        SubmittedBefore(first, actions, id, data);
      } else {
        RequestFrom(s, actions[n], id, data);
        if actions[n].Submit? && actions[n].id == id && actions[n].data == data {
          assert SubmittedAt(first, actions, id, data, n);
        } else {
          RunKeeps(first, h);
          PendingWasStored(first, h, actions[n].p, id, data);
          StoredSubmitted(first, h, actions[n].p, id, data);
          SubmittedBefore(first, actions, id, data);
        }
      }
    }
  }

  // What is passed up last was in the network.
  lemma PassesUp(s: System, a: Action, p: nat)
    requires p < |s.peers| == |Step(s, a).peers|
    ensures var q, q' := s.peers[p], Step(s, a).peers[p];
      || (q'.up == q.up && q'.got == q.got)
      || (a.Deliver? && a.m.Req? && a.m in s.net && q'.up == q.up + [a.m.id] && q'.got == q.got + [a.m.data])
  {}

  /** A host passes up only packets that were submitted under the id they arrive with. */
  lemma {:induction false} PassedUpWasSubmitted(first: System, actions: seq<Action>, p: nat, i: nat)
    requires Initial(first) && p < |first.peers| == |Run(first, actions).peers|
    ensures var q := Run(first, actions).peers[p];
      |q.up| == |q.got| && (i < |q.up| ==> WasSubmitted(first, actions, q.up[i], q.got[i]))
  {
    hide Step, Enabled, WasSubmitted;
    if actions != [] {
      var n := |actions| - 1;
      var h := actions[..n];
      RunKeeps(first, h);
      PassedUpWasSubmitted(first, h, p, i);
      var s, q := Run(first, h), Run(first, h).peers[p];
      PassesUp(s, actions[n], p);
      if i < |q.up| {
        SubmittedBefore(first, actions, q.up[i], q.got[i]);
      } else if i < |Run(first, actions).peers[p].up| {
        RequestsWereSubmitted(first, h, actions[n].m.id, actions[n].m.data);
        SubmittedBefore(first, actions, actions[n].m.id, actions[n].m.data);
      }
    }
  }

  // ------------------------------------------------------------------
  // Acknowledgements

  lemma {:induction false} NetGrows(first: System, actions: seq<Action>, k: nat)
    requires k <= |actions|
    ensures Run(first, actions[..k]).net <= Run(first, actions).net
    decreases |actions|
  {
    if k == |actions| {
      assert actions[..k] == actions;
    } else {
      var h := actions[..|actions| - 1];
      assert h[..k] == actions[..k];
      NetGrows(first, h, k);
    }
  }

  /** Every request that arrives is acknowledged, whether it is passed up or known. */
  lemma DeliveredIsAcknowledged(first: System, actions: seq<Action>, k: nat)
    requires k < |actions| && actions[k].Deliver? && actions[k].m.Req? && Enabled(Run(first, actions[..k]), actions[k])
    ensures Ack(actions[k].m.id) in Run(first, actions).net
  {
    assert actions[..k + 1][..k] == actions[..k];
    assert Ack(actions[k].m.id) in Run(first, actions[..k + 1]).net;
    NetGrows(first, actions, k + 1);
  }

  /** And a request is acknowledged only after it arrived somewhere. */
  lemma {:induction false} AcknowledgedArrived(first: System, actions: seq<Action>, id: nat)
    requires Initial(first) && Ack(id) in Run(first, actions).net
    ensures exists k :: 0 <= k < |actions| && actions[k].Deliver? && actions[k].m.Req? && actions[k].m.id == id
  {
    if actions != [] {
      var n := |actions| - 1;
      var h := actions[..n];
      if Ack(id) in Run(first, h).net {
        AcknowledgedArrived(first, h, id);
        var k :| 0 <= k < |h| && h[k].Deliver? && h[k].m.Req? && h[k].m.id == id;
        assert actions[k] == h[k];
      } else {
        assert actions[n].Deliver? && actions[n].m.Req? && actions[n].m.id == id;
      }
    }
  }

  /** An action concerns one host, never takes anything out of the network, and adds at most one
      message: the submitted or retransmitted request, or the acknowledgement of what arrived. */
  lemma StepFrame(s: System, a: Action)
    ensures var s' := Step(s, a);
      && |s'.peers| == |s.peers| && (forall p :: 0 <= p < |s.peers| && p != a.p ==> s'.peers[p] == s.peers[p])
      && s.net <= s'.net && s.clock <= s'.clock
      && (Enabled(s, a) && a.Submit? ==> s'.net == s.net + {Req(a.id, a.data)})
      && (Enabled(s, a) && a.Deliver? ==> s'.net == if a.m.Req? then s.net + {Ack(a.m.id)} else s.net)
      && (Enabled(s, a) && a.Fire? && s'.net != s.net ==>
            s.peers[a.p].h.pending != [] && s'.net == s.net + {Req(s.peers[a.p].h.pending[0].ackID, s.peers[a.p].h.pending[0].data)})
  {}

  /** The acknowledgement of a request settles it at the host it comes to. */
  lemma AckSettles(first: System, actions: seq<Action>, p: nat, id: nat)
    requires Initial(first) && Enabled(Run(first, actions), Deliver(p, Ack(id)))
    ensures !Pending(Step(Run(first, actions), Deliver(p, Ack(id))), p, id)
  {
    RunKeeps(first, actions);
    var s := Run(first, actions);
    assert PeerOk(s.peers[p], s.clock);
    AckExact(s.peers[p].h, id, s.clock);
  }
}
