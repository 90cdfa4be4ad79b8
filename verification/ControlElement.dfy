/** The Click element itself (`ControlReliability` in src/controlreliability.cc): its header
    format and its three entry points, each shown to be the step of the protocol it stands for. */
module ControlElement {
  import opened PendingTable
  import opened Reliability

  const FID_LEN: nat := 32
  const PURSUIT_ID_LEN: nat := 8
  const CONTROL_ACK: Byte := 10
  const CONTROL_REQ_FAILURE: Byte := 158
  const HEADER_LEN: nat := FID_LEN + 1 + 1 + PURSUIT_ID_LEN + 1 + FID_LEN + 4

  // ------------------------------------------------------------------
  // The header

  function Bytes4(id: nat): (r: Packet)
    ensures |r| == 4
  {
    [(id / 0x100_0000 % 256) as Byte, (id / 0x1_0000 % 256) as Byte, (id / 0x100 % 256) as Byte, (id % 256) as Byte]
  }

  function Number4(b: Packet): nat
    requires |b| == 4
  {
    b[0] as int * 0x100_0000 + b[1] as int * 0x1_0000 + b[2] as int * 0x100 + b[3] as int
  }

  lemma Number4Bytes4(id: nat)
    requires id < 0x1_0000_0000
    ensures Number4(Bytes4(id)) == id
  {
    assert id / 0x1_0000 / 0x100 == id / 0x100_0000 && id / 0x100 / 0x100 == id / 0x1_0000;
  }

  /** What a control header says. */
  datatype Header = Header(fid: Packet, kind: Byte, reverse: Packet, id: nat)

  ghost predicate HeaderOk(h: Header, scope: Packet) {
    |h.fid| == FID_LEN && |h.reverse| == FID_LEN && |scope| == PURSUIT_ID_LEN && h.id < 0x1_0000_0000
  }

  function EncodeHeader(h: Header, scope: Packet): Packet {
    h.fid + [1, 1] + scope + [h.kind] + h.reverse + Bytes4(h.id)
  }

  datatype Parsed = NotControl(payload: Packet) | Control(header: Header, payload: Packet)

  // The receiving side: anything without exactly one identifier, the reliability scope, is not ours.
  function Parse(p: Packet, scope: Packet): Parsed
    requires |p| >= HEADER_LEN
  {
    var idLen := p[FID_LEN + 1] as nat * PURSUIT_ID_LEN;
    if p[FID_LEN] != 1 || idLen != |scope| || |scope| != PURSUIT_ID_LEN || p[FID_LEN + 2..FID_LEN + 2 + PURSUIT_ID_LEN] != scope
    then NotControl(p[FID_LEN..])
    else
      var at := FID_LEN + 2 + PURSUIT_ID_LEN;
      Control(Header(p[..FID_LEN], p[at], p[at + 1..at + 1 + FID_LEN], Number4(p[at + 1 + FID_LEN..HEADER_LEN])), p[HEADER_LEN..])
  }

  /** Parsing a sent packet gives back the header fields; the payload comes back as a prefix,
      followed by whatever bytes the oversized packet carries after it. */
  lemma ParseSent(h: Header, scope: Packet, payload: Packet, trailing: Packet)
    requires HeaderOk(h, scope)
    ensures |EncodeHeader(h, scope)| == HEADER_LEN
    ensures Parse(EncodeHeader(h, scope) + payload + trailing, scope) == Control(h, payload + trailing)
  {
    var head := EncodeHeader(h, scope);
    var p := head + payload + trailing;
    var at := FID_LEN + 2 + PURSUIT_ID_LEN;
    Number4Bytes4(h.id);
    assert p[..FID_LEN] == h.fid;
    assert p[FID_LEN] == 1 && p[FID_LEN + 1] == 1;
    assert p[FID_LEN + 2..at] == scope;
    assert p[at] == h.kind;
    assert p[at + 1..at + 1 + FID_LEN] == h.reverse;
    assert p[at + 1 + FID_LEN..HEADER_LEN] == Bytes4(h.id);
    assert p[HEADER_LEN..] == payload + trailing;
  }

  /** Where every field of the header is, with the id in network byte order. */
  lemma HeaderLayout(h: Header, scope: Packet)
    requires HeaderOk(h, scope)
    ensures var p := EncodeHeader(h, scope);
      && |p| == 79 && p[..32] == h.fid && p[32] == 1 && p[33] == 1 && p[34..42] == scope && p[42] == h.kind && p[43..75] == h.reverse
      && p[75] as int * 16777216 + p[76] as int * 65536 + p[77] as int * 256 + p[78] as int == h.id
  {
    var p := EncodeHeader(h, scope);
    Number4Bytes4(h.id);
    assert p[75..79] == Bytes4(h.id);
    assert p[75] == Bytes4(h.id)[0] && p[76] == Bytes4(h.id)[1] && p[77] == Bytes4(h.id)[2] && p[78] == Bytes4(h.id)[3];
  }

  // The acknowledgement: the received header with another kind and destination, no payload.
  function AckOf(p: Packet, reverse: Packet): Packet
    requires |p| >= HEADER_LEN && |reverse| == FID_LEN
  {
    var at := FID_LEN + 2 + PURSUIT_ID_LEN;
    reverse + p[FID_LEN..at] + [CONTROL_ACK] + p[at + 1..HEADER_LEN]
  }

  /** The acknowledgement of a request parses as an acknowledgement of the same id. */
  lemma AckParses(h: Header, scope: Packet, payload: Packet, back: Packet)
    requires HeaderOk(h, scope) && |back| == FID_LEN
    ensures |EncodeHeader(h, scope)| == HEADER_LEN
    ensures AckOf(EncodeHeader(h, scope) + payload, back) == EncodeHeader(h.(fid := back, kind := CONTROL_ACK), scope)
    ensures Parse(AckOf(EncodeHeader(h, scope) + payload, back), scope) == Control(h.(fid := back, kind := CONTROL_ACK), [])
  {
    var head := EncodeHeader(h, scope);
    var p := head + payload;
    var at := FID_LEN + 2 + PURSUIT_ID_LEN;
    assert p[FID_LEN..at] == [1, 1] + scope;
    assert p[at + 1..HEADER_LEN] == h.reverse + Bytes4(h.id);
    var h' := h.(fid := back, kind := CONTROL_ACK);
    var ack := AckOf(p, back);
    assert ack == EncodeHeader(h', scope);
    ParseSent(h', scope, [], []);
    assert ack + [] + [] == ack;
  }

  // The notice for a request given up: without the two forwarding identifiers and the id.
  function FailureNotice(data: Packet): Packet
    requires |data| >= HEADER_LEN
  {
    var at := FID_LEN + 2 + PURSUIT_ID_LEN + 1;
    data[FID_LEN..at] + [CONTROL_REQ_FAILURE] + data[HEADER_LEN..]
  }

  lemma FailureNoticeCarriesPayload(h: Header, scope: Packet, payload: Packet, trailing: Packet)
    requires HeaderOk(h, scope)
    ensures |EncodeHeader(h, scope)| == HEADER_LEN
    ensures FailureNotice(EncodeHeader(h, scope) + payload + trailing) ==
            [1, 1] + scope + [h.kind, CONTROL_REQ_FAILURE] + payload + trailing
  {
    var head := EncodeHeader(h, scope);
    var p := head + payload + trailing;
    var at := FID_LEN + 2 + PURSUIT_ID_LEN + 1;
    assert p[FID_LEN..at] == [1, 1] + scope + [h.kind];
    assert p[HEADER_LEN..] == payload + trailing;
  }

  // ------------------------------------------------------------------
  // The element

  class ControlReliability {
    const lru: PendingLru
    const lastReceivedAckIDs: array<nat>
    var receivedAckCnt: nat
    var timerScheduled: bool

    ghost predicate Valid()
      reads this, lru, lru.repr, lastReceivedAckIDs
    {
      && lru.Valid() && lru.max == CPR_LRU_SIZE
      && lastReceivedAckIDs.Length == CPR_STATE_SIZE && receivedAckCnt < CPR_STATE_SIZE
    }

    ghost function State(): Host
      reads this, lru, lru.repr, lastReceivedAckIDs
    {
      Host(lru.contents, lastReceivedAckIDs[..], receivedAckCnt, timerScheduled)
    }

    // The ring is allocated but never filled: it may hold anything.
    constructor (memory: array<nat>)
      requires memory.Length == CPR_STATE_SIZE
      ensures Valid() && State() == Host([], memory[..], 0, false)
      ensures fresh(lru) && lru.repr == {} && lastReceivedAckIDs == memory
    {
      lru := new PendingLru(CPR_LRU_SIZE);
      lastReceivedAckIDs := memory;
      receivedAckCnt, timerScheduled := 0, false;
    }

    /** A request from the proxy: store it under a random id, send it, schedule the timer. */
    method PushRequest(id: nat, data: Packet, now: int) returns (sent: Packet)
      requires Valid()
      modifies this`timerScheduled, lru, lru.repr
      ensures Valid() && State() == Submitted(old(State()), id, data, now) && sent == data
      ensures fresh(lru.repr - old(lru.repr))
    {
      var obj := new Node(id, data);
      lru.Insert(obj, now);
      sent := data;
      if !timerScheduled {
        timerScheduled := true;
      }
    }

    method IsAckIDStored(ack: nat) returns (stored: bool)
      requires Valid()
      ensures stored <==> ack in State().ring
    {
      for i := 0 to lastReceivedAckIDs.Length
        invariant ack !in lastReceivedAckIDs[..i]
      {
        if lastReceivedAckIDs[i] == ack {
          return true;
        }
      }
      assert lastReceivedAckIDs[..lastReceivedAckIDs.Length] == lastReceivedAckIDs[..];
      return false;
    }

    /** A request from the network: acknowledged always, passed up unless its id is in the ring. */
    method PushFromNetwork(id: nat, data: Packet) returns (ack: nat, passedUp: bool, payload: Packet)
      requires Valid()
      modifies this`receivedAckCnt, lastReceivedAckIDs
      ensures Valid() && State() == RequestReceived(old(State()), id)
      ensures ack == id && (passedUp <==> id !in old(State()).ring) && (passedUp ==> payload == data)
    {
      ack := id;
      payload := [];
      var stored := IsAckIDStored(id);
      passedUp := !stored;
      if !stored {
        payload := data;
        lastReceivedAckIDs[receivedAckCnt] := id;
        receivedAckCnt := receivedAckCnt + 1;
        if receivedAckCnt == lastReceivedAckIDs.Length {
          receivedAckCnt := 0;
        }
      }
    }

    method PushAck(id: nat)
      requires Valid()
      modifies lru, lru.repr
      ensures Valid() && State() == AckReceived(old(State()), id)
      ensures lru.repr == old(lru.repr)
    {
      var missing := lru.Remove(id);
    }

    // Drop the oldest request.
    method GiveUp(id: nat)
      requires Valid() && Has(lru.contents, id) && Find(lru.contents, id) == 0
      modifies lru, lru.repr
      ensures Valid() && lru.contents == old(lru.contents)[1..] && lru.repr == old(lru.repr)
      ensures |lru.objects| == |lru.contents|
    {
      var missing := lru.Remove(id);
    }

    // Restart the oldest request's clock and count the transmission.
    method Retry(obj: Node, later: int)
      requires Valid() && |lru.objects| > 0 && obj == lru.tail
      modifies lru, lru.repr
      ensures Valid() && |old(lru.contents)| > 0 && lru.repr == old(lru.repr)
      ensures |lru.objects| == |lru.contents|
      ensures var e := old(lru.contents)[0];
        lru.contents == old(lru.contents)[1..] + [e.(sentAt := later, retransmissions := e.retransmissions + 1)]
    {
      hide Indexed, Counted, PendingLru.Linked, Refreshed, Has, Find;
      lru.OldestEntry();
      ghost var es := lru.contents;
      RefreshedOldest(es, obj.ackID, later);
      lru.Update(obj.ackID, later);
      lru.CountRetransmission(obj);
    }

    // The oldest entry has timed out: retransmit it or give it up.
    method Expire(ghost now: int, later: int) returns (outcome: Outcome)
      requires Valid() && |lru.objects| > 0
      requires |lru.contents| > 0 && now - lru.contents[0].sentAt >= CPR_TIMER_EXPIRATION
      modifies lru, lru.repr
      ensures Valid() && outcome == TimerOutcome(old(State()), now)
      ensures lru.contents == TimerFired(old(State()), now, later).pending
      ensures |lru.objects| == |lru.contents| && lru.repr == old(lru.repr)
    {
      lru.OldestEntry();
      var obj := lru.objects[lru.tail.ackID];
      if obj.retransmissions >= CPR_MAX_RETRANSMISSIONS {
        GiveUp(obj.ackID);
        outcome := Failure(obj.ackID);
      } else {
        Retry(obj, later);
        outcome := Retransmit(obj.ackID, obj.data);
      }
    }

    /** The timer: look at the oldest entry, retransmit it or give it up, and reschedule. */
    method RunTimer(now: int, later: int) returns (outcome: Outcome)
      requires Valid()
      modifies this`timerScheduled, lru, lru.repr
      ensures Valid() && outcome == TimerOutcome(old(State()), now) && State() == TimerFired(old(State()), now, later)
      ensures lru.repr == old(lru.repr)
      ensures outcome.Idle? <==> old(lru.contents) == []
      ensures !outcome.Idle? ==> var e := old(lru.contents)[0];
        && (outcome.TooEarly? <==> now - e.sentAt < CPR_TIMER_EXPIRATION)
        && (outcome.Failure? ==> outcome.id == e.ackID && e.retransmissions >= CPR_MAX_RETRANSMISSIONS)
        && (outcome.Retransmit? ==> outcome.id == e.ackID && outcome.data == e.data && e.retransmissions < CPR_MAX_RETRANSMISSIONS)
    {
      hide Indexed, Counted, PendingLru.Linked, Has, Find;
      timerScheduled := false;
      lru.SameSize();
      if |lru.objects| == 0 {
        return Idle;
      }
      lru.OldestEntry();
      if now - lru.sentTimes[lru.tail.ackID] - CPR_TIMER_EXPIRATION < 0 {
        timerScheduled := true;
        return TooEarly;
      }
      outcome := Expire(now, later);
      if |lru.objects| > 0 {
        timerScheduled := true;
      }
    }
  }
}
