/** The substation node: its state in place, one loop pass at a time. */
module Substations {
  import opened Wire
  import opened Clock
  import opened StationSpec
  import opened EspNow
  import B = BufferSpec
  import L = LoRaSpec
  import opened ReadingBuffers
  import opened LoRaLinks

  /** Frames a handler sends, with their destinations. */
  type Outbox = seq<(Mac, seq<Byte>)>

  /** One frame from the ESP-NOW queue: the station after it, and what it sends.
      `adds` says which MACs the radio accepts as peers during the pass. */
  function Handle(s: Station, f: Rx, adds: Mac -> bool): (Station, Outbox) {
    match Classify(f.data)
    case LinkMsg(l) =>
      if l.kind != Join then (s, []) else
      var r := StationSpec.HandleJoin(s, f.mac, l.epoch, l.uid, adds(f.mac));
      (r.0, if r.1.Some? then [(f.mac, LinkFrameMake(r.1.value))] else [])
    case DataMsg(p) =>
      var r := HandleReading(s, f.mac, p);
      (r.0, if r.1.Some? then [(f.mac, EncodeAck(r.1.value))] else [])
    case _ => (s, [])
  }

  function HandleAll(s: Station, q: seq<Rx>, adds: Mac -> bool): (Station, Outbox)
    decreases |q|
  {
    if q == [] then (s, []) else
    var first := Handle(s, q[0], adds);
    var rest := HandleAll(first.0, q[1..], adds);
    (rest.0, first.1 + rest.1)
  }

  lemma {:induction false} HandleSnoc(s: Station, q: seq<Rx>, k: nat, adds: Mac -> bool)
    requires k < |q|
    ensures var upTo := HandleAll(s, q[..k], adds);
      var one := Handle(upTo.0, q[k], adds);
      HandleAll(s, q[..k + 1], adds) == (one.0, upTo.1 + one.1)
    decreases k
  {
    if k == 0 {
      assert q[..1][1..] == [];
      assert [] + Handle(s, q[0], adds).1 == Handle(s, q[0], adds).1 + [];
    } else {
      var first := Handle(s, q[0], adds);
      assert q[..k][1..] == q[1..][..k - 1] && q[..k + 1][1..] == q[1..][..k];
      HandleSnoc(first.0, q[1..], k - 1, adds);
      var mid := HandleAll(first.0, q[1..][..k - 1], adds);
      var last := Handle(mid.0, q[k], adds);
      assert first.1 + (mid.1 + last.1) == (first.1 + mid.1) + last.1;
    }
  }

  lemma {:induction false} HandleValid(s: Station, c: L.Config, f: Rx, adds: Mac -> bool)
    requires StationSpec.Valid(s, c)
    ensures StationSpec.Valid(Handle(s, f, adds).0, c)
  {
    match Classify(f.data)
    case LinkMsg(l) => if l.kind == Join { NextValid(s, c, JoinFrame(f.mac, l.epoch, l.uid, adds(f.mac))); }
    case DataMsg(p) => NextValid(s, c, ReadingFrame(f.mac, p));
    case _ =>
  }

  /** One more frame handled, seen from everything sent before. */
  lemma {:induction false} HandledMore(s: Station, q: seq<Rx>, k: nat, adds: Mac -> bool, sent: Outbox)
    requires k < |q|
    ensures var upTo, more := HandleAll(s, q[..k], adds), HandleAll(s, q[..k + 1], adds);
      var one := Handle(upTo.0, q[k], adds);
      more.0 == one.0 && sent + more.1 == (sent + upTo.1) + one.1
  {
    HandleSnoc(s, q, k, adds);
    var upTo := HandleAll(s, q[..k], adds);
    assert sent + (upTo.1 + Handle(upTo.0, q[k], adds).1) == (sent + upTo.1) + Handle(upTo.0, q[k], adds).1;
  }

  class Substation {
    const config: L.Config
    const buffer: ReadingBuffer
    const link: LoRaLink
    const uplink: EspNowUplink
    const joined: array<JoinedNode>
    var joinedCount: nat
    var epoch: U32
    var nextBeaconAt: U32
    var nextSendAt: U32
    var inFlight: Payload

    ghost predicate Shaped()
      reads this, joined, buffer, buffer.slots, link
    {
      && joined.Length == B.MAX_NODES && joinedCount <= B.MAX_NODES
      && buffer.Valid() && link.config == config
    }

    ghost function Model(): Station
      reads this, joined, buffer, buffer.slots, link
      requires Shaped()
    {
      Station(joined[..joinedCount], epoch, nextBeaconAt, nextSendAt, inFlight, buffer.Model(), link.Model())
    }

    ghost predicate Valid()
      reads this, joined, buffer, buffer.slots, link, uplink
    {
      Shaped() && StationSpec.Valid(Model(), config) && uplink.Valid()
    }

    constructor (config: L.Config, epoch: U32)
      ensures Valid() && fresh(buffer) && fresh(buffer.slots) && fresh(link) && fresh(link.radio)
      ensures fresh(uplink) && fresh(joined)
      ensures Model() == Boot(epoch) && uplink.rxQueue == [] && uplink.sent == []
    {
      this.config := config;
      this.epoch := epoch;
      joinedCount, nextBeaconAt, nextSendAt := 0, 0, 0;
      inFlight := Zeroed;
      buffer := new ReadingBuffer();
      var radio := new LoRaRadio();
      link := new LoRaLink(radio, config);
      uplink := new EspNowUplink();
      joined := new JoinedNode[B.MAX_NODES](_ => JoinedNode(0, 0, 0, false));
      new;
      assert joined[..joinedCount] == [];
    }

    /** findJoined(): index into the joined table, or -1. */
    method FindJoinedNode(mac: Mac) returns (index: int)
      requires Shaped()
      ensures if HasJoined(Model(), mac) then index == FindJoined(Model().joined, mac, 0) else index == -1
    {
      for i := 0 to joinedCount
        invariant FindJoined(joined[..joinedCount], mac, i) == FindJoined(joined[..joinedCount], mac, 0)
      {
        if joined[i].mac == mac {
          return i;
        }
      }
      return -1;
    }

    /** beaconIfDue() */
    method BeaconIfDue(now: U32, after: U32)
      requires Valid()
      modifies `nextBeaconAt, uplink`sent
      ensures Valid()
      ensures Model() == StationSpec.BeaconIfDue(old(Model()), now, after).0
      ensures uplink.sent == old(uplink.sent)
        + if StationSpec.BeaconIfDue(old(Model()), now, after).1
          then [(0xFFFF_FFFF_FFFF, LinkFrameMake(LinkFrame(Beacon, epoch, 0)))] else []
    {
      if Before(now, nextBeaconAt) {
        return;
      }
      nextBeaconAt := Later(after, BEACON_INTERVAL_MS);
      uplink.SendPacket(0xFFFF_FFFF_FFFF, LinkFrameMake(LinkFrame(Beacon, epoch, 0)));
    }

    /** handleJoin()'s table part: adds the node or refreshes it; false if the table is full. */
    method UpdateTable(mac: Mac, uid: Uid) returns (room: bool)
      requires Shaped()
      modifies `joinedCount, joined
      ensures Shaped()
      ensures room <==> JoinTable(old(Model()), mac, epoch, uid).Some?
      ensures joined[..joinedCount] == if room then JoinTable(old(Model()), mac, epoch, uid).value
                                       else old(joined[..joinedCount])
    {
      ghost var s := Model();
      var index := FindJoinedNode(mac);
      if index < 0 {
        if joinedCount == B.MAX_NODES {
          return false;
        }
        index := joinedCount;
        joinedCount := joinedCount + 1;
        joined[index] := JoinedNode(mac, joined[index].uid, 0, false);
      } else if joined[index].uid != uid {
        joined[index] := joined[index].(hasSeq := false);
      }
      joined[index] := joined[index].(uid := uid);
      assert joined[..joinedCount] == JoinTable(s, mac, epoch, uid).value;
      return true;
    }

    /** handleJoin() */
    method HandleJoin(mac: Mac, frame: LinkFrame, peerOk: bool)
      requires Valid()
      modifies `joinedCount, joined, uplink`sent
      ensures Valid()
      ensures Model() == StationSpec.HandleJoin(old(Model()), mac, frame.epoch, frame.uid, peerOk).0
      ensures uplink.sent == old(uplink.sent)
        + match StationSpec.HandleJoin(old(Model()), mac, frame.epoch, frame.uid, peerOk).1
          case None => []
          case Some(ack) => [(mac, LinkFrameMake(ack))]
    {
      NextValid(Model(), config, JoinFrame(mac, frame.epoch, frame.uid, peerOk));
      if frame.epoch != epoch {
        return;
      }
      var room := UpdateTable(mac, frame.uid);
      if !room || !peerOk {
        return;
      }
      uplink.SendPacket(mac, LinkFrameMake(LinkFrame(JoinAck, epoch, frame.uid)));
    }

    /** sendDeliveryAck() */
    method SendDeliveryAck(mac: Mac, p: Payload)
      modifies uplink`sent
      ensures uplink.sent == old(uplink.sent) + [(mac, EncodeAck(p.ToReading().Key()))]
    {
      uplink.SendPacket(mac, EncodeAck(AckPayload(p.uid, p.sample.seqNo)));
    }

    /** Notes the number of the reading about to be ACKed. */
    method RememberSeq(index: nat, seqNo: U32)
      requires joined.Length == B.MAX_NODES && index < joinedCount <= B.MAX_NODES
      modifies joined
      ensures joined[..joinedCount]
           == old(joined[..joinedCount])[index := old(joined[index]).(lastSeq := seqNo, hasSeq := true)]
    {
      joined[index] := joined[index].(lastSeq := seqNo, hasSeq := true);
    }

    /** The reading branch of handleIncoming(). */
    method TakeReading(mac: Mac, incoming: Payload)
      requires Shaped() && DistinctMacs(joined[..joinedCount])
      modifies joined, buffer, buffer.slots, uplink`sent
      ensures Shaped()
      ensures Model() == HandleReading(old(Model()), mac, incoming).0
      ensures uplink.sent == old(uplink.sent)
        + match HandleReading(old(Model()), mac, incoming).1
          case None => []
          case Some(ack) => [(mac, EncodeAck(ack))]
    {
      var index := FindJoinedNode(mac);
      if index < 0 {
        return;
      }
      if joined[index].hasSeq && joined[index].lastSeq == incoming.sample.seqNo {
        SendDeliveryAck(mac, incoming);
        return;
      }
      var stored := buffer.Push(incoming);
      if !stored {
        return;
      }
      RememberSeq(index, incoming.sample.seqNo);
      SendDeliveryAck(mac, incoming);
    }

    /** One pass of handleIncoming()'s loop. */
    method HandleFrame(frame: Rx, adds: Mac -> bool)
      requires Valid()
      modifies `joinedCount, joined, buffer, buffer.slots, uplink`sent
      ensures Valid()
      ensures Model() == Handle(old(Model()), frame, adds).0
      ensures uplink.sent == old(uplink.sent) + Handle(old(Model()), frame, adds).1
    {
      HandleValid(Model(), config, frame, adds);
      match LinkFrameParse(frame.data) {
        case Some(link) =>
          if link.kind == Join {
            HandleJoin(frame.mac, link, adds(frame.mac));
          }
        case None =>
          if |frame.data| == PAYLOAD_LEN {
            TakeReading(frame.mac, DecodePayload(frame.data));
          }
      }
    }

    /** handleIncoming(): empties the ESP-NOW queue, oldest frame first. */
    method HandleIncoming(adds: Mac -> bool)
      requires Valid()
      modifies `joinedCount, joined, buffer, buffer.slots, uplink
      ensures Valid() && uplink.rxQueue == []
      ensures Model() == HandleAll(old(Model()), old(uplink.rxQueue), adds).0
      ensures uplink.sent == old(uplink.sent) + HandleAll(old(Model()), old(uplink.rxQueue), adds).1
    {
      ghost var s := Model();
      ghost var q := uplink.rxQueue;
      ghost var sent0 := uplink.sent;
      ghost var k := 0;
      var len, frame := uplink.ReceivePacket(MAX_DATA);
      while len != -1
        invariant k <= |q| && Valid()
        invariant len == -1 <==> k == |q|
        invariant if len == -1 then uplink.rxQueue == [] else frame == q[k] && uplink.rxQueue == q[k + 1..]
        invariant Model() == HandleAll(s, q[..k], adds).0
        invariant uplink.sent == sent0 + HandleAll(s, q[..k], adds).1
        decreases |q| - k
      {
        HandledMore(s, q, k, adds, sent0);
        HandleFrame(frame, adds);
        len, frame := uplink.ReceivePacket(MAX_DATA);
        k := k + 1;
      }
      assert q[..k] == q;
    }

    /** Starts relaying the next buffered reading, if there is one. */
    method StartRelay(begun: U32)
      requires Valid() && link.phase == L.Idle
      modifies `inFlight, buffer`peekedSlot, link
      ensures Shaped()
      ensures var s := old(Model());
        Model() == match B.PeekOut(s.buffer)
          case None => s.(buffer := B.Peek(s.buffer))
          case Some(p) => s.(buffer := B.Peek(s.buffer), inFlight := p, link := L.Begin(p, begun))
    {
      var found, out := buffer.Peek(inFlight);
      inFlight := out;
      if !found {
        return;
      }
      PayloadRoundTrip(inFlight);
      var _ := link.BeginSend(EncodePayload(inFlight), begun);
    }

    /** relayStep() with nothing in flight. */
    method RelayNext(now: U32, begun: U32)
      requires Valid() && link.phase == L.Idle
      modifies `inFlight, buffer`peekedSlot, link
      ensures Shaped()
      ensures var s := old(Model());
        Model() ==
          if Before(now, s.nextSendAt) then s
          else
            match B.PeekOut(s.buffer)
            case None => s.(buffer := B.Peek(s.buffer))
            case Some(p) => s.(buffer := B.Peek(s.buffer), inFlight := p, link := L.Begin(p, begun))
    {
      if Before(now, nextSendAt) {
        return;
      }
      StartRelay(begun);
    }

    /** relayStep() */
    method RelayStep(i: Input, begun: U32)
      requires Valid()
      modifies `nextSendAt, `inFlight, buffer, buffer.slots, link, link.radio
      ensures Valid()
      ensures Model() == StationSpec.RelayStep(old(Model()), config, AsPoll(i), begun)
      ensures link.radio.sent == old(link.radio.sent)
        + if old(link.phase) == L.Transmit then [EncodePayload(old(link.pending))] else []
    {
      RelayValid(Model(), config, AsPoll(i), begun);
      var status := link.PollSend(i);
      match status {
        case Pending => return;
        case Acked =>
          buffer.Pop();
          return;
        case Failed =>
          nextSendAt := Later(i.after, RETRY_BACKOFF_MS);
          return;
        case NoSend => RelayNext(i.after, begun);
      }
    }
  }
}
