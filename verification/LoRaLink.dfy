/** LoRaLink over its radio: frames in and out as bytes, the send stepped in place. */
module LoRaLinks {
  import opened Wire
  import opened Clock
  import opened LoRaSpec

  /** The radio as the link uses it: the unread bytes of the current packet, and
      everything sent. */
  class LoRaRadio {
    var packet: seq<Byte>
    var sent: seq<seq<Byte>>

    constructor ()
      ensures packet == [] && sent == []
    {
      packet, sent := [], [];
    }

    /** parsePacket(): a packet of `size` bytes arrived, of which `bytes` can be read. */
    method ParsePacket(size: int, bytes: seq<Byte>) returns (packetSize: int)
      modifies `packet
      ensures packet == bytes && packetSize == size
    {
      packet := bytes;
      packetSize := size;
    }

    method Available() returns (waiting: bool)
      ensures waiting <==> packet != []
    {
      waiting := packet != [];
    }

    /** The next byte, or -1. */
    method ReadByte() returns (b: int)
      modifies `packet
      ensures old(packet) == [] ==> b == -1 && packet == []
      ensures old(packet) != [] ==> b == old(packet)[0] as int && 0 <= b < 0x100 && packet == old(packet)[1..]
    {
      if packet == [] { return -1; }
      b := packet[0] as int;
      packet := packet[1..];
    }

    /** Sends a frame; the caller learns from `ok` whether the radio managed it. */
    method Send(frame: seq<Byte>)
      modifies `sent
      ensures sent == old(sent) + [frame]
    {
      sent := sent + [frame];
    }
  }

  /** What the radio and the clock do during one poll. */
  datatype Input = Input(now: U32, after: U32, sendOk: bool, size: int, bytes: seq<Byte>)

  /** The ACK a waiting poll reads: exactly ACK_LEN bytes announced and readable. */
  function HeardAck(size: int, bytes: seq<Byte>): Option<AckPayload> {
    if size == ACK_LEN && |bytes| >= ACK_LEN then Some(DecodeAck(bytes[..ACK_LEN])) else None
  }

  function AsPoll(i: Input): Poll { Poll(i.now, i.after, i.sendOk, HeardAck(i.size, i.bytes)) }

  function AsPolls(s: seq<Input>): (ps: seq<Poll>)
    ensures |ps| == |s|
    ensures forall k :: 0 <= k < |s| ==> ps[k] == AsPoll(s[k])
  {
    seq(|s|, k requires 0 <= k < |s| => AsPoll(s[k]))
  }

  class LoRaLink {
    const radio: LoRaRadio
    const config: Config
    var pending: Payload
    var attempt: U8
    var phase: Phase
    var phaseStart: U32

    ghost function Model(): Link
      reads this
    {
      Link(pending, attempt, phase, phaseStart)
    }

    constructor (radio: LoRaRadio, config: Config)
      ensures this.radio == radio && this.config == config
      ensures Model() == Link(Payload(0, Sample(0, 0, 0, 0), Ids(0, 0, 0)), 0, Idle, 0)
    {
      this.radio, this.config := radio, config;
      pending := Payload(0, Sample(0, 0, 0, 0), Ids(0, 0, 0));
      attempt, phase, phaseStart := 0, Idle, 0;
    }

    /** Reads exactly `len` bytes of the current packet; a short packet fails the read. */
    method ReadFrame(buf: array<Byte>, len: nat) returns (ok: bool)
      requires len <= buf.Length
      modifies buf, radio`packet
      ensures ok <==> |old(radio.packet)| >= len
      ensures ok ==> buf[..len] == old(radio.packet)[..len]
      ensures radio.packet == old(radio.packet)[if ok then len else |old(radio.packet)|..]
    {
      ghost var p := radio.packet;
      var bytesRead := 0;
      var waiting := radio.Available();
      while bytesRead < len && waiting
        invariant bytesRead <= len && bytesRead <= |p|
        invariant radio.packet == p[bytesRead..] && buf[..bytesRead] == p[..bytesRead]
        invariant waiting <==> radio.packet != []
        decreases |radio.packet|
      {
        var value := radio.ReadByte();
        if value >= 0 {
          ToByteOfNat(p[bytesRead]);
          buf[bytesRead] := ToByte(value);
          bytesRead := bytesRead + 1;
        }
        waiting := radio.Available();
      }
      ok := bytesRead == len;
    }

    /** Discards what is left of the current packet. */
    method Drain()
      modifies radio`packet
      ensures radio.packet == []
    {
      var waiting := radio.Available();
      while waiting
        invariant waiting <==> radio.packet != []
        decreases |radio.packet|
      {
        var _ := radio.ReadByte();
        waiting := radio.Available();
      }
    }

    method EnterPhase(next: Phase, now: U32)
      modifies `phase, `phaseStart
      ensures Model() == Enter(old(Model()), next, now)
    {
      phase := next;
      phaseStart := now;
    }

    /** Starts a send, unless the size is wrong or one is in flight. */
    method BeginSend(buf: seq<Byte>, now: U32) returns (ok: bool)
      modifies this
      ensures ok <==> |buf| == PAYLOAD_LEN && old(phase) == Idle
      ensures Model() == if ok then Begin(DecodePayload(buf), now) else old(Model())
    {
      if |buf| != PAYLOAD_LEN || phase != Idle {
        return false;
      }
      pending := DecodePayload(buf);
      attempt := 0;
      EnterPhase(Transmit, now);
      return true;
    }

    /** Moves the send in flight one step on. */
    method PollSend(i: Input) returns (status: Status)
      modifies this, radio
      ensures (Model(), status) == Step(old(Model()), config, AsPoll(i))
      ensures radio.sent == old(radio.sent)
        + if old(phase) == Transmit then [EncodePayload(old(pending))] else []
    {
      match phase {
        case Idle => return NoSend;
        case Transmit =>
          attempt := (attempt + 1) % 0x100;
          radio.Send(EncodePayload(pending));
          if !i.sendOk {
            EnterPhase(Backoff, i.after);
            return Pending;
          }
          EnterPhase(AwaitAck, i.after);
          return Pending;
        case AwaitAck =>
          var packetSize := radio.ParsePacket(i.size, i.bytes);
          if packetSize == ACK_LEN {
            var buf := new Byte[ACK_LEN](_ => 0);
            var read := ReadFrame(buf, ACK_LEN);
            if read {
              var ack := DecodeAck(buf[..ACK_LEN]);
              if ack.uid == pending.uid && ack.seqNo == pending.sample.seqNo {
                phase := Idle;
                return Acked;
              }
            }
          } else if packetSize > 0 {
            Drain();
          }
          if Since(i.now, phaseStart) >= config.ackTimeoutMs {
            EnterPhase(Backoff, i.after);
          }
          return Pending;
        case Backoff =>
          if Since(i.now, phaseStart) < BACKOFF_MS {
            return Pending;
          }
          if attempt >= config.maxRetries {
            phase := Idle;
            return Failed;
          }
          EnterPhase(Transmit, i.after);
          return Pending;
      }
    }

    /** Sends a Payload, blocking until it is acknowledged or every retry is used.
        `env` is what radio and clock do, poll by poll; `times` the same polls on an
        unbounded clock. Paced as `EndsWithinBoundIff` asks, the loop terminates. */
    method SendPacket(buf: seq<Byte>, start: nat, env: seq<Input>, ghost times: seq<Timed>, ghost gap: nat)
        returns (ok: bool)
      requires AsPolls(env) == WrapAll(times) && Paced(start, start, times, gap)
      requires gap + LongestWait(config) <= WRAP
      requires |env| >= config.Attempts() * PerAttempt(config)
      modifies this, radio
      ensures |buf| != PAYLOAD_LEN || old(phase) != Idle ==> !ok && radio.sent == old(radio.sent)
      ensures |buf| == PAYLOAD_LEN && old(phase) == Idle ==>
        && phase == Idle
        && (ok <==> Acked in Statuses(Begin(DecodePayload(buf), Millis(start)), config, AsPolls(env)))
        && |radio.sent| <= |old(radio.sent)| + config.Attempts()
    {
      ok := BeginSend(buf, Millis(start));
      if !ok {
        return;
      }
      ghost var l := Model();
      ghost var polls := AsPolls(env);
      RunEnds(l, config, start, start, start, times, gap);
      assert polls[..|polls|] == polls;
      var k := 0;
      var status := Pending;
      while status == Pending
        invariant k <= |env|
        invariant Model() == After(l, config, polls[..k])
        invariant if k == 0 then status == Pending else status == Statuses(l, config, polls)[k - 1]
        invariant status != NoSend && (status == Pending <==> phase != Idle)
        invariant |radio.sent| == |old(radio.sent)| + Sends(l, config, polls[..k])
        decreases |env| - k
      {
        RunSnoc(l, config, polls, k);
        status := PollSend(env[k]);
        k := k + 1;
      }
      ok := status == Acked;
      LastStatus(l, config, polls, k);
    }

    /** Takes one received Payload and sends its ACK. -1: nothing usable arrived;
        -2: the buffer is too small. */
    method ReceivePacket(buf: array<Byte>, size: int, bytes: seq<Byte>) returns (len: int)
      modifies buf, radio
      ensures len == PAYLOAD_LEN <==> size == PAYLOAD_LEN && buf.Length >= PAYLOAD_LEN && |bytes| >= PAYLOAD_LEN
      ensures len == PAYLOAD_LEN ==>
        && buf[..PAYLOAD_LEN] == bytes[..PAYLOAD_LEN]
        && radio.sent == old(radio.sent) + [EncodeAck(DecodePayload(bytes[..PAYLOAD_LEN]).ToReading().Key())]
      ensures len != PAYLOAD_LEN ==>
        && radio.sent == old(radio.sent)
        && len == if size == PAYLOAD_LEN && buf.Length < PAYLOAD_LEN then -2 else -1
    {
      var packetSize := radio.ParsePacket(size, bytes);
      if packetSize <= 0 {
        return -1;
      }
      if packetSize == ACK_LEN {
        Drain();
        return -1;
      }
      if packetSize != PAYLOAD_LEN {
        Drain();
        return -1;
      }
      if buf.Length < PAYLOAD_LEN {
        Drain();
        return -2;
      }
      var read := ReadFrame(buf, PAYLOAD_LEN);
      if !read {
        return -1;
      }
      var received := DecodePayload(buf[..PAYLOAD_LEN]);
      radio.Send(EncodeAck(AckPayload(received.uid, received.sample.seqNo)));
      return PAYLOAD_LEN;
    }
  }

  /** The status that ends a run says how the send ended. */
  lemma {:induction false} LastStatus(l: Link, c: Config, polls: seq<Poll>, k: nat)
    requires LoRaSpec.Valid(l, c) && l.phase != Idle && 1 <= k <= |polls|
    requires Statuses(l, c, polls)[k - 1] != Pending && Statuses(l, c, polls)[k - 1] != NoSend
    ensures Acked in Statuses(l, c, polls) <==> Statuses(l, c, polls)[k - 1] == Acked
    ensures Sends(l, c, polls[..k]) <= Left(l, c)
  {
    RunOf(l, c, polls);
    RunOf(l, c, polls[..k]);
  }

  /** One more poll at the end of a run. */
  lemma {:induction false} RunSnoc(l: Link, c: Config, polls: seq<Poll>, k: nat)
    requires k < |polls|
    decreases k
    ensures var at := After(l, c, polls[..k]);
      && After(l, c, polls[..k + 1]) == Step(at, c, polls[k]).0
      && Statuses(l, c, polls)[k] == Step(at, c, polls[k]).1
      && Sends(l, c, polls[..k + 1]) == Sends(l, c, polls[..k]) + if at.phase == Transmit then 1 else 0
  {
    if k == 0 {
      assert polls[..1][1..] == [];
    } else {
      var l' := Step(l, c, polls[0]).0;
      assert polls[..k][1..] == polls[1..][..k - 1] && polls[..k + 1][1..] == polls[1..][..k];
      RunSnoc(l', c, polls[1..], k - 1);
    }
  }
}
