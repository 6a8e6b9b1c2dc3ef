/** SubstationLink: the blocking join() and send() of a meter node. Frames arrive, sends
    fail and waits time out at the environment's choice; every execution is shown to be
    a run of the state machine in NodeSpec. */
module SubstationLinks {
  import opened Wire
  import opened Guard
  import opened EspNow
  import opened NodeSpec

  ghost predicate Carries(f: Rx, mac: Mac, frame: Frame) {
    f.mac == mac && Classify(f.data) == frame
  }

  ghost predicate IsBeacon(f: Rx, mac: Mac, epoch: U32) {
    var parsed := LinkFrameParse(f.data);
    f.mac == mac && parsed.Some? && parsed.value.kind == Beacon && parsed.value.epoch == epoch
  }

  /** An act of hearing is backed by a frame. */
  ghost predicate Backs(f: Rx, a: Act) {
    match a
    case HearBeacon(mac, epoch, _) => IsBeacon(f, mac, epoch)
    case HearJoinAck(mac, epoch, uid) => Carries(f, mac, LinkMsg(LinkFrame(JoinAck, epoch, uid)))
    case HearAck(mac, ack) => Carries(f, mac, AckMsg(ack))
    case Drain(mac, frame) => Carries(f, mac, LinkMsg(frame))
    case _ => true
  }

  predicate Hears(a: Act) { a.HearBeacon? || a.HearJoinAck? || a.HearAck? || a.Drain? }

  ghost predicate WasRead(a: Act, read: seq<Rx>) { Hears(a) ==> exists f :: f in read && Backs(f, a) }

  /** Every act of hearing since boot is backed by a frame taken from the queue; stated
      only where it is mentioned. */
  ghost predicate Backed(acts: seq<Act>, read: seq<Rx>) {
    forall t {:trigger Mention(t)} :: Mention(t) ==> forall a :: a in acts ==> WasRead(a, read)
  }

  ghost predicate ReadsAs(f: Rx, mac: Mac, frame: Frame) { |f.data| <= MAX_DATA && Carries(f, mac, frame) }

  ghost predicate AnyBeacon(f: Rx) {
    && |f.data| <= MAX_DATA && LinkFrameParse(f.data).Some?
    && LinkFrameParse(f.data).value.kind == Beacon
  }

  /** Nothing read from position `from` on carries the frame. */
  ghost predicate NoneCarries(read: seq<Rx>, from: nat, mac: Mac, frame: Frame) {
    forall i :: from <= i < |read| ==> !ReadsAs(read[i], mac, frame)
  }

  ghost predicate NoBeacons(read: seq<Rx>, from: nat) {
    forall i :: from <= i < |read| ==> !AnyBeacon(read[i])
  }

  /** A beacon that shows the substation has rebooted. */
  ghost predicate RebootBeacon(f: Rx, mac: Mac, epoch: U32) {
    AnyBeacon(f) && f.mac == mac && LinkFrameParse(f.data).value.epoch != epoch
  }

  ghost predicate NoReboots(read: seq<Rx>, from: nat, mac: Mac, epoch: U32) {
    forall i :: from <= i < |read| ==> !RebootBeacon(read[i], mac, epoch)
  }

  lemma {:induction false} NoRebootsMore(read: seq<Rx>, from: nat, f: Rx, mac: Mac, epoch: U32)
    requires from <= |read|
    ensures NoReboots(read + [f], from, mac, epoch) <==>
        NoReboots(read, from, mac, epoch) && !RebootBeacon(f, mac, epoch)
  {
    if NoReboots(read + [f], from, mac, epoch) {
      assert (read + [f])[|read|] == f;
      forall i | from <= i < |read| ensures !RebootBeacon(read[i], mac, epoch) {
        assert (read + [f])[i] == read[i];
      }
    }
  }

  lemma {:induction false} NoneCarriesMore(read: seq<Rx>, from: nat, f: Rx, mac: Mac, frame: Frame)
    requires NoneCarries(read, from, mac, frame) && !ReadsAs(f, mac, frame)
    ensures NoneCarries(read + [f], from, mac, frame)
  {}

  lemma {:induction false} NoBeaconsMore(read: seq<Rx>, from: nat, f: Rx)
    requires NoBeacons(read, from) && !AnyBeacon(f)
    ensures NoBeacons(read + [f], from)
  {}

  lemma {:induction false} BackedMore(acts: seq<Act>, read: seq<Rx>, f: Rx)
    requires Backed(acts, read)
    ensures Backed(acts, read + [f])
  {
    assert Mention(0);
    forall a | a in acts ensures WasRead(a, read + [f]) {
      assert WasRead(a, read);
      if Hears(a) {
        var g :| g in read && Backs(g, a);
        assert g in read + [f];
      }
    }
  }

  lemma {:induction false} BackedAct(acts: seq<Act>, read: seq<Rx>, a: Act)
    requires Backed(acts, read) && (Hears(a) ==> read != [] && Backs(read[|read| - 1], a))
    ensures Backed(acts + [a], read)
  {
    assert Mention(0);
    if Hears(a) {
      assert read[|read| - 1] in read;
    }
    assert WasRead(a, read);
  }

  class SubstationLink {
    const uplink: EspNowUplink
    const uid: Uid
    var joined: bool
    var substationMac: Mac
    var epoch: U32
    /** The radio's peer table. */
    var peers: set<Mac>
    /** The state machine's state, and everything done since boot. */
    ghost var now: Node
    ghost var acts: seq<Act>
    /** Everything sent since boot. */
    ghost var frames: seq<(Mac, Frame)>
    /** Every frame taken from the receive queue since boot. */
    ghost var read: seq<Rx>

    /** The fields are those of the recorded state. */
    ghost predicate InStep()
      reads this
    {
      && now.uid == uid && now.joined == joined && now.peers == peers
      && now.sub == substationMac && now.epoch == epoch
    }

    /** The radio was given exactly the encodings of `frames`. */
    ghost predicate OnAir()
      reads `frames, uplink
    {
      && |uplink.sent| == |frames|
      && forall i :: 0 <= i < |frames| ==> !frames[i].1.Junk? && uplink.sent[i] == (frames[i].0, Encode(frames[i].1))
    }

    /** The acts so far are a run of the state machine that ends in `now`, its state is
        the fields', what was sent is what the run emits, and what it heard was read. */
    ghost predicate Valid()
      reads this, uplink
    {
      uplink.Valid() && History(uid, acts, now, frames) && Inv(now) && InStep() && OnAir() && Backed(acts, read)
    }

    /** The last thing that happened was reading the substation's ACK of the reading. */
    ghost predicate EndsWithAck(p: Payload)
      reads this
    {
      && read != [] && Carries(read[|read| - 1], substationMac, AckMsg(AckPayload(uid, p.sample.seqNo)))
      && acts != [] && acts[|acts| - 1] == HearAck(substationMac, AckPayload(uid, p.sample.seqNo))
    }

    constructor (uid: Uid)
      ensures Valid() && fresh(uplink) && now == Fresh(uid) && acts == [] && read == []
    {
      this.uid := uid;
      joined, substationMac, epoch, peers := false, 0, 0, {};
      now, acts, frames, read := Fresh(uid), [], [], [];
      uplink := new EspNowUplink();
    }

    /** Notes an act whose effect on the fields, and on the air since `sent`, has just been made. */
    ghost method Act(a: Act, sent: seq<(Mac, Frame)>)
      requires History(uid, acts, now, sent) && Inv(now) && Next(now, a).Some?
      requires frames == sent + Emits(now, a)
      requires Backed(acts, read) && (Hears(a) ==> read != [] && Backs(read[|read| - 1], a))
      modifies `now, `acts
      ensures History(uid, acts, now, frames) && Inv(now) && Backed(acts, read)
      ensures now == Next(old(now), a).value && acts == old(acts) + [a]
    {
      HistorySnoc(uid, acts, now, sent, a);
      BackedAct(acts, read, a);
      NextKeepsInv(now, a);
      now, acts := Next(now, a).value, acts + [a];
    }

    /** Frames may arrive at any time between two polls of the queue, `most` at most. */
    method Listen(most: nat) returns (n: nat)
      requires uplink.Valid()
      modifies uplink`rxQueue
      ensures uplink.Valid() && n <= most
      ensures n == 0 ==> uplink.rxQueue == old(uplink.rxQueue)
    {
      var more: nat := *;
      n := 0;
      while n < most && n < more
        invariant uplink.Valid() && n <= most
        invariant n == 0 ==> uplink.rxQueue == old(uplink.rxQueue)
      {
        var mac: Mac := *;
        var data: seq<Byte> := *;
        uplink.OnReceived(mac, data);
        n := n + 1;
      }
    }

    /** One poll of the queue, before which up to `most` frames arrive. */
    method ReceiveAfter(most: nat) returns (len: int, frame: Rx, n: nat)
      requires uplink.Valid() && Backed(acts, read)
      modifies uplink`rxQueue, `read
      ensures uplink.Valid() && Backed(acts, read) && n <= most
      ensures len >= 0 ==> len == |frame.data|
      ensures len < 0 && len != -1 ==> |frame.data| > MAX_DATA
      ensures read == if len == -1 then old(read) else old(read) + [frame]
      ensures len == -1 ==> uplink.rxQueue == []
      ensures n == 0 && len != -1 ==> |uplink.rxQueue| < |old(uplink.rxQueue)|
    {
      n := Listen(most);
      len, frame := uplink.ReceivePacket(MAX_DATA);
      if len != -1 {
        BackedMore(acts, read, frame);
        read := read + [frame];
      }
    }

    method Receive() returns (len: int, frame: Rx)
      requires uplink.Valid() && Backed(acts, read)
      modifies uplink`rxQueue, `read
      ensures uplink.Valid() && Backed(acts, read)
      ensures len >= 0 ==> len == |frame.data|
      ensures len < 0 && len != -1 ==> |frame.data| > MAX_DATA
      ensures read == if len == -1 then old(read) else old(read) + [frame]
    {
      var most: nat := *;
      var n;
      len, frame, n := ReceiveAfter(most);
    }

    /** addPeer() fails or not at the radio's choice. */
    method AddPeer(mac: Mac) returns (ok: bool)
      modifies `peers
      ensures peers == if ok then old(peers) + {mac} else old(peers)
    {
      ok := *;
      if ok {
        peers := peers + {mac};
      }
    }

    method RemovePeer(mac: Mac)
      modifies `peers
      ensures peers == old(peers) - {mac}
    {
      peers := peers - {mac};
    }

    /** sendPacket(): true once the other radio confirmed the frame, which a failure
        does not rule out. */
    method SendPacket(mac: Mac, frame: Frame) returns (ok: bool)
      requires !frame.Junk? && OnAir()
      modifies uplink`sent, `frames
      ensures OnAir() && frames == old(frames) + [(mac, frame)]
    {
      uplink.SendPacket(mac, Encode(frame));
      frames := frames + [(mac, frame)];
      ok := *;
    }

    /** waitForBeacon(): the first beacon read, whoever sent it. */
    method WaitForBeacon() returns (heard: bool, mac: Mac, beaconEpoch: U32)
      requires uplink.Valid() && Backed(acts, read)
      modifies uplink`rxQueue, `read
      ensures uplink.Valid() && Backed(acts, read) && |old(read)| <= |read|
      ensures heard ==> |old(read)| < |read| && IsBeacon(read[|read| - 1], mac, beaconEpoch)
      ensures !heard ==> NoBeacons(read, |old(read)|)
    {
      var polls: nat := *;
      while polls > 0
        invariant uplink.Valid() && Backed(acts, read) && |old(read)| <= |read|
        invariant NoBeacons(read, |old(read)|)
      {
        polls := polls - 1;
        var len, f := Receive();
        if len >= 0 {
          var parsed := LinkFrameParse(f.data);
          if parsed.Some? && parsed.value.kind == Beacon {
            return true, f.mac, parsed.value.epoch;
          }
        }
        if len != -1 {
          NoBeaconsMore(read[..|read| - 1], |old(read)|, f);
        }
      }
      return false, 0, 0;
    }

    /** waitForJoinAck(): only a JoinAck from that substation, for this node and epoch,
        ends the wait early. */
    method WaitForJoinAck(mac: Mac, expectEpoch: U32) returns (heard: bool)
      requires uplink.Valid() && Backed(acts, read)
      modifies uplink`rxQueue, `read
      ensures uplink.Valid() && Backed(acts, read) && |old(read)| <= |read|
      ensures heard ==>
        |old(read)| < |read| && Carries(read[|read| - 1], mac, LinkMsg(LinkFrame(JoinAck, expectEpoch, uid)))
      ensures !heard ==> NoneCarries(read, |old(read)|, mac, LinkMsg(LinkFrame(JoinAck, expectEpoch, uid)))
    {
      var polls: nat := *;
      while polls > 0
        invariant uplink.Valid() && Backed(acts, read) && |old(read)| <= |read|
        invariant NoneCarries(read, |old(read)|, mac, LinkMsg(LinkFrame(JoinAck, expectEpoch, uid)))
      {
        polls := polls - 1;
        var len, from := Receive();
        if len >= 0 {
          var parsed := LinkFrameParse(from.data);
          if parsed.Some? && parsed.value.kind == JoinAck && from.mac == mac
             && parsed.value.epoch == expectEpoch && parsed.value.uid == uid {
            return true;
          }
        }
        if len != -1 {
          NoneCarriesMore(read[..|read| - 1], |old(read)|, from, mac, LinkMsg(LinkFrame(JoinAck, expectEpoch, uid)));
        }
      }
      return false;
    }

    /** waitForDeliveryAck(): only the joined substation's ACK of this very reading. */
    method WaitForDeliveryAck(seqNo: U32) returns (heard: bool)
      requires uplink.Valid() && Backed(acts, read)
      modifies uplink`rxQueue, `read
      ensures uplink.Valid() && Backed(acts, read) && |old(read)| <= |read|
      ensures heard ==>
        |old(read)| < |read| && Carries(read[|read| - 1], substationMac, AckMsg(AckPayload(uid, seqNo)))
      ensures !heard ==> NoneCarries(read, |old(read)|, substationMac, AckMsg(AckPayload(uid, seqNo)))
    {
      var polls: nat := *;
      while polls > 0
        invariant uplink.Valid() && Backed(acts, read) && |old(read)| <= |read|
        invariant NoneCarries(read, |old(read)|, substationMac, AckMsg(AckPayload(uid, seqNo)))
      {
        polls := polls - 1;
        var len, from := Receive();
        if len == ACK_LEN && from.mac == substationMac {
          var ack := DecodeAck(from.data);
          if ack.uid == uid && ack.seqNo == seqNo {
            return true;
          }
        }
        if len != -1 {
          NoneCarriesMore(read[..|read| - 1], |old(read)|, from, substationMac, AckMsg(AckPayload(uid, seqNo)));
        }
      }
      return false;
    }

    /** Unregisters the joined substation. */
    method DropSubstation()
      modifies `joined, `peers
      ensures !joined && peers == old(peers) - {substationMac}
    {
      RemovePeer(substationMac);
      joined := false;
    }

    /** drainReceived(): reads until the queue is empty, however many frames arrive
        meanwhile; the substation is forgotten exactly when one of the frames read shows
        that it has rebooted. */
    method DrainReceived()
      requires Valid() && now.pc.Draining?
      modifies this, uplink`rxQueue
      ensures Valid() && now.pc == old(now.pc) && now.last == old(now.last) && |old(read)| <= |read|
      ensures substationMac == old(substationMac) && epoch == old(epoch)
      ensures uplink.rxQueue == []
      ensures joined <==> old(joined) && NoReboots(read, |old(read)|, substationMac, epoch)
    {
      var arriving: nat := *;
      var empty := false;
      while !empty
        invariant Valid() && now.pc == old(now.pc) && now.last == old(now.last) && |old(read)| <= |read|
        invariant substationMac == old(substationMac) && epoch == old(epoch)
        invariant empty ==> uplink.rxQueue == []
        invariant joined <==> old(joined) && NoReboots(read, |old(read)|, substationMac, epoch)
        decreases !empty, arriving, |uplink.rxQueue|
      {
        var n;
        empty, n := DrainOne(arriving);
        arriving := arriving - n;
        if !empty {
          NoRebootsMore(read[..|read| - 1], |old(read)|, read[|read| - 1], substationMac, epoch);
          assert read[..|read| - 1] + [read[|read| - 1]] == read;
        }
      }
    }

    /** One turn of drainReceived()'s loop. */
    method DrainOne(most: nat) returns (empty: bool, n: nat)
      requires Valid() && now.pc.Draining?
      modifies this, uplink`rxQueue
      ensures Valid() && now.pc == old(now.pc) && now.last == old(now.last)
      ensures substationMac == old(substationMac) && epoch == old(epoch)
      ensures n <= most && (n == 0 && !empty ==> |uplink.rxQueue| < |old(uplink.rxQueue)|)
      ensures empty ==> read == old(read) && joined == old(joined) && uplink.rxQueue == []
      ensures !empty ==> |read| == |old(read)| + 1 && read[..|old(read)|] == old(read)
      ensures !empty ==> (joined <==> old(joined) && !RebootBeacon(read[|old(read)|], substationMac, epoch))
    {
      var len, from;
      len, from, n := ReceiveAfter(most);
      if len == -1 {
        return true, n;
      }
      if joined && len >= 0 {
        var parsed := LinkFrameParse(from.data);
        if parsed.Some? {
          if parsed.value.kind == Beacon && from.mac == substationMac && parsed.value.epoch != epoch {
            DropSubstation();
          }
          Act(Drain(from.mac, parsed.value), frames);
        }
      }
      empty := false;
    }

    /** Sends one Join. */
    method SendJoinFrame(mac: Mac, beaconEpoch: U32) returns (sent: bool)
      requires Valid() && now.pc.Asking? && now.pc.mac == mac && now.pc.heard == beaconEpoch
      requires now.pc.asked < JOIN_ATTEMPTS
      modifies this, uplink`sent
      ensures Valid() && read == old(read) && now == Next(old(now), SendJoin(sent)).value
    {
      ghost var before := frames;
      sent := SendPacket(mac, LinkMsg(LinkFrame(LinkType.Join, beaconEpoch, uid)));
      Act(SendJoin(sent), before);
    }

    /** Waits for its JoinAck, and takes note of the substation. */
    method TakeJoinAck(mac: Mac, beaconEpoch: U32) returns (acked: bool)
      requires Valid() && now.pc.AwaitJoin? && now.pc.mac == mac && now.pc.heard == beaconEpoch
      modifies this, uplink
      ensures Valid() && |old(read)| <= |read|
      ensures acked ==> joined && now == Next(old(now), HearJoinAck(mac, beaconEpoch, uid)).value
      ensures !acked ==> now == Next(old(now), NoJoinAck).value
    {
      acked := WaitForJoinAck(mac, beaconEpoch);
      if acked {
        substationMac := mac;
        epoch := beaconEpoch;
        joined := true;
        Act(HearJoinAck(mac, beaconEpoch, uid), frames);
      } else {
        Act(NoJoinAck, frames);
      }
    }

    /** One round of join()'s loop: sends a Join and waits for its JoinAck. */
    method AskToJoin(mac: Mac, beaconEpoch: U32) returns (acked: bool)
      requires Valid() && now.pc.Asking? && now.pc.mac == mac && now.pc.heard == beaconEpoch
      requires now.pc.asked < JOIN_ATTEMPTS
      modifies this, uplink
      ensures Valid() && |old(read)| <= |read|
      ensures acked ==> joined
      ensures acked ==>
        now == Ready(now.(pc := old(now.pc), last := old(now.last)), old(now.pc).goal, old(now.pc).tries)
      ensures !acked ==> now.last == old(now.last)
      ensures !acked ==> now.pc == Asking(old(now.pc).goal, old(now.pc).tries, mac, beaconEpoch, old(now.pc).asked + 1)
    {
      var sent := SendJoinFrame(mac, beaconEpoch);
      if !sent {
        return false;
      }
      acked := TakeJoinAck(mac, beaconEpoch);
    }

    /** The start of join(): a beacon, and its sender made a peer. */
    method MeetSubstation() returns (ok: bool, mac: Mac, beaconEpoch: U32)
      requires Valid() && now.pc.Looking?
      modifies this, uplink
      ensures Valid() && |old(read)| <= |read|
      ensures ok ==> now == Next(old(now), HearBeacon(mac, beaconEpoch, true)).value
      ensures !ok ==> now == End(old(now), GaveUp) && joined == old(joined)
    {
      ok, mac, beaconEpoch := WaitForBeacon();
      if !ok {
        Act(NoBeacon, frames);
        return;
      }
      ok := AddPeer(mac);
      Act(HearBeacon(mac, beaconEpoch, ok), frames);
    }

    /** The joining half of join(), for a node that is not joined. */
    method Discover() returns (ok: bool)
      requires Valid() && now.pc.Looking?
      modifies this, uplink
      ensures Valid() && |old(read)| <= |read|
      ensures ok ==> joined
      ensures ok ==>
        now == Ready(now.(pc := old(now.pc), last := old(now.last)), old(now.pc).goal, old(now.pc).tries)
      ensures !ok ==> now.pc == Resting && now.last == GaveUp && !joined
    {
      ghost var goal, tries := now.pc.goal, now.pc.tries;
      var met, mac, beaconEpoch := MeetSubstation();
      if !met {
        return false;
      }
      var attempt := 0;
      while attempt < JOIN_ATTEMPTS
        invariant attempt <= JOIN_ATTEMPTS && Valid() && |old(read)| <= |read|
        invariant now.pc == Asking(goal, tries, mac, beaconEpoch, attempt) && now.last == old(now.last)
      {
        var acked := AskToJoin(mac, beaconEpoch);
        if acked {
          return true;
        }
        attempt := attempt + 1;
      }
      RemovePeer(mac);
      Act(StopAsking, frames);
      return false;
    }

    /** join() */
    method Join() returns (ok: bool)
      requires Valid() && now.pc == Resting
      modifies this, uplink
      ensures Valid() && now.pc == Resting
      ensures ok <==> joined
      ensures peers == if joined then {substationMac} else {}
      ensures old(joined) ==> ok && uplink.sent == old(uplink.sent)
    {
      Act(StartJoin, frames);
      if joined {
        return true;
      }
      ok := Discover();
    }

    /** Sends the reading; a failed send forgets the substation. */
    method SendReadingFrame(p: Payload) returns (sent: bool)
      requires Valid() && now.pc.Sending? && now.pc.p == p
      modifies this, uplink`sent
      ensures Valid() && read == old(read)
      ensures sent ==> now == old(now).(pc := AwaitAck(p, old(now.pc).tries))
      ensures !sent ==> !joined && now == Attempt(Forget(old(now)), p, old(now.pc).tries + 1)
    {
      ghost var before := frames;
      sent := SendPacket(substationMac, DataMsg(p));
      if !sent {
        DropSubstation();
      }
      Act(SendReading(sent), before);
    }

    /** One round of send()'s loop, once joined: sends the reading and waits for its ACK. */
    method TryReading(p: Payload) returns (delivered: bool)
      requires Valid() && now.pc.Sending? && now.pc.p == p
      modifies this, uplink
      ensures Valid() && (if delivered then |old(read)| < |read| else |old(read)| <= |read|)
      ensures delivered ==> now.pc == Resting && joined && now.last == Done && EndsWithAck(p)
      ensures !delivered ==> !joined
      ensures !delivered ==>
        now == Attempt(now.(pc := old(now.pc), last := old(now.last)), p, old(now.pc).tries + 1)
    {
      var sent := SendReadingFrame(p);
      if !sent {
        return false;
      }
      delivered := WaitForDeliveryAck(p.sample.seqNo);
      if delivered {
        Act(HearAck(substationMac, AckPayload(uid, p.sample.seqNo)), frames);
      } else {
        DropSubstation();
        Act(NoAck, frames);
      }
    }

    /** The start of send(). */
    method StartSending(p: Payload)
      requires Valid() && now.pc == Resting
      modifies this, uplink`rxQueue
      ensures Valid() && now.last == old(now.last) && |old(read)| <= |read|
      ensures now == Attempt(now.(pc := Draining(p)), p, 0)
    {
      Act(StartSend(p), frames);
      DrainReceived();
      Act(Drained, frames);
    }

    /** send(): true once the substation acknowledged buffering the reading. */
    method Send(p: Payload) returns (ok: bool)
      requires Valid() && now.pc == Resting
      modifies this, uplink
      ensures Valid() && now.pc == Resting
      ensures ok ==> joined && now.last == Done && EndsWithAck(p) && |old(read)| < |read|
      ensures !ok ==> !joined && now.last == GaveUp
      ensures peers == if joined then {substationMac} else {}
    {
      StartSending(p);
      var attempt := 0;
      while attempt < SEND_ATTEMPTS
        invariant attempt <= SEND_ATTEMPTS && Valid() && |old(read)| <= |read|
        invariant now == Attempt(now.(pc := Draining(p), last := old(now.last)), p, attempt)
        invariant attempt == SEND_ATTEMPTS ==> !joined
      {
        if !joined {
          var found := Discover();
          if !found {
            return false;
          }
        }
        var delivered := TryReading(p);
        if delivered {
          return true;
        }
        attempt := attempt + 1;
      }
      return false;
    }
  }
}
