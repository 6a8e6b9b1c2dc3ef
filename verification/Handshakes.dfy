/** A node and a substation talking to each other: what one sends, as bytes, is what the
    other acts on. */
module Handshakes {
  import opened Wire
  import B = BufferSpec
  import L = LoRaSpec
  import E = EspNow
  import N = NodeSpec
  import S = StationSpec
  import Repeats
  import opened Substations

  /** The node after it has heard a frame, if it does anything with it now; adding the
      sender of a beacon succeeds. */
  function Takes(n: N.Node, from: Mac, data: seq<Byte>): Option<N.Node> {
    match Classify(data)
    case LinkMsg(l) =>
      (match l.kind
       case Beacon => N.Next(n, N.HearBeacon(from, l.epoch, true))
       case JoinAck => N.Next(n, N.HearJoinAck(from, l.epoch, l.uid))
       case Join => None)
    case AckMsg(a) => N.Next(n, N.HearAck(from, a))
    case _ => None
  }

  /** Some frame of an outbox, heard by this MAC, takes the node to such a state. */
  ghost predicate Answered(n: N.Node, mac: Mac, sub: Mac, out: Outbox, to: N.Node) {
    exists k :: 0 <= k < |out| && out[k].0 == mac && Takes(n, sub, out[k].1) == Some(to)
  }

  ghost predicate AnsweredAtAll(n: N.Node, mac: Mac, sub: Mac, out: Outbox) {
    exists to :: Answered(n, mac, sub, out, to)
  }

  lemma {:induction false} OneAnswer(n: N.Node, mac: Mac, sub: Mac, f: Frame)
    requires !f.Junk?
    ensures Classify(Encode(f)) == f
    ensures AnsweredAtAll(n, mac, sub, [(mac, Encode(f))]) <==> Takes(n, sub, Encode(f)).Some?
    ensures Takes(n, sub, Encode(f)).Some? ==>
      Answered(n, mac, sub, [(mac, Encode(f))], Takes(n, sub, Encode(f)).value)
  {
    ClassifyInvertsEncode(f);
    var out := [(mac, Encode(f))];
    if Takes(n, sub, Encode(f)).Some? {
      assert out[0].0 == mac;
      assert Answered(n, mac, sub, out, Takes(n, sub, Encode(f)).value);
    }
  }

  /** A free place in the table, or one of its own. */
  predicate Room(s: S.Station, mac: Mac) { S.HasJoined(s, mac) || |s.joined| < B.MAX_NODES }

  /** The node that asked and has been let in. */
  function LetIn(n: N.Node): N.Node
    requires n.pc.Asking?
  {
    N.Ready(n.(joined := true, sub := n.pc.mac, epoch := n.pc.heard), n.pc.goal, n.pc.tries)
  }

  /** A Join is answered so that the node it came from is joined, if and only if it names
      the substation's epoch, the MAC has a place and the radio adds it; whenever the first
      two hold it is in the table with its UID. */
  lemma {:induction false} JoinIsAnsweredIff(n: N.Node, s: S.Station, c: L.Config, mac: Mac, sub: Mac,
                                             adds: Mac -> bool)
    requires n.pc.Asking? && n.pc.asked < N.JOIN_ATTEMPTS && n.pc.mac == sub && S.Valid(s, c)
    ensures var sent, asking := N.Emits(n, N.SendJoin(true)), N.Next(n, N.SendJoin(true));
      && |sent| == 1 && sent[0].0 == sub && !sent[0].1.Junk? && asking.Some?
      && var (s', out) := Handle(s, E.Rx(mac, Encode(sent[0].1)), adds);
        && (AnsweredAtAll(asking.value, mac, sub, out) <==> n.pc.heard == s.epoch && Room(s, mac) && adds(mac))
        && (AnsweredAtAll(asking.value, mac, sub, out) ==> Answered(asking.value, mac, sub, out, LetIn(n)))
        && (if n.pc.heard == s.epoch && Room(s, mac)
            then S.HasJoined(s', mac) && Repeats.UidOf(s', mac) == n.uid else s' == s)
  {
    JoinHandled(s, mac, n.pc.heard, n.uid, adds);
    OneAnswer(N.Next(n, N.SendJoin(true)).value, mac, sub, LinkMsg(LinkFrame(JoinAck, s.epoch, n.uid)));
    TableAfterJoin(s, c, mac, n.pc.heard, n.uid, adds(mac));
  }

  lemma {:induction false} TableAfterJoin(s: S.Station, c: L.Config, mac: Mac, epoch: U32, uid: Uid, peerOk: bool)
    requires S.Valid(s, c)
    ensures var s' := S.HandleJoin(s, mac, epoch, uid, peerOk).0;
      if epoch == s.epoch && Room(s, mac) then S.HasJoined(s', mac) && Repeats.UidOf(s', mac) == uid else s' == s
  {
    S.NextValid(s, c, S.JoinFrame(mac, epoch, uid, peerOk));
    var s' := S.HandleJoin(s, mac, epoch, uid, peerOk).0;
    var k := S.FindJoined(s.joined, mac, 0);
    if epoch == s.epoch && Room(s, mac) {
      assert s'.joined[k].mac == mac;
      S.FindsEach(s'.joined, k);
    }
  }

  /** Its UID is in the buffer already, or there is a free slot. */
  predicate Fits(b: B.Buffer, uid: Uid) { uid in B.View(b) || |B.View(b)| < B.MAX_NODES }

  lemma {:induction false} FitsIff(b: B.Buffer, uid: Uid)
    requires B.Valid(b)
    ensures B.Accepts(b, uid) <==> Fits(b, uid)
  {
    B.HoldersSize(b.slots, 0);
    B.CountHeldFull(b.slots, 0);
    B.InHolders(b.slots, uid, 0);
    assert B.View(b).Keys == B.Holders(b);
  }

  predicate Again(s: S.Station, mac: Mac, p: Payload) { Repeats.LastOf(s, mac) == Some(p.sample.seqNo) }

  /** Joined, and a repeat of the last number or with room in the buffer. */
  predicate Welcome(s: S.Station, mac: Mac, p: Payload) {
    S.HasJoined(s, mac) && (Again(s, mac, p) || Fits(s.buffer, p.uid))
  }

  /** What a substation does with a reading. */
  lemma {:induction false} ReadingTaken(s: S.Station, c: L.Config, mac: Mac, p: Payload)
    requires S.Valid(s, c)
    ensures var (s', ack) := S.HandleReading(s, mac, p);
      && ack == (if Welcome(s, mac, p) then Some(AckPayload(p.uid, p.sample.seqNo)) else None)
      && (Welcome(s, mac, p) && !Again(s, mac, p) ==>
            && Again(s', mac, p)
            && B.View(s'.buffer) == B.View(s.buffer)[p.uid := B.BoundedAppend(B.QueueOf(s.buffer, p.uid), p.sample)])
      && (!Welcome(s, mac, p) || Again(s, mac, p) ==> s' == s)
  {
    FitsIff(s.buffer, p.uid);
    B.PushRefinesMap(s.buffer, p);
    Repeats.MarkStep(s, c, S.ReadingFrame(mac, p), mac);
  }

  /** What it makes of one on the air, and what it sends back. */
  lemma {:induction false} ReadingHandled(s: S.Station, mac: Mac, p: Payload, adds: Mac -> bool)
    ensures Handle(s, E.Rx(mac, Encode(DataMsg(p))), adds).0 == S.HandleReading(s, mac, p).0
    ensures Handle(s, E.Rx(mac, Encode(DataMsg(p))), adds).1 ==
      match S.HandleReading(s, mac, p).1 case None => [] case Some(a) => [(mac, Encode(AckMsg(a)))]
  {
    ClassifyInvertsEncode(DataMsg(p));
  }

  /** And of a Join. */
  lemma {:induction false} JoinHandled(s: S.Station, mac: Mac, epoch: U32, uid: Uid, adds: Mac -> bool)
    ensures var f := Encode(LinkMsg(LinkFrame(Join, epoch, uid)));
      Handle(s, E.Rx(mac, f), adds).0 == S.HandleJoin(s, mac, epoch, uid, adds(mac)).0
    ensures Handle(s, E.Rx(mac, Encode(LinkMsg(LinkFrame(Join, epoch, uid)))), adds).1 ==
      match S.HandleJoin(s, mac, epoch, uid, adds(mac)).1 case None => [] case Some(l) => [(mac, Encode(LinkMsg(l)))]
  {
    ClassifyInvertsEncode(LinkMsg(LinkFrame(Join, epoch, uid)));
  }

  /** A reading is answered so that its send() ends, if and only if its MAC is joined and
      the reading repeats the last number remembered or there is room for it. */
  lemma {:induction false} ReadingIsAnsweredIff(n: N.Node, s: S.Station, c: L.Config, mac: Mac, sub: Mac,
                                                adds: Mac -> bool)
    requires n.pc.Sending? && n.sub == sub && n.pc.p.uid == n.uid && S.Valid(s, c)
    ensures var sent, waiting := N.Emits(n, N.SendReading(true)), N.Next(n, N.SendReading(true));
      && sent == [(sub, DataMsg(n.pc.p))] && waiting.Some?
      && var out := Handle(s, E.Rx(mac, Encode(DataMsg(n.pc.p))), adds).1;
        && (AnsweredAtAll(waiting.value, mac, sub, out) <==> Welcome(s, mac, n.pc.p))
        && (Welcome(s, mac, n.pc.p) ==> Answered(waiting.value, mac, sub, out, N.End(n, N.Done)))
  {
    ReadingTaken(s, c, mac, n.pc.p);
    ReadingHandled(s, mac, n.pc.p, adds);
    if Welcome(s, mac, n.pc.p) {
      AckTaken(n, mac, sub);
    }
  }

  lemma {:induction false} AckTaken(n: N.Node, mac: Mac, sub: Mac)
    requires n.pc.Sending? && n.sub == sub && n.pc.p.uid == n.uid
    ensures var waiting, ack := N.Next(n, N.SendReading(true)).value, AckMsg(AckPayload(n.uid, n.pc.p.sample.seqNo));
      && Answered(waiting, mac, sub, [(mac, Encode(ack))], N.End(n, N.Done))
      && AnsweredAtAll(waiting, mac, sub, [(mac, Encode(ack))])
  {
    OneAnswer(N.Next(n, N.SendReading(true)).value, mac, sub, AckMsg(AckPayload(n.uid, n.pc.p.sample.seqNo)));
  }

  /** A beacon as sent by the substation starts a node asking for this epoch. */
  lemma {:induction false} BeaconIsHeard(n: N.Node, sub: Mac, epoch: U32)
    requires n.pc.Looking?
    ensures Takes(n, sub, Encode(LinkMsg(LinkFrame(Beacon, epoch, 0)))) ==
      Some(n.(peers := n.peers + {sub}, pc := N.Asking(n.pc.goal, n.pc.tries, sub, epoch, 0)))
  {
    ClassifyInvertsEncode(LinkMsg(LinkFrame(Beacon, epoch, 0)));
  }

  /** The acts of a send() that meets its substation at once and loses nothing. */
  function Delivery(p: Payload, sub: Mac, epoch: U32): seq<N.Act> {
    [N.StartSend(p), N.Drained, N.HearBeacon(sub, epoch, true), N.SendJoin(true), N.HearJoinAck(sub, epoch, p.uid),
     N.SendReading(true), N.HearAck(sub, AckPayload(p.uid, p.sample.seqNo))]
  }

  lemma {:induction false} RunOne(n: N.Node, a: N.Act, acts: seq<N.Act>)
    requires N.Next(n, a).Some?
    ensures N.Run(n, [a] + acts) == N.Run(N.Next(n, a).value, acts)
    ensures N.Emitted(n, [a] + acts) == N.Emits(n, a) + N.Emitted(N.Next(n, a).value, acts)
  {
    assert ([a] + acts)[1..] == acts;
  }

  lemma {:induction false} RunTwo(n: N.Node, a: N.Act, b: N.Act, acts: seq<N.Act>, n1: N.Node, n2: N.Node)
    requires N.Next(n, a) == Some(n1) && N.Next(n1, b) == Some(n2)
    ensures N.Run(n, [a, b] + acts) == N.Run(n2, acts)
    ensures N.Emitted(n, [a, b] + acts) == N.Emits(n, a) + N.Emits(n1, b) + N.Emitted(n2, acts)
  {
    RunOne(n, a, [b] + acts);
    RunOne(n1, b, acts);
    assert [a] + ([b] + acts) == [a, b] + acts;
  }

  /** Such a send() is a run of the node, puts exactly a Join and the reading on the air,
      and ends joined and done. */
  lemma {:induction false} DeliveryRuns(uid: Uid, p: Payload, sub: Mac, epoch: U32)
    requires p.uid == uid
    ensures N.Run(N.Fresh(uid), Delivery(p, sub, epoch)) ==
      Some(N.Node(uid, true, sub, epoch, {sub}, N.Resting, N.Done))
    ensures N.Emitted(N.Fresh(uid), Delivery(p, sub, epoch)) ==
      [(sub, LinkMsg(LinkFrame(Join, epoch, uid))), (sub, DataMsg(p))]
  {
    var d := Delivery(p, sub, epoch);
    var n := N.Fresh(uid);
    var asking := N.Node(uid, false, 0, 0, {} + {sub}, N.Asking(Some(p), 0, sub, epoch, 0), N.Nothing);
    RunTwo(n, d[0], d[1], d[2..], n.(pc := N.Draining(p)), n.(pc := N.Looking(Some(p), 0)));
    RunOne(n.(pc := N.Looking(Some(p), 0)), d[2], d[3..]);
    DeliversOn(asking, p, sub, epoch);
    assert d == [d[0], d[1]] + d[2..] && d[2..] == [d[2]] + d[3..];
    assert {} + {sub} == {sub};
  }

  lemma {:induction false} DeliversOn(asking: N.Node, p: Payload, sub: Mac, epoch: U32)
    requires asking.uid == p.uid && asking.pc == N.Asking(Some(p), 0, sub, epoch, 0)
    ensures var acts := [N.SendJoin(true), N.HearJoinAck(sub, epoch, p.uid), N.SendReading(true),
                         N.HearAck(sub, AckPayload(p.uid, p.sample.seqNo))];
      && N.Run(asking, acts)
           == Some(asking.(joined := true, sub := sub, epoch := epoch, pc := N.Resting, last := N.Done))
      && N.Emitted(asking, acts) == [(sub, LinkMsg(LinkFrame(Join, epoch, p.uid))), (sub, DataMsg(p))]
  {
    var sending := asking.(joined := true, sub := sub, epoch := epoch, pc := N.Sending(p, 0));
    var read, ack := N.SendReading(true), N.HearAck(sub, AckPayload(p.uid, p.sample.seqNo));
    RunTwo(asking, N.SendJoin(true), N.HearJoinAck(sub, epoch, p.uid), [read, ack],
           asking.(pc := N.AwaitJoin(Some(p), 0, sub, epoch, 0)), sending);
    RunTwo(sending, read, ack, [], sending.(pc := N.AwaitAck(p, 0)), N.End(sending, N.Done));
    assert [read, ack] + [] == [read, ack];
    assert [N.SendJoin(true), N.HearJoinAck(sub, epoch, p.uid)] + [read, ack]
        == [N.SendJoin(true), N.HearJoinAck(sub, epoch, p.uid), read, ack];
  }

  /** And a freshly booted substation answers those two frames with the JoinAck and the ACK
      the node waits for, and then holds exactly that reading. */
  lemma {:induction false} DeliveryIsAnswered(c: L.Config, epoch: U32, mac: Mac, p: Payload, adds: Mac -> bool)
    requires adds(mac)
    ensures var r := HandleAll(S.Boot(epoch), [E.Rx(mac, Encode(LinkMsg(LinkFrame(Join, epoch, p.uid)))),
                                               E.Rx(mac, Encode(DataMsg(p)))], adds);
      && r.1 == [(mac, Encode(LinkMsg(LinkFrame(JoinAck, epoch, p.uid)))),
                 (mac, Encode(AckMsg(AckPayload(p.uid, p.sample.seqNo))))]
      && B.View(r.0.buffer) == map[p.uid := [p.sample]]
  {
    var s0 := S.Boot(epoch);
    var s1 := S.HandleJoin(s0, mac, epoch, p.uid, true).0;
    JoinHandled(s0, mac, epoch, p.uid, adds);
    ReadingHandled(s1, mac, p, adds);
    BootServes(c, epoch, mac, p);
    TwoFrames(s0, E.Rx(mac, Encode(LinkMsg(LinkFrame(Join, epoch, p.uid)))), E.Rx(mac, Encode(DataMsg(p))), adds);
  }

  lemma {:induction false} HandleCons(s: S.Station, f: E.Rx, rest: seq<E.Rx>, adds: Mac -> bool)
    ensures var one, all := Handle(s, f, adds), HandleAll(s, [f] + rest, adds);
      all.0 == HandleAll(one.0, rest, adds).0 && all.1 == one.1 + HandleAll(one.0, rest, adds).1
  {
    assert ([f] + rest)[0] == f && ([f] + rest)[1..] == rest;
  }

  lemma {:induction false} TwoFrames(s: S.Station, f: E.Rx, g: E.Rx, adds: Mac -> bool)
    ensures var one := Handle(s, f, adds);
      && HandleAll(s, [f, g], adds).0 == Handle(one.0, g, adds).0
      && HandleAll(s, [f, g], adds).1 == one.1 + Handle(one.0, g, adds).1
  {
    HandleCons(s, f, [g], adds);
    HandleCons(Handle(s, f, adds).0, g, [], adds);
    assert [f] + [g] == [f, g] && [g] + [] == [g];
  }

  /** A Join and a reading after boot. */
  lemma {:induction false} BootServes(c: L.Config, epoch: U32, mac: Mac, p: Payload)
    ensures var s0 := S.Boot(epoch);
      var (s1, joinAck) := S.HandleJoin(s0, mac, epoch, p.uid, true);
      var (s2, ack) := S.HandleReading(s1, mac, p);
      && joinAck == Some(LinkFrame(JoinAck, epoch, p.uid)) && ack == Some(AckPayload(p.uid, p.sample.seqNo))
      && B.View(s2.buffer) == map[p.uid := [p.sample]]
  {
    var s1 := S.HandleJoin(S.Boot(epoch), mac, epoch, p.uid, true).0;
    S.NextValid(S.Boot(epoch), c, S.JoinFrame(mac, epoch, p.uid, true));
    assert s1 == S.Boot(epoch).(joined := [S.JoinedNode(mac, p.uid, 0, false)]);
    EmptyView();
    ReadingTaken(s1, c, mac, p);
    assert B.BoundedAppend([], p.sample) == [p.sample];
  }

  lemma {:induction false} EmptyView()
    ensures B.Valid(B.Empty) && B.View(B.Empty) == map[]
    ensures forall uid: Uid :: B.QueueOf(B.Empty, uid) == []
  {
    B.HoldersEmpty(B.Empty.slots, 0);
  }

  /** A substation acts on Joins and readings alone. */
  lemma {:induction false} OthersAreIgnored(s: S.Station, f: E.Rx, adds: Mac -> bool)
    ensures (forall epoch, uid :: f.data != Encode(LinkMsg(LinkFrame(Join, epoch, uid)))) && |f.data| != 35
      ==> Handle(s, f, adds) == (s, [])
  {
    if LinkFrameParse(f.data).Some? {
      LinkFrameParseExact(f.data, LinkFrameParse(f.data).value);
    }
  }
}
