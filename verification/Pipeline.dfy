/** The whole store-and-forward network: meter nodes, substations and the gateway over
    links that lose, delay, reorder and repeat frames but never forge them. */
module Pipeline {
  import opened Wire
  import B = BufferSpec
  import R = BufferRuns
  import L = LoRaSpec
  import S = StationSpec
  import SR = StationRuns
  import N = NodeSpec
  import G = GatewaySpec

  /** An ESP-NOW frame once sent. It may be heard any number of times, or never. `boot`
      is the sender's epoch when it is a substation. */
  datatype Sent = Sent(src: Mac, dst: Mac, frame: Frame, boot: U32)

  /** A meter node with its persistent sequence counter. */
  datatype Meter = Meter(node: N.Node, seqNo: U32)

  /** A substation, what went through its buffer since boot, and its epochs so far. */
  datatype Site = Site(station: S.Station, log: R.Log, boots: set<U32>)

  /** A node-side send() that returned success. */
  datatype Delivery = Delivery(reading: Reading, sub: Mac, boot: U32)

  datatype System = System(
    meters: map<Mac, Meter>, sites: map<Mac, Site>, gateway: G.Gateway,
    air: set<Sent>,             // every ESP-NOW frame sent
    lora: set<Payload>,         // every Payload sent over LoRa
    acks: set<AckPayload>,      // every ACK the gateway sent
    readings: set<Reading>,     // every reading measured
    delivered: set<Delivery>)

  datatype Step =
    | Measure(m: Mac, kwhImport: U32, kwhExport: U32, voltage: U32, ids: Ids)
    | MeterActs(m: Mac, act: N.Act, heard: Option<Sent>)
    | MeterReboots(m: Mac)
    | StationBeacons(s: Mac, now: U32, after: U32)
    | StationHears(s: Mac, h: Sent, peerOk: bool)
    | StationRelays(s: Mac, i: L.Poll, begun: U32)
    | StationReboots(s: Mac, epoch: U32)
    | GatewayActs(step: G.Step)

  const BROADCAST: Mac := 0xFFFF_FFFF_FFFF

  // -------------------------------------------------------------------- steps

  /** The frame a node acts on is one that was sent, to it or to everyone. */
  ghost predicate HeardFor(m: Mac, a: N.Act, heard: Option<Sent>, air: set<Sent>) {
    match a
    case Drain(from, f) =>
      heard.Some? && heard.value in air && heard.value.src == from && heard.value.frame == LinkMsg(f)
    case HearBeacon(from, e, _) =>
      && heard.Some? && heard.value in air && heard.value.src == from
      && heard.value.frame.LinkMsg? && heard.value.frame.link.kind == Beacon && heard.value.frame.link.epoch == e
    case HearJoinAck(from, e, uid) =>
      && heard.Some? && heard.value in air && heard.value.src == from && heard.value.dst == m
      && heard.value.frame == LinkMsg(LinkFrame(JoinAck, e, uid))
    case HearAck(from, ack) =>
      && heard.Some? && heard.value in air && heard.value.src == from && heard.value.dst == m
      && heard.value.frame == AckMsg(ack)
    case _ => true
  }

  ghost predicate Enabled(sys: System, step: Step) {
    match step
    case Measure(m, _, _, _, _) =>
      m in sys.meters && sys.meters[m].node.pc == N.Resting && sys.meters[m].seqNo < 0xFFFF_FFFF
    case MeterActs(m, a, heard) =>
      m in sys.meters && !a.StartSend? && N.Next(sys.meters[m].node, a).Some? && HeardFor(m, a, heard, sys.air)
    case MeterReboots(m) => m in sys.meters
    case StationBeacons(s, _, _) => s in sys.sites
    case StationHears(s, h, _) => s in sys.sites && h in sys.air && h.dst == s
    case StationRelays(s, i, _) => s in sys.sites && (i.heard.Some? ==> i.heard.value in sys.acks)
    // a boot picks an epoch this substation has not used before
    case StationReboots(s, epoch) => s in sys.sites && epoch !in sys.sites[s].boots
    case GatewayActs(g) => g.RxStep? && g.arrival.Some? ==> g.arrival.value.payload in sys.lora
  }

  function Measured(uid: Uid, seqNo: U32, step: Step): Payload
    requires step.Measure?
  {
    Payload(uid, Sample(seqNo, step.kwhImport, step.kwhExport, step.voltage), step.ids)
  }

  function ToAir(src: Mac, boot: U32, out: seq<(Mac, Frame)>): set<Sent> {
    if out == [] then {} else {Sent(src, out[0].0, out[0].1, boot)} + ToAir(src, boot, out[1..])
  }

  /** A substation's event for a frame it hears; readings and Joins only. */
  function EventOf(heard: Sent, peerOk: bool): Option<S.Event> {
    match heard.frame
    case LinkMsg(l) => if l.kind == Join then Some(S.JoinFrame(heard.src, l.epoch, l.uid, peerOk)) else None
    case DataMsg(p) => Some(S.ReadingFrame(heard.src, p))
    case _ => None
  }

  /** What a substation answers to an event. */
  function Answers(st: S.Station, e: S.Event): seq<(Mac, Frame)> {
    match e
    case JoinFrame(mac, epoch, uid, peerOk) =>
      (match S.HandleJoin(st, mac, epoch, uid, peerOk).1 case None => [] case Some(l) => [(mac, LinkMsg(l))])
    case ReadingFrame(mac, p) =>
      (match S.HandleReading(st, mac, p).1 case None => [] case Some(a) => [(mac, AckMsg(a))])
    case BeaconPass(now, after) =>
      if S.BeaconIfDue(st, now, after).1 then [(BROADCAST, LinkMsg(LinkFrame(Beacon, st.epoch, 0)))] else []
    case Relay(_, _) => []
  }

  /** A substation handles an event, its log kept up to date. */
  function SiteNext(x: Site, c: L.Config, e: S.Event): Site
    requires S.Valid(x.station, c)
  {
    Site(S.Next(x.station, c, e), SR.Record(x.station, c, e, x.log), x.boots)
  }

  ghost predicate SitesValid(sys: System, c: L.Config) {
    forall s :: s in sys.sites ==> S.Valid(sys.sites[s].station, c)
  }

  function StationEvent(sys: System, c: L.Config, s: Mac, e: S.Event): System
    requires SitesValid(sys, c) && s in sys.sites
  {
    var x := sys.sites[s];
    sys.(sites := sys.sites[s := SiteNext(x, c, e)],
         air := sys.air + ToAir(s, x.station.epoch, Answers(x.station, e)),
         lora := sys.lora + if e.Relay? && x.station.link.phase == L.Transmit then {x.station.link.pending} else {})
  }

  function Next(sys: System, c: L.Config, step: Step): System
    requires SitesValid(sys, c) && Enabled(sys, step)
  {
    match step
    case Measure(m, _, _, _, _) =>
      var x := sys.meters[m];
      var p := Measured(x.node.uid, x.seqNo + 1, step);
      sys.(meters := sys.meters[m := Meter(N.Next(x.node, N.StartSend(p)).value, x.seqNo + 1)],
           readings := sys.readings + {p.ToReading()})
    case MeterActs(m, a, heard) =>
      var x := sys.meters[m];
      sys.(meters := sys.meters[m := x.(node := N.Next(x.node, a).value)],
           air := sys.air + ToAir(m, 0, N.Emits(x.node, a)),
           delivered := sys.delivered
             + if a.HearAck? then {Delivery(x.node.pc.p.ToReading(), a.from, heard.value.boot)} else {})
    case MeterReboots(m) =>
      sys.(meters := sys.meters[m := sys.meters[m].(node := N.Fresh(sys.meters[m].node.uid))])
    case StationBeacons(s, now, after) => StationEvent(sys, c, s, S.BeaconPass(now, after))
    case StationHears(s, h, peerOk) =>
      (match EventOf(h, peerOk) case None => sys case Some(e) => StationEvent(sys, c, s, e))
    case StationRelays(s, i, begun) => StationEvent(sys, c, s, S.Relay(i, begun))
    case StationReboots(s, epoch) =>
      sys.(sites := sys.sites[s := Site(S.Boot(epoch), R.NoLog, sys.sites[s].boots + {epoch})])
    case GatewayActs(g) =>
      sys.(gateway := G.Next(sys.gateway, g),
           acks := sys.acks + if g.RxStep? && g.arrival.Some? && sys.gateway.rx.RxCleared?
                              then {g.arrival.value.payload.ToReading().Key()} else {})
  }

  // --------------------------------------------------------------- invariant

  /** No two readings share a UID and sequence number. */
  ghost predicate Unique(readings: set<Reading>) {
    forall r, q :: r in readings && q in readings && r.Key() == q.Key() ==> r == q
  }

  /** The substation accepted a reading with this UID and sequence number. */
  ghost predicate Accepted(x: Site, a: AckPayload) {
    exists r :: r in x.log.pushed && r.Key() == a
  }

  /** x became y: within a boot nothing is forgotten, and a new boot has a new epoch. */
  ghost predicate Grows(x: Site, y: Site) {
    && x.boots <= y.boots
    && (y.station.epoch == x.station.epoch ==>
          && (forall r :: r in x.log.pushed ==> r in y.log.pushed)
          && (forall m :: S.HasJoined(x.station, m) ==> S.HasJoined(y.station, m)))
    && (y.station.epoch != x.station.epoch ==> y.station.epoch !in x.boots)
  }

  /** What a frame on the air vouches for. */
  ghost predicate FrameOk(h: Sent, sys: System) {
    match h.frame
    case DataMsg(p) => h.src in sys.meters && p.uid == sys.meters[h.src].node.uid && p.ToReading() in sys.readings
    case AckMsg(a) =>
      && h.src in sys.sites && h.boot in sys.sites[h.src].boots
      && (h.boot == sys.sites[h.src].station.epoch ==> Accepted(sys.sites[h.src], a))
    case LinkMsg(l) =>
      (match l.kind
       case Beacon => true
       case Join => h.src in sys.meters
       case JoinAck =>
         && h.src in sys.sites && l.epoch in sys.sites[h.src].boots
         && (l.epoch == sys.sites[h.src].station.epoch ==> S.HasJoined(sys.sites[h.src].station, h.dst)))
    case Junk => true
  }

  /** The reading a node is sending. */
  ghost predicate GoalOk(n: N.Node, readings: set<Reading>) {
    match n.pc
    case Draining(p) => p.uid == n.uid && p.ToReading() in readings
    case Looking(g, _) => g.Some? ==> g.value.uid == n.uid && g.value.ToReading() in readings
    case Asking(g, _, _, _, _) => g.Some? ==> g.value.uid == n.uid && g.value.ToReading() in readings
    case AwaitJoin(g, _, _, _, _) => g.Some? ==> g.value.uid == n.uid && g.value.ToReading() in readings
    case Sending(p, _) => p.uid == n.uid && p.ToReading() in readings
    case AwaitAck(p, _) => p.uid == n.uid && p.ToReading() in readings
    case Resting => true
  }

  /** A node that believes it is joined to a substation's current boot is in its table. */
  ghost predicate JoinAgrees(m: Mac, n: N.Node, sites: map<Mac, Site>) {
    n.joined ==>
      && n.sub in sites && n.epoch in sites[n.sub].boots
      && (n.epoch == sites[n.sub].station.epoch ==> S.HasJoined(sites[n.sub].station, m))
  }

  ghost predicate MeterOk(m: Mac, sys: System) {
    m in sys.meters ==>
      && GoalOk(sys.meters[m].node, sys.readings)
      && JoinAgrees(m, sys.meters[m].node, sys.sites)
      && (forall r :: r in sys.readings && r.uid == sys.meters[m].node.uid ==> r.sample.seqNo <= sys.meters[m].seqNo)
  }

  /** A table entry with a last number stands for a reading accepted from that node. */
  ghost predicate EntryOk(n: S.JoinedNode, x: Site, sys: System) {
    && n.mac in sys.meters
    && (n.hasSeq ==> Accepted(x, AckPayload(sys.meters[n.mac].node.uid, n.lastSeq)))
  }

  ghost predicate SiteOk(x: Site, sys: System, c: L.Config) {
    && S.Valid(x.station, c) && R.Balanced(x.station.buffer, x.log)
    && x.station.epoch in x.boots
    && (forall r :: r in x.log.pushed ==> r in sys.readings)
    && SR.RemovedWereAcked(x.log, sys.acks)
    && (forall k :: 0 <= k < |x.station.joined| ==> EntryOk(x.station.joined[k], x, sys))
    && (x.station.link.phase != L.Idle ==> x.station.link.pending.ToReading() in sys.readings)
  }

  ghost predicate DeliveryOk(d: Delivery, sys: System) {
    && d.sub in sys.sites && d.boot in sys.sites[d.sub].boots && d.reading in sys.readings
    && (d.boot == sys.sites[d.sub].station.epoch ==> d.reading in sys.sites[d.sub].log.pushed)
  }

  /** The gateway acknowledged it only after taking a Payload that was really sent. */
  ghost predicate AckOk(a: AckPayload, sys: System) {
    exists item :: item in sys.gateway.log.accepted && item.payload.ToReading().Key() == a
  }

  ghost predicate DistinctUids(meters: map<Mac, Meter>) {
    forall m, n :: m in meters && n in meters && meters[m].node.uid == meters[n].node.uid ==> m == n
  }

  ghost predicate Inv(sys: System, c: L.Config) {
    && DistinctUids(sys.meters) && Unique(sys.readings)
    && (forall m :: MeterOk(m, sys))
    && (forall s :: s in sys.sites ==> SiteOk(sys.sites[s], sys, c))
    && (forall h :: h in sys.air ==> FrameOk(h, sys))
    && (forall p :: p in sys.lora ==> p.ToReading() in sys.readings)
    && G.Inv(sys.gateway)
    && (forall item :: item in sys.gateway.log.accepted ==> item.payload in sys.lora)
    && (forall a :: a in sys.acks ==> AckOk(a, sys))
    && (forall d :: d in sys.delivered ==> DeliveryOk(d, sys))
  }

  // ------------------------------------------------- what every step keeps or extends

  /** The parts of the state that facts refer to only ever grow. */
  ghost predicate SysGrows(a: System, b: System) {
    && a.meters.Keys == b.meters.Keys && a.sites.Keys == b.sites.Keys
    && (forall m :: m in a.meters ==> b.meters[m].node.uid == a.meters[m].node.uid)
    && (forall s :: s in a.sites ==> Grows(a.sites[s], b.sites[s]))
    && a.readings <= b.readings && a.acks <= b.acks && a.lora <= b.lora
    && (forall item :: item in a.gateway.log.accepted ==> item in b.gateway.log.accepted)
  }

  lemma {:induction false} AcceptedGrows(x: Site, y: Site, a: AckPayload)
    requires Grows(x, y) && x.station.epoch == y.station.epoch && Accepted(x, a)
    ensures Accepted(y, a)
  {
    var r :| r in x.log.pushed && r.Key() == a;
    assert r in y.log.pushed;
  }

  lemma {:induction false} FrameGrows(h: Sent, a: System, b: System)
    requires SysGrows(a, b) && FrameOk(h, a)
    ensures FrameOk(h, b)
  {
    if h.frame.AckMsg? && h.boot == b.sites[h.src].station.epoch {
      assert Grows(a.sites[h.src], b.sites[h.src]);
      AcceptedGrows(a.sites[h.src], b.sites[h.src], h.frame.ack);
    }
    if h.frame.LinkMsg? && h.frame.link.kind == JoinAck {
      assert Grows(a.sites[h.src], b.sites[h.src]);
    }
  }

  lemma {:induction false} DeliveryGrows(d: Delivery, a: System, b: System)
    requires SysGrows(a, b) && DeliveryOk(d, a)
    ensures DeliveryOk(d, b)
  {
    assert Grows(a.sites[d.sub], b.sites[d.sub]);
  }

  lemma {:induction false} JoinGrows(m: Mac, n: N.Node, a: System, b: System)
    requires SysGrows(a, b) && JoinAgrees(m, n, a.sites)
    ensures JoinAgrees(m, n, b.sites)
  {
    if n.joined {
      assert Grows(a.sites[n.sub], b.sites[n.sub]);
    }
  }

  lemma {:induction false} AckGrows(k: AckPayload, a: System, b: System)
    requires SysGrows(a, b) && AckOk(k, a)
    ensures AckOk(k, b)
  {
    var item :| item in a.gateway.log.accepted && item.payload.ToReading().Key() == k;
    assert item in b.gateway.log.accepted;
  }

  /** A substation no step touched. */
  lemma {:induction false} SiteCarries(x: Site, a: System, b: System, c: L.Config)
    requires SysGrows(a, b) && SiteOk(x, a, c)
    ensures SiteOk(x, b, c)
  {
    forall k | 0 <= k < |x.station.joined| ensures EntryOk(x.station.joined[k], x, b) {
      assert EntryOk(x.station.joined[k], x, a);
    }
  }

  lemma {:induction false} GrowsRefl(x: Site)
    ensures Grows(x, x)
  {}

  // ------------------------------------------------------------ substation steps

  /** Nothing a substation does within a boot makes it forget. */
  lemma {:induction false} SiteNextGrows(x: Site, c: L.Config, e: S.Event)
    requires S.Valid(x.station, c)
    ensures Grows(x, SiteNext(x, c, e))
    ensures SiteNext(x, c, e).station.epoch == x.station.epoch
  {
    var y := SiteNext(x, c, e);
    forall m | S.HasJoined(x.station, m) ensures S.HasJoined(y.station, m) {
      var k := S.FindJoined(x.station.joined, m, 0);
      S.NextValid(x.station, c, e);
      assert y.station.joined[k].mac == m;
    }
  }

  /** The event is one the network can produce. */
  ghost predicate EventOk(e: S.Event, sys: System) {
    match e
    case JoinFrame(mac, _, _, _) => mac in sys.meters
    case ReadingFrame(mac, p) =>
      mac in sys.meters && p.uid == sys.meters[mac].node.uid && p.ToReading() in sys.readings
    case Relay(i, _) => i.heard.Some? ==> i.heard.value in sys.acks
    case BeaconPass(_, _) => true
  }

  /** A number the table holds for a MAC was there before the step, or is that of the
      reading the step accepted or re-acknowledged. */
  lemma {:induction false} EntryAfter(x: Site, c: L.Config, e: S.Event, k: nat, sys: System)
    requires SiteOk(x, sys, c) && EventOk(e, sys) && k < |SiteNext(x, c, e).station.joined|
    ensures EntryOk(SiteNext(x, c, e).station.joined[k], SiteNext(x, c, e), sys)
  {
    var y := SiteNext(x, c, e);
    SiteNextGrows(x, c, e);
    var n := y.station.joined[k];
    if k < |x.station.joined| {
      assert EntryOk(x.station.joined[k], x, sys);
      if n.hasSeq && x.station.joined[k].hasSeq && n.lastSeq == x.station.joined[k].lastSeq {
        AcceptedGrows(x, y, AckPayload(sys.meters[n.mac].node.uid, n.lastSeq));
      }
    }
    if e.ReadingFrame? && S.Buffers(x.station, e.mac, e.p) {
      assert y.log.pushed[|y.log.pushed| - 1] == e.p.ToReading();
    }
  }

  /** The reading in flight is one that was accepted. */
  lemma {:induction false} InFlightAfter(x: Site, c: L.Config, e: S.Event, sys: System)
    requires SiteOk(x, sys, c) && EventOk(e, sys)
    ensures var st := SiteNext(x, c, e).station;
      st.link.phase != L.Idle ==> st.link.pending.ToReading() in sys.readings
  {
    if e.Relay? {
      L.StepKeeps(x.station.link, c, e.i);
      if B.PeekOut(x.station.buffer).Some? {
        var p := B.PeekOut(x.station.buffer).value;
        B.PeekRefinesMap(x.station.buffer);
        var q := B.QueueOf(x.station.buffer, p.uid);
        assert p.sample in q;
        assert R.PushedFor(x.log.pushed, p.uid) == R.GoneFor(x.log.gone, p.uid) + q;
        R.PushedForOnly(x.log.pushed, p.uid, p.sample);
      }
    }
  }

  lemma {:induction false} SiteNextOk(x: Site, c: L.Config, e: S.Event, sys: System)
    requires SiteOk(x, sys, c) && EventOk(e, sys)
    ensures SiteOk(SiteNext(x, c, e), sys, c)
  {
    var y := SiteNext(x, c, e);
    SR.RecordStep(x.station, c, e, x.log, sys.acks);
    assert sys.acks + SR.Heard(e) == sys.acks;
    forall k | 0 <= k < |y.station.joined| ensures EntryOk(y.station.joined[k], y, sys) {
      EntryAfter(x, c, e, k, sys);
    }
    InFlightAfter(x, c, e, sys);
  }

  // -------------------------------------------------------------- the invariant

  /** Everything new in b is sound; everything old in a was. */
  ghost predicate NewPartsOk(a: System, b: System, c: L.Config) {
    && SysGrows(a, b) && Unique(b.readings)
    && (forall m :: MeterOk(m, b))
    && (forall s :: s in b.sites && b.sites[s] != a.sites[s] ==> SiteOk(b.sites[s], b, c))
    && (forall h :: h in b.air && h !in a.air ==> FrameOk(h, b))
    && (forall p :: p in b.lora && p !in a.lora ==> p.ToReading() in b.readings)
    && G.Inv(b.gateway)
    && (forall item :: item in b.gateway.log.accepted ==> item.payload in b.lora)
    && (forall k :: k in b.acks && k !in a.acks ==> AckOk(k, b))
    && (forall d :: d in b.delivered && d !in a.delivered ==> DeliveryOk(d, b))
  }

  lemma {:induction false} Assemble(a: System, b: System, c: L.Config)
    requires Inv(a, c) && NewPartsOk(a, b, c)
    ensures Inv(b, c)
  {
    forall s | s in b.sites ensures SiteOk(b.sites[s], b, c) {
      if b.sites[s] == a.sites[s] {
        SiteCarries(a.sites[s], a, b, c);
      }
    }
    forall h | h in b.air ensures FrameOk(h, b) {
      if h in a.air {
        FrameGrows(h, a, b);
      }
    }
    forall k | k in b.acks ensures AckOk(k, b) {
      if k in a.acks {
        AckGrows(k, a, b);
      }
    }
    forall d | d in b.delivered ensures DeliveryOk(d, b) {
      if d in a.delivered {
        DeliveryGrows(d, a, b);
      }
    }
    assert DistinctUids(b.meters) by {
      forall m, n | m in b.meters && n in b.meters && b.meters[m].node.uid == b.meters[n].node.uid ensures m == n {
        assert m in a.meters && n in a.meters;
      }
    }
  }

  /** Meters untouched, and no new readings. */
  lemma {:induction false} MetersCarry(a: System, b: System, c: L.Config)
    requires Inv(a, c) && SysGrows(a, b) && b.meters == a.meters && b.readings == a.readings
    ensures forall m :: MeterOk(m, b)
  {
    forall m ensures MeterOk(m, b) {
      assert MeterOk(m, a);
      if m in a.meters {
        JoinGrows(m, a.meters[m].node, a, b);
      }
    }
  }

  lemma {:induction false} SitesGrow(a: System, b: System, s: Mac)
    requires s in a.sites && b.sites.Keys == a.sites.Keys && Grows(a.sites[s], b.sites[s])
    requires forall t :: t in a.sites && t != s ==> b.sites[t] == a.sites[t]
    ensures forall t :: t in a.sites ==> Grows(a.sites[t], b.sites[t])
  {
    forall t | t in a.sites ensures Grows(a.sites[t], b.sites[t]) {
      if t != s {
        GrowsRefl(a.sites[t]);
      }
    }
  }

  lemma {:induction false} AllSitesStay(a: System)
    ensures forall t :: t in a.sites ==> Grows(a.sites[t], a.sites[t])
  {}

  lemma {:induction false} InToAir(h: Sent, src: Mac, boot: U32, out: seq<(Mac, Frame)>)
    requires |out| <= 1
    ensures h in ToAir(src, boot, out) <==> |out| == 1 && h == Sent(src, out[0].0, out[0].1, boot)
  {
    if |out| == 1 {
      assert ToAir(src, boot, out[1..]) == {};
    }
  }

  lemma {:induction false} AnswerOk(a: System, b: System, c: L.Config, s: Mac, e: S.Event, h: Sent)
    requires Inv(a, c) && s in a.sites && EventOk(e, a)
    requires b.sites.Keys == a.sites.Keys && b.sites[s] == SiteNext(a.sites[s], c, e)
    requires h in ToAir(s, a.sites[s].station.epoch, Answers(a.sites[s].station, e))
    ensures FrameOk(h, b)
  {
    var x := a.sites[s];
    var y := b.sites[s];
    SiteNextGrows(x, c, e);
    InToAir(h, s, x.station.epoch, Answers(x.station, e));
    match e
    case JoinFrame(mac, epoch, uid, peerOk) =>
      var k := S.FindJoined(x.station.joined, mac, 0);
      S.NextValid(x.station, c, e);
      assert y.station.joined[k].mac == mac;
    case ReadingFrame(mac, p) =>
      if S.Buffers(x.station, mac, p) {
        assert y.log.pushed[|y.log.pushed| - 1] == p.ToReading();
      } else {
        var k := S.FindJoined(x.station.joined, mac, 0);
        assert EntryOk(x.station.joined[k], x, a);
        AcceptedGrows(x, y, p.ToReading().Key());
      }
    case _ =>
  }

  lemma {:induction false} StationEventGrows(a: System, c: L.Config, s: Mac, e: S.Event)
    requires Inv(a, c) && s in a.sites && EventOk(e, a)
    ensures SysGrows(a, StationEvent(a, c, s, e))
  {
    var b := StationEvent(a, c, s, e);
    SiteNextGrows(a.sites[s], c, e);
    SitesGrow(a, b, s);
  }

  lemma {:induction false} StationEventSite(a: System, c: L.Config, s: Mac, e: S.Event)
    requires Inv(a, c) && s in a.sites && EventOk(e, a)
    ensures var b := StationEvent(a, c, s, e);
      SiteOk(b.sites[s], b, c) && forall p :: p in b.lora ==> p.ToReading() in b.readings
  {
    var b := StationEvent(a, c, s, e);
    assert SiteOk(a.sites[s], a, c);
    SiteNextOk(a.sites[s], c, e, a);
    StationEventGrows(a, c, s, e);
    SiteCarries(SiteNext(a.sites[s], c, e), a, b, c);
  }

  lemma {:induction false} StationEventAir(a: System, c: L.Config, s: Mac, e: S.Event)
    requires Inv(a, c) && s in a.sites && EventOk(e, a)
    ensures var b := StationEvent(a, c, s, e); forall h :: h in b.air && h !in a.air ==> FrameOk(h, b)
  {
    var b := StationEvent(a, c, s, e);
    forall h | h in b.air && h !in a.air ensures FrameOk(h, b) {
      AnswerOk(a, b, c, s, e, h);
    }
  }

  lemma {:induction false} StationEventOk(a: System, c: L.Config, s: Mac, e: S.Event)
    requires Inv(a, c) && s in a.sites && EventOk(e, a)
    ensures Inv(StationEvent(a, c, s, e), c)
  {
    var b := StationEvent(a, c, s, e);
    StationEventGrows(a, c, s, e);
    StationEventSite(a, c, s, e);
    StationEventAir(a, c, s, e);
    MetersCarry(a, b, c);
    Assemble(a, b, c);
  }

  lemma {:induction false} StationRebootOk(a: System, c: L.Config, s: Mac, epoch: U32)
    requires Inv(a, c) && Enabled(a, StationReboots(s, epoch))
    ensures Inv(Next(a, c, StationReboots(s, epoch)), c)
  {
    var b := Next(a, c, StationReboots(s, epoch));
    SitesGrow(a, b, s);
    assert SysGrows(a, b);
    MetersCarry(a, b, c);
    R.EmptyBalanced();
    Assemble(a, b, c);
  }

  /** An ACK the gateway sends is for what it has just accepted. */
  lemma {:induction false} GatewayAcks(a: System, c: L.Config, g: G.Step)
    requires Inv(a, c) && Enabled(a, GatewayActs(g))
    ensures var b := Next(a, c, GatewayActs(g)); forall k :: k in b.acks && k !in a.acks ==> AckOk(k, b)
  {
    var b := Next(a, c, GatewayActs(g));
    forall k | k in b.acks && k !in a.acks ensures AckOk(k, b) {
      var log := b.gateway.log.accepted;
      assert log[|log| - 1] == g.arrival.value;
    }
  }

  lemma {:induction false} GatewayOk(a: System, c: L.Config, g: G.Step)
    requires Inv(a, c) && Enabled(a, GatewayActs(g))
    ensures Inv(Next(a, c, GatewayActs(g)), c)
  {
    var b := Next(a, c, GatewayActs(g));
    G.NextKeepsInv(a.gateway, g);
    AllSitesStay(a);
    assert SysGrows(a, b);
    MetersCarry(a, b, c);
    GatewayAcks(a, c, g);
    Assemble(a, b, c);
  }

  // ---------------------------------------------------------------- meter steps

  lemma {:induction false} NodeNextOk(n: N.Node, a: N.Act, readings: set<Reading>)
    requires GoalOk(n, readings) && N.Next(n, a).Some? && !a.StartSend?
    ensures GoalOk(N.Next(n, a).value, readings) && N.Next(n, a).value.uid == n.uid
  {}

  /** A node joins only on a JoinAck, which vouches for the table. */
  lemma {:induction false} NodeJoinOk(m: Mac, a: N.Act, heard: Option<Sent>, sys: System)
    requires m in sys.meters && N.Next(sys.meters[m].node, a).Some? && HeardFor(m, a, heard, sys.air)
    requires JoinAgrees(m, sys.meters[m].node, sys.sites)
    requires forall h :: h in sys.air ==> FrameOk(h, sys)
    ensures JoinAgrees(m, N.Next(sys.meters[m].node, a).value, sys.sites)
  {
    if a.HearJoinAck? {
      assert FrameOk(heard.value, sys);
    }
  }

  /** A delivery ACK vouches for this very reading: the substation accepted one with its
      UID and number, and there is only one. */
  lemma {:induction false} HeardAckOk(m: Mac, a: N.Act, heard: Option<Sent>, sys: System, c: L.Config)
    requires Inv(sys, c) && m in sys.meters && a.HearAck?
    requires N.Next(sys.meters[m].node, a).Some? && HeardFor(m, a, heard, sys.air)
    ensures DeliveryOk(Delivery(sys.meters[m].node.pc.p.ToReading(), a.from, heard.value.boot), sys)
  {
    assert FrameOk(heard.value, sys) && MeterOk(m, sys);
    var x := sys.sites[a.from];
    if heard.value.boot == x.station.epoch {
      var r :| r in x.log.pushed && r.Key() == a.ack;
      assert r in sys.readings;
    }
  }

  /** What a node sends carries its own UID and its own reading. */
  lemma {:induction false} EmittedOk(m: Mac, a: N.Act, h: Sent, sys: System, b: System)
    requires m in sys.meters && MeterOk(m, sys) && N.Next(sys.meters[m].node, a).Some? && SysGrows(sys, b)
    requires h in ToAir(m, 0, N.Emits(sys.meters[m].node, a))
    ensures FrameOk(h, b)
  {
    InToAir(h, m, 0, N.Emits(sys.meters[m].node, a));
  }

  lemma {:induction false} MeterChanged(a: System, b: System, c: L.Config, m: Mac)
    requires Inv(a, c) && SysGrows(a, b) && m in a.meters && MeterOk(m, b) && b.readings == a.readings
    requires forall n :: n in a.meters && n != m ==> b.meters[n] == a.meters[n]
    ensures forall n :: MeterOk(n, b)
  {
    forall n ensures MeterOk(n, b) {
      if n != m {
        assert MeterOk(n, a);
        if n in a.meters {
          JoinGrows(n, a.meters[n].node, a, b);
        }
      }
    }
  }

  lemma {:induction false} MeterActsOk(a: System, c: L.Config, m: Mac, act: N.Act, heard: Option<Sent>)
    requires Inv(a, c) && Enabled(a, MeterActs(m, act, heard))
    ensures Inv(Next(a, c, MeterActs(m, act, heard)), c)
  {
    var b := Next(a, c, MeterActs(m, act, heard));
    assert MeterOk(m, a);
    NodeNextOk(a.meters[m].node, act, a.readings);
    NodeJoinOk(m, act, heard, a);
    AllSitesStay(a);
    assert SysGrows(a, b);
    MeterChanged(a, b, c, m);
    forall h | h in b.air && h !in a.air ensures FrameOk(h, b) {
      EmittedOk(m, act, h, a, b);
    }
    forall d | d in b.delivered && d !in a.delivered ensures DeliveryOk(d, b) {
      HeardAckOk(m, act, heard, a, c);
      DeliveryGrows(d, a, b);
    }
    Assemble(a, b, c);
  }

  lemma {:induction false} MeterRebootOk(a: System, c: L.Config, m: Mac)
    requires Inv(a, c) && m in a.meters
    ensures Inv(Next(a, c, MeterReboots(m)), c)
  {
    var b := Next(a, c, MeterReboots(m));
    assert MeterOk(m, a);
    AllSitesStay(a);
    assert SysGrows(a, b);
    MeterChanged(a, b, c, m);
    Assemble(a, b, c);
  }

  /** The counter never hands out a number twice before it wraps. */
  lemma {:induction false} MeasureOk(a: System, c: L.Config, step: Step)
    requires Inv(a, c) && step.Measure? && Enabled(a, step)
    ensures Inv(Next(a, c, step), c)
  {
    var b := Next(a, c, step);
    var x := a.meters[step.m];
    var p := Measured(x.node.uid, x.seqNo + 1, step);
    AllSitesStay(a);
    assert SysGrows(a, b);
    assert MeterOk(step.m, a);
    assert p.ToReading() !in a.readings;
    forall n ensures MeterOk(n, b) {
      assert MeterOk(n, a);
      if n in a.meters {
        JoinGrows(n, a.meters[n].node, a, b);
      }
    }
    Assemble(a, b, c);
  }

  lemma {:induction false} NextKeepsInv(sys: System, c: L.Config, step: Step)
    requires Inv(sys, c) && Enabled(sys, step)
    ensures Inv(Next(sys, c, step), c)
  {
    match step
    case Measure(_, _, _, _, _) => MeasureOk(sys, c, step);
    case MeterActs(m, a, heard) => MeterActsOk(sys, c, m, a, heard);
    case MeterReboots(m) => MeterRebootOk(sys, c, m);
    case StationBeacons(s, now, after) => StationEventOk(sys, c, s, S.BeaconPass(now, after));
    case StationHears(s, h, peerOk) =>
      assert FrameOk(h, sys);
      if EventOf(h, peerOk).Some? {
        StationEventOk(sys, c, s, EventOf(h, peerOk).value);
      }
    case StationRelays(s, i, begun) => StationEventOk(sys, c, s, S.Relay(i, begun));
    case StationReboots(s, epoch) => StationRebootOk(sys, c, s, epoch);
    case GatewayActs(g) => GatewayOk(sys, c, g);
  }

  // ------------------------------------------------------------------- runs

  /** Nodes with distinct UIDs, nothing sent, substations and gateway freshly booted. */
  ghost predicate Init(sys: System) {
    && DistinctUids(sys.meters)
    && (forall m :: m in sys.meters ==> sys.meters[m].node == N.Fresh(sys.meters[m].node.uid))
    && (forall s :: s in sys.sites ==>
          exists epoch: U32 :: sys.sites[s] == Site(S.Boot(epoch), R.NoLog, {epoch}))
    && (sys.gateway == G.Boot(true) || sys.gateway == G.Boot(false))
    && sys.air == {} && sys.lora == {} && sys.acks == {} && sys.readings == {} && sys.delivered == {}
  }

  /** A run: each step enabled where it is taken. */
  ghost predicate Reaches(a: System, c: L.Config, steps: seq<Step>, b: System)
    requires SitesValid(a, c)
    decreases |steps|
  {
    if steps == [] then a == b else
      && Enabled(a, steps[0]) && SitesValid(Next(a, c, steps[0]), c)
      && Reaches(Next(a, c, steps[0]), c, steps[1..], b)
  }

  lemma {:induction false} InitInv(sys: System, c: L.Config)
    requires Init(sys)
    ensures Inv(sys, c)
  {
    R.EmptyBalanced();
  }

  lemma {:induction false} RunKeepsInv(a: System, c: L.Config, steps: seq<Step>, b: System)
    requires Inv(a, c) && Reaches(a, c, steps, b)
    ensures Inv(b, c)
    decreases |steps|
  {
    if steps != [] {
      NextKeepsInv(a, c, steps[0]);
      RunKeepsInv(Next(a, c, steps[0]), c, steps[1..], b);
    }
  }

  /** Where a reading the network took charge of can be. */
  ghost predicate Located(r: Reading, x: Site, g: G.Gateway) {
    || r.sample in B.QueueOf(x.station.buffer, r.uid)
    || R.Gone(r, R.Overwrote) in x.log.gone
    || (exists item :: item in G.Held(g) && item.payload.ToReading() == r)
    || (exists item :: item in g.queue && item.payload.ToReading() == r)
    || (exists item :: item in g.log.removed && item.payload.ToReading() == r)
  }

  lemma {:induction false} PushedIsLocated(sys: System, c: L.Config, s: Mac, r: Reading)
    requires Inv(sys, c) && s in sys.sites && r in sys.sites[s].log.pushed
    ensures Located(r, sys.sites[s], sys.gateway)
  {
    var x := sys.sites[s];
    var g := sys.gateway;
    R.PushedIsHeldOrGone(x.station.buffer, x.log, r);
    if r.sample !in B.QueueOf(x.station.buffer, r.uid) {
      var gone :| gone in x.log.gone && gone.reading == r;
      if gone.fate == R.Removed {
        assert AckOk(r.Key(), sys);
        var item :| item in g.log.accepted && item.payload.ToReading().Key() == r.Key();
        assert item.payload.ToReading() in sys.readings && r in sys.readings;
        assert item in g.log.removed || item in g.queue || item in G.Held(g);
      }
    }
  }

  /** End-to-end conservation. In every reachable state, each reading whose node-side
      send() returned success is still in the buffer of the substation that acknowledged
      it, was overwritten there, is held by the gateway's receive task, is in the gateway's
      queue, or has been consumed from it -- unless that substation has rebooted since. */
  lemma {:induction false} Conservation(init: System, c: L.Config, steps: seq<Step>, sys: System, d: Delivery)
    requires Init(init) && SitesValid(init, c) && Reaches(init, c, steps, sys)
    requires d in sys.delivered
    ensures d.sub in sys.sites
    ensures d.boot == sys.sites[d.sub].station.epoch ==> Located(d.reading, sys.sites[d.sub], sys.gateway)
  {
    InitInv(init, c);
    RunKeepsInv(init, c, steps, sys);
    assert DeliveryOk(d, sys);
    if d.boot == sys.sites[d.sub].station.epoch {
      PushedIsLocated(sys, c, d.sub, d.reading);
    }
  }

  /** Join agreement. In every reachable state, a node that believes it is joined is in
      that substation's table for that epoch, unless the substation has since rebooted. */
  lemma {:induction false} JoinAgreement(init: System, c: L.Config, steps: seq<Step>, sys: System, m: Mac)
    requires Init(init) && SitesValid(init, c) && Reaches(init, c, steps, sys)
    requires m in sys.meters && sys.meters[m].node.joined
    ensures var n := sys.meters[m].node;
      && n.sub in sys.sites
      && (n.epoch == sys.sites[n.sub].station.epoch ==> S.HasJoined(sys.sites[n.sub].station, m))
  {
    InitInv(init, c);
    RunKeepsInv(init, c, steps, sys);
    assert MeterOk(m, sys);
  }

  /** A reading leaves a substation's buffer only once overwritten or once the gateway
      had accepted that very reading, in every reachable state. */
  lemma {:induction false} RemovedReachedGateway(init: System, c: L.Config, steps: seq<Step>, sys: System, s: Mac,
          r: Reading)
    requires Init(init) && SitesValid(init, c) && Reaches(init, c, steps, sys)
    requires s in sys.sites && R.Gone(r, R.Removed) in sys.sites[s].log.gone
    ensures exists item :: item in sys.gateway.log.accepted && item.payload.ToReading() == r
  {
    InitInv(init, c);
    RunKeepsInv(init, c, steps, sys);
    assert SiteOk(sys.sites[s], sys, c);
    R.GoneWasPushed(sys.sites[s].station.buffer, sys.sites[s].log, R.Gone(r, R.Removed));
    assert AckOk(r.Key(), sys);
    var item :| item in sys.gateway.log.accepted && item.payload.ToReading().Key() == r.Key();
    assert item.payload.ToReading() in sys.readings;
  }
}
