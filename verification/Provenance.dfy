/** Where the ids of a relayed Payload come from: a substation keeps them beside the queue
    of a node and puts them back on each reading it relays. */
module Provenance {
  import opened Wire
  import opened Clock
  import B = BufferSpec
  import R = BufferRuns
  import L = LoRaSpec
  import S = StationSpec
  import N = NodeSpec
  import G = GatewaySpec
  import P = Pipeline

  // ------------------------------------------------------------- one substation

  /** What an event does to the buffer. */
  function BufferOps(s: S.Station, c: L.Config, e: S.Event): seq<R.Op> {
    match e
    case ReadingFrame(mac, p) => if S.HasJoined(s, mac) && !S.Duplicate(s, mac, p) then [R.DoPush(p)] else []
    case Relay(i, _) =>
      (match L.Step(s.link, c, i).1
       case Acked => [R.DoPop]
       case NoSend => if Before(i.after, s.nextSendAt) then [] else [R.DoPeek]
       case _ => [])
    case _ => []
  }

  function OpsIn(s: S.Station, c: L.Config, es: seq<S.Event>): seq<R.Op>
    requires S.Valid(s, c)
    decreases |es|
  {
    if es == [] then []
    else (S.NextValid(s, c, es[0]); BufferOps(s, c, es[0]) + OpsIn(S.Next(s, c, es[0]), c, es[1..]))
  }

  lemma {:induction false} OneOp(b: B.Buffer, op: R.Op)
    requires B.Valid(b)
    ensures R.Run(b, [op]) == R.Apply(b, op)
  {
    assert [op][1..] == [];
  }

  lemma {:induction false} RunAppend(b: B.Buffer, ops: seq<R.Op>, more: seq<R.Op>)
    requires B.Valid(b)
    ensures R.Run(b, ops + more) == R.Run(R.Run(b, ops), more)
    decreases |ops|
  {
    if ops == [] {
      assert ops + more == more;
    } else {
      assert (ops + more)[1..] == ops[1..] + more;
      RunAppend(R.Apply(b, ops[0]), ops[1..], more);
    }
  }

  lemma {:induction false} OpsOfEvent(s: S.Station, c: L.Config, e: S.Event)
    requires S.Valid(s, c)
    ensures S.Next(s, c, e).buffer == R.Run(s.buffer, BufferOps(s, c, e))
  {
    match e
    case ReadingFrame(mac, p) => OneOp(s.buffer, R.DoPush(p));
    case Relay(i, _) =>
      OneOp(s.buffer, R.DoPop);
      OneOp(s.buffer, R.DoPeek);
    case _ =>
  }

  /** A substation's buffer is the buffer run by these operations. */
  lemma {:induction false} OpsOfRun(s: S.Station, c: L.Config, es: seq<S.Event>)
    requires S.Valid(s, c)
    ensures S.Run(s, c, es).buffer == R.Run(s.buffer, OpsIn(s, c, es))
    decreases |es|
  {
    if es != [] {
      S.NextValid(s, c, es[0]);
      OpsOfEvent(s, c, es[0]);
      OpsOfRun(S.Next(s, c, es[0]), c, es[1..]);
      RunAppend(s.buffer, BufferOps(s, c, es[0]), OpsIn(S.Next(s, c, es[0]), c, es[1..]));
    }
  }

  /** Over any run from boot, the Payload a relay starts with carries the ids of the last
      reading taken from its UID. */
  lemma {:induction false} RelaysLastIds(c: L.Config, epoch: U32, es: seq<S.Event>, i: L.Poll, begun: U32)
    requires S.Valid(S.Boot(epoch), c) && S.Run(S.Boot(epoch), c, es).link.phase == L.Idle
    ensures var link := S.RelayStep(S.Run(S.Boot(epoch), c, es), c, i, begun).link;
      link.phase != L.Idle ==>
        R.LastIds(OpsIn(S.Boot(epoch), c, es), link.pending.uid) == Some(link.pending.ids)
  {
    OpsOfRun(S.Boot(epoch), c, es);
    R.ShowsLastIds(OpsIn(S.Boot(epoch), c, es));
  }

  // ---------------------------------------------------------------- the network

  /** A node with this UID has sent a reading with these ids. */
  ghost predicate IdsSent(uid: Uid, ids: Ids, air: set<P.Sent>) {
    exists h :: h in air && h.frame.DataMsg? && h.frame.payload.uid == uid && h.frame.payload.ids == ids
  }

  ghost predicate StationIds(s: S.Station, air: set<P.Sent>) {
    && (forall k :: 0 <= k < |s.buffer.slots| && s.buffer.slots[k].Held? ==>
          IdsSent(s.buffer.slots[k].uid, s.buffer.slots[k].ids, air))
    && (s.link.phase != L.Idle ==> IdsSent(s.link.pending.uid, s.link.pending.ids, air))
  }

  /** Whatever a substation keeps, has in flight or has put on LoRa carries ids that were
      sent with its UID. */
  ghost predicate Inv(sys: P.System) {
    && (forall t :: t in sys.sites ==> StationIds(sys.sites[t].station, sys.air))
    && (forall p :: p in sys.lora ==> IdsSent(p.uid, p.ids, sys.air))
  }

  lemma {:induction false} IdsSentGrows(uid: Uid, ids: Ids, air: set<P.Sent>, more: set<P.Sent>)
    requires IdsSent(uid, ids, air) && air <= more
    ensures IdsSent(uid, ids, more)
  {
    var h :| h in air && h.frame.DataMsg? && h.frame.payload.uid == uid && h.frame.payload.ids == ids;
    assert h in more;
  }

  lemma {:induction false} StationIdsGrow(s: S.Station, air: set<P.Sent>, more: set<P.Sent>)
    requires StationIds(s, air) && air <= more
    ensures StationIds(s, more)
  {
    forall k | 0 <= k < |s.buffer.slots| && s.buffer.slots[k].Held?
      ensures IdsSent(s.buffer.slots[k].uid, s.buffer.slots[k].ids, more)
    {
      IdsSentGrows(s.buffer.slots[k].uid, s.buffer.slots[k].ids, air, more);
    }
    if s.link.phase != L.Idle {
      IdsSentGrows(s.link.pending.uid, s.link.pending.ids, air, more);
    }
  }

  lemma {:induction false} LinkKeepsPending(s: S.Station, c: L.Config, e: S.Event)
    requires S.Valid(s, c)
    ensures var link := S.Next(s, c, e).link;
      link.phase != L.Idle ==>
        || (s.link.phase != L.Idle && link.pending == s.link.pending)
        || (B.PeekOut(s.buffer).Some? && link.pending == B.PeekOut(s.buffer).value)
  {
    if e.Relay? {
      L.StepKeeps(s.link, c, e.i);
    }
  }

  lemma {:induction false} StationIdsStep(s: S.Station, c: L.Config, e: S.Event, air: set<P.Sent>)
    requires S.Valid(s, c) && StationIds(s, air)
    requires e.ReadingFrame? ==> IdsSent(e.p.uid, e.p.ids, air)
    ensures StationIds(S.Next(s, c, e), air)
  {
    LinkKeepsPending(s, c, e);
    var s' := S.Next(s, c, e);
    forall k | 0 <= k < |s'.buffer.slots| && s'.buffer.slots[k].Held?
      ensures IdsSent(s'.buffer.slots[k].uid, s'.buffer.slots[k].ids, air)
    {
      SlotAfter(s, c, e, k);
    }
  }

  /** A slot's UID and ids are as before, or those of the reading just taken. */
  lemma {:induction false} SlotAfter(s: S.Station, c: L.Config, e: S.Event, k: nat)
    requires S.Valid(s, c) && k < |S.Next(s, c, e).buffer.slots| && S.Next(s, c, e).buffer.slots[k].Held?
    ensures var slot := S.Next(s, c, e).buffer.slots[k];
      || (e.ReadingFrame? && slot.uid == e.p.uid && slot.ids == e.p.ids)
      || (k < |s.buffer.slots| && s.buffer.slots[k].Held?
          && slot.uid == s.buffer.slots[k].uid && slot.ids == s.buffer.slots[k].ids)
  {}

  lemma {:induction false} EventKeeps(sys: P.System, c: L.Config, t: Mac, e: S.Event)
    requires P.SitesValid(sys, c) && t in sys.sites && Inv(sys)
    requires e.ReadingFrame? ==> IdsSent(e.p.uid, e.p.ids, sys.air)
    ensures Inv(P.StationEvent(sys, c, t, e))
  {
    var b := P.StationEvent(sys, c, t, e);
    StationIdsStep(sys.sites[t].station, c, e, sys.air);
    Grows(sys, b, t);
  }

  /** More on the air, one substation and its relay changed. */
  lemma {:induction false} Grows(a: P.System, b: P.System, t: Mac)
    requires Inv(a) && a.air <= b.air && b.sites.Keys == a.sites.Keys && t in a.sites
    requires forall u :: u in a.sites && u != t ==> b.sites[u] == a.sites[u]
    requires StationIds(b.sites[t].station, a.air)
    requires forall p :: p in b.lora ==>
      p in a.lora || (a.sites[t].station.link.phase != L.Idle && p == a.sites[t].station.link.pending)
    ensures Inv(b)
  {
    forall u | u in b.sites ensures StationIds(b.sites[u].station, b.air) {
      StationIdsGrow(b.sites[u].station, a.air, b.air);
    }
    forall p | p in b.lora ensures IdsSent(p.uid, p.ids, b.air) {
      IdsSentGrows(p.uid, p.ids, a.air, b.air);
    }
  }

  lemma {:induction false} NextKeepsInv(sys: P.System, c: L.Config, step: P.Step)
    requires P.SitesValid(sys, c) && P.Enabled(sys, step) && Inv(sys)
    ensures Inv(P.Next(sys, c, step))
  {
    var b := P.Next(sys, c, step);
    match step
    case StationBeacons(s, now, after) => EventKeeps(sys, c, s, S.BeaconPass(now, after));
    case StationHears(s, h, peerOk) =>
      if P.EventOf(h, peerOk).Some? {
        EventKeeps(sys, c, s, P.EventOf(h, peerOk).value);
      }
    case StationRelays(s, i, begun) => EventKeeps(sys, c, s, S.Relay(i, begun));
    case StationReboots(s, epoch) => Grows(sys, b, s);
    case _ => OnlyAir(sys, b);
  }

  lemma {:induction false} OnlyAir(a: P.System, b: P.System)
    requires Inv(a) && a.air <= b.air && b.sites == a.sites && b.lora == a.lora
    ensures Inv(b)
  {
    forall u | u in b.sites ensures StationIds(b.sites[u].station, b.air) {
      StationIdsGrow(b.sites[u].station, a.air, b.air);
    }
    forall p | p in b.lora ensures IdsSent(p.uid, p.ids, b.air) {
      IdsSentGrows(p.uid, p.ids, a.air, b.air);
    }
  }

  lemma {:induction false} RunKeepsInv(a: P.System, c: L.Config, steps: seq<P.Step>, b: P.System)
    requires P.SitesValid(a, c) && P.Reaches(a, c, steps, b) && Inv(a)
    ensures Inv(b)
    decreases |steps|
  {
    if steps != [] {
      NextKeepsInv(a, c, steps[0]);
      RunKeepsInv(P.Next(a, c, steps[0]), c, steps[1..], b);
    }
  }

  /** In every reachable state, whatever the gateway has accepted or published was measured
      by the node of its UID and carries ids that this node sent. */
  lemma {:induction false} AcceptedIsAsSent(init: P.System, c: L.Config, steps: seq<P.Step>, sys: P.System,
                                            item: G.Item)
    requires P.Init(init) && P.SitesValid(init, c) && P.Reaches(init, c, steps, sys)
    requires item in sys.gateway.log.accepted || item in sys.gateway.log.published
    ensures item.payload.ToReading() in sys.readings && IdsSent(item.payload.uid, item.payload.ids, sys.air)
  {
    P.InitInv(init, c);
    P.RunKeepsInv(init, c, steps, sys);
    InitInv(init);
    RunKeepsInv(init, c, steps, sys);
    AcceptedFrom(sys, c, item);
  }

  lemma {:induction false} InitInv(sys: P.System)
    requires P.Init(sys)
    ensures Inv(sys)
  {
    forall t | t in sys.sites ensures StationIds(sys.sites[t].station, sys.air) {
      var epoch: U32 :| sys.sites[t] == P.Site(S.Boot(epoch), R.NoLog, {epoch});
    }
  }

  lemma {:induction false} AcceptedFrom(sys: P.System, c: L.Config, item: G.Item)
    requires P.Inv(sys, c) && Inv(sys)
    requires item in sys.gateway.log.accepted || item in sys.gateway.log.published
    ensures item.payload.ToReading() in sys.readings && IdsSent(item.payload.uid, item.payload.ids, sys.air)
  {
    PublishedIsAccepted(sys.gateway, item);
    assert item.payload in sys.lora;
  }

  lemma {:induction false} PublishedIsAccepted(g: G.Gateway, item: G.Item)
    requires G.Inv(g) && (item in g.log.accepted || item in g.log.published)
    ensures item in g.log.accepted
  {}
}
