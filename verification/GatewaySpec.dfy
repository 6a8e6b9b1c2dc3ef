/** The gateway's receive task and publish loop, interleaved at their queue operations. */
module GatewaySpec {
  import opened Wire

  /** Capacity of the queue between the two tasks. */
  const READINGS_DEPTH: nat := 32

  /** A received reading and its signal quality. */
  datatype Item = Item(payload: Payload, rssi: int, snr: int)

  /** loraRxTask(): at the top of its loop, past the space check, or holding a reading
      it has acknowledged but not queued. */
  datatype RxTask = RxIdle | RxCleared | RxHolds(item: Item)

  /** gatewayLoop(): at its top, with an item peeked, or with that item published. */
  datatype PubTask = PubIdle | PubPeeked(item: Item) | PubPublished(item: Item)

  /** Ghost logs: acknowledged, turned away by a full queue, published, and removed. */
  datatype Log = Log(accepted: seq<Item>, lost: seq<Item>, published: seq<Item>, removed: seq<Item>)

  datatype Gateway = Gateway(mqtt: bool, queue: seq<Item>, rx: RxTask, pub: PubTask, log: Log)

  /** What a task meets at its next step: `arrival` is the Payload the radio received,
      if any; `connected` and `published` are what the broker client answers. */
  datatype Step =
    | RxStep(arrival: Option<Item>)
    | PubStep(connected: bool, published: bool)

  function Boot(mqtt: bool): Gateway { Gateway(mqtt, [], RxIdle, PubIdle, Log([], [], [], [])) }

  function RxNext(g: Gateway, arrival: Option<Item>): Gateway {
    match g.rx
    case RxIdle => if |g.queue| == READINGS_DEPTH then g else g.(rx := RxCleared)
    case RxCleared =>
      (match arrival
       case None => g.(rx := RxIdle)
       case Some(item) => g.(rx := RxHolds(item), log := g.log.(accepted := g.log.accepted + [item])))
    case RxHolds(item) =>
      if |g.queue| < READINGS_DEPTH then g.(rx := RxIdle, queue := g.queue + [item])
      else g.(rx := RxIdle, log := g.log.(lost := g.log.lost + [item]))
  }

  /** Takes the item at the front of the queue, whichever it is. */
  function Remove(g: Gateway): Gateway {
    if g.queue == [] then g.(pub := PubIdle)
    else g.(pub := PubIdle, queue := g.queue[1..], log := g.log.(removed := g.log.removed + [g.queue[0]]))
  }

  function PubNext(g: Gateway, connected: bool, published: bool): Gateway {
    match g.pub
    case PubIdle => if g.queue == [] then g else g.(pub := PubPeeked(g.queue[0]))
    case PubPeeked(item) =>
      if !g.mqtt then Remove(g)
      else if !connected || !published then g.(pub := PubIdle)
      else g.(pub := PubPublished(item), log := g.log.(published := g.log.published + [item]))
    case PubPublished(item) => Remove(g)
  }

  function Next(g: Gateway, s: Step): Gateway {
    match s
    case RxStep(arrival) => RxNext(g, arrival)
    case PubStep(connected, published) => PubNext(g, connected, published)
  }

  function Run(g: Gateway, steps: seq<Step>): Gateway
    decreases |steps|
  {
    if steps == [] then g else Run(Next(g, steps[0]), steps[1..])
  }

  function Held(g: Gateway): seq<Item> { if g.rx.RxHolds? then [g.rx.item] else [] }

  function AwaitingRemoval(g: Gateway): seq<Item> { if g.pub.PubPublished? then [g.pub.item] else [] }

  ghost predicate Inv(g: Gateway) {
    // check-then-act: once past the check, there is room
    && |g.queue| <= READINGS_DEPTH && (!g.rx.RxIdle? ==> |g.queue| < READINGS_DEPTH)
    // the publisher's copy is still the front of the queue
    && (!g.pub.PubIdle? ==> g.queue != [] && g.queue[0] == g.pub.item)
    && (g.pub.PubPublished? ==> g.mqtt)
    // nothing acknowledged is ever lost, and nothing changes place
    && g.log.lost == []
    && g.log.accepted == g.log.removed + g.queue + Held(g)
    // with MQTT, what leaves the queue is what was just published
    && (g.mqtt ==> g.log.published == g.log.removed + AwaitingRemoval(g))
    && (!g.mqtt ==> g.log.published == [])
  }

  lemma {:induction false} RxKeepsInv(g: Gateway, arrival: Option<Item>)
    requires Inv(g)
    ensures Inv(RxNext(g, arrival))
  {
    if g.rx.RxHolds? {
      assert g.log.removed + (g.queue + [g.rx.item]) + [] == g.log.removed + g.queue + [g.rx.item];
    }
  }

  lemma {:induction false} PubKeepsInv(g: Gateway, connected: bool, published: bool)
    requires Inv(g)
    ensures Inv(PubNext(g, connected, published))
  {
    if PubNext(g, connected, published).queue != g.queue {
      assert g.queue == [g.queue[0]] + g.queue[1..];
      assert (g.log.removed + [g.queue[0]]) + g.queue[1..] + Held(g) == g.log.removed + g.queue + Held(g);
    }
  }

  lemma {:induction false} NextKeepsInv(g: Gateway, s: Step)
    requires Inv(g)
    ensures Inv(Next(g, s))
  {
    match s
    case RxStep(arrival) => RxKeepsInv(g, arrival);
    case PubStep(connected, published) => PubKeepsInv(g, connected, published);
  }

  /** Under every interleaving of the two tasks: the zero-wait enqueue never fails, so
      every acknowledged reading is held, queued or removed, in the order received; and
      with MQTT each removed item is the one just published, so publish order is queue
      order. */
  lemma {:induction false} AllInterleavings(g: Gateway, steps: seq<Step>)
    requires Inv(g)
    ensures Inv(Run(g, steps))
    decreases |steps|
  {
    if steps != [] {
      NextKeepsInv(g, steps[0]);
      AllInterleavings(Next(g, steps[0]), steps[1..]);
    }
  }

  lemma {:induction false} FromBoot(mqtt: bool, steps: seq<Step>)
    ensures var g := Run(Boot(mqtt), steps);
      && g.log.lost == []
      && g.log.accepted == g.log.removed + g.queue + Held(g)
      && (g.mqtt ==> g.log.published == g.log.removed + AwaitingRemoval(g) && AwaitingRemoval(g) <= g.queue)
  {
    AllInterleavings(Boot(mqtt), steps);
  }

  // ------------------------------------------------------------------- progress

  /** What one pass of the publish loop does: it peeks the front, or publishes exactly the
      front of the queue, exactly if MQTT is on, the item is peeked and a connected client
      takes it; and it removes the front exactly once that is done, or at once without MQTT. */
  lemma {:induction false} PublishesIff(g: Gateway, connected: bool, published: bool)
    requires Inv(g)
    ensures var g' := Next(g, PubStep(connected, published));
      && g'.log.published == g.log.published
          + (if g.mqtt && g.pub.PubPeeked? && connected && published then [g.queue[0]] else [])
      && g'.log.removed == g.log.removed
          + (if g.pub.PubPublished? || (!g.mqtt && g.pub.PubPeeked?) then [g.queue[0]] else [])
      && g'.queue == (if g.pub.PubPublished? || (!g.mqtt && g.pub.PubPeeked?) then g.queue[1..] else g.queue)
      && (g.pub.PubIdle? && g.queue != [] ==> g'.pub == PubPeeked(g.queue[0]))
      && (g.pub.PubPeeked? && !(connected && published) ==> g'.pub == PubIdle)
      && g'.log.accepted == g.log.accepted && g'.rx == g.rx && g'.mqtt == g.mqtt
  {}

  /** `n` passes of the publish loop in a row, with a client that is connected and takes
      what it is given. */
  function Passes(n: nat): (steps: seq<Step>)
    ensures |steps| == n
  {
    if n == 0 then [] else [PubStep(true, true)] + Passes(n - 1)
  }

  lemma {:induction false} RunPass(g: Gateway, n: nat)
    ensures Run(g, Passes(n + 1)) == Run(Next(g, PubStep(true, true)), Passes(n))
  {
    assert Passes(n + 1)[1..] == Passes(n);
  }

  /** The front published and removed. */
  function FrontGone(g: Gateway): Gateway
    requires g.queue != []
  {
    g.(queue := g.queue[1..], log := g.log.(published := g.log.published + [g.queue[0]],
                                            removed := g.log.removed + [g.queue[0]]))
  }

  /** Three passes publish and remove the front. */
  lemma {:induction false} PublishesOne(g: Gateway, n: nat)
    requires Inv(g) && g.mqtt && g.pub.PubIdle? && g.queue != []
    ensures Run(g, Passes(n + 3)) == Run(FrontGone(g), Passes(n))
  {
    RunPass(g, n + 2);
    RunPass(Next(g, PubStep(true, true)), n + 1);
    RunPass(Next(Next(g, PubStep(true, true)), PubStep(true, true)), n);
  }

  lemma {:induction false} FrontGoneKeepsInv(g: Gateway)
    requires Inv(g) && g.mqtt && g.pub.PubIdle? && g.queue != []
    ensures Inv(FrontGone(g))
  {
    PublishesOne(g, 0);
    AllInterleavings(g, Passes(3));
  }

  lemma {:induction false} FrontFirst(log: seq<Item>, q: seq<Item>)
    requires q != []
    ensures log + [q[0]] + q[1..] == log + q
  {
    assert q == [q[0]] + q[1..];
  }

  /** The queue drains: without arrivals three passes for each item in it publish and
      remove all of it, in order. */
  lemma {:induction false} Drains(g: Gateway)
    requires Inv(g) && g.mqtt && g.pub.PubIdle?
    ensures var g' := Run(g, Passes(3 * |g.queue|));
      && g'.queue == [] && g'.pub.PubIdle?
      && g'.log.published == g.log.published + g.queue && g'.log.removed == g.log.removed + g.queue
    decreases |g.queue|
  {
    if g.queue != [] {
      PublishesOne(g, 3 * |g.queue| - 3);
      FrontGoneKeepsInv(g);
      Drains(FrontGone(g));
      FrontFirst(g.log.published, g.queue);
      FrontFirst(g.log.removed, g.queue);
    }
  }

  /** Without MQTT two passes for each item take it off. */
  lemma {:induction false} DrainsUnpublished(g: Gateway)
    requires Inv(g) && !g.mqtt && g.pub.PubIdle?
    ensures var g' := Run(g, Passes(2 * |g.queue|));
      && g'.queue == [] && g'.log.published == g.log.published && g'.log.removed == g.log.removed + g.queue
    decreases |g.queue|
  {
    if g.queue != [] {
      var n := 2 * |g.queue| - 2;
      RunPass(g, n + 1);
      RunPass(Next(g, PubStep(true, true)), n);
      NextKeepsInv(g, PubStep(true, true));
      NextKeepsInv(Next(g, PubStep(true, true)), PubStep(true, true));
      DrainsUnpublished(Next(Next(g, PubStep(true, true)), PubStep(true, true)));
      FrontFirst(g.log.removed, g.queue);
    }
  }

  /** What one pass of the receive task does: it goes on exactly if there is room, accepts
      exactly what arrives then, and queues exactly that behind all else. */
  lemma {:induction false} ReceivesIff(g: Gateway, arrival: Option<Item>)
    requires Inv(g)
    ensures var g' := Next(g, RxStep(arrival));
      && (g.rx.RxIdle? ==> (g'.rx.RxCleared? <==> |g.queue| < 32) && (!g'.rx.RxCleared? ==> g' == g))
      && g'.log.accepted == g.log.accepted + (if g.rx.RxCleared? && arrival.Some? then [arrival.value] else [])
      && g'.queue == g.queue + Held(g)
      && Held(g') == (if g.rx.RxCleared? && arrival.Some? then [arrival.value] else [])
      && (g.rx.RxHolds? || (g.rx.RxCleared? && arrival.None?) ==> g'.rx.RxIdle?)
      && g'.pub == g.pub && g'.log.published == g.log.published && g'.log.removed == g.log.removed
  {}

  /** Removing without having peeked the same item first would break that order: the
      front of the queue is only safe to remove because no one else removes. */
  lemma {:induction false} PeekStaysFront(g: Gateway, arrivals: seq<Option<Item>>)
    requires Inv(g) && !g.pub.PubIdle?
    ensures var g' := Run(g, seq(|arrivals|, k requires 0 <= k < |arrivals| => RxStep(arrivals[k])));
      g'.pub == g.pub && g'.queue != [] && g'.queue[0] == g.pub.item
    decreases |arrivals|
  {
    var steps := seq(|arrivals|, k requires 0 <= k < |arrivals| => RxStep(arrivals[k]));
    if arrivals != [] {
      NextKeepsInv(g, steps[0]);
      PeekStaysFront(Next(g, steps[0]), arrivals[1..]);
      assert steps[1..] == seq(|arrivals[1..]|, k requires 0 <= k < |arrivals[1..]| => RxStep(arrivals[1..][k]));
    }
  }
}

/** The gateway node in place. */
module Gateways {
  import opened Wire
  import opened GatewaySpec

  class GatewayNode {
    const mqttEnabled: bool
    /** The FreeRTOS queue both tasks share. */
    var readings: seq<Item>
    var rx: RxTask
    var pub: PubTask
    ghost var log: Log

    ghost function Model(): Gateway
      reads this
    {
      Gateway(mqttEnabled, readings, rx, pub, log)
    }

    constructor (mqttEnabled: bool)
      ensures Model() == Boot(mqttEnabled)
    {
      this.mqttEnabled := mqttEnabled;
      readings, rx, pub, log := [], RxIdle, PubIdle, Log([], [], [], []);
    }

    /** xQueueSend() with no wait. */
    method QueueSend(item: Item) returns (ok: bool)
      modifies `readings
      ensures ok <==> |old(readings)| < READINGS_DEPTH
      ensures readings == if ok then old(readings) + [item] else old(readings)
    {
      ok := |readings| < READINGS_DEPTH;
      if ok {
        readings := readings + [item];
      }
    }

    /** xQueueReceive() with no wait. */
    method QueueReceive()
      modifies `readings, `log
      ensures old(readings) == [] ==> readings == [] && log == old(log)
      ensures old(readings) != [] ==> readings == old(readings)[1..]
      ensures old(readings) != [] ==> log == old(log).(removed := old(log.removed) + [old(readings)[0]])
    {
      if readings != [] {
        log := log.(removed := log.removed + [readings[0]]);
        readings := readings[1..];
      }
    }

    /** loraRxTask() up to its next queue operation. */
    method RxTaskStep(arrival: Option<Item>)
      modifies this
      ensures Model() == Next(old(Model()), RxStep(arrival))
    {
      match rx {
        case RxIdle =>
          if |readings| == READINGS_DEPTH {
            return;
          }
          rx := RxCleared;
        case RxCleared =>
          match arrival {
            case None => rx := RxIdle;
            case Some(item) =>
              log := log.(accepted := log.accepted + [item]);
              rx := RxHolds(item);
          }
        case RxHolds(item) =>
          var queued := QueueSend(item);
          if !queued {
            log := log.(lost := log.lost + [item]);
          }
          rx := RxIdle;
      }
    }

    /** gatewayLoop() up to its next queue operation or publish. */
    method LoopStep(connected: bool, publishOk: bool)
      modifies this
      ensures Model() == Next(old(Model()), PubStep(connected, publishOk))
    {
      match pub {
        case PubIdle =>
          if readings == [] {
            return;
          }
          pub := PubPeeked(readings[0]);
        case PubPeeked(item) =>
          if !mqttEnabled {
            QueueReceive();
            pub := PubIdle;
            return;
          }
          if !connected || !publishOk {
            pub := PubIdle;
            return;
          }
          log := log.(published := log.published + [item]);
          pub := PubPublished(item);
        case PubPublished(item) =>
          QueueReceive();
          pub := PubIdle;
      }
    }

    /** Runs the two tasks under a schedule. */
    method Interleave(schedule: seq<Step>)
      requires Inv(Model())
      modifies this
      ensures Model() == Run(old(Model()), schedule) && Inv(Model())
    {
      ghost var g := Model();
      for k := 0 to |schedule|
        invariant Run(Model(), schedule[k..]) == Run(g, schedule)
        invariant Inv(Model())
      {
        assert schedule[k..][1..] == schedule[k + 1..];
        NextKeepsInv(Model(), schedule[k]);
        match schedule[k] {
          case RxStep(arrival) => RxTaskStep(arrival);
          case PubStep(connected, published) => LoopStep(connected, published);
        }
      }
    }
  }
}
