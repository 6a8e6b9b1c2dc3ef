/** How often one reading reaches the broker: a substation's sends and the gateway, over a
    radio that loses what it likes but repeats and forges nothing. */
module Duplicates {
  import opened Wire
  import opened Clock
  import L = LoRaSpec
  import G = GatewaySpec

  /** What became of every Payload and every ACK: those sent, those lost on the way, the
      ACKs that ended a send, and the ACKs that did not. */
  datatype Log = Log(transmitted: multiset<Payload>, lost: multiset<Payload>,
                     taken: multiset<AckPayload>, missed: multiset<AckPayload>)

  /** The two ends, and what is under way between them. */
  datatype Hop = Hop(link: L.Link, gateway: G.Gateway,
                     payloads: multiset<Payload>, acks: multiset<AckPayload>, log: Log)

  datatype Event =
    | Begin(p: Payload, now: U32)
    | Poll(i: L.Poll)
    | Gate(step: G.Step)
    | LosePayload(p: Payload)
    | LoseAck(a: AckPayload)

  function Start(mqtt: bool, link: L.Link): Hop {
    Hop(link, G.Boot(mqtt), multiset{}, multiset{}, Log(multiset{}, multiset{}, multiset{}, multiset{}))
  }

  /** Nothing is received that is not under way. The link reads the radio only while it
      awaits an ACK, and the gateway only once it has seen room. */
  predicate Enabled(h: Hop, e: Event) {
    match e
    case Begin(_, _) => h.link.phase == L.Idle
    case Poll(i) => h.link.phase == L.AwaitAck && i.heard.Some? ==> i.heard.value in h.acks
    case Gate(s) => s.RxStep? && s.arrival.Some? && h.gateway.rx.RxCleared? ==> s.arrival.value.payload in h.payloads
    case LosePayload(p) => p in h.payloads
    case LoseAck(a) => a in h.acks
  }

  /** The link transmits. */
  function Transmitted(h: Hop, link: L.Link): Hop {
    var p := multiset{h.link.pending};
    h.(link := link, payloads := h.payloads + p, log := h.log.(transmitted := h.log.transmitted + p))
  }

  /** The link reads an ACK, which ends its send or does not. */
  function Heard(h: Hop, link: L.Link, a: AckPayload, ends: bool): Hop {
    var ack := multiset{a};
    h.(link := link, acks := h.acks - ack,
       log := if ends then h.log.(taken := h.log.taken + ack) else h.log.(missed := h.log.missed + ack))
  }

  function PollNext(h: Hop, c: L.Config, i: L.Poll): Hop {
    var (link, status) := L.Step(h.link, c, i);
    if h.link.phase == L.Transmit then Transmitted(h, link)
    else if h.link.phase == L.AwaitAck && i.heard.Some? then Heard(h, link, i.heard.value, status == L.Acked)
    else h.(link := link)
  }

  function GateNext(h: Hop, s: G.Step): Hop {
    var g := G.Next(h.gateway, s);
    if s.RxStep? && s.arrival.Some? && h.gateway.rx.RxCleared? then
      var p := s.arrival.value.payload;
      h.(gateway := g, payloads := h.payloads - multiset{p}, acks := h.acks + multiset{p.ToReading().Key()})
    else h.(gateway := g)
  }

  function Next(h: Hop, c: L.Config, e: Event): Hop {
    match e
    case Begin(p, now) => h.(link := L.Begin(p, now))
    case Poll(i) => PollNext(h, c, i)
    case Gate(s) => GateNext(h, s)
    case LosePayload(p) => h.(payloads := h.payloads - multiset{p}, log := h.log.(lost := h.log.lost + multiset{p}))
    case LoseAck(a) => h.(acks := h.acks - multiset{a}, log := h.log.(missed := h.log.missed + multiset{a}))
  }

  predicate Legal(h: Hop, c: L.Config, es: seq<Event>)
    decreases |es|
  {
    es == [] || (Enabled(h, es[0]) && Legal(Next(h, c, es[0]), c, es[1..]))
  }

  function Run(h: Hop, c: L.Config, es: seq<Event>): Hop
    decreases |es|
  {
    if es == [] then h else Run(Next(h, c, es[0]), c, es[1..])
  }

  // ------------------------------------------------------------------ what adds up

  function Payloads(items: seq<G.Item>): multiset<Payload> {
    if items == [] then multiset{}
    else Payloads(items[..|items| - 1]) + multiset{items[|items| - 1].payload}
  }

  function Keys(items: seq<G.Item>): multiset<AckPayload> {
    if items == [] then multiset{}
    else Keys(items[..|items| - 1]) + multiset{items[|items| - 1].payload.ToReading().Key()}
  }

  /** All that was sent got there, got lost, or is under way. */
  ghost predicate Adds<T>(there: multiset<T>, lost: multiset<T>, under: multiset<T>, all: multiset<T>) {
    there + lost + under == all
  }

  lemma {:induction false} AddsMoves<T>(there: multiset<T>, lost: multiset<T>, under: multiset<T>,
          all: multiset<T>, x: T)
    requires Adds(there, lost, under, all)
    ensures Adds(there, lost, under + multiset{x}, all + multiset{x})
    ensures x in under ==> Adds(there + multiset{x}, lost, under - multiset{x}, all)
    ensures x in under ==> Adds(there, lost + multiset{x}, under - multiset{x}, all)
  {}

  /** Every transmission was accepted once, lost, or is under way; every acceptance sent
      one ACK, which ended a send, ended none, or is under way. */
  ghost predicate Inv(h: Hop) {
    && G.Inv(h.gateway)
    && Adds(Payloads(h.gateway.log.accepted), h.log.lost, h.payloads, h.log.transmitted)
    && Adds(h.log.taken, h.log.missed, h.acks, Keys(h.gateway.log.accepted))
  }

  lemma {:induction false} OneAccepted(was: seq<G.Item>, item: G.Item)
    ensures Payloads(was + [item]) == Payloads(was) + multiset{item.payload}
    ensures Keys(was + [item]) == Keys(was) + multiset{item.payload.ToReading().Key()}
  {
    assert (was + [item])[..|was|] == was;
  }

  /** The gateway accepts a Payload and sends its ACK. */
  lemma {:induction false} AcceptKeeps(h: Hop, item: G.Item)
    requires Inv(h) && h.gateway.rx.RxCleared? && item.payload in h.payloads
    ensures Inv(GateNext(h, G.RxStep(Some(item))))
  {
    var was := h.gateway.log.accepted;
    G.NextKeepsInv(h.gateway, G.RxStep(Some(item)));
    OneAccepted(was, item);
    AddsMoves(Payloads(was), h.log.lost, h.payloads, h.log.transmitted, item.payload);
    AddsMoves(h.log.taken, h.log.missed, h.acks, Keys(was), item.payload.ToReading().Key());
  }

  /** Any other step of either task accepts nothing. */
  lemma {:induction false} AcceptsNothing(g: G.Gateway, s: G.Step)
    requires !(s.RxStep? && s.arrival.Some? && g.rx.RxCleared?)
    ensures G.Next(g, s).log.accepted == g.log.accepted
  {}

  lemma {:induction false} GateKeeps(h: Hop, s: G.Step)
    requires Inv(h) && Enabled(h, Gate(s))
    ensures Inv(GateNext(h, s))
  {
    if s.RxStep? && s.arrival.Some? && h.gateway.rx.RxCleared? {
      AcceptKeeps(h, s.arrival.value);
    } else {
      G.NextKeepsInv(h.gateway, s);
      AcceptsNothing(h.gateway, s);
    }
  }

  lemma {:induction false} TransmittedKeeps(h: Hop, link: L.Link)
    requires Inv(h)
    ensures Inv(Transmitted(h, link))
  {
    AddsMoves(Payloads(h.gateway.log.accepted), h.log.lost, h.payloads, h.log.transmitted, h.link.pending);
  }

  lemma {:induction false} HeardKeeps(h: Hop, link: L.Link, a: AckPayload, ends: bool)
    requires Inv(h) && a in h.acks
    ensures Inv(Heard(h, link, a, ends))
  {
    AddsMoves(h.log.taken, h.log.missed, h.acks, Keys(h.gateway.log.accepted), a);
  }

  lemma {:induction false} PollKeeps(h: Hop, c: L.Config, i: L.Poll)
    requires Inv(h) && Enabled(h, Poll(i))
    ensures Inv(PollNext(h, c, i))
  {
    var (link, status) := L.Step(h.link, c, i);
    if h.link.phase == L.Transmit {
      TransmittedKeeps(h, link);
    } else if h.link.phase == L.AwaitAck && i.heard.Some? {
      HeardKeeps(h, link, i.heard.value, status == L.Acked);
    }
  }

  lemma {:induction false} NextKeepsInv(h: Hop, c: L.Config, e: Event)
    requires Inv(h) && Enabled(h, e)
    ensures Inv(Next(h, c, e))
  {
    var accepted := h.gateway.log.accepted;
    match e
    case Begin(_, _) =>
    case Poll(i) => PollKeeps(h, c, i);
    case Gate(s) => GateKeeps(h, s);
    case LosePayload(p) => AddsMoves(Payloads(accepted), h.log.lost, h.payloads, h.log.transmitted, p);
    case LoseAck(a) => AddsMoves(h.log.taken, h.log.missed, h.acks, Keys(accepted), a);
  }

  lemma {:induction false} RunKeepsInv(h: Hop, c: L.Config, es: seq<Event>)
    requires Inv(h) && Legal(h, c, es)
    ensures Inv(Run(h, c, es))
    decreases |es|
  {
    if es != [] {
      NextKeepsInv(h, c, es[0]);
      RunKeepsInv(Next(h, c, es[0]), c, es[1..]);
    }
  }

  lemma {:induction false} Started(mqtt: bool, link: L.Link)
    ensures Inv(Start(mqtt, link))
  {}

  // ----------------------------------------------------------- what is published twice

  /** Nothing between acceptance and the broker, and no ACK under way. */
  predicate Settled(h: Hop) {
    h.gateway.queue == [] && !h.gateway.rx.RxHolds? && h.acks == multiset{}
  }

  lemma {:induction false} SettledPublished(g: G.Gateway)
    requires G.Inv(g) && g.mqtt && g.queue == [] && !g.rx.RxHolds?
    ensures g.log.published == g.log.accepted
  {
    assert g.log.removed + [] + [] == g.log.removed;
  }

  /** After any run, once settled: a reading was published exactly as often as ACKs for it
      ended a send or were missed. */
  lemma {:induction false} PublishedCount(mqtt: bool, link: L.Link, c: L.Config, es: seq<Event>, k: AckPayload)
    requires Legal(Start(mqtt, link), c, es)
    ensures var h := Run(Start(mqtt, link), c, es);
      && Keys(h.gateway.log.accepted)[k] == h.log.taken[k] + h.log.missed[k] + h.acks[k]
      && (mqtt && Settled(h) ==> Keys(h.gateway.log.published)[k] == h.log.taken[k] + h.log.missed[k])
  {
    Started(mqtt, link);
    RunKeepsInv(Start(mqtt, link), c, es);
    StaysMqtt(Start(mqtt, link), c, es);
    var h := Run(Start(mqtt, link), c, es);
    assert (h.log.taken + h.log.missed + h.acks)[k] == h.log.taken[k] + h.log.missed[k] + h.acks[k];
    if mqtt && Settled(h) {
      SettledPublished(h.gateway);
    }
  }

  lemma {:induction false} GatewayStaysMqtt(g: G.Gateway, s: G.Step)
    ensures G.Next(g, s).mqtt == g.mqtt
  {}

  lemma {:induction false} OneStaysMqtt(h: Hop, c: L.Config, e: Event)
    ensures Next(h, c, e).gateway.mqtt == h.gateway.mqtt
  {
    match e
    case Gate(s) => GatewayStaysMqtt(h.gateway, s);
    case _ =>
  }

  lemma {:induction false} StaysMqtt(h: Hop, c: L.Config, es: seq<Event>)
    ensures Run(h, c, es).gateway.mqtt == h.gateway.mqtt
    decreases |es|
  {
    if es != [] {
      OneStaysMqtt(h, c, es[0]);
      StaysMqtt(Next(h, c, es[0]), c, es[1..]);
    }
  }

  /** This event is a poll that reports the send of reading k acknowledged. */
  predicate Acknowledges(h: Hop, c: L.Config, e: Event, k: AckPayload) {
    e.Poll? && L.Step(h.link, c, e.i).1 == L.Acked && h.link.pending.ToReading().Key() == k
  }

  /** Sends of reading k that ended acknowledged. */
  function Acknowledged(h: Hop, c: L.Config, es: seq<Event>, k: AckPayload): nat
    decreases |es|
  {
    if es == [] then 0
    else (if Acknowledges(h, c, es[0], k) then 1 else 0) + Acknowledged(Next(h, c, es[0]), c, es[1..], k)
  }

  lemma {:induction false} OneTaken(h: Hop, c: L.Config, e: Event, k: AckPayload)
    ensures Next(h, c, e).log.taken[k] == h.log.taken[k] + if Acknowledges(h, c, e, k) then 1 else 0
  {
    if e.Poll? && e.i.heard.Some? {
      var ack := e.i.heard.value;
      assert (h.log.taken + multiset{ack})[k] == h.log.taken[k] + if ack == k then 1 else 0;
    }
  }

  /** The ACKs taken for a reading are the sends of it that ended acknowledged. */
  lemma {:induction false} TakenAreAcknowledged(h: Hop, c: L.Config, es: seq<Event>, k: AckPayload)
    ensures Run(h, c, es).log.taken[k] == h.log.taken[k] + Acknowledged(h, c, es, k)
    decreases |es|
  {
    if es != [] {
      OneTaken(h, c, es[0], k);
      TakenAreAcknowledged(Next(h, c, es[0]), c, es[1..], k);
    }
  }

  /** So a reading whose one acknowledged send is over is published more than once if and
      only if an ACK for it was missed; and exactly once more for each of them. */
  lemma {:induction false} PublishedTwiceIff(link: L.Link, c: L.Config, es: seq<Event>, k: AckPayload)
    requires Legal(Start(true, link), c, es) && Settled(Run(Start(true, link), c, es))
    requires Acknowledged(Start(true, link), c, es, k) == 1
    ensures var h := Run(Start(true, link), c, es);
      && (Keys(h.gateway.log.published)[k] > 1 <==> k in h.log.missed)
      && Keys(h.gateway.log.published)[k] == 1 + h.log.missed[k]
  {
    PublishedCount(true, link, c, es, k);
    TakenAreAcknowledged(Start(true, link), c, es, k);
  }

  // ------------------------------------------------------------- and that it happens

  lemma {:induction false} RunFirst(h: Hop, c: L.Config, e: Event, es: seq<Event>)
    ensures Legal(h, c, [e] + es) <==> Enabled(h, e) && Legal(Next(h, c, e), c, es)
    ensures Run(h, c, [e] + es) == Run(Next(h, c, e), c, es)
  {
    assert ([e] + es)[1..] == es;
  }

  lemma {:induction false} RunTwo(h: Hop, c: L.Config, e: Event, f: Event)
    ensures Legal(h, c, [e, f]) <==> Enabled(h, e) && Enabled(Next(h, c, e), f)
    ensures Run(h, c, [e, f]) == Next(Next(h, c, e), c, f)
  {
    assert [e] + [f] == [e, f] && [f] + [] == [f];
    RunFirst(h, c, e, [f]);
    RunFirst(Next(h, c, e), c, f, []);
  }

  lemma {:induction false} RunBoth(h: Hop, c: L.Config, es: seq<Event>, fs: seq<Event>)
    requires Legal(h, c, es) && Legal(Run(h, c, es), c, fs)
    ensures Legal(h, c, es + fs) && Run(h, c, es + fs) == Run(Run(h, c, es), c, fs)
    decreases |es|
  {
    if es == [] {
      assert es + fs == fs;
    } else {
      assert (es + fs)[1..] == es[1..] + fs;
      RunBoth(Next(h, c, es[0]), c, es[1..], fs);
    }
  }

  /** A transmission that reaches the gateway. */
  function Crossing(p: Payload, now: U32): seq<Event> {
    [Poll(L.Poll(now, now, true, None)), Gate(G.RxStep(None)), Gate(G.RxStep(Some(G.Item(p, 0, 0))))]
  }

  /** Nothing is under way, and the gateway is about to look at its queue, which has room. */
  predicate Quiet(h: Hop) {
    h.payloads == multiset{} && h.acks == multiset{} && h.gateway.rx == G.RxIdle && |h.gateway.queue| < G.READINGS_DEPTH
  }

  lemma {:induction false} Crosses(h: Hop, c: L.Config, p: Payload, now: U32)
    requires Quiet(h) && h.link.phase == L.Transmit && h.link.pending == p && h.link.attempt < 0xFF
    ensures Legal(h, c, Crossing(p, now))
    ensures var item := G.Item(p, 0, 0);
      Run(h, c, Crossing(p, now)) ==
        Hop(L.Link(p, h.link.attempt + 1, L.AwaitAck, now),
            h.gateway.(rx := G.RxHolds(item), log := h.gateway.log.(accepted := h.gateway.log.accepted + [item])),
            multiset{}, multiset{p.ToReading().Key()}, h.log.(transmitted := h.log.transmitted + multiset{p}))
  {
    var e1, e2, e3 := Crossing(p, now)[0], Crossing(p, now)[1], Crossing(p, now)[2];
    var h1 := Next(h, c, e1);
    var h2 := Next(h1, c, e2);
    var h3 := Next(h2, c, e3);
    assert h1.payloads == multiset{p};
    assert h3.payloads == multiset{} && h3.acks == multiset{p.ToReading().Key()};
    RunFirst(h, c, e1, [e2, e3]);
    RunFirst(h1, c, e2, [e3]);
    RunFirst(h2, c, e3, []);
    assert [e1] + [e2, e3] == Crossing(p, now) && [e2] + [e3] == [e2, e3] && [e3] + [] == [e3];
  }

  /** The ACK is lost, and the link waits until it may try again. */
  function WaitedOut(c: L.Config, k: AckPayload, now: U32): seq<Event> {
    var late := Later(now, c.ackTimeoutMs);
    var again := Later(late, L.BACKOFF_MS);
    [LoseAck(k), Gate(G.RxStep(None)), Poll(L.Poll(late, late, true, None)), Poll(L.Poll(again, again, true, None))]
  }

  /** The link gives up waiting, and then its back-off ends. */
  lemma {:induction false} TimesOut(h: Hop, c: L.Config, now: U32)
    requires h.link.phase == L.AwaitAck && h.link.phaseStart == now && h.link.attempt < c.maxRetries
    ensures var late := Later(now, c.ackTimeoutMs);
      var again := Later(late, L.BACKOFF_MS);
      var es := [Poll(L.Poll(late, late, true, None)), Poll(L.Poll(again, again, true, None))];
      && Legal(h, c, es)
      && Run(h, c, es) == h.(link := L.Link(h.link.pending, h.link.attempt, L.Transmit, again))
  {
    var late := Later(now, c.ackTimeoutMs);
    var again := Later(late, L.BACKOFF_MS);
    var e, f := Poll(L.Poll(late, late, true, None)), Poll(L.Poll(again, again, true, None));
    var h1 := Next(h, c, e);
    assert h1.link.phase == L.Backoff && Next(h1, c, f).link.phase == L.Transmit;
    RunTwo(h, c, e, f);
  }

  lemma {:induction false} WaitsOut(h: Hop, c: L.Config, k: AckPayload, item: G.Item, now: U32)
    requires h.link.phase == L.AwaitAck && h.link.phaseStart == now && h.link.attempt < c.maxRetries
    requires h.payloads == multiset{} && h.acks == multiset{k}
    requires h.gateway.rx == G.RxHolds(item) && |h.gateway.queue| < G.READINGS_DEPTH
    ensures Legal(h, c, WaitedOut(c, k, now))
    ensures Run(h, c, WaitedOut(c, k, now)) ==
      Hop(L.Link(h.link.pending, h.link.attempt, L.Transmit, Later(Later(now, c.ackTimeoutMs), L.BACKOFF_MS)),
          h.gateway.(rx := G.RxIdle, queue := h.gateway.queue + [item]),
          multiset{}, multiset{}, h.log.(missed := h.log.missed + multiset{k}))
  {
    var es := WaitedOut(c, k, now);
    var h1 := Next(h, c, es[0]);
    assert h1.acks == multiset{};
    RunTwo(h, c, es[0], es[1]);
    TimesOut(Next(h1, c, es[1]), c, now);
    assert [es[0], es[1]] + [es[2], es[3]] == es;
    RunBoth(h, c, [es[0], es[1]], [es[2], es[3]]);
  }

  /** The first ACK is lost and the second is not. */
  function LostThenHeard(c: L.Config, p: Payload): seq<Event> {
    var k, again := p.ToReading().Key(), Later(Later(0, c.ackTimeoutMs), L.BACKOFF_MS);
    var last := Poll(L.Poll(again, again, true, Some(k)));
    [Begin(p, 0)] + (Crossing(p, 0) + (WaitedOut(c, k, 0) + (Crossing(p, again) + [last])))
  }

  lemma {:induction false} Rest(h1: Hop, h2: Hop, h3: Hop, h4: Hop, c: L.Config, p: Payload, last: Event, again: U32)
    requires Legal(h1, c, Crossing(p, 0)) && h2 == Run(h1, c, Crossing(p, 0))
    requires Legal(h2, c, WaitedOut(c, p.ToReading().Key(), 0))
    requires h3 == Run(h2, c, WaitedOut(c, p.ToReading().Key(), 0))
    requires Legal(h3, c, Crossing(p, again)) && h4 == Run(h3, c, Crossing(p, again)) && Enabled(h4, last)
    ensures var es := Crossing(p, 0) + (WaitedOut(c, p.ToReading().Key(), 0) + (Crossing(p, again) + [last]));
      Legal(h1, c, es) && Run(h1, c, es) == Next(h4, c, last)
  {
    var k := p.ToReading().Key();
    RunFirst(h4, c, last, []);
    assert [last] + [] == [last];
    RunBoth(h3, c, Crossing(p, again), [last]);
    RunBoth(h2, c, WaitedOut(c, k, 0), Crossing(p, again) + [last]);
    RunBoth(h1, c, Crossing(p, 0), WaitedOut(c, k, 0) + (Crossing(p, again) + [last]));
  }

  /** Up to the second ACK. */
  lemma {:induction false} CrossesTwice(h: Hop, c: L.Config, p: Payload) returns (h2: Hop, h3: Hop, h4: Hop)
    requires h.link == L.Begin(p, 0) && Quiet(h) && h.gateway.queue == [] && c.maxRetries >= 2
    ensures var k, again := p.ToReading().Key(), Later(Later(0, c.ackTimeoutMs), L.BACKOFF_MS);
      && Legal(h, c, Crossing(p, 0)) && h2 == Run(h, c, Crossing(p, 0))
      && Legal(h2, c, WaitedOut(c, k, 0)) && h3 == Run(h2, c, WaitedOut(c, k, 0))
      && Legal(h3, c, Crossing(p, again)) && h4 == Run(h3, c, Crossing(p, again))
      && h4.link == L.Link(p, 2, L.AwaitAck, again) && h4.acks == multiset{k} && h4.log.taken == h.log.taken
    ensures h4.gateway.log.accepted == h.gateway.log.accepted + [G.Item(p, 0, 0)] + [G.Item(p, 0, 0)]
  {
    var k, again := p.ToReading().Key(), Later(Later(0, c.ackTimeoutMs), L.BACKOFF_MS);
    h2 := Run(h, c, Crossing(p, 0));
    h3 := Run(h2, c, WaitedOut(c, k, 0));
    h4 := Run(h3, c, Crossing(p, again));
    Crosses(h, c, p, 0);
    WaitsOut(h2, c, k, G.Item(p, 0, 0), 0);
    Crosses(h3, c, p, again);
  }

  lemma {:induction false} TwoAlike(item: G.Item)
    ensures Keys([] + [item] + [item])[item.payload.ToReading().Key()] == 2
  {
    OneAccepted([], item);
    OneAccepted([] + [item], item);
  }

  /** With more than one attempt it does happen: one lost ACK, and one send of one reading
      is accepted twice although it ends acknowledged. */
  lemma {:induction false} LostAckAcceptsTwice(mqtt: bool, link: L.Link, c: L.Config, p: Payload)
    requires link.phase == L.Idle && c.maxRetries >= 2
    ensures var es, k := LostThenHeard(c, p), p.ToReading().Key();
      && Legal(Start(mqtt, link), c, es)
      && Run(Start(mqtt, link), c, es).log.taken[k] == 1
      && Keys(Run(Start(mqtt, link), c, es).gateway.log.accepted)[k] == 2
  {
    var k, again := p.ToReading().Key(), Later(Later(0, c.ackTimeoutMs), L.BACKOFF_MS);
    var last := Poll(L.Poll(again, again, true, Some(k)));
    var h0 := Start(mqtt, link);
    var h1 := Next(h0, c, Begin(p, 0));
    var h2, h3, h4 := CrossesTwice(h1, c, p);
    Rest(h1, h2, h3, h4, c, p, last, again);
    RunFirst(h0, c, Begin(p, 0), Crossing(p, 0) + (WaitedOut(c, k, 0) + (Crossing(p, again) + [last])));
    TwoAlike(G.Item(p, 0, 0));
  }
}
