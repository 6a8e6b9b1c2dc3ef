/** What becomes of a reading the substation relays: what its ACK removes, and that relays
    which go through empty the buffer. */
module RelayRuns {
  import opened Wire
  import opened Clock
  import opened StationSpec
  import B = BufferSpec
  import L = LoRaSpec

  /** One send is under way during the whole run. */
  ghost predicate UnderWay(s: Station, c: L.Config, es: seq<Event>)
    requires Valid(s, c)
    decreases |es|
  {
    s.link.phase != L.Idle && (es != [] ==> (NextValid(s, c, es[0]); UnderWay(Next(s, c, es[0]), c, es[1..])))
  }

  /** A reading of this UID is buffered while 288 of them wait. */
  predicate Floods(s: Station, e: Event, uid: Uid) {
    e.ReadingFrame? && Buffers(s, e.mac, e.p) && e.p.uid == uid && |B.QueueOf(s.buffer, uid)| == 288
  }

  ghost predicate Flooded(s: Station, c: L.Config, es: seq<Event>, uid: Uid)
    requires Valid(s, c)
    decreases |es|
  {
    es != [] && (Floods(s, es[0], uid) || (NextValid(s, c, es[0]); Flooded(Next(s, c, es[0]), c, es[1..], uid)))
  }

  lemma {:induction false} ShownStep(s: Station, c: L.Config, e: Event, r: Reading)
    requires Valid(s, c) && s.link.phase != L.Idle && Next(s, c, e).link.phase != L.Idle
    requires B.Popped(s.buffer) == Some(r)
    ensures Valid(Next(s, c, e), c)
    ensures B.Popped(Next(s, c, e).buffer) == if Floods(s, e, r.uid) then None else Some(r)
  {
    NextValid(s, c, e);
    if e.ReadingFrame? {
      B.PushCancelsIff(s.buffer, e.p);
    }
  }

  lemma {:induction false} CancelledStays(s: Station, c: L.Config, es: seq<Event>)
    requires Valid(s, c) && UnderWay(s, c, es) && B.Popped(s.buffer) == None
    ensures B.Popped(Run(s, c, es).buffer) == None
    decreases |es|
  {
    if es != [] {
      NextValid(s, c, es[0]);
      CancelledStays(Next(s, c, es[0]), c, es[1..]);
    }
  }

  /** While a send is under way, whatever arrives, the pop of its reading stays pending
      exactly as long as that UID is not flooded. */
  lemma {:induction false} ShownStaysIff(s: Station, c: L.Config, es: seq<Event>, r: Reading)
    requires Valid(s, c) && UnderWay(s, c, es) && B.Popped(s.buffer) == Some(r)
    ensures B.Popped(Run(s, c, es).buffer) == if Flooded(s, c, es, r.uid) then None else Some(r)
    decreases |es|
  {
    if es != [] {
      ShownStep(s, c, es[0], r);
      if Floods(s, es[0], r.uid) {
        CancelledStays(Next(s, c, es[0]), c, es[1..]);
      } else {
        ShownStaysIff(Next(s, c, es[0]), c, es[1..], r);
      }
    }
  }

  /** What a pass that starts a relay leaves: the reading in flight is the head of a FIFO,
      and its pop is pending. */
  lemma {:induction false} StartShows(s: Station, c: L.Config, i: L.Poll, begun: U32)
    requires Valid(s, c) && s.link.phase == L.Idle && RelayStep(s, c, i, begun).link.phase == L.Transmit
    ensures var s' := RelayStep(s, c, i, begun);
      var r := s'.inFlight.ToReading();
      && Valid(s', c) && B.View(s'.buffer) == B.View(s.buffer)
      && r.uid in B.View(s.buffer) && r.sample == B.View(s.buffer)[r.uid][0]
      && B.Popped(s'.buffer) == Some(r)
  {
    RelayValid(s, c, i, begun);
    B.PeekRefinesMap(s.buffer);
  }

  /** The map without the head of one FIFO. */
  function Without(view: map<Uid, seq<Sample>>, uid: Uid): map<Uid, seq<Sample>>
    requires uid in view && view[uid] != []
  {
    if |view[uid]| == 1 then view - {uid} else view[uid := view[uid][1..]]
  }

  /** A relay from its start to its ACK, with anything arriving in between: the ACK removes
      the reading that was relayed if and only if its UID was not flooded meanwhile, and
      otherwise it removes nothing. */
  lemma {:induction false} AckRemovesIff(s: Station, c: L.Config, i: L.Poll, begun: U32, es: seq<Event>, j: L.Poll)
    requires Valid(s, c) && s.link.phase == L.Idle && RelayStep(s, c, i, begun).link.phase == L.Transmit
    requires Valid(RelayStep(s, c, i, begun), c) && UnderWay(RelayStep(s, c, i, begun), c, es)
    requires L.Step(Run(RelayStep(s, c, i, begun), c, es).link, c, j).1 == L.Acked
    ensures var s0 := RelayStep(s, c, i, begun);
      var s1 := Run(s0, c, es);
      var s2 := RelayStep(s1, c, j, begun);
      var r := s0.inFlight.ToReading();
      && s2.link.phase == L.Idle
      && if Flooded(s0, c, es, r.uid) then s2.buffer == s1.buffer
         else
           && r.uid in B.View(s1.buffer) && B.View(s1.buffer)[r.uid] != [] && B.View(s1.buffer)[r.uid][0] == r.sample
           && B.View(s2.buffer) == Without(B.View(s1.buffer), r.uid)
  {
    StartShows(s, c, i, begun);
    var s0 := RelayStep(s, c, i, begun);
    ShownStaysIff(s0, c, es, s0.inFlight.ToReading());
    var s1 := Run(s0, c, es);
    B.PopRefinesMap(s1.buffer);
    ViewsAreFull(s1.buffer);
  }

  lemma {:induction false} ViewsAreFull(b: B.Buffer)
    requires B.Valid(b)
    ensures forall uid :: uid in B.View(b) ==> B.View(b)[uid] != []
  {
    forall uid | uid in B.View(b) ensures B.View(b)[uid] != [] {
      B.InHolders(b.slots, uid, 0);
    }
  }

  // -------------------------------------------------------------------- draining

  /** Three passes that find the deadline past, a radio that sends, and the gateway's ACK of
      what was shown. */
  function Delivery(s: Station, at: U32): seq<Event>
    requires B.Valid(s.buffer) && B.PeekOut(s.buffer).Some?
  {
    [Relay(L.Poll(at, at, true, None), at), Relay(L.Poll(at, at, true, None), at),
     Relay(L.Poll(at, at, true, Some(B.PeekOut(s.buffer).value.ToReading().Key())), at)]
  }

  lemma {:induction false} RunCons(s: Station, c: L.Config, e: Event, rest: seq<Event>)
    requires Valid(s, c)
    ensures Valid(Next(s, c, e), c) && Run(s, c, [e] + rest) == Run(Next(s, c, e), c, rest)
  {
    assert ([e] + rest)[1..] == rest;
    NextValid(s, c, e);
  }

  lemma {:induction false} RunThree(s: Station, c: L.Config, a: Event, b: Event, d: Event, rest: seq<Event>)
    requires Valid(s, c)
    ensures var s1 := Next(s, c, a);
      && Valid(s1, c) && Valid(Next(s1, c, b), c) && Valid(Next(Next(s1, c, b), c, d), c)
      && Run(s, c, [a, b, d] + rest) == Run(Next(Next(s1, c, b), c, d), c, rest)
  {
    assert [a, b, d] + rest == [a] + ([b] + ([d] + rest));
    RunCons(s, c, a, [b] + ([d] + rest));
    RunCons(Next(s, c, a), c, b, [d] + rest);
    RunCons(Next(Next(s, c, a), c, b), c, d, rest);
  }

  /** They relay the reading shown and remove exactly that. */
  lemma {:induction false} Delivers(s: Station, c: L.Config, at: U32, rest: seq<Event>)
    requires Valid(s, c) && s.link.phase == L.Idle && !Before(at, s.nextSendAt) && B.PeekOut(s.buffer).Some?
    ensures var p := B.PeekOut(s.buffer).value;
      var link := L.Link(p, 1, L.Idle, at);
      var s' := s.(buffer := B.Pop(B.Peek(s.buffer)), inFlight := p, link := link);
      Valid(s', c) && Run(s, c, Delivery(s, at) + rest) == Run(s', c, rest)
  {
    var d := Delivery(s, at);
    RunThree(s, c, d[0], d[1], d[2], rest);
  }

  /** n deliveries in a row. */
  function Deliveries(s: Station, c: L.Config, at: U32, n: nat): seq<Event>
    requires Valid(s, c)
    decreases n
  {
    if n == 0 || B.PeekOut(s.buffer).None? then []
    else
      var d := Delivery(s, at);
      d + Deliveries(Run(s, c, d), c, at, n - 1)
  }

  lemma {:induction false} DeliveriesMore(s: Station, c: L.Config, at: U32, n: nat)
    requires Valid(s, c) && n > 0 && B.PeekOut(s.buffer).Some?
    ensures Deliveries(s, c, at, n) == Delivery(s, at) + Deliveries(Run(s, c, Delivery(s, at)), c, at, n - 1)
  {}

  /** One delivery leaves one reading less and everything else that matters as it was. */
  lemma {:induction false} DeliveredOne(s: Station, c: L.Config, at: U32)
    requires Valid(s, c) && s.link.phase == L.Idle && !Before(at, s.nextSendAt) && B.PeekOut(s.buffer).Some?
    ensures var s' := Run(s, c, Delivery(s, at));
      && s'.link.phase == L.Idle && s'.nextSendAt == s.nextSendAt
      && B.TotalFrom(s'.buffer.slots, 0) == B.TotalFrom(s.buffer.slots, 0) - 1
      && forall rest :: Run(s, c, Delivery(s, at) + rest) == Run(s', c, rest)
  {
    var d := Delivery(s, at);
    assert d + [] == d;
    Delivers(s, c, at, []);
    B.PeekRefinesMap(s.buffer);
    B.CountConserved(B.Peek(s.buffer), Zeroed);
    forall rest ensures Run(s, c, d + rest) == Run(Run(s, c, d), c, rest) {
      Delivers(s, c, at, rest);
    }
  }

  /** As many deliveries as there are readings empty the buffer, whatever the readings. */
  lemma {:induction false} DeliveriesDrain(s: Station, c: L.Config, at: U32)
    requires Valid(s, c) && s.link.phase == L.Idle && !Before(at, s.nextSendAt)
    ensures var n := B.TotalFrom(s.buffer.slots, 0);
      && |Deliveries(s, c, at, n)| == 3 * n
      && B.View(Run(s, c, Deliveries(s, c, at, n)).buffer) == map[]
    decreases B.TotalFrom(s.buffer.slots, 0)
  {
    var n := B.TotalFrom(s.buffer.slots, 0);
    if B.PeekOut(s.buffer).None? {
      NothingHeld(s.buffer);
    } else {
      DeliveredOne(s, c, at);
      DeliveriesDrain(Run(s, c, Delivery(s, at)), c, at);
      DeliveriesMore(s, c, at, n);
    }
  }

  lemma {:induction false} NothingHeld(b: B.Buffer)
    requires B.Valid(b) && B.PeekOut(b).None?
    ensures B.TotalFrom(b.slots, 0) == 0 && B.View(b) == map[]
  {
    B.PeeksNone(b);
    B.HoldersEmpty(b.slots, 0);
    NoTotal(b.slots, 0);
  }

  lemma {:induction false} NoTotal(slots: seq<B.Slot>, i: nat)
    requires i <= |slots| && forall k :: i <= k < |slots| ==> slots[k].Free?
    ensures B.TotalFrom(slots, i) == 0
    decreases |slots| - i
  {
    if i < |slots| {
      NoTotal(slots, i + 1);
    }
  }
}
