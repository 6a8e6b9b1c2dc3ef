/** The substation: joined table, buffering, delivery ACKs and the LoRa relay, one
    handler step at a time. */
module StationSpec {
  import opened Wire
  import opened Clock
  import B = BufferSpec
  import R = BufferRuns
  import L = LoRaSpec

  const RETRY_BACKOFF_MS: nat := 30000
  const BEACON_INTERVAL_MS: nat := 1000

  /** A meter node that completed the discovery handshake. */
  datatype JoinedNode = JoinedNode(mac: Mac, uid: Uid, lastSeq: U32, hasSeq: bool)

  datatype Station = Station(
    joined: seq<JoinedNode>, epoch: U32, nextBeaconAt: U32, nextSendAt: U32,
    inFlight: Payload, buffer: B.Buffer, link: L.Link)

  /** Index of a MAC in the joined table, or the table's length. */
  function FindJoined(joined: seq<JoinedNode>, mac: Mac, from: nat): (k: nat)
    requires from <= |joined|
    ensures from <= k <= |joined|
    ensures k < |joined| ==> joined[k].mac == mac
    ensures forall i :: from <= i < k ==> joined[i].mac != mac
    decreases |joined| - from
  {
    if from == |joined| || joined[from].mac == mac then from else FindJoined(joined, mac, from + 1)
  }

  predicate HasJoined(s: Station, mac: Mac) {
    FindJoined(s.joined, mac, 0) < |s.joined|
  }

  /** The table after a Join, or None if it is ignored. */
  function JoinTable(s: Station, mac: Mac, epoch: U32, uid: Uid): Option<seq<JoinedNode>> {
    var k := FindJoined(s.joined, mac, 0);
    if epoch != s.epoch then None
    else if k < |s.joined| then
      var n := s.joined[k];
      Some(s.joined[k := n.(uid := uid, hasSeq := n.hasSeq && n.uid == uid)])
    else if |s.joined| == B.MAX_NODES then None
    else Some(s.joined + [JoinedNode(mac, uid, 0, false)])
  }

  /** handleJoin(): the station after it, and the JoinAck it sends. */
  function HandleJoin(s: Station, mac: Mac, epoch: U32, uid: Uid, peerOk: bool): (Station, Option<LinkFrame>) {
    match JoinTable(s, mac, epoch, uid)
    case None => (s, None)
    case Some(table) =>
      (s.(joined := table), if peerOk then Some(LinkFrame(JoinAck, s.epoch, uid)) else None)
  }

  /** A reading whose sequence number was the last ACKed for its MAC. */
  predicate Duplicate(s: Station, mac: Mac, p: Payload) {
    var k := FindJoined(s.joined, mac, 0);
    k < |s.joined| && s.joined[k].hasSeq && s.joined[k].lastSeq == p.sample.seqNo
  }

  /** The reading goes into the buffer. */
  predicate Buffers(s: Station, mac: Mac, p: Payload) {
    HasJoined(s, mac) && !Duplicate(s, mac, p) && B.Accepts(s.buffer, p.uid)
  }

  /** The reading part of handleIncoming(): the station after it, and the ACK it sends. */
  function HandleReading(s: Station, mac: Mac, p: Payload): (Station, Option<AckPayload>) {
    var k := FindJoined(s.joined, mac, 0);
    if Buffers(s, mac, p) then
      (s.(buffer := B.Push(s.buffer, p),
          joined := s.joined[k := s.joined[k].(lastSeq := p.sample.seqNo, hasSeq := true)]),
       Some(p.ToReading().Key()))
    else if Duplicate(s, mac, p) then (s, Some(p.ToReading().Key()))
    else (s, None)
  }

  /** relayStep(): `i.after` is the clock it compares with, `begun` the clock a new send starts at. */
  function RelayStep(s: Station, c: L.Config, i: L.Poll, begun: U32): Station
    requires B.Valid(s.buffer)
  {
    var after := L.Step(s.link, c, i);
    match after.1
    case Pending => s.(link := after.0)
    case Acked => s.(link := after.0, buffer := B.Pop(s.buffer))
    case Failed => s.(link := after.0, nextSendAt := Later(i.after, RETRY_BACKOFF_MS))
    case NoSend =>
      if Before(i.after, s.nextSendAt) then s
      else
        match B.PeekOut(s.buffer)
        case None => s.(buffer := B.Peek(s.buffer))
        case Some(p) => s.(buffer := B.Peek(s.buffer), inFlight := p, link := L.Begin(p, begun))
  }

  /** beaconIfDue(): reads the clock once to test, once to set the next deadline. */
  function BeaconIfDue(s: Station, now: U32, after: U32): (Station, bool) {
    if Before(now, s.nextBeaconAt) then (s, false)
    else (s.(nextBeaconAt := Later(after, BEACON_INTERVAL_MS)), true)
  }

  // ---------------------------------------------------------------- invariant

  ghost predicate DistinctMacs(joined: seq<JoinedNode>) {
    forall i, j :: 0 <= i < j < |joined| ==> joined[i].mac != joined[j].mac
  }

  /** While a send is in flight the link carries `inFlight`, and a pending pop would
      remove exactly that reading or has been cancelled. */
  ghost predicate PopIsSound(s: Station)
    requires B.Valid(s.buffer)
  {
    s.link.phase != L.Idle ==>
      && s.link.pending == s.inFlight
      && (B.Popped(s.buffer) == None || B.Popped(s.buffer) == Some(s.inFlight.ToReading()))
  }

  ghost predicate Valid(s: Station, c: L.Config) {
    && B.Valid(s.buffer) && L.Valid(s.link, c)
    && |s.joined| <= B.MAX_NODES && DistinctMacs(s.joined)
    && PopIsSound(s)
  }

  const Zeroed: Payload := Payload(0, Sample(0, 0, 0, 0), Ids(0, 0, 0))

  function Boot(epoch: U32): Station {
    Station([], epoch, 0, 0, Zeroed, B.Empty, L.Link(Zeroed, 0, L.Idle, 0))
  }

  datatype Event =
    | JoinFrame(mac: Mac, epoch: U32, uid: Uid, peerOk: bool)
    | ReadingFrame(mac: Mac, p: Payload)
    | Relay(i: L.Poll, begun: U32)
    | BeaconPass(now: U32, after: U32)

  function Next(s: Station, c: L.Config, e: Event): Station
    requires B.Valid(s.buffer)
  {
    match e
    case JoinFrame(mac, epoch, uid, peerOk) => HandleJoin(s, mac, epoch, uid, peerOk).0
    case ReadingFrame(mac, p) => HandleReading(s, mac, p).0
    case Relay(i, begun) => RelayStep(s, c, i, begun)
    case BeaconPass(now, after) => BeaconIfDue(s, now, after).0
  }

  /** A push leaves a pending pop pointing at the same reading, or cancels it. */
  lemma {:induction false} PushKeepsPeek(b: B.Buffer, p: Payload)
    requires B.Valid(b)
    ensures B.Valid(B.Push(b, p))
    ensures B.Popped(B.Push(b, p)) == B.Popped(b) || B.Popped(B.Push(b, p)) == None
  {
    B.PushValid(b, p);
    if b.peeked.Some? && B.Target(b, p.uid) == b.peeked.value {
      assert B.FindUid(b.slots, p.uid, 0) == b.peeked.value;
    }
  }

  lemma {:induction false} FindsEach(joined: seq<JoinedNode>, k: nat)
    requires k < |joined| && DistinctMacs(joined)
    ensures FindJoined(joined, joined[k].mac, 0) == k
  {}

  lemma {:induction false} NextValid(s: Station, c: L.Config, e: Event)
    requires Valid(s, c)
    ensures Valid(Next(s, c, e), c)
  {
    match e
    case JoinFrame(mac, epoch, uid, peerOk) =>
    case ReadingFrame(mac, p) => PushKeepsPeek(s.buffer, p);
    case Relay(i, begun) => RelayValid(s, c, i, begun);
    case BeaconPass(now, after) =>
  }

  lemma {:induction false} RelayValid(s: Station, c: L.Config, i: L.Poll, begun: U32)
    requires Valid(s, c)
    ensures Valid(RelayStep(s, c, i, begun), c)
  {
    L.StepKeeps(s.link, c, i);
    B.PopRefinesMap(s.buffer);
    B.PeekRefinesMap(s.buffer);
  }

  function Run(s: Station, c: L.Config, es: seq<Event>): Station
    requires Valid(s, c)
    ensures Valid(Run(s, c, es), c)
    decreases |es|
  {
    if es == [] then s else (NextValid(s, c, es[0]); Run(Next(s, c, es[0]), c, es[1..]))
  }
}
