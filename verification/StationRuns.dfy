/** What the substation guarantees over whole runs. */
module StationRuns {
  import opened Wire
  import opened Clock
  import opened StationSpec
  import B = BufferSpec
  import R = BufferRuns
  import L = LoRaSpec

  // ------------------------------------- relays remove only what was acknowledged

  /** The buffer's log after an event. */
  function Record(s: Station, c: L.Config, e: Event, log: R.Log): R.Log
    requires Valid(s, c)
  {
    match e
    case ReadingFrame(mac, p) => if Buffers(s, mac, p) then R.Record(s.buffer, R.DoPush(p), log) else log
    case Relay(i, _) => if L.Step(s.link, c, i).1 == L.Acked then R.Record(s.buffer, R.DoPop, log) else log
    case _ => log
  }

  function RunLog(s: Station, c: L.Config, es: seq<Event>, log: R.Log): R.Log
    requires Valid(s, c)
    decreases |es|
  {
    if es == [] then log
    else (NextValid(s, c, es[0]); RunLog(Next(s, c, es[0]), c, es[1..], Record(s, c, es[0], log)))
  }

  /** Every reading popped so far had its own ACK among `acks`. */
  ghost predicate RemovedWereAcked(log: R.Log, acks: set<AckPayload>) {
    forall g :: g in log.gone && g.fate == R.Removed ==> g.reading.Key() in acks
  }

  function Heard(e: Event): set<AckPayload> {
    if e.Relay? && e.i.heard.Some? then {e.i.heard.value} else {}
  }

  function HeardIn(es: seq<Event>): set<AckPayload> {
    if es == [] then {} else Heard(es[0]) + HeardIn(es[1..])
  }

  /** An acknowledged relay heard the ACK of the reading in flight, and the pop that
      follows removes that reading or nothing. */
  lemma {:induction false} AckedPopsInFlight(s: Station, c: L.Config, i: L.Poll)
    requires Valid(s, c) && L.Step(s.link, c, i).1 == L.Acked
    ensures i.heard == Some(s.inFlight.ToReading().Key())
    ensures B.Popped(s.buffer) == None || B.Popped(s.buffer) == Some(s.inFlight.ToReading())
  {}

  lemma {:induction false} RecordPop(s: Station, c: L.Config, i: L.Poll, log: R.Log, acks: set<AckPayload>)
    requires Valid(s, c) && R.Balanced(s.buffer, log) && RemovedWereAcked(log, acks)
    requires L.Step(s.link, c, i).1 == L.Acked && i.heard.Some?
    ensures var log' := R.Record(s.buffer, R.DoPop, log);
      R.Balanced(B.Pop(s.buffer), log') && RemovedWereAcked(log', acks + {i.heard.value})
  {
    AckedPopsInFlight(s, c, i);
    R.ApplyKeepsBalance(s.buffer, R.DoPop, log);
  }

  lemma {:induction false} RecordRelay(s: Station, c: L.Config, i: L.Poll, begun: U32, log: R.Log,
          acks: set<AckPayload>)
    requires Valid(s, c) && R.Balanced(s.buffer, log) && RemovedWereAcked(log, acks)
    ensures var log' := Record(s, c, Relay(i, begun), log);
      R.Balanced(RelayStep(s, c, i, begun).buffer, log') && RemovedWereAcked(log', acks + Heard(Relay(i, begun)))
  {
    if L.Step(s.link, c, i).1 == L.Acked {
      RecordPop(s, c, i, log, acks);
    } else {
      R.ApplyKeepsBalance(s.buffer, R.DoPeek, log);
    }
  }

  lemma {:induction false} RecordStep(s: Station, c: L.Config, e: Event, log: R.Log, acks: set<AckPayload>)
    requires Valid(s, c) && R.Balanced(s.buffer, log) && RemovedWereAcked(log, acks)
    ensures Valid(Next(s, c, e), c)
    ensures R.Balanced(Next(s, c, e).buffer, Record(s, c, e, log))
    ensures RemovedWereAcked(Record(s, c, e, log), acks + Heard(e))
  {
    NextValid(s, c, e);
    match e
    case ReadingFrame(mac, p) => if Buffers(s, mac, p) { R.ApplyKeepsBalance(s.buffer, R.DoPush(p), log); }
    case Relay(i, begun) => RecordRelay(s, c, i, begun, log, acks);
    case _ =>
  }

  /** Pop is sound over any run, with pushes landing anywhere between a peek and its
      pop: each node's queue is a suffix of everything buffered for it, and whatever
      has left was overwritten or had its own UID and sequence number ACKed. */
  lemma {:induction false} RelayRunIsSound(s: Station, c: L.Config, es: seq<Event>, log: R.Log, acks: set<AckPayload>)
    requires Valid(s, c) && R.Balanced(s.buffer, log) && RemovedWereAcked(log, acks)
    ensures R.Balanced(Run(s, c, es).buffer, RunLog(s, c, es, log))
    ensures RemovedWereAcked(RunLog(s, c, es, log), acks + HeardIn(es))
    ensures PopIsSound(Run(s, c, es))
    decreases |es|
  {
    if es == [] {
      assert acks + {} == acks;
    } else {
      RecordStep(s, c, es[0], log, acks);
      RelayRunIsSound(Next(s, c, es[0]), c, es[1..], Record(s, c, es[0], log), acks + Heard(es[0]));
      assert acks + HeardIn(es) == acks + Heard(es[0]) + HeardIn(es[1..]);
    }
  }

  // ------------------------------------------------------ at most once per boot

  /** The (MAC, sequence number) a step puts in the buffer, if any. */
  function Pushes(s: Station, e: Event): seq<(Mac, U32)> {
    if e.ReadingFrame? && Buffers(s, e.mac, e.p) then [(e.mac, e.p.sample.seqNo)] else []
  }

  function PushesIn(s: Station, c: L.Config, es: seq<Event>): seq<(Mac, U32)>
    requires Valid(s, c)
    decreases |es|
  {
    if es == [] then []
    else (NextValid(s, c, es[0]); Pushes(s, es[0]) + PushesIn(Next(s, c, es[0]), c, es[1..]))
  }

  /** Each MAC joins under one UID. */
  ghost predicate OneUidPerMac(es: seq<Event>, uidOf: Mac -> Uid) {
    forall e :: e in es && e.JoinFrame? ==> e.uid == uidOf(e.mac)
  }

  /** Each MAC's readings are handled in the order they were numbered; resends repeat a number. */
  ghost predicate InOrder(es: seq<Event>) {
    forall i, j :: 0 <= i < j < |es| && es[i].ReadingFrame? && es[j].ReadingFrame? && es[i].mac == es[j].mac
      ==> es[i].p.sample.seqNo <= es[j].p.sample.seqNo
  }

  /** No reading still to come is numbered below the last one ACKed for its MAC. */
  ghost predicate NotBehind(s: Station, es: seq<Event>) {
    forall k, j :: 0 <= k < |s.joined| && 0 <= j < |es| && es[j].ReadingFrame?
      && es[j].mac == s.joined[k].mac && s.joined[k].hasSeq
      ==> s.joined[k].lastSeq <= es[j].p.sample.seqNo
  }

  ghost predicate TableUids(s: Station, uidOf: Mac -> Uid) {
    forall k :: 0 <= k < |s.joined| ==> s.joined[k].uid == uidOf(s.joined[k].mac)
  }

  /** x was pushed and the table remembers a number at least as high for its MAC. */
  ghost predicate Remembered(s: Station, x: (Mac, U32)) {
    exists k :: 0 <= k < |s.joined| && s.joined[k].mac == x.0 && s.joined[k].hasSeq && x.1 <= s.joined[k].lastSeq
  }

  lemma {:induction false} TableUidsStep(s: Station, c: L.Config, e: Event, uidOf: Mac -> Uid)
    requires Valid(s, c) && TableUids(s, uidOf)
    requires e.JoinFrame? ==> e.uid == uidOf(e.mac)
    ensures TableUids(Next(s, c, e), uidOf)
  {}

  /** A remembered number only moves up to that of the reading just handled. */
  lemma {:induction false} LastSeqStep(s: Station, c: L.Config, e: Event, k: nat)
    requires Valid(s, c) && k < |Next(s, c, e).joined| && Next(s, c, e).joined[k].hasSeq
    ensures var n := Next(s, c, e).joined[k];
      || (k < |s.joined| && s.joined[k].hasSeq && s.joined[k].mac == n.mac && s.joined[k].lastSeq == n.lastSeq)
      || (e.ReadingFrame? && e.mac == n.mac && n.lastSeq == e.p.sample.seqNo)
  {}

  lemma {:induction false} OrderStep(s: Station, c: L.Config, es: seq<Event>, uidOf: Mac -> Uid)
    requires Valid(s, c) && es != [] && TableUids(s, uidOf)
    requires OneUidPerMac(es, uidOf) && InOrder(es) && NotBehind(s, es)
    ensures var s' := Next(s, c, es[0]);
      && Valid(s', c) && TableUids(s', uidOf)
      && OneUidPerMac(es[1..], uidOf) && InOrder(es[1..]) && NotBehind(s', es[1..])
  {
    NextValid(s, c, es[0]);
    assert es[0] in es && forall e :: e in es[1..] ==> e in es;
    TableUidsStep(s, c, es[0], uidOf);
    var s' := Next(s, c, es[0]);
    forall k, j | 0 <= k < |s'.joined| && 0 <= j < |es[1..]| && es[1..][j].ReadingFrame?
      && es[1..][j].mac == s'.joined[k].mac && s'.joined[k].hasSeq
      ensures s'.joined[k].lastSeq <= es[1..][j].p.sample.seqNo
    {
      assert es[1..][j] == es[j + 1];
      LastSeqStep(s, c, es[0], k);
    }
  }

  lemma {:induction false} RememberStep(s: Station, c: L.Config, es: seq<Event>, uidOf: Mac -> Uid, x: (Mac, U32))
    requires Valid(s, c) && es != [] && TableUids(s, uidOf)
    requires OneUidPerMac(es, uidOf) && NotBehind(s, es)
    requires Remembered(s, x) || x in Pushes(s, es[0])
    ensures Remembered(Next(s, c, es[0]), x)
    ensures Remembered(s, x) ==> x !in Pushes(s, es[0])
  {
    var e := es[0];
    assert e in es;
    var s' := Next(s, c, e);
    if Remembered(s, x) {
      var k :| 0 <= k < |s.joined| && s.joined[k].mac == x.0 && s.joined[k].hasSeq && x.1 <= s.joined[k].lastSeq;
      FindsEach(s.joined, k);
      assert s'.joined[k].mac == x.0 && s'.joined[k].hasSeq && x.1 <= s'.joined[k].lastSeq;
    } else {
      var k := FindJoined(s.joined, e.mac, 0);
      assert s'.joined[k].mac == x.0;
    }
  }

  /** Nothing remembered is pushed again. */
  lemma {:induction false} NeverPushedAgain(s: Station, c: L.Config, es: seq<Event>, uidOf: Mac -> Uid, x: (Mac, U32))
    requires Valid(s, c) && TableUids(s, uidOf)
    requires OneUidPerMac(es, uidOf) && InOrder(es) && NotBehind(s, es)
    requires Remembered(s, x)
    ensures x !in PushesIn(s, c, es)
    decreases |es|
  {
    if es != [] {
      OrderStep(s, c, es, uidOf);
      RememberStep(s, c, es, uidOf, x);
      NeverPushedAgain(Next(s, c, es[0]), c, es[1..], uidOf, x);
    }
  }

  lemma {:induction false} PushesDistinct(s: Station, c: L.Config, es: seq<Event>, uidOf: Mac -> Uid)
    requires Valid(s, c) && TableUids(s, uidOf)
    requires OneUidPerMac(es, uidOf) && InOrder(es) && NotBehind(s, es)
    ensures forall i, j :: 0 <= i < j < |PushesIn(s, c, es)| ==> PushesIn(s, c, es)[i] != PushesIn(s, c, es)[j]
    decreases |es|
  {
    if es != [] {
      OrderStep(s, c, es, uidOf);
      var s' := Next(s, c, es[0]);
      PushesDistinct(s', c, es[1..], uidOf);
      if Pushes(s, es[0]) != [] {
        var x := Pushes(s, es[0])[0];
        RememberStep(s, c, es, uidOf, x);
        NeverPushedAgain(s', c, es[1..], uidOf, x);
      }
    }
  }

  /** At most once per boot: however often nodes resend and rejoin, no (MAC, sequence
      number) is buffered twice. */
  lemma {:induction false} AtMostOnce(c: L.Config, epoch: U32, es: seq<Event>, uidOf: Mac -> Uid)
    requires OneUidPerMac(es, uidOf) && InOrder(es)
    ensures Valid(Boot(epoch), c)
    ensures var pushed := PushesIn(Boot(epoch), c, es);
      forall i, j :: 0 <= i < j < |pushed| ==> pushed[i] != pushed[j]
  {
    PushesDistinct(Boot(epoch), c, es, uidOf);
  }

  // ------------------------------------------------------------- always room

  /** Every UID in the buffer belongs to a joined node. */
  ghost predicate BufferedAreJoined(s: Station) {
    forall u :: u in B.Holders(s.buffer) ==> exists k :: 0 <= k < |s.joined| && s.joined[k].uid == u
  }

  function UidsFrom(joined: seq<JoinedNode>, i: nat): (us: set<Uid>)
    requires i <= |joined|
    ensures |us| <= |joined| - i
    ensures forall k :: i <= k < |joined| ==> joined[k].uid in us
    decreases |joined| - i
  {
    if i == |joined| then {} else {joined[i].uid} + UidsFrom(joined, i + 1)
  }

  lemma {:induction false} SubsetSize<T>(a: set<T>, b: set<T>)
    requires a <= b
    ensures |a| <= |b|
    ensures |a| == |b| ==> a == b
  {
    assert b == a + (b - a);
  }

  /** A joined node's reading is never refused: at most eight UIDs are joined, and its
      own is one of them. */
  lemma {:induction false} JoinedHaveRoom(s: Station, c: L.Config, uidOf: Mac -> Uid, mac: Mac, p: Payload)
    requires Valid(s, c) && TableUids(s, uidOf) && BufferedAreJoined(s)
    requires HasJoined(s, mac) && p.uid == uidOf(mac)
    ensures B.Accepts(s.buffer, p.uid)
  {
    B.PushRefinesMap(s.buffer, p);
    var holders := B.Holders(s.buffer);
    assert B.View(s.buffer).Keys == holders;
    var uids := UidsFrom(s.joined, 0);
    SubsetSize(holders, uids);
    assert p.uid in uids;
  }

  /** Every MAC joins with and sends under one UID. */
  ghost predicate SendsOwnUid(es: seq<Event>, uidOf: Mac -> Uid) {
    OneUidPerMac(es, uidOf) && forall e :: e in es && e.ReadingFrame? ==> e.p.uid == uidOf(e.mac)
  }

  /** A reading the buffer turned away. */
  predicate Refused(s: Station, e: Event) {
    e.ReadingFrame? && HasJoined(s, e.mac) && !Duplicate(s, e.mac, e.p) && !B.Accepts(s.buffer, e.p.uid)
  }

  ghost predicate NoneRefused(s: Station, c: L.Config, es: seq<Event>)
    requires Valid(s, c)
    decreases |es|
  {
    es != [] ==> !Refused(s, es[0]) && (NextValid(s, c, es[0]); NoneRefused(Next(s, c, es[0]), c, es[1..]))
  }

  lemma {:induction false} UidStays(s: Station, c: L.Config, e: Event, k: nat, uidOf: Mac -> Uid)
    requires Valid(s, c) && TableUids(s, uidOf) && k < |s.joined|
    requires e.JoinFrame? ==> e.uid == uidOf(e.mac)
    ensures k < |Next(s, c, e).joined| && Next(s, c, e).joined[k].uid == s.joined[k].uid
  {}

  /** Whatever a step leaves buffered was buffered before, or is its own reading. */
  lemma {:induction false} HoldersStep(s: Station, c: L.Config, e: Event, u: Uid)
    requires Valid(s, c) && u in B.Holders(Next(s, c, e).buffer)
    ensures u in B.Holders(s.buffer) || (e.ReadingFrame? && HasJoined(s, e.mac) && u == e.p.uid)
  {
    match e
    case ReadingFrame(mac, p) => if Buffers(s, mac, p) { B.PushQueues(s.buffer, p); }
    case Relay(i, _) =>
      if L.Step(s.link, c, i).1 == L.Acked && s.buffer.peeked.Some? { B.PopQueues(s.buffer); }
    case _ =>
  }

  lemma {:induction false} RoomStep(s: Station, c: L.Config, e: Event, uidOf: Mac -> Uid)
    requires Valid(s, c) && TableUids(s, uidOf) && BufferedAreJoined(s)
    requires SendsOwnUid([e], uidOf)
    ensures var s' := Next(s, c, e); Valid(s', c) && TableUids(s', uidOf) && BufferedAreJoined(s')
  {
    assert e in [e];
    NextValid(s, c, e);
    var s' := Next(s, c, e);
    forall u | u in B.Holders(s'.buffer) ensures exists k :: 0 <= k < |s'.joined| && s'.joined[k].uid == u {
      HoldersStep(s, c, e, u);
      var k;
      if u in B.Holders(s.buffer) {
        k :| 0 <= k < |s.joined| && s.joined[k].uid == u;
      } else {
        k := FindJoined(s.joined, e.mac, 0);
      }
      UidStays(s, c, e, k, uidOf);
    }
  }

  lemma {:induction false} RoomRun(s: Station, c: L.Config, es: seq<Event>, uidOf: Mac -> Uid)
    requires Valid(s, c) && TableUids(s, uidOf) && BufferedAreJoined(s) && SendsOwnUid(es, uidOf)
    ensures NoneRefused(s, c, es)
    decreases |es|
  {
    if es != [] {
      assert es[0] in es && forall e :: e in es[1..] ==> e in es;
      if Refused(s, es[0]) {
        JoinedHaveRoom(s, c, uidOf, es[0].mac, es[0].p);
      }
      RoomStep(s, c, es[0], uidOf);
      RoomRun(Next(s, c, es[0]), c, es[1..], uidOf);
    }
  }

  /** Joined nodes always have room, over any run from boot. */
  lemma {:induction false} NeverRefused(c: L.Config, epoch: U32, es: seq<Event>, uidOf: Mac -> Uid)
    requires SendsOwnUid(es, uidOf)
    ensures Valid(Boot(epoch), c) && NoneRefused(Boot(epoch), c, es)
  {
    B.HoldersEmpty(B.Empty.slots, 0);
    RoomRun(Boot(epoch), c, es, uidOf);
  }
}
