/** A meter node's connection to its substation, as a state machine: joining, sending,
    and waiting for acknowledgements, one radio event at a time. Waits end at any time. */
module NodeSpec {
  import opened Wire
  import opened Guard

  const JOIN_ATTEMPTS: nat := 3
  const SEND_ATTEMPTS: nat := 2

  /** Where the node is in join() or send(). `goal` is the reading being sent, if any. */
  datatype Pc =
    | Resting
    | Draining(p: Payload)
    | Looking(goal: Option<Payload>, tries: nat)
    | Asking(goal: Option<Payload>, tries: nat, mac: Mac, heard: U32, asked: nat)
    | AwaitJoin(goal: Option<Payload>, tries: nat, mac: Mac, heard: U32, asked: nat)
    | Sending(p: Payload, tries: nat)
    | AwaitAck(p: Payload, tries: nat)

  /** How the last join() or send() ended. */
  datatype Outcome = Nothing | Done | GaveUp

  datatype Node = Node(
    uid: Uid, joined: bool, sub: Mac, epoch: U32, peers: set<Mac>, pc: Pc, last: Outcome)

  datatype Act =
    | StartJoin | StartSend(p: Payload)
    | Drain(from: Mac, frame: LinkFrame) | Drained
    | HearBeacon(from: Mac, epoch: U32, peerOk: bool) | NoBeacon
    | SendJoin(ok: bool) | StopAsking | HearJoinAck(from: Mac, epoch: U32, uid: Uid) | NoJoinAck
    | SendReading(ok: bool) | HearAck(from: Mac, ack: AckPayload) | NoAck

  function Fresh(uid: Uid): Node { Node(uid, false, 0, 0, {}, Resting, Nothing) }

  function Forget(n: Node): Node { n.(joined := false, peers := n.peers - {n.sub}) }

  function End(n: Node, outcome: Outcome): Node { n.(pc := Resting, last := outcome) }

  /** join() returned true: carry on with the reading, if there is one. */
  function Ready(n: Node, goal: Option<Payload>, tries: nat): Node {
    match goal
    case None => End(n, Done)
    case Some(p) => n.(pc := Sending(p, tries))
  }

  /** A try at the reading begins, or there are none left. */
  function Attempt(n: Node, p: Payload, tries: nat): Node {
    if tries >= SEND_ATTEMPTS then End(n, GaveUp)
    else if n.joined then n.(pc := Sending(p, tries))
    else n.(pc := Looking(Some(p), tries))
  }

  /** The node after an act, or None if the act is not possible now. */
  function Next(n: Node, a: Act): Option<Node> {
    match a
    case StartJoin =>
      if !n.pc.Resting? then None else Some(if n.joined then End(n, Done) else n.(pc := Looking(None, 0)))
    case StartSend(p) =>
      if !n.pc.Resting? then None else Some(n.(pc := Draining(p)))
    case Drain(from, f) =>
      if !n.pc.Draining? then None
      else Some(if n.joined && f.kind == Beacon && from == n.sub && f.epoch != n.epoch then Forget(n) else n)
    case Drained =>
      if !n.pc.Draining? then None else Some(Attempt(n, n.pc.p, 0))
    case HearBeacon(from, e, peerOk) =>
      if !n.pc.Looking? then None
      else Some(if peerOk then n.(peers := n.peers + {from}, pc := Asking(n.pc.goal, n.pc.tries, from, e, 0))
                else End(n, GaveUp))
    case NoBeacon =>
      if !n.pc.Looking? then None else Some(End(n, GaveUp))
    case SendJoin(ok) =>
      if !n.pc.Asking? || n.pc.asked >= JOIN_ATTEMPTS then None
      else Some(n.(pc := if ok then AwaitJoin(n.pc.goal, n.pc.tries, n.pc.mac, n.pc.heard, n.pc.asked)
                         else Asking(n.pc.goal, n.pc.tries, n.pc.mac, n.pc.heard, n.pc.asked + 1)))
    case StopAsking =>
      if !n.pc.Asking? || n.pc.asked < JOIN_ATTEMPTS then None
      else Some(End(n.(peers := n.peers - {n.pc.mac}), GaveUp))
    case HearJoinAck(from, e, uid) =>
      if !n.pc.AwaitJoin? || from != n.pc.mac || e != n.pc.heard || uid != n.uid then None
      else Some(Ready(n.(joined := true, sub := from, epoch := e), n.pc.goal, n.pc.tries))
    case NoJoinAck =>
      if !n.pc.AwaitJoin? then None
      else Some(n.(pc := Asking(n.pc.goal, n.pc.tries, n.pc.mac, n.pc.heard, n.pc.asked + 1)))
    case SendReading(ok) =>
      if !n.pc.Sending? then None
      else Some(if ok then n.(pc := AwaitAck(n.pc.p, n.pc.tries)) else Attempt(Forget(n), n.pc.p, n.pc.tries + 1))
    case HearAck(from, ack) =>
      if !n.pc.AwaitAck? || from != n.sub || ack != AckPayload(n.uid, n.pc.p.sample.seqNo) then None
      else Some(End(n, Done))
    case NoAck =>
      if !n.pc.AwaitAck? then None else Some(Attempt(Forget(n), n.pc.p, n.pc.tries + 1))
  }

  /** What an act puts on the air. */
  function Emits(n: Node, a: Act): seq<(Mac, Frame)> {
    if a.SendJoin? && n.pc.Asking? then [(n.pc.mac, LinkMsg(LinkFrame(Join, n.pc.heard, n.uid)))]
    else if a.SendReading? && n.pc.Sending? then [(n.sub, DataMsg(n.pc.p))]
    else []
  }

  /** The peer set is exactly the substation when joined, the one being asked while
      joining, and empty otherwise; a node that gave up is not joined. */
  ghost predicate Inv(n: Node) {
    && (match n.pc
        case Looking(_, k) => !n.joined && n.peers == {} && k < SEND_ATTEMPTS
        case Asking(_, k, mac, _, j) => !n.joined && n.peers == {mac} && j <= JOIN_ATTEMPTS && k < SEND_ATTEMPTS
        case AwaitJoin(_, k, mac, _, j) => !n.joined && n.peers == {mac} && j < JOIN_ATTEMPTS && k < SEND_ATTEMPTS
        case Sending(_, k) => n.joined && n.peers == {n.sub} && k < SEND_ATTEMPTS
        case AwaitAck(_, k) => n.joined && n.peers == {n.sub} && k < SEND_ATTEMPTS
        case _ => n.peers == if n.joined then {n.sub} else {})
    && (n.pc == Resting && n.last == GaveUp ==> !n.joined)
  }

  lemma {:induction false} NextKeepsInv(n: Node, a: Act)
    requires Inv(n) && Next(n, a).Some?
    ensures Inv(Next(n, a).value)
  {}

  /** A run of acts, if each was possible. */
  function Run(n: Node, acts: seq<Act>): Option<Node>
    decreases |acts|
  {
    if acts == [] then Some(n)
    else match Next(n, acts[0])
      case None => None
      case Some(n') => Run(n', acts[1..])
  }

  lemma {:induction false} RunSnoc(n: Node, acts: seq<Act>, a: Act)
    ensures Run(n, acts + [a]) == match Run(n, acts) { case None => None case Some(n') => Next(n', a) }
    decreases |acts|
  {
    if acts == [] {
      assert [] + [a] == [a];
    } else {
      assert (acts + [a])[1..] == acts[1..] + [a];
      if Next(n, acts[0]).Some? {
        RunSnoc(Next(n, acts[0]).value, acts[1..], a);
      }
    }
  }

  /** Everything a run puts on the air, in order. */
  function Emitted(n: Node, acts: seq<Act>): seq<(Mac, Frame)>
    decreases |acts|
  {
    if acts == [] then []
    else match Next(n, acts[0])
      case None => []
      case Some(n') => Emits(n, acts[0]) + Emitted(n', acts[1..])
  }

  lemma {:induction false} EmittedSnoc(n: Node, acts: seq<Act>, a: Act)
    requires Run(n, acts).Some? && Next(Run(n, acts).value, a).Some?
    ensures Emitted(n, acts + [a]) == Emitted(n, acts) + Emits(Run(n, acts).value, a)
    decreases |acts|
  {
    if acts == [] {
      assert [] + [a] == [a];
    } else {
      assert (acts + [a])[1..] == acts[1..] + [a];
      EmittedSnoc(Next(n, acts[0]).value, acts[1..], a);
    }
  }

  /** The acts are a run from boot that ends in `n` and emits `frames`. Guarded, so that
      proofs carry the fact along without unfolding the run. */
  ghost predicate History(uid: Uid, acts: seq<Act>, n: Node, frames: seq<(Mac, Frame)>) {
    forall t: int :: Mention(t) ==>
      Run(Fresh(uid), acts) == Some(n) && Emitted(Fresh(uid), acts) == frames
  }

  lemma {:induction false} HistorySnoc(uid: Uid, acts: seq<Act>, n: Node, frames: seq<(Mac, Frame)>, a: Act)
    requires History(uid, acts, n, frames) && Next(n, a).Some?
    ensures History(uid, acts + [a], Next(n, a).value, frames + Emits(n, a))
  {
    assert Mention(0);
    RunSnoc(Fresh(uid), acts, a);
    EmittedSnoc(Fresh(uid), acts, a);
  }

  lemma {:induction false} RunKeepsInv(n: Node, acts: seq<Act>)
    requires Inv(n) && Run(n, acts).Some?
    ensures Inv(Run(n, acts).value)
    decreases |acts|
  {
    if acts != [] {
      NextKeepsInv(n, acts[0]);
      RunKeepsInv(Next(n, acts[0]).value, acts[1..]);
    }
  }

  /** The peer set and the outcome of every join() and send() since boot. */
  lemma {:induction false} AtRest(uid: Uid, acts: seq<Act>)
    requires Run(Fresh(uid), acts).Some? && Run(Fresh(uid), acts).value.pc == Resting
    ensures var n := Run(Fresh(uid), acts).value;
      && n.peers == (if n.joined then {n.sub} else {})
      && (n.last == GaveUp ==> !n.joined)
  {
    RunKeepsInv(Fresh(uid), acts);
  }

  /** Joins sent and readings sent during a run. */
  function Joins(acts: seq<Act>): nat {
    if acts == [] then 0 else (if acts[0].SendJoin? then 1 else 0) + Joins(acts[1..])
  }

  function Readings(acts: seq<Act>): nat {
    if acts == [] then 0 else (if acts[0].SendReading? then 1 else 0) + Readings(acts[1..])
  }

  /** Sends of the reading, and Joins, still possible before the node rests. */
  function ReadingsLeft(n: Node): nat {
    match n.pc
    case Resting => 0
    case Draining(_) => SEND_ATTEMPTS
    case Looking(goal, k) => if goal.Some? && k < SEND_ATTEMPTS then SEND_ATTEMPTS - k else 0
    case Asking(goal, k, _, _, _) => if goal.Some? && k < SEND_ATTEMPTS then SEND_ATTEMPTS - k else 0
    case AwaitJoin(goal, k, _, _, _) => if goal.Some? && k < SEND_ATTEMPTS then SEND_ATTEMPTS - k else 0
    case Sending(_, k) => if k < SEND_ATTEMPTS then SEND_ATTEMPTS - k else 0
    case AwaitAck(_, k) => if k < SEND_ATTEMPTS then SEND_ATTEMPTS - k - 1 else 0
  }

  function JoinsLeft(n: Node): nat {
    match n.pc
    case Asking(_, _, _, _, j) => (if j < JOIN_ATTEMPTS then JOIN_ATTEMPTS - j else 0) + JOIN_ATTEMPTS * Rounds(n)
    case AwaitJoin(_, _, _, _, j) =>
      (if j < JOIN_ATTEMPTS then JOIN_ATTEMPTS - j - 1 else 0) + JOIN_ATTEMPTS * Rounds(n)
    case Looking(_, _) => JOIN_ATTEMPTS + JOIN_ATTEMPTS * Rounds(n)
    case Draining(_) => JOIN_ATTEMPTS * SEND_ATTEMPTS
    case _ => JOIN_ATTEMPTS * Rounds(n)
  }

  /** Tries of the reading that may follow the current one. */
  function Rounds(n: Node): nat {
    match n.pc
    case AwaitAck(_, _) => ReadingsLeft(n)
    case _ => if ReadingsLeft(n) > 0 then ReadingsLeft(n) - 1 else 0
  }

  lemma {:induction false} LeftDrops(n: Node, a: Act)
    requires Inv(n) && Next(n, a).Some? && !a.StartJoin? && !a.StartSend?
    ensures var n' := Next(n, a).value;
      && ReadingsLeft(n') + (if a.SendReading? then 1 else 0) <= ReadingsLeft(n)
      && JoinsLeft(n') + (if a.SendJoin? then 1 else 0) <= JoinsLeft(n)
  {}

  lemma {:induction false} LeftBounds(n: Node, acts: seq<Act>)
    requires Inv(n) && Run(n, acts).Some?
    requires forall a :: a in acts ==> !a.StartJoin? && !a.StartSend?
    ensures Readings(acts) <= ReadingsLeft(n) && Joins(acts) <= JoinsLeft(n)
    decreases |acts|
  {
    if acts != [] {
      assert acts[0] in acts && forall a :: a in acts[1..] ==> a in acts;
      NextKeepsInv(n, acts[0]);
      LeftDrops(n, acts[0]);
      LeftBounds(Next(n, acts[0]).value, acts[1..]);
    }
  }

  /** One send() transmits its reading at most twice, with at most six Joins. */
  lemma {:induction false} SendIsBounded(n: Node, p: Payload, acts: seq<Act>)
    requires Inv(n) && n.pc == Resting && Run(n, [StartSend(p)] + acts).Some?
    requires forall a :: a in acts ==> !a.StartJoin? && !a.StartSend?
    ensures Readings(acts) <= 2 && Joins(acts) <= 6
  {
    assert ([StartSend(p)] + acts)[1..] == acts;
    NextKeepsInv(n, StartSend(p));
    LeftBounds(Next(n, StartSend(p)).value, acts);
  }

  /** Without a JoinAck heard, a node that is not joined stays so, and sends no reading. */
  lemma {:induction false} SilentUntilJoined(n: Node, acts: seq<Act>)
    requires Inv(n) && !n.joined && Run(n, acts).Some?
    requires forall a :: a in acts ==> !a.HearJoinAck?
    ensures !Run(n, acts).value.joined && Readings(acts) == 0
    decreases |acts|
  {
    if acts != [] {
      assert acts[0] in acts && forall a :: a in acts[1..] ==> a in acts;
      NextKeepsInv(n, acts[0]);
      SilentUntilJoined(Next(n, acts[0]).value, acts[1..]);
    }
  }

  /** A reading that was not acknowledged, or could not be sent, is sent again only after the
      node has joined anew. */
  lemma {:induction false} ResendNeedsRejoin(n: Node, a: Act, acts: seq<Act>, ok: bool)
    requires Inv(n) && (a == NoAck || a == SendReading(false))
    requires Run(n, [a] + acts + [SendReading(ok)]).Some?
    ensures exists b :: b in acts && b.HearJoinAck?
  {
    assert [a] + acts + [SendReading(ok)] == [a] + (acts + [SendReading(ok)]);
    var rest := acts + [SendReading(ok)];
    assert ([a] + rest)[1..] == rest;
    NextKeepsInv(n, a);
    var m := Next(n, a).value;
    RunSnoc(m, acts, SendReading(ok));
    if forall b :: b in acts ==> !b.HearJoinAck? {
      SilentUntilJoined(m, acts);
      RunKeepsInv(m, acts);
    }
  }

  /** Asking goes on: a Join is sent or fails, or its answer does not come. */
  predicate Asks(a: Act) { a.SendJoin? || a.NoJoinAck? }

  /** A node stops asking a substation after three Joins, and not before. */
  lemma {:induction false} AsksThrice(n: Node, acts: seq<Act>)
    requires n.pc.Asking? || n.pc.AwaitJoin?
    requires n.pc.asked <= 3 && (n.pc.AwaitJoin? ==> n.pc.asked < 3)
    requires (forall a :: a in acts ==> Asks(a)) && Run(n, acts + [StopAsking]).Some?
    ensures Joins(acts) + n.pc.asked + (if n.pc.AwaitJoin? then 1 else 0) == 3
    decreases |acts|
  {
    var all := acts + [StopAsking];
    if acts == [] {
      assert all[0] == StopAsking;
    } else {
      assert all[0] == acts[0] && all[1..] == acts[1..] + [StopAsking];
      assert acts[0] in acts && forall a :: a in acts[1..] ==> a in acts;
      AsksThrice(Next(n, acts[0]).value, acts[1..]);
    }
  }

  /** Sends of the reading so far in a send(). */
  function Tried(pc: Pc): nat {
    match pc
    case Looking(_, k) => k
    case Asking(_, k, _, _, _) => k
    case AwaitJoin(_, k, _, _, _) => k
    case Sending(_, k) => k
    case AwaitAck(_, k) => k + 1
    case _ => 0
  }

  /** In the middle of a send(). */
  predicate Sends(pc: Pc) {
    match pc
    case Looking(goal, _) => goal.Some?
    case Asking(goal, _, _, _, _) => goal.Some?
    case AwaitJoin(goal, _, _, _, _) => goal.Some?
    case Resting => false
    case _ => true
  }

  /** Each send of the reading is counted, as long as send() has not ended. */
  lemma {:induction false} TriesCounted(n: Node, acts: seq<Act>)
    requires Inv(n) && Sends(n.pc) && Run(n, acts).Some? && Run(n, acts).value.pc != Resting
    requires forall a :: a in acts ==> !a.StartJoin? && !a.StartSend?
    ensures Readings(acts) + Tried(n.pc) == Tried(Run(n, acts).value.pc) && Sends(Run(n, acts).value.pc)
    decreases |acts|
  {
    if acts != [] {
      assert acts[0] in acts && forall a :: a in acts[1..] ==> a in acts;
      NextKeepsInv(n, acts[0]);
      var m := Next(n, acts[0]).value;
      if m.pc == Resting {
        RestsOn(m, acts[1..]);
      } else {
        TriesCounted(m, acts[1..]);
      }
    }
  }

  /** A node at rest does nothing of its own accord. */
  lemma {:induction false} RestsOn(n: Node, acts: seq<Act>)
    requires n.pc == Resting && Run(n, acts).Some? && forall a :: a in acts ==> !a.StartJoin? && !a.StartSend?
    ensures acts == []
  {}

  /** A send() that gives up on its reading itself, unanswered or unsendable, has sent it
      twice. */
  lemma {:induction false} TriesTwice(n: Node, p: Payload, acts: seq<Act>, a: Act)
    requires Inv(n) && n.pc == Resting && (a == NoAck || a == SendReading(false))
    requires forall b :: b in acts ==> !b.StartJoin? && !b.StartSend?
    requires var end := Run(n, [StartSend(p)] + acts + [a]); end.Some? && end.value.pc == Resting
    ensures Readings(acts) + (if a == NoAck then 0 else 1) == 2
  {
    var m := n.(pc := Draining(p));
    assert [StartSend(p)] + acts + [a] == [StartSend(p)] + (acts + [a]);
    assert ([StartSend(p)] + (acts + [a]))[1..] == acts + [a];
    RunSnoc(m, acts, a);
    NextKeepsInv(n, StartSend(p));
    RunKeepsInv(m, acts);
    TriesCounted(m, acts);
  }
}
