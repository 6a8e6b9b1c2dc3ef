/** Properties of the reading buffer over whole runs: nothing is lost without a
    reason, and no node is starved. */
module BufferRuns {
  import opened Wire
  import opened BufferSpec

  datatype Op = DoPush(p: Payload) | DoPeek | DoPop

  function Apply(b: Buffer, op: Op): Buffer
    requires Valid(b)
    ensures Valid(Apply(b, op))
  {
    match op
    case DoPush(p) => PushValid(b, p); Push(b, p)
    case DoPeek => Peek(b)
    case DoPop => PopRefinesMap(b); Pop(b)
  }

  function Run(b: Buffer, ops: seq<Op>): Buffer
    requires Valid(b)
    ensures Valid(Run(b, ops))
    decreases |ops|
  {
    if ops == [] then b else Run(Apply(b, ops[0]), ops[1..])
  }

  // ------------------------------------------------------------ conservation

  datatype Fate = Overwrote | Removed

  datatype Gone = Gone(reading: Reading, fate: Fate)

  /** Everything pushed so far, and everything that has left, in order. */
  datatype Log = Log(pushed: seq<Reading>, gone: seq<Gone>)

  const NoLog := Log([], [])

  function PushedFor(s: seq<Reading>, uid: Uid): seq<Sample> {
    if s == [] then [] else
    var last := s[|s| - 1];
    PushedFor(s[..|s| - 1], uid) + (if last.uid == uid then [last.sample] else [])
  }

  function GoneFor(s: seq<Gone>, uid: Uid): seq<Sample> {
    if s == [] then [] else
    var last := s[|s| - 1].reading;
    GoneFor(s[..|s| - 1], uid) + (if last.uid == uid then [last.sample] else [])
  }

  /** For every UID: what was pushed is what has gone followed by what is held. */
  ghost predicate Balanced(b: Buffer, log: Log) {
    forall uid: Uid :: PushedFor(log.pushed, uid) == GoneFor(log.gone, uid) + QueueOf(b, uid)
  }

  /** The log after an operation. */
  function Record(b: Buffer, op: Op, log: Log): Log
    requires Valid(b)
  {
    match op
    case DoPush(p) =>
      if !Accepts(b, p.uid) then log
      else Log(log.pushed + [p.ToReading()],
               log.gone + match Overwritten(b, p) { case None => [] case Some(r) => [Gone(r, Overwrote)] })
    case DoPeek => log
    case DoPop => log.(gone := log.gone + match Popped(b) { case None => [] case Some(r) => [Gone(r, Removed)] })
  }

  lemma {:induction false} PushedForAppend(s: seq<Reading>, r: Reading, uid: Uid)
    ensures PushedFor(s + [r], uid) == PushedFor(s, uid) + if r.uid == uid then [r.sample] else []
  {
    assert (s + [r])[..|s|] == s;
  }

  lemma {:induction false} GoneForAppend(s: seq<Gone>, g: Gone, uid: Uid)
    ensures GoneFor(s + [g], uid) == GoneFor(s, uid) + if g.reading.uid == uid then [g.reading.sample] else []
  {
    assert (s + [g])[..|s|] == s;
  }

  lemma {:induction false} QueueAtTarget(b: Buffer, uid: Uid)
    requires Valid(b) && Accepts(b, uid)
    ensures QueueAt(b, Target(b, uid)) == QueueOf(b, uid)
  {}

  /** Moving one reading from the front of a queue to the gone log keeps the balance. */
  lemma {:induction false} Shift(gone: seq<Gone>, g: Gone, q: seq<Sample>, q': seq<Sample>, uid: Uid)
    requires if g.reading.uid == uid then q == [g.reading.sample] + q' else q == q'
    ensures GoneFor(gone + [g], uid) + q' == GoneFor(gone, uid) + q
  {
    GoneForAppend(gone, g, uid);
  }

  /** How a push changes one UID's queue. */
  lemma {:induction false} PushQueueStep(b: Buffer, p: Payload, uid: Uid)
    requires Valid(b) && Accepts(b, p.uid)
    ensures var q' := QueueOf(Push(b, p), uid);
      var added := QueueOf(b, uid) + if p.uid == uid then [p.sample] else [];
      match Overwritten(b, p)
      case None => q' == added
      case Some(r) => r.uid == p.uid && added == (if p.uid == uid then [r.sample] + q' else q')
  {
    PushQueues(b, p);
    QueueAtTarget(b, p.uid);
  }

  lemma {:induction false} PushKeepsBalance(b: Buffer, p: Payload, log: Log, uid: Uid)
    requires Valid(b) && Balanced(b, log) && Accepts(b, p.uid)
    ensures var log' := Record(b, DoPush(p), log);
      PushedFor(log'.pushed, uid) == GoneFor(log'.gone, uid) + QueueOf(Push(b, p), uid)
  {
    PushedForAppend(log.pushed, p.ToReading(), uid);
    PushQueueStep(b, p, uid);
    var q, q' := QueueOf(b, uid), QueueOf(Push(b, p), uid);
    var extra := if p.uid == uid then [p.sample] else [];
    assert PushedFor(log.pushed + [p.ToReading()], uid) == GoneFor(log.gone, uid) + (q + extra);
    match Overwritten(b, p) {
      case None => assert log.gone + [] == log.gone;
      case Some(r) => Shift(log.gone, Gone(r, Overwrote), q + extra, q', uid);
    }
  }

  lemma {:induction false} PopKeepsBalance(b: Buffer, log: Log, uid: Uid)
    requires Valid(b) && Balanced(b, log) && b.peeked.Some?
    ensures var log' := Record(b, DoPop, log);
      PushedFor(log'.pushed, uid) == GoneFor(log'.gone, uid) + QueueOf(Pop(b), uid)
  {
    PopQueues(b);
    Shift(log.gone, Gone(Popped(b).value, Removed), QueueOf(b, uid), QueueOf(Pop(b), uid), uid);
  }

  lemma {:induction false} ApplyKeepsBalance(b: Buffer, op: Op, log: Log)
    requires Valid(b) && Balanced(b, log)
    ensures Balanced(Apply(b, op), Record(b, op, log))
  {
    forall uid: Uid
      ensures PushedFor(Record(b, op, log).pushed, uid)
           == GoneFor(Record(b, op, log).gone, uid) + QueueOf(Apply(b, op), uid)
    {
      match op
      case DoPush(p) => if Accepts(b, p.uid) { PushKeepsBalance(b, p, log, uid); }
      case DoPeek =>
      case DoPop =>
        if b.peeked.Some? { PopKeepsBalance(b, log, uid); } else { assert log.gone + [] == log.gone; }
    }
  }

  function RunLog(b: Buffer, ops: seq<Op>, log: Log): Log
    requires Valid(b)
    decreases |ops|
  {
    if ops == [] then log else RunLog(Apply(b, ops[0]), ops[1..], Record(b, ops[0], log))
  }

  /** Conservation over any run from empty: for each UID, the readings held are a
      suffix of everything accepted for it, and what precedes them is exactly what
      was overwritten or popped, in the same order. */
  lemma {:induction false} RunConserves(b: Buffer, ops: seq<Op>, log: Log)
    requires Valid(b) && Balanced(b, log)
    ensures Balanced(Run(b, ops), RunLog(b, ops, log))
    decreases |ops|
  {
    if ops != [] {
      ApplyKeepsBalance(b, ops[0], log);
      RunConserves(Apply(b, ops[0]), ops[1..], Record(b, ops[0], log));
    }
  }

  lemma {:induction false} EmptyBalanced()
    ensures Valid(Empty) && Balanced(Empty, NoLog)
  {}

  /** A pushed reading is either still queued or among those gone. */
  lemma {:induction false} PushedIsHeldOrGone(b: Buffer, log: Log, r: Reading)
    requires Balanced(b, log) && r in log.pushed
    ensures r.sample in QueueOf(b, r.uid) || exists g :: g in log.gone && g.reading == r
  {
    PushedForContains(log.pushed, r);
    if r.sample in GoneFor(log.gone, r.uid) {
      GoneForContains(log.gone, r);
    }
  }

  lemma {:induction false} PushedForContains(s: seq<Reading>, r: Reading)
    requires r in s
    ensures r.sample in PushedFor(s, r.uid)
  {
    if s[|s| - 1] != r {
      PushedForContains(s[..|s| - 1], r);
    }
  }

  lemma {:induction false} PushedForOnly(s: seq<Reading>, uid: Uid, x: Sample)
    requires x in PushedFor(s, uid)
    ensures Reading(uid, x) in s
  {
    if s[|s| - 1] != Reading(uid, x) {
      PushedForOnly(s[..|s| - 1], uid, x);
    }
  }

  lemma {:induction false} GoneForContains(s: seq<Gone>, r: Reading)
    requires r.sample in GoneFor(s, r.uid)
    ensures exists g :: g in s && g.reading == r
  {
    var last := s[|s| - 1];
    if last.reading != r {
      GoneForContains(s[..|s| - 1], r);
      var g :| g in s[..|s| - 1] && g.reading == r;
      assert g in s;
    }
  }

  lemma {:induction false} GoneForHas(s: seq<Gone>, g: Gone)
    requires g in s
    ensures g.reading.sample in GoneFor(s, g.reading.uid)
  {
    if s[|s| - 1] != g {
      GoneForHas(s[..|s| - 1], g);
    }
  }

  /** Only what was pushed can leave. */
  lemma {:induction false} GoneWasPushed(b: Buffer, log: Log, g: Gone)
    requires Balanced(b, log) && g in log.gone
    ensures g.reading in log.pushed
  {
    GoneForHas(log.gone, g);
    assert g.reading.sample in PushedFor(log.pushed, g.reading.uid);
    PushedForOnly(log.pushed, g.reading.uid, g.reading.sample);
  }

  // ----------------------------------------------------- what is kept of a node

  /** The ids in the last push for a UID, accepted or not. */
  function LastIds(ops: seq<Op>, uid: Uid): Option<Ids> {
    if ops == [] then None
    else
      var op := ops[|ops| - 1];
      if op.DoPush? && op.p.uid == uid then Some(op.p.ids) else LastIds(ops[..|ops| - 1], uid)
  }

  /** Every slot keeps the ids of the last push for its UID. */
  ghost predicate KeepsIds(b: Buffer, ops: seq<Op>) {
    forall i :: 0 <= i < |b.slots| && b.slots[i].Held? ==> LastIds(ops, b.slots[i].uid) == Some(b.slots[i].ids)
  }

  lemma {:induction false} LastIdsMore(ops: seq<Op>, op: Op, uid: Uid)
    ensures LastIds(ops + [op], uid) == if op.DoPush? && op.p.uid == uid then Some(op.p.ids) else LastIds(ops, uid)
  {
    assert (ops + [op])[..|ops|] == ops;
  }

  lemma {:induction false} IdsStep(b: Buffer, ops: seq<Op>, op: Op)
    requires Valid(b) && KeepsIds(b, ops)
    ensures KeepsIds(Apply(b, op), ops + [op])
  {
    var b' := Apply(b, op);
    forall i | 0 <= i < |b'.slots| && b'.slots[i].Held?
      ensures LastIds(ops + [op], b'.slots[i].uid) == Some(b'.slots[i].ids)
    {
      LastIdsMore(ops, op, b'.slots[i].uid);
      if b.slots[i].Held? {
        SlotOf(b, i);
      }
    }
  }

  lemma {:induction false} IdsRun(b: Buffer, before: seq<Op>, ops: seq<Op>)
    requires Valid(b) && KeepsIds(b, before)
    ensures KeepsIds(Run(b, ops), before + ops)
    decreases |ops|
  {
    if ops == [] {
      assert before + ops == before;
    } else {
      IdsStep(b, before, ops[0]);
      IdsRun(Apply(b, ops[0]), before + [ops[0]], ops[1..]);
      assert before + [ops[0]] + ops[1..] == before + ops;
    }
  }

  /** Over any run from empty, the Payload a peek shows carries the ids of the last push
      for its UID. */
  lemma {:induction false} ShowsLastIds(ops: seq<Op>)
    ensures PeekOut(Run(Empty, ops)).Some? ==>
      var p := PeekOut(Run(Empty, ops)).value;
      LastIds(ops, p.uid) == Some(p.ids)
  {
    IdsRun(Empty, [], ops);
    assert [] + ops == ops;
  }

  // ------------------------------------------------------------- no starvation

  /** Cyclic distance from `next` to slot i. */
  function Distance(b: Buffer, i: nat): (d: nat)
    requires b.next < MAX_NODES && i < MAX_NODES
    ensures d < MAX_NODES && Turn(b, d) == i
  {
    if i >= b.next then i - b.next else i + MAX_NODES - b.next
  }

  /** Slot i holds readings in every state of the run, and no pop serves it. */
  ghost predicate Waiting(b: Buffer, ops: seq<Op>, i: nat)
    requires Valid(b) && i < MAX_NODES
    decreases |ops|
  {
    && b.slots[i].Held?
    && (ops != [] ==> !(ops[0].DoPop? && b.peeked == Some(i)) && Waiting(Apply(b, ops[0]), ops[1..], i))
  }

  /** Pops in the run that remove a reading. */
  function Removals(b: Buffer, ops: seq<Op>): nat
    requires Valid(b)
    decreases |ops|
  {
    if ops == [] then 0
    else (if ops[0].DoPop? && b.peeked.Some? then 1 else 0) + Removals(Apply(b, ops[0]), ops[1..])
  }

  /** A pending peek that the rotation puts before slot i. */
  ghost predicate Ahead(b: Buffer, i: nat)
    requires Valid(b) && i < MAX_NODES
  {
    b.peeked.Some? ==> Distance(b, b.peeked.value) <= Distance(b, i)
  }

  /** A peek never points past a slot that holds readings. */
  lemma {:induction false} PeekIsAhead(b: Buffer, i: nat)
    requires Valid(b) && i < MAX_NODES && b.slots[i].Held?
    ensures Valid(Peek(b)) && Ahead(Peek(b), i)
  {
    var d := FirstHeld(b, 0);
    assert b.slots[Turn(b, Distance(b, i))].Held?;
    DistanceOfTurn(b, d);
  }

  lemma {:induction false} DistanceOfTurn(b: Buffer, d: nat)
    requires b.next < MAX_NODES && d < MAX_NODES
    ensures Distance(b, Turn(b, d)) == d
  {}

  lemma {:induction false} PopMovesCloser(b: Buffer, i: nat)
    requires Valid(b) && i < MAX_NODES && b.peeked.Some? && b.peeked.value != i
    ensures Valid(Pop(b)) && Distance(Pop(b), i) <= 6
    ensures Ahead(b, i) ==> Distance(Pop(b), i) < Distance(b, i)
  {
    PopRefinesMap(b);
  }

  lemma {:induction false} RemovalsWhileAhead(b: Buffer, ops: seq<Op>, i: nat)
    requires Valid(b) && i < MAX_NODES && Waiting(b, ops, i) && Ahead(b, i)
    ensures Removals(b, ops) <= Distance(b, i)
    decreases |ops|
  {
    if ops != [] {
      var b' := Apply(b, ops[0]);
      match ops[0] {
        case DoPush(p) => assert Distance(b', i) == Distance(b, i) && Ahead(b', i);
        case DoPeek => PeekIsAhead(b, i);
        case DoPop => if b.peeked.Some? { PopMovesCloser(b, i); }
      }
      RemovalsWhileAhead(b', ops[1..], i);
    }
  }

  /** No starvation: over any run, with pushes and repeated peeks anywhere, while a
      slot holds readings at most seven pops remove readings before one of its own. */
  lemma {:induction false} NoStarvation(b: Buffer, ops: seq<Op>, i: nat)
    requires Valid(b) && i < MAX_NODES && Waiting(b, ops, i)
    ensures Removals(b, ops) <= 7
    decreases |ops|
  {
    if ops != [] {
      var b' := Apply(b, ops[0]);
      if ops[0].DoPop? && b.peeked.Some? {
        PopMovesCloser(b, i);
        RemovalsWhileAhead(b', ops[1..], i);
      } else {
        NoStarvation(b', ops[1..], i);
      }
    }
  }
}
