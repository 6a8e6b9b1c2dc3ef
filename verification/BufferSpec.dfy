/** The substation's store and forward buffer, as slots holding queues.
    `ReadingBuffers.ReadingBuffer` implements it with rings in place; the lemmas
    here relate it to a plain map from UID to bounded FIFO. */
module BufferSpec {
  import opened Wire

  /** Most meter nodes one substation can buffer for. */
  const MAX_NODES: nat := 8
  /** Readings held per node. */
  const PER_NODE: nat := 288

  datatype Slot = Free | Held(uid: Uid, ids: Ids, queue: seq<Sample>)

  datatype Buffer = Buffer(slots: seq<Slot>, next: nat, peeked: Option<nat>)

  const Empty: Buffer := Buffer([Free, Free, Free, Free, Free, Free, Free, Free], 0, None)

  // --------------------------------------------------------------- invariant

  ghost predicate DistinctUids(slots: seq<Slot>) {
    forall i, j :: 0 <= i < j < |slots| && slots[i].Held? && slots[j].Held? ==> slots[i].uid != slots[j].uid
  }

  /** At operation boundaries: one slot per UID, held slots are exactly the
      non-empty ones, and a pending peek points at a held slot. */
  ghost predicate Valid(b: Buffer) {
    && |b.slots| == MAX_NODES
    && b.next < MAX_NODES
    && (forall i :: 0 <= i < MAX_NODES && b.slots[i].Held? ==> 0 < |b.slots[i].queue| <= PER_NODE)
    && DistinctUids(b.slots)
    && (b.peeked.Some? ==> b.peeked.value < MAX_NODES && b.slots[b.peeked.value].Held?)
  }

  // --------------------------------------------------------------- operations

  /** First index from `from` whose slot is held for `uid`, else |slots|. */
  function FindUid(slots: seq<Slot>, uid: Uid, from: nat): (k: nat)
    requires from <= |slots|
    ensures from <= k <= |slots|
    ensures k < |slots| ==> slots[k].Held? && slots[k].uid == uid
    ensures forall i :: from <= i < k ==> !(slots[i].Held? && slots[i].uid == uid)
    decreases |slots| - from
  {
    if from == |slots| || (slots[from].Held? && slots[from].uid == uid) then from
    else FindUid(slots, uid, from + 1)
  }

  /** First free index from `from`, else |slots|. */
  function FindFree(slots: seq<Slot>, from: nat): (k: nat)
    requires from <= |slots|
    ensures from <= k <= |slots|
    ensures k < |slots| ==> slots[k].Free?
    ensures forall i :: from <= i < k ==> slots[i].Held?
    decreases |slots| - from
  {
    if from == |slots| || slots[from].Free? then from
    else FindFree(slots, from + 1)
  }

  /** Appends to a queue of at most PER_NODE, dropping the oldest when full. */
  function BoundedAppend(q: seq<Sample>, s: Sample): seq<Sample> {
    if |q| >= PER_NODE then q[1..] + [s] else q + [s]
  }

  /** Where a push for `uid` lands: its own slot, else a free one, else |slots|. */
  function Target(b: Buffer, uid: Uid): (k: nat)
    ensures k <= |b.slots|
  {
    var k := FindUid(b.slots, uid, 0);
    if k < |b.slots| then k else FindFree(b.slots, 0)
  }

  function QueueAt(b: Buffer, i: nat): seq<Sample>
    requires i < |b.slots|
  {
    if b.slots[i].Held? then b.slots[i].queue else []
  }

  predicate Accepts(b: Buffer, uid: Uid) {
    Target(b, uid) < |b.slots|
  }

  function Push(b: Buffer, p: Payload): Buffer {
    var k := Target(b, p.uid);
    if k == |b.slots| then b
    else
      var full := |QueueAt(b, k)| >= PER_NODE;
      Buffer(b.slots[k := Held(p.uid, p.ids, BoundedAppend(QueueAt(b, k), p.sample))],
             b.next,
             if full && b.peeked == Some(k) then None else b.peeked)
  }

  /** The reading a push overwrites, if any. */
  function Overwritten(b: Buffer, p: Payload): Option<Reading> {
    var k := Target(b, p.uid);
    if k < |b.slots| && |QueueAt(b, k)| >= PER_NODE
    then Some(Reading(p.uid, QueueAt(b, k)[0])) else None
  }

  /** The slot `d` places after `next` in the rotation. */
  function Turn(b: Buffer, d: nat): (i: nat)
    ensures i < MAX_NODES
  {
    (b.next + d) % MAX_NODES
  }

  /** Distance from `next` to the first held slot at or after it, cyclically; MAX_NODES if none. */
  function FirstHeld(b: Buffer, from: nat): (d: nat)
    requires |b.slots| == MAX_NODES && from <= MAX_NODES
    ensures from <= d <= MAX_NODES
    ensures d < MAX_NODES ==> b.slots[Turn(b, d)].Held?
    ensures forall i :: from <= i < d ==> b.slots[Turn(b, i)].Free?
    decreases MAX_NODES - from
  {
    if from == MAX_NODES || b.slots[Turn(b, from)].Held? then from
    else FirstHeld(b, from + 1)
  }

  function Peeks(b: Buffer): Option<nat>
    requires |b.slots| == MAX_NODES
    ensures Peeks(b).Some? ==> Peeks(b).value < MAX_NODES && b.slots[Peeks(b).value].Held?
  {
    var d := FirstHeld(b, 0);
    if d == MAX_NODES then None else Some(Turn(b, d))
  }

  function Peek(b: Buffer): Buffer
    requires |b.slots| == MAX_NODES
  {
    b.(peeked := Peeks(b))
  }

  function PeekOut(b: Buffer): Option<Payload>
    requires Valid(b)
  {
    match Peeks(b)
    case None => None
    case Some(i) => Some(Payload(b.slots[i].uid, b.slots[i].queue[0], b.slots[i].ids))
  }

  function Pop(b: Buffer): Buffer
    requires Valid(b)
  {
    match b.peeked
    case None => b
    case Some(i) =>
      var s := b.slots[i];
      Buffer(b.slots[i := if |s.queue| == 1 then Free else s.(queue := s.queue[1..])],
             (i + 1) % MAX_NODES, None)
  }

  /** The reading a pop removes, if any. */
  function Popped(b: Buffer): Option<Reading>
    requires Valid(b)
  {
    match b.peeked
    case None => None
    case Some(i) => Some(Reading(b.slots[i].uid, b.slots[i].queue[0]))
  }

  function TotalFrom(slots: seq<Slot>, i: nat): nat
    requires i <= |slots|
    decreases |slots| - i
  {
    if i == |slots| then 0
    else (if slots[i].Held? then |slots[i].queue| else 0) + TotalFrom(slots, i + 1)
  }

  // --------------------------------------------------------- the map it refines

  function HoldersFrom(slots: seq<Slot>, i: nat): set<Uid>
    requires i <= |slots|
    decreases |slots| - i
  {
    if i == |slots| then {}
    else (if slots[i].Held? then {slots[i].uid} else {}) + HoldersFrom(slots, i + 1)
  }

  function Holders(b: Buffer): set<Uid> { HoldersFrom(b.slots, 0) }

  /** Everything buffered for a UID, oldest first. */
  function QueueOf(b: Buffer, uid: Uid): seq<Sample> {
    var k := FindUid(b.slots, uid, 0);
    if k < |b.slots| then b.slots[k].queue else []
  }

  /** The buffer as a map from UID to FIFO. */
  function View(b: Buffer): map<Uid, seq<Sample>> {
    map u | u in Holders(b) :: QueueOf(b, u)
  }

  /** In a valid buffer a held slot is the one its UID finds. */
  lemma {:induction false} SlotOf(b: Buffer, i: nat)
    requires Valid(b) && i < MAX_NODES && b.slots[i].Held?
    ensures FindUid(b.slots, b.slots[i].uid, 0) == i
    ensures QueueOf(b, b.slots[i].uid) == b.slots[i].queue
    ensures b.slots[i].uid in View(b)
  {
    var k := FindUid(b.slots, b.slots[i].uid, 0);
    assert k <= i;
    if k < i {
      assert false;
    }
    InHolders(b.slots, b.slots[i].uid, 0);
  }

  lemma {:induction false} InHolders(slots: seq<Slot>, uid: Uid, i: nat)
    requires i <= |slots|
    ensures uid in HoldersFrom(slots, i) <==> FindUid(slots, uid, i) < |slots|
    decreases |slots| - i
  {
    if i < |slots| {
      InHolders(slots, uid, i + 1);
    }
  }

  function CountHeld(slots: seq<Slot>, i: nat): (n: nat)
    requires i <= |slots|
    decreases |slots| - i
  {
    if i == |slots| then 0 else CountHeld(slots, i + 1) + if slots[i].Held? then 1 else 0
  }

  lemma {:induction false} CountHeldFull(slots: seq<Slot>, i: nat)
    requires i <= |slots|
    ensures CountHeld(slots, i) <= |slots| - i
    ensures CountHeld(slots, i) == |slots| - i <==> FindFree(slots, i) == |slots|
    decreases |slots| - i
  {
    if i < |slots| {
      CountHeldFull(slots, i + 1);
    }
  }

  lemma {:induction false} HeldOnce(slots: seq<Slot>, i: nat)
    requires i < |slots| && DistinctUids(slots) && slots[i].Held?
    ensures slots[i].uid !in HoldersFrom(slots, i + 1)
  {
    InHolders(slots, slots[i].uid, i + 1);
  }

  lemma {:induction false} HoldersSize(slots: seq<Slot>, i: nat)
    requires i <= |slots| && DistinctUids(slots)
    ensures |HoldersFrom(slots, i)| == CountHeld(slots, i)
    decreases |slots| - i
  {
    if i < |slots| {
      HoldersSize(slots, i + 1);
      var rest := HoldersFrom(slots, i + 1);
      if slots[i].Held? {
        HeldOnce(slots, i);
        assert HoldersFrom(slots, i) == {slots[i].uid} + rest;
      } else {
        assert HoldersFrom(slots, i) == rest;
      }
    }
  }

  lemma {:induction false} SameFind(s: seq<Slot>, s': seq<Slot>, k: nat, u: Uid, i: nat)
    requires k < |s| == |s'| && i <= |s| && s' == s[k := s'[k]]
    requires s[k].Held? ==> s[k].uid != u
    requires s'[k].Held? ==> s'[k].uid != u
    ensures FindUid(s', u, i) == FindUid(s, u, i)
    ensures var f := FindUid(s, u, i); f < |s| ==> s'[f] == s[f]
    decreases |s| - i
  {
    if i < |s| {
      SameFind(s, s', k, u, i + 1);
    }
  }

  /** Two buffers agree on every UID except those of slot k before and after an update. */
  lemma {:induction false} UpdateView(b: Buffer, b': Buffer, k: nat, u: Uid)
    requires Valid(b) && Valid(b') && k < MAX_NODES
    requires b'.slots == b.slots[k := b'.slots[k]]
    requires b.slots[k].Held? ==> b.slots[k].uid != u
    requires b'.slots[k].Held? ==> b'.slots[k].uid != u
    ensures u in Holders(b') <==> u in Holders(b)
    ensures QueueOf(b', u) == QueueOf(b, u)
  {
    InHolders(b.slots, u, 0);
    InHolders(b'.slots, u, 0);
    SameFind(b.slots, b'.slots, k, u, 0);
  }

  lemma {:induction false} PushValid(b: Buffer, p: Payload)
    requires Valid(b)
    ensures Valid(Push(b, p))
  {
    var k := Target(b, p.uid);
    if k < MAX_NODES {
      var b' := Push(b, p);
      forall i, j | 0 <= i < j < MAX_NODES && b'.slots[i].Held? && b'.slots[j].Held?
        ensures b'.slots[i].uid != b'.slots[j].uid
      {
        if i == k && b.slots[k].Free? {
          assert FindUid(b.slots, p.uid, 0) == MAX_NODES;
        } else if j == k && b.slots[k].Free? {
          assert FindUid(b.slots, p.uid, 0) == MAX_NODES;
        }
      }
    }
  }

  /** The buffers agree on every UID other than `uid`. */
  ghost predicate SameElsewhere(b: Buffer, b': Buffer, uid: Uid) {
    forall u: Uid :: u != uid ==> (u in Holders(b') <==> u in Holders(b)) && QueueOf(b', u) == QueueOf(b, u)
  }

  lemma {:induction false} UpdateElsewhere(b: Buffer, b': Buffer, k: nat, uid: Uid)
    requires Valid(b) && Valid(b') && k < MAX_NODES
    requires b'.slots == b.slots[k := b'.slots[k]]
    requires b.slots[k].Held? ==> b.slots[k].uid == uid
    requires b'.slots[k].Held? ==> b'.slots[k].uid == uid
    ensures SameElsewhere(b, b', uid)
  {
    forall u: Uid | u != uid
      ensures (u in Holders(b') <==> u in Holders(b)) && QueueOf(b', u) == QueueOf(b, u)
    {
      UpdateView(b, b', k, u);
    }
  }

  lemma {:induction false} ViewOfUpdate(b: Buffer, b': Buffer, uid: Uid)
    requires SameElsewhere(b, b', uid)
    ensures View(b') == if uid in Holders(b') then View(b)[uid := QueueOf(b', uid)] else View(b) - {uid}
  {}

  lemma {:induction false} PushQueues(b: Buffer, p: Payload)
    requires Valid(b) && Accepts(b, p.uid)
    ensures Valid(Push(b, p)) && SameElsewhere(b, Push(b, p), p.uid)
    ensures p.uid in Holders(Push(b, p))
    ensures QueueOf(Push(b, p), p.uid) == BoundedAppend(QueueOf(b, p.uid), p.sample)
  {
    PushValid(b, p);
    var k := Target(b, p.uid);
    UpdateElsewhere(b, Push(b, p), k, p.uid);
    SlotOf(Push(b, p), k);
  }

  /** A push refuses exactly when the UID holds nothing and eight others do;
      otherwise it appends to that UID's FIFO and touches no other. */
  lemma {:induction false} PushRefinesMap(b: Buffer, p: Payload)
    requires Valid(b)
    ensures !Accepts(b, p.uid) <==> p.uid !in View(b) && |View(b)| == 8
    ensures !Accepts(b, p.uid) ==> Push(b, p) == b
    ensures var q := QueueOf(b, p.uid);
      |q| <= 288 && BoundedAppend(q, p.sample) == (if |q| == 288 then q[1..] else q) + [p.sample]
    ensures Accepts(b, p.uid) ==> View(Push(b, p)) == View(b)[p.uid := BoundedAppend(QueueOf(b, p.uid), p.sample)]
  {
    HoldersSize(b.slots, 0);
    CountHeldFull(b.slots, 0);
    InHolders(b.slots, p.uid, 0);
    assert View(b).Keys == Holders(b);
    if Accepts(b, p.uid) {
      PushQueues(b, p);
      ViewOfUpdate(b, Push(b, p), p.uid);
    }
  }

  lemma {:induction false} PeekValid(b: Buffer)
    requires Valid(b)
    ensures Valid(Peek(b))
  {}

  lemma {:induction false} PeeksNone(b: Buffer)
    requires Valid(b)
    ensures Peeks(b).None? <==> Holders(b) == {}
  {
    HoldersEmpty(b.slots, 0);
    if Peeks(b).None? {
      forall i | 0 <= i < |b.slots| ensures b.slots[i].Free? {
        var e := TurnReaches(b, i);
      }
    }
  }

  lemma {:induction false} TurnReaches(b: Buffer, i: nat) returns (e: nat)
    requires b.next < MAX_NODES && i < MAX_NODES
    ensures e < MAX_NODES && Turn(b, e) == i
  {
    e := if i >= b.next then i - b.next else i + MAX_NODES - b.next;
  }

  lemma {:induction false} HoldersEmpty(slots: seq<Slot>, i: nat)
    requires i <= |slots|
    ensures HoldersFrom(slots, i) == {} <==> forall k :: i <= k < |slots| ==> slots[k].Free?
    decreases |slots| - i
  {
    if i < |slots| {
      HoldersEmpty(slots, i + 1);
    }
  }

  /** A peek finds a reading exactly when the map is non-empty, takes the head of
      one FIFO, and leaves every FIFO as it was. */
  lemma {:induction false} PeekRefinesMap(b: Buffer)
    requires Valid(b)
    ensures Valid(Peek(b)) && View(Peek(b)) == View(b)
    ensures PeekOut(b).None? <==> |View(b)| == 0
    ensures PeekOut(b).Some? ==>
      var p := PeekOut(b).value;
      p.uid in View(b) && p.sample == View(b)[p.uid][0] && Popped(Peek(b)) == Some(p.ToReading())
  {
    PeeksNone(b);
    assert View(b).Keys == Holders(b);
    if Peeks(b).Some? {
      SlotOf(b, Peeks(b).value);
    }
  }

  lemma {:induction false} PopQueues(b: Buffer)
    requires Valid(b) && b.peeked.Some?
    ensures Valid(Pop(b))
    ensures var r := Popped(b).value;
      && SameElsewhere(b, Pop(b), r.uid)
      && r.uid in Holders(b) && QueueOf(b, r.uid) == [r.sample] + QueueOf(Pop(b), r.uid)
      && (r.uid in Holders(Pop(b)) <==> |QueueOf(b, r.uid)| > 1)
  {
    var i := b.peeked.value;
    var u := b.slots[i].uid;
    var b' := Pop(b);
    SlotOf(b, i);
    UpdateElsewhere(b, b', i, u);
    if b'.slots[i].Held? {
      SlotOf(b', i);
    } else {
      InHolders(b'.slots, u, 0);
    }
  }

  /** A pop removes the head of one FIFO, dropping the UID when that was its last
      reading; with no peek pending it changes nothing. */
  lemma {:induction false} PopRefinesMap(b: Buffer)
    requires Valid(b)
    ensures Valid(Pop(b))
    ensures Popped(b).None? ==> Pop(b) == b
    ensures Popped(b).Some? ==>
      var u := Popped(b).value.uid;
      && u in View(b) && Popped(b).value.sample == View(b)[u][0]
      && View(Pop(b)) == if |View(b)[u]| == 1 then View(b) - {u} else View(b)[u := View(b)[u][1..]]
  {
    if b.peeked.Some? {
      PopQueues(b);
      ViewOfUpdate(b, Pop(b), Popped(b).value.uid);
    }
  }

  lemma {:induction false} TotalUpdate(slots: seq<Slot>, k: nat, s: Slot, i: nat)
    requires i <= |slots| && k < |slots|
    ensures TotalFrom(slots[k := s], i) == TotalFrom(slots, i)
      + if i <= k then (if s.Held? then |s.queue| else 0) - (if slots[k].Held? then |slots[k].queue| else 0) else 0
    decreases |slots| - i
  {
    if i < |slots| {
      TotalUpdate(slots, k, s, i + 1);
    }
  }

  /** The count moves by what each operation stores and removes. */
  lemma {:induction false} CountConserved(b: Buffer, p: Payload)
    requires Valid(b)
    ensures TotalFrom(Push(b, p).slots, 0) + (if Overwritten(b, p).Some? then 1 else 0)
         == TotalFrom(b.slots, 0) + (if Accepts(b, p.uid) then 1 else 0)
    ensures TotalFrom(Pop(b).slots, 0) + (if Popped(b).Some? then 1 else 0) == TotalFrom(b.slots, 0)
  {
    var k := Target(b, p.uid);
    if k < MAX_NODES {
      TotalUpdate(b.slots, k, Push(b, p).slots[k], 0);
    }
    if b.peeked.Some? {
      TotalUpdate(b.slots, b.peeked.value, Pop(b).slots[b.peeked.value], 0);
    }
  }

  /** A push cancels a pending pop exactly when it overwrites the reading that was shown:
      one of the same UID, with 288 queued. Any other leaves it pending. */
  lemma {:induction false} PushCancelsIff(b: Buffer, p: Payload)
    requires Valid(b) && Popped(b).Some?
    ensures Valid(Push(b, p))
    ensures Popped(Push(b, p)) ==
      if p.uid == Popped(b).value.uid && |QueueOf(b, p.uid)| == 288 then None else Popped(b)
  {
    PushValid(b, p);
    SlotOf(b, b.peeked.value);
    if Accepts(b, p.uid) && Target(b, p.uid) == b.peeked.value {
      assert FindUid(b.slots, p.uid, 0) == b.peeked.value;
    }
  }
}
