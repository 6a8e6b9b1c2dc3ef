/** The reading buffer in place: a fixed array of node slots, each with its own ring. */
module ReadingBuffers {
  import opened Wire
  import opened BufferSpec

  /** Everything buffered for one meter node; the oldest reading is ring[head]. */
  datatype NodeSlot = NodeSlot(used: bool, uid: Uid, ids: Ids, ring: seq<Sample>, head: nat, count: nat)

  const NoSample := Sample(0, 0, 0, 0)

  /** A zeroed slot. */
  function Blank(): NodeSlot {
    NodeSlot(false, 0, Ids(0, 0, 0), seq(PER_NODE, _ => NoSample), 0, 0)
  }

  /** Shape of one slot's ring. */
  predicate RingOk(s: NodeSlot) {
    |s.ring| == PER_NODE && s.head < PER_NODE && s.count <= PER_NODE
  }

  /** The ring's readings, oldest first. */
  ghost function Queue(s: NodeSlot): (q: seq<Sample>)
    requires RingOk(s)
    ensures |q| == s.count
  {
    seq(s.count, i requires 0 <= i < s.count => s.ring[(s.head + i) % PER_NODE])
  }

  ghost function Abs(s: NodeSlot): Slot
    requires RingOk(s)
  {
    if s.used then Held(s.uid, s.ids, Queue(s)) else Free
  }

  ghost function AbsAll(slots: seq<NodeSlot>): (r: seq<Slot>)
    requires forall i :: 0 <= i < |slots| ==> RingOk(slots[i])
    ensures |r| == |slots|
    ensures forall i :: 0 <= i < |slots| ==> r[i] == Abs(slots[i])
  {
    seq(|slots|, i requires 0 <= i < |slots| => Abs(slots[i]))
  }

  /** readingBufferPush()'s ring step: advance past the oldest. */
  function DropOldest(s: NodeSlot): NodeSlot
    requires RingOk(s) && s.count > 0
  {
    s.(head := (s.head + 1) % PER_NODE, count := s.count - 1)
  }

  function Store(s: NodeSlot, x: Sample): NodeSlot
    requires RingOk(s) && s.count < PER_NODE
  {
    s.(ring := s.ring[(s.head + s.count) % PER_NODE := x], count := s.count + 1)
  }

  lemma {:induction false} DropOldestQueue(s: NodeSlot)
    requires RingOk(s) && s.count > 0
    ensures RingOk(DropOldest(s)) && Queue(DropOldest(s)) == Queue(s)[1..]
  {
    var s' := DropOldest(s);
    forall i | 0 <= i < s'.count ensures Queue(s')[i] == Queue(s)[i + 1] {
      assert (s'.head + i) % PER_NODE == (s.head + (i + 1)) % PER_NODE;
    }
  }

  lemma {:induction false} StoreQueue(s: NodeSlot, x: Sample)
    requires RingOk(s) && s.count < PER_NODE
    ensures RingOk(Store(s, x)) && Queue(Store(s, x)) == Queue(s) + [x]
  {
    var s' := Store(s, x);
    forall i | 0 <= i < s.count ensures Queue(s')[i] == Queue(s)[i] {
      assert (s.head + i) % PER_NODE != (s.head + s.count) % PER_NODE;
    }
  }

  /** The slot a push works on holds exactly the queue the model says. */
  lemma {:induction false} ClaimedQueue(b: Buffer, k: nat, slot: NodeSlot)
    requires k < |b.slots| && RingOk(slot) && slot.used
    requires if b.slots[k].Held? then b.slots[k] == Abs(slot) else slot.count == 0
    ensures Queue(slot) == QueueAt(b, k)
  {}

  lemma {:induction false} OldestFirst(s: NodeSlot)
    requires RingOk(s) && s.count > 0
    ensures s.ring[s.head] == Queue(s)[0]
  {}

  /** In a valid buffer a slot counts as held exactly when the peek's test passes. */
  lemma {:induction false} HeldTest(b: Buffer, i: nat, s: NodeSlot)
    requires BufferSpec.Valid(b) && i < MAX_NODES && RingOk(s) && b.slots[i] == Abs(s)
    ensures b.slots[i].Held? <==> s.used && s.count != 0
  {}

  lemma {:induction false} AbsUpdate(slots: seq<NodeSlot>, k: nat, s: NodeSlot)
    requires k < |slots| && RingOk(s)
    requires forall i :: 0 <= i < |slots| ==> RingOk(slots[i])
    ensures AbsAll(slots[k := s]) == AbsAll(slots)[k := Abs(s)]
  {}

  class ReadingBuffer {
    const slots: array<NodeSlot>
    /** Slot the next peek starts searching from. */
    var nextSlot: nat
    /** Slot of the last peeked reading, or -1. */
    var peekedSlot: int

    ghost predicate RingsOk()
      reads slots
    {
      slots.Length == MAX_NODES && forall i :: 0 <= i < MAX_NODES ==> RingOk(slots[i])
    }

    ghost function Model(): Buffer
      reads this, slots
      requires RingsOk()
    {
      Buffer(AbsAll(slots[..]), nextSlot, if peekedSlot < 0 then None else Some(peekedSlot))
    }

    ghost predicate Valid()
      reads this, slots
    {
      && RingsOk()
      && BufferSpec.Valid(Model())
      && (forall i :: 0 <= i < MAX_NODES && !slots[i].used ==> slots[i].count == 0)
      && -1 <= peekedSlot
    }

    constructor ()
      ensures Valid() && fresh(slots)
      ensures Model() == Empty
    {
      slots := new NodeSlot[MAX_NODES](_ => Blank());
      nextSlot, peekedSlot := 0, -1;
      new;
      assert AbsAll(slots[..]) == Empty.slots;
    }

    /** Finds the slot for a UID, claiming a free one if it is new; MAX_NODES if
        the UID is new and none are free. */
    method FindOrClaimSlot(uid: Uid) returns (k: nat)
      requires Valid()
      modifies slots
      ensures k == Target(old(Model()), uid)
      ensures forall i :: 0 <= i < MAX_NODES && i != k ==> slots[i] == old(slots[i])
      ensures k < MAX_NODES && old(slots[k].used) ==> slots[k] == old(slots[k]) && slots[k].uid == uid
      ensures k < MAX_NODES && !old(slots[k].used) ==> slots[k] == Blank().(used := true, uid := uid)
    {
      ghost var b := Model();
      var freeSlot: nat := MAX_NODES;
      for i := 0 to MAX_NODES
        invariant freeSlot <= MAX_NODES
        invariant forall j :: 0 <= j < i ==> !(slots[j].used && slots[j].uid == uid)
        invariant freeSlot == MAX_NODES ==> forall j :: 0 <= j < i ==> slots[j].used
        invariant freeSlot < MAX_NODES ==> freeSlot < i && !slots[freeSlot].used
        invariant freeSlot < MAX_NODES ==> forall j :: 0 <= j < freeSlot ==> slots[j].used
        invariant slots[..] == old(slots[..])
      {
        if slots[i].used && slots[i].uid == uid {
          assert b.slots[i].uid == uid;
          return i;
        }
        if !slots[i].used && freeSlot == MAX_NODES {
          freeSlot := i;
        }
      }
      assert FindUid(b.slots, uid, 0) == MAX_NODES;
      assert FindFree(b.slots, 0) == freeSlot;
      if freeSlot < MAX_NODES {
        slots[freeSlot] := Blank();
        slots[freeSlot] := slots[freeSlot].(used := true, uid := uid);
      }
      return freeSlot;
    }

    /** readingBufferPush() */
    method Push(p: Payload) returns (stored: bool)
      requires Valid()
      modifies this, slots
      ensures Valid()
      ensures stored == Accepts(old(Model()), p.uid)
      ensures Model() == BufferSpec.Push(old(Model()), p)
    {
      ghost var b := Model();
      PushValid(b, p);
      var k := FindOrClaimSlot(p.uid);
      if k == MAX_NODES {
        assert slots[..] == old(slots[..]);
        return false;
      }
      var slot := slots[k];
      ghost var q := Queue(slot);
      ClaimedQueue(b, k, slot);
      slot := slot.(ids := p.ids);
      if slot.count == PER_NODE {
        DropOldestQueue(slot);
        slot := slot.(head := (slot.head + 1) % PER_NODE, count := slot.count - 1);
        if peekedSlot >= 0 && k == peekedSlot {
          peekedSlot := -1;
        }
      }
      StoreQueue(slot, p.sample);
      var at := (slot.head + slot.count) % PER_NODE;
      slot := slot.(ring := slot.ring[at := p.sample], count := slot.count + 1);
      slots[k] := slot;
      assert Queue(slot) == BoundedAppend(q, p.sample);
      assert slots[..] == old(slots[..])[k := slot];
      AbsUpdate(old(slots[..]), k, slot);
      return true;
    }

    /** readingBufferPeek(): copies out the oldest reading of the next node in turn. */
    method Peek(out0: Payload) returns (found: bool, out: Payload)
      requires Valid()
      modifies `peekedSlot
      ensures Valid()
      ensures Model() == BufferSpec.Peek(old(Model()))
      ensures found == PeekOut(old(Model())).Some?
      ensures out == if found then PeekOut(old(Model())).value else out0
    {
      ghost var b := Model();
      PeekValid(b);
      for i := 0 to MAX_NODES
        invariant peekedSlot == old(peekedSlot)
        invariant FirstHeld(b, 0) == FirstHeld(b, i)
      {
        var index := (nextSlot + i) % MAX_NODES;
        assert index == Turn(b, i) && b.slots[index] == Abs(slots[index]);
        var slot := slots[index];
        HeldTest(b, index, slot);
        if slot.used && slot.count != 0 {
          OldestFirst(slot);
          assert Peeks(b) == Some(index);
          peekedSlot := index;
          assert slots[..] == old(slots[..]);
          return true, Payload(slot.uid, slot.ring[slot.head], slot.ids);
        }
      }
      peekedSlot := -1;
      assert slots[..] == old(slots[..]);
      return false, out0;
    }

    /** readingBufferPop(): removes the reading of the last peek, unless a push overwrote it. */
    method Pop()
      requires Valid()
      modifies this, slots
      ensures Valid()
      ensures Model() == BufferSpec.Pop(old(Model()))
    {
      ghost var b := Model();
      PopRefinesMap(b);
      if peekedSlot < 0 {
        return;
      }
      var k := peekedSlot;
      var slot := slots[k];
      assert b.slots[k] == Abs(slot);
      if slot.count > 0 {
        DropOldestQueue(slot);
        slot := slot.(head := (slot.head + 1) % PER_NODE, count := slot.count - 1);
      }
      if slot.count == 0 {
        slot := slot.(used := false);
      }
      slots[k] := slot;
      nextSlot := (peekedSlot + 1) % MAX_NODES;
      peekedSlot := -1;
      assert slots[..] == old(slots[..])[k := slot];
      AbsUpdate(old(slots[..]), k, slot);
    }

    /** readingBufferCount() */
    method Count() returns (total: nat)
      requires Valid()
      ensures total == TotalFrom(Model().slots, 0)
    {
      total := 0;
      ghost var b := Model();
      for i := 0 to MAX_NODES
        invariant total + TotalFrom(b.slots, i) == TotalFrom(b.slots, 0)
      {
        assert b.slots[i] == Abs(slots[i]);
        total := total + slots[i].count;
      }
    }

    /** readingBufferClear() */
    method Clear()
      requires Valid()
      modifies this, slots
      ensures Valid() && Model() == Empty
    {
      for i := 0 to MAX_NODES
        invariant forall j :: 0 <= j < i ==> slots[j] == Blank()
      {
        slots[i] := Blank();
      }
      nextSlot := 0;
      peekedSlot := -1;
      assert AbsAll(slots[..]) == Empty.slots;
    }
  }
}
