/** EspNowUplink's receive queue: four frames deep, dropping the oldest when full. */
module EspNow {
  import opened Wire

  const RX_DEPTH: nat := 4
  const MAX_DATA: nat := 250

  datatype Rx = Rx(mac: Mac, data: seq<Byte>)

  /** The queue after a frame arrives. */
  function Arrive(q: seq<Rx>, f: Rx): seq<Rx> {
    (if |q| == RX_DEPTH then q[1..] else q) + [f]
  }

  datatype Op = Arrival(f: Rx) | Take

  function Frames(ops: seq<Op>): seq<Rx> {
    if ops == [] then []
    else (if ops[0].Arrival? then [ops[0].f] else []) + Frames(ops[1..])
  }

  /** The queue after a run of arrivals and reads. */
  function Queue(q: seq<Rx>, ops: seq<Op>): seq<Rx>
    decreases |ops|
  {
    if ops == [] then q
    else match ops[0]
      case Arrival(f) => Queue(Arrive(q, f), ops[1..])
      case Take => Queue(if q == [] then q else q[1..], ops[1..])
  }

  /** The frames read during a run. */
  function Taken(q: seq<Rx>, ops: seq<Op>): seq<Rx>
    decreases |ops|
  {
    if ops == [] then []
    else match ops[0]
      case Arrival(f) => Taken(Arrive(q, f), ops[1..])
      case Take => (if q == [] then [] else [q[0]]) + Taken(if q == [] then q else q[1..], ops[1..])
  }

  /** a is b with some elements left out. */
  ghost predicate Sub(a: seq<Rx>, b: seq<Rx>)
    decreases |b|
  {
    a == [] || (b != [] && ((a[0] == b[0] && Sub(a[1..], b[1..])) || Sub(a, b[1..])))
  }

  lemma {:induction false} SubRefl(a: seq<Rx>)
    ensures Sub(a, a)
  {
    if a != [] {
      SubRefl(a[1..]);
    }
  }

  lemma {:induction false} SubCons(x: Rx, a: seq<Rx>, b: seq<Rx>)
    requires Sub(a, b)
    ensures Sub([x] + a, [x] + b)
    ensures Sub(a, [x] + b)
  {
    assert ([x] + a)[1..] == a && ([x] + b)[1..] == b;
  }

  /** An arrival at the front of a run. */
  lemma {:induction false} ArriveThen(q: seq<Rx>, f: Rx, later: seq<Rx>)
    ensures var all, all' := q + ([f] + later), Arrive(q, f) + later;
      if |q| == RX_DEPTH then all == [q[0]] + all' else all == all'
  {}

  /** What a run reads, followed by what it leaves queued. */
  function Kept(q: seq<Rx>, ops: seq<Op>): seq<Rx> { Taken(q, ops) + Queue(q, ops) }

  lemma {:induction false} KeptTake(q: seq<Rx>, ops: seq<Op>)
    requires ops != [] && ops[0].Take?
    ensures Frames(ops) == Frames(ops[1..])
    ensures q == [] ==> Kept(q, ops) == Kept(q, ops[1..])
    ensures q != [] ==> Kept(q, ops) == [q[0]] + Kept(q[1..], ops[1..])
  {
    if q == [] {
      assert Taken(q, ops) == Taken(q, ops[1..]);
    } else {
      assert Kept(q, ops) == [q[0]] + Kept(q[1..], ops[1..]);
    }
  }

  lemma {:induction false} KeptArrival(q: seq<Rx>, ops: seq<Op>)
    requires ops != [] && ops[0].Arrival?
    ensures Frames(ops) == [ops[0].f] + Frames(ops[1..])
    ensures Kept(q, ops) == Kept(Arrive(q, ops[0].f), ops[1..])
  {}

  lemma {:induction false} ArrivalLoses(k: seq<Rx>, q: seq<Rx>, f: Rx, later: seq<Rx>)
    requires Sub(k, Arrive(q, f) + later)
    ensures Sub(k, q + ([f] + later))
  {
    ArriveThen(q, f, later);
    if |q| == RX_DEPTH {
      SubCons(q[0], k, Arrive(q, f) + later);
    }
  }

  lemma {:induction false} TakeKeeps(k: seq<Rx>, q: seq<Rx>, later: seq<Rx>)
    requires q != [] && Sub(k, q[1..] + later)
    ensures Sub([q[0]] + k, q + later)
  {
    SubCons(q[0], k, q[1..] + later);
    assert q + later == [q[0]] + (q[1..] + later);
  }

  /** The link loses frames but never reorders them: what is read, followed by what is
      still queued, is what arrived with some frames left out. */
  lemma {:induction false} DeliversInOrder(q: seq<Rx>, ops: seq<Op>)
    requires |q| <= RX_DEPTH
    ensures Sub(Kept(q, ops), q + Frames(ops))
    decreases |ops|
  {
    if ops == [] {
      assert Kept(q, ops) == q && q + Frames(ops) == q;
      SubRefl(q);
    } else if ops[0].Arrival? {
      KeptArrival(q, ops);
      DeliversInOrder(Arrive(q, ops[0].f), ops[1..]);
      ArrivalLoses(Kept(q, ops), q, ops[0].f, Frames(ops[1..]));
    } else {
      KeptTake(q, ops);
      if q == [] {
        DeliversInOrder(q, ops[1..]);
      } else {
        DeliversInOrder(q[1..], ops[1..]);
        TakeKeeps(Kept(q[1..], ops[1..]), q, Frames(ops));
      }
    }
  }

  /** The newest four frames. */
  function Newest(s: seq<Rx>): seq<Rx> {
    if |s| <= 4 then s else s[|s| - 4..]
  }

  lemma {:induction false} NewestCons(x: Rx, s: seq<Rx>)
    requires |s| >= RX_DEPTH
    ensures Newest([x] + s) == Newest(s)
  {}

  /** A slow reader sees the newest frames: with nothing read, the queue is the last
      four to arrive. */
  lemma {:induction false} KeepsNewest(q: seq<Rx>, ops: seq<Op>)
    requires |q| <= RX_DEPTH && forall op :: op in ops ==> op.Arrival?
    ensures Queue(q, ops) == Newest(q + Frames(ops))
    decreases |ops|
  {
    if ops == [] {
      assert q + [] == q;
    } else {
      var q', later := Arrive(q, ops[0].f), Frames(ops[1..]);
      assert ops[0] in ops && forall op :: op in ops[1..] ==> op in ops;
      KeepsNewest(q', ops[1..]);
      ArriveThen(q, ops[0].f, later);
      if |q| == RX_DEPTH {
        NewestCons(q[0], q' + later);
      }
    }
  }

  /** Readings of each MAC appear in the order of their numbers. */
  ghost predicate Numbered(s: seq<Rx>) {
    forall i, j :: 0 <= i < j < |s| && s[i].mac == s[j].mac
      && Classify(s[i].data).DataMsg? && Classify(s[j].data).DataMsg?
      ==> Classify(s[i].data).payload.sample.seqNo <= Classify(s[j].data).payload.sample.seqNo
  }

  lemma {:induction false} SubMembers(a: seq<Rx>, b: seq<Rx>)
    requires Sub(a, b)
    ensures forall x :: x in a ==> x in b
    decreases |b|
  {
    if a != [] {
      if a[0] == b[0] && Sub(a[1..], b[1..]) {
        SubMembers(a[1..], b[1..]);
        assert a == [a[0]] + a[1..] && b == [b[0]] + b[1..];
      } else {
        SubMembers(a, b[1..]);
      }
    }
  }

  /** Losing frames keeps the rest in order. */
  lemma {:induction false} SubNumbered(a: seq<Rx>, b: seq<Rx>)
    requires Sub(a, b) && Numbered(b)
    ensures Numbered(a)
    decreases |b|
  {
    if a != [] {
      assert forall i :: 0 <= i < |b[1..]| ==> b[1..][i] == b[i + 1];
      if a[0] == b[0] && Sub(a[1..], b[1..]) {
        SubNumbered(a[1..], b[1..]);
        SubMembers(a[1..], b[1..]);
        forall i, j | 0 <= i < j < |a| && a[i].mac == a[j].mac
          && Classify(a[i].data).DataMsg? && Classify(a[j].data).DataMsg?
          ensures Classify(a[i].data).payload.sample.seqNo <= Classify(a[j].data).payload.sample.seqNo
        {
          assert a[j] == a[1..][j - 1];
          if i == 0 {
            assert a[j] in b[1..];
          } else {
            assert a[i] == a[1..][i - 1];
          }
        }
      } else {
        SubNumbered(a, b[1..]);
      }
    }
  }

  class EspNowUplink {
    var rxQueue: seq<Rx>
    var sent: seq<(Mac, seq<Byte>)>

    ghost predicate Valid()
      reads this
    {
      |rxQueue| <= RX_DEPTH && forall f :: f in rxQueue ==> |f.data| <= MAX_DATA
    }

    constructor ()
      ensures Valid() && rxQueue == [] && sent == []
    {
      rxQueue, sent := [], [];
    }

    /** onReceived(): called by the radio for each frame heard. */
    method OnReceived(mac: Mac, data: seq<Byte>)
      requires Valid()
      modifies `rxQueue
      ensures Valid()
      ensures rxQueue == Arrive(old(rxQueue), Rx(mac, if |data| > 250 then data[..250] else data))
    {
      var copyLen := if |data| > MAX_DATA then MAX_DATA else |data|;
      var frame := Rx(mac, data[..copyLen]);
      assert copyLen == |data| ==> data[..copyLen] == data;
      if |rxQueue| < RX_DEPTH {
        rxQueue := rxQueue + [frame];
      } else {
        rxQueue := rxQueue[1..];
        rxQueue := rxQueue + [frame];
      }
    }

    /** receivePacket(): the oldest frame, or -1; a frame too long for the caller's
        buffer is dropped with -2. */
    method ReceivePacket(bufLen: nat) returns (len: int, frame: Rx)
      requires Valid()
      modifies `rxQueue
      ensures Valid()
      ensures len == -1 <==> old(rxQueue) == []
      ensures old(rxQueue) != [] ==>
        && rxQueue == old(rxQueue)[1..] && frame == old(rxQueue)[0]
        && len == if |frame.data| > bufLen then -2 else |frame.data|
      ensures old(rxQueue) == [] ==> rxQueue == []
    {
      if rxQueue == [] {
        return -1, Rx(0, []);
      }
      frame := rxQueue[0];
      rxQueue := rxQueue[1..];
      if |frame.data| > bufLen {
        return -2, frame;
      }
      return |frame.data|, frame;
    }

    method SendPacket(mac: Mac, data: seq<Byte>)
      modifies `sent
      ensures sent == old(sent) + [(mac, data)]
    {
      sent := sent + [(mac, data)];
    }
  }
}
