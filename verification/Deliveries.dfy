/** At-most-once buffering end to end: from the counter in a node's storage, through its
    resends and reboots and the lossy receive queue, to the substation's duplicate check. */
module Deliveries {
  import opened Wire
  import N = NodeSpec
  import E = EspNow
  import S = StationSpec
  import SR = StationRuns
  import L = LoRaSpec
  import C = SeqCounters

  // ------------------------------------------------------------- the sending node

  /** The numbers rise, all above `above`. */
  ghost predicate Rising(s: seq<U32>, above: int)
    decreases |s|
  {
    s != [] ==> above < s[0] && Rising(s[1..], s[0])
  }

  function Last(s: seq<U32>, above: int): int { if s == [] then above else s[|s| - 1] }

  /** Numbers of the readings put on the air. */
  function Numbers(out: seq<(Mac, Frame)>): seq<U32> {
    if out == [] then []
    else (if out[0].1.DataMsg? then [out[0].1.payload.sample.seqNo] else []) + Numbers(out[1..])
  }

  /** Never falling, all from `low` to `high`. */
  ghost predicate Climbs(s: seq<U32>, low: int, high: int)
    decreases |s|
  {
    if s == [] then low <= high else low <= s[0] && Climbs(s[1..], s[0], high)
  }

  /** The number being sent, if a send is under way. */
  function Goal(n: N.Node): Option<U32> {
    match n.pc
    case Draining(p) => Some(p.sample.seqNo)
    case Looking(g, _) => if g.Some? then Some(g.value.sample.seqNo) else None
    case Asking(g, _, _, _, _) => if g.Some? then Some(g.value.sample.seqNo) else None
    case AwaitJoin(g, _, _, _, _) => if g.Some? then Some(g.value.sample.seqNo) else None
    case Sending(p, _) => Some(p.sample.seqNo)
    case AwaitAck(p, _) => Some(p.sample.seqNo)
    case Resting => None
  }

  lemma {:induction false} GoalStays(n: N.Node, a: N.Act)
    requires N.Next(n, a).Some?
    ensures var g := Goal(N.Next(n, a).value);
      g.Some? ==> g == if a.StartSend? then Some(a.p.sample.seqNo) else Goal(n)
    ensures var out := Numbers(N.Emits(n, a)); out == [] || (Goal(n).Some? && out == [Goal(n).value])
  {
    var out := N.Emits(n, a);
    if out != [] {
      assert out[1..] == [];
    }
  }

  lemma {:induction false} ClimbsWider(s: seq<U32>, low: int, low': int, high: int)
    requires low' <= low && Climbs(s, low, high)
    ensures Climbs(s, low', high)
  {}

  lemma {:induction false} ClimbsJoin(a: seq<U32>, b: seq<U32>, low: int, mid: int, high: int)
    requires Climbs(a, low, mid) && Climbs(b, mid, high)
    ensures Climbs(a + b, low, high)
    decreases |a|
  {
    if a == [] {
      assert a + b == b;
      ClimbsWider(b, mid, low, high);
    } else {
      assert (a + b)[1..] == a[1..] + b;
      ClimbsJoin(a[1..], b, a[0], mid, high);
    }
  }

  lemma {:induction false} NumbersJoin(a: seq<(Mac, Frame)>, b: seq<(Mac, Frame)>)
    ensures Numbers(a + b) == Numbers(a) + Numbers(b)
    decreases |a|
  {
    if a == [] {
      assert a + b == b;
    } else {
      var first := if a[0].1.DataMsg? then [a[0].1.payload.sample.seqNo] else [];
      assert (a + b)[0] == a[0] && (a + b)[1..] == a[1..] + b;
      NumbersJoin(a[1..], b);
      assert first + (Numbers(a[1..]) + Numbers(b)) == (first + Numbers(a[1..])) + Numbers(b);
    }
  }

  // ------------------------------------------------------------- a node's whole life

  /** The node and the counter it numbers its readings with. */
  datatype Device = Device(node: N.Node, counter: C.Counter)

  /** What happens to it: power cycles lose everything but storage, each reading takes the
      next number and is sent, and the radio does what it does in between. */
  datatype Move = PowerCycle | OpenCounter(ok: bool) | TakeReading(p: Payload, wrote: bool) | Radio(a: N.Act)

  /** The device after a move, or None if the move is not possible now. A node whose
      counter did not open idles. */
  function Next(d: Device, mv: Move): Option<Device> {
    match mv
    case PowerCycle => Some(Device(N.Fresh(d.node.uid), C.Next(d.counter, C.PowerCycle)))
    case OpenCounter(ok) => Some(d.(counter := C.Next(d.counter, C.Begin(ok))))
    case TakeReading(p, wrote) =>
      var counter := C.Next(d.counter, C.Take(wrote));
      if !d.counter.open || p.uid != d.node.uid || p.sample.seqNo != counter.seqNo
         || N.Next(d.node, N.StartSend(p)).None?
      then None else Some(Device(N.Next(d.node, N.StartSend(p)).value, counter))
    case Radio(a) =>
      if a.StartSend? || N.Next(d.node, a).None? then None else Some(d.(node := N.Next(d.node, a).value))
  }

  ghost predicate Lives(d: Device, ms: seq<Move>)
    decreases |ms|
  {
    ms != [] ==> Next(d, ms[0]).Some? && Lives(Next(d, ms[0]).value, ms[1..])
  }

  /** Everything it puts on the air. */
  function SentIn(d: Device, ms: seq<Move>): seq<(Mac, Frame)>
    decreases |ms|
  {
    if ms == [] || Next(d, ms[0]).None? then []
    else (if ms[0].Radio? then N.Emits(d.node, ms[0].a) else []) + SentIn(Next(d, ms[0]).value, ms[1..])
  }

  /** What its counter goes through. */
  function CounterEvents(ms: seq<Move>): seq<C.Event> {
    if ms == [] then []
    else
      (match ms[0]
       case PowerCycle => [C.PowerCycle]
       case OpenCounter(ok) => [C.Begin(ok)]
       case TakeReading(_, wrote) => [C.Take(wrote)]
       case Radio(_) => [])
      + CounterEvents(ms[1..])
  }

  /** The numbers of the readings it starts sending. */
  function Starts(ms: seq<Move>): seq<U32> {
    if ms == [] then []
    else (if ms[0].TakeReading? then [ms[0].p.sample.seqNo] else []) + Starts(ms[1..])
  }

  /** The readings carry exactly the numbers the counter hands out. */
  lemma {:induction false} StartsAreNumbers(d: Device, ms: seq<Move>)
    requires Lives(d, ms)
    ensures Starts(ms) == C.Numbers(d.counter, CounterEvents(ms))
    ensures C.TakesWhileOpen(d.counter, CounterEvents(ms)) && C.Takes(CounterEvents(ms)) == |Starts(ms)|
    decreases |ms|
  {
    if ms != [] {
      var d' := Next(d, ms[0]).value;
      StartsAreNumbers(d', ms[1..]);
      var es, rest := CounterEvents(ms), CounterEvents(ms[1..]);
      if ms[0].Radio? {
        assert es == rest && Starts(ms) == Starts(ms[1..]);
      } else {
        assert es[1..] == rest;
      }
    }
  }

  lemma {:induction false} IncreasingRises(s: seq<U32>, above: int)
    requires C.Increasing(s, above)
    ensures Rising(s, above)
    decreases |s|
  {
    if s != [] {
      forall i | 0 <= i < |s[1..]| ensures s[0] < s[1..][i] { assert s[1..][i] == s[i + 1]; }
      forall i, j | 0 <= i < j < |s[1..]| ensures s[1..][i] < s[1..][j] {
        assert s[1..][i] == s[i + 1] && s[1..][j] == s[j + 1];
      }
      IncreasingRises(s[1..], s[0]);
    }
  }

  /** What the first move adds. */
  lemma {:induction false} FirstMove(d: Device, ms: seq<Move>)
    requires ms != [] && Next(d, ms[0]).Some?
    ensures var out := SentIn(Next(d, ms[0]).value, ms[1..]);
      SentIn(d, ms) == if ms[0].Radio? then N.Emits(d.node, ms[0].a) + out else out
    ensures Starts(ms) == (if ms[0].TakeReading? then [ms[0].p.sample.seqNo] else []) + Starts(ms[1..])
  {}

  /** The number being sent after a move. */
  lemma {:induction false} GoalAfter(d: Device, mv: Move)
    requires Next(d, mv).Some?
    ensures var g := Goal(Next(d, mv).value.node);
      g.Some? ==> g == if mv.TakeReading? then Some(mv.p.sample.seqNo) else Goal(d.node)
  {
    match mv
    case TakeReading(p, _) => GoalStays(d.node, N.StartSend(p));
    case Radio(a) => GoalStays(d.node, a);
    case _ =>
  }

  /** Resends repeat a number, new readings raise it, and a power cycle forgets the one
      being sent: what is sent never falls. */
  lemma {:induction false} LifeClimbs(d: Device, ms: seq<Move>, above: int)
    requires Lives(d, ms) && Rising(Starts(ms), above)
    requires Goal(d.node).Some? ==> Goal(d.node).value == above
    ensures Climbs(Numbers(SentIn(d, ms)), above, Last(Starts(ms), above))
    decreases |ms|
  {
    if ms != [] {
      var d', rest, later := Next(d, ms[0]).value, ms[1..], Starts(ms[1..]);
      var out := SentIn(d', rest);
      FirstMove(d, ms);
      GoalAfter(d, ms[0]);
      if ms[0].TakeReading? {
        var k := ms[0].p.sample.seqNo;
        assert Starts(ms)[1..] == later;
        LifeClimbs(d', rest, k);
        assert Last(Starts(ms), above) == Last(later, k);
        ClimbsWider(Numbers(out), k, above, Last(later, k));
      } else {
        assert Starts(ms) == later;
        LifeClimbs(d', rest, above);
        if ms[0].Radio? {
          GoalStays(d.node, ms[0].a);
          NumbersJoin(N.Emits(d.node, ms[0].a), out);
          ClimbsJoin(Numbers(N.Emits(d.node, ms[0].a)), Numbers(out), above, above, Last(later, above));
        }
      }
    }
  }

  lemma {:induction false} ClimbsOrdered(s: seq<U32>, low: int, high: int)
    requires Climbs(s, low, high)
    ensures forall i :: 0 <= i < |s| ==> low <= s[i]
    ensures forall i, j :: 0 <= i < j < |s| ==> s[i] <= s[j]
    decreases |s|
  {
    if s != [] {
      ClimbsOrdered(s[1..], s[0], high);
      assert forall i :: 0 < i < |s| ==> s[i] == s[1..][i - 1];
    }
  }

  /** A device as it comes out of the box or out of a power cycle, and all that happens
      to it; the counter is not used up. */
  datatype Life = Life(start: Device, moves: seq<Move>)
  {
    ghost predicate Valid() {
      && start.node == N.Fresh(start.node.uid) && !start.counter.open && Lives(start, moves)
      && C.Stored(start.counter) + |Starts(moves)| < 0x1_0000_0000
    }

    /** Its storage never loses a number and is read again before it took a later one. */
    predicate KeepsCount() { C.NeverStale(CounterEvents(moves), false, false) }

    /** The frames it puts on the air. */
    function Said(): seq<Frame> { Spoken(SentIn(start, moves)) }
  }

  function Spoken(out: seq<(Mac, Frame)>): seq<Frame> {
    if out == [] then [] else [out[0].1] + Spoken(out[1..])
  }

  /** Readings appear in the order of their numbers. */
  ghost predicate Ordered(fs: seq<Frame>) {
    forall i, j :: 0 <= i < j < |fs| && fs[i].DataMsg? && fs[j].DataMsg?
      ==> fs[i].payload.sample.seqNo <= fs[j].payload.sample.seqNo
  }

  lemma {:induction false} OrderedCons(f: Frame, rest: seq<Frame>)
    requires Ordered(rest)
    requires f.DataMsg? ==> forall g :: g in rest && g.DataMsg? ==> f.payload.sample.seqNo <= g.payload.sample.seqNo
    ensures Ordered([f] + rest)
  {
    var fs := [f] + rest;
    forall i, j | 0 <= i < j < |fs| && fs[i].DataMsg? && fs[j].DataMsg?
      ensures fs[i].payload.sample.seqNo <= fs[j].payload.sample.seqNo
    {
      assert fs[j] == rest[j - 1] && rest[j - 1] in rest;
      if i > 0 { assert fs[i] == rest[i - 1]; }
    }
  }

  lemma {:induction false} OrderedTail(fs: seq<Frame>)
    requires fs != [] && Ordered(fs)
    ensures Ordered(fs[1..])
    ensures fs[0].DataMsg? ==>
      forall g :: g in fs[1..] && g.DataMsg? ==> fs[0].payload.sample.seqNo <= g.payload.sample.seqNo
  {
    forall i, j | 0 <= i < j < |fs[1..]| && fs[1..][i].DataMsg? && fs[1..][j].DataMsg?
      ensures fs[1..][i].payload.sample.seqNo <= fs[1..][j].payload.sample.seqNo
    {
      assert fs[1..][i] == fs[i + 1] && fs[1..][j] == fs[j + 1];
    }
    forall g | g in fs[1..] && g.DataMsg? && fs[0].DataMsg?
      ensures fs[0].payload.sample.seqNo <= g.payload.sample.seqNo
    {
      var k :| 0 <= k < |fs[1..]| && fs[1..][k] == g;
      assert fs[k + 1] == g;
    }
  }

  lemma {:induction false} NumberIn(out: seq<(Mac, Frame)>, g: Frame)
    requires g in Spoken(out) && g.DataMsg?
    ensures g.payload.sample.seqNo in Numbers(out)
    decreases |out|
  {
    if out[0].1 != g {
      NumberIn(out[1..], g);
    }
  }

  lemma {:induction false} ClimbsAbove(s: seq<U32>, low: int, high: int, v: U32)
    requires Climbs(s, low, high) && v in s
    ensures low <= v
  {
    ClimbsOrdered(s, low, high);
  }

  lemma {:induction false} ClimbingIsOrdered(out: seq<(Mac, Frame)>, low: int, high: int)
    requires Climbs(Numbers(out), low, high)
    ensures Ordered(Spoken(out))
    decreases |out|
  {
    if out != [] {
      var f, rest := out[0].1, out[1..];
      if f.DataMsg? {
        var k := f.payload.sample.seqNo;
        assert Numbers(out)[1..] == Numbers(rest);
        ClimbingIsOrdered(rest, k, high);
        forall g | g in Spoken(rest) && g.DataMsg? ensures k <= g.payload.sample.seqNo {
          NumberIn(rest, g);
          ClimbsAbove(Numbers(rest), k, high, g.payload.sample.seqNo);
        }
      } else {
        assert Numbers(out) == Numbers(rest);
        ClimbingIsOrdered(rest, low, high);
      }
      OrderedCons(f, Spoken(rest));
    }
  }

  /** A node's readings leave it in the order of their numbers: whatever resends, power
      cycles and failed openings of its storage there are, the counter sees to it, unless
      a power cycle follows a lost write. */
  lemma {:induction false} SentInOrder(life: Life)
    requires life.Valid() && life.KeepsCount()
    ensures Ordered(life.Said())
  {
    var d, ms := life.start, life.moves;
    var low := C.Stored(d.counter);
    StartsAreNumbers(d, ms);
    C.NeverRepeats(d.counter, CounterEvents(ms));
    IncreasingRises(Starts(ms), low);
    LifeClimbs(d, ms, low);
    ClimbingIsOrdered(SentIn(d, ms), low, Last(Starts(ms), low));
  }

  /** The reading a node is busy with is its own. */
  ghost predicate CarriesOwn(n: N.Node) {
    match n.pc
    case Draining(p) => p.uid == n.uid
    case Looking(g, _) => g.Some? ==> g.value.uid == n.uid
    case Asking(g, _, _, _, _) => g.Some? ==> g.value.uid == n.uid
    case AwaitJoin(g, _, _, _, _) => g.Some? ==> g.value.uid == n.uid
    case Sending(p, _) => p.uid == n.uid
    case AwaitAck(p, _) => p.uid == n.uid
    case Resting => true
  }

  /** A frame a node with this UID sends: a Join or a reading, under its own UID. */
  predicate OwnFrame(f: Frame, uid: Uid) {
    match f
    case LinkMsg(l) => l.kind == Join && l.uid == uid
    case DataMsg(p) => p.uid == uid
    case _ => false
  }

  lemma {:induction false} ActKeepsOwn(n: N.Node, a: N.Act)
    requires CarriesOwn(n) && N.Next(n, a).Some? && (a.StartSend? ==> a.p.uid == n.uid)
    ensures CarriesOwn(N.Next(n, a).value) && N.Next(n, a).value.uid == n.uid
    ensures forall x :: x in N.Emits(n, a) ==> OwnFrame(x.1, n.uid)
  {}

  lemma {:induction false} SpokenJoin(a: seq<(Mac, Frame)>, b: seq<(Mac, Frame)>)
    ensures Spoken(a + b) == Spoken(a) + Spoken(b)
    decreases |a|
  {
    if a == [] {
      assert a + b == b;
    } else {
      assert (a + b)[1..] == a[1..] + b;
      SpokenJoin(a[1..], b);
    }
  }

  lemma {:induction false} SpokenFrom(out: seq<(Mac, Frame)>, f: Frame)
    requires f in Spoken(out)
    ensures exists x :: x in out && x.1 == f
    decreases |out|
  {
    if out[0].1 != f {
      SpokenFrom(out[1..], f);
      var x :| x in out[1..] && x.1 == f;
      assert x in out;
    } else {
      assert out[0] in out;
    }
  }

  /** Everything a node sends goes under its own UID. */
  lemma {:induction false} SaysOwn(d: Device, ms: seq<Move>, f: Frame)
    requires Lives(d, ms) && CarriesOwn(d.node) && f in Spoken(SentIn(d, ms))
    ensures OwnFrame(f, d.node.uid)
    decreases |ms|
  {
    var d', out := Next(d, ms[0]).value, SentIn(Next(d, ms[0]).value, ms[1..]);
    match ms[0]
    case Radio(a) =>
      ActKeepsOwn(d.node, a);
      SpokenJoin(N.Emits(d.node, a), out);
      if f in Spoken(out) {
        SaysOwn(d', ms[1..], f);
      } else {
        SpokenFrom(N.Emits(d.node, a), f);
      }
    case TakeReading(p, _) =>
      ActKeepsOwn(d.node, N.StartSend(p));
      assert SentIn(d, ms) == out;
      SaysOwn(d', ms[1..], f);
    case _ =>
      assert SentIn(d, ms) == out;
      SaysOwn(d', ms[1..], f);
  }

  // ------------------------------------------------------------------- the radio

  /** `heard` is `said` with anything left out and anything repeated before the next is heard. */
  ghost predicate Echo(heard: seq<Frame>, said: seq<Frame>)
    decreases |heard| + |said|
  {
    heard == [] || (said != [] && ((heard[0] == said[0] && Echo(heard[1..], said)) || Echo(heard, said[1..])))
  }

  lemma {:induction false} EchoFrom(heard: seq<Frame>, said: seq<Frame>, f: Frame)
    requires Echo(heard, said) && f in heard
    ensures f in said
    decreases |heard| + |said|
  {
    if heard[0] == said[0] && Echo(heard[1..], said) {
      if f != heard[0] {
        EchoFrom(heard[1..], said, f);
      }
    } else {
      EchoFrom(heard, said[1..], f);
    }
  }

  /** Losses and repeats of that kind leave the rest in order. */
  lemma {:induction false} EchoOrdered(heard: seq<Frame>, said: seq<Frame>)
    requires Echo(heard, said) && Ordered(said)
    ensures Ordered(heard)
    decreases |heard| + |said|
  {
    if heard != [] {
      OrderedTail(said);
      if heard[0] == said[0] && Echo(heard[1..], said) {
        EchoOrdered(heard[1..], said);
        forall g | g in heard[1..] && g.DataMsg? && heard[0].DataMsg?
          ensures heard[0].payload.sample.seqNo <= g.payload.sample.seqNo
        {
          EchoFrom(heard[1..], said, g);
          assert said == [said[0]] + said[1..];
        }
        OrderedCons(heard[0], heard[1..]);
        assert [heard[0]] + heard[1..] == heard;
      } else {
        EchoOrdered(heard, said[1..]);
      }
    }
  }

  /** A frame handleIncoming() acts on. */
  predicate Matters(f: Frame) { f.DataMsg? || (f.LinkMsg? && f.link.kind == Join) }

  /** The frames that matter among those a MAC's radio sent. */
  function FromMac(fs: seq<E.Rx>, mac: Mac): seq<Frame> {
    if fs == [] then []
    else
      var f := Classify(fs[0].data);
      (if fs[0].mac == mac && Matters(f) then [f] else []) + FromMac(fs[1..], mac)
  }

  /** What arrives from each MAC is an echo of what the node with that MAC said; other
      radios are heard too, but forge neither readings nor Joins. */
  ghost predicate HeardFromNodes(fs: seq<E.Rx>, lives: map<Mac, Life>) {
    forall mac :: Echo(FromMac(fs, mac), if mac in lives then lives[mac].Said() else [])
  }

  lemma {:induction false} InFromMac(fs: seq<E.Rx>, k: nat)
    requires k < |fs| && Matters(Classify(fs[k].data))
    ensures Classify(fs[k].data) in FromMac(fs, fs[k].mac)
    decreases |fs|
  {
    if k > 0 {
      InFromMac(fs[1..], k - 1);
    }
  }

  lemma {:induction false} OrderedIsNumbered(fs: seq<E.Rx>)
    requires forall mac :: Ordered(FromMac(fs, mac))
    ensures E.Numbered(fs)
    decreases |fs|
  {
    if fs != [] {
      var f := Classify(fs[0].data);
      forall mac ensures Ordered(FromMac(fs[1..], mac)) {
        if fs[0].mac == mac && Matters(f) {
          OrderedTail(FromMac(fs, mac));
          assert FromMac(fs, mac)[1..] == FromMac(fs[1..], mac);
        } else {
          assert FromMac(fs, mac) == FromMac(fs[1..], mac);
        }
      }
      OrderedIsNumbered(fs[1..]);
      forall i, j | 0 <= i < j < |fs| && fs[i].mac == fs[j].mac
        && Classify(fs[i].data).DataMsg? && Classify(fs[j].data).DataMsg?
        ensures Classify(fs[i].data).payload.sample.seqNo <= Classify(fs[j].data).payload.sample.seqNo
      {
        assert fs[j] == fs[1..][j - 1];
        if i == 0 {
          InFromMac(fs[1..], j - 1);
          OrderedTail(FromMac(fs, fs[0].mac));
          assert FromMac(fs, fs[0].mac)[1..] == FromMac(fs[1..], fs[0].mac);
        } else {
          assert fs[i] == fs[1..][i - 1];
        }
      }
    }
  }

  // --------------------------------------------------------------- the substation

  /** What happens at a substation: frames arrive, frames are handled one by one -- addPeer()
      succeeding or not each time -- and relays and beacons go on in between. */
  datatype Happening = Arrives(f: E.Rx) | HandleOne(peerOk: bool) | Elsewhere(e: S.Event)

  predicate Possible(h: Happening) { h.Elsewhere? ==> h.e.Relay? || h.e.BeaconPass? }

  function QueueOps(hs: seq<Happening>): seq<E.Op> {
    if hs == [] then []
    else
      (match hs[0]
       case Arrives(f) => [E.Arrival(f)]
       case HandleOne(_) => [E.Take]
       case Elsewhere(_) => [])
      + QueueOps(hs[1..])
  }

  /** What handling a frame comes to. */
  function EventOf(f: E.Rx, peerOk: bool): seq<S.Event> {
    match Classify(f.data)
    case LinkMsg(l) => if l.kind == Join then [S.JoinFrame(f.mac, l.epoch, l.uid, peerOk)] else []
    case DataMsg(p) => [S.ReadingFrame(f.mac, p)]
    case _ => []
  }

  /** Everything the substation does, in order, from a receive queue q. */
  function EventsIn(q: seq<E.Rx>, hs: seq<Happening>): seq<S.Event>
    decreases |hs|
  {
    if hs == [] then []
    else match hs[0]
      case Arrives(f) => EventsIn(E.Arrive(q, f), hs[1..])
      case HandleOne(peerOk) =>
        if q == [] then EventsIn(q, hs[1..]) else EventOf(q[0], peerOk) + EventsIn(q[1..], hs[1..])
      case Elsewhere(e) => [e] + EventsIn(q, hs[1..])
  }

  /** Frames taken during the happenings. */
  function TakenIn(q: seq<E.Rx>, hs: seq<Happening>): seq<E.Rx> { E.Taken(q, QueueOps(hs)) }

  lemma {:induction false} TakenStep(q: seq<E.Rx>, hs: seq<Happening>)
    requires hs != []
    ensures match hs[0]
      case Arrives(f) => TakenIn(q, hs) == TakenIn(E.Arrive(q, f), hs[1..])
      case HandleOne(_) =>
        TakenIn(q, hs) == (if q == [] then TakenIn(q, hs[1..]) else [q[0]] + TakenIn(q[1..], hs[1..]))
      case Elsewhere(_) => TakenIn(q, hs) == TakenIn(q, hs[1..])
  {
    var ops, rest := QueueOps(hs), QueueOps(hs[1..]);
    if hs[0].Elsewhere? {
      assert ops == rest;
    } else {
      assert ops[1..] == rest;
    }
  }

  /** Every event about a frame is about one that was taken. */
  lemma {:induction false} EventFrom(q: seq<E.Rx>, hs: seq<Happening>, e: S.Event) returns (f: E.Rx)
    requires (forall h :: h in hs ==> Possible(h)) && e in EventsIn(q, hs) && (e.ReadingFrame? || e.JoinFrame?)
    ensures f in TakenIn(q, hs) && f.mac == e.mac
    ensures e.ReadingFrame? ==> Classify(f.data) == DataMsg(e.p)
    ensures e.JoinFrame? ==> Classify(f.data) == LinkMsg(LinkFrame(Join, e.epoch, e.uid))
    decreases |hs|
  {
    assert hs[0] in hs && forall h :: h in hs[1..] ==> h in hs;
    TakenStep(q, hs);
    match hs[0]
    case Arrives(g) => f := EventFrom(E.Arrive(q, g), hs[1..], e);
    case Elsewhere(x) => f := EventFrom(q, hs[1..], e);
    case HandleOne(peerOk) =>
      if q == [] {
        f := EventFrom(q, hs[1..], e);
      } else if e in EventOf(q[0], peerOk) {
        f := q[0];
      } else {
        f := EventFrom(q[1..], hs[1..], e);
      }
  }

  lemma {:induction false} InOrderCons(e: S.Event, es: seq<S.Event>)
    requires SR.InOrder(es)
    requires forall x ::
        x in es && x.ReadingFrame? && e.ReadingFrame? && x.mac == e.mac ==> e.p.sample.seqNo <= x.p.sample.seqNo
    ensures SR.InOrder([e] + es)
  {
    var all := [e] + es;
    forall i, j | 0 <= i < j < |all| && all[i].ReadingFrame? && all[j].ReadingFrame? && all[i].mac == all[j].mac
      ensures all[i].p.sample.seqNo <= all[j].p.sample.seqNo
    {
      assert all[j] == es[j - 1] && es[j - 1] in es;
      if i > 0 { assert all[i] == es[i - 1]; }
    }
  }

  /** g is not a reading of the same MAC with a lower number. */
  ghost predicate NotBefore(f: E.Rx, g: E.Rx) {
    var a, b := Classify(f.data), Classify(g.data);
    g.mac == f.mac && a.DataMsg? && b.DataMsg? ==> a.payload.sample.seqNo <= b.payload.sample.seqNo
  }

  lemma {:induction false} NumberedCons(f: E.Rx, fs: seq<E.Rx>)
    requires E.Numbered([f] + fs)
    ensures E.Numbered(fs)
    ensures forall g :: g in fs ==> NotBefore(f, g)
  {
    var all := [f] + fs;
    assert forall i :: 0 <= i < |fs| ==> fs[i] == all[i + 1];
    forall g | g in fs ensures NotBefore(f, g) {
      var k :| 0 <= k < |fs| && fs[k] == g;
      assert all[0] == f && all[k + 1] == g;
    }
  }

  /** Frames taken in order are handled in order, whatever else goes on. */
  lemma {:induction false} EventsInOrder(q: seq<E.Rx>, hs: seq<Happening>)
    requires (forall h :: h in hs ==> Possible(h)) && E.Numbered(TakenIn(q, hs))
    ensures SR.InOrder(EventsIn(q, hs))
    decreases |hs|
  {
    if hs != [] {
      assert hs[0] in hs && forall h :: h in hs[1..] ==> h in hs;
      TakenStep(q, hs);
      match hs[0]
      case Arrives(f) => EventsInOrder(E.Arrive(q, f), hs[1..]);
      case Elsewhere(e) =>
        EventsInOrder(q, hs[1..]);
        InOrderCons(e, EventsIn(q, hs[1..]));
      case HandleOne(peerOk) =>
        if q == [] {
          EventsInOrder(q, hs[1..]);
        } else {
          HandledInOrder(q, hs, peerOk);
        }
    }
  }

  lemma {:induction false} HandledInOrder(q: seq<E.Rx>, hs: seq<Happening>, peerOk: bool)
    requires (forall h :: h in hs ==> Possible(h)) && E.Numbered(TakenIn(q, hs))
    requires hs != [] && hs[0] == HandleOne(peerOk) && q != []
    ensures SR.InOrder(EventsIn(q, hs))
    decreases |hs|, 0
  {
    TakenStep(q, hs);
    assert forall h :: h in hs[1..] ==> h in hs;
    var first, es := EventOf(q[0], peerOk), EventsIn(q[1..], hs[1..]);
    NumberedCons(q[0], TakenIn(q[1..], hs[1..]));
    EventsInOrder(q[1..], hs[1..]);
    if first == [] {
      assert first + es == es;
    } else {
      forall x | x in es && x.ReadingFrame? && first[0].ReadingFrame? && x.mac == first[0].mac
        ensures first[0].p.sample.seqNo <= x.p.sample.seqNo
      {
        var f := EventFrom(q[1..], hs[1..], x);
        assert NotBefore(q[0], f);
      }
      InOrderCons(first[0], es);
      assert first == [first[0]];
    }
  }

  // ---------------------------------------------------------------------- end to end

  /** What the substation sees of the nodes: their frames in order, under their own UIDs. */
  lemma {:induction false} TakenFromNodes(lives: map<Mac, Life>, hs: seq<Happening>)
    requires forall mac :: mac in lives ==> lives[mac].Valid() && lives[mac].KeepsCount()
    requires HeardFromNodes(E.Frames(QueueOps(hs)), lives)
    ensures E.Numbered(TakenIn([], hs))
    ensures forall f :: f in TakenIn([], hs) ==> f in E.Frames(QueueOps(hs))
  {
    var ops := QueueOps(hs);
    var arrived, taken := E.Frames(ops), E.Taken([], ops);
    forall mac ensures Ordered(FromMac(arrived, mac)) {
      var said := if mac in lives then lives[mac].Said() else [];
      if mac in lives {
        SentInOrder(lives[mac]);
      }
      EchoOrdered(FromMac(arrived, mac), said);
    }
    OrderedIsNumbered(arrived);
    E.DeliversInOrder([], ops);
    assert [] + arrived == arrived;
    E.SubNumbered(E.Kept([], ops), arrived);
    E.SubMembers(E.Kept([], ops), arrived);
    assert E.Kept([], ops) == taken + E.Queue([], ops);
    PrefixNumbered(taken, E.Queue([], ops));
    forall f | f in taken ensures f in arrived { assert f in E.Kept([], ops); }
  }

  /** The UID behind each MAC. */
  function UidOf(lives: map<Mac, Life>): Mac -> Uid {
    mac => if mac in lives then lives[mac].start.node.uid else 0
  }

  lemma {:induction false} ArrivedIsOwn(lives: map<Mac, Life>, fs: seq<E.Rx>, f: E.Rx)
    requires forall mac :: mac in lives ==> lives[mac].Valid() && lives[mac].KeepsCount()
    requires HeardFromNodes(fs, lives)
    requires f in fs && Matters(Classify(f.data))
    ensures OwnFrame(Classify(f.data), UidOf(lives)(f.mac))
  {
    var k :| 0 <= k < |fs| && fs[k] == f;
    InFromMac(fs, k);
    var said := if f.mac in lives then lives[f.mac].Said() else [];
    EchoFrom(FromMac(fs, f.mac), said, Classify(f.data));
    SaysOwn(lives[f.mac].start, lives[f.mac].moves, Classify(f.data));
  }

  lemma {:induction false} OwnUids(lives: map<Mac, Life>, hs: seq<Happening>)
    requires forall mac :: mac in lives ==> lives[mac].Valid() && lives[mac].KeepsCount()
    requires HeardFromNodes(E.Frames(QueueOps(hs)), lives)
    requires forall h :: h in hs ==> Possible(h)
    ensures SR.SendsOwnUid(EventsIn([], hs), UidOf(lives))
  {
    TakenFromNodes(lives, hs);
    forall e | e in EventsIn([], hs) && (e.ReadingFrame? || e.JoinFrame?)
      ensures e.ReadingFrame? ==> e.p.uid == UidOf(lives)(e.mac)
      ensures e.JoinFrame? ==> e.uid == UidOf(lives)(e.mac)
    {
      var f := EventFrom([], hs, e);
      ArrivedIsOwn(lives, E.Frames(QueueOps(hs)), f);
    }
  }

  /** At most once, end to end. However often nodes resend, rejoin, lose power and fail to
      open their storage, whatever the radio loses, or repeats before its node's next
      frame, and whatever the queue drops, with relays and beacons going on between any two
      frames: in one boot of a substation no reading of any node is buffered twice, and
      none is refused. A repeat that comes later can be buffered twice, and so can a number
      handed out again because a write to storage was lost. */
  lemma {:induction false} BufferedOnce(c: L.Config, epoch: U32, lives: map<Mac, Life>, hs: seq<Happening>)
    requires forall mac :: mac in lives ==> lives[mac].Valid() && lives[mac].KeepsCount()
    requires HeardFromNodes(E.Frames(QueueOps(hs)), lives)
    requires forall h :: h in hs ==> Possible(h)
    ensures S.Valid(S.Boot(epoch), c)
    ensures var pushed := SR.PushesIn(S.Boot(epoch), c, EventsIn([], hs));
      forall i, j :: 0 <= i < j < |pushed| ==> pushed[i] != pushed[j]
    ensures SR.NoneRefused(S.Boot(epoch), c, EventsIn([], hs))
  {
    var es := EventsIn([], hs);
    TakenFromNodes(lives, hs);
    OwnUids(lives, hs);
    EventsInOrder([], hs);
    SR.AtMostOnce(c, epoch, es, UidOf(lives));
    SR.NeverRefused(c, epoch, es, UidOf(lives));
  }

  lemma {:induction false} PrefixNumbered(a: seq<E.Rx>, b: seq<E.Rx>)
    requires E.Numbered(a + b)
    ensures E.Numbered(a)
  {
    assert forall i :: 0 <= i < |a| ==> (a + b)[i] == a[i];
  }
}
