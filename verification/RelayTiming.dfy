/** When the substation starts a relay, over whole runs and across wraps of its clock. */
module RelayTiming {
  import opened Wire
  import opened Clock
  import opened StationSpec
  import B = BufferSpec
  import L = LoRaSpec

  /** A relay step that reports its send failed. */
  predicate Fails(s: Station, c: L.Config, e: Event) { e.Relay? && L.Step(s.link, c, e.i).1 == L.Failed }

  ghost predicate NoFailure(s: Station, c: L.Config, es: seq<Event>)
    requires Valid(s, c)
    decreases |es|
  {
    es != [] ==> !Fails(s, c, es[0]) && (NextValid(s, c, es[0]); NoFailure(Next(s, c, es[0]), c, es[1..]))
  }

  /** Only a failed relay moves the deadline of the next one. */
  lemma {:induction false} DeadlineStays(s: Station, c: L.Config, es: seq<Event>)
    requires Valid(s, c) && NoFailure(s, c, es)
    ensures Run(s, c, es).nextSendAt == s.nextSendAt
    decreases |es|
  {
    if es != [] {
      NextValid(s, c, es[0]);
      DeadlineStays(Next(s, c, es[0]), c, es[1..]);
    }
  }

  /** Every relay pass finds the deadline looking ahead. */
  ghost predicate AllEarly(es: seq<Event>, deadline: U32) {
    forall e :: e in es && e.Relay? ==> Before(e.i.after, deadline)
  }

  lemma {:induction false} EarlyLeavesIdle(s: Station, c: L.Config, es: seq<Event>)
    requires Valid(s, c) && s.link.phase == L.Idle && AllEarly(es, s.nextSendAt)
    ensures Run(s, c, es).link == s.link && Run(s, c, es).nextSendAt == s.nextSendAt
    decreases |es|
  {
    if es != [] {
      assert es[0] in es && forall e :: e in es[1..] ==> e in es;
      NextValid(s, c, es[0]);
      EarlyLeavesIdle(Next(s, c, es[0]), c, es[1..]);
    }
  }

  /** No relay is under way at any time in the run. */
  ghost predicate NeverRelays(s: Station, c: L.Config, es: seq<Event>)
    requires Valid(s, c)
  {
    forall k :: 0 <= k <= |es| ==> Run(s, c, es[..k]).link.phase == L.Idle
  }

  /** From an idle link, while every pass finds the deadline looking ahead, no relay
      starts, whatever arrives. */
  lemma {:induction false} EarlyNeverRelays(s: Station, c: L.Config, es: seq<Event>)
    requires Valid(s, c) && s.link.phase == L.Idle && AllEarly(es, s.nextSendAt)
    ensures NeverRelays(s, c, es)
  {
    forall k | 0 <= k <= |es| ensures Run(s, c, es[..k]).link.phase == L.Idle {
      EarlyLeavesIdle(s, c, es[..k]);
    }
  }

  // -------------------------------------------------------------- after a failure

  /** A failed relay keeps its reading and sets the deadline 30 s on. */
  lemma {:induction false} FailureSetsDeadline(s: Station, c: L.Config, i: L.Poll, begun: U32, t: nat)
    requires Valid(s, c) && i.after == Millis(t) && L.Step(s.link, c, i).1 == L.Failed
    ensures var s' := RelayStep(s, c, i, begun);
      && Valid(s', c) && s'.link.phase == L.Idle
      && s'.nextSendAt == Millis(t + 30_000) && s'.buffer == s.buffer
  {
    RelayValid(s, c, i, begun);
    LaterIsMillis(t, 30_000);
  }

  /** Every relay pass reads the clock between two real times. */
  ghost predicate AllWithin(es: seq<Event>, from: nat, until: nat) {
    forall e :: e in es && e.Relay? ==> exists u :: from <= u < until && e.i.after == Millis(u)
  }

  lemma {:induction false} BeforeAhead(u: nat, deadline: nat)
    requires u < deadline <= u + HALF
    ensures Before(Millis(u), Millis(deadline))
  {
    BeforeAgrees(u, deadline);
  }

  /** A failed relay holds off the next for 30 s, whatever happens meanwhile. */
  lemma {:induction false} FailureHoldsOff(s: Station, c: L.Config, i: L.Poll, begun: U32, t: nat, es: seq<Event>)
    requires Valid(s, c) && i.after == Millis(t) && L.Step(s.link, c, i).1 == L.Failed
    requires AllWithin(es, t, t + 30_000)
    ensures Valid(RelayStep(s, c, i, begun), c) && NeverRelays(RelayStep(s, c, i, begun), c, es)
  {
    FailureSetsDeadline(s, c, i, begun, t);
    forall e | e in es && e.Relay? ensures Before(e.i.after, Millis(t + 30_000)) {
      var u: nat :| t <= u < t + 30_000 && e.i.after == Millis(u);
      BeforeAhead(u, t + 30_000);
    }
    EarlyNeverRelays(RelayStep(s, c, i, begun), c, es);
  }

  // ------------------------------------------------------------ the gate as it wraps

  /** With a reading waiting and the link idle, a pass at real time t starts a relay
      exactly when the deadline has passed -- if and only if the deadline is still ahead or
      its age, less whole turns of the clock, is under 2^31 ms. */
  lemma {:induction false} RelayGateMatchesRealTimeIff(s: Station, c: L.Config, i: L.Poll, begun: U32, t: nat,
          deadline: nat)
    requires Valid(s, c) && s.link.phase == L.Idle && B.PeekOut(s.buffer).Some?
    requires s.nextSendAt == Millis(deadline) && i.after == Millis(t)
    requires deadline <= t + 30_000
    ensures (RelayStep(s, c, i, begun).link.phase == L.Transmit <==> deadline <= t)
      <==> t < deadline || LooksPast(t - deadline)
  {
    BeforeAgrees(t, deadline);
  }

  /** A pass that starts a relay. */
  predicate Starts(s: Station, c: L.Config, i: L.Poll, begun: U32)
    requires B.Valid(s.buffer)
  {
    s.link.phase == L.Idle && RelayStep(s, c, i, begun).link.phase == L.Transmit
  }

  /** The link is idle and a reading waits. */
  predicate Ready(s: Station)
    requires B.Valid(s.buffer)
  {
    s.link.phase == L.Idle && B.PeekOut(s.buffer).Some?
  }

  /** After a relay that failed at t, and any run since without another failure: a ready
      substation starts a relay at u exactly when 30 s are over and their end, less whole
      turns of the clock, is under 2^31 ms ago. */
  lemma {:induction false} StartsSinceFailureIff(s: Station, c: L.Config, i: L.Poll, begun: U32, t: nat, es: seq<Event>,
                                                 j: L.Poll, begun': U32, u: nat)
    requires Valid(s, c) && i.after == Millis(t) && L.Step(s.link, c, i).1 == L.Failed
    requires Valid(RelayStep(s, c, i, begun), c) && NoFailure(RelayStep(s, c, i, begun), c, es)
    requires Ready(Run(RelayStep(s, c, i, begun), c, es)) && t <= u && j.after == Millis(u)
    ensures Starts(Run(RelayStep(s, c, i, begun), c, es), c, j, begun') <==>
        t + 30_000 <= u && LooksPast(u - (t + 30_000))
  {
    FailureSetsDeadline(s, c, i, begun, t);
    DeadlineStays(RelayStep(s, c, i, begun), c, es);
    BeforeAgrees(u, t + 30_000);
  }

  lemma {:induction false} BeforeZero(clock: U32)
    ensures Before(clock, 0) <==> clock >= HALF
  {}

  /** From boot, after any run without a failure: a ready substation starts a relay
      exactly in the lower half of its clock's range. */
  lemma {:induction false} StartsFromBootIff(c: L.Config, epoch: U32, es: seq<Event>, j: L.Poll, begun: U32)
    requires Valid(Boot(epoch), c) && NoFailure(Boot(epoch), c, es) && Ready(Run(Boot(epoch), c, es))
    ensures Starts(Run(Boot(epoch), c, es), c, j, begun) <==> j.after < HALF
  {
    DeadlineStays(Boot(epoch), c, es);
    BeforeZero(j.after);
  }

  /** So a substation that has not failed since boot relays nothing while its clock shows
      2^31 ms or more, whatever it has buffered and whatever arrives. */
  lemma {:induction false} StallsFromBoot(c: L.Config, epoch: U32, es: seq<Event>, fs: seq<Event>)
    requires Valid(Boot(epoch), c) && NoFailure(Boot(epoch), c, es) && Run(Boot(epoch), c, es).link.phase == L.Idle
    requires forall e :: e in fs && e.Relay? ==> e.i.after >= HALF
    ensures NeverRelays(Run(Boot(epoch), c, es), c, fs)
  {
    DeadlineStays(Boot(epoch), c, es);
    EarlyNeverRelays(Run(Boot(epoch), c, es), c, fs);
  }

  lemma {:induction false} PushedShows(b: B.Buffer, p: Payload)
    requires B.Valid(b) && B.Accepts(b, p.uid)
    ensures B.Valid(B.Push(b, p)) && B.PeekOut(B.Push(b, p)).Some?
  {
    B.PushQueues(b, p);
    B.PeekRefinesMap(B.Push(b, p));
    assert p.uid in B.View(B.Push(b, p)).Keys;
  }

  lemma {:induction false} OneReadingWaits(c: L.Config, epoch: U32, mac: Mac, p: Payload, peerOk: bool)
    ensures Valid(Boot(epoch), c)
    ensures var s := Run(Boot(epoch), c, [JoinFrame(mac, epoch, p.uid, peerOk), ReadingFrame(mac, p)]);
      Ready(s) && s.nextSendAt == 0
  {
    var e, f := JoinFrame(mac, epoch, p.uid, peerOk), ReadingFrame(mac, p);
    var s1 := Next(Boot(epoch), c, e);
    NextValid(Boot(epoch), c, e);
    assert s1.joined == [JoinedNode(mac, p.uid, 0, false)] && s1.buffer == B.Empty;
    PushedShows(B.Empty, p);
    NextValid(s1, c, f);
    assert [e, f][1..] == [f] && [f][1..] == [];
    assert Run(s1, c, [f]) == Next(s1, c, f);
  }

  /** One Join and one reading are enough: no pass with the clock at 2^31 ms or more does
      anything, and any pass below starts the relay. */
  lemma {:induction false} OneReadingStalls(c: L.Config, epoch: U32, mac: Mac, p: Payload, peerOk: bool, i: L.Poll,
          begun: U32)
    ensures Valid(Boot(epoch), c)
    ensures var s := Run(Boot(epoch), c, [JoinFrame(mac, epoch, p.uid, peerOk), ReadingFrame(mac, p)]);
      && Ready(s)
      && (i.after >= HALF ==> RelayStep(s, c, i, begun) == s)
      && (i.after < HALF ==> Starts(s, c, i, begun))
  {
    OneReadingWaits(c, epoch, mac, p, peerOk);
    BeforeZero(i.after);
  }
}
