/** A LoRa send told without its phases: which polls transmit, which poll reports, and how
    far apart they are. */
module LoRaRuns {
  import opened Wire
  import opened Clock
  import opened LoRaSpec
  import opened LoRaLinks

  /** A send over a run of polls: the polls that transmit, and the report, if it came. */
  datatype Course = Course(sends: seq<nat>, report: Option<Report>)

  datatype Report = Report(at: nat, acked: bool)

  predicate HearsOwn(p: Payload, poll: Poll) { poll.heard == Some(AckPayload(p.uid, p.sample.seqNo)) }

  /** The first poll from k on that hears the send's ACK or finds the time for it over. */
  function Listened(p: Payload, timeoutMs: U32, polls: seq<Poll>, sentAt: U32, k: nat): (j: nat)
    requires k <= |polls|
    ensures k <= j <= |polls|
    ensures j < |polls| ==> HearsOwn(p, polls[j]) || Since(polls[j].now, sentAt) >= timeoutMs
    ensures forall i :: k <= i < j ==> !HearsOwn(p, polls[i]) && Since(polls[i].now, sentAt) < timeoutMs
    decreases |polls| - k
  {
    if k == |polls| || HearsOwn(p, polls[k]) || Since(polls[k].now, sentAt) >= timeoutMs then k
    else Listened(p, timeoutMs, polls, sentAt, k + 1)
  }

  /** The first poll from k on at least 500 ms after `from`. */
  function Rested(polls: seq<Poll>, from: U32, k: nat): (j: nat)
    requires k <= |polls|
    ensures k <= j <= |polls|
    ensures j < |polls| ==> Since(polls[j].now, from) >= 500
    ensures forall i :: k <= i < j ==> Since(polls[i].now, from) < 500
    decreases |polls| - k
  {
    if k == |polls| || Since(polls[k].now, from) >= 500 then k else Rested(polls, from, k + 1)
  }

  /** What comes of the transmission at poll k. */
  datatype Leg = Open | Ends(report: Report) | Again(next: nat)

  /** The poll at which the transmission is acknowledged or lost: one that hears the ACK or is
      too late for it, or at once if the radio could not send. */
  function Settled(c: Config, p: Payload, polls: seq<Poll>, k: nat): (j: nat)
    requires k < |polls|
    ensures k <= j <= |polls|
  {
    if polls[k].sendOk then Listened(p, c.ackTimeoutMs, polls, polls[k].after, k + 1) else k
  }

  /** The ACK ends the send. If it is lost, the send rests, and then either gives up, this
      having been its last attempt, or transmits again with the poll after that. */
  function LegFrom(c: Config, p: Payload, polls: seq<Poll>, k: nat, used: nat): (leg: Leg)
    requires k < |polls|
    ensures leg.Ends? ==> k < leg.report.at < |polls|
    ensures leg.Again? ==> k < leg.next <= |polls|
  {
    var settled := Settled(c, p, polls, k);
    if settled == |polls| then Open
    else if polls[k].sendOk && HearsOwn(p, polls[settled]) then Ends(Report(settled, true))
    else
      var rested := Rested(polls, polls[settled].after, settled + 1);
      if rested == |polls| then Open
      else if used >= c.maxRetries then Ends(Report(rested, false))
      else Again(rested + 1)
  }

  /** The send from its `used`-th transmission on, which poll k makes. */
  function CourseFrom(c: Config, p: Payload, polls: seq<Poll>, k: nat, used: nat): (course: Course)
    ensures forall i :: i in course.sends ==> k <= i < |polls|
    ensures course.report.Some? ==> k < course.report.value.at < |polls|
    decreases |polls| - k
  {
    if k >= |polls| then Course([], None)
    else
      match LegFrom(c, p, polls, k, used)
      case Open => Course([k], None)
      case Ends(report) => Course([k], Some(report))
      case Again(next) =>
        var rest := CourseFrom(c, p, polls, next, used + 1);
        Course([k] + rest.sends, rest.report)
  }

  /** What each poll reports over such a send: nothing yet, the outcome once, then nothing. */
  predicate Tells(report: Option<Report>, s: seq<Status>, k: nat) {
    forall i :: k <= i < |s| ==>
      s[i] == if report.None? || i < report.value.at then Pending
              else if i > report.value.at then NoSend
              else if report.value.acked then Acked
              else Failed
  }

  // ------------------------------------------------------------ the machine's run

  /** The states between the polls, and what the polls report. */
  ghost predicate IsRun(c: Config, polls: seq<Poll>, at: seq<Link>, st: seq<Status>) {
    && |at| == |polls| + 1 && |st| == |polls|
    && forall k :: 0 <= k < |polls| ==> TakesStep(c, polls[k], at[k], at[k + 1], st[k])
  }

  predicate TakesStep(c: Config, poll: Poll, before: Link, behind: Link, status: Status) {
    (behind, status) == Step(before, c, poll)
  }

  lemma {:induction false} NextAt(c: Config, polls: seq<Poll>, at: seq<Link>, st: seq<Status>, k: nat)
    requires IsRun(c, polls, at, st) && k < |polls|
    ensures (at[k + 1], st[k]) == Step(at[k], c, polls[k])
  {
    assert TakesStep(c, polls[k], at[k], at[k + 1], st[k]);
  }

  lemma {:induction false} ListensTo(c: Config, polls: seq<Poll>, at: seq<Link>, st: seq<Status>, sentAt: U32, k: nat)
    requires IsRun(c, polls, at, st) && k <= |polls| && at[k].phase == AwaitAck && at[k].phaseStart == sentAt
    ensures var j := Listened(at[k].pending, c.ackTimeoutMs, polls, sentAt, k);
      && (forall i :: k <= i <= j ==> at[i] == at[k])
      && (forall i :: k <= i < j ==> st[i] == Pending)
    decreases |polls| - k
  {
    if k < |polls| && !HearsOwn(at[k].pending, polls[k]) && Since(polls[k].now, sentAt) < c.ackTimeoutMs {
      NextAt(c, polls, at, st, k);
      ListensTo(c, polls, at, st, sentAt, k + 1);
    }
  }

  lemma {:induction false} RestsTo(c: Config, polls: seq<Poll>, at: seq<Link>, st: seq<Status>, from: U32, k: nat)
    requires IsRun(c, polls, at, st) && k <= |polls| && at[k].phase == Backoff && at[k].phaseStart == from
    ensures var j := Rested(polls, from, k);
      && (forall i :: k <= i <= j ==> at[i] == at[k])
      && (forall i :: k <= i < j ==> st[i] == Pending)
    decreases |polls| - k
  {
    if k < |polls| && Since(polls[k].now, from) < 500 {
      NextAt(c, polls, at, st, k);
      RestsTo(c, polls, at, st, from, k + 1);
    }
  }

  lemma {:induction false} IdleOn(c: Config, polls: seq<Poll>, at: seq<Link>, st: seq<Status>, k: nat)
    requires IsRun(c, polls, at, st) && k <= |polls| && at[k].phase == Idle
    ensures forall i :: k <= i < |polls| ==> at[i].phase == Idle && st[i] == NoSend
    decreases |polls| - k
  {
    if k < |polls| {
      NextAt(c, polls, at, st, k);
      IdleOn(c, polls, at, st, k + 1);
    }
  }

  /** Poll i transmits exactly when it is one of the sends. */
  ghost predicate SendsAt(at: seq<Link>, k: nat, sends: seq<nat>) {
    forall i :: k <= i < |at| - 1 ==> (at[i].phase == Transmit <==> i in sends)
  }

  /** The polls k to j - 1 neither transmit (but for k itself) nor report. */
  ghost predicate Quiet(at: seq<Link>, st: seq<Status>, k: nat, j: nat)
    requires j <= |at| && j <= |st|
  {
    forall i :: k <= i < j ==> st[i] == Pending && (at[i].phase == Transmit <==> i == k)
  }

  /** From a transmission to the poll that hears its ACK or gives up on it. */
  lemma {:induction false} Transmits(c: Config, polls: seq<Poll>, at: seq<Link>, st: seq<Status>, k: nat)
    requires IsRun(c, polls, at, st) && k < |polls| && at[k].phase == Transmit && at[k].attempt < 0xFF
    ensures var sent := at[k].(attempt := at[k].attempt + 1, phaseStart := polls[k].after);
      var j := Listened(at[k].pending, c.ackTimeoutMs, polls, polls[k].after, k + 1);
      if polls[k].sendOk
      then Quiet(at, st, k, j) && at[j] == sent.(phase := AwaitAck)
      else Quiet(at, st, k, k + 1) && at[k + 1] == sent.(phase := Backoff)
  {
    NextAt(c, polls, at, st, k);
    if polls[k].sendOk {
      ListensTo(c, polls, at, st, polls[k].after, k + 1);
    }
  }

  /** From there to the end of the rest. */
  lemma {:induction false} Gives(c: Config, polls: seq<Poll>, at: seq<Link>, st: seq<Status>, k: nat, lost: nat)
    requires IsRun(c, polls, at, st) && k <= lost < |polls| && Quiet(at, st, k, lost + 1)
    requires at[lost + 1].phase == Backoff && at[lost + 1].phaseStart == polls[lost].after
    ensures var j := Rested(polls, polls[lost].after, lost + 1);
      Quiet(at, st, k, j) && at[j] == at[lost + 1]
  {
    RestsTo(c, polls, at, st, polls[lost].after, lost + 1);
  }

  /** A report ends the course. */
  lemma {:induction false} Ended(c: Config, polls: seq<Poll>, at: seq<Link>, st: seq<Status>, k: nat, report: Report)
    requires IsRun(c, polls, at, st) && k < report.at < |polls| && Quiet(at, st, k, report.at)
    requires at[k].phase == Transmit && at[report.at].phase != Transmit && at[report.at + 1].phase == Idle
    requires st[report.at] == if report.acked then Acked else Failed
    ensures SendsAt(at, k, [k]) && Tells(Some(report), st, k)
  {
    IdleOn(c, polls, at, st, report.at + 1);
  }

  lemma {:induction false} Goes(at: seq<Link>, st: seq<Status>, k: nat, next: nat, rest: Course)
    requires k < next <= |st| && |at| == |st| + 1 && Quiet(at, st, k, next)
    requires forall i :: i in rest.sends ==> next <= i
    requires rest.report.Some? ==> next <= rest.report.value.at
    requires SendsAt(at, next, rest.sends) && Tells(rest.report, st, next)
    ensures SendsAt(at, k, [k] + rest.sends) && Tells(rest.report, st, k)
  {}

  /** What the machine does over a leg. */
  ghost predicate LegDone(at: seq<Link>, st: seq<Status>, k: nat, leg: Leg)
    requires k < |st| && |at| == |st| + 1
    requires (leg.Ends? ==> leg.report.at < |st|) && (leg.Again? ==> leg.next <= |st|)
  {
    match leg
    case Open => Quiet(at, st, k, |st|)
    case Ends(r) =>
      && Quiet(at, st, k, r.at) && at[r.at].phase != Transmit && at[r.at + 1].phase == Idle
      && st[r.at] == (if r.acked then Acked else Failed)
    case Again(n) =>
      && Quiet(at, st, k, n) && at[n].phase == Transmit
      && at[n].attempt == at[k].attempt + 1 && at[n].pending == at[k].pending
  }

  /** How the poll that settles a transmission leaves the machine. */
  lemma {:induction false} Settles(c: Config, polls: seq<Poll>, at: seq<Link>, st: seq<Status>, k: nat)
    requires IsRun(c, polls, at, st) && k < |polls| && at[k].phase == Transmit && at[k].attempt < 0xFF
    ensures var j := Settled(c, at[k].pending, polls, k);
      if j == |polls| then Quiet(at, st, k, j)
      else if polls[k].sendOk && HearsOwn(at[k].pending, polls[j])
      then k < j && Quiet(at, st, k, j) && at[j].phase == AwaitAck && at[j + 1].phase == Idle && st[j] == Acked
      else Quiet(at, st, k, j + 1) && at[j + 1]
           == at[k].(attempt := at[k].attempt + 1, phase := Backoff, phaseStart := polls[j].after)
  {
    Transmits(c, polls, at, st, k);
    var j := Settled(c, at[k].pending, polls, k);
    if j < |polls| {
      NextAt(c, polls, at, st, j);
    }
  }

  lemma {:induction false} LegOf(c: Config, polls: seq<Poll>, at: seq<Link>, st: seq<Status>, k: nat, used: nat)
    requires IsRun(c, polls, at, st) && k < |polls| && 1 <= used && (used == 1 || used <= c.maxRetries)
    requires at[k].phase == Transmit && at[k].attempt == used - 1
    ensures LegDone(at, st, k, LegFrom(c, at[k].pending, polls, k, used))
  {
    var p := at[k].pending;
    Settles(c, polls, at, st, k);
    var settled := Settled(c, p, polls, k);
    if settled < |polls| && !(polls[k].sendOk && HearsOwn(p, polls[settled])) {
      LegLost(c, polls, at, st, k, used, settled);
    }
  }

  /** The rest of a leg whose ACK was lost. */
  lemma {:induction false} LegLost(c: Config, polls: seq<Poll>, at: seq<Link>, st: seq<Status>, k: nat, used: nat,
                                   settled: nat)
    requires IsRun(c, polls, at, st) && k <= settled < |polls| && 1 <= used && Quiet(at, st, k, settled + 1)
    requires at[k].phase == Transmit && at[k].attempt == used - 1
    requires at[settled + 1]
          == at[k].(attempt := at[settled + 1].attempt, phase := Backoff, phaseStart := polls[settled].after)
    requires at[settled + 1].attempt == used
    ensures var rested := Rested(polls, polls[settled].after, settled + 1);
      LegDone(at, st, k,
              if rested == |polls| then Open
              else if used >= c.maxRetries then Ends(Report(rested, false))
              else Again(rested + 1))
  {
    Gives(c, polls, at, st, k, settled);
    var rested := Rested(polls, polls[settled].after, settled + 1);
    if rested < |polls| {
      NextAt(c, polls, at, st, rested);
    }
  }

  lemma {:induction false} CourseOf(c: Config, polls: seq<Poll>, at: seq<Link>, st: seq<Status>, k: nat, used: nat)
    requires IsRun(c, polls, at, st) && k <= |polls| && 1 <= used && (used == 1 || used <= c.maxRetries)
    requires at[k].phase == Transmit && at[k].attempt == used - 1
    ensures var course := CourseFrom(c, at[k].pending, polls, k, used);
      SendsAt(at, k, course.sends) && Tells(course.report, st, k)
    decreases |polls| - k
  {
    if k < |polls| {
      var p := at[k].pending;
      LegOf(c, polls, at, st, k, used);
      var leg := LegFrom(c, p, polls, k, used);
      match leg {
        case Open =>
        case Ends(report) => Ended(c, polls, at, st, k, report);
        case Again(next) =>
          LastRetry(c, p, polls, k, used);
          CourseOf(c, polls, at, st, next, used + 1);
          Goes(at, st, k, next, CourseFrom(c, p, polls, next, used + 1));
      }
    }
  }

  lemma {:induction false} LastRetry(c: Config, p: Payload, polls: seq<Poll>, k: nat, used: nat)
    requires k < |polls|
    ensures LegFrom(c, p, polls, k, used).Again? ==> used < c.maxRetries
  {}

  /** A send goes exactly this course, whatever the radio and the clock do: which polls
      transmit, and what every poll reports. */
  lemma {:induction false} SendTakesCourse(c: Config, p: Payload, start: U32, polls: seq<Poll>)
    ensures var l, course := Begin(p, start), CourseFrom(c, p, polls, 0, 1);
      && Tells(course.report, Statuses(l, c, polls), 0)
      && (forall i :: 0 <= i < |polls| ==> (After(l, c, polls[..i]).phase == Transmit <==> i in course.sends))
  {
    var l := Begin(p, start);
    var at := seq(|polls| + 1, k requires 0 <= k <= |polls| => After(l, c, polls[..k]));
    var st := Statuses(l, c, polls);
    forall k | 0 <= k < |polls| ensures TakesStep(c, polls[k], at[k], at[k + 1], st[k]) {
      RunSnoc(l, c, polls, k);
    }
    CourseOf(c, polls, at, st, 0, 1);
    forall i | 0 <= i < |polls|
      ensures After(l, c, polls[..i]).phase == Transmit <==> i in CourseFrom(c, p, polls, 0, 1).sends
    {
      assert at[i] == After(l, c, polls[..i]);
    }
  }

  // ------------------------------------------------------------------- spacing

  /** Polls on an unbounded clock that only moves on. */
  ghost predicate Onward(ts: seq<Timed>) {
    && (forall i :: 0 <= i < |ts| ==> ts[i].now <= ts[i].after)
    && (forall i, j :: 0 <= i < j < |ts| ==> ts[i].after <= ts[j].now)
  }

  /** The same polls on the wrapping clock. */
  ghost predicate Seen(ts: seq<Timed>, polls: seq<Poll>) {
    |ts| == |polls| && forall i :: 0 <= i < |ts| ==> polls[i] == Wrapped(ts[i])
  }

  /** The wrapped difference never exceeds the real one. */
  lemma {:induction false} AtLeast(t: nat, s: nat, ms: nat)
    requires s <= t && Since(Millis(t), Millis(s)) >= ms
    ensures t >= s + ms
  {
    SinceIsDifference(t, s);
  }

  /** From one transmission to the next: 500 ms at least, and the whole ACK timeout before
      that if the radio had sent. */
  ghost predicate Apart(c: Config, ts: seq<Timed>, i: nat, j: nat)
    requires i < |ts| && j < |ts|
  {
    ts[j].now >= ts[i].after + 500 + (if ts[i].sendOk then c.ackTimeoutMs else 0)
  }

  lemma {:induction false} LegIsApart(c: Config, p: Payload, ts: seq<Timed>, polls: seq<Poll>, k: nat, used: nat)
    requires Onward(ts) && Seen(ts, polls) && k < |ts|
    ensures var leg := LegFrom(c, p, polls, k, used);
      && (leg.Again? && leg.next < |ts| ==> Apart(c, ts, k, leg.next))
      && (leg.Ends? && !leg.report.acked ==> Apart(c, ts, k, leg.report.at))
  {
    var settled := Settled(c, p, polls, k);
    if settled < |ts| && !(polls[k].sendOk && HearsOwn(p, polls[settled])) {
      if ts[k].sendOk {
        AtLeast(ts[settled].now, ts[k].after, c.ackTimeoutMs);
      }
      var rested := Rested(polls, polls[settled].after, settled + 1);
      if rested < |ts| {
        AtLeast(ts[rested].now, ts[settled].after, 500);
      }
    }
  }

  /** Every transmission of a send but the first is that far behind the one before it, and a
      failure is that far behind the last. */
  ghost predicate AllApart(c: Config, ts: seq<Timed>, course: Course)
    requires forall i :: 0 <= i < |course.sends| ==> course.sends[i] < |ts|
    requires course.report.Some? ==> course.report.value.at < |ts| && course.sends != []
  {
    && (forall i :: 1 <= i < |course.sends| ==> Apart(c, ts, course.sends[i - 1], course.sends[i]))
    && (course.report.Some? && !course.report.value.acked ==>
          Apart(c, ts, course.sends[|course.sends| - 1], course.report.value.at))
  }

  lemma {:induction false} Prepended(c: Config, ts: seq<Timed>, k: nat, rest: Course)
    requires k < |ts| && forall i :: 0 <= i < |rest.sends| ==> rest.sends[i] < |ts|
    requires rest.report.Some? ==> rest.report.value.at < |ts| && rest.sends != []
    requires AllApart(c, ts, rest) && (rest.sends != [] ==> Apart(c, ts, k, rest.sends[0]))
    ensures AllApart(c, ts, Course([k] + rest.sends, rest.report))
  {
    var s := [k] + rest.sends;
    forall i | 1 <= i < |s| ensures Apart(c, ts, s[i - 1], s[i]) {
      if i > 1 {
        assert s[i - 1] == rest.sends[i - 2] && s[i] == rest.sends[i - 1];
      }
    }
  }

  lemma {:induction false} Starts(c: Config, p: Payload, polls: seq<Poll>, k: nat, used: nat)
    ensures var course := CourseFrom(c, p, polls, k, used);
      if k < |polls| then course.sends != [] && course.sends[0] == k else course == Course([], None)
  {}

  lemma {:induction false} SendsAreApart(c: Config, p: Payload, ts: seq<Timed>, polls: seq<Poll>, k: nat, used: nat)
    requires Onward(ts) && Seen(ts, polls)
    ensures var course := CourseFrom(c, p, polls, k, used);
      && (forall i :: 0 <= i < |course.sends| ==> course.sends[i] < |ts|)
      && (course.report.Some? ==> course.sends != []) && AllApart(c, ts, course)
    decreases |ts| - k
  {
    if k < |ts| {
      LegIsApart(c, p, ts, polls, k, used);
      var leg := LegFrom(c, p, polls, k, used);
      if leg.Again? {
        SendsAreApart(c, p, ts, polls, leg.next, used + 1);
        Starts(c, p, polls, leg.next, used + 1);
        Prepended(c, ts, k, CourseFrom(c, p, polls, leg.next, used + 1));
      }
    }
  }

  // -------------------------------------------------------------------- the ACK

  /** A waiting poll hears an ACK exactly from a packet of twenty bytes that are that ACK's. */
  lemma {:induction false} HearsIff(size: int, bytes: seq<Byte>, a: AckPayload)
    ensures HeardAck(size, bytes) == Some(a) <==> size == 20 && EncodeAck(a) <= bytes
  {
    AckRoundTrip(a);
    if size == 20 && |bytes| >= 20 {
      AckBytesRoundTrip(bytes[..20]);
      assert EncodeAck(a) <= bytes <==> bytes[..20] == EncodeAck(a);
    }
  }

  lemma {:induction false} AckBytesRoundTrip(s: seq<Byte>)
    requires |s| == 20
    ensures EncodeAck(DecodeAck(s)) == s
  {
    UidBytesRoundTrip(s[..16]);
    U32BytesRoundTrip(s[16..20]);
    assert s == s[..16] + s[16..20];
  }
}
