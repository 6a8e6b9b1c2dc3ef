/** The stepped LoRa send: one transition per poll, and what whole sends guarantee. */
module LoRaSpec {
  import opened Wire
  import opened Clock

  /** Wait after a failed attempt before the next one, in ms. */
  const BACKOFF_MS: nat := 500

  datatype Config = Config(maxRetries: U8, ackTimeoutMs: U32)
  {
    /** Attempts a send gets: the limit is only checked after one was made. */
    function Attempts(): nat { if maxRetries == 0 then 1 else maxRetries }
  }

  datatype Phase = Idle | Transmit | AwaitAck | Backoff

  datatype Status = NoSend | Pending | Acked | Failed

  datatype Link = Link(pending: Payload, attempt: U8, phase: Phase, phaseStart: U32)

  /** What one poll finds: the clock when it starts and when it enters a new phase,
      whether the radio sent, and the ACK frame it read, if any. */
  datatype Poll = Poll(now: U32, after: U32, sendOk: bool, heard: Option<AckPayload>)

  function Begin(p: Payload, now: U32): Link { Link(p, 0, Transmit, now) }

  function Enter(l: Link, phase: Phase, at: U32): Link { l.(phase := phase, phaseStart := at) }

  function Step(l: Link, c: Config, i: Poll): (Link, Status) {
    match l.phase
    case Idle => (l, NoSend)
    case Transmit =>
      var l := l.(attempt := (l.attempt + 1) % 0x100);
      (Enter(l, if i.sendOk then AwaitAck else Backoff, i.after), Pending)
    case AwaitAck =>
      if i.heard == Some(AckPayload(l.pending.uid, l.pending.sample.seqNo)) then (l.(phase := Idle), Acked)
      else if Since(i.now, l.phaseStart) >= c.ackTimeoutMs then (Enter(l, Backoff, i.after), Pending)
      else (l, Pending)
    case Backoff =>
      if Since(i.now, l.phaseStart) < BACKOFF_MS then (l, Pending)
      else if l.attempt >= c.maxRetries then (l.(phase := Idle), Failed)
      else (Enter(l, Transmit, i.after), Pending)
  }

  // ------------------------------------------------------------ runs of polls

  function After(l: Link, c: Config, polls: seq<Poll>): Link
    decreases |polls|
  {
    if polls == [] then l else After(Step(l, c, polls[0]).0, c, polls[1..])
  }

  function Statuses(l: Link, c: Config, polls: seq<Poll>): (s: seq<Status>)
    ensures |s| == |polls|
    decreases |polls|
  {
    if polls == [] then [] else
    var (l', status) := Step(l, c, polls[0]);
    [status] + Statuses(l', c, polls[1..])
  }

  /** Transmissions made over the run. */
  function Sends(l: Link, c: Config, polls: seq<Poll>): nat
    decreases |polls|
  {
    if polls == [] then 0
    else (if l.phase == Transmit then 1 else 0) + Sends(Step(l, c, polls[0]).0, c, polls[1..])
  }

  /** The attempt counter stays within the limit. */
  ghost predicate Valid(l: Link, c: Config) {
    match l.phase
    case Idle => true
    case Transmit => l.attempt < c.Attempts()
    case _ => 1 <= l.attempt <= c.Attempts()
  }

  /** Attempts not yet made. */
  function Left(l: Link, c: Config): nat
    requires Valid(l, c)
  {
    if l.phase == Idle then 0 else c.Attempts() - l.attempt
  }

  lemma {:induction false} StepKeeps(l: Link, c: Config, i: Poll)
    requires Valid(l, c)
    ensures var (l', s) := Step(l, c, i);
      && Valid(l', c) && l'.pending == l.pending
      && Left(l', c) + (if l.phase == Transmit then 1 else 0) <= Left(l, c)
      && (s != Acked ==> Left(l', c) + (if l.phase == Transmit then 1 else 0) == Left(l, c))
      && (s == Failed ==> Left(l, c) == 0)
      && (s == Pending <==> l'.phase != Idle)
      && (l.phase != Idle <==> s != NoSend)
  {}

  /** The statuses of a send: Pending until it ends, then Acked or Failed once, then
      NoSend. It never goes idle without having reported one of the two. */
  ghost predicate EndsOnce(s: seq<Status>) {
    && (forall i, j :: 0 <= i < j < |s| && s[i] != Pending ==> s[j] == NoSend)
    && (|s| > 0 ==> s[0] != NoSend)
    && (forall i, j :: 0 <= i < j < |s| && j == i + 1 && s[j] == NoSend ==> s[i] != Pending)
  }

  /** Poll k reports how the send ended. */
  predicate Reports(s: seq<Status>, k: nat) { k < |s| && (s[k] == Acked || s[k] == Failed) }

  ghost predicate ReportsOnlyAt(s: seq<Status>, k: nat) {
    Reports(s, k) && forall j: nat :: Reports(s, j) ==> j == k
  }

  /** Exactly one poll reports. */
  ghost predicate ReportsOnce(s: seq<Status>) { exists k: nat :: ReportsOnlyAt(s, k) }

  lemma {:induction false} OnlyReport(s: seq<Status>, k: nat)
    requires EndsOnce(s) && Reports(s, k)
    ensures ReportsOnce(s)
  {
    assert ReportsOnlyAt(s, k);
  }

  /** A run that has gone idle has reported, and only once. */
  lemma {:induction false} IdleHasReported(l: Link, c: Config, polls: seq<Poll>)
    requires Valid(l, c) && l.phase != Idle && After(l, c, polls).phase == Idle
    ensures ReportsOnce(Statuses(l, c, polls))
  {
    RunOf(l, c, polls);
    var k := FirstReport(l, c, polls);
    OnlyReport(Statuses(l, c, polls), k);
  }

  lemma {:induction false} FirstReport(l: Link, c: Config, polls: seq<Poll>) returns (k: nat)
    requires Valid(l, c) && l.phase != Idle && After(l, c, polls).phase == Idle
    ensures Reports(Statuses(l, c, polls), k)
    decreases |polls|
  {
    StepKeeps(l, c, polls[0]);
    var (l', s) := Step(l, c, polls[0]);
    if l'.phase == Idle {
      k := 0;
    } else {
      var j := FirstReport(l', c, polls[1..]);
      k := j + 1;
    }
  }

  lemma {:induction false} IdleRun(l: Link, c: Config, polls: seq<Poll>)
    requires l.phase == Idle
    ensures Sends(l, c, polls) == 0
    ensures forall i :: 0 <= i < |polls| ==> Statuses(l, c, polls)[i] == NoSend
    ensures After(l, c, polls) == l
  {
    if polls != [] {
      IdleRun(l, c, polls[1..]);
    }
  }

  lemma {:induction false} RunOf(l: Link, c: Config, polls: seq<Poll>)
    requires Valid(l, c) && l.phase != Idle
    decreases |polls|
    ensures EndsOnce(Statuses(l, c, polls))
    ensures Sends(l, c, polls) <= Left(l, c)
    ensures forall k :: 0 <= k < |polls| && Statuses(l, c, polls)[k] == Failed ==> Sends(l, c, polls[..k]) == Left(l, c)
    ensures forall k :: 0 <= k < |polls| && Statuses(l, c, polls)[k] == Acked ==>
      polls[k].heard == Some(l.pending.ToReading().Key())
  {
    if polls != [] {
      StepKeeps(l, c, polls[0]);
      var (l', s) := Step(l, c, polls[0]);
      var rest := polls[1..];
      if l'.phase == Idle {
        IdleRun(l', c, rest);
      } else {
        RunOf(l', c, rest);
        forall k | 0 <= k < |polls| && Statuses(l, c, polls)[k] == Failed
          ensures Sends(l, c, polls[..k]) == Left(l, c)
        {
          assert polls[..k][1..] == rest[..k - 1];
        }
      }
    }
  }

  /** A whole send: it transmits at most max(1, maxRetries) times, reports Failed only
      after exactly that many, Acked only on the ACK of its own UID and sequence
      number, and never more than one of the two; it only goes idle by reporting one. */
  lemma {:induction false} SendRun(c: Config, p: Payload, start: U32, polls: seq<Poll>)
    ensures var l := Begin(p, start);
      var s := Statuses(l, c, polls);
      && EndsOnce(s)
      && Sends(l, c, polls) <= c.Attempts()
      && (forall k :: 0 <= k < |s| && s[k] == Failed ==> Sends(l, c, polls[..k]) == c.Attempts())
      && (forall k :: 0 <= k < |s| && s[k] == Acked ==>
            polls[k].heard == Some(AckPayload(p.uid, p.sample.seqNo)))
  {
    RunOf(Begin(p, start), c, polls);
  }

  // ------------------------------------------------------------------ timing

  /** A poll on an unbounded clock. */
  datatype Timed = Timed(now: nat, after: nat, sendOk: bool, heard: Option<AckPayload>)

  function Wrapped(t: Timed): Poll { Poll(Millis(t.now), Millis(t.after), t.sendOk, t.heard) }

  function WrapAll(ts: seq<Timed>): (ps: seq<Poll>)
    ensures |ps| == |ts|
  {
    if ts == [] then [] else [Wrapped(ts[0])] + WrapAll(ts[1..])
  }

  /** Each poll starts at least 1 ms after the one before it finished, and at most
      `gap` ms after the one before it started. */
  ghost predicate Paced(now: nat, after: nat, ts: seq<Timed>, gap: nat)
    decreases |ts|
  {
    ts != [] ==>
      && now <= after < ts[0].now <= now + gap && ts[0].now <= ts[0].after
      && Paced(ts[0].now, ts[0].after, ts[1..], gap)
  }

  function Max(a: nat, b: nat): nat { if a >= b then a else b }

  /** a - b, or 0. */
  function Minus(a: nat, b: nat): nat { if a >= b then a - b else 0 }

  /** The longest time a phase waits. */
  function LongestWait(c: Config): nat { Max(c.ackTimeoutMs, BACKOFF_MS) }

  /** Most polls one attempt takes. */
  function PerAttempt(c: Config): nat { c.ackTimeoutMs + 502 }

  /** The link entered its phase at real time s, and its wait was not over at `now`. */
  ghost predicate InTime(l: Link, c: Config, s: nat, now: nat, after: nat) {
    && l.phaseStart == Millis(s) && s <= after && now <= after
    && (l.phase == AwaitAck ==> Minus(now, s) < Max(1, c.ackTimeoutMs))
    && (l.phase == Backoff ==> Minus(now, s) < BACKOFF_MS)
  }

  /** Polls left in the current attempt. */
  function Wait(l: Link, c: Config, s: nat, now: nat): nat {
    match l.phase
    case Idle => 0
    case Transmit => 0
    case AwaitAck => Max(1, Minus(c.ackTimeoutMs, Minus(now, s))) + BACKOFF_MS
    case Backoff => Max(1, Minus(BACKOFF_MS, Minus(now, s)))
  }

  /** Polls the send can still take. */
  function Budget(l: Link, c: Config, s: nat, now: nat): nat
    requires Valid(l, c)
  {
    Left(l, c) * PerAttempt(c) + Wait(l, c, s, now)
  }

  /** When the phase after a poll was entered. */
  function Entered(l: Link, c: Config, s: nat, t: Timed): nat {
    if Step(l, c, Wrapped(t)).0.phase != l.phase then t.after else s
  }

  lemma {:induction false} WaitDrops(l: Link, c: Config, s: nat, now: nat, after: nat, t: Timed, gap: nat)
    requires Valid(l, c) && l.phase != Idle && InTime(l, c, s, now, after)
    requires after < t.now <= now + gap && t.now <= t.after && gap + LongestWait(c) <= WRAP
    ensures var l' := Step(l, c, Wrapped(t)).0;
      var s' := Entered(l, c, s, t);
      && Valid(l', c)
      && (l'.phase != Idle ==> InTime(l', c, s', t.now, t.after))
      && (if l.phase == Transmit then Wait(l', c, s', t.now) < PerAttempt(c)
          else Wait(l', c, s', t.now) < Wait(l, c, s, now) && Left(l', c) <= Left(l, c))
  {
    StepKeeps(l, c, Wrapped(t));
    if l.phase != Transmit && t.now - s < WRAP {
      SinceIsElapsed(t.now, s);
    }
  }

  lemma {:induction false} BudgetDrops(l: Link, c: Config, s: nat, now: nat, after: nat, t: Timed, gap: nat)
    requires Valid(l, c) && l.phase != Idle && InTime(l, c, s, now, after)
    requires after < t.now <= now + gap && t.now <= t.after && gap + LongestWait(c) <= WRAP
    ensures var l' := Step(l, c, Wrapped(t)).0;
      && Valid(l', c)
      && Budget(l', c, Entered(l, c, s, t), t.now) < Budget(l, c, s, now)
  {
    WaitDrops(l, c, s, now, after, t, gap);
    StepKeeps(l, c, Wrapped(t));
    var l' := Step(l, c, Wrapped(t)).0;
    if l.phase == Transmit {
      assert Left(l', c) == Left(l, c) - 1;
      assert Left(l', c) * PerAttempt(c) == Left(l, c) * PerAttempt(c) - PerAttempt(c);
    } else {
      MulMono(Left(l', c), Left(l, c), PerAttempt(c));
    }
  }

  lemma {:induction false} MulMono(a: nat, b: nat, k: nat)
    requires a <= b
    ensures a * k <= b * k
  {}

  lemma {:induction false} BudgetPositive(l: Link, c: Config, s: nat, now: nat)
    requires Valid(l, c) && l.phase != Idle
    ensures Budget(l, c, s, now) > 0
  {
    if l.phase == Transmit {
      MulMono(1, Left(l, c), PerAttempt(c));
    }
  }

  lemma {:induction false} RunEnds(l: Link, c: Config, s: nat, now: nat, after: nat, ts: seq<Timed>, gap: nat)
    requires Valid(l, c) && (l.phase != Idle ==> InTime(l, c, s, now, after))
    requires Paced(now, after, ts, gap) && gap + LongestWait(c) <= WRAP
    requires |ts| >= Budget(l, c, s, now)
    ensures After(l, c, WrapAll(ts)).phase == Idle
    decreases |ts|
  {
    if l.phase == Idle {
      IdleRun(l, c, WrapAll(ts));
    } else {
      BudgetPositive(l, c, s, now);
      WaitDrops(l, c, s, now, after, ts[0], gap);
      BudgetDrops(l, c, s, now, after, ts[0], gap);
      RunEnds(Step(l, c, Wrapped(ts[0])).0, c, Entered(l, c, s, ts[0]), ts[0].now, ts[0].after, ts[1..], gap);
      assert WrapAll(ts)[1..] == WrapAll(ts[1..]);
    }
  }

  /** Every send polled at this pace is over within max(1, maxRetries) * (ackTimeoutMs + 502) polls. */
  ghost predicate EndsWithinBound(c: Config, gap: nat) {
    forall p: Payload, start: nat, ts: seq<Timed> ::
      Paced(start, start, ts, gap) && |ts| >= c.Attempts() * PerAttempt(c)
      ==> After(Begin(p, Millis(start)), c, WrapAll(ts)).phase == Idle
  }

  /** Polls `k` and on of a send that never ends: the clock jumps a whole turn just
      before the wait would be over. `spent` is the time the wrapped clock shows. */
  function Stalling(now: nat, spent: nat, wait: nat, n: nat): seq<Timed>
    decreases n
  {
    if n == 0 then [] else
    var jump := if spent + 1 < wait then 1 else Minus(WRAP, spent);
    [Timed(now + jump, now + jump, true, None)]
    + Stalling(now + jump, if spent + 1 < wait then spent + 1 else 0, wait, n - 1)
  }

  lemma {:induction false} StallingPaced(now: nat, spent: nat, wait: nat, n: nat)
    requires spent < wait < WRAP
    ensures Paced(now, now, Stalling(now, spent, wait, n), WRAP - wait + 1)
    ensures |Stalling(now, spent, wait, n)| == n
    decreases n
  {
    if n > 0 {
      var jump := if spent + 1 < wait then 1 else WRAP - spent;
      var rest := Stalling(now + jump, if spent + 1 < wait then spent + 1 else 0, wait, n - 1);
      StallingPaced(now + jump, if spent + 1 < wait then spent + 1 else 0, wait, n - 1);
      assert Stalling(now, spent, wait, n)[1..] == rest;
    }
  }

  /** One poll of such a run leaves the link as it was. */
  lemma {:induction false} StallingStep(l: Link, c: Config, now: nat, spent: nat, wait: nat) returns (jump: nat,
          spent': nat)
    requires spent < wait < WRAP && Since(Millis(now), l.phaseStart) == spent
    requires (l.phase == AwaitAck && wait == c.ackTimeoutMs) || (l.phase == Backoff && wait == BACKOFF_MS)
    ensures jump == if spent + 1 < wait then 1 else Minus(WRAP, spent)
    ensures spent' == (if spent + 1 < wait then spent + 1 else 0)
    ensures Since(Millis(now + jump), l.phaseStart) == spent'
    ensures Step(l, c, Wrapped(Timed(now + jump, now + jump, true, None))).0 == l
  {
    jump := if spent + 1 < wait then 1 else Minus(WRAP, spent);
    spent' := if spent + 1 < wait then spent + 1 else 0;
    SinceAdvances(now, jump, l.phaseStart);
  }

  lemma {:induction false} StallingNeverEnds(l: Link, c: Config, now: nat, spent: nat, wait: nat, n: nat)
    requires spent < wait < WRAP && Since(Millis(now), l.phaseStart) == spent
    requires (l.phase == AwaitAck && wait == c.ackTimeoutMs) || (l.phase == Backoff && wait == BACKOFF_MS)
    ensures After(l, c, WrapAll(Stalling(now, spent, wait, n))) == l
    decreases n
  {
    if n > 0 {
      var jump, spent' := StallingStep(l, c, now, spent, wait);
      var rest := Stalling(now + jump, spent', wait, n - 1);
      StallingNeverEnds(l, c, now + jump, spent', wait, n - 1);
      AfterCons(l, c, Timed(now + jump, now + jump, true, None), rest);
    }
  }

  lemma {:induction false} AfterCons(l: Link, c: Config, t: Timed, rest: seq<Timed>)
    ensures After(l, c, WrapAll([t] + rest)) == After(Step(l, c, Wrapped(t)).0, c, WrapAll(rest))
  {
    assert ([t] + rest)[1..] == rest;
    assert WrapAll([t] + rest)[1..] == WrapAll(rest);
  }

  /** With a longer pause possible, some send outlasts any number of polls. */
  lemma {:induction false} OutlastsAnyBound(c: Config, p: Payload, gap: nat, n: nat) returns (ts: seq<Timed>)
    requires gap + LongestWait(c) > WRAP
    ensures Paced(0, 0, ts, gap) && |ts| >= n
    ensures After(Begin(p, Millis(0)), c, WrapAll(ts)).phase != Idle
  {
    var inAck := c.ackTimeoutMs >= BACKOFF_MS;
    var first := Timed(1, 1, inAck, None);
    var wait := LongestWait(c);
    var rest := Stalling(1, 0, wait, n);
    ts := [first] + rest;
    StallingPaced(1, 0, wait, n);
    PacedWider(1, 1, rest, WRAP - wait + 1, gap);
    assert ts[1..] == rest;
    var l := Step(Begin(p, Millis(0)), c, Wrapped(first)).0;
    StallingNeverEnds(l, c, 1, 0, wait, n);
    AfterCons(Begin(p, Millis(0)), c, first, rest);
  }

  lemma {:induction false} PacedWider(now: nat, after: nat, ts: seq<Timed>, gap: nat, gap': nat)
    requires gap <= gap' && Paced(now, after, ts, gap)
    ensures Paced(now, after, ts, gap')
    decreases |ts|
  {
    if ts != [] {
      PacedWider(ts[0].now, ts[0].after, ts[1..], gap, gap');
    }
  }

  /** A send polled at this pace for long enough reports Acked or Failed exactly once. */
  lemma {:induction false} SendReportsOnce(c: Config, p: Payload, start: nat, ts: seq<Timed>, gap: nat)
    requires Paced(start, start, ts, gap) && gap + LongestWait(c) <= WRAP
    requires |ts| >= c.Attempts() * PerAttempt(c)
    ensures ReportsOnce(Statuses(Begin(p, Millis(start)), c, WrapAll(ts)))
  {
    EndsWithinBoundIff(c, gap);
    IdleHasReported(Begin(p, Millis(start)), c, WrapAll(ts));
  }

  /** The bound on a send's length holds exactly when no pause between polls can
      carry the 32 bit clock past the longest wait and round again. */
  lemma {:induction false} EndsWithinBoundIff(c: Config, gap: nat)
    ensures EndsWithinBound(c, gap) <==> gap + LongestWait(c) <= WRAP
  {
    if gap + LongestWait(c) <= WRAP {
      forall p: Payload, start: nat, ts: seq<Timed> |
        Paced(start, start, ts, gap) && |ts| >= c.Attempts() * PerAttempt(c)
        ensures After(Begin(p, Millis(start)), c, WrapAll(ts)).phase == Idle
      {
        RunEnds(Begin(p, Millis(start)), c, start, start, start, ts, gap);
      }
    } else {
      var p := Payload(0, Sample(0, 0, 0, 0), Ids(0, 0, 0));
      var ts := OutlastsAnyBound(c, p, gap, c.Attempts() * PerAttempt(c));
      assert Millis(0) == 0;
    }
  }
}
