/** Beacons on the wrapping 32 bit clock, against real time. */
module StationTiming {
  import opened Wire
  import opened Clock
  import opened StationSpec
  import B = BufferSpec
  import L = LoRaSpec

  /** One pass of the main loop: when beaconIfDue() tests the clock, and when it
      reads it again to set the next deadline. */
  datatype Pass = Pass(now: nat, after: nat)

  /** Passes start in order, at most `gap` ms apart. */
  ghost predicate Spaced(last: Pass, ps: seq<Pass>, gap: nat)
    decreases |ps|
  {
    ps != [] ==>
      && last.after <= ps[0].now <= last.now + gap && ps[0].now <= ps[0].after
      && Spaced(ps[0], ps[1..], gap)
  }

  /** Which passes send a beacon. */
  function Beacons(s: Station, ps: seq<Pass>): (sent: seq<bool>)
    ensures |sent| == |ps|
    decreases |ps|
  {
    if ps == [] then [] else
    var r := BeaconIfDue(s, Millis(ps[0].now), Millis(ps[0].after));
    [r.1] + Beacons(r.0, ps[1..])
  }

  /** Which passes would send one if the clock never wrapped. */
  function BeaconsDue(deadline: nat, ps: seq<Pass>): (sent: seq<bool>)
    ensures |sent| == |ps|
    decreases |ps|
  {
    if ps == [] then []
    else if ps[0].now < deadline then [false] + BeaconsDue(deadline, ps[1..])
    else [true] + BeaconsDue(ps[0].after + 1_000, ps[1..])
  }

  /** The signed 32 bit test agrees with unbounded time across any number of wraps, as
      long as passes are at most 2^31 ms apart and the first one is that soon. */
  lemma {:induction false} BeaconTestSurvivesWrap(s: Station, deadline: nat, ps: seq<Pass>, last: Pass)
    requires s.nextBeaconAt == Millis(deadline) && Spaced(last, ps, HALF)
    requires deadline <= last.after + 1_000
    requires ps != [] ==> ps[0].now < deadline + HALF
    ensures Beacons(s, ps) == BeaconsDue(deadline, ps)
    decreases |ps|
  {
    if ps != [] {
      BeforeAgrees(ps[0].now, deadline);
      LaterIsMillis(ps[0].after, 1_000);
      var r := BeaconIfDue(s, Millis(ps[0].now), Millis(ps[0].after));
      var deadline' := if ps[0].now < deadline then deadline else ps[0].after + 1_000;
      BeaconTestSurvivesWrap(r.0, deadline', ps[1..], ps[0]);
    }
  }

  /** A pass sends no beacon only while the last one is under 1000 ms old. */
  ghost predicate Covered(sent: seq<bool>, ps: seq<Pass>, j: nat)
    requires |sent| == |ps| && j < |ps|
  {
    exists i :: 0 <= i < j && sent[i] && ps[j].now < ps[i].after + 1_000
  }

  /** What a real clock gives: no beacon before the deadline, none within 1000 ms of
      another, and one on every pass not covered by an earlier one. */
  ghost predicate WellTimed(sent: seq<bool>, deadline: nat, ps: seq<Pass>)
    requires |sent| == |ps|
  {
    && (forall j :: 0 <= j < |ps| && sent[j] ==> deadline <= ps[j].now)
    && (forall i, j :: 0 <= i < j < |ps| && sent[i] && sent[j] ==> ps[i].after + 1_000 <= ps[j].now)
    && (forall j :: 0 <= j < |ps| && !sent[j] ==> ps[j].now < deadline || Covered(sent, ps, j))
  }

  lemma {:induction false} DueTiming(deadline: nat, ps: seq<Pass>, last: Pass, gap: nat)
    requires Spaced(last, ps, gap)
    ensures WellTimed(BeaconsDue(deadline, ps), deadline, ps)
    decreases |ps|
  {
    if ps != [] {
      var due := ps[0].now >= deadline;
      var deadline' := if due then ps[0].after + 1_000 else deadline;
      DueTiming(deadline', ps[1..], ps[0], gap);
      LaterPasses(ps[0], ps[1..], gap);
      WellTimedCons(BeaconsDue(deadline', ps[1..]), deadline, deadline', ps);
      assert BeaconsDue(deadline, ps) == [due] + BeaconsDue(deadline', ps[1..]);
    }
  }

  lemma {:induction false} WellTimedCons(rest: seq<bool>, deadline: nat, deadline': nat, ps: seq<Pass>)
    requires ps != [] && |rest| == |ps| - 1 && WellTimed(rest, deadline', ps[1..])
    requires forall j :: 0 < j < |ps| ==> ps[0].after <= ps[j].now
    requires ps[0].now <= ps[0].after
    requires deadline' == if ps[0].now >= deadline then ps[0].after + 1_000 else deadline
    ensures WellTimed([ps[0].now >= deadline] + rest, deadline, ps)
  {
    var sent := [ps[0].now >= deadline] + rest;
    forall j | 0 <= j < |ps| && !sent[j] ensures ps[j].now < deadline || Covered(sent, ps, j) {
      if j > 0 {
        assert ps[j] == ps[1..][j - 1] && sent[j] == rest[j - 1];
        if Covered(rest, ps[1..], j - 1) {
          var i :| 0 <= i < j - 1 && rest[i] && ps[1..][j - 1].now < ps[1..][i].after + 1_000;
          assert sent[i + 1] && ps[i + 1] == ps[1..][i];
        } else if sent[0] {
          assert ps[j].now < ps[0].after + 1_000;
        }
      }
    }
    forall j | 0 <= j < |ps| && sent[j] ensures deadline <= ps[j].now {
      if j > 0 {
        assert ps[j] == ps[1..][j - 1] && rest[j - 1];
      }
    }
    forall i, j | 0 <= i < j < |ps| && sent[i] && sent[j]
      ensures ps[i].after + 1_000 <= ps[j].now
    {
      assert ps[j] == ps[1..][j - 1] && rest[j - 1];
      if i > 0 {
        assert ps[i] == ps[1..][i - 1] && rest[i - 1];
      }
    }
  }

  lemma {:induction false} LaterPasses(last: Pass, ps: seq<Pass>, gap: nat)
    requires Spaced(last, ps, gap)
    ensures forall j :: 0 <= j < |ps| ==> last.after <= ps[j].now <= ps[j].after
    decreases |ps|
  {
    if ps != [] {
      LaterPasses(ps[0], ps[1..], gap);
    }
  }

  /** Beacon timing from boot, as far as RightFromBootIff allows: the first pass sends one, any two are at least 1000 ms
      apart, and a pass that sends none has one within the last 1000 ms behind it. */
  lemma {:induction false} BeaconTiming(epoch: U32, ps: seq<Pass>)
    requires Spaced(Pass(0, 0), ps, HALF - 1)
    ensures WellTimed(Beacons(Boot(epoch), ps), 0, ps)
    ensures ps != [] ==> Beacons(Boot(epoch), ps)[0]
  {
    SpacedWider(Pass(0, 0), ps, HALF - 1, HALF);
    BeaconTestSurvivesWrap(Boot(epoch), 0, ps, Pass(0, 0));
    DueTiming(0, ps, Pass(0, 0), HALF);
  }

  lemma {:induction false} SpacedWider(last: Pass, ps: seq<Pass>, gap: nat, gap': nat)
    requires gap <= gap' && Spaced(last, ps, gap)
    ensures Spaced(last, ps, gap')
    decreases |ps|
  {
    if ps != [] {
      SpacedWider(ps[0], ps[1..], gap, gap');
    }
  }

  /** One millisecond more between two passes and a due beacon can be missed. */
  lemma {:induction false} BeaconMissedBeyondHalfTurn(epoch: U32)
    ensures var ps := [Pass(0, 0), Pass(999, 999), Pass(1000 + HALF, 1000 + HALF)];
      && Spaced(Pass(0, 0), ps, HALF + 1)
      && Beacons(Boot(epoch), ps) == [true, false, false]
      && BeaconsDue(0, ps) == [true, false, true]
  {
    var ps := [Pass(0, 0), Pass(999, 999), Pass(1000 + HALF, 1000 + HALF)];
    assert ps[1..] == [ps[1], ps[2]] && ps[1..][1..] == [ps[2]] && ps[1..][1..][1..] == [];
    assert Spaced(ps[2], [], HALF + 1) && Spaced(ps[1], [ps[2]], HALF + 1);
    var s1 := BeaconIfDue(Boot(epoch), 0, 0).0;
    assert s1.nextBeaconAt == 1000;
    assert Before(999, 1000) && Before(Millis(1000 + HALF), 1000);
    assert Beacons(s1, [ps[1], ps[2]]) == [false] + Beacons(s1, [ps[2]]);
    assert Beacons(s1, [ps[2]]) == [false] + Beacons(s1, []);
    assert BeaconsDue(1000, [ps[2]]) == [true] + BeaconsDue(1000 + HALF + 1000, []);
    assert BeaconsDue(1000, [ps[1], ps[2]]) == [false] + BeaconsDue(1000, [ps[2]]);
  }

  /** The wrapped test is right for every run with passes at most `gap` ms apart, from any
      state whose deadline the first pass finds less than 2^31 ms past. */
  ghost predicate TestIsRight(gap: nat) {
    forall s: Station, deadline: nat, ps: seq<Pass>, last: Pass ::
      s.nextBeaconAt == Millis(deadline) && Spaced(last, ps, gap) && deadline <= last.after + 1_000
      && (ps != [] ==> ps[0].now < deadline + HALF)
      ==> Beacons(s, ps) == BeaconsDue(deadline, ps)
  }

  /** That holds exactly up to half a turn of the clock. */
  lemma {:induction false} TestIsRightIff(gap: nat)
    ensures TestIsRight(gap) <==> gap <= HALF
  {
    if gap <= HALF {
      forall s: Station, deadline: nat, ps: seq<Pass>, last: Pass
        | s.nextBeaconAt == Millis(deadline) && Spaced(last, ps, gap) && deadline <= last.after + 1_000
          && (ps != [] ==> ps[0].now < deadline + HALF)
        ensures Beacons(s, ps) == BeaconsDue(deadline, ps)
      {
        SpacedWider(last, ps, gap, HALF);
        BeaconTestSurvivesWrap(s, deadline, ps, last);
      }
    } else {
      var ps := [Pass(0, 0), Pass(999, 999), Pass(1000 + HALF, 1000 + HALF)];
      BeaconMissedBeyondHalfTurn(0);
      SpacedWider(Pass(0, 0), ps, HALF + 1, gap);
      assert Boot(0).nextBeaconAt == Millis(0);
      assert Beacons(Boot(0), ps) != BeaconsDue(0, ps);
    }
  }

  /** From boot on, for every run with passes at most `gap` ms apart. */
  ghost predicate RightFromBoot(epoch: U32, gap: nat) {
    forall ps: seq<Pass> :: Spaced(Pass(0, 0), ps, gap) ==> Beacons(Boot(epoch), ps) == BeaconsDue(0, ps)
  }

  /** Counted from boot the first beacon is due at once, so the first pass must come
      within 2^31 - 1 ms too, and the limit is 1 ms lower. */
  lemma {:induction false} RightFromBootIff(epoch: U32, gap: nat)
    ensures RightFromBoot(epoch, gap) <==> gap <= HALF - 1
  {
    if gap <= HALF - 1 {
      forall ps | Spaced(Pass(0, 0), ps, gap) ensures Beacons(Boot(epoch), ps) == BeaconsDue(0, ps) {
        SpacedWider(Pass(0, 0), ps, gap, HALF);
        BeaconTestSurvivesWrap(Boot(epoch), 0, ps, Pass(0, 0));
      }
    } else {
      var ps := [Pass(HALF, HALF)];
      assert ps[1..] == [];
      assert Spaced(Pass(0, 0), ps, gap);
      assert Before(Millis(HALF), Boot(epoch).nextBeaconAt);
      assert Beacons(Boot(epoch), ps)[0] != BeaconsDue(0, ps)[0];
    }
  }
}
