/** The 32 bit millisecond counter, and the signed and unsigned comparisons made on it. */
module Clock {
  import opened Wire

  const WRAP: nat := 0x1_0000_0000
  const HALF: nat := 0x8000_0000

  /** millis() at unbounded time t. */
  function Millis(t: nat): U32 { t % WRAP }

  /** Unsigned difference `a - b` on the wrapping counter. */
  function Since(a: U32, b: U32): U32 { (a - b) % WRAP }

  /** `static_cast<long>(a - b) < 0`: the wrapping difference read as signed. */
  predicate Before(a: U32, b: U32) { Since(a, b) >= HALF }

  /** millis() + ms on the wrapping counter. */
  function Later(a: U32, ms: nat): U32 { (a + ms) % WRAP }

  lemma {:induction false} SinceIsElapsed(t: nat, s: nat)
    requires s <= t < s + WRAP
    ensures Since(Millis(t), Millis(s)) == t - s
  {}

  lemma {:induction false} SinceAdvances(t: nat, jump: nat, b: U32)
    ensures Since(Millis(t + jump), b) == (Since(Millis(t), b) + jump) % WRAP
  {}

  lemma {:induction false} LaterIsMillis(t: nat, ms: nat)
    ensures Later(Millis(t), ms) == Millis(t + ms)
  {}

  /** A deadline that far past looks past: its age, less any whole turns of the counter,
      is under half a turn. */
  predicate LooksPast(age: nat) { age % WRAP < HALF }

  /** The signed test agrees with real time exactly while the deadline is still ahead, or
      is past and looks past. Less than 2^31 ms past it always does. */
  lemma {:induction false} BeforeAgrees(t: nat, deadline: nat)
    requires deadline <= t + HALF
    ensures (Before(Millis(t), Millis(deadline)) <==> t < deadline) <==> t < deadline || LooksPast(t - deadline)
  {
    SinceIsDifference(t, deadline);
    if t < deadline {
      assert (t - deadline) % WRAP == t - deadline + WRAP;
    }
  }

  lemma {:induction false} SinceIsDifference(t: nat, s: nat)
    ensures Since(Millis(t), Millis(s)) == (t - s) % WRAP
  {
    var a, b := t / WRAP, s / WRAP;
    assert t - s == (Millis(t) - Millis(s)) + (a - b) * WRAP;
    WholeTurns(Millis(t) - Millis(s), a - b);
  }

  lemma {:induction false} WholeTurns(x: int, k: int)
    ensures (x + k * WRAP) % WRAP == x % WRAP
    decreases if k < 0 then -k else k
  {
    if k > 0 {
      WholeTurns(x, k - 1);
    } else if k < 0 {
      WholeTurns(x, k + 1);
    }
  }

  /** The unsigned difference is the distance a clock at b moves to show a. */
  lemma {:induction false} SinceIff(a: U32, b: U32, d: int)
    ensures Since(a, b) == d <==> 0 <= d < 0x1_0000_0000 && (b + d) % 0x1_0000_0000 == a
  {
    if a >= b {
      assert (a - b) % WRAP == a - b;
    } else {
      assert (a - b) % WRAP == a - b + WRAP;
    }
  }

  /** The signed one is negative exactly if a lies less than half a turn, or just half a turn,
      behind b. */
  lemma {:induction false} BeforeIff(a: U32, b: U32)
    ensures Before(a, b) <==> exists d: nat :: Behind(a, b, d)
  {
    if Before(a, b) {
      assert Behind(a, b, WRAP - Since(a, b));
    }
    forall d: nat | Behind(a, b, d) ensures Before(a, b) {
      SinceIff(a, b, 0x1_0000_0000 - d);
    }
  }

  /** b shows what a does d ms later, d at most 2^31. */
  predicate Behind(a: U32, b: U32, d: nat) { 0 < d <= 0x8000_0000 && (a + d) % 0x1_0000_0000 == b }
}
