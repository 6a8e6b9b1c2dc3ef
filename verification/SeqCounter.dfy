/** The per node sequence counter, kept in non-volatile storage across reboots. */
module SeqCounters {
  import opened Wire

  /** The counter in RAM, what storage holds, and whether storage is open. */
  datatype Counter = Counter(seqNo: U32, stored: Option<U32>, open: bool)

  /** `ok` and `wrote` are whether storage opened, and whether it took the number. */
  datatype Event = PowerCycle | Begin(ok: bool) | Take(wrote: bool)

  /** What storage reads as: 0 before anything was written. */
  function Stored(c: Counter): U32 { if c.stored.Some? then c.stored.value else 0 }

  function Next(c: Counter, e: Event): Counter {
    match e
    case PowerCycle => Counter(0, c.stored, false)
    case Begin(ok) => if ok then Counter(Stored(c), c.stored, true) else c.(open := false)
    case Take(wrote) =>
      var n := (c.seqNo + 1) % 0x1_0000_0000;
      Counter(n, if c.open && wrote then Some(n) else c.stored, c.open)
  }

  function Run(c: Counter, es: seq<Event>): Counter
    decreases |es|
  {
    if es == [] then c else Run(Next(c, es[0]), es[1..])
  }

  /** Numbers handed out during a run. */
  function Numbers(c: Counter, es: seq<Event>): seq<U32>
    decreases |es|
  {
    if es == [] then []
    else (if es[0].Take? then [Next(c, es[0]).seqNo] else []) + Numbers(Next(c, es[0]), es[1..])
  }

  /** Numbers are only taken while storage is open: a node whose seqCounterBegin()
      failed idles. */
  ghost predicate TakesWhileOpen(c: Counter, es: seq<Event>)
    decreases |es|
  {
    es != [] ==> (es[0].Take? ==> c.open) && TakesWhileOpen(Next(c, es[0]), es[1..])
  }

  function Takes(es: seq<Event>): nat {
    if es == [] then 0 else (if es[0].Take? then 1 else 0) + Takes(es[1..])
  }

  ghost predicate Increasing(s: seq<U32>, above: int) {
    (forall i :: 0 <= i < |s| ==> above < s[i]) && forall i, j :: 0 <= i < j < |s| ==> s[i] < s[j]
  }

  lemma {:induction false} IncreasingCons(x: U32, rest: seq<U32>, above: int)
    requires above < x && Increasing(rest, x)
    ensures Increasing([x] + rest, above)
  {
    var s := [x] + rest;
    forall i | 0 <= i < |s| ensures above < s[i] {
      if i > 0 { assert s[i] == rest[i - 1]; }
    }
    forall i, j | 0 <= i < j < |s| ensures s[i] < s[j] {
      assert s[j] == rest[j - 1];
      if i > 0 { assert s[i] == rest[i - 1]; }
    }
  }

  /** No number is taken once storage has been read again after a write it lost; a later
      write that succeeds before that makes up for it. `lost` is whether the last write
      was lost, `stale` whether storage has been read since. */
  predicate NeverStale(es: seq<Event>, lost: bool, stale: bool)
    decreases |es|
  {
    if es == [] then true
    else
      match es[0]
      case Take(wrote) => !stale && NeverStale(es[1..], !wrote, false)
      case Begin(ok) => NeverStale(es[1..], lost, if ok then lost else stale)
      case PowerCycle => NeverStale(es[1..], lost, stale)
  }

  /** Where a run stands: `high` is the last number handed out. */
  ghost predicate Stands(c: Counter, high: int, lost: bool, stale: bool) {
    && Stored(c) <= high && (lost <==> Stored(c) < high)
    && (c.open ==> c.seqNo == if stale then Stored(c) else high) && (c.open && stale ==> lost)
  }

  function LostBy(e: Event, lost: bool): bool { if e.Take? then !e.wrote else lost }

  function StaleBy(e: Event, lost: bool, stale: bool): bool {
    match e
    case Take(_) => false
    case Begin(ok) => if ok then lost else stale
    case PowerCycle => stale
  }

  lemma {:induction false} StandsStep(c: Counter, e: Event, high: int, lost: bool, stale: bool)
    requires Stands(c, high, lost, stale) && (e.Take? ==> c.open && !stale && high + 1 < 0x1_0000_0000)
    ensures Stands(Next(c, e), if e.Take? then high + 1 else high, LostBy(e, lost), StaleBy(e, lost, stale))
    ensures e.Take? ==> Next(c, e).seqNo == high + 1
    ensures Stored(c) <= Stored(Next(c, e))
  {}

  lemma {:induction false} Rises(c: Counter, es: seq<Event>, high: int, lost: bool, stale: bool)
    requires Stands(c, high, lost, stale) && TakesWhileOpen(c, es) && NeverStale(es, lost, stale)
    requires high + Takes(es) < 0x1_0000_0000
    ensures Increasing(Numbers(c, es), high) && |Numbers(c, es)| == Takes(es)
    decreases |es|
  {
    if es != [] {
      var d, e := Next(c, es[0]), es[0];
      StandsStep(c, e, high, lost, stale);
      Rises(d, es[1..], if e.Take? then high + 1 else high, LostBy(e, lost), StaleBy(e, lost, stale));
      if e.Take? {
        IncreasingCons(d.seqNo, Numbers(d, es[1..]), high);
      } else {
        assert Numbers(c, es) == Numbers(d, es[1..]);
      }
    }
  }

  ghost predicate Distinct(s: seq<U32>) { forall i, j :: 0 <= i < j < |s| ==> s[i] != s[j] }

  /** A number from (low, high], or the same number twice. */
  ghost predicate Collides(s: seq<U32>, low: int, high: int) {
    !Distinct(s) || exists n :: n in s && low < n <= high
  }

  lemma {:induction false} CollidesCons(x: U32, rest: seq<U32>, low: int, high: int)
    requires low <= high && x == high + 1 && Collides(rest, low, high + 1)
    ensures Collides([x] + rest, low, high)
  {
    var s := [x] + rest;
    if !Distinct(rest) {
      var i, j :| 0 <= i < j < |rest| && rest[i] == rest[j];
      assert s[i + 1] == s[j + 1];
    } else {
      var n :| n in rest && low < n <= high + 1;
      var j :| 0 <= j < |rest| && rest[j] == n;
      assert s[j + 1] == n && n in s;
      if n == x {
        assert s[0] == s[j + 1];
      }
    }
  }

  lemma {:induction false} Falls(c: Counter, es: seq<Event>, low: int, high: int, lost: bool, stale: bool)
    requires Stands(c, high, lost, stale) && TakesWhileOpen(c, es) && !NeverStale(es, lost, stale)
    requires low <= Stored(c) && high + Takes(es) < 0x1_0000_0000
    ensures Collides(Numbers(c, es), low, high)
    decreases |es|
  {
    var d, e := Next(c, es[0]), es[0];
    if e.Take? && stale {
      assert d.seqNo == Stored(c) + 1 && d.seqNo in Numbers(c, es);
    } else {
      StandsStep(c, e, high, lost, stale);
      Falls(d, es[1..], low, if e.Take? then high + 1 else high, LostBy(e, lost), StaleBy(e, lost, stale));
      if e.Take? {
        CollidesCons(d.seqNo, Numbers(d, es[1..]), low, high);
      } else {
        assert Numbers(c, es) == Numbers(d, es[1..]);
      }
    }
  }

  /** Across any mix of power cycles, failed and repeated begins and lost writes, no number
      is handed out twice if and only if none is taken after storage that lost the last
      write was read again; until 2^32 have been used up. */
  lemma {:induction false} NeverRepeatsIff(c: Counter, es: seq<Event>)
    requires TakesWhileOpen(c, es) && (c.open ==> c.seqNo == Stored(c))
    requires Stored(c) + Takes(es) < 0x1_0000_0000
    ensures Distinct(Numbers(c, es)) <==> NeverStale(es, false, false)
  {
    if NeverStale(es, false, false) {
      Rises(c, es, Stored(c), false, false);
    } else {
      Falls(c, es, Stored(c), Stored(c), false, false);
    }
  }

  /** And then they keep rising from what is stored. */
  lemma {:induction false} NeverRepeats(c: Counter, es: seq<Event>)
    requires TakesWhileOpen(c, es) && (c.open ==> c.seqNo == Stored(c)) && NeverStale(es, false, false)
    requires Stored(c) + Takes(es) < 0x1_0000_0000
    ensures Increasing(Numbers(c, es), Stored(c)) && |Numbers(c, es)| == Takes(es)
  {
    Rises(c, es, Stored(c), false, false);
  }

  /** One write lost before a power cut, and the number is handed out again. */
  lemma {:induction false} LostWriteRepeats(c: Counter)
    requires !c.open && Stored(c) + 1 < 0x1_0000_0000
    ensures var es := [Begin(true), Take(false), PowerCycle, Begin(true), Take(true)];
      TakesWhileOpen(c, es) && Numbers(c, es) == [Stored(c) + 1, Stored(c) + 1]
  {
    var es := [Begin(true), Take(false), PowerCycle, Begin(true), Take(true)];
    var c1 := Next(c, es[0]);
    var c2 := Next(c1, es[1]);
    var c3 := Next(c2, es[2]);
    var c4 := Next(c3, es[3]);
    assert es[1..][1..] == es[2..] && es[2..][1..] == es[3..] && es[3..][1..] == es[4..] && es[4..][1..] == [];
    assert Numbers(c4, es[4..]) == [Stored(c) + 1];
    assert Numbers(c2, es[2..]) == [Stored(c) + 1];
    assert TakesWhileOpen(c4, es[4..]) && TakesWhileOpen(c3, es[3..]) && TakesWhileOpen(c2, es[2..]);
  }

  /** Storage: survives the objects that use it. */
  class Preferences {
    var value: Option<U32>

    constructor ()
      ensures value == None
    {
      value := None;
    }
  }

  class SeqCounter {
    const prefs: Preferences
    var open: bool
    var seqNo: U32

    ghost function Model(): Counter
      reads this, prefs
    {
      Counter(seqNo, prefs.value, open)
    }

    /** Power-up: RAM is zero, storage is as it was left. */
    constructor (prefs: Preferences)
      ensures this.prefs == prefs && Model() == Counter(0, prefs.value, false)
    {
      this.prefs := prefs;
      open, seqNo := false, 0;
    }

    /** seqCounterBegin(): `opens` is whether storage can be opened. */
    method SeqCounterBegin(opens: bool) returns (ok: bool)
      modifies this
      ensures ok == opens && Model() == Next(old(Model()), Begin(opens))
    {
      open := false;
      if !opens {
        return false;
      }
      open := true;
      seqNo := if prefs.value.Some? then prefs.value.value else 0;
      return true;
    }

    /** seqNext(): `writes` is whether storage takes the number, which is never asked. */
    method SeqNext(writes: bool) returns (n: U32)
      modifies this, prefs
      ensures Model() == Next(old(Model()), Take(writes)) && n == seqNo
    {
      seqNo := (seqNo + 1) % 0x1_0000_0000;
      if open && writes {
        prefs.value := Some(seqNo);
      }
      n := seqNo;
    }
  }
}
