/** Exactly when the substation's duplicate check keeps buffering at most once. */
module Repeats {
  import opened Wire
  import opened StationSpec
  import opened StationRuns
  import B = BufferSpec
  import L = LoRaSpec

  // ------------------------------------------------------- what a run marks a MAC with

  /** A number acknowledged, or the last number forgotten. */
  datatype Mark = Number(n: U32) | Forget

  /** The last number remembered for a MAC. */
  function LastOf(s: Station, mac: Mac): Option<U32> {
    var k := FindJoined(s.joined, mac, 0);
    if k < |s.joined| && s.joined[k].hasSeq then Some(s.joined[k].lastSeq) else None
  }

  /** A reading of this MAC that is acknowledged, buffered or not. */
  predicate Acknowledges(s: Station, e: Event, mac: Mac) {
    e.ReadingFrame? && e.mac == mac && (Buffers(s, mac, e.p) || Duplicate(s, mac, e.p))
  }

  /** A Join by which a MAC in the table changes its UID. */
  predicate Forgets(s: Station, e: Event, mac: Mac) {
    && e.JoinFrame? && e.mac == mac && e.epoch == s.epoch && HasJoined(s, mac)
    && s.joined[FindJoined(s.joined, mac, 0)].uid != e.uid
  }

  function MarkOf(s: Station, e: Event, mac: Mac): seq<Mark> {
    if Acknowledges(s, e, mac) then [Number(e.p.sample.seqNo)] else if Forgets(s, e, mac) then [Forget] else []
  }

  function MarksIn(s: Station, c: L.Config, es: seq<Event>, mac: Mac): seq<Mark>
    requires Valid(s, c)
    decreases |es|
  {
    if es == [] then []
    else (NextValid(s, c, es[0]); MarkOf(s, es[0], mac) + MarksIn(Next(s, c, es[0]), c, es[1..], mac))
  }

  /** What one MAC pushed. */
  function PushedBy(pushed: seq<(Mac, U32)>, mac: Mac): seq<U32> {
    if pushed == [] then []
    else (if pushed[0].0 == mac then [pushed[0].1] else []) + PushedBy(pushed[1..], mac)
  }

  /** Numbers with each one left out that repeats the last. */
  function Dedup(last: Option<U32>, ms: seq<Mark>): seq<U32>
    decreases |ms|
  {
    if ms == [] then []
    else
      match ms[0]
      case Forget => Dedup(None, ms[1..])
      case Number(n) => if last == Some(n) then Dedup(last, ms[1..]) else [n] + Dedup(Some(n), ms[1..])
  }

  ghost predicate Distinct(ns: seq<U32>) {
    forall i, j :: 0 <= i < j < |ns| ==> ns[i] != ns[j]
  }

  /** No number comes back with anything else in between. */
  ghost predicate NoneComesBack(ms: seq<Mark>) {
    forall i, j, k :: 0 <= i < j < k < |ms| && ms[i].Number? && ms[i] == ms[k] ==> ms[j] == ms[i]
  }

  // --------------------------------------------------------- leaving out repeats

  lemma {:induction false} DedupKeeps(last: Option<U32>, ms: seq<Mark>, v: U32)
    requires last != Some(v)
    ensures v in Dedup(last, ms) <==> Number(v) in ms
    decreases |ms|
  {
    if ms != [] {
      assert ms == [ms[0]] + ms[1..];
      if ms[0].Forget? {
        DedupKeeps(None, ms[1..], v);
      } else if ms[0].n != v {
        DedupKeeps(Some(ms[0].n), ms[1..], v);
      }
    }
  }

  lemma {:induction false} DistinctCons(x: U32, ns: seq<U32>)
    ensures Distinct([x] + ns) <==> x !in ns && Distinct(ns)
  {
    var s := [x] + ns;
    if Distinct(s) {
      forall i, j | 0 <= i < j < |ns| ensures ns[i] != ns[j] { assert s[i + 1] != s[j + 1]; }
      forall j | 0 <= j < |ns| ensures ns[j] != x { assert s[0] != s[j + 1]; }
    }
  }

  /** What is cut off the front brings nothing back. */
  lemma {:induction false} ComesBackTail(m: Mark, ms: seq<Mark>)
    requires NoneComesBack([m] + ms)
    ensures NoneComesBack(ms)
  {
    var s := [m] + ms;
    forall i, j, k | 0 <= i < j < k < |ms| && ms[i].Number? && ms[i] == ms[k] ensures ms[j] == ms[i] {
      assert s[i + 1] == s[k + 1] && s[j + 1] == ms[j];
    }
  }

  lemma {:induction false} ComesBackForget(ms: seq<Mark>)
    ensures NoneComesBack([Forget] + ms) <==> NoneComesBack(ms)
  {
    var s := [Forget] + ms;
    if NoneComesBack(s) { ComesBackTail(Forget, ms); }
    if NoneComesBack(ms) {
      forall i, j, k | 0 <= i < j < k < |s| && s[i].Number? && s[i] == s[k] ensures s[j] == s[i] {
        assert s[i] == ms[i - 1] && s[j] == ms[j - 1] && s[k] == ms[k - 1];
      }
    }
  }

  lemma {:induction false} ComesBackSame(m: Mark, ms: seq<Mark>)
    requires ms != [] && ms[0] == m
    ensures NoneComesBack([m] + ms) <==> NoneComesBack(ms)
  {
    var s := [m] + ms;
    if NoneComesBack(s) { ComesBackTail(m, ms); }
    if NoneComesBack(ms) {
      forall i, j, k | 0 <= i < j < k < |s| && s[i].Number? && s[i] == s[k] ensures s[j] == s[i] {
        if i > 0 {
          assert s[i] == ms[i - 1] && s[j] == ms[j - 1] && s[k] == ms[k - 1];
        } else if j > 1 {
          assert ms[0] == ms[k - 1] && s[j] == ms[j - 1];
        }
      }
    }
  }

  lemma {:induction false} BackAt(ms: seq<Mark>, i: nat, j: nat, k: nat)
    requires NoneComesBack(ms) && i < j < k < |ms| && ms[i].Number?
    ensures ms[i] == ms[k] ==> ms[j] == ms[i]
  {}

  lemma {:induction false} ComesBackOther(m: Mark, ms: seq<Mark>)
    requires m.Number? && ms != [] && ms[0] != m
    ensures NoneComesBack([m] + ms) <==> m !in ms && NoneComesBack(ms)
  {
    var s := [m] + ms;
    if NoneComesBack(s) {
      ComesBackTail(m, ms);
      forall k | 0 <= k < |ms| ensures ms[k] != m {
        if k > 0 { BackAt(s, 0, 1, k + 1); }
      }
    }
    if m !in ms && NoneComesBack(ms) {
      forall i, j, k | 0 <= i < j < k < |s| && s[i].Number? && s[i] == s[k] ensures s[j] == s[i] {
        assert s[k] == ms[k - 1] && s[j] == ms[j - 1];
        if i > 0 { assert s[i] == ms[i - 1]; }
      }
    }
  }

  lemma {:induction false} DedupFrom(x: U32, ms: seq<Mark>)
    ensures Distinct([x] + Dedup(Some(x), ms)) <==> NoneComesBack([Number(x)] + ms)
    decreases |ms|
  {
    if ms != [] {
      var rest := ms[1..];
      assert ms == [ms[0]] + rest;
      if ms[0] == Number(x) {
        DedupFrom(x, rest);
        ComesBackSame(Number(x), ms);
      } else {
        ComesBackOther(Number(x), ms);
        DistinctCons(x, Dedup(Some(x), ms));
        if ms[0].Forget? {
          DedupDistinctIff(rest);
          ComesBackForget(rest);
          DedupKeeps(None, rest, x);
        } else {
          DedupFrom(ms[0].n, rest);
          DedupKeeps(Some(ms[0].n), rest, x);
        }
      }
    }
  }

  /** Leaving out repeats makes numbers distinct exactly when none comes back. */
  lemma {:induction false} DedupDistinctIff(ms: seq<Mark>)
    ensures Distinct(Dedup(None, ms)) <==> NoneComesBack(ms)
    decreases |ms|
  {
    if ms != [] {
      assert ms == [ms[0]] + ms[1..];
      if ms[0].Forget? {
        DedupDistinctIff(ms[1..]);
        ComesBackForget(ms[1..]);
      } else {
        DedupFrom(ms[0].n, ms[1..]);
      }
    }
  }

  // ------------------------------------------------------------- pushes and marks

  /** A reading acknowledged is pushed unless it repeats the last number, which it
      becomes; a changed UID forgets it; nothing else pushes for this MAC or changes it. */
  lemma {:induction false} MarkStep(s: Station, c: L.Config, e: Event, mac: Mac)
    requires Valid(s, c)
    ensures Acknowledges(s, e, mac) ==>
      && LastOf(Next(s, c, e), mac) == Some(e.p.sample.seqNo)
      && Pushes(s, e) == (if LastOf(s, mac) == Some(e.p.sample.seqNo) then [] else [(mac, e.p.sample.seqNo)])
    ensures Forgets(s, e, mac) ==> LastOf(Next(s, c, e), mac) == None && Pushes(s, e) == []
    ensures !Acknowledges(s, e, mac) && !Forgets(s, e, mac) ==>
      && LastOf(Next(s, c, e), mac) == LastOf(s, mac)
      && (Pushes(s, e) == [] || Pushes(s, e)[0].0 != mac)
  {
    NextValid(s, c, e);
    var before, after := s.joined, Next(s, c, e).joined;
    var k := FindJoined(before, mac, 0);
    if k < |before| {
      assert after[k].mac == mac;
      FindsEach(after, k);
    } else {
      var j := FindJoined(after, mac, 0);
      assert j < |after| ==> j == |before|;
    }
  }

  lemma {:induction false} PushedByStep(first: seq<(Mac, U32)>, rest: seq<(Mac, U32)>, mac: Mac)
    requires |first| <= 1
    ensures PushedBy(first + rest, mac)
      == (if first != [] && first[0].0 == mac then [first[0].1] else []) + PushedBy(rest, mac)
  {
    if first == [] {
      assert first + rest == rest;
    } else {
      assert (first + rest)[1..] == rest;
    }
  }

  lemma {:induction false} DedupStep(last: Option<U32>, mark: seq<Mark>, rest: seq<Mark>)
    requires |mark| <= 1
    ensures Dedup(last, mark + rest) ==
      if mark == [] then Dedup(last, rest)
      else if mark[0].Forget? then Dedup(None, rest)
      else (if last == Some(mark[0].n) then [] else [mark[0].n]) + Dedup(Some(mark[0].n), rest)
  {
    if mark == [] {
      assert mark + rest == rest;
    } else {
      assert (mark + rest)[1..] == rest;
    }
  }

  /** What a MAC pushes is what it is acknowledged for, less what repeats the last number. */
  lemma {:induction false} PushesAreDedup(s: Station, c: L.Config, es: seq<Event>, mac: Mac)
    requires Valid(s, c)
    ensures PushedBy(PushesIn(s, c, es), mac) == Dedup(LastOf(s, mac), MarksIn(s, c, es, mac))
    decreases |es|
  {
    if es != [] {
      var s' := Next(s, c, es[0]);
      NextValid(s, c, es[0]);
      MarkStep(s, c, es[0], mac);
      PushesAreDedup(s', c, es[1..], mac);
      PushedByStep(Pushes(s, es[0]), PushesIn(s', c, es[1..]), mac);
      DedupStep(LastOf(s, mac), MarkOf(s, es[0], mac), MarksIn(s', c, es[1..], mac));
    }
  }

  /** Exactly when buffering is at most once: from any state that remembers no number for
      a MAC, whatever it and the others send, its numbers are pushed at most once each if
      and only if no number it is acknowledged for comes back with anything else in
      between, be it another number or a change of its UID. */
  lemma {:induction false} AtMostOnceIff(s: Station, c: L.Config, es: seq<Event>, mac: Mac)
    requires Valid(s, c) && LastOf(s, mac) == None
    ensures Distinct(PushedBy(PushesIn(s, c, es), mac)) <==> NoneComesBack(MarksIn(s, c, es, mac))
  {
    PushesAreDedup(s, c, es, mac);
    DedupDistinctIff(MarksIn(s, c, es, mac));
  }

  /** The same over whole runs from boot, with nothing assumed. */
  lemma {:induction false} AtMostOnceFromBootIff(c: L.Config, epoch: U32, es: seq<Event>, mac: Mac)
    ensures Valid(Boot(epoch), c)
    ensures Distinct(PushedBy(PushesIn(Boot(epoch), c, es), mac)) <==> NoneComesBack(MarksIn(Boot(epoch), c, es, mac))
  {
    AtMostOnceIff(Boot(epoch), c, es, mac);
  }

  // --------------------------------------------------- the condition on the input alone

  /** The UID a MAC in the table has joined with. */
  function UidOf(s: Station, mac: Mac): Uid
    requires HasJoined(s, mac)
  {
    s.joined[FindJoined(s.joined, mac, 0)].uid
  }

  predicate Rejoins(e: Event, mac: Mac, epoch: U32) { e.JoinFrame? && e.mac == mac && e.epoch == epoch }

  /** The marks of a MAC that is joined with `uid`, read off what is sent. */
  function SentMarks(es: seq<Event>, mac: Mac, epoch: U32, uid: Uid): seq<Mark>
    decreases |es|
  {
    if es == [] then []
    else
      var e := es[0];
      (if e.ReadingFrame? && e.mac == mac then [Number(e.p.sample.seqNo)]
       else if Rejoins(e, mac, epoch) && e.uid != uid then [Forget] else [])
      + SentMarks(es[1..], mac, epoch, if Rejoins(e, mac, epoch) then e.uid else uid)
  }

  lemma {:induction false} StaysJoined(s: Station, c: L.Config, e: Event, mac: Mac)
    requires Valid(s, c) && HasJoined(s, mac)
    ensures HasJoined(Next(s, c, e), mac) && Next(s, c, e).epoch == s.epoch
    ensures UidOf(Next(s, c, e), mac) == if Rejoins(e, mac, s.epoch) then e.uid else UidOf(s, mac)
  {
    NextValid(s, c, e);
    var k := FindJoined(s.joined, mac, 0);
    assert Next(s, c, e).joined[k].mac == mac;
    FindsEach(Next(s, c, e).joined, k);
  }

  lemma {:induction false} JoinedAreMarked(s: Station, c: L.Config, es: seq<Event>, mac: Mac)
    requires Valid(s, c) && HasJoined(s, mac) && NoneRefused(s, c, es)
    ensures MarksIn(s, c, es, mac) == SentMarks(es, mac, s.epoch, UidOf(s, mac))
    decreases |es|
  {
    if es != [] {
      NextValid(s, c, es[0]);
      StaysJoined(s, c, es[0], mac);
      JoinedAreMarked(Next(s, c, es[0]), c, es[1..], mac);
    }
  }

  /** For a joined MAC of which the buffer refuses nothing, the condition is on what is
      sent alone. */
  lemma {:induction false} JoinedAtMostOnceIff(s: Station, c: L.Config, es: seq<Event>, mac: Mac)
    requires Valid(s, c) && HasJoined(s, mac) && LastOf(s, mac) == None && NoneRefused(s, c, es)
    ensures Distinct(PushedBy(PushesIn(s, c, es), mac)) <==> NoneComesBack(SentMarks(es, mac, s.epoch, UidOf(s, mac)))
  {
    AtMostOnceIff(s, c, es, mac);
    JoinedAreMarked(s, c, es, mac);
  }

  /** The numbers of a MAC's readings, as marks. */
  function NumbersOf(es: seq<Event>, mac: Mac): seq<Mark> {
    if es == [] then []
    else
      (if es[0].ReadingFrame? && es[0].mac == mac then [Number(es[0].p.sample.seqNo)] else [])
      + NumbersOf(es[1..], mac)
  }

  lemma {:induction false} OneUidForgetsNothing(es: seq<Event>, mac: Mac, epoch: U32, uid: Uid)
    requires forall e :: e in es && e.JoinFrame? && e.mac == mac ==> e.uid == uid
    ensures SentMarks(es, mac, epoch, uid) == NumbersOf(es, mac)
    decreases |es|
  {
    if es != [] {
      assert es[0] in es && forall e :: e in es[1..] ==> e in es;
      OneUidForgetsNothing(es[1..], mac, epoch, uid);
    }
  }

  /** With one UID for each MAC nothing is refused or forgotten, so then a joined MAC's
      numbers are pushed at most once each if and only if none comes back after a
      different one. */
  lemma {:induction false} OneUidAtMostOnceIff(s: Station, c: L.Config, es: seq<Event>, uidOf: Mac -> Uid, mac: Mac)
    requires Valid(s, c) && TableUids(s, uidOf) && BufferedAreJoined(s) && SendsOwnUid(es, uidOf)
    requires HasJoined(s, mac) && LastOf(s, mac) == None
    ensures Distinct(PushedBy(PushesIn(s, c, es), mac)) <==> NoneComesBack(NumbersOf(es, mac))
  {
    RoomRun(s, c, es, uidOf);
    OneUidForgetsNothing(es, mac, s.epoch, UidOf(s, mac));
    JoinedAtMostOnceIff(s, c, es, mac);
  }

  // ------------------------------------------------------------- the two ways to fail

  lemma {:induction false} BuffersThen(s: Station, c: L.Config, mac: Mac, p: Payload)
    requires Valid(s, c) && Buffers(s, mac, p)
    ensures var s' := HandleReading(s, mac, p).0;
      && Valid(s', c) && HasJoined(s', mac) && B.Accepts(s'.buffer, p.uid)
      && s'.epoch == s.epoch && UidOf(s', mac) == UidOf(s, mac)
      && forall q: Payload :: Duplicate(s', mac, q) <==> q.sample.seqNo == p.sample.seqNo
  {
    NextValid(s, c, ReadingFrame(mac, p));
    B.PushQueues(s.buffer, p);
    var k := FindJoined(s.joined, mac, 0);
    FindsEach(HandleReading(s, mac, p).0.joined, k);
    B.InHolders(HandleReading(s, mac, p).0.buffer.slots, p.uid, 0);
  }

  /** Out of order: any resend overtaken by another reading of its node is buffered a
      second time, since only the last number is compared. */
  lemma {:induction false} OvertakenResendIsBufferedTwice(s: Station, c: L.Config, mac: Mac, p: Payload, q: Payload)
    requires Valid(s, c) && Buffers(s, mac, p) && q.uid == p.uid && q.sample.seqNo != p.sample.seqNo
    ensures var (m, n) := (p.sample.seqNo, q.sample.seqNo);
      PushesIn(s, c, [ReadingFrame(mac, p), ReadingFrame(mac, q), ReadingFrame(mac, p)])
      == [(mac, m), (mac, n), (mac, m)]
  {
    var es := [ReadingFrame(mac, p), ReadingFrame(mac, q), ReadingFrame(mac, p)];
    BuffersThen(s, c, mac, p);
    var s1 := Next(s, c, es[0]);
    BuffersThen(s1, c, mac, q);
    var s2 := Next(s1, c, es[1]);
    BuffersThen(s2, c, mac, p);
    var s3 := Next(s2, c, es[2]);
    assert es[1..] == [es[1], es[2]] && es[1..][1..] == [es[2]] && es[1..][1..][1..] == [];
    assert PushesIn(s2, c, [es[2]]) == [(mac, p.sample.seqNo)] + PushesIn(s3, c, []);
  }

  lemma {:induction false} ForgetsThen(s: Station, c: L.Config, mac: Mac, uid: Uid, peerOk: bool)
    requires Valid(s, c) && HasJoined(s, mac) && UidOf(s, mac) != uid
    ensures var s' := HandleJoin(s, mac, s.epoch, uid, peerOk).0;
      Valid(s', c) && HasJoined(s', mac) && s'.buffer == s.buffer && forall q: Payload :: !Duplicate(s', mac, q)
  {
    var e := JoinFrame(mac, s.epoch, uid, peerOk);
    NextValid(s, c, e);
    StaysJoined(s, c, e, mac);
    MarkStep(s, c, e, mac);
  }

  /** Under another UID: any resend after its MAC has joined under another UID is buffered
      a second time, with no other reading in between. */
  lemma {:induction false} RejoinedResendIsBufferedTwice(s: Station, c: L.Config, mac: Mac, p: Payload, uid: Uid,
          peerOk: bool)
    requires Valid(s, c) && Buffers(s, mac, p) && UidOf(s, mac) != uid
    ensures var n := p.sample.seqNo;
      PushesIn(s, c, [ReadingFrame(mac, p), JoinFrame(mac, s.epoch, uid, peerOk), ReadingFrame(mac, p)])
      == [(mac, n), (mac, n)]
  {
    var es := [ReadingFrame(mac, p), JoinFrame(mac, s.epoch, uid, peerOk), ReadingFrame(mac, p)];
    BuffersThen(s, c, mac, p);
    var s1 := Next(s, c, es[0]);
    ForgetsThen(s1, c, mac, uid, peerOk);
    var s2 := Next(s1, c, es[1]);
    BuffersThen(s2, c, mac, p);
    var s3 := Next(s2, c, es[2]);
    assert es[1..] == [es[1], es[2]] && es[1..][1..] == [es[2]] && es[1..][1..][1..] == [];
    assert PushesIn(s2, c, [es[2]]) == [(mac, p.sample.seqNo)] + PushesIn(s3, c, []);
  }

  /** The other way round: a new reading under the number last acknowledged for its MAC is
      acknowledged too, and dropped. */
  lemma {:induction false} ReusedNumberIsDropped(s: Station, c: L.Config, mac: Mac, p: Payload, q: Payload)
    requires Valid(s, c) && Buffers(s, mac, p) && q.sample.seqNo == p.sample.seqNo
    ensures var s' := HandleReading(s, mac, p).0;
      HandleReading(s', mac, q) == (s', Some(q.ToReading().Key()))
  {
    BuffersThen(s, c, mac, p);
  }
}
