/** Finding HDLC frames in a byte stream: DlmsCosemReader::readFrame(). */
module FrameHunt {
  import opened Wire
  import opened Layout = HdlcLayout

  datatype Hunted = Found(frame: seq<Byte>, rest: seq<Byte>) | Incomplete

  /** The high nibble of a type A format field. */
  predicate TypeNibble(b: Byte) { b & 0xF0 == TYPE_A }

  /** A flag directly followed by a type A format field. */
  predicate Opens(s: seq<Byte>) { |s| >= 2 && s[0] == FLAG && TypeNibble(s[1]) }

  /** The frame size a length field announces, if it can be a frame at all. */
  predicate CanBeFrame(length: nat) { 7 <= length && length + 2 <= FRAME_MAX }

  /** What a hunt through `s` comes to: slide to the first opening, take as many bytes as
      its length field says, and start over behind a length that cannot be a frame. */
  function Hunt(s: seq<Byte>): Hunted {
    if |s| < 3 then Incomplete
    else if !Opens(s) then Hunt(s[1..])
    else
      var length := LengthField(s[1], s[2]);
      if !CanBeFrame(length) then Hunt(s[3..])
      else if |s| < length + 2 then Incomplete
      else Found(s[..length + 2], s[length + 2..])
  }

  lemma {:induction false} NibbleIsNoFlag(b: Byte)
    ensures TypeNibble(b) ==> b != FLAG
  {}

  /** `s` is something, then x, then rest. */
  predicate PieceOf(s: seq<Byte>, x: seq<Byte>, rest: seq<Byte>) {
    |x| + |rest| <= |s| && s[|s| - |x| - |rest|..] == x + rest
  }

  lemma {:induction false} PieceOfMore(s: seq<Byte>, k: nat, x: seq<Byte>, rest: seq<Byte>)
    requires k <= |s| && PieceOf(s[k..], x, rest)
    ensures PieceOf(s, x, rest)
  {
    var t := s[k..];
    assert s[|s| - |x| - |rest|..] == t[|t| - |x| - |rest|..];
  }

  /** A frame found is a contiguous piece of the stream, and its own length field gives
      its size, which never exceeds the buffer. */
  lemma {:induction false} FoundIsPiece(s: seq<Byte>)
    requires Hunt(s).Found?
    ensures Framed(Hunt(s).frame) && 9 <= |Hunt(s).frame| <= 147
    ensures PieceOf(s, Hunt(s).frame, Hunt(s).rest)
    ensures var x := Hunt(s).frame;
      x[0] == 0x7E && x[1] & 0xF0 == 0xA0 && |x| == ((x[1] & 0x07) as int) * 256 + x[2] as int + 2
    decreases |s|
  {
    if !Opens(s) {
      FoundIsPiece(s[1..]);
      PieceOfMore(s, 1, Hunt(s).frame, Hunt(s).rest);
    } else if !CanBeFrame(LengthField(s[1], s[2])) {
      FoundIsPiece(s[3..]);
      PieceOfMore(s, 3, Hunt(s).frame, Hunt(s).rest);
    } else {
      var n := LengthField(s[1], s[2]) + 2;
      assert s == s[..n] + s[n..];
    }
  }

  /** Bytes that open, say their own size, and fit. */
  predicate Framed(x: seq<Byte>) {
    |x| >= 3 && Opens(x) && CanBeFrame(LengthField(x[1], x[2])) && |x| == LengthField(x[1], x[2]) + 2
  }

  /** Noise that never opens a frame, wherever one looks. */
  predicate Quiet(noise: seq<Byte>) {
    forall i :: 0 <= i < |noise| ==> !Opens(noise[i..])
  }

  lemma {:induction false} HuntFramed(x: seq<Byte>, rest: seq<Byte>)
    requires Framed(x)
    ensures Hunt(x + rest) == Found(x, rest)
  {
    var s := x + rest;
    assert s[0] == x[0] && s[1] == x[1] && s[2] == x[2];
    assert s[..|x|] == x && s[|x|..] == rest;
  }

  /** Quiet noise is skipped whole, and what follows it is found intact. */
  lemma {:induction false} NoiseThenFrame(noise: seq<Byte>, x: seq<Byte>, rest: seq<Byte>)
    requires Quiet(noise) && Framed(x)
    ensures Hunt(noise + x + rest) == Found(x, rest)
    decreases |noise|
  {
    var s := noise + x + rest;
    if noise == [] {
      assert s == x + rest;
      HuntFramed(x, rest);
    } else {
      var later := noise[1..];
      assert !Opens(noise[0..]) && noise[0..] == noise;
      assert s[1] == if |noise| > 1 then noise[1] else FLAG;
      NibbleIsNoFlag(FLAG);
      assert !Opens(s);
      assert forall i :: 0 <= i < |later| ==> later[i..] == noise[i + 1..];
      assert s[1..] == later + x + rest;
      NoiseThenFrame(later, x, rest);
    }
  }

  /** Every frame this protocol can build is found. */
  lemma {:induction false} EncodedIsFramed(check: Check, f: HdlcFrame)
    requires WellFormed(f) && TwoBytes(check) && Length(f) + 2 <= FRAME_MAX
    ensures Framed(FrameBytes(check, f))
  {
    var s := FrameBytes(check, f);
    PiecesIff(check, s, f);
    FormatRoundTrip(Length(f));
  }

  // ---------------------------------------------------- many frames in a stream

  /** Bursts of noise, each with a frame behind it. */
  function Stream(bursts: seq<(seq<Byte>, seq<Byte>)>, rest: seq<Byte>): seq<Byte> {
    if bursts == [] then rest else bursts[0].0 + bursts[0].1 + Stream(bursts[1..], rest)
  }

  function Frames(bursts: seq<(seq<Byte>, seq<Byte>)>): seq<seq<Byte>> {
    if bursts == [] then [] else [bursts[0].1] + Frames(bursts[1..])
  }

  /** What `n` hunts in a row return, and what they leave. */
  function HuntMany(s: seq<Byte>, n: nat): (seq<seq<Byte>>, seq<Byte>)
    decreases n
  {
    if n == 0 || Hunt(s).Incomplete? then ([], s)
    else
      var later := HuntMany(Hunt(s).rest, n - 1);
      ([Hunt(s).frame] + later.0, later.1)
  }

  /** However many frames arrive behind however much quiet noise, as many hunts return
      them all, in order, and leave exactly what follows the last. */
  lemma {:induction false} AllFramesFound(bursts: seq<(seq<Byte>, seq<Byte>)>, rest: seq<Byte>)
    requires forall b :: b in bursts ==> Quiet(b.0) && Framed(b.1)
    ensures HuntMany(Stream(bursts, rest), |bursts|) == (Frames(bursts), rest)
    decreases |bursts|
  {
    if bursts != [] {
      assert bursts[0] in bursts;
      NoiseThenFrame(bursts[0].0, bursts[0].1, Stream(bursts[1..], rest));
      AllFramesFound(bursts[1..], rest);
    }
  }

  // ------------------------------------------------------------ the state machine

  /** Behind a prefix that leads nowhere, the hunt goes on. */
  lemma {:induction false} HuntDrops(s: seq<Byte>)
    requires |s| >= 1 && !Opens(s)
    ensures Hunt(s) == Hunt(s[1..])
  {
    if |s| < 3 {
    }
  }

  lemma {:induction false} TwoDropped(a: Byte, b: Byte, s: seq<Byte>)
    requires b != FLAG && !Opens([a, b])
    ensures Hunt([a, b] + s) == Hunt(s)
  {
    var t := [a, b] + s;
    HuntDrops(t);
    assert t[1..] == [b] + s;
    HuntDrops([b] + s);
    assert ([b] + s)[1..] == s;
  }

  lemma {:induction false} ThreeDropped(x: seq<Byte>, s: seq<Byte>)
    requires |x| == 3 && Opens(x) && !CanBeFrame(LengthField(x[1], x[2]))
    ensures Hunt(x + s) == Hunt(s)
  {
    assert (x + s)[3..] == s;
  }

  lemma {:induction false} HuntUnfinished(x: seq<Byte>)
    requires |x| >= 2 ==> Opens(x)
    requires |x| >= 3 ==> CanBeFrame(LengthField(x[1], x[2])) && |x| < LengthField(x[1], x[2]) + 2
    ensures Hunt(x) == Incomplete
  {}

  /** One more byte moves from the stream to what is captured. */
  lemma {:induction false} Shift(x: seq<Byte>, s: seq<Byte>, k: nat)
    requires k < |s|
    ensures x + s[k..] == (x + [s[k]]) + s[k + 1..]
  {}

  /** readFrame(): `stream` is what the bus delivers before the timeout. It keeps a frame
      exactly when the hunt finds one, and takes no byte behind it. */
  method ReadFrame(stream: seq<Byte>, buf: array<Byte>) returns (ok: bool, len: nat, used: nat)
    requires buf.Length >= FRAME_MAX
    modifies buf
    ensures ok <==> Hunt(stream).Found?
    ensures ok ==> len <= buf.Length && used <= |stream|
    ensures ok ==> buf[..len] == Hunt(stream).frame && stream[used..] == Hunt(stream).rest
  {
    var index, total := 0, 0;
    used := 0;
    assert stream[0..] == stream && buf[..0] + stream[0..] == stream;
    while used < |stream|
      invariant used <= |stream| && index <= FRAME_MAX
      invariant Hunt(buf[..index] + stream[used..]) == Hunt(stream)
      invariant index >= 1 ==> buf[0] == FLAG
      invariant index >= 2 ==> Opens(buf[..index])
      invariant index < 3 ==> total == 0
      invariant index >= 3 ==>
        CanBeFrame(LengthField(buf[1], buf[2])) && index < total == LengthField(buf[1], buf[2]) + 2
    {
      var b := stream[used];
      ghost var captured, after := buf[..index], stream[used + 1..];
      Shift(captured, stream, used);
      used := used + 1;
      NibbleIsNoFlag(b);
      if index == 0 {
        if b == FLAG {
          buf[index] := b;
          index := index + 1;
          assert buf[..index] == captured + [b];
        } else {
          assert captured + [b] + after == [b] + after && ([b] + after)[1..] == after;
          HuntDrops([b] + after);
          assert buf[..0] + after == after;
        }
        continue;
      }
      if index == 1 {
        assert captured == [FLAG];
        if b == FLAG {
          HuntDrops([FLAG, FLAG] + after);
          assert ([FLAG, FLAG] + after)[1..] == [FLAG] + after;
          assert captured + [b] + after == [FLAG, FLAG] + after;
          assert buf[..1] == [FLAG];
          continue;
        }
        if b & 0xF0 != TYPE_A & 0xF0 {
          TwoDropped(FLAG, b, after);
          assert captured + [b] + after == [FLAG, b] + after;
          index := 0;
          assert buf[..0] + after == after;
          continue;
        }
      }
      buf[index] := b;
      index := index + 1;
      assert buf[..index] == captured + [b];
      if index == 3 {
        var length := LengthField(buf[1], buf[2]);
        if length < 7 || length + 2 > FRAME_MAX {
          ThreeDropped(buf[..index], after);
          index := 0;
          assert buf[..0] + after == after;
          continue;
        }
        total := length + 2;
      }
      if index == total {
        HuntFramed(buf[..index], after);
        return true, total, used;
      }
    }
    assert buf[..index] + stream[used..] == buf[..index];
    HuntUnfinished(buf[..index]);
    return false, 0, used;
  }
}
