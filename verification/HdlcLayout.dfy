/** The layout of HDLC addresses and frames (IEC 62056-46, section 6.4.1), for any two
    byte check sequence. */
module HdlcLayout {
  import opened Wire
  import opened Slices

  const ADDRESS_MAX: nat := 4
  const INFO_MAX: nat := 128
  const FRAME_MAX: nat := INFO_MAX + 19
  const FLAG: Byte := 0x7E
  const TYPE_A: Byte := 0xA0

  /** The two check bytes of a byte string. */
  type Check = seq<Byte> -> seq<Byte>

  ghost predicate TwoBytes(check: Check) { forall s :: |check(s)| == 2 }

  // ---------------------------------------------------------------- addresses

  predicate Ends(b: Byte) { b & 1 != 0 }

  /** Seven address bits a byte; only the last byte has its low bit set. */
  predicate ValidAddress(a: seq<Byte>) {
    && (|a| == 1 || |a| == 2 || |a| == 4)
    && forall i :: 0 <= i < |a| ==> (Ends(a[i]) <==> i == |a| - 1)
  }

  /** No valid address is the beginning of another. */
  lemma {:induction false} AddressPrefixFree(a: seq<Byte>, b: seq<Byte>, s: seq<Byte>)
    requires ValidAddress(a) && ValidAddress(b) && a <= s && b <= s
    ensures a == b
  {
    var k := (if |a| <= |b| then |a| else |b|) - 1;
    assert a[k] == s[k] && b[k] == s[k];
    assert a == s[..|a|] && b == s[..|b|];
  }

  // ------------------------------------------------------------------- frames

  datatype HdlcFrame = HdlcFrame(dest: seq<Byte>, src: seq<Byte>, control: Byte, info: seq<Byte>)

  /** The length field: everything between the flags. */
  function Length(f: HdlcFrame): nat {
    2 + |f.dest| + |f.src| + 1 + (if f.info == [] then 0 else 2 + |f.info|) + 2
  }

  /** A frame the 11 bit length field can describe. */
  predicate WellFormed(f: HdlcFrame) {
    ValidAddress(f.dest) && ValidAddress(f.src) && Length(f) < 0x800
  }

  function LengthField(b1: Byte, b2: Byte): nat { ((b1 & 0x07) as int) * 256 + b2 as int }

  function FormatHigh(length: nat): Byte
    requires length < 0x800
  {
    TYPE_A | ToByte(length / 256)
  }

  function FormatLow(length: nat): Byte { ToByte(length % 256) }

  lemma {:induction false} TypeBits(h: Byte, b1: Byte)
    ensures h < 8 ==> (TYPE_A | h) & 0xF8 == TYPE_A && (TYPE_A | h) & 0x07 == h && (TYPE_A | h) & 0xF0 == TYPE_A
    ensures b1 & 0xF8 == TYPE_A ==> TYPE_A | (b1 & 0x07) == b1
  {}

  lemma {:induction false} SmallByte(n: U8)
    ensures n < 8 <==> ToByte(n) < 8
  {
    assert (8 as bv8) as int == 8;
  }

  lemma {:induction false} FormatRoundTrip(length: nat)
    requires length < 0x800
    ensures FormatHigh(length) & 0xF8 == TYPE_A && FormatHigh(length) & 0xF0 == TYPE_A
    ensures LengthField(FormatHigh(length), FormatLow(length)) == length
  {
    SmallByte(length / 256);
    TypeBits(ToByte(length / 256), 0);
  }

  lemma {:induction false} LowThree(b: Byte)
    ensures (b & 0x07) as int < 8
  {}

  lemma {:induction false} FormatUnique(b1: Byte, b2: Byte)
    requires b1 & 0xF8 == TYPE_A
    ensures LengthField(b1, b2) < 0x800
    ensures b1 == FormatHigh(LengthField(b1, b2)) && b2 == FormatLow(LengthField(b1, b2))
  {
    LowThree(b1);
    var h, n := (b1 & 0x07) as int, b2 as int;
    TypeBits(0, b1);
    ToByteOfNat(b1 & 0x07);
    ToByteOfNat(b2);
    assert (h * 256 + n) / 256 == h && (h * 256 + n) % 256 == n;
  }

  function Header(f: HdlcFrame): (s: seq<Byte>)
    requires WellFormed(f)
    ensures |s| == 3 + |f.dest| + |f.src|
  {
    [FormatHigh(Length(f)), FormatLow(Length(f))] + f.dest + f.src + [f.control]
  }

  /** Everything the FCS covers: the header, then the info field behind its own check. */
  function Body(check: Check, f: HdlcFrame): seq<Byte>
    requires WellFormed(f)
  {
    if f.info == [] then Header(f) else Header(f) + check(Header(f)) + f.info
  }

  /** The frame on the wire, flags included. */
  function FrameBytes(check: Check, f: HdlcFrame): seq<Byte>
    requires WellFormed(f)
  {
    [FLAG] + Body(check, f) + check(Body(check, f)) + [FLAG]
  }

  // ----------------------------------------------------------- taking it apart

  /** `s` begins with the header of some frame; a is where its destination ends. */
  ghost predicate HeaderPieces(s: seq<Byte>, f: HdlcFrame, a: nat)
    requires WellFormed(f)
  {
    && |s| == 3 + |f.dest| + |f.src| && a == 2 + |f.dest|
    && s[0] == FormatHigh(Length(f)) && s[1] == FormatLow(Length(f))
    && s[2..a] == f.dest && s[a..a + |f.src|] == f.src && s[a + |f.src|] == f.control
  }

  lemma {:induction false} HeaderIff(s: seq<Byte>, f: HdlcFrame)
    requires WellFormed(f)
    ensures s == Header(f) <==> HeaderPieces(s, f, 2 + |f.dest|)
  {
    var format := [FormatHigh(Length(f)), FormatLow(Length(f))];
    Cut4(s, format, f.dest, f.src, [f.control]);
    if |s| == 3 + |f.dest| + |f.src| {
      assert s[..2] == [s[0], s[1]];
      var k := |s| - 1;
      assert s[k..] == [s[k]];
    }
  }

  lemma {:induction false} BodyLength(check: Check, f: HdlcFrame)
    requires WellFormed(f) && TwoBytes(check)
    ensures |Body(check, f)| == Length(f) - 2
  {}

  lemma {:induction false} FrameIff(check: Check, s: seq<Byte>, f: HdlcFrame)
    requires WellFormed(f) && TwoBytes(check)
    ensures var n := |s|;
      s == FrameBytes(check, f) <==>
        && n == Length(f) + 2 && s[0] == FLAG && s[n - 1] == FLAG
        && s[1..n - 3] == Body(check, f) && s[n - 3..n - 1] == check(s[1..n - 3])
  {
    BodyLength(check, f);
    var body := Body(check, f);
    Cut4(s, [FLAG], body, check(body), [FLAG]);
    var n := |s|;
    if n == Length(f) + 2 {
      assert s[..1] == [s[0]] && s[n - 1..] == [s[n - 1]];
    }
  }

  /** A frame's bytes, piece by piece; a and b are where its addresses end. */
  ghost predicate Pieces(check: Check, s: seq<Byte>, f: HdlcFrame, a: nat, b: nat)
    requires WellFormed(f)
  {
    var n := |s|;
    && n == Length(f) + 2 && a == 3 + |f.dest| && b == a + |f.src|
    && s[0] == FLAG && s[n - 1] == FLAG
    && s[1] == FormatHigh(Length(f)) && s[2] == FormatLow(Length(f))
    && s[3..a] == f.dest && s[a..b] == f.src && s[b] == f.control
    && (f.info == [] ==> b + 1 == n - 3)
    && (f.info != [] ==> b + 4 <= n - 3 && s[b + 1..b + 3] == check(s[1..b + 1]) && s[b + 3..n - 3] == f.info)
    && s[n - 3..n - 1] == check(s[1..n - 3])
  }

  lemma {:induction false} HeaderInFrame(s: seq<Byte>, f: HdlcFrame)
    requires WellFormed(f) && |s| == Length(f) + 2
    ensures var (a, b) := (3 + |f.dest|, 3 + |f.dest| + |f.src|);
      s[1..b + 1] == Header(f) <==>
        && s[1] == FormatHigh(Length(f)) && s[2] == FormatLow(Length(f))
        && s[3..a] == f.dest && s[a..b] == f.src && s[b] == f.control
  {
    var a, b := 3 + |f.dest|, 3 + |f.dest| + |f.src|;
    var h := s[1..b + 1];
    HeaderIff(h, f);
    assert h[0] == s[1] && h[1] == s[2] && h[b - 1] == s[b];
    SubSlice(s, 1, b + 1, 2, a - 1);
    SubSlice(s, 1, b + 1, a - 1, b - 1);
  }

  /** A slice from 1, cut in three, seen from the whole. */
  lemma {:induction false} CutInside(s: seq<Byte>, end: nat, p: seq<Byte>, q: seq<Byte>, r: seq<Byte>)
    requires end == 1 + |p| + |q| + |r| <= |s|
    ensures var (i, j) := (1 + |p|, 1 + |p| + |q|);
      s[1..end] == p + q + r <==> s[1..i] == p && s[i..j] == q && s[j..end] == r
  {
    var k, l := |p|, |p| + |q|;
    Cut3(s[1..end], p, q, r);
    SubSlice(s, 1, end, 0, k);
    SubSlice(s, 1, end, k, l);
    SubSlice(s, 1, end, l, end - 1);
  }

  lemma {:induction false} BodyInFrame(check: Check, s: seq<Byte>, f: HdlcFrame)
    requires WellFormed(f) && TwoBytes(check) && |s| == Length(f) + 2
    ensures var (n, b) := (|s|, 3 + |f.dest| + |f.src|);
      s[1..n - 3] == Body(check, f) <==>
        && s[1..b + 1] == Header(f)
        && (f.info != [] ==> s[b + 1..b + 3] == check(s[1..b + 1]) && s[b + 3..n - 3] == f.info)
  {
    var h := Header(f);
    if f.info != [] {
      CutInside(s, |s| - 3, h, check(h), f.info);
    }
  }

  lemma {:induction false} PiecesIff(check: Check, s: seq<Byte>, f: HdlcFrame)
    requires WellFormed(f) && TwoBytes(check)
    ensures s == FrameBytes(check, f) <==> Pieces(check, s, f, 3 + |f.dest|, 3 + |f.dest| + |f.src|)
  {
    FrameIff(check, s, f);
    if |s| == Length(f) + 2 {
      BodyInFrame(check, s, f);
      HeaderInFrame(s, f);
    }
  }

  lemma {:induction false} AddressAt(s: seq<Byte>, x: seq<Byte>, i: nat)
    requires i + |x| <= |s| && s[i..i + |x|] == x
    ensures x <= s[i..]
  {}

  ghost predicate AddressAtPos(buf: seq<Byte>, end: nat, pos: nat, x: seq<Byte>)
    requires pos <= end <= |buf|
  {
    ValidAddress(x) && pos + |x| <= end && buf[pos..pos + |x|] == x
  }

  /** The parser's checks before the addresses. */
  ghost predicate StartPasses(buf: seq<Byte>) {
    var n := |buf|;
    n >= 9 && buf[0] == FLAG && buf[n - 1] == FLAG && buf[1] & 0xF8 == TYPE_A && LengthField(buf[1], buf[2]) == n - 2
  }

  /** What they say about the bytes. */
  ghost predicate Start(buf: seq<Byte>) {
    var n := |buf|;
    && 9 <= n < 0x802 && buf[0] == FLAG && buf[n - 1] == FLAG
    && buf[1] == FormatHigh(n - 2) && buf[2] == FormatLow(n - 2)
  }

  lemma {:induction false} StartMeans(buf: seq<Byte>)
    ensures StartPasses(buf) <==> Start(buf)
  {
    if |buf| >= 9 && buf[1] & 0xF8 == TYPE_A {
      FormatUnique(buf[1], buf[2]);
    }
    if 2 <= |buf| < 0x802 {
      FormatRoundTrip(|buf| - 2);
    }
  }

  /** The checks after the addresses, which end at `b`. */
  ghost predicate TailPasses(check: Check, buf: seq<Byte>, b: nat)
    requires 9 <= |buf| && b <= |buf| - 3
  {
    var n := |buf|;
    && b < n - 3
    && (b + 1 == n - 3 || (b + 4 <= n - 3 && buf[b + 1..b + 3] == check(buf[1..b + 1])))
    && buf[n - 3..n - 1] == check(buf[1..n - 3])
  }

  /** The frame put together from parsed pieces. */
  function Assembled(buf: seq<Byte>, dest: seq<Byte>, src: seq<Byte>): HdlcFrame
    requires 3 + |dest| + |src| < |buf| - 3
  {
    var b := 3 + |dest| + |src|;
    HdlcFrame(dest, src, buf[b], if b + 4 <= |buf| - 3 then buf[b + 3..|buf| - 3] else [])
  }

  lemma {:induction false} Assemble(check: Check, buf: seq<Byte>, dest: seq<Byte>, src: seq<Byte>)
    requires Start(buf) && TwoBytes(check) && AddressAtPos(buf, |buf| - 3, 3, dest)
    requires AddressAtPos(buf, |buf| - 3, 3 + |dest|, src) && TailPasses(check, buf, 3 + |dest| + |src|)
    ensures var f := Assembled(buf, dest, src);
      WellFormed(f) && FrameBytes(check, f) == buf
  {
    var f := Assembled(buf, dest, src);
    assert Length(f) == |buf| - 2;
    PiecesIff(check, buf, f);
  }

  /** Valid addresses found at the start of a frame's address fields are the frame's own. */
  lemma {:induction false} SameAddress(check: Check, s: seq<Byte>, f: HdlcFrame, x: seq<Byte>, y: seq<Byte>)
    requires WellFormed(f) && TwoBytes(check) && s == FrameBytes(check, f)
    requires ValidAddress(x) && 3 + |x| <= |s| && s[3..3 + |x|] == x
    ensures x == f.dest
    ensures ValidAddress(y) && 3 + |x| + |y| <= |s| && s[3 + |x|..3 + |x| + |y|] == y ==> y == f.src
  {
    PiecesIff(check, s, f);
    AddressAt(s, f.dest, 3);
    AddressAt(s, x, 3);
    AddressPrefixFree(f.dest, x, s[3..]);
    var a := 3 + |x|;
    AddressAt(s, f.src, a);
    if ValidAddress(y) && a + |y| <= |s| && s[a..a + |y|] == y {
      AddressAt(s, y, a);
      AddressPrefixFree(f.src, y, s[a..]);
    }
  }

  /** What any encoded frame looks like to the parser's checks, one by one. */
  lemma {:induction false} FrameChecks(check: Check, buf: seq<Byte>, f: HdlcFrame)
    requires WellFormed(f) && TwoBytes(check) && FrameBytes(check, f) == buf
    ensures StartPasses(buf)
    ensures AddressAtPos(buf, |buf| - 3, 3, f.dest)
    ensures AddressAtPos(buf, |buf| - 3, 3 + |f.dest|, f.src) && 3 + |f.dest| + |f.src| < |buf| - 3
  {
    PiecesIff(check, buf, f);
    StartMeans(buf);
  }

  /** Once both addresses are parsed, the remaining checks pass on any frame. */
  lemma {:induction false} OnlyFrame(check: Check, buf: seq<Byte>, f: HdlcFrame, dest: seq<Byte>, src: seq<Byte>)
    requires WellFormed(f) && TwoBytes(check) && FrameBytes(check, f) == buf
    requires |buf| >= 9 && AddressAtPos(buf, |buf| - 3, 3, dest) && AddressAtPos(buf, |buf| - 3, 3 + |dest|, src)
    ensures TailPasses(check, buf, 3 + |dest| + |src|)
  {
    PiecesIff(check, buf, f);
    SameAddress(check, buf, f, dest, src);
  }

  /** No two frames look the same on the wire. */
  lemma {:induction false} FrameInjective(check: Check, f: HdlcFrame, g: HdlcFrame)
    requires WellFormed(f) && WellFormed(g) && TwoBytes(check)
    requires FrameBytes(check, f) == FrameBytes(check, g)
    ensures f == g
  {
    var s := FrameBytes(check, f);
    PiecesIff(check, s, f);
    PiecesIff(check, s, g);
    SameAddress(check, s, f, g.dest, g.src);
  }
}
