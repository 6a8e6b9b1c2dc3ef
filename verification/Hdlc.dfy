/** HDLC framing (IEC 62056-46, sections 6.4.1 and 6.4.2): addresses, building, parsing. */
module Hdlc {
  import opened Wire
  import opened Layout = HdlcLayout
  import opened Crc
  import opened Registers

  // ---------------------------------------------------------------- addresses

  /** Seven address bits moved up by one, and back. */
  function Up(x: bv16): Byte { ((x << 1) & 0xFF) as bv8 }

  function Down(b: Byte): bv16 { (b >> 1) as bv16 }

  function Last(b: Byte): Byte { b | 1 }

  function Joined(b: Byte, c: Byte): bv16 { (Down(b) << 7) | Down(c) }

  /** The (upper, lower) pair a valid address stands for; lower is 0 when it has one byte. */
  function AddressParts(a: seq<Byte>): (bv16, bv16)
    requires ValidAddress(a)
  {
    if |a| == 1 then (Down(a[0]), 0)
    else if |a| == 2 then (Down(a[0]), Down(a[1]))
    else (Joined(a[0], a[1]), Joined(a[2], a[3]))
  }

  function AddressLimit(size: nat): bv16 { if size == 4 then 0x3FFF else 0x7F }

  /** What hdlcAddress() accepts. */
  predicate AddressFits(upper: bv16, lower: bv16, size: nat) {
    && (size == 1 || size == 2 || size == 4)
    && upper <= AddressLimit(size)
    && (size > 1 ==> lower <= AddressLimit(size))
  }

  lemma {:induction false} UpBits(x: bv16)
    ensures !Ends(Up(x)) && Ends(Last(Up(x)))
  {}

  lemma {:induction false} UpDown(x: bv16)
    requires x <= 0x7F
    ensures Down(Up(x)) == x && Down(Last(Up(x))) == x
  {}

  lemma {:induction false} JoinedUp(x: bv16)
    requires x <= 0x3FFF
    ensures Joined(Up(x >> 7), Up(x & 0x7F)) == x && Joined(Up(x >> 7), Last(Up(x & 0x7F))) == x
  {}

  /** hdlcAddress(): accepts exactly what fits, and its output stands for its input, so
      it is injective for each size -- ignoring `lower` when the size is 1. */
  method HdlcAddress(upper: bv16, lower: bv16, size: nat) returns (ok: bool, out: seq<Byte>)
    ensures ok <==> AddressFits(upper, lower, size)
    ensures ok ==> |out| == size && ValidAddress(out)
    ensures ok ==> AddressParts(out) == (upper, if size == 1 then 0 else lower)
  {
    out := [];
    var max := AddressLimit(size);
    if upper > max || (size > 1 && lower > max) {
      return false, out;
    }
    if size == 1 {
      out := [Last(Up(upper))];
      UpDown(upper);
    } else if size == 2 {
      out := [Up(upper), Last(Up(lower))];
      UpDown(upper);
      UpDown(lower);
    } else if size == 4 {
      out := [Up(upper >> 7), Up(upper & 0x7F), Up(lower >> 7), Last(Up(lower & 0x7F))];
      JoinedUp(upper);
      JoinedUp(lower);
      UpBits(upper >> 7);
      UpBits(upper & 0x7F);
      UpBits(lower >> 7);
      UpBits(lower & 0x7F);
    } else {
      return false, out;
    }
    UpBits(upper);
    UpBits(lower);
    ok := true;
  }

  lemma {:induction false} DownEqual(x: Byte, y: Byte)
    requires Down(x) == Down(y) && (Ends(x) <==> Ends(y))
    ensures x == y
  {}

  lemma {:induction false} JoinedEqual(a: Byte, b: Byte, x: Byte, y: Byte)
    requires Joined(a, b) == Joined(x, y)
    ensures Down(a) == Down(x) && Down(b) == Down(y)
  {}

  /** Different addresses of one size stand for different pairs. */
  lemma {:induction false} AddressPartsInjective(a: seq<Byte>, b: seq<Byte>)
    requires ValidAddress(a) && ValidAddress(b) && |a| == |b| && AddressParts(a) == AddressParts(b)
    ensures a == b
  {
    if |a| == 4 {
      JoinedEqual(a[0], a[1], b[0], b[1]);
      JoinedEqual(a[2], a[3], b[2], b[3]);
    }
    forall i | 0 <= i < |a| ensures a[i] == b[i] { DownEqual(a[i], b[i]); }
  }

  // ------------------------------------------------------------------- frames

  function FcsBytes(data: seq<Byte>): seq<Byte> { Bytes(Fcs(data)) }

  /** The frame on the wire: the layout with the FCS as its check. */
  function Encode(f: HdlcFrame): seq<Byte>
    requires WellFormed(f)
  {
    FrameBytes(FcsBytes, f)
  }

  /** The frame a byte string is, if it is one: the inverse of Encode. */
  ghost function Parse(buf: seq<Byte>): (r: Option<HdlcFrame>)
    ensures r.Some? ==> WellFormed(r.value) && Encode(r.value) == buf
    ensures r.None? ==> forall f :: WellFormed(f) ==> Encode(f) != buf
  {
    if exists f :: WellFormed(f) && Encode(f) == buf
    then var f :| WellFormed(f) && Encode(f) == buf; Some(f)
    else None
  }

  lemma {:induction false} ParseOfFrame(f: HdlcFrame)
    requires WellFormed(f)
    ensures Parse(Encode(f)) == Some(f)
  {
    FrameInjective(FcsBytes, f, Parse(Encode(f)).value);
  }

  lemma {:induction false} EncodedIsChecked(f: HdlcFrame)
    requires WellFormed(f)
    ensures var s := Encode(f);
      |s| >= 9 && s[0] == FLAG && s[|s| - 1] == FLAG && FcsOk(s[1..|s| - 1])
  {
    var s, body := Encode(f), Body(FcsBytes, f);
    FrameChecks(FcsBytes, s, f);
    var inner := s[1..|s| - 1];
    assert s == [FLAG] + (body + FcsBytes(body)) + [FLAG];
    assert inner == body + FcsBytes(body);
    assert inner[..|inner| - 2] == body && inner[|inner| - 2..] == FcsBytes(body);
  }

  /** Between two fixed ends, a window of two bytes stays a window. */
  lemma {:induction false} InnerWindow(s: seq<Byte>, t: seq<Byte>, k: nat, j: nat)
    requires |s| >= 9 && k + 1 < |s| && DifferOnlyAt(s, t, k) && s[0] == t[0] && s[|s| - 1] == t[|s| - 1]
    requires j == if k == 0 then 0 else if k - 1 < |s| - 3 then k - 1 else |s| - 4
    ensures DifferOnlyAt(s[1..|s| - 1], t[1..|s| - 1], j)
    ensures s[1..|s| - 1] == t[1..|s| - 1] ==> s == t
  {
    var a, b, n := s[1..|s| - 1], t[1..|s| - 1], |s|;
    forall i | 0 <= i < |a| && i != j && i != j + 1 ensures a[i] == b[i] {
      assert a[i] == s[i + 1] && b[i] == t[i + 1];
    }
    assert s == [s[0]] + a + [s[n - 1]] && t == [t[0]] + b + [t[n - 1]];
  }

  /** No corruption inside two adjacent bytes turns one accepted frame into another. */
  lemma {:induction false} CorruptionRejected(s: seq<Byte>, t: seq<Byte>, k: nat)
    requires Parse(s).Some? && k + 1 < |s| && DifferOnlyAt(s, t, k) && s != t
    ensures Parse(t) == None
  {
    if Parse(t).Some? {
      EncodedIsChecked(Parse(s).value);
      EncodedIsChecked(Parse(t).value);
      var j := if k == 0 then 0 else if k - 1 < |s| - 3 then k - 1 else |s| - 4;
      InnerWindow(s, t, k, j);
      FcsDetectsWindow(s[1..|s| - 1], t[1..|s| - 1], j);
    }
  }

  // ------------------------------------------------------------------ building

  /** Copies bytes in at `pos`; returns the position after them. */
  method Append(out: array<Byte>, pos: nat, data: seq<Byte>) returns (end: nat)
    requires pos + |data| <= out.Length
    modifies out
    ensures end == pos + |data|
    ensures out[..end] == old(out[..pos]) + data
  {
    for i := 0 to |data|
      invariant out[..pos + i] == old(out[..pos]) + data[..i]
    {
      out[pos + i] := data[i];
      assert data[..i + 1] == data[..i] + [data[i]];
    }
    assert data[..|data|] == data;
    end := pos + |data|;
  }

  /** The two bytes of an FCS, low byte first, over what follows the opening flag. */
  method AppendFcs(out: array<Byte>, pos: nat, ghost data: seq<Byte>) returns (end: nat)
    requires 1 <= pos && pos + 2 <= out.Length && out[..pos] == [FLAG] + data
    modifies out
    ensures end == pos + 2
    ensures out[..end] == [FLAG] + data + FcsBytes(data)
  {
    assert out[1..pos] == data;
    var fcs := HdlcFcs(out[1..pos]);
    end := Append(out, pos, Bytes(fcs));
  }

  /** hdlcBuildFrame()'s bytes up to the control byte. */
  method BuildHeader(ghost f: HdlcFrame, length: nat, dest: seq<Byte>, src: seq<Byte>, control: Byte, out: array<Byte>)
      returns (pos: nat)
    requires WellFormed(f) && f.dest == dest && f.src == src && f.control == control && length == Length(f)
    requires out.Length >= 4 + |dest| + |src|
    modifies out
    ensures pos == 4 + |dest| + |src|
    ensures out[..pos] == [FLAG] + Header(f)
  {
    pos := Append(out, 0, [FLAG, FormatHigh(length), FormatLow(length)]);
    pos := Append(out, pos, dest);
    pos := Append(out, pos, src);
    pos := Append(out, pos, [control]);
    var format := [FormatHigh(length), FormatLow(length)];
    assert [FLAG] + format == [FLAG, FormatHigh(length), FormatLow(length)];
  }

  lemma {:induction false} Fits(f: HdlcFrame)
    requires ValidAddress(f.dest) && ValidAddress(f.src) && |f.info| <= INFO_MAX
    ensures WellFormed(f) && Length(f) + 2 <= FRAME_MAX
  {}

  /** hdlcBuildFrame(): fails only on an over-long info field, writes exactly the frame. */
  method BuildFrame(dest: seq<Byte>, src: seq<Byte>, control: Byte, info: seq<Byte>, out: array<Byte>)
      returns (ok: bool, outLen: nat)
    requires ValidAddress(dest) && ValidAddress(src) && out.Length >= FRAME_MAX
    modifies out
    ensures ok <==> |info| <= 128
    ensures ok ==> outLen <= 147 && WellFormed(HdlcFrame(dest, src, control, info))
    ensures ok ==> out[..outLen] == Encode(HdlcFrame(dest, src, control, info))
    ensures !ok ==> out[..] == old(out[..])
  {
    if |info| > INFO_MAX {
      return false, 0;
    }
    ghost var f := HdlcFrame(dest, src, control, info);
    Fits(f);
    var length := 2 + |dest| + |src| + 1 + 2;
    if |info| > 0 {
      length := length + 2 + |info|;
    }
    var pos := BuildHeader(f, length, dest, src, control, out);
    if |info| > 0 {
      pos := AppendFcs(out, pos, Header(f));
      pos := Append(out, pos, info);
    }
    assert out[..pos] == [FLAG] + Body(FcsBytes, f);
    pos := AppendFcs(out, pos, Body(FcsBytes, f));
    pos := Append(out, pos, [FLAG]);
    return true, pos;
  }

  // ------------------------------------------------------------------- parsing

  ghost predicate NoAddressAt(buf: seq<Byte>, end: nat, pos: nat)
    requires pos <= end <= |buf|
  {
    forall x :: !AddressAtPos(buf, end, pos, x)
  }

  /** A valid address at `pos` shows in the low bits of the bytes there. */
  lemma {:induction false} AddressBits(buf: seq<Byte>, end: nat, pos: nat, x: seq<Byte>)
    requires pos <= end <= |buf| && AddressAtPos(buf, end, pos, x)
    ensures Ends(buf[pos + |x| - 1])
    ensures forall i :: pos <= i < pos + |x| - 1 ==> !Ends(buf[i])
  {
    assert x[|x| - 1] == buf[pos + (|x| - 1)];
    forall i | pos <= i < pos + |x| - 1 ensures !Ends(buf[i]) {
      assert x[i - pos] == buf[i];
    }
  }

  lemma {:induction false} EndlessAddress(buf: seq<Byte>, end: nat, pos: nat, next: nat)
    requires pos <= next <= end <= |buf| && next - pos <= ADDRESS_MAX
    requires forall i :: pos <= i < next ==> !Ends(buf[i])
    requires next == end || next - pos == ADDRESS_MAX
    ensures NoAddressAt(buf, end, pos)
  {
    forall x ensures !AddressAtPos(buf, end, pos, x) {
      if AddressAtPos(buf, end, pos, x) { AddressBits(buf, end, pos, x); }
    }
  }

  lemma {:induction false} ThreeByteAddress(buf: seq<Byte>, end: nat, pos: nat)
    requires pos + 3 <= end <= |buf|
    requires !Ends(buf[pos]) && !Ends(buf[pos + 1]) && Ends(buf[pos + 2])
    ensures NoAddressAt(buf, end, pos)
  {
    forall x ensures !AddressAtPos(buf, end, pos, x) {
      if AddressAtPos(buf, end, pos, x) { AddressBits(buf, end, pos, x); }
    }
  }

  /** parseAddress(): succeeds exactly when a valid address starts at `pos` and ends by `end`. */
  method ParseAddress(buf: seq<Byte>, end: nat, pos: nat) returns (ok: bool, next: nat, out: seq<Byte>)
    requires pos <= end <= |buf|
    ensures ok ==> AddressAtPos(buf, end, pos, out) && next == pos + |out|
    ensures !ok ==> NoAddressAt(buf, end, pos)
  {
    next := pos;
    out := [];
    var n := 0;
    while true
      invariant n <= ADDRESS_MAX && n == |out| && next == pos + n && next <= end
      invariant out == buf[pos..next]
      invariant forall i :: pos <= i < next ==> !Ends(buf[i])
      decreases ADDRESS_MAX - n
    {
      if next >= end || n == ADDRESS_MAX {
        EndlessAddress(buf, end, pos, next);
        return false, next, [];
      }
      var b := buf[next];
      next := next + 1;
      out := out + [b];
      n := n + 1;
      if b & 1 != 0 {
        assert Ends(b);
        break;
      }
    }
    if n == 3 {
      ThreeByteAddress(buf, end, pos);
      return false, next, [];
    }
    ok := true;
  }

  lemma {:induction false} BadStart(buf: seq<Byte>)
    requires !StartPasses(buf)
    ensures Parse(buf) == None
  {
    if Parse(buf).Some? {
      var f := Parse(buf).value;
      FrameChecks(FcsBytes, buf, f);
    }
  }

  lemma {:induction false} BadDest(buf: seq<Byte>)
    requires |buf| >= 9 && NoAddressAt(buf, |buf| - 3, 3)
    ensures Parse(buf) == None
  {
    if Parse(buf).Some? {
      var f := Parse(buf).value;
      FrameChecks(FcsBytes, buf, f);
    }
  }

  lemma {:induction false} BadSrc(buf: seq<Byte>, dest: seq<Byte>)
    requires |buf| >= 9 && AddressAtPos(buf, |buf| - 3, 3, dest)
    requires NoAddressAt(buf, |buf| - 3, 3 + |dest|)
    ensures Parse(buf) == None
  {
    if Parse(buf).Some? {
      var f := Parse(buf).value;
      FrameChecks(FcsBytes, buf, f);
      SameAddress(FcsBytes, buf, f, dest, []);
    }
  }

  lemma {:induction false} BadTail(buf: seq<Byte>, dest: seq<Byte>, src: seq<Byte>)
    requires |buf| >= 9 && AddressAtPos(buf, |buf| - 3, 3, dest)
    requires AddressAtPos(buf, |buf| - 3, 3 + |dest|, src) && !TailPasses(FcsBytes, buf, 3 + |dest| + |src|)
    ensures Parse(buf) == None
  {
    if Parse(buf).Some? {
      var f := Parse(buf).value;
      OnlyFrame(FcsBytes, buf, f, dest, src);
    }
  }

  lemma {:induction false} GoodFrame(buf: seq<Byte>, dest: seq<Byte>, src: seq<Byte>)
    requires StartPasses(buf) && AddressAtPos(buf, |buf| - 3, 3, dest)
    requires AddressAtPos(buf, |buf| - 3, 3 + |dest|, src) && TailPasses(FcsBytes, buf, 3 + |dest| + |src|)
    ensures Parse(buf) == Some(Assembled(buf, dest, src))
  {
    StartMeans(buf);
    Assemble(FcsBytes, buf, dest, src);
    ParseOfFrame(Assembled(buf, dest, src));
  }

  ghost function TailResult(buf: seq<Byte>, dest: seq<Byte>, src: seq<Byte>): Option<HdlcFrame>
    requires |buf| >= 9 && 3 + |dest| + |src| <= |buf| - 3
  {
    if TailPasses(FcsBytes, buf, 3 + |dest| + |src|) then Some(Assembled(buf, dest, src)) else None
  }

  lemma {:induction false} TailDecides(buf: seq<Byte>, dest: seq<Byte>, src: seq<Byte>)
    requires StartPasses(buf) && AddressAtPos(buf, |buf| - 3, 3, dest)
    requires AddressAtPos(buf, |buf| - 3, 3 + |dest|, src)
    ensures TailResult(buf, dest, src) == Parse(buf)
  {
    if TailPasses(FcsBytes, buf, 3 + |dest| + |src|) {
      GoodFrame(buf, dest, src);
    } else {
      BadTail(buf, dest, src);
    }
  }

  /** Two adjacent bytes against a check, low byte first. */
  method CheckMatches(buf: seq<Byte>, pos: nat) returns (ok: bool)
    requires 1 <= pos && pos + 2 <= |buf|
    ensures ok <==> buf[pos..pos + 2] == FcsBytes(buf[1..pos])
  {
    var fcs := HdlcFcs(buf[1..pos]);
    ok := buf[pos] == Crc.Low(fcs) && buf[pos + 1] == Crc.High(fcs);
    BytesAre(buf[pos..pos + 2], fcs);
  }

  /** The checks of hdlcParseFrame() that follow the addresses. */
  method ParseTail(buf: seq<Byte>, dest: seq<Byte>, src: seq<Byte>) returns (out: Option<HdlcFrame>)
    requires |buf| >= 9 && AddressAtPos(buf, |buf| - 3, 3, dest)
    requires AddressAtPos(buf, |buf| - 3, 3 + |dest|, src)
    ensures out == TailResult(buf, dest, src)
  {
    var fcsPos, pos := |buf| - 3, 3 + |dest| + |src|;
    if pos >= fcsPos {
      return None;
    }
    var control := buf[pos];
    pos := pos + 1;
    var rest := fcsPos - pos;
    var info: seq<Byte> := [];
    if rest == 0 {
    } else if rest >= 3 {
      var hcsOk := CheckMatches(buf, pos);
      if !hcsOk {
        return None;
      }
      info := buf[pos + 2..fcsPos];
    } else {
      return None;
    }
    var fcsOk := CheckMatches(buf, fcsPos);
    if !fcsOk {
      return None;
    }
    return Some(HdlcFrame(dest, src, control, info));
  }

  /** The checks of hdlcParseFrame() before the addresses. */
  method ParseStart(buf: seq<Byte>) returns (ok: bool)
    ensures ok <==> StartPasses(buf)
  {
    var len := |buf|;
    if len < 9 || buf[0] != FLAG || buf[len - 1] != FLAG {
      return false;
    }
    if buf[1] & 0xF8 != TYPE_A {
      return false;
    }
    var length := LengthField(buf[1], buf[2]);
    return length == len - 2;
  }

  /** Both addresses; without them the bytes are no frame. */
  method ParseAddresses(buf: seq<Byte>) returns (ok: bool, dest: seq<Byte>, src: seq<Byte>)
    requires |buf| >= 9
    ensures ok ==> AddressAtPos(buf, |buf| - 3, 3, dest) && AddressAtPos(buf, |buf| - 3, 3 + |dest|, src)
    ensures !ok ==> Parse(buf) == None
  {
    src := [];
    var end, pos := |buf| - 3, 3;
    ok, pos, dest := ParseAddress(buf, end, pos);
    if !ok {
      BadDest(buf);
      return;
    }
    ok, pos, src := ParseAddress(buf, end, pos);
    if !ok {
      BadSrc(buf, dest);
    }
  }

  /** hdlcParseFrame(): accepts exactly the byte strings that are frames, and returns
      the frame each one is. */
  method ParseFrame(buf: seq<Byte>) returns (out: Option<HdlcFrame>)
    ensures out == Parse(buf)
  {
    var ok := ParseStart(buf);
    if !ok {
      BadStart(buf);
      return None;
    }
    var dest, src;
    ok, dest, src := ParseAddresses(buf);
    if !ok {
      return None;
    }
    TailDecides(buf, dest, src);
    out := ParseTail(buf, dest, src);
  }

  /** Building then parsing gives back every part of the frame. */
  method BuildThenParse(dest: seq<Byte>, src: seq<Byte>, control: Byte, info: seq<Byte>)
      returns (f: Option<HdlcFrame>)
    requires ValidAddress(dest) && ValidAddress(src) && |info| <= INFO_MAX
    ensures f == Some(HdlcFrame(dest, src, control, info))
  {
    var out := new Byte[FRAME_MAX](_ => 0);
    var ok, n := BuildFrame(dest, src, control, info, out);
    ParseOfFrame(HdlcFrame(dest, src, control, info));
    f := ParseFrame(out[..n]);
  }

  /** Parsing then building reproduces any accepted frame whose info is not over-long. */
  method ParseThenBuild(buf: seq<Byte>) returns (again: seq<Byte>)
    requires Parse(buf).Some? && |Parse(buf).value.info| <= INFO_MAX
    ensures again == buf
  {
    var f := ParseFrame(buf);
    var out := new Byte[FRAME_MAX](_ => 0);
    var ok, n := BuildFrame(f.value.dest, f.value.src, f.value.control, f.value.info, out);
    again := out[..n];
  }
}
