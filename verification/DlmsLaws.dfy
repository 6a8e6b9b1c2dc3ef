/** A DLMS register read byte by byte: what the reader's frames hold, and which replies it
    takes for a value. */
module DlmsLaws {
  import opened Wire
  import opened Layout = HdlcLayout
  import opened Hdlc
  import opened Crc
  import opened Ber
  import Aare
  import opened DlmsData
  import opened DlmsSession

  // ------------------------------------------------------------- the I-frames

  /** N(R), the poll bit and N(S) of a control byte. */
  lemma {:induction false} ControlIs(ns: Byte, nr: Byte)
    requires ns < 8 && nr < 8
    ensures Control(ns, nr) == 32 * nr + 16 + 2 * ns && Next(ns) == if ns == 7 then 0 else ns + 1
  {}

  /** A field with its length, in both forms. */
  lemma {:induction false} FieldBytes(f: Field)
    ensures |f.value| < 0x80 ==> WriteField(f, Short) == [f.tag, ToByte(|f.value|)] + f.value
    ensures |f.value| < 0x100 ==> WriteField(f, Long) == [f.tag, 0x81, ToByte(|f.value|)] + f.value
  {}

  lemma {:induction false} ShortField(tag: Byte, value: seq<Byte>, length: Byte)
    requires |value| < 0x80 && length as int == |value|
    ensures WriteField(Field(tag, value), Short) == [tag, length] + value
  {
    ToByteOfNat(length);
  }

  const NAME: seq<Byte> := [0x60, 0x85, 0x74, 0x05, 0x08, 0x01, 0x01]
  const INITIATE: seq<Byte> := [0x01, 0x00, 0x00, 0x00, 0x06, 0x5F, 0x1F, 0x04, 0x00, 0x00, 0x00, 0x10, 0x00, 0x7D]

  /** A field inside a field, both short. */
  lemma {:induction false} Nested(outer: Byte, inner: Byte, value: seq<Byte>, length: Byte, longer: Byte)
    requires |value| < 0x7E && length as int == |value| && longer as int == |value| + 2
    ensures WriteField(Field(outer, WriteField(Field(inner, value), Short)), Short)
         == [outer, longer, inner, length] + value
  {
    ShortField(inner, value, length);
    ShortField(outer, [inner, length] + value, longer);
  }

  /** The association request: context name 2.16.756.5.8.1.1 and an InitiateRequest for
      version 6, conformance GET, and APDUs of up to 125 bytes. */
  lemma {:induction false} AarqFields()
    ensures var name := WriteField(Field(0xA1, WriteField(Field(0x06, NAME), Short)), Short);
      var initiate := WriteField(Field(0xBE, WriteField(Field(0x04, INITIATE), Short)), Short);
      AARQ == WriteField(Field(0x60, name + initiate), Short)
  {
    Nested(0xA1, 0x06, NAME, 7, 9);
    Nested(0xBE, 0x04, INITIATE, 14, 16);
    AarqBytes();
    ShortField(0x60, ([0xA1, 0x09, 0x06, 0x07] + NAME) + ([0xBE, 0x10, 0x04, 0x0E] + INITIATE), 29);
  }

  lemma {:induction false} AarqBytes()
    ensures AARQ == [0x60, 0x1D] + (([0xA1, 0x09, 0x06, 0x07] + NAME) + ([0xBE, 0x10, 0x04, 0x0E] + INITIATE))
    ensures |NAME| == 7 && |INITIATE| == 14
  {}

  /** A whole session: SNRM; the AARQ; GET of attribute 3, then of attribute 2, of the
      register; DISC. */
  lemma {:induction false} SessionSpelled(obis: seq<Byte>)
    requires |obis| == 6
    ensures SessionFrames(true, Requests(obis)) ==
      [Said(0x93, []),
       Said(0x10, [0xE6, 0xE6, 0x00] + AARQ),
       Said(0x32, [0xE6, 0xE6, 0x00] + ([0xC0, 0x01, 0xC1, 0x00, 0x03] + obis + [0x03, 0x00])),
       Said(0x54, [0xE6, 0xE6, 0x00] + ([0xC0, 0x01, 0xC1, 0x00, 0x03] + obis + [0x02, 0x00])),
       Said(0x53, [])]
  {
    OpeningGrows(obis);
    ControlIs(0, 0);
    ControlIs(1, 1);
    ControlIs(2, 2);
  }

  // --------------------------------------------------------------- the replies

  /** A reply is taken exactly if it is the one frame that is in sequence, behind the
      server's LLC bytes, and short enough. */
  lemma {:induction false} AnswerIff(vs: Byte, vr: Byte, got: Got, apdu: seq<Byte>)
    requires vs < 8 && vr < 8
    ensures Answer(vs, vr, got) == Some(apdu) <==>
      got == Some(Said(Control(vr, Next(vs)), [0xE6, 0xE7, 0x00] + apdu)) && |apdu| <= 125
  {
    if got.Some? {
      var info := got.value.info;
      InSequenceIff(got.value.control, vs, vr);
      if |info| >= 3 {
        assert info == info[..3] + info[3..];
      }
      LlcCut(apdu);
    }
  }

  lemma {:induction false} DataIff(apdu: seq<Byte>, data: seq<Byte>)
    ensures DataOf(apdu) == Some(data) <==> data != [] && apdu == [0xC4, 0x01, 0xC1, 0x00] + data
  {
    if data != [] && apdu == [0xC4, 0x01, 0xC1, 0x00] + data {
      DataOfResponse(data);
    }
  }

  lemma {:induction false} AttributeIff(n: Byte, got: Got, data: seq<Byte>)
    requires n < 8
    ensures Attribute(n, got) == Some(data) <==>
      && data != [] && |data| <= 121
      && got == Some(Said(Control(n, Next(n)), [0xE6, 0xE7, 0x00] + ([0xC4, 0x01, 0xC1, 0x00] + data)))
  {
    AnswerIff(n, n, got, [0xC4, 0x01, 0xC1, 0x00] + data);
    if Answer(n, n, got).Some? {
      DataIff(Answer(n, n, got).value, data);
    }
  }

  /** The scaler and the unit as they travel. */
  function ScalerUnit(raw: Byte, unit: Byte): seq<Byte> { [0x02, 0x02, 0x0F, raw, 0x16, unit] }

  function Scaler(raw: Byte): int { if raw as int < 0x80 then raw as int else raw as int - 0x100 }

  lemma {:induction false} ScalerSent(raw: Byte, unit: Byte)
    ensures ScalerOf(ScalerUnit(raw, unit), unit) == Some(Scaler(raw))
  {
    ToByteOfNat(raw);
    assert ScalerUnit(raw, unit) == EncodeScalerUnit(Scaler(raw), unit);
    ScalerOfEncoded(Scaler(raw), unit);
  }

  lemma {:induction false} ScalerIff(data: seq<Byte>, unit: Byte, scaler: int)
    ensures ScalerOf(data, unit) == Some(scaler) <==>
      exists raw :: data == ScalerUnit(raw, unit) && scaler == Scaler(raw)
  {
    forall raw | data == ScalerUnit(raw, unit) && scaler == Scaler(raw) ensures ScalerOf(data, unit) == Some(scaler) {
      ScalerSent(raw, unit);
    }
    if ScalerOf(data, unit) == Some(scaler) {
      assert data == ScalerUnit(data[3], unit);
    }
  }

  /** The replies to a read that yields a value, byte by byte: a UA; an I-frame that opens
      the association; one with the scaler and the unit asked for; one with a number. */
  ghost predicate Answered(unit: Byte, gots: seq<Got>, aare: seq<Byte>, raw: Byte, data: seq<Byte>)
    requires |gots| == 4
  {
    && gots[0].Some? && gots[0].value.control == 0x73
    && gots[1] == Some(Said(0x30, [0xE6, 0xE7, 0x00] + aare)) && Aare.Opens(aare) && |aare| <= 125
    && gots[2] == Some(Said(0x52, [0xE6, 0xE7, 0x00] + ([0xC4, 0x01, 0xC1, 0x00] + ScalerUnit(raw, unit))))
    && gots[3] == Some(Said(0x74, [0xE6, 0xE7, 0x00] + ([0xC4, 0x01, 0xC1, 0x00] + data)))
    && data != [] && |data| <= 121
  }

  lemma {:induction false} ReplyControls()
    ensures Control(0, Next(0)) == 0x30 && Control(1, Next(1)) == 0x52 && Control(2, Next(2)) == 0x74
  {}

  lemma {:induction false} ScalerReadIff(unit: Byte, got: Got, scaler: int)
    ensures ScalerRead(unit, got) == Some(scaler) <==> exists raw ::
      && got == Some(Said(0x52, [0xE6, 0xE7, 0x00] + ([0xC4, 0x01, 0xC1, 0x00] + ScalerUnit(raw, unit))))
      && scaler == Scaler(raw)
  {
    ReplyControls();
    if Attribute(1, got).Some? {
      var data := Attribute(1, got).value;
      AttributeIff(1, got, data);
      ScalerIff(data, unit, scaler);
    }
    forall raw |
      got == Some(Said(0x52, [0xE6, 0xE7, 0x00] + ([0xC4, 0x01, 0xC1, 0x00] + ScalerUnit(raw, unit))))
      ensures Attribute(1, got) == Some(ScalerUnit(raw, unit))
    {
      AttributeIff(1, got, ScalerUnit(raw, unit));
    }
  }

  /** A read yields a value exactly from such replies, and it is the number they carry times
      ten to the scaler. */
  lemma {:induction false} ReadIff(unit: Byte, floats: nat -> real, gots: seq<Got>, value: real)
    requires |gots| == 4
    ensures RegisterValue(unit, floats, gots) == Some(value) <==>
      exists aare, raw, data :: Yields(unit, floats, gots, aare, raw, data, value)
  {
    if RegisterValue(unit, floats, gots) == Some(value) {
      ReadAnswered(unit, floats, gots);
    }
    forall aare, raw, data | Yields(unit, floats, gots, aare, raw, data, value)
      ensures RegisterValue(unit, floats, gots) == Some(value)
    {
      AnsweredRead(unit, floats, gots, aare, raw, data);
    }
  }

  ghost predicate Yields(unit: Byte, floats: nat -> real, gots: seq<Got>, aare: seq<Byte>, raw: Byte, data: seq<Byte>,
                         value: real)
    requires |gots| == 4
  {
    && Answered(unit, gots, aare, raw, data) && DecodedNumber(data).Some?
    && value == Scaled(Meaning(DecodedNumber(data).value, floats), Scaler(raw))
  }

  lemma {:induction false} ReadAnswered(unit: Byte, floats: nat -> real, gots: seq<Got>)
    requires |gots| == 4 && RegisterValue(unit, floats, gots).Some?
    ensures exists aare, raw, data ::
      Yields(unit, floats, gots, aare, raw, data, RegisterValue(unit, floats, gots).value)
  {
    ReplyControls();
    var aare := Answer(0, 0, gots[1]).value;
    AnswerIff(0, 0, gots[1], aare);
    var scaler := ScalerRead(unit, gots[2]).value;
    ScalerReadIff(unit, gots[2], scaler);
    var raw :| gots[2] == Some(Said(0x52, [0xE6, 0xE7, 0x00] + ([0xC4, 0x01, 0xC1, 0x00] + ScalerUnit(raw, unit))))
               && scaler == Scaler(raw);
    var data := Attribute(2, gots[3]).value;
    AttributeIff(2, gots[3], data);
    assert Yields(unit, floats, gots, aare, raw, data, RegisterValue(unit, floats, gots).value);
  }

  lemma {:induction false} AnsweredRead(unit: Byte, floats: nat -> real, gots: seq<Got>, aare: seq<Byte>, raw: Byte,
                                        data: seq<Byte>)
    requires |gots| == 4 && Answered(unit, gots, aare, raw, data) && DecodedNumber(data).Some?
    ensures RegisterValue(unit, floats, gots)
         == Some(Scaled(Meaning(DecodedNumber(data).value, floats), Scaler(raw)))
  {
    ReplyControls();
    AnswerIff(0, 0, gots[1], aare);
    ScalerReadIff(unit, gots[2], Scaler(raw));
    AttributeIff(2, gots[3], data);
  }

  // ----------------------------------------------------------- the association

  /** Neither a result nor a user information field. */
  predicate Neither(fs: seq<Field>) { forall f :: f in fs ==> f.tag != 0xA2 && f.tag != 0xBE }

  /** Fields of a response: whatever else it holds, a result and a user information field
      whose octet string starts with some tag. */
  function Response(a: seq<Field>, result: Byte, b: seq<Field>, length: Byte, tag: Byte, more: seq<Byte>,
                    c: seq<Field>): seq<Field> {
    a + [Field(0xA2, [0x02, 0x01, result])] + b + [Field(0xBE, [0x04, length, tag] + more)] + c
  }

  /** Such a response opens the association exactly if its result is 0 and its octet string
      is an InitiateResponse, tag 8. */
  lemma {:induction false} VerdictIff(a: seq<Field>, result: Byte, b: seq<Field>, length: Byte, tag: Byte,
                                      more: seq<Byte>, c: seq<Field>)
    requires Neither(a) && Neither(b) && Neither(c)
    ensures Aare.Accepts(Response(a, result, b, length, tag, more, c)) <==> result == 0x00 && tag == 0x08
  {
    var fs, i, j := Response(a, result, b, length, tag, more, c), |a|, |a| + 1 + |b|;
    assert fs[i] == Field(0xA2, [0x02, 0x01, result]) && fs[j] == Field(0xBE, [0x04, length, tag] + more);
    forall k | 0 <= k < |fs| && k != i && k != j ensures fs[k].tag != 0xA2 && fs[k].tag != 0xBE {
      assert fs[k] in a || fs[k] in b || fs[k] in c;
    }
    OnlyShaped(fs, Aare.ShapedResult, i, result as int);
    OnlyShaped(fs, Aare.ShapedInitiate, j, tag as int);
    ByteIs(result, tag);
  }

  lemma {:induction false} ByteIs(result: Byte, tag: Byte)
    ensures result as int == 0 <==> result == 0x00
    ensures tag as int == 8 <==> tag == 0x08
  {}

  lemma {:induction false} OnlyShaped(fs: seq<Field>, shaped: Field -> bool, i: nat, b: int)
    requires i < |fs| && shaped(fs[i]) && Aare.Third(fs[i]) == b
    requires forall k :: 0 <= k < |fs| && k != i ==> !shaped(fs[k])
    ensures forall x :: Aare.LastSays(fs, shaped, x) <==> x == b
  {
    forall x ensures Aare.LastSays(fs, shaped, x) <==> x == b {
      if x == b {
        assert Aare.LastAt(fs, shaped, x, i);
      }
    }
  }

  /** Without a result, or without user information, nothing opens. */
  lemma {:induction false} BothAreNeeded(fs: seq<Field>)
    ensures (forall f :: f in fs ==> f.tag != 0xA2) || (forall f :: f in fs ==> f.tag != 0xBE) ==> !Aare.Accepts(fs)
  {
    if Aare.Accepts(fs) {
      var i: nat :| Aare.LastAt(fs, Aare.ShapedResult, 0x00, i);
      var j: nat :| Aare.LastAt(fs, Aare.ShapedInitiate, 0x08, j);
      assert fs[i] in fs && fs[j] in fs;
    }
  }

  // ------------------------------------------------------------------ the frame

  lemma {:induction false} FormatBytes(length: nat)
    requires length < 0x800
    ensures FormatHigh(length) as int == 0xA0 + length / 256 && FormatLow(length) as int == length % 256
  {
    SmallByte(length / 256);
    TypeSum(ToByte(length / 256));
    Addition(0xA0, ToByte(length / 256));
  }

  lemma {:induction false} TypeSum(h: Byte)
    requires h < 8
    ensures TYPE_A | h == 0xA0 + h
  {}

  lemma {:induction false} Addition(t: Byte, h: Byte)
    requires h < 8 && t == 0xA0
    ensures (t + h) as int == 0xA0 + h as int
  {}

  /** A frame byte by byte: between two flags, format type A with the number of bytes between
      the flags, destination before source, the control byte, and two checks -- one over the
      header if there is an info field, one over everything. */
  lemma {:induction false} FrameSpelled(f: HdlcFrame)
    requires WellFormed(f)
    ensures var s, b := Hdlc.Encode(f), 3 + |f.dest| + |f.src|;
      var n := |s| - 2;
      && 7 <= n < 0x800 && s[0] == 0x7E && s[n + 1] == 0x7E
      && s[1] as int == 0xA0 + n / 256 && s[2] as int == n % 256
      && s[3..3 + |f.dest|] == f.dest && s[3 + |f.dest|..b] == f.src && s[b] == f.control
      && FcsOk(s[1..n + 1])
      && if f.info == [] then n == b + 2
         else n == b + |f.info| + 4 && FcsOk(s[1..b + 3]) && s[b + 3..n - 1] == f.info
  {
    var s, b := Hdlc.Encode(f), 3 + |f.dest| + |f.src|;
    PiecesIff(FcsBytes, s, f);
    FormatBytes(Layout.Length(f));
    EncodedIsChecked(f);
    if f.info != [] {
      CheckedSlice(s, b);
    }
  }

  lemma {:induction false} CheckedSlice(s: seq<Byte>, b: nat)
    requires 1 <= b && b + 3 <= |s| && s[b + 1..b + 3] == FcsBytes(s[1..b + 1])
    ensures FcsOk(s[1..b + 3])
  {
    var t := s[1..b + 3];
    assert t[..|t| - 2] == s[1..b + 1] && t[|t| - 2..] == s[b + 1..b + 3];
  }

  /** The bytes of an address: seven bits each, the high ones first, the logical device before
      the physical, all but the last byte even. */
  lemma {:induction false} AddressSpelled(a: seq<Byte>)
    requires ValidAddress(a)
    ensures var (upper, lower) := AddressParts(a);
      && (|a| == 1 ==> a[0] as bv16 == 2 * upper + 1)
      && (|a| == 2 ==> a[0] as bv16 == 2 * upper && a[1] as bv16 == 2 * lower + 1)
      && (|a| == 4 ==>
            && a[0] as bv16 == 2 * (upper >> 7) && a[1] as bv16 == 2 * (upper & 0x7F)
            && a[2] as bv16 == 2 * (lower >> 7) && a[3] as bv16 == 2 * (lower & 0x7F) + 1)
  {
    if |a| == 4 {
      Halves(a[0], a[1]);
      Halves(a[2], a[3]);
    } else {
      Seven(a[0]);
      if |a| == 2 { Seven(a[1]); }
    }
  }

  lemma {:induction false} Seven(b: Byte)
    ensures b as bv16 == 2 * Down(b) + (if Ends(b) then 1 else 0)
  {}

  lemma {:induction false} Halves(b: Byte, c: Byte)
    requires !Ends(b)
    ensures b as bv16 == 2 * (Joined(b, c) >> 7)
    ensures c as bv16 == 2 * (Joined(b, c) & 0x7F) + (if Ends(c) then 1 else 0)
  {}
}
