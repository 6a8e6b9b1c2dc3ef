/** The data inside DLMS responses: numbers, scalers, and the GET response around them. */
module DlmsData {
  import opened Wire

  // ------------------------------------------------------------------ integers

  /** Big endian bytes, as the decoder's shifting loop reads them. */
  function BeNat(s: seq<Byte>): nat {
    if s == [] then 0 else BeNat(s[..|s| - 1]) * 256 + s[|s| - 1] as nat
  }

  function Be(n: nat, width: nat): (s: seq<Byte>)
    ensures |s| == width
    decreases width
  {
    if width == 0 then [] else Be(n / 256, width - 1) + [ToByte(n % 256)]
  }

  lemma {:induction false} BeNatOfBe(n: nat, width: nat)
    requires n < Pow256(width)
    ensures BeNat(Be(n, width)) == n
    decreases width
  {
    if width > 0 {
      BeNatOfBe(n / 256, width - 1);
      assert Be(n, width)[..width - 1] == Be(n / 256, width - 1);
    }
  }

  lemma {:induction false} DivMod(n: nat, m: nat)
    requires m < 256
    ensures (n * 256 + m) / 256 == n && (n * 256 + m) % 256 == m
  {}

  lemma {:induction false} BeOfBeNat(s: seq<Byte>)
    ensures BeNat(s) < Pow256(|s|) && Be(BeNat(s), |s|) == s
    decreases |s|
  {
    if s != [] {
      var front, b := s[..|s| - 1], s[|s| - 1];
      BeOfBeNat(front);
      ToByteOfNat(b);
      DivMod(BeNat(front), b as nat);
      assert s == front + [b];
    }
  }

  /** A C cast of `raw` to a signed integer of `width` bytes. */
  ghost function AsSigned(raw: nat, width: nat): int
    requires width > 0 && raw < Pow256(width)
  {
    if 2 * raw < Pow256(width) then raw else raw - Pow256(width)
  }

  ghost function AsRaw(n: int, width: nat): int { if n < 0 then n + Pow256(width) else n }

  ghost predicate InSigned(n: int, width: nat) { 0 - Pow256(width) <= 2 * n < Pow256(width) }

  lemma {:induction false} SignedRoundTrip(n: int, raw: nat, width: nat)
    requires width > 0
    ensures InSigned(n, width) ==> 0 <= AsRaw(n, width) < Pow256(width) && AsSigned(AsRaw(n, width), width) == n
    ensures raw < Pow256(width) ==> InSigned(AsSigned(raw, width), width) && AsRaw(AsSigned(raw, width), width) == raw
  {}

  // ------------------------------------------------------------------- numbers

  /** A float32 stays an opaque 32 bit word here. */
  datatype Number = Whole(value: int) | Float32(bits: nat)

  datatype Kind = Signed(width: nat) | Unsigned(width: nat) | Float(width: nat)

  /** The A-XDR types the reader takes for numbers. */
  function KindOf(tag: Byte): (k: Option<Kind>)
    ensures k.Some? ==> 0 < k.value.width <= 8
  {
    if tag == 0x0F then Some(Signed(1))
    else if tag == 0x11 then Some(Unsigned(1))
    else if tag == 0x10 then Some(Signed(2))
    else if tag == 0x12 then Some(Unsigned(2))
    else if tag == 0x05 then Some(Signed(4))
    else if tag == 0x06 then Some(Unsigned(4))
    else if tag == 0x17 then Some(Float(4))
    else if tag == 0x15 then Some(Unsigned(8))
    else None
  }

  ghost predicate FitsKind(k: Kind, n: Number) {
    match k
    case Signed(w) => n.Whole? && InSigned(n.value, w)
    case Unsigned(w) => n.Whole? && 0 <= n.value < Pow256(w)
    case Float(w) => n.Float32? && n.bits < Pow256(w)
  }

  ghost function RawOf(k: Kind, n: Number): nat
    requires 0 < k.width && FitsKind(k, n)
  {
    if k.Float? then n.bits else AsRaw(n.value, k.width)
  }

  ghost function FromRaw(k: Kind, raw: nat): Number
    requires 0 < k.width && raw < Pow256(k.width)
  {
    match k
    case Signed(w) => Whole(AsSigned(raw, w))
    case Unsigned(_) => Whole(raw)
    case Float(_) => Float32(raw)
  }

  /** What a meter sends for a number of a given type. */
  ghost predicate Encodable(tag: Byte, n: Number) { KindOf(tag).Some? && FitsKind(KindOf(tag).value, n) }

  ghost function EncodeNumber(tag: Byte, n: Number): seq<Byte>
    requires Encodable(tag, n)
  {
    var k := KindOf(tag).value;
    [tag] + Be(RawOf(k, n), k.width)
  }

  /** What decodeNumber() makes of Data; bytes after the number are ignored. */
  ghost function DecodedNumber(data: seq<Byte>): Option<Number> {
    if data == [] || KindOf(data[0]).None? || |data| < 1 + KindOf(data[0]).value.width then None
    else
      var k := KindOf(data[0]).value;
      BeOfBeNat(data[1..1 + k.width]);
      Some(FromRaw(k, BeNat(data[1..1 + k.width])))
  }

  lemma {:induction false} RawRoundTrip(k: Kind, n: Number, raw: nat)
    requires 0 < k.width
    ensures FitsKind(k, n) ==> RawOf(k, n) < Pow256(k.width) && FromRaw(k, RawOf(k, n)) == n
    ensures raw < Pow256(k.width) ==> FitsKind(k, FromRaw(k, raw)) && RawOf(k, FromRaw(k, raw)) == raw
  {
    SignedRoundTrip(if n.Whole? then n.value else 0, raw, k.width);
  }

  lemma {:induction false} StartsWith(data: seq<Byte>, tag: Byte, s: seq<Byte>)
    ensures [tag] + s <= data <==> |data| >= 1 + |s| && data[0] == tag && data[1..1 + |s|] == s
  {
    if |data| >= 1 + |s| && data[0] == tag && data[1..1 + |s|] == s {
      assert data[..1 + |s|] == [tag] + s;
    }
    if [tag] + s <= data {
      assert data[..1 + |s|] == [tag] + s;
      assert data[1..1 + |s|] == data[..1 + |s|][1..] == s;
    }
  }

  lemma {:induction false} NumberIff(k: Kind, s: seq<Byte>, n: Number)
    requires 0 < k.width == |s|
    ensures BeNat(s) < Pow256(k.width)
    ensures FromRaw(k, BeNat(s)) == n <==> FitsKind(k, n) && Be(RawOf(k, n), k.width) == s
  {
    BeOfBeNat(s);
    RawRoundTrip(k, n, BeNat(s));
    if FitsKind(k, n) {
      BeNatOfBe(RawOf(k, n), k.width);
    }
  }

  /** Decoding returns a number exactly when its encoding is what the data starts with. */
  lemma {:induction false} DecodesIff(data: seq<Byte>, n: Number)
    ensures DecodedNumber(data) == Some(n) <==>
        data != [] && Encodable(data[0], n) && EncodeNumber(data[0], n) <= data
  {
    if data != [] && KindOf(data[0]).Some? {
      var k := KindOf(data[0]).value;
      if FitsKind(k, n) {
        StartsWith(data, data[0], Be(RawOf(k, n), k.width));
      }
      if |data| >= 1 + k.width {
        NumberIff(k, data[1..1 + k.width], n);
      }
    }
  }

  // ------------------------------------------------- the types, written out in bytes

  lemma {:induction false} Widths()
    ensures Pow256(1) == 0x100 && Pow256(2) == 0x1_0000 && Pow256(4) == 0x1_0000_0000
  {
    assert Pow256(3) == 0x100_0000;
  }

  lemma {:induction false} BeNatNext(s: seq<Byte>, b: Byte)
    ensures BeNat(s + [b]) == BeNat(s) * 256 + b as nat
  {
    assert (s + [b])[..|s|] == s;
  }

  lemma {:induction false} BeNatShort(a: Byte, b: Byte)
    ensures BeNat([a]) == a as nat && BeNat([a, b]) == Long(a, b)
  {
    BeNatNext([], a);
    BeNatNext([a], b);
    assert [] + [a] == [a] && [a] + [b] == [a, b];
  }

  lemma {:induction false} BeNatLong(a: Byte, b: Byte, c: Byte, d: Byte)
    ensures BeNat([a, b, c, d]) == DoubleLong(a, b, c, d)
  {
    BeNatShort(a, b);
    BeNatNext([a, b], c);
    BeNatNext([a, b, c], d);
    assert [a, b] + [c] == [a, b, c] && [a, b, c] + [d] == [a, b, c, d];
  }

  lemma {:induction false} FourMore(n: nat, a: nat, b: nat, c: nat, d: nat, n1: nat, n2: nat, n3: nat, n4: nat)
    requires n1 == n * 256 + a && n2 == n1 * 256 + b && n3 == n2 * 256 + c && n4 == n3 * 256 + d
    ensures n4 == n * 0x1_0000_0000 + (a * 0x100_0000 + b * 0x1_0000 + c * 0x100 + d)
  {}

  lemma {:induction false} FourBytes(s: seq<Byte>, a: Byte, b: Byte, c: Byte, d: Byte)
    ensures s + [a] + [b] == s + [a, b] && s + [a, b] + [c] == s + [a, b, c]
    ensures s + [a, b, c] + [d] == s + [a, b, c, d]
  {}

  lemma {:induction false} BeNatLonger(s: seq<Byte>, a: Byte, b: Byte, c: Byte, d: Byte)
    ensures BeNat(s + [a, b, c, d]) == BeNat(s) * 0x1_0000_0000 + DoubleLong(a, b, c, d)
  {
    FourBytes(s, a, b, c, d);
    var n1, n2, n3 := BeNat(s + [a]), BeNat(s + [a, b]), BeNat(s + [a, b, c]);
    assert n1 == BeNat(s) * 256 + a as nat by { BeNatNext(s, a); }
    assert n2 == n1 * 256 + b as nat by { BeNatNext(s + [a], b); }
    assert n3 == n2 * 256 + c as nat by { BeNatNext(s + [a, b], c); }
    BeNatNext(s + [a, b, c], d);
    FourMore(BeNat(s), a as nat, b as nat, c as nat, d as nat, n1, n2, n3, BeNat(s + [a, b, c, d]));
  }

  lemma {:induction false} Tagged(tag: Byte, s: seq<Byte>, rest: seq<Byte>)
    requires KindOf(tag).Some? && |s| == KindOf(tag).value.width
    ensures BeNat(s) < Pow256(|s|)
    ensures DecodedNumber([tag] + s + rest) == Some(FromRaw(KindOf(tag).value, BeNat(s)))
  {
    BeOfBeNat(s);
    assert ([tag] + s + rest)[1..1 + |s|] == s;
  }

  /** A value and its two's complement, by width. */
  lemma {:induction false} SignedByWidth(n: nat)
    ensures n < 0x100 ==> n < Pow256(1) && AsSigned(n, 1) == if n < 0x80 then n else n - 0x100
    ensures n < 0x1_0000 ==> n < Pow256(2) && AsSigned(n, 2) == if n < 0x8000 then n else n - 0x1_0000
    ensures n < 0x1_0000_0000 ==>
      n < Pow256(4) && AsSigned(n, 4) == if n < 0x8000_0000 then n else n - 0x1_0000_0000
  {
    Widths();
  }

  function Long(a: Byte, b: Byte): nat { a as nat * 0x100 + b as nat }

  function DoubleLong(a: Byte, b: Byte, c: Byte, d: Byte): nat {
    a as nat * 0x100_0000 + b as nat * 0x1_0000 + c as nat * 0x100 + d as nat
  }

  /** One byte: integer (0x0F) and unsigned (0x11). */
  lemma {:induction false} DecodesOneByte(a: Byte, rest: seq<Byte>)
    ensures DecodedNumber([0x0F] + [a] + rest) ==
      Some(Whole(if a as nat < 0x80 then a as nat else a as nat - 0x100))
    ensures DecodedNumber([0x11] + [a] + rest) == Some(Whole(a as nat))
  {
    BeNatShort(a, 0);
    SignedByWidth(a as nat);
    Tagged(0x0F, [a], rest);
    Tagged(0x11, [a], rest);
  }

  /** Two bytes, high one first: long (0x10) and long-unsigned (0x12). */
  lemma {:induction false} DecodesTwoBytes(a: Byte, b: Byte, rest: seq<Byte>)
    ensures DecodedNumber([0x10] + [a, b] + rest) ==
      Some(Whole(if Long(a, b) < 0x8000 then Long(a, b) else Long(a, b) - 0x1_0000))
    ensures DecodedNumber([0x12] + [a, b] + rest) == Some(Whole(Long(a, b)))
  {
    BeNatShort(a, b);
    Tagged(0x10, [a, b], rest);
    Tagged(0x12, [a, b], rest);
    Widths();
    SignedByWidth(BeNat([a, b]));
  }

  /** Four bytes: double-long-unsigned (0x06) and float32 (0x17). */
  lemma {:induction false} DecodesFourBytes(a: Byte, b: Byte, c: Byte, d: Byte, rest: seq<Byte>)
    ensures var n := DoubleLong(a, b, c, d);
      && DecodedNumber([0x06] + [a, b, c, d] + rest) == Some(Whole(n))
      && DecodedNumber([0x17] + [a, b, c, d] + rest) == Some(Float32(n))
  {
    BeNatLong(a, b, c, d);
    Tagged(0x06, [a, b, c, d], rest);
    Tagged(0x17, [a, b, c, d], rest);
  }

  lemma {:induction false} SignedOfRaw(width: nat, raw: nat, n: int)
    requires 0 < width && raw < Pow256(width) && AsSigned(raw, width) == n
    ensures FromRaw(Signed(width), raw) == Whole(n)
  {}

  /** And double-long (0x05), in two's complement. */
  lemma {:induction false} DecodesDoubleLong(a: Byte, b: Byte, c: Byte, d: Byte, rest: seq<Byte>)
    ensures var n := DoubleLong(a, b, c, d);
      DecodedNumber([0x05] + [a, b, c, d] + rest) == Some(Whole(if n < 0x8000_0000 then n else n - 0x1_0000_0000))
  {
    var n := DoubleLong(a, b, c, d);
    BeNatLong(a, b, c, d);
    Tagged(0x05, [a, b, c, d], rest);
    Widths();
    SignedByWidth(n);
    SignedOfRaw(4, n, AsSigned(n, 4));
  }

  /** Eight bytes: long64-unsigned (0x15), in terms of its two double-long halves. */
  lemma {:induction false} DecodesEightBytes(a: Byte, b: Byte, c: Byte, d: Byte, e: Byte, f: Byte, g: Byte, h: Byte,
                                             rest: seq<Byte>)
    ensures DecodedNumber([0x15] + ([a, b, c, d] + [e, f, g, h]) + rest) ==
      Some(Whole(DoubleLong(a, b, c, d) * 0x1_0000_0000 + DoubleLong(e, f, g, h)))
  {
    BeNatLong(a, b, c, d);
    BeNatLonger([a, b, c, d], e, f, g, h);
    Tagged(0x15, [a, b, c, d] + [e, f, g, h], rest);
  }

  /** Bytes a value of each type takes behind its tag; none for a tag that is no number. */
  function TypeSize(tag: Byte): nat {
    match tag
    case 0x0F => 1
    case 0x11 => 1
    case 0x10 => 2
    case 0x12 => 2
    case 0x05 => 4
    case 0x06 => 4
    case 0x17 => 4
    case 0x15 => 8
    case _ => 0
  }

  /** Nothing else is a number: no other tag, and no value cut short. */
  lemma {:induction false} DecodesNothingElse(data: seq<Byte>)
    ensures DecodedNumber(data).None? <==> data == [] || TypeSize(data[0]) == 0 || |data| < 1 + TypeSize(data[0])
  {}

  /** decodeNumber()'s choice of size. */
  method SizeOf(tag: Byte) returns (size: nat)
    ensures size == if KindOf(tag).Some? then KindOf(tag).value.width else 0
  {
    size := 0;
    if tag == 0x0F || tag == 0x11 {
      size := 1;
    } else if tag == 0x10 || tag == 0x12 {
      size := 2;
    } else if tag == 0x05 || tag == 0x06 || tag == 0x17 {
      size := 4;
    } else if tag == 0x15 {
      size := 8;
    }
  }

  /** decodeNumber()'s last switch: a cast by type. */
  method CastRaw(tag: Byte, raw: nat) returns (n: Number)
    requires KindOf(tag).Some? && raw < Pow256(KindOf(tag).value.width)
    ensures n == FromRaw(KindOf(tag).value, raw)
  {
    Widths();
    if tag == 0x0F {
      n := Whole(if raw < 0x80 then raw else raw - 0x100);
    } else if tag == 0x10 {
      n := Whole(if raw < 0x8000 then raw else raw - 0x1_0000);
    } else if tag == 0x05 {
      n := Whole(if raw < 0x8000_0000 then raw else raw - 0x1_0000_0000);
    } else if tag == 0x17 {
      n := Float32(raw);
    } else {
      n := Whole(raw);
    }
  }

  /** decodeNumber() */
  method DecodeNumber(data: seq<Byte>) returns (r: Option<Number>)
    ensures r == DecodedNumber(data)
  {
    if |data| == 0 {
      return None;
    }
    var size := SizeOf(data[0]);
    if size == 0 {
      return None;
    }
    if |data| < 1 + size {
      return None;
    }
    var raw := 0;
    for i := 1 to size + 1
      invariant raw == BeNat(data[1..i])
    {
      assert data[1..i + 1][..i - 1] == data[1..i];
      raw := raw * 256 + data[i] as nat;
    }
    BeOfBeNat(data[1..1 + size]);
    var n := CastRaw(data[0], raw);
    return Some(n);
  }

  // ------------------------------------------------------------- scaler and unit

  ghost function EncodeScalerUnit(scaler: int, unit: Byte): seq<Byte>
    requires -0x80 <= scaler < 0x80
  {
    [0x02, 0x02, 0x0F, ToByte(if scaler < 0 then scaler + 0x100 else scaler), 0x16, unit]
  }

  /** decodeScalerUnit(): accepts exactly the structure a meter encodes for this unit. */
  method DecodeScalerUnit(data: seq<Byte>, unit: Byte) returns (scaler: Option<int>)
    ensures scaler.Some? ==>
        -0x80 <= scaler.value < 0x80 && data == EncodeScalerUnit(scaler.value, unit)
    ensures scaler.None? ==> forall s :: -0x80 <= s < 0x80 ==> data != EncodeScalerUnit(s, unit)
  {
    if |data| != 6 || data[0] != 0x02 || data[1] != 0x02 || data[2] != 0x0F || data[4] != 0x16 {
      return None;
    }
    if data[5] != unit {
      return None;
    }
    ToByteOfNat(data[3]);
    var raw := data[3] as int;
    return Some(if raw < 0x80 then raw else raw - 0x100);
  }

  /** No two scalers encode alike. */
  lemma {:induction false} ScalerUnique(s: int, t: int, unit: Byte)
    requires -0x80 <= s < 0x80 && -0x80 <= t < 0x80 && EncodeScalerUnit(s, unit) == EncodeScalerUnit(t, unit)
    ensures s == t
  {
    assert EncodeScalerUnit(s, unit)[3] == EncodeScalerUnit(t, unit)[3];
  }

  /** The scaler Data carries for this unit, if it is a scaler_unit. */
  ghost function ScalerOf(data: seq<Byte>, unit: Byte): (r: Option<int>)
    ensures r.Some? ==> -0x80 <= r.value < 0x80 && data == EncodeScalerUnit(r.value, unit)
    ensures r.None? ==> forall s :: -0x80 <= s < 0x80 ==> data != EncodeScalerUnit(s, unit)
  {
    if exists s :: -0x80 <= s < 0x80 && data == EncodeScalerUnit(s, unit)
    then var s :| -0x80 <= s < 0x80 && data == EncodeScalerUnit(s, unit); Some(s)
    else None
  }

  // ----------------------------------------------------------------- the scaler

  function Pow10(n: nat): (p: real)
    ensures p >= 1.0
  {
    if n == 0 then 1.0 else 10.0 * Pow10(n - 1)
  }

  /** value x 10^scaler, over the reals. */
  function Scaled(value: real, scaler: int): real {
    if scaler < 0 then value / Pow10(-scaler) else value * Pow10(scaler)
  }

  /** applyScaler() */
  method ApplyScaler(value: real, scaler: int) returns (r: real)
    requires -0x80 <= scaler < 0x80
    ensures r == Scaled(value, scaler)
  {
    var power := 1.0;
    var count := if scaler < 0 then -scaler else scaler;
    for i := 0 to count
      invariant power == Pow10(i)
    {
      power := power * 10.0;
    }
    return if scaler < 0 then value / power else value * power;
  }

  lemma {:induction false} DivideBack(v: real, p: real)
    requires p > 0.0
    ensures v * p / p == v && v / p * p == v
  {}

  /** A scaler is undone by its negative. */
  lemma {:induction false} ScaledInverse(v: real, scaler: int)
    ensures Scaled(Scaled(v, scaler), -scaler) == v
  {
    if scaler < 0 { DivideBack(v, Pow10(-scaler)); } else { DivideBack(v, Pow10(scaler)); }
  }

  /** One more power of ten is one more factor of ten, across zero too. */
  lemma {:induction false} ScaledStep(v: real, scaler: int)
    ensures Scaled(v, scaler + 1) == 10.0 * Scaled(v, scaler)
  {
    if scaler < 0 {
      var p := Pow10(-scaler - 1);
      assert Pow10(-scaler) == 10.0 * p;
      assert v / p == 10.0 * (v / (10.0 * p)) by { DivideBack(v / (10.0 * p), 10.0 * p); DivideBack(v / p, p); }
    }
  }

  // --------------------------------------------------------------- GET response

  const GET_RESPONSE: seq<Byte> := [0xC4, 0x01, 0xC1, 0x00]

  function GetResponse(data: seq<Byte>): seq<Byte> { GET_RESPONSE + data }

  /** parseGetResponse(): finds Data exactly behind the one header it expects. */
  method ParseGetResponse(apdu: seq<Byte>) returns (data: Option<seq<Byte>>)
    ensures data.Some? ==> data.value != [] && apdu == GetResponse(data.value)
    ensures data.None? ==> forall d :: d != [] ==> apdu != GetResponse(d)
  {
    if |apdu| < 4 || apdu[0] != 0xC4 {
      return None;
    }
    if apdu[1] == 0x02 {
      return None;
    }
    if apdu[1] != 0x01 || apdu[2] != 0xC1 {
      return None;
    }
    if apdu[3] == 0x01 && |apdu| > 4 {
      return None;
    }
    if apdu[3] != 0x00 || |apdu| == 4 {
      return None;
    }
    assert apdu == GetResponse(apdu[4..]);
    return Some(apdu[4..]);
  }

  /** The Data a GET response carries. */
  ghost function DataOf(apdu: seq<Byte>): (r: Option<seq<Byte>>)
    ensures r.Some? ==> r.value != [] && apdu == GetResponse(r.value)
    ensures r.None? ==> forall d :: d != [] ==> apdu != GetResponse(d)
  {
    if |apdu| > 4 && apdu[..4] == GET_RESPONSE then
      assert apdu == GetResponse(apdu[4..]);
      Some(apdu[4..])
    else None
  }

  lemma {:induction false} GetResponseUnique(d: seq<Byte>, e: seq<Byte>)
    requires GetResponse(d) == GetResponse(e)
    ensures d == e
  {
    assert d == GetResponse(d)[4..] && e == GetResponse(e)[4..];
  }
}
