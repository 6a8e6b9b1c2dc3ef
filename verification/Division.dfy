/** Polynomials over GF(2) as bit strings, the highest power first, and their long division. */
module Division {
  /** The sum of two polynomials, coefficient by coefficient. */
  function Sum(a: seq<bool>, b: seq<bool>): (s: seq<bool>)
    requires |a| == |b|
    ensures |s| == |a| && forall i :: 0 <= i < |a| ==> s[i] == (a[i] != b[i])
  {
    seq(|a|, i requires 0 <= i < |a| => a[i] != b[i])
  }

  /** The polynomial whose exponents are given, of degree sixteen. */
  function Sixteenth(powers: set<nat>): (g: seq<bool>)
    ensures |g| == 17 && forall i :: 0 <= i < 17 ==> g[i] == (16 - i in powers)
  {
    seq(17, i requires 0 <= i < 17 => 16 - i in powers)
  }

  function Zeros(n: nat): (z: seq<bool>)
    ensures |z| == n && forall i :: 0 <= i < n ==> !z[i]
  {
    seq(n, _ => false)
  }

  /** Long division by g: while the dividend is long enough, cancel its leading coefficient. */
  function Remainder(g: seq<bool>, p: seq<bool>): (r: seq<bool>)
    requires g != [] && g[0]
    ensures |r| == if |p| < |g| then |p| else |g| - 1
    decreases |p|
  {
    if |p| < |g| then p
    else if p[0] then Remainder(g, Sum(p[..|g|], g)[1..] + p[|g|..])
    else Remainder(g, p[1..])
  }

  /** A register of |g| - 1 coefficients takes in one more coefficient of the dividend. */
  function Shift(g: seq<bool>, r: seq<bool>, b: bool): (s: seq<bool>)
    requires |g| == |r| + 1 && r != []
    ensures |s| == |r|
  {
    if r[0] != b then Sum(r[1..] + [false], g[1..]) else r[1..] + [false]
  }

  function Feed(g: seq<bool>, r: seq<bool>, bits: seq<bool>): (s: seq<bool>)
    requires |g| == |r| + 1 && r != []
    ensures |s| == |r|
    decreases |bits|
  {
    if bits == [] then r else Feed(g, Shift(g, r, bits[0]), bits[1..])
  }

  /** The longer one with the shorter one added to its highest powers. */
  function Over(r: seq<bool>, rest: seq<bool>): (s: seq<bool>)
    requires |r| <= |rest|
    ensures |s| == |rest|
  {
    Sum(r, rest[..|r|]) + rest[|r|..]
  }

  /** One division step is one shift of the register that lies over the dividend. */
  lemma {:induction false} ShiftDivides(g: seq<bool>, r: seq<bool>, rest: seq<bool>)
    requires |g| == |r| + 1 && r != [] && g[0] && |rest| > |r|
    ensures Remainder(g, Over(r, rest)) == Remainder(g, Over(Shift(g, r, rest[0]), rest[1..]))
  {
    var p := Over(r, rest);
    var q := Over(Shift(g, r, rest[0]), rest[1..]);
    assert p[0] == (r[0] != rest[0]);
    if p[0] {
      assert Sum(p[..|g|], g)[1..] + p[|g|..] == q;
    } else {
      assert p[1..] == q;
    }
  }

  /** Fed the dividend up to its last |r| coefficients, the register is their remainder. */
  lemma {:induction false} FeedDivides(g: seq<bool>, r: seq<bool>, bits: seq<bool>, tail: seq<bool>)
    requires |g| == |r| + 1 && r != [] && g[0] && |tail| == |r|
    ensures Remainder(g, Over(r, bits + tail)) == Sum(Feed(g, r, bits), tail)
    decreases |bits|
  {
    if bits == [] {
      assert bits + tail == tail;
      assert Over(r, tail) == Sum(r, tail);
    } else {
      assert (bits + tail)[0] == bits[0] && (bits + tail)[1..] == bits[1..] + tail;
      ShiftDivides(g, r, bits + tail);
      FeedDivides(g, Shift(g, r, bits[0]), bits[1..], tail);
    }
  }

  lemma {:induction false} FeedAppend(g: seq<bool>, r: seq<bool>, a: seq<bool>, b: seq<bool>)
    requires |g| == |r| + 1 && r != []
    ensures Feed(g, r, a + b) == Feed(g, Feed(g, r, a), b)
    decreases |a|
  {
    if a == [] {
      assert a + b == b;
    } else {
      assert (a + b)[0] == a[0] && (a + b)[1..] == a[1..] + b;
      FeedAppend(g, Shift(g, r, a[0]), a[1..], b);
    }
  }

  /** Coefficients may be added to the register ahead of the shifts that reach them. */
  lemma {:induction false} ShiftAhead(g: seq<bool>, r: seq<bool>, bits: seq<bool>)
    requires |g| == |r| + 1 && r != [] && 0 < |bits| <= |r|
    ensures Shift(g, Over(bits, r), false) == Over(bits[1..], Shift(g, r, bits[0]))
  {
    var p, s := Over(bits, r), Shift(g, r, bits[0]);
    assert p[0] == (r[0] != bits[0]);
    var q := p[1..] + [false];
    assert q == Over(bits[1..], r[1..] + [false]);
    if p[0] {
      assert Sum(q, g[1..]) == Over(bits[1..], s);
    }
  }

  lemma {:induction false} FeedAhead(g: seq<bool>, r: seq<bool>, bits: seq<bool>)
    requires |g| == |r| + 1 && r != [] && |bits| <= |r|
    ensures Feed(g, r, bits) == Feed(g, Over(bits, r), Zeros(|bits|))
    decreases |bits|
  {
    if bits == [] {
      assert Over(bits, r) == r;
    } else {
      ShiftAhead(g, r, bits);
      assert Zeros(|bits|)[1..] == Zeros(|bits| - 1);
      FeedAhead(g, Shift(g, r, bits[0]), bits[1..]);
    }
  }
}

/** What the two checks are of a message: the remainders of its division by the generators
    of ITU-T V.41 and of the Modbus serial line specification. */
module CrcDivision {
  import opened Wire
  import opened Registers
  import opened Crc
  import opened Division

  /** x^16 + x^12 + x^5 + 1 and x^16 + x^15 + x^2 + 1 */
  const HDLC_POWERS: set<nat> := {16, 12, 5, 0}
  const MODBUS_POWERS: set<nat> := {16, 15, 2, 0}

  /** The n-th bit, from the least significant one. */
  function Mask(n: nat): bv16 {
    if n == 0 then 1 else Mask(n - 1) << 1
  }

  /** A register in the order its bits are sent. */
  function RegisterBits(c: bv16): (s: seq<bool>)
    ensures |s| == 16
  {
    seq(16, i requires 0 <= i < 16 => c & Mask(i) != 0)
  }

  /** And a byte. */
  function ByteBits(b: Byte): (s: seq<bool>)
    ensures |s| == 8
  {
    RegisterBits(b as bv16)[..8]
  }

  /** A message as a polynomial, the first bit sent its highest power. */
  function Bits(data: seq<Byte>): (s: seq<bool>)
    ensures |s| == 8 * |data|
  {
    if data == [] then [] else ByteBits(data[0]) + Bits(data[1..])
  }

  /** The first sixteen coefficients inverted. */
  function Inverted(p: seq<bool>): (q: seq<bool>)
    requires |p| >= 16
    ensures |q| == |p|
    ensures forall i :: 0 <= i < |p| ==> q[i] == (if i < 16 then !p[i] else p[i])
  {
    seq(|p|, i requires 0 <= i < |p| => if i < 16 then !p[i] else p[i])
  }

  /** One step of the register is one step of the division. */
  ghost predicate Divides(bit: bv16 -> bv16, g: seq<bool>) {
    && |g| == 17 && g[0]
    && forall c :: RegisterBits(bit(c)) == Shift(g, RegisterBits(c), false)
  }

  // Bit vectors stay in lemmas of their own, apart from the sequences of bits.

  lemma {:induction false} MasksToSeven()
    ensures Mask(0) == 0x01 && Mask(1) == 0x02 && Mask(2) == 0x04 && Mask(3) == 0x08
    ensures Mask(4) == 0x10 && Mask(5) == 0x20 && Mask(6) == 0x40 && Mask(7) == 0x80
  {}

  lemma {:induction false} Masks()
    ensures Mask(0) == 0x0001 && Mask(1) == 0x0002 && Mask(2) == 0x0004 && Mask(3) == 0x0008
    ensures Mask(4) == 0x0010 && Mask(5) == 0x0020 && Mask(6) == 0x0040 && Mask(7) == 0x0080
    ensures Mask(8) == 0x0100 && Mask(9) == 0x0200 && Mask(10) == 0x0400 && Mask(11) == 0x0800
    ensures Mask(12) == 0x1000 && Mask(13) == 0x2000 && Mask(14) == 0x4000 && Mask(15) == 0x8000
  {
    MasksToSeven();
  }

  lemma {:induction false} MaskIsOneBit(n: nat)
    requires n < 16
    ensures Mask(n) != 0 && Mask(n) & (Mask(n) - 1) == 0
    ensures n < 15 ==> Mask(n) < 0x8000
    ensures n >= 8 ==> Mask(n) >= 0x100
  {
    Masks();
  }

  lemma {:induction false} SumBit(c: bv16, d: bv16, m: bv16)
    requires m & (m - 1) == 0
    ensures ((c ^ d) & m != 0) == ((c & m != 0) != (d & m != 0))
  {}

  lemma {:induction false} HalfBit(c: bv16, m: bv16)
    requires m < 0x8000
    ensures ((c >> 1) & m != 0) == (c & (m << 1) != 0)
  {}

  lemma {:induction false} TopBit(c: bv16)
    ensures (c >> 1) & 0x8000 == 0
  {}

  lemma {:induction false} ByteBit(x: bv16, m: bv16)
    requires x < 0x100 && m & (m - 1) == 0 && m >= 0x100
    ensures x & m == 0
  {}

  lemma {:induction false} SumBits(c: bv16, d: bv16)
    ensures RegisterBits(c ^ d) == Sum(RegisterBits(c), RegisterBits(d))
  {
    forall i | 0 <= i < 16
      ensures RegisterBits(c ^ d)[i] == (RegisterBits(c)[i] != RegisterBits(d)[i])
    {
      MaskIsOneBit(i);
      SumBit(c, d, Mask(i));
    }
  }

  lemma {:induction false} HalfBits(c: bv16)
    ensures RegisterBits(c >> 1) == RegisterBits(c)[1..] + [false]
  {
    var h, r := RegisterBits(c >> 1), RegisterBits(c)[1..];
    forall i | 0 <= i < 15 ensures h[i] == r[i] {
      MaskIsOneBit(i);
      HalfBit(c, Mask(i));
    }
    Masks();
    TopBit(c);
  }

  lemma {:induction false} HdlcGenerator()
    ensures RegisterBits(0x8408) == Sixteenth(HDLC_POWERS)[1..]
  {
    var r, g := RegisterBits(0x8408), Sixteenth(HDLC_POWERS)[1..];
    Masks();
    assert r[0] == g[0] && r[1] == g[1] && r[2] == g[2] && r[3] == g[3];
    assert r[4] == g[4] && r[5] == g[5] && r[6] == g[6] && r[7] == g[7];
    assert r[8] == g[8] && r[9] == g[9] && r[10] == g[10] && r[11] == g[11];
    assert r[12] == g[12] && r[13] == g[13] && r[14] == g[14] && r[15] == g[15];
  }

  lemma {:induction false} ModbusGenerator()
    ensures RegisterBits(0xA001) == Sixteenth(MODBUS_POWERS)[1..]
  {
    var r, g := RegisterBits(0xA001), Sixteenth(MODBUS_POWERS)[1..];
    Masks();
    assert r[0] == g[0] && r[1] == g[1] && r[2] == g[2] && r[3] == g[3];
    assert r[4] == g[4] && r[5] == g[5] && r[6] == g[6] && r[7] == g[7];
    assert r[8] == g[8] && r[9] == g[9] && r[10] == g[10] && r[11] == g[11];
    assert r[12] == g[12] && r[13] == g[13] && r[14] == g[14] && r[15] == g[15];
  }

  lemma {:induction false} LowestBit(c: bv16)
    ensures RegisterBits(c)[0] == (c & 1 != 0)
  {}

  lemma {:induction false} HdlcDivides()
    ensures Divides(HdlcBit, Sixteenth(HDLC_POWERS))
  {
    var g := Sixteenth(HDLC_POWERS);
    HdlcGenerator();
    forall c ensures RegisterBits(HdlcBit(c)) == Shift(g, RegisterBits(c), false) {
      HalfBits(c);
      LowestBit(c);
      SumBits(c >> 1, 0x8408);
    }
  }

  lemma {:induction false} ModbusDivides()
    ensures Divides(ModbusBit, Sixteenth(MODBUS_POWERS))
  {
    var g := Sixteenth(MODBUS_POWERS);
    ModbusGenerator();
    forall c ensures RegisterBits(ModbusBit(c)) == Shift(g, RegisterBits(c), false) {
      HalfBits(c);
      LowestBit(c);
      SumBits(c >> 1, 0xA001);
    }
  }

  lemma {:induction false} SumOfShort(p: seq<bool>, q: seq<bool>)
    requires |p| == |q| == 16 && forall i :: 8 <= i < 16 ==> !q[i]
    ensures Sum(p, q) == Over(q[..8], p)
  {
    var r := Over(q[..8], p);
    forall i | 0 <= i < 16 ensures Sum(p, q)[i] == r[i] {}
  }

  lemma {:induction false} ShortBits(x: bv16)
    requires x < 0x100
    ensures forall i :: 8 <= i < 16 ==> !RegisterBits(x)[i]
  {
    forall i | 8 <= i < 16 ensures !RegisterBits(x)[i] {
      MaskIsOneBit(i);
      ByteBit(x, Mask(i));
    }
  }

  lemma {:induction false} Widened(b: Byte)
    ensures b as bv16 < 0x100
  {}

  lemma {:induction false} MixBits(c: bv16, b: Byte)
    ensures RegisterBits(Mix(c, b)) == Over(ByteBits(b), RegisterBits(c))
  {
    var x := b as bv16;
    Widened(b);
    SumBits(c, x);
    ShortBits(x);
    SumOfShort(RegisterBits(c), RegisterBits(x));
  }

  lemma {:induction false} IterFeeds(bit: bv16 -> bv16, g: seq<bool>, c: bv16, n: nat)
    requires Divides(bit, g)
    ensures RegisterBits(Iter(bit, c, n)) == Feed(g, RegisterBits(c), Zeros(n))
    decreases n
  {
    if n > 0 {
      IterFeeds(bit, g, c, n - 1);
      assert Zeros(n) == Zeros(n - 1) + [false];
      var r := Feed(g, RegisterBits(c), Zeros(n - 1));
      FeedAppend(g, RegisterBits(c), Zeros(n - 1), [false]);
      assert Feed(g, r, [false]) == Shift(g, r, false);
    }
  }

  lemma {:induction false} StepFeeds(bit: bv16 -> bv16, g: seq<bool>, c: bv16, b: Byte)
    requires Divides(bit, g)
    ensures RegisterBits(ByteStep(bit, c, b)) == Feed(g, RegisterBits(c), ByteBits(b))
  {
    IterFeeds(bit, g, Mix(c, b), 8);
    MixBits(c, b);
    FeedAhead(g, RegisterBits(c), ByteBits(b));
  }

  lemma {:induction false} FoldFeeds(bit: bv16 -> bv16, step: (bv16, Byte) -> bv16, g: seq<bool>, c: bv16,
                                     data: seq<Byte>)
    requires Divides(bit, g) && forall d, b :: step(d, b) == ByteStep(bit, d, b)
    ensures RegisterBits(Fold(step, c, data)) == Feed(g, RegisterBits(c), Bits(data))
    decreases |data|
  {
    if data != [] {
      var d := step(c, data[0]);
      StepFeeds(bit, g, c, data[0]);
      FeedAppend(g, RegisterBits(c), ByteBits(data[0]), Bits(data[1..]));
      FoldFeeds(bit, step, g, d, data[1..]);
    }
  }

  lemma {:induction false} AllOnes(m: bv16)
    ensures 0xFFFF & m == m
  {}

  lemma {:induction false} StartBits()
    ensures forall i :: 0 <= i < 16 ==> RegisterBits(START)[i]
  {
    forall i | 0 <= i < 16 ensures RegisterBits(START)[i] {
      MaskIsOneBit(i);
      AllOnes(Mask(i));
    }
  }

  lemma {:induction false} StartInverts(p: seq<bool>)
    requires |p| >= 16
    ensures Over(RegisterBits(START), p) == Inverted(p)
  {
    var q := Over(RegisterBits(START), p);
    StartBits();
    forall i | 0 <= i < |p| ensures q[i] == Inverted(p)[i] {}
  }

  /** The message, its first sixteen bits inverted, is divided with any sixteen bits behind it. */
  lemma {:induction false} HdlcRemainder(data: seq<Byte>, tail: seq<bool>)
    requires |tail| == 16
    ensures Remainder(Sixteenth(HDLC_POWERS), Inverted(Bits(data) + tail))
         == Sum(RegisterBits(Fold(HdlcStep, START, data)), tail)
  {
    var g := Sixteenth(HDLC_POWERS);
    HdlcDivides();
    FoldFeeds(HdlcBit, HdlcStep, g, START, data);
    FeedDivides(g, RegisterBits(START), Bits(data), tail);
    StartInverts(Bits(data) + tail);
  }

  lemma {:induction false} ModbusRemainder(data: seq<Byte>, tail: seq<bool>)
    requires |tail| == 16
    ensures Remainder(Sixteenth(MODBUS_POWERS), Inverted(Bits(data) + tail))
         == Sum(RegisterBits(Fold(ModbusStep, START, data)), tail)
  {
    var g := Sixteenth(MODBUS_POWERS);
    ModbusDivides();
    FoldFeeds(ModbusBit, ModbusStep, g, START, data);
    FeedDivides(g, RegisterBits(START), Bits(data), tail);
    StartInverts(Bits(data) + tail);
  }

  // -------------------------------------------------------------- check bytes

  lemma {:induction false} BitsAppend(a: seq<Byte>, b: seq<Byte>)
    ensures Bits(a + b) == Bits(a) + Bits(b)
    decreases |a|
  {
    if a == [] {
      assert a + b == b;
    } else {
      assert (a + b)[0] == a[0] && (a + b)[1..] == a[1..] + b;
      BitsAppend(a[1..], b);
    }
  }

  lemma {:induction false} NoBits(c: bv16)
    requires c & 0x0001 == 0 && c & 0x0002 == 0 && c & 0x0004 == 0 && c & 0x0008 == 0
    requires c & 0x0010 == 0 && c & 0x0020 == 0 && c & 0x0040 == 0 && c & 0x0080 == 0
    requires c & 0x0100 == 0 && c & 0x0200 == 0 && c & 0x0400 == 0 && c & 0x0800 == 0
    requires c & 0x1000 == 0 && c & 0x2000 == 0 && c & 0x4000 == 0 && c & 0x8000 == 0
    ensures c == 0
  {}

  lemma {:induction false} NoRegisterBits(c: bv16)
    requires forall i :: 0 <= i < 16 ==> !RegisterBits(c)[i]
    ensures c == 0
  {
    var r := RegisterBits(c);
    Masks();
    assert !r[0] && !r[1] && !r[2] && !r[3] && !r[4] && !r[5] && !r[6] && !r[7];
    assert !r[8] && !r[9] && !r[10] && !r[11] && !r[12] && !r[13] && !r[14] && !r[15];
    NoBits(c);
  }

  lemma {:induction false} SumZero(c: bv16, d: bv16)
    requires c ^ d == 0
    ensures c == d
  {}

  lemma {:induction false} RegisterBitsInjective(c: bv16, d: bv16)
    requires RegisterBits(c) == RegisterBits(d)
    ensures c == d
  {
    SumBits(c, d);
    NoRegisterBits(c ^ d);
    SumZero(c, d);
  }

  lemma {:induction false} MaskOfHigh(n: nat)
    requires n < 8
    ensures Mask(n + 8) == Mask(n) << 8
    ensures Mask(n) < 0x100
  {
    Masks();
  }

  lemma {:induction false} LowBit(c: bv16, m: bv16)
    requires m < 0x100
    ensures (Crc.Low(c) as bv16) & m == c & m
  {}

  lemma {:induction false} HighBit(c: bv16, m: bv16)
    requires m < 0x100
    ensures ((High(c) as bv16) & m != 0) == (c & (m << 8) != 0)
  {}

  lemma {:induction false} LowBits(c: bv16, i: nat)
    requires i < 8
    ensures ByteBits(Crc.Low(c))[i] == RegisterBits(c)[i]
  {
    MaskOfHigh(i);
    LowBit(c, Mask(i));
  }

  lemma {:induction false} HighBits(c: bv16, i: nat)
    requires i < 8
    ensures ByteBits(High(c))[i] == RegisterBits(c)[i + 8]
  {
    MaskOfHigh(i);
    HighBit(c, Mask(i));
  }

  lemma {:induction false} BitsOfTwo(x: Byte, y: Byte)
    ensures Bits([x, y]) == ByteBits(x) + ByteBits(y)
  {
    assert [x, y][1..] == [y] && [y][1..] == [];
    assert Bits([y]) == ByteBits(y) + Bits([]);
  }

  /** The check bytes of a register, in the order they are sent, are its bits in that order. */
  lemma {:induction false} BytesBits(c: bv16)
    ensures Bits(Bytes(c)) == RegisterBits(c)
  {
    var l, h, r := ByteBits(Crc.Low(c)), ByteBits(High(c)), RegisterBits(c);
    BitsOfTwo(Crc.Low(c), High(c));
    forall i | 0 <= i < 16 ensures (l + h)[i] == r[i] {
      if i < 8 { LowBits(c, i); } else { HighBits(c, i - 8); }
    }
  }

  lemma {:induction false} SameBytes(check: seq<Byte>)
    requires |check| == 2
    ensures exists c :: check == Bytes(c)
  {
    var c := ((check[1] as bv16) << 8) | (check[0] as bv16);
    assert Crc.Low(c) == check[0] && High(c) == check[1];
    assert check == Bytes(c);
  }

  lemma {:induction false} CheckBits(check: seq<Byte>, c: bv16)
    requires |check| == 2
    ensures check == Bytes(c) <==> Bits(check) == RegisterBits(c)
  {
    SameBytes(check);
    var d :| check == Bytes(d);
    BytesBits(c);
    BytesBits(d);
    if RegisterBits(c) == RegisterBits(d) {
      RegisterBitsInjective(c, d);
    }
  }

  lemma {:induction false} SumIsZero(p: seq<bool>, q: seq<bool>)
    requires |p| == |q|
    ensures Sum(p, q) == Zeros(|p|) <==> q == p
  {
    var s := Sum(p, q);
    if s == Zeros(|p|) {
      forall i | 0 <= i < |p| ensures q[i] == p[i] {
        assert !s[i];
      }
    }
  }

  function Ones(n: nat): (z: seq<bool>)
    ensures |z| == n && forall i :: 0 <= i < n ==> z[i]
  {
    seq(n, _ => true)
  }

  lemma {:induction false} ComplementIsSum(c: bv16)
    ensures !c == c ^ 0xFFFF
  {}

  lemma {:induction false} ComplementBits(c: bv16)
    ensures forall i :: 0 <= i < 16 ==> RegisterBits(!c)[i] == !RegisterBits(c)[i]
  {
    ComplementIsSum(c);
    SumBits(c, START);
    StartBits();
  }

  lemma {:induction false} SumIsOnes(p: seq<bool>, q: seq<bool>, n: seq<bool>)
    requires |p| == |q| == |n| && forall i :: 0 <= i < |p| ==> n[i] == !p[i]
    ensures Sum(p, q) == Ones(|p|) <==> q == n
  {
    var s := Sum(p, q);
    if s == Ones(|p|) {
      forall i | 0 <= i < |p| ensures q[i] == n[i] {
        assert s[i];
      }
    }
  }

  /** A frame passes the Modbus check exactly when its bits, the first sixteen inverted,
      are a multiple of x^16 + x^15 + x^2 + 1. */
  lemma {:induction false} CrcOkIff(s: seq<Byte>)
    requires |s| >= 2
    ensures CrcOk(s) <==> Remainder(Sixteenth({16, 15, 2, 0}), Inverted(Bits(s))) == Zeros(16)
  {
    var data, check := s[..|s| - 2], s[|s| - 2..];
    var c := ModbusCrc(data);
    assert s == data + check;
    BitsAppend(data, check);
    ModbusRemainder(data, Bits(check));
    SumIsZero(RegisterBits(c), Bits(check));
    CheckBits(check, c);
  }

  /** And the HDLC check exactly when they leave sixteen ones over on division by
      x^16 + x^12 + x^5 + 1. */
  lemma {:induction false} FcsOkIff(s: seq<Byte>)
    requires |s| >= 2
    ensures FcsOk(s) <==> Remainder(Sixteenth({16, 12, 5, 0}), Inverted(Bits(s))) == Ones(16)
  {
    var data, check := s[..|s| - 2], s[|s| - 2..];
    var c := Fold(HdlcStep, START, data);
    assert s == data + check;
    BitsAppend(data, check);
    HdlcRemainder(data, Bits(check));
    ComplementBits(c);
    SumIsOnes(RegisterBits(c), Bits(check), RegisterBits(!c));
    CheckBits(check, !c);
  }

  lemma {:induction false} NextRegister(c: bv16, b: Byte, d: bv16)
    requires ModbusEight(c ^ (b as bv16)) == d
    ensures ModbusStep(c, b) == d
  {
    ModbusIter(Mix(c, b));
  }

  /** The checks of the empty message, and of the request for two registers from 0 on. */
  lemma {:induction false} KnownChecks()
    ensures ModbusCrc([]) == 0xFFFF && Fcs([]) == 0x0000
    ensures ModbusCrc([0x01, 0x03, 0x00, 0x00, 0x00, 0x02]) == 0x0BC4
  {
    var s: seq<Byte> := [0x01, 0x03, 0x00, 0x00, 0x00, 0x02];
    assert s[1..][1..][1..] == [0x00, 0x00, 0x02];
    NextRegister(0xFFFF, 0x01, 0x807E);
    NextRegister(0x807E, 0x03, 0x2140);
    NextRegister(0x2140, 0x00, 0xF020);
    NextRegister(0xF020, 0x00, 0xD8F1);
    NextRegister(0xD8F1, 0x00, 0x8419);
    NextRegister(0x8419, 0x02, 0x0BC4);
  }
}
