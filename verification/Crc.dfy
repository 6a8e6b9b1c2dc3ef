/** A checksum register fed byte by byte, whatever the register is. */
module Registers {
  import opened Wire

  function Iter<R>(f: R -> R, c: R, n: nat): R {
    if n == 0 then c else f(Iter(f, c, n - 1))
  }

  /** A byte string through the register. */
  function Fold<R>(step: (R, Byte) -> R, c: R, data: seq<Byte>): R
    decreases |data|
  {
    if data == [] then c else Fold(step, step(c, data[0]), data[1..])
  }

  ghost predicate Injective<R(!new)>(f: R -> R) {
    forall c, d :: f(c) == f(d) ==> c == d
  }

  lemma {:induction false} IterInjective<R(!new)>(f: R -> R, c: R, d: R, n: nat)
    requires Injective(f) && Iter(f, c, n) == Iter(f, d, n)
    ensures c == d
    decreases n
  {
    if n > 0 {
      IterInjective(f, c, d, n - 1);
    }
  }

  lemma {:induction false} IterEight<R>(f: R -> R, c: R)
    ensures Iter(f, c, 8) == f(f(f(f(f(f(f(f(c))))))))
  {
    var c1 := Iter(f, c, 1);
    var c2 := Iter(f, c, 2);
    var c3 := Iter(f, c, 3);
    var c4 := Iter(f, c, 4);
    var c5 := Iter(f, c, 5);
    var c6 := Iter(f, c, 6);
    var c7 := Iter(f, c, 7);
    assert Iter(f, c, 0) == c;
    assert c1 == f(c) && c2 == f(c1) && c3 == f(c2) && c4 == f(c3);
    assert c5 == f(c4) && c6 == f(c5) && c7 == f(c6);
  }

  lemma {:induction false} FoldAppend<R>(step: (R, Byte) -> R, c: R, a: seq<Byte>, b: seq<Byte>)
    ensures Fold(step, c, a + b) == Fold(step, Fold(step, c, a), b)
    decreases |a|
  {
    if a == [] {
      assert a + b == b;
    } else {
      assert (a + b)[0] == a[0] && (a + b)[1..] == a[1..] + b;
      FoldAppend(step, step(c, a[0]), a[1..], b);
    }
  }

  lemma {:induction false} FoldNext<R>(step: (R, Byte) -> R, c: R, data: seq<Byte>, i: nat)
    requires i < |data|
    ensures Fold(step, c, data[i..]) == Fold(step, step(c, data[i]), data[i + 1..])
  {
    assert data[i..][0] == data[i] && data[i..][1..] == data[i + 1..];
  }

  lemma {:induction false} FoldTwo<R>(step: (R, Byte) -> R, c: R, x: Byte, y: Byte)
    ensures Fold(step, c, [x, y]) == step(step(c, x), y)
  {
    assert [x, y][1..] == [y] && [y][1..] == [];
    assert Fold(step, step(c, x), [y]) == Fold(step, step(step(c, x), y), []);
  }

  /** The register before a byte can be told from the register after it. */
  ghost predicate Invertible<R(!new)>(step: (R, Byte) -> R) {
    forall c, d, b :: step(c, b) == step(d, b) ==> c == d
  }

  /** From a common register, what two bytes leave behind tells which two they were. */
  ghost predicate TellsPairs<R(!new)>(step: (R, Byte) -> R) {
    forall c, a, b, x, y :: step(step(c, a), b) == step(step(c, x), y) ==> a == x && b == y
  }

  /** A difference in the register survives any equal bytes that follow. */
  lemma {:induction false} FoldInjective<R(!new)>(step: (R, Byte) -> R, c: R, d: R, data: seq<Byte>)
    requires Invertible(step) && Fold(step, c, data) == Fold(step, d, data)
    ensures c == d
    decreases |data|
  {
    if data != [] {
      var b := data[0];
      FoldInjective(step, step(c, b), step(d, b), data[1..]);
      assert step(c, b) == step(d, b);
    }
  }

  /** s and t differ at most at k and k + 1. */
  ghost predicate DifferOnlyAt(s: seq<Byte>, t: seq<Byte>, k: nat) {
    |s| == |t| && forall i :: 0 <= i < |s| && i != k && i != k + 1 ==> s[i] == t[i]
  }

  lemma {:induction false} WindowSplit(s: seq<Byte>, k: nat)
    requires k + 1 < |s|
    ensures s == s[..k] + ([s[k], s[k + 1]] + s[k + 2..])
  {}

  lemma {:induction false} FoldWindow<R>(step: (R, Byte) -> R, c: R, s: seq<Byte>, k: nat)
    requires k + 1 < |s|
    ensures Fold(step, c, s) == Fold(step, step(step(Fold(step, c, s[..k]), s[k]), s[k + 1]), s[k + 2..])
  {
    var c' := Fold(step, c, s[..k]);
    WindowSplit(s, k);
    FoldAppend(step, c, s[..k], [s[k], s[k + 1]] + s[k + 2..]);
    FoldAppend(step, c', [s[k], s[k + 1]], s[k + 2..]);
    FoldTwo(step, c', s[k], s[k + 1]);
  }

  /** Equal registers rule out any difference confined to two adjacent bytes, at any length. */
  lemma {:induction false} WindowDetected<R(!new)>(step: (R, Byte) -> R, c: R, s: seq<Byte>, t: seq<Byte>, k: nat)
    requires Invertible(step) && TellsPairs(step)
    requires k + 1 < |s| && DifferOnlyAt(s, t, k)
    requires Fold(step, c, s) == Fold(step, c, t)
    ensures s == t
  {
    assert s[..k] == t[..k] && s[k + 2..] == t[k + 2..];
    FoldWindow(step, c, s, k);
    FoldWindow(step, c, t, k);
    var c' := Fold(step, c, s[..k]);
    var a, b, x, y := s[k], s[k + 1], t[k], t[k + 1];
    FoldInjective(step, step(step(c', a), b), step(step(c', x), y), s[k + 2..]);
    assert step(step(c', a), b) == step(step(c', x), y);
    WindowSplit(s, k);
    WindowSplit(t, k);
  }
}

/** The two reflected CRC-16 checks: HDLC's FCS (RFC 1662, appendix C.2) and Modbus's CRC. */
module Crc {
  import opened Wire
  import opened Registers

  const START: bv16 := 0xFFFF

  /** One bit of the register's shift, for HDLC and for Modbus. */
  function HdlcBit(c: bv16): bv16 { if c & 1 != 0 then (c >> 1) ^ 0x8408 else c >> 1 }

  function ModbusBit(c: bv16): bv16 { if c & 1 != 0 then (c >> 1) ^ 0xA001 else c >> 1 }

  function Mix(c: bv16, b: Byte): bv16 { c ^ (b as bv16) }

  function ByteStep(bit: bv16 -> bv16, c: bv16, b: Byte): bv16 { Iter(bit, Mix(c, b), 8) }

  function HdlcStep(c: bv16, b: Byte): bv16 { ByteStep(HdlcBit, c, b) }

  function ModbusStep(c: bv16, b: Byte): bv16 { ByteStep(ModbusBit, c, b) }

  /** hdlcFcs() as a function: the complement of the register. */
  function Fcs(data: seq<Byte>): bv16 { !Fold(HdlcStep, START, data) }

  function ModbusCrc(data: seq<Byte>): bv16 { Fold(ModbusStep, START, data) }

  function Low(c: bv16): Byte { (c & 0xFF) as bv8 }

  function High(c: bv16): Byte { (c >> 8) as bv8 }

  /** Check bytes, low byte first as they are sent. */
  function Bytes(c: bv16): (s: seq<Byte>)
    ensures |s| == 2
  {
    [Low(c), High(c)]
  }

  // ---------------------------------------------------------------- bit level

  ghost predicate Linear(bit: bv16 -> bv16) {
    forall c, d :: bit(c ^ d) == bit(c) ^ bit(d)
  }

  /** A lone byte never cancels itself: eight steps leave a trace in the high byte. */
  ghost predicate TracesHigh(bit: bv16 -> bv16) {
    forall d: bv16 :: d < 0x100 && Iter(bit, d, 8) < 0x100 ==> d == 0
  }

  lemma {:induction false} HdlcBitInjective(c: bv16, d: bv16)
    requires HdlcBit(c) == HdlcBit(d)
    ensures c == d
  {}

  lemma {:induction false} ModbusBitInjective(c: bv16, d: bv16)
    requires ModbusBit(c) == ModbusBit(d)
    ensures c == d
  {}

  // A bit step distributes over exclusive or, whichever bits fall out; one lemma per
  // pair of low bits keeps each a single path.

  lemma {:induction false} HdlcOddOdd(c: bv16, d: bv16)
    requires c & 1 != 0 && d & 1 != 0
    ensures HdlcBit(c ^ d) == HdlcBit(c) ^ HdlcBit(d)
  {}

  lemma {:induction false} HdlcOddEven(c: bv16, d: bv16)
    requires c & 1 != 0 && d & 1 == 0
    ensures HdlcBit(c ^ d) == HdlcBit(c) ^ HdlcBit(d)
  {}

  lemma {:induction false} HdlcEvenOdd(c: bv16, d: bv16)
    requires c & 1 == 0 && d & 1 != 0
    ensures HdlcBit(c ^ d) == HdlcBit(c) ^ HdlcBit(d)
  {}

  lemma {:induction false} HdlcEvenEven(c: bv16, d: bv16)
    requires c & 1 == 0 && d & 1 == 0
    ensures HdlcBit(c ^ d) == HdlcBit(c) ^ HdlcBit(d)
  {}

  lemma {:induction false} HdlcBitLinear(c: bv16, d: bv16)
    ensures HdlcBit(c ^ d) == HdlcBit(c) ^ HdlcBit(d)
  {
    if c & 1 != 0 {
      if d & 1 != 0 { HdlcOddOdd(c, d); } else { HdlcOddEven(c, d); }
    } else {
      if d & 1 != 0 { HdlcEvenOdd(c, d); } else { HdlcEvenEven(c, d); }
    }
  }

  lemma {:induction false} ModbusOddOdd(c: bv16, d: bv16)
    requires c & 1 != 0 && d & 1 != 0
    ensures ModbusBit(c ^ d) == ModbusBit(c) ^ ModbusBit(d)
  {}

  lemma {:induction false} ModbusOddEven(c: bv16, d: bv16)
    requires c & 1 != 0 && d & 1 == 0
    ensures ModbusBit(c ^ d) == ModbusBit(c) ^ ModbusBit(d)
  {}

  lemma {:induction false} ModbusEvenOdd(c: bv16, d: bv16)
    requires c & 1 == 0 && d & 1 != 0
    ensures ModbusBit(c ^ d) == ModbusBit(c) ^ ModbusBit(d)
  {}

  lemma {:induction false} ModbusEvenEven(c: bv16, d: bv16)
    requires c & 1 == 0 && d & 1 == 0
    ensures ModbusBit(c ^ d) == ModbusBit(c) ^ ModbusBit(d)
  {}

  lemma {:induction false} ModbusBitLinear(c: bv16, d: bv16)
    ensures ModbusBit(c ^ d) == ModbusBit(c) ^ ModbusBit(d)
  {
    if c & 1 != 0 {
      if d & 1 != 0 { ModbusOddOdd(c, d); } else { ModbusOddEven(c, d); }
    } else {
      if d & 1 != 0 { ModbusEvenOdd(c, d); } else { ModbusEvenEven(c, d); }
    }
  }

  function HdlcEight(d: bv16): bv16 {
    HdlcBit(HdlcBit(HdlcBit(HdlcBit(HdlcBit(HdlcBit(HdlcBit(HdlcBit(d))))))))
  }

  function ModbusEight(d: bv16): bv16 {
    ModbusBit(ModbusBit(ModbusBit(ModbusBit(ModbusBit(ModbusBit(ModbusBit(ModbusBit(d))))))))
  }

  lemma {:induction false} HdlcTrace(d: bv16)
    requires d < 0x100 && HdlcEight(d) < 0x100
    ensures d == 0
  {}

  lemma {:induction false} ModbusTrace(d: bv16)
    requires d < 0x100 && ModbusEight(d) < 0x100
    ensures d == 0
  {}

  lemma {:induction false} HdlcInjective()
    ensures Injective(HdlcBit)
  {
    forall c, d | HdlcBit(c) == HdlcBit(d) ensures c == d { HdlcBitInjective(c, d); }
  }

  lemma {:induction false} HdlcLinear()
    ensures Linear(HdlcBit)
  {
    forall c, d ensures HdlcBit(c ^ d) == HdlcBit(c) ^ HdlcBit(d) { HdlcBitLinear(c, d); }
  }

  lemma {:induction false} HdlcIter(d: bv16)
    ensures Iter(HdlcBit, d, 8) == HdlcEight(d)
  {
    IterEight(HdlcBit, d);
  }

  lemma {:induction false} HdlcTraces()
    ensures TracesHigh(HdlcBit)
  {
    forall d: bv16 | d < 0x100 && Iter(HdlcBit, d, 8) < 0x100 ensures d == 0 {
      HdlcIter(d);
      HdlcTrace(d);
    }
  }

  lemma {:induction false} ModbusInjective()
    ensures Injective(ModbusBit)
  {
    forall c, d | ModbusBit(c) == ModbusBit(d) ensures c == d { ModbusBitInjective(c, d); }
  }

  lemma {:induction false} ModbusLinear()
    ensures Linear(ModbusBit)
  {
    forall c, d ensures ModbusBit(c ^ d) == ModbusBit(c) ^ ModbusBit(d) { ModbusBitLinear(c, d); }
  }

  lemma {:induction false} ModbusIter(d: bv16)
    ensures Iter(ModbusBit, d, 8) == ModbusEight(d)
  {
    IterEight(ModbusBit, d);
  }

  lemma {:induction false} ModbusTraces()
    ensures TracesHigh(ModbusBit)
  {
    forall d: bv16 | d < 0x100 && Iter(ModbusBit, d, 8) < 0x100 ensures d == 0 {
      ModbusIter(d);
      ModbusTrace(d);
    }
  }

  // --------------------------------------------------------------- byte level

  lemma {:induction false} IterLinear(bit: bv16 -> bv16, c: bv16, d: bv16, n: nat)
    requires Linear(bit)
    ensures Iter(bit, c ^ d, n) == Iter(bit, c, n) ^ Iter(bit, d, n)
    decreases n
  {
    if n > 0 {
      IterLinear(bit, c, d, n - 1);
    }
  }

  lemma {:induction false} MixCancels(c: bv16, d: bv16, b: Byte)
    requires Mix(c, b) == Mix(d, b)
    ensures c == d
  {}

  /** Mixing bytes into one register differs by their difference alone. */
  lemma {:induction false} MixDifference(c: bv16, a: Byte, x: Byte)
    ensures Mix(c, a) ^ Mix(c, x) < 0x100
    ensures Mix(c, a) ^ Mix(c, x) == 0 ==> a == x
  {
    assert (c ^ (a as bv16)) ^ (c ^ (x as bv16)) == (a as bv16) ^ (x as bv16);
  }

  lemma {:induction false} MixEqual(p: bv16, q: bv16, b: Byte, y: Byte)
    requires Mix(p, b) == Mix(q, y)
    ensures p ^ q < 0x100
    ensures p ^ q == 0 ==> b == y
  {}

  lemma {:induction false} SelfXor(c: bv16)
    ensures c ^ c == 0
  {}

  lemma {:induction false} FirstTold(bit: bv16 -> bv16, c: bv16, a: Byte, x: Byte)
    requires Linear(bit) && TracesHigh(bit)
    requires ByteStep(bit, c, a) ^ ByteStep(bit, c, x) < 0x100
    ensures a == x
  {
    IterLinear(bit, Mix(c, a), Mix(c, x), 8);
    MixDifference(c, a, x);
  }

  lemma {:induction false} PairTold(bit: bv16 -> bv16, c: bv16, a: Byte, b: Byte, x: Byte, y: Byte)
    requires Injective(bit) && Linear(bit) && TracesHigh(bit)
    requires ByteStep(bit, ByteStep(bit, c, a), b) == ByteStep(bit, ByteStep(bit, c, x), y)
    ensures a == x && b == y
  {
    var p, q := ByteStep(bit, c, a), ByteStep(bit, c, x);
    IterInjective(bit, Mix(p, b), Mix(q, y), 8);
    MixEqual(p, q, b, y);
    FirstTold(bit, c, a, x);
    SelfXor(p);
  }

  lemma {:induction false} StepFacts(bit: bv16 -> bv16)
    requires Injective(bit) && Linear(bit) && TracesHigh(bit)
    ensures forall c, d, b :: ByteStep(bit, c, b) == ByteStep(bit, d, b) ==> c == d
    ensures forall c, a, b, x, y ::
      ByteStep(bit, ByteStep(bit, c, a), b) == ByteStep(bit, ByteStep(bit, c, x), y) ==> a == x && b == y
  {
    forall c, d, b | ByteStep(bit, c, b) == ByteStep(bit, d, b) ensures c == d {
      IterInjective(bit, Mix(c, b), Mix(d, b), 8);
      MixCancels(c, d, b);
    }
    forall c, a, b, x, y | ByteStep(bit, ByteStep(bit, c, a), b) == ByteStep(bit, ByteStep(bit, c, x), y)
      ensures a == x && b == y
    {
      PairTold(bit, c, a, b, x, y);
    }
  }

  lemma {:induction false} HdlcStepFacts()
    ensures Invertible(HdlcStep) && TellsPairs(HdlcStep)
  {
    HdlcInjective();
    HdlcLinear();
    HdlcTraces();
    StepFacts(HdlcBit);
  }

  lemma {:induction false} ModbusStepFacts()
    ensures Invertible(ModbusStep) && TellsPairs(ModbusStep)
  {
    ModbusInjective();
    ModbusLinear();
    ModbusTraces();
    StepFacts(ModbusBit);
  }

  // ------------------------------------------------------------------ residues

  lemma {:induction false} MixLow(c: bv16, d: bv16)
    ensures Mix(c, Low(d)) == c ^ (d & 0xFF)
    ensures Mix(c, High(d)) == c ^ (d >> 8)
  {}

  lemma {:induction false} HdlcResidue(c: bv16)
    ensures HdlcEight(HdlcEight(c ^ (!c & 0xFF)) ^ (!c >> 8)) == 0xF0B8
  {}

  lemma {:induction false} ModbusResidue(c: bv16)
    ensures ModbusEight(ModbusEight(c ^ (c & 0xFF)) ^ (c >> 8)) == 0
  {}

  lemma {:induction false} HdlcGood(c: bv16)
    ensures HdlcStep(HdlcStep(c, Low(!c)), High(!c)) == 0xF0B8
  {
    MixLow(c, !c);
    HdlcIter(c ^ (!c & 0xFF));
    var h := HdlcEight(c ^ (!c & 0xFF));
    MixLow(h, !c);
    HdlcIter(h ^ (!c >> 8));
    HdlcResidue(c);
  }

  lemma {:induction false} ModbusGood(c: bv16)
    ensures ModbusStep(ModbusStep(c, Low(c)), High(c)) == 0
  {
    MixLow(c, c);
    ModbusIter(c ^ (c & 0xFF));
    var h := ModbusEight(c ^ (c & 0xFF));
    MixLow(h, c);
    ModbusIter(h ^ (c >> 8));
    ModbusResidue(c);
  }

  lemma {:induction false} HdlcTwice(c: bv16, x: Byte, y: Byte)
    ensures HdlcStep(HdlcStep(c, x), y) == 0xF0B8 <==> x == Low(!c) && y == High(!c)
  {
    HdlcGood(c);
    HdlcStepFacts();
  }

  lemma {:induction false} ModbusTwice(c: bv16, x: Byte, y: Byte)
    ensures ModbusStep(ModbusStep(c, x), y) == 0 <==> x == Low(c) && y == High(c)
  {
    ModbusGood(c);
    ModbusStepFacts();
  }

  lemma {:induction false} BytesAre(check: seq<Byte>, c: bv16)
    requires |check| == 2
    ensures check == Bytes(c) <==> check[0] == Low(c) && check[1] == High(c)
  {}

  /** Check bytes match exactly when the register over data and check bytes ends at 0xF0B8. */
  lemma {:induction false} FcsResidue(data: seq<Byte>, check: seq<Byte>)
    requires |check| == 2
    ensures check == Bytes(Fcs(data)) <==> Fold(HdlcStep, START, data + check) == 0xF0B8
  {
    var c := Fold(HdlcStep, START, data);
    FoldAppend(HdlcStep, START, data, check);
    assert check == [check[0], check[1]];
    FoldTwo(HdlcStep, c, check[0], check[1]);
    HdlcTwice(c, check[0], check[1]);
    BytesAre(check, !c);
  }

  /** And for Modbus, at 0. */
  lemma {:induction false} ModbusCrcResidue(data: seq<Byte>, check: seq<Byte>)
    requires |check| == 2
    ensures check == Bytes(ModbusCrc(data)) <==> Fold(ModbusStep, START, data + check) == 0
  {
    var c := Fold(ModbusStep, START, data);
    FoldAppend(ModbusStep, START, data, check);
    assert check == [check[0], check[1]];
    FoldTwo(ModbusStep, c, check[0], check[1]);
    ModbusTwice(c, check[0], check[1]);
    BytesAre(check, c);
  }

  // --------------------------------------------------------------- detection

  /** s is data followed by its FCS, low byte first. */
  predicate FcsOk(s: seq<Byte>) {
    |s| >= 2 && s[|s| - 2..] == Bytes(Fcs(s[..|s| - 2]))
  }

  predicate CrcOk(s: seq<Byte>) {
    |s| >= 2 && s[|s| - 2..] == Bytes(ModbusCrc(s[..|s| - 2]))
  }

  /** Two byte strings of any one length that both pass the HDLC check cannot differ
      only inside two adjacent bytes, check bytes included. */
  lemma {:induction false} FcsDetectsWindow(s: seq<Byte>, t: seq<Byte>, k: nat)
    requires FcsOk(s) && FcsOk(t) && k + 1 < |s| && DifferOnlyAt(s, t, k)
    ensures s == t
  {
    FcsResidue(s[..|s| - 2], s[|s| - 2..]);
    FcsResidue(t[..|t| - 2], t[|t| - 2..]);
    assert s == s[..|s| - 2] + s[|s| - 2..] && t == t[..|t| - 2] + t[|t| - 2..];
    HdlcStepFacts();
    WindowDetected(HdlcStep, START, s, t, k);
  }

  /** The same for the Modbus check. */
  lemma {:induction false} CrcDetectsWindow(s: seq<Byte>, t: seq<Byte>, k: nat)
    requires CrcOk(s) && CrcOk(t) && k + 1 < |s| && DifferOnlyAt(s, t, k)
    ensures s == t
  {
    ModbusCrcResidue(s[..|s| - 2], s[|s| - 2..]);
    ModbusCrcResidue(t[..|t| - 2], t[|t| - 2..]);
    assert s == s[..|s| - 2] + s[|s| - 2..] && t == t[..|t| - 2] + t[|t| - 2..];
    ModbusStepFacts();
    WindowDetected(ModbusStep, START, s, t, k);
  }

  // ------------------------------------------------------------------ computing

  /** hdlcFcs()'s inner loop. */
  method HdlcByte(c: bv16, b: Byte) returns (crc: bv16)
    ensures crc == HdlcStep(c, b)
  {
    crc := c ^ (b as bv16);
    for k := 0 to 8
      invariant crc == Iter(HdlcBit, Mix(c, b), k)
    {
      crc := if crc & 1 != 0 then (crc >> 1) ^ 0x8408 else crc >> 1;
    }
  }

  /** modbus_crc()'s inner loop. */
  method ModbusByte(c: bv16, data: Byte) returns (crc: bv16)
    ensures crc == ModbusStep(c, data)
  {
    crc := c ^ (data as bv16);
    for b := 0 to 8
      invariant crc == Iter(ModbusBit, Mix(c, data), b)
    {
      if crc & 1 != 0 {
        crc := (crc >> 1) ^ 0xA001;
      } else {
        crc := crc >> 1;
      }
    }
  }

  /** hdlcFcs() */
  method HdlcFcs(data: seq<Byte>) returns (fcs: bv16)
    ensures fcs == Fcs(data)
    // sent after the data, it leaves the receiver's register at the good residue
    ensures Fold(HdlcStep, START, data + Bytes(fcs)) == 0xF0B8
  {
    var crc := START;
    for i := 0 to |data|
      invariant Fold(HdlcStep, crc, data[i..]) == Fold(HdlcStep, START, data)
    {
      FoldNext(HdlcStep, crc, data, i);
      crc := HdlcByte(crc, data[i]);
    }
    fcs := !crc;
    FcsResidue(data, Bytes(fcs));
  }

  /** modbus_crc() */
  method ComputeModbusCrc(data: seq<Byte>) returns (crc: bv16)
    ensures crc == ModbusCrc(data)
    ensures Fold(ModbusStep, START, data + Bytes(crc)) == 0
  {
    crc := START;
    for i := 0 to |data|
      invariant Fold(ModbusStep, crc, data[i..]) == Fold(ModbusStep, START, data)
    {
      FoldNext(ModbusStep, crc, data, i);
      crc := ModbusByte(crc, data[i]);
    }
    ModbusCrcResidue(data, Bytes(crc));
  }
}
