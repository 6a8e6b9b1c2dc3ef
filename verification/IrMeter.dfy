/** Data blocks of an IEC 62056-21 meter: OBIS lines, framing, and finding values in them. */
module ObisBlocks {
  import opened Wire
  import opened IecText

  const STX: char := 2 as char
  const ETX: char := 3 as char
  const ACK: char := 6 as char
  const START_BAUD: nat := 300

  /** Rate identifiers of mode C. */
  function BaudFromId(c: char): Option<nat> {
    match c
    case '0' => Some(300)
    case '1' => Some(600)
    case '2' => Some(1200)
    case '3' => Some(2400)
    case '4' => Some(4800)
    case '5' => Some(9600)
    case '6' => Some(19200)
    case _ => None
  }

  /** The lines of a meter's data block, for counters in thousandths of a kWh. */
  function Body(importMilli: nat, exportMilli: nat): string {
    "0-0:96.1.0(12345678)\r\n"
    + "1-0:1.8.0(" + Milli(importMilli) + "*kWh)\r\n"
    + "1-0:2.8.0(" + Milli(exportMilli) + "*kWh)\r\n"
    + "!\r\n"
  }

  function Framed(body: string): string { [STX] + body + [ETX] + [CharOf(Bcc(body + [ETX]))] }

  // ------------------------------------------------------------- the reader's search

  /** A number that fills its bracket up to the unit or the end. */
  function Bracketed(s: string): Option<Decimal> {
    var n := StrToF(s);
    if n.NoNumber? || n.used == |s| || (s[n.used] != '*' && s[n.used] != ')') then None
    else Some(n.value)
  }

  /** What stands behind the first `code` that a bracket follows directly. */
  function Behind(block: string, code: string): Option<string> {
    var v := Visible(block);
    var found := FindFrom(v, code + "(", 0);
    if found.None? then None else Some(v[found.value + |code| + 1..])
  }

  /** The value a block gives for a code. */
  function ObisValue(block: string, code: string): Option<Decimal> {
    var t := Behind(block, code);
    if t.None? then None else Bracketed(t.value)
  }

  // ------------------------------------------------------------- what a block is made of

  /** Characters that cannot be mistaken for structure. */
  predicate Harmless(c: char) { c != ':' && c != '!' && c != STX && c != '\0' }

  predicate AllHarmless(s: string) { forall c :: c in s ==> Harmless(c) }

  lemma {:induction false} MilliHarmless(n: nat)
    ensures AllHarmless(Milli(n))
  {
    forall c | c in Milli(n) ensures Harmless(c) {
      var d := Dec(n, 9);
      assert c in d || c == '.';
      assert c in d ==> IsDigit(c);
    }
  }

  /** The block cut at its colons. */
  function Part1(): string { "96.1.0(12345678)\r\n" + "1-0" }

  function Part2(f: string): string { "1.8.0(" + f + "*kWh)\r\n" + "1-0" }

  function Part3(g: string): string { "2.8.0(" + g + "*kWh)\r\n" }

  function Cut(p0: string, p1: string, p2: string, p3: string): string { p0 + ":" + p1 + ":" + p2 + ":" + p3 }

  lemma {:induction false} Literals()
    ensures "0-0:96.1.0(12345678)\r\n" == "0-0" + ":" + "96.1.0(12345678)\r\n"
    ensures "1-0:1.8.0(" == "1-0" + ":" + "1.8.0("
    ensures "1-0:2.8.0(" == "1-0" + ":" + "2.8.0("
  {}

  lemma {:induction false} BodyCut(pre: string, f: string, g: string, end: string)
    ensures pre + ("0-0:96.1.0(12345678)\r\n" + "1-0:1.8.0(" + f + "*kWh)\r\n" + "1-0:2.8.0(" + g + "*kWh)\r\n" + end)
         == Cut(pre + "0-0", Part1(), Part2(f), Part3(g) + end)
  {
    Literals();
    BodyJoins(pre, "0-0", ":", "96.1.0(12345678)\r\n", "1-0", "1.8.0(", f, "*kWh)\r\n", "2.8.0(", g, end);
  }

  lemma {:induction false} BodyJoins(pre: string, a: string, c: string, b: string, d: string, e: string, f: string,
                                     k: string, h: string, g: string, end: string)
    ensures pre + ((a + c + b) + (d + c + e) + f + k + (d + c + h) + g + k + end)
         == (pre + a) + c + (b + d) + c + (e + f + k + d) + c + ((h + g + k) + end)
  {}

  lemma {:induction false} PartsHarmless(f: string, g: string)
    requires AllHarmless(f) && AllHarmless(g)
    ensures AllHarmless(Part1()) && AllHarmless(Part2(f)) && AllHarmless(Part3(g))
  {
    forall c | c in Part2(f) ensures Harmless(c) {
      assert c in "1.8.0(" || c in f || c in "*kWh)\r\n" || c in "1-0";
    }
    forall c | c in Part3(g) ensures Harmless(c) {
      assert c in "2.8.0(" || c in g || c in "*kWh)\r\n";
    }
  }

  predicate NoColon(s: string) { ':' !in s }

  /** Three cuts, three colons. */
  lemma {:induction false} ColonsAt(p0: string, p1: string, p2: string, p3: string, k: nat)
    requires NoColon(p0) && NoColon(p1) && NoColon(p2) && NoColon(p3)
    requires k < |Cut(p0, p1, p2, p3)| && Cut(p0, p1, p2, p3)[k] == ':'
    ensures k == |p0| || k == |p0| + 1 + |p1| || k == |p0| + 1 + |p1| + 1 + |p2|
  {}

  lemma {:induction false} AtChar(s: string, pattern: string, i: nat, k: nat)
    requires At(s, pattern, i) && k < |pattern|
    ensures s[i + k] == pattern[k]
  {
    assert s[i..i + |pattern|][k] == s[i + k];
  }

  lemma {:induction false} AtJoint(s: string, a: string, pattern: string, b: string)
    requires s == a + (pattern + b)
    ensures At(s, pattern, |a|) && s[|a| + |pattern|..] == b
  {
    assert s[|a|..|a| + |pattern|] == pattern;
  }

  lemma {:induction false} FirstFind(s: string, pattern: string, i: nat)
    requires At(s, pattern, i) && forall j: nat :: j < i ==> !At(s, pattern, j)
    ensures FindFrom(s, pattern, 0) == Some(i)
  {}

  const IMPORT: string := "1-0:1.8.0"
  const EXPORT: string := "1-0:2.8.0"

  /** What stands before and behind the two values. */
  function BeforeImport(pre: string): string { pre + "0-0" + ":" + "96.1.0(12345678)\r\n" }

  function BehindImport(g: string, end: string): string {
    "*kWh)\r\n" + "1-0" + ":" + "2.8.0(" + g + "*kWh)\r\n" + end
  }

  function BeforeExport(pre: string, f: string): string {
    BeforeImport(pre) + "1-0" + ":" + "1.8.0(" + f + "*kWh)\r\n"
  }

  function BehindExport(end: string): string { "*kWh)\r\n" + end }

  function WholeCut(pre: string, f: string, g: string, end: string): string {
    Cut(pre + "0-0", Part1(), Part2(f), Part3(g) + end)
  }

  lemma {:induction false} CutAtImport(pre: string, f: string, g: string, end: string)
    ensures WholeCut(pre, f, g, end) == BeforeImport(pre) + (IMPORT + "(" + (f + BehindImport(g, end)))
  {
    assert IMPORT + "(" == "1-0" + ":" + "1.8.0(";
    JoinImport(pre + "0-0", ":", "96.1.0(12345678)\r\n", "1-0", "1.8.0(", f, "*kWh)\r\n", "2.8.0(", g, end);
  }

  lemma {:induction false} JoinImport(a: string, c: string, b: string, d: string, e: string, f: string,
                                      k: string, h: string, g: string, end: string)
    ensures a + c + (b + d) + c + (e + f + k + d) + c + ((h + g + k) + end)
         == (a + c + b) + ((d + c + e) + (f + (k + d + c + h + g + k + end)))
  {}

  lemma {:induction false} CutAtExport(pre: string, f: string, g: string, end: string)
    ensures WholeCut(pre, f, g, end) == BeforeExport(pre, f) + (EXPORT + "(" + (g + BehindExport(end)))
  {
    assert EXPORT + "(" == "1-0" + ":" + "2.8.0(";
    JoinExport(pre + "0-0", ":", "96.1.0(12345678)\r\n", "1-0", "1.8.0(", f, "*kWh)\r\n", "2.8.0(", g, end);
  }

  lemma {:induction false} JoinExport(a: string, c: string, b: string, d: string, e: string, f: string,
                                      k: string, h: string, g: string, end: string)
    ensures a + c + (b + d) + c + (e + f + k + d) + c + ((h + g + k) + end)
         == (a + c + b + d + c + e + f + k) + ((d + c + h) + (g + (k + end)))
  {}

  /** The first colon belongs to neither code, the second to the import code. */
  lemma {:induction false} FirstColon(pre: string, f: string, g: string, end: string)
    ensures var s := WholeCut(pre, f, g, end);
      |pre| + 3 < |s| && s[|pre|] == '0' && s[|pre| + 3] == ':'
  {
    var s := WholeCut(pre, f, g, end);
    var rest := "96.1.0(12345678)\r\n" + (IMPORT + "(" + (f + BehindImport(g, end)));
    CutAtImport(pre, f, g, end);
    assert s == pre + "0-0" + ":" + rest;
  }

  lemma {:induction false} FindsImport(pre: string, f: string, g: string, end: string)
    requires NoColon(pre) && AllHarmless(f) && AllHarmless(g) && NoColon(end)
    ensures var s := WholeCut(pre, f, g, end);
      FindFrom(s, IMPORT + "(", 0) == Some(|BeforeImport(pre)|)
  {
    var s, i := WholeCut(pre, f, g, end), |BeforeImport(pre)|;
    CutAtImport(pre, f, g, end);
    AtJoint(s, BeforeImport(pre), IMPORT + "(", f + BehindImport(g, end));
    PartsHarmless(f, g);
    FirstColon(pre, f, g, end);
    forall j: nat | j < i ensures !At(s, IMPORT + "(", j) {
      if At(s, IMPORT + "(", j) {
        AtChar(s, IMPORT + "(", j, 0);
        AtChar(s, IMPORT + "(", j, 3);
        ColonsAt(pre + "0-0", Part1(), Part2(f), Part3(g) + end, j + 3);
      }
    }
    FirstFind(s, IMPORT + "(", i);
  }

  lemma {:induction false} FindsExport(pre: string, f: string, g: string, end: string)
    requires NoColon(pre) && AllHarmless(f) && AllHarmless(g) && NoColon(end)
    ensures var s := WholeCut(pre, f, g, end);
      FindFrom(s, EXPORT + "(", 0) == Some(|BeforeExport(pre, f)|)
  {
    var s, i, k := WholeCut(pre, f, g, end), |BeforeExport(pre, f)|, |BeforeImport(pre)|;
    CutAtExport(pre, f, g, end);
    AtJoint(s, BeforeExport(pre, f), EXPORT + "(", g + BehindExport(end));
    CutAtImport(pre, f, g, end);
    AtJoint(s, BeforeImport(pre), IMPORT + "(", f + BehindImport(g, end));
    AtChar(s, IMPORT + "(", k, 4);
    PartsHarmless(f, g);
    FirstColon(pre, f, g, end);
    forall j: nat | j < i ensures !At(s, EXPORT + "(", j) {
      if At(s, EXPORT + "(", j) {
        AtChar(s, EXPORT + "(", j, 0);
        AtChar(s, EXPORT + "(", j, 3);
        AtChar(s, EXPORT + "(", j, 4);
        ColonsAt(pre + "0-0", Part1(), Part2(f), Part3(g) + end, j + 3);
      }
    }
    FirstFind(s, EXPORT + "(", i);
  }

  lemma {:induction false} BehindIs(s: string, code: string, before: string, t: string)
    requires '\0' !in s && s == before + (code + "(" + t) && FindFrom(s, code + "(", 0) == Some(|before|)
    ensures Behind(s, code) == Some(t)
  {
    AllVisible(s);
    AtJoint(s, before, code + "(", t);
  }

  lemma {:induction false} BracketedIs(t: string, value: Decimal, used: nat)
    requires StrToF(t) == Number(value, used) && used < |t| && t[used] == '*'
    ensures Bracketed(t) == Some(value)
  {}

  lemma {:induction false} StarBehind(s: string, behind: string)
    requires behind != "" && behind[0] == '*'
    ensures |s| < |s + behind| && (s + behind)[|s|] == '*'
  {}

  lemma {:induction false} MilliBracketed(n: nat, behind: string)
    requires behind != "" && behind[0] == '*'
    ensures Bracketed(Milli(n) + behind) == Some(Decimal(n, -3))
  {
    MilliRoundTrip(n, behind);
    StarBehind(Milli(n), behind);
    BracketedIs(Milli(n) + behind, Decimal(n, -3), |Milli(n)|);
  }

  /** A value between its bracket and its unit is read back. */
  lemma {:induction false} ValueAt(s: string, code: string, before: string, n: nat, behind: string)
    requires '\0' !in s && s == before + (code + "(" + (Milli(n) + behind))
    requires FindFrom(s, code + "(", 0) == Some(|before|) && behind != "" && behind[0] == '*'
    ensures ObisValue(s, code) == Some(Decimal(n, -3))
  {
    BehindIs(s, code, before, Milli(n) + behind);
    MilliBracketed(n, behind);
  }

  lemma {:induction false} NoZero(pre: string, f: string, g: string, end: string)
    requires '\0' !in pre && AllHarmless(f) && AllHarmless(g) && '\0' !in end
    ensures '\0' !in WholeCut(pre, f, g, end)
  {
    PartsHarmless(f, g);
  }

  /** Both counters are read back from a block, whatever precedes it without a colon or
      a zero. */
  lemma {:induction false} BodyReadsBack(pre: string, importMilli: nat, exportMilli: nat)
    requires NoColon(pre) && '\0' !in pre
    ensures ObisValue(pre + Body(importMilli, exportMilli), IMPORT) == Some(Decimal(importMilli, -3))
    ensures ObisValue(pre + Body(importMilli, exportMilli), EXPORT) == Some(Decimal(exportMilli, -3))
  {
    var f, g, end := Milli(importMilli), Milli(exportMilli), "!\r\n";
    MilliHarmless(importMilli);
    MilliHarmless(exportMilli);
    BodyCut(pre, f, g, end);
    var s := WholeCut(pre, f, g, end);
    NoZero(pre, f, g, end);
    CutAtImport(pre, f, g, end);
    FindsImport(pre, f, g, end);
    ValueAt(s, IMPORT, BeforeImport(pre), importMilli, BehindImport(g, end));
    CutAtExport(pre, f, g, end);
    FindsExport(pre, f, g, end);
    ValueAt(s, EXPORT, BeforeExport(pre, f), exportMilli, BehindExport(end));
  }
}

/** IrSim's fake meter. */
module IrMeters {
  import opened Wire
  import opened IecText
  import opened ObisBlocks

  const IMPORT_STEP: nat := 100  // thousandths of a kWh
  const EXPORT_STEP: nat := 50
  const REQUEST: string := "/?!\r\n"

  predicate IsRequest(message: string) { "/?" <= message && EndsAt(message, "!\r\n", |message|) }

  function AckFor(baudId: char): string { [ACK, '0', baudId, '0', '\r', '\n'] }

  class FakeIrMeter {
    const manufacturer: string
    const baudId: string
    const ident: string
    const framed: bool
    var importMilli: nat
    var exportMilli: nat
    var awaitingAck: bool
    var readCount: nat

    constructor (manufacturer: string, baudId: string, ident: string, importMilli: nat, exportMilli: nat, framed: bool)
      ensures this.manufacturer == manufacturer && this.baudId == baudId && this.ident == ident && this.framed == framed
      ensures this.importMilli == importMilli && this.exportMilli == exportMilli && !awaitingAck && readCount == 0
    {
      this.manufacturer, this.baudId, this.ident, this.framed := manufacturer, baudId, ident, framed;
      this.importMilli, this.exportMilli, awaitingAck, readCount := importMilli, exportMilli, false, 0;
    }

    /** An identification the reader can use: three manufacturer characters, one rate digit
        the table knows, and no line end before its own. */
    ghost predicate Identifiable() {
      && |manufacturer| == 3 && |baudId| == 1 && BaudFromId(baudId[0]).Some?
      && Stop(Identification(), "\r\n") == |Identification()|
    }

    method Reset()
      modifies this`awaitingAck
      ensures !awaitingAck
    {
      awaitingAck := false;
    }

    function Identification(): string { "/" + manufacturer + baudId + ident + "\r\n" }

    /** The block for given counters. */
    function Block(imported: nat, exported: nat): string {
      if framed then Framed(Body(imported, exported)) else Body(imported, exported)
    }

    /** bcc() */
    static method ComputeBcc(data: string) returns (result: Byte)
      ensures result == Bcc(data)
    {
      result := 0;
      for i := 0 to |data|
        invariant result == Bcc(data[..i])
      {
        assert data[..i + 1] == data[..i] + [data[i]];
        BccMore(data[..i], data[i]);
        result := result ^ Bits(data[i]);
      }
      assert data[..|data|] == data;
    }

    /** data_block(): counts up, then reports. */
    method DataBlock() returns (block: string)
      modifies this`importMilli, this`exportMilli, this`readCount
      ensures importMilli == old(importMilli) + IMPORT_STEP && exportMilli == old(exportMilli) + EXPORT_STEP
      ensures readCount == old(readCount) + 1 && block == Block(importMilli, exportMilli)
    {
      importMilli := importMilli + IMPORT_STEP;
      exportMilli := exportMilli + EXPORT_STEP;
      readCount := readCount + 1;
      var body := Body(importMilli, exportMilli);
      if !framed {
        return body;
      }
      var afterStx := body + [ETX];
      var check := ComputeBcc(afterStx);
      block := [STX] + afterStx + [CharOf(check)];
      assert [STX] + (body + [ETX]) == [STX] + body + [ETX];
    }

    /** handle(): one message in, a reply and a new rate out. */
    method Handle(message: string) returns (reply: Option<string>, newBaud: Option<nat>)
      modifies this
      ensures IsRequest(message) ==> reply == Some(Identification()) && newBaud == None && awaitingAck
      ensures var heeded := !IsRequest(message) && old(awaitingAck) && |message| >= 3 && message[0] == ACK;
        if heeded && message[1] == '0' && BaudFromId(message[2]).Some?
        then
          && importMilli == old(importMilli) + IMPORT_STEP && exportMilli == old(exportMilli) + EXPORT_STEP
          && readCount == old(readCount) + 1 && reply == Some(Block(importMilli, exportMilli))
          && newBaud == BaudFromId(message[2]) && !awaitingAck
        else
          && importMilli == old(importMilli) && exportMilli == old(exportMilli) && readCount == old(readCount)
          && (!IsRequest(message) ==> reply == None && newBaud == None && awaitingAck == (old(awaitingAck) && !heeded))
    {
      reply, newBaud := None, None;
      if "/?" <= message && EndsAt(message, "!\r\n", |message|) {
        awaitingAck := true;
        return Some(Identification()), None;
      }
      if awaitingAck && |message| >= 3 && message[0] == ACK {
        awaitingAck := false;
        if message[1] != '0' {
          return;
        }
        if BaudFromId(message[2]).None? {
          return;
        }
        var block := DataBlock();
        return Some(block), BaudFromId(message[2]);
      }
    }
  }
}
