/** What the optical session's texts look like, character by character, and which of them a
    reader must refuse. */
module IecLaws {
  import opened Wire
  import opened IecText
  import opened ObisBlocks
  import opened IrMeters
  import opened IecReplies

  // ------------------------------------------------------------------- rates

  function Doubled(rate: nat, times: nat): nat {
    if times == 0 then rate else 2 * Doubled(rate, times - 1)
  }

  /** Table 6 of IEC 62056-21: '0' is 300 baud, each of the six digits after it twice the
      rate of the one before, and nothing else is a rate. */
  lemma {:induction false} RateIff(c: char, rate: nat)
    ensures BaudFromId(c) == Some(rate) <==>
              '0' <= c <= '6' && rate == Doubled(300, c as int - '0' as int)
  {
    assert Doubled(300, 1) == 600;
    assert Doubled(300, 2) == 1200;
    assert Doubled(300, 3) == 2400;
    assert Doubled(300, 4) == 4800;
    assert Doubled(300, 5) == 9600;
    assert Doubled(300, 6) == 19200;
    if '0' <= c <= '6' {
      assert c == '0' || c == '1' || c == '2' || c == '3' || c == '4' || c == '5' || c == '6';
    }
  }

  // ---------------------------------------------------------- identification

  /** "/", three characters of manufacturer, a rate digit, and a text that ends the line. */
  ghost predicate Identifies(id: string, digit: char) {
    exists manufacturer: string, text: string ::
      |manufacturer| == 3 && |text| >= 2 && id == "/" + manufacturer + [digit] + text
  }

  /** Each verdict on an identification holds for exactly one shape of it, and the digit the
      reader goes by is the fifth character. */
  lemma {:induction false} VerdictIff(id: string)
    ensures IdCode(id) == -1 <==> id == ""
    ensures IdCode(id) == -2 <==> id != "" && forall d :: !Identifies(id, d)
    ensures IdCode(id) == -3 <==> exists d :: Identifies(id, d) && !('0' <= d <= '6')
    ensures IdCode(id) == 0 <==> exists d :: Identifies(id, d) && '0' <= d <= '6'
    ensures forall d :: Identifies(id, d) ==> id[4] == d
  {
    forall d | Identifies(id, d)
      ensures |id| >= 7 && id[0] == '/' && id[4] == d
    {
      var manufacturer: string, text: string :|
        |manufacturer| == 3 && |text| >= 2 && id == "/" + manufacturer + [d] + text;
    }
    if |id| >= 7 && id[0] == '/' {
      assert id == "/" + id[1..4] + [id[4]] + id[5..];
      assert Identifies(id, id[4]);
      if BaudFromId(id[4]).Some? {
        RateIff(id[4], BaudFromId(id[4]).value);
      } else if '0' <= id[4] <= '6' {
        RateIff(id[4], Doubled(300, id[4] as int - '0' as int));
      }
    }
  }

  /** One echo of the request is skipped, and no other line. */
  lemma {:induction false} JudgedLine(line: string, rest: string)
    requires line != "" && Stop(line + rest, "\r\n") == |line|
    ensures line != "/?!\r\n" ==> FirstLine(line + rest, "") == line && FirstRest(line + rest, "") == rest
    ensures FirstLine("/?!\r\n" + (line + rest), "") == line && FirstRest("/?!\r\n" + (line + rest), "") == rest
  {
    var s, t := line + rest, "/?!\r\n" + (line + rest);
    assert s[..|line|] == line && s[|line|..] == rest;
    StopsBehind("/?!", "\r\n", s);
    assert "/?!" + "\r\n" + s == t;
    assert t[..5] == "/?!\r\n" && t[5..] == s && s + "" == s;
  }

  // ------------------------------------------------------------------ values

  lemma {:induction false} UnsignedMilli(n: nat, behind: string)
    requires behind != "" && !IsDigit(behind[0])
    ensures Unsigned(Milli(n) + behind) == Number(Decimal(n, -3), |Milli(n)|)
    ensures IsDigit((Milli(n) + behind)[0])
  {
    var d := Dec(n, 9);
    MilliParts(d, behind);
    UnsignedOf(d[..|d| - 3], d[|d| - 3..], behind);
    ValOfDec(n, 9);
  }

  lemma {:induction false} PlainNumber(s: string, u: Number)
    requires s != "" && IsDigit(s[0]) && Unsigned(s) == u && u.Number? && u.used < |s|
    requires s[u.used] != 'e' && s[u.used] != 'E'
    ensures StrToF(s) == u
  {
    NotBlank(s[0]);
    assert s[0..] == s;
    assert s[u.used..][0] == s[u.used];
  }

  /** What the meter prints is read back when the unit or the closing bracket follows it,
      and refused when anything else does that is not part of a number. */
  lemma {:induction false} ValueEnds(n: nat, c: char, rest: string)
    requires !IsDigit(c) && c != 'e' && c != 'E'
    ensures Bracketed(Milli(n) + ([c] + rest)) == if c == '*' || c == ')' then Some(Decimal(n, -3)) else None
  {
    var behind := [c] + rest;
    var s := Milli(n) + behind;
    UnsignedMilli(n, behind);
    assert behind[0] == c && s[|Milli(n)|] == c;
    PlainNumber(s, Number(Decimal(n, -3), |Milli(n)|));
  }

  /** Printed numbers end on the last decimal digit, behind the digits of a tenth of it. */
  lemma {:induction false} LastDigit(n: nat, width: nat)
    requires n > 0 || width > 0
    ensures var s := Dec(n, width);
      && |s| > 0 && s[|s| - 1] as int == 48 + n % 10
      && s[..|s| - 1] == Dec(n / 10, if width > 0 then width - 1 else 0)
  {
    var s := Dec(n, width);
    assert s == Dec(n / 10, if width > 0 then width - 1 else 0) + [DigitOf(n % 10)];
  }

  /** A counter below a million kWh is printed in ten characters, the point before the last
      three. */
  lemma {:induction false} MilliShape(n: nat)
    requires n < 1_000_000_000
    ensures |Milli(n)| == 10 && Milli(n)[6] == '.'
  {
    DecWidth(n, 9);
  }

  lemma {:induction false} DecWidth(n: nat, width: nat)
    requires n < Power(width)
    ensures |Dec(n, width)| == width
    decreases width
  {
    if width > 0 {
      DecWidth(n / 10, width - 1);
    }
  }

  function Power(width: nat): nat { if width == 0 then 1 else 10 * Power(width - 1) }

  // ------------------------------------------------------------------ blocks

  /** A block as it is in the air: the two registers under their codes, in thousandths. */
  function Spelled(importMilli: nat, exportMilli: nat): string {
    "0-0:96.1.0(12345678)\r\n"
    + "1-0:1.8.0(" + Milli(importMilli) + "*kWh)\r\n"
    + "1-0:2.8.0(" + Milli(exportMilli) + "*kWh)\r\n"
    + "!\r\n"
  }

  /** Everything behind the STX, as it may arrive: a text, an ETX, a check byte. */
  function Arriving(pre: string, body: string, etx: char, check: char): string {
    pre + [2 as char] + body + [etx, check]
  }

  /** The check byte of a text is the exclusive or of its bytes. */
  lemma {:induction false} BccJoin(a: string, b: string)
    ensures Bcc("") == 0 && forall c :: Bcc([c]) == Bits(c)
    ensures Bcc(a + b) == Bcc(a) ^ Bcc(b)
    decreases |b|
  {
    forall c ensures Bcc([c]) == Bits(c) {
      assert [c][..0] == "";
    }
    if b == "" {
      assert a + b == a;
    } else {
      var n := |b| - 1;
      assert (a + b)[..|a| + n] == a + b[..n];
      BccJoin(a, b[..n]);
      XorAssociates(Bcc(a), Bcc(b[..n]), Bits(b[n]));
    }
  }

  lemma {:induction false} XorAssociates(x: Byte, y: Byte, z: Byte)
    ensures (x ^ y) ^ z == x ^ (y ^ z)
  {}

  /** A meter's block behind harmless text yields its counters; with a frame around it,
      exactly if the check byte is the exclusive or of everything from behind the STX to
      the ETX. */
  lemma {:induction false} HearsSpelled(pre: string, importMilli: nat, exportMilli: nat, check: char)
    requires AllHarmless(pre)
    ensures var body, counters := Spelled(importMilli, exportMilli),
                                  Counters(Decimal(importMilli, -3), Decimal(exportMilli, -3));
      && DataValue(Closes, pre + body, "") == Some(counters)
      && DataValue(Closes, Arriving(pre, body, 3 as char, check), "")
           == if Bits(check) == Bcc(body) ^ 0x03 then Some(counters) else None
  {
    var body, core := Spelled(importMilli, exportMilli), Core(importMilli, exportMilli);
    assert body == Body(importMilli, exportMilli);
    HearsUnframed(Closes, pre, importMilli, exportMilli);
    EtxBits();
    if Closes(body, check) {
      HearsClosed(Closes, pre, importMilli, exportMilli, check);
    } else {
      CoreIsCalm(importMilli, exportMilli);
      CoreHasNoEtx(importMilli, exportMilli);
      OpenIsRefused(pre, core, check);
    }
  }

  lemma {:induction false} EtxBits()
    ensures Bits(ETX) == 0x03
  {
    BitsOfNat(3);
  }

  lemma {:induction false} CoreHasNoEtx(importMilli: nat, exportMilli: nat)
    ensures ETX !in Core(importMilli, exportMilli)
  {
    NoEtxInMilli(importMilli);
    NoEtxInMilli(exportMilli);
  }

  lemma {:induction false} NoEtxInMilli(n: nat)
    ensures ETX !in Milli(n)
  {
    forall c | c in Milli(n) ensures c != ETX {
      var d := Dec(n, 9);
      assert c in d || c == '.';
      assert c in d ==> IsDigit(c);
    }
  }

  lemma {:induction false} StopFromEnds(s: string, terminator: string, k: nat)
    requires k <= |s|
    ensures StopFrom(s, terminator, k) == |s| || EndsAt(s, terminator, StopFrom(s, terminator, k))
    decreases |s| - k
  {
    if k < |s| && !EndsAt(s, terminator, k) {
      StopFromEnds(s, terminator, k + 1);
    }
  }

  /** Reading stops behind a "!", or at the end. */
  lemma {:induction false} StopEnds(s: string)
    ensures var n := Stop(s, "!\r\n"); n == |s| || (3 <= n && s[n - 3] == '!')
  {
    if s != "" {
      StopFromEnds(s, "!\r\n", 1);
      var n := Stop(s, "!\r\n");
      if n < |s| {
        assert s[n - 3..n][0] == s[n - 3];
      }
    }
  }

  lemma {:induction false} HarmlessAt(s: string)
    requires AllHarmless(s)
    ensures forall i :: 0 <= i < |s| ==> Harmless(s[i])
  {
    forall i | 0 <= i < |s| ensures Harmless(s[i]) {
      assert s[i] in s;
    }
  }

  lemma {:induction false} NoneAt(s: string, c: char)
    requires c !in s
    ensures forall i :: 0 <= i < |s| ==> s[i] != c
  {}

  /** An STX that nothing precedes but harmless text is where the check starts. */
  lemma {:induction false} FirstStx(block: string, at: nat)
    requires at < |block| && block[at] == STX && AllHarmless(block[..at])
    ensures FindFrom(Visible(block), [STX], 0) == Some(at)
  {
    var v, pre := Visible(block), block[..at];
    HarmlessAt(pre);
    assert forall i :: 0 <= i < at ==> block[i] == pre[i];
    assert |v| > at;
    assert v[..at] == block[..at] && v[at] == STX;
    FindChar(v, STX, at);
  }

  lemma {:induction false} WorthFits(closes: Check, s: string)
    requires DataValue(closes, s, "").Some?
    ensures var n := Stop(s, "!\r\n"); FrameOk(closes, s[..n], s[n..])
  {
    var tail := s[Stop(s, "!\r\n")..];
    assert tail + "" == tail;
  }

  lemma {:induction false} StopsBeyond(pre: string, s: string)
    requires AllHarmless(pre) && pre + [STX] <= s
    ensures var n := Stop(s, "!\r\n"); |pre| < n && (n < |s| ==> |pre| + 3 < n && s[n - 3] == '!')
  {
    StopEnds(s);
    HarmlessAt(pre);
    var t := pre + [STX];
    assert forall i :: 0 <= i < |t| ==> s[i] == t[i];
  }

  lemma {:induction false} FitsClosed(closes: Check, pre: string, block: string, tail: string)
    requires AllHarmless(pre) && pre + [STX] <= block && FrameOk(closes, block, tail)
    ensures |tail| >= 2 && tail[0] == ETX && closes(block[|pre| + 1..], tail[1])
  {
    assert block[..|pre|] == pre && block[|pre|] == STX;
    FirstStx(block, |pre|);
  }

  /** Only what is closed where it ends is worth anything. */
  lemma {:induction false} WorthIsClosed(closes: Check, pre: string, s: string)
    requires AllHarmless(pre) && pre + [STX] <= s && DataValue(closes, s, "").Some?
    ensures var n := Stop(s, "!\r\n");
      |pre| + 3 < n <= |s| - 2 && s[n - 3] == '!' && s[n] == ETX && closes(s[|pre| + 1..n], s[n + 1])
  {
    var n := Stop(s, "!\r\n");
    StopsBeyond(pre, s);
    WorthFits(closes, s);
    var block, tail := s[..n], s[n..];
    assert pre + [STX] <= block;
    FitsClosed(closes, pre, block, tail);
    assert block[|pre| + 1..] == s[|pre| + 1..n];
  }

  /** The text behind the STX whose check byte does not close it. */
  lemma {:induction false} OpenIsRefused(pre: string, core: string, check: char)
    requires AllHarmless(pre) && '!' !in core && ETX !in core && !Closes(core + "!\r\n", check)
    ensures DataValue(Closes, Arriving(pre, core + "!\r\n", ETX, check), "") == None
  {
    var body := core + "!\r\n";
    var s, e := Arriving(pre, body, ETX, check), |pre| + 1 + |body|;
    assert |s| == e + 2 && s[e + 1] == check && s[|pre| + 1..e] == body;
    if DataValue(Closes, s, "").Some? {
      WorthIsClosed(Closes, pre, s);
      OnlyEnd(pre, core, s, e, Stop(s, "!\r\n"));
    }
  }

  /** The "!" of a block stands at its end and nowhere else. */
  lemma {:induction false} OnlyEnd(pre: string, core: string, s: string, e: nat, n: nat)
    requires AllHarmless(pre) && '!' !in core && e == |pre| + 1 + |core| + 3
    requires e <= |s| && s[..e] == pre + [STX] + core + "!\r\n"
    requires 3 <= n <= e && s[n - 3] == '!'
    ensures n == e
  {
    var t := pre + [STX] + core + "!\r\n";
    HarmlessAt(pre);
    NoneAt(core, '!');
    assert t[n - 3] == '!';
  }

  /** One character different, as the byte that travels. */
  ghost predicate DifferOnlyAt(s: string, t: string, k: nat) {
    && |s| == |t| && k < |s| && Bits(s[k]) != Bits(t[k])
    && forall i :: 0 <= i < |s| && i != k ==> s[i] == t[i]
  }

  /** A framed block in which any one character behind the STX was garbled, check byte
      included, is refused. */
  lemma {:induction false} GarbledIsRefused(pre: string, importMilli: nat, exportMilli: nat, check: char, s: string,
                                            k: nat)
    requires AllHarmless(pre) && k > |pre|
    requires Bits(check) == Bcc(Spelled(importMilli, exportMilli)) ^ 0x03
    requires DifferOnlyAt(s, Arriving(pre, Spelled(importMilli, exportMilli), 3 as char, check), k)
    ensures DataValue(Closes, s, "") == None
  {
    var core := Core(importMilli, exportMilli);
    EtxBits();
    CoreIsCalm(importMilli, exportMilli);
    CoreHasNoEtx(importMilli, exportMilli);
    assert Spelled(importMilli, exportMilli) == core + "!\r\n";
    ArrivingArrives(pre, core, check);
    GarbledBlock(pre, core, check, s, Arriving(pre, core + "!\r\n", ETX, check), k);
  }

  /** A garbled character cannot end the block early and close it at once. */
  lemma {:induction false} EarlyEnd(pre: string, core: string, t: string, e: nat, n: nat, k: nat)
    requires AllHarmless(pre) && '!' !in core && ETX !in core && e == |pre| + 1 + |core| + 3 && |pre| + 3 < n < e
    requires e <= |t| && t[..e] == pre + [STX] + core + "!\r\n"
    requires n - 3 == k || t[n - 3] == '!'
    ensures n != k && t[n] != ETX
  {
    var u := pre + [STX] + core + "!\r\n";
    assert u[n] == t[n] && u[n - 3] == t[n - 3];
    NoneAt(core, ETX);
    NoneAt(core, '!');
  }

  /** Wherever it was garbled, the block can only end where it should. */
  lemma {:induction false} EndsWhereItShould(pre: string, core: string, s: string, t: string, k: nat, n: nat)
    requires AllHarmless(pre) && '!' !in core && ETX !in core
    requires |t| == |pre| + 1 + |core| + 5 && t[..|t| - 2] == pre + [STX] + core + "!\r\n"
    requires DifferOnlyAt(s, t, k) && |pre| + 3 < n <= |t| - 2 && s[n - 3] == '!' && s[n] == ETX
    ensures n == |t| - 2
  {
    if n < |t| - 2 {
      EarlyEnd(pre, core, t, |t| - 2, n, k);
    }
  }

  /** A text and check byte of which one character was garbled do not fit each other. */
  lemma {:induction false} GarbledPair(body: string, check: char, text: string, got: char)
    requires Closes(body, check) && |text| == |body|
    requires (text == body && Bits(got) != Bits(check))
          || (got == check && exists j :: DifferOnlyAt(text, body, j))
    ensures !Closes(text, got)
  {
    if text != body {
      var j :| DifferOnlyAt(text, body, j);
      BccDetectsOne(text, body, j);
      XorCancels(Bits(ETX), Bcc(text), Bcc(body));
    }
  }

  lemma {:induction false} ArrivingParts(pre: string, body: string, check: char)
    ensures var t, e := Arriving(pre, body, ETX, check), |pre| + 1 + |body|;
      && |t| == e + 2 && t[e] == ETX && t[e + 1] == check && t[|pre| + 1..e] == body
      && t[..e] == pre + [STX] + body && pre + [STX] <= t
  {}

  /** The body and the check byte as they arrive: one of them is garbled, the other is not. */
  lemma {:induction false} GarbledParts(s: string, t: string, from: nat, e: nat, k: nat)
    requires DifferOnlyAt(s, t, k) && from <= k && k != e && from <= e && |t| == e + 2
    ensures if k < e then DifferOnlyAt(s[from..e], t[from..e], k - from) && s[e + 1] == t[e + 1]
            else s[from..e] == t[from..e] && Bits(s[e + 1]) != Bits(t[e + 1])
  {}

  lemma {:induction false} SamePrefix(s: string, t: string, k: nat, p: string)
    requires DifferOnlyAt(s, t, k) && p <= t && |p| <= k
    ensures p <= s
  {}

  /** The STX itself is not protected: garbled into harmless text, it leaves a block that
      counts as unframed and is taken whatever its check byte is. */
  lemma {:induction false} GarbledStxIsTaken(pre: string, importMilli: nat, exportMilli: nat, c: char, check: char)
    requires AllHarmless(pre) && Harmless(c)
    ensures DataValue(Closes, pre + [c] + Spelled(importMilli, exportMilli) + [3 as char, check], "")
         == Some(Counters(Decimal(importMilli, -3), Decimal(exportMilli, -3)))
  {
    var body := Body(importMilli, exportMilli);
    var block, tail := pre + [c] + body, [ETX, check];
    assert AllHarmless(pre + [c]);
    StopsBehindBody(pre + [c], importMilli, exportMilli, tail);
    BodyHasNo(pre + [c], importMilli, exportMilli);
    UnframedOk(Closes, block, tail);
    BodyReadsBack(pre + [c], importMilli, exportMilli);
    DataValueIs(Closes, block + tail, block, tail, Decimal(importMilli, -3), Decimal(exportMilli, -3));
  }

  /** t is a framed block on arrival, and its check byte closes it. */
  ghost predicate Arrives(t: string, pre: string, core: string, check: char) {
    && |t| == |pre| + 1 + |core| + 5 && t[..|t| - 2] == pre + [STX] + core + "!\r\n" && pre + [STX] <= t
    && t[|t| - 2] == ETX && t[|t| - 1] == check && Closes(t[|pre| + 1..|t| - 2], check)
  }

  lemma {:induction false} ArrivingArrives(pre: string, core: string, check: char)
    requires Closes(core + "!\r\n", check)
    ensures Arrives(Arriving(pre, core + "!\r\n", ETX, check), pre, core, check)
  {
    ArrivingParts(pre, core + "!\r\n", check);
    assert pre + [STX] + (core + "!\r\n") == pre + [STX] + core + "!\r\n";
  }

  lemma {:induction false} GarbledBlock(pre: string, core: string, check: char, s: string, t: string, k: nat)
    requires AllHarmless(pre) && '!' !in core && ETX !in core && Arrives(t, pre, core, check) && k > |pre|
    requires DifferOnlyAt(s, t, k)
    ensures DataValue(Closes, s, "") == None
  {
    SamePrefix(s, t, k, pre + [STX]);
    if DataValue(Closes, s, "").Some? {
      WorthIsClosed(Closes, pre, s);
      GarbledEnd(pre, core, check, s, t, k, Stop(s, "!\r\n"));
    }
  }

  lemma {:induction false} GarbledEnd(pre: string, core: string, check: char, s: string, t: string, k: nat, n: nat)
    requires AllHarmless(pre) && '!' !in core && ETX !in core && Arrives(t, pre, core, check) && k > |pre|
    requires DifferOnlyAt(s, t, k)
    requires |pre| + 3 < n <= |s| - 2 && s[n - 3] == '!' && s[n] == ETX
    ensures !Closes(s[|pre| + 1..n], s[n + 1])
  {
    EndsWhereItShould(pre, core, s, t, k, n);
    GarbledText(t[|pre| + 1..n], check, s, t, |pre| + 1, n, k);
  }

  lemma {:induction false} GarbledText(body: string, check: char, s: string, t: string, from: nat, e: nat, k: nat)
    requires DifferOnlyAt(s, t, k) && from <= k && from <= e && |t| == e + 2
    requires t[e] == ETX && t[e + 1] == check && t[from..e] == body && s[e] == ETX && Closes(body, check)
    ensures !Closes(s[from..e], s[e + 1])
  {
    GarbledParts(s, t, from, e, k);
    GarbledPair(body, check, s[from..e], s[e + 1]);
  }
}
