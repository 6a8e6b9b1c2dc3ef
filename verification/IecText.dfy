/** Text as the optical port carries it (IEC 62056-21): searching, numbers, check bytes. */
module IecText {
  import opened Wire
  import opened DlmsData

  // ------------------------------------------------------------------- searching

  predicate At(s: string, pattern: string, i: nat) {
    i + |pattern| <= |s| && s[i..i + |pattern|] == pattern
  }

  /** The first k characters end with the terminator. */
  predicate EndsAt(s: string, terminator: string, k: nat) {
    |terminator| <= k <= |s| && s[k - |terminator|..k] == terminator
  }

  /** Where reading stops: behind the first terminator at or after k, or at the end. */
  function StopFrom(s: string, terminator: string, k: nat): (stop: nat)
    requires k <= |s|
    ensures k <= stop <= |s|
    decreases |s| - k
  {
    if k == |s| || EndsAt(s, terminator, k) then k else StopFrom(s, terminator, k + 1)
  }

  function Stop(s: string, terminator: string): (stop: nat)
    ensures stop <= |s|
  {
    if s == "" then 0 else StopFrom(s, terminator, 1)
  }

  lemma {:induction false} StopFromIs(s: string, terminator: string, k: nat, stop: nat)
    requires k <= stop <= |s| && (stop == |s| || EndsAt(s, terminator, stop))
    requires forall j :: k <= j < stop ==> !EndsAt(s, terminator, j)
    ensures StopFrom(s, terminator, k) == stop
    decreases stop - k
  {
    if k < stop {
      StopFromIs(s, terminator, k + 1, stop);
    }
  }

  /** A terminator whose first character has not occurred before it stops the reading. */
  lemma {:induction false} StopsBehind(a: string, terminator: string, b: string)
    requires terminator != "" && terminator[0] !in a
    ensures Stop(a + terminator + b, terminator) == |a| + |terminator|
  {
    var s, n := a + terminator + b, |a| + |terminator|;
    assert s[n - |terminator|..n] == terminator;
    forall j | 1 <= j < n ensures !EndsAt(s, terminator, j) {
      if |terminator| <= j {
        assert s[j - |terminator|] == a[j - |terminator|];
      }
    }
    StopFromIs(s, terminator, 1, n);
  }

  /** The first place at or after k where the pattern stands. */
  function FindFrom(s: string, pattern: string, k: nat): (r: Option<nat>)
    ensures r.Some? ==> k <= r.value && At(s, pattern, r.value)
    ensures r.Some? ==> forall j :: k <= j < r.value ==> !At(s, pattern, j)
    ensures r.None? ==> forall j :: k <= j ==> !At(s, pattern, j)
    decreases |s| - k
  {
    if At(s, pattern, k) then Some(k)
    else if k >= |s| then None
    else FindFrom(s, pattern, k + 1)
  }

  /** A C string ends at its first zero; searches see nothing behind it. */
  function Visible(s: string): (v: string)
    ensures v <= s && '\0' !in v
    ensures |v| < |s| ==> s[|v|] == '\0'
  {
    if s == "" || s[0] == '\0' then "" else
    var v := Visible(s[1..]);
    assert s[..1 + |v|] == [s[0]] + v;
    [s[0]] + v
  }

  lemma {:induction false} AllVisible(s: string)
    requires '\0' !in s
    ensures Visible(s) == s
  {}

  // --------------------------------------------------------------------- numbers

  predicate IsDigit(c: char) { '0' <= c <= '9' }

  function DigitVal(c: char): (d: nat)
    requires IsDigit(c)
    ensures d < 10
  {
    c as int - '0' as int
  }

  function DigitOf(n: nat): (c: char)
    requires n < 10
    ensures IsDigit(c) && DigitVal(c) == n
  {
    ('0' as int + n) as char
  }

  /** n in decimal, with zeros in front up to `width` digits. */
  function Dec(n: nat, width: nat): (s: string)
    ensures |s| >= width && forall c :: c in s ==> IsDigit(c)
    decreases n, width
  {
    if n == 0 && width == 0 then ""
    else Dec(n / 10, if width > 0 then width - 1 else 0) + [DigitOf(n % 10)]
  }

  /** The number decimal digits spell. */
  function Val(s: string): nat
    requires forall c :: c in s ==> IsDigit(c)
  {
    if s == "" then 0
    else
      assert s[|s| - 1] in s;
      assert forall c :: c in s[..|s| - 1] ==> c in s;
      Val(s[..|s| - 1]) * 10 + DigitVal(s[|s| - 1])
  }

  lemma {:induction false} ValOfDec(n: nat, width: nat)
    ensures Val(Dec(n, width)) == n
    decreases n, width
  {
    if n > 0 || width > 0 {
      var w := if width > 0 then width - 1 else 0;
      ValOfDec(n / 10, w);
      var s := Dec(n, width);
      assert s[..|s| - 1] == Dec(n / 10, w) && s[|s| - 1] == DigitOf(n % 10);
    }
  }

  /** How many digits `s` begins with. */
  function Run(s: string): (n: nat)
    ensures n <= |s| && (forall c :: c in s[..n] ==> IsDigit(c)) && (n < |s| ==> !IsDigit(s[n]))
  {
    if s == "" || !IsDigit(s[0]) then 0
    else
      var n := Run(s[1..]);
      assert s[..1 + n] == [s[0]] + s[1..][..n];
      1 + n
  }

  lemma {:induction false} RunIs(digits: string, rest: string)
    requires (forall c :: c in digits ==> IsDigit(c)) && (rest == "" || !IsDigit(rest[0]))
    ensures Run(digits + rest) == |digits|
  {
    var s, n := digits + rest, Run(digits + rest);
    assert s[..|digits|] == digits;
  }

  /** mantissa x 10^exponent, exactly as it was written. */
  datatype Decimal = Decimal(mantissa: int, exponent: int)
  {
    function AsReal(): real { Scaled(mantissa as real, exponent) }
  }

  datatype Number = Number(value: Decimal, used: nat) | NoNumber

  function Blanks(s: string): (n: nat)
    ensures n <= |s|
  {
    if s != "" && (s[0] == ' ' || '\t' <= s[0] <= '\r') then 1 + Blanks(s[1..]) else 0
  }

  predicate IsSign(s: string) { s != "" && (s[0] == '+' || s[0] == '-') }

  lemma {:induction false} BothDigits(a: string, b: string)
    requires (forall c :: c in a ==> IsDigit(c)) && (forall c :: c in b ==> IsDigit(c))
    ensures forall c :: c in a + b ==> IsDigit(c)
  {}

  /** digits [ . digits ], with a digit somewhere. */
  function Unsigned(s: string): (r: Number)
    ensures r.Number? ==> 0 < r.used <= |s|
  {
    var n := Run(s);
    if n < |s| && s[n] == '.' then
      var tail := s[n + 1..];
      var m := Run(tail);
      BothDigits(s[..n], tail[..m]);
      if n + m == 0 then NoNumber else Number(Decimal(Val(s[..n] + tail[..m]), 0 - m), n + 1 + m)
    else if n == 0 then NoNumber
    else Number(Decimal(Val(s[..n]), 0), n)
  }

  /** An exponent, if there is a whole one. */
  function Exponent(s: string): (r: (int, nat))
    ensures r.1 <= |s|
  {
    if s == "" || (s[0] != 'e' && s[0] != 'E') then (0, 0)
    else
      var k := if IsSign(s[1..]) then 2 else 1;
      var n := Run(s[k..]);
      if n == 0 then (0, 0)
      else (if s[1] == '-' then -(Val(s[k..][..n]) as int) else Val(s[k..][..n]), k + n)
  }

  /** strtof() on decimal numbers, without its rounding. */
  function StrToF(s: string): (r: Number)
    ensures r.Number? ==> r.used <= |s|
  {
    var b := Blanks(s);
    var k := if IsSign(s[b..]) then b + 1 else b;
    var u := Unsigned(s[k..]);
    if u.NoNumber? then NoNumber
    else
      var (e, n) := Exponent(s[k + u.used..]);
      var m := u.value.mantissa;
      Number(Decimal(if k > b && s[b] == '-' then -m else m, u.value.exponent + e), k + u.used + n)
  }

  /** %010.3f for a count of thousandths: six digits or more, a point, three digits. */
  function Milli(n: nat): string {
    var d := Dec(n, 9);
    d[..|d| - 3] + "." + d[|d| - 3..]
  }

  lemma {:induction false} NotBlank(c: char)
    requires IsDigit(c)
    ensures c != ' ' && !('\t' <= c <= '\r') && c != '+' && c != '-'
  {}

  lemma {:induction false} UnsignedOf(a: string, b: string, rest: string)
    requires a != "" && (forall c :: c in a ==> IsDigit(c)) && (forall c :: c in b ==> IsDigit(c))
    requires rest == "" || !IsDigit(rest[0])
    ensures (forall c :: c in a + b ==> IsDigit(c))
    ensures Unsigned(a + ("." + (b + rest))) == Number(Decimal(Val(a + b), -|b|), |a| + 1 + |b|)
  {
    var s := a + ("." + (b + rest));
    RunIs(a, "." + (b + rest));
    RunIs(b, rest);
    BothDigits(a, b);
    assert s[|a|] == '.' && s[..|a|] == a && s[|a| + 1..] == b + rest && (b + rest)[..|b|] == b;
  }

  lemma {:induction false} MilliParts(d: string, rest: string)
    requires |d| >= 9 && forall c :: c in d ==> IsDigit(c)
    ensures var a, b := d[..|d| - 3], d[|d| - 3..];
      && (forall c :: c in a ==> IsDigit(c)) && (forall c :: c in b ==> IsDigit(c)) && a + b == d
      && a + "." + b + rest == a + ("." + (b + rest)) && IsDigit((a + "." + b + rest)[0])
  {
    assert d[0] in d;
  }

  /** Plain decimal digits up front leave strtof() nothing else to look for. */
  lemma {:induction false} PlainStrToF(s: string, u: Number)
    requires s != "" && IsDigit(s[0]) && Unsigned(s) == u && u.Number? && u.used < |s| && s[u.used] == '*'
    ensures StrToF(s) == u
  {
    NotBlank(s[0]);
    assert s[0..] == s;
    assert s[u.used..][0] == '*';
  }

  /** What the meter prints, the reader reads: every count of thousandths comes back. */
  lemma {:induction false} MilliRoundTrip(n: nat, rest: string)
    requires rest != "" && rest[0] == '*'
    ensures StrToF(Milli(n) + rest) == Number(Decimal(n, -3), |Milli(n)|)
  {
    var d := Dec(n, 9);
    MilliParts(d, rest);
    UnsignedOf(d[..|d| - 3], d[|d| - 3..], rest);
    ValOfDec(n, 9);
    PlainStrToF(Milli(n) + rest, Number(Decimal(n, -3), |Milli(n)|));
  }

  /** And it is the value in whole units. */
  lemma {:induction false} MilliAsReal(n: nat)
    ensures 1000.0 * Decimal(n, -3).AsReal() == n as real
  {
    assert Pow10(1) == 10.0;
    assert Pow10(2) == 100.0;
    assert Pow10(3) == 1000.0;
  }

  // ----------------------------------------------------------------- check bytes

  /** A character as the byte that travels. */
  function Bits(c: char): Byte { ToByte((c as int) % 256) }

  function CharOf(b: Byte): char { CharOfNat(b as int) }

  function CharOfNat(n: U8): (c: char)
    ensures c as int == n
  {
    n as char
  }

  lemma {:induction false} SmallMod(n: U8)
    ensures n % 256 == n
  {}

  lemma {:induction false} BitsOfNat(n: U8)
    ensures Bits(CharOfNat(n)) == ToByte(n)
  {
    SmallMod(n);
  }

  lemma {:induction false} BitsOfCharOf(b: Byte)
    ensures Bits(CharOf(b)) == b
  {
    BitsOfNat(b as int);
    ToByteOfNat(b);
  }

  /** Exclusive or of all bytes. */
  function Bcc(s: string): Byte {
    if s == "" then 0 else Bcc(s[..|s| - 1]) ^ Bits(s[|s| - 1])
  }

  lemma {:induction false} BccMore(s: string, c: char)
    ensures Bcc(s + [c]) == Bcc(s) ^ Bits(c)
  {
    assert (s + [c])[..|s|] == s;
  }

  lemma {:induction false} XorCancels(a: Byte, x: Byte, y: Byte)
    ensures a ^ x == a ^ y <==> x == y
    ensures x ^ a == y ^ a <==> x == y
  {}

  /** Texts that differ in one character, as bytes, have different check bytes. */
  lemma {:induction false} BccDetectsOne(s: string, t: string, k: nat)
    requires |s| == |t| && k < |s| && Bits(s[k]) != Bits(t[k])
    requires forall i :: 0 <= i < |s| && i != k ==> s[i] == t[i]
    ensures Bcc(s) != Bcc(t)
    decreases |s|
  {
    var n := |s| - 1;
    if k < n {
      BccDetectsOne(s[..n], t[..n], k);
      XorCancels(Bits(s[n]), Bcc(s[..n]), Bcc(t[..n]));
    } else {
      assert s[..n] == t[..n];
      XorCancels(Bcc(s[..n]), Bits(s[n]), Bits(t[n]));
    }
  }
}
