/** Tag, length, value fields with BER lengths (ITU-T X.690, section 8.1.3): short form,
    or long form with one length byte. */
module Ber {
  import opened Wire

  datatype Field = Field(tag: Byte, value: seq<Byte>)

  datatype Form = Short | Long

  /** A length a form can carry. */
  predicate Carries(form: Form, n: nat) { if form.Short? then n < 0x80 else n < 0x100 }

  function LengthBytes(form: Form, n: nat): seq<Byte>
    requires Carries(form, n)
  {
    if form.Short? then [ToByte(n)] else [0x81, ToByte(n)]
  }

  predicate Writable(f: Field, form: Form) { Carries(form, |f.value|) }

  function WriteField(f: Field, form: Form): (s: seq<Byte>)
    requires Writable(f, form)
    ensures |s| >= 2
  {
    [f.tag] + LengthBytes(form, |f.value|) + f.value
  }

  predicate AllWritable(fs: seq<Field>, forms: seq<Form>) {
    |fs| == |forms| && forall i :: 0 <= i < |fs| ==> Writable(fs[i], forms[i])
  }

  function Write(fs: seq<Field>, forms: seq<Form>): seq<Byte>
    requires AllWritable(fs, forms)
  {
    if fs == [] then [] else WriteField(fs[0], forms[0]) + Write(fs[1..], forms[1..])
  }

  datatype Length = Length(form: Form, n: nat, used: nat) | NoLength

  /** readBerLength() on everything up to its end. */
  function TakeLength(s: seq<Byte>): Length {
    if |s| == 0 then NoLength
    else if s[0] < 0x80 then Length(Short, s[0] as int, 1)
    else if s[0] == 0x81 && |s| > 1 then Length(Long, s[1] as int, 2)
    else NoLength
  }

  datatype Taken = Taken(field: Field, form: Form, rest: seq<Byte>) | Overrun

  function TakeField(s: seq<Byte>): (t: Taken)
    ensures t.Taken? ==> |t.rest| < |s|
  {
    if |s| == 0 then Overrun
    else
      var l := TakeLength(s[1..]);
      if l.NoLength? || 1 + l.used + l.n > |s| then Overrun
      else Taken(Field(s[0], s[1 + l.used..1 + l.used + l.n]), l.form, s[1 + l.used + l.n..])
  }

  /** The fields a byte string splits into, if it splits without a byte left over. */
  function Fields(s: seq<Byte>): Option<seq<Field>>
    decreases |s|
  {
    if s == [] then Some([])
    else
      var t := TakeField(s);
      if t.Overrun? then None else Prepend([t.field], Fields(t.rest))
  }

  function Prepend(fs: seq<Field>, more: Option<seq<Field>>): Option<seq<Field>> {
    if more.None? then None else Some(fs + more.value)
  }

  lemma {:induction false} ShortByte(n: U8)
    ensures n < 0x80 <==> ToByte(n) < 0x80
  {
    assert (0x80 as bv8) as int == 0x80;
  }

  lemma {:induction false} LengthTaken(form: Form, n: nat, s: seq<Byte>)
    requires Carries(form, n)
    ensures TakeLength(LengthBytes(form, n) + s) == Length(form, n, |LengthBytes(form, n)|)
  {
    ShortByte(n);
    var t := LengthBytes(form, n) + s;
    assert t[0] == LengthBytes(form, n)[0];
  }

  lemma {:induction false} FieldTaken(f: Field, form: Form, s: seq<Byte>)
    requires Writable(f, form)
    ensures TakeField(WriteField(f, form) + s) == Taken(f, form, s)
  {
    var t := WriteField(f, form) + s;
    var u := |LengthBytes(form, |f.value|)|;
    LengthTaken(form, |f.value|, f.value + s);
    assert t[1..] == LengthBytes(form, |f.value|) + (f.value + s);
    assert t[1 + u..1 + u + |f.value|] == f.value;
    assert t[1 + u + |f.value|..] == s;
  }

  lemma {:induction false} ShortBack(b: Byte)
    ensures b < 0x80 <==> (b as int) < 0x80
    ensures ToByte(b as int) == b
  {
    ToByteOfNat(b);
    ShortByte(b as int);
  }

  lemma {:induction false} LengthWritten(s: seq<Byte>)
    requires TakeLength(s).Length?
    ensures var l := TakeLength(s);
      Carries(l.form, l.n) && l.used <= |s| && LengthBytes(l.form, l.n) == s[..l.used]
  {
    ShortBack(s[0]);
    if s[0] >= 0x80 {
      ShortBack(s[1]);
      assert s[..2] == [s[0], s[1]];
    } else {
      assert s[..1] == [s[0]];
    }
  }

  lemma {:induction false} FieldWritten(s: seq<Byte>)
    requires TakeField(s).Taken?
    ensures var t := TakeField(s);
      Writable(t.field, t.form) && s == WriteField(t.field, t.form) + t.rest
  {
    LengthWritten(s[1..]);
    var l := TakeLength(s[1..]);
    assert s == [s[0]] + s[1..][..l.used] + s[1 + l.used..1 + l.used + l.n] + s[1 + l.used + l.n..];
  }

  /** Written fields split back into themselves, in either form. */
  lemma {:induction false} FieldsOfWrite(fs: seq<Field>, forms: seq<Form>)
    requires AllWritable(fs, forms)
    ensures Fields(Write(fs, forms)) == Some(fs)
    decreases |fs|
  {
    if fs != [] {
      FieldTaken(fs[0], forms[0], Write(fs[1..], forms[1..]));
      FieldsOfWrite(fs[1..], forms[1..]);
      assert fs == [fs[0]] + fs[1..];
    }
  }

  /** The forms the lengths of a splitting byte string use. */
  function FormsOf(s: seq<Byte>): (forms: seq<Form>)
    decreases |s|
  {
    if s == [] || TakeField(s).Overrun? then []
    else [TakeField(s).form] + FormsOf(TakeField(s).rest)
  }

  /** Whatever splits into fields is those fields written down. */
  lemma {:induction false} WriteOfFields(s: seq<Byte>)
    requires Fields(s).Some?
    ensures AllWritable(Fields(s).value, FormsOf(s)) && Write(Fields(s).value, FormsOf(s)) == s
    decreases |s|
  {
    if s != [] {
      var t := TakeField(s);
      FieldWritten(s);
      WriteOfFields(t.rest);
      var fs, forms := Fields(s).value, FormsOf(s);
      assert fs[0] == t.field && fs[1..] == Fields(t.rest).value && forms[1..] == FormsOf(t.rest);
      forall i | 0 <= i < |fs| ensures Writable(fs[i], forms[i]) {
        if i > 0 {
          assert fs[i] == Fields(t.rest).value[i - 1] && forms[i] == FormsOf(t.rest)[i - 1];
        }
      }
    }
  }

  ghost predicate WrittenAs(s: seq<Byte>, fs: seq<Field>, forms: seq<Form>) {
    AllWritable(fs, forms) && Write(fs, forms) == s
  }

  /** Splitting accepts exactly the byte strings that are fields written one after another. */
  lemma {:induction false} FieldsIff(s: seq<Byte>, fs: seq<Field>)
    ensures Fields(s) == Some(fs) <==> exists forms :: WrittenAs(s, fs, forms)
  {
    if Fields(s) == Some(fs) {
      WriteOfFields(s);
      assert WrittenAs(s, fs, FormsOf(s));
    }
    if exists forms :: WrittenAs(s, fs, forms) {
      var forms :| WrittenAs(s, fs, forms);
      FieldsOfWrite(fs, forms);
    }
  }

  // ---------------------------------------------------------------- the walker

  lemma {:induction false} PrependTwice(a: seq<Field>, f: Field, more: Option<seq<Field>>)
    ensures Prepend(a + [f], more) == Prepend(a, Prepend([f], more))
  {
    if more.Some? {
      assert a + [f] + more.value == a + ([f] + more.value);
    }
  }

  /** readBerLength() */
  method ReadBerLength(buf: seq<Byte>, end: nat, pos: nat) returns (ok: bool, next: nat, len: nat)
    requires pos <= end <= |buf|
    ensures ok <==> TakeLength(buf[pos..end]).Length?
    ensures ok ==> len == TakeLength(buf[pos..end]).n && next == pos + TakeLength(buf[pos..end]).used <= end
  {
    next := pos;
    len := 0;
    if next >= end {
      return false, next, len;
    }
    var first := buf[next];
    next := next + 1;
    if first < 0x80 {
      return true, next, first as int;
    }
    if first == 0x81 && next < end {
      len := buf[next] as int;
      next := next + 1;
      return true, next, len;
    }
    return false, next, len;
  }
}

/** Accepting a DLMS association: DlmsCosemReader::checkAare(). */
module Aare {
  import opened Wire
  import opened Slices
  import opened Ber

  /** An association result: INTEGER of one byte inside tag A2. */
  predicate ShapedResult(f: Field) {
    f.tag == 0xA2 && |f.value| == 3 && f.value[0] == 0x02 && f.value[1] == 0x01
  }

  /** User information: an OCTET STRING holding an xDLMS APDU inside tag BE. */
  predicate ShapedInitiate(f: Field) {
    f.tag == 0xBE && |f.value| >= 3 && f.value[0] == 0x04
  }

  function Third(f: Field): int { if |f.value| > 2 then f.value[2] as int else -1 }

  /** Field i is the last one with the shape, and b is its third byte. */
  predicate LastAt(fs: seq<Field>, shaped: Field -> bool, b: int, i: nat) {
    i < |fs| && shaped(fs[i]) && Third(fs[i]) == b && forall j :: i < j < |fs| ==> !shaped(fs[j])
  }

  ghost predicate LastSays(fs: seq<Field>, shaped: Field -> bool, b: int) {
    exists i: nat :: LastAt(fs, shaped, b, i)
  }

  /** The meter accepts: the last result is 0, the last user information starts an
      InitiateResponse (tag 08). */
  ghost predicate Accepts(fs: seq<Field>) {
    LastSays(fs, ShapedResult, 0x00) && LastSays(fs, ShapedInitiate, 0x08)
  }

  /** The AARE's body, if tag and length delimit one; bytes after it are ignored. */
  function Body(apdu: seq<Byte>): Option<seq<Byte>> {
    if |apdu| < 2 || apdu[0] != 0x61 then None
    else
      var l := TakeLength(apdu[1..]);
      if l.NoLength? || 1 + l.used + l.n > |apdu| then None
      else Some(apdu[1 + l.used..1 + l.used + l.n])
  }

  /** An AARE that opens the association. */
  ghost predicate Opens(apdu: seq<Byte>) {
    && Body(apdu).Some?
    && Fields(Body(apdu).value).Some?
    && Accepts(Fields(Body(apdu).value).value)
  }

  // -------------------------------------------------------------------- meaning

  /** A body of written fields, in either length form and with anything behind it, opens
      the association exactly when its fields accept. */
  lemma {:induction false} WrittenAareOpens(fs: seq<Field>, forms: seq<Form>, form: Form, trailing: seq<Byte>)
    requires AllWritable(fs, forms) && Carries(form, |Write(fs, forms)|)
    ensures Opens([0x61] + LengthBytes(form, |Write(fs, forms)|) + Write(fs, forms) + trailing) <==> Accepts(fs)
  {
    var body := Write(fs, forms);
    var head := LengthBytes(form, |body|);
    var apdu := [0x61] + head + body + trailing;
    LengthTaken(form, |body|, body + trailing);
    assert apdu[1..] == head + (body + trailing);
    assert apdu[1 + |head|..1 + |head| + |body|] == body;
    FieldsOfWrite(fs, forms);
  }

  // ------------------------------------------------------- what the walk gathers

  /** The third byte of the last field with the shape, -1 until there is one. */
  function Last(fs: seq<Field>, shaped: Field -> bool): int {
    if fs == [] then -1
    else if shaped(fs[|fs| - 1]) then Third(fs[|fs| - 1])
    else Last(fs[..|fs| - 1], shaped)
  }

  lemma {:induction false} LastShorter(fs: seq<Field>, shaped: Field -> bool, b: int)
    requires |fs| > 0 && !shaped(fs[|fs| - 1])
    ensures LastSays(fs, shaped, b) <==> LastSays(fs[..|fs| - 1], shaped, b)
  {
    var less := fs[..|fs| - 1];
    if LastSays(fs, shaped, b) {
      var i: nat :| LastAt(fs, shaped, b, i);
      assert LastAt(less, shaped, b, i);
    }
    if LastSays(less, shaped, b) {
      var i: nat :| LastAt(less, shaped, b, i);
      forall j | i < j < |fs| ensures !shaped(fs[j]) {
        if j < |less| { assert less[j] == fs[j]; }
      }
      assert LastAt(fs, shaped, b, i);
    }
  }

  lemma {:induction false} LastIs(fs: seq<Field>, shaped: Field -> bool, b: nat)
    ensures Last(fs, shaped) == b <==> LastSays(fs, shaped, b)
    decreases |fs|
  {
    if fs != [] {
      var n := |fs| - 1;
      if shaped(fs[n]) {
        assert Third(fs[n]) == b ==> LastAt(fs, shaped, b, n);
      } else {
        LastIs(fs[..n], shaped, b);
        LastShorter(fs, shaped, b);
      }
    }
  }

  // --------------------------------------------------------------------- the walk

  /** Where the walk of checkAare() stands. */
  ghost predicate Walking(body: seq<Byte>, seen: seq<Field>, left: seq<Byte>, result: int, initiated: bool) {
    && Fields(body) == Prepend(seen, Fields(left))
    && result == Last(seen, ShapedResult) && (initiated <==> Last(seen, ShapedInitiate) == 0x08)
  }

  lemma {:induction false} EightByte(b: Byte)
    ensures b == 0x08 <==> b as int == 8
  {}

  lemma {:induction false} WalkStep(body: seq<Byte>, seen: seq<Field>, left: seq<Byte>, result: int, initiated: bool)
    requires Walking(body, seen, left, result, initiated) && left != [] && TakeField(left).Taken?
    ensures var f := TakeField(left).field;
      Walking(body, seen + [f], TakeField(left).rest,
              if ShapedResult(f) then f.value[2] as int else result,
              if ShapedInitiate(f) then f.value[2] == 0x08 else initiated)
  {
    var t := TakeField(left);
    assert (seen + [t.field])[..|seen|] == seen;
    if ShapedInitiate(t.field) { EightByte(t.field.value[2]); }
    PrependTwice(seen, t.field, Fields(t.rest));
  }

  lemma {:induction false} TakenAt(apdu: seq<Byte>, pos: nat, end: nat, next: nat, len: nat)
    requires pos < next <= end <= |apdu| && TakeLength(apdu[pos + 1..end]).Length?
    requires len == TakeLength(apdu[pos + 1..end]).n && next == pos + 1 + TakeLength(apdu[pos + 1..end]).used
    ensures var left := apdu[pos..end];
      if next + len <= end
      then
        var form := TakeLength(apdu[pos + 1..end]).form;
        TakeField(left) == Taken(Field(apdu[pos], apdu[next..next + len]), form, apdu[next + len..end])
      else TakeField(left) == Overrun
  {
    var left := apdu[pos..end];
    assert left[1..] == apdu[pos + 1..end];
    if next + len <= end {
      SubSlice(apdu, pos, end, next - pos, next - pos + len);
      SubSlice(apdu, pos, end, next - pos + len, end - pos);
    }
  }

  lemma {:induction false} WalkDone(apdu: seq<Byte>, body: seq<Byte>, seen: seq<Field>, result: int, initiated: bool)
    requires Body(apdu) == Some(body) && Walking(body, seen, [], result, initiated)
    ensures Opens(apdu) <==> result == 0 && initiated
  {
    assert seen + [] == seen;
    LastIs(seen, ShapedResult, 0x00);
    LastIs(seen, ShapedInitiate, 0x08);
  }

  lemma {:induction false} WalkBegins(body: seq<Byte>)
    ensures Walking(body, [], body, -1, false)
  {
    if Fields(body).Some? {
      assert [] + Fields(body).value == Fields(body).value;
    }
  }

  lemma {:induction false} WalkFails(body: seq<Byte>, seen: seq<Field>, left: seq<Byte>, result: int, initiated: bool)
    requires Walking(body, seen, left, result, initiated) && left != [] && TakeField(left).Overrun?
    ensures Fields(body) == None
  {}

  /** One turn of checkAare()'s loop. */
  method WalkField(apdu: seq<Byte>, start: nat, end: nat, ghost body: seq<Byte>, ghost seen: seq<Field>,
                   wasResult: int, wasInitiated: bool)
      returns (ok: bool, next: nat, result: int, initiated: bool, ghost field: Field)
    requires start < end <= |apdu| && Walking(body, seen, apdu[start..end], wasResult, wasInitiated)
    ensures !ok ==> Fields(body) == None
    ensures ok ==> start < next <= end && Walking(body, seen + [field], apdu[next..end], result, initiated)
  {
    ghost var left := apdu[start..end];
    assert left[1..] == apdu[start + 1..end];
    result, initiated, field := wasResult, wasInitiated, Field(0, []);
    var tag := apdu[start];
    var read, pos, valueLen := ReadBerLength(apdu, end, start + 1);
    if !read || valueLen > end - pos {
      WalkFails(body, seen, left, result, initiated);
      return false, 0, result, initiated, field;
    }
    TakenAt(apdu, start, end, pos, valueLen);
    WalkStep(body, seen, left, result, initiated);
    var value := apdu[pos..pos + valueLen];
    field := Field(tag, value);
    if tag == 0xA2 {
      if valueLen == 3 && value[0] == 0x02 && value[1] == 0x01 {
        result := value[2] as int;
      }
    } else if tag == 0xBE {
      if valueLen >= 3 && value[0] == 0x04 {
        initiated := value[2] == 0x08;
      }
    }
    return true, pos + valueLen, result, initiated, field;
  }

  /** The loop of checkAare(), over a body delimited already. */
  method WalkFields(apdu: seq<Byte>, start: nat, end: nat) returns (ok: bool)
    requires start <= end <= |apdu| && Body(apdu) == Some(apdu[start..end])
    ensures ok <==> Opens(apdu)
  {
    ghost var body := apdu[start..end];
    var pos, result, initiated := start, -1, false;
    ghost var seen: seq<Field> := [];
    WalkBegins(body);
    while pos < end
      invariant start <= pos <= end
      invariant Walking(body, seen, apdu[pos..end], result, initiated)
      decreases end - pos
    {
      ghost var field;
      ok, pos, result, initiated, field := WalkField(apdu, pos, end, body, seen, result, initiated);
      if !ok {
        return;
      }
      seen := seen + [field];
    }
    assert apdu[pos..end] == [];
    WalkDone(apdu, body, seen, result, initiated);
    return result == 0 && initiated;
  }

  /** checkAare(): for every byte string, accepts exactly the AAREs that open. */
  method CheckAare(apdu: seq<Byte>) returns (ok: bool)
    ensures ok <==> Opens(apdu)
  {
    if |apdu| < 2 || apdu[0] != 0x61 {
      return false;
    }
    var read, pos, bodyLen := ReadBerLength(apdu, |apdu|, 1);
    assert apdu[1..|apdu|] == apdu[1..];
    if !read || bodyLen > |apdu| - pos {
      return false;
    }
    ok := WalkFields(apdu, pos, pos + bodyLen);
  }
}
