/** Over-the-air formats shared by meter nodes, substations and the gateway.
    Multi-byte fields travel least significant byte first, as on the ESP32. */
module Wire {

  type Byte = bv8
  type U8 = n: int | 0 <= n < 0x100
  type U32 = n: int | 0 <= n < 0x1_0000_0000
  /** A 6 byte MAC address, read as one number. */
  type Mac = n: int | 0 <= n < 0x1_0000_0000_0000
  /** A 16 byte device UID, read as one number. */
  type Uid = n: int | 0 <= n < 0x1_0000_0000_0000_0000_0000_0000_0000_0000

  datatype Option<+T> = None | Some(value: T)

  /** The per reading part of a Payload. The three values are float32 bit patterns. */
  datatype Sample = Sample(seqNo: U32, kwhImport: U32, kwhExport: U32, voltage: U32)

  /** The per node part of a Payload. */
  datatype Ids = Ids(community: U8, unit: U8, nodeType: U8)

  datatype Payload = Payload(uid: Uid, sample: Sample, ids: Ids)
  {
    function ToReading(): Reading { Reading(uid, sample) }
  }

  /** What identifies a reading from the meter to the broker. */
  datatype Reading = Reading(uid: Uid, sample: Sample)
  {
    function Key(): AckPayload { AckPayload(uid, sample.seqNo) }
  }

  datatype AckPayload = AckPayload(uid: Uid, seqNo: U32)

  datatype LinkType = Beacon | Join | JoinAck

  datatype LinkFrame = LinkFrame(kind: LinkType, epoch: U32, uid: Uid)

  const PAYLOAD_LEN: nat := 35
  const ACK_LEN: nat := 20
  const LINK_LEN: nat := 23

  // ---------------------------------------------------------------- integers

  ghost function Pow256(k: nat): (p: nat)
    ensures p > 0
  {
    if k == 0 then 1 else 256 * Pow256(k - 1)
  }

  lemma {:induction false} NextByte(b: Byte)
    requires b != 0xFF
    ensures (b + 1) as int == b as int + 1
  {}

  ghost predicate IsByteOf(b: Byte, n: int) { b as int == n }

  lemma {:induction false} SomeByte(n: U8)
    ensures exists b: Byte :: IsByteOf(b, n)
  {
    if n == 0 {
      assert IsByteOf(0, n);
    } else {
      SomeByte(n - 1);
      var b: Byte :| IsByteOf(b, n - 1);
      NextByte(b);
      assert IsByteOf(b + 1, n);
    }
  }

  /** The byte holding a number. */
  function ToByte(n: U8): (b: Byte)
    ensures b as int == n
  {
    SomeByte(n);
    assert exists b: Byte :: IsByteOf(b, n);
    var b: Byte :| b as int == n;
    b
  }

  lemma {:induction false} ToByteOfNat(b: Byte)
    ensures ToByte(b as nat) == b
  {}

  function Low(n: nat): (b: Byte)
    ensures b as nat == n % 256
  {
    ToByte(n % 256)
  }

  function Le(n: nat, width: nat): (s: seq<Byte>)
    ensures |s| == width
    decreases width, n
  {
    if width == 0 then [] else [Low(n)] + Le(n / 256, width - 1)
  }

  function Nat(s: seq<Byte>): nat
  {
    if s == [] then 0 else s[0] as nat + 256 * Nat(s[1..])
  }

  lemma {:induction false} NatBound(s: seq<Byte>)
    ensures Nat(s) < Pow256(|s|)
  {
    if s != [] {
      NatBound(s[1..]);
    }
  }

  lemma {:induction false} NatOfLe(n: nat, width: nat)
    requires n < Pow256(width)
    ensures Nat(Le(n, width)) == n
    decreases width
  {
    if width > 0 {
      NatOfLe(n / 256, width - 1);
      var s := Le(n, width);
      var b := Low(n);
      assert s[0] == b && s[1..] == Le(n / 256, width - 1);
      assert Nat(s) == b as nat + 256 * (n / 256);
    }
  }

  lemma {:induction false} LeOfNat(s: seq<Byte>)
    ensures Le(Nat(s), |s|) == s
  {
    if s != [] {
      LeOfNat(s[1..]);
      ToByteOfNat(s[0]);
      var n := Nat(s);
      assert n / 256 == Nat(s[1..]) && n % 256 == s[0] as nat;
      assert s == [s[0]] + s[1..];
    }
  }

  lemma {:induction false} Pow256Values()
    ensures Pow256(1) == 0x100
    ensures Pow256(4) == 0x1_0000_0000
    ensures Pow256(16) == 0x1_0000_0000_0000_0000_0000_0000_0000_0000
  {
    assert Pow256(2) == 0x1_0000;
    assert Pow256(4) == 0x1_0000_0000;
    assert Pow256(6) == 0x1_0000_0000_0000;
    assert Pow256(8) == 0x1_0000_0000_0000_0000;
    assert Pow256(10) == 0x1_0000_0000_0000_0000_0000;
    assert Pow256(12) == 0x1_0000_0000_0000_0000_0000_0000;
    assert Pow256(14) == 0x1_0000_0000_0000_0000_0000_0000_0000;
  }

  function ReadU32(s: seq<Byte>): U32
    requires |s| == 4
  {
    NatBound(s);
    Pow256Values();
    Nat(s)
  }

  function ReadUid(s: seq<Byte>): Uid
    requires |s| == 16
  {
    NatBound(s);
    Pow256Values();
    Nat(s)
  }

  function ReadU8(b: Byte): U8 { b as int }

  // ------------------------------------------------------------------ frames

  function IdBytes(ids: Ids): (s: seq<Byte>)
    ensures |s| == 3
  {
    [ToByte(ids.community), ToByte(ids.unit), ToByte(ids.nodeType)]
  }

  function ReadIds(s: seq<Byte>): Ids
    requires |s| == 3
  {
    Ids(ReadU8(s[0]), ReadU8(s[1]), ReadU8(s[2]))
  }

  function EncodePayload(p: Payload): (s: seq<Byte>)
    ensures |s| == PAYLOAD_LEN
  {
    Le(p.uid, 16) + Le(p.sample.seqNo, 4) + Le(p.sample.kwhImport, 4) + Le(p.sample.kwhExport, 4)
    + Le(p.sample.voltage, 4) + IdBytes(p.ids)
  }

  function DecodePayload(s: seq<Byte>): Payload
    requires |s| == PAYLOAD_LEN
  {
    Payload(ReadUid(s[..16]),
            Sample(ReadU32(s[16..20]), ReadU32(s[20..24]), ReadU32(s[24..28]), ReadU32(s[28..32])),
            ReadIds(s[32..]))
  }

  function EncodeAck(a: AckPayload): (s: seq<Byte>)
    ensures |s| == ACK_LEN
  {
    Le(a.uid, 16) + Le(a.seqNo, 4)
  }

  function DecodeAck(s: seq<Byte>): AckPayload
    requires |s| == ACK_LEN
  {
    AckPayload(ReadUid(s[..16]), ReadU32(s[16..20]))
  }

  /** "KZ". */
  const MAGIC: seq<Byte> := [0x4B, 0x5A]

  function TypeCode(t: LinkType): Byte {
    match t case Beacon => 1 case Join => 2 case JoinAck => 3
  }

  function TypeOf(b: Byte): LinkType {
    if b == 1 then Beacon else if b == 2 then Join else JoinAck
  }

  lemma {:induction false} TypeRoundTrip(t: LinkType, b: Byte)
    ensures 1 <= TypeCode(t) <= 3 && TypeOf(TypeCode(t)) == t
    ensures 1 <= b <= 3 ==> TypeCode(TypeOf(b)) == b
  {}

  /** linkFrameMake(), then the packed bytes that go on the air. */
  function LinkFrameMake(f: LinkFrame): (s: seq<Byte>)
    ensures |s| == LINK_LEN
  {
    MAGIC + [TypeCode(f.kind)] + Le(f.epoch, 4) + Le(f.uid, 16)
  }

  function LinkFrameParse(buf: seq<Byte>): Option<LinkFrame> {
    if |buf| != LINK_LEN then None
    else if buf[..2] != MAGIC then None
    else if buf[2] < 1 || buf[2] > 3 then None
    else Some(LinkFrame(TypeOf(buf[2]), ReadU32(buf[3..7]), ReadUid(buf[7..23])))
  }

  lemma {:induction false} U32RoundTrip(n: U32)
    ensures ReadU32(Le(n, 4)) == n
  {
    Pow256Values();
    NatOfLe(n, 4);
  }

  lemma {:induction false} UidRoundTrip(n: Uid)
    ensures ReadUid(Le(n, 16)) == n
  {
    Pow256Values();
    NatOfLe(n, 16);
  }

  lemma {:induction false} IdsRoundTrip(ids: Ids, s: seq<Byte>)
    requires |s| == 3
    ensures ReadIds(IdBytes(ids)) == ids
    ensures IdBytes(ReadIds(s)) == s
  {
    ToByteOfNat(s[0]);
    ToByteOfNat(s[1]);
    ToByteOfNat(s[2]);
  }

  lemma {:induction false} Slices(a: seq<Byte>, b: seq<Byte>, c: seq<Byte>, d: seq<Byte>, e: seq<Byte>, f: seq<Byte>)
    requires |a| == 16 && |b| == |c| == |d| == |e| == 4 && |f| == 3
    ensures var s := a + b + c + d + e + f;
      s[..16] == a && s[16..20] == b && s[20..24] == c && s[24..28] == d && s[28..32] == e && s[32..] == f
  {}

  lemma {:induction false} PayloadFields(p: Payload)
    ensures var s := EncodePayload(p);
      && s[..16] == Le(p.uid, 16)
      && s[16..20] == Le(p.sample.seqNo, 4)
      && s[20..24] == Le(p.sample.kwhImport, 4)
      && s[24..28] == Le(p.sample.kwhExport, 4)
      && s[28..32] == Le(p.sample.voltage, 4)
      && s[32..] == IdBytes(p.ids)
  {
    Slices(Le(p.uid, 16), Le(p.sample.seqNo, 4), Le(p.sample.kwhImport, 4), Le(p.sample.kwhExport, 4),
           Le(p.sample.voltage, 4), IdBytes(p.ids));
  }

  lemma {:induction false} PayloadRoundTrip(p: Payload)
    ensures DecodePayload(EncodePayload(p)) == p
  {
    PayloadFields(p);
    UidRoundTrip(p.uid);
    U32RoundTrip(p.sample.seqNo);
    U32RoundTrip(p.sample.kwhImport);
    U32RoundTrip(p.sample.kwhExport);
    U32RoundTrip(p.sample.voltage);
    IdsRoundTrip(p.ids, IdBytes(p.ids));
  }

  lemma {:induction false} U32BytesRoundTrip(s: seq<Byte>)
    requires |s| == 4
    ensures Le(ReadU32(s), 4) == s
  {
    LeOfNat(s);
  }

  lemma {:induction false} UidBytesRoundTrip(s: seq<Byte>)
    requires |s| == 16
    ensures Le(ReadUid(s), 16) == s
  {
    LeOfNat(s);
  }

  lemma {:induction false} Reassemble(s: seq<Byte>)
    requires |s| == PAYLOAD_LEN
    ensures s == s[..16] + s[16..20] + s[20..24] + s[24..28] + s[28..32] + s[32..]
  {}

  /** Every 35 byte packet is the image of exactly one Payload. */
  lemma {:induction false} PayloadBytesRoundTrip(s: seq<Byte>)
    requires |s| == PAYLOAD_LEN
    ensures EncodePayload(DecodePayload(s)) == s
  {
    UidBytesRoundTrip(s[..16]);
    U32BytesRoundTrip(s[16..20]);
    U32BytesRoundTrip(s[20..24]);
    U32BytesRoundTrip(s[24..28]);
    U32BytesRoundTrip(s[28..32]);
    IdsRoundTrip(ReadIds(s[32..]), s[32..]);
    Reassemble(s);
  }

  lemma {:induction false} AckRoundTrip(a: AckPayload)
    ensures DecodeAck(EncodeAck(a)) == a
  {
    UidRoundTrip(a.uid);
    U32RoundTrip(a.seqNo);
    var s := EncodeAck(a);
    assert s[..16] == Le(a.uid, 16);
    assert s[16..20] == Le(a.seqNo, 4);
  }

  lemma {:induction false} LinkFields(f: LinkFrame)
    ensures var s := LinkFrameMake(f);
      s[..2] == MAGIC && s[2] == TypeCode(f.kind) && s[3..7] == Le(f.epoch, 4) && s[7..23] == Le(f.uid, 16)
  {}

  /** linkFrameParse() accepts exactly the byte strings linkFrameMake() produces,
      and gives back the frame each was made from. */
  lemma {:induction false} LinkFrameParseExact(buf: seq<Byte>, f: LinkFrame)
    ensures LinkFrameParse(buf) == Some(f) <==> buf == LinkFrameMake(f)
  {
    if buf == LinkFrameMake(f) {
      LinkMakeThenParse(f);
    }
    if LinkFrameParse(buf) == Some(f) {
      LinkParseThenMake(buf);
    }
  }

  lemma {:induction false} LinkMakeThenParse(f: LinkFrame)
    ensures LinkFrameParse(LinkFrameMake(f)) == Some(f)
  {
    LinkFields(f);
    TypeRoundTrip(f.kind, 1);
    U32RoundTrip(f.epoch);
    UidRoundTrip(f.uid);
  }

  lemma {:induction false} LinkParseThenMake(buf: seq<Byte>)
    requires LinkFrameParse(buf).Some?
    ensures LinkFrameMake(LinkFrameParse(buf).value) == buf
  {
    U32BytesRoundTrip(buf[3..7]);
    UidBytesRoundTrip(buf[7..23]);
    TypeRoundTrip(Beacon, buf[2]);
    assert buf == buf[..2] + [buf[2]] + buf[3..7] + buf[7..23];
  }

  // ---------------------------------------------------------------- dispatch

  /** What an ESP-NOW receiver takes a packet for: LinkFrame first, then by size. */
  datatype Frame = LinkMsg(link: LinkFrame) | DataMsg(payload: Payload) | AckMsg(ack: AckPayload) | Junk

  function Classify(buf: seq<Byte>): Frame {
    if LinkFrameParse(buf).Some? then LinkMsg(LinkFrameParse(buf).value)
    else if |buf| == PAYLOAD_LEN then DataMsg(DecodePayload(buf))
    else if |buf| == ACK_LEN then AckMsg(DecodeAck(buf))
    else Junk
  }

  function Encode(f: Frame): seq<Byte>
    requires !f.Junk?
  {
    match f
    case LinkMsg(l) => LinkFrameMake(l)
    case DataMsg(p) => EncodePayload(p)
    case AckMsg(a) => EncodeAck(a)
  }

  /** The three frame kinds are never confused with one another. */
  lemma {:induction false} ClassifyInvertsEncode(f: Frame)
    requires !f.Junk?
    ensures Classify(Encode(f)) == f
  {
    match f
    case LinkMsg(l) => LinkFrameParseExact(Encode(f), l);
    case DataMsg(p) => PayloadRoundTrip(p);
    case AckMsg(a) => AckRoundTrip(a);
  }

  // ------------------------------------------------------------------ layout

  lemma {:induction false} DivTwice(n: nat, p: nat)
    requires p > 0
    ensures n / 256 / p == n / (256 * p)
  {
    var q, r := n / 256, n % 256;
    var a, b := q / p, q % p;
    assert n == 256 * (p * a + b) + r;
    assert n == (256 * p) * a + (256 * b + r);
    assert 256 * b + r < 256 * p;
    QuotientIs(n, 256 * p, a, 256 * b + r);
  }

  lemma {:induction false} QuotientIs(n: nat, m: nat, q: nat, r: nat)
    requires m > 0 && n == m * q + r && r < m
    ensures n / m == q
  {
    MulMono(m, n / m + 1, q);
    MulMono(m, q + 1, n / m);
  }

  lemma {:induction false} MulMono(m: nat, a: nat, b: nat)
    ensures a <= b ==> m * a <= m * b
  {}

  /** Byte i of a number counts its 256^i. */
  lemma {:induction false} LeAt(n: nat, width: nat, i: nat)
    requires i < width
    ensures Le(n, width)[i] as nat == n / Pow256(i) % 256
    decreases width
  {
    if i > 0 {
      LeAt(n / 256, width - 1, i - 1);
      DivTwice(n, Pow256(i - 1));
    }
  }

  /** n stands at `at` in s: `width` bytes, the least significant first. */
  ghost predicate Stands(s: seq<Byte>, at: nat, width: nat, n: nat) {
    at + width <= |s| && forall i :: 0 <= i < width ==> s[at + i] as nat == n / Pow256(i) % 256
  }

  lemma {:induction false} LeStands(s: seq<Byte>, at: nat, width: nat, n: nat)
    requires at + width <= |s| && s[at..at + width] == Le(n, width)
    ensures Stands(s, at, width, n)
  {
    forall i | 0 <= i < width ensures s[at + i] as nat == n / Pow256(i) % 256 {
      LeAt(n, width, i);
      assert s[at..at + width][i] == s[at + i];
    }
  }

  /** A Payload's 35 bytes: where each field lies. */
  lemma {:induction false} PayloadLayout(p: Payload)
    ensures var s := EncodePayload(p);
      && |s| == 35 && Stands(s, 0, 16, p.uid)
      && Stands(s, 16, 4, p.sample.seqNo) && Stands(s, 20, 4, p.sample.kwhImport)
      && Stands(s, 24, 4, p.sample.kwhExport) && Stands(s, 28, 4, p.sample.voltage)
      && s[32] as int == p.ids.community && s[33] as int == p.ids.unit && s[34] as int == p.ids.nodeType
  {
    var s := EncodePayload(p);
    PayloadFields(p);
    LeStands(s, 0, 16, p.uid);
    LeStands(s, 16, 4, p.sample.seqNo);
    LeStands(s, 20, 4, p.sample.kwhImport);
    LeStands(s, 24, 4, p.sample.kwhExport);
    LeStands(s, 28, 4, p.sample.voltage);
    assert s[32] == s[32..][0] && s[33] == s[32..][1] && s[34] == s[32..][2];
  }

  /** An ACK's 20. */
  lemma {:induction false} AckLayout(a: AckPayload)
    ensures var s := EncodeAck(a);
      |s| == 20 && Stands(s, 0, 16, a.uid) && Stands(s, 16, 4, a.seqNo)
  {
    var s := EncodeAck(a);
    assert s[0..16] == Le(a.uid, 16) && s[16..20] == Le(a.seqNo, 4);
    LeStands(s, 0, 16, a.uid);
    LeStands(s, 16, 4, a.seqNo);
  }

  /** A LinkFrame's 23: "KZ", the kind, the epoch, the UID. */
  lemma {:induction false} LinkLayout(f: LinkFrame)
    ensures var s := LinkFrameMake(f);
      && |s| == 23 && s[0] == 0x4B && s[1] == 0x5A
      && s[2] == (match f.kind case Beacon => 1 case Join => 2 case JoinAck => 3)
      && Stands(s, 3, 4, f.epoch) && Stands(s, 7, 16, f.uid)
  {
    var s := LinkFrameMake(f);
    LinkFields(f);
    assert s[0] == s[..2][0] && s[1] == s[..2][1];
    LeStands(s, 3, 4, f.epoch);
    LeStands(s, 7, 16, f.uid);
  }
}
