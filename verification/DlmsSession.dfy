/** A DLMS session frame by frame: what the reader sends, what it makes of the replies. */
module DlmsSession {
  import opened Wire
  import opened Layout = HdlcLayout
  import Aare
  import opened DlmsData

  const LLC_LEN: nat := 3
  const APDU_MAX: nat := INFO_MAX - LLC_LEN
  const PF: Byte := 0x10
  const SNRM: Byte := 0x93
  const DISC: Byte := 0x53
  const UA: Byte := 0x73
  const DM: Byte := 0x1F
  const ATTR_VALUE: Byte := 2
  const ATTR_SCALER_UNIT: Byte := 3
  const LLC_SEND: seq<Byte> := [0xE6, 0xE6, 0x00]
  const LLC_RECV: seq<Byte> := [0xE6, 0xE7, 0x00]
  const AARQ: seq<Byte> :=
    [0x60, 0x1D,
     0xA1, 0x09, 0x06, 0x07, 0x60, 0x85, 0x74, 0x05, 0x08, 0x01, 0x01,
     0xBE, 0x10, 0x04, 0x0E,
     0x01, 0x00, 0x00, 0x00, 0x06,
     0x5F, 0x1F, 0x04, 0x00, 0x00, 0x00, 0x10,
     0x00, 0x7D]

  /** A frame between this client and its server, either way. */
  datatype Said = Said(control: Byte, info: seq<Byte>)

  /** What came back for a request: nothing usable, or a frame from server to client. */
  type Got = Option<Said>

  function GotAt(gots: seq<Got>, i: nat): Got { if i < |gots| then gots[i] else None }

  // ------------------------------------------------------------------- numbering

  /** The control byte of an I-frame with the poll bit. */
  function Control(ns: Byte, nr: Byte): Byte { (nr << 5) | PF | (ns << 1) }

  function Next(n: Byte): Byte { (n + 1) & 0x07 }

  /** exchange()'s checks on a reply's control byte. */
  predicate InSequence(control: Byte, vs: Byte, vr: Byte) {
    control & 1 == 0 && control & PF != 0 && (control >> 1) & 0x07 == vr && control >> 5 == Next(vs)
  }

  /** The reply in sequence is one particular control byte: the final I-frame numbered
      V(R) that acknowledges the frame just sent. */
  lemma {:induction false} InSequenceIff(control: Byte, vs: Byte, vr: Byte)
    requires vs < 8 && vr < 8
    ensures InSequence(control, vs, vr) <==> control == Control(vr, Next(vs))
  {}

  lemma {:induction false} NextStays(n: Byte)
    requires n < 8
    ensures Next(n) < 8
  {}

  /** An I-frame is never mistaken for an unnumbered frame. */
  lemma {:induction false} ControlIsNumbered(ns: Byte, nr: Byte)
    ensures Control(ns, nr) != SNRM && Control(ns, nr) != DISC && Control(ns, nr) != UA && Control(ns, nr) != DM
  {}

  /** The APDU exchange() takes from a reply, if it takes one. */
  function Answer(vs: Byte, vr: Byte, got: Got): Option<seq<Byte>> {
    if got.None? then None
    else if !InSequence(got.value.control, vs, vr) then None
    else if |got.value.info| < LLC_LEN || |got.value.info| > INFO_MAX || got.value.info[..LLC_LEN] != LLC_RECV then None
    else Some(got.value.info[LLC_LEN..])
  }

  /** The I-frame exchange() sends. */
  function IFrame(vs: Byte, vr: Byte, apdu: seq<Byte>): Said { Said(Control(vs, vr), LLC_SEND + apdu) }

  // ---------------------------------------------------- a peer that counts modulo 8

  /** A meter's reply to an I-frame it accepts, from its own counters. */
  function PeerReply(peerVs: Byte, peerVr: Byte, apdu: seq<Byte>): Said {
    Said(Control(peerVs, Next(peerVr)), LLC_RECV + apdu)
  }

  lemma {:induction false} LlcCut(apdu: seq<Byte>)
    ensures (LLC_RECV + apdu)[..LLC_LEN] == LLC_RECV && (LLC_RECV + apdu)[LLC_LEN..] == apdu
  {}

  /** In step with its peer, an exchange takes the peer's answer whole. */
  lemma {:induction false} AnswerOfPeer(vs: Byte, vr: Byte, apdu: seq<Byte>)
    requires vs < 8 && vr < 8 && |apdu| <= APDU_MAX
    ensures Answer(vs, vr, Some(PeerReply(vr, vs, apdu))) == Some(apdu)
  {
    NextStays(vs);
    InSequenceIff(Control(vr, Next(vs)), vs, vr);
    LlcCut(apdu);
  }

  datatype Counters = Counters(vs: Byte, vr: Byte)

  function Moved(c: Counters, answer: Option<seq<Byte>>): Counters {
    if answer.Some? then Counters(Next(c.vs), Next(c.vr)) else c
  }

  datatype Talk = Talk(answers: seq<Option<seq<Byte>>>, end: Counters)

  /** Exchanges in a row on one link: the APDUs taken, and where the counters end. A
      failed exchange moves neither counter. */
  function Converse(c: Counters, gots: seq<Got>): Talk
    decreases |gots|
  {
    if gots == [] then Talk([], c)
    else
      var a := Answer(c.vs, c.vr, gots[0]);
      var later := Converse(Moved(c, a), gots[1..]);
      Talk([a] + later.answers, later.end)
  }

  /** What a peer, counting modulo 8 from `peer`, replies when nothing is lost. */
  function PeerReplies(peer: Counters, answers: seq<seq<Byte>>): seq<Got>
    decreases |answers|
  {
    if answers == [] then []
    else [Some(PeerReply(peer.vs, peer.vr, answers[0]))]
         + PeerReplies(Counters(Next(peer.vs), Next(peer.vr)), answers[1..])
  }

  function Taken(answers: seq<seq<Byte>>): seq<Option<seq<Byte>>> {
    if answers == [] then [] else [Some(answers[0])] + Taken(answers[1..])
  }

  /** However many exchanges follow each other, both sides stay in step and every answer
      is taken. */
  lemma {:induction false} PeersStayInStep(c: Counters, answers: seq<seq<Byte>>)
    requires c.vs < 8 && c.vr < 8 && forall a :: a in answers ==> |a| <= APDU_MAX
    ensures Converse(c, PeerReplies(Counters(c.vr, c.vs), answers)).answers == Taken(answers)
    decreases |answers|
  {
    if answers != [] {
      assert answers[0] in answers;
      AnswerOfPeer(c.vs, c.vr, answers[0]);
      NextStays(c.vs);
      NextStays(c.vr);
      PeersStayInStep(Counters(Next(c.vs), Next(c.vr)), answers[1..]);
    }
  }

  /** Whatever the replies, V(S) and V(R) stay equal if they start equal. */
  lemma {:induction false} CountersStayEqual(c: Counters, gots: seq<Got>)
    requires c.vs == c.vr && c.vs < 8
    ensures Converse(c, gots).end.vs == Converse(c, gots).end.vr < 8
    decreases |gots|
  {
    if gots != [] {
      NextStays(c.vs);
      CountersStayEqual(Moved(c, Answer(c.vs, c.vr, gots[0])), gots[1..]);
    }
  }

  // --------------------------------------------------------------- a whole session

  /** buildGetRequest() */
  function GetRequest(obis: seq<Byte>, attribute: Byte): seq<Byte> {
    [0xC0, 0x01, 0xC1, 0x00, 0x03] + obis + [attribute, 0x00]
  }

  /** The requests of a register read, in order. */
  function Requests(obis: seq<Byte>): (r: seq<seq<Byte>>)
    ensures |r| == 3
  {
    [AARQ, GetRequest(obis, ATTR_SCALER_UNIT), GetRequest(obis, ATTR_VALUE)]
  }

  /** The I-frames of a session: numbered from 0, one up each time. */
  function Numbered(apdus: seq<seq<Byte>>): (frames: seq<Said>)
    requires |apdus| <= 8
    ensures |frames| == |apdus|
  {
    seq(|apdus|, i requires 0 <= i < |apdus| => IFrame(ToByte(i), ToByte(i), apdus[i]))
  }

  /** A session up to its last I-frame. */
  function Opening(apdus: seq<seq<Byte>>): (frames: seq<Said>)
    requires |apdus| <= 8
    ensures |frames| == |apdus| + 1
  {
    [Said(SNRM, [])] + Numbered(apdus)
  }

  lemma {:induction false} OpeningUpTo(apdus: seq<seq<Byte>>, k: nat)
    requires k <= |apdus| <= 8
    ensures Opening(apdus[..k]) == Opening(apdus)[..k + 1]
  {}

  /** A session that got `apdus` out: SNRM alone, or SNRM, I-frames, and one DISC. */
  function SessionFrames(connected: bool, apdus: seq<seq<Byte>>): seq<Said>
    requires |apdus| <= 8
  {
    if connected then Opening(apdus) + [Said(DISC, [])] else [Said(SNRM, [])]
  }

  /** In a session that connected, the last frame is DISC and no other frame is; the
      first is SNRM and no other is; between them the i-th is numbered i - 1. */
  lemma {:induction false} OneDisc(apdus: seq<seq<Byte>>, i: nat)
    requires |apdus| <= 8 && i < |SessionFrames(true, apdus)|
    ensures var frames := SessionFrames(true, apdus);
      && (frames[i].control == DISC <==> i == |frames| - 1)
      && (frames[i].control == SNRM <==> i == 0)
      && (0 < i < |frames| - 1 ==> frames[i] == IFrame(ToByte(i - 1), ToByte(i - 1), apdus[i - 1]))
  {
    if 1 <= i <= |apdus| {
      ControlIsNumbered(ToByte(i - 1), ToByte(i - 1));
    }
  }

  predicate Connects(got: Got) { got.Some? && got.value.control == UA }

  ghost predicate Associates(got: Got) {
    Answer(0, 0, got).Some? && Aare.Opens(Answer(0, 0, got).value)
  }

  ghost function Attribute(n: Byte, got: Got): Option<seq<Byte>> {
    var a := Answer(n, n, got);
    if a.None? then None else DataOf(a.value)
  }

  ghost function ScalerRead(unit: Byte, got: Got): Option<int> {
    var d := Attribute(1, got);
    if d.None? then None else ScalerOf(d.value, unit)
  }

  ghost function NumberRead(got: Got): Option<Number> {
    var d := Attribute(2, got);
    if d.None? then None else DecodedNumber(d.value)
  }

  /** A number as a real; what a float32 word stands for is left to `floats`. */
  function Meaning(n: Number, floats: nat -> real): real {
    if n.Whole? then n.value as real else floats(n.bits)
  }

  /** How many I-frames a register read sends, given what comes back. */
  ghost function Sent(unit: Byte, gots: seq<Got>): (k: nat)
    ensures k <= 3
  {
    if !Connects(GotAt(gots, 0)) then 0
    else if !Associates(GotAt(gots, 1)) then 1
    else if ScalerRead(unit, GotAt(gots, 2)).None? then 2
    else 3
  }

  /** The value a register read returns, if it returns one. */
  ghost function RegisterValue(unit: Byte, floats: nat -> real, gots: seq<Got>): Option<real> {
    if Sent(unit, gots) < 3 || NumberRead(GotAt(gots, 3)).None? then None
    else
      Some(Scaled(Meaning(NumberRead(GotAt(gots, 3)).value, floats), ScalerRead(unit, GotAt(gots, 2)).value))
  }

  /** Everything a register read sends. */
  ghost function ReadFrames(obis: seq<Byte>, unit: Byte, gots: seq<Got>): seq<Said> {
    SessionFrames(Connects(GotAt(gots, 0)), Requests(obis)[..Sent(unit, gots)])
  }

  lemma {:induction false} SessionOfRead(obis: seq<Byte>, unit: Byte, gots: seq<Got>)
    ensures ReadFrames(obis, unit, gots) ==
      if Connects(GotAt(gots, 0)) then Opening(Requests(obis))[..Sent(unit, gots) + 1] + [Said(DISC, [])]
      else Opening(Requests(obis))[..1]
  {
    OpeningUpTo(Requests(obis), Sent(unit, gots));
  }

  lemma {:induction false} FirstNumbers()
    ensures ToByte(0) == 0 && ToByte(1) == 1 && ToByte(2) == 2
  {
    ToByteOfNat(0);
    ToByteOfNat(1);
    ToByteOfNat(2);
  }

  /** A register read, frame by frame. */
  lemma {:induction false} OpeningGrows(obis: seq<Byte>)
    ensures var frames := Opening(Requests(obis));
      && frames[..1] == [Said(SNRM, [])]
      && frames[..2] == frames[..1] + [IFrame(0, 0, AARQ)]
      && frames[..3] == frames[..2] + [IFrame(1, 1, GetRequest(obis, ATTR_SCALER_UNIT))]
      && frames[..4] == frames[..3] + [IFrame(2, 2, GetRequest(obis, ATTR_VALUE))]
    ensures Opening([AARQ]) == Opening(Requests(obis))[..2]
  {
    FirstNumbers();
  }

  lemma {:induction false} DataOfResponse(d: seq<Byte>)
    requires d != []
    ensures DataOf(GetResponse(d)) == Some(d)
  {
    GetResponseUnique(d, DataOf(GetResponse(d)).value);
  }

  lemma {:induction false} ScalerOfEncoded(scaler: int, unit: Byte)
    requires -0x80 <= scaler < 0x80
    ensures ScalerOf(EncodeScalerUnit(scaler, unit), unit) == Some(scaler)
  {
    ScalerUnique(scaler, ScalerOf(EncodeScalerUnit(scaler, unit), unit).value, unit);
  }

  lemma {:induction false} WrongUnit(scaler: int, unit: Byte, other: Byte)
    requires -0x80 <= scaler < 0x80 && unit != other
    ensures ScalerOf(EncodeScalerUnit(scaler, other), unit) == None
  {}
}

/** The session's frames as bytes on the bus. */
module DlmsWire {
  import opened Wire
  import Aare
  import opened DlmsData
  import opened Layout = HdlcLayout
  import opened Hdlc
  import opened FrameHunt
  import opened Buses
  import opened DlmsSession

  /** The two ends of a link, by their encoded addresses. */
  datatype Link = Link(client: seq<Byte>, server: seq<Byte>)
  {
    predicate Proper() { ValidAddress(client) && ValidAddress(server) }
  }

  predicate Sayable(s: Said) { |s.info| <= INFO_MAX }

  function RequestOf(link: Link, s: Said): HdlcFrame { HdlcFrame(link.server, link.client, s.control, s.info) }

  function ReplyOf(link: Link, s: Said): HdlcFrame { HdlcFrame(link.client, link.server, s.control, s.info) }

  lemma {:induction false} FramesFit(link: Link, s: Said)
    requires link.Proper() && Sayable(s)
    ensures WellFormed(RequestOf(link, s)) && Length(RequestOf(link, s)) + 2 <= FRAME_MAX
    ensures WellFormed(ReplyOf(link, s)) && Length(ReplyOf(link, s)) + 2 <= FRAME_MAX
  {}

  function RequestBytes(link: Link, s: Said): seq<Byte>
    requires link.Proper() && Sayable(s)
  {
    FramesFit(link, s);
    Hdlc.Encode(RequestOf(link, s))
  }

  function ReplyBytes(link: Link, s: Said): seq<Byte>
    requires link.Proper() && Sayable(s)
  {
    FramesFit(link, s);
    Hdlc.Encode(ReplyOf(link, s))
  }

  /** receive(): the first frame hunted down, if it parses and runs from server to client. */
  ghost function Received(link: Link, stream: seq<Byte>): Got {
    var hunted := Hunt(stream);
    if hunted.Incomplete? then None
    else
      var f := Parse(hunted.frame);
      if f.Some? && f.value.dest == link.client && f.value.src == link.server
      then Some(Said(f.value.control, f.value.info)) else None
  }

  ghost function ReceivedIn(link: Link, turn: Turn): Got {
    if turn.None? then None else Received(link, turn.value)
  }

  predicate AllSayable(frames: seq<Said>) { forall x :: x in frames ==> Sayable(x) }

  /** Every frame said, as sent. */
  function Sendings(link: Link, said: seq<Said>): (s: seq<seq<Byte>>)
    requires link.Proper() && AllSayable(said)
    ensures |s| == |said|
  {
    seq(|said|, i requires 0 <= i < |said| => RequestBytes(link, said[i]))
  }

  /** The bus carried `before`, then these frames. */
  ghost predicate OnBus(link: Link, before: seq<seq<Byte>>, frames: seq<Said>, now: seq<seq<Byte>>)
    requires link.Proper()
  {
    AllSayable(frames) && now == before + Sendings(link, frames)
  }

  lemma {:induction false} OnBusMore(link: Link, before: seq<seq<Byte>>, frames: seq<Said>, x: Said,
          now: seq<seq<Byte>>)
    requires link.Proper() && OnBus(link, before, frames, now) && Sayable(x)
    ensures OnBus(link, before, frames + [x], now + [RequestBytes(link, x)])
  {
    assert Sendings(link, frames + [x]) == Sendings(link, frames) + [RequestBytes(link, x)];
  }

  /** What is heard for the last of some frames sent behind `before`. */
  ghost function HeardAfter(link: Link, answers: seq<seq<Byte>> -> Turn, before: seq<seq<Byte>>, frames: seq<Said>): Got
    requires link.Proper() && AllSayable(frames)
  {
    ReceivedIn(link, answers(before + Sendings(link, frames)))
  }

  /** What is heard for each of them. */
  ghost function HeardDuring(link: Link, answers: seq<seq<Byte>> -> Turn, before: seq<seq<Byte>>, frames: seq<Said>):
      (gots: seq<Got>)
    requires link.Proper() && AllSayable(frames)
    ensures |gots| == |frames|
  {
    seq(|frames|, i requires 0 <= i < |frames| => HeardAfter(link, answers, before, frames[..i + 1]))
  }

  lemma {:induction false} OpeningSayable(apdus: seq<seq<Byte>>)
    requires |apdus| <= 8 && forall a :: a in apdus ==> |a| <= APDU_MAX
    ensures AllSayable(Opening(apdus))
  {
    forall x | x in Opening(apdus) ensures Sayable(x) {
      var i :| 0 <= i <= |apdus| && x == Opening(apdus)[i];
      if i > 0 {
        assert x == IFrame(ToByte(i - 1), ToByte(i - 1), apdus[i - 1]) && apdus[i - 1] in apdus;
      }
    }
  }

  lemma {:induction false} RequestsSayable(obis: seq<Byte>)
    requires |obis| == 6
    ensures AllSayable(Opening(Requests(obis)))
  {
    OpeningSayable(Requests(obis));
  }

  /** What would be heard for each frame of a register read that goes all the way. */
  ghost function ReadGots(link: Link, answers: seq<seq<Byte>> -> Turn, before: seq<seq<Byte>>, obis: seq<Byte>):
      (gots: seq<Got>)
    requires link.Proper() && |obis| == 6
    ensures |gots| == 4
  {
    RequestsSayable(obis);
    HeardDuring(link, answers, before, Opening(Requests(obis)))
  }

  /** And for each frame of a probe that does. */
  ghost function ProbeGots(link: Link, answers: seq<seq<Byte>> -> Turn, before: seq<seq<Byte>>): (gots: seq<Got>)
    requires link.Proper()
    ensures |gots| == 2
  {
    OpeningSayable([AARQ]);
    HeardDuring(link, answers, before, Opening([AARQ]))
  }

  /** A probe hears what the read of any register hears first. */
  lemma {:induction false} ProbeHearsTheSame(link: Link, answers: seq<seq<Byte>> -> Turn, before: seq<seq<Byte>>,
          obis: seq<Byte>)
    requires link.Proper() && |obis| == 6
    ensures ProbeGots(link, answers, before) == ReadGots(link, answers, before, obis)[..2]
  {
    assert Requests(obis)[..1] == [AARQ];
    OpeningUpTo(Requests(obis), 1);
    RequestsSayable(obis);
    assert Opening([AARQ])[..1] == Opening(Requests(obis))[..1];
    assert Opening([AARQ])[..2] == Opening(Requests(obis))[..2];
  }

  /** Different frames are different bytes. */
  lemma {:induction false} RequestUnique(link: Link, s: Said, t: Said)
    requires link.Proper() && Sayable(s) && Sayable(t) && RequestBytes(link, s) == RequestBytes(link, t)
    ensures s == t
  {
    FramesFit(link, s);
    FramesFit(link, t);
    FrameInjective(FcsBytes, RequestOf(link, s), RequestOf(link, t));
  }

  /** A meter's frame gets through any quiet noise before it. */
  lemma {:induction false} ReplyReceived(link: Link, s: Said, noise: seq<Byte>, rest: seq<Byte>)
    requires link.Proper() && Sayable(s) && Quiet(noise)
    ensures Received(link, noise + ReplyBytes(link, s) + rest) == Some(s)
  {
    FramesFit(link, s);
    EncodedIsFramed(FcsBytes, ReplyOf(link, s));
    NoiseThenFrame(noise, ReplyBytes(link, s), rest);
    ParseOfFrame(ReplyOf(link, s));
  }
}
