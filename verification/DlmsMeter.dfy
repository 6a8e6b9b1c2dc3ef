/** A DLMS meter with a state of its own: link, association, counters and registers whose
    values change with every read. */
module DlmsMeters {
  import opened Wire
  import opened Guard
  import opened Folds
  import opened Layout = HdlcLayout
  import opened Hdlc
  import opened FrameHunt
  import Aare
  import opened DlmsData
  import opened Buses
  import opened DlmsSession
  import opened DlmsWire

  /** A get response that refuses: object undefined. */
  const NO_OBJECT: seq<Byte> := [0xC4, 0x01, 0xC1, 0x01, 0x04]

  /** A register as it is sent: its scaler_unit, and its values read after read, however
      many a run needs; after the last it has no data. None of it need make sense. */
  datatype Register = Register(scalerUnit: seq<Byte>, values: seq<seq<Byte>>)
  {
    ghost predicate Valid() {
      && |GetResponse(scalerUnit)| <= APDU_MAX
      && forall v :: v in values ==> |GetResponse(v)| <= APDU_MAX
    }

    function Value(k: nat): seq<Byte> { if k < |values| then values[k] else [] }
  }

  /** What never changes in a meter; `agreed` is the body of its UA, `aare` how it answers
      an association request, which may be a refusal. */
  datatype Plate = Plate(registers: map<seq<Byte>, Register>, aare: seq<Byte>, agreed: seq<Byte>)
  {
    ghost predicate Valid() {
      && |aare| <= APDU_MAX && |agreed| <= INFO_MAX
      && forall obis :: obis in registers ==> |obis| == 6 && registers[obis].Valid()
    }
  }

  /** The registers whose value it was asked for, in order. */
  type Tally = seq<seq<Byte>>

  /** How often that was a given register. */
  function Times(tally: Tally, obis: seq<Byte>): nat {
    if tally == [] then 0
    else Times(tally[..|tally| - 1], obis) + if tally[|tally| - 1] == obis then 1 else 0
  }

  /** Its link, its association, the next number of both counters, and its tally. */
  datatype Meter = Meter(up: bool, open: bool, n: Byte, tally: Tally)

  /** The requests it knows. */
  datatype Request = Aarq | Get(obis: seq<Byte>, attribute: Byte) | Other

  function Asked(apdu: seq<Byte>): Request {
    if apdu == AARQ then Aarq
    else if |apdu| == 13 && apdu == GetRequest(apdu[5..11], apdu[11]) then Get(apdu[5..11], apdu[11])
    else Other
  }

  lemma {:induction false} GetAsked(obis: seq<Byte>, attribute: Byte)
    requires |obis| == 6
    ensures Asked(GetRequest(obis, attribute)) == Get(obis, attribute)
  {
    var apdu := GetRequest(obis, attribute);
    assert apdu[0] == 0xC0 && AARQ[0] == 0x60;
    assert apdu[5..11] == obis && apdu[11] == attribute;
  }

  /** What it answers to a request. */
  ghost function Serve(p: Plate, m: Meter, request: Request): (Meter, seq<Byte>) {
    if request == Aarq then (m.(open := Aare.Opens(p.aare)), p.aare)
    else if !m.open || request == Other || request.obis !in p.registers then (m, NO_OBJECT)
    else
      var r := p.registers[request.obis];
      if request.attribute == ATTR_SCALER_UNIT then (m, GetResponse(r.scalerUnit))
      else if request.attribute == ATTR_VALUE then
        var k := Times(m.tally, request.obis);
        (m.(tally := m.tally + [request.obis]), GetResponse(r.Value(k)))
      else (m, NO_OBJECT)
  }

  /** And to a frame: SNRM and DISC set the link up and down, an I-frame in sequence is
      served, one out of sequence ignored, anything else on a link that is down refused. */
  ghost function Reply(p: Plate, m: Meter, s: Said): (Meter, Got) {
    if s.control == SNRM then (m.(up := true, open := false, n := 0), Some(Said(UA, p.agreed)))
    else if s.control == DISC then (m.(up := false), Some(if m.up then Said(UA, p.agreed) else Said(DM, [])))
    else if !m.up then (m, Some(Said(DM, [])))
    else if s.control != Control(m.n, m.n) || |s.info| < LLC_LEN || s.info[..LLC_LEN] != LLC_SEND then (m, None)
    else
      var served := Serve(p, m, Asked(s.info[LLC_LEN..]));
      (served.0.(n := Next(m.n)), Some(PeerReply(m.n, m.n, served.1)))
  }

  ghost function Step(p: Plate): (Meter, Said) -> Meter { (m, s) => Reply(p, m, s).0 }

  /** A meter after a run of frames. */
  ghost function Run(p: Plate, m: Meter, frames: seq<Said>): Meter { Fold(Step(p), m, frames) }

  lemma {:induction false} RunMore(p: Plate, m: Meter, frames: seq<Said>, i: nat)
    requires i < |frames|
    ensures Run(p, m, frames[..i + 1]) == Reply(p, Run(p, m, frames[..i]), frames[i]).0
  {
    assert frames[..i + 1][..i] == frames[..i];
  }

  // --------------------------------------------------------- one session, said by said

  lemma {:induction false} IFrameServed(p: Plate, m: Meter, apdu: seq<Byte>)
    requires p.Valid() && m.up
    ensures var served := Serve(p, m, Asked(apdu));
      Reply(p, m, IFrame(m.n, m.n, apdu)) == (served.0.(n := Next(m.n)), Some(PeerReply(m.n, m.n, served.1)))
  {
    ControlIsNumbered(m.n, m.n);
    assert (LLC_SEND + apdu)[..LLC_LEN] == LLC_SEND && (LLC_SEND + apdu)[LLC_LEN..] == apdu;
  }

  lemma {:induction false} RefusalHasNoData(unit: Byte)
    ensures ScalerRead(unit, Some(PeerReply(1, 1, NO_OBJECT))) == None
  {
    AnswerOfPeer(1, 1, NO_OBJECT);
    if DataOf(NO_OBJECT).Some? {
      assert GetResponse(DataOf(NO_OBJECT).value)[3] == 0x00;
    }
  }

  lemma {:induction false} ScalerComesBack(d: seq<Byte>, unit: Byte)
    requires |GetResponse(d)| <= APDU_MAX
    ensures ScalerRead(unit, Some(PeerReply(1, 1, GetResponse(d)))) == ScalerOf(d, unit)
  {
    AnswerOfPeer(1, 1, GetResponse(d));
    DataComesBack(d);
  }

  lemma {:induction false} NumberComesBack(d: seq<Byte>)
    requires |GetResponse(d)| <= APDU_MAX
    ensures NumberRead(Some(PeerReply(2, 2, GetResponse(d)))) == DecodedNumber(d)
  {
    AnswerOfPeer(2, 2, GetResponse(d));
    DataComesBack(d);
  }

  lemma {:induction false} DataComesBack(d: seq<Byte>)
    ensures DataOf(GetResponse(d)) == if d == [] then None else Some(d)
  {
    if d == [] {
      if DataOf(GetResponse(d)).Some? {
        GetResponseUnique(d, DataOf(GetResponse(d)).value);
      }
    } else {
      DataOfResponse(d);
    }
  }

  /** What a read makes of the answer to its scaler_unit request. */
  ghost function ScalerOffered(p: Plate, obis: seq<Byte>, unit: Byte): Option<int> {
    if obis in p.registers then ScalerOf(p.registers[obis].scalerUnit, unit) else None
  }

  /** Two replies as a read takes them; stated only where they are mentioned. */
  ghost predicate OffersScaler(unit: Byte, got: Got, scaler: Option<int>) {
    forall t {:trigger Mention(t)} :: Mention(t) ==> ScalerRead(unit, got) == scaler
  }

  ghost predicate OffersNumber(got: Got, d: seq<Byte>) {
    forall t {:trigger Mention(t)} :: Mention(t) ==> NumberRead(got) == DecodedNumber(d)
  }

  lemma {:induction false} ScalerServed(p: Plate, m: Meter, obis: seq<Byte>, unit: Byte)
    requires p.Valid() && |obis| == 6 && m.open
    ensures var served := Serve(p, m, Get(obis, ATTR_SCALER_UNIT));
      served.0 == m && OffersScaler(unit, Some(PeerReply(1, 1, served.1)), ScalerOffered(p, obis, unit))
  {
    if obis in p.registers {
      ScalerComesBack(p.registers[obis].scalerUnit, unit);
    } else {
      RefusalHasNoData(unit);
    }
  }

  lemma {:induction false} NumberServed(p: Plate, m: Meter, obis: seq<Byte>)
    requires p.Valid() && |obis| == 6 && m.open && obis in p.registers
    ensures var served, k := Serve(p, m, Get(obis, ATTR_VALUE)), Times(m.tally, obis);
      && served.0 == m.(tally := m.tally + [obis])
      && OffersNumber(Some(PeerReply(2, 2, served.1)), p.registers[obis].Value(k))
  {
    NumberComesBack(p.registers[obis].Value(Times(m.tally, obis)));
  }

  /** Whether a read of that register in that unit gets as far as its value. */
  ghost predicate Readable(p: Plate, obis: seq<Byte>, unit: Byte) {
    Aare.Opens(p.aare) && ScalerOffered(p, obis, unit).Some?
  }

  /** The number the register's next read is answered with. */
  ghost function NextNumber(p: Plate, tally: Tally, obis: seq<Byte>): Option<Number>
    requires obis in p.registers
  {
    DecodedNumber(p.registers[obis].Value(Times(tally, obis)))
  }

  /** The value of its next read, if there is one. */
  ghost function NextReading(p: Plate, tally: Tally, obis: seq<Byte>, unit: Byte, floats: nat -> real): Option<real> {
    if !Readable(p, obis, unit) || NextNumber(p, tally, obis).None? then None
    else Some(Scaled(Meaning(NextNumber(p, tally, obis).value, floats), ScalerOffered(p, obis, unit).value))
  }

  /** A register that holds a number, sent as any of the meter's types, with a scaler and
      a unit: the reader gets that number times ten to the scaler, if it asks in the unit. */
  lemma {:induction false} GoodRegister(p: Plate, tally: Tally, obis: seq<Byte>, tag: Byte, n: Number, scaler: int,
                                        measured: Byte, unit: Byte, floats: nat -> real)
    requires obis in p.registers && Encodable(tag, n) && -0x80 <= scaler < 0x80
    requires p.registers[obis].scalerUnit == EncodeScalerUnit(scaler, measured)
    requires p.registers[obis].Value(Times(tally, obis)) == EncodeNumber(tag, n)
    ensures NextReading(p, tally, obis, unit, floats) ==
      if Aare.Opens(p.aare) && unit == measured then Some(Scaled(Meaning(n, floats), scaler)) else None
  {
    if unit == measured { ScalerOfEncoded(scaler, unit); } else { WrongUnit(scaler, unit, measured); }
    DecodesIff(EncodeNumber(tag, n), n);
  }

  ghost function TallyAfter(p: Plate, tally: Tally, obis: seq<Byte>, unit: Byte): Tally {
    if Readable(p, obis, unit) then tally + [obis] else tally
  }

  /** Every reply the meter sends to a run of frames is heard; stated only where it is
      mentioned. */
  ghost predicate HearsMeter(p: Plate, m: Meter, frames: seq<Said>, gots: seq<Got>) {
    && |gots| == |frames|
    && forall t {:trigger Mention(t)} :: Mention(t) ==>
        forall i :: 0 <= i < |frames| ==> HearsReply(p, m, frames, gots[i], i)
  }

  /** A reply that is sent is heard. */
  ghost predicate HearsReply(p: Plate, m: Meter, frames: seq<Said>, got: Got, i: nat)
    requires i < |frames|
  {
    var reply := Reply(p, Run(p, m, frames[..i]), frames[i]).1;
    reply.Some? ==> got == reply
  }

  /** A run of frames takes the meter there; stated only where it is mentioned. */
  ghost predicate Reaches(p: Plate, m: Meter, frames: seq<Said>, there: Meter) {
    forall t {:trigger Mention(t)} :: Mention(t) ==> Run(p, m, frames) == there
  }

  /** The frames of a register read up to its last GET, one by one. */
  predicate ReadOf(frames: seq<Said>, obis: seq<Byte>) {
    && |frames| == 4
    && frames[0] == Said(SNRM, []) && frames[1] == IFrame(0, 0, AARQ)
    && frames[2] == IFrame(1, 1, GetRequest(obis, ATTR_SCALER_UNIT))
    && frames[3] == IFrame(2, 2, GetRequest(obis, ATTR_VALUE))
  }

  lemma {:induction false} OpeningReads(obis: seq<Byte>)
    ensures ReadOf(Opening(Requests(obis)), obis)
  {
    OpeningGrows(obis);
    var frames := Opening(Requests(obis));
    assert frames[0] == frames[..1][0] && frames[1] == frames[..2][1];
    assert frames[2] == frames[..3][2] && frames[3] == frames[..4][3];
  }

  /** The meter's states and replies along a register read, until it is asked for data. */
  lemma {:induction false} SessionStates(p: Plate, m: Meter, obis: seq<Byte>, frames: seq<Said>, gots: seq<Got>)
    requires p.Valid() && |obis| == 6 && ReadOf(frames, obis) && HearsMeter(p, m, frames, gots)
    ensures gots[0] == Some(Said(UA, p.agreed)) && gots[1] == Some(PeerReply(0, 0, p.aare))
    ensures Reaches(p, m, frames[..2], Meter(true, Aare.Opens(p.aare), 1, m.tally))
  {
    assert Mention(0);
    RunMore(p, m, frames, 0);
    assert frames[..0] == [];
    assert HearsReply(p, m, frames, gots[0], 0);
    RunMore(p, m, frames, 1);
    IFrameServed(p, Meter(true, false, 0, m.tally), AARQ);
    assert HearsReply(p, m, frames, gots[1], 1);
  }

  /** One GET of a run, served and heard. */
  lemma {:induction false} Advance(p: Plate, m: Meter, frames: seq<Said>, gots: seq<Got>, i: nat, at: Meter,
                                   obis: seq<Byte>, attribute: Byte)
    requires p.Valid() && HearsMeter(p, m, frames, gots) && i < |frames| && at.up && |obis| == 6
    requires Reaches(p, m, frames[..i], at) && frames[i] == IFrame(at.n, at.n, GetRequest(obis, attribute))
    ensures var served := Serve(p, at, Get(obis, attribute));
      && Reaches(p, m, frames[..i + 1], served.0.(n := Next(at.n)))
      && gots[i] == Some(PeerReply(at.n, at.n, served.1))
  {
    assert Mention(0);
    RunMore(p, m, frames, i);
    GetAsked(obis, attribute);
    IFrameServed(p, at, GetRequest(obis, attribute));
    assert HearsReply(p, m, frames, gots[i], i);
  }

  lemma {:induction false} ScalerAsked(p: Plate, m: Meter, obis: seq<Byte>, unit: Byte, frames: seq<Said>,
                                       gots: seq<Got>, at: Meter)
    requires p.Valid() && |obis| == 6 && ReadOf(frames, obis) && HearsMeter(p, m, frames, gots)
    requires Reaches(p, m, frames[..2], at) && at.up && at.open && at.n == 1
    ensures Reaches(p, m, frames[..3], at.(n := 2))
    ensures OffersScaler(unit, gots[2], ScalerOffered(p, obis, unit))
  {
    Advance(p, m, frames, gots, 2, at, obis, ATTR_SCALER_UNIT);
    ScalerServed(p, at, obis, unit);
  }

  lemma {:induction false} ValueAsked(p: Plate, m: Meter, obis: seq<Byte>, frames: seq<Said>, gots: seq<Got>, at: Meter)
    requires p.Valid() && |obis| == 6 && ReadOf(frames, obis) && HearsMeter(p, m, frames, gots)
    requires Reaches(p, m, frames[..3], at) && at.up && at.open && at.n == 2
    requires obis in p.registers
    ensures Reaches(p, m, frames[..4], at.(n := 3, tally := at.tally + [obis]))
    ensures OffersNumber(gots[3], p.registers[obis].Value(Times(at.tally, obis)))
  {
    Advance(p, m, frames, gots, 3, at, obis, ATTR_VALUE);
    NumberServed(p, at, obis);
  }

  lemma {:induction false} MeterAssociates(p: Plate)
    requires p.Valid()
    ensures Associates(Some(PeerReply(0, 0, p.aare))) <==> Aare.Opens(p.aare)
  {
    AnswerOfPeer(0, 0, p.aare);
  }

  /** How far a read gets, and with what, from how its replies are taken. */
  lemma {:induction false} HowFar(unit: Byte, floats: nat -> real, gots: seq<Got>, scaler: Option<int>, d: seq<Byte>)
    requires |gots| == 4 && Connects(gots[0])
    requires Associates(gots[1]) ==> OffersScaler(unit, gots[2], scaler)
    requires Associates(gots[1]) && scaler.Some? ==> OffersNumber(gots[3], d)
    ensures Sent(unit, gots) == if !Associates(gots[1]) then 1 else if scaler.None? then 2 else 3
    ensures RegisterValue(unit, floats, gots) ==
      if Associates(gots[1]) && scaler.Some? && DecodedNumber(d).Some?
      then Some(Scaled(Meaning(DecodedNumber(d).value, floats), scaler.value)) else None
  {
    assert Mention(0);
  }

  /** What a read on an open association gets. */
  lemma {:induction false} OpenValue(p: Plate, tally: Tally, obis: seq<Byte>, unit: Byte, floats: nat -> real,
          gots: seq<Got>)
    requires Aare.Opens(p.aare) && |gots| == 4 && Connects(gots[0]) && Associates(gots[1])
    requires OffersScaler(unit, gots[2], ScalerOffered(p, obis, unit))
    requires obis in p.registers ==> OffersNumber(gots[3], p.registers[obis].Value(Times(tally, obis)))
    ensures RegisterValue(unit, floats, gots) == NextReading(p, tally, obis, unit, floats)
    ensures Sent(unit, gots) == if ScalerOffered(p, obis, unit).None? then 2 else 3
  {
    var scaler := ScalerOffered(p, obis, unit);
    HowFar(unit, floats, gots, scaler, if scaler.None? then [] else p.registers[obis].Value(Times(tally, obis)));
  }

  /** How far the registers have been read after a run of frames. */
  ghost predicate LeavesAt(p: Plate, m: Meter, frames: seq<Said>, tally: Tally) {
    exists there: Meter :: there.tally == tally && Reaches(p, m, frames, there)
  }

  /** All of it, given the state the association was opened in. */
  lemma {:induction false} OpenRead(p: Plate, m: Meter, obis: seq<Byte>, unit: Byte, floats: nat -> real,
                                    frames: seq<Said>, gots: seq<Got>, at: Meter)
    requires p.Valid() && |obis| == 6 && ReadOf(frames, obis) && HearsMeter(p, m, frames, gots)
    requires Reaches(p, m, frames[..2], at) && at.up && at.open && at.n == 1
    requires Aare.Opens(p.aare) && Connects(gots[0]) && Associates(gots[1])
    ensures RegisterValue(unit, floats, gots) == NextReading(p, at.tally, obis, unit, floats)
    ensures Sent(unit, gots) == if ScalerOffered(p, obis, unit).None? then 2 else 3
    ensures LeavesAt(p, m, frames[..3], at.tally)
    ensures obis in p.registers ==> LeavesAt(p, m, frames[..4], at.tally + [obis])
  {
    ScalerAsked(p, m, obis, unit, frames, gots, at);
    if obis in p.registers {
      ValueAsked(p, m, obis, frames, gots, at.(n := 2));
    }
    OpenValue(p, at.tally, obis, unit, floats, gots);
  }

  /** From any state of the meter, a register read gets the next value of the register,
      exactly if the meter opens the association, has the register in the unit asked for
      and the value is a number; and it leaves the register one value further, exactly if
      it got to ask for it. */
  lemma {:induction false} ReadsTheRegister(p: Plate, m: Meter, obis: seq<Byte>, unit: Byte, floats: nat -> real,
                                            frames: seq<Said>, gots: seq<Got>)
    requires p.Valid() && |obis| == 6 && ReadOf(frames, obis) && HearsMeter(p, m, frames, gots)
    ensures Connects(gots[0]) && (Associates(gots[1]) <==> Aare.Opens(p.aare))
    ensures RegisterValue(unit, floats, gots) == NextReading(p, m.tally, obis, unit, floats)
    ensures LeavesAt(p, m, frames[..Sent(unit, gots) + 1], TallyAfter(p, m.tally, obis, unit))
  {
    SessionStates(p, m, obis, frames, gots);
    MeterAssociates(p);
    var at := Meter(true, Aare.Opens(p.aare), 1, m.tally);
    if Aare.Opens(p.aare) {
      OpenRead(p, m, obis, unit, floats, frames, gots, at);
    } else {
      HowFar(unit, floats, gots, None, []);
    }
    assert Mention(0);
  }
}

/** The reader and such a meter on one bus, session after session. */
module DlmsPolls {
  import opened Wire
  import opened Guard
  import opened Folds
  import opened Layout = HdlcLayout
  import opened Hdlc
  import opened FrameHunt
  import Aare
  import opened DlmsData
  import opened Buses
  import opened DlmsSession
  import opened DlmsWire
  import opened DlmsMeters
  import opened Dlms

  // ----------------------------------------------------------- the meter on the bus

  /** What the meter makes of bytes: silent unless they are a frame from this client. */
  ghost function OnWire(link: Link, p: Plate, m: Meter, bytes: seq<Byte>): (Meter, Got) {
    var f := Parse(bytes);
    if f.Some? && f.value.dest == link.server && f.value.src == link.client
    then Reply(p, m, Said(f.value.control, f.value.info)) else (m, None)
  }

  ghost function WireStep(link: Link, p: Plate): (Meter, seq<Byte>) -> Meter {
    (m, bytes) => OnWire(link, p, m, bytes).0
  }

  /** The meter after everything sent on the bus. */
  ghost function MeterAfter(link: Link, p: Plate, m: Meter, sent: seq<seq<Byte>>): Meter {
    Fold(WireStep(link, p), m, sent)
  }

  /** Its reply to the last of it. */
  ghost function LastReply(link: Link, p: Plate, m: Meter, sent: seq<seq<Byte>>): Got
    requires sent != []
  {
    OnWire(link, p, MeterAfter(link, p, m, sent[..|sent| - 1]), sent[|sent| - 1]).1
  }

  predicate Around(stream: seq<Byte>, noise: seq<Byte>, frame: seq<Byte>, rest: seq<Byte>) {
    Quiet(noise) && stream == noise + frame + rest
  }

  /** A reply, if there is one, arrives whole, with quiet noise before it and anything
      behind it. */
  ghost predicate Conveys(link: Link, turn: Turn, reply: Got)
    requires link.Proper()
  {
    reply.Some? && Sayable(reply.value) ==>
      turn.Some? && exists noise, rest :: Around(turn.value, noise, ReplyBytes(link, reply.value), rest)
  }

  /** The far end of the bus is this meter; stated only where it is mentioned. */
  ghost predicate Linked(link: Link, p: Plate, m: Meter, answers: seq<seq<Byte>> -> Turn) {
    && link.Proper() && p.Valid()
    && forall t {:trigger Mention(t)} :: Mention(t) ==>
        forall sent :: sent != [] ==> Conveys(link, answers(sent), LastReply(link, p, m, sent))
  }

  lemma {:induction false} ConveysIsHeard(link: Link, turn: Turn, reply: Got)
    requires link.Proper() && Conveys(link, turn, reply) && reply.Some? && Sayable(reply.value)
    ensures ReceivedIn(link, turn) == reply
  {
    var noise, rest :| Around(turn.value, noise, ReplyBytes(link, reply.value), rest);
    ReplyReceived(link, reply.value, noise, rest);
  }

  lemma {:induction false} FrameOnWire(link: Link, p: Plate, m: Meter, s: Said)
    requires link.Proper() && Sayable(s)
    ensures OnWire(link, p, m, RequestBytes(link, s)) == Reply(p, m, s)
  {
    FramesFit(link, s);
    ParseOfFrame(RequestOf(link, s));
  }

  /** Frames on the bus take the meter where they would take it said by said. */
  lemma {:induction false} RunOnWire(link: Link, p: Plate, m: Meter, before: seq<seq<Byte>>, frames: seq<Said>)
    requires link.Proper() && AllSayable(frames)
    ensures MeterAfter(link, p, m, before + Sendings(link, frames)) == Run(p, MeterAfter(link, p, m, before), frames)
  {
    var sendings := Sendings(link, frames);
    forall now, i | 0 <= i < |frames| ensures WireStep(link, p)(now, sendings[i]) == Step(p)(now, frames[i]) {
      assert frames[i] in frames;
      FrameOnWire(link, p, now, frames[i]);
    }
    FoldAppend(WireStep(link, p), m, before, sendings);
    FoldEncoded(Step(p), WireStep(link, p), MeterAfter(link, p, m, before), frames, sendings);
  }

  lemma {:induction false} RepliesSayable(p: Plate, m: Meter, s: Said)
    requires p.Valid()
    ensures Reply(p, m, s).1.Some? ==> Sayable(Reply(p, m, s).1.value)
  {}

  lemma {:induction false} ReplyToLast(link: Link, p: Plate, m: Meter, sent: seq<seq<Byte>>, s: Said)
    requires link.Proper() && Sayable(s)
    ensures LastReply(link, p, m, sent + [RequestBytes(link, s)]) == Reply(p, MeterAfter(link, p, m, sent), s).1
  {
    var more := sent + [RequestBytes(link, s)];
    assert more[..|more| - 1] == sent && more[|more| - 1] == RequestBytes(link, s);
    FrameOnWire(link, p, MeterAfter(link, p, m, sent), s);
  }

  lemma {:induction false} SendingsMore(link: Link, before: seq<seq<Byte>>, frames: seq<Said>, i: nat)
    requires link.Proper() && AllSayable(frames) && i < |frames|
    ensures AllSayable(frames[..i]) && AllSayable(frames[..i + 1]) && Sayable(frames[i])
    ensures before + Sendings(link, frames[..i + 1]) ==
      before + Sendings(link, frames[..i]) + [RequestBytes(link, frames[i])]
  {
    assert frames[i] in frames;
  }

  lemma {:induction false} LastReplyIs(link: Link, p: Plate, m: Meter, before: seq<seq<Byte>>, frames: seq<Said>,
          i: nat)
    requires link.Proper() && AllSayable(frames) && i < |frames| && AllSayable(frames[..i + 1])
    ensures LastReply(link, p, m, before + Sendings(link, frames[..i + 1])) ==
      Reply(p, Run(p, MeterAfter(link, p, m, before), frames[..i]), frames[i]).1
  {
    SendingsMore(link, before, frames, i);
    RunOnWire(link, p, m, before, frames[..i]);
    ReplyToLast(link, p, m, before + Sendings(link, frames[..i]), frames[i]);
  }

  /** On a bus linked to a meter, every reply the meter sends is heard. */
  lemma {:induction false} MeterIsHeard(link: Link, p: Plate, m: Meter, answers: seq<seq<Byte>> -> Turn,
                                        before: seq<seq<Byte>>, frames: seq<Said>)
    requires Linked(link, p, m, answers) && AllSayable(frames)
    ensures HearsMeter(p, MeterAfter(link, p, m, before), frames, HeardDuring(link, answers, before, frames))
  {
    assert Mention(0);
    var now, gots := MeterAfter(link, p, m, before), HeardDuring(link, answers, before, frames);
    forall i | 0 <= i < |frames| ensures HearsReply(p, now, frames, gots[i], i) {
      var sent := before + Sendings(link, frames[..i + 1]);
      LastReplyIs(link, p, m, before, frames, i);
      RepliesSayable(p, Run(p, now, frames[..i]), frames[i]);
      if LastReply(link, p, m, sent).Some? {
        ConveysIsHeard(link, answers(sent), LastReply(link, p, m, sent));
      }
    }
  }

  /** DISC changes no register. */
  lemma {:induction false} Closing(p: Plate, m: Meter, frames: seq<Said>, tally: Tally)
    requires LeavesAt(p, m, frames, tally)
    ensures Run(p, m, frames + [Said(DISC, [])]).tally == tally
  {
    assert Mention(0);
    var all := frames + [Said(DISC, [])];
    RunMore(p, m, all, |frames|);
    assert all[..|frames|] == frames && all[..|frames| + 1] == all;
  }

  /** A register read heard over the bus. */
  lemma {:induction false} ReadHeard(link: Link, p: Plate, m: Meter, answers: seq<seq<Byte>> -> Turn,
                                     before: seq<seq<Byte>>, obis: seq<Byte>, unit: Byte, floats: nat -> real)
    requires Linked(link, p, m, answers) && |obis| == 6
    ensures var now, gots := MeterAfter(link, p, m, before), ReadGots(link, answers, before, obis);
      && Connects(gots[0]) && (Associates(gots[1]) <==> Aare.Opens(p.aare))
      && RegisterValue(unit, floats, gots) == NextReading(p, now.tally, obis, unit, floats)
      && LeavesAt(p, now, Opening(Requests(obis))[..Sent(unit, gots) + 1], TallyAfter(p, now.tally, obis, unit))
  {
    RequestsSayable(obis);
    OpeningReads(obis);
    MeterIsHeard(link, p, m, answers, before, Opening(Requests(obis)));
    ReadsTheRegister(p, MeterAfter(link, p, m, before), obis, unit, floats, Opening(Requests(obis)),
                     ReadGots(link, answers, before, obis));
  }

  lemma {:induction false} ReadSayable(obis: seq<Byte>, unit: Byte, gots: seq<Got>)
    requires |obis| == 6
    ensures AllSayable(ReadFrames(obis, unit, gots))
  {
    RequestsSayable(obis);
    SessionOfRead(obis, unit, gots);
  }

  /** How far a whole read takes the registers. */
  lemma {:induction false} ReadLeaves(link: Link, p: Plate, m: Meter, before: seq<seq<Byte>>, obis: seq<Byte>,
          unit: Byte,
                                      gots: seq<Got>, tally: Tally)
    requires link.Proper() && |obis| == 6 && Connects(GotAt(gots, 0)) && AllSayable(ReadFrames(obis, unit, gots))
    requires LeavesAt(p, MeterAfter(link, p, m, before), Opening(Requests(obis))[..Sent(unit, gots) + 1], tally)
    ensures MeterAfter(link, p, m, before + Sendings(link, ReadFrames(obis, unit, gots))).tally == tally
  {
    SessionOfRead(obis, unit, gots);
    Closing(p, MeterAfter(link, p, m, before), Opening(Requests(obis))[..Sent(unit, gots) + 1], tally);
    RunOnWire(link, p, m, before, ReadFrames(obis, unit, gots));
  }

  /** A register read over the bus from such a meter, in whatever state it is. */
  lemma {:induction false} ReadOverBus(link: Link, p: Plate, m: Meter, answers: seq<seq<Byte>> -> Turn,
                                       before: seq<seq<Byte>>, obis: seq<Byte>, unit: Byte, floats: nat -> real)
    requires Linked(link, p, m, answers) && |obis| == 6
    ensures AllSayable(ReadFrames(obis, unit, ReadGots(link, answers, before, obis)))
    ensures var tally, gots := MeterAfter(link, p, m, before).tally, ReadGots(link, answers, before, obis);
      && RegisterValue(unit, floats, gots) == NextReading(p, tally, obis, unit, floats)
      && MeterAfter(link, p, m, before + Sendings(link, ReadFrames(obis, unit, gots))).tally ==
          TallyAfter(p, tally, obis, unit)
  {
    var gots := ReadGots(link, answers, before, obis);
    ReadHeard(link, p, m, answers, before, obis, unit, floats);
    ReadSayable(obis, unit, gots);
    ReadLeaves(link, p, m, before, obis, unit, gots, TallyAfter(p, MeterAfter(link, p, m, before).tally, obis, unit));
  }

  lemma {:induction false} ProbeHeard(link: Link, p: Plate, m: Meter, answers: seq<seq<Byte>> -> Turn,
                                      before: seq<seq<Byte>>, obis: seq<Byte>)
    requires Linked(link, p, m, answers) && |obis| == 6
    ensures var now, gots := MeterAfter(link, p, m, before), ProbeGots(link, answers, before);
      && Connects(gots[0]) && (Associates(gots[1]) <==> Aare.Opens(p.aare))
      && LeavesAt(p, now, Opening([AARQ]), now.tally)
  {
    var now, gots := MeterAfter(link, p, m, before), ReadGots(link, answers, before, obis);
    ProbeHearsTheSame(link, answers, before, obis);
    OpeningGrows(obis);
    RequestsSayable(obis);
    OpeningReads(obis);
    MeterIsHeard(link, p, m, answers, before, Opening(Requests(obis)));
    SessionStates(p, now, obis, Opening(Requests(obis)), gots);
    MeterAssociates(p);
  }

  /** A probe over the bus, which reads nothing. */
  lemma {:induction false} ProbeOverBus(link: Link, p: Plate, m: Meter, answers: seq<seq<Byte>> -> Turn,
                                        before: seq<seq<Byte>>, obis: seq<Byte>)
    requires Linked(link, p, m, answers) && |obis| == 6
    ensures AllSayable(SessionFrames(true, [AARQ]))
    ensures var now, gots := MeterAfter(link, p, m, before), ProbeGots(link, answers, before);
      && Connects(gots[0]) && (Associates(gots[1]) <==> Aare.Opens(p.aare))
      && MeterAfter(link, p, m, before + Sendings(link, SessionFrames(true, [AARQ]))).tally == now.tally
  {
    var now := MeterAfter(link, p, m, before);
    ProbeHeard(link, p, m, answers, before, obis);
    OpeningSayable([AARQ]);
    Closing(p, now, Opening([AARQ]), now.tally);
    RunOnWire(link, p, m, before, SessionFrames(true, [AARQ]));
  }

  function QuietTurn(link: Link, reply: Got): Turn
    requires link.Proper()
  {
    Some(if reply.Some? && Sayable(reply.value) then ReplyBytes(link, reply.value) else [])
  }

  lemma {:induction false} QuietTurnConveys(link: Link, reply: Got)
    requires link.Proper()
    ensures Conveys(link, QuietTurn(link, reply), reply)
  {
    if reply.Some? && Sayable(reply.value) {
      var frame := ReplyBytes(link, reply.value);
      assert frame == [] + frame + [];
      assert Around(frame, [], frame, []);
    }
  }

  /** There are such buses: one without noise, for any meter at all. */
  ghost function QuietBus(link: Link, p: Plate, m: Meter): seq<seq<Byte>> -> Turn
    requires link.Proper()
  {
    sent => QuietTurn(link, if sent == [] then None else LastReply(link, p, m, sent))
  }

  lemma {:induction false} QuietBusIsLinked(link: Link, p: Plate, m: Meter)
    requires link.Proper() && p.Valid()
    ensures Linked(link, p, m, QuietBus(link, p, m))
  {
    forall sent: seq<seq<Byte>> | sent != []
      ensures Conveys(link, QuietBus(link, p, m)(sent), LastReply(link, p, m, sent))
    {
      QuietTurnConveys(link, LastReply(link, p, m, sent));
    }
  }

  // ------------------------------------------------------------- what the node asks

  datatype Call = Import | Export | Voltage | Present

  /** A reading, if there is one, or the verdict of a probe. */
  datatype Outcome = Read(val: Option<real>) | Probed(ok: bool)

  function Kwh(wh: Option<real>): Option<real> { if wh.None? then None else Some(wh.value / 1000.0) }

  function ObisOf(c: Config, call: Call): seq<Byte> {
    match call
    case Import => c.importObis
    case Export => c.exportObis
    case _ => c.voltageObis
  }

  function UnitOf(call: Call): Byte { if call.Voltage? then UNIT_V else UNIT_WH }

  /** What a call comes to, given how far the registers have been read. */
  ghost function Verdict(p: Plate, c: Config, floats: nat -> real, tally: Tally, call: Call): Outcome {
    if call.Present? then Probed(Aare.Opens(p.aare))
    else
      var next := NextReading(p, tally, ObisOf(c, call), UnitOf(call), floats);
      Read(if call.Voltage? then next else Kwh(next))
  }

  ghost function TallyOf(p: Plate, c: Config, tally: Tally, call: Call): Tally {
    if call.Present? then tally else TallyAfter(p, tally, ObisOf(c, call), UnitOf(call))
  }

  /** What any calls come to, in order. */
  ghost function Outcomes(p: Plate, c: Config, floats: nat -> real, tally: Tally, calls: seq<Call>): seq<Outcome>
    decreases |calls|
  {
    if calls == [] then []
    else [Verdict(p, c, floats, tally, calls[0])]
         + Outcomes(p, c, floats, TallyOf(p, c, tally, calls[0]), calls[1..])
  }

  /** How far the registers have been read; stated only where it is mentioned. */
  ghost predicate ReadTo(link: Link, p: Plate, m: Meter, sent: seq<seq<Byte>>, tally: Tally) {
    forall t {:trigger Mention(t)} :: Mention(t) ==> MeterAfter(link, p, m, sent).tally == tally
  }

  lemma {:induction false} ReadDone(link: Link, p: Plate, m: Meter, answers: seq<seq<Byte>> -> Turn,
          before: seq<seq<Byte>>,
                                    now: seq<seq<Byte>>, tally: Tally, obis: seq<Byte>, unit: Byte, floats: nat -> real)
    requires Linked(link, p, m, answers) && |obis| == 6 && ReadTo(link, p, m, before, tally)
    requires OnBus(link, before, ReadFrames(obis, unit, ReadGots(link, answers, before, obis)), now)
    ensures ReadTo(link, p, m, now, TallyAfter(p, tally, obis, unit))
    ensures RegisterValue(unit, floats, ReadGots(link, answers, before, obis)) ==
      NextReading(p, tally, obis, unit, floats)
  {
    assert Mention(0);
    ReadOverBus(link, p, m, answers, before, obis, unit, floats);
  }

  lemma {:induction false} ProbeDone(link: Link, p: Plate, m: Meter, answers: seq<seq<Byte>> -> Turn,
          before: seq<seq<Byte>>,
                                     now: seq<seq<Byte>>, tally: Tally, obis: seq<Byte>)
    requires Linked(link, p, m, answers) && |obis| == 6 && ReadTo(link, p, m, before, tally)
    requires OnBus(link, before, SessionFrames(Connects(ProbeGots(link, answers, before)[0]), [AARQ]), now)
    ensures ReadTo(link, p, m, now, tally)
    ensures var gots := ProbeGots(link, answers, before);
      Connects(gots[0]) && (Associates(gots[1]) <==> Aare.Opens(p.aare))
  {
    assert Mention(0);
    ProbeOverBus(link, p, m, answers, before, obis);
  }

  /** The reader's bus leads to the meter, whose registers have been read that far. */
  ghost predicate Facing(reader: DlmsCosemReader, p: Plate, m: Meter, tally: Tally)
    reads reader, reader.bus
  {
    && reader.Valid() && Linked(reader.ThisLink(), p, m, reader.bus.answers)
    && ReadTo(reader.ThisLink(), p, m, reader.bus.sent, tally)
  }

  method Energy(reader: DlmsCosemReader, obis: seq<Byte>, ghost p: Plate, ghost m: Meter, ghost tally: Tally)
      returns (val: Option<real>)
    requires Facing(reader, p, m, tally) && |obis| == 6
    modifies reader.bus, reader`said, reader`heard, reader`base, reader`vs, reader`vr
    ensures Facing(reader, p, m, TallyAfter(p, tally, obis, UNIT_WH))
    ensures val == Kwh(NextReading(p, tally, obis, UNIT_WH, reader.floats))
  {
    ghost var before := reader.bus.sent;
    var ok, kwh := reader.GetEnergy(obis, 0.0);
    ReadDone(reader.ThisLink(), p, m, reader.bus.answers, before, reader.bus.sent, tally, obis, UNIT_WH, reader.floats);
    val := if ok then Some(kwh) else None;
  }

  method Volts(reader: DlmsCosemReader, ghost p: Plate, ghost m: Meter, ghost tally: Tally) returns (val: Option<real>)
    requires Facing(reader, p, m, tally)
    modifies reader.bus, reader`said, reader`heard, reader`base, reader`vs, reader`vr
    ensures Facing(reader, p, m, TallyAfter(p, tally, reader.config.voltageObis, UNIT_V))
    ensures val == NextReading(p, tally, reader.config.voltageObis, UNIT_V, reader.floats)
  {
    ghost var obis, before := reader.config.voltageObis, reader.bus.sent;
    var ok, volts := reader.GetVoltage(0.0);
    ReadDone(reader.ThisLink(), p, m, reader.bus.answers, before, reader.bus.sent, tally, obis, UNIT_V, reader.floats);
    val := if ok then Some(volts) else None;
  }

  method Presence(reader: DlmsCosemReader, ghost p: Plate, ghost m: Meter, ghost tally: Tally) returns (ok: bool)
    requires Facing(reader, p, m, tally)
    modifies reader.bus, reader`said, reader`heard, reader`base, reader`vs, reader`vr
    ensures Facing(reader, p, m, tally)
    ensures ok <==> Aare.Opens(p.aare)
  {
    ghost var obis, before := reader.config.importObis, reader.bus.sent;
    ok := reader.Probe();
    ProbeDone(reader.ThisLink(), p, m, reader.bus.answers, before, reader.bus.sent, tally, obis);
  }

  /** The first i calls came to `done` and read the registers that far; stated only where
      it is mentioned. */
  ghost predicate SoFar(p: Plate, c: Config, floats: nat -> real, tally: Tally, calls: seq<Call>, i: nat,
                        done: seq<Outcome>, so: Tally)
  {
    forall t {:trigger Mention(t)} :: Mention(t) ==>
      i <= |calls| && Outcomes(p, c, floats, tally, calls) == done + Outcomes(p, c, floats, so, calls[i..])
  }

  lemma {:induction false} OneMore(p: Plate, c: Config, floats: nat -> real, tally: Tally, calls: seq<Call>, i: nat,
                                   done: seq<Outcome>, so: Tally)
    requires i < |calls| && SoFar(p, c, floats, tally, calls, i, done, so)
    ensures SoFar(p, c, floats, tally, calls, i + 1, done + [Verdict(p, c, floats, so, calls[i])],
                  TallyOf(p, c, so, calls[i]))
  {
    assert Mention(0);
    assert calls[i..][1..] == calls[i + 1..];
  }

  lemma {:induction false} AllDone(p: Plate, c: Config, floats: nat -> real, tally: Tally, calls: seq<Call>,
                                   done: seq<Outcome>, so: Tally)
    requires SoFar(p, c, floats, tally, calls, |calls|, done, so)
    ensures done == Outcomes(p, c, floats, tally, calls)
  {
    assert Mention(0);
  }

  /** Makes one call to a reader whose bus leads to a meter. */
  method Make(reader: DlmsCosemReader, call: Call, ghost p: Plate, ghost m: Meter, ghost tally: Tally)
      returns (outcome: Outcome)
    requires Facing(reader, p, m, tally)
    modifies reader.bus, reader`said, reader`heard, reader`base, reader`vs, reader`vr
    ensures Facing(reader, p, m, TallyOf(p, reader.config, tally, call))
    ensures outcome == Verdict(p, reader.config, reader.floats, tally, call)
  {
    match call {
      case Import =>
        var val := Energy(reader, reader.config.importObis, p, m, tally);
        outcome := Read(val);
      case Export =>
        var val := Energy(reader, reader.config.exportObis, p, m, tally);
        outcome := Read(val);
      case Voltage =>
        var val := Volts(reader, p, m, tally);
        outcome := Read(val);
      case Present =>
        var ok := Presence(reader, p, m, tally);
        outcome := Probed(ok);
    }
  }

  /** Any calls in any order: each one succeeds or not as the meter alone decides, and
      each read gets the register's value of that moment, whatever came before. */
  method Poll(reader: DlmsCosemReader, calls: seq<Call>, ghost p: Plate, ghost m: Meter, ghost tally: Tally)
      returns (outcomes: seq<Outcome>)
    requires Facing(reader, p, m, tally)
    modifies reader.bus, reader`said, reader`heard, reader`base, reader`vs, reader`vr
    ensures outcomes == Outcomes(p, reader.config, reader.floats, tally, calls)
  {
    ghost var so := tally;
    outcomes := [];
    var i := 0;
    assert calls[0..] == calls;
    while i < |calls|
      invariant i <= |calls| && Facing(reader, p, m, so)
      invariant SoFar(p, reader.config, reader.floats, tally, calls, i, outcomes, so)
    {
      var outcome := Make(reader, calls[i], p, m, so);
      OneMore(p, reader.config, reader.floats, tally, calls, i, outcomes, so);
      so := TallyOf(p, reader.config, so, calls[i]);
      outcomes := outcomes + [outcome];
      i := i + 1;
    }
    AllDone(p, reader.config, reader.floats, tally, calls, outcomes, so);
  }
}
