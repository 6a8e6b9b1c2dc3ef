/** The DLMS/COSEM reader: one HDLC session for each register read or probe. */
module Dlms {
  import opened Wire
  import opened Guard
  import opened Layout = HdlcLayout
  import opened Hdlc
  import opened FrameHunt
  import Aare
  import opened DlmsData
  import opened Buses
  import opened DlmsSession
  import opened DlmsWire

  datatype Config = Config(clientSap: bv16, serverLogical: bv16, serverPhysical: bv16, serverAddrLen: nat,
                           importObis: seq<Byte>, exportObis: seq<Byte>, voltageObis: seq<Byte>)
  {
    predicate Valid() { clientSap <= 0xFF && |importObis| == 6 && |exportObis| == 6 && |voltageObis| == 6 }
  }

  const UNIT_WH: Byte := 30
  const UNIT_V: Byte := 35

  class DlmsCosemReader {
    const config: Config
    const bus: Bus
    const floats: nat -> real  // what a float32 word stands for
    var client: seq<Byte>
    var server: seq<Byte>
    var vs: Byte
    var vr: Byte

    ghost var said: seq<Said>         // the frames of the session so far
    ghost var heard: Got              // what came back for the last of them
    ghost var base: seq<seq<Byte>>    // what was on the bus before it

    /** Ready to read: init() has succeeded. V(S) and V(R) never come apart. */
    ghost predicate Valid()
      reads this
    {
      config.Valid() && ThisLink().Proper() && vs == vr && vs < 8
    }

    function ThisLink(): Link
      reads this
    {
      Link(client, server)
    }

    /** The ghost frames are the bytes on the bus; stated only where it is mentioned. */
    ghost predicate Tuned()
      reads this, bus
    {
      forall t {:trigger Mention(t)} :: Mention(t) ==>
        && ThisLink().Proper() && OnBus(ThisLink(), base, said, bus.sent)
        && (said != [] ==> heard == ReceivedIn(ThisLink(), bus.LastTurn()))
    }

    constructor (config: Config, bus: Bus, floats: nat -> real)
      ensures this.config == config && this.bus == bus && this.floats == floats
      ensures vs == 0 && vr == 0
    {
      this.config, this.bus, this.floats := config, bus, floats;
      client, server, vs, vr := [], [], 0, 0;
    }

    /** init(): succeeds exactly when both addresses fit their sizes. */
    method Init() returns (ok: bool)
      requires config.Valid() && vs == vr && vs < 8
      modifies this`client, this`server
      ensures ok <==>
        && AddressFits(config.clientSap, 0, 1)
        && AddressFits(config.serverLogical, config.serverPhysical, config.serverAddrLen)
      ensures ok ==> Valid()
      ensures ok ==> |client| == 1 && AddressParts(client) == (config.clientSap, 0)
      ensures ok ==> |server| == config.serverAddrLen && AddressParts(server).0 == config.serverLogical
      ensures ok && config.serverAddrLen > 1 ==> AddressParts(server).1 == config.serverPhysical
    {
      var a;
      ok, a := HdlcAddress(config.clientSap, 0, 1);
      if !ok {
        return;
      }
      client := a;
      ok, a := HdlcAddress(config.serverLogical, config.serverPhysical, config.serverAddrLen);
      if ok {
        server := a;
      }
    }

    // ------------------------------------------------------------ frames and bytes

    /** sendFrame() */
    method SendFrame(control: Byte, info: seq<Byte>) returns (ok: bool)
      requires Valid() && |info| <= INFO_MAX
      modifies bus
      ensures bus.sent == old(bus.sent) + [RequestBytes(ThisLink(), Said(control, info))]
      ensures ok <==> bus.LastTurn().Some?
      ensures ok ==> bus.line == bus.LastTurn().value
    {
      var buf := new Byte[FRAME_MAX](_ => 0);
      var built, len := BuildFrame(server, client, control, info, buf);
      ok := bus.Send(buf[..len]);
    }

    /** receive() */
    method Receive() returns (got: Got)
      requires Valid()
      modifies bus`line
      ensures got == Received(ThisLink(), old(bus.line))
    {
      var buf := new Byte[FRAME_MAX](_ => 0);
      var found, len, used := ReadFrame(bus.line, buf);
      if !found {
        return None;
      }
      bus.line := bus.line[used..];
      var f := ParseFrame(buf[..len]);
      if f.None? {
        return None;
      }
      if f.value.dest != client || f.value.src != server {
        return None;
      }
      return Some(Said(f.value.control, f.value.info));
    }

    /** A request on the bus and what is heard back. */
    method Transact(control: Byte, info: seq<Byte>) returns (got: Got)
      requires Valid() && |info| <= INFO_MAX
      modifies bus
      ensures bus.sent == old(bus.sent) + [RequestBytes(ThisLink(), Said(control, info))]
      ensures got == ReceivedIn(ThisLink(), bus.LastTurn())
    {
      var ok := SendFrame(control, info);
      if !ok {
        return None;
      }
      got := Receive();
    }

    /** The same, frame by frame. */
    method Talk(control: Byte, info: seq<Byte>) returns (got: Got)
      requires Valid() && Tuned() && |info| <= INFO_MAX
      modifies bus, this`said, this`heard
      ensures Tuned()
      ensures said == old(said) + [Said(control, info)] && got == heard
    {
      assert Mention(0);
      OnBusMore(ThisLink(), base, said, Said(control, info), bus.sent);
      said := said + [Said(control, info)];
      got := Transact(control, info);
      heard := got;
    }

    // -------------------------------------------------------------------- the link

    /** connect(): the counters restart only once the meter answers UA. */
    method Connect() returns (ok: bool)
      requires Valid() && Tuned()
      modifies bus, this`said, this`heard, this`vs, this`vr
      ensures Valid() && Tuned()
      ensures said == old(said) + [Said(0x93, [])]
      ensures ok <==> Connects(heard)
      ensures ok <==> heard.Some? && heard.value.control == 0x73
      ensures if ok then vs == 0 else vs == old(vs)
    {
      var got := Talk(SNRM, []);
      if got.None? {
        return false;
      }
      if got.value.control == DM {
        return false;
      }
      if got.value.control != UA {
        return false;
      }
      vs := 0;
      vr := 0;
      return true;
    }

    /** disconnect() */
    method Disconnect() returns (ok: bool)
      requires Valid() && Tuned()
      modifies bus, this`said, this`heard
      ensures Tuned()
      ensures said == old(said) + [Said(0x53, [])]
      ensures ok <==> heard.Some? && (heard.value.control == 0x73 || heard.value.control == 0x1F)
    {
      var got := Talk(DISC, []);
      if got.None? {
        return false;
      }
      if got.value.control != UA && got.value.control != DM {
        return false;
      }
      return true;
    }

    /** The checks of exchange(): lets through exactly the answer in sequence. */
    method TakeAnswer(got: Got) returns (resp: Option<seq<Byte>>)
      ensures resp == Answer(vs, vr, got)
    {
      if got.None? {
        return None;
      }
      if got.value.control & 1 != 0 {
        return None;
      }
      if got.value.control & PF == 0 {
        return None;
      }
      var ns := (got.value.control >> 1) & 0x07;
      var nr := got.value.control >> 5;
      if ns != vr || nr != (vs + 1) & 0x07 {
        return None;
      }
      if |got.value.info| < LLC_LEN || |got.value.info| > INFO_MAX || got.value.info[..LLC_LEN] != LLC_RECV {
        return None;
      }
      return Some(got.value.info[LLC_LEN..]);
    }

    /** exchange(): takes exactly the answer in sequence, and only then moves on. */
    method Exchange(apdu: seq<Byte>) returns (resp: Option<seq<Byte>>)
      requires Valid() && Tuned()
      modifies bus, this`said, this`heard, this`vs, this`vr
      ensures Valid() && Tuned()
      ensures |apdu| > APDU_MAX ==> resp == None && said == old(said)
      ensures |apdu| <= APDU_MAX ==>
        && said == old(said) + [IFrame(old(vs), old(vr), apdu)] && resp == Answer(old(vs), old(vr), heard)
      ensures vs == if resp.Some? then Next(old(vs)) else old(vs)
    {
      if |apdu| > APDU_MAX {
        return None;
      }
      var info := LLC_SEND + apdu;
      var control := (vr << 5) | PF | (vs << 1);
      var got := Talk(control, info);
      resp := TakeAnswer(got);
      if resp.None? {
        return None;
      }
      NextStays(vs);
      vs := (vs + 1) & 0x07;
      vr := (vr + 1) & 0x07;
    }

    // ---------------------------------------------------------------- one register

    /** associate() */
    method Associate() returns (ok: bool)
      requires Valid() && Tuned() && vs == 0
      modifies bus, this`said, this`heard, this`vs, this`vr
      ensures Valid() && Tuned()
      ensures said == old(said) + [IFrame(0, 0, AARQ)]
      ensures ok <==> Associates(heard)
      ensures ok ==> vs == 1
    {
      var resp := Exchange(AARQ);
      if resp.None? {
        return false;
      }
      ok := Aare.CheckAare(resp.value);
    }

    /** getAttribute() */
    method GetAttribute(obis: seq<Byte>, attribute: Byte) returns (data: Option<seq<Byte>>)
      requires Valid() && Tuned() && |obis| == 6
      modifies bus, this`said, this`heard, this`vs, this`vr
      ensures Valid() && Tuned()
      ensures said == old(said) + [IFrame(old(vs), old(vs), GetRequest(obis, attribute))]
      ensures data == Attribute(old(vs), heard)
      ensures data.Some? ==> vs == Next(old(vs))
    {
      var resp := Exchange(GetRequest(obis, attribute));
      if resp.None? {
        return None;
      }
      data := ParseGetResponse(resp.value);
      if data.Some? {
        DataOfResponse(data.value);
      }
    }

    /** The scaler_unit half of readAssociated(). */
    method ReadScaler(obis: seq<Byte>, unit: Byte) returns (scaler: Option<int>)
      requires Valid() && Tuned() && |obis| == 6 && vs == 1
      modifies bus, this`said, this`heard, this`vs, this`vr
      ensures Valid() && Tuned()
      ensures said == old(said) + [IFrame(1, 1, GetRequest(obis, ATTR_SCALER_UNIT))]
      ensures scaler == ScalerRead(unit, heard)
      ensures scaler.Some? ==> vs == 2
    {
      var data := GetAttribute(obis, ATTR_SCALER_UNIT);
      if data.None? {
        return None;
      }
      scaler := DecodeScalerUnit(data.value, unit);
      if scaler.Some? {
        ScalerOfEncoded(scaler.value, unit);
      }
    }

    /** The value half. */
    method ReadNumber(obis: seq<Byte>) returns (number: Option<Number>)
      requires Valid() && Tuned() && |obis| == 6 && vs == 2
      modifies bus, this`said, this`heard, this`vs, this`vr
      ensures Valid() && Tuned()
      ensures said == old(said) + [IFrame(2, 2, GetRequest(obis, ATTR_VALUE))]
      ensures number == NumberRead(heard)
    {
      var data := GetAttribute(obis, ATTR_VALUE);
      if data.None? {
        return None;
      }
      number := DecodeNumber(data.value);
    }

    /** What a register read behind `base` hears, stated only where it is mentioned. */
    ghost predicate WillHear(obis: seq<Byte>, gots: seq<Got>)
      reads this
    {
      && |gots| == 4 && |obis| == 6
      && forall t {:trigger Mention(t)} :: Mention(t) ==>
          ThisLink().Proper() && gots == ReadGots(ThisLink(), bus.answers, base, obis)
    }

    /** Along a register read, what comes back is what such a read hears. */
    lemma {:induction false} HeardSoFar(obis: seq<Byte>, gots: seq<Got>, i: nat)
      requires Tuned() && WillHear(obis, gots) && i < 4 && said == Opening(Requests(obis))[..i + 1]
      ensures heard == gots[i]
    {
      assert Mention(0);
    }

    /** readAssociated() once associated. */
    method ReadScaled(obis: seq<Byte>, unit: Byte, was: real, ghost gots: seq<Got>) returns (ok: bool, val: real)
      requires Valid() && Tuned() && WillHear(obis, gots) && vs == 1
      requires Connects(gots[0]) && Associates(gots[1])
      requires said == Opening(Requests(obis))[..2]
      modifies bus, this`said, this`heard, this`vs, this`vr
      ensures Valid() && Tuned()
      ensures said == Opening(Requests(obis))[..Sent(unit, gots) + 1]
      ensures ok <==> RegisterValue(unit, floats, gots).Some?
      ensures val == if ok then RegisterValue(unit, floats, gots).value else was
    {
      ok, val := false, was;
      OpeningGrows(obis);
      var scaler := ReadScaler(obis, unit);
      HeardSoFar(obis, gots, 2);
      if scaler.None? {
        return;
      }
      var raw := ReadNumber(obis);
      HeardSoFar(obis, gots, 3);
      if raw.None? {
        return;
      }
      val := ApplyScaler(Meaning(raw.value, floats), scaler.value);
      ok := true;
    }

    /** readAssociated(): AARQ, scaler_unit and value, stopping at the first failure. */
    method ReadAssociated(obis: seq<Byte>, unit: Byte, was: real, ghost gots: seq<Got>) returns (ok: bool, val: real)
      requires Valid() && Tuned() && WillHear(obis, gots) && vs == 0
      requires Connects(gots[0]) && said == Opening(Requests(obis))[..1]
      modifies bus, this`said, this`heard, this`vs, this`vr
      ensures Valid() && Tuned()
      ensures said == Opening(Requests(obis))[..Sent(unit, gots) + 1]
      ensures ok <==> RegisterValue(unit, floats, gots).Some?
      ensures val == if ok then RegisterValue(unit, floats, gots).value else was
    {
      ok, val := false, was;
      OpeningGrows(obis);
      var associated := Associate();
      HeardSoFar(obis, gots, 1);
      if !associated {
        return;
      }
      ok, val := ReadScaled(obis, unit, was, gots);
    }

    /** readRegister(), frame by frame. */
    method ReadSession(obis: seq<Byte>, unit: Byte, was: real, ghost gots: seq<Got>) returns (ok: bool, val: real)
      requires Valid() && Tuned() && WillHear(obis, gots) && said == []
      modifies bus, this`said, this`heard, this`vs, this`vr
      ensures Valid() && Tuned()
      ensures said == ReadFrames(obis, unit, gots)
      ensures ok <==> RegisterValue(unit, floats, gots).Some?
      ensures val == if ok then RegisterValue(unit, floats, gots).value else was
    {
      SessionOfRead(obis, unit, gots);
      var connected := Connect();
      assert said == Opening(Requests(obis))[..1];
      HeardSoFar(obis, gots, 0);
      if !connected {
        return false, was;
      }
      ok, val := ReadAssociated(obis, unit, was, gots);
      var closed := Disconnect();
    }

    /** probe(), frame by frame; it hears what the read of any register hears first. */
    method ProbeSession(ghost obis: seq<Byte>, ghost gots: seq<Got>) returns (ok: bool)
      requires Valid() && Tuned() && WillHear(obis, gots) && said == []
      modifies bus, this`said, this`heard, this`vs, this`vr
      ensures Valid() && Tuned()
      ensures said == SessionFrames(Connects(gots[0]), [AARQ])
      ensures ok <==> Connects(gots[0]) && Associates(gots[1])
    {
      OpeningGrows(obis);
      var connected := Connect();
      HeardSoFar(obis, gots, 0);
      if !connected {
        return false;
      }
      ok := Associate();
      HeardSoFar(obis, gots, 1);
      var closed := Disconnect();
    }

    // -------------------------------------------------------------- what callers see

    /** Opens the ghost record of a session. */
    ghost method Tune()
      requires Valid()
      modifies this`said, this`heard, this`base
      ensures Tuned() && said == [] && base == bus.sent
    {
      said, base := [], bus.sent;
      assert bus.sent == base + Sendings(ThisLink(), []);
    }

    /** readRegister(): whatever the far end answers, sends SNRM alone, or SNRM, the
        I-frames and one DISC; returns the register's value exactly when every step
        succeeds, and otherwise leaves the caller's value alone. */
    method ReadRegister(obis: seq<Byte>, unit: Byte, was: real) returns (ok: bool, val: real)
      requires Valid() && |obis| == 6
      modifies bus, this`said, this`heard, this`base, this`vs, this`vr
      ensures Valid()
      ensures var gots := ReadGots(ThisLink(), bus.answers, old(bus.sent), obis);
        && OnBus(ThisLink(), old(bus.sent), ReadFrames(obis, unit, gots), bus.sent)
        && (ok <==> RegisterValue(unit, floats, gots).Some?)
        && val == (if ok then RegisterValue(unit, floats, gots).value else was)
    {
      Tune();
      ok, val := ReadSession(obis, unit, was, ReadGots(ThisLink(), bus.answers, base, obis));
      assert Mention(0);
    }

    /** probe(): a session that only associates. */
    method Probe() returns (ok: bool)
      requires Valid()
      modifies bus, this`said, this`heard, this`base, this`vs, this`vr
      ensures Valid()
      ensures var gots := ProbeGots(ThisLink(), bus.answers, old(bus.sent));
        && OnBus(ThisLink(), old(bus.sent), SessionFrames(Connects(gots[0]), [AARQ]), bus.sent)
        && (ok <==> Connects(gots[0]) && Associates(gots[1]))
    {
      Tune();
      ghost var obis := config.importObis;
      ProbeHearsTheSame(ThisLink(), bus.answers, base, obis);
      ok := ProbeSession(obis, ReadGots(ThisLink(), bus.answers, base, obis));
      assert Mention(0);
    }

    /** get_import() and get_export(): Wh (unit 30) from the meter, kWh out. */
    method GetEnergy(obis: seq<Byte>, was: real) returns (ok: bool, val: real)
      requires Valid() && |obis| == 6
      modifies bus, this`said, this`heard, this`base, this`vs, this`vr
      ensures Valid()
      ensures var gots := ReadGots(ThisLink(), bus.answers, old(bus.sent), obis);
        && OnBus(ThisLink(), old(bus.sent), ReadFrames(obis, 30, gots), bus.sent)
        && (ok <==> RegisterValue(30, floats, gots).Some?)
        && (if ok then 1000.0 * val == RegisterValue(30, floats, gots).value else val == was)
    {
      var wh;
      ok, wh := ReadRegister(obis, UNIT_WH, 0.0);
      val := if ok then wh / 1000.0 else was;
    }

    /** get_voltage(): V (unit 35). */
    method GetVoltage(was: real) returns (ok: bool, val: real)
      requires Valid()
      modifies bus, this`said, this`heard, this`base, this`vs, this`vr
      ensures Valid()
      ensures var gots := ReadGots(ThisLink(), bus.answers, old(bus.sent), config.voltageObis);
        && OnBus(ThisLink(), old(bus.sent), ReadFrames(config.voltageObis, 35, gots), bus.sent)
        && (ok <==> RegisterValue(35, floats, gots).Some?)
        && val == (if ok then RegisterValue(35, floats, gots).value else was)
    {
      ok, val := ReadRegister(config.voltageObis, UNIT_V, was);
    }
  }
}
