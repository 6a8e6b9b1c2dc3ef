/** Modbus RTU frames: what the reader accepts, and what it makes of them. */
module ModbusFrames {
  import opened Wire
  import opened Registers
  import opened Crc
  import opened DlmsData

  const REQUEST_LEN: nat := 8
  const RESPONSE_LEN: nat := 9
  const MIN_FRAME_LEN: nat := 4
  const PROBE_FRAME_LEN: nat := 8
  const EXCEPTION_LEN: nat := 5
  const FC_DIAGNOSTICS: Byte := 0x08

  /** A message followed by its CRC, low byte first. */
  function Sealed(message: seq<Byte>): (s: seq<Byte>)
    ensures |s| == |message| + 2
  {
    message + Bytes(ModbusCrc(message))
  }

  lemma {:induction false} SealedIff(s: seq<Byte>, message: seq<Byte>)
    ensures s == Sealed(message) <==> CrcOk(s) && s[..|s| - 2] == message
  {
    if s == Sealed(message) {
      assert s[..|s| - 2] == message && s[|s| - 2..] == Bytes(ModbusCrc(message));
    }
    if |s| >= 2 {
      assert s == s[..|s| - 2] + s[|s| - 2..];
    }
  }

  /** The frames read_frame() lets through to a buffer of `max` bytes. */
  predicate Admits(slave: Byte, max: nat, burst: seq<Byte>) {
    MIN_FRAME_LEN <= |burst| <= max && burst[0] == slave && CrcOk(burst)
  }

  /** Bytes 2 and 3 of a request, as a register address. */
  function AddressIn(high: Byte, low: Byte): bv16 { ((high as bv16) << 8) | (low as bv16) }

  lemma {:induction false} AddressBytes(address: bv16)
    ensures AddressIn(((address & 0xFF00) >> 8) as bv8, (address & 0x00FF) as bv8) == address
  {}

  /** What a meter answers to a two register read: raw is the 32 bit value. */
  function Response(slave: Byte, function_: Byte, raw: nat): seq<Byte> {
    Sealed([slave, function_, 4] + Be(raw, 4))
  }

  /** A frame with the right start is the response of some raw value, and of only one. */
  lemma {:induction false} ResponseIff(slave: Byte, function_: Byte, burst: seq<Byte>, raw: nat)
    requires raw < Pow256(4)
    ensures burst == Response(slave, function_, raw) <==>
        |burst| == RESPONSE_LEN && Admits(slave, RESPONSE_LEN, burst) && burst[1] == function_ && burst[2] == 4
        && BeNat(burst[3..7]) == raw
  {
    var message := [slave, function_, 4] + Be(raw, 4);
    SealedIff(burst, message);
    BeNatOfBe(raw, 4);
    if burst == Response(slave, function_, raw) {
      assert burst[3..7] == Be(raw, 4);
    }
    if |burst| == RESPONSE_LEN && burst[0] == slave && burst[1] == function_ && burst[2] == 4 {
      BeOfBeNat(burst[3..7]);
      assert burst[..7] == [burst[0], burst[1], burst[2]] + burst[3..7];
    }
  }

  /** The raw value a burst carries, if it answers a read; a function code with its top
      bit set reports an exception and never carries one. */
  function RawIn(slave: Byte, function_: Byte, burst: seq<Byte>): Option<nat> {
    if |burst| == RESPONSE_LEN && Admits(slave, RESPONSE_LEN, burst) && burst[1] & 0x80 == 0
       && burst[1] == function_ && burst[2] == 4
    then Some(BeNat(burst[3..7])) else None
  }

  /** A value is read from exactly its own response. */
  lemma {:induction false} RawIff(slave: Byte, function_: Byte, burst: seq<Byte>, raw: nat)
    requires raw < Pow256(4)
    ensures RawIn(slave, function_, burst) == Some(raw) <==>
        function_ & 0x80 == 0 && burst == Response(slave, function_, raw)
  {
    ResponseIff(slave, function_, burst, raw);
  }

  /** An answer byte by byte: the slave, the function, four bytes to come, the value with its
      high byte first, the CRC. A function code that reports an exception is no answer. */
  lemma {:induction false} AnswerBytes(slave: Byte, function_: Byte, a: Byte, b: Byte, c: Byte, d: Byte)
    ensures RawIn(slave, function_, Sealed([slave, function_, 0x04, a, b, c, d])) ==
        if function_ & 0x80 == 0 then Some(DoubleLong(a, b, c, d)) else None
  {
    var message: seq<Byte> := [slave, function_, 0x04, a, b, c, d];
    var burst := Sealed(message);
    SealedIff(burst, message);
    assert burst[3..7] == [a, b, c, d];
    BeNatLong(a, b, c, d);
  }

  /** A burst that differs from some admitted frame only inside two adjacent bytes, check
      bytes included, is not admitted: no such corruption is ever read as a value. */
  lemma {:induction false} CorruptionRejected(slave: Byte, max: nat, frame: seq<Byte>, burst: seq<Byte>, k: nat)
    requires Admits(slave, max, frame) && k + 1 < |frame| && DifferOnlyAt(burst, frame, k) && burst != frame
    ensures !CrcOk(burst) && forall s, m :: !Admits(s, m, burst)
  {
    if CrcOk(burst) {
      CrcDetectsWindow(burst, frame, k);
    }
  }
}

/** ModbusRtuReader */
module Modbus {
  import opened Wire
  import opened Registers
  import opened Crc
  import opened DlmsData
  import opened Buses
  import opened ModbusFrames

  datatype RegisterFormat = ScaledInt | Ieee754 | Unknown

  datatype Config = Config(slaveAddress: Byte, functionCode: Byte, registerFormat: RegisterFormat)

  function Word(low: Byte, high: Byte): bv16 { (low as bv16) | ((high as bv16) << 8) }

  lemma {:induction false} WordBytes(low: Byte, high: Byte)
    ensures Crc.Low(Word(low, high)) == low && Crc.High(Word(low, high)) == high
  {}

  lemma {:induction false} BytesWord(c: bv16)
    ensures Word(Crc.Low(c), Crc.High(c)) == c
  {}

  /** The CRC check of read_frame(). */
  method CrcMatches(frame: seq<Byte>) returns (ok: bool)
    requires |frame| >= 2
    ensures ok <==> CrcOk(frame)
  {
    var n := |frame| - 2;
    var responseCrc := Word(frame[n], frame[n + 1]);
    var crc := ComputeModbusCrc(frame[..n]);
    WordBytes(frame[n], frame[n + 1]);
    BytesWord(crc);
    BytesAre(frame[n..], crc);
    ok := crc == responseCrc;
  }

  method BigEndian(a: Byte, b: Byte, c: Byte, d: Byte) returns (raw: nat)
    ensures raw == BeNat([a, b, c, d])
  {
    BeNatLong(a, b, c, d);
    raw := DoubleLong(a, b, c, d);
  }

  lemma {:induction false} HighByte(c: bv16)
    ensures ((c & 0xFF00) >> 8) as bv8 == Crc.High(c) && (c & 0x00FF) as bv8 == Crc.Low(c)
  {}

  class ModbusRtuReader {
    const config: Config
    const bus: Bus
    const floats: nat -> real

    constructor (config: Config, bus: Bus, floats: nat -> real)
      ensures this.config == config && this.bus == bus && this.floats == floats
    {
      this.config, this.bus, this.floats := config, bus, floats;
    }

    /** Writes the CRC of the first six bytes behind them. */
    method Seal(buffer: array<Byte>)
      requires buffer.Length == REQUEST_LEN
      modifies buffer
      ensures buffer[..] == Sealed(old(buffer[..6]))
    {
      var crc := ComputeModbusCrc(buffer[..6]);
      HighByte(crc);
      buffer[6] := (crc & 0x00FF) as bv8;
      buffer[7] := ((crc & 0xFF00) >> 8) as bv8;
      assert buffer[..] == buffer[..6] + [buffer[6], buffer[7]];
    }

    /** build_request(): a sealed read of two registers, from which a meter reads back
        the address asked for. */
    method BuildRequest(buffer: array<Byte>, address: bv16)
      requires buffer.Length == REQUEST_LEN
      modifies buffer
      ensures CrcOk(buffer[..]) && Fold(ModbusStep, START, buffer[..]) == 0
      ensures buffer[0] == config.slaveAddress && buffer[1] == config.functionCode
      ensures AddressIn(buffer[2], buffer[3]) == address
      ensures buffer[2] as bv16 == address >> 8 && buffer[3] as bv16 == address & 0x00FF
      ensures buffer[4] == 0x00 && buffer[5] == 0x02
    {
      buffer[0] := config.slaveAddress;
      buffer[1] := config.functionCode;
      buffer[2] := ((address & 0xFF00) >> 8) as bv8;
      buffer[3] := (address & 0x00FF) as bv8;
      buffer[4] := 0x00;
      buffer[5] := 0x02;
      AddressBytes(address);
      ghost var message := buffer[..6];
      Seal(buffer);
      SealedIff(buffer[..], message);
      assert buffer[..6] == message;
      ModbusCrcResidue(message, Bytes(ModbusCrc(message)));
      assert forall i :: 0 <= i < 6 ==> buffer[i] == message[i];
    }

    /** The loop of read_frame(): keeps what fits, counts everything. */
    method Collect(burst: seq<Byte>, buffer: array<Byte>) returns (index: nat)
      modifies buffer
      ensures index == |burst|
      ensures forall i :: 0 <= i < |burst| && i < buffer.Length ==> buffer[i] == burst[i]
    {
      index := 0;
      while index < |burst|
        invariant index <= |burst|
        invariant forall i :: 0 <= i < index && i < buffer.Length ==> buffer[i] == burst[i]
      {
        if index < buffer.Length {
          buffer[index] := burst[index];
        }
        index := index + 1;
      }
    }

    /** read_frame(): lets through exactly the admitted bursts, and copies them whole. */
    method ReadFrame(buffer: array<Byte>) returns (ok: bool, len: nat)
      modifies buffer
      ensures ok <==> Admits(config.slaveAddress, buffer.Length, bus.line)
      ensures ok ==> len == |bus.line| <= buffer.Length && buffer[..len] == bus.line
    {
      var burst := bus.line;
      var index := Collect(burst, buffer);
      if index < MIN_FRAME_LEN {
        return false, 0;
      }
      if index > buffer.Length {
        return false, 0;
      }
      assert buffer[..index] == burst;
      if buffer[0] != config.slaveAddress {
        return false, 0;
      }
      var crcOk := CrcMatches(buffer[..index]);
      if !crcOk {
        return false, 0;
      }
      return true, index;
    }

    /** read_response(): accepts exactly the responses; an exception is never one. */
    method ReadResponse() returns (raw: Option<nat>)
      ensures raw == RawIn(config.slaveAddress, config.functionCode, bus.line)
    {
      var buffer := new Byte[RESPONSE_LEN](_ => 0);
      var ok, len := ReadFrame(buffer);
      if !ok {
        return None;
      }
      ghost var burst := bus.line;
      assert forall i :: 0 <= i < len ==> buffer[i] == burst[i];
      if buffer[1] & 0x80 != 0 {
        return None;
      }
      if len != RESPONSE_LEN {
        return None;
      }
      if buffer[1] != config.functionCode {
        return None;
      }
      if buffer[2] != 4 {
        return None;
      }
      var value := BigEndian(buffer[3], buffer[4], buffer[5], buffer[6]);
      assert burst[3..7] == [buffer[3], buffer[4], buffer[5], buffer[6]];
      return Some(value);
    }

    /** What a raw value means; ScaledInt counts thousandths. */
    function Meaning(raw: nat): Option<real> {
      match config.registerFormat
      case ScaledInt => Some(raw as real / 1000.0)
      case Ieee754 => Some(floats(raw))
      case Unknown => None
    }

    /** A read of two registers, as build_request() writes it. */
    predicate Reads(request: seq<Byte>, address: bv16) {
      && |request| == REQUEST_LEN && CrcOk(request) && AddressIn(request[2], request[3]) == address
      && request[0] == config.slaveAddress && request[1] == config.functionCode
      && request[4] == 0x00 && request[5] == 0x02
    }

    method SendRequest(address: bv16) returns (ok: bool)
      modifies bus
      ensures |bus.sent| == |old(bus.sent)| + 1 && bus.sent[..|old(bus.sent)|] == old(bus.sent)
      ensures Reads(bus.sent[|old(bus.sent)|], address)
      ensures ok <==> bus.LastTurn().Some?
      ensures ok ==> bus.line == bus.LastTurn().value
    {
      var request := new Byte[REQUEST_LEN](_ => 0);
      BuildRequest(request, address);
      ok := bus.Send(request[..]);
    }

    function Raw(burst: seq<Byte>): Option<nat> { RawIn(config.slaveAddress, config.functionCode, burst) }

    /** What a turn on the bus yields: a value exactly when the whole burst is a response. */
    function ValueOf(turn: Turn): Option<real> {
      if turn.None? then None
      else
        var raw := Raw(turn.value);
        if raw.None? then None else Meaning(raw.value)
    }

    /** read_register(), from the end of the silence before it: one request, and the
        value of its response; without one the caller's value stays. */
    method ReadRegister(address: bv16, was: real) returns (ok: bool, val: real)
      modifies bus
      ensures |bus.sent| == |old(bus.sent)| + 1 && bus.sent[..|old(bus.sent)|] == old(bus.sent)
      ensures Reads(bus.sent[|old(bus.sent)|], address)
      ensures ok <==> ValueOf(bus.LastTurn()).Some?
      ensures val == if ok then ValueOf(bus.LastTurn()).value else was
      ensures ok <==> bus.LastTurn().Some? && Raw(bus.LastTurn().value).Some? && config.registerFormat != Unknown
      ensures ok && config.registerFormat == ScaledInt ==>
        1000.0 * val == Raw(bus.LastTurn().value).value as real
      ensures ok && config.registerFormat == Ieee754 ==> val == floats(Raw(bus.LastTurn().value).value)
    {
      val := was;
      ok := SendRequest(address);
      if !ok {
        return;
      }
      var raw := ReadResponse();
      if raw.None? {
        return false, was;
      }
      match config.registerFormat {
        case Ieee754 => val := floats(raw.value);
        case ScaledInt => val := raw.value as real / 1000.0;
        case Unknown => ok := false;
      }
    }

    /** A meter's answer comes out as its value, and any corruption of it inside two
        adjacent bytes as no value at all. */
    lemma {:induction false} MeterAnswerIsRead(raw: nat, burst: seq<Byte>, k: nat)
      requires raw < Pow256(4) && config.functionCode & 0x80 == 0
      ensures ValueOf(Some(Response(config.slaveAddress, config.functionCode, raw))) == Meaning(raw)
      ensures var answer := Response(config.slaveAddress, config.functionCode, raw);
        k + 1 < |answer| && DifferOnlyAt(burst, answer, k) && burst != answer ==> ValueOf(Some(burst)) == None
    {
      var answer := Response(config.slaveAddress, config.functionCode, raw);
      RawIff(config.slaveAddress, config.functionCode, answer, raw);
      if k + 1 < |answer| && DifferOnlyAt(burst, answer, k) && burst != answer {
        CorruptionRejected(config.slaveAddress, RESPONSE_LEN, answer, burst, k);
      }
    }

    /** The diagnostics query with its data, and the meter's refusal of it. */
    function ProbeRequest(): seq<Byte> {
      Sealed([config.slaveAddress, FC_DIAGNOSTICS, 0x00, 0x00, 0xA5, 0x5A])
    }

    function Refusal(code: Byte): seq<Byte> { Sealed([config.slaveAddress, FC_DIAGNOSTICS | 0x80, code]) }

    /** Function 8, sub-function 0, the data to echo; and the refusal, the function with its
        top bit set and a reason. Both end on a CRC that leaves the receiver's register at 0. */
    lemma {:induction false} ProbeFrames(code: Byte)
      ensures ProbeRequest()[..6] == [config.slaveAddress, 0x08, 0x00, 0x00, 0xA5, 0x5A]
      ensures Refusal(code)[..3] == [config.slaveAddress, 0x88, code]
      ensures |ProbeRequest()| == 8 && |Refusal(code)| == 5
      ensures Fold(ModbusStep, START, ProbeRequest()) == 0 && Fold(ModbusStep, START, Refusal(code)) == 0
    {
      var request: seq<Byte> := [config.slaveAddress, FC_DIAGNOSTICS, 0x00, 0x00, 0xA5, 0x5A];
      ModbusCrcResidue(request, Bytes(ModbusCrc(request)));
      var refusal: seq<Byte> := [config.slaveAddress, FC_DIAGNOSTICS | 0x80, code];
      ModbusCrcResidue(refusal, Bytes(ModbusCrc(refusal)));
    }

    /** The checks probe() makes on a refusal. */
    predicate Refuses(burst: seq<Byte>) {
      && |burst| == EXCEPTION_LEN && Admits(config.slaveAddress, PROBE_FRAME_LEN, burst)
      && burst[1] == FC_DIAGNOSTICS | 0x80
    }

    lemma {:induction false} RefusalIff(burst: seq<Byte>)
      ensures (exists code :: burst == Refusal(code)) <==>
          Refuses(burst)
    {
      forall code ensures burst == Refusal(code) <==>
          CrcOk(burst) && burst[..|burst| - 2] == [config.slaveAddress, FC_DIAGNOSTICS | 0x80, code]
      {
        SealedIff(burst, [config.slaveAddress, FC_DIAGNOSTICS | 0x80, code]);
      }
      if Refuses(burst) {
        assert burst[..3] == [burst[0], burst[1], burst[2]];
        assert burst == Refusal(burst[2]);
      }
    }

    /** probe(): a meter is there exactly when it echoes the query or refuses it. */
    method Probe() returns (ok: bool)
      modifies bus
      ensures bus.sent == old(bus.sent) + [ProbeRequest()]
      ensures bus.LastTurn().Some? ==> bus.line == bus.LastTurn().value
      ensures ok <==>
        && bus.LastTurn().Some?
        && (bus.line == ProbeRequest() || exists code :: bus.line == Refusal(code))
    {
      var request := new Byte[PROBE_FRAME_LEN](_ => 0);
      request[0] := config.slaveAddress;
      request[1] := FC_DIAGNOSTICS;
      request[2] := 0x00;
      request[3] := 0x00;
      request[4] := 0xA5;
      request[5] := 0x5A;
      ghost var message := request[..6];
      assert message == [config.slaveAddress, FC_DIAGNOSTICS, 0x00, 0x00, 0xA5, 0x5A];
      Seal(request);
      ok := bus.Send(request[..]);
      if !ok {
        return;
      }
      ok := EchoedOrRefused(request[..]);
    }

    /** The end of probe(). */
    method EchoedOrRefused(request: seq<Byte>) returns (ok: bool)
      requires request == ProbeRequest()
      ensures ok <==> bus.line == ProbeRequest() || exists code :: bus.line == Refusal(code)
    {
      var response := new Byte[PROBE_FRAME_LEN](_ => 0);
      var len;
      ok, len := ReadFrame(response);
      RefusalIff(bus.line);
      SealedIff(bus.line, [config.slaveAddress, FC_DIAGNOSTICS, 0x00, 0x00, 0xA5, 0x5A]);
      if !ok {
        return;
      }
      if len == EXCEPTION_LEN && response[1] == FC_DIAGNOSTICS | 0x80 {
        return true;
      }
      if len != PROBE_FRAME_LEN || response[..] != request {
        return false;
      }
      assert response[..] == response[..len];
      return true;
    }
  }
}
