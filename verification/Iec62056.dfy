/** What a mode C session hears: the identification, the data block, the frame around it. */
module IecReplies {
  import opened Wire
  import opened IecText
  import opened ObisBlocks
  import opened IrMeters

  /** requestIdentification()'s verdict on what came back. */
  function IdCode(id: string): int {
    if id == "" then -1
    else if |id| < 7 || id[0] != '/' then -2
    else if BaudFromId(id[4]).None? then -3
    else 0
  }

  /** The first line heard, skipping one echo of the request. */
  function FirstLine(heard: string, later: string): string {
    var n := Stop(heard, "\r\n");
    if heard[..n] == REQUEST then
      var more := heard[n..] + later;
      more[..Stop(more, "\r\n")]
    else heard[..n]
  }

  /** What is left unread behind it. */
  function FirstRest(heard: string, later: string): string {
    var n := Stop(heard, "\r\n");
    if heard[..n] == REQUEST then
      var more := heard[n..] + later;
      more[Stop(more, "\r\n")..]
    else heard[n..]
  }

  /** The check byte that belongs to the text between STX and ETX. */
  predicate Closes(text: string, check: char) { Bits(check) == Bcc(text) ^ Bits(ETX) }

  lemma {:induction false} ClosesIff(text: string, bcc: Byte, check: char)
    requires bcc == Bcc(text) ^ Bits(ETX)
    ensures Closes(text, check) <==> bcc == Bits(check)
  {}

  type Check = (string, char) -> bool

  /** checkFrame(): unframed, or closed by ETX and the right check byte. */
  predicate FrameOk(closes: Check, block: string, tail: string) {
    var stx := FindFrom(Visible(block), [STX], 0);
    stx.None? || (|tail| >= 2 && tail[0] == ETX && closes(block[stx.value + 1..], tail[1]))
  }

  datatype Counters = Counters(imported: Decimal, exported: Decimal)

  /** What get_import() makes of a block and what follows it. */
  function BlockValue(closes: Check, block: string, tail: string): Option<Counters> {
    if block == "" || !FrameOk(closes, block, tail) then None
    else if ObisValue(block, IMPORT).None? || ObisValue(block, EXPORT).None? then None
    else Some(Counters(ObisValue(block, IMPORT).value, ObisValue(block, EXPORT).value))
  }

  /** What get_import() takes from the text after its ACK: everything heard in time for
      the block, and what comes later for its check bytes. */
  function DataValue(closes: Check, heard: string, later: string): Option<Counters> {
    var n := Stop(heard, "!\r\n");
    BlockValue(closes, heard[..n], heard[n..] + later)
  }

  // ------------------------------------------------------------------ from a meter

  predicate Calm(s: string) { '!' !in s && STX !in s && '\0' !in s }

  function Core(importMilli: nat, exportMilli: nat): string {
    "0-0:96.1.0(12345678)\r\n"
    + "1-0:1.8.0(" + Milli(importMilli) + "*kWh)\r\n"
    + "1-0:2.8.0(" + Milli(exportMilli) + "*kWh)\r\n"
  }

  lemma {:induction false} CoreIsCalm(importMilli: nat, exportMilli: nat)
    ensures Body(importMilli, exportMilli) == Core(importMilli, exportMilli) + "!\r\n"
    ensures Calm(Core(importMilli, exportMilli))
  {
    MilliHarmless(importMilli);
    MilliHarmless(exportMilli);
  }

  lemma {:induction false} FindChar(s: string, c: char, i: nat)
    requires i < |s| && s[i] == c && c !in s[..i]
    ensures FindFrom(s, [c], 0) == Some(i)
  {
    assert s[i..i + 1] == [c];
    forall j: nat | j < i ensures !At(s, [c], j) {
      assert s[j] == s[..i][j];
    }
    FirstFind(s, [c], i);
  }

  lemma {:induction false} NoChar(s: string, c: char)
    requires c !in s
    ensures FindFrom(s, [c], 0) == None
  {
    forall j: nat ensures !At(s, [c], j) {
      if j < |s| { assert s[j] != c; }
    }
  }

  lemma {:induction false} DataValueIs(closes: Check, heard: string, block: string, tail: string, i: Decimal,
          e: Decimal)
    requires heard == block + tail && block != "" && Stop(heard, "!\r\n") == |block| && FrameOk(closes, block, tail)
    requires ObisValue(block, IMPORT) == Some(i) && ObisValue(block, EXPORT) == Some(e)
    ensures DataValue(closes, heard, "") == Some(Counters(i, e))
  {
    assert heard[..|block|] == block && heard[|block|..] + "" == tail;
  }

  /** Reading stops right behind the block, whatever follows it. */
  lemma {:induction false} StopsBehindBody(pre: string, importMilli: nat, exportMilli: nat, tail: string)
    requires '!' !in pre
    ensures Stop(pre + Body(importMilli, exportMilli) + tail, "!\r\n") == |pre + Body(importMilli, exportMilli)|
  {
    var core := Core(importMilli, exportMilli);
    CoreIsCalm(importMilli, exportMilli);
    StopsBehind(pre + core, "!\r\n", tail);
    assert pre + (core + "!\r\n") + tail == (pre + core) + "!\r\n" + tail;
  }

  lemma {:induction false} BodyHasNo(pre: string, importMilli: nat, exportMilli: nat)
    requires AllHarmless(pre)
    ensures STX !in pre + Body(importMilli, exportMilli) && '\0' !in pre + Body(importMilli, exportMilli)
    ensures '\0' !in Body(importMilli, exportMilli) && Body(importMilli, exportMilli) != ""
  {
    CoreIsCalm(importMilli, exportMilli);
  }

  lemma {:induction false} UnframedOk(closes: Check, block: string, tail: string)
    requires STX !in block && '\0' !in block
    ensures FrameOk(closes, block, tail)
  {
    AllVisible(block);
    NoChar(block, STX);
  }

  lemma {:induction false} FramedOk(closes: Check, pre: string, body: string, check: char)
    requires AllHarmless(pre) && '\0' !in body && closes(body, check)
    ensures FrameOk(closes, pre + [STX] + body, [ETX, check])
  {
    var s := pre + [STX] + body;
    AllVisible(s);
    assert s[..|pre|] == pre && s[|pre|] == STX;
    FindChar(s, STX, |pre|);
    assert s[|pre| + 1..] == body;
  }

  /** The counters in a block, as the reader reports them. */
  function InKwh(importMilli: nat, exportMilli: nat): Counters {
    Counters(Decimal(importMilli, -3), Decimal(exportMilli, -3))
  }

  /** An unframed block, behind harmless text, yields the meter's counters. */
  lemma {:induction false} HearsUnframed(closes: Check, pre: string, importMilli: nat, exportMilli: nat)
    requires AllHarmless(pre)
    ensures DataValue(closes, pre + Body(importMilli, exportMilli), "") == Some(InKwh(importMilli, exportMilli))
  {
    var s := pre + Body(importMilli, exportMilli);
    StopsBehindBody(pre, importMilli, exportMilli, "");
    BodyHasNo(pre, importMilli, exportMilli);
    BodyReadsBack(pre, importMilli, exportMilli);
    UnframedOk(closes, s, "");
    assert s + "" == s;
    DataValueIs(closes, s, s, "", Decimal(importMilli, -3), Decimal(exportMilli, -3));
  }

  /** And so does a framed one with the check byte that closes it. */
  lemma {:induction false} HearsClosed(closes: Check, pre: string, importMilli: nat, exportMilli: nat, check: char)
    requires AllHarmless(pre) && closes(Body(importMilli, exportMilli), check)
    ensures DataValue(closes, pre + [STX] + Body(importMilli, exportMilli) + [ETX, check], "") ==
      Some(InKwh(importMilli, exportMilli))
  {
    var body := Body(importMilli, exportMilli);
    var block := pre + [STX] + body;
    StopsBehindBody(pre + [STX], importMilli, exportMilli, [ETX, check]);
    BodyHasNo(pre, importMilli, exportMilli);
    FramedOk(closes, pre, body, check);
    BodyReadsBack(pre + [STX], importMilli, exportMilli);
    DataValueIs(closes, block + [ETX, check], block, [ETX, check], Decimal(importMilli, -3), Decimal(exportMilli, -3));
  }

  lemma {:induction false} ClosesOwn(body: string)
    ensures Closes(body, CharOf(Bcc(body + [ETX])))
  {
    BitsOfCharOf(Bcc(body + [ETX]));
    BccMore(body, ETX);
  }

  lemma {:induction false} CharsJoin(pre: string, a: string, body: string, b: char, c: char)
    ensures pre + (a + body + [b] + [c]) == pre + a + body + [b, c]
  {}

  lemma {:induction false} FrameCut(pre: string, body: string)
    ensures pre + Framed(body) == pre + [STX] + body + [ETX, CharOf(Bcc(body + [ETX]))]
  {
    CharsJoin(pre, [STX], body, ETX, CharOf(Bcc(body + [ETX])));
  }

  /** The identification alone in the air, with or without the request's echo before it. */
  lemma {:induction false} HearsIdentification(id: string, echo: string)
    requires Stop(id, "\r\n") == |id| && |id| >= 7 && (echo == "" || echo == REQUEST)
    ensures FirstLine(echo + id, "") == id && FirstRest(echo + id, "") == ""
  {
    if echo == "" {
      assert echo + id == id;
    } else {
      var s := echo + id;
      assert s == "/?!" + "\r\n" + id;
      StopsBehind("/?!", "\r\n", id);
      assert s[..5] == REQUEST && s[5..] + "" == id;
    }
    assert id[..|id|] == id && id[|id|..] == "";
  }
}

/** The optical head and the mode C reader on it. */
module Iec62056 {
  import opened Wire
  import opened IecText
  import opened ObisBlocks
  import opened IrMeters
  import opened IecReplies

  /** Text on its way, at the rate it was sent. */
  datatype Burst = Burst(rate: nat, text: string)

  function Arrival(arrivals: seq<string>, i: nat): string { if i < |arrivals| then arrivals[i] else "" }

  function LaterArrivals(arrivals: seq<string>): seq<string> { if arrivals == [] then [] else arrivals[1..] }

  /** An IR head: its rate, what it has received, and everything that may still come. A
      meter in front of it, if any, hears only what is sent at 300 baud, and is heard only
      at the rate it sends at. Whatever else the light brings -- noise, other replies --
      arrives window by window. */
  class IrHead {
    const meter: FakeIrMeter?
    const echoes: bool    // the head sees its own light
    const restarts: bool  // changing rate drops what was received
    var rate: nat
    var rx: string
    var coming: Option<Burst>
    var arrivals: seq<string>
    ghost var log: seq<Burst>

    constructor (meter: FakeIrMeter?, echoes: bool, restarts: bool, arrivals: seq<string>)
      ensures this.meter == meter && this.echoes == echoes && this.restarts == restarts
      ensures this.arrivals == arrivals && rate == START_BAUD && rx == "" && coming == None && log == []
    {
      this.meter, this.echoes, this.restarts, this.arrivals := meter, echoes, restarts, arrivals;
      rate, rx, coming, log := START_BAUD, "", None, [];
    }

    /** Everything readable by the end of the next wait. */
    function Heard(): string
      reads this
    {
      rx + (if coming.Some? && coming.value.rate == rate then coming.value.text else "") + Arrival(arrivals, 0)
    }

    /** A wait: what was on its way arrives. */
    method Wait()
      modifies this`rx, this`coming, this`arrivals
      ensures rx == old(Heard()) && coming == None && arrivals == LaterArrivals(old(arrivals))
    {
      rx := Heard();
      coming := None;
      arrivals := LaterArrivals(arrivals);
    }

    method ReadByte() returns (b: Option<char>)
      modifies this`rx
      ensures old(rx) == "" ==> b == None && rx == ""
      ensures old(rx) != "" ==> b == Some(old(rx)[0]) && rx == old(rx)[1..]
    {
      if rx == "" {
        return None;
      }
      b := Some(rx[0]);
      rx := rx[1..];
    }

    method Send(data: string)
      modifies this`rx, this`coming, this`log, meter
      ensures log == old(log) + [Burst(rate, data)]
      ensures rx == if echoes then old(rx) + data else old(rx)
      ensures meter == null ==> coming == old(coming)
      ensures meter != null && rate == START_BAUD && IsRequest(data) ==>
        && coming == Some(Burst(START_BAUD, meter.Identification())) && meter.awaitingAck
        && meter.importMilli == old(meter.importMilli) && meter.exportMilli == old(meter.exportMilli)
      ensures meter != null && rate == START_BAUD && old(meter.awaitingAck) && Acknowledges(data) ==>
        && meter.importMilli == old(meter.importMilli) + IMPORT_STEP
        && meter.exportMilli == old(meter.exportMilli) + EXPORT_STEP
        && coming == Some(Burst(BaudFromId(data[2]).value, meter.Block(meter.importMilli, meter.exportMilli)))
    {
      log := log + [Burst(rate, data)];
      if echoes {
        rx := rx + data;
      }
      if meter != null {
        if rate == START_BAUD {
          var reply, newBaud := meter.Handle(data);
          if reply.Some? {
            coming := Some(Burst(if newBaud.Some? then newBaud.value else START_BAUD, reply.value));
          }
        } else {
          meter.Reset();
        }
      }
    }

    method SetBaudRate(baud: nat)
      modifies this`rate, this`rx
      ensures rate == baud && rx == if restarts then "" else old(rx)
    {
      rate := baud;
      if restarts {
        rx := "";
      }
    }
  }

  predicate Acknowledges(data: string) {
    && |data| >= 3 && data[0] == ACK && data[1] == '0' && BaudFromId(data[2]).Some? && !IsRequest(data)
  }

  lemma {:induction false} AckAcknowledges(c: char)
    requires BaudFromId(c).Some?
    ensures Acknowledges(AckFor(c)) && AllHarmless(AckFor(c))
  {}

  lemma {:induction false} RequestIsRequest()
    ensures IsRequest(REQUEST)
  {}

  lemma {:induction false} EndsOfPrefix(a: string, b: string, terminator: string)
    ensures EndsAt(a, terminator, |a|) <==> EndsAt(a + b, terminator, |a|)
  {
    if |terminator| <= |a| {
      assert a[|a| - |terminator|..|a|] == (a + b)[|a| - |terminator|..|a|];
    }
  }

  lemma {:induction false} StopIs(s: string, terminator: string, n: nat)
    requires n <= |s| && (s != "" ==> n > 0) && (n == |s| || EndsAt(s, terminator, n))
    requires forall j :: 1 <= j < n ==> !EndsAt(s, terminator, j)
    ensures Stop(s, terminator) == n
  {
    if s != "" {
      StopFromIs(s, terminator, 1, n);
    }
  }

  /** Two characters decide about the frame. */
  lemma {:induction false} TailDecides(closes: Check, block: string, heard: string, tail: string, stx: nat)
    requires FindFrom(Visible(block), [STX], 0) == Some(stx)
    requires tail == heard[..if 2 <= |heard| then 2 else |heard|]
    ensures stx < |block|
    ensures FrameOk(closes, block, heard) <==> |tail| == 2 && tail[0] == ETX && closes(block[stx + 1..], tail[1])
  {}

  /** Everything sent since `before` left at 300 baud. */
  predicate AllAtStart(before: seq<Burst>, now: seq<Burst>) {
    before <= now && forall i :: |before| <= i < |now| ==> now[i].rate == 300
  }

  class Iec6205621Reader {
    const head: IrHead
    var currentBaud: nat
    var cachedExport: Decimal
    var exportValid: bool
    /** What every get_import() since power-up took from the meter, if it took anything. */
    ghost var taken: seq<Option<Counters>>

    constructor (head: IrHead)
      ensures this.head == head && currentBaud == 0 && taken == [] && Cached()
    {
      this.head, currentBaud, cachedExport, exportValid := head, 0, Decimal(0, 0), false;
      taken := [];
    }

    /** The cache holds the export reading of the last get_import(), if that succeeded. */
    ghost predicate Cached()
      reads this
    {
      && (exportValid <==> taken != [] && taken[|taken| - 1].Some?)
      && (exportValid ==> cachedExport == taken[|taken| - 1].value.exported)
    }

    /** init(), on a head just brought up. */
    method Init()
      requires head.rate == START_BAUD
      modifies this`currentBaud
      ensures Tracks()
    {
      currentBaud := START_BAUD;
    }

    /** The reader knows its head's rate. */
    ghost predicate Tracks()
      reads this, head
    {
      currentBaud == head.rate
    }

    /** Nothing but a meter it can use in front of the head. */
    ghost predicate Linked()
      reads this, head, head.meter
    {
      && Tracks() && head.meter != null && head.meter.Identifiable()
      && head.coming == None && head.arrivals == []
    }

    /** readUntil()'s loop, over everything that arrives in time. */
    method ReadOn(terminator: string, ghost heard: string) returns (result: string)
      requires head.rx == heard
      modifies head`rx
      ensures result + head.rx == heard && (head.rx == "" || EndsAt(heard, terminator, |result|))
      ensures heard != "" ==> result != ""
      ensures forall j :: 1 <= j < |result| ==> !EndsAt(heard, terminator, j)
    {
      result := "";
      while true
        invariant result + head.rx == heard
        invariant forall j :: 1 <= j <= |result| ==> !EndsAt(heard, terminator, j)
        decreases |head.rx|
      {
        var b := head.ReadByte();
        if b.None? {
          return;
        }
        result := result + [b.value];
        EndsOfPrefix(result, head.rx, terminator);
        if EndsAt(result, terminator, |result|) {
          return;
        }
      }
    }

    /** readUntil(): everything up to the terminator, or all there is in time. */
    method ReadUntil(terminator: string) returns (result: string)
      modifies head`rx, head`coming, head`arrivals
      ensures var heard := old(head.Heard());
        result == heard[..Stop(heard, terminator)] && head.rx == heard[Stop(heard, terminator)..]
      ensures head.coming == None && head.arrivals == LaterArrivals(old(head.arrivals))
    {
      head.Wait();
      ghost var heard := head.rx;
      result := ReadOn(terminator, heard);
      StopIs(heard, terminator, |result|);
      assert heard[..|result|] == result && heard[|result|..] == head.rx;
    }

    /** readBytes() */
    method ReadBytes(count: nat) returns (out: string)
      modifies head`rx, head`coming, head`arrivals
      ensures var heard := old(head.Heard());
        var n := if count <= |heard| then count else |heard|;
        out == heard[..n] && head.rx == heard[n..]
      ensures head.coming == None && head.arrivals == LaterArrivals(old(head.arrivals))
    {
      head.Wait();
      ghost var heard := head.rx;
      out := "";
      while |out| < count
        invariant out + head.rx == heard && |out| <= count
        invariant head.coming == None && head.arrivals == LaterArrivals(old(head.arrivals))
        decreases count - |out|
      {
        var b := head.ReadByte();
        if b.None? {
          break;
        }
        out := out + [b.value];
      }
    }

    /** checkFrame()'s accumulator, over the text behind STX and the ETX that closes it. */
    method CheckByte(block: string, start: nat) returns (bcc: Byte)
      requires start <= |block|
      ensures bcc == Bcc(block[start..]) ^ Bits(ETX)
    {
      bcc := 0;
      for i := start to |block|
        invariant bcc == Bcc(block[start..i])
      {
        assert block[start..i + 1] == block[start..i] + [block[i]];
        BccMore(block[start..i], block[i]);
        bcc := bcc ^ Bits(block[i]);
      }
      assert block[start..|block|] == block[start..];
      bcc := bcc ^ Bits(ETX);
    }

    /** checkFrame() once the block's tail has been read. */
    method CheckTail(block: string, stx: nat, tail: string) returns (ok: bool)
      requires stx < |block|
      ensures ok <==> |tail| == 2 && tail[0] == ETX && Closes(block[stx + 1..], tail[1])
    {
      if |tail| != 2 || tail[0] != ETX {
        return false;
      }
      var bcc := CheckByte(block, stx + 1);
      ClosesIff(block[stx + 1..], bcc, tail[1]);
      ok := bcc == Bits(tail[1]);
    }

    /** checkFrame(): lets through exactly the unframed blocks and those whose ETX and
        check byte follow. */
    method CheckFrame(block: string) returns (ok: bool)
      modifies head`rx, head`coming, head`arrivals
      ensures ok <==> FrameOk(Closes, block, old(head.Heard()))
      ensures FindFrom(Visible(block), [STX], 0).None? ==>
        head.rx == old(head.rx) && head.coming == old(head.coming) && head.arrivals == old(head.arrivals)
      ensures FindFrom(Visible(block), [STX], 0).Some? ==>
        && head.coming == None && head.arrivals == LaterArrivals(old(head.arrivals))
        && head.rx == old(head.Heard())[if |old(head.Heard())| < 2 then |old(head.Heard())| else 2..]
    {
      var stx := FindFrom(Visible(block), [STX], 0);
      if stx.None? {
        return true;
      }
      ghost var heard := head.Heard();
      var tail := ReadBytes(2);
      ok := CheckTail(block, stx.value, tail);
      TailDecides(Closes, block, heard, tail, stx.value);
    }

    // -------------------------------------------------------------- the session

    /** Empties what has been received. */
    method Drain()
      modifies head`rx
      ensures head.rx == ""
    {
      while true
        decreases |head.rx|
      {
        var b := head.ReadByte();
        if b.None? {
          break;
        }
      }
    }

    /** The first half of requestIdentification(): back to 300 baud, a clean receiver, and
        the request. */
    method AskForIdentification()
      requires Tracks()
      modifies this`currentBaud, head`rate, head`rx, head`coming, head`log, head.meter
      ensures Tracks() && head.rate == START_BAUD && head.log == old(head.log) + [Burst(START_BAUD, REQUEST)]
      ensures head.rx == if head.echoes then REQUEST else ""
      ensures head.meter == null ==> head.coming == old(head.coming)
      ensures head.meter != null ==>
        && head.coming == Some(Burst(START_BAUD, head.meter.Identification())) && head.meter.awaitingAck
        && head.meter.importMilli == old(head.meter.importMilli)
        && head.meter.exportMilli == old(head.meter.exportMilli)
    {
      if currentBaud != START_BAUD {
        head.SetBaudRate(START_BAUD);
        currentBaud := START_BAUD;
      }
      Drain();
      RequestIsRequest();
      head.Send(REQUEST);
      assert "" + REQUEST == REQUEST;
    }

    /** The second half: one line, or two when the first is the request's echo. */
    method ReadIdentification() returns (id: string)
      modifies head`rx, head`coming, head`arrivals
      ensures id == FirstLine(old(head.Heard()), Arrival(old(head.arrivals), 1))
      ensures head.rx == FirstRest(old(head.Heard()), Arrival(old(head.arrivals), 1))
      ensures head.coming == None && (old(head.arrivals) == [] ==> head.arrivals == [])
    {
      ghost var heard, arrivals := head.Heard(), head.arrivals;
      id := ReadUntil("\r\n");
      if id == REQUEST {
        assert Arrival(head.arrivals, 0) == Arrival(arrivals, 1);
        assert head.Heard() == heard[Stop(heard, "\r\n")..] + Arrival(arrivals, 1);
        id := ReadUntil("\r\n");
      }
    }

    /** baudRateFromId() */
    method RateFor(code: char) returns (baud: Option<nat>)
      ensures baud == BaudFromId(code)
    {
      match code {
        case '0' => baud := Some(300);
        case '1' => baud := Some(600);
        case '2' => baud := Some(1200);
        case '3' => baud := Some(2400);
        case '4' => baud := Some(4800);
        case '5' => baud := Some(9600);
        case '6' => baud := Some(19200);
        case _ => baud := None;
      }
    }

    /** requestIdentification()'s checks. */
    method CheckIdentification(id: string) returns (code: int, offered: nat)
      ensures code == IdCode(id)
      ensures code == 0 ==> |id| >= 7 && BaudFromId(id[4]) == Some(offered)
    {
      offered := 0;
      if |id| == 0 {
        return -1, offered;
      }
      if |id| < 7 || id[0] != '/' {
        return -2, offered;
      }
      var baud := RateFor(id[4]);
      if baud.None? {
        return -3, offered;
      }
      return 0, baud.value;
    }

    /** requestIdentification(): whatever comes back, the verdict is on the first line
        heard; a linked meter always identifies itself. */
    method RequestIdentification() returns (code: int, id: string, offered: nat)
      requires Tracks()
      modifies this`currentBaud, head, head.meter
      ensures Tracks() && head.rate == 300 && head.log == old(head.log) + [Burst(300, "/?!\r\n")]
      ensures code == IdCode(id) && (code == 0 ==> |id| >= 7 && BaudFromId(id[4]) == Some(offered))
      ensures head.meter == null && old(head.coming) == None ==>
        id == FirstLine((if head.echoes then REQUEST else "") + Arrival(old(head.arrivals), 0),
                        Arrival(old(head.arrivals), 1))
      ensures old(Linked()) ==>
        && Linked() && code == 0 && id == head.meter.Identification()
        && head.meter.awaitingAck && head.rx == ""
      ensures old(Linked()) ==>
        head.meter.importMilli == old(head.meter.importMilli) && head.meter.exportMilli == old(head.meter.exportMilli)
    {
      AskForIdentification();
      ghost var heard, echo := head.Heard(), if head.echoes then REQUEST else "";
      assert echo + "" == echo;
      id := ReadIdentification();
      code, offered := CheckIdentification(id);
      if old(Linked()) {
        IdentificationHeard(head.meter, heard, echo);
      }
    }

    /** A meter's identification is what the reader makes of hearing it. */
    lemma {:induction false} IdentificationHeard(meter: FakeIrMeter, heard: string, echo: string)
      requires meter.Identifiable() && heard == echo + meter.Identification() + "" && (echo == "" || echo == REQUEST)
      ensures FirstLine(heard, "") == meter.Identification() && FirstRest(heard, "") == ""
      ensures IdCode(meter.Identification()) == 0
    {
      var id := meter.Identification();
      assert id[4] == meter.baudId[0];
      HearsIdentification(id, echo);
      assert heard == echo + id;
    }

    /** The end of handshake(): the ACK at 300 baud, and only then the new rate. */
    method Acknowledge(c: char, negotiated: nat)
      requires Tracks() && head.rate == START_BAUD && BaudFromId(c) == Some(negotiated)
      modifies this`currentBaud, head`rate, head`rx, head`coming, head`log, head.meter
      ensures Tracks() && head.rate == negotiated && head.log == old(head.log) + [Burst(START_BAUD, AckFor(c))]
      ensures old(Linked()) && old(head.meter.awaitingAck) && old(head.rx) == "" ==> Answered()
      ensures old(Linked()) && old(head.meter.awaitingAck) ==>
        && head.meter.importMilli == old(head.meter.importMilli) + IMPORT_STEP
        && head.meter.exportMilli == old(head.meter.exportMilli) + EXPORT_STEP
    {
      AckAcknowledges(c);
      head.Send(AckFor(c));
      assert "" + AckFor(c) == AckFor(c);
      head.SetBaudRate(negotiated);
      currentBaud := negotiated;
    }

    /** The log of a session that got as far as its ACK. */
    ghost predicate Acknowledged(before: seq<Burst>, now: seq<Burst>, negotiated: nat) {
      exists c :: BaudFromId(c) == Some(negotiated)
             && now == before + [Burst(300, "/?!\r\n"), Burst(300, [6 as char, '0', c, '0', '\r', '\n'])]
    }

    /** handshake(): whatever comes back, it sends the request, then at most one ACK for a
        rate the meter offered, both at 300 baud. */
    method Handshake() returns (code: int, negotiated: nat)
      requires Tracks()
      modifies this`currentBaud, head, head.meter
      ensures Tracks()
      ensures code != 0 ==> head.rate == 300 && head.log == old(head.log) + [Burst(300, "/?!\r\n")]
      ensures code == 0 ==> head.rate == negotiated && Acknowledged(old(head.log), head.log, negotiated)
      ensures old(Linked()) ==> code == 0 && Answered()
      ensures old(Linked()) ==>
        && head.meter.importMilli == old(head.meter.importMilli) + IMPORT_STEP
        && head.meter.exportMilli == old(head.meter.exportMilli) + EXPORT_STEP
    {
      var id;
      code, id, negotiated := RequestIdentification();
      if code != 0 {
        return;
      }
      Acknowledge(id[4], negotiated);
      assert head.log == old(head.log) + [Burst(START_BAUD, REQUEST), Burst(START_BAUD, AckFor(id[4]))];
    }

    /** The meter's data block is in the air at the head's rate, and nothing but harmless
        text waits before it. */
    ghost predicate Answered()
      reads this, head, head.meter
    {
      && Tracks() && head.meter != null && head.meter.Identifiable() && head.arrivals == [] && AllHarmless(head.rx)
      && head.coming == Some(Burst(head.rate, head.meter.Block(head.meter.importMilli, head.meter.exportMilli)))
    }

    /** get_import() after its handshake: takes from the text heard exactly what it is
        worth. */
    method ReadData() returns (value: Option<Counters>)
      modifies head`rx, head`coming, head`arrivals
      ensures value == DataValue(Closes, old(head.Heard()), Arrival(old(head.arrivals), 1))
      ensures head.coming == None && (old(head.arrivals) == [] ==> head.arrivals == [])
    {
      ghost var heard, arrivals := head.Heard(), head.arrivals;
      var block := ReadUntil("!\r\n");
      assert Arrival(head.arrivals, 0) == Arrival(arrivals, 1);
      ghost var tail := heard[Stop(heard, "!\r\n")..];
      assert head.Heard() == tail + "" + Arrival(arrivals, 1) && tail + "" == tail;
      if |block| == 0 {
        return None;
      }
      var framed := CheckFrame(block);
      if !framed {
        return None;
      }
      var imported := ObisValue(block, IMPORT);
      var exported := ObisValue(block, EXPORT);
      if imported.None? || exported.None? {
        return None;
      }
      return Some(Counters(imported.value, exported.value));
    }

    /** get_import() from its ACK on. */
    method TakeCounters(was: Decimal) returns (ok: bool, val: Decimal)
      requires Tracks() && !exportValid
      modifies this`cachedExport, this`exportValid, head`rx, head`coming, head`arrivals
      ensures exportValid == ok && head.coming == None && (old(head.arrivals) == [] ==> head.arrivals == [])
      ensures var value := DataValue(Closes, old(head.Heard()), Arrival(old(head.arrivals), 1));
        && (ok <==> value.Some?)
        && val == (if ok then value.value.imported else was)
        && (ok ==> cachedExport == value.value.exported)
    {
      var value := ReadData();
      if value.None? {
        return false, was;
      }
      val := value.value.imported;
      cachedExport := value.value.exported;
      exportValid := true;
      ok := true;
    }

    /** What hangs in the air after a handshake with a meter. */
    lemma {:induction false} AnsweredHeard()
      requires Answered()
      ensures DataValue(Closes, head.Heard(), Arrival(head.arrivals, 1)) ==
        Some(InKwh(head.meter.importMilli, head.meter.exportMilli))
    {
      BlockHeard(head.meter, head.rx);
    }

    /** get_import(): a failure leaves the caller's value alone and the export reading
        invalid; a linked meter is always read, and it is its current counters. */
    method GetImport(was: Decimal) returns (ok: bool, val: Decimal)
      requires Tracks()
      modifies this`currentBaud, this`cachedExport, this`exportValid, this`taken, head, head.meter
      ensures Tracks() && Cached() && AllAtStart(old(head.log), head.log)
      ensures |taken| == |old(taken)| + 1 && taken[..|old(taken)|] == old(taken)
      ensures ok <==> taken[|old(taken)|].Some?
      ensures val == if ok then taken[|old(taken)|].value.imported else was
      ensures old(Linked()) ==> Linked() && ok
      ensures old(Linked()) ==>
        && head.meter.importMilli == old(head.meter.importMilli) + IMPORT_STEP
        && head.meter.exportMilli == old(head.meter.exportMilli) + EXPORT_STEP
        && taken[|old(taken)|] == Some(InKwh(head.meter.importMilli, head.meter.exportMilli))
    {
      exportValid := false;
      var code, negotiated := Handshake();
      if code != 0 {
        taken := taken + [None];
        return false, was;
      }
      if old(Linked()) {
        AnsweredHeard();
      }
      ok, val := TakeCounters(was);
      taken := taken + [if ok then Some(Counters(val, cachedExport)) else None];
    }

    /** A meter's block is worth its counters, framed or not. */
    lemma {:induction false} BlockHeard(meter: FakeIrMeter, pre: string)
      requires AllHarmless(pre)
      ensures DataValue(Closes, pre + meter.Block(meter.importMilli, meter.exportMilli) + "", "") ==
        Some(InKwh(meter.importMilli, meter.exportMilli))
    {
      var i, e := meter.importMilli, meter.exportMilli;
      assert pre + meter.Block(i, e) + "" == pre + meter.Block(i, e);
      if meter.framed {
        FrameCut(pre, Body(i, e));
        ClosesOwn(Body(i, e));
        HearsClosed(Closes, pre, i, e, CharOf(Bcc(Body(i, e) + [ETX])));
      } else {
        HearsUnframed(Closes, pre, i, e);
      }
    }

    /** get_export(): after any calls whatever, the export reading of the last
        get_import(), exactly when there was one and it succeeded. */
    method GetExport(was: Decimal) returns (ok: bool, val: Decimal)
      requires Cached()
      ensures ok <==> taken != [] && taken[|taken| - 1].Some?
      ensures val == if ok then taken[|taken| - 1].value.exported else was
    {
      if !exportValid {
        return false, was;
      }
      return true, cachedExport;
    }

    /** probe(): one request, no ACK, and the rate stays at 300. */
    method Probe() returns (ok: bool)
      requires Tracks()
      modifies this`currentBaud, head, head.meter
      ensures Tracks() && head.rate == 300 && head.log == old(head.log) + [Burst(300, "/?!\r\n")]
      ensures old(Linked()) ==> Linked() && ok
      ensures old(Linked()) ==>
        head.meter.importMilli == old(head.meter.importMilli) && head.meter.exportMilli == old(head.meter.exportMilli)
    {
      var code, id, offered := RequestIdentification();
      if |id| > 0 {
        head.Wait();
        Drain();
      }
      ok := code == 0;
    }
  }

  // ------------------------------------------------------------ any sequence of calls

  datatype Call = CallProbe | CallImport

  datatype Outcome = Probed(ok: bool) | Read(ok: bool, imported: Decimal, exported: Decimal)

  /** What the calls return against a meter whose counters start at i and e: every probe
      succeeds, and the k-th read returns the counters after k steps of 0.1 and 0.05 kWh. */
  function Expected(calls: seq<Call>, i: nat, e: nat): (r: seq<Outcome>)
    ensures |r| == |calls|
    decreases |calls|
  {
    if calls == [] then []
    else
      var n := |calls| - 1;
      var k := Reads(calls);
      Expected(calls[..n], i, e)
      + [if calls[n] == CallProbe then Probed(true)
         else Read(true, Decimal(i + k * 100, -3), Decimal(e + k * 50, -3))]
  }

  function Reads(calls: seq<Call>): nat {
    if calls == [] then 0 else Reads(calls[..|calls| - 1]) + (if calls[|calls| - 1] == CallImport then 1 else 0)
  }

  /** Any calls in any order against a meter in front of the head: all succeed, and every
      read returns the meter's counters of that moment. */
  method Serve(reader: Iec6205621Reader, calls: seq<Call>) returns (outcomes: seq<Outcome>)
    requires reader.Linked()
    modifies reader`currentBaud, reader`cachedExport, reader`exportValid, reader`taken, reader.head, reader.head.meter
    ensures reader.Linked() && AllAtStart(old(reader.head.log), reader.head.log)
    ensures outcomes == Expected(calls, old(reader.head.meter.importMilli), old(reader.head.meter.exportMilli))
  {
    ghost var i, e := reader.head.meter.importMilli, reader.head.meter.exportMilli;
    outcomes := [];
    for n := 0 to |calls|
      invariant reader.Linked() && AllAtStart(old(reader.head.log), reader.head.log)
      invariant outcomes == Expected(calls[..n], i, e)
      invariant reader.head.meter.importMilli == i + Reads(calls[..n]) * IMPORT_STEP
      invariant reader.head.meter.exportMilli == e + Reads(calls[..n]) * EXPORT_STEP
    {
      assert calls[..n + 1][..n] == calls[..n];
      var outcome := Once(reader, calls[n]);
      outcomes := outcomes + [outcome];
    }
    assert calls[..|calls|] == calls;
  }

  /** One call, and for a read the get_export() that follows it. */
  method Once(reader: Iec6205621Reader, call: Call) returns (outcome: Outcome)
    requires reader.Linked()
    modifies reader`currentBaud, reader`cachedExport, reader`exportValid, reader`taken, reader.head, reader.head.meter
    ensures reader.Linked() && AllAtStart(old(reader.head.log), reader.head.log)
    ensures call == CallProbe ==>
      && outcome == Probed(true)
      && reader.head.meter.importMilli == old(reader.head.meter.importMilli)
      && reader.head.meter.exportMilli == old(reader.head.meter.exportMilli)
    ensures call == CallImport ==>
      && reader.head.meter.importMilli == old(reader.head.meter.importMilli) + IMPORT_STEP
      && reader.head.meter.exportMilli == old(reader.head.meter.exportMilli) + EXPORT_STEP
      && outcome == Read(true, Decimal(reader.head.meter.importMilli, -3), Decimal(reader.head.meter.exportMilli, -3))
  {
    match call {
      case CallProbe =>
        var ok := reader.Probe();
        outcome := Probed(ok);
      case CallImport =>
        var ok, imported := reader.GetImport(Decimal(0, 0));
        var valid, exported := reader.GetExport(Decimal(0, 0));
        outcome := Read(ok && valid, imported, exported);
    }
  }
}
