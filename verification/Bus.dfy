/** A half-duplex serial bus, as its readers see it. */
module Buses {
  import opened Wire

  /** What becomes of one request: None when the send fails, otherwise every byte the
      line delivers before the reader gives up. Any bytes at all may come back. */
  type Turn = Option<seq<Byte>>

  class Bus {
    /** The far end: what becomes of a request, given every request so far, itself
        included. It may be noise, a script, or a meter with a state of its own. */
    const answers: seq<seq<Byte>> -> Turn
    var line: seq<Byte>       // bytes still to be delivered for the last request
    var sent: seq<seq<Byte>>  // every request so far, sent or not

    constructor (answers: seq<seq<Byte>> -> Turn)
      ensures this.answers == answers && line == [] && sent == []
    {
      this.answers, line, sent := answers, [], [];
    }

    /** What became of the last request. */
    function LastTurn(): Turn
      reads `sent
    {
      answers(sent)
    }

    /** Sp3485::send(): drops what was received before it sends. */
    method Send(data: seq<Byte>) returns (ok: bool)
      modifies this
      ensures sent == old(sent) + [data]
      ensures ok <==> LastTurn().Some?
      ensures line == if ok then LastTurn().value else []
    {
      sent := sent + [data];
      var turn := LastTurn();
      line := if turn.Some? then turn.value else [];
      ok := turn.Some?;
    }
  }
}
