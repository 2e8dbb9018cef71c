/**
 * One query cycle over a connected link: request the measurements (0x50),
 * read and parse the reply with the measurement layout, then request the
 * info (0x51), read and parse the reply with the info layout. Any failed
 * write, failed read or failed parse ends the cycle with no readings.
 */
module Session {
  import opened Wrappers
  import opened Wire
  import opened Codec
  import opened Transport

  /** Where a cycle stands. */
  datatype Phase = Idle | AwaitMeasurement | AwaitInfo | Complete | Failed

  /** Why a cycle ended without readings, naming the request being served. */
  datatype CycleError =
    | WriteFailed(command: byte)
    | ReadFailed(command: byte)
    | ParseFailed(command: byte, error: ParseError)

  /** The two records a completed cycle yields. */
  datatype Readings = Readings(measurement: Measurement, info: Info)

  /** What a cycle did on the link, where it stopped, and what it yields. */
  datatype Cycle = Cycle(ops: seq<Op>, phase: Phase, outcome: Result<Readings, CycleError>)

  /** The four operations of a full cycle, in order. */
  const Exchange: seq<Op> := [WriteOp(Control, [QueryMeasurement]), ReadOp(Readout),
                              WriteOp(Control, [QueryInfo]), ReadOp(Readout)]

  /** Whether the k-th write of a script is accepted. */
  function Accepted(writeOk: seq<bool>, k: nat): bool
  {
    k < |writeOk| && writeOk[k]
  }

  /** What the k-th read of a script returns. */
  function Reply(replies: seq<Option<seq<byte>>>, k: nat): Option<seq<byte>>
  {
    if k < |replies| then replies[k] else None
  }

  /** The script with its first n entries used up. */
  function Drop<T>(s: seq<T>, n: nat): seq<T>
  {
    if n < |s| then s[n..] else []
  }

  /** The prefixes of the exchange, written out. */
  lemma ExchangePrefixes()
    ensures Exchange[..1] == [WriteOp(Control, [QueryMeasurement])]
    ensures Exchange[..2] == [WriteOp(Control, [QueryMeasurement]), ReadOp(Readout)]
    ensures Exchange[..3] == [WriteOp(Control, [QueryMeasurement]), ReadOp(Readout), WriteOp(Control, [QueryInfo])]
  {
  }

  /** The cycle a script of device behaviour produces. */
  function QueryCycle(writeOk: seq<bool>, replies: seq<Option<seq<byte>>>): (c: Cycle)
    ensures c.phase == Complete || c.phase == Failed
    ensures c.outcome.Success? <==> c.phase == Complete
  {
    if !Accepted(writeOk, 0) then
      Cycle(Exchange[..1], Failed, Failure(WriteFailed(QueryMeasurement)))
    else if Reply(replies, 0).None? then
      Cycle(Exchange[..2], Failed, Failure(ReadFailed(QueryMeasurement)))
    else match ParseMeasurement(Reply(replies, 0).value)
      case Failure(e) => Cycle(Exchange[..2], Failed, Failure(ParseFailed(QueryMeasurement, e)))
      case Success(m) =>
        if !Accepted(writeOk, 1) then
          Cycle(Exchange[..3], Failed, Failure(WriteFailed(QueryInfo)))
        else if Reply(replies, 1).None? then
          Cycle(Exchange, Failed, Failure(ReadFailed(QueryInfo)))
        else match ParseInfo(Reply(replies, 1).value)
          case Failure(e) => Cycle(Exchange, Failed, Failure(ParseFailed(QueryInfo, e)))
          case Success(i) => Cycle(Exchange, Complete, Success(Readings(m, i)))
  }

  /**
   * Run one query cycle on a link. The operations it issues, the phase it
   * ends in and what it yields are those of QueryCycle on the link's script;
   * the script is used up by one entry per write and per read.
   */
  method RunQueryCycle(link: Link) returns (phase: Phase, outcome: Result<Readings, CycleError>)
    modifies link
    ensures var c := QueryCycle(old(link.writeOk), old(link.replies));
      link.log == old(link.log) + c.ops && phase == c.phase && outcome == c.outcome &&
      link.writeOk == Drop(old(link.writeOk), (|c.ops| + 1) / 2) &&
      link.replies == Drop(old(link.replies), |c.ops| / 2)
  {
    ExchangePrefixes();
    phase := Idle;

    // Get the measurements.
    var valueToSend := [QueryMeasurement];
    var ok := link.Write(Control, valueToSend);
    if !ok {
      return Failed, Failure(WriteFailed(QueryMeasurement));
    }
    phase := AwaitMeasurement;
    var result := link.Read(Readout);
    if result.None? {
      return Failed, Failure(ReadFailed(QueryMeasurement));
    }
    var measurement := ParseMeasurement(result.value);
    if measurement.Failure? {
      return Failed, Failure(ParseFailed(QueryMeasurement, measurement.error));
    }

    // Get the info.
    valueToSend := [QueryInfo];
    ok := link.Write(Control, valueToSend);
    if !ok {
      return Failed, Failure(WriteFailed(QueryInfo));
    }
    phase := AwaitInfo;
    result := link.Read(Readout);
    if result.None? {
      return Failed, Failure(ReadFailed(QueryInfo));
    }
    var info := ParseInfo(result.value);
    if info.Failure? {
      return Failed, Failure(ParseFailed(QueryInfo, info.error));
    }
    phase := Complete;
    outcome := Success(Readings(measurement.value, info.value));
  }

  // ---------------------------------------------------------------------------
  // Properties of a cycle
  // ---------------------------------------------------------------------------

  /**
   * A cycle issues a non-empty prefix of the exchange: writes and reads
   * alternate, starting with a write, and the writes are 0x50 then 0x51.
   */
  lemma QueryCycleOrder(writeOk: seq<bool>, replies: seq<Option<seq<byte>>>)
    ensures var c := QueryCycle(writeOk, replies);
      1 <= |c.ops| <= 4 && c.ops == Exchange[..|c.ops|] &&
      forall j :: 0 <= j < |c.ops| ==>
        (c.ops[j].WriteOp? <==> j % 2 == 0) &&
        (c.ops[j].WriteOp? ==> c.ops[j] == WriteOp(Control, [if j == 0 then QueryMeasurement else QueryInfo])) &&
        (c.ops[j].ReadOp? ==> c.ops[j] == ReadOp(Readout))
  {
  }

  /** The info request is written exactly when the measurement request was accepted and its reply parsed. */
  lemma QueryCycleSecondWrite(writeOk: seq<bool>, replies: seq<Option<seq<byte>>>)
    ensures var c := QueryCycle(writeOk, replies);
      WriteOp(Control, [QueryInfo]) in c.ops <==>
        Accepted(writeOk, 0) && Reply(replies, 0).Some? &&
        ParseMeasurement(Reply(replies, 0).value).Success?
  {
    ExchangePrefixes();
    assert [QueryMeasurement] != [QueryInfo];
  }

  /**
   * A cycle yields readings exactly when both writes were accepted and both
   * replies arrived and parsed, and then yields exactly those two parses;
   * otherwise it ends Failed and yields nothing.
   */
  lemma QueryCycleAllOrNothing(writeOk: seq<bool>, replies: seq<Option<seq<byte>>>)
    ensures var c := QueryCycle(writeOk, replies);
      (c.phase == Complete || c.phase == Failed) &&
      (c.outcome.Success? <==> c.phase == Complete) &&
      (c.outcome.Success? <==>
        Accepted(writeOk, 0) && Accepted(writeOk, 1) &&
        Reply(replies, 0).Some? && Reply(replies, 1).Some? &&
        ParseMeasurement(Reply(replies, 0).value).Success? &&
        ParseInfo(Reply(replies, 1).value).Success?) &&
      (c.outcome.Success? ==>
        c.outcome.value == Readings(ParseMeasurement(Reply(replies, 0).value).value,
                                    ParseInfo(Reply(replies, 1).value).value))
  {
  }

  /**
   * The command byte is not checked: a second reply of 14 or more bytes that
   * starts with 0x50 is still taken as the info record.
   */
  lemma QueryCycleAcceptsMismatchedTag(first: seq<byte>, second: seq<byte>)
    requires |first| >= MeasurementSize && |second| >= InfoSize && second[0] == QueryMeasurement
    ensures var c := QueryCycle([true, true], [Some(first), Some(second)]);
      c.phase == Complete && c.outcome.Success? && c.outcome.value.info.command == QueryMeasurement
  {
  }
}
