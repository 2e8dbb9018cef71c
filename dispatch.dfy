/**
 * How a parsed response is routed for display by its command byte: 80 (0x50)
 * selects the measurement fields, 81 (0x51) the info fields with the derived
 * temperature and humidity, and any other byte selects nothing. Routing looks
 * only at the command byte, not at which layout produced the record.
 */
module Dispatch {
  import opened Wrappers
  import opened Wire
  import opened Codec
  import opened Environment

  /** The two kinds of query and response. */
  datatype Kind = MeasurementKind | InfoKind

  /** A response parsed with one of the two layouts. */
  datatype Record = MeasurementRecord(m: Measurement) | InfoRecord(i: Info)

  /** What displaying a record yields. */
  datatype Shown =
    | ShowMeasurement(m: Measurement)
    | ShowInfo(info: Info, temperature: Celsius, humidity: int)
    | ShowNothing
      /** The command byte selects fields that the record's layout does not have. */
    | MissingAttribute

  /** The request byte that queries a kind. */
  function RequestCode(k: Kind): byte
  {
    match k
    case MeasurementKind => QueryMeasurement
    case InfoKind => QueryInfo
  }

  /** The kind a command byte selects, if any. */
  function Classify(command: int): (k: Option<Kind>)
    ensures k.Some? ==> command == RequestCode(k.value) as int
  {
    if command == 80 then Some(MeasurementKind)
    else if command == 81 then Some(InfoKind)
    else None
  }

  /** The kind of layout that produced a record. */
  function KindOf(r: Record): Kind
  {
    if r.MeasurementRecord? then MeasurementKind else InfoKind
  }

  /** The leading command byte of a record. */
  function CommandOf(r: Record): u8
  {
    match r
    case MeasurementRecord(m) => m.command
    case InfoRecord(i) => i.command
  }

  /** Display routing of one record. */
  function Present(r: Record): (s: Shown)
    ensures s.ShowNothing? <==> Classify(CommandOf(r)).None?
    ensures s.MissingAttribute? <==> Classify(CommandOf(r)).Some? && Classify(CommandOf(r)).value != KindOf(r)
    ensures s.ShowMeasurement? ==> r == MeasurementRecord(s.m)
    ensures s.ShowInfo? ==> r == InfoRecord(s.info)
    ensures s.ShowInfo? ==>
      0 <= s.temperature.Halves() < 512 && 0 <= s.humidity < 128 &&
      Pack(s.temperature.Halves(), s.humidity) == s.info.tempAndHum
  {
    match Classify(CommandOf(r))
    case Some(MeasurementKind) =>
      if r.MeasurementRecord? then ShowMeasurement(r.m) else MissingAttribute
    case Some(InfoKind) =>
      if r.InfoRecord? then
        PackUnpack(r.i.tempAndHum);
        ShowInfo(r.i, Temperature(r.i.tempAndHum), Humidity(r.i.tempAndHum))
      else MissingAttribute
    case None => ShowNothing
  }

  /** Classify inverts RequestCode: a request byte selects its own kind, and only request bytes select one. */
  lemma ClassifyInvertsRequestCode(k: Kind, command: int)
    ensures Classify(RequestCode(k)) == Some(k)
    ensures Classify(command).Some? <==> command == QueryMeasurement || command == QueryInfo
    ensures Classify(command).Some? ==> RequestCode(Classify(command).value) == command
  {
  }

  /** A buffer parsed as a measurement is shown as that measurement exactly when it starts with 0x50. */
  lemma PresentParsedMeasurement(buf: seq<byte>)
    requires ParseMeasurement(buf).Success?
    ensures Present(MeasurementRecord(ParseMeasurement(buf).value))
      == if buf[0] == QueryMeasurement then ShowMeasurement(ParseMeasurement(buf).value)
         else if buf[0] == QueryInfo then MissingAttribute
         else ShowNothing
  {
  }

  /** A buffer parsed as info is shown with its derived readings exactly when it starts with 0x51. */
  lemma PresentParsedInfo(buf: seq<byte>)
    requires ParseInfo(buf).Success?
    ensures var i := ParseInfo(buf).value;
      Present(InfoRecord(i))
      == if buf[0] == QueryInfo then ShowInfo(i, Temperature(i.tempAndHum), Humidity(i.tempAndHum))
         else if buf[0] == QueryMeasurement then MissingAttribute
         else ShowNothing
  {
  }
}
