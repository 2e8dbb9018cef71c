/**
 * The RD200 (P2) response codec: the protocol's command bytes and the two fixed
 * little-endian response layouts (the measurement response and the info
 * response), with their encodings. The combined temperature/humidity field of
 * the info response is unpacked in Environment.
 */
module Codec {
  import opened Wrappers
  import opened Wire

  /** Command byte of the "query measurements" request. */
  const QueryMeasurement: byte := 0x50
  /** Command byte of the "query info" request. */
  const QueryInfo: byte := 0x51

  /** Bytes in the measurement layout: two u8 header fields and eight u16 fields. */
  const MeasurementSize: nat := 18
  /** Bytes in the info layout: four u8, two u32 and one u16 field. */
  const InfoSize: nat := 14

  /** The decoded measurement response, field for field in wire order. */
  datatype Measurement = Measurement(
    command: u8,
    totalMsgSize: u8,
    measurement: u16,
    avgDay: u16,
    avg2Day: u16,
    avgWeek: u16,
    avgMonth: u16,
    valuePeak: u16,
    pulseCount: u16,
    pulseCount10m: u16)

  /** The decoded info response, field for field in wire order. */
  datatype Info = Info(
    command: u8,
    totalMsgSize: u8,
    deviceStatus: u8,
    vibStatus: u8,
    procTime: u32,
    dcValue: u32,
    tempAndHum: u16)

  /** The buffer ended before the layout did. */
  datatype ParseError = Truncated(expected: nat, actual: nat)

  /** The eight u16 fields of a measurement, in wire order. */
  function Counts(m: Measurement): seq<u16>
  {
    [m.measurement, m.avgDay, m.avg2Day, m.avgWeek,
     m.avgMonth, m.valuePeak, m.pulseCount, m.pulseCount10m]
  }

  // ---------------------------------------------------------------------------
  // Parsing (the layouts applied to a read buffer)
  // ---------------------------------------------------------------------------

  /**
   * Parse a buffer with the measurement layout. The command byte is not
   * checked; bytes after the layout are ignored.
   */
  function ParseMeasurement(buf: seq<byte>): (r: Result<Measurement, ParseError>)
    ensures r.Success? <==> |buf| >= MeasurementSize
    ensures r.Failure? ==> r.error == Truncated(MeasurementSize, |buf|)
  {
    if |buf| < MeasurementSize then Failure(Truncated(MeasurementSize, |buf|))
    else Success(Measurement(
      U8At(buf, 0), U8At(buf, 1),
      U16At(buf, 2), U16At(buf, 4), U16At(buf, 6), U16At(buf, 8),
      U16At(buf, 10), U16At(buf, 12), U16At(buf, 14), U16At(buf, 16)))
  }

  /**
   * Parse a buffer with the info layout. The command byte is not checked;
   * bytes after the layout are ignored.
   */
  function ParseInfo(buf: seq<byte>): (r: Result<Info, ParseError>)
    ensures r.Success? <==> |buf| >= InfoSize
    ensures r.Failure? ==> r.error == Truncated(InfoSize, |buf|)
  {
    if |buf| < InfoSize then Failure(Truncated(InfoSize, |buf|))
    else Success(Info(
      U8At(buf, 0), U8At(buf, 1), U8At(buf, 2), U8At(buf, 3),
      U32At(buf, 4), U32At(buf, 8), U16At(buf, 12)))
  }

  // ---------------------------------------------------------------------------
  // Building (the same layouts, from a record to bytes)
  // ---------------------------------------------------------------------------

  /** The 18 wire bytes of a measurement record. */
  function EncodeMeasurement(m: Measurement): (bs: seq<byte>)
    ensures |bs| == MeasurementSize
  {
    LeBytes(m.command, 1) + LeBytes(m.totalMsgSize, 1)
    + LeBytes(m.measurement, 2) + LeBytes(m.avgDay, 2)
    + LeBytes(m.avg2Day, 2) + LeBytes(m.avgWeek, 2)
    + LeBytes(m.avgMonth, 2) + LeBytes(m.valuePeak, 2)
    + LeBytes(m.pulseCount, 2) + LeBytes(m.pulseCount10m, 2)
  }

  /** The 14 wire bytes of an info record. */
  function EncodeInfo(i: Info): (bs: seq<byte>)
    ensures |bs| == InfoSize
  {
    LeBytes(i.command, 1) + LeBytes(i.totalMsgSize, 1)
    + LeBytes(i.deviceStatus, 1) + LeBytes(i.vibStatus, 1)
    + LeBytes(i.procTime, 4) + LeBytes(i.dcValue, 4)
    + LeBytes(i.tempAndHum, 2)
  }

  // ---------------------------------------------------------------------------
  // Layout lemmas
  // ---------------------------------------------------------------------------

  /** A parsed measurement: header bytes 0 and 1, then count k at bytes 2+2k (low) and 3+2k (high). */
  lemma MeasurementLayout(buf: seq<byte>)
    requires |buf| >= MeasurementSize
    ensures ParseMeasurement(buf).Success?
    ensures var m := ParseMeasurement(buf).value;
      m.command == buf[0] && m.totalMsgSize == buf[1] &&
      forall k :: 0 <= k < 8 ==> Counts(m)[k] == buf[2 + 2 * k] as int + 256 * buf[3 + 2 * k] as int
  {
  }

  /** A parsed info record: status bytes 2 and 3, u32 fields at 4 and 8, the packed field at 12. */
  lemma InfoLayout(buf: seq<byte>)
    requires |buf| >= InfoSize
    ensures ParseInfo(buf).Success?
    ensures var i := ParseInfo(buf).value;
      i.command == buf[0] && i.totalMsgSize == buf[1] &&
      i.deviceStatus == buf[2] && i.vibStatus == buf[3] &&
      i.procTime == LeValue(buf[4..8]) && i.dcValue == LeValue(buf[8..12]) &&
      i.tempAndHum == LeValue(buf[12..14])
  {
  }

  /** Only the first 18 bytes of a buffer decide the measurement it parses to. */
  lemma MeasurementIgnoresTrailing(buf: seq<byte>, extra: seq<byte>)
    requires |buf| >= MeasurementSize
    ensures ParseMeasurement(buf + extra) == ParseMeasurement(buf)
    ensures ParseMeasurement(buf) == ParseMeasurement(buf[..MeasurementSize])
  {
  }

  /** Only the first 14 bytes of a buffer decide the info record it parses to. */
  lemma InfoIgnoresTrailing(buf: seq<byte>, extra: seq<byte>)
    requires |buf| >= InfoSize
    ensures ParseInfo(buf + extra) == ParseInfo(buf)
    ensures ParseInfo(buf) == ParseInfo(buf[..InfoSize])
  {
  }

  // ---------------------------------------------------------------------------
  // Round trips between building and parsing
  // ---------------------------------------------------------------------------

  /** Parsing what a measurement builds to (followed by anything) gives the record back. */
  lemma MeasurementRoundTrip(m: Measurement, extra: seq<byte>)
    ensures ParseMeasurement(EncodeMeasurement(m) + extra) == Success(m)
  {
  }

  /** Building a parsed measurement gives back the first 18 bytes of the buffer. */
  lemma MeasurementBytesRoundTrip(buf: seq<byte>)
    requires |buf| >= MeasurementSize
    ensures EncodeMeasurement(ParseMeasurement(buf).value) == buf[..MeasurementSize]
  {
  }

  /** Parsing what an info record builds to (followed by anything) gives the record back. */
  lemma InfoRoundTrip(i: Info, extra: seq<byte>)
    ensures ParseInfo(EncodeInfo(i) + extra) == Success(i)
  {
    var bs := EncodeInfo(i) + extra;
    assert bs[0..1] == LeBytes(i.command, 1);
    assert bs[1..2] == LeBytes(i.totalMsgSize, 1);
    assert bs[2..3] == LeBytes(i.deviceStatus, 1);
    assert bs[3..4] == LeBytes(i.vibStatus, 1);
    assert bs[4..8] == LeBytes(i.procTime, 4);
    assert bs[8..12] == LeBytes(i.dcValue, 4);
    assert bs[12..14] == LeBytes(i.tempAndHum, 2);
  }

  /** Building a parsed info record gives back the first 14 bytes of the buffer. */
  lemma InfoBytesRoundTrip(buf: seq<byte>)
    requires |buf| >= InfoSize
    ensures EncodeInfo(ParseInfo(buf).value) == buf[..InfoSize]
  {
    var i := ParseInfo(buf).value;
    var bs := LeBytes(i.command, 1);
    FieldBytes(buf, 0, 1);
    FieldBytes(buf, 1, 2); bs := bs + LeBytes(i.totalMsgSize, 1); Append(buf, 0, 1, 2);
    FieldBytes(buf, 2, 3); bs := bs + LeBytes(i.deviceStatus, 1); Append(buf, 0, 2, 3);
    FieldBytes(buf, 3, 4); bs := bs + LeBytes(i.vibStatus, 1); Append(buf, 0, 3, 4);
    FieldBytes(buf, 4, 8); bs := bs + LeBytes(i.procTime, 4); Append(buf, 0, 4, 8);
    FieldBytes(buf, 8, 12); bs := bs + LeBytes(i.dcValue, 4); Append(buf, 0, 8, 12);
    FieldBytes(buf, 12, 14); bs := bs + LeBytes(i.tempAndHum, 2); Append(buf, 0, 12, 14);
    assert bs == buf[0..14];
  }

  /** A worked measurement reply: 50 00 64 00 5A 00 50 00 46 00 3C 00 C8 00 0A 00 05 00. */
  lemma ExampleMeasurement()
    ensures ParseMeasurement([0x50, 0x00, 0x64, 0x00, 0x5A, 0x00, 0x50, 0x00, 0x46, 0x00,
                              0x3C, 0x00, 0xC8, 0x00, 0x0A, 0x00, 0x05, 0x00])
      == Success(Measurement(0x50, 0, 100, 90, 80, 70, 60, 200, 10, 5))
  {
  }

  /** The field spanning buf[lo..hi], rebuilt at its own width, is that slice. */
  lemma FieldBytes(buf: seq<byte>, lo: nat, hi: nat)
    requires lo <= hi <= |buf|
    ensures LeBytes(LeValue(buf[lo..hi]), hi - lo) == buf[lo..hi]
  {
    LeBytesOfValue(buf[lo..hi]);
  }

  /** Adjacent slices concatenate to the slice spanning both. */
  lemma Append(buf: seq<byte>, lo: nat, mid: nat, hi: nat)
    requires lo <= mid <= hi <= |buf|
    ensures buf[lo..mid] + buf[mid..hi] == buf[lo..hi]
  {
  }
}
