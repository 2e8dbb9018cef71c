/**
 * Byte-level building blocks of the RD200 response layouts: bytes and the
 * unsigned little-endian integer fields (one, two and four bytes wide) that
 * both response structures are made of.
 */
module Wire {

  type byte = x: int | 0 <= x < 0x100
  type u8 = byte
  type u16 = x: int | 0 <= x < 0x1_0000
  type u32 = x: int | 0 <= x < 0x1_0000_0000

  /** 256 to the power n: one more than the largest n-byte unsigned value. */
  function Pow256(n: nat): (r: nat)
    ensures r >= 1
  {
    if n == 0 then 1 else 256 * Pow256(n - 1)
  }

  /** The unsigned value of a little-endian byte string (least significant byte first). */
  function LeValue(bs: seq<byte>): (v: nat)
    ensures v < Pow256(|bs|)
    decreases |bs|
  {
    if bs == [] then 0 else bs[0] + 256 * LeValue(bs[1..])
  }

  /** The n-byte little-endian encoding of v: what a field of width n builds. */
  function LeBytes(v: nat, n: nat): (bs: seq<byte>)
    requires v < Pow256(n)
    ensures |bs| == n
    ensures LeValue(bs) == v
  {
    if n == 0 then [] else [v % 256] + LeBytes(v / 256, n - 1)
  }

  /** Encoding the value of a byte string at its own width gives the bytes back. */
  lemma {:induction false} LeBytesOfValue(bs: seq<byte>)
    ensures LeBytes(LeValue(bs), |bs|) == bs
    decreases |bs|
  {
    if bs != [] {
      var rest := LeValue(bs[1..]);
      assert LeValue(bs) % 256 == bs[0] && LeValue(bs) / 256 == rest;
      LeBytesOfValue(bs[1..]);
    }
  }

  /** The Int8ul field: the byte at the offset. */
  function U8At(buf: seq<byte>, offset: nat): (r: u8)
    requires offset + 1 <= |buf|
    ensures r == buf[offset]
  {
    LeValue(buf[offset..offset + 1])
  }

  /** The Int16ul field: two bytes, the low byte first. */
  function U16At(buf: seq<byte>, offset: nat): (r: u16)
    requires offset + 2 <= |buf|
    ensures r == buf[offset] as int + 0x100 * buf[offset + 1] as int
  {
    var bs := buf[offset..offset + 2];
    assert LeValue(bs[1..]) == bs[1] + 256 * LeValue(bs[1..][1..]);
    LeValue(bs)
  }

  /** The Int32ul field: four bytes, the low byte first. */
  function U32At(buf: seq<byte>, offset: nat): (r: u32)
    requires offset + 4 <= |buf|
    ensures r == buf[offset] as int + 0x100 * buf[offset + 1] as int
                 + 0x1_0000 * buf[offset + 2] as int + 0x100_0000 * buf[offset + 3] as int
  {
    var bs := buf[offset..offset + 4];
    assert LeValue(bs[3..]) == bs[3] + 256 * LeValue(bs[4..]);
    assert LeValue(bs[2..]) == bs[2] + 256 * LeValue(bs[3..]);
    assert LeValue(bs[1..]) == bs[1] + 256 * LeValue(bs[2..]);
    LeValue(bs)
  }
}
