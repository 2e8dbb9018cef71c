/**
 * The combined temperature/humidity field of the info response. The field packs
 * the temperature in half-degree steps into bits 7..15 (whole degrees in the
 * high byte, a "+0.5" flag in bit 7) and the humidity percentage into bits 0..6.
 */
module Environment {
  import opened Wire

  /** A temperature of whole degrees, plus half a degree when half is set. */
  datatype Celsius = Celsius(degrees: int, half: bool) {
    /** The temperature in half-degree units. */
    function Halves(): int
    {
      2 * degrees + (if half then 1 else 0)
    }
  }

  /**
   * Temperature from the packed field: whole degrees are value >> 8, and
   * bit 7 ((value >> 7) & 1) adds half a degree. Python's `>>` is floor
   * division by a power of two and `& 1` the remainder modulo 2, which is
   * what Dafny's `/` and `%` compute for a positive divisor.
   */
  function Temperature(value: int): (t: Celsius)
    ensures t.Halves() == value / 128
  {
    var i2 := value / 256;
    if (value / 128) % 2 == 1 then Celsius(i2, true) else Celsius(i2, false)
  }

  /**
   * Humidity from the packed field: the low byte, with a non-positive
   * low byte lifted by 256, reduced modulo 128.
   */
  function Humidity(value: int): (h: int)
    ensures 0 <= h < 128
  {
    var i2 := value % 256;
    var i3 := if i2 <= 0 then i2 + 256 else i2;
    i3 % 128
  }

  /** The packed field holding a temperature of t half-degrees and a humidity h. */
  function Pack(t: int, h: int): (v: u16)
    requires 0 <= t < 512 && 0 <= h < 128
  {
    128 * t + h
  }

  // ---------------------------------------------------------------------------
  // Temperature
  // ---------------------------------------------------------------------------

  /**
   * In half-degree units the temperature is 2 * (value >> 8) + ((value >> 7) & 1),
   * which is value >> 7: bits 7 and up, read as half degrees.
   */
  lemma TemperatureHalfSteps(value: int)
    ensures Temperature(value).Halves() == 2 * (value / 256) + (value / 128) % 2
    ensures Temperature(value).Halves() == value / 128
  {
  }

  /** For a u16 field the whole degrees lie in 0..255, so the temperature lies in [0, 255.5]. */
  lemma TemperatureBounds(value: u16)
    ensures 0 <= Temperature(value).degrees <= 255
    ensures 0 <= Temperature(value).Halves() <= 511
  {
  }

  /** Two fields give the same temperature exactly when they agree in bit 7 and above. */
  lemma TemperatureIgnoresLowBits(v: int, w: int)
    ensures Temperature(v) == Temperature(w) <==> v / 128 == w / 128
  {
  }

  // ---------------------------------------------------------------------------
  // Humidity
  // ---------------------------------------------------------------------------

  /** Humidity is the field modulo 128: the lift by 256 never changes the result. */
  lemma HumidityIsLowSevenBits(value: int)
    ensures Humidity(value) == value % 128
  {
    var q := value / 256;
    var r := value % 256;
    assert value == 128 * (2 * q) + r;
    assert r % 128 == value % 128 by {
      assert r == 128 * (r / 128) + r % 128;
      assert value == 128 * (2 * q + r / 128) + r % 128;
    }
  }

  /** Humidity depends only on the low byte of the field. */
  lemma HumidityLowByte(value: int)
    ensures Humidity(value) == Humidity(value % 256)
  {
  }

  /** The "+256" branch is taken exactly when the low byte is 0, and then yields 0. */
  lemma HumidityZeroByteBranch(value: int)
    ensures value % 256 <= 0 <==> value % 256 == 0
    ensures value % 256 == 0 ==> Humidity(value) == (0 + 256) % 128 == 0
  {
  }

  // ---------------------------------------------------------------------------
  // The field fully packs both readings
  // ---------------------------------------------------------------------------

  /** Unpacking a packed field gives back the temperature and the humidity. */
  lemma UnpackPack(t: int, h: int)
    requires 0 <= t < 512 && 0 <= h < 128
    ensures Temperature(Pack(t, h)).Halves() == t
    ensures Humidity(Pack(t, h)) == h
  {
  }

  /** Every u16 field is the packing of the temperature and humidity read from it. */
  lemma PackUnpack(value: u16)
    ensures 0 <= Temperature(value).Halves() < 512
    ensures Pack(Temperature(value).Halves(), Humidity(value)) == value
  {
  }

  /** The worked example 0x4B32: 75 degrees with bit 7 clear, humidity 50. */
  lemma Example4B32()
    ensures Temperature(0x4B32) == Celsius(75, false)
    ensures Humidity(0x4B32) == 50
  {
  }
}
