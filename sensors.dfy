/**
 * The decoders of the sensor modules and the servo encoder. The register reads
 * happen on the platform; each decoder takes the bytes read as parameters and
 * computes what the library returns from them.
 */
module Sensors {
  import opened Bus

  /**
   * `Math.round(p / q)` for q > 0: the integer nearest to p / q, a half rounded
   * up, that is, the r with r - 1/2 <= p / q < r + 1/2.
   */
  function RoundDiv(p: int, q: int): (r: int)
    requires q > 0
    ensures 2 * q * r - q <= 2 * p < 2 * q * r + q
  {
    var d := 2 * q;
    var x := 2 * p + q;
    assert x == d * (x / d) + x % d && 0 <= x % d < d;
    x / d
  }

  /** For q > 0, a multiple q * k below q has k <= 0. */
  lemma ScaleBelow(q: int, k: int)
    requires q > 0 && q * k < q
    ensures k <= 0
  {
  }

  /** The contract of RoundDiv determines its result. */
  lemma RoundDivUnique(p: int, q: int, r: int)
    requires q > 0 && 2 * q * r - q <= 2 * p < 2 * q * r + q
    ensures RoundDiv(p, q) == r
  {
    var r0 := RoundDiv(p, q);
    assert 2 * q * (r0 - r) < 2 * q;
    ScaleBelow(2 * q, r0 - r);
    assert 2 * q * (r - r0) < 2 * q;
    ScaleBelow(2 * q, r - r0);
  }

  /** Rounding a quotient never reverses the order of the dividends. */
  lemma RoundDivMonotone(p1: int, p2: int, q: int)
    requires q > 0 && p1 <= p2
    ensures RoundDiv(p1, q) <= RoundDiv(p2, q)
  {
    var r1, r2 := RoundDiv(p1, q), RoundDiv(p2, q);
    assert 2 * q * (r1 - r2) < 2 * q;
    ScaleBelow(2 * q, r1 - r2);
  }

  // Ultrasonic module.

  /** A signed 16-bit little-endian value from its low and high byte. */
  function Int16LE(lo: Byte, hi: Byte): (v: int)
    ensures -32768 <= v < 32768
    ensures v % 256 == lo && (v % 65536) / 256 == hi
  {
    var u := lo + 256 * hi;
    if u >= 32768 then u - 65536 else u
  }

  /** readDistance: the raw range in units of 1/58 cm, rounded to whole centimetres. */
  function ReadDistance(lo: Byte, hi: Byte): (d: int)
    ensures 116 * d - 58 <= 2 * Int16LE(lo, hi) < 116 * d + 58
    ensures -565 <= d <= 565
  {
    RoundDiv(Int16LE(lo, hi), 58)
  }

  /** Rounding raw / 58 is flooring (raw + 29) / 58. */
  lemma DistanceIsFloor(lo: Byte, hi: Byte)
    ensures ReadDistance(lo, hi) == (Int16LE(lo, hi) + 29) / 58
  {
    var raw, d := Int16LE(lo, hi), ReadDistance(lo, hi);
    assert 58 * d <= raw + 29 < 58 * d + 58;
  }

  // Potentiometer module.

  /** readPmData: the reversed byte scaled to 0..106, rounded, less 3, clamped to 0..100. */
  function ReadPmData(data: Byte): (v: int)
    ensures 0 <= v <= 100
  {
    var val := RoundDiv((255 - data) * 106, 255) - 3;
    if val < 0 then 0 else if val > 100 then 100 else val
  }

  /** Fully one way the potentiometer reads 100, fully the other way 0. */
  lemma PmEnds()
    ensures ReadPmData(0) == 100 && ReadPmData(255) == 0
  {
    RoundDivUnique(255 * 106, 255, 106);
    RoundDivUnique(0, 255, 0);
  }

  /** A larger raw byte never reads as a larger value. */
  lemma PmMonotone(d1: Byte, d2: Byte)
    requires d1 <= d2
    ensures ReadPmData(d2) <= ReadPmData(d1)
  {
    RoundDivMonotone((255 - d2) * 106, (255 - d1) * 106, 255);
  }

  // Temperature and humidity sensor on the 7-segment display module.

  /**
   * `hi << 8 | lo` for two bytes: the two operands have no bit in common, so
   * the OR is a sum, and the word splits back into the two bytes.
   */
  function Word(hi: Byte, lo: Byte): (w: int)
    ensures 0 <= w <= 65535 && w / 256 == hi && w % 256 == lo
  {
    256 * hi + lo
  }

  /**
   * The temperature in tenths of a degree, -45 + 175 * raw / 65535 degrees,
   * rounded to the nearest tenth.
   */
  function TemperatureTenths(raw: int): (t: int)
    requires 0 <= raw <= 65535
    ensures -450 <= t <= 1300
    ensures 2 * 65535 * t - 65535 <= 2 * (1750 * raw - 450 * 65535) < 2 * 65535 * t + 65535
  {
    RoundDiv(-450 * 65535 + 1750 * raw, 65535)
  }

  /** The relative humidity 100 * raw / 65535, rounded to a whole percent. */
  function HumidityPercent(raw: int): (h: int)
    requires 0 <= raw <= 65535
    ensures 0 <= h <= 100
    ensures 2 * 65535 * h - 65535 <= 200 * raw < 2 * 65535 * h + 65535
  {
    RoundDiv(100 * raw, 65535)
  }

  /** The value readTempOrHumidity returns for a measure that is neither temperature nor humidity. */
  const InvalidMeasure: int := 9999

  /**
   * readTempOrHumidity from registers 5..8: measure 0 gives the temperature in
   * tenths of a degree, measure 1 the humidity in percent, anything else 9999.
   */
  function ReadTempOrHumidity(measure: int, data1: Byte, data2: Byte, data3: Byte, data4: Byte): (r: int)
    ensures measure == 0 ==> r == TemperatureTenths(256 * data1 + data2)
    ensures measure == 1 ==> r == HumidityPercent(256 * data3 + data4)
    ensures measure != 0 && measure != 1 ==> r == InvalidMeasure
    ensures measure == 0 || measure == 1 ==> -450 <= r <= 1300
  {
    var onboardTempValue := TemperatureTenths(Word(data1, data2));
    var humidityValue := HumidityPercent(Word(data3, data4));
    if measure == 0 then onboardTempValue
    else if measure == 1 then humidityValue
    else InvalidMeasure
  }

  /** The ends of the raw range are -45.0 and 130.0 degrees; the humidity midpoint rounds to 50 %. */
  lemma TempHumidityExamples()
    ensures TemperatureTenths(0) == -450 && TemperatureTenths(65535) == 1300
    ensures HumidityPercent(0) == 0 && HumidityPercent(32767) == 50 && HumidityPercent(65535) == 100
  {
    RoundDivUnique(-450 * 65535, 65535, -450);
    RoundDivUnique(-450 * 65535 + 1750 * 65535, 65535, 1300);
    RoundDivUnique(0, 65535, 0);
    RoundDivUnique(100 * 32767, 65535, 50);
    RoundDivUnique(100 * 65535, 65535, 100);
  }

  /** A larger raw value never gives a lower temperature or humidity. */
  lemma TempHumidityMonotone(raw1: int, raw2: int)
    requires 0 <= raw1 <= raw2 <= 65535
    ensures TemperatureTenths(raw1) <= TemperatureTenths(raw2)
    ensures HumidityPercent(raw1) <= HumidityPercent(raw2)
  {
    RoundDivMonotone(-450 * 65535 + 1750 * raw1, -450 * 65535 + 1750 * raw2, 65535);
    RoundDivMonotone(100 * raw1, 100 * raw2, 65535);
  }

  // Touch keys of the RGB touch-key module.

  /** The register isTouchDown reads: 0x1A for touch point 0, 0x19 for any other. */
  function TouchRegister(index: int): (reg: int)
    ensures reg == 0x1A || reg == 0x19
    ensures reg == 0x1A <==> index == 0
  {
    if index == 0 then 0x1A else 0x19
  }

  /** isTouchDown, given the device's registers: the chosen register reads exactly 1. */
  function IsTouchDown(index: int, register: int -> Byte): (down: bool)
    ensures down <==> register(TouchRegister(index)) == 1
  {
    var data := if index == 0 then register(0x1A) else register(0x19);
    data == 1
  }

  /** Two register states that agree on the chosen register give the same answer. */
  lemma TouchReadsOneRegister(index: int, r1: int -> Byte, r2: int -> Byte)
    requires r1(TouchRegister(index)) == r2(TouchRegister(index))
    ensures IsTouchDown(index, r1) == IsTouchDown(index, r2)
  {
  }

  // Servo controller.

  /** The SubIndex enum: servo ports 1 .. 4, which are also the port registers. */
  type SubIndex = s: int | 1 <= s <= 4 witness 1

  /** The pulse value 18.5 + 25 * angle / 180 for an angle in degrees. */
  function ServoOutput(angle: real): (out: real)
    ensures -90.0 <= angle <= 90.0 ==> 6.0 <= out <= 31.0
    ensures angle == 0.0 ==> out == 18.5
  {
    18.5 + 25.0 * angle / 180.0
  }

  /** A number stored into a register byte: the fraction dropped towards zero. */
  function Trunc(x: real): (n: int)
    ensures x >= 0.0 ==> n as real <= x < n as real + 1.0
    ensures x < 0.0 ==> n as real - 1.0 < x <= n as real
  {
    if x >= 0.0 then x.Floor else -((-x).Floor)
  }

  /** controlServoOutput: one register write of the pulse value to the port's register. */
  function ControlServoOutput(m: ModuleIndex, submod: SubIndex, angle: real): (writes: seq<Write>)
    ensures |writes| == 1 && writes[0].WriteRegister?
    ensures writes[0].address == Address(Servo, m) && writes[0].register == submod
    ensures -90.0 <= angle <= 90.0 ==> 6 <= writes[0].value <= 31
    ensures -90.0 <= angle <= 90.0 ==> writes[0].value == Trunc(ServoOutput(angle))
  {
    [WriteRegister(Address(Servo, m), submod, ToByte(Trunc(ServoOutput(angle))))]
  }

  /** Over the angle range, a larger angle never writes a smaller pulse byte. */
  lemma ServoMonotone(m: ModuleIndex, submod: SubIndex, a1: real, a2: real)
    requires -90.0 <= a1 <= a2 <= 90.0
    ensures ControlServoOutput(m, submod, a1)[0].value <= ControlServoOutput(m, submod, a2)[0].value
  {
    var x1, x2 := ServoOutput(a1), ServoOutput(a2);
    assert 0.0 <= x1 <= x2;
    var n1, n2 := Trunc(x1), Trunc(x2);
    assert n1 as real <= x1 <= x2 < n2 as real + 1.0;
  }
}
