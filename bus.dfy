/**
 * The I2C side of the extension library: bytes, module selectors, the fixed
 * base address of every peripheral and the writes an operation puts on the bus.
 * The platform's I2C transport itself is not modelled; an operation that writes
 * returns the writes it would issue, in order.
 */
module Bus {

  /** One byte of a platform buffer. */
  type Byte = x: int | 0 <= x < 256

  /** The ModuleIndex enum: which of four chained modules of one kind is meant. */
  type ModuleIndex = m: int | 0 <= m < 4

  datatype Option<T> = None | Some(value: T)

  /**
   * Storing a number into a buffer element keeps its low eight bits, so the
   * stored byte is congruent to the integer modulo 256.
   */
  function ToByte(x: int): (b: Byte)
    ensures (x - b) % 256 == 0
    ensures 0 <= x < 256 ==> b == x
  {
    x % 256
  }

  /** The peripherals the library talks to. */
  datatype Device = Sonar | Servo | Segment | RgbTouch | Potentiometer | Soil

  const SonarAddress: int := 0x58
  const ServoAddress: int := 0x74
  /** The 7-segment display module, which also carries the temperature and humidity sensor. */
  const SegAddress: int := 0x6C
  const RgbTouchkeyAddress: int := 0x4C
  const PmAddress: int := 0x60
  const SoilAddress: int := 0x48

  function BaseAddress(d: Device): int
  {
    match d
    case Sonar => SonarAddress
    case Servo => ServoAddress
    case Segment => SegAddress
    case RgbTouch => RgbTouchkeyAddress
    case Potentiometer => PmAddress
    case Soil => SoilAddress
  }

  /** Every transaction goes to the device's base address plus the module index. */
  function Address(d: Device, m: ModuleIndex): (a: int)
    ensures BaseAddress(d) <= a < BaseAddress(d) + 4
    ensures 0 <= a < 0x80
    ensures a - BaseAddress(d) == m
  {
    BaseAddress(d) + m
  }

  /**
   * The six blocks of four addresses are disjoint: an address determines both
   * the peripheral kind and the module index.
   */
  lemma AddressesDistinct(d1: Device, m1: ModuleIndex, d2: Device, m2: ModuleIndex)
    ensures Address(d1, m1) == Address(d2, m2) <==> d1 == d2 && m1 == m2
  {
  }

  /** A bus write: a single register, or a whole buffer whose first byte is a register number. */
  datatype Write =
    | WriteRegister(address: int, register: int, value: Byte)
    | WriteBuffer(address: int, bytes: seq<Byte>)
}
