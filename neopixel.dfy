/**
 * The RGB touch-key module's eight pixels. A colour is a packed number whose
 * bits 8..15, 16..23 and 0..7 are sent in that order, each divided by the
 * brightness divisor. Every buffer starts with a register number; the device
 * stores the remaining bytes in consecutive registers from that one on, so a
 * frame [0, 1, ...] puts 1 in register 0 and pixel k's colour in registers
 * 3k+1 .. 3k+3.
 */
module Neopixel {
  import opened Bus

  /** The brightness divisor applied to every colour channel. */
  const LowBright: int := 8
  const PixelCount: nat := 8

  /** The LedIndex enum: pixel 0 .. 7. */
  type LedIndex = i: int | 0 <= i < 8

  /**
   * The three bytes sent for a colour. `(rgb >> k) & 0xff` on the 32-bit value
   * is floor(rgb / 2^k) mod 256 for every integer rgb; the quotient by the
   * divisor is never negative, so storing it in a byte drops the fraction.
   */
  function ColorBytes(rgb: int): (c: seq<Byte>)
    ensures |c| == 3
    ensures forall k :: 0 <= k < 3 ==> c[k] <= 31
  {
    [((rgb / 256) % 256) / LowBright, ((rgb / 65536) % 256) / LowBright, (rgb % 256) / LowBright]
  }

  /** For a colour packed as 0xRRGGBB the bytes are green, red, blue, each divided by 8. */
  lemma ColorBytesOfChannels(red: Byte, green: Byte, blue: Byte)
    ensures ColorBytes(red * 65536 + green * 256 + blue) == [green / LowBright, red / LowBright, blue / LowBright]
  {
    var rgb := red * 65536 + green * 256 + blue;
    assert rgb / 256 == red * 256 + green;
    assert (rgb / 256) % 256 == green;
    assert rgb / 65536 == red;
    assert rgb % 256 == blue;
  }

  function Repeat(c: seq<Byte>, n: nat): seq<Byte>
  {
    if n == 0 then [] else c + Repeat(c, n - 1)
  }

  lemma {:induction false} RepeatAt(c: seq<Byte>, n: nat, p: nat)
    requires |c| == 3 && p < 3 * n
    ensures |Repeat(c, n)| == 3 * n && Repeat(c, n)[p] == c[p % 3]
  {
    if p >= 3 {
      RepeatAt(c, n - 1, p - 3);
    } else {
      RepeatLength(c, n - 1);
    }
  }

  lemma {:induction false} RepeatLength(c: seq<Byte>, n: nat)
    requires |c| == 3
    ensures |Repeat(c, n)| == 3 * n
  {
    if n > 0 {
      RepeatLength(c, n - 1);
    }
  }

  /** The frame controlAllNeopixels sends: the header 0, 1 and the same colour for every pixel. */
  function AllPixelsFrame(rgb: int): seq<Byte>
  {
    [0, 1] + Repeat(ColorBytes(rgb), PixelCount)
  }

  /**
   * The bulk frame has 26 bytes, header 0, 1, and byte 2 + 3k + t is colour
   * byte t for every pixel k; so no byte after the header exceeds 31.
   */
  lemma AllPixelsLayout(rgb: int)
    ensures |AllPixelsFrame(rgb)| == 26
    ensures AllPixelsFrame(rgb)[0] == 0 && AllPixelsFrame(rgb)[1] == 1
    ensures forall p :: 2 <= p < 26 ==> AllPixelsFrame(rgb)[p] == ColorBytes(rgb)[(p - 2) % 3]
    ensures forall p :: 2 <= p < 26 ==> AllPixelsFrame(rgb)[p] <= 31
  {
    var c := ColorBytes(rgb);
    RepeatLength(c, PixelCount);
    forall p | 2 <= p < 26
      ensures AllPixelsFrame(rgb)[p] == c[(p - 2) % 3]
    {
      RepeatAt(c, PixelCount, p - 2);
    }
  }

  /** controlAllNeopixels: fills the 26-byte buffer three bytes at a time and sends it. */
  method ControlAllNeopixels(m: ModuleIndex, rgb: int) returns (writes: seq<Write>)
    ensures writes == [WriteBuffer(Address(RgbTouch, m), AllPixelsFrame(rgb))]
  {
    var c := ColorBytes(rgb);
    var buf := new Byte[26];
    buf[0] := 0;
    buf[1] := 1;
    var i := 2;
    while i < 24
      invariant 2 <= i <= 26 && i % 3 == 2
      invariant buf[0] == 0 && buf[1] == 1
      invariant forall p :: 2 <= p < i ==> buf[p] == c[(p - 2) % 3]
    {
      buf[i] := c[0];
      buf[i + 1] := c[1];
      buf[i + 2] := c[2];
      i := i + 3;
    }
    AllPixelsLayout(rgb);
    assert buf[..] == AllPixelsFrame(rgb);
    writes := [WriteBuffer(Address(RgbTouch, m), buf[..])];
  }

  /** The frame controlNeopixels sends: register 3 * index + 1, then the pixel's colour. */
  function PixelFrame(index: LedIndex, rgb: int): (f: seq<Byte>)
    ensures |f| == 4 && 1 <= f[0] <= 22 && f[0] % 3 == 1
  {
    [3 * index + 1] + ColorBytes(rgb)
  }

  /**
   * controlNeopixels: the trigger write of 1 to register 0, then one buffer
   * write, both to the module's address, that puts the pixel's colour into
   * registers 3 * index + 1 .. 3 * index + 3 and reaches no other register.
   */
  function ControlNeopixels(m: ModuleIndex, index: LedIndex, rgb: int): (writes: seq<Write>)
    ensures |writes| == 2 && writes[0].WriteRegister? && writes[1].WriteBuffer?
    ensures writes[0].address == Address(RgbTouch, m) && writes[0].register == 0 && writes[0].value == 1
    ensures writes[1].address == Address(RgbTouch, m) && |writes[1].bytes| == 4
    ensures forall t :: 0 <= t < 3 ==> RegisterAt(writes[1].bytes, 3 * index + 1 + t) == Some(ColorBytes(rgb)[t])
    ensures forall r :: (r < 3 * index + 1 || 3 * index + 4 <= r) ==> RegisterAt(writes[1].bytes, r) == None
  {
    [WriteRegister(Address(RgbTouch, m), 0x00, 0x01), WriteBuffer(Address(RgbTouch, m), PixelFrame(index, rgb))]
  }

  /** The byte a buffer write leaves in register reg, if it reaches that register. */
  function RegisterAt(frame: seq<Byte>, reg: int): Option<Byte>
  {
    if frame != [] && frame[0] <= reg < frame[0] + |frame| - 1 then Some(frame[reg - frame[0] + 1]) else None
  }

  /**
   * A single-pixel write and a bulk write of the same colour leave the same
   * bytes in that pixel's three registers, and both set register 0 to 1: the
   * bulk frame through its header, the single-pixel write by its trigger.
   */
  lemma SinglePixelMatchesBulk(m: ModuleIndex, index: LedIndex, rgb: int, t: int)
    requires 0 <= t < 3
    ensures ControlNeopixels(m, index, rgb)[0] == WriteRegister(Address(RgbTouch, m), 0, 1)
    ensures RegisterAt(ControlNeopixels(m, index, rgb)[1].bytes, 3 * index + 1 + t) == Some(ColorBytes(rgb)[t])
    ensures RegisterAt(AllPixelsFrame(rgb), 3 * index + 1 + t) == Some(ColorBytes(rgb)[t])
    ensures RegisterAt(AllPixelsFrame(rgb), 0) == Some(1)
  {
    AllPixelsLayout(rgb);
    var p := 3 * index + 2 + t;
    assert (p - 2) % 3 == t;
  }

  /**
   * controlNeopixelsWithBuffer: the header 0, 1 before the caller's bytes, sent
   * to the first module's address whatever module is meant; the caller's bytes
   * land in registers 1, 2, ... in order.
   */
  function ControlNeopixelsWithBuffer(buffer: seq<Byte>): (writes: seq<Write>)
    ensures |writes| == 1 && writes[0].WriteBuffer? && writes[0].address == Address(RgbTouch, 0)
    ensures |writes[0].bytes| == 2 + |buffer| && writes[0].bytes[2..] == buffer
    ensures RegisterAt(writes[0].bytes, 0) == Some(1)
    ensures forall r :: 1 <= r <= |buffer| ==> RegisterAt(writes[0].bytes, r) == Some(buffer[r - 1])
  {
    [WriteBuffer(RgbTouchkeyAddress, [0, 1] + buffer)]
  }

  /** A raw buffer of eight copies of a colour sends exactly the bulk frame of module 0. */
  lemma RawBufferOfBulk(rgb: int)
    ensures ControlNeopixelsWithBuffer(Repeat(ColorBytes(rgb), PixelCount))
         == [WriteBuffer(Address(RgbTouch, 0), AllPixelsFrame(rgb))]
  {
  }
}
