/**
 * The 7-segment display: validation of the decimal text, the decimal encoder
 * that packs the text right to left into four display cells, and the
 * hexadecimal encoder. A frame is the 6-byte buffer sent to the display:
 * two header bytes 0, 1 followed by the cells of positions 2..5.
 */
module SegmentDisplay {
  import opened Bus

  /** Length limit of validate: at most four characters, or five when one is a point. */
  predicate Accepts(s: string)
  {
    |s| <= 4 || (|s| == 5 && '.' in s)
  }

  /** validate: strings over five characters fail first; a point anywhere accepts at once. */
  method Validate(s: string) returns (ok: bool)
    ensures ok == Accepts(s)
  {
    var isFloat := false;
    var len := |s|;
    if len > 5 {
      return false;
    }
    var i := 0;
    while i < len
      invariant 0 <= i <= len
      invariant forall k :: 0 <= k < i ==> s[k] != '.'
      invariant !isFloat
    {
      if s[i] == '.' {
        isFloat := true;
        return true;
      }
      i := i + 1;
    }
    if !isFloat && len == 5 {
      return false;
    }
    return true;
  }

  /** Flag bit of a cell whose digit is followed by a decimal point. */
  const PointFlag: Byte := 0x80
  /** Cell code of a minus sign. */
  const DashCell: Byte := 0x40

  /** A character stored as its code minus the code of '0', truncated to a byte. */
  function DigitCell(c: char): Byte
  {
    ToByte(c as int - '0' as int)
  }

  /**
   * The low byte of `x | 0x80`, given the low byte b of x: bit 7 is set and
   * the other bits stay as they are.
   */
  function SetPoint(b: Byte): (r: Byte)
    ensures r >= PointFlag && r % PointFlag == b % PointFlag
  {
    if b < PointFlag then b + PointFlag else b
  }

  /** The cell of a digit followed by a point: `(code - '0') | 0x80`. */
  function PointCell(c: char): Byte
  {
    SetPoint(DigitCell(c))
  }

  /**
   * The cells the decimal loop writes, in the order it writes them: the
   * rightmost character first. A point folds the character before it into one
   * cell with the point flag; a point in first position reads the code of a
   * character that does not exist (NaN), and `NaN | 0x80` is 0x80.
   */
  function DecimalCells(s: string): (cells: seq<Byte>)
    ensures |cells| <= |s|
    decreases |s|
  {
    if s == [] then []
    else
      var n := |s|;
      if s[n - 1] == '.' then
        if n == 1 then [PointFlag] else [PointCell(s[n - 2])] + DecimalCells(s[..n - 2])
      else if s[n - 1] == '-' then [DashCell] + DecimalCells(s[..n - 1])
      else [DigitCell(s[n - 1])] + DecimalCells(s[..n - 1])
  }

  /** The frame before any cell is written. */
  const Blank: seq<Byte> := [0, 1, 0, 0, 0, 0]

  /**
   * The frame after the j-th cell has been stored at index 5 - j, for every j;
   * writes that would fall below index 0 are dropped, as a buffer ignores them.
   */
  function SegFrame(cells: seq<Byte>): (f: seq<Byte>)
    ensures |f| == 6
  {
    seq(6, k requires 0 <= k < 6 => if 5 - k < |cells| then cells[5 - k] else Blank[k])
  }

  /** The frame the decimal branch of displaySegNumber sends for the text s. */
  function DecimalFrame(s: string): (f: seq<Byte>)
    ensures |f| == 6
  {
    SegFrame(DecimalCells(s))
  }

  lemma SegFrameStep(cells: seq<Byte>, x: Byte)
    requires |cells| < 6
    ensures SegFrame(cells + [x]) == SegFrame(cells)[5 - |cells| := x]
  {
    var c := cells + [x];
    assert forall k :: 0 <= k < 6 ==> SegFrame(c)[k] == SegFrame(cells)[5 - |cells| := x][k];
  }

  /**
   * The decimal branch of displaySegNumber for the text of the number: the
   * frame is sent to the display only when validate accepts the text.
   */
  method DisplayDecimal(m: ModuleIndex, text: string) returns (writes: seq<Write>)
    ensures Accepts(text) ==> writes == [WriteBuffer(Address(Segment, m), DecimalFrame(text))]
    ensures !Accepts(text) ==> writes == []
  {
    var buf := new Byte[6];
    buf[0], buf[1], buf[2], buf[3], buf[4], buf[5] := 0, 1, 0, 0, 0, 0;
    var len := |text|;
    var j := 0;
    var ok := Validate(text);
    if !ok {
      return [];
    }
    ghost var cells := DecimalCells(text);
    var i := len - 1;
    assert text[..len] == text;
    while i >= 0
      invariant -2 <= i < len
      invariant 0 <= j <= |cells|
      invariant cells[j..] == DecimalCells(text[..if i < 0 then 0 else i + 1])
      invariant buf[..] == SegFrame(cells[..j])
      decreases i + 2
    {
      CellsStep(text, i);
      var cell: Byte;
      if text[i] == '.' {
        if i >= 1 {
          cell := PointCell(text[i - 1]);
        } else {
          cell := PointFlag;
        }
        i := i - 1;
      } else if text[i] == '-' {
        cell := DashCell;
      } else {
        cell := DigitCell(text[i]);
      }
      assert cells[j..][0] == cell;
      StoreCell(cells, j);
      buf[5 - j] := cell;
      j := j + 1;
      i := i - 1;
    }
    assert cells[..j] == cells;
    writes := [WriteBuffer(Address(Segment, m), buf[..])];
  }

  /** Storing cell j at index 5 - j extends the frame by that cell and leaves the cells after it. */
  lemma StoreCell(cells: seq<Byte>, j: int)
    requires 0 <= j < |cells| && j < 6
    ensures SegFrame(cells[..j + 1]) == SegFrame(cells[..j])[5 - j := cells[j]]
    ensures cells[j + 1..] == cells[j..][1..]
  {
    assert cells[..j + 1] == cells[..j] + [cells[j]];
    SegFrameStep(cells[..j], cells[j]);
  }

  /** One step of the right-to-left walk: the cell for character i and what remains. */
  lemma CellsStep(text: string, i: int)
    requires 0 <= i < |text|
    ensures text[i] == '.' && i >= 1 ==>
      DecimalCells(text[..i + 1]) == [PointCell(text[i - 1])] + DecimalCells(text[..i - 1])
    ensures text[i] == '.' && i == 0 ==> DecimalCells(text[..i + 1]) == [PointFlag]
    ensures text[i] == '-' ==> DecimalCells(text[..i + 1]) == [DashCell] + DecimalCells(text[..i])
    ensures text[i] != '.' && text[i] != '-' ==>
      DecimalCells(text[..i + 1]) == [DigitCell(text[i])] + DecimalCells(text[..i])
  {
    var rest := text[..i + 1];
    assert rest[i] == text[i];
    if i >= 1 {
      assert rest[i - 1] == text[i - 1];
      assert rest[..i - 1] == text[..i - 1];
    }
    assert rest[..i] == text[..i];
  }

  /** A point whose predecessor is not a point saves a cell. */
  lemma {:induction false} PointSavesCell(s: string)
    requires '.' in s && s[0] != '.'
    ensures |DecimalCells(s)| < |s|
    decreases |s|
  {
    var n := |s|;
    if s[n - 1] != '.' {
      var p := s[..n - 1];
      assert '.' in p by {
        var k :| 0 <= k < n && s[k] == '.';
        assert k < n - 1 && p[k] == '.';
      }
      PointSavesCell(p);
    }
  }

  /**
   * For an accepted text that does not begin with a point, at most four cells
   * are written, the header 0, 1 is never overwritten, and the cells stand
   * right-aligned in positions 2..5 with the rest left zero.
   */
  lemma DecimalFrameLayout(s: string)
    requires Accepts(s) && (s == [] || s[0] != '.')
    ensures |DecimalCells(s)| <= 4
    ensures DecimalFrame(s)[0] == 0 && DecimalFrame(s)[1] == 1
    ensures forall k :: 2 <= k < 6 ==>
      DecimalFrame(s)[k] == if 5 - k < |DecimalCells(s)| then DecimalCells(s)[5 - k] else 0
  {
    if |s| == 5 {
      PointSavesCell(s);
    }
  }

  /** A text beginning with a point is accepted and then overwrites the header byte 1. */
  lemma LeadingPointOverwritesHeader()
    ensures Accepts(".1234") && DecimalFrame(".1234") == [0, 0x80, 1, 2, 3, 4]
  {
    assert ".1234"[..4] == ".123" && ".123"[..3] == ".12" && ".12"[..2] == ".1" && ".1"[..1] == ".";
    assert DecimalCells(".1234") == [4, 3, 2, 1, 0x80];
  }

  lemma DecimalExampleSigned()
    ensures Accepts("-12.5")
    ensures DecimalFrame("-12.5") == [0, 1, 0x40, 1, 0x82, 5]
  {
    assert "-12.5"[3] == '.';
    assert "-12.5"[..4] == "-12." && "-12."[..2] == "-1" && "-1"[..1] == "-" && "-"[..0] == "";
    assert DecimalCells("-12.5") == [5, 0x82, 1, 0x40];
  }

  lemma DecimalExampleFraction()
    ensures Accepts("12.34")
    ensures DecimalFrame("12.34") == [0, 1, 1, 0x82, 3, 4]
  {
    assert "12.34"[2] == '.';
    assert "12.34"[..4] == "12.3" && "12.3"[..3] == "12." && "12."[..1] == "1" && "1"[..0] == "";
    assert DecimalCells("12.34") == [4, 3, 0x82, 1];
  }

  lemma AcceptsExamples()
    ensures Accepts("1234") && Accepts("1.234") && !Accepts("12345") && !Accepts("123456") && !Accepts("1.2345")
  {
    assert "1.234"[1] == '.';
  }

  // Reading a frame back: the text a sequence of cells shows.

  predicate IsDigit(c: char)
  {
    '0' <= c <= '9'
  }

  /** Character k of s may stand in a numeral: a digit, a minus sign, or a point after a digit. */
  predicate NumeralAt(s: string, k: int)
    requires 0 <= k < |s|
  {
    IsDigit(s[k]) || s[k] == '-' || (s[k] == '.' && k >= 1 && IsDigit(s[k - 1]))
  }

  /** The texts number formatting produces without an exponent. */
  predicate Numeral(s: string)
  {
    forall k :: 0 <= k < |s| ==> NumeralAt(s, k)
  }

  function DigitChar(v: int): char
    requires 0 <= v < 10
  {
    ('0' as int + v) as char
  }

  /** What one cell shows: a dash, a digit, or a digit with its point. */
  function Glyph(cell: Byte): string
  {
    if cell == DashCell then "-"
    else if cell < 10 then [DigitChar(cell)]
    else if 0x80 <= cell < 0x8A then [DigitChar(cell - 0x80), '.']
    else "?"
  }

  /** The text shown by cells given in write order (rightmost first). */
  function Render(cells: seq<Byte>): string
  {
    if cells == [] then "" else Render(cells[1..]) + Glyph(cells[0])
  }

  lemma NumeralPrefix(s: string, j: nat)
    requires Numeral(s) && j <= |s|
    ensures Numeral(s[..j])
  {
    var p := s[..j];
    forall k | 0 <= k < j
      ensures NumeralAt(p, k)
    {
      assert NumeralAt(s, k);
      assert p[k] == s[k];
      if k >= 1 {
        assert p[k - 1] == s[k - 1];
      }
    }
  }

  lemma RenderCons(cell: Byte, rest: seq<Byte>)
    ensures Render([cell] + rest) == Render(rest) + Glyph(cell)
  {
    assert ([cell] + rest)[1..] == rest;
  }

  lemma GlyphOfDigit(c: char)
    requires IsDigit(c)
    ensures DigitCell(c) == c as int - '0' as int
    ensures Glyph(DigitCell(c)) == [c] && Glyph(PointCell(c)) == [c, '.']
  {
  }

  /** Decoding the cells of a numeral gives the numeral back. */
  lemma {:induction false} RenderDecimalCells(s: string)
    requires Numeral(s)
    ensures Render(DecimalCells(s)) == s
    decreases |s|, 1
  {
    if s != [] {
      var n := |s|;
      assert NumeralAt(s, n - 1);
      if s[n - 1] == '.' {
        NumeralPrefix(s, n - 2);
        RenderPointStep(s);
      } else {
        NumeralPrefix(s, n - 1);
        RenderCharStep(s);
      }
    }
  }

  /** The step case of RenderDecimalCells for a text ending in a digit and a point. */
  lemma {:induction false} RenderPointStep(s: string)
    requires |s| >= 2 && s[|s| - 1] == '.' && IsDigit(s[|s| - 2]) && Numeral(s[..|s| - 2])
    ensures Render(DecimalCells(s)) == s
    decreases |s|, 0
  {
    var n := |s|;
    var p, d := s[..n - 2], s[n - 2];
    assert s[..n] == s;
    CellsStep(s, n - 1);
    RenderDecimalCells(p);
    RenderCons(PointCell(d), DecimalCells(p));
    GlyphOfDigit(d);
    assert s[n - 2..] == [d, '.'];
    assert s == p + s[n - 2..];
    calc {
      Render(DecimalCells(s));
      Render([PointCell(d)] + DecimalCells(p));
      Render(DecimalCells(p)) + Glyph(PointCell(d));
      p + [d, '.'];
    }
  }

  /** The step case of RenderDecimalCells for a text ending in a digit or a minus sign. */
  lemma {:induction false} RenderCharStep(s: string)
    requires |s| >= 1 && (IsDigit(s[|s| - 1]) || s[|s| - 1] == '-') && Numeral(s[..|s| - 1])
    ensures Render(DecimalCells(s)) == s
    decreases |s|, 0
  {
    var n := |s|;
    var p, c := s[..n - 1], s[n - 1];
    var cell := if c == '-' then DashCell else DigitCell(c);
    assert s[..n] == s;
    CellsStep(s, n - 1);
    RenderDecimalCells(p);
    RenderCons(cell, DecimalCells(p));
    if c != '-' {
      GlyphOfDigit(c);
    }
    assert s == p + [c];
    calc {
      Render(DecimalCells(s));
      Render([cell] + DecimalCells(p));
      Render(DecimalCells(p)) + Glyph(cell);
      p + [c];
    }
  }

  // The hexadecimal branch.

  /** The largest value the hexadecimal display shows; larger values are clamped to it. */
  const HexMax: int := 65535

  /**
   * The 16-bit value the four hexadecimal cells show: clamped above, not below,
   * so a negative value shows its low sixteen two's-complement bits.
   */
  function HexShown(n: int): (v: int)
    ensures 0 <= v <= HexMax
    ensures 0 <= n <= HexMax ==> v == n
    ensures n > HexMax ==> v == HexMax
    ensures -65536 <= n < 0 ==> v == n + 65536
    ensures n <= HexMax ==> (v - n) % 65536 == 0
  {
    (if n > HexMax then HexMax else n) % 65536
  }

  /** The value four hexadecimal cells spell, most significant first. */
  function NibbleValue(f: seq<Byte>): int
    requires |f| == 6
  {
    4096 * (f[2] as int) + 256 * (f[3] as int) + 16 * (f[4] as int) + f[5] as int
  }

  lemma Div16Twice(x: int)
    ensures x / 256 == (x / 16) / 16
  {
  }

  lemma Div256Twice(x: int)
    ensures x / 4096 == (x / 256) / 16
    ensures x / 65536 == (x / 4096) / 16
  {
  }

  lemma Mod65536Unique(x: int, q: int, r: int)
    requires x == 65536 * q + r && 0 <= r < 65536
    ensures x % 65536 == r
  {
  }

  /** `(x >> 12) & 0xF`, `(x >> 8) & 0xF`, `(x >> 4) & 0xF` and `x & 0xF` recombine to the low sixteen bits of x. */
  lemma NibbleSplit(x: int)
    ensures 4096 * ((x / 4096) % 16) + 256 * ((x / 256) % 16) + 16 * ((x / 16) % 16) + x % 16 == x % 65536
  {
    var x1, x2, x3, x4 := x / 16, x / 256, x / 4096, x / 65536;
    Div16Twice(x);
    Div256Twice(x);
    assert x == 16 * x1 + x % 16;
    assert x1 == 16 * x2 + x1 % 16;
    assert x2 == 16 * x3 + x2 % 16;
    assert x3 == 16 * x4 + x3 % 16;
    Mod65536Unique(x, x4, 4096 * (x3 % 16) + 256 * (x2 % 16) + 16 * (x1 % 16) + x % 16);
  }

  /**
   * The hexadecimal branch of displaySegNumber for the rounded number n: one
   * nibble per cell, and together the cells spell the clamped value.
   */
  function DisplayHex(m: ModuleIndex, n: int): (writes: seq<Write>)
    ensures |writes| == 1 && writes[0].WriteBuffer? && writes[0].address == Address(Segment, m)
    ensures |writes[0].bytes| == 6 && writes[0].bytes[..2] == [0, 1]
    ensures forall k :: 2 <= k < 6 ==> writes[0].bytes[k] < 16
    ensures NibbleValue(writes[0].bytes) == HexShown(n)
  {
    var hexNum := if n > HexMax then HexMax else n;
    // `>>` is an arithmetic shift of the 32-bit value, that is, floor division by a
    // power of two, and `& 0xF` keeps the remainder modulo 16; for every integer the
    // low bits of its 32-bit wrap-around are the same.
    var f := [0, 1, (hexNum / 4096) % 16, (hexNum / 256) % 16, (hexNum / 16) % 16, hexNum % 16];
    NibbleSplit(hexNum);
    [WriteBuffer(Address(Segment, m), f)]
  }

  /** Above 65535 every cell shows F. */
  lemma HexClampsHigh(m: ModuleIndex, n: int)
    requires n > HexMax
    ensures DisplayHex(m, n)[0].bytes[2..] == [15, 15, 15, 15]
  {
    var f := DisplayHex(m, n)[0].bytes;
    assert NibbleValue(f) == 65535;
  }

  /** The cells determine the value back: for 0 <= n <= 65535 the display shows n. */
  lemma HexRoundTrip(m: ModuleIndex, n: int)
    requires 0 <= n <= HexMax
    ensures NibbleValue(DisplayHex(m, n)[0].bytes) == n
    ensures DisplayHex(m, n)[0].bytes[2] == n / 4096
  {
    var f := DisplayHex(m, n)[0].bytes;
    assert 4096 * (f[2] as int) <= n < 4096 * (f[2] as int) + 4096;
  }
}
