/**
 * The two output dialects: each pairs its thresholds with a pure `(addr, data) -> line` renderer.
 * GameShark writes `A<len-1><addr:06X> <data as big-endian:04X>`, STROOP writes
 * `80<addr:06X>: <hexlify(data)>`. A parser for each line form states what the line carries.
 */
module Dialects {
  import opened Wrappers
  import opened Text
  import opened Accumulator

  /** `gameshark_format`: a cap of two bytes per record and no gap tolerance. */
  const GameSharkLimits := Limits(Finite(2), 0)

  /** `stroop_format`: no cap (`math.inf`) and up to 16 pending matching bytes. */
  const StroopLimits := Limits(Unbounded, 16)

  /**
   * The GameShark line of a record: `A`, the record length less one, the address and a 16-bit
   * value. For one or two bytes at a six-digit address it is 14 characters with the space at 8.
   */
  function GameShark(addr: nat, data: seq<byte>): (line: string)
    ensures |line| >= 2 && line[0] == 'A' && line[|line| - 1] == '\n'
    ensures addr < 0x100_0000 && 1 <= |data| <= 2 ==>
      |line| == 14 && line[1] == (if |data| == 1 then '0' else '1') && line[8] == ' '
  {
    var n := Decimal(|data| - 1);
    var a6 := Format(addr, 16, 6, true);
    var d4 := Format(BigEndian(data), 16, 4, true);
    GameSharkFrame(addr, data, n, a6, d4);
    "A" + n + a6 + " " + d4 + "\n"
  }

  lemma GameSharkFrame(addr: nat, data: seq<byte>, n: string, a6: string, d4: string)
    requires n == Decimal(|data| - 1) && a6 == Format(addr, 16, 6, true) && d4 == Format(BigEndian(data), 16, 4, true)
    ensures addr < 0x100_0000 && 1 <= |data| <= 2 ==>
      var line := "A" + n + a6 + " " + d4 + "\n";
      |line| == 14 && line[1] == (if |data| == 1 then '0' else '1') && line[8] == ' '
  {
    if addr < 0x100_0000 && 1 <= |data| <= 2 {
      Pow16Six();
      FormatLength(addr, 16, 6, true);
      FormatLength(BigEndian(data), 16, 4, true);
      if |data| == 1 {
        assert Decimal(0) == "0";
      } else {
        assert Decimal(1) == "1" by {
          assert DigitChar(1, true) == '1';
        }
      }
    }
  }

  /** The STROOP line of a record: `80`, the address, `: `, the hex digits; 11 characters plus two per byte. */
  function Stroop(addr: nat, data: seq<byte>): (line: string)
    ensures |line| >= 3 && line[..2] == "80" && line[|line| - 1] == '\n'
    ensures addr < 0x100_0000 ==> |line| == 11 + 2 * |data| && line[8..10] == ": "
  {
    var a6 := Format(addr, 16, 6, true);
    var line := "80" + a6 + ": " + Hexlify(data) + "\n";
    if addr < 0x100_0000 then
      Pow16Six();
      FormatLength(addr, 16, 6, true);
      StroopFields(a6, Hexlify(data));
      line
    else
      assert line[..2] == "80";
      line
  }

  /** Reads a GameShark line of a one- or two-byte record back. */
  function ParseGameShark(line: string): Option<Record>
  {
    if |line| != 14 || line[0] != 'A' || line[8] != ' ' || line[13] != '\n' then None
    else
      var addr, v := Value(line[2..8], 16), Value(line[9..13], 16);
      if line[1] == '0' && v < 256 then Some(Record(addr, [v as byte]))
      else if line[1] == '1' then Some(Record(addr, [((v / 256) % 256) as byte, (v % 256) as byte]))
      else None
  }

  /** Reads a STROOP line back. */
  function ParseStroop(line: string): Option<Record>
  {
    if |line| < 11 || line[..2] != "80" || line[8..10] != ": " || line[|line| - 1] != '\n' then None
    else Some(Record(Value(line[2..8], 16), Unhexlify(line[10..|line| - 1])))
  }

  lemma Pow16Six()
    ensures Pow(16, 6) == 0x100_0000 && Pow(16, 4) == 0x1_0000 && Pow(16, 2) == 0x100
    ensures Pow(256, 1) == 0x100 && Pow(256, 2) == 0x1_0000
  {
    assert Pow(16, 2) == 0x100 by {
      assert Pow(16, 1) == 16;
    }
    assert Pow(16, 4) == 0x1_0000 by {
      assert Pow(16, 3) == 16 * Pow(16, 2);
    }
    assert Pow(16, 6) == 0x100_0000 by {
      assert Pow(16, 5) == 16 * Pow(16, 4);
    }
    assert Pow(256, 2) == 256 * Pow(256, 1);
  }

  /** The four hex digits of `x * 256 + y` are the two of `x` followed by the two of `y`. */
  lemma FourDigitsSplit(x: nat, y: nat, upper: bool)
    requires x < 256 && y < 256
    ensures Format(x * 256 + y, 16, 4, upper) == Format(x, 16, 2, upper) + Format(y, 16, 2, upper)
  {
    var n := x * 256 + y;
    FormatUnfold(n, 16, 4, upper);
    assert n / 16 == x * 16 + y / 16 && n % 16 == y % 16;
    FormatUnfold(n / 16, 16, 3, upper);
    assert (n / 16) / 16 == x && (n / 16) % 16 == y / 16;
    FormatUnfold(y, 16, 2, upper);
    assert Format(y / 16, 16, 1, upper) == [DigitChar(y / 16, upper)];
  }

  lemma ZeroZero(upper: bool)
    ensures Format(0, 16, 2, upper) == "00"
  {
    FormatUnfold(0, 16, 2, upper);
    assert DigitChar(0, upper) == '0';
  }

  lemma BigEndianOne(b: byte)
    ensures BigEndian([b]) == b as nat
  {
    assert [b][..0] == [];
  }

  lemma BigEndianTwo(b0: byte, b1: byte)
    ensures BigEndian([b0, b1]) == b0 as nat * 256 + b1 as nat
  {
    assert [b0, b1][..1] == [b0];
    BigEndianOne(b0);
  }

  /** A one-byte GameShark record renders its byte AFTER two zeros: `A0aaaaaa 00XX`. */
  lemma GameSharkOneByte(addr: nat, b: byte)
    ensures GameShark(addr, [b]) == "A" + "0" + Format(addr, 16, 6, true) + " " + ("00" + Format(b as nat, 16, 2, true)) + "\n"
  {
    BigEndianOne(b);
    FourDigitsSplit(0, b as nat, true);
    ZeroZero(true);
    assert Decimal(0) == "0";
  }

  /** A two-byte GameShark record: `A1aaaaaa XXYY`, its bytes in order. */
  lemma GameSharkTwoBytes(addr: nat, b0: byte, b1: byte)
    ensures GameShark(addr, [b0, b1])
         == "A" + "1" + Format(addr, 16, 6, true) + " " + (Format(b0 as nat, 16, 2, true) + Format(b1 as nat, 16, 2, true)) + "\n"
  {
    BigEndianTwo(b0, b1);
    FourDigitsSplit(b0 as nat, b1 as nat, true);
    assert Decimal(1) == "1" by {
      assert DigitChar(1, true) == '1';
    }
  }

  lemma PairDivMod(x: nat, y: nat)
    requires x < 256 && y < 256
    ensures (x * 256 + y) / 256 % 256 == x && (x * 256 + y) % 256 == y
  {
  }

  /** What the parser reads from a line with the fixed GameShark layout. */
  lemma ParseGameSharkFields(c: char, a6: string, d4: string)
    requires |a6| == 6 && |d4| == 4
    ensures var line := "A" + [c] + a6 + " " + d4 + "\n";
      var addr, v := Value(a6, 16), Value(d4, 16);
      ParseGameShark(line)
        == if c == '0' && v < 256 then Some(Record(addr, [v as byte]))
           else if c == '1' then Some(Record(addr, [((v / 256) % 256) as byte, (v % 256) as byte]))
           else None
  {
    var line := "A" + [c] + a6 + " " + d4 + "\n";
    assert |line| == 14 && line[0] == 'A' && line[1] == c && line[2..8] == a6 && line[8] == ' ' && line[9..13] == d4 && line[13] == '\n';
  }

  /** Every one- or two-byte record at a six-digit address is read back from its GameShark line. */
  lemma GameSharkRoundTrip(addr: nat, data: seq<byte>)
    requires addr < 0x100_0000 && 1 <= |data| <= 2
    ensures ParseGameShark(GameShark(addr, data)) == Some(Record(addr, data))
  {
    if |data| == 1 {
      assert data == [data[0]];
      GameSharkOneByteRoundTrip(addr, data[0]);
    } else {
      assert data == [data[0], data[1]];
      GameSharkTwoBytesRoundTrip(addr, data[0], data[1]);
    }
  }

  lemma SixDigitAddress(addr: nat)
    requires addr < 0x100_0000
    ensures |Format(addr, 16, 6, true)| == 6 && Value(Format(addr, 16, 6, true), 16) == addr
  {
    Pow16Six();
    FormatLength(addr, 16, 6, true);
    FormatValue(addr, 16, 6, true);
  }

  lemma TwoDigitByte(b: byte)
    ensures |Format(b as nat, 16, 2, true)| == 2
  {
    Pow16Six();
    FormatLength(b as nat, 16, 2, true);
  }

  lemma GameSharkOneByteRoundTrip(addr: nat, b: byte)
    requires addr < 0x100_0000
    ensures ParseGameShark(GameShark(addr, [b])) == Some(Record(addr, [b]))
  {
    var x := b as nat;
    var a6 := Format(addr, 16, 6, true);
    var d4 := "00" + Format(x, 16, 2, true);
    SixDigitAddress(addr);
    TwoDigitByte(b);
    GameSharkOneByte(addr, b);
    ParseGameSharkFields('0', a6, d4);
    assert Value(d4, 16) == x by {
      FourDigitsSplit(0, x, true);
      ZeroZero(true);
      FormatValue(x, 16, 4, true);
    }
  }

  lemma GameSharkTwoBytesRoundTrip(addr: nat, b0: byte, b1: byte)
    requires addr < 0x100_0000
    ensures ParseGameShark(GameShark(addr, [b0, b1])) == Some(Record(addr, [b0, b1]))
  {
    var x, y := b0 as nat, b1 as nat;
    var a6 := Format(addr, 16, 6, true);
    var d4 := Format(x, 16, 2, true) + Format(y, 16, 2, true);
    SixDigitAddress(addr);
    TwoDigitByte(b0);
    TwoDigitByte(b1);
    GameSharkTwoBytes(addr, b0, b1);
    ParseGameSharkFields('1', a6, d4);
    assert Value(d4, 16) == x * 256 + y by {
      FourDigitsSplit(x, y, true);
      FormatValue(x * 256 + y, 16, 4, true);
    }
    PairDivMod(x, y);
  }

  /** Every record at a six-digit address is read back from its STROOP line. */
  lemma StroopRoundTrip(addr: nat, data: seq<byte>)
    requires addr < 0x100_0000
    ensures ParseStroop(Stroop(addr, data)) == Some(Record(addr, data))
  {
    Pow16Six();
    var a6 := Format(addr, 16, 6, true);
    FormatLength(addr, 16, 6, true);
    FormatValue(addr, 16, 6, true);
    StroopFields(a6, Hexlify(data));
    UnhexlifyHexlify(data);
  }

  /** The fixed positions of a STROOP line. */
  lemma StroopFields(a6: string, h: string)
    requires |a6| == 6
    ensures var line := "80" + a6 + ": " + h + "\n";
      |line| == 11 + |h| && line[..2] == "80" && line[2..8] == a6 && line[8..10] == ": "
      && line[10..|line| - 1] == h && line[|line| - 1] == '\n'
  {
    var line := "80" + a6 + ": " + h + "\n";
    assert line[8..10] == [line[8], line[9]];
  }
}
