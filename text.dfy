/**
 * Text rendering used by the two patch dialects: digit strings in base 10 and 16 with a minimum
 * width (Python's `str(n)`, `"{:06X}"`, `"{:04X}"`), `binascii.hexlify`, and `int.from_bytes(..., "big")`.
 * Each rendering has an inverse here, so that what is written can be read back.
 */
module Text {

  /** One byte of a file, as Python's `bytes` elements are: an integer from 0 to 255. */
  newtype byte = b: int | 0 <= b < 256

  function Pow(b: nat, e: nat): nat
  {
    if e == 0 then 1 else b * Pow(b, e - 1)
  }

  /** The value of one digit character in bases up to 16 (either case); 0 for anything else. */
  function DigitValue(c: char): nat
  {
    if '0' <= c <= '9' then c as int - '0' as int
    else if 'A' <= c <= 'F' then c as int - 'A' as int + 10
    else if 'a' <= c <= 'f' then c as int - 'a' as int + 10
    else 0
  }

  /** A decimal digit, or a hex letter in the requested case. */
  predicate IsDigit(c: char, upper: bool)
  {
    '0' <= c <= '9' || (if upper then 'A' <= c <= 'F' else 'a' <= c <= 'f')
  }

  /** The digit character for `d`, with `A`-`F` or `a`-`f` for 10..15. */
  function DigitChar(d: nat, upper: bool): (c: char)
    requires d < 16
    ensures IsDigit(c, upper) && DigitValue(c) == d
  {
    if d < 10 then ('0' as int + d) as char
    else if upper then ('A' as int + d - 10) as char
    else ('a' as int + d - 10) as char
  }

  /**
   * The digits of `n` in `base`, most significant first, left-padded with '0' to at least `width`
   * characters: Python's `format(n, "0<width>X")` (or `x`) for base 16, and `str(n)` for base 10
   * with width 1.
   */
  function Format(n: nat, base: nat, width: nat, upper: bool): (s: string)
    requires 2 <= base <= 16
    ensures Digits(s, base, upper)
    decreases n, width
  {
    if n < base && width <= 1 then [DigitChar(n, upper)]
    else
      DivMod(n, base);
      var rest, last := Format(n / base, base, if width == 0 then 0 else width - 1, upper), DigitChar(n % base, upper);
      DigitsSnoc(rest, last, base, upper);
      rest + [last]
  }

  /** Every character of `s` is a digit below `base`, with hex letters in the requested case. */
  ghost predicate Digits(s: string, base: nat, upper: bool)
  {
    forall i :: 0 <= i < |s| ==> IsDigit(s[i], upper) && DigitValue(s[i]) < base
  }

  lemma DigitsSnoc(s: string, c: char, base: nat, upper: bool)
    requires Digits(s, base, upper) && IsDigit(c, upper) && DigitValue(c) < base
    ensures Digits(s + [c], base, upper)
  {
    forall i | 0 <= i < |s + [c]|
      ensures IsDigit((s + [c])[i], upper) && DigitValue((s + [c])[i]) < base
    {
      if i < |s| {
        assert (s + [c])[i] == s[i];
      }
    }
  }

  /** Reads a digit string back as a number (most significant digit first). */
  function Value(s: string, base: nat): nat
  {
    if s == [] then 0 else Value(s[..|s| - 1], base) * base + DigitValue(s[|s| - 1])
  }

  lemma DivMod(n: nat, base: nat)
    requires 2 <= base
    ensures n == (n / base) * base + n % base && n % base < base
    ensures n >= base ==> n / base < n
    ensures n < base ==> n / base == 0 && n % base == n
  {
    if n < base {
      SmallDiv(n, base);
    }
  }

  lemma SmallDiv(n: nat, base: nat)
    requires 2 <= base && n < base
    ensures n / base == 0 && n % base == n
  {
  }

  lemma DivBound(n: nat, base: nat, p: nat)
    requires 2 <= base && n < base * p
    ensures n / base < p
  {
    DivMod(n, base);
  }

  lemma ValueSnoc(s: string, c: char, base: nat)
    ensures Value(s + [c], base) == Value(s, base) * base + DigitValue(c)
  {
    assert (s + [c])[..|s|] == s;
  }

  /** Rendering then reading back gives the number again, whatever the width. */
  lemma {:induction false} FormatValue(n: nat, base: nat, width: nat, upper: bool)
    requires 2 <= base <= 16
    ensures Value(Format(n, base, width, upper), base) == n
    decreases n, width
  {
    if n < base && width <= 1 {
      FormatValueDigit(n, base, width, upper);
    } else {
      DivMod(n, base);
      FormatValue(n / base, base, if width == 0 then 0 else width - 1, upper);
      FormatValueStep(n, base, width, upper);
    }
  }

  lemma FormatValueDigit(n: nat, base: nat, width: nat, upper: bool)
    requires 2 <= base <= 16 && n < base && width <= 1
    ensures Value(Format(n, base, width, upper), base) == n
  {
    var d := DigitChar(n, upper);
    assert Format(n, base, width, upper) == [] + [d];
    ValueSnoc([], d, base);
  }

  lemma FormatValueStep(n: nat, base: nat, width: nat, upper: bool)
    requires 2 <= base <= 16
    requires !(n < base && width <= 1)
    requires Value(Format(n / base, base, if width == 0 then 0 else width - 1, upper), base) == n / base
    ensures Value(Format(n, base, width, upper), base) == n
  {
    var w := if width == 0 then 0 else width - 1;
    var q, r := n / base, n % base;
    DivMod(n, base);
    FormatUnfold(n, base, width, upper);
    ValueSnoc(Format(q, base, w, upper), DigitChar(r, upper), base);
  }

  /** One step of `Format`: the last digit is `n % base`, the rest renders `n / base`. */
  lemma FormatUnfold(n: nat, base: nat, width: nat, upper: bool)
    requires 2 <= base <= 16
    requires !(n < base && width <= 1)
    ensures Format(n, base, width, upper)
         == Format(n / base, base, if width == 0 then 0 else width - 1, upper) + [DigitChar(n % base, upper)]
  {
  }

  /** The padding width is a minimum, and a number below `base^width` takes exactly `width` digits. */
  lemma {:induction false} FormatLength(n: nat, base: nat, width: nat, upper: bool)
    requires 2 <= base <= 16
    ensures |Format(n, base, width, upper)| >= width
    ensures |Format(n, base, width, upper)| >= 1
    ensures 1 <= width && n < Pow(base, width) ==> |Format(n, base, width, upper)| == width
    decreases n, width
  {
    if !(n < base && width <= 1) {
      DivMod(n, base);
      FormatLength(n / base, base, if width == 0 then 0 else width - 1, upper);
      FormatLengthStep(n, base, width, upper);
    }
  }

  lemma FormatLengthStep(n: nat, base: nat, width: nat, upper: bool)
    requires 2 <= base <= 16
    requires !(n < base && width <= 1)
    requires var w := if width == 0 then 0 else width - 1;
      var f := Format(n / base, base, w, upper);
      |f| >= w && |f| >= 1 && (1 <= w && n / base < Pow(base, w) ==> |f| == w)
    ensures |Format(n, base, width, upper)| >= width
    ensures |Format(n, base, width, upper)| >= 1
    ensures 1 <= width && n < Pow(base, width) ==> |Format(n, base, width, upper)| == width
  {
    var w := if width == 0 then 0 else width - 1;
    FormatUnfold(n, base, width, upper);
    if 1 <= width && n < Pow(base, width) {
      assert width == 1 ==> Pow(base, width) == base;
      assert Pow(base, width) == base * Pow(base, w);
      DivBound(n, base, Pow(base, w));
    }
  }

  /** `k` zero digits. */
  function Zeros(k: nat): (s: string)
    ensures |s| == k
  {
    if k == 0 then [] else Zeros(k - 1) + "0"
  }

  /** Zero digits are the padding: the rendering is the unpadded digits with '0's in front, up to `width`. */
  lemma {:induction false} FormatPads(n: nat, base: nat, width: nat, upper: bool)
    requires 2 <= base <= 16
    ensures var u := Format(n, base, 1, upper);
      Format(n, base, width, upper) == Zeros(if width > |u| then width - |u| else 0) + u
    decreases n, width
  {
    if n < base && width <= 1 {
      PadsNone(n, base, width, upper);
    } else if n < base {
      FormatPads(0, base, width - 1, upper);
      PadsOneDigit(n, base, width, upper);
    } else {
      DivMod(n, base);
      FormatPads(n / base, base, if width == 0 then 0 else width - 1, upper);
      PadsMoreDigits(n, base, width, upper);
    }
  }

  lemma PadsNone(n: nat, base: nat, width: nat, upper: bool)
    requires 2 <= base <= 16 && n < base && width <= 1
    ensures |Format(n, base, 1, upper)| == 1
    ensures Format(n, base, width, upper) == Zeros(0) + Format(n, base, 1, upper)
  {
    var d := DigitChar(n, upper);
    assert Format(n, base, width, upper) == [d];
    assert Format(n, base, 1, upper) == [d];
    assert Zeros(0) == [];
  }

  lemma PadsOneDigit(n: nat, base: nat, width: nat, upper: bool)
    requires 2 <= base <= 16 && n < base && width >= 2
    requires var u := Format(0, base, 1, upper);
      Format(0, base, width - 1, upper) == Zeros(if width - 1 > |u| then width - 1 - |u| else 0) + u
    ensures Format(n, base, width, upper) == Zeros(width - 1) + Format(n, base, 1, upper)
  {
    SmallDiv(n, base);
    FormatUnfold(n, base, width, upper);
    var d := DigitChar(n, upper);
    assert Format(n, base, width, upper) == Format(0, base, width - 1, upper) + [d];
    assert Format(0, base, 1, upper) == "0" by {
      assert DigitChar(0, upper) == '0';
    }
    assert Format(n, base, 1, upper) == [d];
    assert Zeros(width - 2) + "0" == Zeros(width - 1);
  }

  lemma PadsMoreDigits(n: nat, base: nat, width: nat, upper: bool)
    requires 2 <= base <= 16 && n >= base
    requires var w := if width == 0 then 0 else width - 1;
      var v := Format(n / base, base, 1, upper);
      Format(n / base, base, w, upper) == Zeros(if w > |v| then w - |v| else 0) + v
    ensures var u := Format(n, base, 1, upper);
      Format(n, base, width, upper) == Zeros(if width > |u| then width - |u| else 0) + u
  {
    var w := if width == 0 then 0 else width - 1;
    var v := Format(n / base, base, 1, upper);
    var d := [DigitChar(n % base, upper)];
    FormatUnfold(n, base, width, upper);
    FormatUnfold(n, base, 1, upper);
    FormatWidthZero(n / base, base, upper);
    var k := if w > |v| then w - |v| else 0;
    assert Format(n, base, 1, upper) == v + d;
    assert Format(n, base, width, upper) == Zeros(k) + (v + d);
  }

  /** Widths 0 and 1 render alike: every number has at least one digit. */
  lemma FormatWidthZero(n: nat, base: nat, upper: bool)
    requires 2 <= base <= 16
    ensures Format(n, base, 0, upper) == Format(n, base, 1, upper)
  {
  }

  /** The unpadded rendering of a positive number has no leading zero. */
  lemma {:induction false} NoLeadingZero(n: nat, base: nat, upper: bool)
    requires 2 <= base <= 16 && n > 0
    ensures Format(n, base, 1, upper)[0] != '0'
    decreases n
  {
    if n >= base {
      DivMod(n, base);
      FormatUnfold(n, base, 1, upper);
      FormatWidthZero(n / base, base, upper);
      NoLeadingZero(n / base, base, upper);
    }
  }

  /** Python's `int(s)` for an optional minus sign followed by decimal digits. */
  function SignedValue(s: string): int
  {
    if s != [] && s[0] == '-' then -(Value(s[1..], 10) as int) else Value(s, 10)
  }

  /** Python's `str(i)` for an integer of either sign: reading it back gives `i`. */
  function Decimal(i: int): (s: string)
    ensures SignedValue(s) == i
  {
    var m: nat := if i < 0 then -i else i;
    var digits := Format(m, 10, 1, true);
    FormatValue(m, 10, 1, true);
    FormatLength(m, 10, 1, true);
    assert IsDigit(digits[0], true);
    if i < 0 then
      assert ("-" + digits)[1..] == digits;
      "-" + digits
    else digits
  }

  /** `int.from_bytes(data, byteorder="big")`, which fits in `|data|` bytes. */
  function BigEndian(data: seq<byte>): (v: nat)
    ensures v < Pow(256, |data|)
  {
    if data == [] then 0 else BigEndian(data[..|data| - 1]) * 256 + data[|data| - 1] as nat
  }

  /** `v.to_bytes(n, byteorder="big")`, the inverse of `BigEndian` on values that fit. */
  function ToBytes(v: nat, n: nat): (data: seq<byte>)
    ensures |data| == n
  {
    if n == 0 then [] else ToBytes(v / 256, n - 1) + [(v % 256) as byte]
  }

  /** Reading `n` bytes back gives the big-endian value, for any `v` below `256^n`. */
  lemma {:induction false} BigEndianToBytes(v: nat, n: nat)
    requires v < Pow(256, n)
    ensures BigEndian(ToBytes(v, n)) == v
  {
    if n > 0 {
      var d := ToBytes(v, n);
      DivBound(v, 256, Pow(256, n - 1));
      BigEndianToBytes(v / 256, n - 1);
      assert d[..n - 1] == ToBytes(v / 256, n - 1);
    }
  }

  /** The bytes come back from their big-endian value. */
  lemma {:induction false} ToBytesBigEndian(data: seq<byte>)
    ensures ToBytes(BigEndian(data), |data|) == data
  {
    if data != [] {
      var init := data[..|data| - 1];
      var v := BigEndian(data);
      assert v / 256 == BigEndian(init) && v % 256 == data[|data| - 1] as nat;
      ToBytesBigEndian(init);
      assert data == init + [data[|data| - 1]];
    }
  }

  /** Two hex digits of one byte (`"{:02X}"` or `"{:02x}"`). */
  function HexByte(b: byte, upper: bool): (s: string)
    ensures |s| == 2 && Value(s, 16) == b as nat
    ensures s == Format(b as nat, 16, 2, upper)
  {
    assert Pow(16, 2) == 256 by { assert Pow(16, 1) == 16; }
    FormatLength(b as nat, 16, 2, upper);
    FormatValue(b as nat, 16, 2, upper);
    Format(b as nat, 16, 2, upper)
  }

  /** `binascii.hexlify`: two lower-case hex digits per byte, in order. */
  function Hexlify(data: seq<byte>): (s: string)
    ensures |s| == 2 * |data|
    ensures forall i :: 0 <= i < |s| ==> IsDigit(s[i], false)
  {
    if data == [] then []
    else
      var head, rest := HexByte(data[0], false), Hexlify(data[1..]);
      assert forall i :: 0 <= i < |head + rest| ==> (head + rest)[i] == if i < 2 then head[i] else rest[i - 2];
      head + rest
  }

  /** The inverse of `Hexlify`: every two characters give one byte. */
  function Unhexlify(s: string): seq<byte>
  {
    if |s| < 2 then [] else [(Value(s[..2], 16) % 256) as byte] + Unhexlify(s[2..])
  }

  /** Byte `i` of the data is rendered at characters `2i` and `2i+1`. */
  lemma {:induction false} HexlifyAt(data: seq<byte>, i: nat)
    requires i < |data|
    ensures Hexlify(data)[2 * i .. 2 * i + 2] == HexByte(data[i], false)
  {
    if i > 0 {
      HexlifyAt(data[1..], i - 1);
      assert Hexlify(data) == HexByte(data[0], false) + Hexlify(data[1..]);
      assert Hexlify(data)[2 * i .. 2 * i + 2] == Hexlify(data[1..])[2 * (i - 1) .. 2 * (i - 1) + 2];
    }
  }

  lemma {:induction false} UnhexlifyHexlify(data: seq<byte>)
    ensures Unhexlify(Hexlify(data)) == data
  {
    if data != [] {
      HexlifyHead(data);
      UnhexlifyHexlify(data[1..]);
      assert data == [data[0]] + data[1..];
    }
  }

  /** The first two characters of a non-empty hexlified string read back as its first byte. */
  lemma HexlifyHead(data: seq<byte>)
    requires data != []
    ensures Unhexlify(Hexlify(data)) == [data[0]] + Unhexlify(Hexlify(data[1..]))
  {
    var head, rest := HexByte(data[0], false), Hexlify(data[1..]);
    assert Hexlify(data) == head + rest;
    UnhexlifyCons(head, rest, data[0]);
  }

  lemma UnhexlifyCons(head: string, rest: string, b: byte)
    requires |head| == 2 && Value(head, 16) == b as nat
    ensures Unhexlify(head + rest) == [b] + Unhexlify(rest)
  {
    SplitAt(head, rest);
    UnhexlifyUnfold(head + rest);
  }

  lemma SplitAt(a: string, b: string)
    ensures (a + b)[..|a|] == a && (a + b)[|a|..] == b
  {
  }

  lemma UnhexlifyUnfold(s: string)
    requires |s| >= 2
    ensures Unhexlify(s) == [(Value(s[..2], 16) % 256) as byte] + Unhexlify(s[2..])
  {
  }
}
