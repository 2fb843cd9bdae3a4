/** The integer part of `hex_to_lch`: strip the leading `'#'` and read the
    two-digit groups at offsets 0, 2 and 4 as base-16 numbers. The division
    by 255 and the conversion to LCH that follow it are not modelled here. */
module HexDecode {
  import opened HexInput

  /** The value of one hex digit, as Python's `int(_, 16)` reads it. */
  function HexDigitValue(c: char): (v: nat)
    requires IsHexDigit(c)
    ensures v < 16
    ensures ('0' <= c <= '9') ==> v == c as int - '0' as int
    ensures ('a' <= c <= 'f') ==> v == c as int - 'a' as int + 10
    ensures ('A' <= c <= 'F') ==> v == c as int - 'A' as int + 10
  {
    if '0' <= c <= '9' then c as int - '0' as int
    else if 'a' <= c <= 'f' then c as int - 'a' as int + 10
    else c as int - 'A' as int + 10
  }

  /** The lower-case digit for a value below 16: the inverse of `HexDigitValue`. */
  function LowerHexDigit(v: nat): (c: char)
    requires v < 16
    ensures IsHexDigit(c) && HexDigitValue(c) == v
    ensures !('A' <= c <= 'F')
  {
    if v < 10 then ('0' as int + v) as char else ('a' as int + v - 10) as char
  }

  /** A hex digit in lower case. */
  function ToLowerHexDigit(c: char): char
    requires IsHexDigit(c)
  {
    if 'A' <= c <= 'F' then (c as int - 'A' as int + 'a' as int) as char else c
  }

  /** Reading a digit and writing it back in lower case lower-cases it. */
  lemma DigitRoundTrip(c: char)
    requires IsHexDigit(c)
    ensures LowerHexDigit(HexDigitValue(c)) == ToLowerHexDigit(c)
  {
  }

  /** `s.lstrip(ch)`: every leading `ch` removed. */
  function LStrip(s: string, ch: char): (r: string)
    ensures |r| <= |s| && r == s[|s| - |r|..]
    ensures forall i :: 0 <= i < |s| - |r| ==> s[i] == ch
    ensures r == [] || r[0] != ch
  {
    if s != [] && s[0] == ch then LStrip(s[1..], ch) else s
  }

  predicate AllHexDigits(digits: string)
  {
    forall i {:trigger IsHexDigit(digits[i])} :: 0 <= i < |digits| ==> IsHexDigit(digits[i])
  }

  /** `16` to the power `k`. */
  function Pow16(k: nat): nat
  {
    if k == 0 then 1 else 16 * Pow16(k - 1)
  }

  /** `int(digits, 16)` for a non-empty string of hex digits: the digits read
      most significant first, so `k` digits give a value below `16^k`. */
  function ParseHex(digits: string): (n: nat)
    requires |digits| >= 1
    requires AllHexDigits(digits)
    ensures n < Pow16(|digits|)
    decreases |digits|
  {
    var last := HexDigitValue(digits[|digits| - 1]);
    if |digits| == 1 then last else 16 * ParseHex(digits[..|digits| - 1]) + last
  }

  /** A two-digit group is `16 * d1 + d2` and lies in 0..255. */
  lemma ParseHexPair(digits: string)
    requires |digits| == 2 && IsHexDigit(digits[0]) && IsHexDigit(digits[1])
    ensures ParseHex(digits) == 16 * HexDigitValue(digits[0]) + HexDigitValue(digits[1])
    ensures 0 <= ParseHex(digits) <= 255
  {
    assert digits[..1] == [digits[0]];
  }

  /** The three integers of an sRGB colour. */
  datatype Rgb = Rgb(red: int, green: int, blue: int)

  predicate IsByteTriple(rgb: Rgb)
  {
    0 <= rgb.red <= 255 && 0 <= rgb.green <= 255 && 0 <= rgb.blue <= 255
  }

  /** The channel that starts at `at` of the six digits of a hex code. */
  function Channel(hexCode: string, at: nat): int
    requires IsValidHexCode(hexCode) && at <= 4
  {
    16 * HexDigitValue(hexCode[1 + at]) + HexDigitValue(hexCode[2 + at])
  }

  /** `hex_to_lch` up to the division by 255: `hex_color.lstrip('#')`, then
      `int(hex_color[i:i+2], 16)` for `i` in `(0, 2, 4)`. Only ever reached
      with codes that passed `isValidHexCode`. Each channel is its pair of
      digits, case-insensitively, read as `16 * d1 + d2`. */
  function HexToRgb(hexColor: string): (rgb: Rgb)
    requires IsValidHexCode(hexColor)
    ensures IsByteTriple(rgb)
    ensures rgb == Rgb(Channel(hexColor, 0), Channel(hexColor, 2), Channel(hexColor, 4))
  {
    var h := LStrip(hexColor, '#');
    StripHash(hexColor);
    PairAt(hexColor, 0);
    PairAt(hexColor, 2);
    PairAt(hexColor, 4);
    Rgb(ParseHex(h[0..2]), ParseHex(h[2..4]), ParseHex(h[4..6]))
  }

  /** A valid code has exactly one leading `'#'`. */
  lemma StripHash(hexColor: string)
    requires IsValidHexCode(hexColor)
    ensures LStrip(hexColor, '#') == hexColor[1..]
  {
    var h := LStrip(hexColor, '#');
    assert hexColor[1] != '#';
    assert |h| == 6;
  }

  /** The two digits at `at` of the stripped code read as that channel. */
  lemma PairAt(hexColor: string, at: nat)
    requires IsValidHexCode(hexColor) && at <= 4
    ensures |hexColor[1..][at..at + 2]| == 2 && AllHexDigits(hexColor[1..][at..at + 2])
    ensures ParseHex(hexColor[1..][at..at + 2]) == Channel(hexColor, at)
    ensures 0 <= Channel(hexColor, at) <= 255
  {
    var pair := hexColor[1..][at..at + 2];
    assert pair[0] == hexColor[1 + at] && pair[1] == hexColor[2 + at];
    ParseHexPair(pair);
  }

  /** The two lower-case digits of a byte. */
  function ByteDigits(v: int): (d: string)
    requires 0 <= v <= 255
    ensures |d| == 2 && IsHexDigit(d[0]) && IsHexDigit(d[1])
    ensures 16 * HexDigitValue(d[0]) + HexDigitValue(d[1]) == v
  {
    [LowerHexDigit(v / 16), LowerHexDigit(v % 16)]
  }

  /** The lower-case code of a colour: the inverse of `HexToRgb`. */
  function RgbToHex(rgb: Rgb): (hexCode: string)
    requires IsByteTriple(rgb)
    ensures IsValidHexCode(hexCode)
  {
    "#" + ByteDigits(rgb.red) + ByteDigits(rgb.green) + ByteDigits(rgb.blue)
  }

  /** The two digits of a code at `at`, in lower case. */
  function LowerPair(hexCode: string, at: nat): string
    requires IsValidHexCode(hexCode) && at <= 4
  {
    [ToLowerHexDigit(hexCode[1 + at]), ToLowerHexDigit(hexCode[2 + at])]
  }

  /** A hex code with its digits in lower case. */
  function LowerCode(hexCode: string): string
    requires IsValidHexCode(hexCode)
  {
    "#" + LowerPair(hexCode, 0) + LowerPair(hexCode, 2) + LowerPair(hexCode, 4)
  }

  /** Writing a colour out and decoding it gives the colour back. */
  lemma DecodeEncode(rgb: Rgb)
    requires IsByteTriple(rgb)
    ensures HexToRgb(RgbToHex(rgb)) == rgb
  {
    var h := RgbToHex(rgb);
    var r, g, b := ByteDigits(rgb.red), ByteDigits(rgb.green), ByteDigits(rgb.blue);
    assert h[1] == r[0] && h[2] == r[1];
    assert h[3] == g[0] && h[4] == g[1];
    assert h[5] == b[0] && h[6] == b[1];
  }

  lemma DivModByte(hi: nat, lo: nat)
    requires hi < 16 && lo < 16
    ensures (16 * hi + lo) / 16 == hi && (16 * hi + lo) % 16 == lo
  {
  }

  /** A channel written back out gives its two digits in lower case. */
  lemma ChannelRoundTrip(hexCode: string, at: nat)
    requires IsValidHexCode(hexCode) && at <= 4
    ensures 0 <= Channel(hexCode, at) <= 255
    ensures ByteDigits(Channel(hexCode, at)) == LowerPair(hexCode, at)
  {
    DivModByte(HexDigitValue(hexCode[1 + at]), HexDigitValue(hexCode[2 + at]));
    DigitRoundTrip(hexCode[1 + at]);
    DigitRoundTrip(hexCode[2 + at]);
  }

  /** Decoding a code and writing it back out gives the code in lower case. */
  lemma EncodeDecode(hexCode: string)
    requires IsValidHexCode(hexCode)
    ensures RgbToHex(HexToRgb(hexCode)) == LowerCode(hexCode)
  {
    ChannelRoundTrip(hexCode, 0);
    ChannelRoundTrip(hexCode, 2);
    ChannelRoundTrip(hexCode, 4);
  }

  /** Decoding ignores the case of the digits. */
  lemma HexToRgbIgnoresCase(a: string, b: string)
    requires IsValidHexCode(a) && IsValidHexCode(b)
    requires LowerCode(a) == LowerCode(b)
    ensures HexToRgb(a) == HexToRgb(b)
  {
    EncodeDecode(a);
    EncodeDecode(b);
    DecodeEncode(HexToRgb(a));
    DecodeEncode(HexToRgb(b));
  }
}
