/**
 * The colour values of the utility and the one colour conversion that is
 * plain text formatting: `rgb_to_hex`, which writes each channel with
 * Python's format spec `02x` behind a `#`.
 *
 * The two float conversions `hsv_to_rgb` and `rgb_to_hsv` call into
 * `colorsys` and truncate with `int()`; they are not defined here, and the
 * modules that use them take them as function parameters (`HsvToRgb`,
 * `RgbToHsv`).
 */
module ColorMath {

  import opened Wrappers

  /** An HSV triple as the entry fields hold it: hue, saturation, value. */
  datatype Hsv = Hsv(h: int, s: int, v: int)

  /** An RGB triple; a channel is nominally in [0, 255] but nothing enforces it. */
  datatype Rgb = Rgb(r: int, g: int, b: int)

  /** `hsv_to_rgb(h, s, v)`: deterministic, otherwise unknown. */
  type HsvToRgb = (int, int, int) -> Rgb

  /** `rgb_to_hsv(r, g, b)`: deterministic, otherwise unknown. */
  type RgbToHsv = (int, int, int) -> Hsv

  predicate IsByte(x: int) {
    0 <= x <= 255
  }

  predicate IsByteRgb(c: Rgb) {
    IsByte(c.r) && IsByte(c.g) && IsByte(c.b)
  }

  predicate IsLowerHexDigit(c: char) {
    '0' <= c <= '9' || 'a' <= c <= 'f'
  }

  /** The lower-case hex digit of `d`, as Python's `x` conversion writes it. */
  function HexDigit(d: int): (c: char)
    requires 0 <= d < 16
    ensures IsLowerHexDigit(c)
  {
    if d < 10 then ('0' as int + d) as char else ('a' as int + d - 10) as char
  }

  /** The number a lower-case hex digit stands for. */
  function HexValue(c: char): (d: int)
    requires IsLowerHexDigit(c)
    ensures 0 <= d < 16
  {
    if c <= '9' then c as int - '0' as int else c as int - 'a' as int + 10
  }

  lemma HexDigitValue(d: int)
    requires 0 <= d < 16
    ensures HexValue(HexDigit(d)) == d
  {
  }

  lemma HexValueDigit(c: char)
    requires IsLowerHexDigit(c)
    ensures HexDigit(HexValue(c)) == c
  {
  }

  /** Hex digits of a natural number, most significant first, no leading zero. */
  function HexDigits(n: nat): (s: string)
    ensures |s| >= 1
  {
    if n < 16 then [HexDigit(n)] else HexDigits(n / 16) + [HexDigit(n % 16)]
  }

  /**
   * Python's `format(x, '02x')` for any integer: the hex digits of `|x|`,
   * a `-` in front of a negative number, and zeros after the sign up to a
   * width of two characters.
   */
  function Format02x(x: int): (s: string)
    ensures |s| >= 2
  {
    if x < 0 then "-" + HexDigits(-x)
    else if x < 16 then "0" + HexDigits(x)
    else HexDigits(x)
  }

  /** `rgb_to_hex(r, g, b)`: `#` followed by each channel in `02x` format. */
  function RgbToHex(r: int, g: int, b: int): (s: string)
    ensures |s| >= 7 && s[0] == '#'
  {
    "#" + Format02x(r) + Format02x(g) + Format02x(b)
  }

  /** A HEX colour as the utility shows it: `#` and six lower-case hex digits. */
  predicate IsHexColor(s: string) {
    |s| == 7 && s[0] == '#' && forall i :: 1 <= i < 7 ==> IsLowerHexDigit(s[i])
  }

  /** Reads a HEX colour back into its channels; `None` if it is not of the form `#rrggbb`. */
  function ParseHexColor(s: string): (c: Option<Rgb>)
    ensures c.Some? <==> IsHexColor(s)
    ensures c.Some? ==> IsByteRgb(c.value)
  {
    if IsHexColor(s) then
      Some(Rgb(16 * HexValue(s[1]) + HexValue(s[2]),
               16 * HexValue(s[3]) + HexValue(s[4]),
               16 * HexValue(s[5]) + HexValue(s[6])))
    else None
  }

  /** On a byte, `02x` writes exactly two lower-case digits: the high and the low nibble. */
  lemma Format02xByte(x: int)
    requires IsByte(x)
    ensures Format02x(x) == [HexDigit(x / 16), HexDigit(x % 16)]
  {
    if x >= 16 {
      assert HexDigits(x) == HexDigits(x / 16) + [HexDigit(x % 16)];
    }
  }

  lemma HexDigitsLength(n: nat)
    ensures n >= 16 ==> |HexDigits(n)| >= 2
    ensures n >= 256 ==> |HexDigits(n)| >= 3
  {
  }

  /**
   * Off the byte range `02x` is no longer two hex digits: a negative
   * channel starts with `-`, a channel above 255 takes three or more digits.
   */
  lemma Format02xOutOfRange(x: int)
    ensures |Format02x(x)| >= 2
    ensures x < 0 ==> Format02x(x)[0] == '-'
    ensures x > 255 ==> |Format02x(x)| >= 3
  {
    HexDigitsLength(if x < 0 then -x else x);
  }

  /** For channels in [0, 255] the result is `#` and six lower-case hex digits. */
  lemma RgbToHexWellFormed(r: int, g: int, b: int)
    requires IsByte(r) && IsByte(g) && IsByte(b)
    ensures |RgbToHex(r, g, b)| == 7
    ensures IsHexColor(RgbToHex(r, g, b))
  {
    Format02xByte(r);
    Format02xByte(g);
    Format02xByte(b);
  }

  /** Decoding the HEX string of byte channels gives the channels back. */
  lemma HexRoundTrip(c: Rgb)
    requires IsByteRgb(c)
    ensures ParseHexColor(RgbToHex(c.r, c.g, c.b)) == Some(c)
  {
    var s := RgbToHex(c.r, c.g, c.b);
    RgbToHexWellFormed(c.r, c.g, c.b);
    Format02xByte(c.r);
    Format02xByte(c.g);
    Format02xByte(c.b);
    assert s == ['#', HexDigit(c.r / 16), HexDigit(c.r % 16), HexDigit(c.g / 16),
                 HexDigit(c.g % 16), HexDigit(c.b / 16), HexDigit(c.b % 16)];
    HexDigitValue(c.r / 16);
    HexDigitValue(c.r % 16);
    HexDigitValue(c.g / 16);
    HexDigitValue(c.g % 16);
    HexDigitValue(c.b / 16);
    HexDigitValue(c.b % 16);
  }

  /** The byte written by two hex digits `hi lo` has `hi` as its high nibble and `lo` as its low one. */
  lemma NibbleDigits(hi: char, lo: char)
    requires IsLowerHexDigit(hi) && IsLowerHexDigit(lo)
    ensures var x := 16 * HexValue(hi) + HexValue(lo);
      IsByte(x) && Format02x(x) == [hi, lo]
  {
    var x := 16 * HexValue(hi) + HexValue(lo);
    assert x / 16 == HexValue(hi) && x % 16 == HexValue(lo);
    Format02xByte(x);
    HexValueDigit(hi);
    HexValueDigit(lo);
  }

  /** Every `#rrggbb` string is the HEX string of the channels it decodes to. */
  lemma HexDecodeCanonical(s: string)
    requires IsHexColor(s)
    ensures ParseHexColor(s).Some?
    ensures var c := ParseHexColor(s).value; RgbToHex(c.r, c.g, c.b) == s
  {
    var c := ParseHexColor(s).value;
    NibbleDigits(s[1], s[2]);
    NibbleDigits(s[3], s[4]);
    NibbleDigits(s[5], s[6]);
    assert RgbToHex(c.r, c.g, c.b) == [s[0]] + [s[1], s[2]] + [s[3], s[4]] + [s[5], s[6]];
  }

  /** On byte channels, different colours have different HEX strings. */
  lemma RgbToHexInjective(c: Rgb, d: Rgb)
    requires IsByteRgb(c) && IsByteRgb(d)
    requires RgbToHex(c.r, c.g, c.b) == RgbToHex(d.r, d.g, d.b)
    ensures c == d
  {
    HexRoundTrip(c);
    HexRoundTrip(d);
  }

  /** The output has the `#rrggbb` form exactly when all three channels are bytes. */
  lemma RgbToHexWellFormedIff(r: int, g: int, b: int)
    ensures IsHexColor(RgbToHex(r, g, b)) <==> IsByte(r) && IsByte(g) && IsByte(b)
  {
    if IsByte(r) && IsByte(g) && IsByte(b) {
      RgbToHexWellFormed(r, g, b);
    } else {
      var s := RgbToHex(r, g, b);
      Format02xOutOfRange(r);
      Format02xOutOfRange(g);
      Format02xOutOfRange(b);
      if |s| == 7 {
        assert |Format02x(r)| == 2 && |Format02x(g)| == 2 && |Format02x(b)| == 2;
        if r < 0 {
          assert s[1] == Format02x(r)[0];
        } else if g < 0 {
          assert s[3] == Format02x(g)[0];
        } else {
          assert s[5] == Format02x(b)[0];
        }
      }
    }
  }

  /** The three HEX strings the utility shows for pure red, black and white. */
  lemma HexExamples()
    ensures RgbToHex(255, 0, 0) == "#ff0000"
    ensures RgbToHex(0, 0, 0) == "#000000"
    ensures RgbToHex(255, 255, 255) == "#ffffff"
    ensures RgbToHex(250, 0, 0) == "#fa0000"
    ensures RgbToHex(220, 0, 0) == "#dc0000"
  {
  }
}
