/**
 * Ramp generation: the row loop of `update_colors`. From a base hue,
 * saturation and value, a step and a row count it builds one row per loop
 * position `i`, with the value lowered by `i * step` and clamped at 0 from
 * below; hue and saturation never change. Each row carries what the window
 * shows and the three strings a click copies.
 */
module Ramp {

  import opened Wrappers
  import opened ColorMath
  import Text

  /**
   * One displayed row: its 1-based number and its colour. The HEX string,
   * the two labels and the three strings a click copies are all determined
   * by these and are given as members.
   */
  datatype ColorRow = ColorRow(index: int, hsv: Hsv, rgb: Rgb) {

    /** `rgb_to_hex(*rgb)`, shown as the HEX label and as the colour box. */
    function Hex(): string {
      RgbToHex(rgb.r, rgb.g, rgb.b)
    }

    /** Copied on a click on the HSV label. */
    function HsvCopy(): string {
      Text.CopyText(hsv.h, hsv.s, hsv.v)
    }

    /** The HSV label. */
    function HsvText(): string {
      "HSV(" + HsvCopy() + ")"
    }

    /** Copied on a click on the RGB label. */
    function RgbCopy(): string {
      Text.CopyText(rgb.r, rgb.g, rgb.b)
    }

    /** The RGB label. */
    function RgbText(): string {
      "RGB(" + RgbCopy() + ")"
    }

    /** Copied on a click on the HEX label. */
    function HexCopy(): string {
      Hex()
    }
  }

  /** The value of loop position `i`: `v - i * step`, raised to 0 when it is negative. */
  function RowValue(v: int, step: int, i: nat): (r: int)
    ensures r >= 0 && r >= v - i * step
    ensures r == 0 || r == v - i * step
  {
    if v - i * step < 0 then 0 else v - i * step
  }

  /** The row the loop body builds from `h`, `s`, the clamped value and the row number. */
  function Row(toRgb: HsvToRgb, h: int, s: int, currentV: int, index: int): ColorRow
  {
    ColorRow(index, Hsv(h, s, currentV), toRgb(h, s, currentV))
  }

  /** The first `n` rows of the ramp. */
  function RampPrefix(toRgb: HsvToRgb, h: int, s: int, v: int, step: int, n: nat): seq<ColorRow>
  {
    if n == 0 then []
    else RampPrefix(toRgb, h, s, v, step, n - 1) + [Row(toRgb, h, s, RowValue(v, step, n - 1), n)]
  }

  /** The rows of `for i in range(steps)`: none at all when `steps` is 0 or negative. */
  function RampSpec(toRgb: HsvToRgb, h: int, s: int, v: int, step: int, steps: int): seq<ColorRow>
  {
    RampPrefix(toRgb, h, s, v, step, if steps > 0 then steps else 0)
  }

  /** The row loop: one row appended per loop position, as `update_colors` adds one grid row per position. */
  method GenerateRamp(toRgb: HsvToRgb, h: int, s: int, v: int, step: int, steps: int)
    returns (rows: seq<ColorRow>)
    ensures rows == RampSpec(toRgb, h, s, v, step, steps)
  {
    rows := [];
    var i := 0;
    while i < steps
      invariant 0 <= i
      invariant steps > 0 ==> i <= steps
      invariant steps <= 0 ==> i == 0
      invariant rows == RampPrefix(toRgb, h, s, v, step, i)
    {
      var currentV := v - i * step;
      if currentV < 0 {
        currentV := 0;
      }
      rows := rows + [Row(toRgb, h, s, currentV, i + 1)];
      i := i + 1;
    }
  }

  lemma {:induction false} RampPrefixLength(toRgb: HsvToRgb, h: int, s: int, v: int, step: int, n: nat)
    ensures |RampPrefix(toRgb, h, s, v, step, n)| == n
  {
    if n > 0 {
      RampPrefixLength(toRgb, h, s, v, step, n - 1);
    }
  }

  lemma {:induction false} RampPrefixAt(toRgb: HsvToRgb, h: int, s: int, v: int, step: int, n: nat, i: nat)
    requires i < n
    ensures |RampPrefix(toRgb, h, s, v, step, n)| == n
    ensures RampPrefix(toRgb, h, s, v, step, n)[i] == Row(toRgb, h, s, RowValue(v, step, i), i + 1)
  {
    var prefix := RampPrefix(toRgb, h, s, v, step, n - 1);
    var last := Row(toRgb, h, s, RowValue(v, step, n - 1), n);
    assert RampPrefix(toRgb, h, s, v, step, n) == prefix + [last];
    RampPrefixLength(toRgb, h, s, v, step, n - 1);
    if i < n - 1 {
      RampPrefixAt(toRgb, h, s, v, step, n - 1, i);
      assert (prefix + [last])[i] == prefix[i];
    } else {
      assert (prefix + [last])[i] == last;
    }
  }

  /** The ramp has exactly `max(steps, 0)` rows; a count of 0 or less gives none. */
  lemma RampLength(toRgb: HsvToRgb, h: int, s: int, v: int, step: int, steps: int)
    ensures |RampSpec(toRgb, h, s, v, step, steps)| == if steps > 0 then steps else 0
    ensures steps <= 0 ==> RampSpec(toRgb, h, s, v, step, steps) == []
  {
    RampPrefixLength(toRgb, h, s, v, step, if steps > 0 then steps else 0);
  }

  /**
   * Row `i` is numbered `i + 1`, has value `max(v - i * step, 0)` (so never
   * below 0) with the base hue and saturation, and its RGB and HEX are the
   * conversions of exactly that HSV.
   */
  lemma RampRow(toRgb: HsvToRgb, h: int, s: int, v: int, step: int, steps: int, i: int)
    requires 0 <= i < |RampSpec(toRgb, h, s, v, step, steps)|
    ensures var row := RampSpec(toRgb, h, s, v, step, steps)[i];
      && i < steps
      && row.index == i + 1
      && row.hsv.h == h && row.hsv.s == s
      && row.hsv.v == RowValue(v, step, i)
      && (v - i * step >= 0 ==> row.hsv.v == v - i * step)
      && (v - i * step < 0 ==> row.hsv.v == 0)
      && row.hsv.v >= 0
      && row.rgb == toRgb(h, s, row.hsv.v)
      && row.Hex() == RgbToHex(row.rgb.r, row.rgb.g, row.rgb.b)
  {
    RampLength(toRgb, h, s, v, step, steps);
    RampPrefixAt(toRgb, h, s, v, step, steps, i);
  }

  /**
   * The HSV and RGB payloads of a row (the HEX payload is the HEX string
   * itself) read back to the row's HSV and RGB: each determines the numbers shown.
   */
  lemma RowPayloads(row: ColorRow)
    ensures Text.ParseCopyText(row.HsvCopy()) == Some((row.hsv.h, row.hsv.s, row.hsv.v))
    ensures Text.ParseCopyText(row.RgbCopy()) == Some((row.rgb.r, row.rgb.g, row.rgb.b))
  {
    Text.CopyTextRoundTrip(row.hsv.h, row.hsv.s, row.hsv.v);
    Text.CopyTextRoundTrip(row.rgb.r, row.rgb.g, row.rgb.b);
  }

  /** With a non-negative step the values never increase down the ramp. */
  lemma RampNonIncreasing(toRgb: HsvToRgb, h: int, s: int, v: int, step: int, steps: int, i: int, j: int)
    requires step >= 0
    requires 0 <= i <= j < |RampSpec(toRgb, h, s, v, step, steps)|
    ensures RampSpec(toRgb, h, s, v, step, steps)[j].hsv.v <= RampSpec(toRgb, h, s, v, step, steps)[i].hsv.v
  {
    RampLength(toRgb, h, s, v, step, steps);
    RampPrefixAt(toRgb, h, s, v, step, steps, i);
    RampPrefixAt(toRgb, h, s, v, step, steps, j);
    RowValueNonIncreasing(v, step, i, j);
  }

  lemma RowValueNonIncreasing(v: int, step: int, i: nat, j: nat)
    requires step >= 0 && i <= j
    ensures RowValue(v, step, j) <= RowValue(v, step, i)
  {
  }

  /**
   * With a non-negative step, once a row has value 0 every later row equals
   * it in everything but its number: same HSV and RGB, hence the same HEX,
   * labels and payloads.
   */
  lemma RampZeroAbsorbs(toRgb: HsvToRgb, h: int, s: int, v: int, step: int, steps: int, i: int, j: int)
    requires step >= 0
    requires 0 <= i <= j < |RampSpec(toRgb, h, s, v, step, steps)|
    requires RampSpec(toRgb, h, s, v, step, steps)[i].hsv.v == 0
    ensures RampSpec(toRgb, h, s, v, step, steps)[j]
         == RampSpec(toRgb, h, s, v, step, steps)[i].(index := j + 1)
  {
    RampLength(toRgb, h, s, v, step, steps);
    RampPrefixAt(toRgb, h, s, v, step, steps, i);
    RampPrefixAt(toRgb, h, s, v, step, steps, j);
    RampNonIncreasing(toRgb, h, s, v, step, steps, i, j);
  }

  /** With step 0 every row shows the base colour (value clamped at 0) and differs only in its number. */
  lemma RampZeroStep(toRgb: HsvToRgb, h: int, s: int, v: int, steps: int, i: int)
    requires 0 <= i < |RampSpec(toRgb, h, s, v, 0, steps)|
    ensures RampSpec(toRgb, h, s, v, 0, steps)[i].hsv == Hsv(h, s, if v < 0 then 0 else v)
    ensures RampSpec(toRgb, h, s, v, 0, steps)[i] == RampSpec(toRgb, h, s, v, 0, steps)[0].(index := i + 1)
  {
    RampLength(toRgb, h, s, v, 0, steps);
    RampPrefixAt(toRgb, h, s, v, 0, steps, i);
    RampPrefixAt(toRgb, h, s, v, 0, steps, 0);
  }

  /**
   * The clamp is on the low side only: with a negative step and a
   * non-negative base the value grows by `-step` per row without bound, so
   * it leaves [0, 255] once enough rows are asked for.
   */
  lemma RampNegativeStep(toRgb: HsvToRgb, h: int, s: int, v: int, step: int, steps: int, i: int)
    requires step < 0 && v >= 0
    requires 0 <= i < steps
    ensures i < |RampSpec(toRgb, h, s, v, step, steps)|
    ensures RampSpec(toRgb, h, s, v, step, steps)[i].hsv.v == v - i * step
    ensures i > 0 ==> RampSpec(toRgb, h, s, v, step, steps)[i].hsv.v > RampSpec(toRgb, h, s, v, step, steps)[i - 1].hsv.v
  {
    RampLength(toRgb, h, s, v, step, steps);
    var ramp := RampSpec(toRgb, h, s, v, step, steps);
    RampRow(toRgb, h, s, v, step, steps, i);
    NoClampBelow(v, step, i);
    assert ramp[i].hsv.v == RowValue(v, step, i);
    if i > 0 {
      RampRow(toRgb, h, s, v, step, steps, i - 1);
      assert ramp[i - 1].hsv.v == RowValue(v, step, i - 1);
    }
  }

  lemma NoClampBelow(v: int, step: int, i: nat)
    requires step < 0 && v >= 0
    ensures RowValue(v, step, i) == v - i * step >= v
    ensures i > 0 ==> RowValue(v, step, i) == RowValue(v, step, i - 1) - step
  {
  }

  /** A row count of two with step -5 from value 255 already shows value 260. */
  lemma RampNegativeStepExample(toRgb: HsvToRgb, h: int, s: int)
    ensures |RampSpec(toRgb, h, s, 255, -5, 2)| == 2
    ensures RampSpec(toRgb, h, s, 255, -5, 2)[1].hsv.v == 260
  {
    RampLength(toRgb, h, s, 255, -5, 2);
    RampRow(toRgb, h, s, 255, -5, 2, 1);
  }

  /**
   * When the conversion yields byte channels at the values the ramp reaches,
   * every row's HEX is `#rrggbb` and decodes to its RGB.
   */
  lemma RampHexWellFormed(toRgb: HsvToRgb, h: int, s: int, v: int, step: int, steps: int)
    requires forall i: nat :: i < steps ==> IsByteRgb(toRgb(h, s, RowValue(v, step, i)))
    ensures forall row :: row in RampSpec(toRgb, h, s, v, step, steps) ==>
      IsHexColor(row.Hex()) && ParseHexColor(row.Hex()) == Some(row.rgb)
  {
    var ramp := RampSpec(toRgb, h, s, v, step, steps);
    forall row | row in ramp
      ensures IsHexColor(row.Hex()) && ParseHexColor(row.Hex()) == Some(row.rgb)
    {
      var i :| 0 <= i < |ramp| && ramp[i] == row;
      RampRow(toRgb, h, s, v, step, steps, i);
      RgbToHexWellFormed(row.rgb.r, row.rgb.g, row.rgb.b);
      HexRoundTrip(row.rgb);
    }
  }

  /** Base value 10, step 5, four rows: values 10, 5, 0, 0, and the last two rows agree but for their number. */
  lemma RampClampExample(toRgb: HsvToRgb)
    ensures var ramp := RampSpec(toRgb, 120, 255, 10, 5, 4);
      && |ramp| == 4
      && ramp[0].hsv.v == 10 && ramp[1].hsv.v == 5 && ramp[2].hsv.v == 0 && ramp[3].hsv.v == 0
      && ramp[3] == ramp[2].(index := 4)
  {
  }

  /**
   * Base (0, 255, 255), step 5, eight rows, with a conversion that maps
   * hue 0 at full saturation and values 255, 250 and 220 to pure red: row 1 is `#ff0000`, row 2 `#fa0000`, and
   * row 8 has value 220 and `#dc0000`.
   */
  lemma RampRedExample(toRgb: HsvToRgb)
    requires toRgb(0, 255, 255) == Rgb(255, 0, 0)
    requires toRgb(0, 255, 250) == Rgb(250, 0, 0)
    requires toRgb(0, 255, 220) == Rgb(220, 0, 0)
    ensures var ramp := RampSpec(toRgb, 0, 255, 255, 5, 8);
      && |ramp| == 8
      && ramp[0].index == 1 && ramp[0].hsv == Hsv(0, 255, 255) && ramp[0].Hex() == "#ff0000"
      && ramp[1].index == 2 && ramp[1].hsv == Hsv(0, 255, 250) && ramp[1].Hex() == "#fa0000"
      && ramp[7].index == 8 && ramp[7].hsv == Hsv(0, 255, 220) && ramp[7].rgb == Rgb(220, 0, 0)
      && ramp[7].Hex() == "#dc0000"
  {
    RampRow(toRgb, 0, 255, 255, 5, 8, 0);
    RampRow(toRgb, 0, 255, 255, 5, 8, 1);
    RampRow(toRgb, 0, 255, 255, 5, 8, 7);
    HexExamples();
  }
}
