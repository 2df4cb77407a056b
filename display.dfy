/**
 * `update_colors` as a state change of the window: the five entry fields
 * hold text, the colour frame holds the rows last drawn. All five fields
 * are read as integers before anything is redrawn; if one of them does not
 * read (Python's `int()` raises `ValueError`, which is swallowed) the frame
 * keeps the rows it had.
 */
module Display {

  import opened Wrappers
  import opened ColorMath
  import opened Ramp
  import Text

  /** Initial contents of the step and count fields. */
  const DEFAULT_STEP_SIZE := 5
  const DEFAULT_STEPS := 8

  /** Python's `int(text)`: an integer, or `None` where it raises `ValueError`. */
  type IntReader = string -> Option<int>

  /** The five integers one redraw needs. */
  datatype RampInput = RampInput(h: int, s: int, v: int, step: int, steps: int)

  /** Combines the five field readings: all five must succeed. */
  function ParseInputs(hue: Option<int>, sat: Option<int>, val: Option<int>,
                       step: Option<int>, steps: Option<int>): (r: Option<RampInput>)
    ensures r.Some? <==> hue.Some? && sat.Some? && val.Some? && step.Some? && steps.Some?
    ensures r.Some? ==> r.value == RampInput(hue.value, sat.value, val.value, step.value, steps.value)
  {
    match (hue, sat, val, step, steps)
    case (Some(h), Some(s), Some(v), Some(d), Some(n)) => Some(RampInput(h, s, v, d, n))
    case _ => None
  }

  /** The rows on screen after a redraw that read `input`, when `shown` were on screen before. */
  function Refresh(toRgb: HsvToRgb, input: Option<RampInput>, shown: seq<ColorRow>): seq<ColorRow>
  {
    match input
    case None => shown
    case Some(p) => RampSpec(toRgb, p.h, p.s, p.v, p.step, p.steps)
  }

  /** If any of the five fields fails to read, the rows on screen stay as they were. */
  lemma RefreshKeepsRowsOnBadField(toRgb: HsvToRgb, hue: Option<int>, sat: Option<int>, val: Option<int>,
                                   step: Option<int>, steps: Option<int>, shown: seq<ColorRow>)
    requires hue.None? || sat.None? || val.None? || step.None? || steps.None?
    ensures Refresh(toRgb, ParseInputs(hue, sat, val, step, steps), shown) == shown
  {
  }

  /**
   * If all five fields read, the rows on screen are the ramp of those five
   * numbers, whatever was there before: nothing of the old rows survives.
   */
  lemma RefreshReplacesRows(toRgb: HsvToRgb, input: RampInput, shown: seq<ColorRow>, other: seq<ColorRow>)
    ensures Refresh(toRgb, Some(input), shown) == Refresh(toRgb, Some(input), other)
    ensures |Refresh(toRgb, Some(input), shown)| == if input.steps > 0 then input.steps else 0
  {
    RampLength(toRgb, input.h, input.s, input.v, input.step, input.steps);
  }

  /** Redrawing twice from the same fields shows what redrawing once shows. */
  lemma RefreshIdempotent(toRgb: HsvToRgb, input: Option<RampInput>, shown: seq<ColorRow>)
    ensures Refresh(toRgb, input, Refresh(toRgb, input, shown)) == Refresh(toRgb, input, shown)
  {
  }

  /** The entry fields and the rows of the colour frame. */
  class ColorForm {
    var hueText: string
    var satText: string
    var valText: string
    var stepText: string
    var stepsText: string
    var rows: seq<ColorRow>

    /** What a redraw would read from the five fields now. */
    function Reading(parse: IntReader): Option<RampInput>
      reads this
    {
      ParseInputs(parse(hueText), parse(satText), parse(valText), parse(stepText), parse(stepsText))
    }

    /** Window set-up: the fields get their initial text and the first redraw runs. */
    constructor (parse: IntReader, toRgb: HsvToRgb)
      ensures hueText == "0" && satText == "255" && valText == "255"
      ensures stepText == "5" && stepsText == "8"
      ensures rows == Refresh(toRgb, Reading(parse), [])
    {
      hueText, satText, valText := "0", "255", "255";
      stepText, stepsText := Text.IntToString(DEFAULT_STEP_SIZE), Text.IntToString(DEFAULT_STEPS);
      rows := [];
      new;
      UpdateColors(parse, toRgb);
    }

    /**
     * `update_colors`: read all five fields; only if every one reads,
     * clear the frame and draw the ramp. The fields are never changed.
     */
    method UpdateColors(parse: IntReader, toRgb: HsvToRgb)
      modifies this`rows
      ensures rows == Refresh(toRgb, Reading(parse), old(rows))
      ensures Reading(parse).None? ==> rows == old(rows)
    {
      var input := Reading(parse);
      match input
      case None =>
      case Some(p) =>
        rows := [];
        var ramp := GenerateRamp(toRgb, p.h, p.s, p.v, p.step, p.steps);
        rows := ramp;
    }
  }
}
