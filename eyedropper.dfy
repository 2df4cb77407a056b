/**
 * The eyedropper of the second variant: one flag, `is_eyedropper_active`,
 * switched by the button, by Escape and by a click while it is on. A click
 * while it is on samples the screen pixel under the pointer, writes its HSV
 * into the three colour fields and redraws; whether that succeeds or
 * raises, the mode ends.
 */
module Eyedropper {

  import opened Wrappers
  import opened ColorMath
  import Text
  import opened Display

  class Picker {
    var active: bool
    const form: ColorForm

    /** The flag starts off. */
    constructor (form: ColorForm)
      ensures !active && this.form == form
    {
      active := false;
      this.form := form;
    }

    /** `toggle_eyedropper`: switches the mode on; when it is already on, cancels it. */
    method Toggle()
      modifies this
      ensures active == !old(active)
    {
      if !active {
        active := true;
      } else {
        Cancel();
      }
    }

    /** `cancel_eyedropper`: the mode is off afterwards, whatever it was. */
    method Cancel()
      modifies this
      ensures !active
    {
      active := false;
    }

    /**
     * `pick_color`. `sample` is the pixel under the pointer, `None` where
     * reading the pointer, grabbing the screen or reading the pixel raises.
     * Off: nothing changes. On: the mode ends in every case; on a sample the
     * hue, saturation and value fields get `str` of its HSV and the frame is
     * redrawn from the fields; without one, fields and rows stay.
     */
    method PickColor(parse: IntReader, toRgb: HsvToRgb, toHsv: RgbToHsv, sample: Option<Rgb>)
      modifies this, form
      ensures !old(active) ==> !active && unchanged(form)
      ensures old(active) ==> !active
      ensures old(active) && sample.None? ==> unchanged(form)
      ensures old(active) && sample.Some? ==>
        var hsv := toHsv(sample.value.r, sample.value.g, sample.value.b);
        && form.hueText == Text.IntToString(hsv.h)
        && form.satText == Text.IntToString(hsv.s)
        && form.valText == Text.IntToString(hsv.v)
        && form.stepText == old(form.stepText)
        && form.stepsText == old(form.stepsText)
        && form.rows == Refresh(toRgb, form.Reading(parse), old(form.rows))
    {
      if active {
        if sample.Some? {
          var c := sample.value;
          var hsv := toHsv(c.r, c.g, c.b);
          form.hueText := Text.IntToString(hsv.h);
          form.satText := Text.IntToString(hsv.s);
          form.valText := Text.IntToString(hsv.v);
          form.UpdateColors(parse, toRgb);
        }
        Cancel();
      }
    }
  }
}
