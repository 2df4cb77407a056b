# HSV colour ramp utility — a Dafny model

The utility is a small Tkinter window with two variants, `color.py` and
`color2.py`. Five entry fields hold a hue, a saturation, a value, a step
and a row count. Each redraw (`update_colors`) shows a ramp of rows: row
`i` keeps the hue and saturation and lowers the value by `i * step`. The
value is clamped at 0 from below only. Each row shows its 1-based number,
the HSV text, the RGB text and the HEX string, and a click on any of those
three copies a plain-text payload. `color2.py` adds an eyedropper mode.
When the mode is on, a click samples the screen pixel under the pointer,
writes its HSV into the three colour fields and redraws.

`rgb_to_hex` and `update_colors` are the same text in both files, so each
is modelled once. The rows below cite one file or the other.

Modules:

- `Wrappers`: `Option`.
- `Text`: Python's `str` of an integer, the copy payload `"{a}, {b}, {c}"`,
  and decoders that read both back.
- `ColorMath`: the `Hsv` and `Rgb` values, `rgb_to_hex` with Python's
  `02x` format for every integer (not just bytes), and a `#rrggbb` decoder.
- `Ramp`: the row record. A row holds its number, HSV and RGB. Its HEX
  string, its two labels and its three copy payloads are member functions,
  because the loop derives each of them from those values. It also has the
  row loop as a method
  (`GenerateRamp`), proved equal to the pure `RampSpec`, and the ramp's
  properties.
- `Display`: the entry fields and the frame's rows. `update_colors` reads
  all five fields before it touches the frame.
- `Eyedropper`: the one-flag state machine of `color2.py`.

The float conversions `hsv_to_rgb` and `rgb_to_hsv` are function parameters
(`HsvToRgb`, `RgbToHsv`). Every ramp property holds for any deterministic
conversion. Python's `int()` on a field's text is also a parameter
(`IntReader`), returning an integer or `None` where `int()` raises
`ValueError`. The screen sample is an `Option<Rgb>`, where `None` stands
for any exception inside the `try` of `pick_color`.

The entry labels read Hue (0-360), Saturation (0-255) and Value (0-255),
but `update_colors` accepts any integers, and so does the model:

- A count of 0 or less gives no rows (`RampLength`).
- A negative step raises the value with no upper bound (`RampNegativeStep`).
- `RgbToHex` is total, and `RgbToHexWellFormedIff` shows that the
  `#rrggbb` form holds exactly when all three channels are bytes.

## Model

| member | source | states |
|---|---|---|
| `Text.IntToString` | color2.py:240-241 | Python's `str` of an integer, as an f-string field writes it: at least one character, and it starts with `-` exactly when the integer is negative; `IntToStringRoundTrip` reads it back |
| `Text.CopyText` | color2.py:241 | The payload `"{a}, {b}, {c}"`: `IntToString` of each number, separated by `", "` (definition; `CopyTextRoundTrip` proves what it determines) |
| `Text.IntToStringRoundTrip` | color2.py:240-241 | Reading back the decimal text Python's `str` writes for an integer gives that integer, negatives included |
| `Text.CopyTextRoundTrip` | color.py:59 | A payload `"{a}, {b}, {c}"` splits at its two `", "` separators and decodes to exactly `(a, b, c)` |
| `Text.CopyTextInjective` | color.py:66 | Two equal payloads come from the same three integers |
| `ColorMath.Format02x` | color2.py:150 | Python's `02x` for every integer: the hex digits of the magnitude, a `-` for negatives, zero-padded to a width of at least two characters |
| `ColorMath.RgbToHex` | color2.py:149-150 | `rgb_to_hex`: `#` then `Format02x` of each channel, for every integer, so at least 7 characters starting with `#`; the rows below prove its properties |
| `ColorMath.Format02xByte` | color2.py:150 | For a channel in [0, 255], `02x` writes exactly two lower-case hex digits: the high nibble, then the low nibble, zero-padded |
| `ColorMath.Format02xOutOfRange` | color.py:26 | `02x` always writes at least two characters; a negative channel starts with `-`; a channel above 255 takes three or more digits |
| `ColorMath.ParseHexColor` | color2.py:149-150 | The decoder succeeds exactly on strings of the output form `#` plus six lower-case hex digits, and then yields byte channels |
| `ColorMath.RgbToHexWellFormed` | color2.py:149-150 | For channels in [0, 255] the HEX string has length 7, starts with `#` and has six lower-case hex digits |
| `ColorMath.HexRoundTrip` | color.py:25-26 | Decoding the HEX string of byte channels gives back the same `(r, g, b)` |
| `ColorMath.HexDecodeCanonical` | color2.py:149-150 | Every `#rrggbb` string in lower case is the HEX string of the channels it decodes to, so decoder and formatter are inverse both ways |
| `ColorMath.RgbToHexInjective` | color.py:25-26 | On byte channels, different colours have different HEX strings |
| `ColorMath.RgbToHexWellFormedIff` | color2.py:149-150 | The output has the `#rrggbb` form if and only if all three channels are in [0, 255]; the function itself does not guard the range |
| `ColorMath.HexExamples` | color.py:25-26 | `(255,0,0)`, `(0,0,0)`, `(255,255,255)`, `(250,0,0)`, `(220,0,0)` give `#ff0000`, `#000000`, `#ffffff`, `#fa0000`, `#dc0000` |
| `Ramp.RowValue` | color2.py:228-230 | The clamped value of loop position `i`: never negative, never below `v - i*step`, and equal to one of them, i.e. `max(v - i*step, 0)` |
| `Ramp.Row` | color2.py:232-236 | The row the loop body builds: number `index`, HSV `(h, s, current_v)`, RGB the conversion of that HSV (definition; `RampRow` states it per row) |
| `Ramp.RampSpec` | color2.py:227 | The rows of `for i in range(steps)`: row `i` is `Row` at `RowValue(v, step, i)` numbered `i + 1` (definition; `RampLength` and `RampRow` state its properties) |
| `Ramp.ColorRow.Hex` | color2.py:233 | `hex_color = rgb_to_hex(*rgb)` of the row (definition) |
| `Ramp.ColorRow.HsvCopy` | color2.py:241 | `"{h}, {s}, {current_v}"` of the row (definition; `RowPayloads` reads it back) |
| `Ramp.ColorRow.HsvText` | color2.py:240 | `"HSV({h}, {s}, {current_v})"`, the HSV label (definition) |
| `Ramp.ColorRow.RgbCopy` | color2.py:248 | `"{r}, {g}, {b}"` of the row (definition; `RowPayloads` reads it back) |
| `Ramp.ColorRow.RgbText` | color2.py:247 | `"RGB({r}, {g}, {b})"`, the RGB label (definition) |
| `Ramp.ColorRow.HexCopy` | color2.py:256 | The HEX payload, which is the HEX string itself (definition) |
| `Ramp.GenerateRamp` | color2.py:227-233 | The loop over `range(steps)` computes `current_v = v - i*step`, clamps it at 0 and appends one row per position; its result equals `RampSpec` |
| `Ramp.RampLength` | color.py:45 | The ramp has exactly `max(steps, 0)` rows; a count of 0 or less gives the empty ramp and no error |
| `Ramp.RampRow` | color2.py:227-236 | Row `i` has number `i + 1` and the base hue and saturation. Its value is `v - i*step` when that is non-negative and 0 otherwise, so never negative. Its RGB is the conversion of that HSV and its HEX is `rgb_to_hex` of that RGB. The final clauses, spelling out `RowValue` as `v - i*step` or 0 and the HEX as `rgb_to_hex` of the RGB, hold by definition |
| `Ramp.RowPayloads` | color2.py:240-256 | A row's HSV payload `"{h}, {s}, {current_v}"` decodes back to the row's HSV, and its RGB payload `"{r}, {g}, {b}"` to its RGB, so each payload determines the numbers shown; the HEX payload is the HEX string itself |
| `Ramp.RampNonIncreasing` | color.py:45-48 | With a step of 0 or more, a later row never has a larger value than an earlier one |
| `Ramp.RampZeroAbsorbs` | color2.py:227-233 | With a step of 0 or more, once a row has value 0 every later row equals it except for its number: same HSV and RGB, and therefore the same HEX, labels and payloads |
| `Ramp.RampZeroStep` | color.py:45-51 | With step 0 every row has HSV `(h, s, max(v, 0))` and equals the first row except for its number |
| `Ramp.RampNegativeStep` | color2.py:228-230 | With a negative step and a value of 0 or more the clamp never applies: row `i` has value `v - i*step` and each row's value is above the previous one's, so values pass 255 |
| `Ramp.RampNegativeStepExample` | color.py:46-48 | Value 255, step -5, two rows: the second row has value 260 |
| `Ramp.RampHexWellFormed` | color.py:50-51 | If the conversion yields byte channels at every value the ramp reaches, then every row's HEX string is `#rrggbb` and decodes to that row's RGB |
| `Ramp.RampClampExample` | color2.py:227-233 | Value 10, step 5, four rows: values 10, 5, 0, 0, and rows 3 and 4 agree except for their number |
| `Ramp.RampRedExample` | color.py:45-54 | Base `(0, 255, 255)`, step 5, eight rows, with a conversion that maps hue 0 at full saturation and values 255, 250 and 220 to pure red: rows 1, 2 and 8 are `#ff0000`, `#fa0000` and value 220 with `#dc0000` |
| `Display.ColorForm.Reading` | color2.py:217-221 | The five `int()` readings of the fields, combined by `ParseInputs` (definition) |
| `Display.Refresh` | color2.py:216-267 | The rows after one redraw: unchanged when a reading failed (the swallowed `ValueError`), otherwise the ramp of the five integers (definition; the three lemmas below state it) |
| `Display.ParseInputs` | color2.py:216-221 | The five readings combine into parameters if and only if every one of the five `int()` calls succeeds, and then they are exactly the five integers read |
| `Display.RefreshKeepsRowsOnBadField` | color.py:34-43 | If any of the five fields fails to read, the redraw leaves the rows on screen as they were |
| `Display.RefreshReplacesRows` | color2.py:223-233 | If all five fields read, the rows on screen afterwards are the ramp of those numbers, whatever was there before, and there are `max(steps, 0)` of them |
| `Display.RefreshIdempotent` | color.py:33-85 | Redrawing twice from unchanged fields shows the same rows as redrawing once |
| `Display.ColorForm.UpdateColors` | color2.py:215-267 | It reads all five fields and leaves them unchanged. The frame's rows become the ramp when every field reads and stay as before when one does not |
| `Display.ColorForm.constructor` | color.py:150-194 | The fields start as `0`, `255`, `255`, `5`, `8`, and the first redraw runs on an empty frame |
| `Eyedropper.Picker.constructor` | color2.py:14 | The eyedropper flag starts off |
| `Eyedropper.Picker.Toggle` | color2.py:162-172 | From off it switches the mode on; from on it cancels it: the flag is negated |
| `Eyedropper.Picker.Cancel` | color2.py:174-180 | The flag is off afterwards, whatever it was before |
| `Eyedropper.Picker.PickColor` | color2.py:182-212 | When off, nothing changes. When on, the mode is always off afterwards (`finally`). With a sample, the three colour fields hold `str` of its HSV, the step and count fields keep their text, and the frame is redrawn from the fields. Without a sample (an exception), fields and rows are unchanged |

## Left out

- `hsv_to_rgb` and `rgb_to_hsv` (color2.py:144-155, color.py:20-22) are float computations in `colorsys` followed by `int()` truncation. Here they are opaque function parameters, so no channel bound is proved for them. `Ramp.RampHexWellFormed` instead takes as a precondition that the channels are in [0, 255] at the values the ramp reaches. The approximate HSV→RGB→HSV round trip is not modelled.
- Python's rules for `int(str)` (whitespace, signs, underscores) are not modelled. Reading a field is a parameter that either succeeds or fails.
- Tkinter widgets are not modelled: labels, grid layout, colour boxes, the canvas scroll region, button relief, cursor, window alpha and event binding. The frame is the sequence of rows it shows, and destroying its children is the frame becoming empty.
- Tk may reject a row's colour box when its HEX string is not a valid colour, as with a channel out of range. That error is a `TclError`, not a `ValueError`, so it would end a redraw part-way. The model assumes every row of the ramp is drawn.
- A huge number, such as 400 digits in the hue, saturation or value field, reads as an integer, so the frame is cleared. `hsv_to_rgb` then raises `OverflowError` when `h / 360`, `s / 255`, `v / 255` or `int(r * 255)` leaves the float range. The exception is not a `ValueError`, so it escapes with the frame empty, while `RefreshReplacesRows` gives `max(steps, 0)` rows. The total `HsvToRgb` parameter leaves this case out.
- The clipboard write (`pyperclip.copy`) is I/O. Only the payload strings are modelled.
- Reading the pointer position and grabbing the screen are I/O (`ImageGrab`, `winfo_pointerx`). They are the `sample` parameter of `PickColor`, and their failures are its `None`. The printed error message is left out.
- `on_mouse_wheel`, the 100 ms `root.after` delay on key release, and the Escape and click bindings are UI event-loop glue. `Cancel` and `PickColor` are the handlers those bindings call.
- `resource_path` and icon loading are filesystem plumbing.
