# Colour picker: a verified Dafny model

This project models the core of an embeddable colour-picker widget written in
TypeScript:

- **Colour maths** (`src/helper.ts`, module `ColorMath`): `toNumber` reads CSS
  colour text (`#rgb`, `#rrggbb`, `rgb(r,g,b)`, `rgba(r,g,b,a)`) into a packed
  `0xRRGGBB` integer; `toString` writes a packed colour as `rgb(r,g,b)`;
  `rgb2hsv` and `hsv2rgb` are the six-sector HSV conversions.
- **Colour wheel** (`src/wheel.ts`, class `Wheel.ColorWheel`): the hue ring is
  drawn once into an RGBA byte bitmap. Each `draw` copies that bitmap, paints
  the saturation/value (SV) square for the current hue and stamps two 7x7
  handle glyphs. Pointer tracking moves either the hue or the SV point.
- **Picker window** (`src/picker.ts`, class `Picker.Picker`): one `update`
  keeps the hex field, the three decimal channel fields, the swatch and the
  wheel in step. Bit flags say which parts it must not rewrite. Each field's
  keyup handler splices the typed value into the packed colour.

Support modules:

- `JsNumber` models JavaScript's 32-bit integer operators: `ToInt32`, `>>`,
  `<<`, `&` and `|`. `&` and `|` are written bit by bit.
- `JsText` models `Number.prototype.toString(radix)` and `parseInt` on digit
  strings.
- `Raster` models the `Uint8ClampedArray` behind an `ImageData`: stores clamp
  and round, and out-of-range stores are dropped.
- `Wrappers` holds `Option`; `None` stands for NaN.

JavaScript numbers are exact integers and reals here. `Math.round(x)` is
`floor(x + 1/2)`. JavaScript's `%` is a truncating remainder (`TruncRem`), so a
negative hue sector reaches the `[0,0,0]` fall-through of `hsv2rgb`.
`Math.sqrt`, `Math.atan2`, `Math.cos`, `Math.sin` and `Math.PI` are fields of a
`Host` value. The model assumes only that `PI > 0`, that `sqrt` is non-negative
and that `sqrt(z)^2 == z` for `z >= 0`. The canvas is a sequence of bytes that
`Draw` publishes. A drag session is the `session` field: `Track` starts one,
`Move` handles a `mousemove`, `Release` handles the `mouseup`. The `update`
callback that `track` receives becomes the colour that `Track`/`Move` return.

Two behaviours of the code worth noting:

- During an SV drag the pointer is clamped to `[start, end]`, end included
  (src/wheel.ts:147-150). Saturation then reaches `(end - start) / side`, not 1.
  With the picker's geometry this is about 1.001, because `end - start` is a
  rounded 126 while `side` is about 125.87. `Wheel.DragRange` states the bound
  the code gives.
- The HSV round trip holds exactly over exact arithmetic
  (`ColorMath.Hsv2RgbOfRgb2Hsv`), not just within 1 per channel.

## Model

| member | source | states |
|---|---|---|
| `ColorMath.Round` | src/helper.ts:63-66 | `Math.round` gives the integer n with n - 1/2 <= x < n + 1/2 |
| `ColorMath.TruncRem` | src/helper.ts:67 | JavaScript `%` differs from the dividend by a multiple of n, lies in [0, n) for a non-negative dividend and in (-n, 0] for a negative one |
| `ColorMath.ToNumber` | src/helper.ts:5-19 | `toNumber` never yields a negative number; text starting with `#` gives a number iff something follows the `#` and all of it is hex digits; `#rgb` gives at most 0xffffff |
| `ColorMath.ShortHex` | src/helper.ts:6-10 | `toNumber("#" d1 d2 d3)` is a number iff all three are hex digits, and then each nibble is doubled into a byte: `v1*0x110000 + v2*0x1100 + v3*0x11` |
| `ColorMath.LongHex` | src/helper.ts:11-13 | for any length other than 3 after `#`, `toNumber` is `parseInt` base 16 of everything after `#` |
| `ColorMath.SplitFunctional` | src/helper.ts:15 | splitting `rgb(R,G,B...` on runs of non-digits gives an empty piece, then R, G and B at positions 1..3 |
| `ColorMath.ToNumberFunctional` | src/helper.ts:15-18 | `toNumber` of any non-digit prefix not starting with `#`, then `R,G,B`, then a non-digit tail, is `R*0x10000 + G*0x100 + B` |
| `ColorMath.ToNumberIgnoresAlpha` | src/helper.ts:14-18 | in `rgba(r,g,b,a)` the fourth group is ignored: the result is the packed r, g, b |
| `ColorMath.ToString` | src/helper.ts:22-28 | `toString` always writes text of at least 10 characters that opens with `rgb(` and closes with `)` |
| `ColorMath.ChannelsValues` | src/helper.ts:23-25 | for 0 <= c <= 0xffffff, `c >> 16`, `(c >> 8) & 0xff` and `c & 0xff` are c's three base-256 digits |
| `ColorMath.ChannelsOfColor` | src/helper.ts:22-27 | for 0 <= c <= 0xffffff the three channels `toString` prints are bytes and `r*65536 + g*256 + b == c` |
| `ColorMath.ToNumberOfToString` | src/helper.ts:15-27 | `toNumber(toString(c)) == c` for every 0 <= c <= 0xffffff |
| `ColorMath.PackRGBBytes` | src/wheel.ts:167 | packing byte channels with shifts and bitwise or is `r*65536 + g*256 + b`, in [0, 0xffffff] |
| `ColorMath.ChannelsOfPack` | src/helper.ts:23-25 | unpacking a packed byte colour with the shifts and masks gives back its channels |
| `ColorMath.Rgb2HsvAchromatic` | src/helper.ts:32-41 | black and every grey `(x, x, x)` give `(0, 0, x/255)` |
| `ColorMath.Rgb2Hsv` | src/helper.ts:30-56 | for byte channels, h is in [0, 1), s in [0, 1], v is max(r,g,b)/255, and s == 0 iff r == g == b |
| `ColorMath.Rgb2HsvRed` | src/helper.ts:43-53 | when red is a largest channel, h is (g - b)/delta over 6, plus 1 when negative |
| `ColorMath.Rgb2HsvGreen` | src/helper.ts:45-53 | when green is largest and red is not, h is (2 + (b - r)/delta)/6 |
| `ColorMath.Rgb2HsvBlue` | src/helper.ts:47-53 | when blue alone is largest, h is (4 + (r - g)/delta)/6 |
| `ColorMath.Hsv2Rgb` | src/helper.ts:58-82 | with s and v in [0, 1], every hue, negative ones included, gives three channels in 0..255 |
| `ColorMath.Hsv2RgbPeriodic` | src/helper.ts:60-67 | for h >= 0, `hsv2rgb(h + 1, s, v) == hsv2rgb(h, s, v)`, because the sector is `i % 6` |
| `ColorMath.Hsv2RgbRed` | src/helper.ts:67-69 | `hsv2rgb(1,1,1) == hsv2rgb(0,1,1) == (255, 0, 0)` |
| `ColorMath.Hsv2RgbNegativeSector` | src/helper.ts:67-81 | a negative hue whose sector is not a multiple of 6 matches no case and gives `(0, 0, 0)` |
| `ColorMath.Hsv2RgbInSector` | src/helper.ts:60-67 | a hue with 6h = k + f, for a sector k and 0 <= f < 1, selects sector k with fraction f |
| `ColorMath.Hsv2RgbOfRgb2Hsv` | src/helper.ts:30-82 | over exact arithmetic, `hsv2rgb(rgb2hsv(r, g, b)) == (r, g, b)` for all byte r, g, b |
| `JsNumber.AndLowMask` | src/picker.ts:60 | `x & (2^k - 1)` is x modulo 2^k for any integer x, for k <= 31 |
| `JsText.ParseInt` | src/picker.ts:49 | `parseInt` gives a number iff the text is a non-empty string of digits of the radix, and that number is non-negative |
| `JsText.ParseDigits` | src/picker.ts:144 | `parseInt` reads back what `toString(radix)` wrote |
| `JsText.DigitsLength` | src/picker.ts:132 | a number below radix^k has at most k digits |
| `Raster.ClampByte` | src/wheel.ts:45 | a store into the byte buffer gives 0 at or below 0, 255 at or above 255, and otherwise a byte within 1/2 of the value; a value exactly halfway between two integers goes to the even one |
| `Raster.PutPixel` | src/wheel.ts:41-49 | four `data[offset++]` stores write bytes offset..offset+3 and advance the offset by 4 |
| `Wheel.SquareFits` | src/wheel.ts:24-25 | when thickness and gap fit in the size, the side is non-negative and 0 <= start <= end <= size |
| `Wheel.SideBelow` | src/wheel.ts:25 | the side `sqrt(diam^2 / 2)` lies in [0, diam] |
| `Wheel.RingMembership` | src/wheel.ts:28-38 | when inner >= 0, a point is on the ring iff inner^2 <= dx^2 + dy^2 < outer^2 |
| `Wheel.RingBitmap` | src/wheel.ts:27-58 | the ring bitmap has `4*size*size` bytes; pixel (x, y) occupies bytes `4*(y*size + x) .. +3` and holds that pixel's RGBA |
| `Wheel.RingPixelColour` | src/wheel.ts:36-56 | a ring pixel holds `hsv2rgb(1 + atan2(-dy, dx)/2pi, 1, 1)` and the edge alpha; any other pixel is `(0, 0, 0, 0)` |
| `Wheel.EdgeAlphaRules` | src/wheel.ts:44-50 | on the ring, alpha is 255 away from both edges; within 1 of the outer edge it is `255*(outer - distance)` rounded, and this test comes first; otherwise within 1 of the inner edge it is `255*(distance - inner)` rounded |
| `Wheel.SquarePixel` | src/wheel.ts:74-85 | after `draw`'s loops, each pixel of `[start, end)^2` holds exactly the byte channels of `hsv2rgb(hue, (x - start)/side, 1 - (y - start)/side)` with alpha 0xff (the clamped store changes nothing there), and every other byte is the ring bitmap's |
| `Wheel.SquareUnit` | src/wheel.ts:71-78 | inside the square the saturation a pixel is painted with lies in [0, 1) and the value in (0, 1] |
| `Wheel.Stamp` | src/wheel.ts:170-194 | `drawHandle` keeps the bitmap's length and, for a positive width, changes no byte before column x - 3 of row y - 3 or after column x + 3 of row y + 3, wrapped rows and dropped stores included |
| `Wheel.StampedOutside` | src/wheel.ts:179-192 | the first n cells of the glyph change no byte outside its span |
| `Wheel.Picture` | src/wheel.ts:67-97 | the drawn canvas has the bitmap's length, and outside the SV square and outside the spans of both handle glyphs every byte is the ring bitmap's |
| `Wheel.StampInterior` | src/wheel.ts:170-194 | with 3 <= x and x + 3 < width, `drawHandle` turns each '1' cell into (0,0,0,255) and each '0' cell into (255,255,255,255); every other byte is unchanged |
| `Wheel.ClampRange` | src/wheel.ts:147-148 | `Math.max(Math.min(v, end), start)` lies in [start, end], leaves values inside alone and pins values outside to the nearer end |
| `Wheel.DragRange` | src/wheel.ts:146-150 | after the clamp, saturation is in [0, (end - start)/side] and value in [1 - (end - start)/side, 1] |
| `Wheel.ColorWheel.constructor` | src/wheel.ts:15-59 | the nested loops with a running offset build exactly the ring bitmap; hue, saturation and value start at 0 and no drag is active |
| `Wheel.ColorWheel.SetHSV` | src/wheel.ts:61-65 | stores the three fields and leaves the canvas and the drag alone |
| `Wheel.ColorWheel.Draw` | src/wheel.ts:67-98 | the canvas becomes the ring bitmap with the SV square and both handles drawn over it; the HSV fields do not change |
| `Wheel.ColorWheel.Compose` | src/wheel.ts:68-96 | copying the ring bitmap, painting the square and stamping the hue handle and then the SV handle gives `Picture` |
| `Wheel.ColorWheel.PaintSquare` | src/wheel.ts:71-85 | the row loops with a running offset paint exactly the SV square for the hue |
| `Wheel.ColorWheel.DrawHandle` | src/wheel.ts:170-194 | the offset walk with the per-row stride stamps the glyph's non-'.' cells and nothing else |
| `Wheel.ColorWheel.Color` | src/wheel.ts:165-168 | whenever `hsv2rgb(hue, saturation, value)` has byte channels (always so for s and v in [0, 1]), the colour is `r*65536 + g*256 + b` of them, in [0, 0xffffff] |
| `Wheel.ColorWheel.Track` | src/wheel.ts:100-108 | a press with start <= x, y < end starts an SV drag; any other press goes to hue tracking, which acts only on the ring and otherwise changes nothing |
| `Wheel.ColorWheel.TrackH` | src/wheel.ts:110-119 | on the ring (inner <= distance < outer): sets the hue from the angle, redraws, reports the colour and starts a hue drag; off the ring nothing changes |
| `Wheel.ColorWheel.TrackSV` | src/wheel.ts:139-145 | sets saturation `(x - start)/side` and value `1 - (y - start)/side` from the unclamped press, redraws and reports the colour |
| `Wheel.ColorWheel.Move` | src/wheel.ts:120-155 | the two `mousemove` handlers: during a hue drag (lines 120-128) the hue follows the pointer's angle; during an SV drag (lines 146-155) the pointer is clamped into [start, end] and sets saturation and value; either way the wheel redraws and reports the colour; without a drag nothing changes |
| `Wheel.ColorWheel.Release` | src/wheel.ts:129-160 | the two `mouseup` handlers (lines 129-133 for the hue drag, 156-160 for the SV drag) end the drag and change nothing else |
| `Picker.HexEntry` | src/picker.ts:49 | the hex keyup colour is the parsed number modulo 2^24, in [0, 0xffffff], and 0 for text that does not parse |
| `Picker.RedEntry` | src/picker.ts:60-61 | the red keyup colour is `(n mod 256)*65536 + color mod 65536`, with n = 0 for text that does not parse |
| `Picker.GreenEntry` | src/picker.ts:72-73 | the green keyup colour keeps bits 16..23 and 0..7 of the colour and puts n mod 256 in bits 8..15 |
| `Picker.BlueEntry` | src/picker.ts:84-85 | the blue keyup colour keeps bits 8..23 of the colour and puts n mod 256 in bits 0..7 |
| `Picker.RedSplicesByte` | src/picker.ts:59-62 | a red keyup replaces the red byte of a 24-bit colour with the typed byte and keeps green and blue |
| `Picker.GreenSplicesByte` | src/picker.ts:71-74 | a green keyup replaces the green byte and keeps red and blue |
| `Picker.BlueSplicesByte` | src/picker.ts:83-86 | a blue keyup replaces the blue byte and keeps red and green |
| `Picker.Refreshes` | src/picker.ts:136-156 | the test `!(ignore & flag)` passes iff ignore is not that flag: each of the five single flags guards only its own part, and `Ignore.None` guards nothing |
| `Picker.PaddedHex` | src/picker.ts:132-135 | the padding loop yields the lower-case hex digits left-padded with '0' to at least 6 characters |
| `Picker.HexText` | src/picker.ts:132-135 | the padded hex text has at least 6 characters; for a 24-bit colour it is exactly 6 hex digits that parse back to the colour |
| `Picker.SwatchColour` | src/picker.ts:139 | the swatch's `"#" + hex` is read back by `toNumber` as the colour |
| `Picker.HexFieldRoundTrip` | src/picker.ts:49 | a keyup in the hex field as `update` wrote it reproduces the colour |
| `Picker.RedFieldRoundTrip` | src/picker.ts:60-61 | a keyup in the red field as `update` wrote it reproduces the colour |
| `Picker.GreenFieldRoundTrip` | src/picker.ts:72-73 | a keyup in the green field as `update` wrote it reproduces the colour |
| `Picker.BlueFieldRoundTrip` | src/picker.ts:84-85 | a keyup in the blue field as `update` wrote it reproduces the colour |
| `Picker.WheelColourOfUpdate` | src/picker.ts:152-156 | for a 24-bit colour, the wheel's packed `hsv2rgb(rgb2hsv(channels))` is the colour again |
| `Picker.Picker.constructor` | src/picker.ts:111-112 | builds the 200-pixel wheel with a 10-pixel ring and a 2-pixel gap, with hue, saturation and value 0, no drag in progress, and draws it; the colour and the fields start empty |
| `Picker.Picker.Update` | src/picker.ts:130-157 | sets the colour and the swatch; rewrites each field only when its flag is clear; when the HSV flag is clear, the wheel takes `rgb2hsv` of the channels, redraws and shows the colour again, and otherwise the wheel is untouched |
| `Picker.Picker.ShowText` | src/picker.ts:131-151 | the colour, the padded hex, the flag-gated fields and the swatch |
| `Picker.Picker.ShowFields` | src/picker.ts:136-151 | each field is written only when its flag is clear, with the hex text or the channel in decimal |
| `Picker.Picker.ShowOnWheel` | src/picker.ts:152-156 | when the HSV flag is clear the wheel's HSV becomes `rgb2hsv(r, g, b)` and the canvas is redrawn; otherwise nothing changes |
| `Picker.Picker.Pick` | src/picker.ts:122-124 | `pick` passes `Ignore.None`: all four fields, the swatch and the wheel are refreshed |
| `Picker.Picker.HexKeyup` | src/picker.ts:48-50 | the colour becomes `parseInt(text, 16) & 0xffffff`; the hex field keeps the typed text, the other fields and the swatch are rewritten, the wheel takes the colour's HSV, redraws and shows the colour, and a drag in progress is kept |
| `Picker.Picker.RedKeyup` | src/picker.ts:59-62 | the red byte is spliced in; the red field keeps the typed text, the other fields and the swatch are rewritten, the wheel takes the colour's HSV, redraws and shows the colour, and a drag in progress is kept |
| `Picker.Picker.GreenKeyup` | src/picker.ts:71-74 | the green byte is spliced in; the green field keeps the typed text, the other fields and the swatch are rewritten, the wheel takes the colour's HSV, redraws and shows the colour, and a drag in progress is kept |
| `Picker.Picker.BlueKeyup` | src/picker.ts:83-86 | the blue byte is spliced in; the blue field keeps the typed text, the other fields and the swatch are rewritten, the wheel takes the colour's HSV, redraws and shows the colour, and a drag in progress is kept |
| `Picker.Picker.MouseDown` | src/picker.ts:113-119 | a press the wheel accepts sets the colour to the wheel's and rewrites the swatch and all four fields from it, with `Ignore.HSV`, so the wheel keeps the HSV it set itself; a press it ignores leaves the colour, swatch, fields and wheel unchanged |
| `Picker.Picker.MouseMove` | src/picker.ts:114-116 | a drag move sets the colour to the wheel's and rewrites the swatch and all four fields, leaving the wheel's own HSV state alone; a move with no drag in progress changes nothing |
| `Picker.Picker.MouseUp` | src/wheel.ts:156-160 | the mouse-up ends the wheel's drag and keeps the wheel's HSV and canvas, the colour, the swatch and every field |

## Left out

- DOM construction, class names, positioning and styling of the panel (src/picker.ts:28-47, 89-110) are host glue.
- The Okay/Cancel buttons and the promise that `pick` returns (src/picker.ts:92-107, 125-127) are asynchronous, single-resolution host glue. `Pick` models only the `update` call.
- Registering and removing the `mousemove`/`mouseup` listeners is host plumbing. The `session` field records which handler is active, and `Move`/`Release` stand for the handlers.
- The `getContext` null check (src/wheel.ts:17-20) is a constructor precondition: a `Host` value is supplied.
- `putImageData`/`getImageData` (src/wheel.ts:68-70, 97) are a copy of the ring bitmap into a working array and the publishing of the result as `canvas`.
- IEEE-754 rounding: numbers are exact integers and reals, so results that depend on floating-point rounding (for example the HSV round trip) are exact here.
- `Math.sqrt`, `Math.atan2`, `Math.cos`, `Math.sin` and `Math.PI` are uninterpreted `Host` fields. No concrete pixel of the hue handle and no concrete antialias alpha is computed.
- `JsText.ParseInt`: only whole digit strings parse. Leading whitespace, a sign, the `0x` prefix and parsing of a digit prefix (`"12abc"` gives 12 in JavaScript) are not modelled; such text gives NaN here.
- `Wheel.ColorWheel.constructor`: requires `0 <= thickness`, `0 <= gap` and `2*thickness + gap <= size`, so that the SV square lies inside the bitmap. The source takes any numbers; the picker passes 200, 10 and 2.
- `ColorMath.ToString`: for colours outside [0, 0xffffff] only the `rgb(...)` shape is stated, not the digits. `toString` still models the signed shift for them.
- NaN has no real counterpart, so `Raster.ClampByte` never sees it. Bitwise operators turn NaN into 0 (`Picker.BitOperand`).
