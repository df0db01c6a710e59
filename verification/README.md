# color-bar colour model in Dafny

The `color-bar` web component shows a random colour for a "light" or "dark"
theme. It prints the colour in three notations: `hsl(h, s%, l%)`, `#rrggbb`
and `rgb(r , g, b)`. This project models the component's colour logic. It
also proves what that logic guarantees and where those guarantees end.

- `wrappers.dfy` (`Wrappers`): `Option`, for the component's optional `color` field.
- `js_math.dfy` (`JsMath`): the JavaScript arithmetic the component relies on.
  `Math.round` is `floor(x + 0.5)`. `%` truncates toward zero, for integers and
  for reals alike. `Math.abs`, `Math.min` and `Math.max` are also here.
- `text.dfy` (`Text`): `Number.prototype.toString(radix)` for integers, in
  radix 10 (template literals) and radix 16 (the hex code). It comes with
  reference readers and the round-trip and injectivity lemmas.
- `color_model.dfy` (`ColorModel`): the three formatters `hslColor`, `hexColor`
  (with its inner `toHex`) and `rgbColor` (with its inner `hueToRgb`). Each is a
  function of the value of the `color` field. The arithmetic is exact (`real`).
- `color_properties.dfy` (`ColorProperties`): the formatters' guarantees:
  - bounds on chroma, match value, `p` and `q`;
  - the shape and round trip of the hex code;
  - clamping and wrapping;
  - empty output exactly when there is no colour;
  - injectivity of the printed texts;
  - for every hue of at least -360, the hex and RGB converters produce the
    same three bytes.
- `color_scenarios.dfy` (`ColorScenarios`): worked examples, computed by the
  verifier:
  - the primary colours, middle grey and the clamping of saturation 101;
  - what a hue below -360 does.
- `color_bar.dfy` (`ColorBarComponent`):
  - `getRandomNumber`, with the value of `Math.random()` as a parameter;
  - the light and dark palettes;
  - the `ColorBar` class, with its fields `color` and `theme`, the two
    generators, `handleClick` and `connectedCallback`.

The generators, as the code writes them:

- `getRandomNumber(min, max)` includes `max`.
- So the light generator can draw saturation and lightness 101, and its
  range is `[50, 101]`.
- The dark generator can draw 50, and its range is `[1, 50]`.
- The two palettes share saturation and lightness 50 (`PalettesMeetAtFifty`).
- The theme is any string. Every value other than "dark" selects the light
  palette.

The hue wrap `(h + 360) % 360` uses JavaScript's truncating `%`:

- From -360 up it lands in `[0, 360)`.
- Below -360 it lands in `(-360, 0]`. A whole number of turns gives 0
  (JavaScript's `-0`, which passes `h >= 0`), so such a hue converts like hue 0
  (`WholeTurnsBelowWrapToZero`).
- A non-zero negative result selects no sextant, and the hex converter prints
  the grey `m`. `rgbColor` still runs its ramp, can disagree with the hex code
  and can print channels outside `[0, 255]` (`HueBelowTurnHex`,
  `HueBelowTurnRgb`, `HueBelowTurnLeavesByteRange`).
- The generators only produce hues in `[1, 360]`. The lemmas that rely on the
  wrap therefore require `h >= -360`, and the formatters themselves take any
  colour.

## Model

| member | source | states |
|---|---|---|
| JsMath.Round | src/components/color-bar.ts:134 | `Math.round(x)` is the integer within half of `x`, ties rounding up |
| JsMath.IntRem | src/components/color-bar.ts:95 | JavaScript's `%` on integers: the dividend less a multiple of the divisor (by the truncated quotient), with the sign of the dividend and a smaller magnitude than the divisor |
| JsMath.IntRemDetermined | src/components/color-bar.ts:95 | those three conditions pin the remainder: any value meeting them is `IntRem` |
| JsMath.TruncQuotient | src/components/color-bar.ts:95 | definition of the quotient truncated towards zero that `%` takes away; used by `IntRem` |
| JsMath.Abs | src/components/color-bar.ts:99-100 | `Math.abs`: non-negative and equal to the argument or its negation |
| JsMath.Min | src/components/color-bar.ts:96-97 | `Math.min`: below both arguments and equal to one of them |
| JsMath.Max | src/components/color-bar.ts:96-97 | `Math.max`: above both arguments and equal to one of them |
| JsMath.RealRem | src/components/color-bar.ts:100 | definition of `%` on numbers, truncating; its range for the divisor 2 is in `JsMath.RealRemByTwo` |
| JsMath.RealRemByTwo | src/components/color-bar.ts:100 | `(h / 60) % 2` lies in [0, 2) for a non-negative quotient and in (-2, 0] for a negative one |
| Text.DigitChar | src/components/color-bar.ts:134 | each digit below 16 is written as a character that reads back as that digit |
| Text.NatToString | src/components/color-bar.ts:134 | `n.toString(radix)` for `n >= 0` is a non-empty string of digits of the radix |
| Text.IntToString | src/components/color-bar.ts:86 | an integer in a template literal is a non-empty string of digits, possibly with a minus sign |
| Text.NatToStringRoundTrip | src/components/color-bar.ts:134 | reading the digits of `n.toString(radix)` gives `n` back |
| Text.IntToStringRoundTrip | src/components/color-bar.ts:86 | reading a printed integer, sign included, gives the integer back |
| Text.IntToStringInjective | src/components/color-bar.ts:86 | different integers print differently |
| Text.LeadingZero | src/components/color-bar.ts:135 | the padding zero `toHex` adds does not change the value the digits spell |
| Text.HexAtMostTwoDigits | src/components/color-bar.ts:134-135 | a byte takes at most two hex digits, so padding one digit always gives two |
| Text.SplitNumbers | src/components/color-bar.ts:86 | a printed integer followed by a separator that is not a digit or '-' splits a text in one place only |
| Text.SplitField | src/components/color-bar.ts:170 | the same after a common prefix such as `rgb(` |
| ColorModel.WrapHue | src/components/color-bar.ts:95 | the wrapped hue differs from `h` by whole turns; it is `h mod 360` in [0, 360) for `h >= -360`, and lies in (-360, 0] below that |
| ColorModel.Fraction | src/components/color-bar.ts:96-97 | saturation and lightness are clamped to [0, 100] and scaled to [0, 1] exactly |
| ColorModel.HslColor | src/components/color-bar.ts:81-90 | definition of `hslColor`; properties in `ColorProperties.EmptyExactlyWithoutColor` and `ColorProperties.HslColorInjective` |
| ColorModel.Normalise | src/components/color-bar.ts:94-97 | definition of the wrap and clamp both converters start with; properties in `ColorProperties.ConvertersSeeNormalisedColor` |
| ColorModel.Chroma | src/components/color-bar.ts:99 | definition of `c`; properties in `ColorProperties.ChromaBounds` and `ColorProperties.RampIsChroma` |
| ColorModel.Intermediate | src/components/color-bar.ts:100 | definition of `x`; properties in `ColorProperties.IntermediateBounds` |
| ColorModel.SextantChannels | src/components/color-bar.ts:103-131 | definition of the sextant table, zeros when no branch fires; properties in `ColorProperties.SextantsMatchRamp` |
| ColorModel.HexChannels | src/components/color-bar.ts:99-138 | definition of the three values `toHex` receives, the sextant channel plus `m`; properties in `ColorProperties.HexChannelsInUnit` |
| ColorModel.Bytes | src/components/color-bar.ts:166-168 | definition of `Math.round(value * 255)` per channel; properties in `ColorProperties.RoundByte` |
| ColorModel.ToHex | src/components/color-bar.ts:133-136 | definition of the inner `toHex`; properties in `ColorProperties.ToHexTwoDigits` |
| ColorModel.HexColor | src/components/color-bar.ts:92-140 | definition of `hexColor`; properties in `ColorProperties.HexColorRoundTrip` and `ColorProperties.HexMatchesRgb` |
| ColorModel.HexBytes | src/components/color-bar.ts:133-138 | definition of the bytes the hex code spells; properties in `ColorProperties.HexColorRoundTrip` |
| ColorModel.TurnIntoRange | src/components/color-bar.ts:155-156 | definition of the turn adjustment of `t`; properties in `ColorProperties.HueToRgbBetween` |
| ColorModel.Ramp | src/components/color-bar.ts:157-160 | definition of the four-piece ramp; properties in `ColorProperties.RampBetween` |
| ColorModel.HueToRgb | src/components/color-bar.ts:154-161 | definition of the inner `hueToRgb`; properties in `ColorProperties.HueToRgbBetween` |
| ColorModel.Upper | src/components/color-bar.ts:163 | definition of `q`; properties in `ColorProperties.RampBounds` and `ColorProperties.RampIsChroma` |
| ColorModel.Lower | src/components/color-bar.ts:164 | definition of `p`; properties in `ColorProperties.RampBounds` and `ColorProperties.RampIsChroma` |
| ColorModel.HueChannels | src/components/color-bar.ts:166-168 | definition of the three `hueToRgb` calls at `h/360 + 1/3`, `h/360` and `h/360 - 1/3`; properties in `ColorProperties.SextantsMatchRamp` |
| ColorModel.RgbChannels | src/components/color-bar.ts:150-168 | definition of the achromatic shortcut and the ramp; properties in `ColorProperties.HexMatchesRgb` |
| ColorModel.RgbBytes | src/components/color-bar.ts:150-168 | definition of the numbers `rgbColor` prints; properties in `ColorProperties.RgbBytesInRange` |
| ColorModel.RgbText | src/components/color-bar.ts:170 | definition of the `rgb(r , g, b)` format; properties in `ColorProperties.RgbTextInjective` |
| ColorModel.RgbColor | src/components/color-bar.ts:142-172 | definition of `rgbColor`; properties in `ColorProperties.RgbAchromatic` and `ColorProperties.HexTextAgreesWithRgbText` |
| ColorProperties.ChromaBounds | src/components/color-bar.ts:99-101 | chroma is non-negative, and `m = l - c/2` keeps both `m` and `m + c` inside [0, 1] |
| ColorProperties.IntermediateBounds | src/components/color-bar.ts:100 | the intermediate value `x` lies between 0 and the chroma for a non-negative hue |
| ColorProperties.HexChannelsInUnit | src/components/color-bar.ts:99-131 | every channel the hex converter rounds lies in [0, 1], for every colour |
| ColorProperties.ToHexTwoDigits | src/components/color-bar.ts:133-136 | `toHex` of a unit value is exactly two lower-case hex digits that spell the rounded byte |
| ColorProperties.HexColorRoundTrip | src/components/color-bar.ts:92-140 | `hexColor` is '#' and six lower-case hex digits, and a `#rrggbb` reader recovers its three bytes, each in [0, 255] |
| ColorProperties.RampBounds | src/components/color-bar.ts:163-164 | `0 <= p <= l <= q <= 1` |
| ColorProperties.RampIsChroma | src/components/color-bar.ts:163-164 | `q - p` is the hex converter's chroma and `p` its match value |
| ColorProperties.RampBetween | src/components/color-bar.ts:157-160 | after the turn adjustment, `hueToRgb` stays between `p` and `q` |
| ColorProperties.HueToRgbBetween | src/components/color-bar.ts:154-161 | `hueToRgb(p, q, t)` lies in [p, q] for every `t` within one turn of [0, 1] |
| ColorProperties.RgbBytesInRange | src/components/color-bar.ts:142-172 | for `h >= -360` each number `rgbColor` prints lies in [0, 255] |
| ColorProperties.SextantsMatchRamp | src/components/color-bar.ts:107-131 | in every sextant the hex channels equal the `hueToRgb` ramp of red, green and blue from `p = m` to `q = m + c` |
| ColorProperties.HexMatchesRgb | src/components/color-bar.ts:92-172 | for `h >= -360` the two converters compute the same unit channels and the same bytes |
| ColorProperties.HexTextAgreesWithRgbText | src/components/color-bar.ts:138-170 | for `h >= -360` reading the hex code gives exactly the three numbers `rgbColor` prints |
| ColorProperties.ConvertersSeeNormalisedColor | src/components/color-bar.ts:95-97 | colours with the same wrapped hue and clamped saturation and lightness convert to the same hex and rgb texts |
| ColorProperties.ConvertersPeriodicInHue | src/components/color-bar.ts:95 | from -360 up, adding a full turn to the hue changes neither converted text |
| ColorProperties.HexAchromatic | src/components/color-bar.ts:99-138 | with no saturation the hex code repeats the lightness byte three times, whatever the hue |
| ColorProperties.RgbAchromatic | src/components/color-bar.ts:150-152 | with no saturation `rgbColor` prints `round(l * 255)` three times, a byte |
| ColorProperties.EmptyExactlyWithoutColor | src/components/color-bar.ts:81-93 | each of the three formatters returns "" exactly when the colour is unset |
| ColorProperties.HslColorInjective | src/components/color-bar.ts:84-87 | the `hsl(h, s%, l%)` text determines the stored colour |
| ColorProperties.RgbTextInjective | src/components/color-bar.ts:170 | the `rgb(r , g, b)` text determines the three numbers |
| ColorScenarios.RedChannels | src/components/color-bar.ts:107-110 | hue 0 at full saturation and half lightness is the unit red channel under both converters |
| ColorScenarios.GreenChannels | src/components/color-bar.ts:115-118 | hue 120 is the unit green channel under both converters |
| ColorScenarios.BlueChannels | src/components/color-bar.ts:123-126 | hue 240 is the unit blue channel under both converters |
| ColorScenarios.PrimaryHexCodes | src/components/color-bar.ts:92-140 | hues 0, 120 and 240 print `#ff0000`, `#00ff00` and `#0000ff` |
| ColorScenarios.RedRgbText | src/components/color-bar.ts:166-170 | hue 0 prints `rgb(255 , 0, 0)` |
| ColorScenarios.GreenRgbText | src/components/color-bar.ts:166-170 | hue 120 prints `rgb(0 , 255, 0)` |
| ColorScenarios.BlueRgbText | src/components/color-bar.ts:166-170 | hue 240 prints `rgb(0 , 0, 255)` |
| ColorScenarios.PrimaryRgbTexts | src/components/color-bar.ts:142-172 | the three primaries through `rgbColor` |
| ColorScenarios.MiddleGrey | src/components/color-bar.ts:150-152 | saturation 0 and lightness 50 print `rgb(128 , 128, 128)` and `#808080` for every hue |
| ColorScenarios.NormalisationExample | src/components/color-bar.ts:95-97 | (-30, 150, -10) converts exactly like (330, 100, 0) |
| ColorScenarios.NormalisationExampleHsl | src/components/color-bar.ts:84-87 | the hsl text still tells those two colours apart |
| ColorScenarios.OverfullSaturationClamped | src/components/color-bar.ts:96 | saturation 101, which the light generator can draw, converts like 100 but prints as 101 in the hsl text |
| ColorScenarios.HueBelowTurnHex | src/components/color-bar.ts:95-131 | hue -400 wraps to -40, selects no sextant and gives `#000000` |
| ColorScenarios.HueBelowTurnRgb | src/components/color-bar.ts:146-170 | the same colour gives `rgb(255 , 0, 170)` |
| ColorScenarios.WholeTurnsBelowWrapToZero | src/components/color-bar.ts:95-110 | hue -720 wraps to 0 and converts exactly like hue 0 |
| ColorScenarios.HueBelowTurnLeavesByteRange | src/components/color-bar.ts:154-168 | hue -660 gives the channel -255 |
| ColorBarComponent.RandomNumber | src/components/color-bar.ts:77-79 | `getRandomNumber(min, max)` lies in [min, max], both ends included, for every value of `Math.random()` |
| ColorBarComponent.RandomNumberReaches | src/components/color-bar.ts:77-79 | every integer in [min, max] is produced by some value of `Math.random()` |
| ColorBarComponent.LightColor | src/components/color-bar.ts:61-65 | a light colour has hue in [1, 360] and saturation and lightness in [50, 101] |
| ColorBarComponent.DarkColor | src/components/color-bar.ts:69-73 | a dark colour has hue in [1, 360] and saturation and lightness in [1, 50] |
| ColorBarComponent.LightColorReaches | src/components/color-bar.ts:61-65 | every colour in the light ranges, 101 included, is generated by some draws |
| ColorBarComponent.DarkColorReaches | src/components/color-bar.ts:69-73 | every colour in the dark ranges, 50 included, is generated by some draws |
| ColorBarComponent.PalettesMeetAtFifty | src/components/color-bar.ts:61-73 | a colour is in both palettes exactly when its saturation and lightness are 50 |
| ColorBarComponent.GeneratedColorsConvertAlike | src/components/color-bar.ts:61-73 | for every generated colour, the hex code reads back as the bytes `rgbColor` prints, each in [0, 255] |
| ColorBarComponent.ColorBar.constructor | src/components/color-bar.ts:7-15 | a new widget has no colour and the theme "light" |
| ColorBarComponent.ColorBar.ConnectedCallback | src/components/color-bar.ts:17-20 | joining the page generates the first colour, of the theme's palette |
| ColorBarComponent.ColorBar.HandleClick | src/components/color-bar.ts:22-28 | a click stores a dark colour exactly when the theme is "dark" and a light one otherwise, and leaves the theme alone |
| ColorBarComponent.ColorBar.GenerateLightHslColor | src/components/color-bar.ts:61-67 | stores the light colour built from the three draws and leaves the theme alone |
| ColorBarComponent.ColorBar.GenerateDarkHslColor | src/components/color-bar.ts:69-75 | stores the dark colour built from the three draws and leaves the theme alone |
| ColorBarComponent.PlaceBar | src/components/color-bar.ts:17-28 | a new widget placed with any theme shows the colour of that theme's generator for the draws, inside the theme's palette, and its hex and rgb texts agree |

## Left out

- LitElement and the rest of the browser are not modelled: the decorators, the
  reactive re-rendering of `@property` fields, `render` with its markup and the
  click wiring, and the `styles` sheet. A click is modelled as a call of
  `HandleClick`.
- `console.log` in the two generators is output only and is left out.
- `Math.random()` is not modelled. Each value it returns is a parameter in
  [0, 1), which is the range JavaScript documents for it.
- Floating point is not modelled; the arithmetic is exact. Where IEEE doubles
  round (`1 / 3`, `2 / 3 * 255`, a product that lands just below `.5`), the
  model can differ from a browser by one in a byte.
- `src/types/color-bar.ts` is not part of this model. `Color` is taken to be the
  record `{h, s, l}` of integers, and `Theme` a string. So the `"h" in this.color`
  test always holds, and the final `return ""` of `hslColor` is not modelled.
- `src/components/landing-page.ts` is not part of this model; it is static
  presentation.
- JsMath.RealRem: no bound is stated for a general divisor. Only the divisor
  2 that the hex converter uses is covered (`RealRemByTwo`).
- ColorBarComponent.RandomNumber: states no range for `min > max`. The
  component never calls it that way.
- ColorProperties.RgbBytesInRange: holds only for hues of at least -360. Below
  that a channel can leave [0, 255] (`HueBelowTurnLeavesByteRange`).
- ColorProperties.HexMatchesRgb: holds only for hues of at least -360. Below
  that the converters disagree (`HueBelowTurnHex`, `HueBelowTurnRgb`).
