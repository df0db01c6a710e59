/** The colour value of the `color-bar` widget and its three text forms:
    `hsl(h, s%, l%)`, `#rrggbb` and `rgb(r , g, b)`.

    Each formatter reads the widget's optional `color` field, so here each is
    a function of that field's value. The arithmetic is exact (`real`), with
    JavaScript's `Math.round` and truncating `%` written out in JsMath. */
module ColorModel {
  import opened Wrappers
  import opened JsMath
  import opened Text

  /** Hue in degrees, saturation and lightness in percent. */
  datatype Color = Color(h: int, s: int, l: int)

  /** Channel intensities on the unit scale, before rounding to bytes. */
  datatype Channels = Channels(r: real, g: real, b: real)

  /** A colour after the converters' first three statements: hue wrapped,
      saturation and lightness clamped and scaled to [0, 1]. */
  datatype Normalised = Normalised(h: int, s: real, l: real)

  /** Rounded channel values, as the `#rrggbb` and `rgb(...)` texts carry them. */
  datatype Rgb = Rgb(r: int, g: int, b: int)

  // ---------------------------------------------------------------------
  // hsl(h, s%, l%)
  // ---------------------------------------------------------------------

  function HslColor(color: Option<Color>): string
  {
    match color
    case None => ""
    case Some(c) =>
      "hsl(" + IntToString(c.h, 10) + ", " + IntToString(c.s, 10) + "%, " + IntToString(c.l, 10) + "%)"
  }

  // ---------------------------------------------------------------------
  // Normalisation shared by the two converters
  // ---------------------------------------------------------------------

  /** `(h + 360) % 360` with JavaScript's truncating `%`: a hue of at least
      -360 lands in [0, 360); a smaller one lands in (-360, 0], on 0 only
      for a multiple of 360 (JavaScript's -0, which still passes `h >= 0`).
      Either way the result differs from `h` by whole turns. */
  function WrapHue(h: int): (r: int)
    ensures -360 <= h ==> 0 <= r < 360 && r == h % 360
    ensures h < -360 ==> -360 < r <= 0
    ensures (h - r) % 360 == 0
  {
    IntRem(h + 360, 360)
  }

  /** `Math.max(0, Math.min(v, 100)) / 100`: a percentage clamped to
      [0, 100] and scaled to the unit interval. */
  function Fraction(v: int): (r: real)
    ensures 0.0 <= r <= 1.0
    ensures v <= 0 ==> r == 0.0
    ensures 100 <= v ==> r == 1.0
    ensures 0 <= v <= 100 ==> r * 100.0 == v as real
  {
    Max(0, Min(v, 100)) as real / 100.0
  }

  function Normalise(color: Color): Normalised
  {
    Normalised(WrapHue(color.h), Fraction(color.s), Fraction(color.l))
  }

  // ---------------------------------------------------------------------
  // #rrggbb: chroma, intermediate and match values, then the sextant
  // ---------------------------------------------------------------------

  function Chroma(s: real, l: real): real
  {
    (1.0 - Abs(2.0 * l - 1.0)) * s
  }

  function Intermediate(h: int, c: real): real
  {
    c * (1.0 - Abs(RealRem(h as real / 60.0, 2.0) - 1.0))
  }

  /** The channels before the match value is added, by the 60-degree sextant
      the hue lies in; a hue outside [0, 360) selects none and leaves 0s. */
  function SextantChannels(h: int, c: real, x: real): Channels
  {
    if 0 <= h < 60 then Channels(c, x, 0.0)
    else if 60 <= h < 120 then Channels(x, c, 0.0)
    else if 120 <= h < 180 then Channels(0.0, c, x)
    else if 180 <= h < 240 then Channels(0.0, x, c)
    else if 240 <= h < 300 then Channels(x, 0.0, c)
    else if 300 <= h < 360 then Channels(c, 0.0, x)
    else Channels(0.0, 0.0, 0.0)
  }

  /** The three unit-scale channel values the hex formatter rounds. */
  function HexChannels(n: Normalised): Channels
  {
    var c := Chroma(n.s, n.l);
    var x := Intermediate(n.h, c);
    var m := n.l - c / 2.0;
    var base := SextantChannels(n.h, c, x);
    Channels(base.r + m, base.g + m, base.b + m)
  }

  /** Each channel rounded to a byte by `Math.round(value * 255)`. */
  function Bytes(ch: Channels): Rgb
  {
    Rgb(Round(ch.r * 255.0), Round(ch.g * 255.0), Round(ch.b * 255.0))
  }

  /** The inner `toHex`: round to a byte, print it in radix 16 and pad a
      single digit with a leading zero. */
  function ToHex(value: real): string
  {
    var hex := IntToString(Round(value * 255.0), 16);
    if |hex| == 1 then "0" + hex else hex
  }

  function HexColor(color: Option<Color>): string
  {
    match color
    case None => ""
    case Some(c) =>
      var ch := HexChannels(Normalise(c));
      "#" + ToHex(ch.r) + ToHex(ch.g) + ToHex(ch.b)
  }

  /** The byte values the hex code spells. */
  function HexBytes(color: Color): Rgb
  {
    Bytes(HexChannels(Normalise(color)))
  }

  // ---------------------------------------------------------------------
  // rgb(r , g, b): achromatic shortcut, otherwise hueToRgb per channel
  // ---------------------------------------------------------------------

  /** The first two statements of the inner `hueToRgb`: `t` moves by one
      turn at most, up when negative, then down when above 1. */
  function TurnIntoRange(t: real): real
  {
    var t1 := if t < 0.0 then t + 1.0 else t;
    if t1 > 1.0 then t1 - 1.0 else t1
  }

  /** The rest of `hueToRgb`: rise from `p` to `q` over the first sixth of a
      turn, hold `q` until a half, fall back to `p` by two thirds, hold `p`. */
  function Ramp(p: real, q: real, t: real): real
  {
    if t < 1.0 / 6.0 then p + (q - p) * 6.0 * t
    else if t < 1.0 / 2.0 then q
    else if t < 2.0 / 3.0 then p + (q - p) * (2.0 / 3.0 - t) * 6.0
    else p
  }

  /** The inner `hueToRgb`. */
  function HueToRgb(p: real, q: real, t: real): real
  {
    Ramp(p, q, TurnIntoRange(t))
  }

  /** The upper value `q` of the ramp. */
  function Upper(s: real, l: real): real
  {
    if l < 0.5 then l * (1.0 + s) else l + s - l * s
  }

  /** The lower value `p = 2l - q` of the ramp. */
  function Lower(s: real, l: real): real
  {
    2.0 * l - Upper(s, l)
  }

  /** The three channel values of a chromatic colour, red a third of a turn
      ahead of green and blue a third behind. */
  function HueChannels(p: real, q: real, h: int): Channels
  {
    var t := h as real / 360.0;
    Channels(HueToRgb(p, q, t + 1.0 / 3.0), HueToRgb(p, q, t), HueToRgb(p, q, t - 1.0 / 3.0))
  }

  /** The three unit-scale channel values the RGB formatter rounds. */
  function RgbChannels(n: Normalised): Channels
  {
    if n.s == 0.0 then Channels(n.l, n.l, n.l)
    else HueChannels(Lower(n.s, n.l), Upper(n.s, n.l), n.h)
  }

  /** The numbers `rgbColor` prints. */
  function RgbBytes(color: Color): Rgb
  {
    Bytes(RgbChannels(Normalise(color)))
  }

  /** The output format, with its irregular space before the first comma. */
  function RgbText(v: Rgb): string
  {
    "rgb(" + IntToString(v.r, 10) + " , " + IntToString(v.g, 10) + ", " + IntToString(v.b, 10) + ")"
  }

  function RgbColor(color: Option<Color>): string
  {
    match color
    case None => ""
    case Some(c) => RgbText(RgbBytes(c))
  }

  // ---------------------------------------------------------------------
  // Reference reader for the hex code
  // ---------------------------------------------------------------------

  /** A standard `#rrggbb` reader: seven characters, a '#', then three pairs
      of lower-case hexadecimal digits. */
  function ParseHexColor(s: string): Option<Rgb>
  {
    if |s| == 7 && s[0] == '#' && forall i :: 1 <= i < 7 ==> IsDigitOf(s[i], 16) then
      Some(Rgb(DigitsValue(s[1..3], 16), DigitsValue(s[3..5], 16), DigitsValue(s[5..7], 16)))
    else None
  }
}
