/** The `color-bar` widget: its two fields, the random colour generators and
    the click handler that picks one by theme.

    `Math.random()` is not modelled; each draw it would make is a parameter
    `r` with `0 <= r < 1`, the range JavaScript promises for it. */
module ColorBarComponent {
  import opened Wrappers
  import opened ColorModel
  import opened ColorProperties

  /** A value `Math.random()` may return. */
  predicate IsDraw(r: real)
  {
    0.0 <= r < 1.0
  }

  /** A draw scaled by the size of a non-empty range stays below that size. */
  lemma ScaledDrawBelow(r: real, min: int, max: int)
    requires IsDraw(r)
    ensures min <= max ==> 0.0 <= r * (max - min + 1) as real < (max - min + 1) as real
  {
    if min <= max {
      var k := max - min + 1;
      assert k as real - r * k as real == (1.0 - r) * k as real;
      NonNegativeProduct(r, k as real);
    }
  }

  /** `getRandomNumber(min, max)`: `Math.floor(r * (max - min + 1)) + min`.
      For `min <= max` the result lies in [min, max], both ends included. */
  function RandomNumber(r: real, min: int, max: int): (n: int)
    requires IsDraw(r)
    ensures min <= max ==> min <= n <= max
  {
    ScaledDrawBelow(r, min, max);
    (r * (max - min + 1) as real).Floor + min
  }

  /** Every number in [min, max] is drawn by some value of `Math.random()`. */
  lemma RandomNumberReaches(min: int, max: int, n: int)
    requires min <= n <= max
    ensures exists r :: IsDraw(r) && RandomNumber(r, min, max) == n
  {
    var k := (max - min + 1) as real;
    var r := (n - min) as real / k;
    assert r * k == (n - min) as real;
    assert IsDraw(r);
    assert RandomNumber(r, min, max) == n;
  }

  // ---------------------------------------------------------------------
  // The two palettes
  // ---------------------------------------------------------------------

  /** What `generateLightHslColor` can produce: hue in [1, 360], saturation
      and lightness in [50, 101]. */
  predicate IsLight(c: Color)
  {
    1 <= c.h <= 360 && 50 <= c.s <= 101 && 50 <= c.l <= 101
  }

  /** What `generateDarkHslColor` can produce: hue in [1, 360], saturation
      and lightness in [1, 50]. */
  predicate IsDark(c: Color)
  {
    1 <= c.h <= 360 && 1 <= c.s <= 50 && 1 <= c.l <= 50
  }

  /** The colour `generateLightHslColor` builds from its three draws. */
  function LightColor(rh: real, rs: real, rl: real): (c: Color)
    requires IsDraw(rh) && IsDraw(rs) && IsDraw(rl)
    ensures IsLight(c)
  {
    Color(RandomNumber(rh, 1, 360), RandomNumber(rs, 50, 101), RandomNumber(rl, 50, 101))
  }

  /** The colour `generateDarkHslColor` builds from its three draws. */
  function DarkColor(rh: real, rs: real, rl: real): (c: Color)
    requires IsDraw(rh) && IsDraw(rs) && IsDraw(rl)
    ensures IsDark(c)
  {
    Color(RandomNumber(rh, 1, 360), RandomNumber(rs, 1, 50), RandomNumber(rl, 1, 50))
  }

  /** Every light colour, the saturation and lightness 101 included, is
      generated by some three draws. */
  lemma LightColorReaches(c: Color)
    requires IsLight(c)
    ensures exists rh, rs, rl :: IsDraw(rh) && IsDraw(rs) && IsDraw(rl) && LightColor(rh, rs, rl) == c
  {
    RandomNumberReaches(1, 360, c.h);
    RandomNumberReaches(50, 101, c.s);
    RandomNumberReaches(50, 101, c.l);
    var rh :| IsDraw(rh) && RandomNumber(rh, 1, 360) == c.h;
    var rs :| IsDraw(rs) && RandomNumber(rs, 50, 101) == c.s;
    var rl :| IsDraw(rl) && RandomNumber(rl, 50, 101) == c.l;
    assert LightColor(rh, rs, rl) == c;
  }

  /** Every dark colour is generated by some three draws. */
  lemma DarkColorReaches(c: Color)
    requires IsDark(c)
    ensures exists rh, rs, rl :: IsDraw(rh) && IsDraw(rs) && IsDraw(rl) && DarkColor(rh, rs, rl) == c
  {
    RandomNumberReaches(1, 360, c.h);
    RandomNumberReaches(1, 50, c.s);
    RandomNumberReaches(1, 50, c.l);
    var rh :| IsDraw(rh) && RandomNumber(rh, 1, 360) == c.h;
    var rs :| IsDraw(rs) && RandomNumber(rs, 1, 50) == c.s;
    var rl :| IsDraw(rl) && RandomNumber(rl, 1, 50) == c.l;
    assert DarkColor(rh, rs, rl) == c;
  }

  /** The palettes overlap, in the colours with saturation and lightness 50. */
  lemma PalettesMeetAtFifty(c: Color)
    ensures IsLight(c) && IsDark(c) <==> 1 <= c.h <= 360 && c.s == 50 && c.l == 50
  {
  }

  /** Every generated colour has a hue in range for the converters, so the
      hex code and the rgb text spell the same bytes. */
  lemma GeneratedColorsConvertAlike(c: Color)
    requires IsLight(c) || IsDark(c)
    ensures ParseHexColor(HexColor(Some(c))) == Some(RgbBytes(c))
    ensures var v := RgbBytes(c); 0 <= v.r <= 255 && 0 <= v.g <= 255 && 0 <= v.b <= 255
  {
    HexTextAgreesWithRgbText(c);
  }

  // ---------------------------------------------------------------------
  // The widget
  // ---------------------------------------------------------------------

  /** The widget's state: the optional colour it shows and its theme. The
      theme is an attribute the host page may set to any string. */
  class ColorBar {
    var color: Option<Color>
    var theme: string

    /** No colour yet; the theme defaults to "light". */
    constructor()
      ensures color == None && theme == "light"
    {
      color := None;
      theme := "light";
    }

    /** Joining the page generates the first colour. */
    method ConnectedCallback(rh: real, rs: real, rl: real)
      requires IsDraw(rh) && IsDraw(rs) && IsDraw(rl)
      modifies this
      ensures theme == old(theme)
      ensures color == Some(if theme == "dark" then DarkColor(rh, rs, rl) else LightColor(rh, rs, rl))
    {
      HandleClick(rh, rs, rl);
    }

    /** A dark colour exactly when the theme is "dark", a light one for any
        other theme. */
    method HandleClick(rh: real, rs: real, rl: real)
      requires IsDraw(rh) && IsDraw(rs) && IsDraw(rl)
      modifies this
      ensures theme == old(theme)
      ensures color == Some(if theme == "dark" then DarkColor(rh, rs, rl) else LightColor(rh, rs, rl))
    {
      if theme == "dark" {
        GenerateDarkHslColor(rh, rs, rl);
      } else {
        GenerateLightHslColor(rh, rs, rl);
      }
    }

    method GenerateLightHslColor(rh: real, rs: real, rl: real)
      requires IsDraw(rh) && IsDraw(rs) && IsDraw(rl)
      modifies this
      ensures color == Some(LightColor(rh, rs, rl)) && theme == old(theme)
    {
      var randomHue := RandomNumber(rh, 1, 360);
      var randomSaturation := RandomNumber(rs, 50, 101);
      var randomLightness := RandomNumber(rl, 50, 101);
      color := Some(Color(randomHue, randomSaturation, randomLightness));
    }

    method GenerateDarkHslColor(rh: real, rs: real, rl: real)
      requires IsDraw(rh) && IsDraw(rs) && IsDraw(rl)
      modifies this
      ensures color == Some(DarkColor(rh, rs, rl)) && theme == old(theme)
    {
      var randomHue := RandomNumber(rh, 1, 360);
      var randomSaturation := RandomNumber(rs, 1, 50);
      var randomLightness := RandomNumber(rl, 1, 50);
      color := Some(Color(randomHue, randomSaturation, randomLightness));
    }
  }

  /** A widget fresh on the page, with the theme its host gave it, shows a
      colour of that theme's palette, and its three texts agree. */
  method PlaceBar(hostTheme: string, rh: real, rs: real, rl: real) returns (bar: ColorBar)
    requires IsDraw(rh) && IsDraw(rs) && IsDraw(rl)
    ensures fresh(bar)
    ensures bar.theme == hostTheme
    ensures bar.color == Some(if hostTheme == "dark" then DarkColor(rh, rs, rl) else LightColor(rh, rs, rl))
    ensures hostTheme == "dark" ==> IsDark(bar.color.value)
    ensures hostTheme != "dark" ==> IsLight(bar.color.value)
    ensures ParseHexColor(HexColor(bar.color)) == Some(RgbBytes(bar.color.value))
  {
    bar := new ColorBar();
    bar.theme := hostTheme;
    bar.ConnectedCallback(rh, rs, rl);
    GeneratedColorsConvertAlike(bar.color.value);
  }
}
