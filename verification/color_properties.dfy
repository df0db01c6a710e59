/** What the colour formatters promise: the ranges of their intermediate
    values, the shape of their texts, and that the hex and RGB converters
    compute the same channels for every hue from -360 up. */
module ColorProperties {
  import opened Wrappers
  import opened JsMath
  import opened Text
  import opened ColorModel

  // ---------------------------------------------------------------------
  // Arithmetic helpers
  // ---------------------------------------------------------------------

  /** Scaling by a factor in [0, 1] stays between 0 and the scaled value. */
  lemma MulUnit(a: real, f: real)
    requires 0.0 <= a && 0.0 <= f <= 1.0
    ensures 0.0 <= a * f <= a
  {
  }

  lemma NonNegativeProduct(a: real, b: real)
    requires 0.0 <= a && 0.0 <= b
    ensures 0.0 <= a * b
  {
  }

  /** A factor in [1, 2] scales a non-negative value to between itself and its double. */
  lemma ScaleBetween(a: real, f: real)
    requires 0.0 <= a && 1.0 <= f <= 2.0
    ensures a <= a * f <= 2.0 * a
  {
  }

  /** The product of two values in [0, 1] is at most either of them and at
      least their sum less 1. */
  lemma UnitProductBounds(x: real, y: real)
    requires 0.0 <= x <= 1.0 && 0.0 <= y <= 1.0
    ensures 0.0 <= x * y <= x && x * y <= y
    ensures x + y - 1.0 <= x * y
  {
    NonNegativeProduct(1.0 - x, 1.0 - y);
  }

  lemma ZeroFactor(c: real, e: real)
    requires c == 0.0
    ensures c * e == 0.0
  {
  }

  /** A byte-scaled unit value rounds to a byte. */
  lemma RoundByte(v: real)
    requires 0.0 <= v <= 1.0
    ensures 0 <= Round(v * 255.0) <= 255
  {
  }

  // ---------------------------------------------------------------------
  // Chroma, intermediate and match values
  // ---------------------------------------------------------------------

  /** For saturation and lightness in [0, 1], the chroma is non-negative and
      the match value `m = l - c/2` keeps both `m` and `m + c` inside [0, 1]. */
  lemma ChromaBounds(s: real, l: real)
    requires 0.0 <= s <= 1.0 && 0.0 <= l <= 1.0
    ensures 0.0 <= Chroma(s, l)
    ensures 0.0 <= l - Chroma(s, l) / 2.0
    ensures l + Chroma(s, l) / 2.0 <= 1.0
  {
    // the product exactly as `Chroma` writes it, so that no factor is renamed
    MulUnit(1.0 - Abs(2.0 * l - 1.0), s);
    assert Chroma(s, l) == (1.0 - Abs(2.0 * l - 1.0)) * s;
    assert 1.0 - Abs(2.0 * l - 1.0) <= 2.0 * l;
    assert 1.0 - Abs(2.0 * l - 1.0) <= 2.0 - 2.0 * l;
    assert (1.0 - Abs(2.0 * l - 1.0)) * s <= 1.0 - Abs(2.0 * l - 1.0);
    assert Chroma(s, l) <= 2.0 * l;
    assert Chroma(s, l) <= 2.0 - 2.0 * l;
  }

  /** For a non-negative hue the intermediate value lies between 0 and the chroma. */
  lemma IntermediateBounds(h: int, c: real)
    requires 0 <= h && 0.0 <= c
    ensures 0.0 <= Intermediate(h, c) <= c
  {
    RealRemByTwo(h as real / 60.0);
    MulUnit(c, 1.0 - Abs(RealRem(h as real / 60.0, 2.0) - 1.0));
  }

  /** Every channel the hex formatter rounds lies in [0, 1], whatever the
      colour: a wrapped hue that is still negative selects no sextant and
      leaves the match value, which is itself in [0, 1]. */
  lemma HexChannelsInUnit(color: Color)
    ensures var ch := HexChannels(Normalise(color));
      0.0 <= ch.r <= 1.0 && 0.0 <= ch.g <= 1.0 && 0.0 <= ch.b <= 1.0
  {
    var n := Normalise(color);
    ChromaBounds(n.s, n.l);
    if 0 <= n.h {
      IntermediateBounds(n.h, Chroma(n.s, n.l));
    }
  }

  /** The inner `toHex` of a unit value writes exactly two lower-case hex
      digits, and they spell the rounded byte. */
  lemma ToHexTwoDigits(v: real)
    requires 0.0 <= v <= 1.0
    ensures 0 <= Round(v * 255.0) <= 255
    ensures |ToHex(v)| == 2
    ensures forall i :: 0 <= i < 2 ==> IsDigitOf(ToHex(v)[i], 16)
    ensures DigitsValue(ToHex(v), 16) == Round(v * 255.0)
  {
    var n := Round(v * 255.0);
    RoundByte(v);
    var hex := NatToString(n, 16);
    assert IntToString(n, 16) == hex;
    HexAtMostTwoDigits(n);
    NatToStringRoundTrip(n, 16);
    if |hex| == 1 {
      LeadingZero(hex, 16);
      assert ToHex(v) == "0" + hex;
      assert IsDigitOf('0', 16);
    }
  }

  /** `hexColor` of a colour is '#' and six lower-case hex digits, and a
      standard hex reader recovers the three rounded bytes, each in [0, 255]. */
  lemma HexColorRoundTrip(color: Color)
    ensures |HexColor(Some(color))| == 7 && HexColor(Some(color))[0] == '#'
    ensures forall i :: 1 <= i < 7 ==> IsDigitOf(HexColor(Some(color))[i], 16)
    ensures ParseHexColor(HexColor(Some(color))) == Some(HexBytes(color))
    ensures var v := HexBytes(color); 0 <= v.r <= 255 && 0 <= v.g <= 255 && 0 <= v.b <= 255
  {
    var ch := HexChannels(Normalise(color));
    HexChannelsInUnit(color);
    ToHexTwoDigits(ch.r);
    ToHexTwoDigits(ch.g);
    ToHexTwoDigits(ch.b);
    var s := HexColor(Some(color));
    assert s == "#" + ToHex(ch.r) + ToHex(ch.g) + ToHex(ch.b);
    assert s[1..3] == ToHex(ch.r);
    assert s[3..5] == ToHex(ch.g);
    assert s[5..7] == ToHex(ch.b);
    forall i | 1 <= i < 7
      ensures IsDigitOf(s[i], 16)
    {
      if i < 3 {
        assert s[i] == ToHex(ch.r)[i - 1];
      } else if i < 5 {
        assert s[i] == ToHex(ch.g)[i - 3];
      } else {
        assert s[i] == ToHex(ch.b)[i - 5];
      }
    }
  }

  // ---------------------------------------------------------------------
  // The RGB ramp
  // ---------------------------------------------------------------------

  /** For saturation and lightness in [0, 1]: `0 <= p <= l <= q <= 1`. */
  lemma RampBounds(s: real, l: real)
    requires 0.0 <= s <= 1.0 && 0.0 <= l <= 1.0
    ensures 0.0 <= Lower(s, l) <= l <= Upper(s, l) <= 1.0
  {
    if l < 0.5 {
      ScaleBetween(l, 1.0 + s);
      assert Upper(s, l) == l * (1.0 + s);
    } else {
      UnitProductBounds(l, s);
      assert Upper(s, l) == l + s - l * s;
    }
  }

  /** The ramp spans exactly the chroma and starts at the match value:
      `q - p == c` and `p == l - c/2`. */
  lemma RampIsChroma(s: real, l: real)
    ensures Upper(s, l) - Lower(s, l) == Chroma(s, l)
    ensures Lower(s, l) == l - Chroma(s, l) / 2.0
  {
  }

  /** A turn-adjusted value in [0, 1] keeps the ramp between `p` and `q`. */
  lemma RampBetween(p: real, q: real, t: real)
    requires p <= q && 0.0 <= t <= 1.0
    ensures p <= Ramp(p, q, t) <= q
  {
    if t < 1.0 / 6.0 {
      NonNegativeProduct(q - p, 6.0 * t);
      NonNegativeProduct(q - p, 1.0 - 6.0 * t);
    } else if t < 1.0 / 2.0 {
    } else if t < 2.0 / 3.0 {
      NonNegativeProduct(q - p, (2.0 / 3.0 - t) * 6.0);
      NonNegativeProduct(q - p, 1.0 - (2.0 / 3.0 - t) * 6.0);
    }
  }

  /** For `p <= q` and `t` within one turn of [0, 1], `hueToRgb` returns a
      value between `p` and `q`. */
  lemma HueToRgbBetween(p: real, q: real, t: real)
    requires p <= q && -1.0 <= t <= 2.0
    ensures p <= HueToRgb(p, q, t) <= q
  {
    RampBetween(p, q, TurnIntoRange(t));
  }

  /** For a hue of at least -360 each `rgbColor` channel lies in [0, 255]. */
  lemma RgbBytesInRange(color: Color)
    requires -360 <= color.h
    ensures var v := RgbBytes(color); 0 <= v.r <= 255 && 0 <= v.g <= 255 && 0 <= v.b <= 255
  {
    var n := Normalise(color);
    var ch := RgbChannels(n);
    if n.s != 0.0 {
      var p, q := Lower(n.s, n.l), Upper(n.s, n.l);
      RampBounds(n.s, n.l);
      HueToRgbBetween(p, q, n.h as real / 360.0 + 1.0 / 3.0);
      HueToRgbBetween(p, q, n.h as real / 360.0);
      HueToRgbBetween(p, q, n.h as real / 360.0 - 1.0 / 3.0);
    }
    RoundByte(ch.r);
    RoundByte(ch.g);
    RoundByte(ch.b);
  }

  // ---------------------------------------------------------------------
  // The two converters agree
  // ---------------------------------------------------------------------

  /** In [0, 360) the remainder of `h / 60` modulo 2 drops whole double sextants. */
  lemma HueRem(h: int)
    requires 0 <= h < 360
    ensures RealRem(h as real / 60.0, 2.0) == h as real / 60.0 - 2.0 * (h / 120) as real
  {
    var a := h as real / 60.0;
    assert a / 2.0 == h as real / 120.0;
  }

  /** Equal factors give equal products (stated on terms, so that the
      solver need not substitute inside a product). */
  lemma MulCongruence(c: real, e1: real, e2: real)
    requires e1 == e2
    ensures c * e1 == c * e2
  {
  }

  /** A channel on the rising edge of the ramp is the intermediate value above `p`. */
  lemma RisingChannel(p: real, c: real, t: real, h: int)
    requires 0.0 <= TurnIntoRange(t) < 1.0 / 6.0
    requires 6.0 * TurnIntoRange(t) == 1.0 - Abs(RealRem(h as real / 60.0, 2.0) - 1.0)
    ensures HueToRgb(p, p + c, t) == p + Intermediate(h, c)
  {
    MulCongruence(c, 6.0 * TurnIntoRange(t), 1.0 - Abs(RealRem(h as real / 60.0, 2.0) - 1.0));
  }

  /** A channel on the falling edge of the ramp is the intermediate value above `p`. */
  lemma FallingChannel(p: real, c: real, t: real, h: int)
    requires 1.0 / 2.0 <= TurnIntoRange(t) < 2.0 / 3.0
    requires (2.0 / 3.0 - TurnIntoRange(t)) * 6.0 == 1.0 - Abs(RealRem(h as real / 60.0, 2.0) - 1.0)
    ensures HueToRgb(p, p + c, t) == p + Intermediate(h, c)
  {
    MulCongruence(c, (2.0 / 3.0 - TurnIntoRange(t)) * 6.0, 1.0 - Abs(RealRem(h as real / 60.0, 2.0) - 1.0));
  }

  /** Sextant by sextant, the hex channels (`m` plus chroma, intermediate or
      0) equal the `hueToRgb` ramp from `p = m` to `q = m + c`. */
  lemma SextantsMatchRamp(h: int, p: real, c: real)
    requires 0 <= h < 360
    ensures var base := SextantChannels(h, c, Intermediate(h, c));
      Channels(base.r + p, base.g + p, base.b + p) == HueChannels(p, p + c, h)
  {
    HueRem(h);
    var red := h as real / 360.0 + 1.0 / 3.0;
    var green := h as real / 360.0;
    var blue := h as real / 360.0 - 1.0 / 3.0;
    if h < 60 {
      RisingChannel(p, c, green, h);
    } else if h < 120 {
      FallingChannel(p, c, red, h);
    } else if h < 180 {
      assert h / 120 == 1;
      RisingChannel(p, c, blue, h);
    } else if h < 240 {
      assert h / 120 == 1;
      FallingChannel(p, c, green, h);
    } else if h < 300 {
      assert h / 120 == 2;
      if h == 240 {
        assert Intermediate(h, c) == c * 0.0;
      } else {
        RisingChannel(p, c, red, h);
      }
    } else {
      assert h / 120 == 2;
      FallingChannel(p, c, blue, h);
    }
  }

  /** Under exact arithmetic, for every hue of at least -360 the hex and RGB
      converters compute the same unit-scale channels, hence the same bytes. */
  lemma HexMatchesRgb(color: Color)
    requires -360 <= color.h
    ensures HexChannels(Normalise(color)) == RgbChannels(Normalise(color))
    ensures HexBytes(color) == RgbBytes(color)
  {
    var n := Normalise(color);
    var c := Chroma(n.s, n.l);
    if n.s == 0.0 {
      MulCongruence(1.0 - Abs(2.0 * n.l - 1.0), n.s, 0.0);
      ZeroFactor(c, 1.0 - Abs(RealRem(n.h as real / 60.0, 2.0) - 1.0));
    } else {
      RampIsChroma(n.s, n.l);
      SextantsMatchRamp(n.h, Lower(n.s, n.l), c);
      assert Upper(n.s, n.l) == Lower(n.s, n.l) + c;
    }
  }

  /** The agreement as the texts show it: reading the `#rrggbb` text back
      gives exactly the three numbers `rgbColor` prints, each in [0, 255]. */
  lemma HexTextAgreesWithRgbText(color: Color)
    requires -360 <= color.h
    ensures ParseHexColor(HexColor(Some(color))) == Some(RgbBytes(color))
    ensures RgbColor(Some(color)) == RgbText(RgbBytes(color))
    ensures var v := RgbBytes(color); 0 <= v.r <= 255 && 0 <= v.g <= 255 && 0 <= v.b <= 255
  {
    HexColorRoundTrip(color);
    HexMatchesRgb(color);
  }

  // ---------------------------------------------------------------------
  // Normalisation
  // ---------------------------------------------------------------------

  /** The converters see a colour only through its wrapped hue and clamped
      saturation and lightness: colours that agree on those print alike. */
  lemma ConvertersSeeNormalisedColor(a: Color, b: Color)
    requires WrapHue(a.h) == WrapHue(b.h)
    requires Fraction(a.s) == Fraction(b.s) && Fraction(a.l) == Fraction(b.l)
    ensures HexColor(Some(a)) == HexColor(Some(b))
    ensures RgbColor(Some(a)) == RgbColor(Some(b))
  {
    assert Normalise(a) == Normalise(b);
  }

  /** From -360 up, a whole turn more hue prints the same hex and RGB text. */
  lemma ConvertersPeriodicInHue(color: Color)
    requires -360 <= color.h
    ensures HexColor(Some(color.(h := color.h + 360))) == HexColor(Some(color))
    ensures RgbColor(Some(color.(h := color.h + 360))) == RgbColor(Some(color))
  {
    assert (color.h + 360) % 360 == color.h % 360;
    ConvertersSeeNormalisedColor(color.(h := color.h + 360), color);
  }

  /** Saturation 0 makes the chroma and the intermediate value 0, so all three
      hex channels are the lightness, whatever the hue. */
  lemma HexAchromatic(color: Color)
    requires color.s <= 0
    ensures var t := ToHex(Fraction(color.l)); HexColor(Some(color)) == "#" + t + t + t
  {
    var n := Normalise(color);
    var c := Chroma(n.s, n.l);
    MulCongruence(1.0 - Abs(2.0 * n.l - 1.0), n.s, 0.0);
    assert c == 0.0;
    ZeroFactor(c, 1.0 - Abs(RealRem(n.h as real / 60.0, 2.0) - 1.0));
    assert HexChannels(n) == Channels(n.l, n.l, n.l);
  }

  /** Saturation 0 makes `rgbColor` print the rounded lightness three times. */
  lemma RgbAchromatic(color: Color)
    requires color.s <= 0
    ensures var v := Round(Fraction(color.l) * 255.0);
      RgbColor(Some(color)) == RgbText(Rgb(v, v, v)) && 0 <= v <= 255
  {
    var n := Normalise(color);
    var v := Round(n.l * 255.0);
    assert RgbChannels(n) == Channels(n.l, n.l, n.l);
    assert RgbBytes(color) == Rgb(v, v, v);
    RoundByte(n.l);
  }

  // ---------------------------------------------------------------------
  // The texts
  // ---------------------------------------------------------------------

  /** Each formatter returns the empty string exactly when there is no colour. */
  lemma EmptyExactlyWithoutColor(color: Option<Color>)
    ensures HslColor(color) == "" <==> color.None?
    ensures HexColor(color) == "" <==> color.None?
    ensures RgbColor(color) == "" <==> color.None?
  {
    if color.Some? {
      assert HslColor(color)[0] == 'h';
      assert HexColor(color)[0] == '#';
      assert RgbColor(color)[0] == 'r';
    }
  }

  /** The `hsl(...)` template regrouped around its separators. */
  lemma HslLayout(h: string, s: string, l: string)
    ensures "hsl(" + h + ", " + s + "%, " + l + "%)"
         == "hsl(" + h + [','] + (" " + s + ['%'] + (", " + l + ['%'] + ")"))
  {
    assert ", " == [','] + " ";
    assert "%, " == ['%'] + ", ";
    assert "%)" == ['%'] + ")";
  }

  /** The `hsl(h, s%, l%)` text determines the colour. */
  lemma HslColorInjective(a: Color, b: Color)
    requires HslColor(Some(a)) == HslColor(Some(b))
    ensures a == b
  {
    var ha, sa, la := IntToString(a.h, 10), IntToString(a.s, 10), IntToString(a.l, 10);
    var hb, sb, lb := IntToString(b.h, 10), IntToString(b.s, 10), IntToString(b.l, 10);
    HslLayout(ha, sa, la);
    HslLayout(hb, sb, lb);
    SplitField("hsl(", a.h, " " + sa + ['%'] + (", " + la + ['%'] + ")"),
                       b.h, " " + sb + ['%'] + (", " + lb + ['%'] + ")"), ',');
    SplitField(" ", a.s, ", " + la + ['%'] + ")", b.s, ", " + lb + ['%'] + ")", '%');
    SplitField(", ", a.l, ")", b.l, ")", '%');
  }

  /** The `rgb(...)` template regrouped around its separators. */
  lemma RgbLayout(r: string, g: string, b: string)
    ensures "rgb(" + r + " , " + g + ", " + b + ")"
         == "rgb(" + r + [' '] + (", " + g + [','] + (" " + b + [')'] + []))
  {
    assert " , " == [' '] + ", ";
    assert ", " == [','] + " ";
  }

  /** The `rgb(r , g, b)` text determines the three numbers. */
  lemma RgbTextInjective(a: Rgb, b: Rgb)
    requires RgbText(a) == RgbText(b)
    ensures a == b
  {
    var ra, ga, ba := IntToString(a.r, 10), IntToString(a.g, 10), IntToString(a.b, 10);
    var rb, gb, bb := IntToString(b.r, 10), IntToString(b.g, 10), IntToString(b.b, 10);
    RgbLayout(ra, ga, ba);
    RgbLayout(rb, gb, bb);
    SplitField("rgb(", a.r, ", " + ga + [','] + (" " + ba + [')'] + []),
                       b.r, ", " + gb + [','] + (" " + bb + [')'] + []), ' ');
    SplitField(", ", a.g, " " + ba + [')'] + [], b.g, " " + bb + [')'] + [], ',');
    SplitField(" ", a.b, [], b.b, [], ')');
  }
}
