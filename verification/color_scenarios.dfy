/** Worked examples of the three formatters: the primary colours, grey, the
    clamping and wrapping of out-of-range components, and what happens to a
    hue below -360, where the wrap leaves it negative.

    Each example is split into the channel arithmetic and the assembly of
    the text, so that the verifier evaluates one at a time. */
module ColorScenarios {
  import opened Wrappers
  import opened JsMath
  import opened Text
  import opened ColorModel
  import opened ColorProperties

  // ---------------------------------------------------------------------
  // From channels to text
  // ---------------------------------------------------------------------

  lemma HexOfChannels(color: Color, ch: Channels)
    requires HexChannels(Normalise(color)) == ch
    ensures HexColor(Some(color)) == "#" + ToHex(ch.r) + ToHex(ch.g) + ToHex(ch.b)
  {
  }

  lemma RgbOfChannels(color: Color, ch: Channels, text: string)
    requires RgbChannels(Normalise(color)) == ch
    requires RgbText(Bytes(ch)) == text
    ensures RgbColor(Some(color)) == text
  {
  }

  lemma FullByteHex()
    ensures ToHex(1.0) == "ff"
  {
    assert Round(1.0 * 255.0) == 255;
    assert NatToString(15, 16) == "f";
    assert NatToString(255, 16) == "ff";
  }

  lemma EmptyByteHex()
    ensures ToHex(0.0) == "00"
  {
    assert Round(0.0 * 255.0) == 0;
    assert NatToString(0, 16) == "0";
  }

  lemma HexTexts()
    ensures "#" + ToHex(1.0) + ToHex(0.0) + ToHex(0.0) == "#ff0000"
    ensures "#" + ToHex(0.0) + ToHex(1.0) + ToHex(0.0) == "#00ff00"
    ensures "#" + ToHex(0.0) + ToHex(0.0) + ToHex(1.0) == "#0000ff"
    ensures "#" + ToHex(0.0) + ToHex(0.0) + ToHex(0.0) == "#000000"
  {
    FullByteHex();
    EmptyByteHex();
  }

  lemma DecimalTexts()
    ensures IntToString(0, 10) == "0"
    ensures IntToString(255, 10) == "255"
    ensures IntToString(128, 10) == "128"
    ensures IntToString(170, 10) == "170"
  {
    assert NatToString(2, 10) == "2" && NatToString(25, 10) == "25" && NatToString(255, 10) == "255";
    assert NatToString(1, 10) == "1" && NatToString(12, 10) == "12" && NatToString(128, 10) == "128";
    assert NatToString(17, 10) == "17" && NatToString(170, 10) == "170";
  }

  lemma RgbTexts()
    ensures RgbText(Rgb(255, 0, 0)) == "rgb(255 , 0, 0)"
    ensures RgbText(Rgb(0, 255, 0)) == "rgb(0 , 255, 0)"
    ensures RgbText(Rgb(0, 0, 255)) == "rgb(0 , 0, 255)"
    ensures RgbText(Rgb(128, 128, 128)) == "rgb(128 , 128, 128)"
    ensures RgbText(Rgb(255, 0, 170)) == "rgb(255 , 0, 170)"
  {
    DecimalTexts();
  }

  lemma UnitBytes()
    ensures Bytes(Channels(1.0, 0.0, 0.0)) == Rgb(255, 0, 0)
    ensures Bytes(Channels(0.0, 1.0, 0.0)) == Rgb(0, 255, 0)
    ensures Bytes(Channels(0.0, 0.0, 1.0)) == Rgb(0, 0, 255)
  {
    assert Round(1.0 * 255.0) == 255 && Round(0.0 * 255.0) == 0;
  }

  lemma GreyHex()
    ensures var t := ToHex(Fraction(50)); "#" + t + t + t == "#808080"
  {
    assert Fraction(50) == 0.5;
    assert Round(0.5 * 255.0) == 128;
    assert NatToString(8, 16) == "8";
    assert NatToString(128, 16) == "80";
  }

  // ---------------------------------------------------------------------
  // Primary colours
  // ---------------------------------------------------------------------

  /** Hue 0 at full saturation and half lightness is pure red under both converters. */
  lemma RedChannels()
    ensures HexChannels(Normalise(Color(0, 100, 50))) == Channels(1.0, 0.0, 0.0)
    ensures RgbChannels(Normalise(Color(0, 100, 50))) == Channels(1.0, 0.0, 0.0)
  {
    assert Normalise(Color(0, 100, 50)) == Normalised(0, 1.0, 0.5);
    assert Chroma(1.0, 0.5) == 1.0;
    assert Upper(1.0, 0.5) == 1.0 && Lower(1.0, 0.5) == 0.0;
    assert RealRem(0.0, 2.0) == 0.0;
    assert Intermediate(0, 1.0) == 0.0;
  }

  /** Hue 120 is pure green. */
  lemma GreenChannels()
    ensures HexChannels(Normalise(Color(120, 100, 50))) == Channels(0.0, 1.0, 0.0)
    ensures RgbChannels(Normalise(Color(120, 100, 50))) == Channels(0.0, 1.0, 0.0)
  {
    assert Normalise(Color(120, 100, 50)) == Normalised(120, 1.0, 0.5);
    assert Chroma(1.0, 0.5) == 1.0;
    assert Upper(1.0, 0.5) == 1.0 && Lower(1.0, 0.5) == 0.0;
    assert RealRem(2.0, 2.0) == 0.0;
    assert Intermediate(120, 1.0) == 0.0;
  }

  /** Hue 240 is pure blue. */
  lemma BlueChannels()
    ensures HexChannels(Normalise(Color(240, 100, 50))) == Channels(0.0, 0.0, 1.0)
    ensures RgbChannels(Normalise(Color(240, 100, 50))) == Channels(0.0, 0.0, 1.0)
  {
    assert Normalise(Color(240, 100, 50)) == Normalised(240, 1.0, 0.5);
    assert Chroma(1.0, 0.5) == 1.0;
    assert Upper(1.0, 0.5) == 1.0 && Lower(1.0, 0.5) == 0.0;
    assert RealRem(4.0, 2.0) == 0.0;
    assert Intermediate(240, 1.0) == 0.0;
  }

  /** `#ff0000`, `#00ff00` and `#0000ff` for hues 0, 120 and 240. */
  lemma PrimaryHexCodes()
    ensures HexColor(Some(Color(0, 100, 50))) == "#ff0000"
    ensures HexColor(Some(Color(120, 100, 50))) == "#00ff00"
    ensures HexColor(Some(Color(240, 100, 50))) == "#0000ff"
  {
    RedChannels();
    GreenChannels();
    BlueChannels();
    HexOfChannels(Color(0, 100, 50), Channels(1.0, 0.0, 0.0));
    HexOfChannels(Color(120, 100, 50), Channels(0.0, 1.0, 0.0));
    HexOfChannels(Color(240, 100, 50), Channels(0.0, 0.0, 1.0));
    HexTexts();
  }

  lemma RedRgbText()
    ensures RgbColor(Some(Color(0, 100, 50))) == "rgb(255 , 0, 0)"
  {
    RedChannels();
    UnitBytes();
    RgbTexts();
    RgbOfChannels(Color(0, 100, 50), Channels(1.0, 0.0, 0.0), "rgb(255 , 0, 0)");
  }

  lemma GreenRgbText()
    ensures RgbColor(Some(Color(120, 100, 50))) == "rgb(0 , 255, 0)"
  {
    GreenChannels();
    UnitBytes();
    RgbTexts();
    RgbOfChannels(Color(120, 100, 50), Channels(0.0, 1.0, 0.0), "rgb(0 , 255, 0)");
  }

  lemma BlueRgbText()
    ensures RgbColor(Some(Color(240, 100, 50))) == "rgb(0 , 0, 255)"
  {
    BlueChannels();
    UnitBytes();
    RgbTexts();
    RgbOfChannels(Color(240, 100, 50), Channels(0.0, 0.0, 1.0), "rgb(0 , 0, 255)");
  }

  /** The same three colours through `rgbColor`. */
  lemma PrimaryRgbTexts()
    ensures RgbColor(Some(Color(0, 100, 50))) == "rgb(255 , 0, 0)"
    ensures RgbColor(Some(Color(120, 100, 50))) == "rgb(0 , 255, 0)"
    ensures RgbColor(Some(Color(240, 100, 50))) == "rgb(0 , 0, 255)"
  {
    RedRgbText();
    GreenRgbText();
    BlueRgbText();
  }

  /** Without saturation a half-light colour is the middle grey 128
      (`Math.round(127.5)`), whatever its hue. */
  lemma MiddleGrey(h: int)
    ensures RgbColor(Some(Color(h, 0, 50))) == "rgb(128 , 128, 128)"
    ensures HexColor(Some(Color(h, 0, 50))) == "#808080"
  {
    RgbAchromatic(Color(h, 0, 50));
    HexAchromatic(Color(h, 0, 50));
    assert Round(Fraction(50) * 255.0) == 128;
    RgbTexts();
    GreyHex();
  }

  // ---------------------------------------------------------------------
  // Normalisation
  // ---------------------------------------------------------------------

  /** Out-of-range components are wrapped and clamped before conversion:
      (-30, 150, -10) converts like (330, 100, 0). */
  lemma NormalisationExample()
    ensures HexColor(Some(Color(-30, 150, -10))) == HexColor(Some(Color(330, 100, 0)))
    ensures RgbColor(Some(Color(-30, 150, -10))) == RgbColor(Some(Color(330, 100, 0)))
  {
    assert WrapHue(-30) == 330 == WrapHue(330);
    ConvertersSeeNormalisedColor(Color(-30, 150, -10), Color(330, 100, 0));
  }

  /** The hsl text prints the stored numbers, so it tells the two apart. */
  lemma NormalisationExampleHsl()
    ensures HslColor(Some(Color(-30, 150, -10))) != HslColor(Some(Color(330, 100, 0)))
  {
    if HslColor(Some(Color(-30, 150, -10))) == HslColor(Some(Color(330, 100, 0))) {
      HslColorInjective(Color(-30, 150, -10), Color(330, 100, 0));
    }
  }

  /** A light colour may carry saturation 101, which the hsl text prints as
      is and the converters clamp to 100. */
  lemma OverfullSaturationClamped(h: int, l: int)
    ensures HexColor(Some(Color(h, 101, l))) == HexColor(Some(Color(h, 100, l)))
    ensures RgbColor(Some(Color(h, 101, l))) == RgbColor(Some(Color(h, 100, l)))
    ensures HslColor(Some(Color(h, 101, l))) != HslColor(Some(Color(h, 100, l)))
  {
    ConvertersSeeNormalisedColor(Color(h, 101, l), Color(h, 100, l));
    if HslColor(Some(Color(h, 101, l))) == HslColor(Some(Color(h, 100, l))) {
      HslColorInjective(Color(h, 101, l), Color(h, 100, l));
    }
  }

  // ---------------------------------------------------------------------
  // Hues below -360
  // ---------------------------------------------------------------------

  /** Below -360 the wrapped hue stays negative: the hex code selects no
      sextant and prints black for this colour ... */
  lemma HueBelowTurnHex()
    ensures WrapHue(-400) == -40
    ensures HexColor(Some(Color(-400, 100, 50))) == "#000000"
  {
    assert Normalise(Color(-400, 100, 50)) == Normalised(-40, 1.0, 0.5);
    assert Chroma(1.0, 0.5) == 1.0;
    assert HexChannels(Normalised(-40, 1.0, 0.5)) == Channels(0.0, 0.0, 0.0);
    HexOfChannels(Color(-400, 100, 50), Channels(0.0, 0.0, 0.0));
    HexTexts();
  }

  /** ... while `rgbColor` still runs the ramp and prints a colour. */
  lemma HueBelowTurnRgb()
    ensures RgbColor(Some(Color(-400, 100, 50))) == "rgb(255 , 0, 170)"
  {
    assert Normalise(Color(-400, 100, 50)) == Normalised(-40, 1.0, 0.5);
    assert Upper(1.0, 0.5) == 1.0 && Lower(1.0, 0.5) == 0.0;
    assert RgbChannels(Normalised(-40, 1.0, 0.5)) == Channels(1.0, 0.0, 2.0 / 3.0);
    assert Round(2.0 / 3.0 * 255.0) == 170;
    assert Bytes(Channels(1.0, 0.0, 2.0 / 3.0)) == Rgb(255, 0, 170);
    RgbTexts();
    RgbOfChannels(Color(-400, 100, 50), Channels(1.0, 0.0, 2.0 / 3.0), "rgb(255 , 0, 170)");
  }

  /** A whole number of turns below -360 still wraps to 0, so such a hue
      converts like hue 0 and does select the first sextant. */
  lemma WholeTurnsBelowWrapToZero(s: int, l: int)
    ensures WrapHue(-720) == 0
    ensures HexColor(Some(Color(-720, s, l))) == HexColor(Some(Color(0, s, l)))
    ensures RgbColor(Some(Color(-720, s, l))) == RgbColor(Some(Color(0, s, l)))
  {
    ConvertersSeeNormalisedColor(Color(-720, s, l), Color(0, s, l));
  }

  /** Below -360 a channel of `rgbColor` can leave the byte range. */
  lemma HueBelowTurnLeavesByteRange()
    ensures RgbBytes(Color(-660, 100, 50)) == Rgb(255, 255, -255)
  {
    assert Normalise(Color(-660, 100, 50)) == Normalised(-300, 1.0, 0.5);
    assert Upper(1.0, 0.5) == 1.0 && Lower(1.0, 0.5) == 0.0;
    assert RgbChannels(Normalised(-300, 1.0, 0.5)) == Channels(1.0, 1.0, -1.0);
  }
}
