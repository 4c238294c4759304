/**
 * `hexToHsl` and `rgbToHsl`: the standard RGB to HSL conversion, computed
 * in exact rational arithmetic (`real`) instead of IEEE-754 doubles.
 */
module HslConversion {
  import opened Wrappers
  import opened Numerals
  import opened HexCodec

  /** `{ h, s, l, a }`: hue in degrees, saturation and lightness in percent. */
  datatype Hsl = Hsl(h: real, s: real, l: real, a: Number)

  function Max3(x: real, y: real, z: real): (m: real)
    ensures m == x || m == y || m == z
    ensures x <= m && y <= m && z <= m
  {
    if x >= y && x >= z then x else if y >= z then y else z
  }

  function Min3(x: real, y: real, z: real): (m: real)
    ensures m == x || m == y || m == z
    ensures m <= x && m <= y && m <= z
  {
    if x <= y && x <= z then x else if y <= z then y else z
  }

  /** A channel normalised to [0, 1]: `r /= 255`. */
  function Unit(v: nat): (u: real)
    ensures 0.0 <= u && (v <= 255 ==> u <= 1.0)
  {
    v as real / 255.0
  }

  /**
   * The hue, in sixths of a turn, of the case for channel `which`
   * (0 = red, 1 = green, 2 = blue) of the source's `switch (max)`.
   */
  function SectorHue(which: nat, r: real, g: real, b: real, d: real): real
    requires which < 3 && d != 0.0
  {
    if which == 0 then (g - b) / d + (if g < b then 6.0 else 0.0)
    else if which == 1 then (b - r) / d + 2.0
    else (r - g) / d + 4.0
  }

  function Channel(which: nat, r: real, g: real, b: real): real
    requires which < 3
  {
    if which == 0 then r else if which == 1 then g else b
  }

  /**
   * The body of `hexToHsl` after `hexToRgb`: l is the mean of the largest and
   * smallest channel; a grey has hue and saturation 0; otherwise the
   * `switch (max)` tests r, then g, then b.
   */
  function HslOfChannels(r: nat, g: nat, b: nat): (c: Hsl)
    requires r < 256 && g < 256 && b < 256
    ensures 0.0 <= c.h < 360.0
    ensures 0.0 <= c.s <= 100.0
    ensures 0.0 <= c.l <= 100.0
    ensures c.a == One
  {
    var rr, gg, bb := Unit(r), Unit(g), Unit(b);
    var mx, mn := Max3(rr, gg, bb), Min3(rr, gg, bb);
    var l := (mx + mn) / 2.0;
    if mx == mn then
      Hsl(0.0, 0.0, l * 100.0, One)
    else
      var d := mx - mn;
      var s := if l > 0.5 then d / (2.0 - mx - mn) else d / (mx + mn);
      var which := if mx == rr then 0 else if mx == gg then 1 else 2;
      var h := SectorHue(which, rr, gg, bb, d);
      SaturationBounds(mx, mn);
      SectorHueBounds(which, rr, gg, bb, mx, mn);
      Hsl(h / 6.0 * 360.0, s * 100.0, l * 100.0, One)
  }

  lemma SaturationBounds(mx: real, mn: real)
    requires 0.0 <= mn < mx <= 1.0
    ensures (mx + mn) / 2.0 > 0.5 ==> 2.0 - mx - mn > 0.0 && 0.0 < (mx - mn) / (2.0 - mx - mn) <= 1.0
    ensures (mx + mn) / 2.0 <= 0.5 ==> mx + mn > 0.0 && 0.0 < (mx - mn) / (mx + mn) <= 1.0
  {
    var d := mx - mn;
    if (mx + mn) / 2.0 > 0.5 {
      DivideBounds(d, 2.0 - mx - mn);
    } else {
      DivideBounds(d, mx + mn);
    }
  }

  lemma DivideBounds(x: real, y: real)
    requires 0.0 < x <= y
    ensures 0.0 < x / y <= 1.0
  {
  }

  lemma SectorHueBounds(which: nat, r: real, g: real, b: real, mx: real, mn: real)
    requires which < 3 && mn < mx
    requires mx == Max3(r, g, b) && mn == Min3(r, g, b) && Channel(which, r, g, b) == mx
    ensures 0.0 <= SectorHue(which, r, g, b, mx - mn) < 6.0
  {
    var d := mx - mn;
    if which == 0 {
      RatioBounds(g - b, d);
      if g < b {
        assert (g - b) / d < 0.0;
      }
    } else if which == 1 {
      RatioBounds(b - r, d);
    } else {
      RatioBounds(r - g, d);
    }
  }

  lemma RatioBounds(x: real, d: real)
    requires d > 0.0 && -d <= x <= d
    ensures -1.0 <= x / d <= 1.0
    ensures x < 0.0 ==> x / d < 0.0
  {
  }

  /** `hexToHsl`: the HSL of the channels `hexToRgb` reads. */
  function HexToHsl(hex: string): (c: Option<Hsl>)
    ensures c.Some? <==> HasHexFields(hex)
    ensures c.Some? ==> 0.0 <= c.value.h < 360.0 && 0.0 <= c.value.s <= 100.0 && 0.0 <= c.value.l <= 100.0
    ensures c.Some? ==> c.value.a == One
  {
    var rgb :- HexToRgb(hex);
    Some(HslOfChannels(rgb.r, rgb.g, rgb.b))
  }

  /**
   * `rgbToHsl` goes through `rgbToHex` and `hexToHsl`; the hex round trip is
   * lossless, so it is the HSL of the channels themselves.
   */
  function RgbToHsl(r: nat, g: nat, b: nat): (c: Hsl)
    requires r < 256 && g < 256 && b < 256
    ensures c == HslOfChannels(r, g, b)
  {
    HexRoundTrip(r, g, b);
    var hsl := HexToHsl(RgbToHex(r, g, b)).value;
    Hsl(hsl.h, hsl.s, hsl.l, One)
  }

  // ---------------------------------------------------------------------
  // Properties

  /** A grey (`max === min`) has hue 0 and saturation 0, and only a grey has saturation 0. */
  lemma Achromatic(r: nat, g: nat, b: nat)
    requires r < 256 && g < 256 && b < 256
    ensures r == g == b ==> HslOfChannels(r, g, b).h == 0.0
    ensures HslOfChannels(r, g, b).s == 0.0 <==> r == g == b
    ensures r == g == b ==> HslOfChannels(r, g, b).l == 100.0 * Unit(r)
  {
    var rr, gg, bb := Unit(r), Unit(g), Unit(b);
    var mx, mn := Max3(rr, gg, bb), Min3(rr, gg, bb);
    if mx != mn {
      SaturationBounds(mx, mn);
      assert !(r == g == b);
    } else {
      assert rr == gg == bb;
    }
  }

  /** Lightness is the mean of the largest and the smallest channel, in percent. */
  lemma Lightness(r: nat, g: nat, b: nat)
    requires r < 256 && g < 256 && b < 256
    ensures HslOfChannels(r, g, b).l
         == 100.0 * (Max3(Unit(r), Unit(g), Unit(b)) + Min3(Unit(r), Unit(g), Unit(b))) / 2.0
  {
  }

  /**
   * The tie-break of `switch (max)` (r before g before b) never shows in the
   * result: for a colour that is not grey, the hue is 60 times the sector
   * formula of EVERY channel that holds the maximum, the first one included.
   */
  lemma HueOfEveryMaximalChannel(r: nat, g: nat, b: nat, which: nat)
    requires r < 256 && g < 256 && b < 256 && which < 3
    requires !(r == g == b)
    requires Channel(which, Unit(r), Unit(g), Unit(b)) == Max3(Unit(r), Unit(g), Unit(b))
    ensures var rr, gg, bb := Unit(r), Unit(g), Unit(b);
            var d := Max3(rr, gg, bb) - Min3(rr, gg, bb);
            d > 0.0 && HslOfChannels(r, g, b).h == 60.0 * SectorHue(which, rr, gg, bb, d)
  {
    var rr, gg, bb := Unit(r), Unit(g), Unit(b);
    var mx, mn := Max3(rr, gg, bb), Min3(rr, gg, bb);
    var d := mx - mn;
    assert mx != mn;
    var first := if mx == rr then 0 else if mx == gg then 1 else 2;
    SectorsAgree(first, which, rr, gg, bb, mx, mn);
  }

  /** Two channels that both hold the maximum give the same sector hue. */
  lemma SectorsAgree(i: nat, j: nat, r: real, g: real, b: real, mx: real, mn: real)
    requires i < 3 && j < 3 && mn < mx
    requires mx == Max3(r, g, b) && mn == Min3(r, g, b)
    requires Channel(i, r, g, b) == mx && Channel(j, r, g, b) == mx
    ensures SectorHue(i, r, g, b, mx - mn) == SectorHue(j, r, g, b, mx - mn)
  {
    if i != j {
      SectorHueOfTie(r, g, b, mx, mn);
    }
  }

  /**
   * The sector hue of each of two channels tied at the maximum: the third
   * channel is then the minimum, and both formulas give 1, 5 or 3 sixths.
   */
  lemma SectorHueOfTie(r: real, g: real, b: real, mx: real, mn: real)
    requires mn < mx && mx == Max3(r, g, b) && mn == Min3(r, g, b)
    ensures r == mx && g == mx ==> SectorHue(0, r, g, b, mx - mn) == SectorHue(1, r, g, b, mx - mn) == 1.0
    ensures r == mx && b == mx ==> SectorHue(0, r, g, b, mx - mn) == SectorHue(2, r, g, b, mx - mn) == 5.0
    ensures g == mx && b == mx ==> SectorHue(1, r, g, b, mx - mn) == SectorHue(2, r, g, b, mx - mn) == 3.0
  {
    var d := mx - mn;
    UnitRatios(d);
    if r == mx && g == mx {
      assert b == mn;
      assert g - b == d && b - r == -d;
    }
    if r == mx && b == mx {
      assert g == mn;
      assert g - b == -d && r - g == d && g < b;
    }
    if g == mx && b == mx {
      assert r == mn;
      assert b - r == d && r - g == -d;
    }
  }

  lemma UnitRatios(d: real)
    requires d > 0.0
    ensures d / d == 1.0 && (-d) / d == -1.0
  {
  }
}
