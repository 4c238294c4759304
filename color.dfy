/**
 * The `Color` class of src/color.js: a record `{ r, g, b, a }` filled by the
 * constructor through `parseColor`, the `alpha` mutator, which overwrites
 * `a` in place and returns the receiver, and the formatters.
 */
module Colors {
  import opened Wrappers
  import opened Numerals
  import opened HexCodec
  import opened RgbaParser

  predicate StartsWith(s: string, prefix: string) {
    |prefix| <= |s| && s[..|prefix|] == prefix
  }

  /**
   * `parseColor`: text starting with `rgba` goes to `rgbaToRgb`, everything
   * else (starting with `#` or not) to `hexToRgb`.
   */
  function ParseColor(s: string): (c: Option<Rgba>)
    ensures !StartsWith(s, "rgba") ==> (c.Some? <==> HasHexFields(s))
    ensures c.Some? && !StartsWith(s, "rgba") ==> ByteChannels(c.value) && c.value.a == One
    ensures StartsWith(s, "rgba") ==> (c.None? <==> forall k :: 0 <= k <= |s| ==> MatchAt(s, k).None?)
  {
    if StartsWith(s, "rgba") then RgbaToRgb(s)
    else if StartsWith(s, "#") then HexToRgb(s)
    else HexToRgb(s)
  }

  /** The template literal of `toRgba`, over the texts of its four holes. */
  function RgbaTemplate(r: string, g: string, b: string, a: string): string {
    "rgba(" + r + ", " + g + ", " + b + ", " + a + ")"
  }

  /** The template literal of `toRgb`. */
  function RgbTemplate(r: string, g: string, b: string): string {
    "rgb(" + r + ", " + g + ", " + b + ")"
  }

  /** `toRgba` of a record: each hole is filled by JavaScript's number-to-string. */
  function FormatRgba(c: Rgba): string {
    RgbaTemplate(NatToString(c.r), NatToString(c.g), NatToString(c.b), NumberToString(c.a))
  }

  /** `toRgb` of a record. */
  function FormatRgb(c: Rgba): string {
    RgbTemplate(NatToString(c.r), NatToString(c.g), NatToString(c.b))
  }

  /** Channels and alpha that `toRgba` writes in the plain forms `rgbaToRgb` reads back. */
  predicate Reparsable(c: Rgba) {
    c.r < Pow10(21) && c.g < Pow10(21) && c.b < Pow10(21)
    && !c.a.negative && WrittenWithoutExponent(c.a)
  }

  class Color {
    var color: Rgba

    /** `new Color(s)`: the record is what `parseColor` makes of s. */
    constructor (s: string)
      requires ParseColor(s).Some?
      ensures color == ParseColor(s).value
    {
      color := ParseColor(s).value;
    }

    /** `alpha(value)`: a becomes value, r, g and b stay, and the receiver itself is returned. */
    method Alpha(value: Number) returns (self: Color)
      modifies this
      ensures self == this
      ensures color == old(color).(a := value)
    {
      color := color.(a := value);
      self := this;
    }

    /** `toRgba()`: text that `parseColor` reads back as this very record whenever the channels are below 10^21 and alpha is non-negative and written without an exponent (`Reparsable`). */
    function ToRgba(): (text: string)
      reads this
      ensures StartsWith(text, "rgba(")
      ensures Reparsable(color) ==> ParseColor(text) == Some(color)
    {
      RgbaTextRoundTrip(color);
      RgbaTemplatePrefix(NatToString(color.r), NatToString(color.g), NatToString(color.b), NumberToString(color.a));
      FormatRgba(color)
    }

    /** `toRgb()`: the text of `toRgba()` without `a`; `parseColor` does not accept it. */
    function ToRgb(): (text: string)
      reads this
      ensures |text| >= 5 && text[..4] == "rgb("
      ensures ToRgba() == "rgba" + text[3..|text| - 1] + ", " + NumberToString(color.a) + ")"
      ensures ParseColor(text).None?
    {
      RgbAndRgbaAgree(NatToString(color.r), NatToString(color.g), NatToString(color.b), NumberToString(color.a));
      RgbTextNotAccepted(NatToString(color.r), NatToString(color.g), NatToString(color.b));
      FormatRgb(color)
    }

    /** `toHex()`: `#RRGGBB` in upper case, which `hexToRgb` reads back as r, g, b with a = 1. */
    function ToHex(): (text: string)
      reads this
      requires ByteChannels(color)
      ensures IsUpperHexColor(text)
      ensures HexToRgb(text) == Some(color.(a := One))
    {
      HexRoundTrip(color.r, color.g, color.b);
      UpperHexColorOfBytes(color.r, color.g, color.b);
      RgbToHex(color.r, color.g, color.b)
    }
  }

  /** `#` and six hex digits none of which is lower case: the form `toHex` writes. */
  predicate IsUpperHexColor(s: string) {
    |s| == 7 && s[0] == '#' && forall i :: 1 <= i < 7 ==> IsHexDigit(s[i]) && !('a' <= s[i] <= 'z')
  }

  // ---------------------------------------------------------------------
  // Properties of parsing and formatting

  lemma UpperHexColorOfBytes(r: nat, g: nat, b: nat)
    requires r < 256 && g < 256 && b < 256
    ensures IsUpperHexColor(RgbToHex(r, g, b))
  {
  }

  /** Every `rgba(...)` text of the expression's shape is parsed to the numbers it spells. */
  lemma ParseRgbaText(k: Groups, rest: string)
    requires WellFormed(k)
    ensures ParseColor(MatchText(true, k) + rest) == Some(GroupsValue(k))
  {
    var s := MatchText(true, k) + rest;
    assert s[..4] == "rgba";
    RgbaToRgbOfText(k, rest);
  }

  /**
   * Six hex digits after any first character, `#` or not, are parsed as
   * `hexToRgb` reads them: the first character is skipped unseen. The first
   * character is one UTF-16 code unit, so that it takes one offset as in
   * JavaScript.
   */
  lemma ParseHexText(first: char, digits: string)
    requires OneCodeUnit(first)
    requires |digits| == 6 && forall i :: 0 <= i < 6 ==> IsHexDigit(digits[i])
    ensures ParseColor([first] + digits) == ParseColor("#" + digits)
    ensures ParseColor([first] + digits).Some?
  {
    var s, t := [first] + digits, "#" + digits;
    assert s[1] == digits[0] != 'g';
    assert s[1..7] == t[1..7] == digits;
    HexToRgbReadsOnlyFields(s, t);
  }

  /** The template of `toRgba` has exactly the shape of the `rgbaToRgb` expression. */
  lemma TemplateIsMatchText(k: Groups)
    ensures RgbaTemplate(k.red, k.green, k.blue, k.alpha) == MatchText(true, k) + ""
  {
  }

  /** The text of `toRgba` opens with `rgba(`, whatever fills its holes. */
  lemma RgbaTemplatePrefix(r: string, g: string, b: string, a: string)
    ensures StartsWith(RgbaTemplate(r, g, b, a), "rgba(")
  {
    var text := RgbaTemplate(r, g, b, a);
    assert text == "rgba(" + (r + ", " + g + ", " + b + ", " + a + ")");
    assert text[..5] == "rgba(";
  }

  /** `parseColor(toRgba())` gives back the record, for channels and alpha written plainly. */
  lemma RgbaTextRoundTrip(c: Rgba)
    ensures Reparsable(c) ==> ParseColor(FormatRgba(c)) == Some(c)
  {
    if Reparsable(c) {
      NatToStringIsDecDigits(c.r);
      NatToStringIsDecDigits(c.g);
      NatToStringIsDecDigits(c.b);
      LiteralOfNumberToString(c.a);
      var k := Groups(DecDigits(c.r), DecDigits(c.g), DecDigits(c.b), NumberToString(c.a));
      TemplateIsMatchText(k);
      ParseRgbaText(k, "");
      DigitsValueOfDecDigits(c.r);
      DigitsValueOfDecDigits(c.g);
      DigitsValueOfDecDigits(c.b);
    }
  }

  /** `toRgba` is `toRgb` with `a` inserted before the closing parenthesis. */
  lemma RgbAndRgbaAgree(r: string, g: string, b: string, a: string)
    ensures var rgb := RgbTemplate(r, g, b);
            |rgb| >= 5 && rgb[..4] == "rgb("
            && RgbaTemplate(r, g, b, a) == "rgba" + rgb[3..|rgb| - 1] + ", " + a + ")"
  {
    var rgb := RgbTemplate(r, g, b);
    var inner := "(" + r + ", " + g + ", " + b;
    assert rgb == "rgb" + inner + ")";
    assert rgb[3..|rgb| - 1] == inner;
  }

  /** The text of `toRgb` starts with `rgb(`, so it goes to `hexToRgb`, which rejects its `g`. */
  lemma RgbTextNotAccepted(r: string, g: string, b: string)
    ensures ParseColor(RgbTemplate(r, g, b)).None?
  {
    var rgb := RgbTemplate(r, g, b);
    assert rgb[..4] == "rgb(";
    assert !StartsWith(rgb, "rgba");
    assert !IsHexDigit(rgb[1]);
  }

  /** For byte channels only, `hexToRgb` and `toHex` round-trip hex text up to letter case. */
  lemma HexTextRoundTrip(s: string)
    requires HasHexFields(s) && !StartsWith(s, "rgba")
    ensures ParseColor(s).Some?
    ensures var c := ParseColor(s).value; RgbToHex(c.r, c.g, c.b) == "#" + ToUpperString(s[1..7])
  {
    HexOfParsedFields(s);
  }

  /** Upper-casing leaves the digits of an upper-case hex colour as they are. */
  lemma UpperHexUnchanged(s: string)
    requires IsUpperHexColor(s)
    ensures "#" + ToUpperString(s[1..7]) == s
  {
    var u := ToUpperString(s[1..7]);
    forall i | 0 <= i < 6
      ensures u[i] == s[i + 1]
    {
      assert s[1..7][i] == s[i + 1];
    }
  }

  // ---------------------------------------------------------------------
  // Clients of the class

  /** `new Color(s).toHex() == s` for every `#RRGGBB` written in upper case. */
  method HexColorRoundTrip(s: string) returns (text: string)
    requires IsUpperHexColor(s)
    ensures text == s
  {
    assert !StartsWith(s, "rgba") by {
      assert s[0] == '#';
    }
    assert HasHexFields(s);
    ghost var parsed := HexToRgb(s).value;
    assert ParseColor(s) == Some(parsed);
    HexOfParsedFields(s);
    UpperHexUnchanged(s);
    assert RgbToHex(parsed.r, parsed.g, parsed.b) == s;
    var c := new Color(s);
    text := c.ToHex();
  }

  /**
   * `alpha` changes the object itself: after `alias := original.alpha(v)`
   * both names denote one Color, whose alpha is v and whose channels are
   * unchanged.
   */
  method AlphaSharedByAliases(s: string, v: Number) returns (original: Color, alias: Color, text: string)
    requires ParseColor(s).Some?
    ensures alias == original
    ensures original.color == ParseColor(s).value.(a := v)
    ensures text == FormatRgba(ParseColor(s).value.(a := v))
  {
    original := new Color(s);
    alias := original.Alpha(v);
    text := original.ToRgba();
  }

  /** A multiple of ten below one hundred is written as its two digits. */
  lemma TensText(d: nat)
    requires 1 <= d < 10
    ensures DecDigits(10 * d) == [DecChar(d), '0']
    ensures NatToString(10 * d) == [DecChar(d), '0']
  {
    var n := 10 * d;
    var c := DecChar(d);
    assert n / 10 == d && n % 10 == 0;
    var ds := DecDigits(n);
    assert ds == [c, '0'] by {
      assert DecDigits(d) == [c];
      assert DecChar(0) == '0';
    }
    var sig := SignificantDigits(n);
    assert sig == [c] by {
      assert c != '0';
      assert ds[..1] == [c];
      assert StripTrailingZeros([c]) == [c];
    }
    assert PointPosition(FromNat(n)) == 2;
    assert PlaceDigits([c], 2) == [c] + Zeros(1);
  }

  /** One tenth times a digit is written `0.d`. */
  lemma TenthsText(d: nat)
    requires 1 <= d < 10
    ensures NumberToString(Decimal(false, d, 1)) == ['0', '.', DecChar(d)]
  {
    assert SignificantDigits(d) == [DecChar(d)];
    assert PlaceDigits([DecChar(d)], 0) == "0." + Zeros(0) + [DecChar(d)];
  }

  lemma BlackParsed()
    ensures ParseColor("#000000") == Some(Rgba(0, 0, 0, One))
  {
    var s := "#000000";
    assert !StartsWith(s, "rgba");
    assert HexField(s, 1) == Some(0) && HexField(s, 3) == Some(0) && HexField(s, 5) == Some(0);
  }

  lemma AlphaExampleText()
    ensures FormatRgba(Rgba(0, 0, 0, Decimal(false, 3, 1))) == "rgba(0, 0, 0, 0.3)"
  {
    TenthsText(3);
    assert NatToString(0) == "0";
  }

  /** `new Color('#000000').alpha(0.3).toRgba()`, read through the original reference. */
  method AlphaExample() returns (original: Color, alias: Color, text: string)
    ensures alias == original
    ensures text == "rgba(0, 0, 0, 0.3)"
  {
    BlackParsed();
    AlphaExampleText();
    original := new Color("#000000");
    alias := original.Alpha(Decimal(false, 3, 1));
    text := original.ToRgba();
  }

  /** The numerals of the `rgba(10, 20, 30, 0.5)` example. */
  lemma ExampleNumerals()
    ensures NatToString(10) == "10" && NatToString(20) == "20" && NatToString(30) == "30"
    ensures DecDigits(10) == "10" && DecDigits(20) == "20" && DecDigits(30) == "30"
    ensures NumberToString(Decimal(false, 5, 1)) == "0.5"
  {
    TensText(1);
    TensText(2);
    TensText(3);
    TenthsText(5);
  }

  /** The decimal digits of n are a channel group that `parseInt` reads as n. */
  lemma ChannelTextOf(n: nat, text: string)
    requires DecDigits(n) == text
    ensures IsChannelText(text) && DigitsValue(text) == n
  {
    DigitsValueOfDecDigits(n);
  }

  lemma ExampleAlphaLiteral()
    ensures IsDecimalLiteral("0.5") && LiteralValue("0.5") == Decimal(false, 5, 1)
  {
    var half: Number := Decimal(false, 5, 1);
    TenthsText(5);
    assert NumberToString(half) == "0.5";
    assert PointPosition(half) == 0 by {
      assert DecDigits(5) == [DecChar(5)];
    }
    LiteralOfNumberToString(half);
  }

  lemma ExampleGroups()
    ensures WellFormed(Groups("10", "20", "30", "0.5"))
    ensures GroupsValue(Groups("10", "20", "30", "0.5")) == Rgba(10, 20, 30, Decimal(false, 5, 1))
  {
    ExampleNumerals();
    ChannelTextOf(10, "10");
    ChannelTextOf(20, "20");
    ChannelTextOf(30, "30");
    ExampleAlphaLiteral();
  }

  lemma RgbaExampleParsed()
    ensures ParseColor("rgba(10, 20, 30, 0.5)") == Some(Rgba(10, 20, 30, Decimal(false, 5, 1)))
  {
    var k := Groups("10", "20", "30", "0.5");
    ExampleGroups();
    ParseRgbaText(k, "");
    RgbaExampleLiteral();
  }

  lemma RgbaExampleLiteral()
    ensures RgbaTemplate("10", "20", "30", "0.5") == "rgba(10, 20, 30, 0.5)"
    ensures MatchText(true, Groups("10", "20", "30", "0.5")) + "" == "rgba(10, 20, 30, 0.5)"
  {
  }

  lemma RgbaExampleText()
    ensures FormatRgba(Rgba(10, 20, 30, Decimal(false, 5, 1))) == "rgba(10, 20, 30, 0.5)"
  {
    ExampleNumerals();
    RgbaExampleLiteral();
  }

  /** `new Color('rgba(10, 20, 30, 0.5)').toRgba()` writes its input back. */
  method RgbaExample() returns (text: string)
    ensures text == "rgba(10, 20, 30, 0.5)"
  {
    RgbaExampleParsed();
    RgbaExampleText();
    var c := new Color("rgba(10, 20, 30, 0.5)");
    text := c.ToRgba();
  }
}
