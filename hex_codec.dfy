/**
 * The colour record a Color holds, and the two hexadecimal converters of
 * src/color.js: `hexToRgb` (three two-digit base-16 fields at offsets 1, 3
 * and 5) and `rgbToHex` (bit-packing, base-16 rendering, upper-casing).
 */
module HexCodec {
  import opened Wrappers
  import opened Numerals

  /** The canonical record `{ r, g, b, a }`. */
  datatype Rgba = Rgba(r: nat, g: nat, b: nat, a: Number)

  predicate ByteChannels(c: Rgba) {
    c.r < 256 && c.g < 256 && c.b < 256
  }

  // ---------------------------------------------------------------------
  // hexToRgb

  /** The characters at offsets 1 to 6 are hex digits: three whole channel fields. */
  predicate HasHexFields(hex: string) {
    |hex| >= 7 && forall i :: 1 <= i < 7 ==> IsHexDigit(hex[i])
  }

  /**
   * `parseInt(hex.slice(i, i + 2), 16)` on a field of two hex digits; any
   * other field (short, or not hex) is a failure.
   */
  function HexField(hex: string, i: nat): (v: Option<nat>)
    ensures v.Some? <==> i + 2 <= |hex| && IsHexDigit(hex[i]) && IsHexDigit(hex[i + 1])
    ensures v.Some? ==> v.value < 256
  {
    if i + 2 <= |hex| && IsHexDigit(hex[i]) && IsHexDigit(hex[i + 1]) then
      Some(16 * HexValue(hex[i]) + HexValue(hex[i + 1]))
    else
      None
  }

  /**
   * `hexToRgb`: alpha is always 1; the first character is never looked at.
   * Offsets count characters, which are JavaScript's UTF-16 code units
   * when each of the first seven characters satisfies `OneCodeUnit`.
   */
  function HexToRgb(hex: string): (c: Option<Rgba>)
    ensures c.Some? <==> HasHexFields(hex)
    ensures c.Some? ==> ByteChannels(c.value) && c.value.a == One
  {
    var r :- HexField(hex, 1);
    var g :- HexField(hex, 3);
    var b :- HexField(hex, 5);
    Some(Rgba(r, g, b, One))
  }

  // ---------------------------------------------------------------------
  // rgbToHex

  /** Bitwise OR of two non-negative integers, bit by bit. */
  function Or(x: nat, y: nat): (r: nat)
    ensures r >= x && r >= y
    decreases x + y
  {
    if x == 0 then y
    else if y == 0 then x
    else 2 * Or(x / 2, y / 2) + (if x % 2 == 1 || y % 2 == 1 then 1 else 0)
  }

  /** `x << k` for operands whose result stays below 2^31. */
  function Shl(x: nat, k: nat): nat
    requires x * Pow2(k) < 0x8000_0000
  {
    x * Pow2(k)
  }

  /** OR with a value that fits below the low k zero bits adds it. */
  lemma {:induction false} OrDisjoint(x: nat, y: nat, k: nat)
    requires y < Pow2(k)
    ensures Or(x * Pow2(k), y) == x * Pow2(k) + y
  {
    if k > 0 && x > 0 && y > 0 {
      var h := x * Pow2(k - 1);
      assert x * Pow2(k) == 2 * h;
      assert (2 * h) / 2 == h && (2 * h) % 2 == 0;
      OrDisjoint(x, y / 2, k - 1);
    }
  }

  /**
   * The packed integer `(1 << 24) | (r << 16) | (g << 8) | b`: for byte
   * channels the ORs never overlap, so it is the marker 1 followed by the
   * three bytes, in base 256.
   */
  function Packed(r: nat, g: nat, b: nat): (n: nat)
    requires r < 256 && g < 256 && b < 256
    ensures n == ((256 + r) * 256 + g) * 256 + b
  {
    assert Pow2(8) == 256 && Pow2(16) == 65536 && Pow2(24) == 16777216;
    var n1 := 256 + r;
    var n2 := n1 * 256 + g;
    var red, green := Shl(r, 16), Shl(g, 8);
    assert red == r * 65536 && green == g * 256;
    OrDisjoint(1, red, 24);
    var o1 := Or(Shl(1, 24), red);
    assert o1 == n1 * Pow2(16) by {
      assert 1 * Pow2(24) + red == 16777216 + r * 65536 == n1 * 65536;
    }
    OrDisjoint(n1, green, 16);
    var o2 := Or(o1, green);
    assert o2 == n2 * Pow2(8) by {
      assert n1 * Pow2(16) + green == n1 * 65536 + g * 256 == n2 * 256;
    }
    OrDisjoint(n2, b, 8);
    Or(o2, b)
  }

  /** The two upper-case hex digits of a byte, zero-padded. */
  function UpperByte(v: nat): (s: string)
    requires v < 256
    ensures |s| == 2
  {
    [UpperHexDigit(v / 16), UpperHexDigit(v % 16)]
  }

  /**
   * `rgbToHex`: `#` and the packed integer in base 16 without its leading
   * `1`, upper-cased. For byte channels this is `#RRGGBB`, each channel
   * written as two upper-case hex digits in r, g, b order.
   */
  function RgbToHex(r: nat, g: nat, b: nat): (hex: string)
    requires r < 256 && g < 256 && b < 256
    ensures hex == "#" + UpperByte(r) + UpperByte(g) + UpperByte(b)
  {
    var digits := ToBase16(Packed(r, g, b));
    HexDigitsOfPacked(r, g, b);
    UpperOfLowerBytes(r, g, b);
    "#" + ToUpperString(digits[1..])
  }

  /** The six lower-case hex digits of three bytes. */
  function LowerBytes(r: nat, g: nat, b: nat): (s: string)
    requires r < 256 && g < 256 && b < 256
    ensures |s| == 6
  {
    LowerByte(r) + LowerByte(g) + LowerByte(b)
  }

  lemma HexDigitsOfPacked(r: nat, g: nat, b: nat)
    requires r < 256 && g < 256 && b < 256
    ensures ToBase16(Packed(r, g, b))[1..] == LowerBytes(r, g, b)
  {
    HexDigitsOfValue(r, g, b);
  }

  lemma HexDigitsOfValue(r: nat, g: nat, b: nat)
    requires r < 256 && g < 256 && b < 256
    ensures ToBase16(((256 + r) * 256 + g) * 256 + b)[1..] == LowerBytes(r, g, b)
  {
    var n1 := 256 + r;
    var n2 := n1 * 256 + g;
    var n3 := n2 * 256 + b;
    Base16OfMarkedByte(r);
    Base16AppendByte(n1, g);
    Base16AppendByte(n2, b);
    DropLeadingOne(r, g, b, ToBase16(n1), ToBase16(n2), ToBase16(n3));
  }

  /** The marker bit 1 << 8 above a byte is the digit `1` before it. */
  lemma Base16OfMarkedByte(r: nat)
    requires r < 256
    ensures ToBase16(256 + r) == "1" + LowerByte(r)
  {
    Base16AppendByte(1, r);
    assert ToBase16(1) == "1";
    assert 1 * 256 + r == 256 + r;
  }

  /** Bytes appended one by one after a leading `1` are the bytes, once the `1` is dropped. */
  lemma DropLeadingOne(r: nat, g: nat, b: nat, t1: string, t2: string, t3: string)
    requires r < 256 && g < 256 && b < 256
    requires t1 == "1" + LowerByte(r) && t2 == t1 + LowerByte(g) && t3 == t2 + LowerByte(b)
    ensures t3[1..] == LowerBytes(r, g, b)
  {
  }

  lemma UpperOfLowerBytes(r: nat, g: nat, b: nat)
    requires r < 256 && g < 256 && b < 256
    ensures ToUpperString(LowerBytes(r, g, b)) == UpperByte(r) + UpperByte(g) + UpperByte(b)
  {
    var lower, upper := LowerBytes(r, g, b), UpperByte(r) + UpperByte(g) + UpperByte(b);
    var digits := [r / 16, r % 16, g / 16, g % 16, b / 16, b % 16];
    forall i | 0 <= i < 6
      ensures lower[i] == LowerHexDigit(digits[i]) && upper[i] == UpperHexDigit(digits[i])
    {
    }
    forall i | 0 <= i < 6
      ensures ToUpper(lower[i]) == upper[i]
    {
      UpperOfLowerHexDigit(digits[i]);
    }
  }

  // ---------------------------------------------------------------------
  // The round trips

  /** `hexToRgb(rgbToHex(r, g, b))` is `{ r, g, b, a: 1 }`. */
  lemma HexRoundTrip(r: nat, g: nat, b: nat)
    requires r < 256 && g < 256 && b < 256
    ensures HexToRgb(RgbToHex(r, g, b)) == Some(Rgba(r, g, b, One))
  {
    var hex := RgbToHex(r, g, b);
    assert hex[1..3] == UpperByte(r) && hex[3..5] == UpperByte(g) && hex[5..7] == UpperByte(b);
    FieldOfUpperByte(hex, 1, r);
    FieldOfUpperByte(hex, 3, g);
    FieldOfUpperByte(hex, 5, b);
  }

  /** A field holding the upper-case digits of v is read as v. */
  lemma FieldOfUpperByte(hex: string, i: nat, v: nat)
    requires v < 256 && i + 2 <= |hex| && hex[i..i + 2] == UpperByte(v)
    ensures HexField(hex, i) == Some(v)
  {
    assert hex[i] == UpperHexDigit(v / 16) && hex[i + 1] == UpperHexDigit(v % 16);
    UpperOfLowerHexDigit(v / 16);
    UpperOfLowerHexDigit(v % 16);
  }

  lemma UpperOfHexDigit(c: char)
    requires IsHexDigit(c)
    ensures ToUpper(c) == UpperHexDigit(HexValue(c))
  {
    UpperOfLowerHexDigit(HexValue(c));
  }

  /** A field read by `hexToRgb`, written back by `rgbToHex`, is the field upper-cased. */
  lemma UpperByteOfField(hex: string, i: nat)
    requires HexField(hex, i).Some?
    ensures UpperByte(HexField(hex, i).value) == ToUpperString(hex[i..i + 2])
  {
    var hi, lo := HexValue(hex[i]), HexValue(hex[i + 1]);
    assert (16 * hi + lo) / 16 == hi && (16 * hi + lo) % 16 == lo;
    UpperOfHexDigit(hex[i]);
    UpperOfHexDigit(hex[i + 1]);
  }

  /** The record `hexToRgb` makes of well-formed text holds its three fields. */
  lemma HexToRgbFields(hex: string)
    requires HasHexFields(hex)
    ensures HexToRgb(hex)
         == Some(Rgba(HexField(hex, 1).value, HexField(hex, 3).value, HexField(hex, 5).value, One))
  {
  }

  lemma ToUpperStringAppend(a: string, b: string)
    ensures ToUpperString(a + b) == ToUpperString(a) + ToUpperString(b)
  {
    var u, v := ToUpperString(a + b), ToUpperString(a) + ToUpperString(b);
    forall i | 0 <= i < |u|
      ensures u[i] == v[i]
    {
      if i < |a| {
        assert (a + b)[i] == a[i];
      } else {
        assert (a + b)[i] == b[i - |a|];
      }
    }
  }

  lemma SplitFields(hex: string)
    requires |hex| >= 7
    ensures ToUpperString(hex[1..7])
         == ToUpperString(hex[1..3]) + ToUpperString(hex[3..5]) + ToUpperString(hex[5..7])
  {
    assert hex[1..7] == hex[1..3] + hex[3..5] + hex[5..7];
    ToUpperStringAppend(hex[1..3] + hex[3..5], hex[5..7]);
    ToUpperStringAppend(hex[1..3], hex[3..5]);
  }

  /** Rendering what `hexToRgb` read gives back its six digits, upper-cased. */
  lemma HexOfParsedFields(hex: string)
    requires HasHexFields(hex)
    ensures var c := HexToRgb(hex).value;
            RgbToHex(c.r, c.g, c.b) == "#" + ToUpperString(hex[1..7])
  {
    HexToRgbFields(hex);
    UpperByteOfField(hex, 1);
    UpperByteOfField(hex, 3);
    UpperByteOfField(hex, 5);
    SplitFields(hex);
  }

  /** `hexToRgb` reads nothing but the characters at offsets 1 to 6. */
  lemma HexToRgbReadsOnlyFields(hex: string, other: string)
    requires |hex| >= 7 && |other| >= 7 && hex[1..7] == other[1..7]
    ensures HexToRgb(hex) == HexToRgb(other)
  {
    assert forall i :: 1 <= i < 7 ==> hex[i] == hex[1..7][i - 1] == other[i];
  }
}
