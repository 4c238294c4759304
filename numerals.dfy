/**
 * Digits, the natural numbers they spell, and the text JavaScript produces
 * for a number (`Number.prototype.toString`, and `toString(16)` on integers).
 *
 * Numbers are exact decimals rather than IEEE-754 doubles: a `Decimal` is
 * (-1)^negative * mantissa * 10^(-scale), and `Number` is the canonical form
 * of it (no trailing zero in the mantissa when there is a fraction, no
 * negative zero), so two `Number`s are equal exactly when their values are.
 */
module Numerals {

  function Pow2(k: nat): (p: nat)
    ensures p >= 1
  {
    if k == 0 then 1 else 2 * Pow2(k - 1)
  }

  function Pow10(k: nat): (p: nat)
    ensures p >= 1
  {
    if k == 0 then 1 else 10 * Pow10(k - 1)
  }

  // ---------------------------------------------------------------------
  // Characters

  predicate IsDecDigit(c: char) {
    '0' <= c <= '9'
  }

  predicate AllDecDigits(s: string) {
    forall i :: 0 <= i < |s| ==> IsDecDigit(s[i])
  }

  /**
   * A character JavaScript stores as one UTF-16 code unit (one inside the
   * Basic Multilingual Plane). On text made of such characters, string
   * offsets here and `slice` offsets in JavaScript coincide.
   */
  predicate OneCodeUnit(c: char) {
    c as int < 0x1_0000
  }

  predicate IsHexDigit(c: char) {
    '0' <= c <= '9' || 'a' <= c <= 'f' || 'A' <= c <= 'F'
  }

  function DecChar(v: nat): (c: char)
    requires v < 10
    ensures IsDecDigit(c)
  {
    (48 + v) as char
  }

  function DecValue(c: char): (v: nat)
    requires IsDecDigit(c)
    ensures v < 10 && DecChar(v) == c
  {
    c as int - '0' as int
  }

  /** The digit `toString(16)` writes for v: lower case. */
  function LowerHexDigit(v: nat): (c: char)
    requires v < 16
    ensures IsHexDigit(c) && !('A' <= c <= 'Z')
  {
    if v < 10 then (48 + v) as char else (87 + v) as char
  }

  function UpperHexDigit(v: nat): (c: char)
    requires v < 16
    ensures IsHexDigit(c)
  {
    if v < 10 then (48 + v) as char else (55 + v) as char
  }

  /** The value `parseInt(_, 16)` gives one hex digit, in either case. */
  function HexValue(c: char): (v: nat)
    requires IsHexDigit(c)
    ensures v < 16
    ensures c == LowerHexDigit(v) || c == UpperHexDigit(v)
  {
    if c <= '9' then c as int - '0' as int
    else if c <= 'F' then c as int - 'A' as int + 10
    else c as int - 'a' as int + 10
  }

  /** `toUpperCase` on the characters a hex rendering can contain. */
  function ToUpper(c: char): (u: char)
    ensures 'a' <= c <= 'z' ==> u as int == c as int - 32
    ensures !('a' <= c <= 'z') ==> u == c
  {
    if 'a' <= c <= 'z' then (c as int - 32) as char else c
  }

  function ToUpperString(s: string): (u: string)
    ensures |u| == |s|
    ensures forall i :: 0 <= i < |s| ==> u[i] == ToUpper(s[i])
  {
    seq(|s|, i requires 0 <= i < |s| => ToUpper(s[i]))
  }

  lemma UpperOfLowerHexDigit(v: nat)
    requires v < 16
    ensures ToUpper(LowerHexDigit(v)) == UpperHexDigit(v)
    ensures HexValue(UpperHexDigit(v)) == v
  {
  }

  // ---------------------------------------------------------------------
  // Integers as digit strings

  /** `n.toString(16)` for a non-negative integer: no leading zeros. */
  function ToBase16(n: nat): (s: string)
    ensures |s| >= 1
    ensures forall i :: 0 <= i < |s| ==> IsHexDigit(s[i]) && !('A' <= s[i] <= 'Z')
  {
    if n < 16 then [LowerHexDigit(n)]
    else
      var front, last := ToBase16(n / 16), LowerHexDigit(n % 16);
      assert forall i :: 0 <= i < |front| ==> (front + [last])[i] == front[i];
      front + [last]
  }

  /** The two lower-case hex digits of a byte. */
  function LowerByte(v: nat): string
    requires v < 256
  {
    [LowerHexDigit(v / 16), LowerHexDigit(v % 16)]
  }

  lemma {:induction false} Base16AppendByte(n: nat, v: nat)
    requires n >= 1 && v < 256
    ensures ToBase16(n * 256 + v) == ToBase16(n) + LowerByte(v)
  {
    var m := n * 16 + v / 16;
    assert n * 256 + v == m * 16 + v % 16;
    assert (m * 16 + v % 16) / 16 == m && (m * 16 + v % 16) % 16 == v % 16;
    assert ToBase16(n * 256 + v) == ToBase16(m) + [LowerHexDigit(v % 16)];
    assert m / 16 == n && m % 16 == v / 16;
    assert ToBase16(m) == ToBase16(n) + [LowerHexDigit(v / 16)];
  }

  /** The decimal digits of n, as `String(n)` writes an integer below 10^21. */
  function DecDigits(n: nat): (s: string)
    ensures |s| >= 1 && AllDecDigits(s)
    ensures n > 0 ==> s[0] != '0'
    ensures s[|s| - 1] == DecChar(n % 10)
  {
    if n < 10 then [DecChar(n)] else DecDigits(n / 10) + [DecChar(n % 10)]
  }

  /** The natural number a string of decimal digits spells (leading zeros allowed). */
  function DigitsValue(s: string): (v: nat)
    requires AllDecDigits(s)
    ensures v < Pow10(|s|)
  {
    if |s| == 0 then 0 else DigitsValue(s[..|s| - 1]) * 10 + DecValue(s[|s| - 1])
  }

  function Zeros(k: nat): (z: string)
    ensures |z| == k && AllDecDigits(z)
    ensures forall i :: 0 <= i < k ==> z[i] == '0'
  {
    seq(k, _ => '0')
  }

  lemma {:induction false} DigitsValueOfDecDigits(n: nat)
    ensures DigitsValue(DecDigits(n)) == n
  {
    if n >= 10 {
      var s := DecDigits(n);
      assert s[..|s| - 1] == DecDigits(n / 10);
      DigitsValueOfDecDigits(n / 10);
    }
  }

  lemma AllDecDigitsAppend(a: string, b: string)
    requires AllDecDigits(a) && AllDecDigits(b)
    ensures AllDecDigits(a + b)
  {
    var ab := a + b;
    assert forall i :: 0 <= i < |ab| ==> ab[i] == if i < |a| then a[i] else b[i - |a|];
  }

  /** The last digit of a + b is the last digit of b. */
  lemma DigitsValueLast(a: string, b: string)
    requires AllDecDigits(a) && AllDecDigits(b) && |b| > 0
    ensures AllDecDigits(a + b) && AllDecDigits(a + b[..|b| - 1])
    ensures DigitsValue(a + b) == DigitsValue(a + b[..|b| - 1]) * 10 + DecValue(b[|b| - 1])
  {
    AllDecDigitsAppend(a, b);
    AllDecDigitsAppend(a, b[..|b| - 1]);
    DropLastOfAppend(a, b);
    var ab := a + b;
    var front, last := ab[..|ab| - 1], ab[|ab| - 1];
    assert front == a + b[..|b| - 1] && last == b[|b| - 1];
    assert DigitsValue(ab) == DigitsValue(front) * 10 + DecValue(last);
  }

  lemma DropLastOfAppend<T>(a: seq<T>, b: seq<T>)
    requires |b| > 0
    ensures (a + b)[..|a + b| - 1] == a + b[..|b| - 1]
    ensures (a + b)[|a + b| - 1] == b[|b| - 1]
  {
  }

  lemma SplitAt<T>(s: seq<T>, n: nat)
    requires n <= |s|
    ensures s[..n] + s[n..] == s
  {
  }

  lemma {:induction false} DigitsValueAppend(a: string, b: string)
    requires AllDecDigits(a) && AllDecDigits(b)
    ensures AllDecDigits(a + b)
    ensures DigitsValue(a + b) == DigitsValue(a) * Pow10(|b|) + DigitsValue(b)
  {
    AllDecDigitsAppend(a, b);
    if |b| == 0 {
      assert a + b == a;
    } else {
      var b' := b[..|b| - 1];
      var d := DecValue(b[|b| - 1]);
      DigitsValueLast(a, b);
      DigitsValueAppend(a, b');
      var x, y, p := DigitsValue(a), DigitsValue(b'), Pow10(|b'|);
      assert DigitsValue(b) == y * 10 + d;
      assert Pow10(|b|) == p * 10;
      ShiftDigit(x, p, y, d);
    }
  }

  lemma ShiftDigit(x: nat, p: nat, y: nat, d: nat)
    ensures (x * p + y) * 10 + d == x * (p * 10) + (y * 10 + d)
  {
  }

  lemma ZerosAppend(j: nat, ds: string)
    ensures "0" + (Zeros(j) + ds) == Zeros(j + 1) + ds
  {
  }

  lemma {:induction false} DigitsValueZeros(k: nat)
    ensures DigitsValue(Zeros(k)) == 0
  {
    if k > 0 {
      assert Zeros(k)[..k - 1] == Zeros(k - 1);
      DigitsValueZeros(k - 1);
    }
  }

  /** Leading zeros do not change the value of a digit string. */
  lemma LeadingZeros(k: nat, s: string)
    requires AllDecDigits(s)
    ensures AllDecDigits(Zeros(k) + s)
    ensures DigitsValue(Zeros(k) + s) == DigitsValue(s)
  {
    DigitsValueAppend(Zeros(k), s);
    DigitsValueZeros(k);
  }

  lemma {:induction false} DecDigitsLength(n: nat, j: nat)
    requires j >= 1 && n < Pow10(j)
    ensures |DecDigits(n)| <= j
  {
    if n >= 10 {
      assert Pow10(j) == 10 * Pow10(j - 1);
      DecDigitsLength(n / 10, j - 1);
    }
  }

  /** The string without its trailing '0' characters. */
  function StripTrailingZeros(s: string): (r: string)
    ensures |r| <= |s| && s == r + Zeros(|s| - |r|)
    ensures |r| > 0 ==> r[|r| - 1] != '0'
    ensures |s| > 0 && s[|s| - 1] != '0' ==> r == s
    ensures |s| > 0 && s[0] != '0' ==> |r| > 0
  {
    if |s| > 0 && s[|s| - 1] == '0' then
      var r := StripTrailingZeros(s[..|s| - 1]);
      assert s == s[..|s| - 1] + ['0'];
      assert Zeros(|s| - 1 - |r|) + ['0'] == Zeros(|s| - |r|);
      r
    else
      assert s == s + Zeros(0);
      s
  }

  /** The index of the first c in s, or |s| when there is none. */
  function IndexOf(s: string, c: char): (i: nat)
    ensures i <= |s|
    ensures i < |s| ==> s[i] == c
    ensures forall k :: 0 <= k < i ==> s[k] != c
  {
    if |s| == 0 then 0 else if s[0] == c then 0 else 1 + IndexOf(s[1..], c)
  }

  // ---------------------------------------------------------------------
  // Exact decimal numbers

  /** (-1)^negative * mantissa * 10^(-scale). */
  datatype Decimal = Decimal(negative: bool, mantissa: nat, scale: nat)

  predicate Canonical(d: Decimal) {
    && (d.scale > 0 ==> d.mantissa % 10 != 0)
    && (d.mantissa == 0 ==> !d.negative)
  }

  type Number = d: Decimal | Canonical(d) witness Decimal(false, 0, 0)

  const One: Number := Decimal(false, 1, 0)

  function FromNat(n: nat): Number {
    Decimal(false, n, 0)
  }

  /**
   * The canonical form of (-1)^negative * m * 10^(-e): the same value,
   * written with the smallest scale.
   */
  function Normalize(negative: bool, m: nat, e: nat): (d: Number)
    ensures d.scale <= e
    ensures d.mantissa * Pow10(e - d.scale) == m
    ensures d.negative == (negative && m != 0)
    decreases e
  {
    if e > 0 && m % 10 == 0 then
      var d := Normalize(negative, m / 10, e - 1);
      assert Pow10(e - d.scale) == 10 * Pow10(e - 1 - d.scale);
      assert d.mantissa * Pow10(e - d.scale) == 10 * (d.mantissa * Pow10(e - 1 - d.scale));
      d
    else
      Decimal(negative && m != 0, m, e)
  }

  /** Characters of a decimal literal. */
  predicate IsNumeralChar(c: char) {
    IsDecDigit(c) || c == '.'
  }

  /** The text matches `\d*\.?\d+`. */
  predicate IsDecimalLiteral(t: string) {
    var i := IndexOf(t, '.');
    if i == |t| then |t| > 0 && AllDecDigits(t)
    else AllDecDigits(t[..i]) && |t| - i - 1 > 0 && AllDecDigits(t[i + 1..])
  }

  /**
   * `parseFloat` of a decimal literal, exactly: the digits on both sides of
   * the point, read as one integer, over 10 to the number of fraction digits.
   */
  function LiteralValue(t: string): (d: Number)
    requires IsDecimalLiteral(t)
    ensures !d.negative
  {
    var i := IndexOf(t, '.');
    if i == |t| then Normalize(false, DigitsValue(t), 0)
    else
      AllDecDigitsAppend(t[..i], t[i + 1..]);
      Normalize(false, DigitsValue(t[..i] + t[i + 1..]), |t| - i - 1)
  }

  /**
   * The decimal exponent n of ECMAScript's Number::toString (section 6.1.6.1.20
   * of ECMA-262): the value is 0.d1d2...dk * 10^n.
   */
  function PointPosition(x: Number): int
    requires x.mantissa > 0
  {
    |DecDigits(x.mantissa)| - x.scale
  }

  /** 10^-6 <= |x| < 10^21 or x == 0: the interval written without an exponent. */
  predicate WrittenWithoutExponent(x: Number) {
    x.mantissa == 0 || -6 < PointPosition(x) <= 21
  }

  function Abs(n: int): nat {
    if n < 0 then -n else n
  }

  /**
   * Number::toString for a positive number whose significant digits are ds
   * (k of them, the last non-zero) and whose point position is n, as
   * ECMA-262 prescribes: plain digits padded with zeros, digits around a
   * point, `0.` and leading zeros, or the exponential form.
   */
  function PlaceDigits(ds: string, n: int): string
    requires |ds| >= 1
  {
    var k := |ds|;
    if k <= n <= 21 then ds + Zeros(n - k)
    else if 0 < n <= 21 then ds[..n] + "." + ds[n..]
    else if -6 < n <= 0 then "0." + Zeros(-n) + ds
    else
      var mant := if k == 1 then ds else ds[..1] + "." + ds[1..];
      mant + "e" + (if n - 1 >= 0 then "+" else "-") + DecDigits(Abs(n - 1))
  }

  /** The significant digits of a positive mantissa. */
  function SignificantDigits(m: nat): (ds: string)
    requires m > 0
    ensures |ds| >= 1
  {
    StripTrailingZeros(DecDigits(m))
  }

  /** `String(x)` for a JavaScript number x, computed on its exact value. */
  function NumberToString(x: Number): string {
    if x.mantissa == 0 then "0"
    else (if x.negative then "-" else "") + PlaceDigits(SignificantDigits(x.mantissa), PointPosition(x))
  }

  /** How a template string writes a non-negative integer. */
  function NatToString(n: nat): string {
    NumberToString(FromNat(n))
  }

  // ---------------------------------------------------------------------
  // Properties of the rendering

  lemma NoDotInDigits(s: string)
    requires AllDecDigits(s)
    ensures IndexOf(s, '.') == |s|
  {
  }

  /** A non-negative integer below 10^21 is written as its plain decimal digits. */
  lemma NatToStringIsDecDigits(n: nat)
    requires n < Pow10(21)
    ensures NatToString(n) == DecDigits(n)
  {
    if n > 0 {
      DecDigitsLength(n, 21);
      IntegerStringDigits(FromNat(n));
    }
  }

  /** A number with nothing after the point has scale 0 and is written as its digits. */
  lemma IntegerStringDigits(x: Number)
    requires !x.negative && x.mantissa > 0
    requires |SignificantDigits(x.mantissa)| <= PointPosition(x) <= 21
    ensures x.scale == 0
    ensures NumberToString(x) == DecDigits(x.mantissa)
  {
    var all := DecDigits(x.mantissa);
    FractionDigitsUnstripped(x);
    var ds := SignificantDigits(x.mantissa);
    assert PlaceDigits(ds, |all|) == ds + Zeros(|all| - |ds|);
  }

  /** A number with nothing after the point is written as its digits. */
  lemma LiteralOfIntegerString(x: Number)
    requires !x.negative && x.mantissa > 0
    requires |SignificantDigits(x.mantissa)| <= PointPosition(x) <= 21
    ensures IsDecimalLiteral(NumberToString(x))
    ensures LiteralValue(NumberToString(x)) == x
  {
    IntegerStringDigits(x);
    var all := DecDigits(x.mantissa);
    NoDotInDigits(all);
    DigitsValueOfDecDigits(x.mantissa);
    assert LiteralValue(all) == Normalize(false, x.mantissa, 0);
  }

  /** Where the point of `a.b` is, and what is on either side of it. */
  lemma PointIndex(a: string, b: string)
    requires AllDecDigits(a)
    ensures var t := a + "." + b;
            IndexOf(t, '.') == |a| && t[..|a|] == a && t[|a| + 1..] == b
  {
    var t := a + "." + b;
    NoDotInDigits(a);
    assert t[|a|] == '.';
    assert forall k :: 0 <= k < |a| ==> t[k] == a[k];
  }

  /** `a.b` is a decimal literal whose value is the digits ab over 10^|b|. */
  lemma LiteralWithPoint(a: string, b: string)
    requires AllDecDigits(a) && AllDecDigits(b) && |b| > 0
    ensures IsDecimalLiteral(a + "." + b)
    ensures AllDecDigits(a + b)
    ensures LiteralValue(a + "." + b) == Normalize(false, DigitsValue(a + b), |b|)
  {
    PointIndex(a, b);
    AllDecDigitsAppend(a, b);
  }

  /** The digits of a number whose scale is positive end in a non-zero digit. */
  lemma FractionDigitsUnstripped(x: Number)
    ensures x.scale > 0 ==> SignificantDigits(x.mantissa) == DecDigits(x.mantissa)
  {
  }

  lemma PlacePoint(ds: string, n: int)
    requires 0 < n < |ds| && n <= 21
    ensures PlaceDigits(ds, n) == ds[..n] + "." + ds[n..]
  {
  }

  lemma PlaceFraction(ds: string, n: int)
    requires |ds| >= 1 && -6 < n <= 0
    ensures PlaceDigits(ds, n) == "0" + "." + (Zeros(-n) + ds)
  {
  }

  /** Normalize leaves a canonical number as it is. */
  lemma NormalizeCanonical(x: Number)
    ensures Normalize(x.negative, x.mantissa, x.scale) == x
  {
  }

  /** A number of at least 1 with a fraction is written `digits.digits`. */
  lemma LiteralOfPointString(x: Number)
    requires !x.negative && x.mantissa > 0
    requires 0 < PointPosition(x) < |SignificantDigits(x.mantissa)| && PointPosition(x) <= 21
    ensures IsDecimalLiteral(NumberToString(x))
    ensures LiteralValue(NumberToString(x)) == x
  {
    var all := DecDigits(x.mantissa);
    var n := PointPosition(x);
    FractionDigitsUnstripped(x);
    PlacePoint(all, n);
    var a, b := all[..n], all[n..];
    assert NumberToString(x) == a + "." + b;
    LiteralWithPoint(a, b);
    SplitAt(all, n);
    DigitsValueOfDecDigits(x.mantissa);
    assert |b| == x.scale;
    NormalizeCanonical(x);
  }

  /** `0.f` is a literal worth the digits of f over 10^|f|. */
  lemma LiteralOfZeroPointText(f: string, m: nat, e: nat)
    requires AllDecDigits(f) && |f| > 0 && |f| == e
    requires AllDecDigits("0" + f) && DigitsValue("0" + f) == m
    ensures IsDecimalLiteral("0" + "." + f)
    ensures LiteralValue("0" + "." + f) == Normalize(false, m, e)
  {
    LiteralWithPoint("0", f);
  }

  /** Zeros in front of digits, one more of them included, leave their value alone. */
  lemma ZeroPaddedDigits(j: nat, ds: string)
    requires AllDecDigits(ds)
    ensures AllDecDigits(Zeros(j) + ds) && |Zeros(j) + ds| == j + |ds|
    ensures AllDecDigits("0" + (Zeros(j) + ds)) && DigitsValue("0" + (Zeros(j) + ds)) == DigitsValue(ds)
  {
    LeadingZeros(j, ds);
    ZerosAppend(j, ds);
    LeadingZeros(j + 1, ds);
  }

  /** `0.` followed by j zeros and the digits ds is a literal worth ds / 10^(j + |ds|). */
  lemma LiteralOfZeroPoint(j: nat, ds: string)
    requires AllDecDigits(ds) && |ds| > 0
    ensures IsDecimalLiteral("0" + "." + (Zeros(j) + ds))
    ensures LiteralValue("0" + "." + (Zeros(j) + ds)) == Normalize(false, DigitsValue(ds), j + |ds|)
  {
    ZeroPaddedDigits(j, ds);
    LiteralOfZeroPointText(Zeros(j) + ds, DigitsValue(ds), j + |ds|);
  }

  /** A number below 1 is written `0.` then zeros then its digits. */
  lemma LiteralOfFractionString(x: Number)
    requires !x.negative && x.mantissa > 0
    requires -6 < PointPosition(x) <= 0
    ensures IsDecimalLiteral(NumberToString(x))
    ensures LiteralValue(NumberToString(x)) == x
  {
    var all := DecDigits(x.mantissa);
    var n := PointPosition(x);
    FractionDigitsUnstripped(x);
    PlaceFraction(all, n);
    assert NumberToString(x) == "0" + "." + (Zeros(-n) + all);
    LiteralOfZeroPoint(-n, all);
    DigitsValueOfDecDigits(x.mantissa);
    NormalizeCanonical(x);
  }

  /**
   * `parseFloat` undoes Number::toString: the text of a non-negative number
   * in the range written without an exponent is a decimal literal whose value
   * is that number.
   */
  lemma LiteralOfNumberToString(x: Number)
    requires !x.negative && WrittenWithoutExponent(x)
    ensures IsDecimalLiteral(NumberToString(x))
    ensures LiteralValue(NumberToString(x)) == x
  {
    if x.mantissa == 0 {
      assert NumberToString(x) == "0";
      NoDotInDigits("0");
    } else {
      var k := |SignificantDigits(x.mantissa)|;
      var n := PointPosition(x);
      if k <= n {
        LiteralOfIntegerString(x);
      } else if 0 < n {
        LiteralOfPointString(x);
      } else {
        LiteralOfFractionString(x);
      }
    }
  }
}
