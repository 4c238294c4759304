/**
 * `rgbaToRgb`: the first match, searched for anywhere in the input, of the
 * regular expression
 *
 *     rgba?\((\d+), (\d+), (\d+), (\d*\.?\d+)\)
 *
 * written as a hand-made matcher. At a given start the match is unique:
 * each `(\d+)` group is followed by `,`, so it is the longest run of
 * digits there, and the alpha group is followed by `)`, so it is the
 * longest run of digits and points. Channels are read with `parseInt`
 * exactly and alpha with `parseFloat` exactly. No match is a failure.
 */
module RgbaParser {
  import opened Wrappers
  import opened Numerals
  import opened HexCodec

  /** Every character of s satisfies p. */
  predicate AllSatisfy(s: string, p: char -> bool) {
    forall i :: 0 <= i < |s| ==> p(s[i])
  }

  /** The longest prefix of s whose characters all satisfy p, and the remainder. */
  function SplitWhile(s: string, p: char -> bool): (parts: (string, string))
    ensures parts.0 + parts.1 == s
    ensures AllSatisfy(parts.0, p)
    ensures parts.1 == [] || !p(parts.1[0])
  {
    if |s| == 0 || !p(s[0]) then
      ([], s)
    else
      var tail := SplitWhile(s[1..], p);
      var run := [s[0]] + tail.0;
      assert AllSatisfy(run, p) by {
        forall i | 0 < i < |run|
          ensures p(run[i])
        {
          assert run[i] == tail.0[i - 1];
        }
      }
      assert run + tail.1 == [s[0]] + (tail.0 + tail.1);
      assert [s[0]] + s[1..] == s;
      (run, tail.1)
  }

  lemma {:induction false} SplitWhileConcat(run: string, rest: string, p: char -> bool)
    requires AllSatisfy(run, p)
    requires rest == [] || !p(rest[0])
    ensures SplitWhile(run + rest, p) == (run, rest)
  {
    if |run| > 0 {
      assert (run + rest)[0] == run[0];
      assert (run + rest)[1..] == run[1..] + rest;
      SplitWhileConcat(run[1..], rest, p);
      assert [run[0]] + run[1..] == run;
    } else {
      assert run + rest == rest;
    }
  }

  function StripPrefix(s: string, lit: string): (r: Option<string>)
    ensures r.Some? <==> |lit| <= |s| && s[..|lit|] == lit
    ensures r.Some? ==> s == lit + r.value
  {
    if |lit| <= |s| && s[..|lit|] == lit then Some(s[|lit|..]) else None
  }

  lemma StripPrefixOf(lit: string, rest: string)
    ensures StripPrefix(lit + rest, lit) == Some(rest)
  {
    assert (lit + rest)[..|lit|] == lit;
    assert (lit + rest)[|lit|..] == rest;
  }

  // ---------------------------------------------------------------------
  // The groups of a match

  /** The texts of the four capture groups. */
  datatype Groups = Groups(red: string, green: string, blue: string, alpha: string)

  predicate IsChannelText(t: string) {
    |t| > 0 && AllDecDigits(t)
  }

  predicate WellFormed(k: Groups) {
    IsChannelText(k.red) && IsChannelText(k.green) && IsChannelText(k.blue) && IsDecimalLiteral(k.alpha)
  }

  /** What the expression matches after its `(`. */
  function BodyText(k: Groups): string {
    k.red + ", " + k.green + ", " + k.blue + ", " + k.alpha + ")"
  }

  /** What the expression matches: `rgb(` or `rgba(`, then the groups. */
  function MatchText(hasA: bool, k: Groups): string {
    "rgb" + (if hasA then "a(" else "(") + BodyText(k)
  }

  /** The record the source builds from the groups (`parseInt`, `parseFloat`). */
  function GroupsValue(k: Groups): (c: Rgba)
    requires WellFormed(k)
  {
    Rgba(DigitsValue(k.red), DigitsValue(k.green), DigitsValue(k.blue), LiteralValue(k.alpha))
  }

  /** `(\d+)` then the separator: the group and the text after the separator. */
  function DigitGroup(s: string, sep: string): (r: Option<(string, string)>)
    ensures r.Some? ==> IsChannelText(r.value.0) && s == r.value.0 + sep + r.value.1
  {
    var parts := SplitWhile(s, IsDecDigit);
    if |parts.0| == 0 then None
    else
      var after :- StripPrefix(parts.1, sep);
      Some((parts.0, after))
  }

  /** `(\d*\.?\d+)` then `)`: the group and the text after the parenthesis. */
  function AlphaGroup(s: string): (r: Option<(string, string)>)
    ensures r.Some? ==> IsDecimalLiteral(r.value.0) && s == r.value.0 + ")" + r.value.1
  {
    var parts := SplitWhile(s, IsNumeralChar);
    if !IsDecimalLiteral(parts.0) then None
    else
      var after :- StripPrefix(parts.1, ")");
      Some((parts.0, after))
  }

  /** The four groups at the start of s, and what follows the final `)`. */
  function Body(s: string): (r: Option<(Groups, string)>)
    ensures r.Some? ==> WellFormed(r.value.0) && s == BodyText(r.value.0) + r.value.1
  {
    var red :- DigitGroup(s, ", ");
    var green :- DigitGroup(red.1, ", ");
    var blue :- DigitGroup(green.1, ", ");
    var alpha :- AlphaGroup(blue.1);
    BodyTextNested(Groups(red.0, green.0, blue.0, alpha.0), alpha.1);
    Some((Groups(red.0, green.0, blue.0, alpha.0), alpha.1))
  }

  /** The body text, split the way `Body` reads it: group by group. */
  lemma BodyTextNested(k: Groups, rest: string)
    ensures BodyText(k) + rest == k.red + ", " + (k.green + ", " + (k.blue + ", " + (k.alpha + ")" + rest)))
  {
  }

  /** A match of the expression at the very start of s: `a?` is taken when `a(` follows. */
  function Tokenize(s: string): (r: Option<(bool, Groups, string)>)
    ensures r.Some? ==> WellFormed(r.value.1) && s == MatchText(r.value.0, r.value.1) + r.value.2
  {
    var afterRgb :- StripPrefix(s, "rgb");
    var hasA := StripPrefix(afterRgb, "a(").Some?;
    var afterOpen :- StripPrefix(afterRgb, if hasA then "a(" else "(");
    var body :- Body(afterOpen);
    MatchTextNested(hasA, body.0, body.1);
    Some((hasA, body.0, body.1))
  }

  /** The match text, split the way `Tokenize` reads it. */
  lemma MatchTextNested(hasA: bool, k: Groups, rest: string)
    ensures MatchText(hasA, k) + rest == "rgb" + ((if hasA then "a(" else "(") + (BodyText(k) + rest))
  {
  }

  /** The record built from a match at offset i of s, if one starts there. */
  function MatchAt(s: string, i: nat): (r: Option<Rgba>)
    requires i <= |s|
  {
    var m :- Tokenize(s[i..]);
    Some(GroupsValue(m.1))
  }

  /** No match starts at any offset in [i, j). */
  predicate NoMatchBetween(s: string, i: nat, j: nat) {
    forall k :: i <= k < j && k <= |s| ==> MatchAt(s, k).None?
  }

  /** `String.prototype.match` from offset i on: the first offset where a match starts. */
  function FindFrom(s: string, i: nat): Option<Rgba>
    requires i <= |s|
    decreases |s| - i
  {
    var m := MatchAt(s, i);
    if m.Some? || i == |s| then
      m
    else
      FindFrom(s, i + 1)
  }

  /** The search fails exactly when no offset from i on matches. */
  lemma {:induction false} FindFromNone(s: string, i: nat)
    requires i <= |s|
    decreases |s| - i
    ensures FindFrom(s, i).None? <==> NoMatchBetween(s, i, |s| + 1)
  {
    if MatchAt(s, i).Some? {
      assert !NoMatchBetween(s, i, |s| + 1);
    } else if i == |s| {
      assert NoMatchBetween(s, i, |s| + 1);
    } else {
      FindFromNone(s, i + 1);
      assert NoMatchBetween(s, i, |s| + 1) <==> NoMatchBetween(s, i + 1, |s| + 1);
    }
  }

  /** The offset whose match a successful search from i returns: the leftmost one. */
  lemma {:induction false} LeftmostOffset(s: string, i: nat) returns (j: nat)
    requires i <= |s|
    decreases |s| - i
    ensures FindFrom(s, i).Some? ==>
      i <= j <= |s| && FindFrom(s, i) == MatchAt(s, j) && NoMatchBetween(s, i, j)
  {
    if MatchAt(s, i).Some? || i == |s| {
      j := i;
    } else {
      j := LeftmostOffset(s, i + 1);
      if FindFrom(s, i + 1).Some? {
        forall k | i <= k < j && k <= |s|
          ensures MatchAt(s, k).None?
        {
          if k > i {
            assert i + 1 <= k < j;
          }
        }
      }
    }
  }

  /** A successful search returns the match at the leftmost offset that has one. */
  lemma FindFromLeftmost(s: string, i: nat)
    requires i <= |s|
    ensures FindFrom(s, i).Some? ==>
      exists j :: i <= j <= |s| && FindFrom(s, i) == MatchAt(s, j) && NoMatchBetween(s, i, j)
  {
    var j := LeftmostOffset(s, i);
  }

  /** `rgbaToRgb`. */
  function RgbaToRgb(s: string): (r: Option<Rgba>)
    ensures r.None? <==> forall k :: 0 <= k <= |s| ==> MatchAt(s, k).None?
    ensures r.Some? ==>
      exists j :: 0 <= j <= |s| && r == MatchAt(s, j) && forall k :: 0 <= k < j ==> MatchAt(s, k).None?
  {
    FindFromNone(s, 0);
    FindFromLeftmost(s, 0);
    FindFrom(s, 0)
  }

  // ---------------------------------------------------------------------
  // Completeness of the matcher

  lemma DigitGroupOf(digits: string, sep: string, rest: string)
    requires IsChannelText(digits) && |sep| > 0 && !IsDecDigit(sep[0])
    ensures DigitGroup(digits + sep + rest, sep) == Some((digits, rest))
  {
    assert digits + sep + rest == digits + (sep + rest);
    SplitWhileConcat(digits, sep + rest, IsDecDigit);
    StripPrefixOf(sep, rest);
  }

  lemma LiteralCharacters(t: string)
    requires IsDecimalLiteral(t)
    ensures forall i :: 0 <= i < |t| ==> IsNumeralChar(t[i])
  {
    var d := IndexOf(t, '.');
    if d < |t| {
      forall i | 0 <= i < |t|
        ensures IsNumeralChar(t[i])
      {
        if i < d {
          assert t[i] == t[..d][i];
        } else if i > d {
          assert t[i] == t[d + 1..][i - d - 1];
        }
      }
    }
  }

  lemma AlphaGroupOf(literal: string, rest: string)
    requires IsDecimalLiteral(literal)
    ensures AlphaGroup(literal + ")" + rest) == Some((literal, rest))
  {
    LiteralCharacters(literal);
    assert literal + ")" + rest == literal + (")" + rest);
    SplitWhileConcat(literal, ")" + rest, IsNumeralChar);
    StripPrefixOf(")", rest);
  }

  lemma BodyOf(k: Groups, rest: string)
    requires WellFormed(k)
    ensures Body(BodyText(k) + rest) == Some((k, rest))
  {
    var s3 := k.alpha + ")" + rest;
    var s2 := k.blue + ", " + s3;
    var s1 := k.green + ", " + s2;
    assert BodyText(k) + rest == k.red + ", " + s1;
    DigitGroupOf(k.red, ", ", s1);
    DigitGroupOf(k.green, ", ", s2);
    DigitGroupOf(k.blue, ", ", s3);
    AlphaGroupOf(k.alpha, rest);
  }

  /** Every text of the expression's shape is matched at its start, with its own groups. */
  lemma TokenizeOf(hasA: bool, k: Groups, rest: string)
    requires WellFormed(k)
    ensures Tokenize(MatchText(hasA, k) + rest) == Some((hasA, k, rest))
  {
    var open := if hasA then "a(" else "(";
    var afterOpen := BodyText(k) + rest;
    var afterRgb := open + afterOpen;
    assert MatchText(hasA, k) + rest == "rgb" + afterRgb;
    StripPrefixOf("rgb", afterRgb);
    StripPrefixOf(open, afterOpen);
    if !hasA {
      assert afterRgb[0] == '(' && StripPrefix(afterRgb, "a(").None?;
    } else {
      StripPrefixOf("a(", afterOpen);
    }
    BodyOf(k, rest);
  }

  /**
   * `rgbaToRgb` applied to `rgba(R, G, B, A)` (followed by anything) yields
   * exactly the numbers R, G, B and A spell.
   */
  lemma RgbaToRgbOfText(k: Groups, rest: string)
    requires WellFormed(k)
    ensures RgbaToRgb(MatchText(true, k) + rest) == Some(GroupsValue(k))
  {
    var s := MatchText(true, k) + rest;
    assert s[0..] == s;
    TokenizeOf(true, k, rest);
  }

  // ---------------------------------------------------------------------
  // Inputs that fail

  /** No match can start where there is no `r`. */
  lemma NoMatchWithoutR(s: string, i: nat)
    requires i <= |s|
    requires forall k :: i <= k < |s| ==> s[k] != 'r'
    ensures FindFrom(s, i).None?
  {
    forall k | i <= k <= |s|
      ensures MatchAt(s, k).None?
    {
      if k < |s| {
        assert s[k..][0] == s[k];
      }
    }
    FindFromNone(s, i);
  }

  /** `rgba(R, G, B)`: the third group is followed by `)` where the expression wants `, `. */
  lemma ThreeComponentsNoMatchAtStart(red: string, green: string, blue: string)
    requires IsChannelText(red) && IsChannelText(green) && IsChannelText(blue)
    ensures Tokenize("rgba(" + red + ", " + green + ", " + blue + ")").None?
  {
    var s := "rgba(" + red + ", " + green + ", " + blue + ")";
    var s2 := blue + ")";
    var s1 := green + ", " + s2;
    var afterOpen := red + ", " + s1;
    assert s == "rgb" + ("a(" + afterOpen);
    StripPrefixOf("rgb", "a(" + afterOpen);
    StripPrefixOf("a(", afterOpen);
    DigitGroupOf(red, ", ", s1);
    DigitGroupOf(green, ", ", s2);
    SplitWhileConcat(blue, ")", IsDecDigit);
    assert StripPrefix(")", ", ").None?;
  }

  lemma NoRInComponents(red: string, green: string, blue: string)
    requires IsChannelText(red) && IsChannelText(green) && IsChannelText(blue)
    ensures var s := "rgba(" + red + ", " + green + ", " + blue + ")";
            forall k :: 1 <= k < |s| ==> s[k] != 'r'
  {
    var s := "rgba(" + red + ", " + green + ", " + blue + ")";
    var tail := red + ", " + green + ", " + blue + ")";
    assert s == "rgba(" + tail;
    forall k | 0 <= k < |tail|
      ensures tail[k] != 'r'
    {
      if k < |red| {
        assert tail[k] == red[k];
      } else if k < |red| + 2 {
      } else if k < |red| + 2 + |green| {
        assert tail[k] == green[k - |red| - 2];
      } else if k < |red| + 4 + |green| {
      } else if k < |red| + 4 + |green| + |blue| {
        assert tail[k] == blue[k - |red| - 4 - |green|];
      }
    }
    forall k | 1 <= k < |s|
      ensures s[k] != 'r'
    {
      if k >= 5 {
        assert s[k] == tail[k - 5];
      }
    }
  }

  /**
   * Without the fourth (alpha) component, `rgba(R, G, B)` does not match:
   * the expression demands four groups.
   */
  lemma ThreeComponentsRejected(red: string, green: string, blue: string)
    requires IsChannelText(red) && IsChannelText(green) && IsChannelText(blue)
    ensures RgbaToRgb("rgba(" + red + ", " + green + ", " + blue + ")").None?
  {
    var s := "rgba(" + red + ", " + green + ", " + blue + ")";
    ThreeComponentsNoMatchAtStart(red, green, blue);
    assert s[0..] == s;
    NoRInComponents(red, green, blue);
    NoMatchWithoutR(s, 1);
  }
}
