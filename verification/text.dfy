/**
 Character classes and string helpers shared by the amount parser and the
 model of JavaScript's `Number`: ECMAScript white space (what `trim()` strips),
 ASCII digits, and the value of a digit string in a radix.
 */
module Text {

  /** ECMAScript WhiteSpace and LineTerminator code points: exactly the
      characters `String.prototype.trim` and `Number` strip from both ends. */
  predicate IsWhiteSpace(c: char) {
    || c == '\t' || c == '\n' || c == '\U{B}' || c == '\U{C}' || c == '\r'
    || c == ' ' || c == '\U{A0}' || c == '\U{1680}'
    || ('\U{2000}' <= c <= '\U{200A}')
    || c == '\U{2028}' || c == '\U{2029}' || c == '\U{202F}' || c == '\U{205F}'
    || c == '\U{3000}' || c == '\U{FEFF}'
  }

  predicate AllWhiteSpace(s: string) {
    forall k :: 0 <= k < |s| ==> IsWhiteSpace(s[k])
  }

  /** Non-empty text with no white space at either end: what `trim()` leaves
      of a text that is not blank. */
  predicate Unpadded(t: string) {
    t != [] && !IsWhiteSpace(t[0]) && !IsWhiteSpace(t[|t| - 1])
  }

  /** Number of white-space characters at the start of `s`. */
  function LeadingSpaces(s: string): (n: nat)
    ensures n <= |s|
    ensures n < |s| ==> !IsWhiteSpace(s[n])
  {
    if s == [] || !IsWhiteSpace(s[0]) then 0
    else 1 + LeadingSpaces(s[1..])
  }

  /** The characters `LeadingSpaces` counts are all white space. */
  lemma {:induction false} LeadingSpacesAreWhite(s: string)
    ensures AllWhiteSpace(s[..LeadingSpaces(s)])
    decreases |s|
  {
    if s != [] && IsWhiteSpace(s[0]) {
      var m := LeadingSpaces(s[1..]);
      LeadingSpacesAreWhite(s[1..]);
      assert s[..m + 1] == [s[0]] + s[1..][..m];
    }
  }

  /** Number of white-space characters at the end of `s`. */
  function TrailingSpaces(s: string): (n: nat)
    ensures n <= |s|
    ensures n < |s| ==> !IsWhiteSpace(s[|s| - n - 1])
  {
    if s == [] || !IsWhiteSpace(s[|s| - 1]) then 0
    else
      var init := s[..|s| - 1];
      assert forall k :: 0 <= k < |init| ==> init[k] == s[k];
      1 + TrailingSpaces(init)
  }

  /** The characters `TrailingSpaces` counts are all white space. */
  lemma {:induction false} TrailingSpacesAreWhite(s: string)
    ensures AllWhiteSpace(s[|s| - TrailingSpaces(s)..])
    decreases |s|
  {
    if s != [] && IsWhiteSpace(s[|s| - 1]) {
      var init := s[..|s| - 1];
      var m := TrailingSpaces(init);
      TrailingSpacesAreWhite(init);
      assert TrailingSpaces(s) == m + 1;
      var tail := s[|s| - (m + 1)..];
      forall k | 0 <= k < |tail| ensures IsWhiteSpace(tail[k]) {
        if k < m {
          assert tail[k] == init[|init| - m..][k];
        }
      }
    }
  }

  /** `trimStart()`: the suffix of `s` left after dropping its leading white space. */
  function TrimStart(s: string): (t: string)
    ensures |t| <= |s| && t == s[|s| - |t|..]
    ensures t == [] || !IsWhiteSpace(t[0])
  {
    s[LeadingSpaces(s)..]
  }

  /** `trimEnd()`: the prefix of `s` left after dropping its trailing white space. */
  function TrimEnd(s: string): (t: string)
    ensures |t| <= |s| && t == s[..|t|]
    ensures t == [] || !IsWhiteSpace(t[|t| - 1])
  {
    s[..|s| - TrailingSpaces(s)]
  }

  /** `trim()`: `s` without its leading and trailing white space. */
  function Trim(s: string): (t: string)
    ensures |t| <= |s|
    ensures t == [] || Unpadded(t)
  {
    TrimEnd(TrimStart(s))
  }

  /** Trim removes only white space: `s` is a white-space prefix, then the
      trimmed text, then a white-space suffix. */
  lemma TrimDecomposes(s: string)
    ensures var i := |s| - |TrimStart(s)|;
            && i + |Trim(s)| <= |s|
            && s[i..i + |Trim(s)|] == Trim(s)
            && AllWhiteSpace(s[..i])
            && AllWhiteSpace(s[i + |Trim(s)|..])
  {
    var u := TrimStart(s);
    var t := Trim(s);
    var i := |s| - |u|;
    LeadingSpacesAreWhite(s);
    TrailingSpacesAreWhite(u);
    assert u == s[i..];
    assert t == u[..|t|];
    assert s[i + |t|..] == u[|t|..];
  }

  /** Trim is determined by that decomposition: padding a text whose ends are
      not white space with white space on both sides trims back to the text. */
  lemma {:induction false} TrimOfPadded(p: string, t: string, q: string)
    requires AllWhiteSpace(p) && AllWhiteSpace(q)
    requires t == [] || Unpadded(t)
    ensures Trim(p + t + q) == t
  {
    var s := p + t + q;
    if t == [] {
      assert AllWhiteSpace(s) by {
        forall k | 0 <= k < |s| ensures IsWhiteSpace(s[k]) {
          if k < |p| { assert s[k] == p[k]; } else { assert s[k] == q[k - |p|]; }
        }
      }
      LeadingSpacesOfAllWhiteSpace(s);
    } else {
      LeadingSpacesOfPadded(p, t + q);
      assert s == p + (t + q);
      assert TrimStart(s) == t + q;
      TrailingSpacesOfPadded(t, q);
    }
  }

  lemma LeadingSpacesOfAllWhiteSpace(s: string)
    requires AllWhiteSpace(s)
    ensures LeadingSpaces(s) == |s|
  {
  }

  lemma LeadingSpacesOfPadded(p: string, u: string)
    requires AllWhiteSpace(p)
    requires u != [] && !IsWhiteSpace(u[0])
    ensures LeadingSpaces(p + u) == |p|
  {
    var s := p + u;
    LeadingSpacesAreWhite(s);
    assert s[|p|] == u[0];
    assert forall k :: 0 <= k < |p| ==> s[k] == p[k];
  }

  lemma TrailingSpacesOfPadded(t: string, q: string)
    requires AllWhiteSpace(q)
    requires t != [] && !IsWhiteSpace(t[|t| - 1])
    ensures TrimEnd(t + q) == t
  {
    var s := t + q;
    TrailingSpacesAreWhite(s);
    assert s[|t| - 1] == t[|t| - 1];
    assert forall k :: |t| <= k < |s| ==> s[k] == q[k - |t|];
    assert s[..|t|] == t;
  }

  /** Text without white space at either end is its own trim. */
  lemma TrimOfUnpadded(t: string)
    requires Unpadded(t)
    ensures Trim(t) == t
  {
    TrimOfPadded([], t, []);
    assert [] + t + [] == t;
  }

  /** A character that is not white space survives trimming. */
  lemma TrimKeeps(s: string, k: nat)
    requires k < |s| && !IsWhiteSpace(s[k])
    ensures var i := |s| - |TrimStart(s)|;
            i <= k < i + |Trim(s)| && Trim(s)[k - i] == s[k]
  {
    TrimDecomposes(s);
  }

  /** Trimming twice is trimming once. */
  lemma TrimIdempotent(s: string)
    ensures Trim(Trim(s)) == Trim(s)
  {
    TrimOfPadded([], Trim(s), []);
    assert [] + Trim(s) + [] == Trim(s);
  }

  /** The ASCII digits `0`..`9`: what the regular expression class `\d` matches. */
  predicate IsDigit(c: char) {
    '0' <= c <= '9'
  }

  predicate AllDigits(s: string) {
    forall k :: 0 <= k < |s| ==> IsDigit(s[k])
  }

  /** `s` holds no ASCII digit. */
  predicate NoDigit(s: string) {
    forall k :: 0 <= k < |s| ==> !IsDigit(s[k])
  }

  /** The value of an ASCII digit or Latin letter as a digit (`a`/`A` is 10,
      `z`/`Z` is 35), and 36 for any other character, a digit in no radix. */
  function DigitValue(c: char): (d: nat)
    ensures d <= 36
    ensures IsDigit(c) <==> d < 10
  {
    if '0' <= c <= '9' then (c as int) - ('0' as int)
    else if 'a' <= c <= 'z' then (c as int) - ('a' as int) + 10
    else if 'A' <= c <= 'Z' then (c as int) - ('A' as int) + 10
    else 36
  }

  predicate IsRadixDigit(c: char, radix: nat) {
    DigitValue(c) < radix
  }

  predicate AllRadixDigits(s: string, radix: nat) {
    forall k :: 0 <= k < |s| ==> IsRadixDigit(s[k], radix)
  }

  function Pow(radix: nat, n: nat): (p: nat)
    ensures radix > 0 ==> p > 0
  {
    if n == 0 then 1 else radix * Pow(radix, n - 1)
  }

  /** The value of the digit string `ds` read most significant digit first. */
  function ValueInRadix(ds: string, radix: nat): nat
  {
    if ds == [] then 0
    else ValueInRadix(ds[..|ds| - 1], radix) * radix + DigitValue(ds[|ds| - 1])
  }

  /** A single digit is worth its own value. */
  lemma ValueOfOneDigit(c: char, radix: nat)
    ensures ValueInRadix([c], radix) == DigitValue(c)
  {
    assert [c][..0] == [];
  }

  /** A digit string is worth at least its last digit. */
  lemma ValueAtLeastLastDigit(ds: string, radix: nat)
    requires ds != []
    ensures ValueInRadix(ds, radix) >= DigitValue(ds[|ds| - 1])
  {
  }

  /** Cutting `s` at `i` and `j` and gluing the three pieces gives `s` back. */
  lemma SplitAround(s: string, i: nat, j: nat)
    requires i <= j <= |s|
    ensures s == s[..i] + s[i..j] + s[j..]
  {
  }

  /** `n` digits in radix `radix` are worth less than `radix` to the `n`. */
  lemma {:induction false} ValueInRadixBound(ds: string, radix: nat)
    requires AllRadixDigits(ds, radix)
    ensures ValueInRadix(ds, radix) < Pow(radix, |ds|)
  {
    if ds != [] {
      var init := ds[..|ds| - 1];
      var d := DigitValue(ds[|ds| - 1]);
      assert AllRadixDigits(init, radix);
      ValueInRadixBound(init, radix);
      var v0 := ValueInRadix(init, radix);
      var p0 := Pow(radix, |init|);
      assert d < radix;
      MulMonotone(v0 + 1, p0, radix);
      MulDistributes(v0, 1, 1, radix);
      assert ValueInRadix(ds, radix) == v0 * radix + d;
      assert Pow(radix, |ds|) == radix * p0;
    }
  }

  lemma MulMonotone(a: nat, b: nat, c: nat)
    requires a <= b
    ensures a * c <= b * c
  {
  }

  lemma MulDistributes(a: int, b: int, c: int, d: int)
    ensures (a * b + c) * d == a * (b * d) + c * d
    ensures b * d == d * b
  {
  }

  /** Reading `a + b` is reading `a`, shifting it past the digits of `b`, and adding `b`. */
  lemma {:induction false} ValueInRadixConcat(a: string, b: string, radix: nat)
    ensures ValueInRadix(a + b, radix) == ValueInRadix(a, radix) * Pow(radix, |b|) + ValueInRadix(b, radix)
    decreases |b|
  {
    if b == [] {
      assert a + b == a;
    } else {
      var b0 := b[..|b| - 1];
      var d := DigitValue(b[|b| - 1]);
      assert (a + b)[..|a + b| - 1] == a + b0;
      assert (a + b)[|a + b| - 1] == b[|b| - 1];
      ValueInRadixConcat(a, b0, radix);
      var va := ValueInRadix(a, radix);
      var vb0 := ValueInRadix(b0, radix);
      assert ValueInRadix(a + b, radix) == (va * Pow(radix, |b0|) + vb0) * radix + d;
      MulDistributes(va, Pow(radix, |b0|), vb0, radix);
      assert Pow(radix, |b|) == radix * Pow(radix, |b0|);
      assert ValueInRadix(b, radix) == vb0 * radix + d;
    }
  }

  /** The decimal value of a digit string: what `Number` yields for a non-empty one. */
  function DecimalValue(ds: string): nat {
    ValueInRadix(ds, 10)
  }
}
