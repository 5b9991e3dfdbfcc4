/**
 JavaScript's `Number(text)` (ECMAScript StringToNumber), as far as the
 expense form needs it: the form rejects an amount when `Number` of the field
 text is `<= 0`. Finite results are kept as exact reals; `NaN` and the two
 infinities are values of their own.
 */
module JsNumber {
  import opened Text
  import opened Wrappers

  datatype NumberValue = NaN | PosInfinity | NegInfinity | Finite(value: real)

  /** The comparison `v <= 0`, which is false when `v` is NaN. */
  predicate AtMostZero(v: NumberValue) {
    v == NegInfinity || (v.Finite? && v.value <= 0.0)
  }

  /** `Number(s)`: surrounding white space is ignored, the empty string is 0,
      anything else must be a whole numeric literal or the result is NaN. */
  function NumberOf(s: string): NumberValue {
    var t := Trim(s);
    if t == [] then Finite(0.0) else NumericLiteral(t)
  }

  /** Blank text, or text of white space only, reads as 0. */
  lemma NumberOfBlank(s: string)
    requires AllWhiteSpace(s)
    ensures NumberOf(s) == Finite(0.0)
  {
    TrimOfPadded(s, [], []);
    assert s + [] + [] == s;
  }

  /** StrNumericLiteral: a `0x`/`0o`/`0b` integer without sign, or a decimal
      literal with an optional sign. */
  function NumericLiteral(t: string): NumberValue {
    if |t| >= 2 && t[0] == '0' && (t[1] == 'x' || t[1] == 'X') then RadixLiteral(t[2..], 16)
    else if |t| >= 2 && t[0] == '0' && (t[1] == 'o' || t[1] == 'O') then RadixLiteral(t[2..], 8)
    else if |t| >= 2 && t[0] == '0' && (t[1] == 'b' || t[1] == 'B') then RadixLiteral(t[2..], 2)
    else if |t| >= 1 && t[0] == '+' then UnsignedDecimal(t[1..])
    else if |t| >= 1 && t[0] == '-' then Negate(UnsignedDecimal(t[1..]))
    else UnsignedDecimal(t)
  }

  function RadixLiteral(ds: string, radix: nat): NumberValue {
    if ds != [] && AllRadixDigits(ds, radix) then Finite(ValueInRadix(ds, radix) as real) else NaN
  }

  function Negate(v: NumberValue): NumberValue {
    match v
    case NaN => NaN
    case PosInfinity => NegInfinity
    case NegInfinity => PosInfinity
    case Finite(r) => Finite(-r)
  }

  /** The first position of `s` holding `c`, or `|s|` when there is none. */
  function IndexOf(s: string, c: char): (i: nat)
    ensures i <= |s|
    ensures forall k :: 0 <= k < i ==> s[k] != c
    ensures i < |s| ==> s[i] == c
  {
    if s == [] || s[0] == c then 0 else 1 + IndexOf(s[1..], c)
  }

  /** The first position of `s` holding `c` or `c'`, or `|s|` when there is none. */
  function IndexOfEither(s: string, c: char, c': char): (i: nat)
    ensures i <= |s|
    ensures forall k :: 0 <= k < i ==> s[k] != c && s[k] != c'
    ensures i < |s| ==> s[i] == c || s[i] == c'
  {
    if s == [] || s[0] == c || s[0] == c' then 0 else 1 + IndexOfEither(s[1..], c, c')
  }

  /** StrUnsignedDecimalLiteral: `Infinity`, or digits with an optional
      fraction and an optional exponent. */
  function UnsignedDecimal(u: string): NumberValue {
    if u == "Infinity" then PosInfinity
    else
      var e := IndexOfEither(u, 'e', 'E');
      var m := Mantissa(u[..e]);
      var x := if e == |u| then Some(0) else Exponent(u[e + 1..]);
      if m.Some? && x.Some? then Finite(Scale(m.value, x.value)) else NaN
  }

  /** `digits`, `digits.`, `digits.digits` or `.digits`. */
  function Mantissa(m: string): Option<real> {
    var p := IndexOf(m, '.');
    var whole := m[..p];
    var frac := if p == |m| then [] else m[p + 1..];
    if AllDigits(whole) && AllDigits(frac) && |whole| + |frac| > 0 then
      Some(DecimalValue(whole) as real + DecimalValue(frac) as real / Pow(10, |frac|) as real)
    else None
  }

  /** The part after `e`: an optional sign and at least one digit. */
  function Exponent(x: string): Option<int> {
    var negative := x != [] && x[0] == '-';
    var ds := if x != [] && (x[0] == '+' || x[0] == '-') then x[1..] else x;
    var v: int := DecimalValue(ds);
    if ds != [] && AllDigits(ds) then Some(if negative then -v else v) else None
  }

  function Scale(r: real, x: int): real {
    if x >= 0 then r * Pow(10, x) as real else r / Pow(10, -x) as real
  }

  /** The characters a numeric literal may contain. */
  predicate NumericChar(c: char) {
    || IsDigit(c) || ('a' <= c <= 'f') || ('A' <= c <= 'F')
    || c == '+' || c == '-' || c == '.' || c == 'x' || c == 'X' || c == 'o' || c == 'O'
    || c == 'I' || c == 'n' || c == 'i' || c == 't' || c == 'y'
  }

  predicate AllNumeric(s: string) {
    forall k :: 0 <= k < |s| ==> NumericChar(s[k])
  }

  lemma RadixDigitIsNumericChar(c: char, radix: nat)
    requires radix <= 16 && IsRadixDigit(c, radix)
    ensures NumericChar(c)
  {
  }

  lemma {:induction false} MantissaCharacters(m: string)
    requires Mantissa(m).Some?
    ensures forall k :: 0 <= k < |m| ==> IsDigit(m[k]) || m[k] == '.'
  {
    var p := IndexOf(m, '.');
    forall k | 0 <= k < |m| ensures IsDigit(m[k]) || m[k] == '.' {
      if k < p {
        assert m[k] == m[..p][k];
      } else if k > p {
        assert m[k] == m[p + 1..][k - p - 1];
      }
    }
  }

  lemma ExponentCharacters(x: string)
    requires Exponent(x).Some?
    ensures forall k :: 0 <= k < |x| ==> IsDigit(x[k]) || x[k] == '+' || x[k] == '-'
  {
    if x[0] == '+' || x[0] == '-' {
      assert forall k :: 1 <= k < |x| ==> x[k] == x[1..][k - 1];
    }
  }

  lemma {:induction false} UnsignedDecimalCharacters(u: string)
    requires UnsignedDecimal(u) != NaN
    ensures forall k :: 0 <= k < |u| ==> NumericChar(u[k])
  {
    if u == "Infinity" {
      InfinityCharacters();
    } else {
      var e := IndexOfEither(u, 'e', 'E');
      MantissaCharacters(u[..e]);
      if e < |u| {
        ExponentCharacters(u[e + 1..]);
      }
      SplitCharacters(u, e);
    }
  }

  lemma InfinityCharacters()
    ensures forall k :: 0 <= k < |"Infinity"| ==> NumericChar("Infinity"[k])
  {
  }

  /** A string is numeric throughout when the parts around position `e` are
      and the character at `e`, if any, is. */
  lemma SplitCharacters(u: string, e: nat)
    requires e <= |u|
    requires AllNumeric(u[..e])
    requires e < |u| ==> u[e] == 'e' || u[e] == 'E'
    requires e < |u| ==> AllNumeric(u[e + 1..])
    ensures AllNumeric(u)
  {
    forall k | 0 <= k < |u| ensures NumericChar(u[k]) {
      if k < e {
        assert u[k] == u[..e][k];
      } else if k > e {
        assert u[k] == u[e + 1..][k - e - 1];
      }
    }
  }

  /** Every character of a literal `Number` accepts is one of the numeric ones. */
  lemma RadixLiteralCharacters(ds: string, radix: nat)
    requires radix <= 16 && RadixLiteral(ds, radix) != NaN
    ensures AllNumeric(ds)
  {
    forall k | 0 <= k < |ds| ensures NumericChar(ds[k]) {
      RadixDigitIsNumericChar(ds[k], radix);
    }
  }

  lemma {:induction false} LiteralCharacters(t: string)
    requires NumericLiteral(t) != NaN
    ensures forall k :: 0 <= k < |t| ==> NumericChar(t[k])
  {
    if |t| >= 2 && t[0] == '0' && t[1] in {'x', 'X', 'o', 'O', 'b', 'B'} {
      var radix := if t[1] in {'x', 'X'} then 16 else if t[1] in {'o', 'O'} then 8 else 2;
      assert RadixLiteral(t[2..], radix) != NaN;
      RadixLiteralCharacters(t[2..], radix);
      assert forall k :: 2 <= k < |t| ==> t[k] == t[2..][k - 2];
    } else if |t| >= 1 && (t[0] == '+' || t[0] == '-') {
      assert UnsignedDecimal(t[1..]) != NaN;
      UnsignedDecimalCharacters(t[1..]);
      assert forall k :: 1 <= k < |t| ==> t[k] == t[1..][k - 1];
    } else {
      UnsignedDecimalCharacters(t);
    }
  }

  /** Text holding any other character that is not white space (a currency
      sign, a decimal comma, a letter outside the literal syntax) is NaN. */
  lemma ForeignCharIsNaN(s: string, k: nat)
    requires k < |s| && !NumericChar(s[k]) && !IsWhiteSpace(s[k])
    ensures NumberOf(s) == NaN
  {
    TrimKeeps(s, k);
    var t := Trim(s);
    var i := |s| - |TrimStart(s)|;
    if NumericLiteral(t) != NaN {
      LiteralCharacters(t);
    }
  }

  lemma DigitsAreTrimmed(d: string)
    requires AllDigits(d)
    ensures Trim(d) == d
  {
    if d != [] {
      assert Unpadded(d);
    }
    TrimOfPadded([], d, []);
    assert [] + d + [] == d;
  }

  lemma MantissaOfDigits(d: string)
    requires d != [] && AllDigits(d)
    ensures Mantissa(d) == Some(DecimalValue(d) as real)
  {
    var p := IndexOf(d, '.');
    assert p == |d|;
    assert d[..p] == d;
  }

  lemma UnsignedDecimalOfDigits(d: string)
    requires d != [] && AllDigits(d)
    ensures UnsignedDecimal(d) == Finite(DecimalValue(d) as real)
  {
    assert d != "Infinity" by {
      assert !IsDigit("Infinity"[0]);
    }
    var e := IndexOfEither(d, 'e', 'E');
    assert e == |d|;
    assert d[..e] == d;
    MantissaOfDigits(d);
    assert Scale(DecimalValue(d) as real, 0) == DecimalValue(d) as real;
  }

  /** A non-empty string of ASCII digits reads as its decimal value. */
  lemma NumberOfDigits(d: string)
    requires d != [] && AllDigits(d)
    ensures NumberOf(d) == Finite(DecimalValue(d) as real)
  {
    DigitsAreTrimmed(d);
    assert NumericLiteral(d) == UnsignedDecimal(d) by {
      assert IsDigit(d[0]);
      assert |d| >= 2 ==> IsDigit(d[1]);
    }
    UnsignedDecimalOfDigits(d);
  }

  lemma NegatedDigitsAreTrimmed(d: string)
    requires d != [] && AllDigits(d)
    ensures Trim("-" + d) == "-" + d
  {
    var t := "-" + d;
    assert t[|t| - 1] == d[|d| - 1];
    assert Unpadded(t);
    TrimOfPadded([], t, []);
    assert [] + t + [] == t;
  }

  /** A minus sign before digits reads as their negated value. */
  lemma NumberOfNegatedDigits(d: string)
    requires d != [] && AllDigits(d)
    ensures NumberOf("-" + d) == Finite(-(DecimalValue(d) as real))
  {
    var t := "-" + d;
    NegatedDigitsAreTrimmed(d);
    assert NumberOf(t) == NumericLiteral(t);
    assert t[0] == '-' && t[1..] == d;
    assert NumericLiteral(t) == Negate(UnsignedDecimal(d));
    UnsignedDecimalOfDigits(d);
  }

  /** The currency text the amount field shows is NaN, even for zero. */
  lemma RenderedZeroIsNaN()
    ensures NumberOf("R$\U{A0}0,00") == NaN
  {
    ForeignCharIsNaN("R$\U{A0}0,00", 0);
  }

  /** "0" reads as zero, which the form's guard rejects. */
  lemma ZeroTextIsAtMostZero()
    ensures AtMostZero(NumberOf("0"))
  {
    var d := "0";
    assert AllDigits(d);
    NumberOfDigits(d);
    assert DecimalValue(d) == 0 by { assert d[..0] == []; }
  }

  /** "-5" reads as minus five, which the form's guard rejects. */
  lemma NegativeTextIsAtMostZero()
    ensures AtMostZero(NumberOf("-5"))
  {
    var d := "5";
    assert AllDigits(d);
    NumberOfNegatedDigits(d);
    assert "-" + d == "-5";
  }

  /** "12" reads as twelve, which the form's guard lets through. */
  lemma PositiveTextPasses()
    ensures !AtMostZero(NumberOf("12"))
  {
    var d := "12";
    assert AllDigits(d);
    NumberOfDigits(d);
    ValueAtLeastLastDigit(d, 10);
    assert DigitValue(d[1]) == 2;
  }
}
