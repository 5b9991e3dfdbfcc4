/**
 The amount field: the characters the script keeps when it reads an amount
 (`replace(/\D/g, "")`), the number of cents those digits denote, and what the
 field's input handler does with each keystroke.
 */
module Amount {
  import opened Text
  import opened Wrappers

  /** `s.replace(/\D/g, "")`: the ASCII digits of `s`, in order. */
  function StripNonDigits(s: string): (r: string)
    ensures |r| <= |s|
    ensures AllDigits(r)
  {
    if s == [] then []
    else
      var c := s[|s| - 1];
      StripNonDigits(s[..|s| - 1]) + (if IsDigit(c) then [c] else [])
  }

  /** Stripping works piecewise. */
  lemma {:induction false} StripConcat(a: string, b: string)
    ensures StripNonDigits(a + b) == StripNonDigits(a) + StripNonDigits(b)
    decreases |b|
  {
    if b == [] {
      assert a + b == a;
    } else {
      var b0 := b[..|b| - 1];
      var c := b[|b| - 1];
      assert (a + b)[..|a + b| - 1] == a + b0;
      assert (a + b)[|a + b| - 1] == c;
      StripConcat(a, b0);
    }
  }

  /** A string of digits is left as it is. */
  lemma {:induction false} StripKeepsDigits(s: string)
    requires AllDigits(s)
    ensures StripNonDigits(s) == s
    decreases |s|
  {
    if s != [] {
      assert AllDigits(s[..|s| - 1]);
      StripKeepsDigits(s[..|s| - 1]);
      assert s == s[..|s| - 1] + [s[|s| - 1]];
    }
  }

  /** Stripping is idempotent. */
  lemma StripIdempotent(s: string)
    ensures StripNonDigits(StripNonDigits(s)) == StripNonDigits(s)
  {
    StripKeepsDigits(StripNonDigits(s));
  }

  /** Stripping leaves nothing exactly when the input holds no digit. */
  lemma {:induction false} StripEmptyIffNoDigit(s: string)
    ensures StripNonDigits(s) == [] <==> NoDigit(s)
    decreases |s|
  {
    if s != [] {
      var init := s[..|s| - 1];
      StripEmptyIffNoDigit(init);
      assert forall k :: 0 <= k < |init| ==> init[k] == s[k];
    }
  }

  /** Extending a prefix by one character keeps that character exactly when it is a digit. */
  lemma StripSnoc(s: string, i: nat)
    requires i < |s|
    ensures StripNonDigits(s[..i + 1]) == StripNonDigits(s[..i]) + (if IsDigit(s[i]) then [s[i]] else [])
  {
    assert s[..i + 1][..i] == s[..i];
  }

  /** Stripping keeps exactly the digit characters of `s`, in their order:
      `pos` lists the positions the kept characters come from. */
  method StripWithPositions(s: string) returns (r: string, pos: seq<nat>)
    ensures r == StripNonDigits(s)
    ensures |pos| == |r|
    ensures forall k :: 0 <= k < |pos| ==> pos[k] < |s| && s[pos[k]] == r[k]
    ensures forall k, l :: 0 <= k < l < |pos| ==> pos[k] < pos[l]
    ensures forall i :: 0 <= i < |s| && IsDigit(s[i]) ==> i in pos
  {
    r, pos := [], [];
    var i := 0;
    while i < |s|
      invariant i <= |s|
      invariant r == StripNonDigits(s[..i])
      invariant |pos| == |r|
      invariant forall k :: 0 <= k < |pos| ==> pos[k] < i && s[pos[k]] == r[k]
      invariant forall k, l :: 0 <= k < l < |pos| ==> pos[k] < pos[l]
      invariant forall j :: 0 <= j < i && IsDigit(s[j]) ==> j in pos
    {
      StripSnoc(s, i);
      if IsDigit(s[i]) {
        r, pos := r + [s[i]], pos + [i];
      }
      i := i + 1;
    }
    assert s[..i] == s;
  }

  /** The amount in cents the script stores for the field text `s`
      (`Number(s.replace(/\D/g, "")) / 100`, kept in cents): the decimal value
      of its digits, and 0 when it has none, as `Number("")` is 0. */
  function Cents(s: string): nat {
    DecimalValue(StripNonDigits(s))
  }

  /** A text with no digit is 0 cents, as `Number("")` is 0. */
  lemma CentsOfNoDigit(s: string)
    requires NoDigit(s)
    ensures Cents(s) == 0
  {
    StripEmptyIffNoDigit(s);
  }

  lemma StripOfWhiteSpace(s: string)
    requires AllWhiteSpace(s)
    ensures StripNonDigits(s) == []
  {
    forall k | 0 <= k < |s| ensures !IsDigit(s[k]) {
      assert IsWhiteSpace(s[k]);
    }
    StripEmptyIffNoDigit(s);
  }

  /** Trimming the field first does not change the amount. */
  lemma CentsOfTrim(s: string)
    ensures Cents(Trim(s)) == Cents(s)
  {
    TrimDecomposes(s);
    var i := |s| - |TrimStart(s)|;
    var t := Trim(s);
    var pre, post := s[..i], s[i + |t|..];
    SplitAround(s, i, i + |t|);
    StripConcat(pre + t, post);
    StripConcat(pre, t);
    StripOfWhiteSpace(pre);
    StripOfWhiteSpace(post);
    assert StripNonDigits(s) == StripNonDigits(t);
  }

  lemma StripOfOne(c: char)
    ensures StripNonDigits([c]) == if IsDigit(c) then [c] else []
  {
    assert [c][..0] == [];
  }

  /** Separators, currency signs and other non-digits do not affect the amount. */
  lemma CentsIgnoresNonDigit(a: string, c: char, b: string)
    requires !IsDigit(c)
    ensures Cents(a + [c] + b) == Cents(a + b)
  {
    StripConcat(a + [c], b);
    StripConcat(a, [c]);
    StripOfOne(c);
    StripConcat(a, b);
    assert StripNonDigits(a + [c] + b) == StripNonDigits(a) + [] + StripNonDigits(b);
    assert StripNonDigits(a) + [] + StripNonDigits(b) == StripNonDigits(a) + StripNonDigits(b);
  }

  /** Digits after `a` shift the amount of `a` left by one decimal place each. */
  lemma CentsConcat(a: string, b: string)
    ensures Cents(a + b) == Cents(a) * Pow(10, |StripNonDigits(b)|) + Cents(b)
  {
    StripConcat(a, b);
    ValueInRadixConcat(StripNonDigits(a), StripNonDigits(b), 10);
  }

  /** The character of the decimal digit `d`. */
  function DigitChar(d: nat): (c: char)
    requires d < 10
    ensures IsDigit(c) && DigitValue(c) == d
  {
    ('0' as int + d) as char
  }

  /** The shortest decimal numeral of `n`. */
  function DecimalString(n: nat): (r: string)
    ensures r != [] && AllDigits(r)
    ensures DecimalValue(r) == n
    ensures |r| == 1 || r[0] != '0'
    decreases n
  {
    if n < 10 then
      ValueOfOneDigit(DigitChar(n), 10);
      [DigitChar(n)]
    else
      var r0 := DecimalString(n / 10);
      var r := r0 + [DigitChar(n % 10)];
      assert r[..|r| - 1] == r0;
      r
  }

  lemma DecimalValueSnoc(d: string, c: char)
    ensures DecimalValue(d + [c]) == DecimalValue(d) * 10 + DigitValue(c)
  {
    assert (d + [c])[..|d|] == d;
  }

  /** The digits of `c` cents written as currency with two decimals: the
      integer part, then the tenths and hundredths digits. Grouping separators,
      the decimal comma and the currency sign are non-digits. */
  function DisplayedDigits(c: nat): (r: string)
    ensures AllDigits(r) && |r| >= 3
  {
    DecimalString(c / 100) + [DigitChar(c % 100 / 10), DigitChar(c % 100 % 10)]
  }

  lemma DisplayedDigitsValue(c: nat)
    ensures DecimalValue(DisplayedDigits(c)) == c
  {
    var whole := DecimalString(c / 100);
    var tail := [DigitChar(c % 100 / 10), DigitChar(c % 100 % 10)];
    ValueInRadixConcat(whole, tail, 10);
    assert tail[..1] == [DigitChar(c % 100 / 10)];
    ValueOfOneDigit(DigitChar(c % 100 / 10), 10);
    assert DecimalValue(tail) == (c % 100 / 10) * 10 + c % 10;
    assert Pow(10, 2) == 100;
  }

  /** The amount field's input handler: after each keystroke the field keeps
      only its digits, read as cents; with no digit at all `parseFloat("")` is
      NaN and the field is cleared (`None`), otherwise it is redrawn as the
      currency text of `Some` amount. */
  function EditAmount(s: string): (r: Option<nat>)
    ensures r.None? <==> NoDigit(s)
    ensures r.Some? ==> r.value == Cents(s)
  {
    StripEmptyIffNoDigit(s);
    var d := StripNonDigits(s);
    if d == [] then None else Some(DecimalValue(d))
  }

  /** Edit then submit: whatever currency text the handler draws for the
      amount, as long as its digits are the integer part and two decimals,
      submitting it stores the amount the keystrokes denoted. */
  lemma EditThenSubmit(typed: string, shown: string)
    requires EditAmount(typed).Some?
    requires StripNonDigits(shown) == DisplayedDigits(EditAmount(typed).value)
    ensures Cents(shown) == Cents(typed)
  {
    DisplayedDigitsValue(EditAmount(typed).value);
  }

  /** Whatever surrounds a run of digits, as long as it holds no digit
      itself, the amount is the value of that run. */
  lemma CentsOfPadded(a: string, d: string, b: string)
    requires NoDigit(a) && NoDigit(b)
    requires AllDigits(d)
    ensures Cents(a + d + b) == DecimalValue(d)
  {
    StripConcat(a + d, b);
    StripConcat(a, d);
    StripEmptyIffNoDigit(a);
    StripEmptyIffNoDigit(b);
    StripKeepsDigits(d);
    assert [] + d + [] == d;
  }

  /** The field text "1000" is 1000 cents, i.e. 10.00. */
  lemma CentsOfThousand()
    ensures Cents("1000") == 1000
  {
    CentsOfPadded([], "1000", []);
    assert [] + "1000" + [] == "1000";
    DecimalThousand();
  }

  lemma DecimalThousand()
    ensures DecimalValue("1000") == 1000
  {
    DecimalValueSnoc([], '1');
    DecimalValueSnoc("1", '0');
    DecimalValueSnoc("10", '0');
    DecimalValueSnoc("100", '0');
    assert [] + ['1'] == "1";
    assert "1" + ['0'] == "10";
    assert "10" + ['0'] == "100";
    assert "100" + ['0'] == "1000";
  }

  /** Its currency rendering "R$ 10,00" (with the no-break space of the
      pt-BR format) reads back as the same 1000 cents. */
  lemma CentsOfRenderedThousand()
    ensures Cents("R$\U{A0}10,00") == 1000
  {
    assert "R$\U{A0}10,00" == "R$\U{A0}10" + [','] + "00";
    CentsIgnoresNonDigit("R$\U{A0}10", ',', "00");
    assert "R$\U{A0}10" + "00" == "R$\U{A0}" + "1000" + [];
    CentsOfPadded("R$\U{A0}", "1000", []);
    DecimalThousand();
  }

  /** A field with no digit is cleared by the input handler. */
  lemma EditAmountClears()
    ensures EditAmount("R$ ,") == None
  {
    var s := "R$ ,";
    assert !IsDigit(s[0]) && !IsDigit(s[1]) && !IsDigit(s[2]) && !IsDigit(s[3]);
  }

  /** A single typed digit is that many cents. */
  lemma EditAmountOneDigit()
    ensures EditAmount("R$ 7") == Some(7)
  {
    var s := "R$ 7";
    assert IsDigit(s[3]);
    CentsOfPadded("R$ ", "7", []);
    assert "R$ " + "7" + [] == s;
    ValueOfOneDigit('7', 10);
  }
}
