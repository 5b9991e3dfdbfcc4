/**
 A run of the page as a sequence of user events applied to the list, using
 the corrected submission: the amount guard of the page reads `Number` of the
 currency text the field always shows, which is NaN, so a zero amount gets
 through. `AddChecked` also refuses an amount worth zero cents.
 */
module Session {
  import opened Wrappers
  import opened Text
  import Amount
  import JsNumber
  import opened Ledger

  /** A submission the corrected form accepts. */
  predicate Accepted(f: Form) {
    !HasEmptyField(f) && !FailsAmountGuard(f) && Amount.Cents(f.amount) > 0
  }

  /** The corrected submission: the page's checks, then an amount of zero
      cents is refused as not positive. */
  function AddChecked(items: seq<Entry>, f: Form): (r: Outcome)
    ensures r.alert.None? <==> Accepted(f)
    ensures r.alert.Some? ==> r.items == items
    ensures r.alert.None? ==> r == Add(items, f) && r.items[|items|].cents > 0
    ensures Add(items, f).alert.Some? ==> r == Add(items, f)
  {
    var r := Add(items, f);
    if r.alert.None? && Amount.Cents(f.amount) == 0 then Outcome(items, Some(NotPositive)) else r
  }

  /** What every entry created through the form satisfies: a trimmed
      non-empty description and kind, and a positive amount. */
  predicate WellFormed(items: seq<Entry>) {
    forall j :: 0 <= j < |items| ==> WellFormedEntry(items[j])
  }

  predicate WellFormedEntry(e: Entry) {
    e.cents > 0 && Unpadded(e.description) && Unpadded(e.kind)
  }

  datatype Event = Submit(form: Form) | Delete(index: nat)

  function Step(items: seq<Entry>, e: Event): seq<Entry> {
    match e
    case Submit(f) => AddChecked(items, f).items
    case Delete(i) => Remove(items, i)
  }

  /** The list after the events, in order, starting from `items`. */
  function Run(items: seq<Entry>, events: seq<Event>): seq<Entry>
    decreases |events|
  {
    if events == [] then items else Run(Step(items, events[0]), events[1..])
  }

  lemma NewEntryWellFormed(f: Form)
    requires Accepted(f)
    ensures WellFormedEntry(EntryOf(f))
  {
    Amount.CentsOfTrim(f.amount);
    var e := EntryOf(f);
    assert e.cents == Amount.Cents(f.amount);
    assert Unpadded(e.description) && Unpadded(e.kind);
  }

  lemma AddCheckedAppends(items: seq<Entry>, f: Form)
    requires Accepted(f)
    ensures AddChecked(items, f).items == items + [EntryOf(f)]
  {
  }

  lemma WellFormedAppend(items: seq<Entry>, e: Entry)
    requires WellFormed(items) && WellFormedEntry(e)
    ensures WellFormed(items + [e])
  {
  }

  /** An accepted corrected submission appends a well-formed entry. */
  lemma AddCheckedPreservesWellFormed(items: seq<Entry>, f: Form)
    requires WellFormed(items)
    ensures WellFormed(AddChecked(items, f).items)
  {
    if Accepted(f) {
      AddCheckedAppends(items, f);
      NewEntryWellFormed(f);
      WellFormedAppend(items, EntryOf(f));
    }
  }

  /** Deleting keeps the remaining entries, so keeps them well formed. */
  lemma RemovePreservesWellFormed(items: seq<Entry>, index: nat)
    requires WellFormed(items)
    ensures WellFormed(Remove(items, index))
  {
    var r := Remove(items, index);
    if index < |items| {
      forall j | 0 <= j < |r| ensures WellFormedEntry(r[j]) {
        if j < index {
          assert r[j] == items[j];
        } else {
          assert r[j] == items[j + 1];
        }
      }
    }
  }

  lemma StepPreservesWellFormed(items: seq<Entry>, e: Event)
    requires WellFormed(items)
    ensures WellFormed(Step(items, e))
  {
    match e
    case Submit(f) => AddCheckedPreservesWellFormed(items, f);
    case Delete(i) => RemovePreservesWellFormed(items, i);
  }

  /** From a well-formed list (the empty list in particular), any run of
      submissions and deletions keeps it well formed. */
  lemma {:induction false} RunPreservesWellFormed(items: seq<Entry>, events: seq<Event>)
    requires WellFormed(items)
    ensures WellFormed(Run(items, events))
    decreases |events|
  {
    if events != [] {
      StepPreservesWellFormed(items, events[0]);
      RunPreservesWellFormed(Step(items, events[0]), events[1..]);
    }
  }

  /** The amount that accepted submissions among `forms` add to the total of `kind`. */
  function AcceptedSum(forms: seq<Form>, kind: string): nat
    decreases |forms|
  {
    if forms == [] then 0
    else
      var f := forms[0];
      (if Accepted(f) && Trim(f.kind) == kind then Amount.Cents(f.amount) else 0)
        + AcceptedSum(forms[1..], kind)
  }

  function Submissions(forms: seq<Form>): (events: seq<Event>)
    ensures |events| == |forms|
    ensures forall j :: 0 <= j < |forms| ==> events[j] == Submit(forms[j])
  {
    seq(|forms|, j requires 0 <= j < |forms| => Submit(forms[j]))
  }

  /** After any sequence of submissions, each total is what it was plus the
      amounts of the accepted submissions of its kind. */
  lemma {:induction false} TotalsAfterSubmissions(items: seq<Entry>, forms: seq<Form>)
    ensures IncomeTotal(Run(items, Submissions(forms))) == IncomeTotal(items) + AcceptedSum(forms, Income)
    ensures ExpenseTotal(Run(items, Submissions(forms))) == ExpenseTotal(items) + AcceptedSum(forms, Expense)
    decreases |forms|
  {
    if forms != [] {
      var f := forms[0];
      var next := Step(items, Submit(f));
      assert Submissions(forms)[1..] == Submissions(forms[1..]);
      TotalsAfterSubmissions(next, forms[1..]);
      if AddChecked(items, f).alert.None? {
        TotalsAfterAdd(items, f);
      }
    }
  }

  /** Any form with a description and a kind whose amount text holds a
      character `Number` cannot read and no non-zero digit passes the page's
      checks and stores an entry of 0 cents, which the corrected form refuses. */
  lemma AddAcceptsZeroAmounts(items: seq<Entry>, f: Form, k: nat)
    requires Trim(f.description) != [] && Trim(f.kind) != []
    requires k < |f.amount| && !JsNumber.NumericChar(f.amount[k]) && !IsWhiteSpace(f.amount[k])
    requires Amount.Cents(f.amount) == 0
    ensures Add(items, f).alert == None
    ensures Add(items, f).items == items + [Entry(Trim(f.description), 0, Trim(f.kind))]
    ensures !WellFormed(Add(items, f).items)
    ensures AddChecked(items, f) == Outcome(items, Some(NotPositive))
  {
    ForeignAmountPassesGuard(f.amount, k);
    var e := Entry(Trim(f.description), 0, Trim(f.kind));
    var r := Add(items, f).items;
    assert r == items + [e];
    assert r[|items|] == e && !WellFormedEntry(e);
  }

  lemma ForeignAmountPassesGuard(amount: string, k: nat)
    requires k < |amount| && !JsNumber.NumericChar(amount[k]) && !IsWhiteSpace(amount[k])
    ensures Trim(amount) != []
    ensures !JsNumber.AtMostZero(JsNumber.NumberOf(Trim(amount)))
  {
    TrimKeeps(amount, k);
    JsNumber.ForeignCharIsNaN(Trim(amount), k - (|amount| - |TrimStart(amount)|));
  }

  /** The amount field after typing "0": the pt-BR currency text "R$ 0,00",
      with a no-break space after the sign. */
  const RenderedZero: string := "R$\U{A0}0,00"

  /** The concrete case: any description and kind, with the amount typed as
      "0" and therefore shown as "R$ 0,00". */
  lemma AddAcceptsRenderedZero(description: string, kind: string)
    requires Unpadded(description) && Unpadded(kind)
    ensures Add([], Form(description, RenderedZero, kind)).items == [Entry(description, 0, kind)]
    ensures AddChecked([], Form(description, RenderedZero, kind)).alert == Some(NotPositive)
  {
    TrimOfUnpadded(description);
    TrimOfUnpadded(kind);
    ZeroAmountDigits();
    AddAcceptsZeroAmounts([], Form(description, RenderedZero, kind), 0);
    assert [] + [Entry(description, 0, kind)] == [Entry(description, 0, kind)];
  }

  lemma ZeroAmountDigits()
    ensures Amount.Cents(RenderedZero) == 0
  {
    assert RenderedZero == "R$\U{A0}0" + [','] + "00";
    Amount.CentsIgnoresNonDigit("R$\U{A0}0", ',', "00");
    assert "R$\U{A0}0" + "00" == "R$\U{A0}" + "000" + [];
    Amount.CentsOfPadded("R$\U{A0}", "000", []);
    DecimalTripleZero();
  }

  lemma DecimalTripleZero()
    ensures DecimalValue("000") == 0
  {
    Amount.DecimalValueSnoc([], '0');
    Amount.DecimalValueSnoc("0", '0');
    Amount.DecimalValueSnoc("00", '0');
    assert [] + ['0'] == "0";
    assert "0" + ['0'] == "00";
    assert "00" + ['0'] == "000";
  }
}
