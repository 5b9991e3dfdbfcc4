/**
 The list of entries and the three operations the page performs on it:
 submitting the form (validate, then append), deleting the entry at a
 position (`splice(index, 1)`), and recomputing the income, expense and net
 totals. Amounts are integer cents.
 */
module Ledger {
  import opened Wrappers
  import opened Text
  import Amount
  import JsNumber

  /** The two kinds the kind selector offers; any other non-empty kind is
      stored too but counts toward neither total. */
  const Income: string := "Entrada"
  const Expense: string := "Saida"

  /** One entry of the list: description, amount in cents and kind. */
  datatype Entry = Entry(description: string, cents: nat, kind: string)

  /** The three form fields exactly as the page holds them. */
  datatype Form = Form(description: string, amount: string, kind: string)

  /** Why a submission was refused; each is an alert in the page. */
  datatype Rejection = MissingField | NotPositive

  /** The list after a submission, with the alert shown when it was refused. */
  datatype Outcome = Outcome(items: seq<Entry>, alert: Option<Rejection>)

  /** Some field is empty once trimmed. */
  predicate HasEmptyField(f: Form) {
    Trim(f.description) == [] || Trim(f.amount) == [] || Trim(f.kind) == []
  }

  /** `Number(amount) <= 0` on the trimmed amount text, which is not the
      digit-only text the stored amount is read from. */
  predicate FailsAmountGuard(f: Form) {
    JsNumber.AtMostZero(JsNumber.NumberOf(Trim(f.amount)))
  }

  /** The entry a submission creates. */
  function EntryOf(f: Form): Entry {
    Entry(Trim(f.description), Amount.Cents(Trim(f.amount)), Trim(f.kind))
  }

  /** The "Incluir" button: refuse when a trimmed field is empty, then when
      the amount text reads as a number at most zero; otherwise append the new
      entry at the end. */
  function Add(items: seq<Entry>, f: Form): (r: Outcome)
    ensures r.alert == Some(MissingField) <==> HasEmptyField(f)
    ensures r.alert == Some(NotPositive) <==> !HasEmptyField(f) && FailsAmountGuard(f)
    ensures r.alert.Some? ==> r.items == items
    ensures r.alert.None? ==>
              r.items == items + [Entry(Trim(f.description), Amount.Cents(f.amount), Trim(f.kind))]
  {
    Amount.CentsOfTrim(f.amount);
    if HasEmptyField(f) then Outcome(items, Some(MissingField))
    else if FailsAmountGuard(f) then Outcome(items, Some(NotPositive))
    else Outcome(items + [EntryOf(f)], None)
  }

  /** `items.splice(index, 1)`: drop the entry at `index`; past the end nothing changes. */
  function Remove(items: seq<Entry>, index: nat): (r: seq<Entry>)
    ensures index < |items| ==>
              && |r| == |items| - 1
              && (forall k :: 0 <= k < index ==> r[k] == items[k])
              && (forall k :: index <= k < |r| ==> r[k] == items[k + 1])
    ensures index < |items| ==> multiset(r) + multiset{items[index]} == multiset(items)
    ensures index >= |items| ==> r == items
  {
    if index < |items| then
      var r := items[..index] + items[index + 1..];
      assert items == items[..index] + [items[index]] + items[index + 1..];
      r
    else items
  }

  /** Deleting the entry just added gives back the list before the submission. */
  lemma RemoveUndoesAdd(items: seq<Entry>, f: Form)
    requires !HasEmptyField(f) && !FailsAmountGuard(f)
    ensures Remove(Add(items, f).items, |items|) == items
  {
  }

  /** The sum of the amounts of the entries whose kind is exactly `kind`. */
  function Sum(items: seq<Entry>, kind: string): (total: nat)
    ensures (forall j :: 0 <= j < |items| ==> items[j].kind != kind) ==> total == 0
    ensures forall j :: 0 <= j < |items| && items[j].kind == kind ==> items[j].cents <= total
  {
    if items == [] then 0
    else
      var init := items[..|items| - 1];
      var last := items[|items| - 1];
      assert forall j :: 0 <= j < |init| ==> init[j] == items[j];
      Sum(init, kind) + (if last.kind == kind then last.cents else 0)
  }

  function IncomeTotal(items: seq<Entry>): nat {
    Sum(items, Income)
  }

  function ExpenseTotal(items: seq<Entry>): nat {
    Sum(items, Expense)
  }

  /** The net balance: income minus expense. */
  function Net(items: seq<Entry>): int {
    IncomeTotal(items) - ExpenseTotal(items)
  }

  /** How an amount of the given kind moves the net balance. */
  function NetEffect(kind: string, cents: nat): int {
    if kind == Income then cents else if kind == Expense then -(cents as int) else 0
  }

  /** The three figures the page shows under the table. */
  datatype Totals = Totals(income: nat, expense: nat, net: int)

  /** The sum of a concatenation is the sum of its parts. */
  lemma {:induction false} SumConcat(a: seq<Entry>, b: seq<Entry>, kind: string)
    ensures Sum(a + b, kind) == Sum(a, kind) + Sum(b, kind)
    decreases |b|
  {
    if b == [] {
      assert a + b == a;
    } else {
      var b0 := b[..|b| - 1];
      assert (a + b)[..|a + b| - 1] == a + b0;
      assert (a + b)[|a + b| - 1] == b[|b| - 1];
      SumConcat(a, b0, kind);
    }
  }

  lemma SumOfOne(e: Entry, kind: string)
    ensures Sum([e], kind) == if e.kind == kind then e.cents else 0
  {
    assert [e][..0] == [];
  }

  /** Extending a prefix by one entry adds that entry's amount to its kind's sum. */
  lemma SumSnoc(items: seq<Entry>, i: nat, kind: string)
    requires i < |items|
    ensures Sum(items[..i + 1], kind) == Sum(items[..i], kind) + (if items[i].kind == kind then items[i].cents else 0)
  {
    assert items[..i + 1][..i] == items[..i];
  }

  /** The totals loop of the page: one pass over the list adding each amount
      to the income or the expense total by its kind, then net is income
      minus expense. */
  method ComputeTotals(items: seq<Entry>) returns (t: Totals)
    ensures t.income == IncomeTotal(items)
    ensures t.expense == ExpenseTotal(items)
    ensures t.net == Net(items)
  {
    var income, expense := 0, 0;
    var i := 0;
    while i < |items|
      invariant i <= |items|
      invariant income == Sum(items[..i], Income)
      invariant expense == Sum(items[..i], Expense)
    {
      SumSnoc(items, i, Income);
      SumSnoc(items, i, Expense);
      var item := items[i];
      if item.kind == Income {
        income := income + item.cents;
      } else if item.kind == Expense {
        expense := expense + item.cents;
      }
      i := i + 1;
    }
    assert items[..i] == items;
    t := Totals(income, expense, income - expense);
  }

  /** An accepted submission raises the total of its own kind by the new
      amount and leaves the other total alone; a kind that is neither
      changes nothing. */
  lemma TotalsAfterAdd(items: seq<Entry>, f: Form)
    requires !HasEmptyField(f) && !FailsAmountGuard(f)
    ensures var after := Add(items, f).items;
            && IncomeTotal(after) == IncomeTotal(items) + (if Trim(f.kind) == Income then Amount.Cents(f.amount) else 0)
            && ExpenseTotal(after) == ExpenseTotal(items) + (if Trim(f.kind) == Expense then Amount.Cents(f.amount) else 0)
            && Net(after) == Net(items) + NetEffect(Trim(f.kind), Amount.Cents(f.amount))
  {
    var after := Add(items, f).items;
    var e := after[|items|];
    assert after == items + [e];
    SumConcat(items, [e], Income);
    SumConcat(items, [e], Expense);
    SumOfOne(e, Income);
    SumOfOne(e, Expense);
  }

  /** A refused submission leaves every total as it was. */
  lemma TotalsAfterRefusal(items: seq<Entry>, f: Form)
    requires Add(items, f).alert.Some?
    ensures var after := Add(items, f).items;
            IncomeTotal(after) == IncomeTotal(items) && ExpenseTotal(after) == ExpenseTotal(items)
  {
  }

  /** Deleting an entry lowers the total of its kind by its amount and leaves
      the other total alone. */
  lemma TotalsAfterRemove(items: seq<Entry>, index: nat)
    requires index < |items|
    ensures var after := Remove(items, index);
            var e := items[index];
            && IncomeTotal(items) == IncomeTotal(after) + (if e.kind == Income then e.cents else 0)
            && ExpenseTotal(items) == ExpenseTotal(after) + (if e.kind == Expense then e.cents else 0)
            && Net(after) == Net(items) - NetEffect(e.kind, e.cents)
  {
    var e := items[index];
    var pre, post := items[..index], items[index + 1..];
    assert items == pre + [e] + post;
    assert Remove(items, index) == pre + post;
    SumConcat(pre + [e], post, Income);
    SumConcat(pre, [e], Income);
    SumConcat(pre, post, Income);
    SumConcat(pre + [e], post, Expense);
    SumConcat(pre, [e], Expense);
    SumConcat(pre, post, Expense);
    SumOfOne(e, Income);
    SumOfOne(e, Expense);
  }
}
