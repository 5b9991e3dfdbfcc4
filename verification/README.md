# Expense tracker: list state and arithmetic

This project models the logic part of a browser expense tracker ("Controle de Gastos"). The page keeps a list of
entries. Each entry has a description, an amount and a kind: `"Entrada"` for income and `"Saida"` for expense.
The model covers four things:

- how the amount field is read: every non-digit is stripped and the digits are read as cents;
- the "Incluir" button: trim the three fields, refuse empty fields, refuse an amount `Number` reads as `<= 0`, and
  otherwise append the new entry;
- deleting an entry by position, as `splice(index, 1)` does;
- the totals: income, expense, and net = income − expense.

Everything is written as pure functions over an immutable `seq<Entry>`, with amounts as integer cents.

Modules:

- `Text`: the ECMAScript white-space set, `trim`, ASCII digits, and the value of a digit string in a radix.
- `Amount`: `replace(/\D/g, "")`, the stored amount in cents, and the amount field's input handler.
- `JsNumber`: `Number(text)` as ECMAScript's StringToNumber defines it. Finite results are exact reals; NaN and
  the two infinities are values of their own. The add guard needs only the comparison `<= 0`.
- `Ledger`: `Entry`, the add as the page does it, `Remove`, the sums by kind, the totals loop, and how the totals
  move under add and remove.
- `Session`: a corrected add (see Findings), user events replayed over the list, the invariant those events keep,
  and the totals after any sequence of submissions.

The guard and the stored amount read different texts. The guard tests `Number` of the trimmed field text
(javascript/javascript.js:83). The stored amount comes from the digit-stripped text (javascript/javascript.js:91).
The model keeps the two apart: `Ledger.FailsAmountGuard` versus `Amount.Cents`. NaN is not `<= 0`, so a NaN reading
never refuses. Any non-empty kind is stored. An entry whose kind is neither `"Entrada"` nor `"Saida"` counts toward
neither total.

## Model

| member | source | states |
|---|---|---|
| `Text.Trim` | javascript/javascript.js:73-75 | the trimmed text starts and ends with a non-white-space character, or is empty |
| `Text.TrimDecomposes` | javascript/javascript.js:73-75 | the input is a white-space prefix, then the trimmed text, then a white-space suffix |
| `Text.TrimOfPadded` | javascript/javascript.js:73-75 | padding a text with white space on both sides trims back to that text, provided its own ends are not white space; so trim is fully determined |
| `Text.TrimIdempotent` | javascript/javascript.js:73-75 | trimming twice is the same as trimming once |
| `Text.ValueInRadixConcat` | javascript/javascript.js:91 | the value of digits `a + b` is the value of `a` shifted past `b`'s digits plus the value of `b` |
| `Amount.StripNonDigits` | javascript/javascript.js:56 | the stripped text has only ASCII digits and is no longer than the input |
| `Amount.StripWithPositions` | javascript/javascript.js:56 | the stripped text is exactly the input's digit characters, in order: strictly increasing source positions, and every digit position is kept |
| `Amount.StripConcat` | javascript/javascript.js:91 | stripping a concatenation strips each part |
| `Amount.StripIdempotent` | javascript/javascript.js:91 | stripping already-stripped text changes nothing |
| `Amount.StripEmptyIffNoDigit` | javascript/javascript.js:59-66 | stripping leaves nothing exactly when the input holds no digit |
| `Amount.Cents` | javascript/javascript.js:91 | the stored amount in cents, `Number(text.replace(/\D/g, "")) / 100` kept as an integer: defined as the decimal value of the text's digits, 0 when there is none (`Number("")` is 0, lemma `CentsOfNoDigit`); `CentsConcat`, `CentsIgnoresNonDigit`, `CentsOfPadded` and `CentsOfTrim` characterise it on every text |
| `Amount.CentsOfTrim` | javascript/javascript.js:91 | the amount read from the trimmed field equals the amount read from the raw field |
| `Amount.CentsIgnoresNonDigit` | javascript/javascript.js:91 | inserting any non-digit, such as a separator or the currency sign, does not change the amount |
| `Amount.CentsConcat` | javascript/javascript.js:91 | the amount of `a + b` is the amount of `a` shifted by `b`'s digit count plus the amount of `b` |
| `Amount.CentsOfPadded` | javascript/javascript.js:91 | a run of digits with no digits around it gives the base-10 value of that run |
| `Amount.CentsOfThousand` | javascript/javascript.js:91 | the field text "1000" is 1000 cents, i.e. 10.00 |
| `Amount.CentsOfRenderedThousand` | javascript/javascript.js:91 | the rendered text "R$ 10,00" is read back as 1000 cents |
| `Amount.DecimalString` | javascript/javascript.js:179-185 | the integer part as the currency rendering writes it: a non-empty digit string whose value is `n`, with no leading zero unless it is the single digit `0` |
| `Amount.DisplayedDigitsValue` | javascript/javascript.js:63 | the digits of a two-decimal currency rendering of `c` cents have value `c` |
| `Amount.EditAmount` | javascript/javascript.js:54-67 | the input handler clears the field exactly when the typed text has no digit; otherwise it redraws the amount the digits denote |
| `Amount.EditThenSubmit` | javascript/javascript.js:91 | submitting the text the handler drew stores the amount the keystrokes denoted |
| `JsNumber.NumberOf` | javascript/javascript.js:83 | `Number(text)` as ECMAScript StringToNumber defines it, over exact reals (see "## Left out"): white space around the text is ignored, a blank text is 0 (lemma `NumberOfBlank`), and anything but a whole numeric literal is NaN; `NumberOfDigits`, `NumberOfNegatedDigits`, `ForeignCharIsNaN` and `LiteralCharacters` characterise it further |
| `JsNumber.LiteralCharacters` | javascript/javascript.js:83 | every character of a trimmed literal that `Number` does not read as NaN is a numeric-literal character (digits, sign, `.`, exponent, radix prefix letters, `Infinity`) |
| `JsNumber.ForeignCharIsNaN` | javascript/javascript.js:83 | text holding a character that is neither white space nor numeric-literal syntax reads as NaN |
| `JsNumber.NumberOfDigits` | javascript/javascript.js:83 | a non-empty digit string reads as its decimal value |
| `JsNumber.NumberOfNegatedDigits` | javascript/javascript.js:83 | a minus sign before digits reads as the negated value |
| `JsNumber.RenderedZeroIsNaN` | javascript/javascript.js:83 | the rendered zero amount "R$ 0,00" reads as NaN |
| `JsNumber.ZeroTextIsAtMostZero` | javascript/javascript.js:83 | example: the plain text "0" fails the `<= 0` guard (an instance of `NumberOfDigits`) |
| `JsNumber.NegativeTextIsAtMostZero` | javascript/javascript.js:83 | example: the text "-5" fails the `<= 0` guard (an instance of `NumberOfNegatedDigits`) |
| `JsNumber.PositiveTextPasses` | javascript/javascript.js:83 | example: the text "12" passes the `<= 0` guard (an instance of `NumberOfDigits`) |
| `Ledger.HasEmptyField` | javascript/javascript.js:78 | defines the first check: some field is empty once trimmed. `Ledger.Add` states that the missing-field alert is shown exactly when it holds |
| `Ledger.FailsAmountGuard` | javascript/javascript.js:83 | defines the second check: `Number` of the trimmed amount text is `<= 0`, with NaN never `<= 0`. `Ledger.Add` states that the not-positive alert is shown exactly when the fields are filled and it holds; `Session.AddAcceptsZeroAmounts` shows that it lets currency text through |
| `Ledger.Add` | javascript/javascript.js:73-96 | missing-field alert iff a trimmed field is empty; not-positive alert iff all fields are filled and the trimmed amount text reads `<= 0`; a refusal leaves the list unchanged; otherwise the list grows by one, the old entries are kept as a prefix, and the last entry is the trimmed description, the cents of the amount digits, and the trimmed kind |
| `Ledger.Remove` | javascript/javascript.js:158 | for an index in range: length drops by one, earlier entries stay in place, later ones shift down by one, and the multiset loses exactly the removed entry; past the end nothing changes |
| `Ledger.Sum` | javascript/javascript.js:193-199 | with no entry of the kind the sum is 0 (so the empty list totals 0); every entry of the kind is at most the sum |
| `Ledger.SumConcat` | javascript/javascript.js:193-199 | the sum by kind over a concatenation is the sum of the parts' sums |
| `Ledger.ComputeTotals` | javascript/javascript.js:188-202 | the one-pass loop yields the income sum over `"Entrada"`, the expense sum over `"Saida"`, and net = income − expense |
| `Ledger.TotalsAfterAdd` | javascript/javascript.js:89-96 | when every field is filled and the guard passes (exactly when the add accepts), the add raises its own kind's total by the new amount and leaves the other total; a kind that is neither leaves both |
| `Ledger.TotalsAfterRefusal` | javascript/javascript.js:78-86 | a refused add changes no total |
| `Ledger.TotalsAfterRemove` | javascript/javascript.js:158 | a delete lowers the removed entry's kind total by its amount and leaves the other; net moves the opposite way |
| `Ledger.RemoveUndoesAdd` | javascript/javascript.js:96 | when the add accepts, deleting the entry it appended gives back the previous list |
| `Session.AddChecked` | javascript/javascript.js:83-86 | the corrected add accepts exactly when the page's checks pass and the amount is positive; when it accepts it agrees with the page; when the page refuses it refuses the same way |
| `Session.RunPreservesWellFormed` | javascript/javascript.js:89-96 | any sequence of corrected submissions and deletions keeps every entry's amount positive and its description and kind non-empty with no white space at either end |
| `Session.TotalsAfterSubmissions` | javascript/javascript.js:188-199 | after any sequence of submissions, each total is its old value plus the accepted amounts of its kind |
| `Session.AddAcceptsZeroAmounts` | javascript/javascript.js:83 | as written, a filled form whose amount text has a non-numeric character and no non-zero digit is accepted with 0 cents, breaking well-formedness; the corrected add refuses it |
| `Session.AddAcceptsRenderedZero` | javascript/javascript.js:83 | as written, the amount "R$ 0,00" (the field after typing "0") is stored as a 0-cent entry; the corrected add refuses it |

## Findings

| source | as written | input that shows it | evidently intended | confidence | as-written member | corrected member |
|---|---|---|---|---|---|---|
| javascript/javascript.js:83 | the guard tests `Number(valorValor)` on the field text. The input handler (javascript/javascript.js:54-67) always keeps that text as currency, e.g. "R$ 0,00". `Number` reads such text as NaN, and `NaN <= 0` is false, so the guard never fires | type "0" in the amount field: it shows "R$ 0,00", and submitting with any description and kind stores an entry of 0 cents | refuse an amount whose stored value is not positive, as the comment at line 77 and the alert at line 84 ("Digite um valor maior que zero!") say | not executed; high | `Session.AddAcceptsRenderedZero` | `Session.AddChecked` |

`Session` replays user events with `AddChecked`. The totals lemmas in `Ledger` are stated for the add as written,
and they carry over because `AddChecked` agrees with `Add` whenever it accepts.

## Left out

- DOM lookups, table row building, the kind-dependent colours of the button and the rows, and the `setTimeout` reset
  animation (javascript/javascript.js:5-15, 40-51, 101-113, 121-176): these are page plumbing. Each row's delete
  button is bound to that row's current index, so deletes in the page always use an index in range. `Ledger.Remove`
  still covers the out-of-range no-op of `splice`.
- `localStorage` loading and saving and `JSON.parse`/`JSON.stringify` (javascript/javascript.js:18-38): these are
  foreign browser calls. The model treats persistence as the identity on the list, so saving then reloading gives
  back the same list.
- `formatarMoeda` / `toLocaleString("pt-BR", BRL)` (javascript/javascript.js:179-185): locale formatting is a library
  call. The model assumes only that a rendering of `c` cents shows the integer part's digits followed by two decimal
  digits (`Amount.DisplayedDigits`).
- Floating point: the page divides by 100 and adds totals as doubles. The model keeps amounts as exact integer cents.
  So it has no rounding in the totals and no precision loss for digit strings longer than 15 or 16 digits.
- `JsNumber.NumberOf`: results are exact reals rather than IEEE doubles. A positive literal too small for a double
  (such as "1e-400") becomes 0 in the page, so the page refuses it. The model reads it as positive and accepts it.
  Literals that overflow to Infinity stay positive, so they make no difference.
- `alert`: a refusal is modelled as the list unchanged plus the `Rejection` it would show.
- Entries loaded from storage are taken as they are. The page does not check them, and `Session.WellFormed` is
  claimed only for lists built through the form.
