/**
 * The `Expense` record and the row validator of `load_expenses`: the four
 * raw texts of a row are parsed, and the row is kept only when all four
 * succeed.
 */
module Expenses {
  import opened Wrappers
  import opened Text
  import opened Dates
  import opened Amounts

  /** One expense: a `YYYY-MM-DD` date, an amount in cents, a category and
      a description. */
  datatype Expense = Expense(date: string, amount: int, category: string, description: string)

  /** What every loaded expense satisfies. */
  predicate ValidExpense(e: Expense) {
    && CanonicalDate(e.date)
    && e.amount > 0
    && e.category != [] && IsStripped(e.category)
    && e.description != [] && IsStripped(e.description)
  }

  /** The four texts a row holds under the canonical field names, before parsing. */
  datatype RawRow = RawRow(date: string, amount: string, category: string, description: string)

  /** Parsing one row: accepted exactly when the date parses, the amount
      parses and the stripped category and description are non-empty. */
  function BuildExpense(raw: RawRow): (r: Option<Expense>)
    ensures r.Some? <==>
      ParseDate(raw.date).Some? && ParseAmount(raw.amount).Some?
      && Strip(raw.category) != [] && Strip(raw.description) != []
    ensures r.Some? ==> ValidExpense(r.value)
    ensures r.Some? ==> r.value.category == Strip(raw.category) && r.value.description == Strip(raw.description)
    ensures r.Some? ==> ParseDate(raw.date) == Some(r.value.date) && ParseAmount(raw.amount) == Some(r.value.amount)
  {
    var date := ParseDate(raw.date);
    var amount := ParseAmount(raw.amount);
    var category := Strip(raw.category);
    var description := Strip(raw.description);
    if date.None? || amount.None? || category == [] || description == [] then None
    else Some(Expense(date.value, amount.value, category, description))
  }

  /** Parsing one row exactly as `load_expenses` is written: the amount
      test is `_parse_amount` as written, so an amount that rounds to zero
      cents is kept. */
  function BuildExpenseAsWritten(raw: RawRow): (r: Option<Expense>)
    ensures r.Some? <==>
      ParseDate(raw.date).Some? && ParseAmountAsWritten(raw.amount).Some?
      && Strip(raw.category) != [] && Strip(raw.description) != []
    ensures r.Some? ==> CanonicalDate(r.value.date) && r.value.amount >= 0
    ensures r.Some? ==> r.value.category == Strip(raw.category) && r.value.description == Strip(raw.description)
    ensures r.Some? ==> ParseDate(raw.date) == Some(r.value.date) && ParseAmountAsWritten(raw.amount) == Some(r.value.amount)
  {
    var date := ParseDate(raw.date);
    var amount := ParseAmountAsWritten(raw.amount);
    var category := Strip(raw.category);
    var description := Strip(raw.description);
    if date.None? || amount.None? || category == [] || description == [] then None
    else Some(Expense(date.value, amount.value, category, description))
  }

  /** The two readings of a row differ only on an amount that rounds to
      zero cents: every row the corrected reading keeps is kept alike as
      written, and every other row is rejected by both. */
  lemma BuildExpenseAgrees(raw: RawRow)
    ensures BuildExpense(raw).Some? ==> BuildExpenseAsWritten(raw) == BuildExpense(raw)
    ensures ParseAmountAsWritten(raw.amount) != Some(0) ==> BuildExpenseAsWritten(raw) == BuildExpense(raw)
  {
    var a := ParseAmountAsWritten(raw.amount);
    assert ParseAmount(raw.amount) == if a.Some? && a.value > 0 then a else None;
    if a != Some(0) {
      assert ParseAmount(raw.amount) == a;
    }
  }

  /** The row `BuildExpense` reads `e` from, once written out. */
  function WrittenRow(e: Expense): RawRow {
    RawRow(e.date, FormatAmount(e.amount), e.category, e.description)
  }

  /** A valid expense, written out and read back, is the same expense. */
  lemma BuildWrittenRow(e: Expense)
    requires ValidExpense(e)
    ensures BuildExpense(WrittenRow(e)) == Some(e)
  {
    ParseDateOfCanonical(e.date);
    ParseFormatAmount(e.amount);
    StripOfStripped(e.category);
    StripOfStripped(e.description);
  }

  /** A field that is empty once stripped rejects the whole row. */
  lemma BlankFieldRejects(raw: RawRow)
    requires Strip(raw.date) == [] || Strip(raw.category) == [] || Strip(raw.description) == []
    ensures BuildExpense(raw).None?
  {
  }
}
