/**
 * The file operations of the tracker: a CSV file is an object whose records
 * the operations read and overwrite in place. `LoadExpenses`, `SaveExpenses`
 * and `ExportCleanCopy` are proved against the functions of `Store`.
 */
module Files {
  import opened Wrappers
  import opened Text
  import opened Columns
  import opened Dates
  import opened Amounts
  import opened Expenses
  import opened Store

  /** A CSV file: its records, the header first. An empty sequence is an
      empty (or absent) file. */
  class CsvFile {
    var records: seq<Record>

    constructor (records: seq<Record>)
      ensures this.records == records
    {
      this.records := records;
    }

    /** `ensure_csv_header`: an empty file gets the standard header as its
        only record; any other file is left alone. */
    method EnsureCsvHeader()
      modifies this
      ensures records == EnsureHeader(old(records))
    {
      if records == [] {
        records := [StandardColumns];
      }
    }

    /** `save_expenses`: the file is truncated, then the standard header and
        one record per expense are written, in order. */
    method Write(expenses: seq<Expense>)
      modifies this
      ensures records == Save(expenses)
    {
      records := [StandardColumns];
      for i := 0 to |expenses|
        invariant records == [StandardColumns] + SaveRows(expenses[..i])
      {
        records := records + [SaveRow(expenses[i])];
        assert expenses[..i + 1][..i] == expenses[..i];
      }
      assert expenses[..|expenses|] == expenses;
    }
  }

  /** The row loop of `load_expenses`: every data record is read through
      the header map, and it is kept exactly when it is not blank and all
      four fields parse. */
  method CleanRows(header: seq<string>, rows: seq<Record>) returns (cleaned: seq<Expense>)
    ensures cleaned == LoadRows(header, rows)
    ensures forall e :: e in cleaned ==> ValidExpense(e)
  {
    cleaned := [];
    for i := 0 to |rows|
      invariant cleaned == LoadRows(header, rows[..i])
      invariant forall e :: e in cleaned ==> ValidExpense(e)
    {
      var row := rows[i];
      assert rows[..i + 1] == rows[..i] + [row];
      LoadRowsAppend(header, rows[..i], row);
      if row == [] {
        // DictReader skips a blank record
        assert !Kept(header, row);
        continue;
      }
      var raw := RawFields(header, row);
      var date := ParseDate(raw.date);
      var amount := ParseAmount(raw.amount);
      var category := Strip(raw.category);
      var description := Strip(raw.description);
      if date.None? || amount.None? || category == [] || description == [] {
        assert !Kept(header, row);
        continue;
      }
      var e := Expense(date.value, amount.value, category, description);
      assert ParseRecord(header, row) == Some(e) && Kept(header, row);
      cleaned := cleaned + [e];
    }
    assert rows[..|rows|] == rows;
  }

  /** `load_expenses`: the header is ensured first (which may write the
      file), a file whose header record is empty yields nothing, and
      otherwise the data records are cleaned. */
  method LoadExpenses(file: CsvFile) returns (cleaned: seq<Expense>)
    modifies file
    ensures file.records == EnsureHeader(old(file.records))
    ensures cleaned == Load(old(file.records))
  {
    file.EnsureCsvHeader();
    var header := file.records[0];
    if header == [] {
      return [];
    }
    cleaned := CleanRows(header, file.records[1..]);
  }

  /** `save_expenses`. */
  method SaveExpenses(expenses: seq<Expense>, file: CsvFile)
    modifies file
    ensures file.records == Save(expenses)
  {
    file.Write(expenses);
  }

  /** `export_clean_copy`: load the source, then save what was loaded to
      the target. The source may gain its header; when the target is the
      source itself, it ends up holding the clean copy. */
  method ExportCleanCopy(source: CsvFile, target: CsvFile)
    modifies source, target
    ensures target.records == Clean(old(source.records))
    ensures source != target ==> source.records == EnsureHeader(old(source.records))
  {
    var expenses := LoadExpenses(source);
    SaveExpenses(expenses, target);
  }
}
