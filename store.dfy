/**
 * The CSV file side of the pipeline: the header map of `load_expenses`,
 * the row dictionaries `csv.DictReader` hands it, the load and save loops
 * and the clean export. A file is its list of records, each record the
 * list of its cells; the first record is the header.
 */
module Store {
  import opened Wrappers
  import opened Text
  import opened Columns
  import opened Dates
  import opened Amounts
  import opened Expenses

  type Record = seq<string>

  /* ----- Dictionaries built from pairs ----- */

  /** `dict(zip(keys, values))` over the first `n` pairs: a repeated key
      keeps its last value. */
  function Dict<V>(keys: seq<string>, values: seq<V>, n: nat): map<string, V>
    requires n <= |keys| && n <= |values|
  {
    if n == 0 then map[]
    else Dict(keys, values, n - 1)[keys[n - 1] := values[n - 1]]
  }

  /** The keys of the dictionary are the first `n` keys. */
  lemma {:induction false} DictKeys<V>(keys: seq<string>, values: seq<V>, n: nat)
    requires n <= |keys| && n <= |values|
    ensures forall k :: k in Dict(keys, values, n) <==> k in keys[..n]
  {
    if n > 0 {
      DictKeys(keys, values, n - 1);
      assert keys[..n] == keys[..n - 1] + [keys[n - 1]];
    }
  }

  /** A key no later pair repeats holds its own value. */
  lemma {:induction false} DictLast<V>(keys: seq<string>, values: seq<V>, n: nat, i: nat)
    requires n <= |keys| && n <= |values| && i < n
    requires forall j :: i < j < n ==> keys[j] != keys[i]
    ensures keys[i] in Dict(keys, values, n) && Dict(keys, values, n)[keys[i]] == values[i]
  {
    if i < n - 1 {
      DictLast(keys, values, n - 1, i);
    }
  }

  /** Every value in the dictionary comes from a pair with its key. */
  lemma {:induction false} DictFrom<V>(keys: seq<string>, values: seq<V>, n: nat, k: string)
    requires n <= |keys| && n <= |values| && k in Dict(keys, values, n)
    ensures exists i :: 0 <= i < n && keys[i] == k && Dict(keys, values, n)[k] == values[i]
  {
    if keys[n - 1] != k {
      DictFrom(keys, values, n - 1, k);
    }
  }

  /* ----- The header map ----- */

  /** The canonical name of every header. */
  function Normalised(header: seq<string>): seq<string> {
    seq(|header|, i requires 0 <= i < |header| => StandardizeColName(header[i]))
  }

  /** `{_standardize_col_name(h): h for h in header}`: each canonical name
      goes to the last header that normalises to it. */
  function FieldMap(header: seq<string>): map<string, string> {
    Dict(Normalised(header), header, |header|)
  }

  /** A canonical name is in the map exactly when some header normalises to
      it, and it maps to such a header. */
  lemma FieldMapDomain(header: seq<string>, k: string)
    ensures k in FieldMap(header) <==> exists i :: 0 <= i < |header| && StandardizeColName(header[i]) == k
    ensures k in FieldMap(header) ==> FieldMap(header)[k] in header && StandardizeColName(FieldMap(header)[k]) == k
  {
    var names := Normalised(header);
    assert names[..|header|] == names;
    DictKeys(names, header, |header|);
    if k in FieldMap(header) {
      DictFrom(names, header, |header|, k);
    }
    if exists i :: 0 <= i < |header| && StandardizeColName(header[i]) == k {
      var i :| 0 <= i < |header| && StandardizeColName(header[i]) == k;
      assert names[i] == k;
    }
  }

  /** Last write wins: a header that no later header shadows is the one
      its canonical name maps to. */
  lemma FieldMapLastWins(header: seq<string>, i: nat)
    requires i < |header|
    requires forall j :: i < j < |header| ==> StandardizeColName(header[j]) != StandardizeColName(header[i])
    ensures StandardizeColName(header[i]) in FieldMap(header)
    ensures FieldMap(header)[StandardizeColName(header[i])] == header[i]
  {
    var names := Normalised(header);
    assert names[i] == StandardizeColName(header[i]);
    DictLast(names, header, |header|, i);
  }

  /** `field_map.get(name, "")`: the header a canonical field is read from. */
  function FieldKey(fieldMap: map<string, string>, name: string): string {
    if name in fieldMap then fieldMap[name] else ""
  }

  /* ----- The row dictionary of csv.DictReader ----- */

  /** A value of the row dictionary: a cell's text, or `None` for a header
      past the end of a short record. */
  datatype Cell = Filled(text: string) | Missing

  /** Every header in `keys` is set to `None`, as DictReader does for the
      headers a short record has no cell for. */
  function FillMissing(d: map<string, Cell>, keys: seq<string>): map<string, Cell>
    decreases |keys|
  {
    if keys == [] then d else FillMissing(d[keys[0] := Missing], keys[1..])
  }

  /** The headers in `keys` read `None`; every other key keeps its value. */
  lemma {:induction false} FillMissingSpec(d: map<string, Cell>, keys: seq<string>, k: string)
    ensures k in FillMissing(d, keys) <==> k in d || k in keys
    ensures k in keys ==> FillMissing(d, keys)[k] == Missing
    ensures k in d && k !in keys ==> FillMissing(d, keys)[k] == d[k]
    decreases |keys|
  {
    if keys != [] {
      FillMissingSpec(d[keys[0] := Missing], keys[1..], k);
      assert k in keys <==> k == keys[0] || k in keys[1..];
    }
  }

  /** The cells of a record as dictionary values. */
  function Cells(record: Record): seq<Cell> {
    seq(|record|, i requires 0 <= i < |record| => Filled(record[i]))
  }

  /** The dictionary DictReader builds from one record: the cells under
      their headers, then `None` for every header past the record's end.
      Cells past the last header go under a key no text lookup reaches. */
  function RowDict(header: seq<string>, record: Record): map<string, Cell> {
    var n := if |record| < |header| then |record| else |header|;
    FillMissing(Dict(header, Cells(record), n), header[n..])
  }

  /** `row.get(key, "")`. */
  function Get(row: map<string, Cell>, key: string): Cell {
    if key in row then row[key] else Filled("")
  }

  /** `str(cell)`, reading a missing cell as an empty one. */
  function CellText(c: Cell): string {
    match c
    case Filled(t) => t
    case Missing => ""
  }

  /** `str(cell)` as written: `str(None)` is the text "None". */
  function CellTextAsWritten(c: Cell): string {
    match c
    case Filled(t) => t
    case Missing => "None"
  }

  /** Under a header that names no column twice, the `i`-th header reads the
      `i`-th cell, or `None` when the record is too short for it. */
  lemma GetDistinct(header: seq<string>, record: Record, i: nat)
    requires i < |header|
    requires forall j, k :: 0 <= j < k < |header| ==> header[j] != header[k]
    ensures Get(RowDict(header, record), header[i]) == if i < |record| then Filled(record[i]) else Missing
  {
    var n := if |record| < |header| then |record| else |header|;
    var d := Dict(header, Cells(record), n);
    DictKeys(header, Cells(record), n);
    FillMissingSpec(d, header[n..], header[i]);
    if i < n {
      DictLast(header, Cells(record), n, i);
      assert header[i] in header[..n] by {
        assert header[..n][i] == header[i];
      }
      forall t | 0 <= t < |header[n..]|
        ensures header[n..][t] != header[i]
      {
        assert header[n..][t] == header[t + n];
      }
    } else {
      assert header[n..][i - n] == header[i];
    }
  }

  /** A key that is not in the header row reads as the empty text. */
  lemma GetAbsent(header: seq<string>, record: Record, key: string)
    requires key !in header
    ensures Get(RowDict(header, record), key) == Filled("")
  {
    var n := if |record| < |header| then |record| else |header|;
    DictKeys(header, Cells(record), n);
    FillMissingSpec(Dict(header, Cells(record), n), header[n..], key);
    forall t | 0 <= t < n
      ensures header[..n][t] != key
    {
      assert header[..n][t] == header[t];
    }
    forall t | 0 <= t < |header| - n
      ensures header[n..][t] != key
    {
      assert header[n..][t] == header[t + n];
    }
  }

  /* ----- One row ----- */

  /** The cell a canonical field reads, through the header map. */
  function FieldCell(header: seq<string>, record: Record, name: string): Cell {
    Get(RowDict(header, record), FieldKey(FieldMap(header), name))
  }

  /** The four raw texts of a record, each read through the header map. */
  function RawFields(header: seq<string>, record: Record): RawRow {
    RawRow(
      CellText(FieldCell(header, record, "date")),
      CellText(FieldCell(header, record, "amount")),
      CellText(FieldCell(header, record, "category")),
      CellText(FieldCell(header, record, "description")))
  }

  /** The four raw texts of a record as written, with `str(None)`. */
  function RawFieldsAsWritten(header: seq<string>, record: Record): RawRow {
    RawRow(
      CellTextAsWritten(FieldCell(header, record, "date")),
      CellTextAsWritten(FieldCell(header, record, "amount")),
      CellTextAsWritten(FieldCell(header, record, "category")),
      CellTextAsWritten(FieldCell(header, record, "description")))
  }

  /** The expense a record yields, if the row is kept. */
  function ParseRecord(header: seq<string>, record: Record): (r: Option<Expense>)
    ensures r.Some? ==> ValidExpense(r.value)
  {
    BuildExpense(RawFields(header, record))
  }

  /** The expense a record yields as written: a missing cell reads "None",
      and the amount is `_parse_amount` as written. */
  function ParseRecordAsWritten(header: seq<string>, record: Record): (r: Option<Expense>)
    ensures r.Some? ==> CanonicalDate(r.value.date) && r.value.amount >= 0
    ensures r.Some? ==> r.value.category != [] && r.value.description != []
  {
    BuildExpenseAsWritten(RawFieldsAsWritten(header, record))
  }

  /** A canonical field that no header normalises to reads the column
      headed "", and when there is none it reads the empty text. */
  lemma UnmappedFieldIsEmpty(header: seq<string>, record: Record, name: string)
    requires "" !in header
    requires forall i :: 0 <= i < |header| ==> StandardizeColName(header[i]) != name
    ensures FieldCell(header, record, name) == Filled("")
  {
    FieldMapDomain(header, name);
    GetAbsent(header, record, "");
  }

  lemma EmptyAmountRejected()
    ensures ParseAmount("").None?
  {
    StripOfStripped("");
  }

  /** A row with a canonical field that no header backs is rejected. */
  lemma MissingColumnRejects(header: seq<string>, record: Record, name: string)
    requires name in StandardColumns && "" !in header
    requires forall i :: 0 <= i < |header| ==> StandardizeColName(header[i]) != name
    ensures ParseRecord(header, record).None?
  {
    UnmappedFieldIsEmpty(header, record, name);
    var raw := RawFields(header, record);
    if name == "amount" {
      assert raw.amount == "";
      EmptyAmountRejected();
    } else {
      assert raw.date == "" || raw.category == "" || raw.description == "";
      BlankFieldRejects(raw);
    }
  }

  /* ----- Loading ----- */

  /** `ensure_csv_header` on the file contents: an empty file gets the
      standard header. */
  function EnsureHeader(file: seq<Record>): (f: seq<Record>)
    ensures f != []
    ensures file != [] ==> f == file
    ensures file == [] ==> f == [StandardColumns]
  {
    if file == [] then [StandardColumns] else file
  }

  /** What one data record yields: nothing for a blank record, which
      DictReader skips, else its parse. */
  function ParseOf(header: seq<string>, record: Record): (r: Option<Expense>)
    ensures r.Some? ==> ValidExpense(r.value)
  {
    if record == [] then None else ParseRecord(header, record)
  }

  /** `load_expenses`'s reading of a data record under `header`. */
  function Parser(header: seq<string>): Record -> Option<Expense> {
    record => ParseOf(header, record)
  }

  /** What each data record yields. */
  function Parses(parse: Record -> Option<Expense>, records: seq<Record>): (ps: seq<Option<Expense>>)
    ensures |ps| == |records|
    ensures forall i :: 0 <= i < |records| ==> ps[i] == parse(records[i])
  {
    seq(|records|, i requires 0 <= i < |records| => parse(records[i]))
  }

  /** The values of the present entries, in order. */
  function Present(ps: seq<Option<Expense>>): (es: seq<Expense>)
    ensures |es| <= |ps|
  {
    if ps == [] then []
    else
      var n := |ps| - 1;
      Present(ps[..n]) + (if ps[n].Some? then [ps[n].value] else [])
  }

  /** The positions of the present entries, in order. */
  function PresentIndices(ps: seq<Option<Expense>>): (idx: seq<nat>)
    ensures forall k :: 0 <= k < |idx| ==> idx[k] < |ps|
  {
    if ps == [] then []
    else
      var n := |ps| - 1;
      PresentIndices(ps[..n]) + (if ps[n].Some? then [n] else [])
  }

  /** `Present` keeps the value at each present position, in order. */
  lemma {:induction false} PresentAt(ps: seq<Option<Expense>>)
    ensures var es, idx := Present(ps), PresentIndices(ps);
      |es| == |idx| && forall k :: 0 <= k < |idx| ==> ps[idx[k]] == Some(es[k])
  {
    if ps != [] {
      var n := |ps| - 1;
      PresentAt(ps[..n]);
      var idx := PresentIndices(ps[..n]);
      forall k | 0 <= k < |idx|
        ensures ps[..n][idx[k]] == ps[idx[k]]
      {
      }
    }
  }

  /** The present positions are increasing and are exactly the positions
      of the present entries. */
  lemma {:induction false} PresentIndicesExact(ps: seq<Option<Expense>>)
    ensures var idx := PresentIndices(ps);
      && (forall k, l :: 0 <= k < l < |idx| ==> idx[k] < idx[l])
      && (forall i :: 0 <= i < |ps| ==> (i in idx <==> ps[i].Some?))
  {
    if ps != [] {
      var n := |ps| - 1;
      PresentIndicesExact(ps[..n]);
      forall i | 0 <= i < n
        ensures ps[..n][i] == ps[i]
      {
      }
    }
  }

  /** When every entry is present, `Present` gives all their values. */
  lemma {:induction false} PresentAll(ps: seq<Option<Expense>>, es: seq<Expense>)
    requires |ps| == |es| && forall i :: 0 <= i < |ps| ==> ps[i] == Some(es[i])
    ensures Present(ps) == es
  {
    if ps != [] {
      var n := |ps| - 1;
      PresentAll(ps[..n], es[..n]);
      assert es[..n] + [es[n]] == es;
    }
  }

  /** The expenses the data records yield, in file order. */
  function LoadRows(header: seq<string>, records: seq<Record>): (es: seq<Expense>)
    ensures |es| <= |records|
  {
    Present(Parses(Parser(header), records))
  }

  /** When every record parses, the loaded expenses are all the parses. */
  lemma LoadRowsOfParses(header: seq<string>, records: seq<Record>, es: seq<Expense>)
    requires |records| == |es| && forall i :: 0 <= i < |es| ==> Parser(header)(records[i]) == Some(es[i])
    ensures LoadRows(header, records) == es
  {
    PresentAll(Parses(Parser(header), records), es);
  }

  /** A data record `load_expenses` keeps: not blank, and it parses. */
  predicate Kept(header: seq<string>, record: Record) {
    record != [] && ParseRecord(header, record).Some?
  }

  /** The positions of the kept data records, in file order. */
  function KeptIndices(header: seq<string>, records: seq<Record>): (idx: seq<nat>)
    ensures forall k :: 0 <= k < |idx| ==> idx[k] < |records|
  {
    PresentIndices(Parses(Parser(header), records))
  }

  /** `load_expenses` keeps the parses of the kept records and nothing else,
      in file order: its result is a subsequence of the data records, and
      every expense in it is valid. */
  lemma LoadRowsKept(header: seq<string>, records: seq<Record>)
    ensures var es, idx := LoadRows(header, records), KeptIndices(header, records);
      && |es| == |idx|
      && (forall k :: 0 <= k < |idx| ==> records[idx[k]] != [] && ParseRecord(header, records[idx[k]]) == Some(es[k]))
      && (forall k, l :: 0 <= k < l < |idx| ==> idx[k] < idx[l])
      && (forall i :: 0 <= i < |records| ==> (i in idx <==> Kept(header, records[i])))
      && (forall k :: 0 <= k < |es| ==> ValidExpense(es[k]))
  {
    var ps := Parses(Parser(header), records);
    PresentAt(ps);
    PresentIndicesExact(ps);
  }

  /** What `load_expenses` returns for a file: nothing when the header
      record is empty, else the kept data records. */
  function Load(file: seq<Record>): (es: seq<Expense>)
    ensures |es| <= |EnsureHeader(file)| - 1
    ensures EnsureHeader(file)[0] == [] ==> es == []
  {
    var f := EnsureHeader(file);
    if f[0] == [] then [] else LoadRows(f[0], f[1..])
  }

  /** Every expense `load_expenses` returns is valid. */
  lemma LoadValid(file: seq<Record>)
    ensures forall e :: e in Load(file) ==> ValidExpense(e)
  {
    var f := EnsureHeader(file);
    if f[0] != [] {
      LoadRowsKept(f[0], f[1..]);
    }
  }

  /** One more data record adds its parse, if it is kept. */
  lemma LoadRowsAppend(header: seq<string>, records: seq<Record>, r: Record)
    ensures LoadRows(header, records + [r]) ==
      LoadRows(header, records) + (if Kept(header, r) then [ParseRecord(header, r).value] else [])
  {
    var ps := Parses(Parser(header), records + [r]);
    assert ps[..|records|] == Parses(Parser(header), records);
  }

  /** `load_expenses` as written reads a data record: blank records are
      skipped, and the rest are read with "None" for a missing cell and the
      amount test as written. */
  function ParseOfAsWritten(header: seq<string>, record: Record): (r: Option<Expense>)
    ensures r.Some? ==> record != [] && CanonicalDate(r.value.date) && r.value.amount >= 0
  {
    if record == [] then None else ParseRecordAsWritten(header, record)
  }

  function ParserAsWritten(header: seq<string>): Record -> Option<Expense> {
    record => ParseOfAsWritten(header, record)
  }

  /** The expenses `load_expenses` as written keeps from the data records. */
  function LoadRowsAsWritten(header: seq<string>, records: seq<Record>): (es: seq<Expense>)
    ensures |es| <= |records|
  {
    Present(Parses(ParserAsWritten(header), records))
  }

  /** `load_expenses` exactly as written. */
  function LoadAsWritten(file: seq<Record>): (es: seq<Expense>)
    ensures |es| <= |EnsureHeader(file)| - 1
    ensures EnsureHeader(file)[0] == [] ==> es == []
  {
    var f := EnsureHeader(file);
    if f[0] == [] then [] else LoadRowsAsWritten(f[0], f[1..])
  }

  lemma PresentOne(p: Option<Expense>)
    ensures Present([p]) == if p.Some? then [p.value] else []
  {
    assert [p][..0] == [];
  }

  /** A file with one data record loads to that record's parse. */
  lemma LoadSingle(header: seq<string>, record: Record)
    requires header != [] && record != []
    ensures Load([header, record]) ==
      if ParseRecord(header, record).Some? then [ParseRecord(header, record).value] else []
  {
    assert [header, record][1..] == [record];
    var ps := Parses(Parser(header), [record]);
    assert ps == [ParseRecord(header, record)];
    PresentOne(ParseRecord(header, record));
  }

  /** As written, too, a file with one data record loads to that record's parse. */
  lemma LoadSingleAsWritten(header: seq<string>, record: Record)
    requires header != [] && record != []
    ensures LoadAsWritten([header, record]) ==
      if ParseRecordAsWritten(header, record).Some? then [ParseRecordAsWritten(header, record).value] else []
  {
    assert [header, record][1..] == [record];
    var ps := Parses(ParserAsWritten(header), [record]);
    assert ps == [ParseRecordAsWritten(header, record)];
    PresentOne(ParseRecordAsWritten(header, record));
  }

  /** A data record `load_expenses` as written keeps: not blank, and it
      parses as written. */
  predicate KeptAsWritten(header: seq<string>, record: Record) {
    record != [] && ParseRecordAsWritten(header, record).Some?
  }

  /** The positions of the data records kept as written, in file order. */
  function KeptIndicesAsWritten(header: seq<string>, records: seq<Record>): (idx: seq<nat>)
    ensures forall k :: 0 <= k < |idx| ==> idx[k] < |records|
  {
    PresentIndices(Parses(ParserAsWritten(header), records))
  }

  /** As written, too, the loaded expenses are the parses of the kept
      records and nothing else, in file order. */
  lemma LoadRowsKeptAsWritten(header: seq<string>, records: seq<Record>)
    ensures var es, idx := LoadRowsAsWritten(header, records), KeptIndicesAsWritten(header, records);
      && |es| == |idx|
      && (forall k :: 0 <= k < |idx| ==> records[idx[k]] != [] && ParseRecordAsWritten(header, records[idx[k]]) == Some(es[k]))
      && (forall k, l :: 0 <= k < l < |idx| ==> idx[k] < idx[l])
      && (forall i :: 0 <= i < |records| ==> (i in idx <==> KeptAsWritten(header, records[i])))
      && (forall k :: 0 <= k < |es| ==> CanonicalDate(es[k].date) && es[k].amount >= 0)
  {
    var ps := Parses(ParserAsWritten(header), records);
    PresentAt(ps);
    PresentIndicesExact(ps);
  }

  /* ----- Saving ----- */

  /** The record `save_expenses` writes for one expense. */
  function SaveRow(e: Expense): (r: Record)
    ensures |r| == 4
  {
    [e.date, FormatAmount(e.amount), e.category, e.description]
  }

  function SaveRows(es: seq<Expense>): (rs: seq<Record>)
    ensures |rs| == |es|
    ensures forall i :: 0 <= i < |es| ==> rs[i] == SaveRow(es[i])
  {
    if es == [] then [] else SaveRows(es[..|es| - 1]) + [SaveRow(es[|es| - 1])]
  }

  /** The file `save_expenses` writes: the standard header, then one record
      per expense in order. */
  function Save(es: seq<Expense>): (file: seq<Record>)
    ensures |file| == |es| + 1 && file[0] == StandardColumns
    ensures forall i :: 0 <= i < |es| ==> file[i + 1] == SaveRow(es[i])
  {
    var rows := SaveRows(es);
    var file := [StandardColumns] + rows;
    assert forall i :: 0 <= i < |rows| ==> file[i + 1] == rows[i];
    file
  }

  /* ----- Headers that name the four fields ----- */

  /** A header of four distinct columns whose `i`-th column is the one the
      `i`-th canonical field is read from. */
  predicate CanonicalHeader(header: seq<string>) {
    && |header| == 4
    && (forall j, k :: 0 <= j < k < 4 ==> header[j] != header[k])
    && (forall i :: 0 <= i < 4 ==> FieldKey(FieldMap(header), StandardColumns[i]) == header[i])
  }

  /** The cell at position `i` of a record, `None` past its end. */
  function CellAt(record: Record, i: nat): Cell {
    if i < |record| then Filled(record[i]) else Missing
  }

  /** Under a canonical header, the `i`-th field reads the `i`-th cell. */
  lemma CanonicalFieldCell(header: seq<string>, record: Record, i: nat)
    requires CanonicalHeader(header) && i < 4
    ensures FieldCell(header, record, StandardColumns[i]) == CellAt(record, i)
  {
    GetDistinct(header, record, i);
  }

  /** Under a canonical header the raw fields are the record's first four cells. */
  lemma CanonicalRawFields(header: seq<string>, record: Record)
    requires CanonicalHeader(header)
    ensures RawFields(header, record) == RawRow(
      CellText(CellAt(record, 0)), CellText(CellAt(record, 1)), CellText(CellAt(record, 2)), CellText(CellAt(record, 3)))
    ensures RawFieldsAsWritten(header, record) == RawRow(
      CellTextAsWritten(CellAt(record, 0)), CellTextAsWritten(CellAt(record, 1)),
      CellTextAsWritten(CellAt(record, 2)), CellTextAsWritten(CellAt(record, 3)))
  {
    CanonicalFieldCell(header, record, 0);
    CanonicalFieldCell(header, record, 1);
    CanonicalFieldCell(header, record, 2);
    CanonicalFieldCell(header, record, 3);
  }

  /** Two canonical headers read every data record alike. */
  lemma {:induction false} CanonicalHeadersAgree(h1: seq<string>, h2: seq<string>, records: seq<Record>)
    requires CanonicalHeader(h1) && CanonicalHeader(h2)
    ensures LoadRows(h1, records) == LoadRows(h2, records)
  {
    var p1, p2 := Parses(Parser(h1), records), Parses(Parser(h2), records);
    forall i | 0 <= i < |records|
      ensures p1[i] == p2[i]
    {
      CanonicalRawFields(h1, records[i]);
      CanonicalRawFields(h2, records[i]);
    }
    assert p1 == p2;
  }

  /** The finding about short records: under a canonical header, a record
      with only a date and an amount is kept as written, with "None" as its
      category and description, while reading the missing cells as empty
      rejects it. */
  lemma ShortRecordAcceptedAsWritten(header: seq<string>, date: string, amount: string)
    requires CanonicalHeader(header)
    requires ParseDate(date).Some? && ParseAmount(amount).Some?
    ensures ParseRecordAsWritten(header, [date, amount])
      == Some(Expense(ParseDate(date).value, ParseAmount(amount).value, "None", "None"))
    ensures ParseRecord(header, [date, amount]).None?
  {
    CanonicalRawFields(header, [date, amount]);
    assert RawFieldsAsWritten(header, [date, amount]) == RawRow(date, amount, "None", "None");
    assert RawFields(header, [date, amount]).category == "";
    StripOfStripped("None");
  }

  /** The short-record finding at file level: under a canonical header, a
      file whose one data record holds only a date and an amount loads, as
      written, to an expense with "None" for its category and description;
      the corrected reading loads nothing from it. */
  lemma ShortRecordLoadedAsWritten(header: seq<string>, date: string, amount: string)
    requires CanonicalHeader(header)
    requires ParseDate(date).Some? && ParseAmount(amount).Some?
    ensures LoadAsWritten([header, [date, amount]])
      == [Expense(ParseDate(date).value, ParseAmount(amount).value, "None", "None")]
    ensures Load([header, [date, amount]]) == []
  {
    ShortRecordAcceptedAsWritten(header, date, amount);
    LoadSingle(header, [date, amount]);
    LoadSingleAsWritten(header, [date, amount]);
  }

  /** Reading a missing cell as empty text, a record shorter than a
      canonical header is always rejected: its description is blank. */
  lemma ShortRecordRejected(header: seq<string>, record: Record)
    requires CanonicalHeader(header) && |record| < 4
    ensures ParseRecord(header, record).None?
  {
    CanonicalRawFields(header, record);
    assert RawFields(header, record).description == "";
    StripOfStripped("");
  }

  /** A saved valid expense reads back as itself. */
  lemma ParseSavedRow(header: seq<string>, e: Expense)
    requires CanonicalHeader(header) && ValidExpense(e)
    ensures ParseRecord(header, SaveRow(e)) == Some(e)
  {
    CanonicalRawFields(header, SaveRow(e));
    assert RawFields(header, SaveRow(e)) == WrittenRow(e);
    BuildWrittenRow(e);
  }

  /** Each saved record of valid expenses parses back to its expense. */
  lemma SavedRecordsParse(header: seq<string>, es: seq<Expense>)
    requires CanonicalHeader(header)
    requires forall e :: e in es ==> ValidExpense(e)
    ensures forall i :: 0 <= i < |es| ==> Parser(header)(SaveRows(es)[i]) == Some(es[i])
  {
    forall i | 0 <= i < |es|
      ensures Parser(header)(SaveRows(es)[i]) == Some(es[i])
    {
      assert es[i] in es;
      ParseSavedRow(header, es[i]);
    }
  }

  lemma LoadRowsSaved(header: seq<string>, es: seq<Expense>)
    requires CanonicalHeader(header)
    requires forall e :: e in es ==> ValidExpense(e)
    ensures LoadRows(header, SaveRows(es)) == es
  {
    SavedRecordsParse(header, es);
    LoadRowsOfParses(header, SaveRows(es), es);
  }

  /** The canonical names normalise to themselves. */
  lemma NormalisedStandard()
    ensures Normalised(StandardColumns) == StandardColumns
  {
    StandardColumnsFixed();
  }

  /** When the headers normalise to distinct names, each name maps to its own header. */
  lemma FieldKeysOfDistinct(header: seq<string>, names: seq<string>)
    requires Normalised(header) == names
    requires forall j, k :: 0 <= j < k < |names| ==> names[j] != names[k]
    ensures forall i :: 0 <= i < |names| ==> FieldKey(FieldMap(header), names[i]) == header[i]
  {
    forall i | 0 <= i < |names|
      ensures FieldKey(FieldMap(header), names[i]) == header[i]
    {
      DictLast(names, header, |header|, i);
    }
  }

  lemma StandardColumnsDistinct()
    ensures forall j, k :: 0 <= j < k < |StandardColumns| ==> StandardColumns[j] != StandardColumns[k]
  {
  }

  /** Four distinct headers that normalise to the four canonical names, in
      order, make a canonical header. */
  lemma CanonicalOfNormalised(header: seq<string>)
    requires |header| == 4 && forall j, k :: 0 <= j < k < 4 ==> header[j] != header[k]
    requires Normalised(header) == StandardColumns
    ensures CanonicalHeader(header)
  {
    StandardColumnsDistinct();
    FieldKeysOfDistinct(header, StandardColumns);
  }

  lemma StandardHeaderCanonical()
    ensures CanonicalHeader(StandardColumns)
  {
    NormalisedStandard();
    StandardColumnsDistinct();
    CanonicalOfNormalised(StandardColumns);
  }

  /** Records written under any canonical header load back as the expenses
      they were written from. */
  lemma LoadUnderHeader(header: seq<string>, es: seq<Expense>)
    requires CanonicalHeader(header)
    requires forall e :: e in es ==> ValidExpense(e)
    ensures Load([header] + SaveRows(es)) == es
  {
    var f := [header] + SaveRows(es);
    assert f[1..] == SaveRows(es);
    LoadRowsSaved(header, es);
  }

  /** Saving valid expenses and loading the file gives them back. */
  lemma LoadSave(es: seq<Expense>)
    requires forall e :: e in es ==> ValidExpense(e)
    ensures Load(Save(es)) == es
  {
    StandardHeaderCanonical();
    LoadUnderHeader(StandardColumns, es);
  }

  /** The header `add_expense.py` starts a new file with. */
  const CapitalisedHeader: seq<string> := ["Date", "Amount", "Category", "Description"]

  lemma NormalisedOfFour(a: string, b: string, c: string, d: string)
    ensures Normalised([a, b, c, d]) ==
      [StandardizeColName(a), StandardizeColName(b), StandardizeColName(c), StandardizeColName(d)]
  {
  }

  lemma NormalisedCapitalised()
    ensures Normalised(CapitalisedHeader) == StandardColumns
  {
    NormalisedOfFour("Date", "Amount", "Category", "Description");
    CapitalisedDate();
    CapitalisedAmount();
    CapitalisedCategory();
    CapitalisedDescription();
  }

  lemma CapitalisedHeaderCanonical()
    ensures CanonicalHeader(CapitalisedHeader)
  {
    NormalisedCapitalised();
    CanonicalOfNormalised(CapitalisedHeader);
  }

  /** A file that `add_expense.py` started and appended valid expenses to
      loads back as those expenses. */
  lemma LoadCapitalised(es: seq<Expense>)
    requires forall e :: e in es ==> ValidExpense(e)
    ensures Load([CapitalisedHeader] + SaveRows(es)) == es
  {
    CapitalisedHeaderCanonical();
    LoadUnderHeader(CapitalisedHeader, es);
  }

  /** A header of bank-export spellings, which the synonym table maps to
      the four fields in order. */
  const SynonymHeader: seq<string> := ["Txn Date", "Debit", "Type", "Merchant"]

  lemma NormalisedSynonymHeader()
    ensures Normalised(SynonymHeader) == StandardColumns
  {
    NormalisedOfFour("Txn Date", "Debit", "Type", "Merchant");
    TxnDateColumn();
    DebitColumn();
    TypeColumn();
    MerchantColumn();
  }

  lemma SynonymHeaderCanonical()
    ensures CanonicalHeader(SynonymHeader)
  {
    NormalisedSynonymHeader();
    CanonicalOfNormalised(SynonymHeader);
  }

  /** A file headed with synonyms loads exactly like the same records under
      the standard header. */
  lemma LoadSynonymHeader(records: seq<Record>)
    ensures Load([SynonymHeader] + records) == Load([StandardColumns] + records)
  {
    SynonymHeaderCanonical();
    StandardHeaderCanonical();
    CanonicalHeadersAgree(SynonymHeader, StandardColumns, records);
    assert ([SynonymHeader] + records)[1..] == records;
    assert ([StandardColumns] + records)[1..] == records;
  }

  /** As written, the record saved for a valid expense reads back as it. */
  lemma ParseSavedRowAsWritten(header: seq<string>, e: Expense)
    requires CanonicalHeader(header) && ValidExpense(e)
    ensures ParseRecordAsWritten(header, SaveRow(e)) == Some(e)
  {
    FullRecordFields(header, SaveRow(e));
    assert RawFieldsAsWritten(header, SaveRow(e)) == WrittenRow(e);
    BuildWrittenRow(e);
    BuildExpenseAgrees(WrittenRow(e));
  }

  /** As written, too, loading what `save_expenses` wrote for valid
      expenses gives them back. */
  lemma LoadAsWrittenSave(es: seq<Expense>)
    requires forall e :: e in es ==> ValidExpense(e)
    ensures LoadAsWritten(Save(es)) == es
  {
    StandardHeaderCanonical();
    assert Save(es)[1..] == SaveRows(es);
    forall i | 0 <= i < |es|
      ensures ParserAsWritten(StandardColumns)(SaveRows(es)[i]) == Some(es[i])
    {
      assert es[i] in es;
      ParseSavedRowAsWritten(StandardColumns, es[i]);
    }
    PresentAll(Parses(ParserAsWritten(StandardColumns), SaveRows(es)), es);
  }

  /* ----- Clean export ----- */

  /** The file `export_clean_copy` writes for a source file. */
  function Clean(file: seq<Record>): (out: seq<Record>)
    ensures |out| >= 1 && out[0] == StandardColumns
  {
    Save(Load(file))
  }

  /** Cleaning a clean file changes nothing. */
  lemma CleanIdempotent(file: seq<Record>)
    ensures Clean(Clean(file)) == Clean(file)
  {
    LoadValid(file);
    LoadSave(Load(file));
  }

  /** A clean file loads to what its source loaded to. */
  lemma LoadClean(file: seq<Record>)
    ensures Load(Clean(file)) == Load(file)
  {
    LoadValid(file);
    LoadSave(Load(file));
  }

  /** The file `export_clean_copy` as written produces. */
  function CleanAsWritten(file: seq<Record>): (out: seq<Record>)
    ensures |out| >= 1 && out[0] == StandardColumns
  {
    Save(LoadAsWritten(file))
  }

  /** Under a canonical header, the four cells of a full record are its raw fields. */
  lemma FullRecordFields(header: seq<string>, record: Record)
    requires CanonicalHeader(header) && |record| == 4
    ensures RawFields(header, record) == RawRow(record[0], record[1], record[2], record[3])
    ensures RawFieldsAsWritten(header, record) == RawRow(record[0], record[1], record[2], record[3])
  {
    CanonicalRawFields(header, record);
  }

  /** As written, a record with the amount "0.004" is kept as 0 cents; the
      corrected reading rejects it. */
  lemma SubCentRecord(header: seq<string>, date: string, category: string, description: string)
    requires CanonicalHeader(header) && CanonicalDate(date)
    requires category != [] && IsStripped(category) && description != [] && IsStripped(description)
    ensures ParseRecordAsWritten(header, [date, "0.004", category, description])
      == Some(Expense(date, 0, category, description))
    ensures ParseRecord(header, [date, "0.004", category, description]).None?
  {
    FullRecordFields(header, [date, "0.004", category, description]);
    ParseDateOfCanonical(date);
    SubCentExampleAsWritten();
    StripOfStripped(category);
    StripOfStripped(description);
  }

  lemma SaveOne(e: Expense)
    ensures Save([e]) == [StandardColumns, SaveRow(e)]
  {
  }

  /** As written, a file whose one record has the amount "0.004" is cleaned
      to a copy holding "0.00"; the corrected reading loads nothing from it. */
  lemma SubCentLoadedAsZero(header: seq<string>, date: string, category: string, description: string)
    requires CanonicalHeader(header) && CanonicalDate(date)
    requires category != [] && IsStripped(category) && description != [] && IsStripped(description)
    ensures Load([header, [date, "0.004", category, description]]) == []
    ensures CleanAsWritten([header, [date, "0.004", category, description]])
      == [StandardColumns, [date, "0.00", category, description]]
  {
    var record := [date, "0.004", category, description];
    var e := Expense(date, 0, category, description);
    SubCentRecord(header, date, category, description);
    LoadSingle(header, record);
    LoadSingleAsWritten(header, record);
    assert LoadAsWritten([header, record]) == [e];
    SaveOne(e);
    ZeroCentsFormat();
  }

  /** As written, a saved record with the amount "0.00" is dropped on reload. */
  lemma ZeroCentRecordDropped(date: string, category: string, description: string)
    ensures LoadAsWritten([StandardColumns, [date, "0.00", category, description]]) == []
  {
    var record := [date, "0.00", category, description];
    StandardHeaderCanonical();
    FullRecordFields(StandardColumns, record);
    ZeroCentsRejected();
    LoadSingleAsWritten(StandardColumns, record);
  }

  /** The sub-cent finding at file level: as written, `export_clean_copy` is
      not idempotent. Cleaning a file whose one record has the amount
      "0.004" keeps it as "0.00", and cleaning that copy again drops it. */
  lemma CleanAsWrittenNotIdempotent(header: seq<string>, date: string, category: string, description: string)
    requires CanonicalHeader(header) && CanonicalDate(date)
    requires category != [] && IsStripped(category) && description != [] && IsStripped(description)
    ensures var file := [header, [date, "0.004", category, description]];
      CleanAsWritten(CleanAsWritten(file)) == [StandardColumns] != CleanAsWritten(file)
  {
    SubCentLoadedAsZero(header, date, category, description);
    ZeroCentRecordDropped(date, category, description);
    assert SaveRows([]) == [];
  }
}
