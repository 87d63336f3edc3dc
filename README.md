# finance_tracker ingestion core in Dafny

This project models the CSV ingestion pipeline of `src/utils.py` in the
finance_tracker repository. The pipeline has five parts:

- **Column normaliser** (`_standardize_col_name`). It strips and lower-cases a
  header, then looks it up in a fixed synonym table.
- **Date parser** (`_parse_date`). It tries `%Y-%m-%d`, `%d/%m/%Y` and
  `%m/%d/%Y` in that order, then `datetime.fromisoformat` with every `Z`
  removed. It always writes the result as `YYYY-MM-DD`.
- **Amount parser** (`_parse_amount`). It strips the text, removes `$` and `,`,
  reads a number, rejects values that are not positive, and rounds to cents.
- **Loader** (`load_expenses`). It ensures the file has a header, builds the
  last-write-wins map from canonical field name to original header, and keeps
  a data row only when all four fields parse.
- **Saver and clean export** (`save_expenses`, `export_clean_copy`). The saver
  writes the standard header and one row per expense. The clean export is
  save after load.

Modules, one file each:

- `Wrappers`: `Option`.
- `Text`: `str.strip` over Python's whitespace set, ASCII `lower`,
  `replace(c, "")` and splitting at a character.
- `Digits`: reading and writing decimal digit strings.
- `Columns`: `STANDARD_COLUMNS`, the synonym table and the normaliser.
- `Dates`: `strptime` with the field rules of `%Y`, `%m` and `%d`, the
  first-match search, the ISO fallback and `strftime("%Y-%m-%d")`.
- `Amounts`: the number grammar, rounding to cents, `_parse_amount` and `:.2f`.
- `Expenses`: the `Expense` record, its validity predicate and the row validator.
- `Store`: the pure specification of the file side.
  - A file is the sequence of its records, the header first.
  - The row dictionary is built the way `csv.DictReader` builds it: `dict(zip(header, record))`, with `None` for the headers a short record lacks.
  - The functions `Load`, `Save` and `Clean` are defined here.
- `Files`: the imperative operations.
  - `CsvFile` is a class whose `records` field the operations overwrite.
  - `CleanRows` runs the row loop with `continue` on rejection, and `LoadExpenses` calls it.
  - `CsvFile.Write` appends one record per expense.
  - `ExportCleanCopy` composes the two.
  - Each method is proved against the `Store` function it implements.

Amounts are whole cents (`int`). The text of an amount is read as an exact
decimal, so `float` and binary rounding do not enter the model.

Two behaviours of the code as written are recorded under "## Findings", and
the model states both the code as written and the corrected reading:

- `_parse_amount` tests `amt <= 0` (src/utils.py:82) before it rounds
  (line 84). The test shows that accepted amounts are meant to be positive.
  Still, a positive amount below half a cent passes the test and comes back
  as 0.00. `ParseAmountAsWritten` follows the code. `ParseAmount` also
  rejects an amount that rounds to zero.
- `load_expenses` reads a cell that a short record lacks as `None`
  (lines 104-107), and `str(None)` is the non-empty text `"None"`
  (lines 111-112). So the row is kept, although the docstring (line 90)
  says bad rows are skipped. `RawFieldsAsWritten` follows the code.
  `RawFields` reads a missing cell as empty text, which rejects the row.

`LoadAsWritten` and `CleanAsWritten` put the as-written readings together.
`Load`, `Clean` and the methods of `Files` put the corrected readings
together. `BuildExpenseAgrees` shows that, given the same four texts, the
two readings differ only on an amount that rounds to zero cents. Over a
whole record they also differ on a record shorter than its header: the
corrected reading rejects it, and the code as written keeps it with `"None"`
texts (`ShortRecordLoadedAsWritten`).

The ISO fallback is given the text with every `Z` removed, wherever it
occurs, because line 69 calls `v.replace("Z", "")`.

## Model

| member | source | states |
|---|---|---|
| Columns.StandardizeColName | src/utils.py:31-54 | A header whose stripped, lower-cased text is in the synonym table becomes that synonym's own canonical name. Any other header comes back stripped and lower-cased, and is then not a canonical name. The result is always stripped and free of upper-case letters. |
| Columns.SynonymTable | src/utils.py:34-53 | Every synonym maps to one of the four canonical names, and each canonical name maps to itself. |
| Columns.StandardizeIdempotent | src/utils.py:31-54 | Normalising a normalised header changes nothing. |
| Columns.StandardizeIgnoresCase | src/utils.py:33 | Two headers that agree once lower-cased normalise to the same name. |
| Columns.StandardizeIgnoresPadding | src/utils.py:33 | Whitespace on either side of a header does not change its normalised name. |
| Columns.UnknownHeaderPassesThrough | src/utils.py:54 | A header that is not a synonym comes back stripped and lower-cased. |
| Columns.StandardColumnsFixed | src/utils.py:11 | Each of `STANDARD_COLUMNS` normalises to itself. |
| Columns.SynonymLookup | src/utils.py:33-54 | A header that lower-cases to a synonym normalises to the canonical name that the table gives for that synonym. |
| Columns.TxnDateColumn | src/utils.py:37 | `"Txn Date"` normalises to `"date"`. |
| Columns.DebitColumn | src/utils.py:42 | `"Debit"` normalises to `"amount"`. |
| Columns.TypeColumn | src/utils.py:45 | `"Type"` normalises to `"category"`. |
| Columns.MerchantColumn | src/utils.py:49 | `"Merchant"` normalises to `"description"`. |
| Text.Strip | src/utils.py:33 | `strip()` returns text with no whitespace at either end, no longer than its input. |
| Text.StripIgnoresPadding | src/utils.py:58 | Whitespace added around a text does not change its strip. |
| Text.Lower | src/utils.py:33 | `lower()` keeps the length and lower-cases each character. |
| Text.RemoveAll | src/utils.py:75 | `replace(c, "")` leaves no `c`. Any other character is in the result exactly when it is in the input. |
| Text.RemoveAllOne | src/utils.py:75 | On a single character, `replace(c, "")` deletes it exactly when it is `c`. |
| Text.RemoveAllAppend | src/utils.py:75 | `replace(c, "")` distributes over concatenation. With `RemoveAllOne`, this means it keeps every other character in its original order. |
| Dates.FormatDate | src/utils.py:64 | `strftime("%Y-%m-%d")` writes every valid date in canonical form, and that text names the same date. |
| Dates.FormatDateOfCanonical | src/utils.py:64 | A canonical date text is exactly what `strftime` writes for the date it names. |
| Dates.TokenValue | src/utils.py:64 | A field matching `%m` names a month from 1 to 12, and one matching `%d` names a day from 1 to 31. The value is the decimal value of the field's one or two digits. A leading space, which `%d` allows, is ignored. |
| Dates.FieldsDate | src/utils.py:64 | Every date returned is a valid calendar date. |
| Dates.Strptime | src/utils.py:64 | Every date `strptime` returns is a valid calendar date. |
| Dates.StrptimeCanonical | src/utils.py:62-64 | `%Y-%m-%d` reads a canonical date text as the date it names. |
| Dates.StrptimeDayFirst | src/utils.py:62-64 | `%d/%m/%Y` reads any valid date written day first, zero-padded, as that date. |
| Dates.StrptimeMonthFirst | src/utils.py:62-64 | `%m/%d/%Y` reads any valid date written month first, zero-padded, as that date. |
| Dates.FirstMatchWins | src/utils.py:62-66 | In the loop over the formats (`FirstMatch`), the first format that succeeds gives the result, whatever the later formats would give. |
| Dates.FirstMatchNone | src/utils.py:62-66 | When no format succeeds, the search gives no date. |
| Dates.IsoFallback | src/utils.py:68-71 | A date the ISO fallback returns is the date named by the first ten characters of its text, which have the `YYYY-MM-DD` shape. That date is a valid calendar date. |
| Dates.IsoFallbackWithTime | src/utils.py:68-69 | A canonical date followed by `T` or a space and a valid `HH:MM` or `HH:MM:SS` time gives the date. |
| Dates.ReadDateByFormats | src/utils.py:62-69 | In `ReadDate`, the ISO fallback is consulted only when none of the three formats fits. |
| Dates.ParseDate | src/utils.py:57-71 | Empty or blank input gives no value. Every value returned is a canonical `YYYY-MM-DD` text naming a real day. |
| Dates.ParseDateOfCanonical | src/utils.py:57-71 | A canonical date text is returned unchanged. |
| Dates.ParseDateIdempotent | src/utils.py:57-71 | Parsing the parser's own output gives the same output. |
| Dates.ParseDateWithTime | src/utils.py:57-71 | A canonical date followed by `T` and a time gives the canonical date. `%Y-%m-%d` fails on it, the two slash formats find no slash, and the ISO fallback keeps the date. |
| Dates.InvalidShapeRejected | src/utils.py:57-71 | Text of the `YYYY-MM-DD` shape whose fields name no calendar day gives no value. |
| Dates.DayBeforeMonth | src/utils.py:62-66 | `"03/04/2024"` is read day first and gives `"2024-04-03"`. |
| Dates.InvalidCalendarDate | src/utils.py:57-71 | `"2024-13-40"` gives no value under any format or the ISO fallback. |
| Amounts.Cleaned | src/utils.py:75 | The text handed to `float` has no `$` and no `,`. Every other character of the stripped input is in it, and it is no longer than the stripped input. |
| Amounts.CleanedPlain | src/utils.py:75 | A stripped text without `$` or `,` is handed to `float` unchanged. |
| Amounts.RoundToCents | src/utils.py:84 | `round(amt, 2)` gives the cent nearest to the amount. |
| Amounts.ParseAmountAsWritten | src/utils.py:74-84 | As written, there is no value for text that is empty after cleaning or is no number. There is a value exactly when the cleaned text is a positive number, and it is then the cent nearest to that number. That cent is never negative, but it may be 0 (see Finding 1). |
| Amounts.ParseAmount | src/utils.py:74-84 | There is no value for text that is empty after cleaning, text that is no number, or a number that is not positive. A positive number whose nearest cent is positive gives that cent. Every value is positive, and equals what the code as written returns. |
| Amounts.DollarsAndCommas | src/utils.py:75-84 | `"$1,234.5"` gives 1234.50 (123450 cents). |
| Amounts.NegativeRejected | src/utils.py:82-83 | `"-5"` gives no value. |
| Amounts.ZeroRejected | src/utils.py:82-83 | `"0"` gives no value. |
| Amounts.ParseNumberOfFormat | src/utils.py:129 | The `:.2f` text of a cent amount reads back as exactly that many hundredths. |
| Amounts.ParseNumber | src/utils.py:79 | `float` reads a number exactly when the stripped text is an optional `+` or `-`, then digits with at most one decimal point and at least one digit (`IsFloatText`). So blank text is no number. A number it reads is negative exactly when the stripped text starts with `-`. |
| Amounts.ReadNumber | src/utils.py:79 | Text without surrounding whitespace is read as a number exactly when it has the `IsFloatText` shape. |
| Amounts.ParseNumberOfInteger | src/utils.py:79 | A whole number with an optional sign reads as the value of its digits, negative exactly when the sign is `-`. |
| Amounts.ParseNumberOfSignedDecimal | src/utils.py:79 | A number with an optional sign and one decimal point reads as its digits over a power of ten. Either side of the point may be empty, but not both. |
| Amounts.ParseAmountOfInteger | src/utils.py:74-84 | A positive whole number written in digits alone gives that many dollars, in cents. |
| Amounts.ForeignCharacterRejected | src/utils.py:74-81 | An amount holding an ASCII character that `float` never accepts gives no value, as written and corrected. Those are all but whitespace, digits, signs, the decimal point, `$`, `,`, `_` and the letters of `inf`, `infinity`, `nan` and an exponent. |
| Amounts.LettersRejected | src/utils.py:78-81 | `"12abc"` and `"12 USD"` give no value. |
| Amounts.WholeAmount | src/utils.py:74-84 | `"45"` gives 45.00 (4500 cents). |
| Text.StripKeepsNonSpace | src/utils.py:75 | `strip()` keeps every character that is not whitespace. |
| Amounts.ParseNumberIgnoresPadding | src/utils.py:79 | Whitespace around a number does not change what `float` reads. |
| Amounts.FormatAmount | src/utils.py:129 | `:.2f` of a non-negative cent amount reads back as exactly that many hundredths. A negative amount is written with a leading `-`. |
| Amounts.ParseFormatAmount | src/utils.py:129 | A positive amount written with `:.2f` parses back to itself. |
| Amounts.SubCentAmountAcceptedAsZero | src/utils.py:82-84 | As written, `"0.004"` is accepted as 0 cents. That is written `"0.00"`, which is then rejected. The corrected parser rejects `"0.004"`. |
| Expenses.BuildExpense | src/utils.py:104-117 | A row is accepted exactly when the date parses, the amount parses, and the stripped category and description are non-empty. An accepted expense is valid and carries those parsed and stripped values. |
| Expenses.BuildExpenseAsWritten | src/utils.py:104-117 | As written, a row is accepted exactly when the date parses, the amount passes `_parse_amount` as written, and the stripped category and description are non-empty. The amount is then never negative. |
| Expenses.BuildExpenseAgrees | src/utils.py:82-117 | Every row the corrected reading accepts is accepted alike as written. The two readings differ only when the amount rounds to zero cents. |
| Expenses.BuildWrittenRow | src/utils.py:129 | A valid expense, written as a row of texts, is accepted as the same expense. |
| Store.DictLast | src/utils.py:100 | In a dictionary built from pairs, a key that no later pair repeats holds its own value. |
| Store.FieldMapDomain | src/utils.py:100 | A canonical name is in the header map (`FieldMap`) exactly when some header normalises to it, and it maps to such a header. |
| Store.FieldMapLastWins | src/utils.py:100 | A canonical name maps to the last header that normalises to it. |
| Store.FillMissingSpec | src/utils.py:95-103 | In the row dictionary (`RowDict`), the headers a short record lacks read `None`, and every other key keeps its cell. |
| Store.GetDistinct | src/utils.py:101-107 | Under a header with no repeated column, the `i`-th header reads the `i`-th cell of the row dictionary (`RowDict`), or `None` when the record is too short. |
| Store.GetAbsent | src/utils.py:102-105 | A key that is not in the header row reads as the empty text. |
| Store.UnmappedFieldIsEmpty | src/utils.py:102-105 | Under a header with no column named by the empty text, a canonical field with no header normalising to it reads as the empty text. |
| Store.MissingColumnRejects | src/utils.py:102-114 | Under a header with no column named by the empty text, a row is rejected when one of its canonical fields has no backing column. |
| Store.ParseRecord | src/utils.py:102-117 | Every expense a record yields is valid. |
| Store.ParseRecordAsWritten | src/utils.py:102-117 | As written, every expense a record yields has a canonical date, an amount that is not negative, and a non-empty category and description. These may be the text `"None"`. |
| Store.EnsureHeader | src/utils.py:22-28 | An empty file gets the standard header as its only record. Any other file is unchanged. |
| Store.LoadRowsKept | src/utils.py:99-117 | The expenses `LoadRows` loads are the parses of the kept records, in file order, so they form a subsequence of the data records. A record is kept exactly when it is not blank and parses. Every loaded expense is valid. |
| Store.LoadRowsKeptAsWritten | src/utils.py:99-117 | As written, the expenses `LoadRowsAsWritten` loads are the parses of the kept records, in file order. A record is kept exactly when it is not blank and parses as written. Every expense has a canonical date and an amount that is not negative. |
| Store.LoadRowsAppend | src/utils.py:99-117 | One more data record adds its parse at the end when it is kept, and nothing when it is not. |
| Store.Load | src/utils.py:87-119 | No more expenses than data records. An empty header record gives no expenses. |
| Store.LoadAsWritten | src/utils.py:87-119 | As written, there are no more expenses than data records, and an empty header record gives no expenses. |
| Store.LoadSingle | src/utils.py:99-117 | A file with one data record loads to that record's parse. |
| Store.LoadSingleAsWritten | src/utils.py:99-117 | As written, a file with one data record loads to that record's parse. |
| Store.LoadValid | src/utils.py:87-119 | Every expense `load_expenses` returns is valid. |
| Store.SaveRows | src/utils.py:127-129 | One record per expense, in order, each being `SaveRow` of it: `[date, amount:.2f, category, description]`. |
| Store.Save | src/utils.py:122-129 | The standard header comes first, then the record of each expense, in input order. |
| Store.CanonicalHeadersAgree | src/utils.py:100-107 | Two headers that each name the four fields in canonical order read every record alike. |
| Store.ShortRecordAcceptedAsWritten | src/utils.py:101-111 | As written, a record holding only a date and an amount is kept, with `"None"` as its category and description. The corrected reading rejects it. |
| Store.ShortRecordRejected | src/utils.py:101-111 | Reading a missing cell as empty text, a record with fewer cells than a canonical header is always rejected. |
| Store.ShortRecordLoadedAsWritten | src/utils.py:87-119 | As written, a file whose one data record holds only a date and an amount loads to an expense with `"None"` as its category and description. The corrected load gives nothing. |
| Store.StandardHeaderCanonical | src/utils.py:11 | `STANDARD_COLUMNS` is a header that names the four fields in order. |
| Store.LoadUnderHeader | src/utils.py:99-129 | Records written for valid expenses load back as those expenses under any such header. |
| Store.LoadSave | src/utils.py:87-129 | For valid expenses, loading what `save_expenses` wrote gives them back. |
| Store.ParseSavedRowAsWritten | src/utils.py:104-129 | As written, the record saved for a valid expense reads back as that expense. |
| Store.LoadAsWrittenSave | src/utils.py:87-129 | As written, too, loading what `save_expenses` wrote for valid expenses gives them back. |
| Store.CapitalisedHeaderCanonical | src/add_expense.py:50 | The capitalised header that `add_expense.py` writes normalises to the four fields in order. |
| Store.LoadCapitalised | src/add_expense.py:50-57 | A file begun with that header and filled with `:.2f` rows of valid expenses loads back as those expenses. |
| Store.SynonymHeaderCanonical | src/utils.py:35-52 | The header `Txn Date,Debit,Type,Merchant` maps the four fields to its four columns in order. |
| Store.LoadSynonymHeader | src/utils.py:87-119 | A file with that header loads exactly like the same records under the standard header. |
| Store.Clean | src/utils.py:132-139 | The clean copy starts with the standard header. |
| Store.CleanIdempotent | src/utils.py:132-139 | Cleaning a clean copy changes nothing. |
| Store.LoadClean | src/utils.py:132-139 | The clean copy loads to what its source loaded to. |
| Store.CleanAsWritten | src/utils.py:132-139 | As written, the clean copy starts with the standard header. |
| Store.SubCentRecord | src/utils.py:82-117 | As written, a record with the amount `"0.004"` is kept as 0 cents. The corrected reading rejects it. |
| Store.SubCentLoadedAsZero | src/utils.py:122-139 | As written, the clean copy of such a file holds the record with `"0.00"`. The corrected load gives nothing. |
| Store.ZeroCentRecordDropped | src/utils.py:87-119 | As written, a saved record with the amount `"0.00"` is dropped on reload. |
| Store.CleanAsWrittenNotIdempotent | src/utils.py:132-139 | As written, `export_clean_copy` is not idempotent. Cleaning a file with a `"0.004"` record keeps the record, and cleaning the copy drops it. |
| Files.CsvFile.EnsureCsvHeader | src/utils.py:22-28 | The file afterwards is `EnsureHeader` of the file before. |
| Files.CsvFile.Write | src/utils.py:122-129 | After writing, the file holds exactly `Save(expenses)`. |
| Files.CleanRows | src/utils.py:99-117 | The loop keeps exactly `LoadRows(header, rows)`. Every kept expense is valid. |
| Files.LoadExpenses | src/utils.py:87-119 | The result is `Load` of the file as it was. The file gains the standard header only if it was empty. |
| Files.SaveExpenses | src/utils.py:122-129 | The file holds exactly `Save(expenses)`. |
| Files.ExportCleanCopy | src/utils.py:132-139 | The target holds `Clean` of the source as it was. A distinct source only gains its header if it was empty. |

## Left out

- File-system I/O: `mkdir`, `open`, `stat().st_size`, encodings and newlines. A file is the sequence of its records. An empty sequence stands for both a missing file and a zero-byte file.
- The `csv` module's tokenising and quoting: records are taken as already split into cells.
- Cells of a record beyond its header: `csv.DictReader` puts them under the key `None`, which no text lookup reaches. The model drops them.
- `Store.Load`: it implements the corrected reading of Findings 1 and 2, not the code as written. `Store.LoadAsWritten` is the code as written.
- `Store.Clean`: it implements the corrected reading of Findings 1 and 2. `Store.CleanAsWritten` is the code as written.
- `Store.ParseRecord`: it implements the corrected reading of Findings 1 and 2. `Store.ParseRecordAsWritten` is the code as written.
- `Expenses.BuildExpense`: it uses the corrected `ParseAmount` of Finding 1. `Expenses.BuildExpenseAsWritten` is the code as written.
- `Files.CleanRows`: it implements the corrected reading of Findings 1 and 2. The imperative loop is proved against `Store.LoadRows`, not against the as-written reading.
- `Files.LoadExpenses`: it implements the corrected reading of Findings 1 and 2, through `Files.CleanRows`.
- `Files.ExportCleanCopy`: it implements the corrected reading of Findings 1 and 2, through `Files.LoadExpenses`. It does not model the returned target path or the default target `expenses_clean.csv`.
- `Amounts.ParseNumber`: its grammar (`IsFloatText`) is an optional sign, ASCII digits and at most one decimal point, with at least one digit. Every other text is no number here. The model does not cover `float`'s exponents, `inf`, `nan`, underscores or non-ASCII digits.
- `Amounts.RoundToCents`: it rounds the exact decimal to the nearest cent, with ties going up. `round()` on a binary float can differ on ties, and on values that are not exact in binary.
- `Expense.amount`: it is whole cents, where the source holds a float in dollars.
- `Dates.FieldsDate` and `Dates.Strptime`: their own contracts state only that a date returned is valid. What they read is stated by `Dates.StrptimeCanonical`, `Dates.StrptimeDayFirst`, `Dates.StrptimeMonthFirst`, `Dates.InvalidShapeRejected` and `Dates.ParseDateWithTime`.
- `Dates.IsoFallback`: it accepts only `YYYY-MM-DD`, optionally followed by `T` or a space and `HH:MM` or `HH:MM:SS`. The full grammar of `datetime.fromisoformat` (fractions of a second, UTC offsets, week dates and the rest) is not modelled.
- `Dates.IsYearToken` and `Dates.IsDayToken`: they accept ASCII digits only. `%Y` (`\d\d\d\d`) and the `[12]\d` branch of `%d` also accept other Unicode decimal digits. `%m` has no `\d` and is modelled exactly.
- `Dates.FormatDate`: it pads years below 1000 to four digits. The platform `strftime` may write such years unpadded.
- `Text.Lower`: it lower-cases ASCII letters only. No synonym contains another letter, so only unknown headers with non-ASCII letters would come back differently.
- `src/add_expense.py`: the interactive prompts and the append writer are left out. Only its header row (line 50) and row layout (line 57) appear, in `Store.LoadCapitalised`.
- `PROJECT_ROOT` and `DEFAULT_DATA_FILE`: the path constants are left out.
- `(value or "")` in `_parse_date` and `_parse_amount`: the loader always passes a `str`, so a `None` argument is not modelled.

## Findings

| source | as written | input that shows it | evidently intended | confidence | as-written member | corrected member |
|---|---|---|---|---|---|---|
| src/utils.py:82-84 | The sign test `amt <= 0` runs before `round(amt, 2)`, so a positive amount below half a cent is accepted as 0.00. `save_expenses` writes it as `"0.00"`, and the next load rejects it, so `export_clean_copy` is not idempotent on such a file. | `_parse_amount("0.004")` | Accepted amounts are strictly positive once rounded (`Amounts.ParseAmount`), and every saved expense reads back, so cleaning is idempotent. | not executed | Store.CleanAsWrittenNotIdempotent | Store.CleanIdempotent |
| src/utils.py:101-111 | `csv.DictReader` fills the headers a short record lacks with `None`. `row.get(key, "")` returns that `None`, and `str(None)` is the text `"None"`, which passes the non-empty test for category and description. | A header `date,amount,category,description` and the record `2024-01-05,12.50` | A missing cell reads as empty text, and the row is rejected. | not executed | Store.ShortRecordLoadedAsWritten | Store.ShortRecordRejected |
