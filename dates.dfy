/**
 * `_parse_date`: tries `%Y-%m-%d`, `%d/%m/%Y` and `%m/%d/%Y` with
 * `datetime.strptime`, in that order, then `datetime.fromisoformat` on the
 * text with every `Z` removed, and re-emits the date as `YYYY-MM-DD`.
 */
module Dates {
  import opened Wrappers
  import opened Text
  import opened Digits

  datatype Date = Date(year: int, month: int, day: int)

  predicate IsLeapYear(y: int) {
    y % 4 == 0 && (y % 100 != 0 || y % 400 == 0)
  }

  function DaysInMonth(y: int, m: int): (n: int)
    requires 1 <= m <= 12
    ensures 28 <= n <= 31
    ensures n == 29 <==> m == 2 && IsLeapYear(y)
  {
    if m == 2 then (if IsLeapYear(y) then 29 else 28)
    else if m == 4 || m == 6 || m == 9 || m == 11 then 30
    else 31
  }

  /** What Python's `date` constructor accepts: years 1 to 9999 and a day
      that exists in its month. */
  predicate ValidDate(d: Date) {
    && 1 <= d.year <= 9999
    && 1 <= d.month <= 12
    && 1 <= d.day <= DaysInMonth(d.year, d.month)
  }

  /** Text laid out as `DDDD-DD-DD` with ASCII digits. */
  predicate IsDateShape(s: string) {
    && |s| == 10 && s[4] == '-' && s[7] == '-'
    && AllDigits(s[..4]) && AllDigits(s[5..7]) && AllDigits(s[8..])
  }

  function DateOf(s: string): Date
    requires IsDateShape(s)
  {
    Date(DigitsValue(s[..4]), DigitsValue(s[5..7]), DigitsValue(s[8..]))
  }

  /** The canonical form: `YYYY-MM-DD` naming a real calendar day. */
  predicate CanonicalDate(s: string) {
    IsDateShape(s) && ValidDate(DateOf(s))
  }

  /** `strftime("%Y-%m-%d")`: every valid date is written in canonical form,
      and reads back as itself. */
  function FormatDate(d: Date): (s: string)
    requires ValidDate(d)
    ensures CanonicalDate(s) && DateOf(s) == d
  {
    var s := PadDigits(d.year, 4) + "-" + PadDigits(d.month, 2) + "-" + PadDigits(d.day, 2);
    assert s[..4] == PadDigits(d.year, 4);
    assert s[5..7] == PadDigits(d.month, 2);
    assert s[8..] == PadDigits(d.day, 2);
    s
  }

  /** A canonical date string is exactly what `FormatDate` writes for its date. */
  lemma FormatDateOfCanonical(s: string)
    requires CanonicalDate(s)
    ensures FormatDate(DateOf(s)) == s
  {
    PadDigitsOfValue(s[..4]);
    PadDigitsOfValue(s[5..7]);
    PadDigitsOfValue(s[8..]);
    assert s == s[..4] + "-" + s[5..7] + "-" + s[8..];
  }

  /** The three layouts `strptime` is given, in the order they are tried. */
  datatype Format = YearMonthDay | DayMonthYear | MonthDayYear

  const Formats: seq<Format> := [YearMonthDay, DayMonthYear, MonthDayYear]

  /** What `%Y` matches: exactly four digits. */
  predicate IsYearToken(t: string) {
    |t| == 4 && AllDigits(t)
  }

  /** What `%m` matches as a whole field: `1[0-2]`, `0[1-9]` or `[1-9]`. */
  predicate IsMonthToken(t: string) {
    || (|t| == 1 && '1' <= t[0] <= '9')
    || (|t| == 2 && t[0] == '0' && '1' <= t[1] <= '9')
    || (|t| == 2 && t[0] == '1' && '0' <= t[1] <= '2')
  }

  /** What `%d` matches as a whole field: `3[01]`, `[12]\d`, `0[1-9]`,
      `[1-9]` or a space followed by `[1-9]`. */
  predicate IsDayToken(t: string) {
    || (|t| == 1 && '1' <= t[0] <= '9')
    || (|t| == 2 && t[0] == '0' && '1' <= t[1] <= '9')
    || (|t| == 2 && '1' <= t[0] <= '2' && IsDigit(t[1]))
    || (|t| == 2 && t[0] == '3' && '0' <= t[1] <= '1')
    || (|t| == 2 && t[0] == ' ' && '1' <= t[1] <= '9')
  }

  /** The number a month or day field denotes: the decimal value of its
      digits, one or two of them, a leading space ignored. */
  function TokenValue(t: string): (n: nat)
    requires IsMonthToken(t) || IsDayToken(t)
    ensures IsMonthToken(t) ==> 1 <= n <= 12
    ensures IsDayToken(t) ==> 1 <= n <= 31
    ensures AllDigits(t) ==> n == DigitsValue(t)
    ensures t[0] == ' ' ==> AllDigits(t[1..]) && n == DigitsValue(t[1..])
  {
    if |t| == 1 then DigitsValueShort(t); CharValue(t[0])
    else if t[0] == ' ' then DigitsValueShort(t[1..]); CharValue(t[1])
    else DigitsValueShort(t); CharValue(t[0]) * 10 + CharValue(t[1])
  }

  /** The character between the fields of a layout. */
  function Separator(fmt: Format): char {
    if fmt == YearMonthDay then '-' else '/'
  }

  /** The date three fields name under a layout, when each field matches its
      directive completely and the date exists. */
  function FieldsDate(fmt: Format, parts: seq<string>): (r: Option<Date>)
    requires |parts| == 3
    ensures r.Some? ==> ValidDate(r.value)
  {
    var (y, m, d) :=
      match fmt
      case YearMonthDay => (parts[0], parts[1], parts[2])
      case DayMonthYear => (parts[2], parts[1], parts[0])
      case MonthDayYear => (parts[2], parts[0], parts[1]);
    if IsYearToken(y) && IsMonthToken(m) && IsDayToken(d) then
      var date := Date(DigitsValue(y), TokenValue(m), TokenValue(d));
      if ValidDate(date) then Some(date) else None
    else None
  }

  /** `datetime.strptime(v, fmt)`: the text must split into exactly three
      fields at the layout's separator. */
  function Strptime(fmt: Format, v: string): (r: Option<Date>)
    ensures r.Some? ==> ValidDate(r.value)
  {
    var parts := SplitOn(v, Separator(fmt));
    if |parts| != 3 then None else FieldsDate(fmt, parts)
  }

  /** The first format in `fmts` that `v` matches. */
  function FirstMatch(fmts: seq<Format>, v: string): (r: Option<Date>)
    ensures r.Some? ==> ValidDate(r.value)
  {
    if fmts == [] then None
    else
      var r := Strptime(fmts[0], v);
      if r.Some? then r else FirstMatch(fmts[1..], v)
  }

  /** The first success wins: a format is used exactly when every format
      before it failed, and no format at all means no value. */
  lemma {:induction false} FirstMatchWins(fmts: seq<Format>, v: string, i: nat)
    requires i < |fmts| && Strptime(fmts[i], v).Some?
    requires forall j :: 0 <= j < i ==> Strptime(fmts[j], v).None?
    ensures FirstMatch(fmts, v) == Strptime(fmts[i], v)
  {
    if i > 0 {
      FirstMatchWins(fmts[1..], v, i - 1);
    }
  }

  lemma {:induction false} FirstMatchNone(fmts: seq<Format>, v: string)
    requires forall j :: 0 <= j < |fmts| ==> Strptime(fmts[j], v).None?
    ensures FirstMatch(fmts, v).None?
  {
    if fmts != [] {
      FirstMatchNone(fmts[1..], v);
    }
  }

  /** `HH:MM` or `HH:MM:SS` naming a real time of day. */
  predicate IsIsoTime(t: string) {
    && (|t| == 5 || (|t| == 8 && t[5] == ':' && AllDigits(t[6..8]) && DigitsValue(t[6..8]) <= 59))
    && t[2] == ':' && AllDigits(t[..2]) && AllDigits(t[3..5])
    && DigitsValue(t[..2]) <= 23 && DigitsValue(t[3..5]) <= 59
  }

  /** `datetime.fromisoformat(w)`, for `YYYY-MM-DD` optionally followed by
      `T` or a space and a time of day; only the date part is kept. */
  function IsoFallback(w: string): (r: Option<Date>)
    ensures r.Some? ==> |w| >= 10 && IsDateShape(w[..10]) && r.value == DateOf(w[..10])
    ensures r.Some? ==> ValidDate(r.value)
  {
    if |w| < 10 || !IsDateShape(w[..10]) then None
    else
      var rest := w[10..];
      var date := DateOf(w[..10]);
      if ValidDate(date) && (rest == [] || ((rest[0] == 'T' || rest[0] == ' ') && IsIsoTime(rest[1..])))
      then Some(date)
      else None
  }

  /** The date a stripped, non-empty text names: the first layout that
      fits, else the ISO fallback on the text with every `Z` removed. */
  function ReadDate(v: string): (r: Option<Date>)
    ensures r.Some? ==> ValidDate(r.value)
  {
    var d := FirstMatch(Formats, v);
    if d.Some? then d else IsoFallback(RemoveAll(v, 'Z'))
  }

  /** `_parse_date`: empty or blank input is no value; otherwise the date
      `ReadDate` finds, written as `YYYY-MM-DD`. */
  function ParseDate(value: string): (r: Option<string>)
    ensures Strip(value) == [] ==> r.None?
    ensures r.Some? ==> CanonicalDate(r.value)
  {
    var v := Strip(value);
    if v == [] then None
    else
      var d := ReadDate(v);
      if d.Some? then Some(FormatDate(d.value)) else None
  }

  /** The canonical form splits into its year, month and day fields. */
  lemma SplitCanonical(s: string)
    requires IsDateShape(s)
    ensures SplitOn(s, '-') == [s[..4], s[5..7], s[8..]]
  {
    assert '-' !in s[..4] by {
      forall i | 0 <= i < 4 ensures s[..4][i] != '-' { assert IsDigit(s[..4][i]); }
    }
    assert '-' !in s[5..7] by {
      assert IsDigit(s[5..7][0]) && IsDigit(s[5..7][1]);
    }
    assert '-' !in s[8..] by {
      forall i | 0 <= i < 2 ensures s[8..][i] != '-' { assert IsDigit(s[8..][i]); }
    }
    assert s == s[..4] + ['-'] + (s[5..7] + ['-'] + s[8..]);
    SplitOnCons(s[..4], '-', s[5..7] + ['-'] + s[8..]);
    SplitOnCons(s[5..7], '-', s[8..]);
  }

  /** Two digits naming a month match `%m`. */
  lemma TwoDigitMonth(t: string)
    requires |t| == 2 && AllDigits(t) && 1 <= DigitsValue(t) <= 12
    ensures IsMonthToken(t) && TokenValue(t) == DigitsValue(t)
  {
    DigitsValueShort(t);
  }

  /** Two digits naming a day match `%d`. */
  lemma TwoDigitDay(t: string)
    requires |t| == 2 && AllDigits(t) && 1 <= DigitsValue(t) <= 31
    ensures IsDayToken(t) && TokenValue(t) == DigitsValue(t)
  {
    DigitsValueShort(t);
  }

  /** `%Y-%m-%d` reads a canonical date string as the date it names. */
  lemma StrptimeCanonical(s: string)
    requires CanonicalDate(s)
    ensures Strptime(YearMonthDay, s) == Some(DateOf(s))
  {
    SplitCanonical(s);
    TwoDigitMonth(s[5..7]);
    TwoDigitDay(s[8..]);
  }

  lemma ShapeIsStripped(s: string)
    requires IsDateShape(s)
    ensures Strip(s) == s
  {
    assert IsDigit(s[..4][0]) && IsDigit(s[8..][1]);
    StripOfStripped(s);
  }

  lemma ReadDateCanonical(s: string)
    requires CanonicalDate(s)
    ensures ReadDate(s) == Some(DateOf(s))
  {
    StrptimeCanonical(s);
    FirstMatchWins(Formats, s, 0);
  }

  /** A canonical date string is its own parse: the first format accepts it unchanged. */
  lemma ParseDateOfCanonical(s: string)
    requires CanonicalDate(s)
    ensures ParseDate(s) == Some(s)
  {
    assert s != [];
    ShapeIsStripped(s);
    ReadDateCanonical(s);
    FormatDateOfCanonical(s);
  }

  /** The parser is idempotent on its own output. */
  lemma ParseDateIdempotent(value: string)
    requires ParseDate(value).Some?
    ensures ParseDate(ParseDate(value).value) == ParseDate(value)
  {
    ParseDateOfCanonical(ParseDate(value).value);
  }

  lemma DayMonthExampleSplit()
    ensures SplitOn("03/04/2024", '/') == ["03", "04", "2024"]
  {
    assert "03/04/2024" == "03" + "/" + "04" + "/" + "2024";
    SplitOnThree("03", "04", "2024", '/');
  }

  lemma DayMonthExampleNoDash()
    ensures SplitOn("03/04/2024", '-') == ["03/04/2024"]
  {
  }

  lemma DayMonthExampleTokens()
    ensures IsYearToken("2024") && DigitsValue("2024") == 2024
    ensures IsMonthToken("04") && TokenValue("04") == 4
    ensures IsDayToken("03") && TokenValue("03") == 3
  {
    DigitsValueFour("2024");
  }

  lemma DayMonthExampleFirstFails()
    ensures Strptime(YearMonthDay, "03/04/2024").None?
  {
    DayMonthExampleNoDash();
  }

  lemma DayMonthExampleFields()
    ensures FieldsDate(DayMonthYear, ["03", "04", "2024"]) == Some(Date(2024, 4, 3))
  {
    DayMonthExampleTokens();
  }

  lemma DayMonthExampleSecondWins()
    ensures Strptime(DayMonthYear, "03/04/2024") == Some(Date(2024, 4, 3))
  {
    DayMonthExampleSplit();
    DayMonthExampleFields();
  }

  /** When one of the three layouts fits, the ISO fallback is not consulted. */
  lemma ReadDateByFormats(v: string)
    requires FirstMatch(Formats, v).Some?
    ensures ReadDate(v) == FirstMatch(Formats, v)
  {
  }

  lemma SecondFormatWins(v: string, d: Date)
    requires Strptime(YearMonthDay, v).None? && Strptime(DayMonthYear, v) == Some(d)
    ensures FirstMatch(Formats, v) == Some(d)
  {
    FirstMatchWins(Formats, v, 1);
  }

  lemma NoFormatFits(v: string)
    requires Strptime(YearMonthDay, v).None? && Strptime(DayMonthYear, v).None?
    requires Strptime(MonthDayYear, v).None?
    ensures FirstMatch(Formats, v).None?
  {
    FirstMatchNone(Formats, v);
  }

  /** A layout whose separator does not occur cannot match. */
  lemma StrptimeUnsplit(fmt: Format, v: string)
    requires SplitOn(v, Separator(fmt)) == [v]
    ensures Strptime(fmt, v).None?
  {
  }

  lemma NothingFits(v: string)
    requires Strip(v) == v && v != []
    requires FirstMatch(Formats, v).None? && IsoFallback(RemoveAll(v, 'Z')).None?
    ensures ParseDate(v).None?
  {
  }

  lemma DayMonthExampleFormats()
    ensures FirstMatch(Formats, "03/04/2024") == Some(Date(2024, 4, 3))
  {
    DayMonthExampleFirstFails();
    DayMonthExampleSecondWins();
    SecondFormatWins("03/04/2024", Date(2024, 4, 3));
  }

  lemma DayMonthExampleRead()
    ensures ReadDate("03/04/2024") == Some(Date(2024, 4, 3))
  {
    DayMonthExampleFormats();
    ReadDateByFormats("03/04/2024");
  }

  lemma CanonicalExample()
    ensures CanonicalDate("2024-04-03") && DateOf("2024-04-03") == Date(2024, 4, 3)
  {
    var s := "2024-04-03";
    assert s[..4] == "2024" && s[5..7] == "04" && s[8..] == "03";
    DigitsValueFour("2024");
    DigitsValueShort("04");
    DigitsValueShort("03");
  }

  lemma ReadThenFormat(v: string, d: Date)
    requires Strip(v) == v && v != [] && ReadDate(v) == Some(d)
    ensures ParseDate(v) == Some(FormatDate(d))
  {
  }

  /** `%d/%m/%Y` is tried before `%m/%d/%Y`: "03/04/2024" is the 3rd of April. */
  lemma DayBeforeMonth()
    ensures ParseDate("03/04/2024") == Some("2024-04-03")
  {
    StripOfStripped("03/04/2024");
    DayMonthExampleRead();
    ReadThenFormat("03/04/2024", Date(2024, 4, 3));
    CanonicalExample();
    FormatDateOfCanonical("2024-04-03");
  }

  lemma BadMonthExampleShape()
    ensures IsDateShape("2024-13-40") && DateOf("2024-13-40").month == 13
  {
    var s := "2024-13-40";
    assert s[..4] == "2024" && s[5..7] == "13" && s[8..] == "40";
    DigitsValueShort("13");
  }

  /** Only digits and dashes occur in `DDDD-DD-DD`. */
  lemma ShapeChars(s: string, c: char)
    requires IsDateShape(s) && !IsDigit(c) && c != '-'
    ensures c !in s
  {
    forall i | 0 <= i < |s|
      ensures s[i] != c
    {
      if i < 4 {
        assert s[i] == s[..4][i];
      } else if 5 <= i < 7 {
        assert s[i] == s[5..7][i - 5];
      } else if 8 <= i {
        assert s[i] == s[8..][i - 8];
      }
    }
  }

  /** Text of the canonical shape whose fields name no calendar day is no
      value: `%Y-%m-%d` reads exactly those fields, the slash layouts find no
      slash, and the ISO fallback checks the same date. */
  lemma InvalidShapeRejected(s: string)
    requires IsDateShape(s) && !ValidDate(DateOf(s))
    ensures ParseDate(s).None?
  {
    ShapeIsStripped(s);
    SplitCanonical(s);
    ShapeChars(s, '/');
    StrptimeUnsplit(DayMonthYear, s);
    StrptimeUnsplit(MonthDayYear, s);
    NoFormatFits(s);
    ShapeChars(s, 'Z');
    RemoveAllAbsent(s, 'Z');
    assert s[..10] == s;
    NothingFits(s);
  }

  /** A date that does not exist is no value, whichever layout it resembles. */
  lemma InvalidCalendarDate()
    ensures ParseDate("2024-13-40").None?
  {
    BadMonthExampleShape();
    InvalidShapeRejected("2024-13-40");
  }

  lemma DigitsHaveNo(s: string, c: char)
    requires AllDigits(s) && !IsDigit(c)
    ensures c !in s
  {
    forall i | 0 <= i < |s|
      ensures s[i] != c
    {
      assert IsDigit(s[i]);
    }
  }

  /** The fields a valid date is written with, zero-padded, read back as
      that date's year, month and day. */
  lemma PaddedFields(d: Date)
    requires ValidDate(d)
    ensures IsYearToken(PadDigits(d.year, 4)) && DigitsValue(PadDigits(d.year, 4)) == d.year
    ensures IsMonthToken(PadDigits(d.month, 2)) && TokenValue(PadDigits(d.month, 2)) == d.month
    ensures IsDayToken(PadDigits(d.day, 2)) && TokenValue(PadDigits(d.day, 2)) == d.day
  {
    assert Pow10(2) == 100;
    assert Pow10(4) == 10000;
    TwoDigitMonth(PadDigits(d.month, 2));
    TwoDigitDay(PadDigits(d.day, 2));
  }

  /** `%d/%m/%Y` reads a valid date written day first, zero-padded. */
  lemma StrptimeDayFirst(d: Date)
    requires ValidDate(d)
    ensures Strptime(DayMonthYear, PadDigits(d.day, 2) + "/" + PadDigits(d.month, 2) + "/" + PadDigits(d.year, 4)) == Some(d)
  {
    var dd, mm, yyyy := PadDigits(d.day, 2), PadDigits(d.month, 2), PadDigits(d.year, 4);
    DigitsHaveNo(dd, '/');
    DigitsHaveNo(mm, '/');
    DigitsHaveNo(yyyy, '/');
    SplitOnThree(dd, mm, yyyy, '/');
    PaddedFields(d);
  }

  /** `%m/%d/%Y` reads a valid date written month first, zero-padded. */
  lemma StrptimeMonthFirst(d: Date)
    requires ValidDate(d)
    ensures Strptime(MonthDayYear, PadDigits(d.month, 2) + "/" + PadDigits(d.day, 2) + "/" + PadDigits(d.year, 4)) == Some(d)
  {
    var dd, mm, yyyy := PadDigits(d.day, 2), PadDigits(d.month, 2), PadDigits(d.year, 4);
    DigitsHaveNo(dd, '/');
    DigitsHaveNo(mm, '/');
    DigitsHaveNo(yyyy, '/');
    SplitOnThree(mm, dd, yyyy, '/');
    PaddedFields(d);
  }

  /** Only digits and colons occur in a time of day. */
  lemma TimeChars(t: string, c: char)
    requires IsIsoTime(t) && !IsDigit(c) && c != ':'
    ensures c !in t
  {
    forall i | 0 <= i < |t|
      ensures t[i] != c
    {
      if i < 2 {
        assert t[i] == t[..2][i];
      } else if 3 <= i < 5 {
        assert t[i] == t[3..5][i - 3];
      } else if 6 <= i {
        assert t[i] == t[6..8][i - 6];
      }
    }
  }

  /** `fromisoformat` keeps the date of a canonical date followed by `T` or
      a space and a time of day. */
  lemma IsoFallbackWithTime(s: string, sep: char, t: string)
    requires CanonicalDate(s) && (sep == 'T' || sep == ' ') && IsIsoTime(t)
    ensures IsoFallback(s + [sep] + t) == Some(DateOf(s))
  {
    var w := s + [sep] + t;
    assert w[..10] == s;
    assert w[10..][1..] == t;
  }

  lemma DateTimeStripped(s: string, t: string)
    requires CanonicalDate(s) && IsIsoTime(t)
    ensures Strip(s + "T" + t) == s + "T" + t
  {
    var w := s + "T" + t;
    assert w[0] == s[..4][0] && w[|w| - 1] == t[|t| - 1];
    assert IsDigit(t[|t| - 1]) by {
      if |t| == 5 { assert t[4] == t[3..5][1]; } else { assert t[7] == t[6..8][1]; }
    }
    assert IsDigit(s[..4][0]);
    StripOfStripped(w);
  }

  /** `%Y-%m-%d` fails on a date-time: the day field runs on into the time. */
  lemma DateTimeFirstFails(s: string, t: string)
    requires CanonicalDate(s) && IsIsoTime(t)
    ensures Strptime(YearMonthDay, s + "T" + t).None?
  {
    var w := s + "T" + t;
    TimeChars(t, '-');
    SplitCanonical(s);
    assert s == s[..4] + "-" + s[5..7] + "-" + s[8..];
    assert w == s[..4] + "-" + s[5..7] + "-" + (s[8..] + "T" + t);
    SplitOnThree(s[..4], s[5..7], s[8..] + "T" + t, '-');
  }

  lemma DateTimeNoLayout(s: string, t: string)
    requires CanonicalDate(s) && IsIsoTime(t)
    ensures FirstMatch(Formats, s + "T" + t).None?
  {
    var w := s + "T" + t;
    DateTimeFirstFails(s, t);
    ShapeChars(s, '/');
    TimeChars(t, '/');
    StrptimeUnsplit(DayMonthYear, w);
    StrptimeUnsplit(MonthDayYear, w);
    NoFormatFits(w);
  }

  /** A date-time names its date: the first layout fails on the time, the
      others find no slash, and the ISO fallback keeps the date part. */
  lemma ParseDateWithTime(s: string, t: string)
    requires CanonicalDate(s) && IsIsoTime(t)
    ensures ParseDate(s + "T" + t) == Some(s)
  {
    var w := s + "T" + t;
    DateTimeStripped(s, t);
    DateTimeNoLayout(s, t);
    ShapeChars(s, 'Z');
    TimeChars(t, 'Z');
    RemoveAllAbsent(w, 'Z');
    IsoFallbackWithTime(s, 'T', t);
    FormatDateOfCanonical(s);
  }
}
