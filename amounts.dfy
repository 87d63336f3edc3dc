/**
 * `_parse_amount` and the `:.2f` rendering of amounts. Amounts are whole
 * cents; the text is read as an exact decimal number.
 */
module Amounts {
  import opened Wrappers
  import opened Text
  import opened Digits

  /** A number as `float()` reads it: `mantissa / 10^scale`, negated when `negative`. */
  datatype Decimal = Decimal(negative: bool, mantissa: nat, scale: nat)

  predicate IsPositive(q: Decimal) {
    !q.negative && q.mantissa > 0
  }

  /** `c` is the cent nearest to the magnitude of `q` (a tie goes up). */
  predicate NearestCent(q: Decimal, c: int) {
    var p := Pow10(q.scale);
    2 * p * c <= 200 * q.mantissa + p < 2 * p * (c + 1)
  }

  /** The sign `float` allows in front of a number: none, `+` or `-`. */
  predicate IsSignPrefix(s: string) {
    s == "" || s == "+" || s == "-"
  }

  /** What follows the optional sign of `t`. */
  function Unsigned(t: string): string {
    if |t| > 0 && (t[0] == '+' || t[0] == '-') then t[1..] else t
  }

  /** The texts read as numbers: an optional sign, then only digits and
      decimal points, at most one decimal point, and at least one digit. */
  predicate IsFloatText(t: string) {
    IsUnsignedText(Unsigned(t))
  }

  /** Digits and decimal points only, at most one point, at least one digit. */
  predicate IsUnsignedText(body: string) {
    && (forall i :: 0 <= i < |body| ==> IsDigit(body[i]) || body[i] == '.')
    && (forall i, j :: 0 <= i < j < |body| && body[i] == '.' ==> body[j] != '.')
    && (exists i :: 0 <= i < |body| && IsDigit(body[i]))
  }

  /** `float(t)`: surrounding whitespace is ignored, a number is read exactly
      when the stripped text has the `IsFloatText` shape (so blank text is no
      number), and it is negative exactly when the stripped text starts with
      `-`. `ParseNumberOfInteger` and `ParseNumberOfSignedDecimal` give its
      value. */
  function ParseNumber(text: string): (r: Option<Decimal>)
    ensures Strip(text) == [] ==> r.None?
    ensures r.Some? <==> IsFloatText(Strip(text))
    ensures r.Some? ==> (r.value.negative <==> Strip(text)[0] == '-')
  {
    ReadNumber(Strip(text))
  }

  /** An optional sign followed by digits with at most one decimal point and
      at least one digit. */
  function ReadNumber(t: string): (r: Option<Decimal>)
    ensures r.Some? <==> IsFloatText(t)
  {
    ReadNumberGrammar(Unsigned(t));
    ReadParts(|t| > 0 && t[0] == '-', SplitOn(Unsigned(t), '.'))
  }

  /** The value of the pieces of an unsigned body split at `.`: the whole
      part alone, or the whole part and the fraction. */
  function ReadParts(negative: bool, parts: seq<string>): (r: Option<Decimal>)
    ensures r.Some? <==> PartsAreNumber(parts)
  {
    if |parts| == 1 && parts[0] != [] && AllDigits(parts[0]) then
      Some(Decimal(negative, DigitsValue(parts[0]), 0))
    else if |parts| == 2 && AllDigits(parts[0]) && AllDigits(parts[1]) && parts[0] + parts[1] != [] then
      Some(Decimal(negative, DigitsValue(parts[0]) * Pow10(|parts[1]|) + DigitsValue(parts[1]), |parts[1]|))
    else None
  }

  /** The condition under which `ReadNumber` reads the parts of a body. */
  predicate PartsAreNumber(parts: seq<string>) {
    || (|parts| == 1 && parts[0] != [] && AllDigits(parts[0]))
    || (|parts| == 2 && AllDigits(parts[0]) && AllDigits(parts[1]) && parts[0] + parts[1] != [])
  }

  /** Splitting at `.` accepts exactly the `IsUnsignedText` bodies. */
  lemma ReadNumberGrammar(body: string)
    ensures PartsAreNumber(SplitOn(body, '.')) <==> IsUnsignedText(body)
  {
    if '.' !in body {
      NoPointGrammar(body);
    } else {
      var i := IndexOf(body, '.');
      var a, rest := body[..i], body[i + 1..];
      assert body == a + ['.'] + rest;
      SplitOnCons(a, '.', rest);
      if '.' in rest {
        TwoPointsGrammar(body, i, rest);
      } else {
        assert SplitOn(rest, '.') == [rest];
        OnePointGrammar(body, i, a, rest);
      }
    }
  }

  lemma NoPointGrammar(body: string)
    requires '.' !in body
    ensures PartsAreNumber(SplitOn(body, '.')) <==> IsUnsignedText(body)
  {
    assert SplitOn(body, '.') == [body];
    if IsUnsignedText(body) {
      forall m | 0 <= m < |body| ensures IsDigit(body[m]) {
        assert body[m] != '.';
      }
    }
    if body != [] && AllDigits(body) {
      assert IsDigit(body[0]);
      assert IsUnsignedText(body);
    }
  }

  lemma TwoPointsGrammar(body: string, i: nat, rest: string)
    requires i < |body| && body[i] == '.' && rest == body[i + 1..] && '.' in rest
    requires SplitOn(body, '.') == [body[..i]] + SplitOn(rest, '.')
    ensures !PartsAreNumber(SplitOn(body, '.')) && !IsUnsignedText(body)
  {
    var j :| 0 <= j < |rest| && rest[j] == '.';
    assert body[i + 1 + j] == '.';
    var k := IndexOf(rest, '.');
    assert SplitOn(rest, '.') == [rest[..k]] + SplitOn(rest[k + 1..], '.');
  }

  lemma OnePointGrammar(body: string, i: nat, a: string, rest: string)
    requires i < |body| && body == a + ['.'] + rest && |a| == i && '.' !in a && '.' !in rest
    requires SplitOn(body, '.') == [a, rest]
    ensures PartsAreNumber(SplitOn(body, '.')) <==> IsUnsignedText(body)
  {
    if IsUnsignedText(body) {
      OnePointDigits(body, i, a, rest);
    }
    if AllDigits(a) && AllDigits(rest) && a + rest != [] {
      OnePointText(body, i, a, rest);
    }
  }

  lemma OnePointDigits(body: string, i: nat, a: string, rest: string)
    requires i < |body| && body == a + ['.'] + rest && |a| == i && '.' !in a && '.' !in rest
    requires IsUnsignedText(body)
    ensures AllDigits(a) && AllDigits(rest) && a + rest != []
  {
    var k :| 0 <= k < |body| && IsDigit(body[k]);
    if k < i { assert a[k] == body[k]; } else { assert rest[k - i - 1] == body[k]; }
    forall m | 0 <= m < |a| ensures IsDigit(a[m]) {
      assert a[m] == body[m];
    }
    forall m | 0 <= m < |rest| ensures IsDigit(rest[m]) {
      assert rest[m] == body[i + 1 + m];
    }
  }

  lemma OnePointText(body: string, i: nat, a: string, rest: string)
    requires i < |body| && body == a + ['.'] + rest && |a| == i
    requires AllDigits(a) && AllDigits(rest) && a + rest != []
    ensures IsUnsignedText(body)
  {
    forall m | 0 <= m < |body| ensures IsDigit(body[m]) || body[m] == '.' {
      if m < i { assert body[m] == a[m]; } else if m > i { assert body[m] == rest[m - i - 1]; }
    }
    forall m, n | 0 <= m < n < |body| && body[m] == '.' ensures body[n] != '.' {
      assert m == i;
      assert body[n] == rest[n - i - 1];
    }
    if a != [] { assert body[0] == a[0]; } else { assert body[i + 1] == rest[0]; }
  }

  /** A sign in front of a body that starts and ends with no whitespace and
      no sign: the whole is stripped, and the body is what follows the sign. */
  lemma SignPrefixSplit(s: string, body: string)
    requires IsSignPrefix(s) && body != [] && body[0] != '+' && body[0] != '-'
    requires !IsSpace(body[0]) && !IsSpace(body[|body| - 1])
    ensures Strip(s + body) == s + body && Unsigned(s + body) == body
    ensures (s + body)[0] == '-' <==> s == "-"
  {
    var u := s + body;
    assert u[|u| - 1] == body[|body| - 1];
    if s == "" {
      assert u == body;
    } else {
      assert u[0] == s[0] && u[1..] == body;
    }
    StripOfStripped(u);
  }

  /** Digits hold no decimal point. */
  lemma NoPointInDigits(t: string)
    requires AllDigits(t)
    ensures '.' !in t && SplitOn(t, '.') == [t]
  {
    forall m | 0 <= m < |t| ensures t[m] != '.' {
      assert IsDigit(t[m]);
    }
  }

  /** A whole number with an optional sign reads as its digits' value. */
  lemma ParseNumberOfInteger(s: string, t: string)
    requires IsSignPrefix(s) && t != [] && AllDigits(t)
    ensures ParseNumber(s + t) == Some(Decimal(s == "-", DigitsValue(t), 0))
  {
    assert IsDigit(t[0]) && IsDigit(t[|t| - 1]);
    SignPrefixSplit(s, t);
    NoPointInDigits(t);
  }

  /** A number with one decimal point and an optional sign reads as
      `whole * 10^|frac| + frac` over `10^|frac|`; either side of the point
      may be empty, but not both. */
  lemma ParseNumberOfSignedDecimal(s: string, a: string, b: string)
    requires IsSignPrefix(s) && AllDigits(a) && AllDigits(b) && a + b != []
    ensures ParseNumber(s + a + "." + b) == Some(Decimal(s == "-", DigitsValue(a) * Pow10(|b|) + DigitsValue(b), |b|))
  {
    var body := a + ['.'] + b;
    DecimalText(s, a, b);
    DecimalBody(a, b);
    ParseNumberOfSplit(s, body, [a, b]);
    ReadPartsOfDecimal(s == "-", a, b);
  }

  lemma DecimalText(s: string, a: string, b: string)
    ensures s + a + "." + b == s + (a + ['.'] + b)
  {
  }

  lemma ReadPartsOfDecimal(negative: bool, a: string, b: string)
    requires AllDigits(a) && AllDigits(b) && a + b != []
    ensures ReadParts(negative, [a, b]) == Some(Decimal(negative, DigitsValue(a) * Pow10(|b|) + DigitsValue(b), |b|))
  {
  }

  /** Reading a signed body through the pieces it splits into at `.`. */
  lemma ParseNumberOfSplit(s: string, body: string, parts: seq<string>)
    requires IsSignPrefix(s) && body != [] && body[0] != '+' && body[0] != '-'
    requires !IsSpace(body[0]) && !IsSpace(body[|body| - 1])
    requires SplitOn(body, '.') == parts
    ensures ParseNumber(s + body) == ReadParts(s == "-", parts)
  {
    SignPrefixSplit(s, body);
  }

  /** The body `a.b` starts and ends with a digit or the point, and splits
      into `a` and `b`. */
  lemma DecimalBody(a: string, b: string)
    requires AllDigits(a) && AllDigits(b)
    ensures var body := a + ['.'] + b;
      && body[0] != '+' && body[0] != '-' && !IsSpace(body[0]) && !IsSpace(body[|body| - 1])
      && SplitOn(body, '.') == [a, b]
  {
    var body := a + ['.'] + b;
    assert body[0] == (if a != [] then a[0] else '.');
    assert body[|body| - 1] == (if b == [] then '.' else b[|b| - 1]);
    if a != [] { assert IsDigit(a[0]); }
    if b != [] { assert IsDigit(b[|b| - 1]); }
    NoPointInDigits(a);
    NoPointInDigits(b);
    SplitOnCons(a, '.', b);
  }

  /** Whitespace around a number does not change what `float` reads. */
  lemma ParseNumberIgnoresPadding(pre: string, t: string, post: string)
    requires AllSpace(pre) && AllSpace(post)
    ensures ParseNumber(pre + t + post) == ParseNumber(t)
  {
    StripIgnoresPadding(pre, t, post);
  }

  lemma DivBounds(n: nat, d: nat)
    requires d > 0
    ensures n / d >= 0 && d * (n / d) <= n < d * (n / d + 1)
  {
    var q, r := n / d, n % d;
    assert n == d * q + r && 0 <= r < d;
    assert d * (q + 1) == d * q + d;
  }

  /** `round(amt, 2)` on a non-negative amount, in cents. */
  function RoundToCents(q: Decimal): (c: nat)
    requires !q.negative
    ensures NearestCent(q, c)
  {
    var p := Pow10(q.scale);
    var n, d := 200 * q.mantissa + p, 2 * p;
    DivBounds(n, d);
    var c := n / d;
    assert d * c <= n < d * (c + 1);
    c
  }

  /** The text `_parse_amount` hands to `float()`: stripped, then every `$`
      and `,` removed. */
  function Cleaned(value: string): (v: string)
    ensures '$' !in v && ',' !in v && |v| <= |Strip(value)|
    ensures forall x :: x in v <==> x in Strip(value) && x != '$' && x != ','
  {
    RemoveAll(RemoveAll(Strip(value), '$'), ',')
  }

  /** `_parse_amount` exactly as written: the sign test comes before rounding,
      so a positive amount below half a cent comes back as 0 cents. */
  function ParseAmountAsWritten(value: string): (r: Option<int>)
    ensures Cleaned(value) == [] ==> r.None?
    ensures ParseNumber(Cleaned(value)).None? ==> r.None?
    ensures r.Some? <==> ParseNumber(Cleaned(value)).Some? && IsPositive(ParseNumber(Cleaned(value)).value)
    ensures r.Some? ==> r.value >= 0 && NearestCent(ParseNumber(Cleaned(value)).value, r.value)
  {
    var v := Cleaned(value);
    if v == [] then None
    else
      var q := ParseNumber(v);
      if q.None? || !IsPositive(q.value) then None
      else Some(RoundToCents(q.value))
  }

  /** `_parse_amount`, rejecting every amount that is not positive once
      rounded: empty text, text that is no number and values at or below
      zero give no value; otherwise the nearest cent, which is positive. */
  function ParseAmount(value: string): (r: Option<int>)
    ensures Cleaned(value) == [] ==> r.None?
    ensures ParseNumber(Cleaned(value)).None? ==> r.None?
    ensures ParseNumber(Cleaned(value)).Some? && !IsPositive(ParseNumber(Cleaned(value)).value) ==> r.None?
    ensures r.Some? ==> r.value > 0 && NearestCent(ParseNumber(Cleaned(value)).value, r.value)
    ensures r.Some? ==> r == ParseAmountAsWritten(value)
    ensures var q := ParseNumber(Cleaned(value));
      q.Some? && IsPositive(q.value) && RoundToCents(q.value) > 0 ==> r == Some(RoundToCents(q.value))
  {
    var r := ParseAmountAsWritten(value);
    if r.Some? && r.value > 0 then r else None
  }

  /** A whole part and two decimals, as `:.2f` lays them out. */
  function TwoDecimals(whole: nat, hundredths: nat): string {
    NatDigits(whole) + "." + PadDigits(hundredths, 2)
  }

  /** `f"{cents / 100:.2f}"` for a non-negative amount. */
  function FormatCents(c: nat): string {
    TwoDecimals(c / 100, c % 100)
  }

  /** `f"{amount:.2f}"`: a sign for negative amounts, then the whole part and
      exactly two decimals. */
  function FormatAmount(c: int): (s: string)
    ensures c >= 0 ==> ParseNumber(s) == Some(Decimal(false, c, 2))
    ensures c < 0 ==> s != [] && s[0] == '-'
  {
    if c < 0 then "-" + FormatCents(-c)
    else
      ParseNumberOfFormat(c);
      FormatCents(c)
  }

  /** The layout is digits, one decimal point and two more digits. */
  lemma TwoDecimalsShape(w: nat, h: nat)
    ensures TwoDecimals(w, h) == NatDigits(w) + ['.'] + PadDigits(h, 2)
    ensures '.' !in NatDigits(w) && '.' !in PadDigits(h, 2)
  {
    var a := NatDigits(w);
    var b := PadDigits(h, 2);
    assert forall i :: 0 <= i < |a| ==> a[i] != '.';
    assert forall i :: 0 <= i < |b| ==> b[i] != '.';
  }

  /** The layout has no `$` or `,` in it. */
  lemma TwoDecimalsNoSymbols(w: nat, h: nat)
    ensures '$' !in TwoDecimals(w, h) && ',' !in TwoDecimals(w, h)
  {
    var a := NatDigits(w);
    var b := PadDigits(h, 2);
    assert TwoDecimals(w, h) == a + ['.'] + b;
    assert forall i :: 0 <= i < |a| ==> a[i] != '$' && a[i] != ',';
    assert forall i :: 0 <= i < |b| ==> b[i] != '$' && b[i] != ',';
  }

  /** The layout starts and ends with a digit. */
  lemma TwoDecimalsStripped(w: nat, h: nat)
    ensures IsStripped(TwoDecimals(w, h))
  {
    var a := NatDigits(w);
    var b := PadDigits(h, 2);
    var s := TwoDecimals(w, h);
    assert s == a + ['.'] + b;
    assert s[0] == a[0] && s[|s| - 1] == b[1];
    assert IsDigit(a[0]) && IsDigit(b[1]);
  }

  lemma TwoDecimalsClean(w: nat, h: nat)
    ensures Strip(TwoDecimals(w, h)) == TwoDecimals(w, h)
  {
    TwoDecimalsStripped(w, h);
    StripOfStripped(TwoDecimals(w, h));
  }

  lemma ParseNumberOfTwoDecimals(w: nat, h: nat, n: nat)
    requires h < 100 && n == w * 100 + h
    ensures ParseNumber(TwoDecimals(w, h)) == Some(Decimal(false, n, 2))
  {
    var a, b := NatDigits(w), PadDigits(h, 2);
    ParseNumberOfHundredths(a, b, w, h, n);
    TwoDecimalsShape(w, h);
  }

  lemma ParseNumberOfHundredths(a: string, b: string, w: nat, h: nat, n: nat)
    requires a != [] && AllDigits(a) && AllDigits(b) && |b| == 2
    requires DigitsValue(a) == w && DigitsValue(b) == h && n == w * 100 + h
    ensures ParseNumber(a + ['.'] + b) == Some(Decimal(false, n, 2))
  {
    ParseNumberOfDecimal(a + ['.'] + b, a, b);
    assert Pow10(2) == 100;
    ScaledByHundred(DigitsValue(a), Pow10(|b|), DigitsValue(b), w, h, n);
  }

  lemma ScaledByHundred(x: nat, p: nat, y: nat, w: nat, h: nat, n: nat)
    requires x == w && p == 100 && y == h && n == w * 100 + h
    ensures x * p + y == n
  {
  }

  /** Reading unsigned digits around one decimal point. */
  lemma ParseNumberOfDecimal(t: string, a: string, b: string)
    requires t == a + ['.'] + b
    requires a != [] && AllDigits(a) && AllDigits(b)
    ensures ParseNumber(t) == Some(Decimal(false, DigitsValue(a) * Pow10(|b|) + DigitsValue(b), |b|))
  {
    assert "" + a + "." + b == t;
    ParseNumberOfSignedDecimal("", a, b);
  }

  lemma ParseNumberOfFormat(c: nat)
    ensures ParseNumber(FormatCents(c)) == Some(Decimal(false, c, 2))
  {
    DivModHundred(c);
    ParseNumberOfTwoDecimals(c / 100, c % 100, c);
  }

  lemma DivModHundred(c: nat)
    ensures c == (c / 100) * 100 + c % 100 && c % 100 < 100
  {
  }

  /** An amount already in whole cents rounds to itself. */
  lemma RoundExactCents(c: nat)
    ensures RoundToCents(Decimal(false, c, 2)) == c
  {
    var r := RoundToCents(Decimal(false, c, 2));
    assert Pow10(2) == 100;
    assert 200 * r <= 200 * c + 100 < 200 * (r + 1);
  }

  /** Rendering a positive amount with two decimals and reading it back
      gives the same amount. */
  lemma ParseFormatAmount(c: int)
    requires c > 0
    ensures ParseAmount(FormatAmount(c)) == Some(c)
  {
    var s := FormatCents(c);
    TwoDecimalsClean(c / 100, c % 100);
    TwoDecimalsNoSymbols(c / 100, c % 100);
    RemoveAllAbsent(s, '$');
    RemoveAllAbsent(s, ',');
    assert Cleaned(s) == s;
    ParseNumberOfFormat(c);
    RoundExactCents(c);
  }

  /** How `ParseAmount` reads a value once its cleaned text is known. */
  lemma AmountOfCleaned(value: string, v: string, q: Decimal)
    requires Cleaned(value) == v && v != [] && ParseNumber(v) == Some(q)
    ensures !IsPositive(q) ==> ParseAmount(value).None?
    ensures IsPositive(q) ==> ParseAmountAsWritten(value) == Some(RoundToCents(q))
    ensures IsPositive(q) && RoundToCents(q) > 0 ==> ParseAmount(value) == Some(RoundToCents(q))
  {
  }

  /** A whole number of dollars, written in digits alone, is that many
      hundreds of cents. */
  lemma ParseAmountOfInteger(t: string)
    requires t != [] && AllDigits(t) && DigitsValue(t) > 0
    ensures ParseAmount(t) == Some(DigitsValue(t) * 100)
  {
    var n := DigitsValue(t);
    DigitsCleaned(t);
    assert "" + t == t;
    ParseNumberOfInteger("", t);
    RoundWhole(n);
    AmountOfCleaned(t, t, Decimal(false, n, 0));
  }

  /** Digits alone reach `float` unchanged. */
  lemma DigitsCleaned(t: string)
    requires t != [] && AllDigits(t)
    ensures Cleaned(t) == t
  {
    assert IsDigit(t[0]) && IsDigit(t[|t| - 1]);
    assert '$' !in t && ',' !in t by {
      forall m | 0 <= m < |t| ensures t[m] != '$' && t[m] != ',' {
        assert IsDigit(t[m]);
      }
    }
    CleanedPlain(t);
  }

  /** A whole number of dollars is a whole hundred of cents. */
  lemma RoundWhole(n: nat)
    ensures RoundToCents(Decimal(false, n, 0)) == n * 100
  {
    var c := RoundToCents(Decimal(false, n, 0));
    assert Pow10(0) == 1;
    assert 2 * c <= 200 * n + 1 < 2 * (c + 1);
  }

  /** An ASCII character that `float` can also accept: the letters of `inf`,
      `infinity`, `nan` and of an exponent, in either case, and `_` between
      digits. */
  predicate FloatWordChar(x: char) {
    x in "eEiInNfFaAtTyY_"
  }

  /** An amount holding an ASCII character that `float` never accepts (not
      whitespace, a digit, a sign, a decimal point, `$`, `,` or a
      `FloatWordChar`) is no amount. */
  lemma ForeignCharacterRejected(value: string, x: char)
    requires x in value && x < '\U{80}' && !IsSpace(x) && !IsDigit(x) && !FloatWordChar(x)
    requires x != '.' && x != '+' && x != '-' && x != '$' && x != ','
    ensures ParseAmountAsWritten(value).None? && ParseAmount(value).None?
  {
    assert x in Strip(value) by {
      StripKeepsNonSpace(value, x);
    }
    var v := Cleaned(value);
    StripKeepsNonSpace(v, x);
    var t := Strip(v);
    var j :| 0 <= j < |t| && t[j] == x;
    var body := Unsigned(t);
    if |t| > 0 && (t[0] == '+' || t[0] == '-') {
      assert body[j - 1] == x;
    } else {
      assert body[j] == x;
    }
    assert !IsFloatText(t);
  }

  /** Text with a word in it is no amount. */
  lemma LettersRejected()
    ensures ParseAmount("12abc").None? && ParseAmount("12 USD").None?
  {
    LetterB();
    LetterU();
    assert "12abc"[3] == 'b';
    ForeignCharacterRejected("12abc", 'b');
    assert "12 USD"[3] == 'U';
    ForeignCharacterRejected("12 USD", 'U');
  }

  lemma LetterB()
    ensures !IsSpace('b') && !FloatWordChar('b')
  {
    var w := "eEiInNfFaAtTyY_";
    assert forall k :: 0 <= k < |w| ==> w[k] != 'b';
  }

  lemma LetterU()
    ensures !IsSpace('U') && !FloatWordChar('U')
  {
    var w := "eEiInNfFaAtTyY_";
    assert forall k :: 0 <= k < |w| ==> w[k] != 'U';
  }

  /** A whole amount without decimals: `"45"` is 45.00. */
  lemma WholeAmount()
    ensures ParseAmount("45") == Some(4500)
  {
    assert AllDigits("45");
    DigitsValueShort("45");
    ParseAmountOfInteger("45");
  }

  lemma CleanedStripped(value: string, v: string)
    requires IsStripped(value) && RemoveAll(RemoveAll(value, '$'), ',') == v
    ensures Cleaned(value) == v
  {
    StripOfStripped(value);
  }

  lemma CleanedPlain(value: string)
    requires IsStripped(value) && '$' !in value && ',' !in value
    ensures Cleaned(value) == value
  {
    StripOfStripped(value);
    RemoveAllAbsent(value, '$');
    RemoveAllAbsent(value, ',');
  }

  lemma DollarExampleNoDollar()
    ensures RemoveAll("$1,234.5", '$') == "1,234.5"
  {
    assert "$1,234.5" == [] + ['$'] + "1,234.5";
    RemoveAllAround([], '$', "1,234.5");
  }

  lemma DollarExampleNoComma()
    ensures RemoveAll("1,234.5", ',') == "1234.5"
  {
    assert "1,234.5" == "1" + [','] + "234.5";
    RemoveAllAround("1", ',', "234.5");
  }

  lemma DollarExampleCleaned()
    ensures Cleaned("$1,234.5") == "1234.5"
  {
    DollarExampleNoDollar();
    DollarExampleNoComma();
    CleanedStripped("$1,234.5", "1234.5");
  }

  lemma DollarExampleDigits()
    ensures AllDigits("1234") && DigitsValue("1234") == 1234
    ensures AllDigits("5") && DigitsValue("5") == 5
  {
    DigitsValueFour("1234");
    DigitsValueShort("5");
  }

  lemma DollarExampleSplit()
    ensures "1234.5" == "1234" + ['.'] + "5" && Strip("1234.5") == "1234.5"
  {
    StripOfStripped("1234.5");
  }

  lemma DollarExampleNumber()
    ensures ParseNumber("1234.5") == Some(Decimal(false, 12345, 1))
  {
    DollarExampleDigits();
    DollarExampleSplit();
    ParseNumberOfDecimal("1234.5", "1234", "5");
    assert Pow10(1) == 10;
  }

  lemma DollarExampleRound()
    ensures RoundToCents(Decimal(false, 12345, 1)) == 123450
  {
    var c := RoundToCents(Decimal(false, 12345, 1));
    assert Pow10(1) == 10;
    assert 20 * c <= 2469010 < 20 * (c + 1);
  }

  /** Currency signs and thousands separators are ignored: "$1,234.5" is 1234.50. */
  lemma DollarsAndCommas()
    ensures ParseAmount("$1,234.5") == Some(123450)
  {
    DollarExampleCleaned();
    DollarExampleNumber();
    DollarExampleRound();
    AmountOfCleaned("$1,234.5", "1234.5", Decimal(false, 12345, 1));
  }

  lemma SignedExampleNumber()
    ensures ParseNumber("-5") == Some(Decimal(true, 5, 0))
  {
    StripOfStripped("-5");
    assert "-5"[1..] == "5";
    assert SplitOn("5", '.') == ["5"];
    DigitsValueShort("5");
  }

  /** A negative amount is no value. */
  lemma NegativeRejected()
    ensures ParseAmount("-5").None?
  {
    CleanedPlain("-5");
    SignedExampleNumber();
    AmountOfCleaned("-5", "-5", Decimal(true, 5, 0));
  }

  lemma ZeroExampleNumber()
    ensures ParseNumber("0") == Some(Decimal(false, 0, 0))
  {
    StripOfStripped("0");
    assert SplitOn("0", '.') == ["0"];
    DigitsValueShort("0");
  }

  /** A zero amount is no value. */
  lemma ZeroRejected()
    ensures ParseAmount("0").None?
  {
    CleanedPlain("0");
    ZeroExampleNumber();
    AmountOfCleaned("0", "0", Decimal(false, 0, 0));
  }

  lemma SubCentExampleDigits()
    ensures AllDigits("0") && DigitsValue("0") == 0
    ensures AllDigits("004") && DigitsValue("004") == 4
  {
    DigitsValueShort("0");
    assert "004" == "0" + "04";
    DigitsValueShort("04");
    DigitsValueAppend("0", "04");
  }

  lemma SubCentExampleSplit()
    ensures "0.004" == "0" + ['.'] + "004" && Strip("0.004") == "0.004"
  {
    StripOfStripped("0.004");
  }

  lemma SubCentExampleNumber()
    ensures ParseNumber("0.004") == Some(Decimal(false, 4, 3))
  {
    SubCentExampleDigits();
    SubCentExampleSplit();
    ParseNumberOfDecimal("0.004", "0", "004");
    assert Pow10(3) == 1000;
  }

  lemma SubCentExampleRound()
    ensures RoundToCents(Decimal(false, 4, 3)) == 0
  {
    var c := RoundToCents(Decimal(false, 4, 3));
    assert Pow10(3) == 1000;
    assert 2000 * c <= 1800 < 2000 * (c + 1);
  }

  lemma ZeroCentsDigits()
    ensures AllDigits("0") && DigitsValue("0") == 0
    ensures AllDigits("00") && DigitsValue("00") == 0
  {
    DigitsValueShort("0");
    DigitsValueShort("00");
  }

  lemma ZeroCentsSplit()
    ensures "0.00" == "0" + ['.'] + "00" && Strip("0.00") == "0.00"
  {
    StripOfStripped("0.00");
  }

  lemma ZeroCentsNumber()
    ensures ParseNumber("0.00") == Some(Decimal(false, 0, 2))
  {
    ZeroCentsDigits();
    ZeroCentsSplit();
    ParseNumberOfDecimal("0.00", "0", "00");
  }

  /** As written, "0.004" passes the sign test and is kept as 0 cents, which
      `:.2f` writes as "0.00", which is then rejected: the saved amount does
      not read back. The corrected parser rejects "0.004" outright. */
  lemma SubCentExampleAsWritten()
    ensures ParseAmountAsWritten("0.004") == Some(0)
    ensures ParseAmount("0.004").None?
  {
    CleanedPlain("0.004");
    SubCentExampleNumber();
    SubCentExampleRound();
    AmountOfCleaned("0.004", "0.004", Decimal(false, 4, 3));
  }

  lemma ZeroCentsLayout()
    ensures FormatCents(0) == "0.00"
  {
    assert NatDigits(0) == "0";
    assert PadDigits(0, 2) == "00";
  }

  lemma ZeroCentsFormat()
    ensures FormatAmount(0) == "0.00"
  {
    ZeroCentsLayout();
  }

  lemma ZeroCentsRejected()
    ensures ParseAmountAsWritten("0.00").None?
  {
    CleanedPlain("0.00");
    ZeroCentsNumber();
    AmountOfCleaned("0.00", "0.00", Decimal(false, 0, 2));
  }

  lemma SubCentAmountAcceptedAsZero()
    ensures ParseAmountAsWritten("0.004") == Some(0)
    ensures FormatAmount(0) == "0.00" && ParseAmountAsWritten("0.00").None?
    ensures ParseAmount("0.004").None?
  {
    SubCentExampleAsWritten();
    ZeroCentsFormat();
    ZeroCentsRejected();
  }
}
