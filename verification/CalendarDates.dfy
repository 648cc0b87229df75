/**
 * Canonical `YYYY-MM-DD` dates: the calendar, the printer, the validator, and the reason why dates
 * may be compared as strings.
 */
module CalendarDates {
  import opened Options
  import opened Texts

  // ---- The calendar -----------------------------------------------------------------------

  function DaysInMonth(year: int, month: nat): nat {
    if month in {1, 3, 5, 7, 8, 10, 12} then 31
    else if month in {4, 6, 9, 11} then 30
    else if month == 2 then (if (year % 4 == 0 && year % 100 != 0) || year % 400 == 0 then 29 else 28)
    else 0
  }

  /** The days in front of the first of March of `year`, and of the first of the month `m` months after March. */
  function DaysBeforeYear(year: int): int { 365 * year + year / 4 - year / 100 + year / 400 }

  function DaysBeforeMonth(m: int): int { (153 * m + 2) / 5 }

  /** The number of a day by the closed formula of the Gregorian calendar, years beginning in March. */
  function DayNumber(year: int, month: int, day: int): int {
    if month <= 2 then DaysBeforeYear(year - 1) + DaysBeforeMonth(month + 9) + day
    else DaysBeforeYear(year) + DaysBeforeMonth(month - 3) + day
  }

  /** Each month has as many days as lie between its first and the first of the next one. */
  lemma MonthsFollowEachOther(year: int, month: nat)
    requires 1 <= month <= 12
    ensures DaysInMonth(year, month) ==
      (if month == 12 then DayNumber(year + 1, 1, 1) else DayNumber(year, month + 1, 1)) - DayNumber(year, month, 1)
  {
    hide DaysBeforeYear;
    LeapDay(year);
    assert DaysBeforeMonth(11) == 337;
  }

  /** A year has a leap day exactly when it is divisible by 4 but not by 100, or by 400. */
  lemma LeapDay(year: int)
    ensures DaysBeforeYear(year) - DaysBeforeYear(year - 1) ==
      if (year % 4 == 0 && year % 100 != 0) || year % 400 == 0 then 366 else 365
  {
    assert year / 4 - (year - 1) / 4 == if year % 4 == 0 then 1 else 0;
    assert year / 100 - (year - 1) / 100 == if year % 100 == 0 then 1 else 0;
    assert year / 400 - (year - 1) / 400 == if year % 400 == 0 then 1 else 0;
  }

  predicate IsDate(year: int, month: nat, day: nat) {
    1900 <= year <= 2100 && 1 <= month <= 12 && 1 <= day <= DaysInMonth(year, month)
  }

  function TwoDigits(n: nat): string
    requires n < 100
  {
    [Digit(n / 10), Digit(n % 10)]
  }

  function FourDigits(n: nat): string
    requires n < 10000
  {
    TwoDigits(n / 100) + TwoDigits(n % 100)
  }

  function IsoText(year: nat, month: nat, day: nat): string
    requires year < 10000 && month < 100 && day < 100
  {
    FourDigits(year) + "-" + TwoDigits(month) + "-" + TwoDigits(day)
  }

  function BuildIso(year: int, month: nat, day: nat): Option<string> {
    if IsDate(year, month, day) then Some(IsoText(year, month, day)) else None
  }

  // ---- The validator ----------------------------------------------------------------------

  /** `split('-')`: always at least one part. */
  function Split(s: string): (parts: seq<string>)
    ensures |parts| >= 1
  {
    if s == [] then [[]]
    else
      var rest := Split(s[1..]);
      if s[0] == '-' then [[]] + rest else [[s[0]] + rest[0]] + rest[1..]
  }

  /** `str::parse` of a non-negative number: one leading '+' is allowed, then digits only, up to `max`. */
  function ParseNumber(s: string, max: nat): Option<nat> {
    var digits := if s != [] && s[0] == '+' then s[1..] else s;
    if digits != [] && (forall c | c in digits :: IsDigit(c)) && Value(digits) <= max then Some(Value(digits)) else None
  }

  const I64_MAX := 0x7FFF_FFFF_FFFF_FFFF
  const U32_MAX := 0xFFFF_FFFF

  function ValidateIsoDate(value: string): Option<string> {
    var parts := Split(Trim(value));
    if |parts| != 3 then None
    else
      var year, month, day := ParseNumber(parts[0], I64_MAX), ParseNumber(parts[1], U32_MAX),
        ParseNumber(parts[2], U32_MAX);
      if year.None? || month.None? || day.None? then None else BuildIso(year.value, month.value, day.value)
  }

  // ---- Printer and validator --------------------------------------------------------------

  lemma TwoDigitsValue(n: nat)
    requires n < 100
    ensures |TwoDigits(n)| == 2 && (forall c | c in TwoDigits(n) :: IsDigit(c)) && Value(TwoDigits(n)) == n
  {
    var s := TwoDigits(n);
    assert s[..1] == [Digit(n / 10)] && s[..1][..0] == [];
    assert Value(s[..1]) == 10 * Value([]) + n / 10;
    assert Value(s) == 10 * Value(s[..1]) + n % 10;
  }

  lemma {:induction false} ValueConcat(a: string, b: string)
    requires (forall c | c in a :: IsDigit(c)) && (forall c | c in b :: IsDigit(c))
    requires |b| == 2
    ensures forall c | c in a + b :: IsDigit(c)
    ensures Value(a + b) == 100 * Value(a) + Value(b)
  {
    var s := a + b;
    assert s[..|s| - 1] == a + [b[0]] && (a + [b[0]])[..|a|] == a;
    assert Value(s) == 10 * Value(a + [b[0]]) + DigitValue(b[1]);
    assert Value(a + [b[0]]) == 10 * Value(a) + DigitValue(b[0]);
    assert b[..1] == [b[0]] && b[..1][..0] == [];
    assert Value(b[..1]) == 10 * Value([]) + DigitValue(b[0]);
    assert Value(b) == 10 * Value(b[..1]) + DigitValue(b[1]);
  }

  lemma FourDigitsValue(n: nat)
    requires n < 10000
    ensures |FourDigits(n)| == 4 && (forall c | c in FourDigits(n) :: IsDigit(c)) && Value(FourDigits(n)) == n
  {
    TwoDigitsValue(n / 100);
    TwoDigitsValue(n % 100);
    ValueConcat(TwoDigits(n / 100), TwoDigits(n % 100));
  }

  lemma {:induction false} SplitDigits(a: string, rest: string)
    requires '-' !in a
    ensures Split(a + "-" + rest) == [a] + Split(rest)
    ensures Split(a) == [a]
  {
    if a == [] {
      assert "-" + rest == [] + "-" + rest && ("-" + rest)[1..] == rest;
    } else {
      assert (a + "-" + rest)[1..] == a[1..] + "-" + rest;
      SplitDigits(a[1..], rest);
      assert [a[0]] + a[1..] == a;
    }
  }

  lemma IsoTextSplits(year: nat, month: nat, day: nat)
    requires year < 10000 && month < 100 && day < 100
    ensures Split(IsoText(year, month, day)) == [FourDigits(year), TwoDigits(month), TwoDigits(day)]
  {
    var y, m, d := FourDigits(year), TwoDigits(month), TwoDigits(day);
    assert IsoText(year, month, day) == y + "-" + (m + "-" + d);
    SplitDigits(y, m + "-" + d);
    SplitDigits(m, d);
    SplitDigits(d, []);
  }

  lemma IsoTextIsTrimmed(year: nat, month: nat, day: nat)
    requires year < 10000 && month < 100 && day < 100
    ensures Trim(IsoText(year, month, day)) == IsoText(year, month, day)
  {
    var s := IsoText(year, month, day);
    assert s[0] == Digit(year / 100 / 10) && s[|s| - 1] == Digit(day % 10);
  }

  lemma DigitsParse(s: string, max: nat)
    requires s != [] && (forall c | c in s :: IsDigit(c)) && Value(s) <= max
    ensures ParseNumber(s, max) == Some(Value(s))
  {
    assert s[0] in s;
  }

  /** Whatever the printer produces, the validator returns unchanged. */
  lemma ValidatorUndoesPrinter(year: int, month: nat, day: nat)
    requires BuildIso(year, month, day).Some?
    ensures ValidateIsoDate(BuildIso(year, month, day).value) == BuildIso(year, month, day)
  {
    hide Split, Trim, IsoText, FourDigits, TwoDigits, Value, ParseNumber;
    IsoTextIsTrimmed(year, month, day);
    IsoTextSplits(year, month, day);
    FourDigitsValue(year);
    TwoDigitsValue(month);
    TwoDigitsValue(day);
    DigitsParse(FourDigits(year), I64_MAX);
    DigitsParse(TwoDigits(month), U32_MAX);
    DigitsParse(TwoDigits(day), U32_MAX);
  }

  /** Validation is idempotent, and what it returns is always a printed date. */
  lemma ValidateIsIdempotent(value: string)
    requires ValidateIsoDate(value).Some?
    ensures ValidateIsoDate(ValidateIsoDate(value).value) == ValidateIsoDate(value)
    ensures exists y, m, d :: IsDate(y, m, d) && ValidateIsoDate(value) == BuildIso(y, m, d)
  {
    var parts := Split(Trim(value));
    var y, m, d := ParseNumber(parts[0], I64_MAX).value, ParseNumber(parts[1], U32_MAX).value,
      ParseNumber(parts[2], U32_MAX).value;
    assert ValidateIsoDate(value) == BuildIso(y, m, d);
    ValidatorUndoesPrinter(y, m, d);
  }

  // ---- What the validator accepts ---------------------------------------------------------

  /** A number as it may stand in a date: digits behind at most one plus sign. */
  ghost predicate IsNumber(s: string, n: nat) {
    Figures(s) != [] && (forall c | c in Figures(s) :: IsDigit(c)) && Value(Figures(s)) == n
  }

  ghost function Figures(s: string): string { if s != [] && s[0] == '+' then s[1..] else s }

  /** Three numbers with one hyphen between them, and white space around the whole. */
  ghost predicate DateLiteral(value: string, before: string, y: string, m: string, d: string, after: string) {
    IsBlank(before) && IsBlank(after) && value == before + (y + "-" + (m + "-" + d)) + after
  }

  ghost predicate Denotes(value: string, year: nat, month: nat, day: nat) {
    exists before, y, m, d, after :: DateLiteral(value, before, y, m, d, after)
      && IsNumber(y, year) && IsNumber(m, month) && IsNumber(d, day)
  }

  lemma {:induction false} TrimmedParts(s: string) returns (before: string, after: string)
    ensures s == before + Trim(s) + after && IsBlank(before) && IsBlank(after)
  {
    before := TrimStartPart(s);
    after := TrimEndPart(TrimStart(s));
    assert s == before + (Trim(s) + after);
  }

  lemma {:induction false} TrimStartPart(s: string) returns (before: string)
    ensures s == before + TrimStart(s) && IsBlank(before)
  {
    if s != [] && IsWhitespace(s[0]) {
      before := TrimStartPart(s[1..]);
      before := [s[0]] + before;
    } else {
      before := [];
    }
  }

  lemma {:induction false} TrimEndPart(s: string) returns (after: string)
    ensures s == TrimEnd(s) + after && IsBlank(after)
  {
    if s != [] && IsWhitespace(s[|s| - 1]) {
      after := TrimEndPart(s[..|s| - 1]);
      after := after + [s[|s| - 1]];
    } else {
      after := [];
    }
  }

  /** What was split at hyphens is the parts with hyphens between them. */
  lemma {:induction false} SplitParts(s: string)
    ensures var p := Split(s);
      && (|p| == 1 ==> s == p[0])
      && (|p| == 2 ==> s == p[0] + "-" + p[1])
      && (|p| == 3 ==> s == p[0] + "-" + (p[1] + "-" + p[2]))
  {
    if s != [] {
      SplitParts(s[1..]);
      var rest := Split(s[1..]);
      assert s == [s[0]] + s[1..];
    }
  }

  lemma NumberHasNoHyphen(s: string, n: nat)
    requires IsNumber(s, n)
    ensures s != [] && '-' !in s && !IsWhitespace(s[0]) && !IsWhitespace(s[|s| - 1])
  {
    var digits := Figures(s);
    assert s[|s| - 1] == digits[|digits| - 1] && digits[|digits| - 1] in digits;
    assert s[0] == '+' || s[0] in digits;
    forall i | 0 <= i < |s| ensures s[i] != '-' { assert i == 0 || s[i] in digits; }
  }

  lemma NumberParses(s: string, n: nat, max: nat)
    ensures ParseNumber(s, max) == Some(n) <==> IsNumber(s, n) && n <= max
  {
  }

  lemma LiteralSplits(value: string, before: string, y: string, m: string, d: string, after: string,
    year: nat, month: nat, day: nat)
    requires DateLiteral(value, before, y, m, d, after) && IsNumber(y, year) && IsNumber(m, month) && IsNumber(d, day)
    ensures Split(Trim(value)) == [y, m, d]
  {
    hide IsNumber, IsWhitespace;
    NumberHasNoHyphen(y, year);
    NumberHasNoHyphen(m, month);
    NumberHasNoHyphen(d, day);
    var core := y + "-" + (m + "-" + d);
    assert core[0] == y[0] && core[|core| - 1] == d[|d| - 1];
    assert value == before + (core + after) && (core + after)[0] == core[0];
    TrimStartRemovesBlanks(before, core + after);
    TrimEndRemovesBlanks(core, after);
    SplitDigits(y, m + "-" + d);
    SplitDigits(m, d);
    SplitDigits(d, []);
    assert [y] + ([m] + [d]) == [y, m, d];
  }

  /** The validator answers a date exactly when the text denotes it, plus signs and leading zeros allowed. */
  lemma ValidatesIff(value: string, year: nat, month: nat, day: nat)
    requires IsDate(year, month, day)
    ensures ValidateIsoDate(value) == Some(IsoText(year, month, day)) <==> Denotes(value, year, month, day)
  {
    hide Split, Trim, IsoText, ParseNumber, IsNumber;
    if Denotes(value, year, month, day) {
      var before, y, m, d, after :| DateLiteral(value, before, y, m, d, after)
        && IsNumber(y, year) && IsNumber(m, month) && IsNumber(d, day);
      LiteralSplits(value, before, y, m, d, after, year, month, day);
      NumberParses(y, year, I64_MAX);
      NumberParses(m, month, U32_MAX);
      NumberParses(d, day, U32_MAX);
    }
    if ValidateIsoDate(value) == Some(IsoText(year, month, day)) {
      var parts := Split(Trim(value));
      var y, m, d := ParseNumber(parts[0], I64_MAX).value, ParseNumber(parts[1], U32_MAX).value,
        ParseNumber(parts[2], U32_MAX).value;
      StringOrderIsCalendarOrder(y, m, d, year, month, day);
      NumberParses(parts[0], y, I64_MAX);
      NumberParses(parts[1], m, U32_MAX);
      NumberParses(parts[2], d, U32_MAX);
      var before, after := TrimmedParts(value);
      SplitParts(Trim(value));
      assert DateLiteral(value, before, parts[0], parts[1], parts[2], after);
    }
  }

  // ---- Strings in calendar order ----------------------------------------------------------

  /** `str` comparison: by the first difference, a proper prefix being smaller. */
  predicate StringLess(a: string, b: string) {
    b != [] && (a == [] || a[0] < b[0] || (a[0] == b[0] && StringLess(a[1..], b[1..])))
  }

  predicate StringLessEqual(a: string, b: string) { a == b || StringLess(a, b) }

  lemma {:induction false} StringLessConcat(a: string, b: string, a': string, b': string)
    requires |a| == |a'|
    ensures StringLess(a + b, a' + b') <==> StringLess(a, a') || (a == a' && StringLess(b, b'))
  {
    if a == [] {
      assert a + b == b && a' + b' == b';
    } else {
      assert (a + b)[1..] == a[1..] + b && (a' + b')[1..] == a'[1..] + b';
      StringLessConcat(a[1..], b, a'[1..], b');
      assert a == [a[0]] + a[1..] && a' == [a'[0]] + a'[1..];
    }
  }

  lemma TwoDigitsOrder(n: nat, k: nat)
    requires n < 100 && k < 100
    ensures StringLess(TwoDigits(n), TwoDigits(k)) <==> n < k
    ensures TwoDigits(n) == TwoDigits(k) <==> n == k
  {
    var a, b := TwoDigits(n), TwoDigits(k);
    assert a[1..] == [a[1]] && b[1..] == [b[1]];
    assert StringLess(a[1..], b[1..]) <==> a[1] < b[1] by { assert a[1..][1..] == [] && b[1..][1..] == []; }
    if a == b { assert a[0] == b[0] && a[1] == b[1]; }
  }

  lemma FourDigitsOrder(n: nat, k: nat)
    requires n < 10000 && k < 10000
    ensures StringLess(FourDigits(n), FourDigits(k)) <==> n < k
    ensures FourDigits(n) == FourDigits(k) <==> n == k
  {
    TwoDigitsOrder(n / 100, k / 100);
    TwoDigitsOrder(n % 100, k % 100);
    StringLessConcat(TwoDigits(n / 100), TwoDigits(n % 100), TwoDigits(k / 100), TwoDigits(k % 100));
    if FourDigits(n) == FourDigits(k) {
      assert FourDigits(n)[..2] == TwoDigits(n / 100) && FourDigits(n)[2..] == TwoDigits(n % 100);
      assert FourDigits(k)[..2] == TwoDigits(k / 100) && FourDigits(k)[2..] == TwoDigits(k % 100);
    }
  }

  predicate Earlier(y: int, m: nat, d: nat, y': int, m': nat, d': nat) {
    y < y' || (y == y' && (m < m' || (m == m' && d < d')))
  }

  lemma {:induction false} NotLessThanItself(s: string)
    ensures !StringLess(s, s)
  {
    if s != [] { NotLessThanItself(s[1..]); }
  }

  lemma IsoTextParts(y: nat, m: nat, d: nat)
    requires y < 10000 && m < 100 && d < 100
    ensures var s := IsoText(y, m, d);
      && s == FourDigits(y) + ("-" + (TwoDigits(m) + ("-" + TwoDigits(d))))
      && |s| == 10 && s[..4] == FourDigits(y) && s[5..7] == TwoDigits(m) && s[8..] == TwoDigits(d)
  {
  }

  /** Comparing canonical dates as strings is comparing them in the calendar. */
  lemma StringOrderIsCalendarOrder(y: int, m: nat, d: nat, y': int, m': nat, d': nat)
    requires IsDate(y, m, d) && IsDate(y', m', d')
    ensures StringLess(IsoText(y, m, d), IsoText(y', m', d')) <==> Earlier(y, m, d, y', m', d')
    ensures IsoText(y, m, d) == IsoText(y', m', d') <==> (y, m, d) == (y', m', d')
  {
    hide StringLess, FourDigits, TwoDigits, IsoText;
    var a, a' := FourDigits(y), FourDigits(y');
    var b, b' := TwoDigits(m), TwoDigits(m');
    var c, c' := TwoDigits(d), TwoDigits(d');
    FourDigitsOrder(y, y');
    TwoDigitsOrder(m, m');
    TwoDigitsOrder(d, d');
    IsoTextParts(y, m, d);
    IsoTextParts(y', m', d');
    StringLessConcat(a, "-" + (b + ("-" + c)), a', "-" + (b' + ("-" + c')));
    StringLessConcat("-", b + ("-" + c), "-", b' + ("-" + c'));
    StringLessConcat(b, "-" + c, b', "-" + c');
    StringLessConcat("-", c, "-", c');
    NotLessThanItself("-");
  }
}
