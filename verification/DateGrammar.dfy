/** What counts as a date in a text: the layouts that the reader accepts, and no others. */
module DateGrammar {
  import opened Options
  import opened CalendarDates
  import opened Texts
  import opened DateScanner
  import opened DateScannerFacts

  // ---- The pieces -------------------------------------------------------------------------

  /** One to four digits stand from `a` to `b`, no further digit behind them, and their value is `n`. */
  ghost predicate NumberAt(t: Text, a: nat, b: nat, n: nat) {
    && a < b <= |t| && b - a <= 4 && (forall k | a <= k < b :: IsDigit(t[k])) && (b < |t| ==> !IsDigit(t[b]))
    && n == Value(t[a..b])
  }

  ghost predicate BlanksAt(t: Text, a: nat, b: nat) { a <= b <= |t| && forall k | a <= k < b :: IsWhitespace(t[k]) }

  ghost predicate SeparatorAt(t: Text, a: nat) { a < |t| && (t[a] == '-' || t[a] == '.' || t[a] == '/') }

  /** The genitive of the month, as it stands between day and year. */
  ghost predicate IsMonthName(word: string, month: nat) {
    || (month == 1 && word == "stycznia") || (month == 2 && word == "lutego") || (month == 3 && word == "marca")
    || (month == 4 && word == "kwietnia") || (month == 5 && word == "maja") || (month == 6 && word == "czerwca")
    || (month == 7 && word == "lipca") || (month == 8 && word == "sierpnia") || (month == 9 && word == "września")
    || (month == 10 && word == "października") || (month == 11 && word == "listopada")
    || (month == 12 && word == "grudnia")
  }

  // ---- The layouts ------------------------------------------------------------------------

  /** Year, month and day with a separator between them and no blanks. */
  ghost predicate IsoAt(t: Text, i: nat, a: nat, b: nat, e: nat, year: nat, month: nat, day: nat) {
    && NumberAt(t, i, a, year) && year >= 1000 && SeparatorAt(t, a)
    && NumberAt(t, a + 1, b, month) && SeparatorAt(t, b) && NumberAt(t, b + 1, e, day)
  }

  /** Day, separator, month, separator and year; blanks may stand everywhere but behind the month. */
  ghost predicate NumericAt(t: Text, i: nat, a: nat, b: nat, c: nat, f: nat, g: nat, e: nat,
    year: nat, month: nat, day: nat)
  {
    && NumberAt(t, i, a, day) && day < 1000 && BlanksAt(t, a, b) && SeparatorAt(t, b) && BlanksAt(t, b + 1, c)
    && NumberAt(t, c, f, month) && SeparatorAt(t, f) && BlanksAt(t, f + 1, g) && NumberAt(t, g, e, year)
  }

  /** Day, name of the month and year, with any blanks between them. */
  ghost predicate LongAt(t: Text, i: nat, a: nat, b: nat, c: nat, g: nat, e: nat, year: nat, month: nat, day: nat) {
    && NumberAt(t, i, a, day) && day < 1000 && BlanksAt(t, a, b)
    && b <= c <= |t| && IsMonthName(t[b..c], month) && BlanksAt(t, c, g) && NumberAt(t, g, e, year)
  }

  /** The date (year, month, day) stands in `t` from `i` to `e`, in one of the three layouts. */
  ghost predicate DateAt(t: Text, i: nat, e: nat, year: nat, month: nat, day: nat) {
    && IsDate(year, month, day)
    && (|| (exists a: nat, b: nat :: IsoAt(t, i, a, b, e, year, month, day))
        || (exists a: nat, b: nat, c: nat, f: nat, g: nat :: NumericAt(t, i, a, b, c, f, g, e, year, month, day))
        || (exists a: nat, b: nat, c: nat, g: nat :: LongAt(t, i, a, b, c, g, e, year, month, day)))
  }

  // ---- Every layout is read ---------------------------------------------------------------

  lemma NumberIsTaken(t: Text, a: nat, b: nat, n: nat)
    ensures NumberAt(t, a, b, n) <==> a <= |t| && TakeNumber(t, a) == Some(Read(n, b))
  {
    hide Value;
    if NumberAt(t, a, b, n) { DigitsEndIs(t, a, b); }
  }

  lemma {:induction false} BlanksAreSkipped(t: Text, a: nat, b: nat)
    requires BlanksAt(t, a, b) && (b < |t| ==> !IsWhitespace(t[b]))
    ensures SpacesEnd(t, a) == b
    decreases b - a
  {
    if a < b { BlanksAreSkipped(t, a + 1, b); }
  }

  lemma {:induction false} LettersAreTaken(t: Text, a: nat, b: nat)
    requires a <= b <= |t| && (forall k | a <= k < b :: IsAlphabetic(t[k])) && (b < |t| ==> !IsAlphabetic(t[b]))
    ensures LettersEnd(t, a) == b
    decreases b - a
  {
    if a < b { LettersAreTaken(t, a + 1, b); }
  }

  lemma IsoIsRead(t: Text, i: nat, a: nat, b: nat, e: nat, year: nat, month: nat, day: nat)
    requires IsDate(year, month, day) && IsoAt(t, i, a, b, e, year, month, day)
    ensures TryParseDateAt(t, i) == Some(Read(IsoText(year, month, day), e))
  {
    hide TakeNumber, NumberAt, IsoText;
    NumberIsTaken(t, i, a, year);
    NumberIsTaken(t, a + 1, b, month);
    NumberIsTaken(t, b + 1, e, day);
  }

  /** Blanks in front of a number or a separator end there. */
  lemma BlanksEndAt(t: Text, a: nat, b: nat)
    requires BlanksAt(t, a, b) && b < |t| && (IsDigit(t[b]) || SeparatorAt(t, b))
    ensures SpacesEnd(t, a) == b
  {
    BlanksAreSkipped(t, a, b);
  }

  /** Wherever a day-first date in figures stands, it is read as that day of that month of that year. */
  lemma NumericIsRead(t: Text, i: nat, a: nat, b: nat, c: nat, f: nat, g: nat, e: nat,
    year: nat, month: nat, day: nat)
    requires IsDate(year, month, day) && NumericAt(t, i, a, b, c, f, g, e, year, month, day)
    ensures TryParseDateAt(t, i) == Some(Read(IsoText(year, month, day), e))
  {
    NumericEnds(t, i, a, b, c, f, g, e, year, month, day);
    hide *;
    NumericSteps(t, i, a, b, c, f, g, e, year, month, day);
    DatedIs(year, month, day, e);
  }

  lemma NumericSteps(t: Text, i: nat, a: nat, b: nat, c: nat, f: nat, g: nat, e: nat, year: nat, month: nat, day: nat)
    requires i <= |t| && a <= |t| && b < |t| && c <= |t| && f < |t| && g <= |t| && day < 1000
    requires TakeNumber(t, i) == Some(Read(day, a)) && SpacesEnd(t, a) == b && TakeSeparator(t, b) == Some(b + 1)
    requires SpacesEnd(t, b + 1) == c && TakeNumber(t, c) == Some(Read(month, f))
    requires TakeSeparator(t, f) == Some(f + 1) && SpacesEnd(t, f + 1) == g && TakeNumber(t, g) == Some(Read(year, e))
    ensures TryParseDateAt(t, i) == Dated(year, month, day, e)
  {
    hide TakeNumber, SpacesEnd, TakeSeparator, LongForm, IsoForm, Dated, IsWhitespace, IsDigit;
  }

  lemma DatedIs(year: nat, month: nat, day: nat, next: nat)
    requires IsDate(year, month, day)
    ensures Dated(year, month, day, next) == Some(Read(IsoText(year, month, day), next))
  {
  }

  /** The numbers and blanks of the layout end where the reader stops. */
  lemma NumericEnds(t: Text, i: nat, a: nat, b: nat, c: nat, f: nat, g: nat, e: nat, year: nat, month: nat, day: nat)
    requires NumericAt(t, i, a, b, c, f, g, e, year, month, day)
    ensures i <= |t| && a <= |t| && b < |t| && c <= |t| && f < |t| && g <= |t| && day < 1000
    ensures TakeSeparator(t, b) == Some(b + 1) && TakeSeparator(t, f) == Some(f + 1)
    ensures TakeNumber(t, i) == Some(Read(day, a))
    ensures TakeNumber(t, c) == Some(Read(month, f)) && TakeNumber(t, g) == Some(Read(year, e))
    ensures SpacesEnd(t, a) == b && SpacesEnd(t, b + 1) == c && SpacesEnd(t, f + 1) == g
  {
    hide TakeNumber, SpacesEnd, BlanksAt, Value, IsDigit;
    NumberIsTaken(t, i, a, day);
    NumberIsTaken(t, c, f, month);
    NumberIsTaken(t, g, e, year);
    BlanksEndAt(t, a, b);
    BlanksEndAt(t, b + 1, c);
    BlanksEndAt(t, f + 1, g);
  }

  lemma NamesAreWords(word: string, month: nat)
    requires IsMonthName(word, month)
    ensures word != [] && (forall c | c in word :: IsAlphabetic(c)) && MonthOf(word, 0) == Some(month)
  {
    NameIsWord(word, month);
    MonthIs(word, month);
  }

  lemma NameIsWord(word: string, month: nat)
    requires IsMonthName(word, month)
    ensures word != [] && (forall c | c in word :: IsAlphabetic(c))
  {
  }

  lemma MonthIs(word: string, month: nat)
    ensures IsMonthName(word, month) <==> MonthOf(word, 0) == Some(month)
  {
    MonthsAreNamed();
    var m := MonthOf(word, 0);
  }

  lemma MonthsAreNamed()
    ensures |MONTHS_PL| == 12 && forall j | 0 <= j < 12 :: IsMonthName(MONTHS_PL[j], j + 1)
  {
  }

  lemma LetterIsNoBlank(c: char)
    ensures IsAlphabetic(c) ==> !IsWhitespace(c) && !IsDigit(c) && c !in {'-', '.', '/'}
  {
  }

  /** Wherever day, name of the month and year stand, they are read as that date. */
  lemma LongIsRead(t: Text, i: nat, a: nat, b: nat, c: nat, g: nat, e: nat, year: nat, month: nat, day: nat)
    requires IsDate(year, month, day) && LongAt(t, i, a, b, c, g, e, year, month, day)
    ensures TryParseDateAt(t, i) == Some(Read(IsoText(year, month, day), e))
  {
    hide IsMonthName, MonthOf, IsAlphabetic, IsoText, Value;
    NumberIsTaken(t, i, a, day);
    NumberIsTaken(t, g, e, year);
    NamesAreWords(t[b..c], month);
    forall k | b <= k < c ensures IsAlphabetic(t[k]) { assert t[k] == t[b..c][k - b]; }
    LetterIsNoBlank(t[b]);
    LetterIsNoBlank(t[c]);
    assert c < |t| && (IsWhitespace(t[c]) || IsDigit(t[c]));
    BlanksAreSkipped(t, a, b);
    LettersAreTaken(t, b, c);
    BlanksAreSkipped(t, c, g);
  }

  // ---- Nothing else is read ---------------------------------------------------------------

  lemma NumbersTaken(t: Text, a: nat)
    requires a <= |t|
    ensures TakeNumber(t, a).Some? ==> NumberAt(t, a, TakeNumber(t, a).value.next, TakeNumber(t, a).value.value)
  {
  }

  lemma IsoFormHasLayout(t: Text, i: nat)
    requires i <= |t| && TakeNumber(t, i).Some? && TakeNumber(t, i).value.value >= 1000
    requires IsoForm(t, TakeNumber(t, i).value.value, TakeNumber(t, i).value.next).Some?
    ensures HasLayout(t, i, IsoForm(t, TakeNumber(t, i).value.value, TakeNumber(t, i).value.next).value)
  {
    hide TakeNumber, NumberAt, IsoText, IsDate;
    var year := TakeNumber(t, i).value;
    NumbersTaken(t, i);
    NumbersTaken(t, year.next + 1);
    var month := TakeNumber(t, year.next + 1).value;
    NumbersTaken(t, month.next + 1);
    var day := TakeNumber(t, month.next + 1).value;
    assert IsoAt(t, i, year.next, month.next, day.next, year.value, month.value, day.value);
    assert IsoForm(t, year.value, year.next) == Dated(year.value, month.value, day.value, day.next);
    assert DateAt(t, i, day.next, year.value, month.value, day.value);
  }

  /** What was read is a date that stands there. */
  ghost predicate HasLayout(t: Text, i: nat, r: Read<string>) {
    exists year: nat, month: nat, day: nat ::
      DateAt(t, i, r.next, year, month, day) && r.value == IsoText(year, month, day)
  }

  lemma NumericFormHasLayout(t: Text, i: nat, b: nat, c: nat)
    requires i <= |t| && TakeNumber(t, i).Some? && TakeNumber(t, i).value.value < 1000
    requires b == SpacesEnd(t, TakeNumber(t, i).value.next) && SeparatorAt(t, b)
    requires c == SpacesEnd(t, b + 1) && TakeNumber(t, c).Some?
    requires NumericForm(t, TakeNumber(t, i).value.value, TakeNumber(t, c).value).Some?
    ensures HasLayout(t, i, NumericForm(t, TakeNumber(t, i).value.value, TakeNumber(t, c).value).value)
  {
    hide TakeNumber, NumberAt, IsoText, IsDate, SpacesEnd;
    var day, month := TakeNumber(t, i).value, TakeNumber(t, c).value;
    var g := SpacesEnd(t, month.next + 1);
    var year := TakeNumber(t, g).value;
    NumbersTaken(t, i);
    NumbersTaken(t, c);
    NumbersTaken(t, g);
    assert NumericForm(t, day.value, month) == Dated(year.value, month.value, day.value, year.next);
    assert NumericAt(t, i, day.next, b, c, month.next, g, year.next, year.value, month.value, day.value);
    assert DateAt(t, i, year.next, year.value, month.value, day.value);
  }

  lemma LongFormHasLayout(t: Text, i: nat)
    requires i <= |t| && TakeNumber(t, i).Some? && TakeNumber(t, i).value.value < 1000
    requires LongForm(t, TakeNumber(t, i).value.value, TakeNumber(t, i).value.next).Some?
    ensures HasLayout(t, i, LongForm(t, TakeNumber(t, i).value.value, TakeNumber(t, i).value.next).value)
  {
    hide TakeNumber, NumberAt, IsoText, IsDate, SpacesEnd, LettersEnd, MonthOf, IsMonthName;
    var day := TakeNumber(t, i).value;
    var b := SpacesEnd(t, day.next);
    var c := LettersEnd(t, b);
    var month, g := MonthOf(t[b..c], 0).value, SpacesEnd(t, c);
    var year := TakeNumber(t, g).value;
    NumbersTaken(t, i);
    NumbersTaken(t, g);
    MonthIs(t[b..c], month);
    assert LongForm(t, day.value, day.next) == Dated(year.value, month, day.value, year.next);
    assert LongAt(t, i, day.next, b, c, g, year.next, year.value, month, day.value);
    assert DateAt(t, i, year.next, year.value, month, day.value);
  }

  lemma ReadHasALayout(t: Text, i: nat)
    requires i <= |t| && TryParseDateAt(t, i).Some?
    ensures HasLayout(t, i, TryParseDateAt(t, i).value)
  {
    hide TakeNumber, SpacesEnd, IsoForm, NumericForm, LongForm, HasLayout;
    var first := TakeNumber(t, i).value;
    if first.value >= 1000 {
      IsoFormHasLayout(t, i);
    } else {
      var b := SpacesEnd(t, first.next);
      if SeparatorAt(t, b) && TakeNumber(t, SpacesEnd(t, b + 1)).Some? {
        NumericFormHasLayout(t, i, b, SpacesEnd(t, b + 1));
      } else {
        LongFormHasLayout(t, i);
      }
    }
  }

  /** The reader reads a date at a place, up to an end, exactly when that date stands there in one of the layouts. */
  lemma DateIsReadIff(t: Text, i: nat, e: nat, year: nat, month: nat, day: nat)
    requires i <= |t| && IsDate(year, month, day)
    ensures TryParseDateAt(t, i) == Some(Read(IsoText(year, month, day), e)) <==> DateAt(t, i, e, year, month, day)
  {
    hide TryParseDateAt, IsoText, IsoAt, NumericAt, LongAt;
    if DateAt(t, i, e, year, month, day) {
      if a: nat, b: nat :| IsoAt(t, i, a, b, e, year, month, day) {
        IsoIsRead(t, i, a, b, e, year, month, day);
      } else if a: nat, b: nat, c: nat, f: nat, g: nat :| NumericAt(t, i, a, b, c, f, g, e, year, month, day) {
        NumericIsRead(t, i, a, b, c, f, g, e, year, month, day);
      } else {
        var a: nat, b: nat, c: nat, g: nat :| LongAt(t, i, a, b, c, g, e, year, month, day);
        LongIsRead(t, i, a, b, c, g, e, year, month, day);
      }
    } else if TryParseDateAt(t, i) == Some(Read(IsoText(year, month, day), e)) {
      ReadHasALayout(t, i);
      var y: nat, m: nat, d: nat :| DateAt(t, i, e, y, m, d) && IsoText(year, month, day) == IsoText(y, m, d);
      StringOrderIsCalendarOrder(y, m, d, year, month, day);
    }
  }

  // ---- The first date ---------------------------------------------------------------------

  /** A run of digits at `i` that begins a date. */
  ghost predicate DateBegins(t: Text, i: int) {
    StartsRun(t, i) && exists e: nat, year: nat, month: nat, day: nat :: DateAt(t, i, e, year, month, day)
  }

  /** `iso` is the canonical form of a date that stands at `i`, with no date before it. */
  ghost predicate FirstStandsAt(t: Text, i: nat, iso: string) {
    && StartsRun(t, i) && (forall j | 0 <= j < i :: !DateBegins(t, j))
    && exists e: nat, year: nat, month: nat, day: nat ::
      DateAt(t, i, e, year, month, day) && iso == IsoText(year, month, day)
  }

  lemma BeginsIff(t: Text, i: nat)
    ensures DateBegins(t, i) <==> DateStartsAt(t, i)
  {
    hide TryParseDateAt, DateAt;
    if DateBegins(t, i) {
      var e: nat, year: nat, month: nat, day: nat :| DateAt(t, i, e, year, month, day);
      DateAtIsDate(t, i, e, year, month, day);
      DateIsReadIff(t, i, e, year, month, day);
    } else if DateStartsAt(t, i) {
      ReadHasALayout(t, i);
    }
  }

  lemma DateAtIsDate(t: Text, i: nat, e: nat, year: nat, month: nat, day: nat)
    requires DateAt(t, i, e, year, month, day)
    ensures IsDate(year, month, day)
  {
  }

  /** The date found in a text is the first that stands there, and none is found exactly when none stands there. */
  lemma FirstDateStands(t: Text)
    ensures FirstDate(t, 0).None? <==> forall i: nat :: !DateBegins(t, i)
    ensures FirstDate(t, 0).Some? ==> exists i: nat :: FirstStandsAt(t, i, FirstDate(t, 0).value)
  {
    hide TryParseDateAt, DateAt, FirstDate, DateBegins, HasLayout;
    FirstDateIsFirst(t, 0);
    forall i: nat ensures DateBegins(t, i) <==> DateStartsAt(t, i) { BeginsIff(t, i); }
    if FirstDate(t, 0).Some? {
      var i: nat :| IsFirstFrom(t, 0, i)
        && FirstDate(t, 0).value == TryParseDateAt(t, i).value.value;
      ReadHasALayout(t, i);
      assert HasLayout(t, i, TryParseDateAt(t, i).value);
      LayoutStands(t, i, TryParseDateAt(t, i).value);
    }
  }

  lemma LayoutStands(t: Text, i: nat, r: Read<string>)
    requires StartsRun(t, i) && (forall j | 0 <= j < i :: !DateBegins(t, j)) && HasLayout(t, i, r)
    ensures FirstStandsAt(t, i, r.value)
  {
  }
}
