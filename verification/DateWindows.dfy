/**
 * What the 80-byte window does to the first date behind a label: exactly when the date found in the
 * window is the one in the whole text, and the bodies for which it is another.
 */
module DateWindows {
  import opened Options
  import opened Texts
  import opened CalendarDates
  import opened DateScanner
  import opened DateScannerFacts
  import opened DateLabels

  // ---- A date that was cut leaves none behind it ------------------------------------------

  /** A number that reaches the end of the text begins no date. */
  lemma LastNumberIsNoDate(w: Text, i: nat)
    requires i <= |w| && DigitsEnd(w, i) == |w|
    ensures TryParseDateAt(w, i) == None
  {
    hide DigitsEnd, Value;
  }

  lemma IsoNeedsMore(w: Text, year: nat, e: nat)
    requires e < |w| && w[e] in {'-', '.', '/'} && DigitsEnd(w, SpacesEnd(w, e + 1)) == |w|
    ensures IsoForm(w, year, e) == None
  {
    hide Value;
    if SpacesEnd(w, e + 1) > e + 1 { assert IsWhitespace(w[e + 1]); }
  }

  lemma LongNeedsALetter(w: Text, day: nat, e: nat)
    requires e < |w| && w[e] in {'-', '.', '/'}
    ensures SpacesEnd(w, e) == e && LongForm(w, day, e) == None
  {
    assert LettersEnd(w, e) == e;
  }

  lemma NumericNeedsMore(w: Text, day: nat, month: Read<nat>)
    requires month.next == |w|
    ensures NumericForm(w, day, month) == None
  {
  }

  /** Nor does one behind which stands only a separator, white space and a number that reaches it. */
  lemma LastButOneIsNoDate(w: Text, i: nat)
    requires i <= |w| && DigitsEnd(w, i) < |w| && w[DigitsEnd(w, i)] in {'-', '.', '/'}
    requires DigitsEnd(w, SpacesEnd(w, DigitsEnd(w, i) + 1)) == |w|
    ensures TryParseDateAt(w, i) == None
  {
    hide Value, IsoForm, NumericForm, LongForm, DigitsEnd, SpacesEnd;
    var e := DigitsEnd(w, i);
    if TakeNumber(w, i).Some? {
      var first := TakeNumber(w, i).value;
      IsoNeedsMore(w, first.value, e);
      LongNeedsALetter(w, first.value, e);
      var month := TakeNumber(w, SpacesEnd(w, e + 1));
      if month.Some? { NumericNeedsMore(w, first.value, month.value); }
    }
  }

  lemma CutRunReachesTheEnd(t: Text, k: nat, i: nat)
    requires i <= k <= |t| && DigitsEnd(t, i) >= k
    ensures DigitsEnd(t[..k], i) == k
  {
    DigitsEndOfCut(t, k, i);
  }

  lemma RunBeforeTheCut(t: Text, k: nat, i: nat)
    requires i <= k <= |t| && DigitsEnd(t, i) < k
    ensures DigitsEnd(t[..k], i) == DigitsEnd(t, i)
  {
    DigitsEndOfCut(t, k, i);
  }

  lemma SpacesBeforeTheCut(t: Text, k: nat, i: nat)
    requires i <= k <= |t|
    ensures SpacesEnd(t[..k], i) == if SpacesEnd(t, i) < k then SpacesEnd(t, i) else k
  {
    SpacesEndOfCut(t, k, i);
  }

  /** Neither of the two numbers that end a date which the cut goes through begins another one. */
  lemma CutDateHidesNone(t: Text, k: nat, i: nat, e: nat, last: nat)
    requires i < k <= |t| && DigitsEnd(t, i) == e < |t| && t[e] in {'-', '.', '/'}
    requires last == SpacesEnd(t, e + 1) && DigitsEnd(t, last) > k
    ensures TryParseDateAt(t[..k], i) == None
  {
    hide DigitsEnd, SpacesEnd, TryParseDateAt;
    var w := t[..k];
    if e >= k {
      CutRunReachesTheEnd(t, k, i);
      LastNumberIsNoDate(w, i);
    } else {
      RunBeforeTheCut(t, k, i);
      SpacesBeforeTheCut(t, k, e + 1);
      CutRunReachesTheEnd(t, k, if last < k then last else k);
      LastButOneIsNoDate(w, i);
    }
  }

  /** Where the numbers of a date behind its first one stand: a last one, and maybe one before it. */
  datatype Shape = Shape(second: nat, last: nat)

  ghost predicate Shaped(t: Text, from: nat, next: nat, s: Shape) {
    && from <= s.last < next <= |t| && DigitsEnd(t, s.last) == next
    && (forall x | from <= x < s.last && IsDigit(t[x]) :: s.second <= x < DigitsEnd(t, s.second))
    && (s.second < s.last ==>
      var e := DigitsEnd(t, s.second);
      e < s.last && t[e] in {'-', '.', '/'} && s.last == SpacesEnd(t, e + 1))
  }

  lemma IsoShape(t: Text, year: nat, i: nat) returns (s: Shape)
    requires i <= |t| && IsoForm(t, year, i).Some?
    ensures Shaped(t, i, IsoForm(t, year, i).value.next, s)
  {
    hide Value;
    var month := TakeNumber(t, i + 1).value;
    s := Shape(i + 1, month.next + 1);
    assert IsDigit(t[s.last]);
    assert SpacesEnd(t, s.last) == s.last;
  }

  lemma NumericShape(t: Text, day: nat, i: nat) returns (s: Shape)
    requires i < |t| && t[i] in {'-', '.', '/'} && TakeNumber(t, SpacesEnd(t, i + 1)).Some?
    requires NumericForm(t, day, TakeNumber(t, SpacesEnd(t, i + 1)).value).Some?
    ensures Shaped(t, i, NumericForm(t, day, TakeNumber(t, SpacesEnd(t, i + 1)).value).value.next, s)
  {
    hide Value, SpacesEnd, DigitsEnd, TakeNumber, BuildIso, Shaped;
    var second := SpacesEnd(t, i + 1);
    var month := TakeNumber(t, second).value;
    s := Shape(second, SpacesEnd(t, month.next + 1));
    TwoNumbersShaped(t, i, NumericForm(t, day, month).value.next, s, month.next);
  }

  lemma TwoNumbersShaped(t: Text, i: nat, next: nat, s: Shape, e: nat)
    requires i < |t| && t[i] in {'-', '.', '/'} && s.second == SpacesEnd(t, i + 1)
    requires s.second < e == DigitsEnd(t, s.second) < |t| && t[e] in {'-', '.', '/'} && s.last == SpacesEnd(t, e + 1)
    requires s.last < next == DigitsEnd(t, s.last)
    ensures Shaped(t, i, next, s)
  {
    SpacesAreNoDigits(t, i + 1);
    SpacesAreNoDigits(t, e + 1);
    hide SpacesEnd, DigitsEnd;
  }

  lemma SpacesAreNoDigits(t: Text, i: nat)
    requires i <= |t|
    ensures forall x | i <= x < SpacesEnd(t, i) :: !IsDigit(t[x])
  {
    assert forall x | i <= x < SpacesEnd(t, i) :: IsWhitespace(t[x]);
  }

  lemma LongShape(t: Text, day: nat, i: nat) returns (s: Shape)
    requires i <= |t| && LongForm(t, day, i).Some?
    ensures Shaped(t, i, LongForm(t, day, i).value.next, s)
  {
    hide Value, MonthOf;
    var p := SpacesEnd(t, i);
    var word := TakeWord(t, p).value;
    var last := SpacesEnd(t, word.next);
    s := Shape(last, last);
    assert forall x | i <= x < p :: IsWhitespace(t[x]);
    assert forall x | p <= x < word.next :: IsAlphabetic(t[x]);
    assert forall x | word.next <= x < last :: IsWhitespace(t[x]);
  }

  lemma DateShape(t: Text, j: nat) returns (s: Shape)
    requires j <= |t| && TryParseDateAt(t, j).Some?
    ensures DigitsEnd(t, j) <= |t| && Shaped(t, DigitsEnd(t, j), TryParseDateAt(t, j).value.next, s)
  {
    hide Value, Shaped, IsoForm, NumericForm, LongForm;
    var first := TakeNumber(t, j).value;
    if first.value >= 1000 {
      s := IsoShape(t, first.value, first.next);
    } else {
      var p := SpacesEnd(t, first.next);
      var p1 := TakeSeparator(t, p);
      if p1.Some? && TakeNumber(t, SpacesEnd(t, p1.value)).Some? {
        s := NumericShape(t, first.value, p);
        ShapedAfterSpaces(t, first.next, TryParseDateAt(t, j).value.next, s);
      } else {
        s := LongShape(t, first.value, first.next);
      }
    }
  }

  lemma ShapedAfterSpaces(t: Text, from: nat, next: nat, s: Shape)
    requires from <= |t| && Shaped(t, SpacesEnd(t, from), next, s)
    ensures Shaped(t, from, next, s)
  {
    assert forall x | from <= x < SpacesEnd(t, from) :: IsWhitespace(t[x]);
    hide SpacesEnd, DigitsEnd;
  }

  /** Inside a date that reaches beyond the cut no other date begins in the text that was cut. */
  lemma NoneInsideACutDate(t: Text, k: nat, j: nat, i: nat)
    requires j < i < k <= |t| && StartsRun(t, i) && TryParseDateAt(t, j).Some? && TryParseDateAt(t, j).value.next > k
    ensures TryParseDateAt(t[..k], i) == None
  {
    var s := DateShape(t, j);
    hide TryParseDateAt, DigitsEnd, SpacesEnd;
    assert i >= DigitsEnd(t, j);
    if i < s.last {
      assert i == s.second;
      CutDateHidesNone(t, k, i, DigitsEnd(t, i), s.last);
    } else {
      assert i == s.last;
      CutRunReachesTheEnd(t, k, i);
      LastNumberIsNoDate(t[..k], i);
    }
  }

  // ---- A date in front of the cut is read from the text that was cut -----------------------

  lemma NumberBeforeCut(t: Text, k: nat, i: nat)
    requires i <= k <= |t| && TakeNumber(t, i).Some? && TakeNumber(t, i).value.next <= k
    ensures TakeNumber(t[..k], i) == TakeNumber(t, i)
  {
    hide DigitsEnd, Value;
    DigitsEndOfCut(t, k, i);
    DigitsGoOn(t, k);
    assert t[..k][i..DigitsEnd(t, i)] == t[i..DigitsEnd(t, i)];
  }

  lemma IsoBeforeCut(t: Text, k: nat, year: nat, i: nat)
    requires i <= k <= |t| && IsoForm(t, year, i).Some? && IsoForm(t, year, i).value.next <= k
    ensures IsoForm(t[..k], year, i) == IsoForm(t, year, i)
  {
    hide DigitsEnd, Value, TakeNumber;
    var month := TakeNumber(t, i + 1).value;
    var day := TakeNumber(t, month.next + 1).value;
    NumberBeforeCut(t, k, i + 1);
    NumberBeforeCut(t, k, month.next + 1);
  }

  lemma NumericBeforeCut(t: Text, k: nat, day: nat, month: Read<nat>)
    requires month.next <= |t| && k <= |t| && NumericForm(t, day, month).Some? &&
      NumericForm(t, day, month).value.next <= k
    ensures month.next < k && NumericForm(t[..k], day, month) == NumericForm(t, day, month)
  {
    hide DigitsEnd, SpacesEnd, Value, TakeNumber;
    var p := SpacesEnd(t, month.next + 1);
    SpacesBeforeTheCut(t, k, month.next + 1);
    NumberBeforeCut(t, k, p);
  }

  lemma LongBeforeCut(t: Text, k: nat, day: nat, i: nat)
    requires i <= |t| && k <= |t| && LongForm(t, day, i).Some? && LongForm(t, day, i).value.next <= k
    ensures i < k && LongForm(t[..k], day, i) == LongForm(t, day, i)
  {
    hide DigitsEnd, SpacesEnd, LettersEnd, Value, TakeNumber, MonthOf;
    var p := SpacesEnd(t, i);
    var word := TakeWord(t, p).value;
    SpacesBeforeTheCut(t, k, i);
    LettersEndOfCut(t, k, p);
    SpacesBeforeTheCut(t, k, word.next);
    NumberBeforeCut(t, k, SpacesEnd(t, word.next));
    assert t[..k][p..word.next] == t[p..word.next];
  }

  lemma MonthBeforeCut(t: Text, k: nat, day: nat, i: nat)
    requires i <= |t| && k <= |t| && TakeNumber(t, SpacesEnd(t, i)).Some?
    requires var date := NumericForm(t, day, TakeNumber(t, SpacesEnd(t, i)).value); date.Some? && date.value.next <= k
    ensures i < k && SpacesEnd(t[..k], i) == SpacesEnd(t, i)
    ensures TakeNumber(t[..k], SpacesEnd(t, i)) == TakeNumber(t, SpacesEnd(t, i))
    ensures var month := TakeNumber(t, SpacesEnd(t, i)).value;
      NumericForm(t[..k], day, month) == NumericForm(t, day, month)
  {
    hide DigitsEnd, SpacesEnd, TakeNumber, NumericForm;
    NumericBeforeCut(t, k, day, TakeNumber(t, SpacesEnd(t, i)).value);
    SpacesBeforeTheCut(t, k, i);
    NumberBeforeCut(t, k, SpacesEnd(t, i));
  }

  lemma DateBeforeCut(t: Text, k: nat, i: nat)
    requires i <= k <= |t| && TryParseDateAt(t, i).Some? && TryParseDateAt(t, i).value.next <= k
    ensures TryParseDateAt(t[..k], i) == TryParseDateAt(t, i)
  {
    hide DigitsEnd, SpacesEnd, Value, TakeNumber, IsoForm, NumericForm, LongForm;
    var s := DateShape(t, i);
    var first := TakeNumber(t, i).value;
    NumberBeforeCut(t, k, i);
    if first.value >= 1000 {
      IsoBeforeCut(t, k, first.value, first.next);
    } else {
      var p := SpacesEnd(t, first.next);
      var p1 := TakeSeparator(t, p);
      SpacesBeforeTheCut(t, k, first.next);
      if p1.Some? && TakeNumber(t, SpacesEnd(t, p1.value)).Some? {
        MonthBeforeCut(t, k, first.value, p1.value);
      } else {
        LongFormStartsWithALetter(t, first.value, first.next);
        LongBeforeCut(t, k, first.value, first.next);
      }
    }
  }

  // ---- The first date of a text that was cut ----------------------------------------------

  /** `r` is what is read at position `i`, where the first date of `t` begins. */
  ghost predicate FirstDateAt(t: Text, i: nat, r: Read<string>) {
    IsFirstFrom(t, 0, i) && TryParseDateAt(t, i) == Some(r)
  }

  lemma NoEarlierDate(t: Text, k: nat, i: nat)
    requires k <= |t| && IsFirstFrom(t[..k], 0, i)
    ensures forall j | 0 <= j < i :: !DateStartsAt(t, j)
  {
    hide TryParseDateAt;
    var w := t[..k];
    forall j | 0 <= j < i ensures !DateStartsAt(t, j) {
      if DateStartsAt(t, j) {
        assert !DateStartsAt(w, j);
        if TryParseDateAt(t, j).value.next <= k { DateBeforeCut(t, k, j); }
        else { NoneInsideACutDate(t, k, j, i); }
        assert false;
      }
    }
  }

  /**
   * The date found first in a text that was cut is the one found first in the whole text, at the same
   * place and up to the same place, exactly when the cut does not go through its last number. If it
   * does, and the date is a day-first one, the whole text holds no date at that place.
   */
  lemma FirstDateOfCut(t: Text, k: nat) returns (i: nat, r: Read<string>)
    requires k <= |t| && FirstDate(t[..k], 0).Some?
    ensures FirstDateAt(t[..k], i, r) && FirstDate(t[..k], 0) == Some(r.value) && r.next <= k
    ensures FirstDateAt(t, i, r) <==> !(r.next == k && CutsDigits(t, k))
    ensures r.next == k && CutsDigits(t, k) && TakeNumber(t[..k], i).value.value < 1000 ==> !DateStartsAt(t, i)
  {
    hide TryParseDateAt, TakeNumber;
    var w := t[..k];
    FirstDateIsFirst(w, 0);
    i :| IsFirstFrom(w, 0, i) && FirstDate(w, 0).value == TryParseDateAt(w, i).value.value;
    r := TryParseDateAt(w, i).value;
    DateNeedsANumber(w, i);
    CutChangesOnlyALastNumber(t, k, i);
    NoEarlierDate(t, k, i);
    if TakeNumber(w, i).value.value < 1000 { DayFirstOfCut(t, k, i); }
  }

  lemma DateNeedsANumber(t: Text, i: nat)
    requires i <= |t| && TryParseDateAt(t, i).Some?
    ensures TakeNumber(t, i).Some?
  {
  }

  /** The same for the window behind a label and the text that follows the label. */
  lemma WindowDateIsTheFirstDateIff(t: Text, start: nat) returns (i: nat, r: Read<string>)
    requires start <= |t| && FirstDate(Window(t, start), 0).Some?
    ensures FirstDateAt(Window(t, start), i, r) && FirstDate(Window(t, start), 0) == Some(r.value)
    ensures var rest, k := t[start..], |Window(t, start)|;
      && k <= |rest| && Window(t, start) == rest[..k] && r.next <= k
      && (FirstDateAt(rest, i, r) <==> !(r.next == k && CutsDigits(rest, k)))
  {
    hide FirstDate, FirstDateAt;
    var rest, k := t[start..], WindowEnd(t, start, start) - start;
    assert Window(t, start) == rest[..k];
    i, r := FirstDateOfCut(rest, k);
  }

  // ---- The bodies for which it is another -------------------------------------------------

  lemma {:induction false} OffsetOfConcat(a: Text, b: Text, j: nat)
    requires j <= |b|
    ensures Offset(a + b, |a| + j) == Offset(a, |a|) + Offset(b, j)
  {
    if j > 0 { OffsetOfConcat(a, b, j - 1); }
    else { OffsetOfPrefix(a, b, |a|); }
  }

  lemma {:induction false} OffsetOfPrefix(a: Text, b: Text, j: nat)
    requires j <= |a|
    ensures Offset(a + b, j) == Offset(a, j)
  {
    if j > 0 { OffsetOfPrefix(a, b, j - 1); }
  }

  lemma {:induction false} AsciiOffset(t: Text, j: nat)
    requires j <= |t| && forall k | 0 <= k < j :: t[k] as int < 0x80
    ensures Offset(t, j) == j
  {
    if j > 0 { AsciiOffset(t, j - 1); }
  }

  lemma WindowEndIsUnique(t: Text, start: nat, e: nat, e': nat)
    requires start <= |t| && IsWindowEnd(t, start, e) && IsWindowEnd(t, start, e')
    ensures e == e'
  {
    if e < e' { OffsetGrows(t, e + 1, e'); } else if e' < e { OffsetGrows(t, e' + 1, e); }
  }

  lemma OffsetInside(before: Text, filler: Text, iso: Text, rest: Text, j: nat)
    requires j <= |iso| && forall k | 0 <= k < |iso| :: iso[k] as int < 0x80
    ensures var t := before + (filler + (iso + rest));
      Offset(t, |before| + |filler| + j) == Offset(t, |before|) + Offset(filler, |filler|) + j
  {
    hide Offset;
    var tail := filler + (iso + rest);
    OffsetOfConcat(before, tail, |filler| + j);
    OffsetOfConcat(before, tail, 0);
    OffsetOfConcat(filler, iso + rest, j);
    OffsetOfPrefix(iso, rest, j);
    AsciiOffset(iso, j);
    NoOffset(tail);
  }

  /** Behind `before`, 71 bytes of filler leave the window room for nine characters of an ISO date. */
  lemma WindowOfNine(before: Text, filler: Text, iso: Text, rest: Text)
    requires Offset(filler, |filler|) == 71 && |iso| == 10 && forall k | 0 <= k < 10 :: iso[k] as int < 0x80
    ensures Window(before + (filler + (iso + rest)), |before|) == filler + iso[..9]
  {
    hide Offset, WindowEnd;
    var t, start := before + (filler + (iso + rest)), |before|;
    var tail := filler + (iso + rest);
    OffsetInside(before, filler, iso, rest, 9);
    OffsetInside(before, filler, iso, rest, 10);
    WindowEndIsUnique(t, start, WindowEnd(t, start, start), start + |filler| + 9);
    assert t[start..] == tail && tail[..|filler| + 9] == filler + iso[..9];
  }

  lemma NoOffset(t: Text)
    ensures Offset(t, 0) == 0
  {
  }

  lemma {:induction false} FillerIsSkipped(filler: Text, s: Text, i: nat)
    requires i <= |filler| && forall c | c in filler :: !IsDigit(c)
    ensures FirstDate(filler + s, i) == FirstDate(filler + s, |filler|)
    decreases |filler| - i
  {
    if i < |filler| {
      assert filler[i] in filler;
      FillerIsSkipped(filler, s, i + 1);
    }
  }

  /** The window of nine characters of an ISO date holds the day of its first digit, or no date. */
  lemma FirstDateOfNine(filler: Text, year: int, month: nat, day: nat)
    requires IsDate(year, month, day) && forall c | c in filler :: !IsDigit(c)
    ensures FirstDate(filler + IsoText(year, month, day)[..9], 0)
      == if day >= 10 then Some(IsoText(year, month, day / 10)) else None
  {
    hide TryParseDateAt, IsoText;
    IsoTextLayout(year, month, day);
    var s := IsoText(year, month, day)[..9];
    var w, n := filler + s, |filler|;
    FillerIsSkipped(filler, s, 0);
    assert w[n..] == s;
    IsoDateLosesItsLastDigit(w, n, year, month, day);
    assert forall k | 0 <= k < 9 :: w[n + k] == s[k] == IsoText(year, month, day)[k];
    if day < 10 { NothingElseInNine(w, n); }
  }

  lemma NothingElseInNine(w: Text, n: nat)
    requires |w| == n + 9 && w[n + 4] == '-' && w[n + 7] == '-' && TryParseDateAt(w, n) == None
    requires forall k | n <= k < n + 9 && k != n + 4 && k != n + 7 :: IsDigit(w[k])
    ensures FirstDate(w, n) == None
  {
    DigitsEndIs(w, n, n + 4);
    DigitsEndIs(w, n + 5, n + 7);
    DigitsEndIs(w, n + 8, n + 9);
    assert SpacesEnd(w, n + 8) == n + 8;
    LastButOneIsNoDate(w, n + 5);
    LastNumberIsNoDate(w, n + 8);
    hide TryParseDateAt, DigitsEnd, SpacesEnd;
    assert FirstDate(w, n + 9) == None;
    assert FirstDate(w, n + 8) == None;
    assert FirstDate(w, n + 7) == None;
    assert FirstDate(w, n + 5) == None;
    assert FirstDate(w, n + 4) == None;
  }

  /**
   * THE WRONG DAY. In any body, behind any occurrence of a label and any 71 bytes without a digit, an
   * ISO date whose day has two significant digits is found as the day of the first of them, whatever
   * follows; one whose day has one is not found.
   */
  lemma WindowCutsIsoDates(before: Text, tag: Text, filler: Text, rest: Text, year: int, month: nat, day: nat)
    requires IsDate(year, month, day) && Offset(filler, |filler|) == 71 && forall c | c in filler :: !IsDigit(c)
    ensures var t := before + tag + (filler + (IsoText(year, month, day) + rest));
      && LabelAt(t, tag, |before|)
      && DateAfter(t, tag, |before|) == if day >= 10 then Some(IsoText(year, month, day / 10)) else None
  {
    hide Offset, IsoText, Window, FirstDate;
    IsoTextLayout(year, month, day);
    WindowBehindLabel(before, tag, filler, IsoText(year, month, day), rest);
    FirstDateOfNine(filler, year, month, day);
  }

  lemma WindowBehindLabel(before: Text, tag: Text, filler: Text, iso: Text, rest: Text)
    requires Offset(filler, |filler|) == 71 && |iso| == 10 && forall k | 0 <= k < 10 :: iso[k] as int < 0x80
    ensures var t := before + tag + (filler + (iso + rest));
      LabelAt(t, tag, |before|) && Window(t, |before| + |tag|) == filler + iso[..9]
  {
    hide Offset, Window;
    var t := before + tag + (filler + (iso + rest));
    assert t[|before|..|before| + |tag|] == tag;
    WindowOfNine(before + tag, filler, iso, rest);
  }

  /** And it is what the search answers for such a body. */
  lemma WrongDayIsTheAnswer(tag: Text, filler: Text, rest: Text, year: int, month: nat, day: nat)
    requires IsDate(year, month, day) && day >= 10 && tag != []
    requires Offset(filler, |filler|) == 71 && forall c | c in filler :: !IsDigit(c)
    ensures var t := tag + (filler + (IsoText(year, month, day) + rest));
      IsAnswer(t, [tag], Some(IsoText(year, month, day / 10)))
    ensures IsoText(year, month, day / 10) != IsoText(year, month, day)
  {
    hide Offset, IsoText, DateAfter;
    var t := tag + (filler + (IsoText(year, month, day) + rest));
    WindowCutsIsoDates([], tag, filler, rest, year, month, day);
    assert [] + tag + (filler + (IsoText(year, month, day) + rest)) == t;
    assert Find(t, tag, 0) == Some(0);
    assert Occurrences(t, tag, 0)[0] == 0;
    assert Best(t, [tag], 0, 0);
    StringOrderIsCalendarOrder(year, month, day / 10, year, month, day);
  }
}
