/** What the date reader promises about dates the program prints, and about texts that were cut off. */
module DateScannerFacts {
  import opened Options
  import opened CalendarDates
  import opened Texts
  import opened DateScanner

  // ---- Reading back a printed date --------------------------------------------------------

  /** The digits `s` stand at position `i` of `t` and end there. */
  ghost predicate RunAt(t: Text, i: nat, s: string) {
    && i + |s| <= |t| && t[i..i + |s|] == s && s != [] && (forall k | i <= k < i + |s| :: IsDigit(t[k]))
    && (i + |s| < |t| ==> !IsDigit(t[i + |s|]))
  }

  lemma {:induction false} DigitsEndIs(t: Text, i: nat, e: nat)
    requires i <= e <= |t| && (forall k | i <= k < e :: IsDigit(t[k])) && (e < |t| ==> !IsDigit(t[e]))
    ensures DigitsEnd(t, i) == e
    decreases e - i
  {
    if i < e { DigitsEndIs(t, i + 1, e); }
  }

  lemma RunIsTaken(t: Text, i: nat, s: string)
    requires RunAt(t, i, s) && |s| <= 4
    ensures TakeNumber(t, i) == Some(Read(Value(s), i + |s|))
  {
    hide Value, DigitsEnd;
    DigitsEndIs(t, i, i + |s|);
  }

  /** The part of an embedded string that reaches from `a` to `b`. */
  lemma Within(t: Text, i: nat, s: string, a: nat, b: nat)
    requires i + |s| <= |t| && t[i..i + |s|] == s && a <= b <= |s|
    ensures t[i + a..i + b] == s[a..b]
    ensures forall k | i + a <= k < i + b :: t[k] == s[k - i]
  {
    forall k | i + a <= k < i + b ensures t[k] == s[k - i] { assert t[i..i + |s|][k - i] == t[k]; }
  }

  /** Three numbers with hyphens between them are read as year, month and day. */
  lemma IsoReads(t: Text, i: nat, year: nat, month: nat, day: nat, next: nat)
    requires i + 8 <= |t| && t[i + 4] == '-' && t[i + 7] == '-' && year >= 1000
    requires TakeNumber(t, i) == Some(Read(year, i + 4)) && TakeNumber(t, i + 5) == Some(Read(month, i + 7))
    requires TakeNumber(t, i + 8) == Some(Read(day, next))
    ensures TryParseDateAt(t, i) == Dated(year, month, day, next)
  {
    hide TakeNumber, Dated, LongForm, NumericForm;
  }

  /**
   * A printed date, wherever it stands in a text, is read back as itself, provided no further digit
   * follows it directly.
   */
  lemma ScannerUndoesPrinter(t: Text, i: nat, year: int, month: nat, day: nat)
    requires IsDate(year, month, day) && i + 10 <= |t| && t[i..i + 10] == IsoText(year, month, day)
    requires i + 10 < |t| ==> !IsDigit(t[i + 10])
    ensures TryParseDateAt(t, i) == Some(Read(IsoText(year, month, day), i + 10))
  {
    var iso := IsoText(year, month, day);
    var y, m, d := FourDigits(year), TwoDigits(month), TwoDigits(day);
    IsoTextLayout(year, month, day);
    Within(t, i, iso, 0, 10);
    RunWithin(t, i, iso, 0, 4);
    RunWithin(t, i, iso, 5, 7);
    RunWithin(t, i, iso, 8, 10);
    FourDigitsValue(year);
    TwoDigitsValue(month);
    TwoDigitsValue(day);
    hide TryParseDateAt, TakeNumber, RunAt, IsoText, FourDigits, TwoDigits, Value;
    RunIsTaken(t, i, y);
    RunIsTaken(t, i + 5, m);
    RunIsTaken(t, i + 8, d);
    IsoReads(t, i, year, month, day, i + 10);
  }

  lemma IsoTextLayout(year: nat, month: nat, day: nat)
    requires year < 10000 && month < 100 && day < 100
    ensures var iso := IsoText(year, month, day);
      && |iso| == 10 && iso[0..4] == FourDigits(year) && iso[5..7] == TwoDigits(month) && iso[8..10] == TwoDigits(day)
      && iso[4] == iso[7] == '-' && (forall k | 0 <= k < 10 && k != 4 && k != 7 :: IsDigit(iso[k]))
  {
  }

  lemma RunWithin(t: Text, i: nat, s: string, a: nat, b: nat)
    requires i + |s| <= |t| && t[i..i + |s|] == s && a < b <= |s|
    requires forall k | a <= k < b :: IsDigit(s[k])
    requires if b < |s| then !IsDigit(s[b]) else i + b < |t| ==> !IsDigit(t[i + b])
    ensures RunAt(t, i + a, s[a..b])
  {
    Within(t, i, s, a, b);
    if b < |s| { Within(t, i, s, b, b + 1); assert t[i + b] == s[b]; }
  }

  // ---- A text that was cut ----------------------------------------------------------------

  lemma {:induction false} DigitsEndOfCut(t: Text, k: nat, i: nat)
    requires i <= k <= |t|
    ensures DigitsEnd(t[..k], i) < k ==> DigitsEnd(t, i) == DigitsEnd(t[..k], i)
    ensures DigitsEnd(t[..k], i) == k ==> DigitsEnd(t, i) == DigitsEnd(t, k)
    decreases k - i
  {
    if i < k && IsDigit(t[i]) { DigitsEndOfCut(t, k, i + 1); }
  }

  lemma {:induction false} SpacesEndOfCut(t: Text, k: nat, i: nat)
    requires i <= k <= |t|
    ensures SpacesEnd(t[..k], i) < k ==> SpacesEnd(t, i) == SpacesEnd(t[..k], i)
    decreases k - i
  {
    if i < k && IsWhitespace(t[i]) { SpacesEndOfCut(t, k, i + 1); }
  }

  lemma {:induction false} LettersEndOfCut(t: Text, k: nat, i: nat)
    requires i <= k <= |t|
    ensures LettersEnd(t[..k], i) < k ==> LettersEnd(t, i) == LettersEnd(t[..k], i)
    decreases k - i
  {
    if i < k && IsAlphabetic(t[i]) { LettersEndOfCut(t, k, i + 1); }
  }

  lemma DigitsGoOn(t: Text, k: nat)
    requires k <= |t|
    ensures DigitsEnd(t, k) == k <==> k == |t| || !IsDigit(t[k])
  {
  }

  /** A number that stops before the cut is the same number in the whole text. */
  lemma NumberOfCut(t: Text, k: nat, i: nat)
    requires i <= k <= |t| && TakeNumber(t[..k], i).Some?
    ensures var n := TakeNumber(t[..k], i).value;
      && (n.next < k || k == |t| || !IsDigit(t[k]) ==> TakeNumber(t, i) == Some(n))
      && (n.next == k < |t| && IsDigit(t[k]) ==> DigitsEnd(t, i) > k)
  {
    hide DigitsEnd, Value;
    DigitsEndOfCut(t, k, i);
    DigitsGoOn(t, k);
    var e := DigitsEnd(t[..k], i);
    assert t[..k][i..e] == t[i..e];
  }

  /** Does the number that ends at the cut go on behind it? */
  predicate CutsDigits(t: Text, k: nat)
    requires k <= |t|
  {
    0 < k < |t| && IsDigit(t[k - 1]) && IsDigit(t[k])
  }

  lemma IsoFormOfCut(t: Text, k: nat, year: nat, i: nat)
    requires i <= k <= |t| && IsoForm(t[..k], year, i).Some?
    ensures var r := IsoForm(t[..k], year, i).value;
      r.next <= k && (IsoForm(t, year, i) == Some(r) <==> !(r.next == k && CutsDigits(t, k)))
  {
    hide DigitsEnd, Value;
    var u := t[..k];
    var p1 := TakeSeparator(u, i).value;
    NumberOfCut(t, k, p1);
    var month := TakeNumber(u, p1).value;
    var p2 := TakeSeparator(u, month.next).value;
    NumberOfCut(t, k, p2);
  }

  lemma YearOfCut(t: Text, k: nat, i: nat)
    requires i <= k <= |t| && TakeNumber(t[..k], SpacesEnd(t[..k], i)).Some?
    ensures var n := TakeNumber(t[..k], SpacesEnd(t[..k], i)).value;
      && n.next <= k && SpacesEnd(t, i) == SpacesEnd(t[..k], i)
      && (!(n.next == k && CutsDigits(t, k)) ==> TakeNumber(t, SpacesEnd(t, i)) == Some(n))
      && (n.next == k && CutsDigits(t, k) && n.value >= 1000 ==> TakeNumber(t, SpacesEnd(t, i)) == None)
  {
    var p := SpacesEnd(t[..k], i);
    SpacesEndOfCut(t, k, i);
    NumberOfCut(t, k, p);
    var n := TakeNumber(t[..k], p).value;
    if n.next < k {} else { ValueBelow(t[..k][p..n.next]); }
  }

  lemma {:induction false} ValueBelow(s: string)
    requires forall c | c in s :: IsDigit(c)
    ensures |s| <= 3 ==> Value(s) < 1000
    ensures |s| <= 2 ==> Value(s) < 100
    ensures |s| <= 1 ==> Value(s) < 10
  {
    if s != [] { ValueBelow(s[..|s| - 1]); }
  }

  /**
   * A date read from a cut text is the one the whole text holds there exactly when the cut does not
   * go through its last number. If it does, a day-first date is not read at all from the whole text,
   * so that only the day of an ISO date can come out wrong.
   */
  lemma CutChangesOnlyALastNumber(t: Text, k: nat, i: nat)
    requires i <= k <= |t| && TryParseDateAt(t[..k], i).Some?
    ensures var r := TryParseDateAt(t[..k], i).value;
      && r.next <= k
      && (TryParseDateAt(t, i) == Some(r) <==> !(r.next == k && CutsDigits(t, k)))
      && (TakeNumber(t[..k], i).value.value < 1000 && TryParseDateAt(t, i).Some? ==> TryParseDateAt(t, i) == Some(r))
  {
    var u := t[..k];
    var first := TakeNumber(u, i).value;
    NumberOfCut(t, k, i);
    if first.value >= 1000 {
      IsoFormOfCut(t, k, first.value, first.next);
    } else {
      DayFirstOfCut(t, k, i);
    }
  }

  lemma NumericFormOfCut(t: Text, k: nat, day: nat, month: Read<nat>)
    requires month.next <= k <= |t| && NumericForm(t[..k], day, month).Some?
    ensures var r := NumericForm(t[..k], day, month).value;
      r.next <= k && NumericForm(t, day, month) == if r.next == k && CutsDigits(t, k) then None else Some(r)
  {
    YearOfCut(t, k, TakeSeparator(t[..k], month.next).value);
  }

  lemma LongFormOfCut(t: Text, k: nat, day: nat, i: nat)
    requires i <= k <= |t| && LongForm(t[..k], day, i).Some?
    ensures var r := LongForm(t[..k], day, i).value;
      r.next <= k && LongForm(t, day, i) == if r.next == k && CutsDigits(t, k) then None else Some(r)
  {
    hide SpacesEnd, LettersEnd, TakeNumber;
    var u := t[..k];
    var p := SpacesEnd(u, i);
    SpacesEndOfCut(t, k, i);
    LettersEndOfCut(t, k, p);
    var word := TakeWord(u, p).value;
    YearOfCut(t, k, word.next);
    assert u[p..word.next] == t[p..word.next];
  }

  lemma LongFormStartsWithALetter(t: Text, day: nat, i: nat)
    requires i <= |t| && LongForm(t, day, i).Some?
    ensures SpacesEnd(t, i) < |t| && TakeSeparator(t, SpacesEnd(t, i)) == None
  {
  }

  lemma DayFirstOfCut(t: Text, k: nat, i: nat)
    requires i <= k <= |t| && TryParseDateAt(t[..k], i).Some? && TakeNumber(t[..k], i).value.value < 1000
    ensures var r := TryParseDateAt(t[..k], i).value;
      r.next <= k && TryParseDateAt(t, i) == if r.next == k && CutsDigits(t, k) then None else Some(r)
  {
    hide NumericForm, LongForm, TakeNumber, DigitsEnd, SpacesEnd, IsoForm;
    var u := t[..k];
    var first := TakeNumber(u, i).value;
    FirstNumberStops(t, k, i);
    NumberOfCut(t, k, i);
    var p := SpacesEnd(u, first.next);
    SpacesEndOfCut(t, k, first.next);
    var p1 := TakeSeparator(u, p);
    if p1.Some? && TakeNumber(u, SpacesEnd(u, p1.value)).Some? {
      var month := TakeNumber(u, SpacesEnd(u, p1.value)).value;
      NumericFormStops(u, first.value, month);
      SpacesEndOfCut(t, k, p1.value);
      NumberOfCut(t, k, SpacesEnd(u, p1.value));
      NumericFormOfCut(t, k, first.value, month);
    } else {
      LongFormStartsWithALetter(u, first.value, first.next);
      LongFormOfCut(t, k, first.value, first.next);
    }
  }

  lemma FirstNumberStops(t: Text, k: nat, i: nat)
    requires i <= k <= |t| && TryParseDateAt(t[..k], i).Some?
    ensures TakeNumber(t[..k], i).Some? && TakeNumber(t[..k], i).value.next < k
  {
  }

  lemma NumericFormStops(t: Text, day: nat, month: Read<nat>)
    requires month.next <= |t| && NumericForm(t, day, month).Some?
    ensures month.next < |t|
  {
  }

  /**
   * The known gap: an ISO date at the end of a text that was cut in front of its last digit is read as
   * another valid day, its first digit, whenever the day has two significant digits, and not at all
   * otherwise.
   */
  lemma IsoDateLosesItsLastDigit(t: Text, i: nat, year: int, month: nat, day: nat)
    requires IsDate(year, month, day) && |t| == i + 9 && t[i..] == IsoText(year, month, day)[..9]
    ensures IsDate(year, month, day / 10) <==> day >= 10
    ensures TryParseDateAt(t, i) == if day >= 10 then Some(Read(IsoText(year, month, day / 10), i + 9)) else None
  {
    hide TryParseDateAt, TakeNumber, RunAt, FourDigits, TwoDigits, Value;
    var iso, s := IsoText(year, month, day), t[i..];
    IsoTextLayout(year, month, day);
    CutIsoLayout(year, month, day);
    assert t[i..i + 9] == s;
    RunWithin(t, i, s, 0, 4);
    RunWithin(t, i, s, 5, 7);
    RunWithin(t, i, s, 8, 9);
    FourDigitsValue(year);
    TwoDigitsValue(month);
    RunIsTaken(t, i, s[0..4]);
    RunIsTaken(t, i + 5, s[5..7]);
    RunIsTaken(t, i + 8, s[8..9]);
    Within(t, i, s, 0, 9);
    IsoReads(t, i, year, month, day / 10, i + 9);
  }

  lemma CutIsoLayout(year: nat, month: nat, day: nat)
    requires year < 10000 && month < 100 && day < 100
    ensures var s := IsoText(year, month, day)[..9];
      && s[0..4] == FourDigits(year) && s[5..7] == TwoDigits(month) && s[8..9] == [Digit(day / 10)]
      && Value(s[8..9]) == day / 10
  {
    IsoTextLayout(year, month, day);
    var iso, s := IsoText(year, month, day), IsoText(year, month, day)[..9];
    assert s[0..4] == iso[0..4] && s[5..7] == iso[5..7];
    assert s[8..9] == [Digit(day / 10)] && s[8..9][..0] == [];
    assert Value(s[8..9]) == 10 * Value([]) + DigitValue(Digit(day / 10));
  }
}
