/**
 * Finding the first date in a text: the recursive-descent reader over characters, and the scanning
 * loops in their own form.
 */
module DateScanner {
  import opened Options
  import opened CalendarDates
  import opened Texts

  type Text = seq<char>

  const MONTHS_PL: seq<string> := [
    "stycznia", "lutego", "marca", "kwietnia", "maja", "czerwca",
    "lipca", "sierpnia", "września", "października", "listopada", "grudnia"]

  /** Letters as far as month names need them: ASCII, Latin-1 and Latin Extended-A/B. */
  predicate IsAlphabetic(c: char) {
    var n := c as int;
    'a' <= c <= 'z' || 'A' <= c <= 'Z' || n in {0xAA, 0xB5, 0xBA} || (0xC0 <= n <= 0x24F && n != 0xD7 && n != 0xF7)
  }

  // ---- Runs of characters -----------------------------------------------------------------

  function DigitsEnd(t: Text, i: nat): (e: nat)
    requires i <= |t|
    ensures i <= e <= |t| && (forall k | i <= k < e :: IsDigit(t[k])) && (e < |t| ==> !IsDigit(t[e]))
    decreases |t| - i
  {
    if i < |t| && IsDigit(t[i]) then DigitsEnd(t, i + 1) else i
  }

  function SpacesEnd(t: Text, i: nat): (e: nat)
    requires i <= |t|
    ensures i <= e <= |t| && (forall k | i <= k < e :: IsWhitespace(t[k])) && (e < |t| ==> !IsWhitespace(t[e]))
    decreases |t| - i
  {
    if i < |t| && IsWhitespace(t[i]) then SpacesEnd(t, i + 1) else i
  }

  function LettersEnd(t: Text, i: nat): (e: nat)
    requires i <= |t|
    ensures i <= e <= |t| && (forall k | i <= k < e :: IsAlphabetic(t[k])) && (e < |t| ==> !IsAlphabetic(t[e]))
    decreases |t| - i
  {
    if i < |t| && IsAlphabetic(t[i]) then LettersEnd(t, i + 1) else i
  }

  /** A value read and the position just past it. */
  datatype Read<T> = Read(value: T, next: nat)

  /** One to four digits, all of the run. */
  function TakeNumber(t: Text, i: nat): (r: Option<Read<nat>>)
    requires i <= |t|
    ensures r.Some? ==> i < r.value.next <= |t| && r.value.next == DigitsEnd(t, i)
  {
    var e := DigitsEnd(t, i);
    if e == i || e - i > 4 then None else Some(Read(Value(t[i..e]), e))
  }

  function TakeSeparator(t: Text, i: nat): (r: Option<nat>)
    ensures r.Some? ==> r.value == i + 1 <= |t|
  {
    if i < |t| && t[i] in {'-', '.', '/'} then Some(i + 1) else None
  }

  function TakeWord(t: Text, i: nat): (r: Option<Read<string>>)
    requires i <= |t|
    ensures r.Some? ==> i < r.value.next <= |t|
  {
    var e := LettersEnd(t, i);
    if e == i then None else Some(Read(t[i..e], e))
  }

  function MonthOf(word: string, k: nat): (m: Option<nat>)
    requires k <= 12
    ensures m.Some? ==> k < m.value <= 12 && MONTHS_PL[m.value - 1] == word
    ensures m.None? ==> forall j | k <= j < 12 :: MONTHS_PL[j] != word
    decreases 12 - k
  {
    if k == 12 then None else if MONTHS_PL[k] == word then Some(k + 1) else MonthOf(word, k + 1)
  }

  // ---- One date ---------------------------------------------------------------------------

  function Dated(year: nat, month: nat, day: nat, next: nat): Option<Read<string>> {
    var iso := BuildIso(year, month, day);
    if iso.Some? then Some(Read(iso.value, next)) else None
  }

  /** `YYYY-MM-DD`, the year already read up to `i`. */
  function IsoForm(t: Text, year: nat, i: nat): (r: Option<Read<string>>)
    requires i <= |t|
  {
    var p1 := TakeSeparator(t, i);
    if p1.None? then None else
    var month := TakeNumber(t, p1.value);
    if month.None? then None else
    var p2 := TakeSeparator(t, month.value.next);
    if p2.None? then None else
    var day := TakeNumber(t, p2.value);
    if day.None? then None else Dated(year, month.value.value, day.value.value, day.value.next)
  }

  /** The rest of `DD.MM.YYYY`, the month already read. */
  function NumericForm(t: Text, day: nat, month: Read<nat>): (r: Option<Read<string>>)
    requires month.next <= |t|
  {
    var p := TakeSeparator(t, month.next);
    if p.None? then None else
    var year := TakeNumber(t, SpacesEnd(t, p.value));
    if year.None? then None else Dated(year.value.value, month.value, day, year.value.next)
  }

  /** `DD <month name> YYYY`, the day already read up to `i`. */
  function LongForm(t: Text, day: nat, i: nat): (r: Option<Read<string>>)
    requires i <= |t|
  {
    var word := TakeWord(t, SpacesEnd(t, i));
    if word.None? then None else
    var month := MonthOf(word.value.value, 0);
    if month.None? then None else
    var year := TakeNumber(t, SpacesEnd(t, word.value.next));
    if year.None? then None else Dated(year.value.value, month.value, day, year.value.next)
  }

  /** `try_parse_date_at`. */
  function TryParseDateAt(t: Text, start: nat): (r: Option<Read<string>>)
    requires start <= |t|
  {
    var first := TakeNumber(t, start);
    if first.None? then None
    else if first.value.value >= 1000 then IsoForm(t, first.value.value, first.value.next)
    else
      var p := SpacesEnd(t, first.value.next);
      var p1 := TakeSeparator(t, p);
      var month := if p1.Some? then TakeNumber(t, SpacesEnd(t, p1.value)) else None;
      if month.Some? then NumericForm(t, first.value.value, month.value)
      else LongForm(t, first.value.value, first.value.next)
  }

  // ---- The first date ---------------------------------------------------------------------

  function FirstDate(t: Text, i: nat): Option<string>
    requires i <= |t|
    decreases |t| - i
  {
    if i == |t| then None
    else if IsDigit(t[i]) then
      var date := TryParseDateAt(t, i);
      if date.Some? then Some(date.value.value) else FirstDate(t, DigitsEnd(t, i))
    else FirstDate(t, i + 1)
  }

  /** The start of a run of digits. */
  predicate StartsRun(t: Text, i: int) {
    0 <= i < |t| && IsDigit(t[i]) && (i == 0 || !IsDigit(t[i - 1]))
  }

  ghost predicate DateStartsAt(t: Text, i: int) { StartsRun(t, i) && TryParseDateAt(t, i).Some? }

  /** Position `k` begins the first date at or after `i`. */
  ghost predicate IsFirstFrom(t: Text, i: int, k: int) {
    i <= k && DateStartsAt(t, k) && forall j | i <= j < k :: !DateStartsAt(t, j)
  }

  lemma InsideRun(t: Text, i: nat, k: int)
    requires i < |t| && i < k < DigitsEnd(t, i)
    ensures !DateStartsAt(t, k)
  {
    assert IsDigit(t[k - 1]);
  }

  /**
   * `FirstDate` is the date at the first run of digits that begins one: no run is skipped, and no
   * date is ever read from the middle of a run.
   */
  lemma {:induction false} FirstDateIsFirst(t: Text, i: nat)
    requires i <= |t| && (i < |t| && IsDigit(t[i]) ==> StartsRun(t, i))
    ensures FirstDate(t, i).None? ==> forall k | k >= i :: !DateStartsAt(t, k)
    ensures FirstDate(t, i).Some? ==>
      exists k :: IsFirstFrom(t, i, k) && FirstDate(t, i).value == TryParseDateAt(t, k).value.value
    decreases |t| - i
  {
    hide TryParseDateAt;
    if i < |t| && IsDigit(t[i]) {
      if TryParseDateAt(t, i).Some? {
        assert IsFirstFrom(t, i, i);
      } else {
        var e := DigitsEnd(t, i);
        FirstDateIsFirst(t, e);
        forall k | i < k < e ensures !DateStartsAt(t, k) { InsideRun(t, i, k); }
        NothingBefore(t, i, e);
      }
    } else if i < |t| {
      FirstDateIsFirst(t, i + 1);
      NothingBefore(t, i, i + 1);
    }
  }

  lemma NothingBefore(t: Text, i: int, e: int)
    requires i <= e && forall j | i <= j < e :: !DateStartsAt(t, j)
    ensures forall k :: IsFirstFrom(t, e, k) ==> IsFirstFrom(t, i, k)
  {
  }

  // ---- The loops --------------------------------------------------------------------------

  method TakeNumberLoop(t: Text, start: nat) returns (r: Option<Read<nat>>)
    requires start <= |t|
    ensures r == TakeNumber(t, start)
  {
    var i := start;
    while i < |t| && IsDigit(t[i])
      invariant start <= i <= |t| && DigitsEnd(t, i) == DigitsEnd(t, start)
    {
      i := i + 1;
    }
    if i == start || i - start > 4 { return None; }
    return Some(Read(Value(t[start..i]), i));
  }

  method SkipSpaces(t: Text, start: nat) returns (i: nat)
    requires start <= |t|
    ensures i == SpacesEnd(t, start)
  {
    i := start;
    while i < |t| && IsWhitespace(t[i])
      invariant start <= i <= |t| && SpacesEnd(t, i) == SpacesEnd(t, start)
    {
      i := i + 1;
    }
  }

  method ParseFirstDate(t: Text) returns (r: Option<string>)
    ensures r == FirstDate(t, 0)
  {
    var i := 0;
    while i < |t|
      invariant 0 <= i <= |t| && FirstDate(t, i) == FirstDate(t, 0)
    {
      if IsDigit(t[i]) {
        var date := TryParseDateAt(t, i);
        if date.Some? { return Some(date.value.value); }
        var j := i;
        while j < |t| && IsDigit(t[j])
          invariant i <= j <= |t| && DigitsEnd(t, j) == DigitsEnd(t, i)
          invariant j > i || IsDigit(t[j])
        {
          j := j + 1;
        }
        i := j;
        continue;
      }
      i := i + 1;
    }
    return None;
  }
}
