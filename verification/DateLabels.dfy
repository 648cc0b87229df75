/**
 * Dates next to labels. Positions in the original are UTF-8 byte offsets; here a text is its
 * characters, and `Offset` is the byte offset of a character position, so that the 80-byte window
 * and its clamping back to a character boundary are exactly those of the code.
 */
module DateLabels {
  import opened Options
  import opened DateScanner

  const SCAN_WINDOW := 80

  function Utf8Length(c: char): (n: nat)
    ensures 1 <= n <= 4
  {
    var p := c as int;
    if p < 0x80 then 1 else if p < 0x800 then 2 else if p < 0x1_0000 then 3 else 4
  }

  /** How many code points `n` bytes of UTF-8 can tell apart: seven bits, else five for each byte and one more. */
  ghost function Utf8Capacity(n: nat): nat { if n == 0 then 0 else if n == 1 then 0x80 else Two(5 * n + 1) }

  ghost function Two(k: nat): nat { if k == 0 then 1 else 2 * Two(k - 1) }

  /** A character takes the fewest bytes that can hold it. */
  lemma Utf8LengthIsLeast(c: char)
    ensures Utf8Capacity(Utf8Length(c) - 1) <= c as int < Utf8Capacity(Utf8Length(c))
  {
    assert Two(11) == 0x800;
    assert Two(16) == 32 * Two(11);
    assert Two(21) == 32 * Two(16);
  }

  /** The byte offset at which character `k` begins. */
  function Offset(t: Text, k: nat): nat
    requires k <= |t|
  {
    if k == 0 then 0 else Offset(t, k - 1) + Utf8Length(t[k - 1])
  }

  lemma {:induction false} OffsetGrows(t: Text, j: nat, k: nat)
    requires j <= k <= |t|
    ensures Offset(t, j) + (k - j) <= Offset(t, k) <= Offset(t, j) + 4 * (k - j)
    decreases k - j
  {
    if j < k { OffsetGrows(t, j, k - 1); }
  }

  /** `is_char_boundary`. */
  predicate IsBoundary(t: Text, offset: nat) { exists k | 0 <= k <= |t| :: Offset(t, k) == offset }

  /** The last character position whose offset is within the window. */
  ghost predicate IsWindowEnd(t: Text, start: nat, e: nat)
    requires start <= |t|
  {
    && start <= e <= |t|
    && Offset(t, e) <= Offset(t, start) + SCAN_WINDOW
    && (e < |t| ==> Offset(t, e + 1) > Offset(t, start) + SCAN_WINDOW)
  }

  function WindowEnd(t: Text, start: nat, from: nat): (e: nat)
    requires start <= from <= |t| && Offset(t, from) <= Offset(t, start) + SCAN_WINDOW
    ensures IsWindowEnd(t, start, e)
    decreases |t| - from
  {
    if from < |t| && Offset(t, from + 1) <= Offset(t, start) + SCAN_WINDOW then WindowEnd(t, start, from + 1) else from
  }

  /** The text a label at `start - |label|` is searched in. */
  function Window(t: Text, start: nat): Text
    requires start <= |t|
  {
    t[start..WindowEnd(t, start, start)]
  }

  /**
   * The clamping loop: from the plain byte offset back to a character boundary. It moves at most
   * three bytes, never in front of the start, and ends at the last character that fits.
   */
  method ClampWindow(t: Text, start: nat) returns (e: nat)
    requires start <= |t|
    ensures e == WindowEnd(t, start, start)
    ensures Offset(t, start) <= Offset(t, e) <= Offset(t, start) + SCAN_WINDOW
    ensures e < |t| ==> Offset(t, e) > Offset(t, start) + SCAN_WINDOW - 4
  {
    var total, begin := Offset(t, |t|), Offset(t, start);
    var naive := if begin + SCAN_WINDOW < total then begin + SCAN_WINDOW else total;
    ghost var last := WindowEnd(t, start, start);
    OffsetGrows(t, start, last);
    OffsetGrows(t, last, |t|);
    var scanEnd := naive;
    while !IsBoundary(t, scanEnd)
      invariant Offset(t, last) <= scanEnd <= naive
      decreases scanEnd
    {
      assert Offset(t, last) != scanEnd;
      scanEnd := scanEnd - 1;
    }
    e :| 0 <= e <= |t| && Offset(t, e) == scanEnd;
    if e < last { OffsetGrows(t, e, last); }
    if last < e { OffsetGrows(t, last + 1, e); }
  }

  // ---- Occurrences of a label -------------------------------------------------------------

  predicate LabelAt(t: Text, tag: Text, p: nat) { p + |tag| <= |t| && t[p..p + |tag|] == tag }

  /** `str::find` from a position on. */
  function Find(t: Text, tag: Text, from: nat): (r: Option<nat>)
    ensures r.Some? ==>
      from <= r.value && LabelAt(t, tag, r.value) && forall q | from <= q < r.value :: !LabelAt(t, tag, q)
    ensures r.None? ==> forall q | q >= from :: !LabelAt(t, tag, q)
    decreases |t| - from
  {
    if from + |tag| > |t| then None
    else if LabelAt(t, tag, from) then Some(from)
    else Find(t, tag, from + 1)
  }

  /** The occurrences the scan visits: leftmost first, never overlapping. */
  function Occurrences(t: Text, tag: Text, from: nat): seq<nat>
    requires tag != []
    decreases |t| - from
  {
    var p := Find(t, tag, from);
    if p.None? then [] else [p.value] + Occurrences(t, tag, p.value + |tag|)
  }

  lemma {:induction false} OccurrencesAreLabels(t: Text, tag: Text, from: nat)
    requires tag != []
    ensures forall p | p in Occurrences(t, tag, from) :: p >= from && LabelAt(t, tag, p)
    decreases |t| - from
  {
    var p := Find(t, tag, from);
    if p.Some? { OccurrencesAreLabels(t, tag, p.value + |tag|); }
  }

  /** The date in the window behind label occurrence `p`. */
  function DateAfter(t: Text, tag: Text, p: nat): Option<string>
    requires LabelAt(t, tag, p)
  {
    FirstDate(Window(t, p + |tag|), 0)
  }

  // ---- The best occurrence ----------------------------------------------------------------

  /** Occurrence `p` of label `j` has been visited (labels in order, occurrences left to right) and has a date. */
  ghost predicate Candidate(t: Text, labels: seq<Text>, j: nat, p: nat) {
    && j < |labels| && labels[j] != []
    && p in Occurrences(t, labels[j], 0) && LabelAt(t, labels[j], p) && DateAfter(t, labels[j], p).Some?
  }

  /** Position `p` under label `j` comes before, or is, `q` under `i`. */
  predicate Before(p: nat, j: nat, q: nat, i: nat) { p < q || (p == q && j <= i) }

  /** The candidate at the smallest position, the first label winning among several there. */
  ghost predicate Best(t: Text, labels: seq<Text>, j: nat, p: nat) {
    && Candidate(t, labels, j, p)
    && forall i: nat, q: nat | Candidate(t, labels, i, q) :: Before(p, j, q, i)
  }

  ghost predicate IsAnswer(t: Text, labels: seq<Text>, r: Option<string>) {
    if r.None? then forall j: nat, p: nat :: !Candidate(t, labels, j, p)
    else exists j: nat, p: nat :: Best(t, labels, j, p) && DateAfter(t, labels[j], p) == r
  }

  /** Best among the first `j` labels, and of label `j` the occurrences not in `rest`. */
  ghost predicate Visited(t: Text, labels: seq<Text>, j: nat, rest: seq<nat>, i: nat, p: nat) {
    Candidate(t, labels, i, p) && (i < j || (i == j && p !in rest))
  }

  ghost predicate BestSoFar(t: Text, labels: seq<Text>, j: nat, rest: seq<nat>, best: Option<(nat, string)>, tag: nat) {
    if best.None? then forall i: nat, p: nat :: !Visited(t, labels, j, rest, i, p)
    else
      && Visited(t, labels, j, rest, tag, best.value.0)
      && DateAfter(t, labels[tag], best.value.0) == Some(best.value.1)
      && forall i: nat, p: nat | Visited(t, labels, j, rest, i, p) :: Before(best.value.0, tag, p, i)
  }

  ghost function ToVisit(t: Text, labels: seq<Text>, j: nat): seq<nat> {
    if j < |labels| && labels[j] != [] then Occurrences(t, labels[j], 0) else []
  }

  lemma NextLabel(t: Text, labels: seq<Text>, j: nat, best: Option<(nat, string)>, tag: nat)
    requires BestSoFar(t, labels, j, [], best, tag)
    ensures BestSoFar(t, labels, j + 1, ToVisit(t, labels, j + 1), best, tag)
  {
    VisitedNext(t, labels, j, j + 1, ToVisit(t, labels, j + 1));
  }

  lemma NothingVisited(t: Text, labels: seq<Text>)
    ensures BestSoFar(t, labels, 0, ToVisit(t, labels, 0), None, 0)
  {
  }

  lemma AllOccurrencesVisited(t: Text, tag: Text, from: nat)
    requires tag != [] && Find(t, tag, from).None?
    ensures Occurrences(t, tag, from) == []
  {
  }

  lemma VisitOne(t: Text, labels: seq<Text>, j: nat, from: nat, p: nat, best: Option<(nat, string)>, tag: nat)
    requires j < |labels| && labels[j] != [] && Find(t, labels[j], from) == Some(p)
    requires forall q | q in Occurrences(t, labels[j], from) :: q in Occurrences(t, labels[j], 0)
    requires BestSoFar(t, labels, j, Occurrences(t, labels[j], from), best, tag)
    ensures var date := DateAfter(t, labels[j], p);
      var rest := Occurrences(t, labels[j], p + |labels[j]|);
      if date.Some? && (best.None? || p < best.value.0) then BestSoFar(t, labels, j, rest, Some((p, date.value)), j)
      else BestSoFar(t, labels, j, rest, best, tag)
    ensures forall q | q in Occurrences(t, labels[j], p + |labels[j]|) :: q in Occurrences(t, labels[j], 0)
  {
    hide BestSoFar, DateAfter, LabelAt, Find;
    var now, rest := Occurrences(t, labels[j], from), Occurrences(t, labels[j], p + |labels[j]|);
    var date := DateAfter(t, labels[j], p);
    assert now == [p] + rest && now[0] == p;
    OccurrencesAreLabels(t, labels[j], p + |labels[j]|);
    assert p in Occurrences(t, labels[j], 0);
    assert Candidate(t, labels, j, p) <==> date.Some?;
    BestExtends(t, labels, j, now, rest, p, best, tag);
  }

  lemma BestExtends(t: Text, labels: seq<Text>, j: nat, now: seq<nat>, rest: seq<nat>, p: nat,
    best: Option<(nat, string)>, tag: nat)
    requires j < |labels| && LabelAt(t, labels[j], p) && now == [p] + rest && p !in rest
    requires Candidate(t, labels, j, p) <==> DateAfter(t, labels[j], p).Some?
    requires BestSoFar(t, labels, j, now, best, tag)
    ensures var date := DateAfter(t, labels[j], p);
      if date.Some? && (best.None? || p < best.value.0) then BestSoFar(t, labels, j, rest, Some((p, date.value)), j)
      else BestSoFar(t, labels, j, rest, best, tag)
  {
    hide Candidate, DateAfter, LabelAt;
    VisitedGrows(t, labels, j, now, rest, p);
  }

  lemma VisitedGrows(t: Text, labels: seq<Text>, j: nat, now: seq<nat>, rest: seq<nat>, p: nat)
    requires now == [p] + rest && p !in rest
    ensures forall i: nat, q: nat :: Visited(t, labels, j, rest, i, q) <==>
      (Visited(t, labels, j, now, i, q) || (i == j && q == p && Candidate(t, labels, j, p)))
  {
    hide Candidate;
    assert forall q :: q in now <==> q == p || q in rest;
  }

  lemma VisitedNext(t: Text, labels: seq<Text>, j: nat, next: nat, rest: seq<nat>)
    requires next == j + 1 && rest == ToVisit(t, labels, next)
    ensures forall i: nat, p: nat :: Visited(t, labels, next, rest, i, p) <==> Visited(t, labels, j, [], i, p)
  {
    forall i: nat, p: nat ensures Visited(t, labels, next, rest, i, p) <==> Visited(t, labels, j, [], i, p) {
      if Candidate(t, labels, i, p) && i == next { assert p in rest; }
    }
  }

  lemma AllVisited(t: Text, labels: seq<Text>, best: Option<(nat, string)>, tag: nat)
    requires BestSoFar(t, labels, |labels|, [], best, tag)
    ensures IsAnswer(t, labels, if best.Some? then Some(best.value.1) else None)
  {
    forall i: nat, p: nat | Candidate(t, labels, i, p) ensures Visited(t, labels, |labels|, [], i, p) {}
    if best.Some? { assert Best(t, labels, tag, best.value.0); }
  }

  /** `find_date_for_labels` on the lower-cased body. */
  method FindDateForLabels(lower: Text, labels: seq<Text>) returns (r: Option<string>)
    requires forall tag | tag in labels :: tag != []
    ensures IsAnswer(lower, labels, r)
  {
    hide Candidate, BestSoFar, Occurrences, FirstDate, WindowEnd;
    var best: Option<(nat, string)> := None;
    ghost var bestLabel := 0;
    NothingVisited(lower, labels);
    for j := 0 to |labels|
      invariant BestSoFar(lower, labels, j, ToVisit(lower, labels, j), best, bestLabel)
    {
      var tag := labels[j];
      assert tag in labels;
      var searchFrom := 0;
      while true
        invariant searchFrom <= |lower|
        invariant BestSoFar(lower, labels, j, Occurrences(lower, tag, searchFrom), best, bestLabel)
        invariant forall p | p in Occurrences(lower, tag, searchFrom) :: p in Occurrences(lower, tag, 0)
        decreases |lower| - searchFrom
      {
        var found := Find(lower, tag, searchFrom);
        if found.None? {
          AllOccurrencesVisited(lower, tag, searchFrom);
          break;
        }
        var labelStart := found.value;
        var scanStart := labelStart + |tag|;
        var scanEnd := ClampWindow(lower, scanStart);
        var date := ParseFirstDate(lower[scanStart..scanEnd]);
        VisitOne(lower, labels, j, searchFrom, labelStart, best, bestLabel);
        if date.Some? && (best.None? || labelStart < best.value.0) {
          best := Some((labelStart, date.value));
          bestLabel := j;
        }
        searchFrom := scanStart;
      }
      NextLabel(lower, labels, j, best, bestLabel);
    }
    AllVisited(lower, labels, best, bestLabel);
    r := if best.Some? then Some(best.value.1) else None;
  }

  /** Two answers to the same question are the same: the specification leaves no choice. */
  lemma AnswerIsUnique(t: Text, labels: seq<Text>, r: Option<string>, r': Option<string>)
    requires IsAnswer(t, labels, r) && IsAnswer(t, labels, r')
    ensures r == r'
  {
    if r.Some? && r'.Some? {
      var j: nat, p: nat :| Best(t, labels, j, p) && DateAfter(t, labels[j], p) == r;
      var j': nat, p': nat :| Best(t, labels, j', p') && DateAfter(t, labels[j'], p') == r';
      assert Candidate(t, labels, j, p) && Candidate(t, labels, j', p');
    }
  }
}
