/**
 * The log files as values: index 0 is the current file, index i the i-th rotated one. A file is a
 * sequence of lines; a line is its bytes without the newline.
 */
module LogFiles {
  type Line = seq<bv8>
  type Files = map<nat, seq<Line>>

  function At(files: Files, i: nat): seq<Line> { if i in files then files[i] else [] }

  /** Bytes of a file, newlines included. */
  function Size(file: seq<Line>): nat {
    if file == [] then 0 else Size(file[..|file| - 1]) + |file[|file| - 1]| + 1
  }

  /** What is in a file, byte for byte: every line with its newline. */
  ghost function Text(file: seq<Line>): seq<bv8> {
    if file == [] then [] else Text(file[..|file| - 1]) + file[|file| - 1] + [0x0A]
  }

  lemma {:induction false} SizeCountsBytes(file: seq<Line>)
    ensures Size(file) == |Text(file)|
  {
    if file != [] { SizeCountsBytes(file[..|file| - 1]); }
  }

  lemma {:induction false} SizeOfConcat(a: seq<Line>, b: seq<Line>)
    ensures Size(a + b) == Size(a) + Size(b)
  {
    if b == [] {
      assert a + b == a;
    } else {
      assert (a + b)[..|a + b| - 1] == a + b[..|b| - 1];
      SizeOfConcat(a, b[..|b| - 1]);
    }
  }

  /** Everything still on disk in the order it was written: oldest file first. */
  function History(files: Files, count: nat): seq<Line> {
    if count == 0 then [] else At(files, count - 1) + History(files, count - 1)
  }

  ghost predicate IsSuffix(s: seq<Line>, of: seq<Line>) {
    |s| <= |of| && s == of[|of| - |s|..]
  }

  /** Within the byte limit, or a single line that alone is too long. */
  predicate Fits(file: seq<Line>, maxFileBytes: nat) { Size(file) <= maxFileBytes || |file| == 1 }

  predicate Bounded(files: Files, maxFileBytes: nat) { forall i | i in files :: Fits(files[i], maxFileBytes) }

  lemma SuffixReflexive(s: seq<Line>)
    ensures IsSuffix(s, s)
  {
  }

  lemma SuffixTransitive(a: seq<Line>, b: seq<Line>, c: seq<Line>)
    requires IsSuffix(a, b) && IsSuffix(b, c)
    ensures IsSuffix(a, c)
  {
  }

  lemma SuffixAppend(a: seq<Line>, b: seq<Line>, line: Line)
    requires IsSuffix(a, b)
    ensures IsSuffix(a + [line], b + [line])
  {
  }

  lemma {:induction false} HistoryDependsOnBelow(files: Files, files': Files, count: nat)
    requires forall i | 0 <= i < count :: At(files, i) == At(files', i)
    ensures History(files, count) == History(files', count)
  {
    if count > 0 { HistoryDependsOnBelow(files, files', count - 1); }
  }

  // ---- What a rotation leaves -------------------------------------------------------------

  /** The history without the file at the highest index. */
  function Survivors(files: Files, count: nat): seq<Line>
    requires count > 0
  {
    History(files - {count - 1}, count)
  }

  lemma {:induction false} CurrentIsLast(files: Files, count: nat)
    requires count > 0
    ensures IsSuffix(At(files, 0), History(files, count))
  {
    if count > 1 { CurrentIsLast(files, count - 1); } else { assert History(files, 0) == []; }
  }

  /** With two files or more a rotation keeps the current one. */
  lemma SurvivorsHoldCurrent(files: Files, count: nat)
    requires count > 1
    ensures IsSuffix(At(files, 0), Survivors(files, count)) && IsSuffix(Survivors(files, count), History(files, count))
  {
    hide History, IsSuffix;
    CurrentIsLast(files - {count - 1}, count);
    RemoveOldestDropsPrefix(files, count);
    PrefixLost(At(files, count - 1), Survivors(files, count));
  }

  /** Of two ends of one history the one with fewer bytes is an end of the other. */
  lemma SmallerEnd(a: seq<Line>, b: seq<Line>, of: seq<Line>)
    requires IsSuffix(a, of) && IsSuffix(b, of) && Size(a) < Size(b)
    ensures IsSuffix(a, b)
  {
    if |a| > |b| {
      assert a == a[..|a| - |b|] + b;
      SizeOfConcat(a[..|a| - |b|], b);
      assert false;
    }
  }

  /** No end of the log that has at most `room` bytes is lost. */
  ghost predicate Retains(kept: seq<Line>, log: seq<Line>, room: int) {
    forall tail | IsSuffix(tail, log) && Size(tail) <= room :: IsSuffix(tail, kept)
  }

  /** A write that did not go through, whether it rotated or not. */
  lemma RetainsWithoutWrite(files: Files, kept: seq<Line>, log: seq<Line>, line: Line, count: nat, limit: nat,
    room: int)
    requires count > 1 && Retains(History(files, count), log, room)
    requires kept == History(files, count)
      || (kept == Survivors(files, count) && Size(At(files, 0)) + |line| + 1 > limit && room + |line| + 1 <= limit)
    ensures Retains(kept, log, room)
  {
    hide History, Survivors, IsSuffix, Size;
    forall tail | IsSuffix(tail, log) && Size(tail) <= room ensures IsSuffix(tail, kept) {
      if kept != History(files, count) {
        SurvivorsHoldCurrent(files, count);
        CurrentIsLast(files, count);
        SmallerEnd(tail, At(files, 0), History(files, count));
        SuffixTransitive(tail, At(files, 0), kept);
      }
    }
  }

  /** A write that went through. */
  lemma RetainsAfterWrite(files: Files, kept: seq<Line>, log: seq<Line>, line: Line, count: nat, limit: nat,
    room: int)
    requires count > 1 && Retains(History(files, count), log, room) && room <= limit
    requires kept == History(files, count)
      || (kept == Survivors(files, count) && Size(At(files, 0)) + |line| + 1 > limit)
    ensures Retains(kept + [line], log + [line], room)
  {
    hide History, Survivors, IsSuffix, Size;
    forall tail | IsSuffix(tail, log + [line]) && Size(tail) <= room ensures IsSuffix(tail, kept + [line]) {
      if tail == [] {
        EmptySuffix(kept + [line]);
      } else {
        var rest := tail[..|tail| - 1];
        LastLine(tail, log, line);
        if kept != History(files, count) {
          SurvivorsHoldCurrent(files, count);
          CurrentIsLast(files, count);
          SmallerEnd(rest, At(files, 0), History(files, count));
          SuffixTransitive(rest, At(files, 0), kept);
        }
        SuffixAppend(rest, kept, line);
      }
    }
  }

  lemma EmptySuffix(of: seq<Line>)
    ensures IsSuffix([], of)
  {
  }

  lemma LastLine(tail: seq<Line>, log: seq<Line>, line: Line)
    requires tail != [] && IsSuffix(tail, log + [line])
    ensures tail == tail[..|tail| - 1] + [line] && IsSuffix(tail[..|tail| - 1], log)
    ensures Size(tail) == Size(tail[..|tail| - 1]) + |line| + 1
  {
    hide Size;
    EndOfConcat(log, line, |log| + 1 - |tail|);
    LastSize(tail);
  }

  lemma EndOfConcat(log: seq<Line>, line: Line, k: nat)
    requires k <= |log|
    ensures (log + [line])[k..] == log[k..] + [line] && (log[k..] + [line])[..|log| - k] == log[k..]
  {
  }

  lemma LastSize(file: seq<Line>)
    requires file != []
    ensures Size(file) == Size(file[..|file| - 1]) + |file[|file| - 1]| + 1
  {
  }

  function Moved(files: Files, i: nat): Files
    requires i in files
  {
    (files - {i})[i + 1 := files[i]]
  }

  lemma MovedOneUp(files: Files, i: nat)
    requires i in files && i + 1 !in files
    ensures History(Moved(files, i), i + 2) == History(files, i + 2)
  {
    var below := History(files, i);
    HistoryDependsOnBelow(files, Moved(files, i), i);
    HistoryOfNext(files, i);
    HistoryOfNext(files, i + 1);
    HistoryOfNext(Moved(files, i), i);
    HistoryOfNext(Moved(files, i), i + 1);
    hide History;
    assert [] + (files[i] + below) == files[i] + ([] + below);
  }

  lemma HistoryOfNext(files: Files, count: nat)
    ensures History(files, count + 1) == At(files, count) + History(files, count)
  {
  }

  /** Moving a file one index up, onto a free name, leaves the history as it is. */
  lemma {:induction false} RenameKeepsHistory(files: Files, i: nat, count: nat)
    requires i in files && i + 1 !in files && i + 1 < count
    ensures History((files - {i})[i + 1 := files[i]], count) == History(files, count)
  {
    hide History;
    if count == i + 2 {
      MovedOneUp(files, i);
    } else {
      RenameKeepsHistory(files, i, count - 1);
      HistoryOfNext(files, count - 1);
      HistoryOfNext(Moved(files, i), count - 1);
    }
  }

  /** Removing the oldest file drops exactly its lines from the front of the history. */
  lemma RemoveOldestDropsPrefix(files: Files, count: nat)
    requires count > 0
    ensures History(files, count) == At(files, count - 1) + History(files - {count - 1}, count)
  {
    hide History, At;
    var rest := files - {count - 1};
    AtRemoved(files, count - 1);
    HistoryDependsOnBelow(files, rest, count - 1);
    HistoryOfNext(files, count - 1);
    HistoryOfNext(rest, count - 1);
    WithoutTop(At(files, count - 1), History(files, count - 1), History(files, count), History(rest, count));
  }

  lemma AtRemoved(files: Files, k: nat)
    ensures At(files - {k}, k) == []
    ensures forall i: nat | i != k :: At(files - {k}, i) == At(files, i)
  {
  }

  lemma WithoutTop(top: seq<Line>, below: seq<Line>, whole: seq<Line>, rest: seq<Line>)
    requires whole == top + below && rest == [] + below
    ensures whole == top + rest
  {
  }

  lemma PrefixLost(lost: seq<Line>, kept: seq<Line>)
    ensures IsSuffix(kept, lost + kept)
  {
  }

  lemma {:induction false} AppendExtendsHistory(files: Files, line: Line, count: nat)
    requires count > 0
    ensures History(files[0 := At(files, 0) + [line]], count) == History(files, count) + [line]
  {
    var files' := files[0 := At(files, 0) + [line]];
    if count == 1 {
      assert History(files, 0) == [] && History(files', 0) == [];
      assert At(files, 0) + [line] + [] == At(files, 0) + [] + [line];
    } else {
      AppendExtendsHistory(files, line, count - 1);
      assert At(files', count - 1) == At(files, count - 1);
    }
  }

  // ---- Reading back -----------------------------------------------------------------------

  datatype Entry = Entry(file: nat, lineNumber: nat, record: Line)

  function EntriesOf(file: nat, lines: seq<Line>): seq<Entry> {
    seq(|lines|, i requires 0 <= i < |lines| => Entry(file, i + 1, lines[i]))
  }

  /** The newest file first, each file from its top. */
  function Entries(files: Files, count: nat): seq<Entry> {
    if count == 0 then [] else Entries(files, count - 1) + EntriesOf(count - 1, At(files, count - 1))
  }

  function LastOf(entries: seq<Entry>, limit: nat): seq<Entry> {
    if |entries| <= limit then entries else entries[|entries| - limit..]
  }

  function Clamp(limit: nat): nat { if limit < 1 then 1 else if limit > 1000 then 1000 else limit }

  /** The limit is clamped to the nearest number from 1 to 1000. */
  lemma ClampIsNearest(limit: nat, n: nat)
    requires 1 <= n <= 1000
    ensures 1 <= Clamp(limit) <= 1000
    ensures (if Clamp(limit) < limit then limit - Clamp(limit) else Clamp(limit) - limit)
      <= if n < limit then limit - n else n - limit
  {
  }

  function Records(entries: seq<Entry>): seq<Line> {
    seq(|entries|, i requires 0 <= i < |entries| => entries[i].record)
  }

  lemma RecordsOfFile(file: nat, lines: seq<Line>, before: seq<Entry>)
    ensures Records(before + EntriesOf(file, lines)) == Records(before) + lines
  {
    var both := before + EntriesOf(file, lines);
    forall i | 0 <= i < |both| ensures both[i].record == (Records(before) + lines)[i] {}
  }

  /** What is read back, with room for everything, is a permutation of the history. */
  lemma {:induction false} EntriesPermuteHistory(files: Files, count: nat)
    ensures multiset(Records(Entries(files, count))) == multiset(History(files, count))
  {
    if count > 0 {
      EntriesPermuteHistory(files, count - 1);
      var lines, before, history := At(files, count - 1), Entries(files, count - 1), History(files, count - 1);
      RecordsOfFile(count - 1, lines, before);
      assert Entries(files, count) == before + EntriesOf(count - 1, lines) && History(files, count) == lines + history;
      hide Entries, EntriesOf, History, Records, At;
      AddsUp(Records(Entries(files, count)), Records(before), lines, History(files, count), history);
    }
  }

  lemma AddsUp(read: seq<Line>, readBefore: seq<Line>, lines: seq<Line>, history: seq<Line>, historyBefore: seq<Line>)
    requires read == readBefore + lines && history == lines + historyBefore
    requires multiset(readBefore) == multiset(historyBefore)
    ensures multiset(read) == multiset(history)
  {
  }

  lemma {:induction false} AllLinesAreEntries(files: Files, count: nat)
    ensures |Entries(files, count)| == |History(files, count)|
  {
    if count > 0 { AllLinesAreEntries(files, count - 1); }
  }

  lemma {:induction false} CurrentFileComesFirst(files: Files, count: nat)
    requires count > 0
    ensures |At(files, 0)| <= |Entries(files, count)|
    ensures Entries(files, count)[..|At(files, 0)|] == EntriesOf(0, At(files, 0))
    ensures forall i | |At(files, 0)| <= i < |Entries(files, count)| :: Entries(files, count)[i].file > 0
  {
    if count > 1 { CurrentFileComesFirst(files, count - 1); }
    else { assert Entries(files, 0) == []; }
  }

  // ---- When the newest come first ---------------------------------------------------------

  predicate Newer(a: Entry, b: Entry) { a.file < b.file || (a.file == b.file && a.lineNumber > b.lineNumber) }

  ghost predicate NewestFirst(entries: seq<Entry>) {
    forall i, j | 0 <= i < j < |entries| :: Newer(entries[i], entries[j])
  }

  /** How many lines the files behind file `i` hold. */
  function OlderLines(files: Files, i: nat, count: nat): int { |Entries(files, count)| - |Entries(files, i + 1)| }

  lemma {:induction false} EntriesGrow(files: Files, a: nat, b: nat)
    requires a <= b
    ensures |Entries(files, a)| <= |Entries(files, b)|
    decreases b - a
  {
    if a < b { EntriesGrow(files, a, b - 1); }
  }

  /** Where the entry at a position comes from. */
  lemma {:induction false} Located(files: Files, count: nat, i: nat)
    requires i < |Entries(files, count)|
    ensures var e := Entries(files, count)[i];
      && e.file < count && |Entries(files, e.file)| <= i < |Entries(files, e.file)| + |At(files, e.file)|
      && e.lineNumber == i - |Entries(files, e.file)| + 1
  {
    if i < |Entries(files, count - 1)| { Located(files, count - 1, i); }
  }

  lemma {:induction false} EntryOf(files: Files, count: nat, f: nat, k: nat)
    requires f < count && k < |At(files, f)|
    ensures |Entries(files, f)| + k < |Entries(files, count)|
    ensures Entries(files, count)[|Entries(files, f)| + k] == Entry(f, k + 1, At(files, f)[k])
  {
    if f < count - 1 { EntryOf(files, count - 1, f, k); }
  }

  /** No file contributes two lines: each holds at most one, or the limit ends at its last. */
  predicate OneLineEach(files: Files, count: nat, limit: nat) {
    forall f | 0 <= f < count :: |At(files, f)| <= 1 || limit <= OlderLines(files, f, count) + 1
  }

  lemma TwoLinesOfAFile(files: Files, count: nat, limit: nat, f: nat)
    requires f < count && |At(files, f)| > 1 && limit > OlderLines(files, f, count) + 1
    ensures !NewestFirst(LastOf(Entries(files, count), limit))
  {
    hide Entries, LastOf, History;
    var all, n := Entries(files, count), |At(files, f)|;
    var kept := LastOf(all, limit);
    LastOfDrops(all, limit);
    EntryOf(files, count, f, n - 2);
    EntryOf(files, count, f, n - 1);
    EntriesOfNext(files, f);
    var i := |Entries(files, f)| + n - 2 - (|all| - |kept|);
    assert kept[i].file == kept[i + 1].file == f && kept[i].lineNumber < kept[i + 1].lineNumber;
    assert !Newer(kept[i], kept[i + 1]);
  }

  lemma InOrder(files: Files, count: nat, limit: nat, i: nat, j: nat)
    requires OneLineEach(files, count, limit) && i < j < |Entries(files, count)| && |Entries(files, count)| - limit <= i
    ensures Newer(Entries(files, count)[i], Entries(files, count)[j])
  {
    hide Entries;
    Located(files, count, i);
    Located(files, count, j);
    var f, g := Entries(files, count)[i].file, Entries(files, count)[j].file;
    EntriesOfNext(files, f);
    EntriesOfNext(files, g);
    if g < f { EntriesGrow(files, g + 1, f); }
    assert |At(files, f)| <= 1 || limit <= OlderLines(files, f, count) + 1;
  }

  /** What is read back is in the promised order, newest first, exactly when no file contributes two lines. */
  lemma NewestFirstIff(files: Files, count: nat, limit: nat)
    ensures NewestFirst(LastOf(Entries(files, count), limit)) <==> OneLineEach(files, count, limit)
  {
    hide Entries;
    var all := Entries(files, count);
    var kept := LastOf(all, limit);
    var drop := |all| - |kept|;
    if OneLineEach(files, count, limit) {
      forall i, j | 0 <= i < j < |kept| ensures Newer(kept[i], kept[j]) {
        InOrder(files, count, limit, drop + i, drop + j);
        assert kept[i] == all[drop + i] && kept[j] == all[drop + j];
      }
    } else {
      var f :| 0 <= f < count && !(|At(files, f)| <= 1 || limit <= OlderLines(files, f, count) + 1);
      TwoLinesOfAFile(files, count, limit, f);
    }
  }

  lemma EntriesOfNext(files: Files, f: nat)
    ensures |Entries(files, f + 1)| == |Entries(files, f)| + |At(files, f)|
  {
  }

  /**
   * The tail that is kept is the tail of a newest-file-FIRST list, so the newest line is among the
   * entries read back exactly when the limit exceeds the number of lines in the rotated files.
   */
  lemma NewestIsReadBackIff(files: Files, count: nat, limit: nat)
    requires count > 0 && At(files, 0) != []
    ensures var current := At(files, 0);
      Entry(0, |current|, current[|current| - 1]) in LastOf(Entries(files, count), limit) <==>
      |History(files, count)| - |current| < limit
  {
    hide History, Entries, At, LastOf;
    var n, all := |At(files, 0)|, Entries(files, count);
    AllLinesAreEntries(files, count);
    EntryOf(files, count, 0, n - 1);
    NoEntries(files);
    LastOfDrops(all, limit);
    var kept, newest := LastOf(all, limit), all[n - 1];
    if |all| - |kept| <= n - 1 {
      assert kept[n - 1 - (|all| - |kept|)] == newest;
    } else if newest in kept {
      var j :| 0 <= j < |kept| && kept[j] == newest;
      Located(files, count, |all| - |kept| + j);
    }
  }

  lemma NoEntries(files: Files)
    ensures |Entries(files, 0)| == 0
  {
  }

  lemma LastOfDrops(entries: seq<Entry>, limit: nat)
    ensures var kept := LastOf(entries, limit);
      && |kept| == (if |entries| <= limit then |entries| else limit)
      && forall i | 0 <= i < |kept| :: kept[i] == entries[|entries| - |kept| + i]
  {
  }
}
