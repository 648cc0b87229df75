/**
 * The rotating log writer and the log reader in their own form. `steps` bounds the number of file
 * operations a rotation gets through before the process dies, so every promise below also holds of
 * each intermediate state and of the holes a crash leaves.
 */
module LogWriter {
  import opened Options
  import opened LogFiles

  function Slot(files: Files, i: nat): Option<seq<Line>> { if i in files then Some(files[i]) else None }

  /** A rotation on its way down: above `index` every file has moved up, and the name there is free. */
  ghost predicate Shifting(was: Files, now: Files, index: nat, maxFiles: nat) {
    && Slot(now, index + 1) == None
    && (forall i | 0 <= i <= index :: Slot(now, i) == Slot(was, i))
    && (forall i | index + 1 < i < maxFiles :: Slot(now, i) == Slot(was, i - 1))
    && NoNewIndex(was, now, maxFiles)
  }

  lemma ShiftOne(was: Files, now: Files, index: nat, maxFiles: nat)
    requires index > 0 && index + 1 < maxFiles && Shifting(was, now, index, maxFiles)
    ensures index + 1 !in now
    ensures index !in now ==> Shifting(was, now, index - 1, maxFiles)
    ensures index in now ==> Shifting(was, (now - {index})[index + 1 := now[index]], index - 1, maxFiles)
  {
    var next := if index in now then (now - {index})[index + 1 := now[index]] else now;
    forall i | index < i < maxFiles ensures Slot(next, i) == Slot(was, i - 1) {
      if i == index + 1 { assert Slot(now, index) == Slot(was, index); }
      else { assert Slot(next, i) == Slot(now, i) == Slot(was, i - 1); }
    }
  }

  /** Every file one index up, none left at index 0. */
  ghost predicate Rotated(was: Files, now: Files, maxFiles: nat) {
    Slot(now, 0) == None && forall i | 0 < i < maxFiles :: Slot(now, i) == Slot(was, i - 1)
  }

  lemma LastShift(was: Files, now: Files, maxFiles: nat)
    requires maxFiles > 1 && Shifting(was, now, 0, maxFiles)
    ensures 1 !in now
    ensures 0 !in now ==> Rotated(was, now, maxFiles)
    ensures 0 in now ==> Rotated(was, (now - {0})[1 := now[0]], maxFiles)
  {
    var next := if 0 in now then (now - {0})[1 := now[0]] else now;
    forall i | 0 < i < maxFiles ensures Slot(next, i) == Slot(was, i - 1) {
      if i == 1 { assert Slot(now, 0) == Slot(was, 0); }
      else { assert Slot(next, i) == Slot(now, i) == Slot(was, i - 1); }
    }
  }

  lemma MoveKeepsBounds(was: Files, now: Files, from: nat, to: nat, maxFiles: nat, maxFileBytes: nat)
    requires to < maxFiles && WithinBounds(was, now, maxFiles, maxFileBytes)
    ensures from in now ==> WithinBounds(was, (now - {from})[to := now[from]], maxFiles, maxFileBytes)
  {
    hide Fits;
  }

  lemma RemovalKeepsBounds(was: Files, gone: nat, maxFiles: nat, maxFileBytes: nat)
    ensures WithinBounds(was, was - {gone}, maxFiles, maxFileBytes)
  {
    hide Fits;
    assert forall i | i in was :: i in was && was[i] == was[i];
  }

  lemma AppendKeepsBounds(was: Files, file: seq<Line>, maxFiles: nat, maxFileBytes: nat)
    requires maxFiles > 0 && Fits(file, maxFileBytes)
    ensures WithinBounds(was, was[0 := file], maxFiles, maxFileBytes)
  {
    hide Fits;
    assert forall i | i in was :: i in was && was[i] == was[i];
  }

  lemma ShiftingBegins(was: Files, now: Files, maxFiles: nat)
    requires maxFiles > 1 && now == was && maxFiles - 1 !in was
    ensures Shifting(was, now, maxFiles - 2, maxFiles)
  {
  }

  lemma RotatedIsEmpty(was: Files, now: Files, maxFiles: nat)
    requires Rotated(was, now, maxFiles)
    ensures At(now, 0) == []
  {
  }

  lemma RotatedWithout(was: Files, between: Files, now: Files, maxFiles: nat)
    requires Rotated(was, between, maxFiles) && 0 in now && now == between[0 := now[0]]
    ensures Rotated(was, now - {0}, maxFiles)
  {
    forall i: nat | 0 < i < maxFiles ensures Slot(now - {0}, i) == Slot(was, i - 1) {
      assert Slot(now - {0}, i) == Slot(between, i);
    }
  }

  lemma EmptyIfNoBytes(file: seq<Line>)
    requires Size(file) == 0
    ensures file == []
  {
  }

  /** No file with an index at or above the file count was created. */
  ghost predicate NoNewIndex(was: Files, now: Files, maxFiles: nat) {
    forall i | i in now && i >= maxFiles :: i in was
  }

  /** Every file is within the limit or was there before, whole, under some index. */
  ghost predicate NewFilesFit(was: Files, now: Files, maxFileBytes: nat) {
    forall i | i in now :: Fits(now[i], maxFileBytes) || exists j :: j in was && was[j] == now[i]
  }

  ghost predicate WithinBounds(was: Files, now: Files, maxFiles: nat, maxFileBytes: nat) {
    NoNewIndex(was, now, maxFiles) && NewFilesFit(was, now, maxFileBytes)
  }

  lemma WithinBoundsTransitive(was: Files, between: Files, now: Files, maxFiles: nat, maxFileBytes: nat)
    ensures WithinBounds(was, was, maxFiles, maxFileBytes)
    ensures WithinBounds(was, between, maxFiles, maxFileBytes) && WithinBounds(between, now, maxFiles, maxFileBytes)
      ==> WithinBounds(was, now, maxFiles, maxFileBytes)
  {
    hide Fits;
    assert forall i | i in was :: i in was && was[i] == was[i];
  }

  /** In a directory that respects the limit already, every file goes on respecting it. */
  lemma BoundedStaysBounded(was: Files, now: Files, maxFiles: nat, maxFileBytes: nat)
    requires Bounded(was, maxFileBytes) && WithinBounds(was, now, maxFiles, maxFileBytes)
    ensures Bounded(now, maxFileBytes)
  {
    hide Fits;
  }

  lemma WriteExtendsLog(before: seq<Line>, kept: seq<Line>, log: seq<Line>, line: Line)
    requires kept != [] && kept[|kept| - 1] == line && IsSuffix(kept[..|kept| - 1], before) && IsSuffix(before, log)
    ensures IsSuffix(kept, log + [line])
  {
    SuffixTransitive(kept[..|kept| - 1], before, log);
    SuffixAppend(kept[..|kept| - 1], log, line);
    assert kept == kept[..|kept| - 1] + [line];
  }

  /** The lines whose flag is set, in order. */
  function Chosen(lines: seq<Line>, flags: seq<bool>): seq<Line>
    requires |flags| == |lines|
  {
    if lines == [] then []
    else
      var n := |lines| - 1;
      Chosen(lines[..n], flags[..n]) + if flags[n] then [lines[n]] else []
  }

  lemma NothingChosen(start: seq<Line>, lines: seq<Line>, flags: seq<bool>)
    requires lines == [] && flags == []
    ensures start + Chosen(lines, flags) == start
  {
  }

  lemma ChosenOneMore(start: seq<Line>, lines: seq<Line>, flags: seq<bool>, n: nat, flag: bool)
    requires |flags| == n < |lines|
    ensures start + Chosen(lines[..n + 1], flags + [flag])
      == (start + Chosen(lines[..n], flags)) + if flag then [lines[n]] else []
  {
    assert lines[..n + 1][..n] == lines[..n] && (flags + [flag])[..n] == flags;
  }

  lemma {:induction false} AllChosen(lines: seq<Line>, flags: seq<bool>)
    requires |flags| == |lines| && forall i | 0 <= i < |flags| :: flags[i]
    ensures Chosen(lines, flags) == lines
  {
    if lines != [] {
      var n := |lines| - 1;
      AllChosen(lines[..n], flags[..n]);
      assert lines == lines[..n] + [lines[n]];
    }
  }

  lemma AllRetained(log: seq<Line>, room: int)
    ensures Retains(log, log, room)
  {
  }

  /** One write, as the writer leaves it, loses no end of the log that it must not lose. */
  lemma RetainsAfterOne(files: Files, kept: seq<Line>, log: seq<Line>, line: Line, count: nat, limit: nat, slack: nat,
    written: bool)
    requires count > 1 && Retains(History(files, count), log, limit - slack)
    requires var rest := if written && kept != [] then kept[..|kept| - 1] else kept;
      && (written ==> kept == rest + [line])
      && (rest == History(files, count)
          || (rest == Survivors(files, count) && Size(At(files, 0)) + |line| + 1 > limit))
    ensures written ==> Retains(kept, log + [line], limit - slack)
    ensures !written && |line| + 1 <= slack ==> Retains(kept, log, limit - slack)
  {
    hide Retains, History, Survivors, Size;
    if written {
      RetainsAfterWrite(files, kept[..|kept| - 1], log, line, count, limit, limit - slack);
    } else if |line| + 1 <= slack {
      RetainsWithoutWrite(files, kept, log, line, count, limit, limit - slack);
    }
  }

  class RotatingLogWriter {
    const maxFiles: nat
    const maxFileBytes: nat
    var files: Files

    predicate Valid()
      reads this
    {
      maxFiles >= 1 && maxFileBytes >= 1
    }

    function Kept(): seq<Line>
      reads this
    {
      History(files, maxFiles)
    }

    constructor (files: Files, maxFiles: nat, maxFileBytes: nat)
      ensures Valid() && this.files == files
      ensures this.maxFiles == if maxFiles < 1 then 1 else maxFiles
      ensures this.maxFileBytes == if maxFileBytes < 1 then 1 else maxFileBytes
    {
      this.files := files;
      this.maxFiles := if maxFiles < 1 then 1 else maxFiles;
      this.maxFileBytes := if maxFileBytes < 1 then 1 else maxFileBytes;
    }

    /** `fs::rename`; that the target name is free is what every rename of a rotation must show. */
    method Rename(from: nat, to: nat)
      requires from in files && to !in files && to == from + 1 < maxFiles
      modifies this`files
      ensures files == (old(files) - {from})[to := old(files)[from]]
      ensures Kept() == old(Kept())
    {
      RenameKeepsHistory(files, from, maxFiles);
      files := (files - {from})[to := files[from]];
    }

    /** The first file operation of `rotate`: the oldest file goes, with the lines it holds. */
    method RemoveOldest(steps: nat) returns (done: bool, left: nat)
      requires Valid()
      modifies this`files
      ensures Valid() && files == (if done then old(files) - {maxFiles - 1} else old(files))
      ensures IsSuffix(Kept(), old(Kept()))
      ensures Kept() == old(if done then Survivors(files, maxFiles) else Kept())
      ensures left <= steps <= left + 1 && (steps > 0 ==> done)
    {
      hide IsSuffix;
      SuffixReflexive(Kept());
      if maxFiles - 1 !in files { assert files - {maxFiles - 1} == files; }
      if maxFiles - 1 !in files { return true, steps; }
      if steps == 0 { return false, 0; }
      PrefixLost(At(files, maxFiles - 1), History(files - {maxFiles - 1}, maxFiles));
      RemoveOldestDropsPrefix(files, maxFiles);
      files := files - {maxFiles - 1};
      return true, steps - 1;
    }

    /** The descending rename loop of `rotate`, and its last rename. */
    method ShiftUp(steps: nat) returns (done: bool, left: nat)
      requires Valid() && maxFiles > 1 && maxFiles - 1 !in files
      modifies this`files
      ensures Valid() && WithinBounds(old(files), files, maxFiles, maxFileBytes) && Kept() == old(Kept())
      ensures done ==> Rotated(old(files), files, maxFiles)
      ensures left <= steps && (steps >= maxFiles ==> done && left > 0)
    {
      hide Shifting, Rotated, Slot, History, WithinBounds;
      ghost var was := files;
      ShiftingBegins(was, files, maxFiles);
      WithinBoundsTransitive(was, was, was, maxFiles, maxFileBytes);
      left := steps;
      var index := maxFiles - 2;
      while index > 0
        invariant 0 <= index <= maxFiles - 2 && Shifting(was, files, index, maxFiles)
        invariant Kept() == old(Kept()) && WithinBounds(was, files, maxFiles, maxFileBytes)
        invariant left <= steps && (steps >= maxFiles ==> left > index + 1)
      {
        ShiftOne(was, files, index, maxFiles);
        MoveKeepsBounds(was, files, index, index + 1, maxFiles, maxFileBytes);
        if index in files {
          if left == 0 { return false, 0; }
          Rename(index, index + 1);
          left := left - 1;
        }
        index := index - 1;
      }
      LastShift(was, files, maxFiles);
      MoveKeepsBounds(was, files, 0, 1, maxFiles, maxFileBytes);
      if 0 in files {
        if left == 0 { return false, 0; }
        Rename(0, 1);
        left := left - 1;
      }
      return true, left;
    }

    /** `rotate`, cut off after `steps` file operations; `left` of them are still to come. */
    method Rotate(steps: nat) returns (done: bool, left: nat)
      requires Valid()
      modifies this`files
      ensures Valid() && WithinBounds(old(files), files, maxFiles, maxFileBytes)
      ensures IsSuffix(Kept(), old(Kept()))
      ensures Kept() == old(Survivors(files, maxFiles)) || (!done && Kept() == old(Kept()))
      ensures done ==> Rotated(old(files), files, maxFiles)
      ensures left <= steps && (steps > maxFiles ==> done && left > 0)
    {
      hide WithinBounds, IsSuffix;
      ghost var was := files;
      WithinBoundsTransitive(was, was, was, maxFiles, maxFileBytes);
      RemovalKeepsBounds(was, maxFiles - 1, maxFiles, maxFileBytes);
      var removed;
      removed, left := RemoveOldest(steps);
      if !removed { return false, 0; }
      if maxFiles <= 1 { return true, left; }
      ghost var between := files;
      done, left := ShiftUp(left);
      WithinBoundsTransitive(was, between, files, maxFiles, maxFileBytes);
    }

    /** The append at the end of `write_line`. */
    method Append(line: Line)
      requires Valid() && (At(files, 0) == [] || Size(At(files, 0)) + |line| + 1 <= maxFileBytes)
      modifies this`files
      ensures Valid() && WithinBounds(old(files), files, maxFiles, maxFileBytes) && Kept() == old(Kept()) + [line]
      ensures Fits(At(files, 0), maxFileBytes) && files == old(files[0 := At(files, 0) + [line]])
    {
      AppendExtendsHistory(files, line, maxFiles);
      var file := At(files, 0) + [line];
      assert file[..|file| - 1] == At(files, 0);
      AppendKeepsBounds(files, file, maxFiles, maxFileBytes);
      files := files[0 := file];
    }

    /** Is there something in the current file, and no room for the line? */
    predicate Rotates(line: Line)
      reads this
    {
      Size(At(files, 0)) > 0 && Size(At(files, 0)) + |line| + 1 > maxFileBytes
    }

    /**
     * `write_line`, cut off after `steps` file operations, the append being the last of them: the line
     * is appended to what is kept, of which at most the oldest part is lost.
     */
    method WriteLine(line: Line, steps: nat) returns (written: bool)
      requires Valid()
      modifies this`files
      ensures Valid() && WithinBounds(old(files), files, maxFiles, maxFileBytes)
      ensures written ==> Kept() != [] && Kept()[|Kept()| - 1] == line && IsSuffix(Kept()[..|Kept()| - 1], old(Kept()))
      ensures !written ==> IsSuffix(Kept(), old(Kept()))
      ensures written ==> Fits(At(files, 0), maxFileBytes)
      ensures (steps > maxFiles ==> written) && (steps == 0 ==> !written)
      ensures old(Size(At(files, 0))) + |line| + 1 <= maxFileBytes ==>
        written == (steps > 0) && Kept() == if written then old(Kept()) + [line] else old(Kept())
      ensures written ==> Kept() == old(if Rotates(line) then Survivors(files, maxFiles) else Kept()) + [line]
      ensures !written ==> Kept() == old(Kept()) || (old(Rotates(line)) && Kept() == old(Survivors(files, maxFiles)))
      ensures written && !old(Rotates(line)) ==> files == old(files[0 := At(files, 0) + [line]])
      ensures written && old(Rotates(line)) ==>
        0 in files && files[0] == [line] && Rotated(old(files), files - {0}, maxFiles)
    {
      hide IsSuffix, History, WithinBounds, Fits, Survivors;
      ghost var was, rotating := files, Rotates(line);
      SuffixReflexive(Kept());
      WithinBoundsTransitive(was, files, files, maxFiles, maxFileBytes);
      var left := steps;
      var currentLen := Size(At(files, 0));
      if currentLen > 0 && currentLen + |line| + 1 > maxFileBytes {
        var rotated;
        rotated, left := Rotate(steps);
        if !rotated { return false; }
        RotatedIsEmpty(was, files, maxFiles);
      } else if currentLen == 0 {
        EmptyIfNoBytes(At(files, 0));
      }
      if left == 0 { return false; }
      ghost var rest, between := Kept(), files;
      Append(line);
      WithinBoundsTransitive(was, between, files, maxFiles, maxFileBytes);
      assert Kept()[..|Kept()| - 1] == rest;
      if rotating { RotatedWithout(was, between, files, maxFiles); }
      return true;
    }

    /**
     * Any run of writes, each cut off wherever the process dies, also between the last rename and the
     * append: what the files hold, read from the highest index down, is always a contiguous end of
     * what they held at first followed by the lines whose write went through. And if there are two
     * files or more, no end of that log is lost that leaves room in one file for any line whose write
     * was cut off; with no write cut off, none that fits one file.
     */
    method WriteRun(lines: seq<Line>, steps: seq<nat>, ghost slack: nat) returns (ghost written: seq<bool>)
      requires Valid() && |steps| == |lines|
      modifies this`files
      ensures |written| == |lines| && IsSuffix(Kept(), old(Kept()) + Chosen(lines, written))
      ensures forall i | 0 <= i < |lines| :: (steps[i] > maxFiles ==> written[i]) && (steps[i] == 0 ==> !written[i])
      ensures Valid() && WithinBounds(old(files), files, maxFiles, maxFileBytes)
      ensures Bounded(old(files), maxFileBytes) ==> Bounded(files, maxFileBytes)
      ensures (forall i | 0 <= i < |lines| :: steps[i] > maxFiles) ==> Chosen(lines, written) == lines
      ensures maxFiles > 1 && (forall i | 0 <= i < |lines| && !written[i] :: |lines[i]| + 1 <= slack) ==>
        Retains(Kept(), old(Kept()) + Chosen(lines, written), maxFileBytes - slack)
    {
      hide Retains, Survivors, Rotated, Size, IsSuffix, History, Fits, WithinBounds, Bounded, Chosen;
      written := [];
      ghost var start, log := Kept(), Kept();
      SuffixReflexive(log);
      AllRetained(log, maxFileBytes - slack);
      NothingChosen(start, lines[..0], written);
      WithinBoundsTransitive(files, files, files, maxFiles, maxFileBytes);
      for n := 0 to |lines|
        invariant |written| == n && log == start + Chosen(lines[..n], written)
        invariant Valid() && IsSuffix(Kept(), log) && WithinBounds(old(files), files, maxFiles, maxFileBytes)
        invariant forall i | 0 <= i < n :: (steps[i] > maxFiles ==> written[i]) && (steps[i] == 0 ==> !written[i])
        invariant maxFiles > 1 && (forall i | 0 <= i < n && !written[i] :: |lines[i]| + 1 <= slack) ==>
          Retains(Kept(), log, maxFileBytes - slack)
      {
        ghost var before := Kept();
        ghost var earlier := files;
        var one := WriteLine(lines[n], steps[n]);
        WithinBoundsTransitive(old(files), earlier, files, maxFiles, maxFileBytes);
        ChosenOneMore(start, lines, written, n, one);
        if maxFiles > 1 && forall i | 0 <= i < n && !written[i] :: |lines[i]| + 1 <= slack {
          RetainsAfterOne(earlier, Kept(), log, lines[n], maxFiles, maxFileBytes, slack, one);
        }
        if one {
          WriteExtendsLog(before, Kept(), log, lines[n]);
          log := log + [lines[n]];
        } else {
          SuffixTransitive(Kept(), before, log);
        }
        written := written + [one];
      }
      assert lines[..|lines|] == lines;
      if forall i | 0 <= i < |lines| :: written[i] { AllChosen(lines, written); }
      if Bounded(old(files), maxFileBytes) { BoundedStaysBounded(old(files), files, maxFiles, maxFileBytes); }
    }

    /** `read_log_entries`. */
    method ReadLogEntries(count: nat, limit: nat) returns (entries: seq<Entry>)
      ensures entries == LastOf(Entries(files, if count < 1 then 1 else count), Clamp(limit))
    {
      var paths := if count < 1 then 1 else count;
      entries := [];
      for path := 0 to paths
        invariant entries == Entries(files, path)
      {
        if path !in files { continue; }
        ghost var before := entries;
        for index := 0 to |files[path]|
          invariant entries == before + EntriesOf(path, files[path])[..index]
        {
          entries := entries + [Entry(path, index + 1, files[path][index])];
        }
      }
      var bounded := Clamp(limit);
      if |entries| > bounded { entries := entries[|entries| - bounded..]; }
    }
  }
}
