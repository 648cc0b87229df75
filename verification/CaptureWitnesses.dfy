/**
 * Runs that do exist. First, why the per-document lock is there: without it the guarded row writes
 * are all still in force, and yet two captures of one document can leave the row claiming bytes that
 * are not on disk: once by reclaiming a file as "residue", once by a rename that replaces its target.
 * Then two runs WITH the lock: the only way a success can leave a row unfetched, and the way a
 * container stamp can end up naming a file that is no longer there.
 */
module CaptureWitnesses {
  import opened Options
  import opened DocumentRows
  import opened CaptureSteps
  import opened CaptureSolo
  import opened CaptureSystem
  import opened Containers

  ghost predicate Reaches(locking: bool, s: System, e: System) {
    exists run :: Runs(locking, s, run) && Runs(false, s, run) && After(s, run) == e
  }

  lemma ReachesSelf(locking: bool, s: System)
    ensures Reaches(locking, s, s)
  {
    assert Runs(locking, s, []) && Runs(false, s, []) && After(s, []) == s;
  }

  lemma {:induction false} RunExtends(locking: bool, s: System, run: seq<Label>, l: Label)
    requires Runs(locking, s, run) && Runs(false, s, run) && Enabled(locking, After(s, run), l)
    ensures Runs(locking, s, run + [l]) && Runs(false, s, run + [l])
    ensures After(s, run + [l]) == Next(After(s, run), l)
    decreases run
  {
    if run == [] {
      assert run + [l] == [l] && [l][1..] == [];
    } else {
      assert (run + [l])[0] == run[0] && (run + [l])[1..] == run[1..] + [l];
      RunExtends(locking, Next(s, run[0]), run[1..], l);
    }
  }

  lemma ReachesNext(locking: bool, s: System, m: System, l: Label)
    requires Reaches(locking, s, m) && Enabled(locking, m, l)
    ensures Reaches(locking, s, Next(m, l))
  {
    var run :| Runs(locking, s, run) && Runs(false, s, run) && After(s, run) == m;
    RunExtends(locking, s, run, l);
  }

  /** `t` is inside the capture of `d`, at the program point and with the row and files of `l`. */
  ghost predicate At(locking: bool, s: System, m: System, t: ThreadId, d: DocId, l: Local) {
    Reaches(locking, s, m) && t in m.jobs && d in m.docs && m.jobs[t] == Running(d, l.pc) &&
      m.docs[d] == Doc(l.row, l.dir)
  }

  /** Only thread `t` and document `d` may have moved from `m` to `e`. */
  ghost predicate OthersStay(m: System, e: System, t: ThreadId) {
    && e.touched == m.touched
    && forall u | u in m.jobs && u != t :: u in e.jobs && e.jobs[u] == m.jobs[u]
  }

  lemma Goes(locking: bool, s: System, m: System, t: ThreadId, d: DocId, l: Local, c: Choice, l': Local)
    returns (e: System)
    requires At(locking, s, m, t, d, l) && Offers(l.pc, c) && LocalStep(l, c) == l'
    ensures At(locking, s, e, t, d, l') && OthersStay(m, e, t)
  {
    e := Next(m, Advance(t, c));
    ReachesNext(locking, s, m, Advance(t, c));
  }

  // ---- One caller on its own, up to the row write ------------------------------------------

  /** Publishing when the name is free, or when the primitive replaces what is there. */
  lemma Publishes(locking: bool, s: System, m: System, t: ThreadId, d: DocId, row: Row, dir: Directory, doc: Download,
    nonce: nat, via: Primitive)
    returns (e: System, dir': Directory)
    requires At(locking, s, m, t, d, Local(Publish(doc, nonce), row, dir)) && HasTemp(doc, nonce, dir) && via != Broken
    requires Final(doc.ext) in dir ==> dir[Final(doc.ext)].Regular? && via == ReplacingRename
    ensures At(locking, s, e, t, d, Local(Record(doc), row, dir')) && HasFinal(doc, dir') && OthersStay(m, e, t)
  {
    var linked := LinkOrRename(dir, Part(doc.ext, nonce), Final(doc.ext), via).dir;
    dir' := TryRemove(linked, Part(doc.ext, nonce), true);
    e := Goes(locking, s, m, t, d, Local(Publish(doc, nonce), row, dir), Via(via),
      Local(Tidy(doc, nonce), row, linked));
    e := Goes(locking, s, e, t, d, Local(Tidy(doc, nonce), row, linked), Removal(true), Local(Record(doc), row, dir'));
  }

  /** A file in the way of a row that does not verify is taken for residue and cleared. */
  lemma ClearsResidue(locking: bool, s: System, m: System, t: ThreadId, d: DocId, row: Row, dir: Directory,
    doc: Download, nonce: nat, via: Primitive)
    returns (e: System)
    requires At(locking, s, m, t, d, Local(Publish(doc, nonce), row, dir)) && Part(doc.ext, nonce) in dir
    requires via in {HardLink, RefusingRename} && !Matches(row, dir)
    requires Final(doc.ext) in dir && dir[Final(doc.ext)].Regular?
    ensures At(locking, s, e, t, d, Local(Republish(doc, nonce), row, dir - {Final(doc.ext)})) && OthersStay(m, e, t)
  {
    e := Goes(locking, s, m, t, d, Local(Publish(doc, nonce), row, dir), Via(via), Local(Reread(doc, nonce), row, dir));
    e := Goes(locking, s, e, t, d, Local(Reread(doc, nonce), row, dir), Proceed,
      Local(Recheck(doc, nonce, row), row, dir));
    e := Goes(locking, s, e, t, d, Local(Recheck(doc, nonce, row), row, dir), Proceed,
      Local(Clear(doc, nonce), row, dir));
    e := Goes(locking, s, e, t, d, Local(Clear(doc, nonce), row, dir), Removal(true),
      Local(Republish(doc, nonce), row, dir - {Final(doc.ext)}));
  }

  lemma Republishes(locking: bool, s: System, m: System, t: ThreadId, d: DocId, row: Row, dir: Directory,
    doc: Download, nonce: nat, via: Primitive)
    returns (e: System, dir': Directory)
    requires At(locking, s, m, t, d, Local(Republish(doc, nonce), row, dir)) && HasTemp(doc, nonce, dir) &&
      via != Broken
    requires Final(doc.ext) !in dir
    ensures At(locking, s, e, t, d, Local(Record(doc), row, dir')) && HasFinal(doc, dir') && OthersStay(m, e, t)
  {
    var linked := LinkOrRename(dir, Part(doc.ext, nonce), Final(doc.ext), via).dir;
    dir' := TryRemove(linked, Part(doc.ext, nonce), true);
    e := Goes(locking, s, m, t, d, Local(Republish(doc, nonce), row, dir), Via(via),
      Local(Tidy(doc, nonce), row, linked));
    e := Goes(locking, s, e, t, d, Local(Tidy(doc, nonce), row, linked), Removal(true), Local(Record(doc), row, dir'));
  }

  /** From the network call up to the row write, whatever regular file is in the way. */
  lemma FetchesOver(locking: bool, s: System, m: System, t: ThreadId, d: DocId, row: Row, dir: Directory,
    doc: Download, nonce: nat, via: Primitive)
    returns (e: System, dir': Directory)
    requires At(locking, s, m, t, d, Local(Fetch, row, dir)) && via != Broken
    requires !Matches(row, dir) && RowShape(row)
    requires Final(doc.ext) in dir ==> dir[Final(doc.ext)].Regular?
    ensures At(locking, s, e, t, d, Local(Record(doc), row, dir')) && HasFinal(doc, dir') && OthersStay(m, e, t)
  {
    var temp := dir[Part(doc.ext, nonce) := Regular(doc.bytes)];
    assert !Matches(row, temp);
    e := Goes(locking, s, m, t, d, Local(Fetch, row, dir), Network(Some(doc)), Local(WriteTemp(doc), row, dir));
    e := Goes(locking, s, e, t, d, Local(WriteTemp(doc), row, dir), Temp(nonce), Local(Publish(doc, nonce), row, temp));
    if Final(doc.ext) in dir && via != ReplacingRename {
      e := ClearsResidue(locking, s, e, t, d, row, temp, doc, nonce, via);
      e, dir' := Republishes(locking, s, e, t, d, row, temp - {Final(doc.ext)}, doc, nonce, via);
    } else {
      e, dir' := Publishes(locking, s, e, t, d, row, temp, doc, nonce, via);
    }
  }

  /** The same for a caller that still waits for (or ignores) the lock of a pending document. */
  lemma Overwrites(s: System, m: System, t: ThreadId, d: DocId, row: Row, dir: Directory, doc: Download, nonce: nat,
    via: Primitive)
    returns (e: System, dir': Directory)
    requires Reaches(false, s, m) && t in m.jobs && m.jobs[t] == Waiting(d) && d in m.docs
    requires m.docs[d] == Doc(row, dir) && row.status == Pending && RowShape(row) && via != Broken
    requires Final(doc.ext) in dir ==> dir[Final(doc.ext)].Regular?
    ensures At(false, s, e, t, d, Local(Record(doc), row, dir')) && HasFinal(doc, dir') && OthersStay(m, e, t)
  {
    ReachesNext(false, s, m, Acquire(t));
    e := Next(m, Acquire(t));
    e := Goes(false, s, e, t, d, Local(Inspect, row, dir), Proceed, Local(Check(row, 1), row, dir));
    e := Goes(false, s, e, t, d, Local(Check(row, 1), row, dir), Proceed, Local(Fetch, row, dir));
    e, dir' := FetchesOver(false, s, e, t, d, row, dir, doc, nonce, via);
  }

  // ---- The lock is necessary --------------------------------------------------------------

  ghost predicate ReportedSuccess(e: System, t: ThreadId) {
    t in e.jobs && e.jobs[t].Running? && e.jobs[t].pc.Done? && ReportsSuccess(e.jobs[t].pc.outcome)
  }

  /** The first caller records its hash beside the second's file; the second is declined and satisfied. */
  lemma RecordsBesideTheOther(s: System, m: System, d: DocId, row: Row, dir: Directory, a: Download, b: Download)
    returns (e: System)
    requires Reaches(false, s, m) && {0, 1} <= m.jobs.Keys && m.jobs[0] == Running(d, Record(a))
    requires At(false, s, m, 1, d, Local(Record(b), row, dir)) && HasFinal(b, dir)
    requires row.status == Pending && a.bytes != b.bytes && a.ext == b.ext
    ensures Reaches(false, s, e) && e.touched == m.touched && ReportedSuccess(e, 0) && ReportedSuccess(e, 1)
    ensures d in e.docs && !Agrees(e.docs[d].row, e.docs[d].dir)
  {
    var l := LocalStep(Local(Record(a), row, dir), Proceed);
    e := Goes(false, s, m, 0, d, Local(Record(a), row, dir), Proceed, l);
    var l1 := LocalStep(Local(Record(b), l.row, dir), Proceed);
    e := Goes(false, s, e, 1, d, Local(Record(b), l.row, dir), Proceed, l1);
    var l2 := LocalStep(Local(Stamp(a, l.row), l.row, dir), StampWrite(false));
    e := Goes(false, s, e, 0, d, Local(Stamp(a, l.row), l.row, dir), StampWrite(false), l2);
  }

  /**
   * THE LOCK IS NECESSARY. For every two different contents, every publishing primitive that works
   * at all and every fresh document: with the lock ignored, two callers can both report success,
   * nobody having touched the files, and leave a fetched row whose hash is not that of its file.
   */
  lemma WithoutTheLockRowAndFileDisagree(s: System, d: DocId, a: Download, b: Download, via: Primitive)
    requires Initial(s) && d in s.docs && s.docs[d].row.status == Pending
    requires Final(a.ext) in s.docs[d].dir ==> s.docs[d].dir[Final(a.ext)].Regular?
    requires a.bytes != b.bytes && a.ext == b.ext && via != Broken
    ensures exists e: System :: Reaches(false, s, e) && d in e.docs && !Agrees(e.docs[d].row, e.docs[d].dir)
              && e.touched == {} && ReportedSuccess(e, 0) && ReportedSuccess(e, 1)
  {
    var row, dir := s.docs[d].row, s.docs[d].dir;
    ReachesSelf(false, s);
    ReachesNext(false, s, s, Start(0, d));
    var m := Next(s, Start(0, d));
    ReachesNext(false, s, m, Start(1, d));
    m := Next(m, Start(1, d));
    m, dir := Overwrites(s, m, 0, d, row, dir, a, 0, via);
    m, dir := Overwrites(s, m, 1, d, row, dir, b, 1, via);
    m := RecordsBesideTheOther(s, m, d, row, dir, a, b);
  }

  // ---- The one success that is not fetched ------------------------------------------------

  /** A caller starts on a document that is then as `l` says. */
  lemma Begins(s: System, m: System, t: ThreadId, d: DocId) returns (e: System)
    requires Reaches(true, s, m) && d in m.docs && t !in m.jobs && d !in m.holder
    ensures At(true, s, e, t, d, Local(Inspect, m.docs[d].row, m.docs[d].dir)) && e.touched == m.touched
  {
    ReachesNext(true, s, m, Start(t, d));
    e := Next(m, Start(t, d));
    ReachesNext(true, s, e, Acquire(t));
    e := Next(e, Acquire(t));
  }

  /** From the lock to the network call, for a document that is not settled. */
  lemma Asks(s: System, m: System, t: ThreadId, d: DocId, row: Row, dir: Directory) returns (e: System, asking: Row)
    requires At(true, s, m, t, d, Local(Inspect, row, dir)) && !Settled(row, dir) && RowShape(row)
    ensures At(true, s, e, t, d, Local(Fetch, asking, dir)) && e.touched == m.touched
    ensures asking == if row.status == Fetched then row.(status := Pending, path := None) else row
    ensures !Matches(asking, dir)
  {
    e := Goes(true, s, m, t, d, Local(Inspect, row, dir), Proceed, Local(Check(row, 1), row, dir));
    asking := if row.status == Fetched then row.(status := Pending, path := None) else row;
    if row.status == Fetched {
      e := Goes(true, s, e, t, d, Local(Check(row, 1), row, dir), Proceed, Local(Reset(row, 1), row, dir));
      e := Goes(true, s, e, t, d, Local(Reset(row, 1), row, dir), Proceed, Local(Fetch, asking, dir));
    } else {
      e := Goes(true, s, e, t, d, Local(Check(row, 1), row, dir), Proceed, Local(Fetch, asking, dir));
    }
  }

  /** Did a call on `d` report success at the exit that leaves its row failed? */
  ghost predicate LeftFailed(e: System, d: DocId) {
    && d in e.docs && e.docs[d].row.status == Failed
    && exists t :: t in e.jobs && e.jobs[t].Running? && e.jobs[t].doc == d && ReportedSuccess(e, t)
  }

  /**
   * With the lock taken, an outside edit during the call can still make a success leave the row
   * unfetched: a `Failed` row whose missing file is put back between the check and the publish sends
   * `publish_no_clobber` out with "somebody else already has it". Any row that some file could verify
   * will do, and any download.
   */
  lemma AnOutsideRepairLeavesTheRowFailed(s: System, d: DocId, doc: Download)
    requires Initial(s) && d in s.docs && Repairable(s.docs[d].row)
    ensures exists e: System :: Reaches(true, s, e) && LeftFailed(e, d)
  {
    var row := s.docs[d].row;
    assert RowShape(row);
    ReachesSelf(true, s);
    ReachesNext(true, s, s, Edit(d, map[]));
    var m := Begins(s, Next(s, Edit(d, map[])), 0, d);
    var asking;
    m, asking := Asks(s, m, 0, d, row, map[]);
    m := Goes(true, s, m, 0, d, Local(Fetch, row, map[]), Network(Some(doc)), Local(WriteTemp(doc), row, map[]));
    var file := Regular(row.hash.value.of);
    var repaired := map[Final(doc.ext) := file, row.path.value := file];
    ReachesNext(true, s, m, Edit(d, repaired));
    m := Next(m, Edit(d, repaired));
    m := LosesRace(s, m, d, row, repaired, doc);
  }

  lemma LosesRace(s: System, m: System, d: DocId, row: Row, dir: Directory, doc: Download) returns (e: System)
    requires At(true, s, m, 0, d, Local(WriteTemp(doc), row, dir)) && RowShape(row)
    requires Final(doc.ext) in dir && dir[Final(doc.ext)].Regular?
    requires row.status == Failed && Matches(row, dir)
    ensures Reaches(true, s, e) && LeftFailed(e, d)
  {
    hide Written, Resolved, Reaches;
    var temp := dir[Part(doc.ext, 0) := Regular(doc.bytes)];
    e := Goes(true, s, m, 0, d, Local(WriteTemp(doc), row, dir), Temp(0), Local(Publish(doc, 0), row, temp));
    e := Goes(true, s, e, 0, d, Local(Publish(doc, 0), row, temp), Via(HardLink), Local(Reread(doc, 0), row, temp));
    e := Goes(true, s, e, 0, d, Local(Reread(doc, 0), row, temp), Proceed, Local(Recheck(doc, 0, row), row, temp));
    e := Goes(true, s, e, 0, d, Local(Recheck(doc, 0, row), row, temp), Proceed, Local(Yield(doc, 0), row, temp));
    e := Goes(true, s, e, 0, d, Local(Yield(doc, 0), row, temp), Removal(false), Local(ReadWinner(doc), row, temp));
    e := Goes(true, s, e, 0, d, Local(ReadWinner(doc), row, temp), Proceed, Local(Done(LostRace(row.path)), row, temp));
    assert ReportedSuccess(e, 0);
  }

  /** No step makes a row one that some file could verify: such rows are in the database from the start. */
  lemma StepMakesNoRepairable(l: Local, c: Choice)
    requires Offers(l.pc, c) && RowShape(l.row) && RowFacts(l.pc, l.row) && Repairable(LocalStep(l, c).row)
    ensures Repairable(l.row)
  {
  }

  lemma {:induction false} RepairableFromTheStart(s: System, run: seq<Label>, d: DocId)
    requires Inv(s) && Runs(true, s, run) && d in End(s, run).docs && Repairable(End(s, run).docs[d].row)
    ensures d in s.docs && Repairable(s.docs[d].row)
    decreases run
  {
    if run != [] {
      var l := run[0];
      NextKeepsInv(s, l);
      RepairableFromTheStart(Next(s, l), run[1..], d);
      if l.Advance? && s.jobs[l.thread].doc == d {
        assert JobInv(s, l.thread) && DocInv(s, d);
        StepMakesNoRepairable(Here(s, l.thread), l.choice);
      }
    }
  }

  /** The exact border: a success can leave a document failed if and only if its row was such a one. */
  lemma SuccessCanLeaveFailedIff(s: System, d: DocId)
    requires Initial(s) && d in s.docs
    ensures (exists e: System :: Reaches(true, s, e) && LeftFailed(e, d)) <==> Repairable(s.docs[d].row)
  {
    if Repairable(s.docs[d].row) {
      AnOutsideRepairLeavesTheRowFailed(s, d, Download([], None, ""));
    }
    forall e: System | Reaches(true, s, e) && LeftFailed(e, d) ensures Repairable(s.docs[d].row) {
      var run :| Runs(true, s, run) && Runs(false, s, run) && After(s, run) == e;
      var t :| t in e.jobs && e.jobs[t].Running? && e.jobs[t].doc == d && ReportedSuccess(e, t);
      assert End(s, run) == e;
      InitialInv(s);
      SuccessUnderEdits(s, run, t);
      RepairableFromTheStart(s, run, d);
    }
  }

  // ---- The stamp that goes stale ----------------------------------------------------------

  /**
   * A document that is stamped and not settled is fetched again, and its old stamp is kept: a fetched
   * row whose file does not verify (as `report_documents_restore` writes it, without a hash), a failed
   * one, a pending one that was reset. If the new stamp write then fails, which a capture swallows,
   * the row ends up fetched, verified and stamped with the container of the OLD bytes.
   */
  lemma AFailedStampWriteLeavesAStaleStamp(s: System, d: DocId, doc: Download, via: Primitive)
    requires Initial(s) && d in s.docs && via != Broken && !Settled(s.docs[d].row, s.docs[d].dir)
    requires s.docs[d].row.container.Some? && s.docs[d].row.container != Some(DetectContainer(doc.bytes))
    requires Final(doc.ext) in s.docs[d].dir ==> s.docs[d].dir[Final(doc.ext)].Regular?
    ensures exists e: System :: Reaches(true, s, e) && ReportedSuccess(e, 0) && e.touched == {}
              && d in e.docs && WronglyStamped(e.docs[d].row, e.docs[d].dir)
  {
    var row, dir := s.docs[d].row, s.docs[d].dir;
    assert RowShape(row);
    ReachesSelf(true, s);
    var m := Begins(s, s, 0, d);
    var asking;
    m, asking := Asks(s, m, 0, d, row, dir);
    m, dir := FetchesOver(true, s, m, 0, d, asking, dir, doc, 0, via);
    m := RecordsUnstamped(s, m, d, asking, dir, doc);
  }

  /** A verified document that bears the name of another container than its bytes'. */
  predicate WronglyStamped(row: Row, dir: Directory) {
    && row.status == Fetched && row.container.Some? && Matches(row, dir)
    && row.container.value != DetectContainer(dir[row.path.value].bytes)
  }

  lemma RecordsUnstamped(s: System, m: System, d: DocId, row: Row, dir: Directory, doc: Download) returns (e: System)
    requires At(true, s, m, 0, d, Local(Record(doc), row, dir)) && HasFinal(doc, dir)
    requires row.status != Fetched && row.container.Some? && row.container != Some(DetectContainer(doc.bytes))
    ensures Reaches(true, s, e) && ReportedSuccess(e, 0) && e.touched == m.touched
    ensures d in e.docs && WronglyStamped(e.docs[d].row, e.docs[d].dir)
  {
    var recorded := LocalStep(Local(Record(doc), row, dir), Proceed);
    e := Goes(true, s, m, 0, d, Local(Record(doc), row, dir), Proceed, recorded);
    e := Goes(true, s, e, 0, d, recorded, StampWrite(false), recorded.(pc := Done(Stored(Some(Final(doc.ext))))));
  }
}
