/**
 * When a document's container stamp can come to name the wrong bytes: for one call, and over every
 * run of any number of callers.
 */
module CaptureStamps {
  import opened Options
  import opened Containers
  import opened DocumentRows
  import opened CaptureSteps
  import opened CaptureSolo
  import opened CaptureSystem
  import opened CaptureWitnesses

  // ---- One call ---------------------------------------------------------------------------

  /** The download a program point holds is the one the network answered. */
  predicate HoldsAnswer(pc: Pc, w: World) {
    match pc
    case WriteTemp(doc) => w.answer == Some(doc)
    case Publish(doc, _) => w.answer == Some(doc)
    case Reread(doc, _) => w.answer == Some(doc)
    case Recheck(doc, _, _) => w.answer == Some(doc)
    case Yield(doc, _) => w.answer == Some(doc)
    case ReadWinner(doc) => w.answer == Some(doc)
    case Clear(doc, _) => w.answer == Some(doc)
    case Republish(doc, _) => w.answer == Some(doc)
    case Tidy(doc, _) => w.answer == Some(doc)
    case Record(doc) => w.answer == Some(doc)
    case Stamp(doc, _) => w.answer == Some(doc)
    case _ => true
  }

  /** A call that stores its download leaves its stamp, or the stamp it found if that write fails. */
  lemma {:induction false} StoredStamp(l: Local, w: World)
    requires HoldsAnswer(l.pc, w) && !l.pc.Done? && Solo(l, w).pc.outcome.Stored?
    ensures w.answer.Some?
    ensures Solo(l, w).row.container
      == if w.stamps then Some(DetectContainer(w.answer.value.bytes)) else l.row.container
    decreases Rank(l.pc)
  {
    hide DetectContainer, Matches, Solo;
    var n := LocalStep(l, Pick(l.pc, w));
    StepsTerminate(l, Pick(l.pc, w));
    SoloOfStep(l, w);
    SoloOfDone(w);
    if !n.pc.Done? { StoredStamp(n, w); }
  }

  /**
   * The exact border for one call, from any row and any files: after a store the column is NULL or
   * names the stored bytes' container if and only if the stamp write worked or the column was so before.
   */
  lemma StampAfterStoreIff(row: Row, dir: Directory, w: World)
    requires Solo(Local(Inspect, row, dir), w).pc.outcome.Stored?
    ensures w.answer.Some?
    ensures var true' := Some(DetectContainer(w.answer.value.bytes));
      Solo(Local(Inspect, row, dir), w).row.container in {None, true'} <==> w.stamps || row.container in {None, true'}
  {
    StoredStamp(Local(Inspect, row, dir), w);
  }

  // ---- Any run ----------------------------------------------------------------------------

  /** No stamp, or a document that verifies and bears the stamp of its bytes. */
  predicate StampSound(row: Row, dir: Directory) {
    row.container.Some? ==>
      && Settled(row, dir) && row.container.value == DetectContainer(dir[row.path.value].bytes)
  }

  /** From the decision to ask the network on until the stamp, the row bears none. */
  predicate Unstamped(pc: Pc, row: Row) {
    pc.Inspect? || pc.Check? || pc.Reset? || pc.Heal? || pc.Done? || row.container.None?
  }

  lemma StepKeepsSound(l: Local, c: Choice)
    requires Offers(l.pc, c) && RowShape(l.row) && RowFacts(l.pc, l.row) && FileFacts(l.pc, l.row, l.dir)
    requires StampSound(l.row, l.dir) && Unstamped(l.pc, l.row)
    ensures var n := LocalStep(l, c); StampSound(n.row, n.dir) && Unstamped(n.pc, n.row)
  {
    hide DetectContainer;
    StepKeepsFileFacts(l, c);
    StepKeepsRowFacts(l, c);
  }

  ghost predicate StampInv(s: System, d: DocId) {
    && d in s.docs && StampSound(s.docs[d].row, s.docs[d].dir)
    && forall t | t in s.jobs && s.jobs[t].Running? && s.jobs[t].doc == d :: Unstamped(s.jobs[t].pc, s.docs[d].row)
  }

  lemma NextKeepsStampInv(s: System, l: Label, d: DocId)
    requires Inv(s) && Enabled(true, s, l) && StampInv(s, d) && d !in Next(s, l).touched
    ensures StampInv(Next(s, l), d)
  {
    assert DocInv(s, d);
    if l.Advance? {
      assert JobInv(s, l.thread);
      if s.jobs[l.thread].doc == d { StepKeepsSound(Here(s, l.thread), l.choice); }
    }
  }

  lemma {:induction false} RunKeepsStampInv(s: System, run: seq<Label>, d: DocId)
    requires Inv(s) && Runs(true, s, run) && StampInv(s, d) && d !in End(s, run).touched
    ensures StampInv(End(s, run), d)
    decreases run
  {
    if run != [] {
      var n := Next(s, run[0]);
      if d in n.touched { RunKeepsTouched(n, run[1..], d); }
      NextKeepsInv(s, run[0]);
      NextKeepsStampInv(s, run[0], d);
      RunKeepsStampInv(n, run[1..], d);
    }
  }

  ghost predicate CanBecomeWrong(s: System, d: DocId) {
    exists e: System :: Reaches(true, s, e) && d in e.docs && d !in e.touched &&
      WronglyStamped(e.docs[d].row, e.docs[d].dir)
  }

  /**
   * THE EXACT BORDER. From any start and with nobody editing the document's files, some run of captures
   * leaves it verified with the stamp of other bytes if and only if its row bears a stamp now and does
   * not both verify and bear the right one.
   */
  lemma WrongStampReachableIff(s: System, d: DocId)
    requires Initial(s) && d in s.docs
    ensures CanBecomeWrong(s, d) <==> !StampSound(s.docs[d].row, s.docs[d].dir)
  {
    if StampSound(s.docs[d].row, s.docs[d].dir) {
      SoundStaysSound(s, d);
    } else if !Settled(s.docs[d].row, s.docs[d].dir) {
      UnsettledGoesWrong(s, d);
    } else {
      SettledIsWrong(s, d);
    }
  }

  lemma SoundStaysSound(s: System, d: DocId)
    requires Initial(s) && d in s.docs && StampSound(s.docs[d].row, s.docs[d].dir)
    ensures !CanBecomeWrong(s, d)
  {
    InitialInv(s);
    forall e: System | Reaches(true, s, e) && d in e.docs && d !in e.touched
      ensures !WronglyStamped(e.docs[d].row, e.docs[d].dir)
    {
      var run :| Runs(true, s, run) && Runs(false, s, run) && After(s, run) == e;
      assert End(s, run) == e;
      RunKeepsStampInv(s, run, d);
    }
  }

  lemma UnsettledGoesWrong(s: System, d: DocId)
    requires Initial(s) && d in s.docs && s.docs[d].row.container.Some? && !Settled(s.docs[d].row, s.docs[d].dir)
    ensures CanBecomeWrong(s, d)
  {
    var ext := FreshExtension(s.docs[d].dir);
    var bytes := OtherContainer(s.docs[d].row.container.value);
    AFailedStampWriteLeavesAStaleStamp(s, d, Download(bytes, None, ext), HardLink);
  }

  lemma SettledIsWrong(s: System, d: DocId)
    requires Initial(s) && d in s.docs && Settled(s.docs[d].row, s.docs[d].dir)
    requires !StampSound(s.docs[d].row, s.docs[d].dir)
    ensures CanBecomeWrong(s, d)
  {
    hide DetectContainer;
    var row, dir := s.docs[d].row, s.docs[d].dir;
    ReachesSelf(true, s);
    if row.status == Failed {
      var healed := HealFailedIfUnchanged(row, row);
      var m := Begins(s, s, 0, d);
      m := Goes(true, s, m, 0, d, Local(Inspect, row, dir), Proceed, Local(Check(row, 1), row, dir));
      m := Goes(true, s, m, 0, d, Local(Check(row, 1), row, dir), Proceed, Local(Heal(row), row, dir));
      m := Goes(true, s, m, 0, d, Local(Heal(row), row, dir), Proceed,
        Local(Done(AlreadyFetched(healed)), healed, dir));
      assert WronglyStamped(healed, dir);
    } else {
      assert WronglyStamped(row, dir);
    }
  }

  lemma OtherContainer(container: Container) returns (bytes: Bytes)
    ensures DetectContainer(bytes) != container
  {
    bytes := if container == Zip then [] else ZIP_MAGIC;
    assert StripLeading([]) == [];
  }

  /** Some extension no file of the document bears. */
  lemma FreshExtension(dir: Directory) returns (ext: string)
    ensures Final(ext) !in dir
  {
    var n := LongerThanAll(dir.Keys);
    ext := seq(n, _ => 'x');
  }

  lemma {:induction false} LongerThanAll(names: set<FileName>) returns (n: nat)
    ensures forall ext | Final(ext) in names :: |ext| < n
    decreases |names|
  {
    if names == {} {
      n := 0;
    } else {
      var name :| name in names;
      n := LongerThanAll(names - {name});
      if name.Final? && |name.ext| >= n { n := |name.ext| + 1; }
    }
  }
}
