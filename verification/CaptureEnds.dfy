/**
 * What a call that is left alone leaves behind, column by column and file by file, for any row, any
 * files and any world.
 */
module CaptureEnds {
  import opened Options
  import opened Containers
  import opened DocumentRows
  import opened CaptureSteps
  import opened CaptureSolo

  /** The row that publishes a download: every column is the download's own. */
  function StoredRow(doc: Download, container: Option<Container>): Row {
    Row(Fetched, Some(Final(doc.ext)), if doc.contentType == Some("") then None else doc.contentType,
        Some(Digest(doc.bytes)), Some(|doc.bytes|), None, container)
  }

  /** The stamp a call that stored `doc` leaves: that of its bytes, or the old one if the stamp write failed. */
  function StampLeft(was: Row, doc: Download, w: World): Option<Container> {
    if w.stamps then Some(DetectContainer(doc.bytes)) else was.container
  }

  /** The row a document has while the network is asked. */
  function AskingRow(was: Row): Row { if was.status == Fetched then was.(status := Pending, path := None) else was }

  /** The row of a document found verified: healed if it was a failed one, otherwise untouched. */
  function FoundRow(was: Row): Row {
    if was.status == Fetched then was
    else Row(Fetched, was.path, if was.contentType == Some("") then None else was.contentType, was.hash, was.size,
             None, was.container)
  }

  predicate IsFailedRow(row: Row, was: Row) {
    row.error.Some? && row == AskingRow(was).(status := Failed, error := row.error)
  }

  /** Only the download's own two names may hold something else than before. */
  ghost predicate OnlyOwnFiles(dir: Directory, was: Directory, w: World) {
    forall name | !OwnName(name, w) ::
      (name in dir <==> name in was) && (name in dir ==> dir[name] == was[name])
  }

  predicate OwnName(name: FileName, w: World) {
    w.answer.Some? && name in {Final(w.answer.value.ext), Part(w.answer.value.ext, w.nonce)}
  }

  /** How each outcome leaves the row and the files of a document that was `was`. */
  ghost predicate Leaves(o: Outcome, row: Row, dir: Directory, was: Doc, w: World) {
    match o
    case AlreadyFetched(seen) => seen == row == FoundRow(was.row) && dir == was.dir
    case Stored(path) =>
      && w.answer.Some? && path == row.path && HasFinal(w.answer.value, dir) && OnlyOwnFiles(dir, was.dir, w)
      && row == StoredRow(w.answer.value, StampLeft(was.row, w.answer.value, w))
    case FetchFailed => w.answer.None? && IsFailedRow(row, was.row) && dir == was.dir
    case Errored =>
      && OnlyOwnFiles(dir, was.dir, w)
      && (row == was.row || row == AskingRow(was.row) || row == FoundRow(was.row) || IsFailedRow(row, was.row)
          || (w.answer.Some? && row == StoredRow(w.answer.value, was.row.container)))
    case LostRace(_) => false
    case Declined(_) => false
  }

  /** The same in the middle of a call. */
  ghost predicate OnTheWay(l: Local, was: Doc, w: World) {
    match l.pc
    case Inspect => l.row == was.row && l.dir == was.dir
    case Check(seen, _) => seen == l.row == was.row && l.dir == was.dir
    case Reset(seen, _) => seen == l.row == was.row && l.dir == was.dir && seen.status == Fetched
    case Heal(seen) => seen == l.row == was.row && l.dir == was.dir && seen.status == Failed
    case Fetch => l.row == AskingRow(was.row) && l.dir == was.dir
    case RecordFailure => l.row == AskingRow(was.row) && l.dir == was.dir && w.answer.None?
    case Stamp(doc, published) =>
      w.answer == Some(doc) && l.row == published == StoredRow(doc, was.row.container) && HasFinal(doc, l.dir)
      && OnlyOwnFiles(l.dir, was.dir, w)
    case Done(o) => Leaves(o, l.row, l.dir, was, w)
    case WriteTemp(doc) => w.answer == Some(doc) && l.row == AskingRow(was.row) && OnlyOwnFiles(l.dir, was.dir, w)
    case _ =>
      && l.row == AskingRow(was.row) && OnlyOwnFiles(l.dir, was.dir, w) && InHand(l.pc, w)
  }

  /** A call publishes its own download under its own temporary name. */
  ghost predicate InHand(pc: Pc, w: World) {
    match pc
    case Publish(doc, nonce) => w.answer == Some(doc) && nonce == w.nonce
    case Reread(doc, nonce) => w.answer == Some(doc) && nonce == w.nonce
    case Recheck(doc, nonce, _) => w.answer == Some(doc) && nonce == w.nonce
    case Clear(doc, nonce) => w.answer == Some(doc) && nonce == w.nonce
    case Republish(doc, nonce) => w.answer == Some(doc) && nonce == w.nonce
    case Tidy(doc, nonce) => w.answer == Some(doc) && nonce == w.nonce
    case Record(doc) => w.answer == Some(doc)
    case _ => false
  }

  predicate Looks(pc: Pc) {
    pc.Inspect? || pc.Check? || pc.Reset? || pc.Heal? || pc.Fetch? || pc.RecordFailure?
  }

  lemma LookingOnTheWay(l: Local, was: Doc, w: World)
    requires RowShape(l.row) && RowFacts(l.pc, l.row) && FileFacts(l.pc, l.row, l.dir) && Looks(l.pc)
    requires OnTheWay(l, was, w)
    ensures OnTheWay(LocalStep(l, Pick(l.pc, w)), was, w)
  {
    hide LinkOrRename, TryRemove, Matches, OwnName, StoredRow, NamesNothing;
  }

  lemma StoringOnTheWay(l: Local, was: Doc, w: World)
    requires RowFacts(l.pc, l.row) && FileFacts(l.pc, l.row, l.dir) && (l.pc.Record? || l.pc.Stamp?)
    requires OnTheWay(l, was, w)
    ensures OnTheWay(LocalStep(l, Pick(l.pc, w)), was, w)
  {
    hide LinkOrRename, TryRemove, Matches, OwnName, NamesNothing, OnlyOwnFiles;
  }

  lemma PublishingOnTheWay(l: Local, was: Doc, w: World)
    requires RowFacts(l.pc, l.row) && FileFacts(l.pc, l.row, l.dir) && !l.pc.Done?
    requires !Looks(l.pc) && !l.pc.Record? && !l.pc.Stamp? && OnTheWay(l, was, w)
    ensures OnTheWay(LocalStep(l, Pick(l.pc, w)), was, w)
  {
    hide Matches, NamesNothing, StoredRow, AskingRow, FoundRow, IsFailedRow, MarkFetchedIfUnchanged;
  }

  lemma StepOnTheWay(l: Local, was: Doc, w: World)
    requires RowShape(l.row) && RowFacts(l.pc, l.row) && FileFacts(l.pc, l.row, l.dir) && !l.pc.Done?
    requires OnTheWay(l, was, w)
    ensures OnTheWay(LocalStep(l, Pick(l.pc, w)), was, w)
  {
    hide OnTheWay, LocalStep, RowFacts, FileFacts, Pick;
    if Looks(l.pc) { LookingOnTheWay(l, was, w); }
    else if l.pc.Record? || l.pc.Stamp? { StoringOnTheWay(l, was, w); }
    else { PublishingOnTheWay(l, was, w); }
  }

  lemma {:induction false} EndsOnTheWay(l: Local, was: Doc, w: World)
    requires RowShape(l.row) && RowFacts(l.pc, l.row) && FileFacts(l.pc, l.row, l.dir) && OnTheWay(l, was, w)
    ensures OnTheWay(Solo(l, w), was, w)
    decreases Rank(l.pc)
  {
    hide OnTheWay, LocalStep;
    if !l.pc.Done? {
      var c := Pick(l.pc, w);
      StepsTerminate(l, c);
      StepKeepsRowFacts(l, c);
      StepKeepsFileFacts(l, c);
      StepOnTheWay(l, was, w);
      EndsOnTheWay(LocalStep(l, c), was, w);
    }
  }

  /**
   * A call that stores leaves exactly its download's columns, type included, and no error; one that finds
   * the document verified leaves it as it was, or heals it; one whose fetch fails marks it failed and keeps
   * the rest; no other file of the document is touched.
   */
  lemma CallLeaves(was: Doc, w: World)
    requires RowShape(was.row)
    ensures var e := Solo(Local(Inspect, was.row, was.dir), w); Leaves(e.pc.outcome, e.row, e.dir, was, w)
  {
    hide Solo;
    EndsOnTheWay(Local(Inspect, was.row, was.dir), was, w);
  }
}
