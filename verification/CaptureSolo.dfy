/**
 * One caller left alone with a document's lock: its steps taken one after another until it is done,
 * in a given `World` of network answers, file-system behaviour and faults. This is the meaning the
 * imperative code in `DocumentLibrary` is proved against.
 */
module CaptureSolo {
  import opened Options
  import opened Containers
  import opened DocumentRows
  import opened CaptureSteps

  /** The operations whose error leaves the capture through `?`. */
  datatype Operation =
    | ReadRow | ResetRow | HealRow | WriteFile | RereadRow | ReadWinnerRow | RecordRow | RecordFailedRow
    | ResetReread | HealReread | RecordReread | FailedReread    // the write went through, reading it back did not
    | ReadStored                                                // the last read of `fetch_report_document`

  /** `transient`: whether a failing fetch fails at the network level. */
  datatype World = World(
    answer: Option<Download>, transient: bool, nonce: nat, first: Primitive, retry: Primitive,
    clears: bool, tidies: bool, stamps: bool, faults: set<Operation>)

  function Faulty(write: Operation, reread: Operation, w: World): Choice {
    if write in w.faults then Fault else if reread in w.faults then LateFault else Proceed
  }

  function Pick(pc: Pc, w: World): (c: Choice)
    ensures !pc.Done? ==> Offers(pc, c)
  {
    match pc
    case Inspect => if ReadRow in w.faults then Fault else Proceed
    case Reset(_, _) => Faulty(ResetRow, ResetReread, w)
    case Heal(_) => Faulty(HealRow, HealReread, w)
    case Fetch => Network(w.answer)
    case WriteTemp(_) => if WriteFile in w.faults then Fault else Temp(w.nonce)
    case Publish(_, _) => Via(w.first)
    case Republish(_, _) => Via(w.retry)
    case Reread(_, _) => if RereadRow in w.faults then Fault else Proceed
    case Yield(_, _) => Removal(w.tidies)
    case ReadWinner(_) => if ReadWinnerRow in w.faults then Fault else Proceed
    case Clear(_, _) => Removal(w.clears)
    case Tidy(_, _) => Removal(w.tidies)
    case Record(_) => Faulty(RecordRow, RecordReread, w)
    case Stamp(_, _) => StampWrite(w.stamps)
    case RecordFailure => Faulty(RecordFailedRow, FailedReread, w)
    case _ => Proceed
  }

  /** Steps that may still follow: every step of a capture moves to a lower rank. */
  function Rank(pc: Pc): nat {
    match pc
    case Inspect => 18
    case Check(_, retries) => 15 + 2 * retries
    case Reset(_, retries) => 14 + 2 * retries
    case Heal(_) => 14
    case Fetch => 13
    case WriteTemp(_) => 12
    case Publish(_, _) => 11
    case Reread(_, _) => 10
    case Recheck(_, _, _) => 9
    case Clear(_, _) => 8
    case Yield(_, _) => 8
    case ReadWinner(_) => 7
    case Republish(_, _) => 7
    case Tidy(_, _) => 6
    case Record(_) => 5
    case Stamp(_, _) => 4
    case RecordFailure => 4
    case Done(_) => 0
  }

  /** Every step of any caller, alone or interleaved, lowers its rank: a capture takes at most 18 steps. */
  lemma StepsTerminate(l: Local, c: Choice)
    requires Offers(l.pc, c)
    ensures Rank(LocalStep(l, c).pc) < Rank(l.pc)
  {
  }

  function Solo(l: Local, w: World): (end: Local)
    ensures end.pc.Done?
    decreases Rank(l.pc)
  {
    if l.pc.Done? then l
    else
      StepsTerminate(l, Pick(l.pc, w));
      Solo(LocalStep(l, Pick(l.pc, w)), w)
  }

  lemma SoloOfStep(l: Local, w: World)
    requires !l.pc.Done?
    ensures Solo(l, w) == Solo(LocalStep(l, Pick(l.pc, w)), w)
  {
  }

  /** What the machine does once the final name is found taken by a regular file. */
  lemma SoloFromReread(doc: Download, row: Row, dir: Directory, w: World)
    ensures Solo(Local(Reread(doc, w.nonce), row, dir), w) ==
      if RereadRow in w.faults then Local(Done(Errored), row, dir)
      else if Matches(row, dir)
        then Solo(Local(ReadWinner(doc), row, TryRemove(dir, Part(doc.ext, w.nonce), w.tidies)), w)
      else Solo(Local(Republish(doc, w.nonce), row, TryRemove(dir, Final(doc.ext), w.clears)), w)
  {
    hide Solo;
    SoloOfDone(w);
    SoloOfStep(Local(Reread(doc, w.nonce), row, dir), w);
    SoloOfStep(Local(Recheck(doc, w.nonce, row), row, dir), w);
    SoloOfStep(Local(Yield(doc, w.nonce), row, dir), w);
    SoloOfStep(Local(Clear(doc, w.nonce), row, dir), w);
  }

  lemma SoloOfDone(w: World)
    ensures forall o, row, dir :: Solo(Local(Done(o), row, dir), w) == Local(Done(o), row, dir)
  {
  }

  /** All that the single steps keep, kept to the end. */
  lemma {:induction false} SoloKeepsFacts(l: Local, w: World)
    requires RowShape(l.row) && RowFacts(l.pc, l.row) && FileFacts(l.pc, l.row, l.dir)
    ensures var e := Solo(l, w); RowShape(e.row) && RowFacts(e.pc, e.row) && FileFacts(e.pc, e.row, e.dir)
    ensures Agrees(l.row, l.dir) ==> Agrees(Solo(l, w).row, Solo(l, w).dir)
    decreases Rank(l.pc)
  {
    if !l.pc.Done? {
      var c := Pick(l.pc, w);
      StepsTerminate(l, c);
      StepKeepsRowFacts(l, c);
      StepKeepsFileFacts(l, c);
      if Agrees(l.row, l.dir) { StepKeepsAgreement(l, c); }
      SoloKeepsFacts(LocalStep(l, c), w);
    }
  }

  /** Is the document already there, verified, without asking the network? */
  predicate Settled(row: Row, dir: Directory) {
    row.status in {Fetched, Failed} && Matches(row, dir)
  }

  /**
   * A fetched row is believed exactly when its file verifies; otherwise it is reset and asked for
   * again. A row without a hash, as a restore writes it, never verifies.
   */
  lemma FetchedRowIsBelievedIffItVerifies(row: Row, dir: Directory, w: World)
    requires row.status == Fetched && w.faults !! {ReadRow, ResetRow, ResetReread}
    ensures Solo(Local(Inspect, row, dir), w) ==
      if Matches(row, dir) then Local(Done(AlreadyFetched(row)), row, dir)
      else Solo(Local(Fetch, row.(status := Pending, path := None), dir), w)
    ensures row.hash.None? ==> !Matches(row, dir)
  {
    hide Solo;
    SoloOfDone(w);
    SoloOfStep(Local(Inspect, row, dir), w);
    SoloOfStep(Local(Check(row, 1), row, dir), w);
    if !Matches(row, dir) { SoloOfStep(Local(Reset(row, 1), row, dir), w); }
  }

  /** A network answer, working files and no storage error. */
  predicate Works(w: World) {
    w.answer.Some? && w.faults == {} && w.clears && w.first != Broken && w.retry != Broken
  }

  /** And nothing but a regular file in the way. */
  predicate Healthy(w: World, dir: Directory)
    requires w.answer.Some?
  {
    Works(w) && (Final(w.answer.value.ext) in dir ==> dir[Final(w.answer.value.ext)].Regular?)
  }

  /** What a healthy call has ahead of it: its own bytes stored at the end. */
  predicate StillComing(pc: Pc, row: Row, dir: Directory, w: World)
    requires w.answer.Some?
  {
    match pc
    case Reset(seen, _) => seen == row && Healthy(w, dir)
    case Fetch => Healthy(w, dir)
    case WriteTemp(doc) => Some(doc) == w.answer && Healthy(w, dir)
    case Publish(doc, nonce) => Some(doc) == w.answer && Healthy(w, dir) && Part(doc.ext, nonce) in dir
    case Reread(doc, nonce) => Some(doc) == w.answer && Healthy(w, dir) && Part(doc.ext, nonce) in dir &&
      Final(doc.ext) in dir
    case Recheck(doc, nonce, reread) => Some(doc) == w.answer && Healthy(w, dir) && Part(doc.ext, nonce) in dir &&
      Final(doc.ext) in dir
    case Clear(doc, nonce) => Some(doc) == w.answer && Healthy(w, dir) && Part(doc.ext, nonce) in dir
    case Republish(doc, nonce) => Some(doc) == w.answer && Healthy(w, dir) && Part(doc.ext, nonce) in dir &&
      Final(doc.ext) !in dir
    case Tidy(doc, _) => Some(doc) == w.answer
    case Record(doc) => Some(doc) == w.answer
    case Stamp(doc, _) => Some(doc) == w.answer
    case Done(outcome) =>
      outcome.Stored? && row.hash == Some(ContentHash(w.answer.value.bytes))
      && (w.stamps ==> row.container == Some(DetectContainer(w.answer.value.bytes)))
    case Check(seen, _) => seen == row && !Settled(row, dir) && Healthy(w, dir)
    case Inspect => !Settled(row, dir) && Healthy(w, dir)
    case _ => false
  }

  lemma StepStillComing(l: Local, w: World)
    requires RowShape(l.row) && RowFacts(l.pc, l.row) && FileFacts(l.pc, l.row, l.dir) && !l.pc.Done?
    requires Works(w) && StillComing(l.pc, l.row, l.dir, w)
    ensures var n := LocalStep(l, Pick(l.pc, w)); StillComing(n.pc, n.row, n.dir, w)
  {
  }

  /**
   * FROM ANY CRASH STATE a healthy call succeeds: whatever the row says and whatever residue lies
   * around, unless the document is verified on disk already, the downloaded bytes end up stored.
   */
  lemma {:induction false} HealthyCallStores(l: Local, w: World)
    requires RowShape(l.row) && RowFacts(l.pc, l.row) && FileFacts(l.pc, l.row, l.dir)
    requires Works(w) && StillComing(l.pc, l.row, l.dir, w)
    ensures var e := Solo(l, w); StillComing(e.pc, e.row, e.dir, w)
    decreases Rank(l.pc)
  {
    if !l.pc.Done? {
      var c := Pick(l.pc, w);
      StepsTerminate(l, c);
      StepKeepsRowFacts(l, c);
      StepKeepsFileFacts(l, c);
      StepStillComing(l, w);
      HealthyCallStores(LocalStep(l, c), w);
    }
  }
}
