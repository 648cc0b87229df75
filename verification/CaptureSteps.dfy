/**
 * The locked body of a capture as atomic steps. `Local` is one caller's program counter together
 * with the row and files of the one document it works on; `Choice` resolves everything the code
 * does not control (network, file-system behaviour, storage errors).
 *
 * All three entry points (`capture_report_document`, `fetch_report_document`,
 * `fetch_pending_attachments`) run this same body; they differ only in how they report its outcome.
 */
module CaptureSteps {
  import opened Options
  import opened Containers
  import opened DocumentRows

  /** How a call ends; each is reported as success except the last two. */
  datatype Outcome =
    | AlreadyFetched(row: Row)               // verified or healed before any fetch
    | Stored(path: Option<FileName>)         // this call's bytes are the published ones
    | LostRace(path: Option<FileName>)       // `publish_no_clobber` answered false
    | Declined(path: Option<FileName>)       // the guarded row write declined
    | FetchFailed
    | Errored                                // a storage or file error left through `?`

  predicate ReportsSuccess(o: Outcome) { !o.FetchFailed? && !o.Errored? }

  datatype Pc =
    | Inspect
    | Check(seen: Row, retries: nat)
    | Reset(seen: Row, retries: nat)
    | Heal(seen: Row)
    | Fetch
    | WriteTemp(doc: Download)
    | Publish(doc: Download, nonce: nat)
    | Reread(doc: Download, nonce: nat)
    | Recheck(doc: Download, nonce: nat, reread: Row)
    | Yield(doc: Download, nonce: nat)
    | ReadWinner(doc: Download)
    | Clear(doc: Download, nonce: nat)
    | Republish(doc: Download, nonce: nat)
    | Tidy(doc: Download, nonce: nat)
    | Record(doc: Download)
    | Stamp(doc: Download, published: Row)
    | RecordFailure
    | Done(outcome: Outcome)

  datatype Choice =
    | Proceed
    | Network(answer: Option<Download>)
    | Temp(nonce: nat)
    | Torn(nonce: nat, partial: Bytes)       // the temporary file was only partly written
    | Via(primitive: Primitive)
    | Removal(done: bool)
    | StampWrite(done: bool)
    | Fault                                  // the operation failed and changed nothing
    | LateFault                              // the row was written, and reading it back failed

  datatype Local = Local(pc: Pc, row: Row, dir: Directory)

  /** Which choices each step leaves open. */
  predicate Offers(pc: Pc, c: Choice) {
    match pc
    case Inspect | Reread(_, _) | ReadWinner(_) => c.Proceed? || c.Fault?
    case Reset(_, _) | Heal(_) | Record(_) | RecordFailure => c.Proceed? || c.Fault? || c.LateFault?
    case Check(_, _) | Recheck(_, _, _) => c.Proceed?
    case Fetch => c.Network?
    case WriteTemp(_) => c.Temp? || c.Torn? || c.Fault?
    case Publish(_, _) | Republish(_, _) => c.Via?
    case Yield(_, _) | Clear(_, _) | Tidy(_, _) => c.Removal?
    case Stamp(_, _) => c.StampWrite?
    case Done(_) => false
  }

  predicate WritesRow(pc: Pc) { pc.Reset? || pc.Heal? || pc.Record? || pc.RecordFailure? }

  /** The row after a guarded write. */
  function Written(pc: Pc, row: Row): Row
    requires WritesRow(pc)
  {
    match pc
    case Reset(seen, _) => MarkPendingForRefetch(row, seen).0
    case Heal(seen) => HealFailedIfUnchanged(row, seen)
    case Record(doc) => MarkFetchedIfUnchanged(row, Final(doc.ext), doc.contentType, ContentHash(doc.bytes),
      |doc.bytes|)
    case RecordFailure => MarkFailed(row, "fetch failed")
  }

  function LocalStep(l: Local, c: Choice): Local
    requires Offers(l.pc, c)
  {
    if c.Fault? then l.(pc := Done(Errored))
    else if c.LateFault? then l.(row := Written(l.pc, l.row), pc := Done(Errored))
    else match l.pc
      case Inspect => l.(pc := Check(l.row, 1))
      case Check(seen, retries) =>
        l.(pc := match seen.status
           case Fetched => if Matches(seen, l.dir) then Done(AlreadyFetched(seen)) else Reset(seen, retries)
           case Failed => if Matches(seen, l.dir) then Heal(seen) else Fetch
           case _ => Fetch)
      case Reset(seen, retries) =>
        var after, applied := Written(l.pc, l.row), MarkPendingForRefetch(l.row, seen).1;
        l.(row := after, pc := if applied || retries == 0 then Resolved(after) else Check(after, retries - 1))
      case Heal(seen) =>
        l.(row := Written(l.pc, l.row), pc := Resolved(Written(l.pc, l.row)))
      case Fetch => l.(pc := if c.answer.Some? then WriteTemp(c.answer.value) else RecordFailure)
      case WriteTemp(doc) =>
        if c.Torn? then l.(dir := l.dir[Part(doc.ext, c.nonce) := Regular(c.partial)], pc := Done(Errored))
        else l.(dir := l.dir[Part(doc.ext, c.nonce) := Regular(doc.bytes)], pc := Publish(doc, c.nonce))
      case Publish(doc, nonce) => (
        match LinkOrRename(l.dir, Part(doc.ext, nonce), Final(doc.ext), c.primitive)
        case Linked(dir) => l.(dir := dir, pc := Tidy(doc, nonce))
        case AlreadyExists => l.(pc := if l.dir[Final(doc.ext)].Regular? then Reread(doc, nonce) else Done(Errored))
        case OtherError => l.(pc := Done(Errored)))
      case Reread(doc, nonce) => l.(pc := Recheck(doc, nonce, l.row))
      case Recheck(doc, nonce, reread) => l.(pc := if Matches(reread, l.dir)
        then Yield(doc, nonce) else Clear(doc, nonce))
      case Yield(doc, nonce) => l.(dir := TryRemove(l.dir, Part(doc.ext, nonce), c.done), pc := ReadWinner(doc))
      case ReadWinner(doc) => l.(pc := Done(LostRace(Else(l.row.path, Final(doc.ext)))))
      case Clear(doc, nonce) => l.(dir := TryRemove(l.dir, Final(doc.ext), c.done), pc := Republish(doc, nonce))
      case Republish(doc, nonce) => (
        match LinkOrRename(l.dir, Part(doc.ext, nonce), Final(doc.ext), c.primitive)
        case Linked(dir) => l.(dir := dir, pc := Tidy(doc, nonce))
        case _ => l.(pc := Done(Errored)))
      case Tidy(doc, nonce) => l.(dir := TryRemove(l.dir, Part(doc.ext, nonce), c.done), pc := Record(doc))
      case Record(doc) =>
        var hash, after := ContentHash(doc.bytes), Written(l.pc, l.row);
        l.(row := after,
           pc := if after.hash == Some(hash)
             then Stamp(doc, after) else Done(Declined(Else(after.path, Final(doc.ext)))))
      case Stamp(doc, published) =>
        l.(row := if c.done then l.row.(container := Some(DetectContainer(doc.bytes))) else l.row,
           pc := Done(Stored(Else(published.path, Final(doc.ext)))))
      case RecordFailure =>
        var after := Written(l.pc, l.row);
        l.(row := after, pc := Done(if after.status == Fetched then AlreadyFetched(after) else FetchFailed))
      case Done(_) => l
  }

  function Resolved(row: Row): Pc { if row.status == Fetched then Done(AlreadyFetched(row)) else Fetch }

  function Else(path: Option<FileName>, default: FileName): Option<FileName> {
    if path.Some? then path else Some(default)
  }

  // ---- What each program point knows ------------------------------------------------------

  /** Facts about the row alone. They hold under the lock whatever happens to the files. */
  ghost predicate RowFacts(pc: Pc, row: Row) {
    match pc
    case Inspect => true
    case Check(seen, _) => seen == row
    case Reset(seen, _) => seen == row && row.status == Fetched
    case Heal(seen) => seen == row && row.status == Failed && row.path.Some?
    case Recheck(_, _, reread) => reread == row && row.status != Fetched
    case Yield(_, _) | ReadWinner(_) => Repairable(row)
    case Stamp(doc, published) => published == row && Publishes(row, doc)
    case Done(outcome) => (
      match outcome
      case AlreadyFetched(seen) => seen == row && row.status == Fetched
      case Stored(path) => row.status == Fetched && row.hash.Some? && row.path == path
      case LostRace(path) => Repairable(row) && row.path == path
      case Declined(_) => false
      case FetchFailed => row.status == Failed
      case Errored => true)
    case _ => row.status != Fetched
  }

  /** A failed row that some file could verify: it names one, with a size that goes with its hash. */
  predicate Repairable(row: Row) {
    && row.status == Failed && row.path.Some? && !NamesNothing(row.path.value)
    && row.hash.Some? && row.size == Some(|row.hash.value.of|)
  }

  ghost predicate Publishes(row: Row, doc: Download) {
    && row.status == Fetched && row.path == Some(Final(doc.ext))
    && row.hash == Some(ContentHash(doc.bytes)) && row.size == Some(|doc.bytes|)
  }

  /** Facts that also speak of the files. They hold while nobody outside edits them. */
  ghost predicate FileFacts(pc: Pc, row: Row, dir: Directory) {
    match pc
    case Reset(_, _) => !Matches(row, dir)
    case Heal(_) => Matches(row, dir)
    case Fetch | WriteTemp(_) => !Matches(row, dir)
    case Publish(doc, nonce) => !Matches(row, dir) && HasTemp(doc, nonce, dir)
    case Reread(doc, nonce) => !Matches(row, dir) && HasTemp(doc, nonce, dir)
    case Recheck(doc, nonce, _) => !Matches(row, dir) && HasTemp(doc, nonce, dir)
    case Clear(doc, nonce) => HasTemp(doc, nonce, dir)
    case Republish(doc, nonce) => HasTemp(doc, nonce, dir)
    case Yield(_, _) | ReadWinner(_) => false
    case Tidy(doc, _) => HasFinal(doc, dir)
    case Record(doc) => HasFinal(doc, dir)
    case Stamp(doc, _) => HasFinal(doc, dir)
    case Done(outcome) => (
      match outcome
      case AlreadyFetched(_) | Stored(_) => Matches(row, dir)
      case LostRace(_) => false
      case _ => true)
    case _ => true
  }

  ghost predicate HasTemp(doc: Download, nonce: nat, dir: Directory) {
    Part(doc.ext, nonce) in dir && dir[Part(doc.ext, nonce)] == Regular(doc.bytes)
  }

  ghost predicate HasFinal(doc: Download, dir: Directory) {
    Final(doc.ext) in dir && dir[Final(doc.ext)] == Regular(doc.bytes)
  }

  // ---- Every step keeps them --------------------------------------------------------------

  lemma StepKeepsRowFacts(l: Local, c: Choice)
    requires Offers(l.pc, c) && RowShape(l.row) && RowFacts(l.pc, l.row)
    ensures RowShape(LocalStep(l, c).row) && RowFacts(LocalStep(l, c).pc, LocalStep(l, c).row)
  {
  }

  lemma StepKeepsFileFacts(l: Local, c: Choice)
    requires Offers(l.pc, c) && RowShape(l.row) && RowFacts(l.pc, l.row) && FileFacts(l.pc, l.row, l.dir)
    ensures FileFacts(LocalStep(l, c).pc, LocalStep(l, c).row, LocalStep(l, c).dir)
  {
  }

  /** A row that agrees with the disk goes on agreeing, even in the middle of a capture. */
  lemma StepKeepsAgreement(l: Local, c: Choice)
    requires Offers(l.pc, c) && RowShape(l.row) && RowFacts(l.pc, l.row) && FileFacts(l.pc, l.row, l.dir)
    requires Agrees(l.row, l.dir)
    ensures Agrees(LocalStep(l, c).row, LocalStep(l, c).dir)
  {
  }

  /** The identity the row publishes: everything but the container stamp. */
  function Identity(row: Row): Row { row.(container := None) }

  /** A fetched row with a hash that agrees with the disk survives any step unchanged but for the stamp. */
  lemma StepKeepsPublishedIdentity(l: Local, c: Choice)
    requires Offers(l.pc, c) && RowShape(l.row) && RowFacts(l.pc, l.row) && FileFacts(l.pc, l.row, l.dir)
    requires l.row.status == Fetched && l.row.hash.Some? && Agrees(l.row, l.dir)
    ensures Identity(LocalStep(l, c).row) == Identity(l.row)
  {
  }
}
