/**
 * The capture code in its own imperative form: rows and files of all documents changed step by step.
 * Each method is proved against the step machine: run alone from its own program point, the machine
 * (`Solo`) ends exactly where the method does.
 */
module DocumentLibrary {
  import opened Options
  import opened Containers
  import opened DocumentRows
  import opened CaptureSteps
  import opened CaptureSolo
  import opened CaptureEnds

  datatype Result<+T> = Ok(value: T) | Err

  function Alone(pc: Pc, doc: Doc, w: World): Local { Solo(Local(pc, doc.row, doc.dir), w) }

  /**
   * What a capture of one document promises when it is left alone with it, from any row and any
   * files: a reported success is a fetched and verified document, a document verified before is
   * returned as it is, and a healthy call always ends with its own download stored.
   */
  lemma CapturePromises(doc: Doc, w: World)
    requires RowShape(doc.row)
    ensures var e := Alone(Inspect, doc, w);
      && RowShape(e.row) && e.pc.Done?
      && (ReportsSuccess(e.pc.outcome) ==>
        e.row.status == Fetched && Matches(e.row, e.dir) && ReportedPath(e.pc.outcome) == e.row.path)
      && (e.pc.outcome.FetchFailed? ==> e.row.status == Failed)
      && (Agrees(doc.row, doc.dir) ==> Agrees(e.row, e.dir))
      && (w.answer.Some? && Healthy(w, doc.dir) && !Settled(doc.row, doc.dir) ==>
            e.pc.outcome.Stored? && e.row.hash == Some(ContentHash(w.answer.value.bytes))
            && (w.stamps ==> e.row.container == Some(DetectContainer(w.answer.value.bytes))))
  {
    var start := Local(Inspect, doc.row, doc.dir);
    SoloKeepsFacts(start, w);
    if w.answer.Some? && Healthy(w, doc.dir) && !Settled(doc.row, doc.dir) { HealthyCallStores(start, w); }
  }

  /** How a call ends, and what it leaves of its document, from any row and any files. */
  function OutcomeOf(doc: Doc, w: World): Outcome { Alone(Inspect, doc, w).pc.outcome }

  function EndOf(doc: Doc, w: World): Doc { Doc(Alone(Inspect, doc, w).row, Alone(Inspect, doc, w).dir) }

  predicate Errs(doc: Doc, w: World) { OutcomeOf(doc, w).Errored? }

  /** No storage error, and a failed network, a document that needs none, or files that work. */
  predicate Smooth(doc: Doc, w: World) {
    w.faults == {} && (w.answer.None? || Settled(doc.row, doc.dir) || Healthy(w, doc.dir))
  }

  /** Such a call never ends in an error: a failed fetch is recorded, a settled document handed back. */
  lemma SmoothCallsDoNotErr(doc: Doc, w: World)
    requires RowShape(doc.row) && Smooth(doc, w)
    ensures !Errs(doc, w)
    ensures Settled(doc.row, doc.dir) ==> OutcomeOf(doc, w).AlreadyFetched?
    ensures !Settled(doc.row, doc.dir) && w.answer.None? ==> OutcomeOf(doc, w).FetchFailed?
    ensures !Settled(doc.row, doc.dir) && w.answer.Some? ==> OutcomeOf(doc, w).Stored?
  {
    var row, dir := doc.row, doc.dir;
    if Settled(row, dir) {
      SettledCallReturns(row, dir, w);
    } else if w.answer.None? {
      UnansweredCallFails(row, dir, w);
    } else {
      CapturePromises(doc, w);
    }
  }

  lemma SettledCallReturns(row: Row, dir: Directory, w: World)
    requires Settled(row, dir) && w.faults == {}
    ensures Solo(Local(Inspect, row, dir), w).pc.outcome.AlreadyFetched?
  {
    hide Solo;
    SoloOfDone(w);
    SoloOfStep(Local(Inspect, row, dir), w);
    SoloOfStep(Local(Check(row, 1), row, dir), w);
    if row.status == Failed { SoloOfStep(Local(Heal(row), row, dir), w); }
  }

  lemma UnansweredCallFails(row: Row, dir: Directory, w: World)
    requires !Settled(row, dir) && RowShape(row) && w.faults == {} && w.answer.None?
    ensures Solo(Local(Inspect, row, dir), w).pc.outcome.FetchFailed?
  {
    hide Solo;
    SoloOfDone(w);
    SoloOfStep(Local(Inspect, row, dir), w);
    SoloOfStep(Local(Check(row, 1), row, dir), w);
    var asking := row;
    if row.status == Fetched {
      SoloOfStep(Local(Reset(row, 1), row, dir), w);
      asking := row.(status := Pending, path := None);
    }
    SoloOfStep(Local(Fetch, asking, dir), w);
    SoloOfStep(Local(RecordFailure, asking, dir), w);
  }

  /** The path a successful outcome hands back. */
  function ReportedPath(o: Outcome): Option<FileName> {
    match o
    case AlreadyFetched(row) => row.path
    case Stored(path) => path
    case LostRace(path) => path
    case Declined(path) => path
    case _ => None
  }

  datatype CaptureResult = CaptureResult(path: Option<FileName>, success: bool)
  datatype FetchReport = Delivered(row: Row) | Refused(transient: bool)
  datatype Summary = Summary(stored: nat, failed: nat)

  /** How many of the documents that were not settled before ended in a given status. */
  function Count(was: map<string, Doc>, now: map<string, Doc>, ids: seq<string>, status: Status): nat
    requires forall id | id in ids :: id in was && id in now
  {
    if ids == [] then 0
    else
      var id := ids[|ids| - 1];
      Count(was, now, ids[..|ids| - 1], status) +
      if !Settled(was[id].row, was[id].dir) && now[id].row.status == status then 1 else 0
  }

  lemma {:induction false} CountIgnoresOthers(was: map<string, Doc>, now: map<string, Doc>, now': map<string, Doc>,
    ids: seq<string>, status: Status)
    requires forall id | id in ids :: id in was && id in now && id in now' && now[id] == now'[id]
    ensures Count(was, now, ids, status) == Count(was, now', ids, status)
  {
    if ids != [] { CountIgnoresOthers(was, now, now', ids[..|ids| - 1], status); }
  }

  /** A listed document's fate once its turn is over. */
  ghost predicate Finished(doc: Doc) {
    (doc.row.status == Fetched && Matches(doc.row, doc.dir)) || doc.row.status == Failed
  }

  /** What the batch has established after its first `|ids|` documents. */
  ghost predicate BatchInv(was: map<string, Doc>, now: map<string, Doc>, ids: seq<string>, summary: Summary) {
    && now.Keys == was.Keys
    && (forall id | id in ids :: id in now && Finished(now[id]))
    && (forall k | k in now && k !in ids :: now[k] == was[k])
    && summary == Summary(Count(was, now, ids, Fetched), Count(was, now, ids, Failed))
  }

  lemma NothingCounted(docs: map<string, Doc>)
    ensures BatchInv(docs, docs, [], Summary(0, 0))
  {
  }

  lemma BatchStep(was: map<string, Doc>, now: map<string, Doc>, ids: seq<string>, id: string, doc: Doc,
    summary: Summary, o: Outcome)
    requires BatchInv(was, now, ids, summary) && id in was && id !in ids
    requires Finished(doc) && (o.AlreadyFetched? <==> Settled(was[id].row, was[id].dir))
    requires o.FetchFailed? ==> doc.row.status == Failed
    requires ReportsSuccess(o) ==> doc.row.status == Fetched
    requires !o.Errored?
    ensures BatchInv(was, now[id := doc], ids + [id],
              if o.AlreadyFetched? then summary
              else if o.FetchFailed? then summary.(failed := summary.failed + 1)
              else summary.(stored := summary.stored + 1))
  {
    assert (ids + [id])[..|ids|] == ids;
    CountIgnoresOthers(was, now, now[id := doc], ids, Fetched);
    CountIgnoresOthers(was, now, now[id := doc], ids, Failed);
  }

  /** A row that accepted a download's hash has taken over its other columns too. */
  lemma RecordedRow(row: Row, doc: Download)
    requires var after :=
        MarkFetchedIfUnchanged(row, Final(doc.ext), doc.contentType, ContentHash(doc.bytes), |doc.bytes|);
      after.hash == Some(ContentHash(doc.bytes))
    ensures MarkFetchedIfUnchanged(row, Final(doc.ext), doc.contentType, ContentHash(doc.bytes), |doc.bytes|)
      == StoredRow(doc, row.container)
  {
  }

  class Library {
    var docs: map<string, Doc>
    var fetches: nat

    constructor (docs: map<string, Doc>)
      ensures this.docs == docs && this.fetches == 0
    {
      this.docs := docs;
      this.fetches := 0;
    }

    /** `resolve_before_fetch_bounded`. */
    method ResolveBeforeFetch(id: string, doc: Row, retries: nat, w: World) returns (r: Result<Row>)
      requires id in docs
      modifies this`docs
      ensures docs.Keys == old(docs.Keys) && (forall k | k in docs && k != id :: docs[k] == old(docs[k]))
      ensures docs[id].dir == old(docs[id].dir)
      ensures old(Alone(Check(doc, retries), docs[id], w)) == match r
        case Ok(row) => Alone(Resolved(row), docs[id], w)
        case Err => Alone(Done(Errored), docs[id], w)
      ensures w.faults !! {ResetRow, ResetReread, HealRow, HealReread} ==> r.Ok?
      ensures old(RowShape(docs[id].row) && RowShape(doc)) ==> RowShape(docs[id].row)
      // With an up-to-date snapshot the answer is the row as it now is, fetched just when it was settled.
      ensures old(doc == docs[id].row) && r.Ok? ==>
        r.value == docs[id].row && (r.value.status == Fetched <==> old(Settled(docs[id].row, docs[id].dir)))
      ensures old(doc == docs[id].row && doc.status == Fetched && Matches(doc, docs[id].dir)) ==>
        r == Ok(doc) && docs == old(docs)
      // A concurrent caller's published, verified identity is never erased, however old the snapshot.
      ensures old(docs[id].row.status == Fetched && Matches(docs[id].row, docs[id].dir)) &&
        (doc.hash == old(docs[id].row.hash) ==> doc.size == old(docs[id].row.size))
        ==> docs[id] == old(docs[id])
      decreases retries
    {
      ghost var here := Local(Check(doc, retries), docs[id].row, docs[id].dir);
      SoloOfStep(here, w);
      hide Solo;
      match doc.status
      case Fetched =>
        if Matches(doc, docs[id].dir) { return Ok(doc); }
        SoloOfStep(here.(pc := Reset(doc, retries)), w);
        if ResetRow in w.faults { return Err; }
        var (after, applied) := MarkPendingForRefetch(docs[id].row, doc);
        docs := docs[id := docs[id].(row := after)];
        if ResetReread in w.faults { return Err; }
        if applied || retries == 0 { return Ok(after); }
        r := ResolveBeforeFetch(id, after, retries - 1, w);
      case Failed =>
        if !Matches(doc, docs[id].dir) { return Ok(doc); }
        SoloOfStep(here.(pc := Heal(doc)), w);
        if HealRow in w.faults { return Err; }
        var after := HealFailedIfUnchanged(docs[id].row, doc);
        docs := docs[id := docs[id].(row := after)];
        if HealReread in w.faults { return Err; }
        return Ok(after);
      case _ => return Ok(doc);
    }

    /** `publish_no_clobber`: whether this call's bytes are the ones now under the final name. */
    method PublishNoClobber(id: string, doc: Download, w: World) returns (r: Result<bool>)
      requires id in docs
      modifies this`docs
      ensures docs.Keys == old(docs.Keys) && (forall k | k in docs && k != id :: docs[k] == old(docs[k]))
      ensures docs[id].row == old(docs[id].row)
      ensures old(Alone(Publish(doc, w.nonce), docs[id], w)) == match r
        case Ok(here) => Alone(if here then Record(doc) else ReadWinner(doc), docs[id], w)
        case Err => Alone(Done(Errored), docs[id], w)
    {
      hide Solo, Written, Resolved, Else;
      SoloOfDone(w);
      var part, full := Part(doc.ext, w.nonce), Final(doc.ext);
      SoloOfStep(Local(Publish(doc, w.nonce), docs[id].row, docs[id].dir), w);
      match LinkOrRename(docs[id].dir, part, full, w.first)
      case Linked(dir) =>
        SoloOfStep(Local(Tidy(doc, w.nonce), docs[id].row, dir), w);
        docs := docs[id := docs[id].(dir := TryRemove(dir, part, w.tidies))];
        return Ok(true);
      case OtherError => return Err;
      case AlreadyExists =>
        if !docs[id].dir[full].Regular? { return Err; }
        SoloFromReread(doc, docs[id].row, docs[id].dir, w);
        if RereadRow in w.faults { return Err; }
        if Matches(docs[id].row, docs[id].dir) {
          docs := docs[id := docs[id].(dir := TryRemove(docs[id].dir, part, w.tidies))];
          return Ok(false);
        }
        docs := docs[id := docs[id].(dir := TryRemove(docs[id].dir, full, w.clears))];
        SoloOfStep(Local(Republish(doc, w.nonce), docs[id].row, docs[id].dir), w);
        match LinkOrRename(docs[id].dir, part, full, w.retry)
        case Linked(dir) =>
          SoloOfStep(Local(Tidy(doc, w.nonce), docs[id].row, dir), w);
          docs := docs[id := docs[id].(dir := TryRemove(dir, part, w.tidies))];
          return Ok(true);
        case _ => return Err;
    }

    /** The end of `store_fetched_document`: the guarded row write and the container stamp. */
    method RecordFetched(id: string, doc: Download, w: World) returns (o: Outcome)
      requires id in docs
      modifies this`docs
      ensures docs.Keys == old(docs.Keys) && (forall k | k in docs && k != id :: docs[k] == old(docs[k]))
      ensures old(Alone(Record(doc), docs[id], w)) == Local(Done(o), docs[id].row, docs[id].dir)
      ensures !o.AlreadyFetched? && !o.FetchFailed?
      ensures o.Stored? ==> docs[id].row == StoredRow(doc, StampLeft(old(docs[id].row), doc, w))
    {
      if MarkFetchedIfUnchanged(docs[id].row, Final(doc.ext), doc.contentType, ContentHash(doc.bytes), |doc.bytes|).hash
        == Some(ContentHash(doc.bytes)) {
        RecordedRow(docs[id].row, doc);
      }
      hide Solo, MarkFetchedIfUnchanged, DetectContainer, StoredRow;
      SoloOfDone(w);
      SoloOfStep(Local(Record(doc), docs[id].row, docs[id].dir), w);
      if RecordRow in w.faults { return Errored; }
      var hash := ContentHash(doc.bytes);
      var published := MarkFetchedIfUnchanged(docs[id].row, Final(doc.ext), doc.contentType, hash, |doc.bytes|);
      docs := docs[id := docs[id].(row := published)];
      if RecordReread in w.faults { return Errored; }
      if published.hash != Some(hash) { return Declined(Else(published.path, Final(doc.ext))); }
      SoloOfStep(Local(Stamp(doc, published), docs[id].row, docs[id].dir), w);
      if w.stamps {
        var stamped := published.(container := Some(DetectContainer(doc.bytes)));
        docs := docs[id := docs[id].(row := stamped)];
      }
      return Stored(Else(published.path, Final(doc.ext)));
    }

    /** `store_fetched_document`. */
    method StoreFetchedDocument(id: string, doc: Download, w: World) returns (o: Outcome)
      requires id in docs
      modifies this`docs
      ensures docs.Keys == old(docs.Keys) && (forall k | k in docs && k != id :: docs[k] == old(docs[k]))
      ensures old(Alone(WriteTemp(doc), docs[id], w)) == Local(Done(o), docs[id].row, docs[id].dir)
      ensures !o.AlreadyFetched? && !o.FetchFailed?
      ensures o.Stored? ==> docs[id].row == StoredRow(doc, StampLeft(old(docs[id].row), doc, w))
    {
      hide Solo, MarkFetchedIfUnchanged, DetectContainer, StoredRow;
      SoloOfStep(Local(WriteTemp(doc), docs[id].row, docs[id].dir), w);
      SoloOfDone(w);
      if WriteFile in w.faults { return Errored; }
      docs := docs[id := docs[id].(dir := docs[id].dir[Part(doc.ext, w.nonce) := Regular(doc.bytes)])];
      var here := PublishNoClobber(id, doc, w);
      if here.Err? { return Errored; }
      if !here.value {
        SoloOfStep(Local(ReadWinner(doc), docs[id].row, docs[id].dir), w);
        if ReadWinnerRow in w.faults { return Errored; }
        return LostRace(Else(docs[id].row.path, Final(doc.ext)));
      }
      o := RecordFetched(id, doc, w);
    }

    /** The body all entry points run under the document's lock. */
    method CaptureLocked(id: string, w: World) returns (o: Outcome)
      requires id in docs && RowShape(docs[id].row)
      modifies this
      ensures docs.Keys == old(docs.Keys) && (forall k | k in docs && k != id :: docs[k] == old(docs[k]))
      ensures old(Alone(Inspect, docs[id], w)) == Local(Done(o), docs[id].row, docs[id].dir)
      ensures w.faults !! {ReadRow, ResetRow, ResetReread, HealRow, HealReread} ==>
        fetches == old(fetches) + if old(Settled(docs[id].row, docs[id].dir)) then 0 else 1
      ensures !o.Errored? ==> (o.AlreadyFetched? <==> old(Settled(docs[id].row, docs[id].dir)))
      ensures w.answer.None? ==> o.AlreadyFetched? || o.FetchFailed? || o.Errored?
      ensures old(fetches) <= fetches <= old(fetches) + if old(Settled(docs[id].row, docs[id].dir)) then 0 else 1
      ensures fetches > old(fetches) && w.answer.None? && RecordFailedRow !in w.faults ==> docs[id].row.status == Failed
    {
      hide Solo;
      SoloOfDone(w);
      SoloOfStep(Local(Inspect, docs[id].row, docs[id].dir), w);
      if ReadRow in w.faults { return Errored; }
      var resolved := ResolveBeforeFetch(id, docs[id].row, 1, w);
      if resolved.Err? { return Errored; }
      if resolved.value.status == Fetched { return AlreadyFetched(resolved.value); }
      fetches := fetches + 1;
      SoloOfStep(Local(Fetch, docs[id].row, docs[id].dir), w);
      if w.answer.Some? {
        o := StoreFetchedDocument(id, w.answer.value, w);
      } else {
        SoloOfStep(Local(RecordFailure, docs[id].row, docs[id].dir), w);
        if RecordFailedRow in w.faults { return Errored; }
        var after := MarkFailed(docs[id].row, "fetch failed");
        docs := docs[id := docs[id].(row := after)];
        if FailedReread in w.faults { return Errored; }
        return if after.status == Fetched then AlreadyFetched(after) else FetchFailed;
      }
    }

    /** `capture_report_document`, once its upsert has found the row. */
    method CaptureReportDocument(id: string, w: World) returns (r: Result<CaptureResult>)
      requires id in docs && RowShape(docs[id].row)
      modifies this
      ensures docs.Keys == old(docs.Keys) && (forall k | k in docs && k != id :: docs[k] == old(docs[k]))
      ensures RowShape(docs[id].row)
      ensures r.Ok? && r.value.success ==>
        docs[id].row.status == Fetched && Matches(docs[id].row, docs[id].dir) && r.value.path == docs[id].row.path
      ensures r.Ok? && !r.value.success ==> docs[id].row.status == Failed && r.value.path == None
      ensures docs[id] == old(EndOf(docs[id], w)) && (r.Err? <==> old(Errs(docs[id], w)))
      ensures Leaves(old(OutcomeOf(docs[id], w)), docs[id].row, docs[id].dir, old(docs[id]), w)
      ensures r.Ok? ==>
        r.value == old(CaptureResult(ReportedPath(OutcomeOf(docs[id], w)), ReportsSuccess(OutcomeOf(docs[id], w))))
      ensures old(Smooth(docs[id], w)) ==> r.Ok?
      ensures old(Agrees(docs[id].row, docs[id].dir)) ==> Agrees(docs[id].row, docs[id].dir)
      ensures fetches <= old(fetches) + if old(Settled(docs[id].row, docs[id].dir)) then 0 else 1
      ensures w.answer.Some? && Healthy(w, old(docs[id].dir)) && !old(Settled(docs[id].row, docs[id].dir)) ==>
        r.Ok? && r.value.success && docs[id].row.hash == Some(ContentHash(w.answer.value.bytes))
    {
      CapturePromises(docs[id], w);
      CallLeaves(docs[id], w);
      if Smooth(docs[id], w) { SmoothCallsDoNotErr(docs[id], w); }
      hide Solo, Smooth, Leaves;
      var o := CaptureLocked(id, w);
      if o.Errored? { return Err; }
      return Ok(CaptureResult(ReportedPath(o), ReportsSuccess(o)));
    }

    /**
     * `fetch_report_document`: the row itself, or an error with whether a retry may succeed. It may
     * exactly when the network was asked and failed to answer; the row is then a failed one. It is
     * refused exactly when the capture fails or errs, or its last read does.
     */
    method FetchReportDocument(id: string, w: World) returns (r: FetchReport)
      requires id in docs && RowShape(docs[id].row)
      modifies this
      ensures docs.Keys == old(docs.Keys) && (forall k | k in docs && k != id :: docs[k] == old(docs[k]))
      ensures RowShape(docs[id].row)
      ensures docs[id] == old(EndOf(docs[id], w))
      ensures Leaves(old(OutcomeOf(docs[id], w)), docs[id].row, docs[id].dir, old(docs[id]), w)
      ensures r.Refused? <==> old(RefusesRow(OutcomeOf(docs[id], w), w))
      ensures old(Smooth(docs[id], w) && (w.answer.Some? || Settled(docs[id].row, docs[id].dir))) ==> r.Delivered?
      ensures r.Delivered? ==> r.row == docs[id].row && r.row.status == Fetched && Matches(r.row, docs[id].dir)
      ensures r.Refused? ==> (r.transient <==> fetches == old(fetches) + 1 && w.answer.None? && w.transient)
      ensures r.Refused? && fetches == old(fetches) + 1 && w.answer.None? && RecordFailedRow !in w.faults ==>
        docs[id].row.status == Failed
      ensures old(Agrees(docs[id].row, docs[id].dir)) ==> Agrees(docs[id].row, docs[id].dir)
      ensures fetches <= old(fetches) + if old(Settled(docs[id].row, docs[id].dir)) then 0 else 1
    {
      CapturePromises(docs[id], w);
      CallLeaves(docs[id], w);
      if Smooth(docs[id], w) { SmoothCallsDoNotErr(docs[id], w); }
      hide Solo, Leaves;
      var before := fetches;
      var o := CaptureLocked(id, w);
      if !ReportsSuccess(o) { return Refused(fetches > before && w.answer.None? && w.transient); }
      if !o.AlreadyFetched? && ReadStored in w.faults { return Refused(false); }
      return Delivered(docs[id].row);
    }

    /** One turn of the batch: the document ends as its capture does, fetched and verified, or failed. */
    method CaptureListed(id: string, w: World) returns (o: Outcome)
      requires id in docs && RowShape(docs[id].row)
      modifies this
      ensures docs == old(docs[id := EndOf(docs[id], w)]) && o == old(OutcomeOf(docs[id], w))
      ensures Leaves(o, docs[id].row, docs[id].dir, old(docs[id]), w)
      ensures !o.Errored? ==> Finished(docs[id]) && (o.AlreadyFetched? <==> old(Settled(docs[id].row, docs[id].dir)))
      ensures o.FetchFailed? ==> docs[id].row.status == Failed
      ensures ReportsSuccess(o) ==> docs[id].row.status == Fetched
    {
      CapturePromises(docs[id], w);
      CallLeaves(docs[id], w);
      hide Solo, Leaves;
      o := CaptureLocked(id, w);
    }

    /**
     * `fetch_pending_attachments` over a list of documents read before their locks were taken. Each
     * document in turn ends exactly as its own capture ends it, until one errs; the others are as they
     * were. The batch errs exactly when some turn does, so never over a failed fetch. When none does,
     * every listed document is fetched and verified, or failed, and the summary counts exactly those
     * that were not settled before their turn.
     */
    method FetchPendingAttachments(pending: seq<string>, worlds: seq<World>)
      returns (r: Result<Summary>, ghost turns: nat)
      requires |worlds| == |pending|
      requires forall i, j | 0 <= i < j < |pending| :: pending[i] != pending[j]
      requires forall id | id in pending :: id in docs && RowShape(docs[id].row)
      modifies this
      ensures turns <= |pending| && TurnsTaken(old(docs), docs, pending, worlds, turns)
      ensures r.Ok? ==> turns == |pending| && NoneErrs(old(docs), pending, worlds, turns)
      ensures r.Err? ==> turns > 0 && NoneErrs(old(docs), pending, worlds, turns - 1)
      ensures r.Err? ==> Errs(old(docs)[pending[turns - 1]], worlds[turns - 1])
      ensures (forall i | 0 <= i < |pending| :: Smooth(old(docs)[pending[i]], worlds[i])) ==> r.Ok?
      ensures forall k | k in docs :: old(Agrees(docs[k].row, docs[k].dir)) ==> Agrees(docs[k].row, docs[k].dir)
      ensures r.Ok? ==> forall id | id in pending :: Finished(docs[id])
      ensures r.Ok? ==>
        r.value == Summary(Count(old(docs), docs, pending, Fetched), Count(old(docs), docs, pending, Failed))
    {
      hide Count, Finished, Settled, EndOf, OutcomeOf, Smooth;
      var summary := Summary(0, 0);
      turns := 0;
      NothingCounted(docs);
      for i := 0 to |pending|
        invariant BatchInv(old(docs), docs, pending[..i], summary) && turns == i
        invariant TurnsTaken(old(docs), docs, pending, worlds, i) && NoneErrs(old(docs), pending, worlds, i)
      {
        var id := pending[i];
        assert id !in pending[..i] && pending[..i] + [id] == pending[..i + 1];
        ghost var before := docs;
        assert docs[id] == old(docs)[id];
        var o := CaptureListed(id, worlds[i]);
        turns := i + 1;
        TurnTaken(old(docs), before, pending, worlds, i);
        if o.Errored? {
          TurnsKeepAgreement(old(docs), docs, pending, worlds, turns);
          SmoothTurnsDoNotErr(old(docs), pending, worlds);
          return Err, turns;
        }
        BatchStep(old(docs), before, pending[..i], id, docs[id], summary, o);
        if o.AlreadyFetched? { continue; }
        summary := if o.FetchFailed?
          then summary.(failed := summary.failed + 1) else summary.(stored := summary.stored + 1);
      }
      assert pending[..|pending|] == pending;
      TurnsKeepAgreement(old(docs), docs, pending, worlds, turns);
      return Ok(summary), turns;
    }
  }

  /** Does `fetch_report_document` answer with an error? */
  predicate RefusesRow(o: Outcome, w: World) {
    !ReportsSuccess(o) || (!o.AlreadyFetched? && ReadStored in w.faults)
  }

  ghost predicate Listed(docs: map<string, Doc>, pending: seq<string>, worlds: seq<World>) {
    && |worlds| == |pending| && (forall i, j | 0 <= i < j < |pending| :: pending[i] != pending[j])
    && forall id | id in pending :: id in docs
  }

  /** The first `turns` documents are as their captures leave them, all others as they were. */
  ghost predicate TurnsTaken(
    was: map<string, Doc>, now: map<string, Doc>, pending: seq<string>, worlds: seq<World>, turns: nat)
    requires turns <= |pending| == |worlds|
  {
    && Listed(was, pending, worlds) && now.Keys == was.Keys
    && (forall i | 0 <= i < turns :: now[pending[i]] == EndOf(was[pending[i]], worlds[i]))
    && forall k | k in was && k !in pending[..turns] :: now[k] == was[k]
  }

  ghost predicate NoneErrs(was: map<string, Doc>, pending: seq<string>, worlds: seq<World>, turns: nat)
    requires turns <= |pending| && Listed(was, pending, worlds)
  {
    forall i | 0 <= i < turns :: !Errs(was[pending[i]], worlds[i])
  }

  lemma TurnTaken(was: map<string, Doc>, now: map<string, Doc>, pending: seq<string>, worlds: seq<World>, i: nat)
    requires i < |pending| == |worlds| && TurnsTaken(was, now, pending, worlds, i)
    ensures TurnsTaken(was, now[pending[i] := EndOf(now[pending[i]], worlds[i])], pending, worlds, i + 1)
  {
    hide EndOf;
    assert pending[..i + 1] == pending[..i] + [pending[i]] && pending[i] !in pending[..i];
    forall j | 0 <= j < i ensures pending[j] in pending[..i] { assert pending[..i][j] == pending[j]; }
  }

  lemma TurnsKeepAgreement(
      was: map<string, Doc>, now: map<string, Doc>, pending: seq<string>, worlds: seq<World>, turns: nat)
    requires turns <= |pending| == |worlds| && TurnsTaken(was, now, pending, worlds, turns)
    requires forall id | id in pending :: RowShape(was[id].row)
    ensures forall k | k in now :: Agrees(was[k].row, was[k].dir) ==> Agrees(now[k].row, now[k].dir)
  {
    hide Agrees;
    forall k | k in now ensures Agrees(was[k].row, was[k].dir) ==> Agrees(now[k].row, now[k].dir) {
      if k in pending[..turns] {
        var i :| 0 <= i < turns && pending[i] == k;
        assert k in pending;
        CapturePromises(was[k], worlds[i]);
      }
    }
  }

  lemma SmoothTurnsDoNotErr(was: map<string, Doc>, pending: seq<string>, worlds: seq<World>)
    requires Listed(was, pending, worlds) && forall id | id in pending :: RowShape(was[id].row)
    ensures forall i | 0 <= i < |pending| && Smooth(was[pending[i]], worlds[i]) :: !Errs(was[pending[i]], worlds[i])
  {
    forall i | 0 <= i < |pending| && Smooth(was[pending[i]], worlds[i]) ensures !Errs(was[pending[i]], worlds[i]) {
      assert pending[i] in pending;
      SmoothCallsDoNotErr(was[pending[i]], worlds[i]);
    }
  }
}
