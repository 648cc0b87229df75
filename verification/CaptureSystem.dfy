/**
 * Many threads, many documents, any interleaving of single steps. A run may also contain panics of
 * one caller (the lock is released and its poison ignored), crashes of the whole process, new
 * documents being registered, and edits of the stored files by somebody outside the program.
 *
 * `locking` says whether the per-document lock is taken; the program takes it, and the runs
 * with `locking == false` show what it is for.
 */
module CaptureSystem {
  import opened Options
  import opened Containers
  import opened DocumentRows
  import opened CaptureSteps

  type DocId = string
  type ThreadId = nat

  datatype Job = Waiting(doc: DocId) | Running(doc: DocId, pc: Pc)

  /**
   * `touched` are the documents whose files were ever edited from outside, `tampered` those edited
   * since their lock was last taken.
   */
  datatype System = System(
    docs: map<DocId, Doc>, jobs: map<ThreadId, Job>, holder: map<DocId, ThreadId>,
    touched: set<DocId>, tampered: set<DocId>)

  datatype Label =
    | Register(doc: DocId, row: Row, dir: Directory)
    | Start(thread: ThreadId, doc: DocId)
    | Acquire(thread: ThreadId)
    | Advance(thread: ThreadId, choice: Choice)
    | Release(thread: ThreadId)
    | Panic(thread: ThreadId)
    | Crash
    | Edit(doc: DocId, dir: Directory)

  predicate Enabled(locking: bool, s: System, l: Label) {
    match l
    case Register(d, row, _) => d !in s.docs && row.status in {Pending, MetadataOnly} && row.path.None?
    case Start(t, d) => t !in s.jobs && d in s.docs
    case Acquire(t) => t in s.jobs && s.jobs[t].Waiting? && s.jobs[t].doc in s.docs &&
      (locking ==> s.jobs[t].doc !in s.holder)
    case Advance(t, c) => t in s.jobs && s.jobs[t].Running? && s.jobs[t].doc in s.docs && Offers(s.jobs[t].pc, c)
    case Release(t) => t in s.jobs && s.jobs[t].Running? && s.jobs[t].pc.Done?
    case Panic(t) => t in s.jobs && s.jobs[t].Running?
    case Crash => true
    case Edit(d, _) => d in s.docs
  }

  function Here(s: System, t: ThreadId): Local
    requires t in s.jobs && s.jobs[t].Running? && s.jobs[t].doc in s.docs
  {
    Local(s.jobs[t].pc, s.docs[s.jobs[t].doc].row, s.docs[s.jobs[t].doc].dir)
  }

  function Next(s: System, l: Label): System
    requires Enabled(false, s, l)
  {
    match l
    case Register(d, row, dir) => s.(docs := s.docs[d := Doc(row, dir)])
    case Start(t, d) => s.(jobs := s.jobs[t := Waiting(d)])
    case Acquire(t) =>
      var d := s.jobs[t].doc;
      s.(jobs := s.jobs[t := Running(d, Inspect)], holder := s.holder[d := t], tampered := s.tampered - {d})
    case Advance(t, c) =>
      var d := s.jobs[t].doc;
      var after := LocalStep(Here(s, t), c);
      s.(docs := s.docs[d := Doc(after.row, after.dir)], jobs := s.jobs[t := Running(d, after.pc)])
    case Release(t) => s.(jobs := s.jobs - {t}, holder := s.holder - {s.jobs[t].doc})
    case Panic(t) => s.(jobs := s.jobs - {t}, holder := s.holder - {s.jobs[t].doc})
    case Crash => s.(jobs := map[], holder := map[])
    case Edit(d, dir) =>
      s.(docs := s.docs[d := Doc(s.docs[d].row, dir)], touched := s.touched + {d}, tampered := s.tampered + {d})
  }

  predicate Runs(locking: bool, s: System, run: seq<Label>)
    decreases run
  {
    run == [] || (Enabled(locking, s, run[0]) && Runs(locking, Next(s, run[0]), run[1..]))
  }

  function After(s: System, run: seq<Label>): System
    requires Runs(false, s, run)
    decreases run
  {
    if run == [] then s else After(Next(s, run[0]), run[1..])
  }

  // ---- The invariant ----------------------------------------------------------------------

  /** A process that has just started on any database whose rows agree with its files. */
  ghost predicate Initial(s: System) {
    && s.jobs == map[] && s.holder == map[] && s.touched == {} && s.tampered == {}
    && forall d | d in s.docs :: RowShape(s.docs[d].row) && Agrees(s.docs[d].row, s.docs[d].dir)
  }

  predicate Holds(s: System, t: ThreadId, d: DocId) { t in s.jobs && s.jobs[t].Running? && s.jobs[t].doc == d }

  ghost predicate LockInv(s: System) {
    && s.tampered <= s.touched
    && (forall t | t in s.jobs :: s.jobs[t].doc in s.docs)
    && (forall t | t in s.jobs && s.jobs[t].Running? :: s.jobs[t].doc in s.holder && s.holder[s.jobs[t].doc] == t)
    && (forall d | d in s.holder :: Holds(s, s.holder[d], d))
  }

  ghost predicate DocInv(s: System, d: DocId)
    requires d in s.docs
  {
    && RowShape(s.docs[d].row)
    && (d !in s.touched ==> Agrees(s.docs[d].row, s.docs[d].dir))
  }

  ghost predicate JobInv(s: System, t: ThreadId)
    requires t in s.jobs && s.jobs[t].doc in s.docs
  {
    s.jobs[t].Running? ==>
      var d := s.jobs[t].doc;
      && RowFacts(s.jobs[t].pc, s.docs[d].row)
      && (d !in s.tampered ==> FileFacts(s.jobs[t].pc, s.docs[d].row, s.docs[d].dir))
  }

  ghost predicate Inv(s: System) {
    && LockInv(s)
    && (forall d | d in s.docs :: DocInv(s, d))
    && (forall t | t in s.jobs :: JobInv(s, t))
  }

  lemma NextKeepsLockInv(s: System, l: Label)
    requires LockInv(s) && Enabled(true, s, l)
    ensures LockInv(Next(s, l))
  {
  }

  lemma AdvanceKeepsInv(s: System, t: ThreadId, c: Choice)
    requires Inv(s) && Enabled(true, s, Advance(t, c))
    ensures Inv(Next(s, Advance(t, c)))
  {
    var d, here := s.jobs[t].doc, Here(s, t);
    var s' := Next(s, Advance(t, c));
    assert DocInv(s, d) && JobInv(s, t);
    StepKeepsRowFacts(here, c);
    if d !in s.tampered {
      StepKeepsFileFacts(here, c);
      if d !in s.touched { StepKeepsAgreement(here, c); }
    }
    forall d' | d' in s'.docs ensures DocInv(s', d') { assert d' != d ==> DocInv(s, d'); }
    forall t' | t' in s'.jobs ensures JobInv(s', t') {
      if t' != t { assert JobInv(s, t'); }
    }
  }

  /** Every step of every interleaving keeps the invariant. */
  lemma NextKeepsInv(s: System, l: Label)
    requires Inv(s) && Enabled(true, s, l)
    ensures Inv(Next(s, l))
  {
    var s' := Next(s, l);
    NextKeepsLockInv(s, l);
    if l.Advance? {
      AdvanceKeepsInv(s, l.thread, l.choice);
    } else {
      forall d | d in s'.docs ensures DocInv(s', d) { assert d in s.docs ==> DocInv(s, d); }
      forall t | t in s'.jobs ensures JobInv(s', t) { assert t in s.jobs ==> JobInv(s, t); }
    }
  }

  lemma RunsWithoutLock(s: System, run: seq<Label>)
    requires Runs(true, s, run)
    ensures Runs(false, s, run)
    decreases run
  {
    if run != [] { RunsWithoutLock(Next(s, run[0]), run[1..]); }
  }

  function End(s: System, run: seq<Label>): System
    requires Runs(true, s, run)
  {
    RunsWithoutLock(s, run);
    After(s, run)
  }

  lemma {:induction false} RunKeepsInv(s: System, run: seq<Label>)
    requires Inv(s) && Runs(true, s, run)
    ensures Inv(End(s, run))
    decreases run
  {
    if run != [] {
      NextKeepsInv(s, run[0]);
      RunKeepsInv(Next(s, run[0]), run[1..]);
    }
  }

  lemma InitialInv(s: System)
    requires Initial(s)
    ensures Inv(s)
  {
  }

  // ---- What every run promises ------------------------------------------------------------

  /**
   * SAFETY. In every state of every run, with any crashes and panics, a fetched row with a hash
   * names a regular file of exactly that hash and size, for every document nobody outside edited.
   */
  lemma RowsAgreeWithFiles(s: System, run: seq<Label>, d: DocId)
    requires Initial(s) && Runs(true, s, run)
    requires d in End(s, run).docs && d !in End(s, run).touched
    ensures var doc := End(s, run).docs[d];
      doc.row.status == Fetched && doc.row.hash.Some? ==> HoldsItsFile(doc.row, doc.dir)
    ensures Agrees(End(s, run).docs[d].row, End(s, run).docs[d].dir)
  {
    InitialInv(s);
    RunKeepsInv(s, run);
    assert DocInv(End(s, run), d);
    MatchesIff(End(s, run).docs[d].row, End(s, run).docs[d].dir);
  }

  /**
   * SUCCESS IS VERIFIED. A call that reports success, started from ANY earlier state (crash residue
   * and outside edits included), leaves a fetched row whose file is there with the row's hash and
   * size, unless its document's files were edited from outside during the call itself.
   */
  lemma SuccessIsVerified(s: System, run: seq<Label>, t: ThreadId)
    requires Initial(s) && Runs(true, s, run)
    requires t in End(s, run).jobs && End(s, run).jobs[t].Running? && End(s, run).jobs[t].pc.Done?
    requires ReportsSuccess(End(s, run).jobs[t].pc.outcome)
    requires End(s, run).jobs[t].doc !in End(s, run).tampered
    ensures var e, d := End(s, run), End(s, run).jobs[t].doc;
      && d in e.docs && e.docs[d].row.status == Fetched
      && Matches(e.docs[d].row, e.docs[d].dir) && HoldsItsFile(e.docs[d].row, e.docs[d].dir)
  {
    InitialInv(s);
    RunKeepsInv(s, run);
    assert JobInv(End(s, run), t);
    var d := End(s, run).jobs[t].doc;
    MatchesIff(End(s, run).docs[d].row, End(s, run).docs[d].dir);
  }

  /**
   * WITH outside edits during the call, a reported success still means a fetched row, except at the
   * one exit where `publish_no_clobber` answered false: there the row is left `Failed`, and it is one
   * that names a file which could verify.
   */
  lemma SuccessUnderEdits(s: System, run: seq<Label>, t: ThreadId)
    requires Initial(s) && Runs(true, s, run)
    requires t in End(s, run).jobs && End(s, run).jobs[t].Running? && End(s, run).jobs[t].pc.Done?
    requires ReportsSuccess(End(s, run).jobs[t].pc.outcome)
    ensures var e, d := End(s, run), End(s, run).jobs[t].doc;
      && d in e.docs && !e.jobs[t].pc.outcome.Declined?
      && (e.docs[d].row.status == Fetched <==> !e.jobs[t].pc.outcome.LostRace?)
      && (e.jobs[t].pc.outcome.LostRace? ==> Repairable(e.docs[d].row) && d in e.tampered)
  {
    InitialInv(s);
    RunKeepsInv(s, run);
    assert JobInv(End(s, run), t);
  }

  // ---- Never downgrade, never refetch -----------------------------------------------------

  /** Fetched and verified, its files not edited from outside since its lock was last taken. */
  ghost predicate Published(s: System, d: DocId) {
    && d in s.docs && d !in s.tampered
    && s.docs[d].row.status == Fetched && Matches(s.docs[d].row, s.docs[d].dir)
  }

  /** Nobody edits the files of `d` in this run. */
  predicate Unedited(run: seq<Label>, d: DocId) { forall l | l in run :: !(l.Edit? && l.doc == d) }

  /** A fetched row with a hash whose document nobody ever edited is published. */
  lemma UntouchedIsPublished(s: System, d: DocId)
    requires Inv(s) && d in s.docs && d !in s.touched && s.docs[d].row.status == Fetched && s.docs[d].row.hash.Some?
    ensures Published(s, d)
  {
    assert DocInv(s, d);
  }

  /** Does this step ask the network for document `d`? */
  predicate Fetches(s: System, l: Label, d: DocId) {
    l.Advance? && l.thread in s.jobs && s.jobs[l.thread] == Running(d, Fetch)
  }

  predicate FetchesSomewhere(s: System, run: seq<Label>, d: DocId)
    requires Runs(false, s, run)
    decreases run
  {
    run != [] && (Fetches(s, run[0], d) || FetchesSomewhere(Next(s, run[0]), run[1..], d))
  }

  lemma NextKeepsPublished(s: System, l: Label, d: DocId)
    requires Inv(s) && Enabled(true, s, l) && Published(s, d) && !(l.Edit? && l.doc == d)
    ensures Published(Next(s, l), d) && !Fetches(s, l, d)
    ensures Identity(Next(s, l).docs[d].row) == Identity(s.docs[d].row)
  {
    assert DocInv(s, d);
    if l.Advance? {
      assert JobInv(s, l.thread);
      if s.jobs[l.thread].doc == d {
        StepKeepsPublishedIdentity(Here(s, l.thread), l.choice);
        StepKeepsAgreement(Here(s, l.thread), l.choice);
      }
    }
  }

  lemma RunKeepsTouched(s: System, run: seq<Label>, d: DocId)
    requires Runs(true, s, run) && d in s.touched
    ensures d in End(s, run).touched
    decreases run
  {
    if run != [] { RunKeepsTouched(Next(s, run[0]), run[1..], d); }
  }

  lemma {:induction false} RunKeepsPublished(s: System, run: seq<Label>, d: DocId)
    requires Inv(s) && Runs(true, s, run) && Published(s, d) && Unedited(run, d)
    ensures Published(End(s, run), d)
    ensures Identity(End(s, run).docs[d].row) == Identity(s.docs[d].row)
    ensures Runs(false, s, run) && !FetchesSomewhere(s, run, d)
    decreases run
  {
    RunsWithoutLock(s, run);
    if run != [] {
      assert !(run[0].Edit? && run[0].doc == d);
      NextKeepsPublished(s, run[0], d);
      NextKeepsInv(s, run[0]);
      RunKeepsPublished(Next(s, run[0]), run[1..], d);
    }
  }

  /**
   * NEVER DOWNGRADED, NEVER REFETCHED. Once some step of a run has published a document, though it may
   * have been edited from outside and repaired before, every further step, crash and panic keeps its
   * identity, and no later or waiting caller ever asks the network for it again, until somebody edits
   * its files.
   */
  lemma NeverDowngradedNeverRefetched(s: System, before: seq<Label>, later: seq<Label>, d: DocId)
    requires Initial(s) && Runs(true, s, before) && Runs(true, End(s, before), later)
    requires Published(End(s, before), d) && Unedited(later, d)
    ensures Published(End(End(s, before), later), d)
    ensures Identity(End(End(s, before), later).docs[d].row) == Identity(End(s, before).docs[d].row)
    ensures Runs(false, End(s, before), later) && !FetchesSomewhere(End(s, before), later, d)
  {
    InitialInv(s);
    RunKeepsInv(s, before);
    RunKeepsPublished(End(s, before), later, d);
  }

  /** A caller of `d` that took the lock after the identity `id` was published. */
  ghost predicate SeesPublished(s: System, t: ThreadId, d: DocId, id: Row) {
    t in s.jobs && s.jobs[t].Running? && s.jobs[t].doc == d ==>
      match s.jobs[t].pc
      case Inspect => true
      case Check(seen, _) => Identity(seen) == id
      case Done(AlreadyFetched(seen)) => Identity(seen) == id
      case Done(Errored) => true
      case _ => false
  }

  lemma NextSeesPublished(s: System, l: Label, t: ThreadId, d: DocId)
    requires Inv(s) && Enabled(true, s, l) && Published(s, d) && !(l.Edit? && l.doc == d)
    requires SeesPublished(s, t, d, Identity(s.docs[d].row))
    ensures SeesPublished(Next(s, l), t, d, Identity(s.docs[d].row))
  {
    assert DocInv(s, d);
    if l.Advance? && l.thread == t { assert JobInv(s, t); }
  }

  lemma {:induction false} RunSeesPublished(s: System, run: seq<Label>, t: ThreadId, d: DocId)
    requires Inv(s) && Runs(true, s, run) && Published(s, d) && Unedited(run, d)
    requires SeesPublished(s, t, d, Identity(s.docs[d].row))
    ensures SeesPublished(End(s, run), t, d, Identity(s.docs[d].row))
    decreases run
  {
    if run != [] {
      assert !(run[0].Edit? && run[0].doc == d);
      NextSeesPublished(s, run[0], t, d);
      NextKeepsPublished(s, run[0], d);
      NextKeepsInv(s, run[0]);
      RunSeesPublished(Next(s, run[0]), run[1..], t, d);
    }
  }

  /**
   * AND EVERYBODY GETS IT. A caller that waits when a document is published, or comes later, and ends
   * with a success is handed the published row itself, unfetched: hash, size, path and all but the
   * stamp; it can end otherwise only by a storage error, never by a failed fetch.
   */
  lemma LaterCallersReturnThePublishedRow(s: System, before: seq<Label>, later: seq<Label>, t: ThreadId, d: DocId)
    requires Initial(s) && Runs(true, s, before) && Runs(true, End(s, before), later)
    requires Published(End(s, before), d) && Unedited(later, d)
    requires t in End(s, before).jobs ==> End(s, before).jobs[t].Waiting? || End(s, before).jobs[t].doc != d
    requires var e := End(End(s, before), later);
      t in e.jobs && e.jobs[t].Running? && e.jobs[t].doc == d && e.jobs[t].pc.Done?
    ensures var o := End(End(s, before), later).jobs[t].pc.outcome;
      o.Errored? || (o.AlreadyFetched? && Identity(o.row) == Identity(End(s, before).docs[d].row))
  {
    InitialInv(s);
    RunKeepsInv(s, before);
    RunSeesPublished(End(s, before), later, t, d);
  }

  // ---- Mutual exclusion and isolation -----------------------------------------------------

  /** A step that is neither caller `t`'s own nor an outside intervention in document `d`. */
  predicate Foreign(l: Label, t: ThreadId, d: DocId) {
    && !l.Crash? && !(l.Edit? && l.doc == d)
    && ((l.Advance? || l.Release? || l.Panic?) ==> l.thread != t)
  }

  /**
   * ISOLATION. While a caller is inside a document's capture, no run of other callers' steps,
   * however long, moves that caller or changes anything of that document.
   */
  lemma {:induction false} CaptureIsIsolated(s: System, run: seq<Label>, t: ThreadId)
    requires Inv(s) && Runs(true, s, run) && t in s.jobs && s.jobs[t].Running?
    requires forall l | l in run :: Foreign(l, t, s.jobs[t].doc)
    ensures t in End(s, run).jobs && End(s, run).jobs[t] == s.jobs[t]
    ensures s.jobs[t].doc in End(s, run).docs && End(s, run).docs[s.jobs[t].doc] == s.docs[s.jobs[t].doc]
    decreases run
  {
    if run != [] {
      assert Foreign(run[0], t, s.jobs[t].doc);
      NextKeepsInv(s, run[0]);
      CaptureIsIsolated(Next(s, run[0]), run[1..], t);
    }
  }

  /** A waiting caller is held up only by a caller that can itself move on or leave. */
  lemma NoDeadlock(s: System, t: ThreadId)
    requires Inv(s) && t in s.jobs && s.jobs[t].Waiting? && !Enabled(true, s, Acquire(t))
    ensures exists u :: u in s.jobs && u != t && s.jobs[u].Running? && s.jobs[u].doc == s.jobs[t].doc
              && (Enabled(true, s, Release(u)) || exists c :: Enabled(true, s, Advance(u, c)))
  {
    var u := s.holder[s.jobs[t].doc];
    var pc := s.jobs[u].pc;
    assert pc.Done? || Enabled(true, s, Advance(u, SomeChoice(pc)));
  }

  /** Every program point but the last has a step. */
  function SomeChoice(pc: Pc): (c: Choice)
    ensures !pc.Done? ==> Offers(pc, c)
  {
    match pc
    case Fetch => Network(None)
    case WriteTemp(_) => Temp(0)
    case Publish(_, _) => Via(HardLink)
    case Republish(_, _) => Via(HardLink)
    case Yield(_, _) => Removal(true)
    case Clear(_, _) => Removal(true)
    case Tidy(_, _) => Removal(true)
    case Stamp(_, _) => StampWrite(true)
    case _ => Proceed
  }

  // ---- The container stamp ----------------------------------------------------------------

  /** A stamp, where there is one, names the container of the very bytes the row publishes. */
  ghost predicate StampTruthful(row: Row, dir: Directory) {
    row.container.Some? ==>
      && row.status == Fetched && row.hash.Some? && Matches(row, dir)
      && row.container.value == DetectContainer(dir[row.path.value].bytes)
  }

  lemma NextKeepsStamp(s: System, l: Label, d: DocId)
    requires Inv(s) && Enabled(true, s, l) && d in s.docs && d !in Next(s, l).touched
    requires StampTruthful(s.docs[d].row, s.docs[d].dir)
    ensures StampTruthful(Next(s, l).docs[d].row, Next(s, l).docs[d].dir)
  {
    assert DocInv(s, d);
    if l.Advance? {
      assert JobInv(s, l.thread);
      if s.jobs[l.thread].doc == d {
        StepKeepsFileFacts(Here(s, l.thread), l.choice);
        StepKeepsRowFacts(Here(s, l.thread), l.choice);
        if s.docs[d].row.container.Some? { StepKeepsPublishedIdentity(Here(s, l.thread), l.choice); }
      }
    }
  }

  /**
   * A document that starts unstamped, or stamped with the container of its published bytes, is never
   * stamped wrongly: not by a crash before the stamp, nor by a stamp write that fails.
   */
  lemma {:induction false} StampsStayTruthful(s: System, run: seq<Label>, d: DocId)
    requires Inv(s) && Runs(true, s, run) && d in s.docs
    requires StampTruthful(s.docs[d].row, s.docs[d].dir)
    requires d !in End(s, run).touched
    ensures d in End(s, run).docs && StampTruthful(End(s, run).docs[d].row, End(s, run).docs[d].dir)
    decreases run
  {
    if run != [] {
      var s' := Next(s, run[0]);
      if d in s'.touched { RunKeepsTouched(s', run[1..], d); }
      NextKeepsStamp(s, run[0], d);
      NextKeepsInv(s, run[0]);
      StampsStayTruthful(s', run[1..], d);
    }
  }
}
