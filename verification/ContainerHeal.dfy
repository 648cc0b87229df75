/**
 * The startup self-heal: every fetched document without a container stamp is stamped from its bytes.
 * It runs alone; which reads and which writes fail is given.
 */
module ContainerHeal {
  import opened Options
  import opened Containers
  import opened DocumentRows
  import opened DocumentLibrary
  import opened ContainerRouting
  import opened CaptureStamps

  type Docs = map<string, Doc>

  /** SQL's TRIM takes spaces only. */
  predicate OnlySpaces(name: FileName) { name.Legacy? && forall c | c in name.name :: c == ' ' }

  /** `list_needing_container_sniff`: fetched, with a stored file, never sniffed. */
  predicate NeedsSniff(row: Row) {
    row.container.None? && row.path.Some? && !OnlySpaces(row.path.value) && row.status == Fetched
  }

  /** Can the file the row names be read? */
  predicate Readable(doc: Doc) {
    doc.row.path.Some? && doc.row.path.value in doc.dir && doc.dir[doc.row.path.value].Regular?
  }

  function BytesOf(doc: Doc): Bytes
    requires Readable(doc)
  {
    doc.dir[doc.row.path.value].bytes
  }

  /** `set_report_document_detected_container`. */
  function Stamped(row: Row, container: Container): Row {
    if row.container != Some(container) then row.(container := Some(container)) else row
  }

  /** One document after a pass in which the reads of `broken` fail. */
  function Healed(id: string, doc: Doc, broken: set<string>): Doc {
    if NeedsSniff(doc.row) && id !in broken && Readable(doc) then
      doc.(row := doc.row.(container := Some(DetectContainer(BytesOf(doc)))))
    else doc
  }

  function HealedAll(docs: Docs, broken: set<string>): Docs {
    map id | id in docs :: Healed(id, docs[id], broken)
  }

  function Candidates(docs: Docs): set<string> { set id | id in docs && NeedsSniff(docs[id].row) }

  predicate Unread(docs: Docs, id: string, broken: set<string>)
    requires id in docs
  {
    id in broken || !Readable(docs[id])
  }

  function Missing(docs: Docs, among: set<string>, broken: set<string>): set<string>
    requires among <= docs.Keys
  {
    set id | id in among && Unread(docs, id, broken)
  }

  /** The documents a pass stamps with one container. */
  function StampedAs(docs: Docs, among: set<string>, broken: set<string>, container: Container): set<string>
    requires among <= docs.Keys
  {
    set id | id in among && !Unread(docs, id, broken) && DetectContainer(BytesOf(docs[id])) == container
  }

  datatype SniffSummary = SniffSummary(scanned: nat, stamped: nat, fileMissing: nat, byContainer: map<string, nat>)

  function CountFor(s: SniffSummary, container: Container): nat {
    if AsStr(container) in s.byContainer then s.byContainer[AsStr(container)] else 0
  }

  /** The per-container counts over all containers. */
  function Total(s: SniffSummary): nat {
    CountFor(s, Pdf) + CountFor(s, Zip) + CountFor(s, Xml) + CountFor(s, Html) + CountFor(s, Unknown)
  }

  ghost predicate Accounts(s: SniffSummary, docs: Docs, done: set<string>, broken: set<string>)
    requires done <= docs.Keys
  {
    && s.fileMissing == |Missing(docs, done, broken)|
    && s.stamped + s.fileMissing == |done|
    && Total(s) == s.stamped
    && forall c :: CountFor(s, c) == |StampedAs(docs, done, broken, c)|
  }

  function Bumped(s: SniffSummary, container: Container): SniffSummary {
    s.(stamped := s.stamped + 1, byContainer := s.byContainer[AsStr(container) := CountFor(s, container) + 1])
  }

  lemma MissingOneMore(docs: Docs, done: set<string>, broken: set<string>, id: string)
    requires done + {id} <= docs.Keys && id !in done
    ensures Missing(docs, done + {id}, broken) == Missing(docs, done, broken) + if Unread(docs, id, broken)
      then {id} else {}
  {
  }

  lemma StampedOneMore(docs: Docs, done: set<string>, broken: set<string>, id: string, c: Container)
    requires done + {id} <= docs.Keys && id !in done
    ensures StampedAs(docs, done + {id}, broken, c) ==
      StampedAs(docs, done, broken, c) + if !Unread(docs, id, broken) &&
        DetectContainer(BytesOf(docs[id])) == c then {id} else {}
  {
  }

  lemma NamesDiffer(a: Container, b: Container)
    requires a != b
    ensures AsStr(a) != AsStr(b)
  {
    StampReadsBack("", a, "");
    StampReadsBack("", b, "");
    assert "" + AsStr(a) + "" == AsStr(a) && "" + AsStr(b) + "" == AsStr(b);
  }

  lemma CountsAfterBump(s: SniffSummary, container: Container)
    ensures forall c :: CountFor(Bumped(s, container), c) == CountFor(s, c) + if c == container then 1 else 0
    ensures Total(Bumped(s, container)) == Total(s) + 1
  {
    var t := Bumped(s, container);
    forall c ensures CountFor(t, c) == CountFor(s, c) + if c == container then 1 else 0 {
      if c != container { NamesDiffer(c, container); }
    }
  }

  lemma AccountsForMissing(s: SniffSummary, docs: Docs, done: set<string>, broken: set<string>, id: string)
    requires done + {id} <= docs.Keys && id !in done && Accounts(s, docs, done, broken) && Unread(docs, id, broken)
    ensures Accounts(s.(fileMissing := s.fileMissing + 1), docs, done + {id}, broken)
  {
    hide StampedAs, Missing;
    MissingOneMore(docs, done, broken, id);
    var t := s.(fileMissing := s.fileMissing + 1);
    assert id !in Missing(docs, done, broken) by { MissingWithin(docs, done, broken); }
    forall c ensures CountFor(t, c) == |StampedAs(docs, done + {id}, broken, c)| {
      StampedOneMore(docs, done, broken, id, c);
      assert CountFor(t, c) == CountFor(s, c);
    }
    assert Total(t) == Total(s);
  }

  lemma MissingWithin(docs: Docs, done: set<string>, broken: set<string>)
    requires done <= docs.Keys
    ensures Missing(docs, done, broken) <= done
  {
  }

  lemma StampedWithin(docs: Docs, done: set<string>, broken: set<string>, c: Container)
    requires done <= docs.Keys
    ensures StampedAs(docs, done, broken, c) <= done
  {
  }

  lemma AccountsForStamp(s: SniffSummary, docs: Docs, done: set<string>, broken: set<string>, id: string)
    requires done + {id} <= docs.Keys && id !in done && Accounts(s, docs, done, broken) && !Unread(docs, id, broken)
    ensures Accounts(Bumped(s, DetectContainer(BytesOf(docs[id]))), docs, done + {id}, broken)
  {
    hide StampedAs, Missing, DetectContainer, Total;
    MissingOneMore(docs, done, broken, id);
    var container := DetectContainer(BytesOf(docs[id]));
    CountsAfterBump(s, container);
    var t := Bumped(s, container);
    forall c ensures CountFor(t, c) == |StampedAs(docs, done + {id}, broken, c)| {
      StampedOneMore(docs, done, broken, id, c);
      StampedWithin(docs, done, broken, c);
    }
  }

  /** One document at a time: those done are healed, the others as they were. */
  ghost predicate Partly(was: Docs, now: Docs, done: set<string>, broken: set<string>) {
    && now.Keys == was.Keys
    && forall id | id in was :: now[id] == if id in done then Healed(id, was[id], broken) else was[id]
  }

  lemma PartlyOneMore(was: Docs, now: Docs, done: set<string>, broken: set<string>, id: string, doc: Doc)
    requires Partly(was, now, done, broken) && id in was && id !in done && doc == Healed(id, was[id], broken)
    ensures Partly(was, now[id := doc], done + {id}, broken)
  {
  }

  lemma PartlyUnread(was: Docs, now: Docs, done: set<string>, broken: set<string>, id: string)
    requires Partly(was, now, done, broken) && id in was && id !in done && Unread(was, id, broken)
    ensures Partly(was, now, done + {id}, broken)
  {
  }

  lemma PartlyAll(was: Docs, now: Docs, broken: set<string>)
    requires Partly(was, now, Candidates(was), broken)
    ensures now == HealedAll(was, broken)
  {
  }

  /** Some of the candidates are healed, everything else is as it was. */
  ghost predicate Interrupted(was: Docs, now: Docs, broken: set<string>) {
    exists done :: done <= Candidates(was) && Partly(was, now, done, broken)
  }

  /** A readable candidate whose stamp write is refused. */
  ghost predicate StampRefused(was: Docs, broken: set<string>, refused: set<string>, among: set<string>) {
    exists id :: id in among && id in was && id in refused && !Unread(was, id, broken)
  }

  lemma NotRefused(was: Docs, broken: set<string>, refused: set<string>, done: set<string>, id: string)
    requires !StampRefused(was, broken, refused, done) && id in was && (id !in refused || Unread(was, id, broken))
    ensures !StampRefused(was, broken, refused, done + {id})
  {
  }

  lemma Refused(was: Docs, broken: set<string>, refused: set<string>, among: set<string>, id: string)
    requires id in among && id in was && id in refused && !Unread(was, id, broken)
    ensures StampRefused(was, broken, refused, among)
  {
  }

  /** What a pass has established once the documents of `done` have had their turn. */
  ghost predicate Progress(
    was: Docs, now: Docs, done: set<string>, summary: SniffSummary, broken: set<string>, refused: set<string>)
  {
    && done <= was.Keys && Partly(was, now, done, broken) && Accounts(summary, was, done, broken)
    && !StampRefused(was, broken, refused, done)
  }

  lemma ProgressBegins(was: Docs, summary: SniffSummary, broken: set<string>, refused: set<string>)
    requires summary.stamped == 0 && summary.fileMissing == 0 && summary.byContainer == map[]
    ensures Progress(was, was, {}, summary, broken, refused)
  {
    NothingYet(summary, was, broken);
  }

  lemma ProgressEnds(was: Docs, now: Docs, summary: SniffSummary, broken: set<string>, refused: set<string>)
    requires Progress(was, now, Candidates(was), summary, broken, refused)
    ensures now == HealedAll(was, broken) && Accounts(summary, was, Candidates(was), broken)
    ensures summary.stamped + summary.fileMissing == |Candidates(was)|
    ensures !StampRefused(was, broken, refused, Candidates(was))
  {
    hide StampRefused, Healed;
    PartlyAll(was, now, broken);
  }

  lemma ProgressInterrupted(
      was: Docs, now: Docs, done: set<string>, summary: SniffSummary, broken: set<string>, refused: set<string>)
    requires Progress(was, now, done, summary, broken, refused) && done <= Candidates(was)
    ensures Interrupted(was, now, broken)
  {
    hide Partly, Accounts;
  }

  /** One turn of the loop of `sniff_missing_containers`. */
  method SniffOne(
      lib: Library, summary: SniffSummary, id: string, broken: set<string>, refused: set<string>,
      ghost was: Docs, ghost done: set<string>)
    returns (r: Result<SniffSummary>)
    requires Progress(was, lib.docs, done, summary, broken, refused) && id in Candidates(was) && id !in done
    modifies lib`docs
    ensures r.Ok? ==> Progress(was, lib.docs, done + {id}, r.value, broken, refused)
    ensures r.Ok? ==> r.value.scanned == summary.scanned
    ensures r.Err? ==> lib.docs == old(lib.docs) && id in refused && !Unread(was, id, broken)
  {
    hide DetectContainer, Healed, Accounts, Bumped, Stamped, StampRefused, OnlySpaces;
    var doc := lib.docs[id];
    if id in broken || !Readable(doc) {
      AccountsForMissing(summary, was, done, broken, id);
      PartlyUnread(was, lib.docs, done, broken, id);
      NotRefused(was, broken, refused, done, id);
      return Ok(summary.(fileMissing := summary.fileMissing + 1));
    }
    var container := DetectContainer(BytesOf(doc));
    if id in refused { return Err; }
    NotRefused(was, broken, refused, done, id);
    AccountsForStamp(summary, was, done, broken, id);
    StampIsHealing(id, doc, broken);
    PartlyOneMore(was, lib.docs, done, broken, id, doc.(row := Stamped(doc.row, container)));
    ScannedStays(summary, container);
    lib.docs := lib.docs[id := doc.(row := Stamped(doc.row, container))];
    return Ok(Bumped(summary, container));
  }

  /**
   * `sniff_missing_containers`. Unless a stamp write fails, every scanned document is either stamped
   * with the container of its bytes or counted as missing; the counts add up, in all and for each
   * container; no other document changes. A failing write leaves each document healed or as it was.
   */
  method SniffMissingContainers(lib: Library, broken: set<string>, refused: set<string>)
    returns (r: Result<SniffSummary>)
    modifies lib`docs
    ensures Interrupted(old(lib.docs), lib.docs, broken)
    ensures r.Ok? ==> lib.docs == HealedAll(old(lib.docs), broken)
    ensures r.Ok? ==> r.value.scanned == |Candidates(old(lib.docs))| == r.value.stamped + r.value.fileMissing
    ensures r.Ok? ==> Accounts(r.value, old(lib.docs), Candidates(old(lib.docs)), broken)
    ensures r.Err? <==> StampRefused(old(lib.docs), broken, refused, Candidates(old(lib.docs)))
  {
    hide Progress, Accounts, HealedAll, StampRefused, Interrupted, Unread, NeedsSniff;
    ghost var was := lib.docs;
    var candidates := Candidates(lib.docs);
    var summary := SniffSummary(|candidates|, 0, 0, map[]);
    ProgressBegins(was, summary, broken, refused);
    var left := candidates;
    ghost var done: set<string> := {};
    while left != {}
      invariant left !! done && left + done == candidates && summary.scanned == |candidates|
      invariant Progress(was, lib.docs, done, summary, broken, refused)
      decreases |left|
    {
      var id :| id in left;
      var next := SniffOne(lib, summary, id, broken, refused, was, done);
      if next.Err? {
        ProgressInterrupted(was, lib.docs, done, summary, broken, refused);
        Refused(was, broken, refused, candidates, id);
        return Err;
      }
      summary := next.value;
      left, done := left - {id}, done + {id};
    }
    assert done == candidates;
    ProgressInterrupted(was, lib.docs, done, summary, broken, refused);
    ProgressEnds(was, lib.docs, summary, broken, refused);
    return Ok(summary);
  }

  lemma StampIsHealing(id: string, doc: Doc, broken: set<string>)
    requires NeedsSniff(doc.row) && id !in broken && Readable(doc)
    ensures doc.(row := Stamped(doc.row, DetectContainer(BytesOf(doc)))) == Healed(id, doc, broken)
  {
  }

  lemma ScannedStays(s: SniffSummary, container: Container)
    ensures Bumped(s, container).scanned == s.scanned
  {
  }

  lemma NothingYet(s: SniffSummary, docs: Docs, broken: set<string>)
    requires s.stamped == 0 && s.fileMissing == 0 && s.byContainer == map[]
    ensures Accounts(s, docs, {}, broken)
  {
  }

  // ---- The fixed point --------------------------------------------------------------------

  /**
   * A second pass over unchanged files scans exactly the documents the first one could not read,
   * and changes nothing.
   */
  lemma SecondPassIsIdle(docs: Docs, broken: set<string>)
    ensures Candidates(HealedAll(docs, broken)) == Missing(docs, Candidates(docs), broken)
    ensures HealedAll(HealedAll(docs, broken), broken) == HealedAll(docs, broken)
    ensures var after := HealedAll(docs, broken); Missing(after, Candidates(after), broken) == Candidates(after)
  {
    hide DetectContainer;
  }

  /** A later pass that can read more stamps what a pass with fewer failures would have stamped at once. */
  lemma RetryCatchesUp(docs: Docs, broken: set<string>, fewer: set<string>)
    requires fewer <= broken
    ensures HealedAll(HealedAll(docs, broken), fewer) == HealedAll(docs, fewer)
  {
    hide DetectContainer;
  }

  /** The file a row names, unless its name is all spaces. */
  ghost predicate NamesFile(doc: Doc, bytes: Bytes) {
    && doc.row.path.Some? && (doc.row.path.value.Legacy? ==> exists c :: c in doc.row.path.value.name && c != ' ')
    && doc.row.path.value in doc.dir && doc.dir[doc.row.path.value] == Regular(bytes)
  }

  /**
   * What a pass changes: exactly the fetched documents without a stamp whose file could be read, and of
   * them nothing but the stamp, which is the container of the file's bytes.
   */
  lemma PassStampsExactly(docs: Docs, broken: set<string>, id: string)
    requires id in docs
    ensures var was, now := docs[id], HealedAll(docs, broken)[id];
      if exists b :: was.row.status == Fetched && was.row.container == None && id !in broken && NamesFile(was, b)
      then exists b :: NamesFile(was, b) && now == was.(row := was.row.(container := Some(DetectContainer(b))))
      else now == was
  {
    hide DetectContainer;
    var was := docs[id];
    if Readable(was) {
      assert NamesFile(was, BytesOf(was)) <==> !OnlySpaces(was.row.path.value);
    }
  }

  function StampText(row: Row): Option<string> {
    if row.container.Some? then Some(AsStr(row.container.value)) else None
  }

  /** After the pass a document that needed it routes by its bytes, whatever its name and content type. */
  lemma HealedRoutesByBytes(id: string, doc: Doc, broken: set<string>, localPath: Option<string>, url: string)
    requires NeedsSniff(doc.row) && id !in broken && Readable(doc)
    ensures ResolvedContainer(StampText(Healed(id, doc, broken).row), doc.row.contentType, localPath, url)
      == DetectContainer(BytesOf(doc))
  {
    hide DetectContainer;
    StampDecides(DetectContainer(BytesOf(doc)), doc.row.contentType, localPath, url);
  }

  /**
   * The limit of the self-heal: a document that bears a stamp, right or wrong, is never looked at
   * again. After the pass a readable fetched document routes by its bytes if and only if it had no
   * stamp or a true one.
   */
  lemma RoutesByBytesIff(id: string, doc: Doc, broken: set<string>, localPath: Option<string>, url: string)
    requires doc.row.status == Fetched && Readable(doc) && !OnlySpaces(doc.row.path.value) && id !in broken
    ensures ResolvedContainer(StampText(Healed(id, doc, broken).row), doc.row.contentType, localPath, url)
      == DetectContainer(BytesOf(doc))
      <==> doc.row.container in {None, Some(DetectContainer(BytesOf(doc)))}
  {
    hide DetectContainer;
    if doc.row.container.None? {
      HealedRoutesByBytes(id, doc, broken, localPath, url);
    } else {
      StampDecides(doc.row.container.value, doc.row.contentType, localPath, url);
    }
  }

  // ---- Joined with the captures -----------------------------------------------------------

  /** A stamp, where there is one, is that of the file the row names. */
  predicate StampNamesBytes(doc: Doc) {
    doc.row.container.Some? ==> Readable(doc) && doc.row.container.value == DetectContainer(BytesOf(doc))
  }

  /**
   * True stamps stay true and every readable fetched document gets one, with or without a hash. Which
   * of them a later capture can then make wrong is exactly the question whether they verify: a row
   * without a hash does not.
   */
  lemma HealEstablishesTruth(id: string, doc: Doc, broken: set<string>)
    requires RowShape(doc.row) && Agrees(doc.row, doc.dir) && StampNamesBytes(doc)
    ensures var after := Healed(id, doc, broken);
      && RowShape(after.row) && Agrees(after.row, after.dir) && StampNamesBytes(after)
      && (doc.row.status == Fetched && Readable(doc) && !OnlySpaces(doc.row.path.value) && id !in broken ==>
            after.row.container.Some?)
      && (doc.row.status == Fetched && doc.row.hash.Some? ==> StampSound(after.row, after.dir))
      && (doc.row.status == Fetched && doc.row.hash.None? ==>
        (StampSound(after.row, after.dir) <==> after.row.container.None?))
  {
    hide DetectContainer;
  }
}
