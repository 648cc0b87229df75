/**
 * One report document as the capture code sees it: its database row, the files that bear its
 * name, the guarded row writes of the storage layer and the two file-system primitives.
 *
 * A hash is idealised as an injective function (`Digest` just wraps the bytes). File names are
 * kept per document: `report_documents/<id>.<ext>` is `Final(ext)`, the temporary
 * `<final>.<pid>-<nanos>.part` is `Part(ext, nonce)`, any other stored path is `Legacy`.
 */
module DocumentRows {
  import opened Options
  import opened Containers
  import opened Texts

  datatype Digest = Digest(of: Bytes)
  datatype FileName = Final(ext: string) | Part(ext: string, nonce: nat) | Legacy(name: string)
  /** A regular file, or a directory (or other non-file) squatting on the name. */
  datatype Entry = Regular(bytes: Bytes) | Obstruction
  type Directory = map<FileName, Entry>

  datatype Status = Pending | Fetched | Failed | MetadataOnly
  datatype Row = Row(
    status: Status, path: Option<FileName>, contentType: Option<string>, hash: Option<Digest>,
    size: Option<int>, error: Option<string>, container: Option<Container>)

  /** A document's row together with the files that bear its name. */
  datatype Doc = Doc(row: Row, dir: Directory)

  /** A successful download; `ext` is what `determine_extension` makes of its type and URL. */
  datatype Download = Download(bytes: Bytes, contentType: Option<string>, ext: string)

  function ContentHash(bytes: Bytes): Digest { Digest(bytes) }

  function EmptyToNone(s: Option<string>): Option<string> { if s == Some("") then None else s }

  // ---- The guarded row writes -------------------------------------------------------------

  /** Declines on a fetched row that names a file; every other row becomes `Failed`. */
  function MarkFailed(row: Row, error: string): Row {
    if row.status == Fetched && row.path.Some? && row.path != Some(Legacy("")) then row
    else row.(status := Failed, error := Some(error))
  }

  /** Publishes an identity unless the row is already fetched with a DIFFERENT hash. */
  function MarkFetchedIfUnchanged(row: Row, path: FileName, contentType: Option<string>, hash: Digest, size: int): Row {
    if row.status != Fetched || row.hash.None? || row.hash == Some(hash) then
      row.(status := Fetched, path := Some(path), contentType := EmptyToNone(contentType),
           hash := Some(hash), size := Some(size), error := None)
    else row
  }

  /** Heals a row that is still `Failed` with the inspected hash. */
  function HealFailedIfUnchanged(row: Row, seen: Row): Row {
    if row.status == Failed && row.hash == seen.hash then
      row.(status := Fetched, path := seen.path, contentType := EmptyToNone(seen.contentType),
           hash := seen.hash, size := seen.size, error := None)
    else row
  }

  /** Compare-and-set on the inspected identity; clears the path and KEEPS hash, size and container. */
  function MarkPendingForRefetch(row: Row, seen: Row): (Row, bool) {
    if row.status == seen.status && row.path == seen.path && row.hash == seen.hash then
      (row.(status := Pending, path := None), true)
    else (row, false)
  }

  /**
   * What the guards are for, whoever calls when: a published identity is never marked failed or healed
   * over, never replaced by other bytes, and reset only by a caller that has seen this very identity.
   */
  lemma GuardsProtect(row: Row, error: string, path: FileName, contentType: Option<string>, hash: Digest, size: int,
    seen: Row)
    requires row.status == Fetched && row.hash.Some? && row.path.Some? && row.path != Some(Legacy(""))
    ensures MarkFailed(row, error) == row && HealFailedIfUnchanged(row, seen) == row
    ensures row.hash != Some(hash) ==> MarkFetchedIfUnchanged(row, path, contentType, hash, size) == row
    ensures MarkPendingForRefetch(row, seen) ==
      if seen.status == Fetched && seen.path == row.path && seen.hash == row.hash
      then (row.(status := Pending, path := None), true) else (row, false)
  {
  }

  // ---- Files ------------------------------------------------------------------------------

  predicate NamesNothing(name: FileName) { name.Legacy? && IsBlank(name.name) }

  /** The verified-identity check: the file the row names holds bytes of the row's size and hash. */
  predicate Matches(row: Row, dir: Directory) {
    && row.path.Some? && !NamesNothing(row.path.value)
    && row.size.Some? && row.hash.Some?
    && row.path.value in dir && dir[row.path.value].Regular?
    && |dir[row.path.value].bytes| == row.size.value
    && ContentHash(dir[row.path.value].bytes) == row.hash.value
  }

  /** The file under the row's path holds `bytes`, and they are the ones the row claims. */
  ghost predicate Holds(row: Row, dir: Directory, bytes: Bytes) {
    && row.path.Some? && row.path.value in dir && dir[row.path.value] == Regular(bytes)
    && row.hash == Some(Digest(bytes)) && row.size == Some(|bytes|)
  }

  ghost predicate HoldsItsFile(row: Row, dir: Directory) { exists bytes :: Holds(row, dir, bytes) }

  /** A row verifies exactly when its file holds the bytes it claims, under a name that is not blank. */
  lemma MatchesIff(row: Row, dir: Directory)
    ensures Matches(row, dir) <==>
      HoldsItsFile(row, dir) && !(row.path.value.Legacy? && IsBlank(row.path.value.name))
  {
    if Matches(row, dir) { assert Holds(row, dir, dir[row.path.value].bytes); }
  }

  /** What one `hard_link`-then-`rename` attempt turns out to be on the file system at hand. */
  datatype Primitive = HardLink | RefusingRename | ReplacingRename | Broken

  datatype LinkOutcome = Linked(dir: Directory) | AlreadyExists | OtherError

  function LinkOrRename(dir: Directory, part: FileName, full: FileName, via: Primitive): LinkOutcome {
    if part !in dir then OtherError
    else match via
      case HardLink => if full in dir then AlreadyExists else Linked(dir[full := dir[part]])
      case RefusingRename => if full in dir then AlreadyExists else Linked((dir - {part})[full := dir[part]])
      case ReplacingRename =>
        if full in dir && dir[full].Obstruction? then OtherError
        else Linked((dir - {part})[full := dir[part]])
      case Broken => OtherError
  }

  /** `let _ = remove_file(name)`: the removal may silently fail, and never removes a directory. */
  function TryRemove(dir: Directory, name: FileName, done: bool): Directory {
    if done && name in dir && dir[name].Regular? then dir - {name} else dir
  }

  // ---- Shape facts every writer keeps -----------------------------------------------------

  /** A row that awaits a file names none, and no row ever names a temporary file. */
  ghost predicate RowShape(row: Row) {
    && (row.status in {Pending, MetadataOnly} ==> row.path.None?)
    && (row.path.Some? ==> !row.path.value.Part?)
  }

  /** The agreement of database and disk: a fetched row with a hash names a file of that hash and size. */
  ghost predicate Agrees(row: Row, dir: Directory) {
    row.status == Fetched && row.hash.Some? ==> Matches(row, dir)
  }
}
