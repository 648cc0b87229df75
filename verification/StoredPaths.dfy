/**
 * Why the files of a document can be kept apart per document: the paths the capture code makes up
 * never collide across documents, nor a temporary file with a published one.
 */
module StoredPaths {
  import opened DocumentRows

  predicate IsAlphanumeric(c: char) { '0' <= c <= '9' || 'a' <= c <= 'z' || 'A' <= c <= 'Z' }

  function SlugPart(value: string): string {
    if value == [] then []
    else
      var c := value[0];
      (if 'A' <= c <= 'Z' then [(c as int + 32) as char] else if IsAlphanumeric(c) then [c]
       else if c == '_' || c == '-' then ['_'] else []) + SlugPart(value[1..])
  }

  function DocumentId(company: string, url: string): string { "doc_" + SlugPart(company) + "_" + SlugPart(url) }

  predicate IsExtension(ext: string) { ext != [] && forall c | c in ext :: IsAlphanumeric(c) }

  function Decimal(n: nat): string {
    (if n < 10 then "" else Decimal(n / 10)) + [(n % 10 + 48) as char]
  }

  /** The path of a final or temporary file of the document `id`, written by the process `pid`. */
  function PathOf(id: string, name: FileName, pid: nat): string
    requires !name.Legacy?
  {
    match name
    case Final(ext) => "report_documents/" + (id + "." + ext)
    case Part(ext, nanos) =>
      "report_documents/" + (id + "." + (ext + "." + (Decimal(pid) + "-" + Decimal(nanos) + ".part")))
  }

  lemma {:induction false} SlugHasNoDot(value: string)
    ensures '.' !in SlugPart(value)
  {
    if value != [] { SlugHasNoDot(value[1..]); }
  }

  /** Lower-case letters, digits and underscores. */
  ghost predicate IsWord(s: string) { forall c | c in s :: '0' <= c <= '9' || 'a' <= c <= 'z' || c == '_' }

  /** A slug is made of such characters, and a text made of them is its own slug. */
  lemma {:induction false} SlugsAreWords(value: string)
    ensures IsWord(SlugPart(value)) && (IsWord(value) ==> SlugPart(value) == value)
  {
    if value != [] {
      SlugsAreWords(value[1..]);
      assert value == [value[0]] + value[1..] && value[0] in value;
      assert forall c | c in value[1..] :: c in value;
    }
  }

  function BeforeDot(s: string): string { if s == [] || s[0] == '.' then [] else [s[0]] + BeforeDot(s[1..]) }

  lemma {:induction false} BeforeDotOf(a: string, b: string)
    requires '.' !in a
    ensures BeforeDot(a + "." + b) == a
  {
    if a == [] {
      assert (a + "." + b)[0] == '.';
    } else {
      assert (a + "." + b)[1..] == a[1..] + "." + b;
      BeforeDotOf(a[1..], b);
      assert a == [a[0]] + a[1..];
    }
  }

  /** A string is split at its first dot in one way only. */
  lemma FirstDot(a: string, b: string, a': string, b': string)
    requires '.' !in a && '.' !in a' && a + "." + b == a' + "." + b'
    ensures a == a' && b == b'
  {
    BeforeDotOf(a, b);
    BeforeDotOf(a', b');
    assert (a + "." + b)[|a| + 1..] == b && (a' + "." + b')[|a'| + 1..] == b';
  }

  /** Whatever the companies and URLs: equal paths belong to one document, one extension and one kind of file. */
  lemma PathsAreDisjoint(company: string, url: string, name: FileName, pid: nat,
                         company': string, url': string, name': FileName, pid': nat)
    requires !name.Legacy? && !name'.Legacy? && IsExtension(name.ext) && IsExtension(name'.ext)
    requires PathOf(DocumentId(company, url), name, pid) == PathOf(DocumentId(company', url'), name', pid')
    ensures DocumentId(company, url) == DocumentId(company', url') && name.ext == name'.ext &&
      (name.Final? <==> name'.Final?)
  {
    hide Decimal;
    var id, id' := DocumentId(company, url), DocumentId(company', url');
    SlugHasNoDot(company);
    SlugHasNoDot(url);
    SlugHasNoDot(company');
    SlugHasNoDot(url');
    var rest, rest' := Rest(name, pid), Rest(name', pid');
    var dir := "report_documents/";
    assert PathOf(id, name, pid)[|dir|..] == id + "." + rest;
    assert PathOf(id', name', pid')[|dir|..] == id' + "." + rest';
    FirstDot(id, rest, id', rest');
    DotMarksPart(name, pid);
    DotMarksPart(name', pid');
    if name.Part? { FirstDot(name.ext, rest[|name.ext| + 1..], name'.ext, rest'[|name'.ext| + 1..]); }
  }

  lemma DotMarksPart(name: FileName, pid: nat)
    requires !name.Legacy? && IsExtension(name.ext)
    ensures '.' in Rest(name, pid) <==> name.Part?
  {
    hide Decimal;
    if name.Part? { assert Rest(name, pid)[|name.ext|] == '.'; }
  }

  function Rest(name: FileName, pid: nat): string
    requires !name.Legacy?
  {
    match name
    case Final(ext) => ext
    case Part(ext, nanos) => ext + "." + (Decimal(pid) + "-" + Decimal(nanos) + ".part")
  }
}
