/** How a stored document is routed: by its container stamp when it has one, else by its name. */
module ContainerRouting {
  import opened Options
  import opened Containers
  import opened Texts

  datatype SourceFormat = PdfFormat | XhtmlFormat

  function AsStr(container: Container): string {
    match container
    case Pdf => "pdf"
    case Zip => "zip"
    case Xml => "xml"
    case Html => "html"
    case Unknown => "unknown"
  }

  /** A stamp written by another build that this one does not know counts as no stamp. */
  function ContainerFromStored(value: string): Option<Container> {
    var trimmed := Trim(value);
    if trimmed == "pdf" then Some(Pdf)
    else if trimmed == "zip" then Some(Zip)
    else if trimmed == "xml" then Some(Xml)
    else if trimmed == "html" then Some(Html)
    else if trimmed == "unknown" then Some(Unknown)
    else None
  }

  function Lowercase(s: string): string {
    seq(|s|, i requires 0 <= i < |s| => if 'A' <= s[i] <= 'Z' then (s[i] as int + 32) as char else s[i])
  }

  predicate EndsWith(s: string, suffix: string) { |suffix| <= |s| && s[|s| - |suffix|..] == suffix }

  predicate Mentions(s: string, word: string) { exists i | 0 <= i <= |s| - |word| :: s[i..][..|word|] == word }

  /** `SourceFormat::resolve`. */
  function FormatFromName(contentType: Option<string>, name: string): SourceFormat {
    var lower := Lowercase(name);
    var ct := if contentType.Some? then Lowercase(contentType.value) else "";
    if EndsWith(lower, ".xhtml") || EndsWith(lower, ".html") then XhtmlFormat
    else if Mentions(ct, "xhtml") || Mentions(ct, "html") then XhtmlFormat
    else PdfFormat
  }

  function ContainerFromName(contentType: Option<string>, name: string): Container {
    if FormatFromName(contentType, name) == XhtmlFormat then Html
    else if EndsWith(Lowercase(name), ".zip") || EndsWith(Lowercase(name), ".xbri") then Zip
    else Pdf
  }

  /** `resolved_container_named`. */
  function ResolvedContainerNamed(stamp: Option<string>, contentType: Option<string>, name: string): Container {
    var stamped := if stamp.Some? then ContainerFromStored(stamp.value) else None;
    if stamped.Some? then stamped.value else ContainerFromName(contentType, name)
  }

  /** `resolved_container`: the name is the local path unless that is blank. */
  function ResolvedContainer(
    stamp: Option<string>, contentType: Option<string>, localPath: Option<string>, url: string): Container
  {
    var name := if localPath.Some? && Trim(localPath.value) != "" then localPath.value else url;
    ResolvedContainerNamed(stamp, contentType, name)
  }

  /** `resolved_source_format`; None forces the caller to treat a package or unknown bytes as unreadable. */
  function ResolvedSourceFormat(
    stamp: Option<string>, contentType: Option<string>, localPath: Option<string>, url: string): Option<SourceFormat>
  {
    match ResolvedContainer(stamp, contentType, localPath, url)
    case Pdf => Some(PdfFormat)
    case Xml | Html => Some(XhtmlFormat)
    case Zip | Unknown => None
  }

  /** A written stamp is read back, also with blanks around it. */
  lemma StampReadsBack(before: string, container: Container, after: string)
    requires IsBlank(before) && IsBlank(after)
    ensures ContainerFromStored(before + AsStr(container) + after) == Some(container)
  {
    var word := AsStr(container);
    assert before + word + after == before + (word + after);
    TrimStartRemovesBlanks(before, word + after);
    TrimEndRemovesBlanks(word, after);
  }

  /**
   * The stamp alone decides: whatever the server sent as content type and whatever path or URL the
   * document carries, it is routed as the stamped container.
   */
  lemma StampDecides(container: Container, contentType: Option<string>, localPath: Option<string>, url: string)
    ensures ResolvedContainer(Some(AsStr(container)), contentType, localPath, url) == container
    ensures ResolvedSourceFormat(Some(AsStr(container)), contentType, localPath, url) ==
      (if container == Pdf then Some(PdfFormat) else if container in {Xml, Html} then Some(XhtmlFormat) else None)
  {
    StampReadsBack("", container, "");
    assert "" + AsStr(container) + "" == AsStr(container);
  }

  /**
   * Without a stamp, or with one nobody knows, the name decides, and then only a package name is
   * refused a text format: bytes nobody recognises are presumed to be a PDF until they are sniffed.
   */
  lemma NameDecidesOtherwise(stamp: Option<string>, contentType: Option<string>, localPath: Option<string>, url: string)
    requires stamp.Some? ==> ContainerFromStored(stamp.value).None?
    ensures ResolvedContainer(stamp, contentType, localPath, url)
      == ResolvedContainer(None, contentType, localPath, url)
    ensures ResolvedContainer(stamp, contentType, localPath, url) !in {Xml, Unknown}
    ensures var name := if localPath.Some? && Trim(localPath.value) != "" then localPath.value else url;
      ResolvedSourceFormat(stamp, contentType, localPath, url) == None <==>
        (FormatFromName(contentType, name) == PdfFormat &&
          (EndsWith(Lowercase(name), ".zip") || EndsWith(Lowercase(name), ".xbri")))
  {
  }

  // ---- Names and content types, whatever the case of their letters ------------------------

  ghost predicate SameIgnoringCase(s: string, word: string) {
    |s| == |word| && forall i | 0 <= i < |s| ::
      s[i] == word[i] || ('a' <= word[i] <= 'z' && s[i] as int == word[i] as int - 32)
  }

  ghost predicate Ends(s: string, word: string) { |word| <= |s| && SameIgnoringCase(s[|s| - |word|..], word) }

  ghost predicate HoldsAt(s: string, word: string, i: int) {
    0 <= i <= |s| - |word| && SameIgnoringCase(s[i..i + |word|], word)
  }

  ghost predicate Holds(s: string, word: string) { exists i :: HoldsAt(s, word, i) }

  ghost predicate IsLower(word: string) { forall c | c in word :: !('A' <= c <= 'Z') }

  lemma LowercaseIs(s: string, word: string)
    requires IsLower(word)
    ensures Lowercase(s) == word <==> SameIgnoringCase(s, word)
  {
    if |s| == |word| {
      forall i | 0 <= i < |s| ensures Lowercase(s)[i] == word[i] <==>
        s[i] == word[i] || ('a' <= word[i] <= 'z' && s[i] as int == word[i] as int - 32) {
        assert word[i] in word;
      }
    }
  }

  lemma EndsIs(s: string, word: string)
    requires IsLower(word)
    ensures EndsWith(Lowercase(s), word) <==> Ends(s, word)
  {
    if |word| <= |s| {
      var k := |s| - |word|;
      assert Lowercase(s)[k..] == Lowercase(s[k..]);
      LowercaseIs(s[k..], word);
    }
  }

  lemma HoldsIs(s: string, word: string)
    requires IsLower(word)
    ensures Mentions(Lowercase(s), word) <==> Holds(s, word)
  {
    hide SameIgnoringCase;
    forall i | 0 <= i <= |s| - |word| ensures Lowercase(s)[i..][..|word|] == word <==> HoldsAt(s, word, i) {
      assert Lowercase(s)[i..][..|word|] == Lowercase(s[i..i + |word|]);
      LowercaseIs(s[i..i + |word|], word);
    }
  }

  /**
   * Without a known stamp a document is markup exactly when its name ends in .html or .xhtml or its content
   * type mentions html; of the others, exactly the names in .zip and .xbri are packages. Case is ignored.
   */
  lemma NameDecides(contentType: Option<string>, name: string)
    ensures var markup := Ends(name, ".xhtml") || Ends(name, ".html")
        || (contentType.Some? && Holds(contentType.value, "html"));
      && (FormatFromName(contentType, name) == XhtmlFormat <==> markup)
      && ContainerFromName(contentType, name) ==
        if markup then Html else if Ends(name, ".zip") || Ends(name, ".xbri") then Zip else Pdf
  {
    hide EndsWith, Ends, Mentions, Holds, Lowercase;
    EndsIs(name, ".xhtml");
    EndsIs(name, ".html");
    EndsIs(name, ".zip");
    EndsIs(name, ".xbri");
    var ct := if contentType.Some? then contentType.value else "";
    HoldsIs(ct, "html");
    HoldsIs(ct, "xhtml");
    HtmlInXhtml(ct);
    NothingHeld();
    LowercaseOfNothing();
  }

  lemma LowercaseOfNothing()
    ensures Lowercase("") == ""
  {
  }

  lemma NothingHeld()
    ensures !Holds("", "html")
  {
  }

  lemma HtmlInXhtml(s: string)
    ensures Holds(s, "xhtml") ==> Holds(s, "html")
  {
    if i :| HoldsAt(s, "xhtml", i) {
      assert forall k | 0 <= k < 4 :: s[i + 1..i + 5][k] == s[i..i + 5][k + 1] && "html"[k] == "xhtml"[k + 1];
      assert HoldsAt(s, "html", i + 1);
    }
  }
}
