/** Magic-byte container detection: what a stored file really is, read from its leading bytes. */
module Containers {
  type Bytes = seq<bv8>

  datatype Container = Pdf | Zip | Xml | Html | Unknown

  const ZIP_MAGIC: Bytes := [0x50, 0x4B, 0x03, 0x04]
  const PDF_MAGIC: Bytes := [0x25, 0x50, 0x44, 0x46]
  const PDF_SCAN_WINDOW := 1024
  const XML_PREAMBLE: Bytes := [0x3C, 0x3F, 0x78, 0x6D, 0x6C]

  /** The two binary signatures come first (a ZIP may contain "%PDF"), then the first markup tag. */
  function DetectContainer(bytes: Bytes): Container {
    if ZIP_MAGIC <= bytes then Zip
    else if Contains(bytes[..if |bytes| < PDF_SCAN_WINDOW then |bytes| else PDF_SCAN_WINDOW], PDF_MAGIC) then Pdf
    else
      var text := Lowered(StripLeading(bytes));
      if XML_PREAMBLE <= text then Xml
      else if text != [] && text[0] == 0x3C then Html
      else Unknown
  }

  predicate Contains(haystack: Bytes, needle: Bytes) {
    exists i | 0 <= i <= |haystack| - |needle| :: haystack[i..][..|needle|] == needle
  }

  function StripLeading(bytes: Bytes): Bytes {
    SkipWhitespace(
      if [0xEF, 0xBB, 0xBF] <= bytes then bytes[3..]
      else if [0xFF, 0xFE] <= bytes || [0xFE, 0xFF] <= bytes then bytes[2..]
      else bytes)
  }

  function SkipWhitespace(bytes: Bytes): Bytes {
    if bytes != [] && bytes[0] in {0x20, 0x09, 0x0A, 0x0C, 0x0D} then SkipWhitespace(bytes[1..]) else bytes
  }

  function Lowered(bytes: Bytes): Bytes {
    seq(if |bytes| < 64 then |bytes| else 64,
        i requires 0 <= i < |bytes| => if 0x41 <= bytes[i] <= 0x5A then bytes[i] + 0x20 else bytes[i])
  }

  // ---- Which bytes are which container ----------------------------------------------------

  ghost predicate IsPackage(b: Bytes) {
    |b| >= 4 && b[0] == 0x50 && b[1] == 0x4B && b[2] == 0x03 && b[3] == 0x04
  }

  /** "%PDF" stands somewhere within the first 1024 bytes. */
  ghost predicate HasPdfHeader(b: Bytes) {
    exists k :: 0 <= k <= 1020 && HeaderAt(b, k)
  }

  ghost predicate HeaderAt(b: Bytes, k: int) {
    0 <= k <= |b| - 4 && b[k] == 0x25 && b[k + 1] == 0x50 && b[k + 2] == 0x44 && b[k + 3] == 0x46
  }

  /** The byte-order mark at the beginning, if there is one, has length `n`. */
  ghost predicate HasMark(b: Bytes, n: nat) {
    if |b| >= 3 && b[0] == 0xEF && b[1] == 0xBB && b[2] == 0xBF then n == 3
    else if |b| >= 2 && ((b[0] == 0xFF && b[1] == 0xFE) || (b[0] == 0xFE && b[1] == 0xFF)) then n == 2
    else n == 0
  }

  ghost predicate IsSpaceByte(c: bv8) { c == 0x20 || c == 0x09 || c == 0x0A || c == 0x0C || c == 0x0D }

  /** The text opens at `k`: behind the byte-order mark and white space. */
  ghost predicate OpensAt(b: Bytes, n: nat, k: nat) {
    && HasMark(b, n) && n <= k <= |b| && (forall j | n <= j < k :: IsSpaceByte(b[j]))
    && (k < |b| ==> !IsSpaceByte(b[k]))
  }

  /** "<?xml", its letters in either case. */
  ghost predicate OpensXml(b: Bytes, k: nat) {
    && k + 5 <= |b| && b[k] == 0x3C && b[k + 1] == 0x3F && b[k + 2] in {0x78, 0x58} && b[k + 3] in {0x6D, 0x4D}
    && b[k + 4] in {0x6C, 0x4C}
  }

  /** The container of any bytes: the signatures in their order, then how the text opens. */
  lemma DetectedContainer(b: Bytes, n: nat, k: nat)
    requires OpensAt(b, n, k)
    ensures DetectContainer(b) ==
      if IsPackage(b) then Zip
      else if HasPdfHeader(b) then Pdf
      else if OpensXml(b, k) then Xml
      else if k < |b| && b[k] == 0x3C then Html
      else Unknown
  {
    hide StripLeading, Lowered, Contains;
    PackageIff(b);
    PdfIff(b);
    StrippedOpens(b, n, k);
    XmlIff(b[k..]);
    assert forall j | 0 <= j < |b| - k :: b[k..][j] == b[k + j];
  }

  lemma PackageIff(b: Bytes)
    ensures ZIP_MAGIC <= b <==> IsPackage(b)
  {
    if IsPackage(b) { assert b[..4] == ZIP_MAGIC; }
    if ZIP_MAGIC <= b { assert forall i | 0 <= i < 4 :: b[i] == ZIP_MAGIC[i]; }
  }

  lemma PdfIff(b: Bytes)
    ensures Contains(b[..if |b| < 1024 then |b| else 1024], PDF_MAGIC) <==> HasPdfHeader(b)
  {
    var w := b[..if |b| < 1024 then |b| else 1024];
    if Contains(w, PDF_MAGIC) {
      var k :| 0 <= k <= |w| - 4 && w[k..][..4] == PDF_MAGIC;
      HeaderIs(w, k);
      assert HeaderAt(b, k);
    }
    if k :| 0 <= k <= 1020 && HeaderAt(b, k) { HeaderIs(w, k); }
  }

  lemma HeaderIs(w: Bytes, k: nat)
    requires k + 4 <= |w|
    ensures w[k..][..4] == PDF_MAGIC <==> HeaderAt(w, k)
  {
    var u := w[k..][..4];
    assert u == [w[k], w[k + 1], w[k + 2], w[k + 3]];
    if u == PDF_MAGIC { assert u[0] == 0x25 && u[1] == 0x50 && u[2] == 0x44 && u[3] == 0x46; }
  }

  lemma {:induction false} SpacesSkipped(b: Bytes, k: nat)
    requires k <= |b| && (forall j | 0 <= j < k :: IsSpaceByte(b[j])) && (k < |b| ==> !IsSpaceByte(b[k]))
    ensures SkipWhitespace(b) == b[k..]
  {
    if k > 0 { SpacesSkipped(b[1..], k - 1); }
  }

  lemma BeginsWith(b: Bytes, mark: Bytes)
    ensures mark <= b <==> |mark| <= |b| && forall i | 0 <= i < |mark| :: b[i] == mark[i]
  {
    if |mark| <= |b| && forall i | 0 <= i < |mark| :: b[i] == mark[i] { assert b[..|mark|] == mark; }
  }

  lemma StrippedOpens(b: Bytes, n: nat, k: nat)
    requires OpensAt(b, n, k)
    ensures StripLeading(b) == b[k..]
  {
    hide SkipWhitespace, IsSpaceByte;
    BeginsWith(b, [0xEF, 0xBB, 0xBF]);
    BeginsWith(b, [0xFF, 0xFE]);
    BeginsWith(b, [0xFE, 0xFF]);
    assert b[0..] == b;
    SpacesSkipped(b[n..], k - n);
    assert b[n..][k - n..] == b[k..];
  }

  lemma XmlIff(text: Bytes)
    ensures XML_PREAMBLE <= Lowered(text) <==> OpensXml(text, 0)
    ensures Lowered(text) != [] && Lowered(text)[0] == 0x3C <==> text != [] && text[0] == 0x3C
  {
    var low := Lowered(text);
    forall i | 0 <= i < |low| ensures low[i] == (if 0x41 <= text[i] <= 0x5A then text[i] + 0x20 else text[i]) {}
    if |text| >= 5 {
      LowerByte(text[0], 0x3C);
      LowerByte(text[1], 0x3F);
      LowerLetter(text[2], 0x78, 0x58);
      LowerLetter(text[3], 0x6D, 0x4D);
      LowerLetter(text[4], 0x6C, 0x4C);
      assert XML_PREAMBLE <= low <==> low[..5] == XML_PREAMBLE;
      assert low[..5] == [low[0], low[1], low[2], low[3], low[4]];
    } else if text != [] {
      LowerByte(text[0], 0x3C);
    }
  }

  lemma LowerByte(c: bv8, mark: bv8)
    requires mark < 0x41
    ensures (if 0x41 <= c <= 0x5A then c + 0x20 else c) == mark <==> c == mark
  {
  }

  lemma LowerLetter(c: bv8, lower: bv8, upper: bv8)
    requires 0x61 <= lower <= 0x7A && upper == lower - 0x20
    ensures (if 0x41 <= c <= 0x5A then c + 0x20 else c) == lower <==> c in {lower, upper}
  {
  }

  /** Every text opens somewhere, and in one place only. */
  lemma {:induction false} OpensSomewhere(b: Bytes) returns (n: nat, k: nat)
    ensures OpensAt(b, n, k)
  {
    n := if |b| >= 3 && b[0] == 0xEF && b[1] == 0xBB && b[2] == 0xBF then 3
         else if |b| >= 2 && ((b[0] == 0xFF && b[1] == 0xFE) || (b[0] == 0xFE && b[1] == 0xFF)) then 2 else 0;
    k := n;
    while k < |b| && IsSpaceByte(b[k])
      invariant n <= k <= |b| && forall j | n <= j < k :: IsSpaceByte(b[j])
    {
      k := k + 1;
    }
  }
}
