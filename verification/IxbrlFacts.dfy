/**
 * The numeric facts of an inline XBRL document. Its contexts, units and namespaces are given as the
 * tables the document's other passes make of them; attribute keys are the ones `elem.get` uses.
 */
module IxbrlFacts {
  import opened Options
  import opened PowersOfTen
  import opened Texts
  import opened IxbrlText
  import opened IxbrlNumbers
  import opened IxbrlGrouping

  datatype Period = Instant(at: string) | Duration(start: string, end: string)
  datatype Dimension = Dimension(axis: Option<string>, member: string)
  datatype Context = Context(entity: Option<string>, period: Option<Period>, dimensions: seq<Dimension>)

  datatype Document = Document(
    root: Element, contexts: map<string, Context>, units: map<string, string>, namespaces: map<string, string>)

  datatype Fact = Fact(
    conceptQName: string, conceptLocal: string, contextId: string, entity: Option<string>, period: Option<Period>,
    dimensions: seq<Dimension>, unit: Option<string>, decimals: Option<string>, scale: int, negative: bool,
    format: Option<string>, value: Option<real>, rawText: string, ok: bool)

  function Get(e: Element, key: string): Option<string> {
    if key in e.attributes then Some(e.attributes[key]) else None
  }

  /** `root.iter()`: the element and its descendants in document order. */
  function Preorder(e: Element): seq<Element>
    decreases e, 1
  {
    [e] + PreorderOf(e.children)
  }

  function PreorderOf(elements: seq<Element>): seq<Element>
    decreases elements, 0
  {
    if elements == [] then [] else Preorder(elements[0]) + PreorderOf(elements[1..])
  }

  // ---- What one element says --------------------------------------------------------------

  /** A numeric fact with a concept and a context to anchor it. */
  predicate IsFact(e: Element) {
    e.tag == "nonFraction" && Get(e, "name") !in {None, Some("")} && Get(e, "contextRef").Some?
  }

  function Lower(c: char): char { if 'A' <= c <= 'Z' then ((c as int) + 32) as char else c }

  predicate IsNil(e: Element) {
    match Get(e, "nil")
    case None => false
    case Some(nil) => |nil| == 4 && forall i | 0 <= i < 4 :: Lower(nil[i]) == "true"[i]
  }

  /** `int(elem.get("scale", "0"))` for ASCII numerals; None is its ValueError. */
  function ScaleOf(e: Element): Option<int> {
    match Get(e, "scale")
    case None => Some(0)
    case Some(text) => ParseInteger(Strip(text))
  }

  // ---- Names ------------------------------------------------------------------------------

  function Prefix(name: string): string {
    var colon := Find(name, {':'});
    if colon == |name| then "" else name[..colon]
  }

  function Local(name: string): string {
    var colon := Find(name, {':'});
    if colon == |name| then name else name[colon + 1..]
  }

  /** `qname_local`: the name behind the first colon, and whether the prefix is bound. */
  function QNameLocal(name: string, namespaces: map<string, string>): (string, bool) {
    (Local(name), Prefix(name) in namespaces)
  }

  /** `expand_qname`: `{uri}local`, or the name as it stands when its prefix is not bound. */
  function ExpandQName(name: string, namespaces: map<string, string>): (string, bool) {
    if Prefix(name) in namespaces then ("{" + namespaces[Prefix(name)] + "}" + Local(name), true) else (name, false)
  }

  lemma ClosingBrace(uri: string, local: string)
    requires '}' !in uri
    ensures Find("{" + uri + "}" + local, {'}'}) == |uri| + 1
  {
    var s := "{" + uri + "}" + local;
    forall j | 0 <= j < |uri| + 1 ensures s[j] !in {'}'} {
      if j > 0 { assert s[j] == uri[j - 1] && uri[j - 1] in uri; }
    }
    FoundAt(s, |uri| + 1, {'}'});
  }

  /** Two bound names expand to the same text exactly when they name the same thing, whatever their prefixes. */
  lemma ExpandedNamesAgreeIff(a: string, b: string, m: map<string, string>, n: map<string, string>)
    requires Prefix(a) in m && Prefix(b) in n && '}' !in m[Prefix(a)] && '}' !in n[Prefix(b)]
    ensures ExpandQName(a, m) == ExpandQName(b, n) <==> m[Prefix(a)] == n[Prefix(b)] && Local(a) == Local(b)
  {
    hide Prefix, Local;
    var u, v := m[Prefix(a)], n[Prefix(b)];
    ClosingBrace(u, Local(a));
    ClosingBrace(v, Local(b));
    var s, t := ExpandQName(a, m).0, ExpandQName(b, n).0;
    if s == t {
      assert |u| == |v| && s[1..|u| + 1] == u && t[1..|v| + 1] == v;
      assert s[|u| + 2..] == Local(a) && t[|v| + 2..] == Local(b);
    }
  }

  // ---- The value --------------------------------------------------------------------------

  /** The text that is looked at, and the number in it before sign and scale. */
  function RawText(e: Element): string { if IsNil(e) then "" else VisibleText(e) }

  function Unscaled(e: Element): Reading {
    if IsNil(e) then Number(0.0) else ApplyTransform(VisibleText(e), Get(e, "format"))
  }

  /** The sign attribute and the scale applied to what was read. */
  function Scaled(read: real, negative: bool, scale: int): real {
    (if negative then -read else read) * Pow10(scale)
  }

  /** The row of one usable element. */
  function FactOf(e: Element, doc: Document): Fact
    requires IsFact(e)
  {
    var name, contextId, unit := Get(e, "name").value, Get(e, "contextRef").value, Get(e, "unitRef");
    var context := if contextId in doc.contexts then Some(doc.contexts[contextId]) else None;
    var scale := if ScaleOf(e).Some? then ScaleOf(e).value else 0;
    var negative := Get(e, "sign") == Some("-");
    var read := Unscaled(e);
    Fact(
      ExpandQName(name, doc.namespaces).0, QNameLocal(name, doc.namespaces).0, contextId,
      if context.Some? then context.value.entity else None,
      if context.Some? then context.value.period else None,
      if context.Some? then context.value.dimensions else [],
      if unit.Some? && unit.value != "" && unit.value in doc.units then Some(doc.units[unit.value]) else None,
      Get(e, "decimals"), scale, negative, Get(e, "format"),
      if read.Number? then Some(Scaled(read.value, negative, scale)) else None,
      RawText(e), read.Number? && Resolved(e, doc))
  }

  /** Everything but the text: context, unit and prefix are declared, and the scale is a number. */
  predicate Resolved(e: Element, doc: Document)
    requires IsFact(e)
  {
    && Get(e, "contextRef").value in doc.contexts && ScaleOf(e).Some?
    && QNameLocal(Get(e, "name").value, doc.namespaces).1
    && Get(e, "unitRef").Some? && Get(e, "unitRef").value in doc.units
  }

  function Facts(elements: seq<Element>, doc: Document): seq<Fact> {
    if elements == [] then []
    else
      var last := elements[|elements| - 1];
      Facts(elements[..|elements| - 1], doc) + if IsFact(last) then [FactOf(last, doc)] else []
  }

  // ---- The reader -------------------------------------------------------------------------

  lemma NoFacts(elements: seq<Element>, doc: Document)
    requires elements == []
    ensures Facts(elements, doc) == []
  {
  }

  lemma FactsOneMore(elements: seq<Element>, i: nat, doc: Document)
    requires i < |elements|
    ensures var e := elements[i];
      Facts(elements[..i + 1], doc)
        == if IsFact(e) then Facts(elements[..i], doc) + [FactOf(e, doc)] else Facts(elements[..i], doc)
  {
    assert elements[..i + 1][..i] == elements[..i];
  }

  /** The loop of `parse_instance`. */
  method ParseInstance(doc: Document) returns (occurrences: seq<Fact>)
    ensures occurrences == Facts(Preorder(doc.root), doc)
  {
    hide VisibleText, ApplyTransform, Scaled, IsNil, ScaleOf, Facts, QNameLocal, ExpandQName;
    occurrences := [];
    var elements := Preorder(doc.root);
    NoFacts(elements[..0], doc);
    for i := 0 to |elements|
      invariant occurrences == Facts(elements[..i], doc)
    {
      var elem := elements[i];
      FactsOneMore(elements, i, doc);
      if elem.tag != "nonFraction" { continue; }
      var name, contextId := Get(elem, "name"), Get(elem, "contextRef");
      if name in {None, Some("")} || contextId.None? { continue; }
      var unitId := Get(elem, "unitRef");
      var negative := Get(elem, "sign") == Some("-");
      var nil := IsNil(elem);
      var scale, scaleOk := 0, false;
      if ScaleOf(elem).Some? { scale, scaleOk := ScaleOf(elem).value, true; }
      var (conceptLocal, prefixResolved) := QNameLocal(name.value, doc.namespaces);
      var (conceptQName, _) := ExpandQName(name.value, doc.namespaces);
      var context := if contextId.value in doc.contexts then Some(doc.contexts[contextId.value]) else None;
      var unitResolved := unitId.Some? && unitId.value in doc.units;
      var rawText, read := "", Number(0.0);
      if !nil {
        rawText := CollectValueText(elem);
        read := ApplyTransform(rawText, Get(elem, "format"));
      }
      var value := None;
      if read.Number? { value := Some(Scaled(read.value, negative, scale)); }
      var entity, period, dimensions := None, None, [];
      if context.Some? {
        entity, period, dimensions := context.value.entity, context.value.period, context.value.dimensions;
      }
      var unit := if unitResolved && unitId.value != "" then Some(doc.units[unitId.value]) else None;
      var ok := context.Some? && read.Number? && scaleOk && prefixResolved && unitResolved;
      occurrences := occurrences + [Fact(
        conceptQName, conceptLocal, contextId.value, entity, period, dimensions, unit, Get(elem, "decimals"),
        scale, negative, Get(elem, "format"), value, rawText, ok)];
    }
    assert elements[..|elements|] == elements;
  }

  // ---- No fact vanishes -------------------------------------------------------------------

  ghost predicate Inside(e: Element, root: Element)
    decreases root
  {
    e == root || exists i | 0 <= i < |root.children| :: Inside(e, root.children[i])
  }

  lemma {:induction false} FactsOfConcat(a: seq<Element>, b: seq<Element>, doc: Document)
    ensures Facts(a + b, doc) == Facts(a, doc) + Facts(b, doc)
  {
    if b == [] {
      assert a + b == a;
    } else {
      assert (a + b)[..|a + b| - 1] == a + b[..|b| - 1];
      FactsOfConcat(a, b[..|b| - 1], doc);
    }
  }

  /**
   * Any subtree's facts stand together and in their own order among the document's, also when the
   * subtree is excluded from the text of a fact around it.
   */
  lemma {:induction false} SubtreeFactsAreKept(e: Element, root: Element, doc: Document)
    requires Inside(e, root)
    ensures exists before, after :: Facts(Preorder(root), doc) == before + Facts(Preorder(e), doc) + after
    decreases root
  {
    hide Facts;
    if e == root {
      assert Facts(Preorder(root), doc) == [] + Facts(Preorder(e), doc) + [];
    } else {
      var i :| 0 <= i < |root.children| && Inside(e, root.children[i]);
      SubtreeFactsAreKept(e, root.children[i], doc);
      var b, a :| Facts(Preorder(root.children[i]), doc) == b + Facts(Preorder(e), doc) + a;
      var pre, post := ChildIsPart(root.children, i);
      FactsOfParts([root] + pre, Preorder(root.children[i]), post, doc);
      assert Preorder(root) == [root] + pre + Preorder(root.children[i]) + post;
      Around(Facts([root] + pre, doc), b, Facts(Preorder(e), doc), a, Facts(post, doc));
      assert Facts(Preorder(root), doc)
        == (Facts([root] + pre, doc) + b) + Facts(Preorder(e), doc) + (a + Facts(post, doc));
    }
  }

  lemma FactsOfParts(a: seq<Element>, b: seq<Element>, c: seq<Element>, doc: Document)
    ensures Facts(a + b + c, doc) == Facts(a, doc) + Facts(b, doc) + Facts(c, doc)
  {
    FactsOfConcat(a + b, c, doc);
    FactsOfConcat(a, b, doc);
  }

  lemma Around<T>(p: seq<T>, b: seq<T>, m: seq<T>, a: seq<T>, q: seq<T>)
    ensures p + (b + m + a) + q == (p + b) + m + (a + q)
  {
  }

  lemma {:induction false} ChildIsPart(elements: seq<Element>, i: nat) returns (pre: seq<Element>, post: seq<Element>)
    requires i < |elements|
    ensures PreorderOf(elements) == pre + Preorder(elements[i]) + post
  {
    if i == 0 {
      pre, post := [], PreorderOf(elements[1..]);
    } else {
      var p, q := ChildIsPart(elements[1..], i - 1);
      pre, post := Preorder(elements[0]) + p, q;
    }
  }

  // ---- What the attributes say ------------------------------------------------------------

  /** `text` is the numeral of `k`: digits behind at most one sign, with white space around them. */
  ghost predicate IsNumeral(text: string, k: int) {
    exists before, sign, digits, after :: SplitsAs(text, before, sign, digits, after, k)
  }

  ghost predicate SplitsAs(text: string, before: string, sign: string, digits: string, after: string, k: int) {
    && text == before + (sign + digits) + after && Among(before, SPACES) && Among(after, SPACES)
    && digits != [] && AllDigits(digits)
    && ((sign in {"", "+"} && k == Value(digits)) || (sign == "-" && k == 0 - Value(digits)))
  }

  lemma NumeralIsParsed(text: string, before: string, sign: string, digits: string, after: string, k: int)
    requires SplitsAs(text, before, sign, digits, after, k)
    ensures ParseInteger(Strip(text)) == Some(k)
  {
    hide SPACES, Stripped, Value;
    var core := sign + digits;
    assert core[0] !in SPACES && core[|core| - 1] !in SPACES by {
      assert core[|core| - 1] == digits[|digits| - 1] && core[0] == (if sign == [] then digits[0] else sign[0]);
      assert digits[0] in digits && digits[|digits| - 1] in digits;
      DigitOrSignIsNoSpace(core[0]);
      DigitOrSignIsNoSpace(core[|core| - 1]);
    }
    var pre, post := StripsOutside(before, core, after, SPACES, SPACES);
    assert [] + core + [] == core;
    if sign == [] { assert core == digits && digits[0] in digits; } else { assert core[1..] == digits; }
  }

  lemma DigitOrSignIsNoSpace(c: char)
    requires IsDigit(c) || c in {'-', '+'}
    ensures c !in SPACES
  {
  }

  lemma ParsedIsNumeral(text: string, k: int)
    requires ParseInteger(Strip(text)) == Some(k)
    ensures IsNumeral(text, k)
  {
    hide SPACES, Stripped, Value;
    var core := Strip(text);
    var before, after := StrippedParts(text, SPACES);
    var digits := Unsigned(core);
    var sign := core[..|core| - |digits|];
    assert core == sign + digits && (sign == [] || sign == [core[0]]);
    assert SplitsAs(text, before, sign, digits, after, k);
  }

  /** The scale is read from the attribute exactly when it holds a numeral, and is 0 without the attribute. */
  lemma ScaleIsReadIff(e: Element, k: int)
    ensures ScaleOf(e) == Some(k) <==> if "scale" in e.attributes then IsNumeral(e.attributes["scale"], k) else k == 0
  {
    if "scale" in e.attributes {
      var text := e.attributes["scale"];
      if IsNumeral(text, k) {
        var before, sign, digits, after :| SplitsAs(text, before, sign, digits, after, k);
        NumeralIsParsed(text, before, sign, digits, after, k);
      } else if ScaleOf(e) == Some(k) {
        ParsedIsNumeral(text, k);
      }
    }
  }

  /** In particular the decimal print of any number, with a sign or none. */
  lemma PrintIsNumeral(before: string, negative: bool, n: nat, width: nat, after: string)
    requires Among(before, SPACES) && Among(after, SPACES) && 0 < width && n < Ten(width)
    ensures IsNumeral(before + (if negative then "-" else "") + Padded(n, width) + after, if negative then 0 - n else n)
  {
    hide SPACES;
    PaddedValue(n, width);
    var sign, digits := if negative then "-" else "", Padded(n, width);
    var text := before + sign + digits + after;
    assert text == before + (sign + digits) + after;
    assert SplitsAs(text, before, sign, digits, after, if negative then 0 - n else n);
  }

  /** The scale a fact is meant to have: that of its attribute, or 0 if there is none or it is no numeral. */
  ghost predicate HasScale(e: Element, k: int) {
    if ScaleIsMissingOrWrong(e) then k == 0 else IsNumeral(e.attributes["scale"], k)
  }

  ghost predicate ScaleIsMissingOrWrong(e: Element) {
    "scale" in e.attributes ==> forall k :: !IsNumeral(e.attributes["scale"], k)
  }

  ghost predicate HasMinus(e: Element) { "sign" in e.attributes && e.attributes["sign"] == "-" }

  /** Context, unit, prefix and scale can all be looked up. */
  ghost predicate Anchored(e: Element, doc: Document)
    requires IsFact(e)
  {
    && e.attributes["contextRef"] in doc.contexts
    && "unitRef" in e.attributes && e.attributes["unitRef"] in doc.units
    && Prefix(e.attributes["name"]) in doc.namespaces
    && ("scale" in e.attributes ==> exists k :: IsNumeral(e.attributes["scale"], k))
  }

  /** Scale and sign of a fact are those of its attributes, and it is resolved exactly when it is anchored. */
  lemma FactFollowsAttributes(e: Element, doc: Document, k: int)
    requires IsFact(e) && HasScale(e, k)
    ensures FactOf(e, doc).scale == k && (FactOf(e, doc).negative <==> HasMinus(e))
    ensures Resolved(e, doc) <==> Anchored(e, doc)
  {
    hide Unscaled, RawText, ExpandQName, Scaled, IsNumeral, Prefix, Local;
    forall j ensures ScaleOf(e) == Some(j) <==>
      if "scale" in e.attributes then IsNumeral(e.attributes["scale"], j) else j == 0 {
      ScaleIsReadIff(e, j);
    }
    ScaleIsReadIff(e, k);
  }

  /** A prefix ends at the first colon; a name without one has the empty prefix. */
  lemma NameParts(prefix: string, local: string)
    requires ':' !in prefix
    ensures Prefix(prefix + ":" + local) == prefix && Local(prefix + ":" + local) == local
    ensures Prefix(prefix) == "" && Local(prefix) == prefix
  {
    var name := prefix + ":" + local;
    FoundAt(name, |prefix|, {':'});
    FoundAt(prefix, |prefix|, {':'});
  }

  /**
   * What a fact is about: the concept `{uri}local`, or the name as written if its prefix is unbound, and
   * the context and unit that its references name.
   */
  lemma FactIdentity(e: Element, doc: Document, prefix: string, local: string)
    requires IsFact(e) && ':' !in prefix
    requires e.attributes["name"] == prefix + ":" + local
      || (prefix == "" && ':' !in local && e.attributes["name"] == local)
    ensures var f, name := FactOf(e, doc), e.attributes["name"];
      f.conceptLocal == local && f.conceptQName ==
        if prefix in doc.namespaces then "{" + doc.namespaces[prefix] + "}" + local else name
    ensures var f, id := FactOf(e, doc), e.attributes["contextRef"];
      f.contextId == id && Context(f.entity, f.period, f.dimensions) ==
        if id in doc.contexts then doc.contexts[id] else Context(None, None, [])
    ensures FactOf(e, doc).unit.Some? <==>
      "unitRef" in e.attributes && e.attributes["unitRef"] != "" && e.attributes["unitRef"] in doc.units
    ensures FactOf(e, doc).unit.Some? ==> FactOf(e, doc).unit.value == doc.units[e.attributes["unitRef"]]
  {
    hide Unscaled, RawText, Scaled, Prefix, Local, Resolved, ScaleOf;
    NameParts(prefix, local);
    if ':' !in local { NameParts(local, ""); }
  }

  /** The attribute `nil` is "true" with each letter in either case. */
  ghost predicate SaysNil(e: Element) {
    "nil" in e.attributes && |e.attributes["nil"]| == 4 && forall i | 0 <= i < 4 ::
      e.attributes["nil"][i] == "true"[i] || e.attributes["nil"][i] == "TRUE"[i]
  }

  /** A fact that says nil is 0 without text, whatever its text, sign, scale and format. */
  lemma NilFactIsZero(e: Element, doc: Document)
    requires IsFact(e)
    ensures IsNil(e) <==> SaysNil(e)
    ensures SaysNil(e) ==> FactOf(e, doc).value == Some(0.0) && FactOf(e, doc).rawText == ""
    ensures !SaysNil(e) ==> FactOf(e, doc).rawText == VisibleText(e)
  {
    hide ApplyTransform, VisibleText, Resolved, ExpandQName, QNameLocal, ScaleOf, Pow10;
    if "nil" in e.attributes && |e.attributes["nil"]| == 4 {
      var nil := e.attributes["nil"];
      forall i | 0 <= i < 4 ensures Lower(nil[i]) == "true"[i] <==> nil[i] == "true"[i] || nil[i] == "TRUE"[i] {
        LowerIs(nil[i]);
      }
    }
  }

  lemma LowerIs(c: char)
    ensures Lower(c) == 't' <==> c in {'t', 'T'}
    ensures Lower(c) == 'r' <==> c in {'r', 'R'}
    ensures Lower(c) == 'u' <==> c in {'u', 'U'}
    ensures Lower(c) == 'e' <==> c in {'e', 'E'}
  {
  }

  // ---- What a filer meant is what is read --------------------------------------------------

  /** The value of a fact: `n` printed with `places` decimals, with its signs and scale. */
  function Meant(negative: bool, n: nat, places: nat, scale: int): real {
    var magnitude := n as real * Pow10(scale - places);
    if negative then -magnitude else magnitude
  }

  /**
   * A fact whose visible text is any grouping of a printed number, with any white space, has that number
   * as value, times ten to its scale attribute, negated exactly for the sign attribute "-", and is ok
   * exactly when the rest is anchored; unless another white space than the five stands inside the
   * numeral: then it has no value and is not ok.
   */
  lemma FactReadsBackIff(e: Element, doc: Document, printedNegative: bool, n: nat, places: nat, width: nat, scale: int)
    requires IsFact(e) && !IsNil(e) && places < width && n < Ten(width) && IsNumeric(Get(e, "format"))
    requires Grouping(
      VisibleText(e), Printed(Get(e, "format"), printedNegative, n, places, width),
      SPACES + Separators(Get(e, "format")))
    requires HasScale(e, scale)
    ensures FactOf(e, doc).scale == scale && (FactOf(e, doc).negative <==> HasMinus(e))
    ensures KnownBlanksOnly(VisibleText(e), Separators(Get(e, "format"))) ==>
      && FactOf(e, doc).value == Some(Meant(printedNegative != HasMinus(e), n, places, scale))
      && (FactOf(e, doc).ok <==> Anchored(e, doc))
    ensures !KnownBlanksOnly(VisibleText(e), Separators(Get(e, "format"))) ==>
      FactOf(e, doc).value == None && !FactOf(e, doc).ok
  {
    hide Grouping, Printed, ApplyTransform, VisibleText, KnownBlanksOnly, Separators, LocalFormat;
    hide Scaled, Meant, Rendered, ScaleOf, Resolved, ExpandQName, QNameLocal, IsNil, HasScale, Anchored, HasMinus;
    FactFollowsAttributes(e, doc, scale);
    GroupingIsUndoneIff(printedNegative, n, places, width, VisibleText(e), Get(e, "format"));
    ScaledRendered(printedNegative, FactOf(e, doc).negative, n, places, scale);
  }

  lemma ScaledRendered(printedNegative: bool, negative: bool, n: nat, places: nat, scale: int)
    ensures Scaled(Rendered(printedNegative, n, places), negative, scale)
      == Meant(printedNegative != negative, n, places, scale)
  {
    hide Pow10;
    Pow10Adds(0 - places, scale);
    Reassociate(n as real, Pow10(0 - places), Pow10(scale));
  }

  lemma Reassociate(a: real, b: real, c: real)
    ensures a * b * c == a * (b * c) && -(a * b) * c == -(a * (b * c))
  {
  }
}
