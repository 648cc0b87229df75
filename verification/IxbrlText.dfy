/**
 * The text of an inline XBRL fact (section 5 of Inline XBRL 1.1): the element's own text and that of
 * its descendants in document order, without what stands inside an `exclude` descendant.
 */
module IxbrlText {
  /** An element: local tag name, attributes, text before the first child, children, text behind it. */
  datatype Element = Element(tag: string, attributes: map<string, string>, text: string, children: seq<Element>,
    tail: string)

  // ---- The document as a stream, and a reader of that stream ------------------------------

  datatype Token = Open(tag: string) | Chars(text: string) | Close

  /** What stands between an element's opening and closing tag. */
  function Content(e: Element): seq<Token>
    decreases e, 1
  {
    [Chars(e.text)] + ContentOf(e.children)
  }

  function ContentOf(elements: seq<Element>): seq<Token>
    decreases elements, 0
  {
    if elements == [] then []
    else
      var e := elements[0];
      [Open(e.tag)] + Content(e) + [Close, Chars(e.tail)] + ContentOf(elements[1..])
  }

  /** Reads a stream; `depth` is the number of open tags from the outermost open `exclude` on. */
  function Visible(tokens: seq<Token>, depth: nat): string {
    if tokens == [] then ""
    else match tokens[0]
      case Open(tag) => Visible(tokens[1..], if depth > 0 then depth + 1 else if tag == "exclude" then 1 else 0)
      case Close => Visible(tokens[1..], if depth > 0 then depth - 1 else 0)
      case Chars(text) => (if depth == 0 then text else "") + Visible(tokens[1..], depth)
  }

  function VisibleText(e: Element): string { Visible(Content(e), 0) }

  // ---- An element's content leaves the reader where it was --------------------------------

  lemma {:induction false} ContentIsBalanced(e: Element, rest: seq<Token>, depth: nat)
    ensures Visible(Content(e) + rest, depth) == (if depth == 0 then VisibleText(e) else "") + Visible(rest, depth)
    decreases e, 2
  {
    hide ContentOf;
    ContentOfIsBalanced(e.children, rest, depth);
    var inner := ContentOf(e.children);
    assert Content(e) + rest == [Chars(e.text)] + (inner + rest);
    assert (Content(e) + rest)[1..] == inner + rest;
    assert Content(e)[1..] == inner;
  }

  lemma NoTokens()
    ensures Visible([], 0) == ""
  {
  }

  lemma {:induction false} ContentOfIsBalanced(elements: seq<Element>, rest: seq<Token>, depth: nat)
    ensures Visible(ContentOf(elements) + rest, depth)
         == (if depth == 0 then Visible(ContentOf(elements), 0) else "") + Visible(rest, depth)
    decreases elements, 1
  {
    hide Visible, VisibleText, Content;
    if elements == [] {
      assert ContentOf(elements) + rest == rest;
      NoTokens();
    } else {
      var e, later := elements[0], ContentOf(elements[1..]);
      ContentOfIsBalanced(elements[1..], rest, depth);
      OneChild(e, later + rest, depth);
      OneChild(e, later, 0);
      assert ContentOf(elements) + rest == [Open(e.tag)] + Content(e) + [Close, Chars(e.tail)] + (later + rest);
    }
  }

  /** One child: its tail is always text of the parent, its content only when it is not an exclude. */
  lemma {:induction false} OneChild(e: Element, rest: seq<Token>, depth: nat)
    ensures Visible([Open(e.tag)] + Content(e) + [Close, Chars(e.tail)] + rest, depth)
         == (if depth > 0 then "" else (if e.tag == "exclude" then "" else VisibleText(e)) + e.tail)
           + Visible(rest, depth)
    decreases e, 3
  {
    var inside := if depth > 0 then depth + 1 else if e.tag == "exclude" then 1 else 0;
    var after := [Close, Chars(e.tail)] + rest;
    var all := [Open(e.tag)] + Content(e) + [Close, Chars(e.tail)] + rest;
    assert all[1..] == Content(e) + after;
    ContentIsBalanced(e, after, inside);
    assert after[1..] == [Chars(e.tail)] + rest;
    assert after[1..][1..] == rest;
  }

  // ---- The collector ----------------------------------------------------------------------

  function Join(parts: seq<string>): string {
    if parts == [] then "" else Join(parts[..|parts| - 1]) + parts[|parts| - 1]
  }

  lemma JoinOneMore(parts: seq<string>, part: string)
    ensures Join(parts + [part]) == Join(parts) + part
  {
    assert (parts + [part])[..|parts|] == parts;
  }

  lemma JoinOne(part: string)
    ensures Join([part]) == part
  {
    JoinOneMore([], part);
  }

  lemma NextChild(elements: seq<Element>, i: nat)
    requires i < |elements|
    ensures var e := elements[i];
      Visible(ContentOf(elements[i..]), 0)
      == (if e.tag == "exclude" then "" else VisibleText(e)) + e.tail + Visible(ContentOf(elements[i + 1..]), 0)
  {
    assert elements[i..][1..] == elements[i + 1..];
    OneChild(elements[i], ContentOf(elements[i + 1..]), 0);
  }

  lemma OwnTextFirst(e: Element)
    ensures VisibleText(e) == e.text + Visible(ContentOf(e.children[0..]), 0)
  {
    assert e.children[0..] == e.children;
    assert Content(e)[1..] == ContentOf(e.children);
  }

  /** `collect_value_text`: the visible text, whatever the root's own tag is. */
  method CollectValueText(elem: Element) returns (text: string)
    ensures text == VisibleText(elem)
    decreases elem
  {
    hide VisibleText, Visible, ContentOf, Join;
    var parts := [elem.text];
    JoinOne(elem.text);
    OwnTextFirst(elem);
    var i := 0;
    while i < |elem.children|
      invariant 0 <= i <= |elem.children|
      invariant Join(parts) + Visible(ContentOf(elem.children[i..]), 0) == VisibleText(elem)
    {
      var child := elem.children[i];
      NextChild(elem.children, i);
      ghost var before, later := Join(parts), Visible(ContentOf(elem.children[i + 1..]), 0);
      if child.tag != "exclude" {
        var inner := CollectValueText(child);
        JoinOneMore(parts, inner);
        parts := parts + [inner];
        assert before + (inner + child.tail + later) == before + inner + child.tail + later;
      } else {
        assert before + ("" + child.tail + later) == before + child.tail + later;
      }
      JoinOneMore(parts, child.tail);
      parts := parts + [child.tail];
      i := i + 1;
    }
    NothingLeft(elem.children[i..]);
    text := Join(parts);
  }

  lemma NothingLeft(elements: seq<Element>)
    requires elements == []
    ensures Visible(ContentOf(elements), 0) == ""
  {
  }

  // ---- Consequences -----------------------------------------------------------------------

  /** The content of an excluded child is irrelevant; its tail is not. */
  lemma ExcludedContentIsIrrelevant(e: Element, i: nat, other: Element)
    requires i < |e.children| && e.children[i].tag == "exclude" && other.tag == "exclude" &&
      other.tail == e.children[i].tail
    ensures VisibleText(e.(children := e.children[i := other])) == VisibleText(e)
  {
    var changed := e.(children := e.children[i := other]);
    assert Content(changed)[1..] == ContentOf(changed.children) && Content(e)[1..] == ContentOf(e.children);
    SwapChild(e.children, i, other);
  }

  lemma {:induction false} SwapChild(elements: seq<Element>, i: nat, other: Element)
    requires i < |elements| && elements[i].tag == "exclude" && other.tag == "exclude" && other.tail == elements[i].tail
    ensures Visible(ContentOf(elements[i := other]), 0) == Visible(ContentOf(elements), 0)
  {
    var changed := elements[i := other];
    OneChild(elements[0], ContentOf(elements[1..]), 0);
    OneChild(changed[0], ContentOf(changed[1..]), 0);
    if i == 0 {
      assert changed[1..] == elements[1..];
    } else {
      assert changed[1..] == elements[1..][i - 1 := other];
      SwapChild(elements[1..], i - 1, other);
    }
  }
}
