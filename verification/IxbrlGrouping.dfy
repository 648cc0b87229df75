/**
 * Which groupings of a printed number a fact may use: the exact border between the ones that are
 * read back and the ones that are refused.
 */
module IxbrlGrouping {
  import opened Options
  import opened PowersOfTen
  import opened Texts
  import opened IxbrlNumbers

  /** `text` is `plain` with any characters of `inserted` put anywhere into it. */
  ghost predicate Grouping(text: string, plain: string, inserted: set<char>) {
    if text == [] then plain == []
    else
      || (text[0] in inserted && Grouping(text[1..], plain, inserted))
      || (plain != [] && text[0] == plain[0] && Grouping(text[1..], plain[1..], inserted))
  }

  /** The text from the first character of its numeral to the last. */
  function Inner(text: string, separators: set<char>): string { Stripped(text, SPACES + separators) }

  /** Every white space inside the numeral is one of the five that the reader drops. */
  predicate KnownBlanksOnly(text: string, separators: set<char>) {
    forall c | c in Inner(text, separators) && IsSpace(c) :: IsKnownBlank(c)
  }

  /** Blank, tab, carriage return, line feed and the no-break space. */
  predicate IsKnownBlank(c: char) { c == ' ' || c == '\t' || c == '\r' || c == '\n' || c == '\U{A0}' }

  lemma KnownBlanks()
    ensures forall c :: c in WS_CHARS <==> IsKnownBlank(c)
  {
  }

  ghost predicate Among(s: string, chars: set<char>) { forall c | c in s :: c in chars }

  // ---- Removing and stripping characters --------------------------------------------------

  lemma {:induction false} WithoutUndoesGrouping(text: string, plain: string, inserted: set<char>)
    requires Grouping(text, plain, inserted) && forall c | c in plain :: c !in inserted
    ensures Without(text, inserted) == plain
  {
    if text != [] {
      if text[0] in inserted && Grouping(text[1..], plain, inserted) {
        WithoutUndoesGrouping(text[1..], plain, inserted);
      } else {
        WithoutUndoesGrouping(text[1..], plain[1..], inserted);
      }
    }
  }

  lemma {:induction false} WithoutChars(s: string, chars: set<char>)
    ensures forall c :: c in Without(s, chars) <==> c in s && c !in chars
  {
    if s != [] {
      WithoutChars(s[1..], chars);
      assert forall c :: c in s <==> c == s[0] || c in s[1..];
    }
  }

  lemma {:induction false} WithoutSame(s: string, a: set<char>, b: set<char>)
    requires forall c | c in s :: c in a <==> c in b
    ensures Without(s, a) == Without(s, b)
  {
    if s != [] {
      assert s[0] in s && forall c | c in s[1..] :: c in s;
      WithoutSame(s[1..], a, b);
    }
  }

  lemma WithoutKeepsEnds(s: string, chars: set<char>)
    requires s != [] && s[0] !in chars && s[|s| - 1] !in chars
    ensures var w := Without(s, chars); w != [] && w[0] == s[0] && w[|w| - 1] == s[|s| - 1]
  {
    var init, last := s[..|s| - 1], s[|s| - 1];
    assert s == init + [last];
    WithoutOfConcat(init, [last], chars);
    assert Without([last], chars) == [last];
  }

  /** A string is what stripping takes off in front, what is left, and what it takes off behind. */
  lemma {:induction false} StrippedParts(s: string, chars: set<char>) returns (pre: string, post: string)
    ensures s == pre + Stripped(s, chars) + post && Among(pre, chars) && Among(post, chars)
    ensures var r := Stripped(s, chars); r != [] ==> r[0] !in chars && r[|r| - 1] !in chars
    decreases |s|
  {
    if s != [] && s[0] in chars {
      pre, post := StrippedParts(s[1..], chars);
      pre := [s[0]] + pre;
    } else if s != [] && s[|s| - 1] in chars {
      pre, post := StrippedParts(s[..|s| - 1], chars);
      post := post + [s[|s| - 1]];
    } else {
      pre, post := [], [];
    }
  }

  /** Stripping fewer characters takes off parts of what surrounds the core. */
  lemma {:induction false} StripsOutside(pre: string, core: string, post: string, all: set<char>, chars: set<char>)
    returns (pre': string, post': string)
    requires Among(pre, all) && Among(post, all) && chars <= all
    requires core != [] && core[0] !in all && core[|core| - 1] !in all
    ensures Stripped(pre + core + post, chars) == pre' + core + post' && Among(pre', all) && Among(post', all)
    ensures chars == all ==> pre' == [] && post' == []
    decreases |pre| + |post|
  {
    var s := pre + core + post;
    if pre != [] && pre[0] in chars {
      assert s[1..] == pre[1..] + core + post;
      pre', post' := StripsOutside(pre[1..], core, post, all, chars);
    } else if post != [] && post[|post| - 1] in chars {
      assert s[0] == (if pre == [] then core[0] else pre[0]) && s[|s| - 1] == post[|post| - 1];
      assert s[..|s| - 1] == pre + core + post[..|post| - 1];
      pre', post' := StripsOutside(pre, core, post[..|post| - 1], all, chars);
    } else {
      assert s[0] == (if pre == [] then core[0] else pre[0]);
      assert s[|s| - 1] == (if post == [] then core[|core| - 1] else post[|post| - 1]);
      assert pre != [] ==> pre[0] in pre;
      assert post != [] ==> post[|post| - 1] in post;
      pre', post' := pre, post;
    }
  }

  // ---- What the cleaning leaves -----------------------------------------------------------

  function Cleaned(text: string, separators: set<char>): string { Without(Without(Strip(text), WS_CHARS), separators) }

  /** Stripped and cleaned, a text is its inner part without the five blanks and the separators. */
  lemma CleanedIsInner(text: string, separators: set<char>)
    requires Inner(text, separators) != []
    ensures Strip(Cleaned(text, separators)) == Without(Inner(text, separators), WS_CHARS + separators)
    ensures Strip(text) in DASHES ==> Strip(text) == Inner(text, separators)
  {
    hide Stripped, Without, WS_CHARS, SPACES;
    var all, drop, core := SPACES + separators, WS_CHARS + separators, Inner(text, separators);
    BlanksAreSpaces();
    var pre, post := StrippedParts(text, all);
    var pre', post' := StripsOutside(pre, core, post, all, SPACES);
    WithoutTwice(Strip(text), WS_CHARS, separators);
    WithoutOfConcat(pre' + core, post', drop);
    WithoutOfConcat(pre', core, drop);
    WithoutKeepsEnds(core, drop);
    WithoutChars(pre', drop);
    WithoutChars(post', drop);
    var p, q := StripsOutside(Without(pre', drop), Without(core, drop), Without(post', drop), SPACES, SPACES);
    assert [] + Without(core, drop) + [] == Without(core, drop);
    assert |Strip(text)| == 1 ==> pre' == [] && post' == [];
  }

  lemma BlanksAreSpaces()
    ensures WS_CHARS <= SPACES
  {
  }

  lemma InnerHoldsPlain(text: string, separators: set<char>)
    ensures Without(Inner(text, separators), SPACES + separators) == Without(text, SPACES + separators)
  {
    hide Stripped, SPACES;
    var all := SPACES + separators;
    var pre, post := StrippedParts(text, all);
    WithoutOfConcat(pre + Inner(text, separators), post, all);
    WithoutOfConcat(pre, Inner(text, separators), all);
    NothingLeft(pre, all);
    NothingLeft(post, all);
  }

  lemma {:induction false} NothingLeft(s: string, chars: set<char>)
    requires Among(s, chars)
    ensures Without(s, chars) == []
  {
    if s != [] { NothingLeft(s[1..], chars); }
  }

  lemma DashHasNoDigit(s: string, chars: set<char>)
    requires s in DASHES && Without(s, chars) != []
    ensures var w := Without(s, chars); !IsDigit(w[|w| - 1])
  {
    assert |s| == 1 && Without(s[1..], chars) == [];
  }

  /** Cleaning leaves the numeral exactly when it has no other white space inside. */
  lemma CleanedGrouping(text: string, plain: string, separators: set<char>)
    requires Grouping(text, plain, SPACES + separators) && forall c | c in plain :: c !in SPACES + separators
    requires plain != [] && IsDigit(plain[|plain| - 1]) && forall c | c in separators :: !IsSpace(c)
    ensures Strip(text) !in DASHES
    ensures KnownBlanksOnly(text, separators) ==> Strip(Cleaned(text, separators)) == plain
    ensures !KnownBlanksOnly(text, separators) ==> exists c :: c in Strip(Cleaned(text, separators)) && IsSpace(c)
  {
    hide Stripped, Strip, Without, WS_CHARS, Grouping, Cleaned, DASHES, Inner;
    var all, drop, core := SPACES + separators, WS_CHARS + separators, Inner(text, separators);
    BlanksAreSpaces();
    KnownBlanks();
    WithoutUndoesGrouping(text, plain, all);
    InnerHoldsPlain(text, separators);
    NothingLeft([], all);
    CleanedIsInner(text, separators);
    if Strip(text) in DASHES { DashHasNoDigit(core, all); }
    if KnownBlanksOnly(text, separators) {
      WithoutSame(core, drop, all);
    } else {
      var c :| c in core && IsSpace(c) && c !in WS_CHARS;
      WithoutChars(core, drop);
      assert c in Strip(Cleaned(text, separators)) && IsSpace(c);
    }
  }

  // ---- A literal with white space inside does not parse -----------------------------------

  predicate IsLiteralChar(c: char) { IsDigit(c) || c in {'-', '+', '.', 'e', 'E'} }

  lemma ParsedChar(body: string, e: nat, p: nat, j: nat)
    requires p <= e <= |body| && j < |body| && (p < e ==> body[p] == '.')
    requires e < |body| ==> body[e] in {'e', 'E'} && ParseInteger(body[e + 1..]).Some?
    requires AllDigits(body[..p] + if p < e then body[p + 1..e] else [])
    ensures IsLiteralChar(body[j])
  {
    hide ParseInteger;
    var whole, fraction := body[..p], if p < e then body[p + 1..e] else [];
    if j < p {
      assert (whole + fraction)[j] == body[j];
    } else if p < j < e {
      assert (whole + fraction)[j - 1] == body[j];
    } else if j > e {
      IntegerChars(body[e + 1..]);
      assert body[e + 1..][j - e - 1] == body[j];
    }
  }

  lemma ParsedChars(body: string)
    requires ParseUnsigned(body).Some?
    ensures forall c | c in body :: IsLiteralChar(c)
  {
    hide ParseInteger, Value, AllDigits;
    var e := Find(body, {'e', 'E'});
    var p := Find(body[..e], {'.'});
    assert p < e ==> body[p] == body[..e][p];
    forall j | 0 <= j < |body| ensures IsLiteralChar(body[j]) { ParsedChar(body, e, p, j); }
  }

  lemma IntegerChars(s: string)
    requires ParseInteger(s).Some?
    ensures forall j | 0 <= j < |s| :: IsLiteralChar(s[j])
  {
    assert forall j | 0 < j < |s| :: s[j] in Unsigned(s) by {
      assert forall j | 0 < j < |s| :: s[1..][j - 1] == s[j];
    }
  }

  lemma SpaceDoesNotParse(s: string, c: char)
    requires c in Strip(s) && IsSpace(c)
    ensures ParseDecimal(s) == None
  {
    var literal := Without(Strip(s), {'_'});
    WithoutChars(Strip(s), {'_'});
    if literal != [] && ParseUnsigned(Unsigned(literal)).Some? {
      assert literal == [literal[0]] + literal[1..];
      ParsedChars(Unsigned(literal));
    }
  }

  // ---- The border -------------------------------------------------------------------------

  /** The separators a format drops, besides the five blanks. */
  function Separators(format: Option<string>): set<char> {
    if LocalFormat(format) == Some("num-dot-decimal") then {','}
    else if LocalFormat(format) == Some("num-comma-decimal") then {'.'}
    else {}
  }

  predicate IsNumeric(format: Option<string>) {
    LocalFormat(format) in {Some("num-dot-decimal"), Some("num-comma-decimal"), None, Some("")}
  }

  /** A number as a format prints it. */
  function Printed(format: Option<string>, negative: bool, n: nat, places: nat, width: nat): string
    requires places < width
  {
    var plain := Render(negative, n, places, width);
    if LocalFormat(format) == Some("num-comma-decimal") then Swap(plain) else plain
  }

  lemma PlainChars(plain: string, separators: set<char>)
    requires separators <= {','} && forall c | c in plain :: IsDigit(c) || c in {'-', '.'}
    ensures forall c | c in plain :: c !in SPACES + separators
  {
  }

  /** The cleaning common to the formats that print a decimal point. */
  lemma PointGrouping(negative: bool, n: nat, places: nat, width: nat, text: string, separators: set<char>)
    requires places < width && n < Ten(width) && separators <= {','}
    requires Grouping(text, Render(negative, n, places, width), SPACES + separators)
    ensures Strip(text) !in DASHES
    ensures ParseDecimal(Cleaned(text, separators)) ==
      if KnownBlanksOnly(text, separators) then Some(Rendered(negative, n, places)) else None
  {
    hide Stripped, Without, ParseLiteral, Render, Rendered, Grouping, KnownBlanksOnly, Cleaned, DASHES, SPACES;
    var plain := Render(negative, n, places, width);
    RenderShape(negative, n, places, width);
    RenderParses(negative, n, places, width);
    PlainChars(plain, separators);
    CleanedGrouping(text, plain, separators);
    if KnownBlanksOnly(text, separators) {
      PlainIsStripped(plain, separators);
    } else {
      var c :| c in Strip(Cleaned(text, separators)) && IsSpace(c);
      SpaceDoesNotParse(Cleaned(text, separators), c);
    }
  }

  lemma PlainIsStripped(plain: string, separators: set<char>)
    requires forall c | c in plain :: c !in SPACES + separators
    ensures Strip(plain) == plain
  {
    if plain != [] { assert plain[0] in plain && plain[|plain| - 1] in plain; }
    EndsKept(plain, SPACES);
  }

  /**
   * Whatever white space and commas stand in, before or behind the decimal print of a number, the dot
   * format reads the number back if every white space inside the numeral is one of the five blanks,
   * and refuses the text if one is not.
   */
  lemma DotGroupingIsUndoneIff(negative: bool, n: nat, places: nat, width: nat, text: string, format: string)
    requires places < width && n < Ten(width) && LocalFormat(Some(format)) == Some("num-dot-decimal")
    requires Grouping(text, Render(negative, n, places, width), SPACES + {','})
    ensures ApplyTransform(text, Some(format)) ==
      if KnownBlanksOnly(text, {','}) then Number(Rendered(negative, n, places)) else Unparsable
  {
    hide Strip, Without, LocalFormat, ParseDecimal, Render, Rendered, Grouping, KnownBlanksOnly, WS_CHARS, DASHES;
    PointGrouping(negative, n, places, width, text, {','});
  }

  /** Without a format only white space may group the digits, with the same border. */
  lemma BlankGroupingIsUndoneIff(negative: bool, n: nat, places: nat, width: nat, text: string, format: Option<string>)
    requires places < width && n < Ten(width) && LocalFormat(format) in {None, Some("")}
    requires Grouping(text, Render(negative, n, places, width), SPACES)
    ensures ApplyTransform(text, format) ==
      if KnownBlanksOnly(text, {}) then Number(Rendered(negative, n, places)) else Unparsable
  {
    hide Strip, Without, LocalFormat, ParseDecimal, Render, Rendered, Grouping, KnownBlanksOnly, WS_CHARS, DASHES;
    assert SPACES + {} == SPACES;
    PointGrouping(negative, n, places, width, text, {});
    NothingToRemove(Without(Strip(text), WS_CHARS), {});
  }

  lemma {:induction false} SwapOfGrouping(text: string, plain: string, inserted: set<char>, swapped: set<char>)
    requires Grouping(text, plain, inserted) && forall c: char | c in inserted :: SwapChar(c) in swapped
    ensures Grouping(Swap(text), Swap(plain), swapped)
  {
    if text != [] {
      assert Swap(text)[1..] == Swap(text[1..]);
      if text[0] in inserted && Grouping(text[1..], plain, inserted) {
        SwapOfGrouping(text[1..], plain, inserted, swapped);
      } else {
        assert Swap(plain)[1..] == Swap(plain[1..]);
        SwapOfGrouping(text[1..], plain[1..], inserted, swapped);
      }
    }
  }

  lemma {:induction false} SwapKeepsSpaces(s: string)
    ensures forall c | IsSpace(c) :: c in Swap(s) <==> c in s
  {
    if s != [] {
      SwapKeepsSpaces(s[1..]);
      assert forall c :: c in s <==> c == s[0] || c in s[1..];
      assert forall c :: c in Swap(s) <==> c == SwapChar(s[0]) || c in Swap(s[1..]);
    }
  }

  /** The comma format has the same border, for numbers printed with a comma and grouped with dots. */
  lemma CommaGroupingIsUndoneIff(negative: bool, n: nat, places: nat, width: nat, text: string, format: string)
    requires places < width && n < Ten(width) && LocalFormat(Some(format)) == Some("num-comma-decimal")
    requires Grouping(text, Swap(Render(negative, n, places, width)), SPACES + {'.'})
    ensures ApplyTransform(text, Some(format)) ==
      if KnownBlanksOnly(text, {'.'}) then Number(Rendered(negative, n, places)) else Unparsable
  {
    hide Render, Rendered, Grouping, ApplyTransform, Stripped, Swap, WS_CHARS;
    var plain := Render(negative, n, places, width);
    SwapOfGrouping(text, Swap(plain), SPACES + {'.'}, SPACES + {','});
    SwapTwice(plain);
    SwapOfStripped(text, SPACES + {'.'}, SPACES + {','});
    SwapKeepsSpaces(Inner(text, {'.'}));
    var dot := "num-dot-decimal";
    FoundAt(dot, |dot|, {':'});
    CommaFormatMirrorsDotFormat(text, format, dot);
    DotGroupingIsUndoneIff(negative, n, places, width, Swap(text), dot);
  }

  /** All formats at once. */
  lemma GroupingIsUndoneIff(negative: bool, n: nat, places: nat, width: nat, text: string, format: Option<string>)
    requires places < width && n < Ten(width) && IsNumeric(format)
    requires Grouping(text, Printed(format, negative, n, places, width), SPACES + Separators(format))
    ensures ApplyTransform(text, format) ==
      if KnownBlanksOnly(text, Separators(format)) then Number(Rendered(negative, n, places)) else Unparsable
  {
    hide Render, Rendered, Grouping, ApplyTransform, KnownBlanksOnly, Swap;
    if LocalFormat(format) == Some("num-dot-decimal") {
      DotGroupingIsUndoneIff(negative, n, places, width, text, format.value);
    } else if LocalFormat(format) == Some("num-comma-decimal") {
      CommaGroupingIsUndoneIff(negative, n, places, width, text, format.value);
    } else {
      assert SPACES + {} == SPACES;
      BlankGroupingIsUndoneIff(negative, n, places, width, text, format);
    }
  }

  // ---- The failing family -----------------------------------------------------------------

  lemma {:induction false} GroupingOfItself(plain: string, inserted: set<char>)
    ensures Grouping(plain, plain, inserted)
  {
    if plain != [] { GroupingOfItself(plain[1..], inserted); }
  }

  lemma {:induction false} GroupingOfInsertion(plain: string, k: nat, c: char, inserted: set<char>)
    requires k <= |plain| && c in inserted
    ensures Grouping(plain[..k] + [c] + plain[k..], plain, inserted)
  {
    var text := plain[..k] + [c] + plain[k..];
    if k == 0 {
      assert text[1..] == plain;
      GroupingOfItself(plain, inserted);
    } else {
      assert text[1..] == plain[1..][..k - 1] + [c] + plain[1..][k - 1..];
      GroupingOfInsertion(plain[1..], k - 1, c, inserted);
    }
  }

  /** A narrow, thin or any other white space between two characters of a printed number is refused. */
  lemma OtherSpaceIsRefused(negative: bool, n: nat, places: nat, width: nat, k: nat, c: char, format: string)
    requires places < width && n < Ten(width) && LocalFormat(Some(format)) == Some("num-dot-decimal")
    requires IsSpace(c) && c !in WS_CHARS && 0 < k < |Render(negative, n, places, width)|
    ensures var plain := Render(negative, n, places, width);
      ApplyTransform(plain[..k] + [c] + plain[k..], Some(format)) == Unparsable
  {
    hide Render, Rendered, ApplyTransform, Grouping, WS_CHARS;
    var plain := Render(negative, n, places, width);
    var text, all := plain[..k] + [c] + plain[k..], SPACES + {','};
    KnownBlanks();
    RenderShape(negative, n, places, width);
    PlainChars(plain, {','});
    GroupingOfInsertion(plain, k, c, all);
    assert text[0] == plain[0] && text[|text| - 1] == plain[|plain| - 1] && text[k] == c;
    EndsKept(text, all);
    DotGroupingIsUndoneIff(negative, n, places, width, text, format);
  }

  // ---- What is no number ------------------------------------------------------------------

  /** A format is known by what stands behind its first colon. */
  lemma FormatName(prefix: string, name: string)
    requires ':' !in prefix
    ensures LocalFormat(Some(prefix + ":" + name)) == Some(name) && LocalFormat(Some(prefix)) == Some(prefix)
  {
    FoundAt(prefix + ":" + name, |prefix|, {':'});
    FoundAt(prefix, |prefix|, {':'});
  }

  /** Nothing but white space around at most one hyphen, en dash or em dash. */
  ghost predicate OnlyADash(text: string) {
    exists before, dash, after :: DashBetween(text, before, dash, after)
  }

  ghost predicate DashBetween(text: string, before: string, dash: string, after: string) {
    && text == before + dash + after && Among(before, SPACES) && Among(after, SPACES)
    && (dash == "" || dash == "-" || dash == "\U{2013}" || dash == "\U{2014}")
  }

  lemma {:induction false} AllStripped(s: string, chars: set<char>)
    requires Among(s, chars)
    ensures Stripped(s, chars) == []
  {
    if s != [] { AllStripped(s[1..], chars); }
  }

  lemma StripLeavesADashIff(text: string)
    ensures Strip(text) in DASHES <==> OnlyADash(text)
  {
    hide Stripped, SPACES;
    if OnlyADash(text) {
      var before, dash, after :| DashBetween(text, before, dash, after);
      if dash == "" {
        AllStripped(text, SPACES);
      } else {
        DashIsNoSpace(dash[0]);
        var pre, post := StripsOutside(before, dash, after, SPACES, SPACES);
        assert [] + dash + [] == dash;
      }
    }
    if Strip(text) in DASHES {
      var before, after := StrippedParts(text, SPACES);
      assert DashBetween(text, before, Strip(text), after);
    }
  }

  lemma DashIsNoSpace(c: char)
    requires c in {'-', '\U{2013}', '\U{2014}'}
    ensures c !in SPACES
  {
  }

  /**
   * The formats for a printed zero read any text as 0. Under every other one a text of at most one dash is an
   * empty value, and any other text is refused unread exactly when the format is not numeric.
   */
  lemma NoNumberIff(text: string, format: Option<string>)
    ensures var zero := LocalFormat(format) in {Some("fixed-zero"), Some("zerodash")};
      && (zero ==> ApplyTransform(text, format) == Number(0.0))
      && (ApplyTransform(text, format) == EmptyValue <==> !zero && OnlyADash(text))
      && (ApplyTransform(text, format) == Unrecognized <==> !zero && !OnlyADash(text) && !IsNumeric(format))
  {
    hide Strip, Without, LocalFormat, ParseDecimal, WS_CHARS, DASHES, OnlyADash;
    StripLeavesADashIff(text);
  }
}
