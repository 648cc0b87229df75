/**
 * Reading a number out of a fact's text with one of the number transformations of section 10 of
 * Inline XBRL 1.1 that the reader supports.
 */
module IxbrlNumbers {
  import opened Options
  import opened PowersOfTen
  import opened Texts

  const WS_CHARS: set<char> := {' ', '\t', '\r', '\n', '\U{A0}'}
  const DASHES: set<string> := {"", "-", "\U{2013}", "\U{2014}"}

  predicate IsSpace(c: char) {
    || '\t' <= c <= '\r' || '\U{1C}' <= c <= ' ' || c in {'\U{85}', '\U{A0}', '\U{1680}'}
    || '\U{2000}' <= c <= '\U{200A}' || c in {'\U{2028}', '\U{2029}', '\U{202F}', '\U{205F}', '\U{3000}'}
  }

  /** Python counts the four separator controls as white space besides Unicode's own. */
  lemma SpacesOfPython(c: char)
    ensures IsSpace(c) <==> IsWhitespace(c) || '\U{1C}' <= c <= '\U{1F}'
  {
  }

  const SPACES: set<char> := set c: char | IsSpace(c)

  function Stripped(s: string, chars: set<char>): string {
    if s != [] && s[0] in chars then Stripped(s[1..], chars)
    else if s != [] && s[|s| - 1] in chars then Stripped(s[..|s| - 1], chars)
    else s
  }

  /** `str.strip()`. */
  function Strip(s: string): string { Stripped(s, SPACES) }

  function Without(s: string, chars: set<char>): string {
    if s == [] then [] else if s[0] in chars then Without(s[1..], chars) else [s[0]] + Without(s[1..], chars)
  }

  function Replaced(s: string, from: char, to: char): string {
    if s == [] then [] else [if s[0] == from then to else s[0]] + Replaced(s[1..], from, to)
  }

  // ---- Decimal literals -------------------------------------------------------------------

  predicate AllDigits(s: string) { forall c | c in s :: IsDigit(c) }

  /** The first position of one of `chars`, or the length. */
  function Find(s: string, chars: set<char>): (i: nat)
    ensures i <= |s| && (i < |s| ==> s[i] in chars) && forall j | 0 <= j < i :: s[j] !in chars
  {
    if s == [] || s[0] in chars then 0 else 1 + Find(s[1..], chars)
  }

  function Unsigned(s: string): string { if s != [] && s[0] in {'-', '+'} then s[1..] else s }

  function SignOf(s: string): int { if s != [] && s[0] == '-' then -1 else 1 }

  /** A signed run of ASCII digits. */
  function ParseInteger(s: string): Option<int> {
    var digits := Unsigned(s);
    if digits == [] || !AllDigits(digits) then None else Some(SignOf(s) * Value(digits))
  }

  /** The value of a literal's digits before and behind its point, and its exponent. */
  function ParsePieces(whole: string, fraction: string, exponent: Option<int>): Option<real> {
    if whole + fraction == [] || !AllDigits(whole + fraction) || exponent.None? then None
    else Some(Value(whole + fraction) as real * Pow10(exponent.value - |fraction|))
  }

  /** Digits with at most one point, then an optional exponent. */
  function ParseUnsigned(body: string): Option<real> {
    var e := Find(body, {'e', 'E'});
    var p := Find(body[..e], {'.'});
    var exponent := if e == |body| then Some(0) else ParseInteger(body[e + 1..]);
    ParsePieces(body[..p], if p < e then body[p + 1..e] else [], exponent)
  }

  /** `Decimal(s)` for finite ASCII literals; white space around them is ignored. */
  function ParseDecimal(s: string): Option<real> { ParseLiteral(Without(Strip(s), {'_'})) }

  function ParseLiteral(literal: string): Option<real> {
    match if literal == [] then None else ParseUnsigned(Unsigned(literal))
    case None => None
    case Some(value) => Some(if literal[0] == '-' then -value else value)
  }

  // ---- The transformation -----------------------------------------------------------------

  datatype Reading = Number(value: real) | EmptyValue | Unrecognized | Unparsable

  /** The format name behind its namespace prefix. */
  function LocalFormat(format: Option<string>): Option<string> {
    match format
    case None => None
    case Some(name) =>
      var colon := Find(name, {':'});
      if colon < |name| then Some(name[colon + 1..]) else Some(name)
  }

  function ParseCleaned(cleaned: string): Reading {
    match ParseDecimal(cleaned)
    case Some(value) => Number(value)
    case None => Unparsable
  }

  /** `apply_transform`. */
  function ApplyTransform(rawText: string, format: Option<string>): Reading {
    var local := LocalFormat(format);
    if local in {Some("fixed-zero"), Some("zerodash")} then Number(0.0)
    else
      var text := Strip(rawText);
      if text in DASHES then EmptyValue
      else
        var cleaned := Without(text, WS_CHARS);
        if local == Some("num-dot-decimal") then ParseCleaned(Without(cleaned, {','}))
        else if local == Some("num-comma-decimal") then ParseCleaned(Replaced(Without(cleaned, {'.'}), ',', '.'))
        else if local in {None, Some("")} then ParseCleaned(cleaned)
        else Unrecognized
  }

  // ---- Printing a number, and grouping its digits -----------------------------------------

  /** The `width` last decimal digits of `n`. */
  function Padded(n: nat, width: nat): (s: string)
    ensures |s| == width && AllDigits(s)
  {
    if width == 0 then [] else Padded(n / 10, width - 1) + ['0' + (n % 10) as char]
  }

  /** ±n / 10^places with a decimal point and `width` digits in all. */
  function Render(negative: bool, n: nat, places: nat, width: nat): string
    requires places < width
  {
    var digits := Padded(n, width);
    (if negative then "-" else "") + digits[..width - places] + if places == 0
      then "" else "." + digits[width - places..]
  }

  function SwapChar(c: char): char { if c == ',' then '.' else if c == '.' then ',' else c }

  function Swap(s: string): string { if s == [] then [] else [SwapChar(s[0])] + Swap(s[1..]) }

  // ---- Removing characters ----------------------------------------------------------------

  lemma {:induction false} WithoutOfConcat(s: string, t: string, chars: set<char>)
    ensures Without(s + t, chars) == Without(s, chars) + Without(t, chars)
  {
    if s == [] {
      assert s + t == t;
    } else {
      assert (s + t)[1..] == s[1..] + t;
      WithoutOfConcat(s[1..], t, chars);
    }
  }

  lemma {:induction false} WithoutTwice(s: string, a: set<char>, b: set<char>)
    ensures Without(Without(s, a), b) == Without(s, a + b)
  {
    if s != [] {
      WithoutTwice(s[1..], a, b);
      var rest := Without(s[1..], a);
      if s[0] in a {
        assert Without(s, a) == rest;
      } else {
        assert Without(s, a) == [s[0]] + rest && ([s[0]] + rest)[1..] == rest;
      }
    }
  }

  // ---- What a printed number parses to ----------------------------------------------------

  lemma {:induction false} PaddedValue(n: nat, width: nat)
    requires n < Ten(width)
    ensures Value(Padded(n, width)) == n
  {
    if width > 0 {
      PaddedValue(n / 10, width - 1);
      var s, last := Padded(n, width), '0' + (n % 10) as char;
      assert s[..|s| - 1] == Padded(n / 10, width - 1) && s[|s| - 1] == last;
      assert DigitValue(last) == n % 10;
    }
  }

  lemma {:induction false} NothingToRemove(s: string, chars: set<char>)
    requires forall c | c in s :: c !in chars
    ensures Without(s, chars) == s
  {
    if s != [] { NothingToRemove(s[1..], chars); }
  }

  lemma {:induction false} FoundAt(s: string, i: nat, chars: set<char>)
    requires i <= |s| && (i < |s| ==> s[i] in chars) && forall j | 0 <= j < i :: s[j] !in chars
    ensures Find(s, chars) == i
  {
    if i > 0 { FoundAt(s[1..], i - 1, chars); }
  }

  lemma RenderShape(negative: bool, n: nat, places: nat, width: nat)
    requires places < width
    ensures var r := Render(negative, n, places, width);
      && |r| > 0 && IsDigit(r[|r| - 1])
      && forall c | c in r :: IsDigit(c) || c in {'-', '.'}
  {
    var digits := Padded(n, width);
    assert forall c | c in digits[..width - places] :: c in digits;
    assert forall c | c in digits[width - places..] :: c in digits;
    var r := Render(negative, n, places, width);
    if places == 0 { assert r[|r| - 1] == digits[width - 1]; } else { assert r[|r| - 1] == digits[width - 1]; }
  }

  function Rendered(negative: bool, n: nat, places: nat): real {
    var magnitude := n as real * Pow10(0 - places);
    if negative then -magnitude else magnitude
  }

  function Numeral(whole: string, fraction: string): string {
    whole + if fraction == [] then "" else "." + fraction
  }

  lemma NumeralChars(whole: string, fraction: string, j: nat)
    requires AllDigits(whole + fraction) && j < |Numeral(whole, fraction)|
    ensures var c := Numeral(whole, fraction)[j]; (IsDigit(c) || c == '.') && (j < |whole| ==> IsDigit(c))
  {
    if j < |whole| {
      assert (whole + fraction)[j] in whole + fraction;
    } else if j > |whole| {
      assert Numeral(whole, fraction)[j] == (whole + fraction)[j - 1];
      assert (whole + fraction)[j - 1] in whole + fraction;
    }
  }

  lemma NumeralParts(whole: string, fraction: string)
    requires AllDigits(whole + fraction)
    ensures Find(Numeral(whole, fraction), {'e', 'E'}) == |Numeral(whole, fraction)|
    ensures Find(Numeral(whole, fraction), {'.'}) == |whole|
  {
    hide Find;
    var body := Numeral(whole, fraction);
    forall j | 0 <= j < |body| ensures body[j] !in {'e', 'E'} && (j < |whole| ==> body[j] !in {'.'}) {
      NumeralChars(whole, fraction, j);
    }
    FoundAt(body, |body|, {'e', 'E'});
    FoundAt(body, |whole|, {'.'});
  }

  lemma UnsignedParses(whole: string, fraction: string)
    requires AllDigits(whole + fraction)
    ensures ParseUnsigned(Numeral(whole, fraction)) == ParsePieces(whole, fraction, Some(0))
  {
    hide ParsePieces, ParseInteger, AllDigits, Find;
    NumeralParts(whole, fraction);
    var body := Numeral(whole, fraction);
    assert body[..|body|] == body;
    assert body[..|whole|] == whole;
    assert (if |whole| < |body| then body[|whole| + 1..|body|] else []) == fraction;
  }

  lemma EndsKept(s: string, chars: set<char>)
    requires s != [] ==> s[0] !in chars && s[|s| - 1] !in chars
    ensures Stripped(s, chars) == s
  {
  }

  /** A numeral is read as it stands: nothing in it is stripped or ignored. */
  lemma NumeralIsLiteral(negative: bool, whole: string, fraction: string)
    requires whole != [] && AllDigits(whole + fraction)
    ensures var r := (if negative then "-" else "") + Numeral(whole, fraction);
      ParseDecimal(r) == ParseLiteral(r) && Unsigned(r) == Numeral(whole, fraction)
  {
    hide ParseLiteral, AllDigits, Without, Stripped, SPACES;
    var body := Numeral(whole, fraction);
    var r := (if negative then "-" else "") + body;
    forall j | 0 <= j < |body| ensures body[j] != '_' && body[j] !in SPACES {
      NumeralChars(whole, fraction, j);
      NumeralCharIsNoSpace(body[j]);
    }
    NumeralChars(whole, fraction, 0);
    NumeralCharIsNoSpace('-');
    EndsKept(r, SPACES);
    NothingToRemove(r, {'_'});
  }

  lemma NumeralCharIsNoSpace(c: char)
    requires IsDigit(c) || c in {'-', '.'}
    ensures c !in SPACES
  {
  }

  lemma SignedParses(negative: bool, whole: string, fraction: string)
    requires whole != [] && AllDigits(whole + fraction)
    ensures var magnitude := Value(whole + fraction) as real * Pow10(0 - |fraction|);
      ParseDecimal((if negative then "-" else "") + Numeral(whole, fraction))
      == Some(if negative then -magnitude else magnitude)
  {
    hide ParseUnsigned, ParseDecimal, Pow10, Value, Unsigned;
    UnsignedParses(whole, fraction);
    NumeralIsLiteral(negative, whole, fraction);
    NumeralChars(whole, fraction, 0);
  }

  /** A printed number parses to its value. */
  lemma RenderParses(negative: bool, n: nat, places: nat, width: nat)
    requires places < width && n < Ten(width)
    ensures ParseDecimal(Render(negative, n, places, width)) == Some(Rendered(negative, n, places))
  {
    hide *;
    var whole, fraction := RenderIsNumeral(negative, n, places, width);
    SignedParses(negative, whole, fraction);
    RenderedIs(negative, n, places);
  }

  /** The print is a numeral whose digits, the point taken out, are those of `n`. */
  lemma RenderIsNumeral(negative: bool, n: nat, places: nat, width: nat) returns (whole: string, fraction: string)
    requires places < width && n < Ten(width)
    ensures Render(negative, n, places, width) == (if negative then "-" else "") + Numeral(whole, fraction)
    ensures whole != [] && |fraction| == places && AllDigits(whole + fraction) && Value(whole + fraction) == n
  {
    hide Value, Padded, AllDigits;
    var digits := Padded(n, width);
    whole, fraction := digits[..width - places], digits[width - places..];
    assert whole + fraction == digits;
    PaddedValue(n, width);
  }

  lemma RenderedIs(negative: bool, n: nat, places: nat)
    ensures Rendered(negative, n, places) ==
      if negative then -(n as real * Pow10(0 - places)) else n as real * Pow10(0 - places)
  {
  }

  // ---- Which literals are numbers ---------------------------------------------------------

  /**
   * A literal in its pieces: a sign or none, digits with at most one point before, among or behind
   * them, and perhaps an exponent, which is signed or not.
   */
  ghost predicate IsLiteral(s: string, sign: string, whole: string, point: bool, fraction: string, tail: string,
    exponent: int)
  {
    && s == sign + (whole + (if point then "." + fraction else "") + tail)
    && (sign == "" || sign == "-" || sign == "+") && whole + fraction != [] && AllDigits(whole + fraction)
    && (point || fraction == [])
    && (if tail == [] then exponent == 0
        else (tail[0] == 'e' || tail[0] == 'E') && IsSignedRun(tail[1..], exponent))
  }

  ghost predicate IsSignedRun(s: string, n: int) {
    || (s != [] && AllDigits(s) && n == Value(s))
    || (s != [] && s[0] == '+' && s[1..] != [] && AllDigits(s[1..]) && n == Value(s[1..]))
    || (s != [] && s[0] == '-' && s[1..] != [] && AllDigits(s[1..]) && n == 0 - Value(s[1..]))
  }

  lemma IntegerIff(s: string, n: int)
    ensures ParseInteger(s) == Some(n) <==> IsSignedRun(s, n)
  {
    hide Value;
    if s != [] { assert s[0] in s; }
  }

  lemma PiecesFound(whole: string, point: bool, fraction: string, tail: string)
    requires AllDigits(whole + fraction) && (point || fraction == []) && (tail != [] ==> tail[0] in {'e', 'E'})
    ensures var body := whole + (if point then "." + fraction else "") + tail;
      var e, mantissa := |body| - |tail|, whole + if point then "." + fraction else "";
      && Find(body, {'e', 'E'}) == e && body[..e] == mantissa
      && Find(mantissa, {'.'}) == |whole| && (point <==> |whole| < e)
      && mantissa[..|whole|] == whole && (point ==> body[|whole| + 1..e] == fraction)
      && (tail != [] ==> body[e + 1..] == tail[1..])
  {
    hide Find;
    var mantissa := whole + if point then "." + fraction else "";
    var body, e := mantissa + tail, |mantissa|;
    assert body == whole + (if point then "." + fraction else "") + tail;
    forall j | 0 <= j < e ensures body[j] !in {'e', 'E'} && (j < |whole| ==> mantissa[j] !in {'.'}) {
      if j < |whole| { assert body[j] == (whole + fraction)[j] && body[j] in whole + fraction; }
      else if j > |whole| { assert body[j] == (whole + fraction)[j - 1] && body[j] in whole + fraction; }
    }
    FoundAt(body, e, {'e', 'E'});
    FoundAt(mantissa, |whole|, {'.'});
  }

  lemma LiteralParses(s: string, sign: string, whole: string, point: bool, fraction: string, tail: string,
    exponent: int)
    requires IsLiteral(s, sign, whole, point, fraction, tail, exponent)
    ensures var magnitude := Value(whole + fraction) as real * Pow10(exponent - |fraction|);
      ParseLiteral(s) == Some(if sign == "-" then -magnitude else magnitude)
  {
    hide Value, Pow10, ParseInteger, Find, AllDigits, ParseUnsigned;
    var body := whole + (if point then "." + fraction else "") + tail;
    if tail != [] { IntegerIff(tail[1..], exponent); }
    BodyStarts(whole, point, fraction, tail);
    assert body == whole + ((if point then "." + fraction else "") + tail);
    assert s == sign + body;
    assert s[0] == (if sign == [] then body[0] else sign[0]) && (sign != [] ==> s[1..] == body);
    assert Unsigned(s) == body;
    UnsignedIsPieces(whole, point, fraction, tail, exponent);
  }

  lemma UnsignedIsPieces(whole: string, point: bool, fraction: string, tail: string, exponent: int)
    requires AllDigits(whole + fraction) && (point || fraction == [])
    requires if tail == [] then exponent == 0 else tail[0] in {'e', 'E'} && ParseInteger(tail[1..]) == Some(exponent)
    ensures ParseUnsigned(whole + (if point then "." + fraction else "") + tail)
      == ParsePieces(whole, fraction, Some(exponent))
  {
    hide ParsePieces, ParseInteger, Find, AllDigits;
    PiecesFound(whole, point, fraction, tail);
    var body := whole + (if point then "." + fraction else "") + tail;
    var e := |body| - |tail|;
    assert body[..e][..|whole|] == body[..|whole|];
  }

  lemma BodyStarts(whole: string, point: bool, fraction: string, tail: string)
    requires whole + fraction != [] && AllDigits(whole + fraction) && (point || fraction == [])
    ensures var body := whole + (if point then "." + fraction else "") + tail;
      body != [] && body[0] !in {'-', '+'}
  {
    assert (whole + fraction)[0] in whole + fraction;
    if whole != [] { assert (whole + fraction)[0] == whole[0]; }
  }

  /** And nothing else is a number: whatever parses is a literal in such pieces. */
  lemma ParsedIsLiteral(s: string) returns (sign: string, whole: string, point: bool, fraction: string, tail: string,
    exponent: int)
    requires ParseLiteral(s).Some?
    ensures IsLiteral(s, sign, whole, point, fraction, tail, exponent)
  {
    hide ParseUnsigned, IsSignedRun, AllDigits;
    var body := Unsigned(s);
    sign := s[..|s| - |body|];
    whole, point, fraction, tail, exponent := ParsedBody(body);
    assert s == sign + body;
  }

  lemma ParsedBody(body: string) returns (whole: string, point: bool, fraction: string, tail: string, exponent: int)
    requires ParseUnsigned(body).Some?
    ensures body == whole + (if point then "." + fraction else "") + tail
    ensures whole + fraction != [] && AllDigits(whole + fraction) && (point || fraction == [])
    ensures if tail == [] then exponent == 0
      else (tail[0] == 'e' || tail[0] == 'E') && IsSignedRun(tail[1..], exponent)
  {
    hide Value, Pow10, ParseInteger, AllDigits, IsSignedRun;
    var e := Find(body, {'e', 'E'});
    var p := Find(body[..e], {'.'});
    whole, point, fraction, tail := body[..p], p < e, if p < e then body[p + 1..e] else [], body[e..];
    exponent := if e == |body| then 0 else ParseInteger(body[e + 1..]).value;
    if e < |body| {
      IntegerIff(body[e + 1..], exponent);
      assert tail[1..] == body[e + 1..];
    }
    Reassembled(body, p, e);
  }

  lemma Reassembled(body: string, p: nat, e: nat)
    requires p <= e <= |body| && (p < e ==> body[p] == '.')
    ensures body == body[..p] + (if p < e then "." + body[p + 1..e] else "") + body[e..]
  {
  }

  // ---- The two decimal formats are mirror images ------------------------------------------

  lemma {:induction false} SwapTwice(s: string)
    ensures Swap(Swap(s)) == s && |Swap(s)| == |s|
  {
    if s != [] { SwapTwice(s[1..]); }
  }

  lemma {:induction false} SwapOfConcat(s: string, t: string)
    ensures Swap(s + t) == Swap(s) + Swap(t)
  {
    if s == [] {
      assert s + t == t;
    } else {
      assert (s + t)[1..] == s[1..] + t;
      SwapOfConcat(s[1..], t);
    }
  }

  lemma {:induction false} SwapOfStripped(s: string, chars: set<char>, swapped: set<char>)
    requires forall c: char :: c in chars <==> SwapChar(c) in swapped
    ensures Stripped(Swap(s), swapped) == Swap(Stripped(s, chars))
    decreases |s|
  {
    SwapTwice(s);
    if s != [] {
      if s[0] in chars {
        SwapOfStripped(s[1..], chars, swapped);
        assert Swap(s)[1..] == Swap(s[1..]);
      } else {
        var init, last := s[..|s| - 1], s[|s| - 1];
        assert s == init + [last];
        SwapOfConcat(init, [last]);
        SwapTwice(init);
        assert Swap(s)[..|s| - 1] == Swap(init) && Swap(s)[|s| - 1] == SwapChar(last);
        if last in chars { SwapOfStripped(init, chars, swapped); }
      }
    }
  }

  /** Cleaning with the comma format is cleaning the mirrored text with the dot format. */
  lemma {:induction false} SwapOfCleaning(s: string)
    ensures Replaced(Without(s, WS_CHARS + {'.'}), ',', '.') == Without(Swap(s), WS_CHARS + {','})
  {
    if s != [] {
      SwapOfCleaning(s[1..]);
      assert Swap(s)[1..] == Swap(s[1..]);
      var rest := Without(s[1..], WS_CHARS + {'.'});
      if s[0] in WS_CHARS + {'.'} {
        assert Swap(s)[0] in WS_CHARS + {','};
      } else {
        assert Without(s, WS_CHARS + {'.'}) == [s[0]] + rest && ([s[0]] + rest)[1..] == rest;
        assert Swap(s)[0] !in WS_CHARS + {','};
      }
    }
  }

  lemma SwapOfDashes(s: string)
    ensures Swap(s) in DASHES <==> s in DASHES
  {
    SwapTwice(s);
    if |s| == 1 { assert s == [s[0]] && Swap(s) == [Swap(s)[0]]; }
  }

  /** For any text at all: the comma format reads it as the dot format reads its mirror image. */
  lemma CommaFormatMirrorsDotFormat(text: string, comma: string, dot: string)
    requires LocalFormat(Some(comma)) == Some("num-comma-decimal") && LocalFormat(Some(dot)) == Some("num-dot-decimal")
    ensures ApplyTransform(text, Some(comma)) == ApplyTransform(Swap(text), Some(dot))
  {
    hide Stripped, Without, LocalFormat, ParseDecimal, Swap, Replaced, WS_CHARS, DASHES;
    SwapOfStripped(text, SPACES, SPACES);
    SwapOfCleaning(Strip(text));
    SwapOfDashes(Strip(text));
    WithoutTwice(Strip(text), WS_CHARS, {'.'});
    WithoutTwice(Swap(Strip(text)), WS_CHARS, {','});
  }
}
