/** Characters and strings as `str` sees them: digits, white space, trimming. */
module Texts {
  predicate IsDigit(c: char) { '0' <= c <= '9' }

  predicate IsWhitespace(c: char) {
    var n := c as int;
    9 <= n <= 13 || n == 0x20 || n == 0x85 || n == 0xA0 || n == 0x1680 || 0x2000 <= n <= 0x200A
    || n in {0x2028, 0x2029, 0x202F, 0x205F, 0x3000}
  }

  function Digit(n: nat): (c: char)
    requires n < 10
    ensures IsDigit(c) && c as int == n + 48
  {
    (n + 48) as char
  }

  function DigitValue(c: char): (n: nat)
    requires IsDigit(c)
    ensures n < 10
  {
    c as int - 48
  }

  /** The number a string of digits stands for. */
  function Value(s: string): nat
    requires forall c | c in s :: IsDigit(c)
  {
    if s == [] then 0 else 10 * Value(s[..|s| - 1]) + DigitValue(s[|s| - 1])
  }

  // ---- Trimming ---------------------------------------------------------------------------

  function TrimStart(s: string): string { if s != [] && IsWhitespace(s[0]) then TrimStart(s[1..]) else s }

  function TrimEnd(s: string): string { if s != [] && IsWhitespace(s[|s| - 1]) then TrimEnd(s[..|s| - 1]) else s }

  function Trim(s: string): string { TrimEnd(TrimStart(s)) }

  predicate IsBlank(s: string) { forall c | c in s :: IsWhitespace(c) }

  lemma {:induction false} TrimStartRemovesBlanks(before: string, word: string)
    requires IsBlank(before) && word != [] && !IsWhitespace(word[0])
    ensures TrimStart(before + word) == word
  {
    if before == [] {
      assert before + word == word;
    } else {
      assert (before + word)[0] == before[0] && before[0] in before;
      assert (before + word)[1..] == before[1..] + word;
      TrimStartRemovesBlanks(before[1..], word);
    }
  }

  lemma {:induction false} TrimEndRemovesBlanks(word: string, after: string)
    requires IsBlank(after) && word != [] && !IsWhitespace(word[|word| - 1])
    ensures TrimEnd(word + after) == word
  {
    if after == [] {
      assert word + after == word;
    } else {
      var s := word + after;
      assert s[|s| - 1] == after[|after| - 1] && after[|after| - 1] in after;
      assert s[..|s| - 1] == word + after[..|after| - 1];
      TrimEndRemovesBlanks(word, after[..|after| - 1]);
    }
  }
}
