/** Character classes and the per-character lower-casing used by the order parser. */
module Chars {

  /** An ASCII decimal digit, the class `\d` of a JavaScript regular expression. */
  predicate IsDigit(c: char) {
    '0' <= c <= '9'
  }

  /** The class `[а-яa-z]` under the regular expression's `i` flag: basic Latin and
      basic Cyrillic letters of either case (`ё`/`Ё` are outside `а-я`). */
  predicate IsLetter(c: char) {
    'a' <= c <= 'z' || 'A' <= c <= 'Z' || 'а' <= c <= 'я' || 'А' <= c <= 'Я'
  }

  /** JavaScript white space and line terminators: what `\s` matches and what `trim`
      removes. */
  predicate IsSpace(c: char) {
    c == '\t' || c == '\n' || c == '\U{000B}' || c == '\U{000C}' || c == '\r' || c == ' '
    || c == '\U{00A0}' || c == '\U{1680}' || ('\U{2000}' <= c <= '\U{200A}')
    || c == '\U{2028}' || c == '\U{2029}' || c == '\U{202F}' || c == '\U{205F}'
    || c == '\U{3000}' || c == '\U{FEFF}'
  }

  /** Upper-case letters that `Lower` changes. */
  predicate IsUpper(c: char) {
    'A' <= c <= 'Z' || 'А' <= c <= 'Я' || '\U{0400}' <= c <= '\U{040F}'
  }

  /** `toLowerCase` on one character, for the Latin and Cyrillic upper-case letters;
      every other character is left as it is. */
  function Lower(c: char): (l: char)
    ensures !IsUpper(c) ==> l == c
    ensures !IsUpper(l)
    ensures IsDigit(l) <==> IsDigit(c)
    ensures IsSpace(l) <==> IsSpace(c)
    ensures IsLetter(l) <==> IsLetter(c)
  {
    if 'A' <= c <= 'Z' || 'А' <= c <= 'Я' then (c as int + 32) as char
    else if '\U{0400}' <= c <= '\U{040F}' then (c as int + 80) as char
    else c
  }

  /** `toLowerCase` on a whole string, character by character. */
  function LowerStr(s: string): string {
    seq(|s|, i requires 0 <= i < |s| => Lower(s[i]))
  }

  lemma {:induction false} LowerStrAppend(a: string, b: string)
    ensures LowerStr(a + b) == LowerStr(a) + LowerStr(b)
  {
    assert forall i :: 0 <= i < |a + b| ==> LowerStr(a + b)[i] == (LowerStr(a) + LowerStr(b))[i];
  }

  lemma {:induction false} LowerStrPrefix(s: string, n: nat)
    requires n <= |s|
    ensures LowerStr(s)[..n] == LowerStr(s[..n])
  {}
}
