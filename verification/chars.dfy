/**
 * Character classes used by the tokenizers and the index-line parser.
 * The model works on the ASCII range: Python's `str.isalnum`, `str.lower`
 * and `str.split()` whitespace, Java's `\w`, `toLowerCase` and `trim`.
 */
module Chars {

  predicate IsUpper(c: char) { 'A' <= c <= 'Z' }

  predicate IsDigit(c: char) { '0' <= c <= '9' }

  /** Python `str.isalnum` restricted to ASCII letters and digits. */
  predicate IsAlnum(c: char) { 'a' <= c <= 'z' || IsUpper(c) || IsDigit(c) }

  /** Java's `\w` (without UNICODE_CHARACTER_CLASS): letters, digits and `_`. */
  predicate IsWordChar(c: char) { IsAlnum(c) || c == '_' }

  /** Java's `\W`: the complement of `\w`. */
  predicate IsNonWordChar(c: char) { !IsWordChar(c) }

  /** The ASCII characters Python's `str.split()` treats as whitespace. */
  predicate IsSpace(c: char) {
    c as int == 32 || 9 <= c as int <= 13 || 28 <= c as int <= 31
  }

  /** The characters Java's `String.trim` removes from both ends. */
  predicate IsTrimmed(c: char) { c as int <= 32 }

  function Lower(c: char): char {
    if IsUpper(c) then (c as int + 32) as char else c
  }

  /** Python `str.lower` / Java `String.toLowerCase` on ASCII text. */
  function LowerStr(s: string): string {
    seq(|s|, i requires 0 <= i < |s| => Lower(s[i]))
  }

  lemma {:induction false} LowerStrIdempotent(s: string)
    ensures LowerStr(LowerStr(s)) == LowerStr(s)
  {
    var l := LowerStr(s);
    forall i | 0 <= i < |s| ensures LowerStr(l)[i] == l[i] {
      assert l[i] == Lower(s[i]);
    }
  }

  /** Lowercasing keeps a character's class: alphanumeric, word character or whitespace. */
  lemma LowerKeepsClass(c: char)
    ensures IsAlnum(Lower(c)) == IsAlnum(c)
    ensures IsWordChar(Lower(c)) == IsWordChar(c)
    ensures IsSpace(Lower(c)) == IsSpace(c)
    ensures !IsUpper(Lower(c))
  {
  }
}
