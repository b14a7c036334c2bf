/**
 * The two tokenizers of the system: the Python one (`normalize_text`,
 * Spark's `tokenize`: lowercase, blank out every non-alphanumeric character,
 * split on whitespace) and the Java mappers' one (lowercase, split on `\W+`).
 */
module Tokenizer {
  import opened Chars
  import opened Strings

  /** `ch if ch.isalnum() else " "` */
  function CleanChar(c: char): char {
    if IsAlnum(c) then c else ' '
  }

  function Clean(s: string): string {
    seq(|s|, i requires 0 <= i < |s| => CleanChar(s[i]))
  }

  /** The token list `normalize_text` and `tokenize` compute for `text`. */
  function Normalized(text: string): seq<string> {
    Split(Clean(LowerStr(text)), IsSpace)
  }

  /** The alphanumeric characters of `s`, in order. */
  function Alnums(s: string): string {
    if s == [] then [] else (if IsAlnum(s[0]) then [s[0]] else []) + Alnums(s[1..])
  }

  lemma {:induction false} KeepClean(s: string)
    ensures Keep(Clean(s), IsSpace) == Alnums(s)
  {
    if s != [] {
      assert Clean(s)[1..] == Clean(s[1..]);
      KeepClean(s[1..]);
    }
  }

  /**
   * Every token is non-empty, lowercase and alphanumeric, and the tokens,
   * concatenated, are the alphanumeric characters of the lowercased text in
   * their original order.
   */
  lemma NormalizedShape(text: string)
    ensures forall i :: 0 <= i < |Normalized(text)| ==>
              |Normalized(text)[i]| > 0 &&
              forall j :: 0 <= j < |Normalized(text)[i]| ==>
                IsAlnum(Normalized(text)[i][j]) && !IsUpper(Normalized(text)[i][j])
    ensures Flatten(Normalized(text)) == Alnums(LowerStr(text))
  {
    var l := LowerStr(text);
    var c := Clean(l);
    SplitShape(c, IsSpace);
    SplitChars(c, IsSpace);
    KeepClean(l);
    var ts := Normalized(text);
    forall i, j | 0 <= i < |ts| && 0 <= j < |ts[i]|
      ensures IsAlnum(ts[i][j]) && !IsUpper(ts[i][j])
    {
      assert IsWord(ts[i], IsSpace);
      assert !IsSpace(ts[i][j]);
      var k :| 0 <= k < |c| && c[k] == ts[i][j];
      LowerKeepsClass(text[k]);
    }
  }

  /** Text without a single alphanumeric character normalises to no tokens. */
  lemma NormalizedNoAlnum(text: string)
    requires forall i :: 0 <= i < |text| ==> !IsAlnum(text[i])
    ensures Normalized(text) == []
  {
    var c := Clean(LowerStr(text));
    forall i | 0 <= i < |c| ensures IsSpace(c[i]) {
      LowerKeepsClass(text[i]);
    }
    SplitAllSeparators(c, IsSpace);
  }

  // ---------------------------------------------------------------------
  // Java

  /**
   * Java's `s.split("\\W+")`: the pieces between maximal runs of non-word
   * characters, keeping a leading empty piece and dropping trailing empty
   * ones; a string without any non-word character comes back whole.
   */
  function JavaSplit(s: string): seq<string> {
    if forall i | 0 <= i < |s| :: IsWordChar(s[i]) then [s]
    else if Split(s, IsNonWordChar) == [] then []
    else (if IsNonWordChar(s[0]) then [""] else []) + Split(s, IsNonWordChar)
  }

  /** The tokens a Java mapper keeps from one input line. */
  function JavaTokens(line: string): seq<string> {
    Split(LowerStr(line), IsNonWordChar)
  }

  /** Dropping the empty pieces of Java's split leaves exactly the maximal runs of word characters. */
  lemma JavaSplitNonEmpty(s: string)
    ensures NonEmptyOf(JavaSplit(s)) == Split(s, IsNonWordChar)
  {
    SplitShape(s, IsNonWordChar);
    var ws := Split(s, IsNonWordChar);
    forall i | 0 <= i < |ws| ensures ws[i] != [] {
      assert IsWord(ws[i], IsNonWordChar);
    }
    NonEmptyOfWords(ws);
    if forall i | 0 <= i < |s| :: IsWordChar(s[i]) {
      if s != [] {
        SplitWord(s, IsNonWordChar);
      }
    } else if ws != [] {
      NonEmptyOfAppend(if IsNonWordChar(s[0]) then [""] else [], ws);
    }
  }

  /** Every Java token is non-empty and made of lowercase word characters. */
  lemma JavaTokensShape(line: string)
    ensures forall i :: 0 <= i < |JavaTokens(line)| ==>
              |JavaTokens(line)[i]| > 0 &&
              forall j :: 0 <= j < |JavaTokens(line)[i]| ==>
                IsWordChar(JavaTokens(line)[i][j]) && !IsUpper(JavaTokens(line)[i][j])
  {
    var l := LowerStr(line);
    SplitShape(l, IsNonWordChar);
    SplitChars(l, IsNonWordChar);
    var ts := JavaTokens(line);
    forall i, j | 0 <= i < |ts| && 0 <= j < |ts[i]|
      ensures IsWordChar(ts[i][j]) && !IsUpper(ts[i][j])
    {
      assert IsWord(ts[i], IsNonWordChar);
      var k :| 0 <= k < |l| && l[k] == ts[i][j];
      LowerKeepsClass(line[k]);
    }
  }
}
