/**
 * Splitting and joining strings. `Split(s, isSep)` is the list of maximal
 * runs of non-separator characters, i.e. Python's `str.split()` when the
 * separators are whitespace; `JoinWith` is `sep.join(...)`.
 */
module Strings {
  import opened Chars

  /** A piece `Split` can return: non-empty and free of separators. */
  ghost predicate IsWord(t: string, isSep: char -> bool) {
    |t| > 0 && forall i :: 0 <= i < |t| ==> !isSep(t[i])
  }

  ghost predicate NoSep(t: string, isSep: char -> bool) {
    forall i :: 0 <= i < |t| ==> !isSep(t[i])
  }

  /** Scan `s` with `cur` the word read so far. */
  function SplitFrom(s: string, isSep: char -> bool, cur: string): seq<string>
    decreases |s|
  {
    if s == [] then (if cur == [] then [] else [cur])
    else if isSep(s[0]) then (if cur == [] then [] else [cur]) + SplitFrom(s[1..], isSep, [])
    else SplitFrom(s[1..], isSep, cur + [s[0]])
  }

  function Split(s: string, isSep: char -> bool): seq<string> {
    SplitFrom(s, isSep, [])
  }

  /** `[sep].join(ts)` */
  function JoinWith(ts: seq<string>, sep: char): string {
    if ts == [] then []
    else if |ts| == 1 then ts[0]
    else ts[0] + [sep] + JoinWith(ts[1..], sep)
  }

  /** `"".join(ts)` */
  function Flatten(ts: seq<string>): string {
    if ts == [] then [] else ts[0] + Flatten(ts[1..])
  }

  /** The characters of `s` that are not separators, in order. */
  function Keep(s: string, isSep: char -> bool): string {
    if s == [] then [] else (if isSep(s[0]) then [] else [s[0]]) + Keep(s[1..], isSep)
  }

  /** `[t for t in ts if t]` */
  function NonEmptyOf(ts: seq<string>): seq<string> {
    if ts == [] then [] else (if ts[0] == [] then [] else [ts[0]]) + NonEmptyOf(ts[1..])
  }

  /** Python's `needle in haystack` on strings. */
  predicate Contains(haystack: string, needle: string) {
    exists i | 0 <= i <= |haystack| - |needle| :: OccursAt(haystack, needle, i)
  }

  predicate OccursAt(haystack: string, needle: string, i: nat) {
    i + |needle| <= |haystack| && haystack[i..i + |needle|] == needle
  }

  predicate EndsWith(w: string, suffix: string) {
    |suffix| <= |w| && w[|w| - |suffix|..] == suffix
  }

  /** The last component of a `/`-separated path (`Path(p).name`, Hadoop `Path.getName`). */
  function Basename(p: string): string
    decreases |p|
  {
    if p == [] then []
    else if p[|p| - 1] == '/' then []
    else Basename(p[..|p| - 1]) + [p[|p| - 1]]
  }

  /** Java's `String.trim`: drop characters `<= ' '` at both ends. */
  function TrimStart(s: string): string {
    if s != [] && IsTrimmed(s[0]) then TrimStart(s[1..]) else s
  }

  function TrimEnd(s: string): string {
    if s != [] && IsTrimmed(s[|s| - 1]) then TrimEnd(s[..|s| - 1]) else s
  }

  function Trim(s: string): string {
    TrimEnd(TrimStart(s))
  }

  /** Java's `trim()` removes exactly one trailing tab from text that starts and ends above `' '`. */
  lemma TrimTrailingTab(j: string)
    requires j != [] && !IsTrimmed(j[0]) && !IsTrimmed(j[|j| - 1])
    ensures Trim(j + "\t") == j
  {
    assert TrimStart(j + "\t") == j + "\t";
    assert (j + "\t")[..|j|] == j;
    assert TrimEnd(j + "\t") == TrimEnd(j);
  }

  // ---------------------------------------------------------------------
  // Properties of Split

  /** Every piece is a word and the pieces, concatenated, are the non-separator characters in order. */
  lemma {:induction false} SplitFromShape(s: string, isSep: char -> bool, cur: string)
    requires NoSep(cur, isSep)
    ensures forall i :: 0 <= i < |SplitFrom(s, isSep, cur)| ==> IsWord(SplitFrom(s, isSep, cur)[i], isSep)
    ensures Flatten(SplitFrom(s, isSep, cur)) == cur + Keep(s, isSep)
    decreases |s|
  {
    if s == [] {
    } else if isSep(s[0]) {
      SplitFromShape(s[1..], isSep, []);
      var rest := SplitFrom(s[1..], isSep, []);
      assert Keep(s, isSep) == Keep(s[1..], isSep);
      assert SplitFrom(s, isSep, cur) == (if cur == [] then [] else [cur]) + rest;
      if cur != [] {
        FlattenAppend([cur], rest);
        assert Flatten([cur]) == cur + Flatten([]);
      } else {
        assert [] + rest == rest;
      }
    } else {
      SplitFromShape(s[1..], isSep, cur + [s[0]]);
      assert Keep(s, isSep) == [s[0]] + Keep(s[1..], isSep);
      assert (cur + [s[0]]) + Keep(s[1..], isSep) == cur + ([s[0]] + Keep(s[1..], isSep));
    }
  }

  lemma {:induction false} FlattenAppend(a: seq<string>, b: seq<string>)
    ensures Flatten(a + b) == Flatten(a) + Flatten(b)
  {
    if a == [] {
      assert a + b == b;
    } else {
      assert (a + b)[1..] == a[1..] + b;
      FlattenAppend(a[1..], b);
    }
  }

  lemma SplitShape(s: string, isSep: char -> bool)
    ensures forall i :: 0 <= i < |Split(s, isSep)| ==> IsWord(Split(s, isSep)[i], isSep)
    ensures Flatten(Split(s, isSep)) == Keep(s, isSep)
  {
    SplitFromShape(s, isSep, []);
  }

  /** Every character of a piece is a character of the text. */
  lemma {:induction false} SplitFromChars(s: string, isSep: char -> bool, cur: string)
    ensures forall i, j :: 0 <= i < |SplitFrom(s, isSep, cur)| && 0 <= j < |SplitFrom(s, isSep, cur)[i]| ==>
              SplitFrom(s, isSep, cur)[i][j] in cur + s
    decreases |s|
  {
    if s != [] {
      var r := SplitFrom(s, isSep, cur);
      if isSep(s[0]) {
        SplitFromChars(s[1..], isSep, []);
        var rest := SplitFrom(s[1..], isSep, []);
        assert r == (if cur == [] then [] else [cur]) + rest;
        forall i, j | 0 <= i < |r| && 0 <= j < |r[i]| ensures r[i][j] in cur + s {
          if cur != [] && i == 0 {
            assert r[i][j] == (cur + s)[j];
          } else {
            var k := if cur == [] then i else i - 1;
            assert r[i] == rest[k];
            assert r[i][j] in [] + s[1..];
          }
        }
      } else {
        SplitFromChars(s[1..], isSep, cur + [s[0]]);
        assert (cur + [s[0]]) + s[1..] == cur + s;
      }
    }
  }

  lemma SplitChars(s: string, isSep: char -> bool)
    ensures forall i, j :: 0 <= i < |Split(s, isSep)| && 0 <= j < |Split(s, isSep)[i]| ==>
              Split(s, isSep)[i][j] in s
  {
    SplitFromChars(s, isSep, []);
    assert [] + s == s;
  }

  /** A text made only of separators splits into nothing. */
  lemma {:induction false} SplitAllSeparators(s: string, isSep: char -> bool)
    requires forall i :: 0 <= i < |s| ==> isSep(s[i])
    ensures Split(s, isSep) == []
  {
    if s != [] {
      SplitAllSeparators(s[1..], isSep);
    }
  }

  /** A separator splits the text into the pieces before it and the pieces after it. */
  lemma {:induction false} SplitFromAround(a: string, c: char, b: string, isSep: char -> bool, cur: string)
    requires isSep(c)
    ensures SplitFrom(a + [c] + b, isSep, cur) == SplitFrom(a, isSep, cur) + SplitFrom(b, isSep, [])
    decreases |a|
  {
    var s := a + [c] + b;
    if a == [] {
      assert s == [c] + b && s[1..] == b;
    } else {
      assert s[0] == a[0] && s[1..] == a[1..] + [c] + b;
      if isSep(a[0]) {
        SplitFromAround(a[1..], c, b, isSep, []);
      } else {
        SplitFromAround(a[1..], c, b, isSep, cur + [a[0]]);
      }
    }
  }

  lemma SplitAround(a: string, c: char, b: string, isSep: char -> bool)
    requires isSep(c)
    ensures Split(a + [c] + b, isSep) == Split(a, isSep) + Split(b, isSep)
  {
    SplitFromAround(a, c, b, isSep, []);
  }

  lemma {:induction false} SplitFromWord(w: string, isSep: char -> bool, cur: string)
    requires NoSep(w, isSep)
    requires cur + w != []
    ensures SplitFrom(w, isSep, cur) == [cur + w]
    decreases |w|
  {
    if w == [] {
      assert cur + w == cur;
    } else {
      assert (cur + [w[0]]) + w[1..] == cur + w;
      SplitFromWord(w[1..], isSep, cur + [w[0]]);
    }
  }

  /** A word splits into itself. */
  lemma SplitWord(w: string, isSep: char -> bool)
    requires IsWord(w, isSep)
    ensures Split(w, isSep) == [w]
  {
    SplitFromWord(w, isSep, []);
    assert [] + w == w;
  }

  /** Round trip: splitting words joined by a separator gives the words back. */
  lemma {:induction false} SplitJoin(ts: seq<string>, sep: char, isSep: char -> bool)
    requires isSep(sep)
    requires forall i :: 0 <= i < |ts| ==> IsWord(ts[i], isSep)
    ensures Split(JoinWith(ts, sep), isSep) == ts
  {
    if ts == [] {
    } else if |ts| == 1 {
      SplitWord(ts[0], isSep);
    } else {
      SplitJoin(ts[1..], sep, isSep);
      SplitWord(ts[0], isSep);
      SplitAround(ts[0], sep, JoinWith(ts[1..], sep), isSep);
      assert [ts[0]] + ts[1..] == ts;
    }
  }

  // ---------------------------------------------------------------------
  // Properties of the filters

  /** Joining one more piece appends the separator and the piece. */
  lemma {:induction false} JoinWithSnoc(ts: seq<string>, t: string, sep: char)
    requires ts != []
    ensures JoinWith(ts + [t], sep) == JoinWith(ts, sep) + [sep] + t
  {
    if |ts| == 1 {
      assert ts + [t] == [ts[0], t];
    } else {
      assert (ts + [t])[1..] == ts[1..] + [t];
      JoinWithSnoc(ts[1..], t, sep);
    }
  }

  /** Filtering out empty strings removes nothing from a list of non-empty strings. */
  lemma {:induction false} NonEmptyOfWords(ts: seq<string>)
    requires forall i :: 0 <= i < |ts| ==> ts[i] != []
    ensures NonEmptyOf(ts) == ts
  {
    if ts != [] {
      NonEmptyOfWords(ts[1..]);
    }
  }

  lemma {:induction false} NonEmptyOfAppend(a: seq<string>, b: seq<string>)
    ensures NonEmptyOf(a + b) == NonEmptyOf(a) + NonEmptyOf(b)
  {
    if a == [] {
      assert a + b == b;
    } else {
      assert (a + b)[1..] == a[1..] + b;
      NonEmptyOfAppend(a[1..], b);
    }
  }

  /** `Basename` never contains a `/`. */
  lemma {:induction false} BasenameNoSlash(p: string)
    ensures forall i :: 0 <= i < |Basename(p)| ==> Basename(p)[i] != '/'
    decreases |p|
  {
    if p != [] && p[|p| - 1] != '/' {
      BasenameNoSlash(p[..|p| - 1]);
    }
  }
}
