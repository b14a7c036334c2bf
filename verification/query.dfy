/**
 * What the three query modules share: turning query words into the stems
 * that are looked up, and the conjunctive ("AND") document set of a list
 * of stems.
 */
module Query {
  import opened Wrappers
  import Numbers
  import opened Chars
  import opened Strings
  import opened Postings
  import opened IndexFormat

  /** `[stem(t) for t in terms if stem(t)]` when `skipEmpty`, `[stem(t) for t in terms]` otherwise. */
  function StemsOf(terms: seq<string>, stem: string -> string, skipEmpty: bool): seq<string> {
    if terms == [] then []
    else
      var s := stem(terms[|terms| - 1]);
      StemsOf(terms[..|terms| - 1], stem, skipEmpty) + (if skipEmpty && s == "" then [] else [s])
  }

  /** `d` is listed under every stem of `stems`. */
  ghost predicate InAll(index: Index, stems: seq<string>, d: string) {
    forall s :: s in stems ==> d in DocsOf(index, s)
  }

  /** The stems of a prefix of the query are stems of the whole query. */
  lemma {:induction false} StemsOfPrefix(terms: seq<string>, i: nat, stem: string -> string, skipEmpty: bool)
    requires i <= |terms|
    ensures forall s :: s in StemsOf(terms[..i], stem, skipEmpty) ==> s in StemsOf(terms, stem, skipEmpty)
    decreases |terms| - i
  {
    if i < |terms| {
      StemsOfPrefix(terms, i + 1, stem, skipEmpty);
      assert terms[..i + 1][..i] == terms[..i];
    } else {
      assert terms[..i] == terms;
    }
  }

  /** A query word whose stem is looked up: every word, or, when `skipEmpty`, those with a non-empty stem. */
  predicate Counted(t: string, stem: string -> string, skipEmpty: bool) {
    !skipEmpty || stem(t) != ""
  }

  /** The stems looked up are exactly the stems of the counted query words. */
  lemma {:induction false} StemsOfMembers(terms: seq<string>, stem: string -> string, skipEmpty: bool)
    ensures forall s :: s in StemsOf(terms, stem, skipEmpty) <==>
              exists t :: t in terms && Counted(t, stem, skipEmpty) && stem(t) == s
  {
    if terms != [] {
      var init, last := terms[..|terms| - 1], terms[|terms| - 1];
      StemsOfMembers(init, stem, skipEmpty);
      assert terms == init + [last];
      forall s | exists t :: t in terms && Counted(t, stem, skipEmpty) && stem(t) == s
        ensures s in StemsOf(terms, stem, skipEmpty)
      {
        var t :| t in terms && Counted(t, stem, skipEmpty) && stem(t) == s;
        if t != last {
          assert t in init;
        }
      }
    }
  }

  ghost predicate SomeCounted(terms: seq<string>, stem: string -> string, skipEmpty: bool) {
    exists t :: t in terms && Counted(t, stem, skipEmpty)
  }

  /** `d` is listed under the stem of every counted query word. */
  ghost predicate InEveryCounted(index: Index, terms: seq<string>, stem: string -> string, skipEmpty: bool, d: string) {
    forall t :: t in terms && Counted(t, stem, skipEmpty) ==> d in DocsOf(index, stem(t))
  }

  /** The conjunctive document set, stated over the query words rather than the stem list. */
  lemma InAllCounted(index: Index, terms: seq<string>, stem: string -> string, skipEmpty: bool, d: string)
    ensures StemsOf(terms, stem, skipEmpty) != [] <==> SomeCounted(terms, stem, skipEmpty)
    ensures InAll(index, StemsOf(terms, stem, skipEmpty), d) <==> InEveryCounted(index, terms, stem, skipEmpty, d)
  {
    var ks := StemsOf(terms, stem, skipEmpty);
    StemsOfMembers(terms, stem, skipEmpty);
    if ks != [] {
      assert ks[0] in ks;
    }
    if exists t :: t in terms && Counted(t, stem, skipEmpty) {
      var t :| t in terms && Counted(t, stem, skipEmpty);
      assert stem(t) in ks;
    }
  }

  /** Without skipping, every query word contributes its stem, in order. */
  lemma {:induction false} StemsOfAll(terms: seq<string>, stem: string -> string)
    ensures |StemsOf(terms, stem, false)| == |terms|
    ensures forall i :: 0 <= i < |terms| ==> StemsOf(terms, stem, false)[i] == stem(terms[i])
  {
    if terms != [] {
      StemsOfAll(terms[..|terms| - 1], stem);
    }
  }

  // ---------------------------------------------------------------------
  // Reading an index file

  /**
   * `_parse_index_line`: split the line on whitespace, stem the first word,
   * read the `doc:count` fields of the rest. A blank line gives `("", {})`,
   * and so does a line whose stemmed term is empty when `skipEmpty`.
   */
  function ParsedLine(line: string, stem: string -> string, skipEmpty: bool): (string, Postings) {
    var parts := Split(line, IsSpace);
    if parts == [] then ("", map[])
    else
      var term := stem(parts[0]);
      if skipEmpty && term == "" then ("", map[])
      else (term, FieldsPostings(parts[1..]))
  }

  /** The parsed lines that reach the index: all of them, or, when `skipEmpty`, those with a non-empty term. */
  function KeptParsed(lines: seq<string>, stem: string -> string, skipEmpty: bool): seq<(string, Postings)> {
    if lines == [] then []
    else
      var p := ParsedLine(lines[|lines| - 1], stem, skipEmpty);
      KeptParsed(lines[..|lines| - 1], stem, skipEmpty) + (if skipEmpty && p.0 == "" then [] else [p])
  }

  /** The index `load_index` builds from the lines of a file. */
  function Loaded(lines: seq<string>, stem: string -> string, skipEmpty: bool): Index {
    LoadAll(KeptParsed(lines, stem, skipEmpty))
  }

  /** Parse one line of an index file; the loop over the fields is the one of `_parse_index_line`. */
  method ParseIndexLine(line: string, stem: string -> string, skipEmpty: bool) returns (term: string, postings: Postings)
    ensures (term, postings) == ParsedLine(line, stem, skipEmpty)
  {
    var parts := Split(line, IsSpace);
    if parts == [] {
      return "", map[];
    }
    term := stem(parts[0]);
    if skipEmpty && term == "" {
      return "", map[];
    }
    var items := parts[1..];
    postings := map[];
    for i := 0 to |items|
      invariant postings == FieldsPostings(items[..i])
    {
      var item := items[i];
      assert items[..i + 1][..i] == items[..i];
      if ':' in item {
        FirstColonSpec(item);
        var k := FirstColon(item).value;
        var doc, cnt := item[..k], item[k + 1..];
        match Numbers.ParseInt(cnt)
        case Some(n) =>
          postings := postings[doc := n];
        case None =>
      } else {
        FirstColonSpec(item);
      }
    }
    assert items[..|items|] == items;
  }

  /** One step of the inner loop of `load_index`: adding posting `d` of `p` to what the earlier postings of `p` built. */
  lemma AddPostingStep(index: Index, t: string, p: Postings, todo: set<string>, d: string)
    requires d in todo && todo <= p.Keys
    ensures var cur := AddLine(index, t, Restrict(p, p.Keys - todo));
            AddLine(index, t, Restrict(p, p.Keys - (todo - {d})))
              == cur[t := PostingsFor(cur, t)[d := Get(PostingsFor(cur, t), d) + p[d]]]
  {
    var before, after := Restrict(p, p.Keys - todo), Restrict(p, p.Keys - (todo - {d}));
    var base := PostingsFor(index, t);
    MergeVisitStep(base, p, todo, d);
    assert d in after;
    if before == map[] {
      MergeEmpty(base);
    }
    assert PostingsFor(AddLine(index, t, before), t) == Merge(base, before);
  }

  /** The inner loop of `load_index`: `index[term][doc] = index[term].get(doc, 0) + count` for every field. */
  method AddPostings(index: Index, t: string, p: Postings) returns (index': Index)
    ensures index' == AddLine(index, t, p)
  {
    index' := index;
    var todo := p.Keys;
    while todo != {}
      invariant todo <= p.Keys
      invariant index' == AddLine(index, t, Restrict(p, p.Keys - todo))
      decreases todo
    {
      var d :| d in todo;
      AddPostingStep(index, t, p, todo, d);
      index' := index'[t := PostingsFor(index', t)[d := Get(PostingsFor(index', t), d) + p[d]]];
      todo := todo - {d};
    }
    RestrictAll(p);
  }

  /** `load_index` over the lines of a file: lines are added in order, their postings summed into the index. */
  method LoadIndex(lines: seq<string>, stem: string -> string, skipEmpty: bool) returns (index: Index)
    ensures index == Loaded(lines, stem, skipEmpty)
  {
    index := map[];
    for i := 0 to |lines|
      invariant index == Loaded(lines[..i], stem, skipEmpty)
    {
      assert lines[..i + 1][..i] == lines[..i];
      var t, p := ParseIndexLine(lines[i], stem, skipEmpty);
      ghost var kept := KeptParsed(lines[..i], stem, skipEmpty);
      if skipEmpty && t == "" {
        assert KeptParsed(lines[..i + 1], stem, skipEmpty) == kept + [];
        assert kept + [] == kept;
        continue;
      }
      assert KeptParsed(lines[..i + 1], stem, skipEmpty) == kept + [(t, p)];
      assert (kept + [(t, p)])[..|kept|] == kept;
      index := AddPostings(index, t, p);
    }
    assert lines[..|lines|] == lines;
  }

  /**
   * `docs_with_all_terms`: the documents listed under every stem of the
   * query. An empty stem list gives the empty set; an empty intermediate
   * intersection ends the loop early.
   */
  method DocsWithAllTerms(index: Index, terms: seq<string>, stem: string -> string, skipEmpty: bool)
    returns (r: set<string>)
    ensures forall d :: d in r <==> SomeCounted(terms, stem, skipEmpty) && InEveryCounted(index, terms, stem, skipEmpty, d)
  {
    var res: Option<set<string>> := None;
    for i := 0 to |terms|
      invariant res.None? <==> StemsOf(terms[..i], stem, skipEmpty) == []
      invariant res.Some? ==> forall d :: d in res.value <==> InAll(index, StemsOf(terms[..i], stem, skipEmpty), d)
    {
      assert terms[..i + 1][..i] == terms[..i];
      var s := stem(terms[i]);
      if skipEmpty && s == "" {
        continue;
      }
      var p := DocsOf(index, s);
      res := if res.None? then Some(p) else Some(res.value * p);
      ghost var ks := StemsOf(terms[..i], stem, skipEmpty);
      assert StemsOf(terms[..i + 1], stem, skipEmpty) == ks + [s];
      forall d ensures d in res.value <==> InAll(index, ks + [s], d) {
        assert s in ks + [s];
        assert forall x :: x in ks + [s] <==> x in ks || x == s;
      }
      if res.value == {} {
        StemsOfPrefix(terms, i + 1, stem, skipEmpty);
        forall d ensures !InAll(index, StemsOf(terms, stem, skipEmpty), d) {
          assert !InAll(index, StemsOf(terms[..i + 1], stem, skipEmpty), d);
        }
        forall d ensures !InEveryCounted(index, terms, stem, skipEmpty, d) {
          InAllCounted(index, terms, stem, skipEmpty, d);
        }
        return {};
      }
    }
    assert terms[..|terms|] == terms;
    r := if res.Some? then res.value else {};
    forall d {
      InAllCounted(index, terms, stem, skipEmpty, d);
    }
  }

  // ---------------------------------------------------------------------
  // Properties of reading

  /**
   * Round trip of one line: `term`, one whitespace character, then the
   * fields of `p` in any order joined by whitespace, parses back to
   * `(term, p)` when `term` is its own stem and no document holds `:` or
   * whitespace.
   */
  lemma ParsedLineRoundTrip(term: string, sepA: char, fs: seq<string>, sepB: char, p: Postings,
                            stem: string -> string, skipEmpty: bool)
    requires IsSpace(sepA) && IsSpace(sepB)
    requires IsWord(term, IsSpace) && stem(term) == term
    requires PlainDocs(p)
    requires forall i :: 0 <= i < |fs| ==> WrittenFrom(fs[i], p)
    requires forall d :: d in p ==> Field(d, p[d]) in fs
    ensures ParsedLine(term + [sepA] + JoinWith(fs, sepB), stem, skipEmpty) == (term, p)
  {
    forall i | 0 <= i < |fs| ensures IsWord(fs[i], IsSpace) {
      assert WrittenFrom(fs[i], p);
      var d :| d in p && fs[i] == Field(d, p[d]);
      FieldIsWord(d, p[d]);
    }
    LineSplits(term, sepA, fs, sepB);
    FieldsRoundTrip(fs, p);
    assert ([term] + fs)[1..] == fs;
  }

  lemma {:induction false} KeptParsedAll(lines: seq<string>, stem: string -> string, skipEmpty: bool,
                                         entries: seq<(string, Postings)>)
    requires |entries| == |lines|
    requires forall i :: 0 <= i < |lines| ==> ParsedLine(lines[i], stem, skipEmpty) == entries[i] && entries[i].0 != ""
    ensures KeptParsed(lines, stem, skipEmpty) == entries
  {
    if lines != [] {
      var n := |lines| - 1;
      KeptParsedAll(lines[..n], stem, skipEmpty, entries[..n]);
      assert entries == entries[..n] + [entries[n]];
    }
  }

  /**
   * Loading lines that each parse to a distinct, non-empty term with
   * non-empty postings gives back exactly those terms and postings.
   */
  lemma LoadedDistinct(lines: seq<string>, stem: string -> string, skipEmpty: bool, entries: seq<(string, Postings)>)
    requires |entries| == |lines|
    requires forall i :: 0 <= i < |lines| ==> ParsedLine(lines[i], stem, skipEmpty) == entries[i]
    requires forall i :: 0 <= i < |entries| ==> entries[i].0 != "" && entries[i].1 != map[]
    requires forall i, j :: 0 <= i < j < |entries| ==> entries[i].0 != entries[j].0
    ensures forall t :: t in Loaded(lines, stem, skipEmpty) <==> exists i :: 0 <= i < |entries| && entries[i].0 == t
    ensures forall i :: 0 <= i < |entries| ==> Loaded(lines, stem, skipEmpty)[entries[i].0] == entries[i].1
  {
    KeptParsedAll(lines, stem, skipEmpty, entries);
    LoadAllDistinct(entries);
  }

  /** With skipping on, no parsed line that reaches the index has the empty term. */
  lemma {:induction false} KeptParsedNoEmptyTerm(lines: seq<string>, stem: string -> string)
    ensures PostingsOfTerm(KeptParsed(lines, stem, true), "") == []
  {
    if lines != [] {
      var n := |lines| - 1;
      KeptParsedNoEmptyTerm(lines[..n], stem);
      var k := KeptParsed(lines[..n], stem, true);
      var p := ParsedLine(lines[n], stem, true);
      if p.0 == "" {
        assert KeptParsed(lines, stem, true) == k + [];
        assert k + [] == k;
      } else {
        assert (k + [p])[..|k|] == k;
      }
    }
  }

  /**
   * `load_index` with skipping: the empty term never appears, and every
   * other term holds the sum of the postings of its lines.
   */
  lemma LoadedSkipping(lines: seq<string>, stem: string -> string, t: string)
    ensures "" !in Loaded(lines, stem, true)
    ensures PostingsFor(Loaded(lines, stem, true), t) == SumMaps(PostingsOfTerm(KeptParsed(lines, stem, true), t))
  {
    KeptParsedNoEmptyTerm(lines, stem);
    LoadAllSums(KeptParsed(lines, stem, true), "");
    LoadAllSums(KeptParsed(lines, stem, true), t);
  }
}
