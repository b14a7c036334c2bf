/**
 * The Spark job (`invertedindex/spark/inverted_index_spark.py`): tokenise
 * every `(path, text)` input, emit `((stem(w), basename), 1)` for every
 * token that is not a stop word and has a non-empty stem, sum by key,
 * and write one line per term with its `doc:count` fields sorted as
 * strings and tab-joined. The stemmer and stop words are those of
 * `invertedindex/query_index.py`.
 */
module Spark {
  import opened Chars
  import opened Strings
  import opened Postings
  import opened IndexFormat
  import opened Tokenizer
  import Order
  import Query
  import QueryIndex

  /** A `(term, document)` key of the reduced pairs. */
  type Key = (string, string)

  /** `tokenize`: the same tokens as `normalize_text`. */
  method Tokenize(text: string) returns (tokens: seq<string>)
    ensures tokens == Normalized(text)
    ensures forall i :: 0 <= i < |tokens| ==>
              |tokens[i]| > 0 && forall j :: 0 <= j < |tokens[i]| ==> IsAlnum(tokens[i][j]) && !IsUpper(tokens[i][j])
  {
    var lowered := LowerStr(text);
    var cleaned: string := [];
    for i := 0 to |lowered|
      invariant cleaned == Clean(lowered[..i])
    {
      cleaned := cleaned + [if IsAlnum(lowered[i]) then lowered[i] else ' '];
    }
    assert lowered[..|lowered|] == lowered;
    tokens := Split(cleaned, IsSpace);
    NormalizedShape(text);
  }

  /** Whether token `w` yields a pair: `w not in STOP_WORDS and stem(w)`. */
  predicate Emits(w: string) {
    w !in QueryIndex.StopWords && QueryIndex.Stem(w) != ""
  }

  /** `f(w)` for every token `w` that `keep` accepts, in token order. */
  function KeptImages(tokens: seq<string>, keep: string -> bool, f: string -> string): seq<string> {
    if tokens == [] then []
    else
      var w := tokens[|tokens| - 1];
      KeptImages(tokens[..|tokens| - 1], keep, f) + (if keep(w) then [f(w)] else [])
  }

  /** The stems a file's tokens contribute, in token order. */
  function KeptStems(tokens: seq<string>): seq<string> {
    KeptImages(tokens, Emits, QueryIndex.Stem)
  }

  /** Each stem paired with the document name. */
  function WithDoc(stems: seq<string>, doc: string): seq<Key> {
    if stems == [] then [] else WithDoc(stems[..|stems| - 1], doc) + [(stems[|stems| - 1], doc)]
  }

  /** The keys the `flatMap` emits for one `(path, text)` input (each with value 1). */
  function FilePairs(path: string, text: string): seq<Key> {
    WithDoc(KeptStems(Normalized(text)), Basename(path))
  }

  function AllPairs(files: seq<(string, string)>): seq<Key> {
    if files == [] then []
    else
      var f := files[|files| - 1];
      AllPairs(files[..|files| - 1]) + FilePairs(f.0, f.1)
  }

  /** `reduceByKey(lambda a, b: a + b)` over the pairs, each counting 1. */
  function Reduced(files: seq<(string, string)>): map<Key, int> {
    Tally(AllPairs(files))
  }

  /** The count the job should report for `(t, d)`: the emitting tokens with stem `t`, over all files with base name `d`. */
  function CountFor(files: seq<(string, string)>, t: string, d: string): nat {
    if files == [] then 0
    else
      var f := files[|files| - 1];
      CountFor(files[..|files| - 1], t, d) + (if Basename(f.0) == d then multiset(KeptStems(Normalized(f.1)))[t] else 0)
  }

  // ---------------------------------------------------------------------
  // The pairs

  lemma {:induction false} KeptImagesMembers(tokens: seq<string>, keep: string -> bool, f: string -> string)
    ensures forall t :: t in KeptImages(tokens, keep, f) <==> exists w :: w in tokens && keep(w) && f(w) == t
  {
    if tokens != [] {
      var init, w := tokens[..|tokens| - 1], tokens[|tokens| - 1];
      KeptImagesMembers(init, keep, f);
      assert tokens == init + [w];
      forall t | exists v :: v in tokens && keep(v) && f(v) == t
        ensures t in KeptImages(tokens, keep, f)
      {
        var v :| v in tokens && keep(v) && f(v) == t;
        if v != w {
          assert v in init;
        }
      }
    }
  }

  /** A stem is contributed iff some emitting token has it. */
  lemma KeptStemsMembers(tokens: seq<string>)
    ensures forall t :: t in KeptStems(tokens) <==> exists w :: w in tokens && Emits(w) && QueryIndex.Stem(w) == t
  {
    KeptImagesMembers(tokens, Emits, QueryIndex.Stem);
  }

  lemma {:induction false} WithDocCount(stems: seq<string>, doc: string, t: string, d: string)
    ensures multiset(WithDoc(stems, doc))[(t, d)] == if d == doc then multiset(stems)[t] else 0
  {
    if stems != [] {
      var init := stems[..|stems| - 1];
      WithDocCount(init, doc, t, d);
      assert stems == init + [stems[|stems| - 1]];
    }
  }

  /**
   * A pair `(t, d)` is emitted for a file iff `d` is its base name and some
   * token that is not a stop word has the non-empty stem `t`.
   */
  lemma FilePairsMembers(path: string, text: string, t: string, d: string)
    ensures (t, d) in FilePairs(path, text) <==>
              d == Basename(path) && t != "" &&
              exists w :: w in Normalized(text) && w !in QueryIndex.StopWords && QueryIndex.Stem(w) == t
  {
    var ks := KeptStems(Normalized(text));
    WithDocCount(ks, Basename(path), t, d);
    KeptStemsMembers(Normalized(text));
    assert (t, d) in FilePairs(path, text) <==> (t, d) in multiset(FilePairs(path, text));
    assert t in ks <==> t in multiset(ks);
  }

  lemma {:induction false} AllPairsCount(files: seq<(string, string)>, t: string, d: string)
    ensures multiset(AllPairs(files))[(t, d)] == CountFor(files, t, d)
  {
    if files != [] {
      var f := files[|files| - 1];
      AllPairsCount(files[..|files| - 1], t, d);
      WithDocCount(KeptStems(Normalized(f.1)), Basename(f.0), t, d);
    }
  }

  /**
   * `reduceByKey` sums: the count of `(t, d)` is the number of emitting
   * tokens with stem `t` over all input files sharing the base name `d`,
   * and every reported count is at least 1.
   */
  lemma ReducedCount(files: seq<(string, string)>, t: string, d: string)
    ensures Get(Reduced(files), (t, d)) == CountFor(files, t, d)
    ensures (t, d) in Reduced(files) ==> Reduced(files)[(t, d)] >= 1
  {
    TallyCounts(AllPairs(files));
    AllPairsCount(files, t, d);
  }

  // ---------------------------------------------------------------------
  // The output lines

  /** The documents listed under `t`. */
  function DocsFor(r: map<Key, int>, t: string): set<string> {
    set k | k in r && k.0 == t :: k.1
  }

  /** The `f"{doc}:{count}"` strings `groupByKey` collects for `t`. */
  function FieldSet(r: map<Key, int>, t: string): set<string> {
    set k | k in r && k.0 == t :: Field(k.1, r[k])
  }

  /** The postings of `t` in the reduced pairs. */
  function TermPostings(r: map<Key, int>, t: string): (p: Postings)
    ensures p.Keys == DocsFor(r, t)
  {
    map k | k in r && k.0 == t :: k.1 := r[k]
  }

  function Terms(r: map<Key, int>): set<string> {
    set k | k in r :: k.0
  }

  /** `f"{term}\t{'\t'.join(sorted(vals))}"` */
  function SparkLine(r: map<Key, int>, t: string): string {
    t + "\t" + JoinWith(Order.Sorted(FieldSet(r, t)), '\t')
  }

  /** The lines the job writes, by term; the partition a line lands in is not modelled. */
  function SparkOutput(files: seq<(string, string)>): map<string, string> {
    var r := Reduced(files);
    map t | t in Terms(r) :: SparkLine(r, t)
  }

  /** Some token of some file emits `t`. */
  ghost predicate Emitted(files: seq<(string, string)>, t: string) {
    exists d :: CountFor(files, t, d) >= 1
  }

  /**
   * The postings grouped under `t` are the job's counts: `d` is listed iff
   * some token of a file with base name `d` emits `t`, and its count is the
   * number of such tokens over all those files.
   */
  lemma SparkPostings(files: seq<(string, string)>, t: string, d: string)
    ensures d in TermPostings(Reduced(files), t) <==> CountFor(files, t, d) >= 1
    ensures d in TermPostings(Reduced(files), t) ==> TermPostings(Reduced(files), t)[d] == CountFor(files, t, d)
  {
    ReducedCount(files, t, d);
  }

  /**
   * The written lines: one per term some file emits, and the line of each
   * term is the one `LinesOf` lists for it, whatever the order of terms.
   */
  lemma SparkOutputLines(files: seq<(string, string)>, order: seq<string>)
    requires forall t :: t in order <==> t in Terms(Reduced(files))
    ensures forall t :: t in SparkOutput(files) <==> Emitted(files, t)
    ensures SparkOutput(files).Keys == Terms(Reduced(files))
    ensures forall i :: 0 <= i < |order| ==> LinesOf(Reduced(files), order)[i] == SparkOutput(files)[order[i]]
  {
    assert SparkOutput(files).Keys == Terms(Reduced(files));
    forall t ensures t in SparkOutput(files) <==> Emitted(files, t) {
      SparkTermEmitted(files, t);
    }
  }

  /** A term is reduced with some document iff some file emits it. */
  lemma SparkTermEmitted(files: seq<(string, string)>, t: string)
    ensures t in Terms(Reduced(files)) <==> Emitted(files, t)
  {
    var r := Reduced(files);
    if t in Terms(r) {
      var k :| k in r && k.0 == t;
      ReducedCount(files, t, k.1);
      assert k == (t, k.1);
    }
    if Emitted(files, t) {
      var d :| CountFor(files, t, d) >= 1;
      ReducedCount(files, t, d);
      assert (t, d) in r;
    }
  }

  /**
   * The fields of a term: one per document listed under it, and distinct
   * documents give distinct fields, so each `(term, doc)` appears once.
   */
  lemma FieldSetSpec(r: map<Key, int>, t: string)
    ensures forall f :: f in FieldSet(r, t) <==> exists d :: d in TermPostings(r, t) && f == Field(d, TermPostings(r, t)[d])
    ensures forall d1, d2 :: d1 in TermPostings(r, t) && d2 in TermPostings(r, t) ==>
              (Field(d1, TermPostings(r, t)[d1]) == Field(d2, TermPostings(r, t)[d2]) <==> d1 == d2)
  {
    var p := TermPostings(r, t);
    forall f | f in FieldSet(r, t) ensures exists d :: d in p && f == Field(d, p[d]) {
      var k :| k in r && k.0 == t && f == Field(k.1, r[k]);
      assert k == (t, k.1);
      assert k.1 in p;
    }
    forall d | d in p ensures Field(d, p[d]) in FieldSet(r, t) {
      assert (t, d) in r;
    }
    forall d1, d2 | d1 in p && d2 in p && Field(d1, p[d1]) == Field(d2, p[d2]) ensures d1 == d2 {
      FieldInjective(d1, p[d1], d2, p[d2]);
    }
  }

  /**
   * One written line parses back to its term and postings with any reader
   * whose stemmer leaves the term unchanged, when document names hold no
   * whitespace and no `:`.
   */
  lemma SparkLineParses(r: map<Key, int>, t: string, stem: string -> string, skipEmpty: bool)
    requires IsWord(t, IsSpace) && stem(t) == t
    requires PlainDocs(TermPostings(r, t))
    ensures Query.ParsedLine(SparkLine(r, t), stem, skipEmpty) == (t, TermPostings(r, t))
  {
    SortedFields(r, t);
    Query.ParsedLineRoundTrip(t, '\t', Order.Sorted(FieldSet(r, t)), '\t', TermPostings(r, t), stem, skipEmpty);
  }

  /** The sorted fields of `t` are written from its postings and cover them. */
  lemma SortedFields(r: map<Key, int>, t: string)
    ensures forall i :: 0 <= i < |Order.Sorted(FieldSet(r, t))| ==> WrittenFrom(Order.Sorted(FieldSet(r, t))[i], TermPostings(r, t))
    ensures forall d :: d in TermPostings(r, t) ==> Field(d, TermPostings(r, t)[d]) in Order.Sorted(FieldSet(r, t))
  {
    var p := TermPostings(r, t);
    var fs := Order.Sorted(FieldSet(r, t));
    forall i | 0 <= i < |fs| ensures WrittenFrom(fs[i], p) {
      assert fs[i] in FieldSet(r, t);
      var k :| k in r && k.0 == t && fs[i] == Field(k.1, r[k]);
      assert k == (t, k.1);
      assert k.1 in p;
    }
    forall d | d in p ensures Field(d, p[d]) in fs {
      assert (t, d) in r;
      assert Field(d, p[d]) in FieldSet(r, t);
    }
  }

  /** The lines of the terms in `order`, in that order. */
  function LinesOf(r: map<Key, int>, order: seq<string>): (lines: seq<string>)
    ensures |lines| == |order| && forall i :: 0 <= i < |order| ==> lines[i] == SparkLine(r, order[i])
  {
    seq(|order|, i requires 0 <= i < |order| => SparkLine(r, order[i]))
  }

  /** The (term, postings) entries of the terms in `order`, in that order. */
  function EntriesOf(r: map<Key, int>, order: seq<string>): (entries: seq<(string, Postings)>)
    ensures |entries| == |order| && forall i :: 0 <= i < |order| ==> entries[i] == (order[i], TermPostings(r, order[i]))
  {
    seq(|order|, i requires 0 <= i < |order| => (order[i], TermPostings(r, order[i])))
  }

  /**
   * Round trip of the whole output: the lines of the terms, read in any
   * order that lists each term once, load back to the reduced postings.
   */
  lemma SparkRoundTrip(r: map<Key, int>, order: seq<string>, stem: string -> string, skipEmpty: bool)
    requires forall t :: t in order <==> t in Terms(r)
    requires forall i, j :: 0 <= i < j < |order| ==> order[i] != order[j]
    requires forall t :: t in Terms(r) ==> IsWord(t, IsSpace) && stem(t) == t
    requires forall k :: k in r ==> NoColon(k.1) && NoSep(k.1, IsSpace)
    ensures Query.Loaded(LinesOf(r, order), stem, skipEmpty).Keys == Terms(r)
    ensures forall t :: t in Terms(r) ==> Query.Loaded(LinesOf(r, order), stem, skipEmpty)[t] == TermPostings(r, t)
  {
    SparkLoadedInOrder(r, order, stem, skipEmpty);
    var loaded := Query.Loaded(LinesOf(r, order), stem, skipEmpty);
    forall t | t in Terms(r) ensures t in loaded && loaded[t] == TermPostings(r, t) {
      var i :| 0 <= i < |order| && order[i] == t;
    }
  }

  /**
   * End to end: the lines the job writes for its input files, read back in
   * any order that lists each term once, give every emitted term, and under
   * it every document with the number of tokens that emitted the term there.
   */
  lemma SparkJobRoundTrip(files: seq<(string, string)>, order: seq<string>, lines: seq<string>,
                          stem: string -> string, skipEmpty: bool, t: string, d: string)
    requires forall u :: u in order <==> u in SparkOutput(files)
    requires forall i, j :: 0 <= i < j < |order| ==> order[i] != order[j]
    requires |lines| == |order| && forall i :: 0 <= i < |order| ==> lines[i] == SparkOutput(files)[order[i]]
    requires forall u :: u in Terms(Reduced(files)) ==> IsWord(u, IsSpace) && stem(u) == u
    requires forall k :: k in Reduced(files) ==> NoColon(k.1) && NoSep(k.1, IsSpace)
    ensures t in Query.Loaded(lines, stem, skipEmpty) <==> Emitted(files, t)
    ensures t in Query.Loaded(lines, stem, skipEmpty) ==>
              (d in Query.Loaded(lines, stem, skipEmpty)[t] <==> CountFor(files, t, d) >= 1) &&
              (d in Query.Loaded(lines, stem, skipEmpty)[t] ==> Query.Loaded(lines, stem, skipEmpty)[t][d] == CountFor(files, t, d))
  {
    var r := Reduced(files);
    SparkOutputLines(files, order);
    assert lines == LinesOf(r, order);
    SparkRoundTrip(r, order, stem, skipEmpty);
    SparkTermEmitted(files, t);
    SparkPostings(files, t, d);
  }

  /** The loaded lines hold exactly the terms of `order`, each with its postings. */
  lemma SparkLoadedInOrder(r: map<Key, int>, order: seq<string>, stem: string -> string, skipEmpty: bool)
    requires forall t :: t in order ==> t in Terms(r)
    requires forall i, j :: 0 <= i < j < |order| ==> order[i] != order[j]
    requires forall t :: t in order ==> IsWord(t, IsSpace) && stem(t) == t
    requires forall k :: k in r ==> NoColon(k.1) && NoSep(k.1, IsSpace)
    ensures forall t :: t in Query.Loaded(LinesOf(r, order), stem, skipEmpty) <==> t in order
    ensures forall i :: 0 <= i < |order| ==> Query.Loaded(LinesOf(r, order), stem, skipEmpty)[order[i]] == TermPostings(r, order[i])
  {
    var lines, entries := LinesOf(r, order), EntriesOf(r, order);
    SparkLinesParse(r, order, stem, skipEmpty);
    SparkEntriesNonEmpty(r, order);
    Query.LoadedDistinct(lines, stem, skipEmpty, entries);
    KeysInOrder(Query.Loaded(lines, stem, skipEmpty), entries, order);
  }

  /** A map keyed by the first components of `entries` is keyed by `order` when those components are `order`. */
  lemma KeysInOrder(loaded: map<string, Postings>, entries: seq<(string, Postings)>, order: seq<string>)
    requires |entries| == |order| && forall i :: 0 <= i < |order| ==> entries[i].0 == order[i]
    requires forall t :: t in loaded <==> exists i :: 0 <= i < |entries| && entries[i].0 == t
    requires forall i :: 0 <= i < |entries| ==> loaded[entries[i].0] == entries[i].1
    ensures forall t :: t in loaded <==> t in order
    ensures forall i :: 0 <= i < |order| ==> loaded[order[i]] == entries[i].1
  {
    forall t ensures t in loaded <==> t in order {
      if t in loaded {
        var i :| 0 <= i < |entries| && entries[i].0 == t;
      }
      if t in order {
        var i :| 0 <= i < |order| && order[i] == t;
        assert entries[i].0 == t;
      }
    }
  }

  lemma SparkLinesParse(r: map<Key, int>, order: seq<string>, stem: string -> string, skipEmpty: bool)
    requires forall t :: t in order ==> IsWord(t, IsSpace) && stem(t) == t
    requires forall k :: k in r ==> NoColon(k.1) && NoSep(k.1, IsSpace)
    ensures forall i :: 0 <= i < |order| ==> Query.ParsedLine(LinesOf(r, order)[i], stem, skipEmpty) == EntriesOf(r, order)[i]
  {
    forall i | 0 <= i < |order| ensures Query.ParsedLine(LinesOf(r, order)[i], stem, skipEmpty) == EntriesOf(r, order)[i] {
      var t := order[i];
      TermPostingsPlain(r, t);
      SparkLineParses(r, t, stem, skipEmpty);
    }
  }

  lemma TermPostingsPlain(r: map<Key, int>, t: string)
    requires forall k :: k in r ==> NoColon(k.1) && NoSep(k.1, IsSpace)
    ensures PlainDocs(TermPostings(r, t))
  {
    forall d | d in TermPostings(r, t) ensures NoColon(d) && NoSep(d, IsSpace) {
      assert (t, d) in r;
    }
  }

  lemma SparkEntriesNonEmpty(r: map<Key, int>, order: seq<string>)
    requires forall t :: t in order ==> t in Terms(r) && IsWord(t, IsSpace)
    ensures forall i :: 0 <= i < |order| ==> EntriesOf(r, order)[i].0 != "" && EntriesOf(r, order)[i].1 != map[]
  {
    forall i | 0 <= i < |order| ensures EntriesOf(r, order)[i].0 != "" && EntriesOf(r, order)[i].1 != map[] {
      var t := order[i];
      assert t in Terms(r);
      var k :| k in r && k.0 == t;
      assert k.1 in DocsFor(r, t);
    }
  }
}
