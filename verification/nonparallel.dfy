/**
 * The sequential builder (`pythonNonParallel/inverted_index_nonparallel.py`):
 * normalise each file's text, count its non-stop-word tokens, assign the
 * counts into the index under the file's base name, and write one sorted
 * line per term.
 */
module NonParallel {
  import opened Chars
  import opened Strings
  import opened Postings
  import opened IndexFormat
  import opened Tokenizer
  import Order
  import Query
  import QueryIndex

  /** The default set of `load_stop_words`, as the union of four alphabetical ranges. */
  const DefaultStopWords: set<string> := DefaultAtoD + DefaultEtoM + DefaultNtoS + DefaultTtoZ

  const DefaultAtoD: set<string> := {
    "a", "about", "above", "after", "again", "against", "all", "am", "an", "and", "any", "are", "aren", "as",
    "at", "be", "because", "been", "before", "being", "below", "between", "both", "but", "by", "can",
    "cannot", "could", "couldn", "d", "did", "didn", "do", "does", "doesn", "doing", "don", "down", "during"
  }

  const DefaultEtoM: set<string> := {
    "each", "few", "for", "from", "further", "had", "hadn", "has", "hasn", "have", "haven", "having", "he",
    "her", "here", "hers", "herself", "him", "himself", "his", "how", "i", "if", "in", "into", "is", "isn",
    "it", "its", "itself", "just", "ll", "m", "ma", "me", "more", "most", "my", "myself"
  }

  const DefaultNtoS: set<string> := {
    "no", "nor", "not", "now", "o", "of", "off", "on", "once", "only", "or", "other", "our", "ours",
    "ourselves", "out", "over", "own", "re", "s", "same", "she", "should", "shouldn", "so", "some", "such"
  }

  const DefaultTtoZ: set<string> := {
    "t", "than", "that", "the", "their", "theirs", "them", "themselves", "then", "there", "these", "they",
    "this", "those", "through", "to", "too", "under", "until", "up", "ve", "very", "was", "wasn", "we",
    "were", "weren", "what", "when", "where", "which", "while", "who", "whom", "why", "will", "with", "won",
    "wouldn", "y", "you", "your", "yours", "yourself", "yourselves"
  }

  /**
   * The default list holds every word of the query side's `STOP_WORDS` and
   * more: contraction stems such as `aren` and `can` are dropped at build
   * time but are ordinary terms for the query side.
   */
  lemma DefaultStopWordsWider()
    ensures QueryIndex.StopWords < DefaultStopWords
    ensures "aren" in DefaultStopWords && "aren" !in QueryIndex.StopWords
  {
    assert QueryIndex.StopWordsAtoD <= DefaultAtoD;
    assert QueryIndex.StopWordsEtoM <= DefaultEtoM;
    assert QueryIndex.StopWordsNtoS <= DefaultNtoS;
    assert QueryIndex.StopWordsTtoZ <= DefaultTtoZ;
    assert "aren" in DefaultAtoD;
    QueryIndex.ArenNotStopWord();
  }

  // ---------------------------------------------------------------------
  // normalize_text

  /** `normalize_text`: lowercase, blank out non-alphanumerics, split on whitespace, drop empty pieces. */
  method NormalizeText(text: string) returns (tokens: seq<string>)
    ensures tokens == Normalized(text)
    ensures forall i :: 0 <= i < |tokens| ==>
              |tokens[i]| > 0 && forall j :: 0 <= j < |tokens[i]| ==> IsAlnum(tokens[i][j]) && !IsUpper(tokens[i][j])
    ensures Flatten(tokens) == Alnums(LowerStr(text))
  {
    var lowered := LowerStr(text);
    var chars: string := [];
    for i := 0 to |lowered|
      invariant chars == Clean(lowered[..i])
    {
      chars := chars + [if IsAlnum(lowered[i]) then lowered[i] else ' '];
    }
    assert lowered[..|lowered|] == lowered;
    var pieces := Split(chars, IsSpace);
    SplitShape(chars, IsSpace);
    forall i | 0 <= i < |pieces| ensures pieces[i] != [] {
      assert IsWord(pieces[i], IsSpace);
    }
    NonEmptyOfWords(pieces);
    tokens := NonEmptyOf(pieces);
    NormalizedShape(text);
  }

  // ---------------------------------------------------------------------
  // process_document

  /** The tokens `process_document` counts: the non-empty ones outside the stop-word set, in order. */
  function KeptTokens(tokens: seq<string>, stopWords: set<string>): seq<string> {
    if tokens == [] then []
    else
      var t := tokens[|tokens| - 1];
      KeptTokens(tokens[..|tokens| - 1], stopWords) + (if t != "" && t !in stopWords then [t] else [])
  }

  /** The term counts of one document's content; `{}` for empty or unreadable content. */
  function TermCounts(content: string, stopWords: set<string>): map<string, int> {
    if content == "" then map[] else Tally(KeptTokens(Normalized(content), stopWords))
  }

  /** Filtering keeps every occurrence of a kept token and none of the others. */
  lemma {:induction false} KeptTokensCount(tokens: seq<string>, stopWords: set<string>, t: string)
    ensures multiset(KeptTokens(tokens, stopWords))[t] == if t != "" && t !in stopWords then multiset(tokens)[t] else 0
  {
    if tokens != [] {
      var init := tokens[..|tokens| - 1];
      var last := tokens[|tokens| - 1];
      var tail := if last != "" && last !in stopWords then [last] else [];
      KeptTokensCount(init, stopWords, t);
      LastSplit(tokens);
      assert KeptTokens(tokens, stopWords) == KeptTokens(init, stopWords) + tail;
      assert multiset(KeptTokens(tokens, stopWords)) == multiset(KeptTokens(init, stopWords)) + multiset(tail);
    }
  }

  /** A non-empty sequence is its prefix followed by its last element. */
  lemma LastSplit<T>(s: seq<T>)
    requires s != []
    ensures s == s[..|s| - 1] + [s[|s| - 1]]
    ensures multiset(s) == multiset(s[..|s| - 1]) + multiset{s[|s| - 1]}
  {
    assert s == s[..|s| - 1] + [s[|s| - 1]];
  }

  /**
   * `process_document` counts each non-stop-word token of the normalised
   * text: the keys are exactly those tokens and each count is the token's
   * number of occurrences, at least one.
   */
  lemma TermCountsSpec(content: string, stopWords: set<string>)
    ensures forall t :: t in TermCounts(content, stopWords) <==> t in Normalized(content) && t !in stopWords
    ensures forall t :: t in TermCounts(content, stopWords) ==>
              TermCounts(content, stopWords)[t] == multiset(Normalized(content))[t] >= 1
  {
    if content != "" {
      var tokens := Normalized(content);
      var kept := KeptTokens(tokens, stopWords);
      TallyCounts(kept);
      NormalizedShape(content);
      forall t ensures t in Tally(kept) <==> t in tokens && t !in stopWords {
        KeptTokensCount(tokens, stopWords, t);
        if t in tokens {
          var i :| 0 <= i < |tokens| && tokens[i] == t;
        }
      }
      forall t | t in Tally(kept) ensures Tally(kept)[t] == multiset(tokens)[t] {
        KeptTokensCount(tokens, stopWords, t);
      }
    } else {
      assert Normalized(content) == [];
    }
  }

  /**
   * `process_document`: `{}` for empty or unreadable content (the read
   * oracle answers `""`), otherwise `term_counts[token] += 1` for every
   * non-empty, non-stop-word token of `normalize_text(content)`.
   */
  method ProcessDocument(path: string, stopWords: set<string>, read: string -> string) returns (termCounts: map<string, int>)
    ensures termCounts == TermCounts(read(path), stopWords)
    ensures forall t :: t in termCounts <==> t in Normalized(read(path)) && t !in stopWords
    ensures forall t :: t in termCounts ==> termCounts[t] == multiset(Normalized(read(path)))[t] >= 1
  {
    var content := read(path);
    TermCountsSpec(content, stopWords);
    if content == "" {
      return map[];
    }
    termCounts := CountTokens(content, stopWords);
  }

  /** The counting loop of `process_document`, over non-empty content. */
  method CountTokens(content: string, stopWords: set<string>) returns (termCounts: map<string, int>)
    requires content != ""
    ensures termCounts == TermCounts(content, stopWords)
  {
    var tokens := NormalizeText(content);
    termCounts := CountKept(tokens, stopWords);
  }

  /** `term_counts[token] += 1` for each kept token, in order. */
  method CountKept(tokens: seq<string>, stopWords: set<string>) returns (termCounts: map<string, int>)
    ensures termCounts == Tally(KeptTokens(tokens, stopWords))
  {
    termCounts := map[];
    for i := 0 to |tokens|
      invariant termCounts == Tally(KeptTokens(tokens[..i], stopWords))
    {
      var token := tokens[i];
      CountKeptStep(tokens, i, stopWords);
      if token != "" && token !in stopWords {
        termCounts := termCounts[token := Get(termCounts, token) + 1];
      }
    }
    assert tokens[..|tokens|] == tokens;
  }

  lemma CountKeptStep(tokens: seq<string>, i: nat, stopWords: set<string>)
    requires i < |tokens|
    ensures var counts := Tally(KeptTokens(tokens[..i], stopWords));
            Tally(KeptTokens(tokens[..i + 1], stopWords)) ==
              if tokens[i] != "" && tokens[i] !in stopWords then counts[tokens[i] := Get(counts, tokens[i]) + 1] else counts
  {
    KeptTokensStep(tokens, i, stopWords);
    var kept := KeptTokens(tokens[..i], stopWords);
    if tokens[i] != "" && tokens[i] !in stopWords {
      TallySnoc(kept, tokens[i]);
    } else {
      assert kept + [] == kept;
    }
  }

  lemma KeptTokensStep(tokens: seq<string>, i: nat, stopWords: set<string>)
    requires i < |tokens|
    ensures KeptTokens(tokens[..i + 1], stopWords) ==
              KeptTokens(tokens[..i], stopWords) + (if tokens[i] != "" && tokens[i] !in stopWords then [tokens[i]] else [])
  {
    assert tokens[..i + 1][..i] == tokens[..i];
  }

  // ---------------------------------------------------------------------
  // build_inverted_index

  /** `inverted_index[term][doc] = count` for every entry of `tf`: assignment, not addition. */
  function AssignDoc(index: Index, doc: string, tf: map<string, int>): Index {
    map t | t in index.Keys + tf.Keys :: if t in tf then PostingsFor(index, t)[doc := tf[t]] else index[t]
  }

  /** The (base name, term counts) pair each file contributes, in file order. */
  function DocCounts(files: seq<string>, stopWords: set<string>, read: string -> string): (r: seq<(string, map<string, int>)>)
    ensures |r| == |files|
    ensures forall i :: 0 <= i < |files| ==> r[i] == (Basename(files[i]), TermCounts(read(files[i]), stopWords))
  {
    seq(|files|, i requires 0 <= i < |files| => (Basename(files[i]), TermCounts(read(files[i]), stopWords)))
  }

  /** The index the assignments of a list of (document, term counts) pairs build, in list order. */
  function AssignAll(docs: seq<(string, map<string, int>)>): Index {
    if docs == [] then map[]
    else
      var last := docs[|docs| - 1];
      AssignDoc(AssignAll(docs[..|docs| - 1]), last.0, last.1)
  }

  /** The index `build_inverted_index` builds from the files, in the order given. */
  function BuildSpec(files: seq<string>, stopWords: set<string>, read: string -> string): Index {
    AssignAll(DocCounts(files, stopWords, read))
  }

  lemma AssignDocStep(index: Index, doc: string, tf: map<string, int>, done: set<string>, t: string)
    requires t in tf && t !in done
    ensures var cur := AssignDoc(index, doc, Restrict(tf, done));
            AssignDoc(index, doc, Restrict(tf, done + {t})) == cur[t := PostingsFor(cur, t)[doc := tf[t]]]
  {
    var before, after := Restrict(tf, done), Restrict(tf, done + {t});
    assert after == before[t := tf[t]];
    assert PostingsFor(AssignDoc(index, doc, before), t) == PostingsFor(index, t);
  }

  /** The inner loop of `build_inverted_index`: assign every count of `tf` under `doc`. */
  method AssignCounts(index: Index, doc: string, tf: map<string, int>) returns (index': Index)
    ensures index' == AssignDoc(index, doc, tf)
  {
    index' := index;
    assert AssignDoc(index, doc, Restrict(tf, {})) == index;
    var todo := tf.Keys;
    while todo != {}
      invariant todo <= tf.Keys
      invariant index' == AssignDoc(index, doc, Restrict(tf, tf.Keys - todo))
      decreases todo
    {
      var t :| t in todo;
      AssignDocStep(index, doc, tf, tf.Keys - todo, t);
      assert tf.Keys - (todo - {t}) == (tf.Keys - todo) + {t};
      index' := index'[t := PostingsFor(index', t)[doc := tf[t]]];
      todo := todo - {t};
    }
    assert tf.Keys - todo == tf.Keys;
    assert Restrict(tf, tf.Keys) == tf;
  }

  /**
   * `build_inverted_index` over the list of files: each file's term counts
   * are assigned under its base name; files with no counts are skipped.
   */
  method BuildInvertedIndex(files: seq<string>, stopWords: set<string>, read: string -> string) returns (index: Index)
    ensures index == BuildSpec(files, stopWords, read)
  {
    index := map[];
    for i := 0 to |files|
      invariant index == BuildSpec(files[..i], stopWords, read)
    {
      ghost var docs := DocCounts(files[..i + 1], stopWords, read);
      assert docs[..i] == DocCounts(files[..i], stopWords, read);
      var fileName := Basename(files[i]);
      var termFrequencies := ProcessDocument(files[i], stopWords, read);
      if termFrequencies == map[] {
        assert AssignDoc(index, fileName, termFrequencies) == index;
        continue;
      }
      index := AssignCounts(index, fileName, termFrequencies);
    }
    assert files[..|files|] == files;
  }

  lemma AssignDocPostings(index: Index, doc: string, tf: map<string, int>, t: string)
    ensures PostingsFor(AssignDoc(index, doc, tf), t) ==
              if t in tf then PostingsFor(index, t)[doc := tf[t]] else PostingsFor(index, t)
  {
  }

  /** `if not term_frequencies: continue`: a file without counts leaves the index as it was. */
  lemma AssignDocEmpty(index: Index, doc: string)
    ensures AssignDoc(index, doc, map[]) == index
  {
  }

  /** Entry `e` assigns a count for term `t` under document name `d`. */
  ghost predicate Writes(e: (string, map<string, int>), t: string, d: string) {
    e.0 == d && t in e.1
  }

  /**
   * Last writer wins: `d` is listed under `t` iff some entry for document
   * `d` has a count for `t`, and the count is the one of the LAST such
   * entry, not a sum over entries sharing the document name.
   */
  lemma {:induction false} AssignAllLastWins(docs: seq<(string, map<string, int>)>, t: string, d: string)
    ensures d in PostingsFor(AssignAll(docs), t) <==> exists i :: 0 <= i < |docs| && Writes(docs[i], t, d)
    ensures d in PostingsFor(AssignAll(docs), t) ==>
              exists i :: 0 <= i < |docs| && Writes(docs[i], t, d) &&
                PostingsFor(AssignAll(docs), t)[d] == docs[i].1[t] &&
                forall j :: i < j < |docs| ==> !Writes(docs[j], t, d)
  {
    if docs != [] {
      var n := |docs| - 1;
      var init, e := docs[..n], docs[n];
      AssignAllLastWins(init, t, d);
      AssignDocPostings(AssignAll(init), e.0, e.1, t);
      if !Writes(e, t, d) {
        EarlierWritesWin(docs, t, d);
      }
    }
  }

  /** When the last entry does not write `d` under `t`, what holds for the earlier entries holds for all of them. */
  lemma EarlierWritesWin(docs: seq<(string, map<string, int>)>, t: string, d: string)
    requires docs != [] && !Writes(docs[|docs| - 1], t, d)
    requires var init := docs[..|docs| - 1];
      (d in PostingsFor(AssignAll(init), t) <==> exists i :: 0 <= i < |init| && Writes(init[i], t, d)) &&
      (d in PostingsFor(AssignAll(init), t) ==>
         exists i :: 0 <= i < |init| && Writes(init[i], t, d) &&
           PostingsFor(AssignAll(init), t)[d] == init[i].1[t] &&
           forall j :: i < j < |init| ==> !Writes(init[j], t, d))
    ensures d in PostingsFor(AssignAll(docs), t) <==> exists i :: 0 <= i < |docs| && Writes(docs[i], t, d)
    ensures d in PostingsFor(AssignAll(docs), t) ==>
              exists i :: 0 <= i < |docs| && Writes(docs[i], t, d) &&
                PostingsFor(AssignAll(docs), t)[d] == docs[i].1[t] &&
                forall j :: i < j < |docs| ==> !Writes(docs[j], t, d)
  {
    var n := |docs| - 1;
    var init, e := docs[..n], docs[n];
    var before := PostingsFor(AssignAll(init), t);
    AssignDocPostings(AssignAll(init), e.0, e.1, t);
    var p := PostingsFor(AssignAll(docs), t);
    assert d in p <==> d in before;
    assert d in p ==> p[d] == before[d];
    EarlierWritesNamed(docs, init, t, d);
    if d in before {
      var i :| 0 <= i < n && Writes(init[i], t, d) && before[d] == init[i].1[t] &&
        forall j :: i < j < n ==> !Writes(init[j], t, d);
      LaterWritesSkip(docs, init, t, d, i);
    }
  }

  lemma EarlierWritesNamed(docs: seq<(string, map<string, int>)>, init: seq<(string, map<string, int>)>, t: string, d: string)
    requires docs != [] && init == docs[..|docs| - 1] && !Writes(docs[|docs| - 1], t, d)
    ensures (exists i :: 0 <= i < |docs| && Writes(docs[i], t, d)) <==> (exists i :: 0 <= i < |init| && Writes(init[i], t, d))
  {
    if exists i :: 0 <= i < |docs| && Writes(docs[i], t, d) {
      var i :| 0 <= i < |docs| && Writes(docs[i], t, d);
      assert init[i] == docs[i];
    }
    if exists i :: 0 <= i < |init| && Writes(init[i], t, d) {
      var i :| 0 <= i < |init| && Writes(init[i], t, d);
      assert docs[i] == init[i];
    }
  }

  lemma LaterWritesSkip(docs: seq<(string, map<string, int>)>, init: seq<(string, map<string, int>)>, t: string, d: string, i: nat)
    requires docs != [] && init == docs[..|docs| - 1] && !Writes(docs[|docs| - 1], t, d) && i < |init|
    requires forall j :: i < j < |init| ==> !Writes(init[j], t, d)
    ensures docs[i] == init[i]
    ensures forall j :: i < j < |docs| ==> !Writes(docs[j], t, d)
  {
    forall j | i < j < |docs| ensures !Writes(docs[j], t, d) {
      if j < |init| {
        assert docs[j] == init[j];
      }
    }
  }

  /** The terms are exactly those some entry counts, each with at least one posting. */
  lemma {:induction false} AssignAllKeys(docs: seq<(string, map<string, int>)>)
    ensures forall t :: t in AssignAll(docs) <==> exists i :: 0 <= i < |docs| && t in docs[i].1
    ensures forall t :: t in AssignAll(docs) ==> AssignAll(docs)[t] != map[]
  {
    if docs != [] {
      var n := |docs| - 1;
      var init, e := docs[..n], docs[n];
      AssignAllKeys(init);
      forall t ensures t in AssignAll(docs) <==> exists i :: 0 <= i < |docs| && t in docs[i].1 {
        if exists i :: 0 <= i < |docs| && t in docs[i].1 {
          var i :| 0 <= i < |docs| && t in docs[i].1;
          if i < n {
            assert init[i] == docs[i];
          }
        }
        if t in AssignAll(init) {
          var i :| 0 <= i < n && t in init[i].1;
          assert docs[i] == init[i];
        }
      }
      forall t | t in AssignAll(docs) ensures AssignAll(docs)[t] != map[] {
        AssignDocPostings(AssignAll(init), e.0, e.1, t);
        if t in e.1 {
          assert e.0 in AssignAll(docs)[t];
        }
      }
    }
  }

  /**
   * What `build_inverted_index` builds: no stop word is a term, every term
   * has at least one posting, and the count under `d` is the (positive)
   * number of occurrences of the term in the last file with base name `d`
   * that contains it.
   */
  lemma BuildIndexSpec(files: seq<string>, stopWords: set<string>, read: string -> string, t: string, d: string)
    requires t in BuildSpec(files, stopWords, read)
    ensures t !in stopWords && t != ""
    ensures BuildSpec(files, stopWords, read)[t] != map[]
    ensures d in BuildSpec(files, stopWords, read)[t] <==>
              exists i :: 0 <= i < |files| && Basename(files[i]) == d && t in TermCounts(read(files[i]), stopWords)
    ensures d in BuildSpec(files, stopWords, read)[t] ==>
              exists i :: 0 <= i < |files| && Basename(files[i]) == d &&
                BuildSpec(files, stopWords, read)[t][d] == multiset(Normalized(read(files[i])))[t] >= 1 &&
                forall j :: i < j < |files| && Basename(files[j]) == d ==> t !in TermCounts(read(files[j]), stopWords)
  {
    BuildTermFacts(files, stopWords, read, t);
    BuildDocFacts(files, stopWords, read, t, d);
  }

  lemma BuildTermFacts(files: seq<string>, stopWords: set<string>, read: string -> string, t: string)
    requires t in BuildSpec(files, stopWords, read)
    ensures t !in stopWords && t != ""
    ensures BuildSpec(files, stopWords, read)[t] != map[]
  {
    var docs := DocCounts(files, stopWords, read);
    AssignAllKeys(docs);
    var i :| 0 <= i < |docs| && t in docs[i].1;
    TermCountsSpec(read(files[i]), stopWords);
    NormalizedShape(read(files[i]));
    var k :| 0 <= k < |Normalized(read(files[i]))| && Normalized(read(files[i]))[k] == t;
  }

  lemma BuildDocFacts(files: seq<string>, stopWords: set<string>, read: string -> string, t: string, d: string)
    requires t in BuildSpec(files, stopWords, read)
    ensures d in BuildSpec(files, stopWords, read)[t] <==>
              exists i :: 0 <= i < |files| && Basename(files[i]) == d && t in TermCounts(read(files[i]), stopWords)
    ensures d in BuildSpec(files, stopWords, read)[t] ==>
              exists i :: 0 <= i < |files| && Basename(files[i]) == d &&
                BuildSpec(files, stopWords, read)[t][d] == multiset(Normalized(read(files[i])))[t] >= 1 &&
                forall j :: i < j < |files| && Basename(files[j]) == d ==> t !in TermCounts(read(files[j]), stopWords)
  {
    var docs := DocCounts(files, stopWords, read);
    AssignAllLastWins(docs, t, d);
    if d in BuildSpec(files, stopWords, read)[t] {
      var j :| 0 <= j < |docs| && Writes(docs[j], t, d) && PostingsFor(AssignAll(docs), t)[d] == docs[j].1[t] &&
        forall m :: j < m < |docs| ==> !Writes(docs[m], t, d);
      TermCountsSpec(read(files[j]), stopWords);
      forall m | j < m < |files| && Basename(files[m]) == d ensures t !in TermCounts(read(files[m]), stopWords) {
        assert !Writes(docs[m], t, d);
      }
    }
    if exists i :: 0 <= i < |files| && Basename(files[i]) == d && t in TermCounts(read(files[i]), stopWords) {
      var i :| 0 <= i < |files| && Basename(files[i]) == d && t in TermCounts(read(files[i]), stopWords);
      assert Writes(docs[i], t, d);
    }
  }

  /** Two files with the same base name that both contain `t`: the second count replaces the first. */
  lemma OverwriteNotSum(p1: string, p2: string, stopWords: set<string>, read: string -> string, t: string)
    requires Basename(p1) == Basename(p2)
    requires t in TermCounts(read(p1), stopWords) && t in TermCounts(read(p2), stopWords)
    ensures BuildSpec([p1, p2], stopWords, read)[t][Basename(p1)] == TermCounts(read(p2), stopWords)[t]
  {
    var docs := DocCounts([p1, p2], stopWords, read);
    assert docs[..1][..0] == [];
    AssignDocPostings(AssignAll(docs[..1]), Basename(p2), TermCounts(read(p2), stopWords), t);
  }

  // ---------------------------------------------------------------------
  // format_output

  /** `[f"{doc}:{count}" for doc, count in sorted(postings.items())]` */
  function FieldsOf(p: Postings): (fs: seq<string>)
    ensures |fs| == |Order.Sorted(p.Keys)|
    ensures forall i :: 0 <= i < |fs| ==> Order.Sorted(p.Keys)[i] in p
  {
    var ds := Order.Sorted(p.Keys);
    seq(|ds|, i requires 0 <= i < |ds| => Field(ds[i], p[ds[i]]))
  }

  /**
   * The fields of a line: one `doc:count` field per posting, every field
   * written from a posting, and the documents in ascending order.
   */
  lemma FieldsOfSpec(p: Postings)
    ensures |FieldsOf(p)| == |p|
    ensures forall i :: 0 <= i < |FieldsOf(p)| ==> WrittenFrom(FieldsOf(p)[i], p)
    ensures forall d :: d in p ==> Field(d, p[d]) in FieldsOf(p)
    ensures Order.StrictlyAscending(Order.Sorted(p.Keys)) &&
            forall i :: 0 <= i < |FieldsOf(p)| ==> FieldsOf(p)[i] == Field(Order.Sorted(p.Keys)[i], p[Order.Sorted(p.Keys)[i]])
  {
    assert |p| == |p.Keys|;
    FieldsOfWritten(p);
    FieldsOfCover(p);
  }

  lemma FieldsOfWritten(p: Postings)
    ensures forall i :: 0 <= i < |FieldsOf(p)| ==> WrittenFrom(FieldsOf(p)[i], p)
  {
    var ds, fs := Order.Sorted(p.Keys), FieldsOf(p);
    forall i | 0 <= i < |fs| ensures WrittenFrom(fs[i], p) {
      assert fs[i] == Field(ds[i], p[ds[i]]);
    }
  }

  lemma FieldsOfCover(p: Postings)
    ensures forall d :: d in p ==> Field(d, p[d]) in FieldsOf(p)
  {
    var ds, fs := Order.Sorted(p.Keys), FieldsOf(p);
    forall d | d in p ensures Field(d, p[d]) in fs {
      var i :| 0 <= i < |ds| && ds[i] == d;
      assert fs[i] == Field(d, p[d]);
    }
  }

  /** One line of the output file: the term, a tab, then the sorted fields joined by single spaces. */
  function FormatLine(term: string, p: Postings): string {
    term + "\t" + JoinWith(FieldsOf(p), ' ')
  }

  /** `format_output`: one line per term of the index. */
  function FormatOutput(index: Index): (lines: seq<string>)
    ensures |lines| == |index|
  {
    var ts := Order.Sorted(index.Keys);
    assert |index| == |index.Keys|;
    seq(|ts|, i requires 0 <= i < |ts| => FormatLine(ts[i], index[ts[i]]))
  }

  /** `lines` are the lines of the terms `ts` of `index`, each term once, in ascending order. */
  ghost predicate LinesOfTerms(lines: seq<string>, ts: seq<string>, index: Index) {
    |ts| == |lines| && Order.StrictlyAscending(ts) && (forall t :: t in ts <==> t in index) &&
    forall i :: 0 <= i < |ts| ==> ts[i] in index && lines[i] == FormatLine(ts[i], index[ts[i]])
  }

  /** The lines of `format_output` are the lines of the terms, each term once, in ascending term order. */
  lemma FormatOutputOrder(index: Index)
    ensures exists ts :: LinesOfTerms(FormatOutput(index), ts, index)
  {
    var ts := Order.Sorted(index.Keys);
    FormatOutputLines(index);
    assert LinesOfTerms(FormatOutput(index), ts, index);
  }

  lemma FormatOutputLines(index: Index)
    ensures |FormatOutput(index)| == |Order.Sorted(index.Keys)|
    ensures forall i :: 0 <= i < |FormatOutput(index)| ==>
              FormatOutput(index)[i] == FormatLine(Order.Sorted(index.Keys)[i], index[Order.Sorted(index.Keys)[i]])
  {
    assert |index| == |index.Keys|;
  }

  /** One written line reads back as its term and postings. */
  lemma FormatLineParses(t: string, p: Postings, stem: string -> string, skipEmpty: bool)
    requires IsWord(t, IsSpace) && stem(t) == t
    requires PlainDocs(p)
    ensures Query.ParsedLine(FormatLine(t, p), stem, skipEmpty) == (t, p)
  {
    FieldsOfSpec(p);
    Query.ParsedLineRoundTrip(t, '\t', FieldsOf(p), ' ', p, stem, skipEmpty);
  }

  /**
   * Round trip with the readers (`load_index` of the query modules, with
   * their stemmer `stem`): loading the written lines gives the index back,
   * provided every term is its own stem and a whitespace-free word, every
   * term has a posting, and no document name holds whitespace or `:`.
   */
  lemma FormatOutputRoundTrip(index: Index, stem: string -> string, skipEmpty: bool)
    requires forall t :: t in index ==> IsWord(t, IsSpace) && stem(t) == t && index[t] != map[]
    requires forall t :: t in index ==> PlainDocs(index[t])
    ensures Query.Loaded(FormatOutput(index), stem, skipEmpty) == index
  {
    var lines, entries := FormatOutput(index), Entries(index);
    OutputLinesParse(index, stem, skipEmpty);
    EntriesDistinct(index);
    Query.LoadedDistinct(lines, stem, skipEmpty, entries);
    LoadedEntries(Query.Loaded(lines, stem, skipEmpty), index, Order.Sorted(index.Keys), entries);
  }

  /** The (term, postings) entries of the index, in ascending term order. */
  function Entries(index: Index): (entries: seq<(string, Postings)>)
    ensures |entries| == |Order.Sorted(index.Keys)|
    ensures forall i :: 0 <= i < |entries| ==>
              Order.Sorted(index.Keys)[i] in index && entries[i] == (Order.Sorted(index.Keys)[i], index[Order.Sorted(index.Keys)[i]])
  {
    var ts := Order.Sorted(index.Keys);
    seq(|ts|, i requires 0 <= i < |ts| => (ts[i], index[ts[i]]))
  }

  lemma EntriesDistinct(index: Index)
    requires forall t :: t in index ==> IsWord(t, IsSpace) && index[t] != map[]
    ensures forall i :: 0 <= i < |Entries(index)| ==> Entries(index)[i].0 != "" && Entries(index)[i].1 != map[]
    ensures forall i, j :: 0 <= i < j < |Entries(index)| ==> Entries(index)[i].0 != Entries(index)[j].0
  {
    var ts, entries := Order.Sorted(index.Keys), Entries(index);
    Order.AscendingDistinct(ts);
    forall i | 0 <= i < |entries| ensures entries[i].0 != "" && entries[i].1 != map[] {
      assert IsWord(ts[i], IsSpace);
    }
  }

  lemma OutputLinesParse(index: Index, stem: string -> string, skipEmpty: bool)
    requires forall t :: t in index ==> IsWord(t, IsSpace) && stem(t) == t
    requires forall t :: t in index ==> PlainDocs(index[t])
    ensures |FormatOutput(index)| == |Entries(index)|
    ensures forall i :: 0 <= i < |FormatOutput(index)| ==>
              Query.ParsedLine(FormatOutput(index)[i], stem, skipEmpty) == Entries(index)[i]
  {
    assert |index| == |index.Keys|;
    forall i | 0 <= i < |FormatOutput(index)| ensures Query.ParsedLine(FormatOutput(index)[i], stem, skipEmpty) == Entries(index)[i] {
      OutputLineParses(index, i, stem, skipEmpty);
    }
  }

  lemma OutputLineParses(index: Index, i: nat, stem: string -> string, skipEmpty: bool)
    requires forall t :: t in index ==> IsWord(t, IsSpace) && stem(t) == t
    requires forall t :: t in index ==> PlainDocs(index[t])
    requires i < |Order.Sorted(index.Keys)|
    ensures Order.Sorted(index.Keys)[i] in index
    ensures Query.ParsedLine(FormatOutput(index)[i], stem, skipEmpty) ==
              (Order.Sorted(index.Keys)[i], index[Order.Sorted(index.Keys)[i]])
  {
    var t := Order.Sorted(index.Keys)[i];
    var p := index[t];
    assert IsWord(t, IsSpace) && stem(t) == t;
    assert PlainDocs(p);
    FormatLineParses(t, p, stem, skipEmpty);
    assert FormatOutput(index)[i] == FormatLine(t, p) by {
      FormatOutputLines(index);
    }
  }

  lemma LoadedEntries(loaded: Index, index: Index, ts: seq<string>, entries: seq<(string, Postings)>)
    requires |entries| == |ts| && forall i :: 0 <= i < |ts| ==> ts[i] in index && entries[i] == (ts[i], index[ts[i]])
    requires forall t :: t in index ==> t in ts
    requires forall t :: t in loaded <==> exists i :: 0 <= i < |entries| && entries[i].0 == t
    requires forall i :: 0 <= i < |entries| ==> loaded[entries[i].0] == entries[i].1
    ensures loaded == index
  {
    forall t ensures t in loaded <==> t in index {
      if t in index {
        var i :| 0 <= i < |ts| && ts[i] == t;
        assert entries[i].0 == t;
      }
    }
    forall t | t in index ensures loaded[t] == index[t] {
      var i :| 0 <= i < |ts| && ts[i] == t;
      assert entries[i].0 == t;
    }
  }

}
