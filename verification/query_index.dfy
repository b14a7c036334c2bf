/**
 * The query side of the non-Hadoop pipeline (`invertedindex/query_index.py`):
 * a fixed stop-word list, a hand-written suffix stemmer, and the index
 * reader and AND-query over that stemmer with stop words skipped.
 */
module QueryIndex {
  import opened Chars
  import opened Strings
  import opened Postings
  import opened IndexFormat
  import Query

  /** `STOP_WORDS`, the union of four alphabetical ranges. */
  const StopWords: set<string> := StopWordsAtoD + StopWordsEtoM + StopWordsNtoS + StopWordsTtoZ

  const StopWordsAtoD: set<string> := {
    "a", "about", "above", "after", "again", "against", "all", "am", "an", "and", "any", "are", "as", "at",
    "be", "because", "been", "before", "being", "below", "between", "both", "but", "by", "could", "did",
    "do", "does", "doing", "down", "during"
  }

  const StopWordsEtoM: set<string> := {
    "each", "few", "for", "from", "further", "had", "has", "have", "having", "he", "her", "here", "hers",
    "herself", "him", "himself", "his", "how", "i", "if", "in", "into", "is", "it", "its", "itself", "just",
    "me", "more", "most", "my", "myself"
  }

  const StopWordsNtoS: set<string> := {
    "no", "nor", "not", "now", "of", "off", "on", "once", "only", "or", "other", "our", "ours", "ourselves",
    "out", "over", "own", "same", "she", "should", "so", "some", "such"
  }

  const StopWordsTtoZ: set<string> := {
    "than", "that", "the", "their", "theirs", "them", "themselves", "then", "there", "these", "they", "this",
    "those", "through", "to", "too", "under", "until", "up", "very", "was", "we", "were", "what", "when",
    "where", "which", "while", "who", "whom", "why", "with", "you", "your", "yours", "yourself",
    "yourselves"
  }

  /**
   * `PorterStemmer.stem` after lower-casing: keep words of at most two
   * letters, then the first matching rule of `sses -> ss`, `ies -> i`,
   * `ss -> ss`, `s -> ""`. The result is a prefix of the word, empty only
   * for the empty word.
   */
  function SuffixRules(w: string): (r: string)
    ensures |r| <= |w| && r == w[..|r|]
    ensures r == "" <==> w == ""
  {
    if |w| <= 2 then w
    else if EndsWith(w, "sses") then w[..|w| - 2]
    else if EndsWith(w, "ies") then w[..|w| - 2]
    else if EndsWith(w, "ss") then w
    else if EndsWith(w, "s") then w[..|w| - 1]
    else w
  }

  /** `PorterStemmer.stem` */
  function PorterStem(word: string): (r: string)
    ensures |r| <= |word| && r == LowerStr(word)[..|r|]
    ensures r == "" <==> word == ""
    ensures |word| <= 2 ==> r == LowerStr(word)
  {
    SuffixRules(LowerStr(word))
  }

  /** `stem`: the empty string for a stop word (after lower-casing), else the suffix stem. */
  function Stem(word: string): string {
    var w := LowerStr(word);
    if w in StopWords then "" else PorterStem(w)
  }

  lemma EndsWithAt(w: string, suffix: string, k: nat)
    requires EndsWith(w, suffix) && 1 <= k <= |suffix|
    ensures w[|w| - k] == suffix[|suffix| - k]
  {
    assert w[|w| - |suffix|..][|suffix| - k] == w[|w| - k];
  }

  /** A word none of whose rules fire is left as it is. */
  lemma NoRuleFires(r: string)
    requires |r| > 2 && r[|r| - 1] != 's'
    ensures SuffixRules(r) == r
  {
  }

  /** A word whose `k`-th last character differs from the suffix's does not end with it. */
  lemma NotEndsWith(w: string, suffix: string, k: nat)
    requires 1 <= k <= |suffix| && k <= |w| && w[|w| - k] != suffix[|suffix| - k]
    ensures !EndsWith(w, suffix)
  {
    if EndsWith(w, suffix) {
      EndsWithAt(w, suffix, k);
    }
  }

  /** A word ending in `ss` is left as it is. */
  lemma SsKept(r: string)
    requires |r| > 2 && r[|r| - 2] == 's' && r[|r| - 1] == 's'
    ensures SuffixRules(r) == r
  {
    NotEndsWith(r, "sses", 2);
    NotEndsWith(r, "ies", 2);
    assert r[|r| - 2..] == "ss";
  }

  lemma SsesIdempotent(w: string)
    requires |w| > 2 && EndsWith(w, "sses")
    ensures SuffixRules(w[..|w| - 2]) == w[..|w| - 2]
  {
    var r := w[..|w| - 2];
    EndsWithAt(w, "sses", 3);
    EndsWithAt(w, "sses", 4);
    if |r| > 2 {
      SsKept(r);
    }
  }

  lemma IesIdempotent(w: string)
    requires |w| > 2 && EndsWith(w, "ies")
    ensures SuffixRules(w[..|w| - 2]) == w[..|w| - 2]
  {
    EndsWithAt(w, "ies", 3);
    if |w| - 2 > 2 {
      NoRuleFires(w[..|w| - 2]);
    }
  }

  lemma SIdempotent(w: string)
    requires |w| > 2 && EndsWith(w, "s") && !EndsWith(w, "ss")
    ensures SuffixRules(w[..|w| - 1]) == w[..|w| - 1]
  {
    EndsWithAt(w, "s", 1);
    if |w| - 1 > 2 {
      NoRuleFires(w[..|w| - 1]);
    }
  }

  /** The suffix rules change nothing on their own output: no rule leaves a suffix another rule removes. */
  lemma SuffixRulesIdempotent(w: string)
    ensures SuffixRules(SuffixRules(w)) == SuffixRules(w)
  {
    if |w| <= 2 {
    } else if EndsWith(w, "sses") {
      SsesIdempotent(w);
    } else if EndsWith(w, "ies") {
      IesIdempotent(w);
    } else if EndsWith(w, "ss") {
    } else if EndsWith(w, "s") {
      SIdempotent(w);
    }
  }

  /** The stemmer changes nothing on its own output. */
  lemma PorterStemIdempotent(word: string)
    ensures PorterStem(PorterStem(word)) == PorterStem(word)
  {
    var w := LowerStr(word);
    var r := SuffixRules(w);
    LowerStrIdempotent(word);
    assert LowerStr(r) == r by {
      assert r == w[..|r|];
    }
    SuffixRulesIdempotent(w);
  }

  /**
   * `stem` gives the empty string exactly for the empty word and the stop
   * words; every other stem is lower case.
   */
  lemma StemEmpty(word: string)
    ensures Stem(word) == "" <==> word == "" || LowerStr(word) in StopWords
    ensures LowerStr(Stem(word)) == Stem(word)
  {
    var w := LowerStr(word);
    LowerStrIdempotent(word);
    StopWordsExclude();
    if w !in StopWords {
      var r := PorterStem(w);
      assert r == w[..|r|];
    }
  }

  /**
   * `stem` is not idempotent: the stem of a word can itself be a stop
   * word, so re-stemming a written term can drop it.
   */
  lemma StemNotIdempotent()
    ensures Stem("ons") == "on" && Stem("on") == ""
  {
    OnsLower();
    OnsStopWords();
    OnsRule();
  }

  lemma OnsLower()
    ensures LowerStr("ons") == "ons" && LowerStr("on") == "on"
  {
    assert LowerStr("ons") == "ons";
  }

  lemma OnsStopWords()
    ensures "ons" !in StopWords && "on" in StopWords
  {
    assert "on" in StopWordsNtoS;
    StopWordsExclude();
  }

  /** Neither the empty word nor `ons` is a stop word. */
  lemma StopWordsExclude()
    ensures "" !in StopWords && "ons" !in StopWords
  {
    AtoDExcludes();
    EtoMExcludes();
    NtoSExcludes();
    TtoZExcludes();
  }

  /** `aren` is not in `STOP_WORDS`. */
  lemma ArenNotStopWord()
    ensures "aren" !in StopWords
  {
    AtoDExcludes();
    EtoMExcludes();
    NtoSExcludes();
    TtoZExcludes();
  }

  lemma AtoDExcludes()
    ensures "" !in StopWordsAtoD && "ons" !in StopWordsAtoD && "aren" !in StopWordsAtoD
  {
  }

  lemma EtoMExcludes()
    ensures "" !in StopWordsEtoM && "ons" !in StopWordsEtoM && "aren" !in StopWordsEtoM
  {
  }

  lemma NtoSExcludes()
    ensures "" !in StopWordsNtoS && "ons" !in StopWordsNtoS && "aren" !in StopWordsNtoS
  {
  }

  lemma TtoZExcludes()
    ensures "" !in StopWordsTtoZ && "ons" !in StopWordsTtoZ && "aren" !in StopWordsTtoZ
  {
  }

  lemma OnsRule()
    ensures SuffixRules("ons") == "on"
  {
    assert EndsWith("ons", "s") && !EndsWith("ons", "ss");
  }

  /** `_parse_index_line` with this stemmer: blank lines and stop-word terms give `("", {})`. */
  method ParseIndexLine(line: string) returns (term: string, postings: Postings)
    ensures (term, postings) == Query.ParsedLine(line, Stem, true)
    ensures term == "" ==> postings == map[]
  {
    term, postings := Query.ParseIndexLine(line, Stem, true);
  }

  /** `load_index`: lines with an empty term are skipped; each term holds the sum of the postings of its lines. */
  method LoadIndex(lines: seq<string>) returns (index: Index)
    ensures index == Query.Loaded(lines, Stem, true)
    ensures "" !in index
    ensures forall t :: PostingsFor(index, t) == SumMaps(PostingsOfTerm(Query.KeptParsed(lines, Stem, true), t))
  {
    index := Query.LoadIndex(lines, Stem, true);
    forall t ensures PostingsFor(index, t) == SumMaps(PostingsOfTerm(Query.KeptParsed(lines, Stem, true), t)) {
      Query.LoadedSkipping(lines, Stem, t);
    }
    Query.LoadedSkipping(lines, Stem, "");
  }

  /**
   * `docs_with_all_terms`: the documents listed under the stem of every
   * query word that is not a stop word; empty when every word is one.
   */
  method DocsWithAllTerms(index: Index, terms: seq<string>) returns (r: set<string>)
    ensures forall d :: d in r <==>
              (exists t :: t in terms && Stem(t) != "") &&
              forall t :: t in terms && Stem(t) != "" ==> d in DocsOf(index, Stem(t))
  {
    r := Query.DocsWithAllTerms(index, terms, Stem, true);
  }
}
