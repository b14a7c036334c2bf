/**
 * The query library shipped to the Spark workers
 * (`invertedindex/deps_build/querylib/__init__.py`): the same reading and
 * conjunctive search as `invertedindex/query_index.py`, but stemming with
 * NLTK's Porter stemmer, which is the parameter `porter` here (any
 * deterministic function). Its stop-word set is word for word the one of
 * `invertedindex/query_index.py`.
 */
module QueryLib {
  import opened Chars
  import opened Postings
  import opened IndexFormat
  import Query
  import QueryIndex

  /** `stem`: the empty string for a stop word, NLTK's stem of the lowercased word otherwise. */
  function Stem(porter: string -> string, word: string): string {
    var w := LowerStr(word);
    if w in QueryIndex.StopWords then "" else porter(w)
  }

  /** `stem` as the function value the readers take. */
  function StemFn(porter: string -> string): string -> string {
    w => Stem(porter, w)
  }

  /**
   * Stemming is case-insensitive, stop words never reach NLTK, and every
   * other word gets exactly NLTK's stem of its lowercase form.
   */
  lemma StemSpec(porter: string -> string, word: string)
    ensures Stem(porter, word) == Stem(porter, LowerStr(word))
    ensures LowerStr(word) in QueryIndex.StopWords ==> Stem(porter, word) == ""
    ensures LowerStr(word) !in QueryIndex.StopWords ==> Stem(porter, word) == porter(LowerStr(word))
  {
    LowerStrIdempotent(word);
  }

  /** `_parse_index_line`: lines whose first word stems to `""` (blank lines too) give `("", {})`. */
  method ParseIndexLine(porter: string -> string, line: string) returns (term: string, postings: Postings)
    ensures (term, postings) == Query.ParsedLine(line, StemFn(porter), true)
    ensures term == "" ==> postings == map[]
  {
    term, postings := Query.ParseIndexLine(line, StemFn(porter), true);
  }

  /** `load_index`: lines with an empty term are skipped; each term holds the sum of the postings of its lines. */
  method LoadIndex(porter: string -> string, lines: seq<string>) returns (index: Index)
    ensures index == Query.Loaded(lines, StemFn(porter), true)
    ensures "" !in index
    ensures forall t :: PostingsFor(index, t) == SumMaps(PostingsOfTerm(Query.KeptParsed(lines, StemFn(porter), true), t))
  {
    index := Query.LoadIndex(lines, StemFn(porter), true);
    forall t ensures PostingsFor(index, t) == SumMaps(PostingsOfTerm(Query.KeptParsed(lines, StemFn(porter), true), t)) {
      Query.LoadedSkipping(lines, StemFn(porter), t);
    }
    Query.LoadedSkipping(lines, StemFn(porter), "");
  }

  /**
   * `docs_with_all_terms`: the documents listed under the stem of every
   * query word whose stem is not empty; empty when no word has one.
   */
  method DocsWithAllTerms(porter: string -> string, index: Index, terms: seq<string>) returns (r: set<string>)
    ensures forall d :: d in r <==>
              (exists t :: t in terms && Stem(porter, t) != "") &&
              forall t :: t in terms && Stem(porter, t) != "" ==> d in DocsOf(index, Stem(porter, t))
  {
    r := Query.DocsWithAllTerms(index, terms, StemFn(porter), true);
  }
}
