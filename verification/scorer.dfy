/**
 * `score_documents` of `invertedindex/document_scorer.py`, over the reader
 * and hand-written stemmer of `invertedindex/query_index.py`: query words
 * that are stop words or stem to nothing are dropped, the rest scored by
 * term frequency, then the two bonuses are added.
 */
module Scorer {
  import opened Wrappers
  import opened Chars
  import opened Postings
  import Query
  import QueryIndex
  import opened Scoring

  /** `[stem(t) for t in query_terms if t.lower() not in STOP_WORDS and stem(t)]` */
  function ScorerStems(terms: seq<string>): seq<string> {
    if terms == [] then []
    else
      var t := terms[|terms| - 1];
      ScorerStems(terms[..|terms| - 1])
        + (if LowerStr(t) !in QueryIndex.StopWords && QueryIndex.Stem(t) != "" then [QueryIndex.Stem(t)] else [])
  }

  /**
   * The stop-word test is implied by the non-empty-stem test: the scorer
   * looks up the same stems as `docs_with_all_terms`, duplicates kept.
   */
  lemma {:induction false} ScorerStemsSpec(terms: seq<string>)
    ensures ScorerStems(terms) == Query.StemsOf(terms, QueryIndex.Stem, true)
  {
    if terms != [] {
      ScorerStemsSpec(terms[..|terms| - 1]);
      QueryIndex.StemEmpty(terms[|terms| - 1]);
    }
  }

  /**
   * `score_documents`: every document listed under some stem, scored by
   * term frequency plus the partial-match and phrase bonuses; `exact` lists
   * the scored documents whose text holds the phrase, each once.
   */
  method ScoreDocuments(lines: seq<string>, terms: seq<string>, read: string -> Option<string>)
    returns (scores: map<string, int>, exact: seq<string>)
    ensures var index := Query.Loaded(lines, QueryIndex.Stem, true);
            forall d :: d in scores <==> exists s :: s in ScorerStems(terms) && d in DocsOf(index, s)
    ensures var index := Query.Loaded(lines, QueryIndex.Stem, true);
            forall d :: d in scores ==> scores[d] == Score(index, ScorerStems(terms), Phrase(terms), read, d)
    ensures forall d :: d in exact <==> d in scores && PhraseHit(read, Phrase(terms), d)
    ensures forall i, j :: 0 <= i < j < |exact| ==> exact[i] != exact[j]
  {
    var index := QueryIndex.LoadIndex(lines);
    var stems := ScorerStems(terms);
    var phrase := Phrase(terms);
    scores, exact := Rank(index, stems, phrase, read);
  }
}
