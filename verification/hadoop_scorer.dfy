/**
 * `score_documents` of `hadoop/document_scorer.py`, over the reader and
 * NLTK stemmer (the parameter `porter`) of `hadoop/query_index.py`: every
 * query word's stem is scored, none filtered.
 */
module HadoopScorer {
  import opened Wrappers
  import opened Postings
  import Query
  import HadoopQuery
  import opened Scoring

  /** `[stem(t) for t in query_terms]` */
  function HadoopStems(porter: string -> string, terms: seq<string>): (stems: seq<string>)
    ensures |stems| == |terms|
    ensures forall i :: 0 <= i < |terms| ==> stems[i] == HadoopQuery.Stem(porter, terms[i])
  {
    Query.StemsOfAll(terms, HadoopQuery.StemFn(porter));
    Query.StemsOf(terms, HadoopQuery.StemFn(porter), false)
  }

  /**
   * `score_documents`: every document listed under some stem, scored by
   * term frequency plus the partial-match bonus (every stem is an index
   * key listing the document) and the phrase bonus; `exact` lists the
   * scored documents whose text holds the phrase, each once.
   */
  method ScoreDocuments(porter: string -> string, lines: seq<string>, terms: seq<string>, read: string -> Option<string>)
    returns (scores: map<string, int>, exact: seq<string>)
    ensures var index := Query.Loaded(lines, HadoopQuery.StemFn(porter), false);
            forall d :: d in scores <==> exists s :: s in HadoopStems(porter, terms) && d in DocsOf(index, s)
    ensures var index := Query.Loaded(lines, HadoopQuery.StemFn(porter), false);
            forall d :: d in scores ==> scores[d] == Score(index, HadoopStems(porter, terms), Phrase(terms), read, d)
    ensures forall d :: d in exact <==> d in scores && PhraseHit(read, Phrase(terms), d)
    ensures forall i, j :: 0 <= i < j < |exact| ==> exact[i] != exact[j]
  {
    var index := HadoopQuery.LoadIndex(porter, lines);
    var stems := HadoopStems(porter, terms);
    var phrase := Phrase(terms);
    scores, exact := Rank(index, stems, phrase, read);
  }

  /** `stem in index and doc in index[stem]` is the partial-match test `HasAll` states with `index.get`. */
  lemma PartialMatchTest(index: Index, stems: seq<string>, doc: string)
    ensures HasAll(index, stems, doc) <==> forall s :: s in stems ==> s in index && doc in index[s]
  {
  }
}
