/**
 * What the two document scorers share: the term-frequency pass, the bonus
 * pass and the score they add up to. Reading a document's raw text is the
 * parameter `read` (`None` when the file does not exist).
 */
module Scoring {
  import opened Wrappers
  import opened Chars
  import opened Strings
  import opened Postings

  /** `PARTIAL_MATCH_BONUS`: every stem lists the document. */
  const PartialMatchBonus := 5
  /** `EXACT_PHRASE_BONUS`: the raw text holds the query phrase. */
  const ExactPhraseBonus := 10

  /** The postings of each stem, in query order (`index.get(s, {})`). */
  function PostingsList(index: Index, stems: seq<string>): seq<Postings> {
    if stems == [] then [] else PostingsList(index, stems[..|stems| - 1]) + [PostingsFor(index, stems[|stems| - 1])]
  }

  /** The term-frequency score: the document's count under every stem, a repeated stem counted each time. */
  function Tf(index: Index, stems: seq<string>, doc: string): int {
    if stems == [] then 0 else Tf(index, stems[..|stems| - 1], doc) + Get(PostingsFor(index, stems[|stems| - 1]), doc)
  }

  /** `all(doc in index.get(s, {}) for s in stems)` */
  predicate HasAll(index: Index, stems: seq<string>, doc: string) {
    forall s :: s in stems ==> doc in DocsOf(index, s)
  }

  /** `" ".join(query_terms).lower()` */
  function Phrase(terms: seq<string>): string {
    LowerStr(JoinWith(terms, ' '))
  }

  /** The document's text exists and, lowercased, contains the phrase. */
  predicate PhraseHit(read: string -> Option<string>, phrase: string, doc: string) {
    read(doc).Some? && Contains(LowerStr(read(doc).value), phrase)
  }

  /** The final score of a scored document. */
  function Score(index: Index, stems: seq<string>, phrase: string, read: string -> Option<string>, doc: string): int {
    Tf(index, stems, doc)
    + (if HasAll(index, stems, doc) then PartialMatchBonus else 0)
    + (if PhraseHit(read, phrase, doc) then ExactPhraseBonus else 0)
  }

  /** The elements of `order` whose text holds the phrase, in order. */
  function Hits(read: string -> Option<string>, phrase: string, order: seq<string>): seq<string> {
    if order == [] then []
    else
      var d := order[|order| - 1];
      Hits(read, phrase, order[..|order| - 1]) + (if PhraseHit(read, phrase, d) then [d] else [])
  }

  // ---------------------------------------------------------------------
  // The two passes

  /** Pass 1: `scores[doc] += cnt` for every posting of every stem. */
  method TermFrequencies(index: Index, stems: seq<string>) returns (scores: map<string, int>)
    ensures scores == SumMaps(PostingsList(index, stems))
  {
    scores := map[];
    for i := 0 to |stems|
      invariant scores == SumMaps(PostingsList(index, stems[..i]))
    {
      PostingsListStep(index, stems, i);
      scores := AddCounts(scores, PostingsFor(index, stems[i]));
    }
    assert stems[..|stems|] == stems;
  }

  /** The inner loop of pass 1: `scores[doc] += cnt` for every posting of one stem. */
  method AddCounts(scores: map<string, int>, postings: Postings) returns (r: map<string, int>)
    ensures r == Merge(scores, postings)
  {
    r := scores;
    var todo := postings.Keys;
    while todo != {}
      invariant todo <= postings.Keys
      invariant r == Merge(scores, Restrict(postings, postings.Keys - todo))
      decreases todo
    {
      var doc :| doc in todo;
      MergeVisitStep(scores, postings, todo, doc);
      r := r[doc := Get(r, doc) + postings[doc]];
      todo := todo - {doc};
    }
    RestrictAll(postings);
  }

  lemma PostingsListStep(index: Index, stems: seq<string>, i: nat)
    requires i < |stems|
    ensures SumMaps(PostingsList(index, stems[..i + 1])) ==
              Merge(SumMaps(PostingsList(index, stems[..i])), PostingsFor(index, stems[i]))
  {
    assert stems[..i + 1][..i] == stems[..i];
    var ps := PostingsList(index, stems[..i + 1]);
    assert ps[..|ps| - 1] == PostingsList(index, stems[..i]);
  }

  /** The bonuses of one scored document. */
  function Bonus(index: Index, stems: seq<string>, phrase: string, read: string -> Option<string>, d: string): int {
    (if HasAll(index, stems, d) then PartialMatchBonus else 0) + (if PhraseHit(read, phrase, d) then ExactPhraseBonus else 0)
  }

  /** `scores` with the bonuses added for the documents in `done`. */
  ghost predicate BonusesAdded(final: map<string, int>, scores: map<string, int>, done: set<string>,
                               index: Index, stems: seq<string>, phrase: string, read: string -> Option<string>) {
    final.Keys == scores.Keys &&
    forall d :: d in final ==> final[d] == scores[d] + (if d in done then Bonus(index, stems, phrase, read, d) else 0)
  }

  /**
   * Pass 2, over the scored documents in `order`: the partial-match bonus
   * when every stem lists the document, the phrase bonus (and an entry in
   * `exact`) when its text holds the phrase. No document is added or removed.
   */
  method Bonuses(index: Index, stems: seq<string>, phrase: string, read: string -> Option<string>, scores: map<string, int>)
    returns (final: map<string, int>, exact: seq<string>, ghost order: seq<string>)
    ensures final.Keys == scores.Keys
    ensures forall d :: d in final ==>
              final[d] == scores[d] + (if HasAll(index, stems, d) then PartialMatchBonus else 0)
                                    + (if PhraseHit(read, phrase, d) then ExactPhraseBonus else 0)
    ensures Enumerates(order, scores.Keys)
    ensures exact == Hits(read, phrase, order)
  {
    final := scores;
    exact := [];
    order := [];
    var todo := scores.Keys;
    while todo != {}
      invariant todo <= scores.Keys
      invariant Enumerates(order, scores.Keys - todo)
      invariant BonusesAdded(final, scores, scores.Keys - todo, index, stems, phrase, read)
      invariant exact == Hits(read, phrase, order)
      decreases todo
    {
      var doc :| doc in todo;
      EnumeratesStep(order, scores.Keys, todo, doc);
      HitsSnoc(read, phrase, order, doc);
      BonusStep(final, scores, scores.Keys - todo, index, stems, phrase, read, doc);
      final, exact := BonusesOf(index, stems, phrase, read, final, exact, doc);
      order := order + [doc];
      todo := todo - {doc};
    }
    assert scores.Keys - {} == scores.Keys;
  }

  /** The body of pass 2 for one document: its bonuses added, and the document appended to `exact` on a phrase hit. */
  method BonusesOf(index: Index, stems: seq<string>, phrase: string, read: string -> Option<string>,
                   scores: map<string, int>, exact: seq<string>, doc: string)
    returns (scores': map<string, int>, exact': seq<string>)
    requires doc in scores
    ensures scores' == scores[doc := scores[doc] + Bonus(index, stems, phrase, read, doc)]
    ensures exact' == exact + if PhraseHit(read, phrase, doc) then [doc] else []
  {
    scores', exact' := scores, exact;
    if forall s | s in stems :: doc in PostingsFor(index, s) {
      scores' := scores'[doc := scores'[doc] + PartialMatchBonus];
    }
    var text := read(doc);
    if text.Some? && Contains(LowerStr(text.value), phrase) {
      scores' := scores'[doc := scores'[doc] + ExactPhraseBonus];
      exact' := exact' + [doc];
    }
  }

  lemma HitsSnoc(read: string -> Option<string>, phrase: string, order: seq<string>, d: string)
    ensures Hits(read, phrase, order + [d]) == Hits(read, phrase, order) + (if PhraseHit(read, phrase, d) then [d] else [])
  {
    assert (order + [d])[..|order|] == order;
  }

  lemma BonusStep(final: map<string, int>, scores: map<string, int>, done: set<string>,
                  index: Index, stems: seq<string>, phrase: string, read: string -> Option<string>, doc: string)
    requires BonusesAdded(final, scores, done, index, stems, phrase, read)
    requires doc in scores && doc !in done
    ensures doc in final
    ensures BonusesAdded(final[doc := final[doc] + Bonus(index, stems, phrase, read, doc)], scores, done + {doc}, index, stems, phrase, read)
  {
  }

  /**
   * Both passes, with the early return when pass 1 scores nothing: every
   * document listed under some stem gets its final score, and `exact`
   * lists the scored documents whose text holds the phrase, each once.
   */
  method Rank(index: Index, stems: seq<string>, phrase: string, read: string -> Option<string>)
    returns (scores: map<string, int>, exact: seq<string>)
    ensures forall d :: d in scores <==> exists s :: s in stems && d in DocsOf(index, s)
    ensures forall d :: d in scores ==> scores[d] == Score(index, stems, phrase, read, d)
    ensures forall d :: d in exact <==> d in scores && PhraseHit(read, phrase, d)
    ensures forall i, j :: 0 <= i < j < |exact| ==> exact[i] != exact[j]
  {
    var tf := TermFrequencies(index, stems);
    TermFrequenciesSpec(index, stems);
    if tf == map[] {
      return map[], [];
    }
    ghost var order;
    scores, exact, order := Bonuses(index, stems, phrase, read, tf);
    HitsSpec(read, phrase, order);
    FinalScores(index, stems, phrase, read, tf, scores);
  }

  lemma TermFrequenciesSpec(index: Index, stems: seq<string>)
    ensures forall d :: d in SumMaps(PostingsList(index, stems)) <==> exists s :: s in stems && d in DocsOf(index, s)
    ensures forall d :: d in SumMaps(PostingsList(index, stems)) ==> SumMaps(PostingsList(index, stems))[d] == Tf(index, stems, d)
  {
    forall d ensures (d in SumMaps(PostingsList(index, stems)) <==> exists s :: s in stems && d in DocsOf(index, s))
                  && (d in SumMaps(PostingsList(index, stems)) ==> SumMaps(PostingsList(index, stems))[d] == Tf(index, stems, d)) {
      TermFrequencySpec(index, stems, d);
    }
  }

  lemma FinalScores(index: Index, stems: seq<string>, phrase: string, read: string -> Option<string>,
                    tf: map<string, int>, final: map<string, int>)
    requires forall d :: d in tf ==> tf[d] == Tf(index, stems, d)
    requires final.Keys == tf.Keys
    requires forall d :: d in final ==>
               final[d] == tf[d] + (if HasAll(index, stems, d) then PartialMatchBonus else 0)
                                 + (if PhraseHit(read, phrase, d) then ExactPhraseBonus else 0)
    ensures forall d :: d in final ==> final[d] == Score(index, stems, phrase, read, d)
  {
  }

  // ---------------------------------------------------------------------
  // Properties

  lemma {:induction false} PostingsListShape(index: Index, stems: seq<string>)
    ensures |PostingsList(index, stems)| == |stems|
    ensures forall i :: 0 <= i < |stems| ==> PostingsList(index, stems)[i] == PostingsFor(index, stems[i])
  {
    if stems != [] {
      PostingsListShape(index, stems[..|stems| - 1]);
    }
  }

  lemma {:induction false} SumAtTf(index: Index, stems: seq<string>, doc: string)
    ensures SumAt(PostingsList(index, stems), doc) == Tf(index, stems, doc)
  {
    if stems != [] {
      SumAtTf(index, stems[..|stems| - 1], doc);
    }
  }

  /**
   * Pass 1 scores exactly the documents listed under some stem, each with
   * its term-frequency score.
   */
  lemma TermFrequencySpec(index: Index, stems: seq<string>, doc: string)
    ensures doc in SumMaps(PostingsList(index, stems)) <==> exists s :: s in stems && doc in DocsOf(index, s)
    ensures doc in SumMaps(PostingsList(index, stems)) ==> SumMaps(PostingsList(index, stems))[doc] == Tf(index, stems, doc)
  {
    var ps := PostingsList(index, stems);
    SumMapsAt(ps, doc);
    SumAtTf(index, stems, doc);
    PostingsListShape(index, stems);
    if doc in SumMaps(ps) {
      var i :| 0 <= i < |ps| && doc in ps[i];
      assert stems[i] in stems && doc in DocsOf(index, stems[i]);
    }
    if exists s :: s in stems && doc in DocsOf(index, s) {
      var s :| s in stems && doc in DocsOf(index, s);
      var i :| 0 <= i < |stems| && stems[i] == s;
      assert doc in ps[i];
    }
  }

  /** A repeated stem is counted once per occurrence. */
  lemma TfRepeated(index: Index, stems: seq<string>, s: string, doc: string)
    ensures Tf(index, stems + [s, s], doc) == Tf(index, stems, doc) + 2 * Get(PostingsFor(index, s), doc)
  {
    assert (stems + [s, s])[..|stems| + 1] == stems + [s];
    assert (stems + [s])[..|stems|] == stems;
  }

  /** The documents with a phrase hit, each listed once, in visiting order. */
  lemma {:induction false} HitsSpec(read: string -> Option<string>, phrase: string, order: seq<string>)
    requires forall i, j :: 0 <= i < j < |order| ==> order[i] != order[j]
    ensures forall d :: d in Hits(read, phrase, order) <==> d in order && PhraseHit(read, phrase, d)
    ensures forall i, j :: 0 <= i < j < |Hits(read, phrase, order)| ==> Hits(read, phrase, order)[i] != Hits(read, phrase, order)[j]
  {
    if order != [] {
      var init := order[..|order| - 1];
      HitsSpec(read, phrase, init);
      assert order == init + [order[|order| - 1]];
    }
  }

  /** The bonuses are bounded: the score is the term frequency plus 0, 5, 10 or 15. */
  lemma ScoreBounds(index: Index, stems: seq<string>, phrase: string, read: string -> Option<string>, doc: string)
    ensures Score(index, stems, phrase, read, doc) - Tf(index, stems, doc) in {0, PartialMatchBonus, ExactPhraseBonus, PartialMatchBonus + ExactPhraseBonus}
    ensures Tf(index, stems, doc) <= Score(index, stems, phrase, read, doc) <= Tf(index, stems, doc) + 15
  {
  }

  /**
   * A document listed with counts 2 and 3 under the two stems of a query
   * scores 5 by term frequency, 10 with the partial-match bonus and 20
   * when its text also holds the phrase.
   */
  lemma ScoreExample(read: string -> Option<string>)
    requires read("d") == Some("Cloud data")
    ensures var index := map["cloud" := map["d" := 2], "data" := map["d" := 3]];
            Tf(index, ["cloud", "data"], "d") == 5 &&
            HasAll(index, ["cloud", "data"], "d") &&
            Score(index, ["cloud", "data"], "cloud data", read, "d") == 20
  {
    var index := map["cloud" := map["d" := 2], "data" := map["d" := 3]];
    assert ["cloud", "data"][..1] == ["cloud"];
    assert LowerStr("Cloud data") == "cloud data";
    assert OccursAt("cloud data", "cloud data", 0);
  }
}
