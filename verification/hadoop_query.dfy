/**
 * The query side of the Hadoop deployment (`hadoop/query_index.py`): NLTK's
 * Porter stemmer on the lowercased word with no stop words, a reader that
 * keeps every line whatever its term, and a conjunctive search over every
 * query word.
 */
module HadoopQuery {
  import opened Chars
  import opened Strings
  import opened Postings
  import opened IndexFormat
  import Query

  /** `stem`: NLTK's stem (the parameter `porter`) of the lowercased word. */
  function Stem(porter: string -> string, word: string): string {
    porter(LowerStr(word))
  }

  function StemFn(porter: string -> string): string -> string {
    w => Stem(porter, w)
  }

  /** Stemming is case-insensitive. */
  lemma StemCaseInsensitive(porter: string -> string, word: string)
    ensures Stem(porter, word) == Stem(porter, LowerStr(word))
  {
    LowerStrIdempotent(word);
  }

  /**
   * `_parse_index_line`: tab- and space-separated lines alike; only a blank
   * line gives `("", {})`, any other line its stemmed first word.
   */
  method ParseIndexLine(porter: string -> string, line: string) returns (term: string, postings: Postings)
    ensures (term, postings) == Query.ParsedLine(line, StemFn(porter), false)
    ensures Split(line, IsSpace) == [] ==> term == "" && postings == map[]
    ensures Split(line, IsSpace) != [] ==> term == Stem(porter, Split(line, IsSpace)[0])
  {
    term, postings := Query.ParseIndexLine(line, StemFn(porter), false);
  }

  /**
   * `load_index`: every line is added, and each term holds the sum of the
   * postings of its lines; a term only appears with some posting.
   */
  method LoadIndex(porter: string -> string, lines: seq<string>) returns (index: Index)
    ensures index == Query.Loaded(lines, StemFn(porter), false)
    ensures forall t :: PostingsFor(index, t) == SumMaps(PostingsOfTerm(Query.KeptParsed(lines, StemFn(porter), false), t))
    ensures forall t :: t in index ==> index[t] != map[]
  {
    index := Query.LoadIndex(lines, StemFn(porter), false);
    forall t ensures PostingsFor(index, t) == SumMaps(PostingsOfTerm(Query.KeptParsed(lines, StemFn(porter), false), t))
                  && (t in index ==> index[t] != map[]) {
      LoadAllSums(Query.KeptParsed(lines, StemFn(porter), false), t);
    }
  }

  /** Without skipping, the parsed lines that reach the index are all of them, in order. */
  lemma {:induction false} KeptParsedKeepsAll(lines: seq<string>, stem: string -> string)
    ensures |Query.KeptParsed(lines, stem, false)| == |lines|
    ensures forall i :: 0 <= i < |lines| ==> Query.KeptParsed(lines, stem, false)[i] == Query.ParsedLine(lines[i], stem, false)
  {
    if lines != [] {
      KeptParsedKeepsAll(lines[..|lines| - 1], stem);
    }
  }

  /**
   * `docs_with_all_terms`: the documents listed under the stem of every
   * query word, none skipped; empty for an empty query or as soon as one
   * stem has no postings.
   */
  method DocsWithAllTerms(porter: string -> string, index: Index, terms: seq<string>) returns (r: set<string>)
    ensures forall d :: d in r <==> terms != [] && forall t :: t in terms ==> d in DocsOf(index, Stem(porter, t))
    ensures forall t :: t in terms ==> r <= DocsOf(index, Stem(porter, t))
  {
    r := Query.DocsWithAllTerms(index, terms, StemFn(porter), false);
    if terms != [] {
      assert terms[0] in terms;
    }
  }
}
