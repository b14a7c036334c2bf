/**
 * `InvertedIndexMapper` (`invertedindex/src/main/java/org/example/inv2/InvertedIndexMapper.java`):
 * in-mapper combining. `map` only counts the tokens of each line into the
 * `counts` field; `cleanup` writes one `(term, {filename: count})` record
 * per counted term, in the map's (unspecified) iteration order.
 */
module InMapperCombining {
  import opened Chars
  import opened Strings
  import opened Postings
  import opened Tokenizer
  import opened MapReduce

  class InvertedIndexMapper {
    var counts: map<string, int>
    var filename: string
    var fileMap: Postings
    var written: seq<Record>
    /** The lines `map` has been given so far. */
    ghost var seen: seq<string>

    /** `counts` holds the occurrences of every token of the lines seen, each at least 1. */
    ghost predicate Valid()
      reads this
    {
      counts == Tally(LinesTokens(seen)) &&
      forall t :: t in counts ==> counts[t] >= 1
    }

    /** `setup`: an empty `counts` and the base name of the split's path. */
    constructor (path: string)
      ensures Valid()
      ensures counts == map[] && filename == Basename(path) && fileMap == map[] && written == [] && seen == []
    {
      counts := map[];
      filename := Basename(path);
      fileMap := map[];
      written := [];
      seen := [];
    }

    /** `map`: `counts.merge(token, 1, Integer::sum)` for every non-empty token; nothing is written. */
    method Map(line: string)
      requires Valid()
      modifies this
      ensures Valid()
      ensures seen == old(seen) + [line]
      ensures counts == Merge(old(counts), Tally(JavaTokens(line)))
      ensures filename == old(filename) && fileMap == old(fileMap) && written == old(written)
    {
      var pieces := JavaSplit(LowerStr(line));
      var c := CountPieces(counts, pieces, LinesTokens(seen));
      JavaSplitNonEmpty(LowerStr(line));
      CountsStep(seen, line);
      LinesTokensAppend(seen, line);
      counts := c;
      seen := seen + [line];
    }

    /**
     * `cleanup`: one record per counted term, `(t, {filename: counts[t]})`;
     * `order` is the order the map's entries are visited in.
     */
    method Cleanup() returns (ghost order: seq<string>)
      modifies this
      ensures Enumerates(order, counts.Keys)
      ensures written == old(written) + Emit(filename, counts, order)
      ensures counts == old(counts) && filename == old(filename) && seen == old(seen)
      ensures fileMap == if counts == map[] then old(fileMap) else map[filename := counts[order[|order| - 1]]]
    {
      var out, last;
      out, last, order := WriteAll(filename, counts, written, fileMap);
      written, fileMap := out, last;
    }
  }

  /**
   * The loop of `cleanup`: for each key of `counts`, in iteration order,
   * `fileMap` is cleared and set to `{filename: counts[t]}` and the record
   * `(t, fileMap)` is written.
   */
  method WriteAll(filename: string, counts: map<string, int>, written: seq<Record>, fileMap: Postings)
    returns (out: seq<Record>, last: Postings, ghost order: seq<string>)
    ensures Enumerates(order, counts.Keys)
    ensures out == written + Emit(filename, counts, order)
    ensures last == if counts == map[] then fileMap else map[filename := counts[order[|order| - 1]]]
  {
    order := [];
    var todo := counts.Keys;
    out, last := written, fileMap;
    while todo != {}
      invariant todo <= counts.Keys
      invariant Enumerates(order, counts.Keys - todo)
      invariant order != [] ==> order[|order| - 1] in counts
      invariant out == written + Emit(filename, counts, order)
      invariant last == if order == [] then fileMap else map[filename := counts[order[|order| - 1]]]
      decreases todo
    {
      var t :| t in todo;
      EnumeratesStep(order, counts.Keys, todo, t);
      EmitSnoc(filename, counts, order, t);
      last := map[];
      last := last[filename := counts[t]];
      out := out + [(t, last)];
      order := order + [t];
      todo := todo - {t};
    }
    assert counts.Keys - {} == counts.Keys;
    if counts != map[] {
      var t :| t in counts;
      assert t in order;
    }
  }

  /** The token loop of `map`: every non-empty piece adds one to its count. */
  method CountPieces(counts: map<string, int>, pieces: seq<string>, ghost before: seq<string>) returns (c: map<string, int>)
    requires counts == Tally(before)
    ensures c == Tally(before + NonEmptyOf(pieces))
  {
    ghost var counted := before;
    c := counts;
    for i := 0 to |pieces|
      invariant counted == before + NonEmptyOf(pieces[..i])
      invariant c == Tally(counted)
    {
      var token := pieces[i];
      NonEmptyOfSnoc(pieces, i);
      if token != [] {
        TallySnoc(counted, token);
        c := c[token := Get(c, token) + 1];
        counted := counted + [token];
      }
    }
    assert pieces[..|pieces|] == pieces;
  }

  lemma NonEmptyOfSnoc(pieces: seq<string>, i: nat)
    requires i < |pieces|
    ensures NonEmptyOf(pieces[..i + 1]) == NonEmptyOf(pieces[..i]) + (if pieces[i] == [] then [] else [pieces[i]])
  {
    assert pieces[..i + 1] == pieces[..i] + [pieces[i]];
    NonEmptyOfAppend(pieces[..i], [pieces[i]]);
    assert NonEmptyOf([pieces[i]]) == if pieces[i] == [] then [] else [pieces[i]];
  }

  /** Counting one more line merges its token counts into the totals, all of which stay positive. */
  lemma CountsStep(seen: seq<string>, line: string)
    ensures Tally(LinesTokens(seen + [line])) == Merge(Tally(LinesTokens(seen)), Tally(JavaTokens(line)))
    ensures forall t :: t in Tally(LinesTokens(seen + [line])) ==> Tally(LinesTokens(seen + [line]))[t] >= 1
  {
    LinesTokensAppend(seen, line);
    TallyAppend(LinesTokens(seen), JavaTokens(line));
    TallyCounts(LinesTokens(seen + [line]));
  }

  /**
   * After any lines, `cleanup` writes exactly one record per distinct token,
   * carrying the number of occurrences of that token over all the lines.
   */
  lemma CleanupRecords(filename: string, lines: seq<string>, order: seq<string>, t: string)
    requires Enumerates(order, Tally(LinesTokens(lines)).Keys)
    ensures ValuesFor(Emit(filename, Tally(LinesTokens(lines)), order), t) ==
              if t in LinesTokens(lines) then [map[filename := multiset(LinesTokens(lines))[t]]] else []
  {
    TallyCounts(LinesTokens(lines));
    EmitValues(filename, Tally(LinesTokens(lines)), order, t);
  }
}
