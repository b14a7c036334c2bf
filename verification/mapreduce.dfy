/**
 * What the Hadoop job's mappers write and how the shuffle, the optional
 * combiner and the reducer aggregate it. A record is a term with a
 * `file → count` map; the shuffle hands the reducer, for each term, the
 * values written with that term, and every aggregation step is `SumMaps`.
 */
module MapReduce {
  import opened Postings
  import opened Strings
  import opened Tokenizer

  /** A `(Text, MapWritable)` pair passed to `Context.write`. */
  type Record = (string, Postings)

  /** All tokens the Java tokenizer keeps from the lines, in order. */
  function LinesTokens(lines: seq<string>): seq<string> {
    if lines == [] then [] else LinesTokens(lines[..|lines| - 1]) + JavaTokens(lines[|lines| - 1])
  }

  /** SimpleMapper's records for the tokens `ts` of file `doc`: `(t, {doc: 1})` per token. */
  function Ones(doc: string, ts: seq<string>): seq<Record> {
    if ts == [] then [] else Ones(doc, ts[..|ts| - 1]) + [(ts[|ts| - 1], map[doc := 1])]
  }

  /** The in-mapper-combining records for `counts`, in the order `order` visits the terms. */
  function Emit(doc: string, counts: map<string, int>, order: seq<string>): seq<Record> {
    if order == [] then []
    else
      var t := order[|order| - 1];
      Emit(doc, counts, order[..|order| - 1]) + [(t, map[doc := Get(counts, t)])]
  }

  lemma EmitSnoc(doc: string, counts: map<string, int>, order: seq<string>, t: string)
    ensures Emit(doc, counts, order + [t]) == Emit(doc, counts, order) + [(t, map[doc := Get(counts, t)])]
  {
    assert (order + [t])[..|order|] == order;
  }

  /** The values the shuffle delivers to the reduce call for `t`, in writing order. */
  function ValuesFor(rs: seq<Record>, t: string): seq<Postings> {
    if rs == [] then []
    else
      var r := rs[|rs| - 1];
      ValuesFor(rs[..|rs| - 1], t) + (if r.0 == t then [r.1] else [])
  }

  /** What one file contributes to the postings of `t`, given its token counts. */
  function Contribution(doc: string, counts: map<string, int>, t: string): Postings {
    if t in counts then map[doc := counts[t]] else map[]
  }

  /** Each group of values combined into one. */
  function CombineEach(groups: seq<seq<Postings>>): seq<Postings> {
    if groups == [] then [] else CombineEach(groups[..|groups| - 1]) + [SumMaps(groups[|groups| - 1])]
  }

  /** The groups, one after the other. */
  function Concat(groups: seq<seq<Postings>>): seq<Postings> {
    if groups == [] then [] else Concat(groups[..|groups| - 1]) + groups[|groups| - 1]
  }

  // ---------------------------------------------------------------------
  // The mappers' records

  lemma {:induction false} LinesTokensAppend(lines: seq<string>, line: string)
    ensures LinesTokens(lines + [line]) == LinesTokens(lines) + JavaTokens(line)
  {
    assert (lines + [line])[..|lines|] == lines;
  }

  /** SimpleMapper writes exactly one record per token: the token, with the single entry `doc → 1`. */
  lemma {:induction false} OnesShape(doc: string, ts: seq<string>)
    ensures |Ones(doc, ts)| == |ts|
    ensures forall i :: 0 <= i < |ts| ==> Ones(doc, ts)[i].0 == ts[i] && Ones(doc, ts)[i].1 == map[doc := 1]
  {
    if ts != [] {
      OnesShape(doc, ts[..|ts| - 1]);
    }
  }

  lemma {:induction false} OnesAppend(doc: string, a: seq<string>, b: seq<string>)
    ensures Ones(doc, a + b) == Ones(doc, a) + Ones(doc, b)
    decreases |b|
  {
    if b == [] {
      assert a + b == a;
    } else {
      assert (a + b)[..|a + b| - 1] == a + b[..|b| - 1];
      OnesAppend(doc, a, b[..|b| - 1]);
    }
  }

  lemma ValuesForSnoc(rs: seq<Record>, r: Record, t: string)
    ensures ValuesFor(rs + [r], t) == ValuesFor(rs, t) + (if r.0 == t then [r.1] else [])
  {
    assert (rs + [r])[..|rs|] == rs;
  }

  lemma MergeOne(doc: string, counts: map<string, int>, t: string)
    ensures Merge(Contribution(doc, counts, t), map[doc := 1]) == map[doc := Get(counts, t) + 1]
  {
    var l := Merge(Contribution(doc, counts, t), map[doc := 1]);
    assert l.Keys == {doc};
  }

  lemma OnesSnoc(doc: string, ts: seq<string>, x: string)
    ensures Ones(doc, ts + [x]) == Ones(doc, ts) + [(x, map[doc := 1])]
  {
    assert (ts + [x])[..|ts|] == ts;
  }

  /** Summing SimpleMapper's `1`s for `t` gives the file's count of `t`. */
  lemma {:induction false} OnesSum(doc: string, ts: seq<string>, t: string)
    ensures SumMaps(ValuesFor(Ones(doc, ts), t)) == Contribution(doc, Tally(ts), t)
  {
    if ts != [] {
      var init, x := ts[..|ts| - 1], ts[|ts| - 1];
      assert ts == init + [x];
      OnesSum(doc, init, t);
      OnesSumStep(doc, init, x, t);
    }
  }

  lemma OnesSumStep(doc: string, init: seq<string>, x: string, t: string)
    requires SumMaps(ValuesFor(Ones(doc, init), t)) == Contribution(doc, Tally(init), t)
    ensures SumMaps(ValuesFor(Ones(doc, init + [x]), t)) == Contribution(doc, Tally(init + [x]), t)
  {
    var vs := ValuesFor(Ones(doc, init), t);
    OnesSnoc(doc, init, x);
    ValuesForSnoc(Ones(doc, init), (x, map[doc := 1]), t);
    TallySnoc(init, x);
    if x == t {
      SumMapsSnoc(vs, map[doc := 1]);
      MergeOne(doc, Tally(init), t);
    } else {
      assert vs + [] == vs;
    }
  }

  /** The in-mapper-combining records hold one value for each counted term and none for the rest. */
  lemma {:induction false} EmitValues(doc: string, counts: map<string, int>, order: seq<string>, t: string)
    requires forall i, j :: 0 <= i < j < |order| ==> order[i] != order[j]
    ensures ValuesFor(Emit(doc, counts, order), t) ==
              if t in order then [map[doc := Get(counts, t)]] else []
  {
    if order != [] {
      var init, last := order[..|order| - 1], order[|order| - 1];
      assert order == init + [last];
      EmitValues(doc, counts, init, t);
      EmitSnoc(doc, counts, init, last);
      ValuesForSnoc(Emit(doc, counts, init), (last, map[doc := Get(counts, last)]), t);
      if last == t {
        assert t !in init;
        assert [] + [map[doc := Get(counts, t)]] == [map[doc := Get(counts, t)]];
      } else {
        assert t in order <==> t in init;
      }
    }
  }

  /**
   * The two mappers are interchangeable: for every term, what the reducer
   * sums from SimpleMapper's records equals what it sums from the
   * in-mapper-combining records of the same lines, whatever order the
   * counts are emitted in.
   */
  lemma MapperEquivalence(doc: string, lines: seq<string>, order: seq<string>, t: string)
    requires Enumerates(order, Tally(LinesTokens(lines)).Keys)
    ensures SumMaps(ValuesFor(Ones(doc, LinesTokens(lines)), t))
            == SumMaps(ValuesFor(Emit(doc, Tally(LinesTokens(lines)), order), t))
            == Contribution(doc, Tally(LinesTokens(lines)), t)
  {
    var counts := Tally(LinesTokens(lines));
    OnesSum(doc, LinesTokens(lines), t);
    EmitValues(doc, counts, order, t);
    if t in counts {
      SumMapsSnoc([], map[doc := counts[t]]);
      assert [] + [map[doc := counts[t]]] == [map[doc := counts[t]]];
      MergeEmpty(map[doc := counts[t]]);
    }
  }

  // ---------------------------------------------------------------------
  // The combiner

  lemma {:induction false} ConcatAppend(groups: seq<seq<Postings>>, g: seq<Postings>)
    ensures Concat(groups + [g]) == Concat(groups) + g
    ensures CombineEach(groups + [g]) == CombineEach(groups) + [SumMaps(g)]
  {
    assert (groups + [g])[..|groups|] == groups;
  }

  /**
   * The combiner is transparent: summing the combined groups gives the sum
   * of all their values, so running the job with or without it yields the
   * same totals.
   */
  lemma {:induction false} CombinerTransparent(groups: seq<seq<Postings>>)
    ensures SumMaps(CombineEach(groups)) == SumMaps(Concat(groups))
  {
    if groups != [] {
      var init, g := groups[..|groups| - 1], groups[|groups| - 1];
      assert groups == init + [g];
      CombinerTransparent(init);
      ConcatAppend(init, g);
      SumMapsAppend(Concat(init), g);
    }
  }
}
