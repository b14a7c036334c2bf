/**
 * `InvertedIndexReducer` (`invertedindex/src/main/java/org/example/inv2/InvertedIndexReducer.java`):
 * sums the `file → count` maps of one term, then writes the term with the
 * text `file:count` for every file, tab-separated, in the aggregate map's
 * (unspecified) iteration order, with Java's `trim()` applied. The job's
 * text output puts a tab between the term and that text.
 */
module Reducing {
  import opened Chars
  import opened Strings
  import Numbers
  import opened Postings
  import opened IndexFormat
  import Query

  /** The `StringBuilder` contents: `file:count\t` for each file, in the order `order` visits them. */
  function Terminated(aggregate: Postings, order: seq<string>): string {
    if order == [] then []
    else
      var f := order[|order| - 1];
      Terminated(aggregate, order[..|order| - 1]) + Field(f, Get(aggregate, f)) + "\t"
  }

  /** The `file:count` fields, in the order `order` visits the files. */
  function FieldsIn(aggregate: Postings, order: seq<string>): seq<string> {
    seq(|order|, i requires 0 <= i < |order| => Field(order[i], Get(aggregate, order[i])))
  }

  /** A file name `trim()` leaves alone when it starts the text: empty, or not starting with a character `<= ' '`. */
  predicate TrimSafe(d: string) {
    d == [] || !IsTrimmed(d[0])
  }

  /** One `reduce` call: the key, and the trimmed text over the summed postings. */
  method Reduce(key: string, values: seq<Postings>) returns (outKey: string, output: string, ghost order: seq<string>)
    ensures outKey == key
    ensures Enumerates(order, SumMaps(values).Keys)
    ensures output == Trim(Terminated(SumMaps(values), order))
    ensures values == [] ==> output == ""
  {
    var aggregate := Aggregate(values);
    var sb;
    sb, order := Serialize(aggregate);
    output := Trim(sb);
    outKey := key;
  }

  /** The first loop: every value merged into `aggregate`, in the order the values arrive. */
  method Aggregate(values: seq<Postings>) returns (aggregate: Postings)
    ensures aggregate == SumMaps(values)
  {
    aggregate := map[];
    for i := 0 to |values|
      invariant aggregate == SumMaps(values[..i])
    {
      assert values[..i + 1][..i] == values[..i];
      aggregate := MergeEntries(aggregate, values[i]);
    }
    assert values[..|values|] == values;
  }

  /** The second loop: `file:count` and a tab appended for every entry, in the map's iteration order. */
  method Serialize(aggregate: Postings) returns (sb: string, ghost order: seq<string>)
    ensures Enumerates(order, aggregate.Keys)
    ensures |order| == |aggregate|
    ensures sb == Terminated(aggregate, order)
  {
    sb := [];
    order := [];
    var todo := aggregate.Keys;
    while todo != {}
      invariant todo <= aggregate.Keys
      invariant Enumerates(order, aggregate.Keys - todo)
      invariant |order| + |todo| == |aggregate|
      invariant sb == Terminated(aggregate, order)
      decreases todo
    {
      var file :| file in todo;
      EnumeratesStep(order, aggregate.Keys, todo, file);
      TerminatedSnoc(aggregate, order, file);
      assert |todo - {file}| == |todo| - 1;
      sb := sb + Field(file, aggregate[file]) + "\t";
      order := order + [file];
      todo := todo - {file};
    }
    assert aggregate.Keys - {} == aggregate.Keys;
  }

  /** The first loop's inner loop: `aggregate.merge(file, count, Integer::sum)` for every entry of `m`. */
  method MergeEntries(aggregate: Postings, m: Postings) returns (r: Postings)
    ensures r == Merge(aggregate, m)
  {
    r := aggregate;
    var todo := m.Keys;
    while todo != {}
      invariant todo <= m.Keys
      invariant r == Merge(aggregate, Restrict(m, m.Keys - todo))
      decreases todo
    {
      var file :| file in todo;
      MergeVisitStep(aggregate, m, todo, file);
      r := r[file := Get(r, file) + m[file]];
      todo := todo - {file};
    }
    RestrictAll(m);
  }

  // ---------------------------------------------------------------------
  // The text

  lemma TerminatedSnoc(aggregate: Postings, order: seq<string>, f: string)
    ensures Terminated(aggregate, order + [f]) == Terminated(aggregate, order) + Field(f, Get(aggregate, f)) + "\t"
  {
    assert (order + [f])[..|order|] == order;
  }

  lemma FieldsInSnoc(aggregate: Postings, order: seq<string>)
    requires order != []
    ensures FieldsIn(aggregate, order) ==
              FieldsIn(aggregate, order[..|order| - 1]) + [Field(order[|order| - 1], Get(aggregate, order[|order| - 1]))]
  {
  }

  lemma {:induction false} TerminatedJoin(aggregate: Postings, order: seq<string>)
    requires order != []
    ensures Terminated(aggregate, order) == JoinWith(FieldsIn(aggregate, order), '\t') + "\t"
  {
    var init, f := order[..|order| - 1], order[|order| - 1];
    var field := Field(f, Get(aggregate, f));
    FieldsInSnoc(aggregate, order);
    if init == [] {
      assert FieldsIn(aggregate, order) == [field];
    } else {
      TerminatedJoin(aggregate, init);
      JoinWithSnoc(FieldsIn(aggregate, init), field, '\t');
    }
  }

  /** The last character of a joined non-empty list is the last character of its last piece. */
  lemma JoinWithLast(ts: seq<string>, sep: char)
    requires ts != [] && ts[|ts| - 1] != []
    ensures JoinWith(ts, sep) != [] && JoinWith(ts, sep)[|JoinWith(ts, sep)| - 1] == ts[|ts| - 1][|ts[|ts| - 1]| - 1]
  {
    if |ts| > 1 {
      JoinWithSnoc(ts[..|ts| - 1], ts[|ts| - 1], sep);
      assert ts[..|ts| - 1] + [ts[|ts| - 1]] == ts;
    }
  }

  /** The first character of a joined list whose first piece is non-empty is that piece's first character. */
  lemma JoinWithFirst(ts: seq<string>, sep: char)
    requires ts != [] && ts[0] != []
    ensures JoinWith(ts, sep) != [] && JoinWith(ts, sep)[0] == ts[0][0]
  {
  }

  /** Every field ends in a digit, and starts above `' '` when its file name is trim-safe. */
  lemma FieldEnds(d: string, n: int)
    requires TrimSafe(d)
    ensures Field(d, n) != [] && !IsTrimmed(Field(d, n)[0]) && !IsTrimmed(Field(d, n)[|Field(d, n)| - 1])
  {
    Numbers.IntToStringChars(n);
    var s := Numbers.IntToString(n);
    assert Field(d, n)[|Field(d, n)| - 1] == s[|s| - 1];
  }

  /**
   * The reducer's text is exactly the fields joined by single tabs: one
   * `file:count` field per file of the aggregate, no trailing tab, and the
   * empty text for an empty aggregate.
   */
  lemma ReducerText(aggregate: Postings, order: seq<string>)
    requires forall d :: d in order <==> d in aggregate
    requires forall d :: d in aggregate ==> TrimSafe(d)
    ensures Trim(Terminated(aggregate, order)) == JoinWith(FieldsIn(aggregate, order), '\t')
  {
    if order != [] {
      TerminatedJoin(aggregate, order);
      var fs := FieldsIn(aggregate, order);
      var j := JoinWith(fs, '\t');
      FieldEnds(order[0], Get(aggregate, order[0]));
      var last := order[|order| - 1];
      FieldEnds(last, Get(aggregate, last));
      JoinWithLast(fs, '\t');
      JoinWithFirst(fs, '\t');
      TrimTrailingTab(j);
    }
  }

  /**
   * The reducer's output line, `key`, a tab, then the text, parses back to
   * the key and the summed postings with any reader whose stemmer leaves the
   * key unchanged, when file names hold no `:` and no character `<= ' '`.
   */
  lemma ReducerLineParses(key: string, aggregate: Postings, order: seq<string>, stem: string -> string, skipEmpty: bool)
    requires IsWord(key, IsSpace) && stem(key) == key
    requires forall d :: d in order <==> d in aggregate
    requires forall d, k :: d in aggregate && 0 <= k < |d| ==> d[k] != ':' && !IsTrimmed(d[k])
    ensures Query.ParsedLine(key + "\t" + Trim(Terminated(aggregate, order)), stem, skipEmpty) == (key, aggregate)
  {
    ReducerText(aggregate, order);
    var fs := FieldsIn(aggregate, order);
    forall i | 0 <= i < |fs| ensures WrittenFrom(fs[i], aggregate) {
      assert order[i] in aggregate;
    }
    forall d | d in aggregate ensures Field(d, aggregate[d]) in fs && NoColon(d) && NoSep(d, IsSpace) {
      var i :| 0 <= i < |order| && order[i] == d;
      assert fs[i] == Field(d, aggregate[d]);
    }
    Query.ParsedLineRoundTrip(key, '\t', fs, '\t', aggregate, stem, skipEmpty);
  }
}
