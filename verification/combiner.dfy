/**
 * `Combiner` (`invertedindex/src/main/java/org/example/inv2/Combiner.java`):
 * the optional map-side reduce that sums the `file → count` maps of one key
 * into a single map and writes it under the same key.
 */
module Combining {
  import opened Postings

  /** One `reduce` call: the written record is the key with the file-by-file sum of the values. */
  method Reduce(key: string, values: seq<Postings>) returns (outKey: string, combined: Postings)
    ensures outKey == key
    ensures combined == SumMaps(values)
  {
    combined := map[];
    for i := 0 to |values|
      invariant combined == SumMaps(values[..i])
    {
      assert values[..i + 1][..i] == values[..i];
      combined := AddEntries(combined, values[i]);
    }
    assert values[..|values|] == values;
    outKey := key;
  }

  /** The inner loop over one value's entries, in its (unspecified) iteration order. */
  method AddEntries(combined: Postings, value: Postings) returns (r: Postings)
    ensures r == Merge(combined, value)
  {
    r := combined;
    var todo := value.Keys;
    while todo != {}
      invariant todo <= value.Keys
      invariant r == Merge(combined, Restrict(value, value.Keys - todo))
      decreases todo
    {
      var file :| file in todo;
      var count := value[file];
      MergeVisitStep(combined, value, todo, file);
      if file in r {
        var sum := r[file] + count;
        r := r[file := sum];
      } else {
        r := r[file := count];
      }
      todo := todo - {file};
    }
    RestrictAll(value);
  }

  /**
   * What the combiner writes: a file is listed iff some value lists it, with
   * the sum of its counts; no values give the empty map; and the order the
   * values arrive in does not matter.
   */
  lemma CombineSpec(values: seq<Postings>, reordered: seq<Postings>, file: string)
    requires multiset(reordered) == multiset(values)
    ensures file in SumMaps(values) <==> exists i :: 0 <= i < |values| && file in values[i]
    ensures Get(SumMaps(values), file) == SumAt(values, file)
    ensures values == [] ==> SumMaps(values) == map[]
    ensures SumMaps(reordered) == SumMaps(values)
  {
    SumMapsAt(values, file);
    SumMapsPermutation(reordered, values);
  }
}
