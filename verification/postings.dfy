/**
 * Postings and their aggregation. A postings map sends a document name to
 * an occurrence count; an index sends a term to its postings. Every
 * aggregation step of the system (the Hadoop combiner and reducer, Spark's
 * `reduceByKey`, the load-time merge of the query side) adds counts key by
 * key, which is `Merge` here.
 */
module Postings {

  type Postings = map<string, int>
  type Index = map<string, Postings>

  /** `m.get(k, 0)` */
  function Get<K>(m: map<K, int>, k: K): int {
    if k in m then m[k] else 0
  }

  /** `index.get(t, {})` */
  function PostingsFor(index: Index, t: string): Postings {
    if t in index then index[t] else map[]
  }

  /** `set(index.get(t, {}))`: the documents listed under `t`. */
  function DocsOf(index: Index, t: string): set<string> {
    PostingsFor(index, t).Keys
  }

  /** Key-by-key sum of two count maps (`merge(k, v, Integer::sum)` for every entry of `b`). */
  function Merge<K>(a: map<K, int>, b: map<K, int>): map<K, int> {
    map k | k in a.Keys + b.Keys :: Get(a, k) + Get(b, k)
  }

  /** Merge of a list of count maps, in list order. */
  function SumMaps<K>(vs: seq<map<K, int>>): map<K, int> {
    if vs == [] then map[] else Merge(SumMaps(vs[..|vs| - 1]), vs[|vs| - 1])
  }

  /** The sum of the counts the maps of `vs` give `k` (0 where absent). */
  function SumAt<K>(vs: seq<map<K, int>>, k: K): int {
    if vs == [] then 0 else SumAt(vs[..|vs| - 1], k) + Get(vs[|vs| - 1], k)
  }

  /** Occurrence counts of a list (`counts[t] += 1` for every element, in order). */
  function Tally<K>(ts: seq<K>): map<K, int> {
    if ts == [] then map[]
    else
      var m := Tally(ts[..|ts| - 1]);
      var x := ts[|ts| - 1];
      m[x := Get(m, x) + 1]
  }

  /** The entries of `p` whose key is in `ks`: the part of a map a loop over its entries has visited. */
  function Restrict<K>(p: map<K, int>, ks: set<K>): (r: map<K, int>)
    ensures r.Keys == p.Keys * ks
    ensures forall k :: k in r ==> r[k] == p[k]
  {
    map k | k in p && k in ks :: p[k]
  }

  /** Two maps with the same keys and the same value at each key are equal. */
  lemma MapsAgree<K, V>(a: map<K, V>, b: map<K, V>)
    requires forall k :: k in a <==> k in b
    requires forall k :: k in a ==> a[k] == b[k]
    ensures a == b
  {
    assert a.Keys == b.Keys;
  }

  // ---------------------------------------------------------------------
  // Merge is a commutative monoid

  lemma MergeCommutative<K>(a: map<K, int>, b: map<K, int>)
    ensures Merge(a, b) == Merge(b, a)
  {
  }

  lemma MergeAssociative<K>(a: map<K, int>, b: map<K, int>, c: map<K, int>)
    ensures Merge(Merge(a, b), c) == Merge(a, Merge(b, c))
  {
    var l, r := Merge(Merge(a, b), c), Merge(a, Merge(b, c));
    assert l.Keys == r.Keys;
    forall k | k in l ensures l[k] == r[k] {
    }
  }

  lemma MergeEmpty<K>(a: map<K, int>)
    ensures Merge(a, map[]) == a && Merge(map[], a) == a
  {
  }

  // ---------------------------------------------------------------------
  // SumMaps

  /** A key is in the sum iff some input has it, with the sum of the inputs' counts. */
  lemma {:induction false} SumMapsAt<K>(vs: seq<map<K, int>>, k: K)
    ensures k in SumMaps(vs) <==> exists i :: 0 <= i < |vs| && k in vs[i]
    ensures Get(SumMaps(vs), k) == SumAt(vs, k)
  {
    if vs != [] {
      var init := vs[..|vs| - 1];
      SumMapsAt(init, k);
      if k in SumMaps(vs) && k !in vs[|vs| - 1] {
        var i :| 0 <= i < |vs| && k in vs[i];
        assert init[i] == vs[i];
      }
      if exists i :: 0 <= i < |init| && k in init[i] {
        var i :| 0 <= i < |init| && k in init[i];
        assert vs[i] == init[i];
      }
    }
  }

  /** Summing a concatenation is merging the two sums. */
  lemma SumMapsSnoc<K>(vs: seq<map<K, int>>, m: map<K, int>)
    ensures SumMaps(vs + [m]) == Merge(SumMaps(vs), m)
  {
    assert (vs + [m])[..|vs|] == vs;
  }

  lemma {:induction false} SumMapsAppend<K>(a: seq<map<K, int>>, b: seq<map<K, int>>)
    ensures SumMaps(a + b) == Merge(SumMaps(a), SumMaps(b))
    decreases |b|
  {
    if b == [] {
      assert a + b == a;
      MergeEmpty(SumMaps(a));
    } else {
      var b' := b[..|b| - 1];
      assert (a + b)[..|a + b| - 1] == a + b';
      assert (a + b)[|a + b| - 1] == b[|b| - 1];
      SumMapsAppend(a, b');
      MergeAssociative(SumMaps(a), SumMaps(b'), b[|b| - 1]);
    }
  }

  /** Moving one input to the end of the list does not change the sum. */
  lemma SumMapsMoveLast<K>(b1: seq<map<K, int>>, x: map<K, int>, b2: seq<map<K, int>>)
    ensures SumMaps(b1 + [x] + b2) == Merge(SumMaps(b1 + b2), x)
  {
    SumMapsAppend(b1 + [x], b2);
    SumMapsAppend(b1, [x]);
    SumMapsAppend(b1, b2);
    assert SumMaps([x]) == Merge(map[], x);
    MergeEmpty(x);
    calc {
      SumMaps(b1 + [x] + b2);
      Merge(Merge(SumMaps(b1), x), SumMaps(b2));
      { MergeAssociative(SumMaps(b1), x, SumMaps(b2)); }
      Merge(SumMaps(b1), Merge(x, SumMaps(b2)));
      { MergeCommutative(x, SumMaps(b2)); }
      Merge(SumMaps(b1), Merge(SumMaps(b2), x));
      { MergeAssociative(SumMaps(b1), SumMaps(b2), x); }
      Merge(SumMaps(b1 + b2), x);
    }
  }

  lemma MultisetRemove<T>(a': seq<T>, x: T, b1: seq<T>, b2: seq<T>)
    requires multiset(a' + [x]) == multiset(b1 + [x] + b2)
    ensures multiset(a') == multiset(b1 + b2)
  {
    assert multiset(a' + [x]) == multiset(a') + multiset{x};
    assert multiset(b1 + [x] + b2) == multiset(b1 + b2) + multiset{x};
    assert multiset(a') == multiset(a' + [x]) - multiset{x};
    assert multiset(b1 + b2) == multiset(b1 + [x] + b2) - multiset{x};
  }

  /** The sum does not depend on the order of its inputs. */
  lemma {:induction false} SumMapsPermutation<K>(a: seq<map<K, int>>, b: seq<map<K, int>>)
    requires multiset(a) == multiset(b)
    ensures SumMaps(a) == SumMaps(b)
    decreases |a|
  {
    if a == [] {
      assert |b| == |multiset(b)| == 0;
    } else {
      var a', x := a[..|a| - 1], a[|a| - 1];
      assert a == a' + [x];
      assert x in multiset(b);
      var j :| 0 <= j < |b| && b[j] == x;
      var b1, b2 := b[..j], b[j + 1..];
      assert b == b1 + [x] + b2;
      MultisetRemove(a', x, b1, b2);
      SumMapsPermutation(a', b1 + b2);
      SumMapsMoveLast(b1, x, b2);
    }
  }

  /** One more entry of `value` visited: its count is added to what the merge held for it. */
  lemma MergeRestrictStep<K>(base: map<K, int>, value: map<K, int>, done: set<K>, file: K)
    requires file in value && file !in done
    ensures var cur := Merge(base, Restrict(value, done));
            Merge(base, Restrict(value, done + {file})) == cur[file := Get(cur, file) + value[file]]
  {
    assert Restrict(value, done + {file}) == Restrict(value, done)[file := value[file]];
  }

  /** The same step, for a loop that removes `file` from the keys still to do. */
  lemma MergeVisitStep<K>(base: map<K, int>, value: map<K, int>, todo: set<K>, file: K)
    requires file in todo && todo <= value.Keys
    ensures var cur := Merge(base, Restrict(value, value.Keys - todo));
            Merge(base, Restrict(value, value.Keys - (todo - {file}))) == cur[file := Get(cur, file) + value[file]]
  {
    MergeRestrictStep(base, value, value.Keys - todo, file);
    assert value.Keys - (todo - {file}) == (value.Keys - todo) + {file};
  }

  /** Restricting to all keys, none left to do, changes nothing. */
  lemma RestrictAll<K>(value: map<K, int>)
    ensures Restrict(value, value.Keys - {}) == value
  {
    assert value.Keys - {} == value.Keys;
  }

  /** `order` visits every key of `keys` exactly once: no repeats, and nothing else. */
  ghost predicate Enumerates(order: seq<string>, keys: set<string>) {
    (forall i, j :: 0 <= i < j < |order| ==> order[i] != order[j]) &&
    forall k :: k in order <==> k in keys
  }

  /** Visiting one more key of the ones still to do. */
  lemma EnumeratesStep(order: seq<string>, keys: set<string>, todo: set<string>, k: string)
    requires todo <= keys && k in todo
    requires Enumerates(order, keys - todo)
    ensures Enumerates(order + [k], keys - (todo - {k}))
  {
    assert (order + [k])[..|order|] == order;
  }

  /** Sums of positive counts are positive. */
  lemma {:induction false} SumMapsPositive<K>(vs: seq<map<K, int>>)
    requires forall i, k :: 0 <= i < |vs| && k in vs[i] ==> vs[i][k] > 0
    ensures forall k :: k in SumMaps(vs) ==> SumMaps(vs)[k] > 0
  {
    if vs != [] {
      SumMapsPositive(vs[..|vs| - 1]);
    }
  }

  // ---------------------------------------------------------------------
  // Tally

  /** A tally holds exactly the elements of the list, each with its number of occurrences. */
  lemma {:induction false} TallyCounts<K>(ts: seq<K>)
    ensures forall k :: k in Tally(ts) <==> k in multiset(ts)
    ensures forall k :: k in Tally(ts) ==> Tally(ts)[k] == multiset(ts)[k] >= 1
  {
    if ts != [] {
      var init := ts[..|ts| - 1];
      TallyCounts(init);
      assert ts == init + [ts[|ts| - 1]];
    }
  }

  /** Tallying one more element adds one to its count. */
  lemma TallySnoc<K>(ts: seq<K>, x: K)
    ensures Tally(ts + [x]) == Tally(ts)[x := Get(Tally(ts), x) + 1]
  {
    assert (ts + [x])[..|ts|] == ts;
  }

  /** Tallying a concatenation is merging the two tallies. */
  lemma TallyAppend<K>(a: seq<K>, b: seq<K>)
    ensures Tally(a + b) == Merge(Tally(a), Tally(b))
  {
    TallyCounts(a);
    TallyCounts(b);
    TallyCounts(a + b);
    var l, r := Tally(a + b), Merge(Tally(a), Tally(b));
    assert multiset(a + b) == multiset(a) + multiset(b);
    assert l.Keys == r.Keys;
    forall k | k in l ensures l[k] == r[k] {
    }
  }
}
