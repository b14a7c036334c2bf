/**
 * The text format of a serialized index: one line per term, the term, then
 * `doc:count` fields, separated by whitespace. Writers differ in the
 * separators and the field order; every reader splits on whitespace, reads
 * each field up to its first `:` and accumulates lines by summing.
 */
module IndexFormat {
  import opened Wrappers
  import opened Chars
  import opened Strings
  import opened Numbers
  import opened Postings

  /** `f"{doc}:{count}"` */
  function Field(doc: string, count: int): string {
    doc + ":" + IntToString(count)
  }

  function FirstColon(s: string): Option<nat> {
    if s == [] then None
    else if s[0] == ':' then Some(0)
    else match FirstColon(s[1..])
      case None => None
      case Some(k) => Some(k + 1)
  }

  predicate NoColon(s: string) {
    forall i | 0 <= i < |s| :: s[i] != ':'
  }

  /** No document name of `p` holds `:` or whitespace. */
  ghost predicate PlainDocs(p: Postings) {
    forall d :: d in p ==> NoColon(d) && NoSep(d, IsSpace)
  }

  /**
   * One posting field as the readers take it: `doc, cnt = item.split(':', 1)`
   * followed by `int(cnt)`; `None` when there is no `:` or `int` fails.
   */
  function ParseField(item: string): Option<(string, int)> {
    match FirstColon(item)
    case None => None
    case Some(k) =>
      if k < |item| then
        match ParseInt(item[k + 1..])
        case None => None
        case Some(n) => Some((item[..k], n))
      else None
  }

  /** The postings the readers' loop over `parts[1:]` builds: `postings[doc] = int(cnt)` for each well-formed field. */
  function FieldsPostings(items: seq<string>): Postings {
    if items == [] then map[]
    else
      var m := FieldsPostings(items[..|items| - 1]);
      match ParseField(items[|items| - 1])
      case None => m
      case Some(p) => m[p.0 := p.1]
  }

  /** Add one parsed line to the index being loaded: `idx[t][d] = idx[t].get(d, 0) + c` for every posting. */
  function AddLine(index: Index, term: string, postings: Postings): Index {
    if postings == map[] then index else index[term := Merge(PostingsFor(index, term), postings)]
  }

  /** The index a sequence of parsed lines loads to. */
  function LoadAll(parsed: seq<(string, Postings)>): Index {
    if parsed == [] then map[]
    else
      var last := parsed[|parsed| - 1];
      AddLine(LoadAll(parsed[..|parsed| - 1]), last.0, last.1)
  }

  /** The postings of the lines whose term is `t`, in order. */
  function PostingsOfTerm(parsed: seq<(string, Postings)>, t: string): seq<Postings> {
    if parsed == [] then []
    else
      var last := parsed[|parsed| - 1];
      PostingsOfTerm(parsed[..|parsed| - 1], t) + (if last.0 == t then [last.1] else [])
  }

  // ---------------------------------------------------------------------
  // Fields

  /** `FirstColon` finds a `:` exactly when there is one, and it is the first. */
  lemma {:induction false} FirstColonSpec(s: string)
    ensures FirstColon(s).Some? <==> ':' in s
    ensures FirstColon(s).Some? ==>
              FirstColon(s).value < |s| && s[FirstColon(s).value] == ':' && NoColon(s[..FirstColon(s).value])
  {
    if s != [] && s[0] != ':' {
      FirstColonSpec(s[1..]);
      if FirstColon(s).Some? {
        var k := FirstColon(s[1..]).value;
        assert s[..k + 1] == [s[0]] + s[1..][..k];
      }
      assert ':' in s <==> ':' in s[1..];
    }
  }

  lemma {:induction false} FirstColonAfter(d: string, rest: string)
    requires NoColon(d)
    ensures FirstColon(d + ":" + rest) == Some(|d|)
  {
    if d != [] {
      assert (d + ":" + rest)[1..] == d[1..] + ":" + rest;
      FirstColonAfter(d[1..], rest);
    }
  }

  /** A field written for a document without `:` reads back as that document and count. */
  lemma ParseFieldOfField(d: string, n: int)
    requires NoColon(d)
    ensures ParseField(Field(d, n)) == Some((d, n))
  {
    FirstColonAfter(d, IntToString(n));
    var f := Field(d, n);
    assert f[|d| + 1..] == IntToString(n);
    assert f[..|d|] == d;
    IntToStringRoundTrip(n);
  }

  /**
   * Fields are injective even for documents holding `:`: the count never
   * holds `:`, so the last `:` of a field ends its document.
   */
  lemma FieldInjective(d1: string, n1: int, d2: string, n2: int)
    requires Field(d1, n1) == Field(d2, n2)
    ensures d1 == d2 && n1 == n2
  {
    var f := Field(d1, n1);
    FieldColonFree(d1, n1);
    FieldColonFree(d2, n2);
    assert f[|d1|] == ':' && f[|d2|] == ':';
    assert d1 == f[..|d1|] == d2;
    assert IntToString(n1) == f[|d1| + 1..] == IntToString(n2);
    IntToStringInjective(n1, n2);
  }

  /** No `:` of a field lies after the one that ends its document. */
  lemma FieldColonFree(d: string, n: int)
    ensures forall k :: |d| < k < |Field(d, n)| ==> Field(d, n)[k] != ':'
  {
    IntToStringChars(n);
    forall k | |d| < k < |Field(d, n)| ensures Field(d, n)[k] != ':' {
      assert Field(d, n)[k] == IntToString(n)[k - |d| - 1];
    }
  }

  /** A field is a whitespace-free word when its document is. */
  lemma FieldIsWord(d: string, n: int)
    requires NoSep(d, IsSpace)
    ensures IsWord(Field(d, n), IsSpace)
  {
    IntToStringChars(n);
    var f := Field(d, n);
    forall i | 0 <= i < |f| ensures !IsSpace(f[i]) {
      if i > |d| {
        assert f[i] == IntToString(n)[i - |d| - 1];
      }
    }
  }

  // ---------------------------------------------------------------------
  // Reading the fields of a line

  ghost predicate FieldFor(item: string, d: string) {
    ParseField(item).Some? && ParseField(item).value.0 == d
  }

  /**
   * A document is in the parsed postings iff some well-formed field names
   * it, and its count is the one of the LAST such field.
   */
  lemma {:induction false} FieldsPostingsLastWins(items: seq<string>, d: string)
    ensures d in FieldsPostings(items) <==> exists i :: 0 <= i < |items| && FieldFor(items[i], d)
    ensures d in FieldsPostings(items) ==>
              exists i :: 0 <= i < |items| && FieldFor(items[i], d) &&
                FieldsPostings(items)[d] == ParseField(items[i]).value.1 &&
                forall j :: i < j < |items| ==> !FieldFor(items[j], d)
  {
    if items != [] {
      var init := items[..|items| - 1];
      FieldsPostingsLastWins(init, d);
      if FieldFor(items[|items| - 1], d) {
        assert FieldsPostings(items)[d] == ParseField(items[|items| - 1]).value.1;
      } else {
        assert FieldsPostings(items).Keys * {d} == FieldsPostings(init).Keys * {d};
        EarlierFieldsWin(items, d);
      }
    }
  }

  /** When the last item does not name `d`, what holds of `d` for the earlier items holds for all of them. */
  lemma EarlierFieldsWin(items: seq<string>, d: string)
    requires items != [] && !FieldFor(items[|items| - 1], d)
    requires var init := items[..|items| - 1];
      (d in FieldsPostings(init) <==> exists i :: 0 <= i < |init| && FieldFor(init[i], d)) &&
      (d in FieldsPostings(init) ==>
         exists i :: 0 <= i < |init| && FieldFor(init[i], d) &&
           FieldsPostings(init)[d] == ParseField(init[i]).value.1 &&
           forall j :: i < j < |init| ==> !FieldFor(init[j], d))
    ensures d in FieldsPostings(items) <==> exists i :: 0 <= i < |items| && FieldFor(items[i], d)
    ensures d in FieldsPostings(items) ==>
              exists i :: 0 <= i < |items| && FieldFor(items[i], d) &&
                FieldsPostings(items)[d] == ParseField(items[i]).value.1 &&
                forall j :: i < j < |items| ==> !FieldFor(items[j], d)
  {
    var init := items[..|items| - 1];
    var m := FieldsPostings(init);
    assert d in FieldsPostings(items) <==> d in m;
    assert d in m ==> FieldsPostings(items)[d] == m[d];
    EarlierFieldsNamed(items, init, d);
    if d in m {
      var i :| 0 <= i < |init| && FieldFor(init[i], d) &&
        m[d] == ParseField(init[i]).value.1 &&
        forall j :: i < j < |init| ==> !FieldFor(init[j], d);
      LaterFieldsSkip(items, init, d, i);
    }
  }

  lemma EarlierFieldsNamed(items: seq<string>, init: seq<string>, d: string)
    requires items != [] && init == items[..|items| - 1] && !FieldFor(items[|items| - 1], d)
    ensures (exists i :: 0 <= i < |items| && FieldFor(items[i], d)) <==>
            (exists i :: 0 <= i < |init| && FieldFor(init[i], d))
  {
    if exists i :: 0 <= i < |items| && FieldFor(items[i], d) {
      var i :| 0 <= i < |items| && FieldFor(items[i], d);
      assert init[i] == items[i];
    }
    if exists i :: 0 <= i < |init| && FieldFor(init[i], d) {
      var i :| 0 <= i < |init| && FieldFor(init[i], d);
      assert items[i] == init[i];
    }
  }

  lemma LaterFieldsSkip(items: seq<string>, init: seq<string>, d: string, i: nat)
    requires items != [] && init == items[..|items| - 1] && !FieldFor(items[|items| - 1], d) && i < |init|
    requires forall j :: i < j < |init| ==> !FieldFor(init[j], d)
    ensures items[i] == init[i]
    ensures forall j :: i < j < |items| ==> !FieldFor(items[j], d)
  {
    forall j | i < j < |items| ensures !FieldFor(items[j], d) {
      if j < |init| {
        assert items[j] == init[j];
      }
    }
  }

  /** `f` is the field `doc:count` of one entry of `p`. */
  ghost predicate WrittenFrom(f: string, p: Postings) {
    exists d :: d in p && f == Field(d, p[d])
  }

  /**
   * Round trip of the fields: whatever order and separators a writer used,
   * when every field is `doc:count` for an entry of `p`, every entry is
   * written and no document contains `:`, the readers get `p` back.
   */
  lemma FieldsRoundTrip(fs: seq<string>, p: Postings)
    requires forall d :: d in p ==> NoColon(d)
    requires forall i :: 0 <= i < |fs| ==> WrittenFrom(fs[i], p)
    requires forall d :: d in p ==> Field(d, p[d]) in fs
    ensures FieldsPostings(fs) == p
  {
    var r := FieldsPostings(fs);
    forall d ensures (d in r <==> d in p) && (d in r ==> r[d] == p[d]) {
      FieldsRoundTripAt(fs, p, d);
    }
    MapsAgree(r, p);
  }

  lemma FieldsRoundTripAt(fs: seq<string>, p: Postings, d: string)
    requires forall d :: d in p ==> NoColon(d)
    requires forall i :: 0 <= i < |fs| ==> WrittenFrom(fs[i], p)
    requires forall d :: d in p ==> Field(d, p[d]) in fs
    ensures d in FieldsPostings(fs) <==> d in p
    ensures d in FieldsPostings(fs) ==> FieldsPostings(fs)[d] == p[d]
  {
    FieldsPostingsLastWins(fs, d);
    if d in p {
      var i :| 0 <= i < |fs| && fs[i] == Field(d, p[d]);
      ParseFieldOfField(d, p[d]);
      assert FieldFor(fs[i], d);
    }
    if d in FieldsPostings(fs) {
      var i :| 0 <= i < |fs| && FieldFor(fs[i], d) && FieldsPostings(fs)[d] == ParseField(fs[i]).value.1;
      assert WrittenFrom(fs[i], p);
      var d' :| d' in p && fs[i] == Field(d', p[d']);
      ParseFieldOfField(d', p[d']);
    }
  }

  /** A line `term`, one whitespace character, then fields joined by whitespace, splits back into the term and the fields. */
  lemma LineSplits(term: string, sepA: char, fs: seq<string>, sepB: char)
    requires IsSpace(sepA) && IsSpace(sepB)
    requires IsWord(term, IsSpace)
    requires forall i :: 0 <= i < |fs| ==> IsWord(fs[i], IsSpace)
    ensures Split(term + [sepA] + JoinWith(fs, sepB), IsSpace) == [term] + fs
  {
    SplitAround(term, sepA, JoinWith(fs, sepB), IsSpace);
    SplitWord(term, IsSpace);
    SplitJoin(fs, sepB, IsSpace);
  }

  // ---------------------------------------------------------------------
  // Loading

  /**
   * Load-time merge: a term's postings are the sum of the postings of all its
   * lines, and a term is present only when some line gave it a posting.
   */
  lemma {:induction false} LoadAllSums(parsed: seq<(string, Postings)>, t: string)
    ensures PostingsFor(LoadAll(parsed), t) == SumMaps(PostingsOfTerm(parsed, t))
    ensures t in LoadAll(parsed) <==> SumMaps(PostingsOfTerm(parsed, t)) != map[]
  {
    if parsed != [] {
      var init, last := parsed[..|parsed| - 1], parsed[|parsed| - 1];
      LoadAllSums(init, t);
      var vs := PostingsOfTerm(init, t);
      assert LoadAll(parsed) == AddLine(LoadAll(init), last.0, last.1);
      if last.0 == t {
        assert PostingsOfTerm(parsed, t) == vs + [last.1];
        AddLineSameTerm(LoadAll(init), t, last.1, vs);
      } else {
        assert PostingsOfTerm(parsed, t) == vs + [];
        assert vs + [] == vs;
      }
    }
  }

  lemma AddLineSameTerm(index: Index, t: string, p: Postings, vs: seq<Postings>)
    requires PostingsFor(index, t) == SumMaps(vs)
    requires t in index <==> SumMaps(vs) != map[]
    ensures PostingsFor(AddLine(index, t, p), t) == SumMaps(vs + [p])
    ensures t in AddLine(index, t, p) <==> SumMaps(vs + [p]) != map[]
  {
    assert (vs + [p])[..|vs|] == vs;
    assert SumMaps(vs + [p]) == Merge(SumMaps(vs), p);
    if p == map[] {
      MergeEmpty(SumMaps(vs));
    } else {
      var k :| k in p;
      assert k in Merge(SumMaps(vs), p);
    }
  }

  /** Lines with distinct terms and non-empty postings load to exactly those postings. */
  lemma {:induction false} LoadAllDistinct(parsed: seq<(string, Postings)>)
    requires forall i, j :: 0 <= i < j < |parsed| ==> parsed[i].0 != parsed[j].0
    requires forall i :: 0 <= i < |parsed| ==> parsed[i].1 != map[]
    ensures forall t :: t in LoadAll(parsed) <==> exists i :: 0 <= i < |parsed| && parsed[i].0 == t
    ensures forall i :: 0 <= i < |parsed| ==> LoadAll(parsed)[parsed[i].0] == parsed[i].1
  {
    if parsed != [] {
      var init, last := parsed[..|parsed| - 1], parsed[|parsed| - 1];
      assert parsed == init + [last];
      LoadAllDistinct(init);
      LoadAllDistinctStep(init, last);
    }
  }

  lemma LoadAllDistinctStep(init: seq<(string, Postings)>, last: (string, Postings))
    requires forall t :: t in LoadAll(init) <==> exists i :: 0 <= i < |init| && init[i].0 == t
    requires forall i :: 0 <= i < |init| ==> LoadAll(init)[init[i].0] == init[i].1
    requires forall i :: 0 <= i < |init| ==> init[i].0 != last.0
    requires last.1 != map[]
    ensures forall t :: t in LoadAll(init + [last]) <==> exists i :: 0 <= i < |init + [last]| && (init + [last])[i].0 == t
    ensures forall i :: 0 <= i < |init + [last]| ==> LoadAll(init + [last])[(init + [last])[i].0] == (init + [last])[i].1
  {
    var parsed := init + [last];
    assert parsed[..|init|] == init;
    assert LoadAll(parsed) == AddLine(LoadAll(init), last.0, last.1);
    assert last.0 !in LoadAll(init);
    MergeEmpty(last.1);
    assert LoadAll(parsed) == LoadAll(init)[last.0 := last.1];
    forall i | 0 <= i < |parsed| ensures LoadAll(parsed)[parsed[i].0] == parsed[i].1 {
      if i < |init| {
        assert parsed[i] == init[i];
      }
    }
    forall t | t in LoadAll(parsed) ensures exists i :: 0 <= i < |parsed| && parsed[i].0 == t {
      if t != last.0 {
        var i :| 0 <= i < |init| && init[i].0 == t;
        assert parsed[i] == init[i];
      } else {
        assert parsed[|init|].0 == t;
      }
    }
    forall t | exists i :: 0 <= i < |parsed| && parsed[i].0 == t ensures t in LoadAll(parsed) {
      var i :| 0 <= i < |parsed| && parsed[i].0 == t;
      if i < |init| {
        assert init[i] == parsed[i];
      }
    }
  }
}
