/** The earlier indexed collection (Lesson9). It has the same shape as the latest revision,
    but differs in four ways:
    - an index is maintained by appending and re-sorting;
    - the sort comparator and the query read the indexed value with an unchecked type
      assertion, which panics on anything but a Go string;
    - a document enters an index by its tag alone;
    - `updateIndexes` strips the key from every index once per qualifying index.
    `documents` is None for a nil Go map; only GetAll tells that apart from an empty map.
    A nil index map behaves as an empty one everywhere. */
module Lesson9Collection {
  import opened Results
  import opened Documents
  import opened StringOrder
  import opened Sequences
  import opened IndexEntries
  import Lesson6Collection
  import Sorting

  datatype Collection = Collection(
    config: Config,
    documents: Option<map<string, Document>>,
    indexes: map<string, seq<Entry>>)

  /** The stored documents; a nil map holds none. */
  function Stored(c: Collection): map<string, Document> {
    match c.documents
    case None => map[]
    case Some(m) => m
  }

  /** What CreateCollection makes: an empty, non-nil document map and no indexes. */
  function Empty(cfg: Config): Collection {
    Collection(cfg, Some(map[]), map[])
  }

  // ---------------------------------------------------------------- field readings

  /** A document enters the index on `f` when that field exists and is tagged String. */
  predicate Qualifies(doc: Document, f: string) {
    f in doc.fields && doc.fields[f].tag == StringType
  }

  /** `doc.Fields[f].Value.(string)`: the value under `f` when it is a Go string, whatever
      the tag. None stands for the panic of the type assertion; a missing field reads
      as the zero DocumentField, whose value is nil. */
  function RawString(doc: Document, f: string): (r: Option<string>)
    ensures r.Some? <==> f in doc.fields && doc.fields[f].value.DString?
    ensures r.Some? ==> doc.fields[f].value == DString(r.value)
  {
    if f in doc.fields && doc.fields[f].value.DString? then Some(doc.fields[f].value.s) else None
  }

  /** Every entry can be read as a string under `f` without a panic. */
  predicate AllRaw(s: seq<Entry>, f: string) {
    forall i :: 0 <= i < |s| ==> RawString(s[i].doc, f).Some?
  }

  /** Any two entries are in non-decreasing order of their string under `f`. With fewer
      than two entries this says nothing, which is all sort.Slice promises then. */
  predicate RawSorted(s: seq<Entry>, f: string) {
    forall i, j :: 0 <= i < j < |s| ==>
      && RawString(s[i].doc, f).Some? && RawString(s[j].doc, f).Some?
      && StrLe(RawString(s[i].doc, f).value, RawString(s[j].doc, f).value)
  }

  // ---------------------------------------------------------------- sort.Slice

  function Keyed(s: seq<Entry>, f: string): (r: seq<Sorting.Candidate>)
    requires AllRaw(s, f)
    ensures |r| == |s|
    ensures forall i :: 0 <= i < |s| ==> r[i] == Sorting.Candidate(RawString(s[i].doc, f).value, s[i])
  {
    seq(|s|, i requires 0 <= i < |s| => Sorting.Candidate(RawString(s[i].doc, f).value, s[i]))
  }

  /** sort.Slice with the comparator `vi < vj` on the strings under `f`. With two or more
      entries every entry takes part in some comparison, so a single entry without a
      string makes the comparator panic; with fewer there is no comparison at all. */
  function SortIndex(s: seq<Entry>, f: string): (r: Result<seq<Entry>>)
    ensures r.Panic? <==> |s| >= 2 && !AllRaw(s, f)
    ensures !r.Err?
  {
    if |s| < 2 then Ok(s)
    else if !AllRaw(s, f) then Panic
    else Ok(SortedEntries(s, f))
  }

  function SortedEntries(s: seq<Entry>, f: string): seq<Entry>
    requires AllRaw(s, f)
  {
    Sorting.Entries(Sorting.Sort(Keyed(s, f)))
  }

  lemma SortedEntriesValues(s: seq<Entry>, f: string)
    requires AllRaw(s, f)
    ensures var sorted := Sorting.Sort(Keyed(s, f));
            && |SortedEntries(s, f)| == |sorted| == |s|
            && forall i :: 0 <= i < |sorted| ==> RawString(SortedEntries(s, f)[i].doc, f) == Some(sorted[i].value)
  {
    var ks := Keyed(s, f);
    var sorted := Sorting.Sort(ks);
    var r := SortedEntries(s, f);
    Sorting.SortSorted(ks);
    assert |sorted| == |ks| by {
      assert |multiset(sorted)| == |multiset(ks)|;
    }
    forall i | 0 <= i < |sorted|
      ensures RawString(r[i].doc, f) == Some(sorted[i].value)
    {
      assert sorted[i] in ks;
      var m :| 0 <= m < |ks| && ks[m] == sorted[i];
    }
  }

  lemma SortedEntriesSorted(s: seq<Entry>, f: string)
    requires AllRaw(s, f)
    ensures RawSorted(SortedEntries(s, f), f)
  {
    var sorted := Sorting.Sort(Keyed(s, f));
    Sorting.SortSorted(Keyed(s, f));
    SortedEntriesValues(s, f);
  }

  lemma SortedEntriesMembers(s: seq<Entry>, f: string)
    requires AllRaw(s, f)
    ensures forall e :: e in SortedEntries(s, f) <==> e in s
  {
    var ks := Keyed(s, f);
    var sorted := Sorting.Sort(ks);
    var r := SortedEntries(s, f);
    Sorting.SortSorted(ks);
    forall e
      ensures e in r <==> e in s
    {
      if e in r {
        var i :| 0 <= i < |r| && r[i] == e;
        assert sorted[i] in ks;
        var m :| 0 <= m < |ks| && ks[m] == sorted[i];
        assert s[m] == e;
      }
      if e in s {
        var m :| 0 <= m < |s| && s[m] == e;
        assert ks[m] in sorted;
        var i :| 0 <= i < |sorted| && sorted[i] == ks[m];
        assert r[i] == e;
      }
    }
  }

  lemma SortedEntriesDistinct(s: seq<Entry>, f: string)
    requires AllRaw(s, f) && DistinctKeys(s)
    ensures DistinctKeys(SortedEntries(s, f))
  {
    var ks := Keyed(s, f);
    var sorted := Sorting.Sort(ks);
    var r := SortedEntries(s, f);
    assert Sorting.KeysDistinct(ks) by {
      forall i, j | 0 <= i < j < |ks|
        ensures ks[i].entry.key != ks[j].entry.key
      {
      }
    }
    Sorting.SortSorted(ks);
    forall i, j | 0 <= i < j < |r|
      ensures r[i].key != r[j].key
    {
      assert r[i] == sorted[i].entry && r[j] == sorted[j].entry;
    }
  }

  /** A sort that does not panic returns the same entries, sorted, keys still distinct. */
  lemma SortIndexSorts(s: seq<Entry>, f: string)
    requires SortIndex(s, f).Ok?
    ensures RawSorted(SortIndex(s, f).value, f)
    ensures forall e :: e in SortIndex(s, f).value <==> e in s
    ensures |SortIndex(s, f).value| == |s|
    ensures multiset(SortIndex(s, f).value) == multiset(s)
    ensures DistinctKeys(s) ==> DistinctKeys(SortIndex(s, f).value)
  {
    if |s| >= 2 {
      assert SortIndex(s, f).value == SortedEntries(s, f);
      Sorting.SortEntries(Keyed(s, f));
      assert Sorting.Entries(Keyed(s, f)) == s;
      SortedEntriesValues(s, f);
      SortedEntriesSorted(s, f);
      SortedEntriesMembers(s, f);
      if DistinctKeys(s) {
        SortedEntriesDistinct(s, f);
      }
    }
  }

  // ---------------------------------------------------------------- CreateIndex / DeleteIndex

  /** The entries CreateIndex appends while ranging over the documents in `order`. */
  function Qualifying(docs: map<string, Document>, f: string, order: seq<string>): (r: seq<Entry>)
    requires forall k :: k in order ==> k in docs
    ensures forall e :: e in r <==> e.key in order && e.key in docs && e.doc == docs[e.key] && Qualifies(e.doc, f)
    decreases |order|
  {
    if |order| == 0 then []
    else
      var k := order[0];
      assert forall k' :: k' in order ==> k' == k || k' in order[1..];
      (if Qualifies(docs[k], f) then [Entry(k, docs[k])] else []) + Qualifying(docs, f, order[1..])
  }

  lemma {:induction false} QualifyingKeysDistinct(docs: map<string, Document>, f: string, order: seq<string>)
    requires forall k :: k in order ==> k in docs
    requires Distinct(order)
    ensures DistinctKeys(Qualifying(docs, f, order))
    decreases |order|
  {
    if |order| > 0 {
      var tail := order[1..];
      assert Distinct(tail) by {
        forall i, j | 0 <= i < j < |tail|
          ensures tail[i] != tail[j]
        {
          assert tail[i] == order[i + 1] && tail[j] == order[j + 1];
        }
      }
      QualifyingKeysDistinct(docs, f, tail);
      var rest := Qualifying(docs, f, tail);
      if Qualifies(docs[order[0]], f) {
        var u := [Entry(order[0], docs[order[0]])] + rest;
        forall i, j | 0 <= i < j < |u|
          ensures u[i].key != u[j].key
        {
          assert u[j] == rest[j - 1];
          if i == 0 {
            assert rest[j - 1].key in tail;
            var m :| 0 <= m < |tail| && tail[m] == rest[j - 1].key;
            assert order[m + 1] == tail[m];
          } else {
            assert u[i] == rest[i - 1];
          }
        }
      }
    }
  }

  /** Two entries with different keys in one sequence make it at least two long. */
  lemma TwoKeysTwoEntries(s: seq<Entry>, a: Entry, b: Entry)
    requires a in s && b in s && a.key != b.key
    ensures |s| >= 2
  {
  }

  /** There are two qualifying documents, and one of them holds no Go string under `f`:
      building or resorting their index panics. */
  ghost predicate PanicsOnBuild(docs: map<string, Document>, f: string) {
    && (exists k1, k2 :: k1 in docs && k2 in docs && k1 != k2 && Qualifies(docs[k1], f) && Qualifies(docs[k2], f))
    && (exists k :: k in docs && Qualifies(docs[k], f) && RawString(docs[k], f).None?)
  }

  /** CreateIndex: ErrIndexExists when the field is indexed already. Otherwise collect the
      documents whose field is tagged String, in `order`, and sort them; the sort panics
      exactly when PanicsOnBuild holds. */
  function CreateIndex(c: Collection, f: string, order: seq<string>): (r: Result<Collection>)
    requires Enumerates(order, Stored(c).Keys)
    ensures f in c.indexes <==> r == Err(IndexExists)
    ensures r.Ok? ==>
              && r.value.config == c.config
              && r.value.documents == c.documents
              && r.value.indexes.Keys == c.indexes.Keys + {f}
              && (forall g :: g in c.indexes ==> r.value.indexes[g] == c.indexes[g])
  {
    if f in c.indexes then Err(IndexExists)
    else
      match SortIndex(Qualifying(Stored(c), f, order), f)
      case Ok(s) => Ok(c.(indexes := c.indexes[f := s]))
      case _ => Panic
  }

  /** When the field is new, CreateIndex panics exactly when PanicsOnBuild holds;
      otherwise the new index holds exactly the documents whose field is tagged String,
      each once, in order of the string under `f`. */
  lemma CreateIndexBuildsSortedIndex(c: Collection, f: string, order: seq<string>)
    requires Enumerates(order, Stored(c).Keys)
    requires f !in c.indexes
    ensures CreateIndex(c, f, order).Panic? <==> PanicsOnBuild(Stored(c), f)
    ensures CreateIndex(c, f, order).Ok? <==> !PanicsOnBuild(Stored(c), f)
    ensures CreateIndex(c, f, order).Ok? ==>
              var s := CreateIndex(c, f, order).value.indexes[f];
              && RawSorted(s, f)
              && DistinctKeys(s)
              && (forall e :: e in s <==> e.key in Stored(c) && e.doc == Stored(c)[e.key] && Qualifies(e.doc, f))
  {
    var docs := Stored(c);
    var q := Qualifying(docs, f, order);
    QualifyingKeysDistinct(docs, f, order);
    QualifyingPanics(docs, f, order);
    if SortIndex(q, f).Ok? {
      SortIndexSorts(q, f);
    }
  }

  /** Sorting the qualifying entries panics exactly when two stored documents qualify and
      one of them holds no Go string under `f`. */
  lemma QualifyingPanics(docs: map<string, Document>, f: string, order: seq<string>)
    requires Enumerates(order, docs.Keys)
    ensures var q := Qualifying(docs, f, order);
            |q| >= 2 && !AllRaw(q, f) <==> PanicsOnBuild(docs, f)
  {
    var q := Qualifying(docs, f, order);
    if |q| >= 2 && !AllRaw(q, f) {
      QualifyingPanicsWitness(docs, f, order);
    }
    if PanicsOnBuild(docs, f) {
      PanicsOnBuildQualifying(docs, f, order);
    }
  }

  lemma QualifyingPanicsWitness(docs: map<string, Document>, f: string, order: seq<string>)
    requires Enumerates(order, docs.Keys)
    requires var q := Qualifying(docs, f, order); |q| >= 2 && !AllRaw(q, f)
    ensures PanicsOnBuild(docs, f)
  {
    var q := Qualifying(docs, f, order);
    QualifyingKeysDistinct(docs, f, order);
    var i :| 0 <= i < |q| && RawString(q[i].doc, f).None?;
    assert q[0] in q && q[1] in q && q[i] in q;
    var k1, k2, k := q[0].key, q[1].key, q[i].key;
    assert k1 in docs && k2 in docs && k1 != k2 && Qualifies(docs[k1], f) && Qualifies(docs[k2], f);
    assert k in docs && Qualifies(docs[k], f) && RawString(docs[k], f).None?;
  }

  lemma PanicsOnBuildQualifying(docs: map<string, Document>, f: string, order: seq<string>)
    requires Enumerates(order, docs.Keys)
    requires PanicsOnBuild(docs, f)
    ensures var q := Qualifying(docs, f, order); |q| >= 2 && !AllRaw(q, f)
  {
    var q := Qualifying(docs, f, order);
    var k1, k2 :| k1 in docs && k2 in docs && k1 != k2 && Qualifies(docs[k1], f) && Qualifies(docs[k2], f);
    assert k1 in order && k2 in order;
    assert Entry(k1, docs[k1]) in q && Entry(k2, docs[k2]) in q;
    TwoKeysTwoEntries(q, Entry(k1, docs[k1]), Entry(k2, docs[k2]));
    var k :| k in docs && Qualifies(docs[k], f) && RawString(docs[k], f).None?;
    assert k in order;
    assert Entry(k, docs[k]) in q;
  }

  /** DeleteIndex: ErrIndexNotFound when absent, otherwise drop that index alone. */
  function DeleteIndex(c: Collection, f: string): (r: Result<Collection>)
    ensures f !in c.indexes <==> r == Err(IndexNotFound)
    ensures f in c.indexes ==> r.Ok?
    ensures r.Ok? ==>
              && r.value.config == c.config
              && r.value.documents == c.documents
              && r.value.indexes.Keys == c.indexes.Keys - {f}
              && (forall g :: g in r.value.indexes ==> r.value.indexes[g] == c.indexes[g])
  {
    if f !in c.indexes then Err(IndexNotFound)
    else Ok(c.(indexes := map g | g in c.indexes && g != f :: c.indexes[g]))
  }

  // ---------------------------------------------------------------- Query

  /** The entries whose string under `f` lies within the bounds, in index order. Only
      called once every entry is known to hold a string. */
  function Scan(s: seq<Entry>, f: string, lo: Option<string>, hi: Option<string>): (r: seq<Entry>)
    requires AllRaw(s, f)
    ensures forall e :: e in r <==> e in s && InRange(RawString(e.doc, f).value, lo, hi)
    ensures Subsequence(r, s)
    ensures |r| <= |s|
    decreases |s|
  {
    if |s| == 0 then []
    else
      assert AllRaw(s[1..], f) by {
        forall i | 0 <= i < |s[1..]|
          ensures RawString(s[1..][i].doc, f).Some?
        {
          assert s[1..][i] == s[i + 1];
        }
      }
      assert forall e :: e in s[1..] ==> e in s;
      assert RawString(s[0].doc, f).Some?;
      var rest := Scan(s[1..], f, lo, hi);
      if InRange(RawString(s[0].doc, f).value, lo, hi) then
        assert ([s[0]] + rest)[1..] == rest;
        [s[0]] + rest
      else rest
  }

  /** Query: ErrIndexNotFound without an index on `f`. The loop asserts every entry's
      value to be a string, so an entry without one panics. Otherwise the documents of the
      in-range entries, in index order, reversed in place when `desc` is set. */
  function Query(c: Collection, f: string, p: QueryParams): (r: Result<seq<Document>>)
    ensures f !in c.indexes <==> r == Err(IndexNotFound)
    ensures r.Panic? <==> f in c.indexes && !AllRaw(c.indexes[f], f)
    ensures r.Ok? ==> |r.value| <= |c.indexes[f]|
    ensures r.Ok? ==> forall d :: d in r.value <==>
              exists e :: e in c.indexes[f] && e.doc == d && InRange(RawString(e.doc, f).value, p.minValue, p.maxValue)
  {
    if f !in c.indexes then Err(IndexNotFound)
    else if !AllRaw(c.indexes[f], f) then Panic
    else
      var found := Docs(Scan(c.indexes[f], f, p.minValue, p.maxValue));
      ReverseMembers(found);
      Ok(if p.desc then Reverse(found) else found)
  }

  /** With `desc` the result is exactly the ascending result reversed. */
  lemma QueryDescIsReverse(c: Collection, f: string, p: QueryParams)
    requires Query(c, f, p).Ok?
    ensures Query(c, f, p.(desc := true)) == Ok(Reverse(Query(c, f, p.(desc := false)).value))
  {
  }

  lemma RawSortedTail(s: seq<Entry>, f: string)
    requires |s| > 0 && AllRaw(s, f) && RawSorted(s, f)
    ensures AllRaw(s[1..], f) && RawSorted(s[1..], f)
    ensures forall y :: y in s[1..] ==> StrLe(RawString(s[0].doc, f).value, RawString(y.doc, f).value)
  {
    var t := s[1..];
    forall i | 0 <= i < |t|
      ensures RawString(t[i].doc, f).Some?
    {
      assert t[i] == s[i + 1];
    }
    forall i, j | 0 <= i < j < |t|
      ensures StrLe(RawString(t[i].doc, f).value, RawString(t[j].doc, f).value)
    {
      assert t[i] == s[i + 1] && t[j] == s[j + 1];
    }
    forall y | y in t
      ensures StrLe(RawString(s[0].doc, f).value, RawString(y.doc, f).value)
    {
      var j :| 0 <= j < |t| && t[j] == y;
      assert s[j + 1] == y;
    }
  }

  lemma RawSortedCons(x: Entry, s: seq<Entry>, f: string)
    requires AllRaw(s, f) && RawSorted(s, f)
    requires RawString(x.doc, f).Some?
    requires forall y :: y in s ==> StrLe(RawString(x.doc, f).value, RawString(y.doc, f).value)
    ensures AllRaw([x] + s, f) && RawSorted([x] + s, f)
  {
    var t := [x] + s;
    forall i | 0 <= i < |t|
      ensures RawString(t[i].doc, f).Some?
    {
      if i > 0 {
        assert t[i] == s[i - 1];
      }
    }
    forall i, j | 0 <= i < j < |t|
      ensures StrLe(RawString(t[i].doc, f).value, RawString(t[j].doc, f).value)
    {
      assert t[j] == s[j - 1];
      if i > 0 {
        assert t[i] == s[i - 1];
      }
    }
  }

  lemma {:induction false} ScanSorted(s: seq<Entry>, f: string, lo: Option<string>, hi: Option<string>)
    requires AllRaw(s, f) && RawSorted(s, f)
    ensures AllRaw(Scan(s, f, lo, hi), f) && RawSorted(Scan(s, f, lo, hi), f)
    decreases |s|
  {
    if |s| > 0 {
      RawSortedTail(s, f);
      ScanSorted(s[1..], f, lo, hi);
      if InRange(RawString(s[0].doc, f).value, lo, hi) {
        RawSortedCons(s[0], Scan(s[1..], f, lo, hi), f);
      }
    }
  }

  /** Over a sorted index the ascending result is in non-decreasing order of the field. */
  lemma AscendingQueryIsSorted(c: Collection, f: string, p: QueryParams)
    requires Query(c, f, p).Ok? && !p.desc
    requires RawSorted(c.indexes[f], f)
    ensures var r := Query(c, f, p).value;
            forall i, j :: 0 <= i < j < |r| ==>
              && RawString(r[i], f).Some? && RawString(r[j], f).Some?
              && StrLe(RawString(r[i], f).value, RawString(r[j], f).value)
  {
    var s := Scan(c.indexes[f], f, p.minValue, p.maxValue);
    ScanSorted(c.indexes[f], f, p.minValue, p.maxValue);
    var r := Query(c, f, p).value;
    forall i, j | 0 <= i < j < |r|
      ensures && RawString(r[i], f).Some? && RawString(r[j], f).Some?
              && StrLe(RawString(r[i], f).value, RawString(r[j], f).value)
    {
      assert r[i] == s[i].doc && r[j] == s[j].doc;
    }
  }

  // ---------------------------------------------------------------- Put

  /** updateIndexes as written, ranging over the indexes in `fields`. For every index the
      new document qualifies for, it strips the key from every index, appends the entry to
      this one and resorts it. */
  function UpdateIndexes(ix: map<string, seq<Entry>>, key: string, doc: Document, fields: seq<string>)
    : (r: Result<map<string, seq<Entry>>>)
    requires forall f :: f in fields ==> f in ix
    ensures r.Ok? ==> r.value.Keys == ix.Keys
    ensures !r.Err?
    decreases |fields|
  {
    if |fields| == 0 then Ok(ix)
    else
      var f := fields[0];
      if !Qualifies(doc, f) then UpdateIndexes(ix, key, doc, fields[1..])
      else
        var stripped := RemoveFromIndexes(ix, key);
        match SortIndex(stripped[f] + [Entry(key, doc)], f)
        case Ok(s) => UpdateIndexes(stripped[f := s], key, doc, fields[1..])
        case _ => Panic
  }

  /** Put: validate the primary key, store the document (replacing any previous one) and
      run updateIndexes over the indexes in iteration order `order`. */
  function Put(c: Collection, doc: Document, order: seq<string>): (r: Result<Collection>)
    requires Enumerates(order, c.indexes.Keys)
    ensures Lesson6Collection.PrimaryKey(c.config, doc).Err? ==> r == Err(Lesson6Collection.PrimaryKey(c.config, doc).error)
    ensures Lesson6Collection.PrimaryKey(c.config, doc).Ok? ==> !r.Err?
    ensures r.Ok? ==>
              var key := Lesson6Collection.PrimaryKey(c.config, doc).value;
              && r.value.config == c.config
              && r.value.documents.Some?
              && key in Stored(r.value) && Stored(r.value)[key] == doc
              && (forall k :: k in Stored(r.value) <==> k in Stored(c) || k == key)
              && (forall k :: k in Stored(c) && k != key ==> Stored(r.value)[k] == Stored(c)[k])
              && r.value.indexes.Keys == c.indexes.Keys
  {
    match Lesson6Collection.PrimaryKey(c.config, doc)
    case Err(e) => Err(e)
    case Panic => Panic
    case Ok(key) =>
      match UpdateIndexes(c.indexes, key, doc, order)
      case Ok(ix) => Ok(Collection(c.config, Some(Stored(c)[key := doc]), ix))
      case _ => Panic
  }

  /** The last index in `fields` the document qualifies for. */
  function LastQualifying(doc: Document, fields: seq<string>): (r: Option<string>)
    ensures r.Some? ==> r.value in fields && Qualifies(doc, r.value)
    ensures r.None? <==> forall f :: f in fields ==> !Qualifies(doc, f)
    decreases |fields|
  {
    if |fields| == 0 then None
    else
      assert forall f :: f in fields ==> f == fields[0] || f in fields[1..];
      match LastQualifying(doc, fields[1..])
      case Some(g) => Some(g)
      case None => if Qualifies(doc, fields[0]) then Some(fields[0]) else None
  }

  /** The defect of updateIndexes. When updateIndexes succeeds:
      - if the document qualifies for no index, every index is left as it was, stale
        entries for the key included;
      - otherwise the key ends up in exactly one index, the last qualifying one in
        iteration order. */
  lemma {:induction false} UpdateIndexesKeepsKeyOnlyInLast(
    ix: map<string, seq<Entry>>, key: string, doc: Document, fields: seq<string>)
    requires forall f :: f in fields ==> f in ix
    requires UpdateIndexes(ix, key, doc, fields).Ok?
    ensures LastQualifying(doc, fields).None? ==> UpdateIndexes(ix, key, doc, fields).value == ix
    ensures LastQualifying(doc, fields).Some? ==>
              forall g :: g in ix ==>
                (key in KeysOf(UpdateIndexes(ix, key, doc, fields).value[g]) <==> Some(g) == LastQualifying(doc, fields))
    decreases |fields|
  {
    if |fields| > 0 {
      var f := fields[0];
      var rest := fields[1..];
      if !Qualifies(doc, f) {
        UpdateIndexesKeepsKeyOnlyInLast(ix, key, doc, rest);
      } else {
        var stripped := RemoveFromIndexes(ix, key);
        var s := SortIndex(stripped[f] + [Entry(key, doc)], f).value;
        UpdateIndexesKeepsKeyOnlyInLast(stripped[f := s], key, doc, rest);
        if LastQualifying(doc, rest).None? {
          StripThenAdd(ix, key, doc, f);
        }
      }
    }
  }

  /** One qualifying step of updateIndexes: after stripping the key from every index and
      adding it to the index on `f`, the key is in that index and in no other. */
  lemma StripThenAdd(ix: map<string, seq<Entry>>, key: string, doc: Document, f: string)
    requires f in ix
    requires SortIndex(RemoveFromIndexes(ix, key)[f] + [Entry(key, doc)], f).Ok?
    ensures var stripped := RemoveFromIndexes(ix, key);
            var s := SortIndex(stripped[f] + [Entry(key, doc)], f).value;
            forall g :: g in ix ==> (key in KeysOf(stripped[f := s][g]) <==> g == f)
  {
    var stripped := RemoveFromIndexes(ix, key);
    var appended := stripped[f] + [Entry(key, doc)];
    var s := SortIndex(appended, f).value;
    SortIndexSorts(appended, f);
    forall g | g in ix
      ensures key in KeysOf(stripped[f := s][g]) <==> g == f
    {
      if g == f {
        assert Entry(key, doc) in s;
      } else {
        assert stripped[f := s][g] == RemoveKey(ix[g], key);
      }
    }
  }

  /** With exactly one index, and a new document that qualifies for it, Put leaves that
      index sorted, holding the key exactly once next to every other entry it had. */
  lemma PutWithOneIndex(c: Collection, doc: Document, f: string)
    requires c.indexes.Keys == {f}
    requires DistinctKeys(c.indexes[f])
    requires Qualifies(doc, f)
    requires Put(c, doc, [f]).Ok?
    ensures var key := Lesson6Collection.PrimaryKey(c.config, doc).value;
            var s := Put(c, doc, [f]).value.indexes[f];
            && RawSorted(s, f)
            && DistinctKeys(s)
            && (forall e :: e in s <==> e == Entry(key, doc) || (e in c.indexes[f] && e.key != key))
  {
    var key := Lesson6Collection.PrimaryKey(c.config, doc).value;
    var stripped := RemoveFromIndexes(c.indexes, key);
    var appended := stripped[f] + [Entry(key, doc)];
    SortIndexSorts(appended, f);
    var sorted := SortIndex(appended, f).value;
    assert [f][1..] == [];
    assert UpdateIndexes(c.indexes, key, doc, [f]) == Ok(stripped[f := sorted]);
    assert Put(c, doc, [f]).value.indexes[f] == sorted;
    RemoveKeyDistinct(c.indexes[f], key);
    AppendDistinct(stripped[f], Entry(key, doc));
  }

  /** updateIndexes as it was evidently meant: strip the key from every index once, then
      add the entry to each index the document qualifies for. */
  function UpdateIndexesCorrected(ix: map<string, seq<Entry>>, key: string, doc: Document, fields: seq<string>)
    : (r: Result<map<string, seq<Entry>>>)
    requires forall f :: f in fields ==> f in ix
    ensures r.Ok? ==> r.value.Keys == ix.Keys
    ensures !r.Err?
  {
    AddToIndexes(RemoveFromIndexes(ix, key), key, doc, fields)
  }

  function AddToIndexes(ix: map<string, seq<Entry>>, key: string, doc: Document, fields: seq<string>)
    : (r: Result<map<string, seq<Entry>>>)
    requires forall f :: f in fields ==> f in ix
    ensures r.Ok? ==> r.value.Keys == ix.Keys
    ensures !r.Err?
    decreases |fields|
  {
    if |fields| == 0 then Ok(ix)
    else
      var f := fields[0];
      if !Qualifies(doc, f) then AddToIndexes(ix, key, doc, fields[1..])
      else
        match SortIndex(ix[f] + [Entry(key, doc)], f)
        case Ok(s) => AddToIndexes(ix[f := s], key, doc, fields[1..])
        case _ => Panic
  }

  /** Each index named once in `fields` that the document qualifies for gains the entry,
      resorted; every other index is left as it was. */
  lemma {:induction false} AddToIndexesAddsOnce(
    ix: map<string, seq<Entry>>, key: string, doc: Document, fields: seq<string>)
    requires forall f :: f in fields ==> f in ix
    requires Distinct(fields)
    requires AddToIndexes(ix, key, doc, fields).Ok?
    ensures var r := AddToIndexes(ix, key, doc, fields).value;
            forall g :: g in ix ==>
              if g in fields && Qualifies(doc, g) then
                && RawSorted(r[g], g)
                && (forall e :: e in r[g] <==> e in ix[g] || e == Entry(key, doc))
                && (DistinctKeys(ix[g]) && key !in KeysOf(ix[g]) ==> DistinctKeys(r[g]))
              else r[g] == ix[g]
    decreases |fields|
  {
    if |fields| > 0 {
      var f := fields[0];
      var rest := fields[1..];
      assert Distinct(rest) by {
        forall i, j | 0 <= i < j < |rest|
          ensures rest[i] != rest[j]
        {
          assert rest[i] == fields[i + 1] && rest[j] == fields[j + 1];
        }
      }
      assert f !in rest;
      assert forall g :: g in fields <==> g == f || g in rest;
      if !Qualifies(doc, f) {
        AddToIndexesAddsOnce(ix, key, doc, rest);
      } else {
        var appended := ix[f] + [Entry(key, doc)];
        var s := SortIndex(appended, f).value;
        SortIndexSorts(appended, f);
        AddToIndexesAddsOnce(ix[f := s], key, doc, rest);
        if DistinctKeys(ix[f]) && key !in KeysOf(ix[f]) {
          AppendDistinct(ix[f], Entry(key, doc));
        }
      }
    }
  }

  /** The corrected update puts the key in exactly the indexes the document qualifies for,
      keeps every other entry, keeps keys distinct, and leaves each index it touches
      sorted. */
  lemma UpdateIndexesCorrectedPlacesKey(
    ix: map<string, seq<Entry>>, key: string, doc: Document, order: seq<string>)
    requires Enumerates(order, ix.Keys)
    requires forall g :: g in ix ==> DistinctKeys(ix[g])
    requires UpdateIndexesCorrected(ix, key, doc, order).Ok?
    ensures var r := UpdateIndexesCorrected(ix, key, doc, order).value;
            forall g :: g in ix ==>
              && (key in KeysOf(r[g]) <==> Qualifies(doc, g))
              && (forall e: Entry :: e.key != key ==> (e in r[g] <==> e in ix[g]))
              && (Qualifies(doc, g) ==> Entry(key, doc) in r[g] && RawSorted(r[g], g))
              && DistinctKeys(r[g])
  {
    var stripped := RemoveFromIndexes(ix, key);
    forall g | g in ix
      ensures DistinctKeys(stripped[g]) && key !in KeysOf(stripped[g])
    {
      RemoveKeyDistinct(ix[g], key);
    }
    AddToIndexesAddsOnce(stripped, key, doc, order);
    var r := AddToIndexes(stripped, key, doc, order).value;
    forall g | g in ix
      ensures key in KeysOf(r[g]) <==> Qualifies(doc, g)
      ensures forall e: Entry :: e.key != key ==> (e in r[g] <==> e in ix[g])
      ensures Qualifies(doc, g) ==> Entry(key, doc) in r[g] && RawSorted(r[g], g)
      ensures DistinctKeys(r[g])
    {
      assert g in order;
      if Qualifies(doc, g) {
        assert Entry(key, doc) in r[g];
      } else {
        assert r[g] == stripped[g];
      }
    }
  }

  /** A document with primary key "id" and String fields "a" and "b". */
  function TwoFieldDoc(): Document {
    Document(map["id" := Field(StringType, DString("1")), "a" := Field(StringType, DString("x")),
                 "b" := Field(StringType, DString("y"))])
  }

  /** Two empty indexes, on "a" and on "b". */
  function TwoIndexes(): Collection {
    Collection(Config("id"), Some(map[]), map["a" := [], "b" := []])
  }

  /** The first step of updateIndexes over "a" then "b": the entry goes into "a". */
  lemma UpdateIndexesFirstStep(d: Document)
    requires Qualifies(d, "a")
    ensures UpdateIndexes(map["a" := [], "b" := []], "1", d, ["a", "b"])
            == UpdateIndexes(map["a" := [Entry("1", d)], "b" := []], "1", d, ["b"])
  {
    var ix: map<string, seq<Entry>> := map["a" := [], "b" := []];
    var e := Entry("1", d);
    assert ["a", "b"][1..] == ["b"];
    var stripped := RemoveFromIndexes(ix, "1");
    assert stripped == ix;
    assert stripped["a"] + [e] == [e];
    assert SortIndex([e], "a") == Ok([e]);
    assert stripped["a" := [e]] == map["a" := [e], "b" := []];
  }

  /** The second step: stripping the key again empties "a" before the entry goes into "b". */
  lemma UpdateIndexesSecondStep(d: Document)
    requires Qualifies(d, "b")
    ensures UpdateIndexes(map["a" := [Entry("1", d)], "b" := []], "1", d, ["b"])
            == Ok(map["a" := [], "b" := [Entry("1", d)]])
  {
    var e := Entry("1", d);
    var ix1: map<string, seq<Entry>> := map["a" := [e], "b" := []];
    assert ["b"][1..] == [];
    var stripped := RemoveFromIndexes(ix1, "1");
    assert RemoveKey([e], "1") == [];
    assert stripped == map["a" := [], "b" := []];
    assert stripped["b"] + [e] == [e];
    assert SortIndex([e], "b") == Ok([e]);
    assert stripped["b" := [e]] == map["a" := [], "b" := [e]];
  }

  /** Iterating "a" before "b", the entry put into "a" is stripped again while "b" is
      updated: the stored document is missing from the index on "a". */
  lemma PutLosesEarlierIndexEntry()
    ensures Put(TwoIndexes(), TwoFieldDoc(), ["a", "b"]).Ok?
    ensures Put(TwoIndexes(), TwoFieldDoc(), ["a", "b"]).value.indexes["a"] == []
    ensures Put(TwoIndexes(), TwoFieldDoc(), ["a", "b"]).value.indexes["b"] == [Entry("1", TwoFieldDoc())]
    ensures Get(Put(TwoIndexes(), TwoFieldDoc(), ["a", "b"]).value, "1") == Ok(TwoFieldDoc())
  {
    var d := TwoFieldDoc();
    assert Lesson6Collection.PrimaryKey(Config("id"), d) == Ok("1");
    assert Qualifies(d, "a") && Qualifies(d, "b");
    UpdateIndexesFirstStep(d);
    UpdateIndexesSecondStep(d);
  }

  /** The corrected update keeps the entry in both indexes. */
  lemma CorrectedPutKeepsBothEntries()
    ensures UpdateIndexesCorrected(TwoIndexes().indexes, "1", TwoFieldDoc(), ["a", "b"])
            == Ok(map["a" := [Entry("1", TwoFieldDoc())], "b" := [Entry("1", TwoFieldDoc())]])
  {
    var d := TwoFieldDoc();
    var e := Entry("1", d);
    var ix := TwoIndexes().indexes;
    assert Qualifies(d, "a") && Qualifies(d, "b");
    assert RemoveFromIndexes(ix, "1") == ix;
    assert AddToIndexes(ix, "1", d, ["a", "b"]) == AddToIndexes(ix["a" := [e]], "1", d, ["b"]) by {
      assert ["a", "b"][1..] == ["b"];
      assert ix["a"] + [e] == [e];
    }
    assert AddToIndexes(ix["a" := [e]], "1", d, ["b"]) == Ok(ix["a" := [e]]["b" := [e]]) by {
      assert ["b"][1..] == [];
      assert ix["a" := [e]]["b"] + [e] == [e];
    }
    assert ix["a" := [e]]["b" := [e]] == map["a" := [e], "b" := [e]];
  }

  function OldDoc(): Document {
    Document(map["id" := Field(StringType, DString("1")), "a" := Field(StringType, DString("x"))])
  }

  function NewDoc(): Document {
    Document(map["id" := Field(StringType, DString("1"))])
  }

  /** Document "1" is stored with field "a" and indexed on it. */
  function IndexedOldDoc(): Collection {
    Collection(Config("id"), Some(map["1" := OldDoc()]), map["a" := [Entry("1", OldDoc())]])
  }

  /** Replacing the document with one that lacks "a" leaves the old entry in the index,
      so a query on "a" still returns a document that is no longer stored. */
  lemma PutLeavesStaleEntry()
    ensures Put(IndexedOldDoc(), NewDoc(), ["a"]).Ok?
    ensures Get(Put(IndexedOldDoc(), NewDoc(), ["a"]).value, "1") == Ok(NewDoc())
    ensures Query(Put(IndexedOldDoc(), NewDoc(), ["a"]).value, "a", QueryParams(false, None, None)) == Ok([OldDoc()])
  {
    var c := IndexedOldDoc();
    assert Lesson6Collection.PrimaryKey(Config("id"), NewDoc()) == Ok("1");
    assert !Qualifies(NewDoc(), "a");
    assert UpdateIndexes(c.indexes, "1", NewDoc(), ["a"]) == Ok(c.indexes) by {
      assert ["a"][1..] == [];
    }
    var c' := Put(c, NewDoc(), ["a"]).value;
    assert c'.indexes["a"] == [Entry("1", OldDoc())];
    assert RawString(OldDoc(), "a") == Some("x");
    assert InRange("x", None, None);
    assert Scan([Entry("1", OldDoc())], "a", None, None) == [Entry("1", OldDoc())] by {
      assert [Entry("1", OldDoc())][1..] == [];
    }
    assert AllRaw(c'.indexes["a"], "a");
    assert Docs([Entry("1", OldDoc())]) == [OldDoc()];
    assert Query(c', "a", QueryParams(false, None, None)) == Ok([OldDoc()]);
  }

  // ---------------------------------------------------------------- Delete

  /** Delete: ErrDocumentNotFound for a nil map or an absent key; otherwise remove the
      document and filter its key out of every index. */
  function Delete(c: Collection, key: string): (r: Result<Collection>)
    ensures key !in Stored(c) <==> r == Err(DocumentNotFound)
    ensures key in Stored(c) ==> r.Ok?
    ensures r.Ok? ==>
              && r.value.config == c.config
              && (forall k :: k in Stored(r.value) <==> k in Stored(c) && k != key)
              && (forall k :: k in Stored(r.value) ==> Stored(r.value)[k] == Stored(c)[k])
              && r.value.indexes.Keys == c.indexes.Keys
              && (forall f, e :: f in c.indexes ==> (e in r.value.indexes[f] <==> e in c.indexes[f] && e.key != key))
  {
    if key !in Stored(c) then Err(DocumentNotFound)
    else Ok(Collection(c.config, Some(Stored(c) - {key}), RemoveFromIndexes(c.indexes, key)))
  }

  lemma DeleteTwiceFails(c: Collection, key: string)
    requires Delete(c, key).Ok?
    ensures Delete(Delete(c, key).value, key) == Err(DocumentNotFound)
  {
  }

  // ---------------------------------------------------------------- reads

  function Get(c: Collection, key: string): (r: Result<Document>)
    ensures key in Stored(c) <==> r.Ok?
    ensures r.Ok? ==> r.value == Stored(c)[key]
    ensures !r.Ok? ==> r == Err(DocumentNotFound)
  {
    if key in Stored(c) then Ok(Stored(c)[key]) else Err(DocumentNotFound)
  }

  /** List: every stored document once, in the map's iteration order `order`; a nil map
      gives an empty slice. */
  function List(c: Collection, order: seq<string>): (r: seq<Document>)
    requires Enumerates(order, Stored(c).Keys)
    ensures |r| == |Stored(c)|
    ensures forall k :: k in Stored(c) ==> Stored(c)[k] in r
    ensures forall d :: d in r ==> d in Stored(c).Values
  {
    ValuesInOrder(Stored(c), order)
  }

  function NumDocuments(c: Collection): (n: nat)
    ensures n == |Stored(c)|
    ensures c.documents.None? ==> n == 0
  {
    |Stored(c)|
  }

  /** GetAll: an error only for a nil map; an empty map gives an empty slice. */
  function GetAll(c: Collection, order: seq<string>): (r: Result<seq<Document>>)
    requires Enumerates(order, Stored(c).Keys)
    ensures r.Err? <==> c.documents.None?
    ensures r.Err? ==> r.error == NoDocuments
    ensures r.Ok? ==> |r.value| == |Stored(c)| && (forall k :: k in Stored(c) ==> Stored(c)[k] in r.value)
    ensures !r.Panic?
  {
    if c.documents.None? then Err(NoDocuments) else Ok(List(c, order))
  }

  lemma PutThenGet(c: Collection, doc: Document, order: seq<string>)
    requires Enumerates(order, c.indexes.Keys)
    requires Put(c, doc, order).Ok?
    ensures Get(Put(c, doc, order).value, Lesson6Collection.PrimaryKey(c.config, doc).value) == Ok(doc)
  {
  }
}
