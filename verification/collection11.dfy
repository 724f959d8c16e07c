/** The latest indexed collection (Lesson11): a primary-key map of documents and named
    secondary indexes, each a sequence of entries kept sorted by one string field.
    Locks are left out: every operation is one atomic step. A nil Go map behaves as an
    empty one in every operation of this revision, so both are the empty map here. */
module Lesson11Collection {
  import opened Results
  import opened Documents
  import opened StringOrder
  import opened Sequences
  import opened IndexEntries
  import Sorting

  /** `indexes` maps an indexed field name to its sorted entries. */
  datatype Collection = Collection(
    config: Config,
    documents: map<string, Document>,
    indexes: map<string, seq<Entry>>)

  /** The state a store hands out for a new collection. */
  function Empty(cfg: Config): Collection {
    Collection(cfg, map[], map[])
  }

  // ---------------------------------------------------------------- primary key

  /** Put's validation of the primary-key field, one distinct error per failure. */
  function PrimaryKey(cfg: Config, doc: Document): (r: Result<string>)
    ensures cfg.primaryKey !in doc.fields <==> r == Err(MissingPrimaryKey(cfg.primaryKey))
    ensures (cfg.primaryKey in doc.fields && doc.fields[cfg.primaryKey].tag != StringType)
            <==> r == Err(InvalidKeyType)
    ensures (cfg.primaryKey in doc.fields && doc.fields[cfg.primaryKey].tag == StringType
             && !doc.fields[cfg.primaryKey].value.DString?)
            <==> r == Err(NonStringKey(cfg.primaryKey))
    ensures StringField(doc, cfg.primaryKey) == Some("") <==> r == Err(EmptyKey)
    ensures r.Ok? <==> StringField(doc, cfg.primaryKey).Some? && StringField(doc, cfg.primaryKey).value != ""
    ensures r.Ok? ==> StringField(doc, cfg.primaryKey) == Some(r.value)
    ensures !r.Panic?
  {
    var name := cfg.primaryKey;
    if name !in doc.fields then Err(MissingPrimaryKey(name))
    else if doc.fields[name].tag != StringType then Err(InvalidKeyType)
    else if !doc.fields[name].value.DString? then Err(NonStringKey(name))
    else if doc.fields[name].value.s == "" then Err(EmptyKey)
    else Ok(doc.fields[name].value.s)
  }

  // ---------------------------------------------------------------- index shape

  /** The indexed value of an entry ("" when it has none; only read for entries that do). */
  function Val(e: Entry, f: string): string {
    StringField(e.doc, f).GetOr("")
  }

  /** Every entry carries a string under `f`, and the values never decrease. */
  ghost predicate IndexSorted(s: seq<Entry>, f: string) {
    && (forall i :: 0 <= i < |s| ==> StringField(s[i].doc, f).Some?)
    && (forall i, j :: 0 <= i < j < |s| ==> StrLe(Val(s[i], f), Val(s[j], f)))
  }

  /** The index on `f` is sorted, holds each key at most once, holds only stored
      documents, and holds every stored document that has a string under `f`. */
  ghost predicate IndexMatches(s: seq<Entry>, f: string, docs: map<string, Document>) {
    && IndexSorted(s, f)
    && DistinctKeys(s)
    && (forall e :: e in s ==> e.key in docs && docs[e.key] == e.doc)
    && (forall k :: k in docs && StringField(docs[k], f).Some? ==> k in KeysOf(s))
  }

  /** The collection invariant: every document sits under its own primary key, and
      every index matches the documents. */
  ghost predicate Valid(c: Collection) {
    && (forall k :: k in c.documents ==> PrimaryKey(c.config, c.documents[k]) == Ok(k))
    && (forall f :: f in c.indexes ==> IndexMatches(c.indexes[f], f, c.documents))
  }

  lemma EmptyValid(cfg: Config)
    ensures Valid(Empty(cfg))
  {
  }

  lemma IndexSortedCons(x: Entry, s: seq<Entry>, f: string)
    requires IndexSorted(s, f)
    requires StringField(x.doc, f).Some?
    requires forall y :: y in s ==> StrLe(Val(x, f), Val(y, f))
    ensures IndexSorted([x] + s, f)
  {
    var t := [x] + s;
    forall i, j | 0 <= i < j < |t|
      ensures StrLe(Val(t[i], f), Val(t[j], f))
    {
      assert t[j] == s[j - 1];
      if i > 0 {
        assert t[i] == s[i - 1];
      }
    }
    forall i | 0 <= i < |t|
      ensures StringField(t[i].doc, f).Some?
    {
      if i > 0 {
        assert t[i] == s[i - 1];
      }
    }
  }

  lemma IndexSortedTail(s: seq<Entry>, f: string)
    requires |s| > 0 && IndexSorted(s, f)
    ensures IndexSorted(s[1..], f)
    ensures forall y :: y in s[1..] ==> StrLe(Val(s[0], f), Val(y, f))
  {
    var t := s[1..];
    forall i, j | 0 <= i < j < |t|
      ensures StrLe(Val(t[i], f), Val(t[j], f))
    {
      assert t[i] == s[i + 1] && t[j] == s[j + 1];
    }
    forall y | y in t
      ensures StrLe(Val(s[0], f), Val(y, f))
    {
      var j :| 0 <= j < |t| && t[j] == y;
      assert s[j + 1] == y;
    }
  }

  // ---------------------------------------------------------------- removal

  lemma {:induction false} RemoveKeySorted(s: seq<Entry>, key: string, f: string)
    requires IndexSorted(s, f)
    ensures IndexSorted(RemoveKey(s, key), f)
    decreases |s|
  {
    if |s| > 0 {
      IndexSortedTail(s, f);
      RemoveKeySorted(s[1..], key, f);
      if s[0].key != key {
        IndexSortedCons(s[0], RemoveKey(s[1..], key), f);
      }
    }
  }

  // ---------------------------------------------------------------- insertion point

  /** The predicate updateIndexUnsafe hands to sort.Search: an entry whose field is
      missing, not tagged String or not a string counts as "at least"; otherwise its
      value is compared with `v`. */
  predicate AtLeast(e: Entry, f: string, v: string) {
    match StringField(e.doc, f)
    case None => true
    case Some(w) => StrLe(v, w)
  }

  /** On a sorted index, an entry below `v` has only entries below `v` before it. */
  lemma BelowMidpoint(s: seq<Entry>, f: string, v: string, h: nat)
    requires h < |s| && !AtLeast(s[h], f, v)
    ensures IndexSorted(s, f) ==> forall i :: 0 <= i <= h ==> StrLt(Val(s[i], f), v)
  {
    if IndexSorted(s, f) {
      forall i | 0 <= i < h
        ensures StrLt(Val(s[i], f), v)
      {
        StrLeLtTransitive(Val(s[i], f), Val(s[h], f), v);
      }
    }
  }

  /** On a sorted index, an entry at least `v` has only entries at least `v` after it. */
  lemma AboveMidpoint(s: seq<Entry>, f: string, v: string, h: nat)
    requires h < |s| && AtLeast(s[h], f, v)
    ensures IndexSorted(s, f) ==> forall i :: h <= i < |s| ==> StrLe(v, Val(s[i], f))
  {
    if IndexSorted(s, f) {
      forall i | h < i < |s|
        ensures StrLe(v, Val(s[i], f))
      {
        StrLeTransitive(v, Val(s[h], f), Val(s[i], f));
      }
    }
  }

  /** Go's sort.Search loop on the half-open range [lo, hi), step by step. When the
      index is sorted and everything below `lo` is smaller than `v` and everything from
      `hi` on is not, the result splits the index at the first entry not smaller than `v`. */
  function SearchFrom(s: seq<Entry>, f: string, v: string, lo: nat, hi: nat): (r: nat)
    requires lo <= hi <= |s|
    ensures lo <= r <= hi
    ensures IndexSorted(s, f)
              && (forall i :: 0 <= i < lo ==> StrLt(Val(s[i], f), v))
              && (forall i :: hi <= i < |s| ==> StrLe(v, Val(s[i], f)))
            ==> && (forall i :: 0 <= i < r ==> StrLt(Val(s[i], f), v))
                && (forall i :: r <= i < |s| ==> StrLe(v, Val(s[i], f)))
    decreases hi - lo
  {
    if lo < hi then
      var h := (lo + hi) / 2;
      if !AtLeast(s[h], f, v) then
        BelowMidpoint(s, f, v, h);
        SearchFrom(s, f, v, h + 1, hi)
      else
        AboveMidpoint(s, f, v, h);
        SearchFrom(s, f, v, lo, h)
    else lo
  }

  /** sort.Search(len(index.Sorted), ...) in updateIndexUnsafe: on a sorted index, the
      lower bound of `v`: every entry before it is smaller than `v`, none after it is. */
  function InsertPosition(s: seq<Entry>, f: string, v: string): (r: nat)
    ensures r <= |s|
    ensures IndexSorted(s, f) ==>
              && (forall i :: 0 <= i < r ==> StrLt(Val(s[i], f), v))
              && (forall i :: r <= i < |s| ==> StrLe(v, Val(s[i], f)))
  {
    SearchFrom(s, f, v, 0, |s|)
  }

  // ---------------------------------------------------------------- index update

  /** updateIndexUnsafe: drop any entry for `key`, then, if `doc` has a string under
      `f`, splice a new entry in at the position sort.Search finds. */
  function UpdateIndex(s: seq<Entry>, key: string, doc: Document, f: string): (r: seq<Entry>)
    ensures forall e :: e in r ==> (e in s && e.key != key) || e == Entry(key, doc)
    ensures forall e :: e in s && e.key != key ==> e in r
    ensures Entry(key, doc) in r <==> StringField(doc, f).Some?
    ensures forall e :: e in r && e.key == key ==> e == Entry(key, doc)
  {
    var rest := RemoveKey(s, key);
    match StringField(doc, f)
    case None => rest
    case Some(v) =>
      var p := InsertPosition(rest, f, v);
      assert rest == rest[..p] + rest[p..];
      rest[..p] + [Entry(key, doc)] + rest[p..]
  }

  /** Splicing `x` in at a position that separates smaller values from the rest keeps
      the index sorted. */
  lemma SpliceSorted(rest: seq<Entry>, p: nat, x: Entry, f: string)
    requires p <= |rest| && IndexSorted(rest, f) && StringField(x.doc, f).Some?
    requires forall i :: 0 <= i < p ==> StrLt(Val(rest[i], f), Val(x, f))
    requires forall i :: p <= i < |rest| ==> StrLe(Val(x, f), Val(rest[i], f))
    ensures IndexSorted(rest[..p] + [x] + rest[p..], f)
  {
    var r := rest[..p] + [x] + rest[p..];
    forall i, j | 0 <= i < j < |r|
      ensures StrLe(Val(r[i], f), Val(r[j], f))
    {
      if j < p {
        assert r[i] == rest[i] && r[j] == rest[j];
      } else if i > p {
        assert r[i] == rest[i - 1] && r[j] == rest[j - 1];
      } else if i == p {
        assert r[j] == rest[j - 1];
      } else if j == p {
        assert r[i] == rest[i];
        StrLtAsymmetric(Val(rest[i], f), Val(x, f));
      } else {
        assert r[i] == rest[i] && r[j] == rest[j - 1];
      }
    }
    forall i | 0 <= i < |r|
      ensures StringField(r[i].doc, f).Some?
    {
      if i < p {
        assert r[i] == rest[i];
      } else if i > p {
        assert r[i] == rest[i - 1];
      }
    }
  }

  /** Splicing in an entry whose key is new keeps keys distinct. */
  lemma SpliceDistinct(rest: seq<Entry>, p: nat, x: Entry)
    requires p <= |rest| && DistinctKeys(rest)
    requires forall e :: e in rest ==> e.key != x.key
    ensures DistinctKeys(rest[..p] + [x] + rest[p..])
  {
    var r := rest[..p] + [x] + rest[p..];
    forall i, j | 0 <= i < j < |r|
      ensures r[i].key != r[j].key
    {
      if i != p && j != p {
        var i' := if i < p then i else i - 1;
        var j' := if j < p then j else j - 1;
        assert r[i] == rest[i'] && r[j] == rest[j'];
      } else if i == p {
        assert r[j] == rest[j - 1] && rest[j - 1] in rest;
      } else {
        assert r[i] == rest[i] && rest[i] in rest;
      }
    }
  }

  /** Filtering the spliced key out again gives back what was there before. */
  lemma SpliceRemoveKey(rest: seq<Entry>, p: nat, x: Entry)
    requires p <= |rest|
    requires forall e :: e in rest ==> e.key != x.key
    ensures RemoveKey(rest[..p] + [x] + rest[p..], x.key) == rest
  {
    var key := x.key;
    var a, b := rest[..p], rest[p..];
    forall e | e in a
      ensures e.key != key
    {
      var m :| 0 <= m < |a| && a[m] == e;
      assert rest[m] == e;
    }
    forall e | e in b
      ensures e.key != key
    {
      var m :| 0 <= m < |b| && b[m] == e;
      assert rest[p + m] == e;
    }
    RemoveKeySplice(a, x, b);
    assert a + b == rest;
  }

  /** After an update the index is still sorted, holds the key at most once, and every
      other entry is where it was relative to the others. */
  lemma UpdateIndexKeepsOrder(s: seq<Entry>, key: string, doc: Document, f: string)
    requires IndexSorted(s, f) && DistinctKeys(s)
    ensures IndexSorted(UpdateIndex(s, key, doc, f), f)
    ensures DistinctKeys(UpdateIndex(s, key, doc, f))
    ensures RemoveKey(UpdateIndex(s, key, doc, f), key) == RemoveKey(s, key)
  {
    var rest := RemoveKey(s, key);
    RemoveKeySorted(s, key, f);
    RemoveKeyDistinct(s, key);
    RemoveKeyAbsent(rest, key);
    match StringField(doc, f)
    case None =>
    case Some(v) =>
      var p := InsertPosition(rest, f, v);
      var x := Entry(key, doc);
      SpliceSorted(rest, p, x, f);
      SpliceDistinct(rest, p, x);
      SpliceRemoveKey(rest, p, x);
  }

  /** The new entry goes in front of the first remaining entry whose value is at least
      the new value: every entry before it is smaller, every entry after it is not. */
  lemma UpdateIndexInsertsAtLowerBound(s: seq<Entry>, key: string, doc: Document, f: string)
    requires IndexSorted(s, f)
    requires StringField(doc, f).Some?
    ensures var rest := RemoveKey(s, key);
            var p := InsertPosition(rest, f, StringField(doc, f).value);
            && UpdateIndex(s, key, doc, f) == rest[..p] + [Entry(key, doc)] + rest[p..]
            && (forall i :: 0 <= i < p ==> StrLt(Val(rest[i], f), StringField(doc, f).value))
            && (forall i :: p <= i < |rest| ==> StrLe(StringField(doc, f).value, Val(rest[i], f)))
  {
    RemoveKeySorted(s, key, f);
  }

  /** updateIndexes: every index drops the key's old entry and holds the new one exactly
      when the document has a string under the index's field; an index that was sorted
      and free of duplicate keys stays so. */
  function UpdateIndexes(ix: map<string, seq<Entry>>, key: string, doc: Document): (r: map<string, seq<Entry>>)
    ensures r.Keys == ix.Keys
    ensures forall f :: f in ix ==> r[f] == UpdateIndex(ix[f], key, doc, f)
    ensures forall f, e :: f in ix ==>
              (e in r[f] <==> (e in ix[f] && e.key != key) || (e == Entry(key, doc) && StringField(doc, f).Some?))
    ensures forall f :: f in ix && IndexSorted(ix[f], f) && DistinctKeys(ix[f]) ==>
              IndexSorted(r[f], f) && DistinctKeys(r[f])
  {
    assert forall f :: f in ix && IndexSorted(ix[f], f) && DistinctKeys(ix[f]) ==>
             IndexSorted(UpdateIndex(ix[f], key, doc, f), f) && DistinctKeys(UpdateIndex(ix[f], key, doc, f)) by {
      forall f | f in ix && IndexSorted(ix[f], f) && DistinctKeys(ix[f])
        ensures IndexSorted(UpdateIndex(ix[f], key, doc, f), f) && DistinctKeys(UpdateIndex(ix[f], key, doc, f))
      {
        UpdateIndexKeepsOrder(ix[f], key, doc, f);
      }
    }
    map f | f in ix :: UpdateIndex(ix[f], key, doc, f)
  }

  // ---------------------------------------------------------------- Put

  /** Put: validate the primary key, store the document (replacing any previous one),
      then update every index. */
  function Put(c: Collection, doc: Document): (r: Result<Collection>)
    ensures PrimaryKey(c.config, doc).Err? ==> r == Err(PrimaryKey(c.config, doc).error)
    ensures PrimaryKey(c.config, doc).Ok? ==> r.Ok?
    ensures r.Ok? ==>
              var key := PrimaryKey(c.config, doc).value;
              && r.value.config == c.config
              && key in r.value.documents && r.value.documents[key] == doc
              && (forall k :: k in r.value.documents <==> k in c.documents || k == key)
              && (forall k :: k in c.documents && k != key ==> r.value.documents[k] == c.documents[k])
              && r.value.indexes.Keys == c.indexes.Keys
  {
    match PrimaryKey(c.config, doc)
    case Ok(key) =>
      Ok(c.(documents := c.documents[key := doc], indexes := UpdateIndexes(c.indexes, key, doc)))
    case Err(e) => Err(e)
    case Panic => Panic
  }

  /** A successful Put keeps the collection invariant. */
  lemma PutPreservesValid(c: Collection, doc: Document)
    requires Valid(c)
    requires Put(c, doc).Ok?
    ensures Valid(Put(c, doc).value)
  {
    var key := PrimaryKey(c.config, doc).value;
    var c' := Put(c, doc).value;
    forall f | f in c'.indexes
      ensures IndexMatches(c'.indexes[f], f, c'.documents)
    {
      var s := c.indexes[f];
      assert IndexMatches(s, f, c.documents);
      var r := UpdateIndex(s, key, doc, f);
      assert c'.indexes[f] == r;
      UpdateIndexKeepsOrder(s, key, doc, f);
      forall k | k in c'.documents && StringField(c'.documents[k], f).Some?
        ensures k in KeysOf(r)
      {
        if k == key {
          assert Entry(key, doc) in r;
        } else {
          assert k in KeysOf(s);
          var e :| e in s && e.key == k;
          assert e in r;
        }
      }
    }
  }

  // ---------------------------------------------------------------- Delete

  /** Delete as it was evidently meant: remove the document and its index entries. */
  function DeleteCorrected(c: Collection, key: string): (r: Result<Collection>)
    ensures key !in c.documents <==> r == Err(DocumentNotFound)
    ensures key in c.documents ==> r.Ok?
    ensures r.Ok? ==>
              && r.value.config == c.config
              && (forall k :: k in r.value.documents <==> k in c.documents && k != key)
              && (forall k :: k in r.value.documents ==> r.value.documents[k] == c.documents[k])
              && r.value.indexes.Keys == c.indexes.Keys
              && (forall f, e :: f in c.indexes ==> (e in r.value.indexes[f] <==> e in c.indexes[f] && e.key != key))
  {
    if key !in c.documents then Err(DocumentNotFound)
    else Ok(c.(documents := c.documents - {key}, indexes := RemoveFromIndexes(c.indexes, key)))
  }

  /** Delete as written: removeFromIndexUnsafe allocates its result with capacity
      len(index.Sorted)-1, which is -1 for an empty index, and Go panics. The document
      is already gone from the map at that point, but the panic ends the program. */
  function Delete(c: Collection, key: string): (r: Result<Collection>)
    ensures key !in c.documents ==> r == Err(DocumentNotFound)
    ensures key in c.documents && (exists f :: f in c.indexes && |c.indexes[f]| == 0) ==> r == Panic
    ensures key in c.documents && (forall f :: f in c.indexes ==> |c.indexes[f]| > 0) ==> r == DeleteCorrected(c, key)
  {
    if key !in c.documents then Err(DocumentNotFound)
    else if exists f :: f in c.indexes && |c.indexes[f]| == 0 then Panic
    else DeleteCorrected(c, key)
  }

  /** The smallest input that reaches the defect: one stored document that lacks the
      indexed field leaves the index empty, and deleting that document panics, where
      the corrected Delete succeeds. */
  lemma DeleteWithEmptyIndexPanics()
    ensures var doc := Document(map["id" := Field(StringType, DString("a"))]);
            var put := Put(Empty(Config("id")), doc);
            && put.Ok?
            && CreateIndex(put.value, "tag", ["a"]).Ok?
            && Delete(CreateIndex(put.value, "tag", ["a"]).value, "a") == Panic
            && DeleteCorrected(CreateIndex(put.value, "tag", ["a"]).value, "a").Ok?
  {
    var doc := Document(map["id" := Field(StringType, DString("a"))]);
    var c := Put(Empty(Config("id")), doc).value;
    assert c.documents.Keys == {"a"};
    var c' := CreateIndex(c, "tag", ["a"]).value;
    assert Candidates(c.documents, "tag", ["a"]) == [];
    assert c'.indexes["tag"] == [];
  }

  /** A successful (corrected) Delete keeps the collection invariant. */
  lemma DeletePreservesValid(c: Collection, key: string)
    requires Valid(c)
    requires key in c.documents
    ensures Valid(DeleteCorrected(c, key).value)
  {
    var c' := DeleteCorrected(c, key).value;
    forall f | f in c'.indexes
      ensures IndexMatches(c'.indexes[f], f, c'.documents)
    {
      var s := c.indexes[f];
      RemoveKeySorted(s, key, f);
      RemoveKeyDistinct(s, key);
      forall k | k in c'.documents && StringField(c'.documents[k], f).Some?
        ensures k in KeysOf(c'.indexes[f])
      {
        assert k in KeysOf(s);
        var e :| e in s && e.key == k;
        assert e in c'.indexes[f];
      }
    }
  }

  /** Deleting twice never succeeds the second time. */
  lemma DeleteTwiceFails(c: Collection, key: string)
    requires Delete(c, key).Ok?
    ensures Delete(Delete(c, key).value, key) == Err(DocumentNotFound)
  {
  }

  // ---------------------------------------------------------------- CreateIndex / DeleteIndex

  /** The (key, value, document) triples CreateIndex collects while ranging over the
      documents in `order`: only documents with a string under `f`. */
  function Candidates(docs: map<string, Document>, f: string, order: seq<string>): (r: seq<Sorting.Candidate>)
    requires forall k :: k in order ==> k in docs
    ensures forall x :: x in r ==>
              && x.entry.key in order && x.entry.key in docs
              && x.entry.doc == docs[x.entry.key]
              && StringField(x.entry.doc, f) == Some(x.value)
    ensures forall k :: k in order && StringField(docs[k], f).Some? ==>
              Sorting.Candidate(StringField(docs[k], f).value, Entry(k, docs[k])) in r
    decreases |order|
  {
    if |order| == 0 then []
    else
      var k := order[0];
      var head := match StringField(docs[k], f)
                  case Some(v) => [Sorting.Candidate(v, Entry(k, docs[k]))]
                  case None => [];
      assert forall k' :: k' in order ==> k' == k || k' in order[1..];
      head + Candidates(docs, f, order[1..])
  }

  lemma {:induction false} CandidatesKeysDistinct(docs: map<string, Document>, f: string, order: seq<string>)
    requires forall k :: k in order ==> k in docs
    requires Distinct(order)
    ensures Sorting.KeysDistinct(Candidates(docs, f, order))
    decreases |order|
  {
    if |order| > 0 {
      var tail := order[1..];
      assert Distinct(tail) by {
        forall i, j | 0 <= i < j < |tail|
          ensures tail[i] != tail[j]
        {
          assert tail[i] == order[i + 1] && tail[j] == order[j + 1];
        }
      }
      CandidatesKeysDistinct(docs, f, tail);
      var rest := Candidates(docs, f, tail);
      if StringField(docs[order[0]], f).Some? {
        var x := Sorting.Candidate(StringField(docs[order[0]], f).value, Entry(order[0], docs[order[0]]));
        forall y | y in rest
          ensures y.entry.key != x.entry.key
        {
          var j :| 0 <= j < |tail| && tail[j] == y.entry.key;
          assert order[j + 1] == y.entry.key;
        }
        Sorting.KeysDistinctCons(x, rest);
      }
    }
  }

  /** CreateIndex's new index: the candidates sorted by value, values dropped. It is
      sorted, holds only entries of the ranged-over documents, holds every one of them
      that has a string under `f`, and holds each key once when no key is ranged over
      twice. */
  function BuildIndex(docs: map<string, Document>, f: string, order: seq<string>): (r: seq<Entry>)
    requires forall k :: k in order ==> k in docs
    ensures IndexSorted(r, f)
    ensures Distinct(order) ==> DistinctKeys(r)
    ensures forall e :: e in r ==> e.key in order && docs[e.key] == e.doc
    ensures forall k :: k in order && StringField(docs[k], f).Some? ==> k in KeysOf(r)
  {
    BuildIndexSorted(docs, f, order);
    BuildIndexDistinct(docs, f, order);
    BuildIndexMembers(docs, f, order);
    Sorting.Entries(Sorting.Sort(Candidates(docs, f, order)))
  }

  /** CreateIndex: ErrIndexExists when the field is indexed already; otherwise install an
      index built from the current documents, ranged over in `order`. */
  function CreateIndex(c: Collection, f: string, order: seq<string>): (r: Result<Collection>)
    requires Enumerates(order, c.documents.Keys)
    ensures f in c.indexes <==> r == Err(IndexExists)
    ensures f !in c.indexes ==> r.Ok?
    ensures r.Ok? ==>
              && r.value.config == c.config
              && r.value.documents == c.documents
              && r.value.indexes.Keys == c.indexes.Keys + {f}
              && (forall g :: g in c.indexes ==> r.value.indexes[g] == c.indexes[g])
  {
    if f in c.indexes then Err(IndexExists)
    else Ok(c.(indexes := c.indexes[f := BuildIndex(c.documents, f, order)]))
  }

  lemma BuildIndexSorted(docs: map<string, Document>, f: string, order: seq<string>)
    requires forall k :: k in order ==> k in docs
    ensures IndexSorted(Sorting.Entries(Sorting.Sort(Candidates(docs, f, order))), f)
  {
    var cands := Candidates(docs, f, order);
    var sorted := Sorting.Sort(cands);
    var s := Sorting.Entries(sorted);
    Sorting.SortSorted(cands);
    forall i | 0 <= i < |s|
      ensures StringField(s[i].doc, f).Some? && Val(s[i], f) == sorted[i].value
    {
      assert s[i] == sorted[i].entry;
      assert sorted[i] in cands;
    }
    forall i, j | 0 <= i < j < |s|
      ensures StrLe(Val(s[i], f), Val(s[j], f))
    {
      assert Val(s[i], f) == sorted[i].value && Val(s[j], f) == sorted[j].value;
    }
  }

  lemma BuildIndexDistinct(docs: map<string, Document>, f: string, order: seq<string>)
    requires forall k :: k in order ==> k in docs
    ensures Distinct(order) ==> DistinctKeys(Sorting.Entries(Sorting.Sort(Candidates(docs, f, order))))
  {
    if Distinct(order) {
      var cands := Candidates(docs, f, order);
      var sorted := Sorting.Sort(cands);
      var s := Sorting.Entries(sorted);
      CandidatesKeysDistinct(docs, f, order);
      Sorting.SortSorted(cands);
      forall i, j | 0 <= i < j < |s|
        ensures s[i].key != s[j].key
      {
        assert s[i] == sorted[i].entry && s[j] == sorted[j].entry;
      }
    }
  }

  lemma BuildIndexMembers(docs: map<string, Document>, f: string, order: seq<string>)
    requires forall k :: k in order ==> k in docs
    ensures forall e :: e in Sorting.Entries(Sorting.Sort(Candidates(docs, f, order))) ==> e.key in order && docs[e.key] == e.doc
    ensures forall k :: k in order && StringField(docs[k], f).Some? ==> k in KeysOf(Sorting.Entries(Sorting.Sort(Candidates(docs, f, order))))
  {
    var cands := Candidates(docs, f, order);
    var sorted := Sorting.Sort(cands);
    var s := Sorting.Entries(sorted);
    Sorting.SortSorted(cands);
    forall e | e in s
      ensures e.key in order && docs[e.key] == e.doc
    {
      var i :| 0 <= i < |s| && s[i] == e;
      assert s[i] == sorted[i].entry;
      assert sorted[i] in cands;
    }
    forall k | k in order && StringField(docs[k], f).Some?
      ensures k in KeysOf(s)
    {
      var x := Sorting.Candidate(StringField(docs[k], f).value, Entry(k, docs[k]));
      assert x in cands;
      assert x in sorted;
      var i :| 0 <= i < |sorted| && sorted[i] == x;
      assert s[i] == x.entry;
    }
  }

  /** The built index holds exactly the stored documents that have a string under `f`,
      each once, in ascending order of that string. */
  lemma BuildIndexMatches(docs: map<string, Document>, f: string, order: seq<string>)
    requires Enumerates(order, docs.Keys)
    ensures IndexMatches(BuildIndex(docs, f, order), f, docs)
  {
  }

  lemma CreateIndexPreservesValid(c: Collection, f: string, order: seq<string>)
    requires Valid(c)
    requires Enumerates(order, c.documents.Keys)
    requires f !in c.indexes
    ensures Valid(CreateIndex(c, f, order).value)
    ensures IndexMatches(CreateIndex(c, f, order).value.indexes[f], f, c.documents)
  {
    BuildIndexMatches(c.documents, f, order);
  }

  /** DeleteIndex: ErrIndexNotFound when absent (also with no indexes at all), otherwise
      drop that index alone. */
  function DeleteIndex(c: Collection, f: string): (r: Result<Collection>)
    ensures f !in c.indexes <==> r == Err(IndexNotFound)
    ensures f in c.indexes ==> r.Ok?
    ensures r.Ok? ==>
              && r.value.config == c.config
              && r.value.documents == c.documents
              && r.value.indexes.Keys == c.indexes.Keys - {f}
              && (forall g :: g in r.value.indexes ==> r.value.indexes[g] == c.indexes[g])
  {
    if f !in c.indexes then Err(IndexNotFound)
    else Ok(c.(indexes := map g | g in c.indexes && g != f :: c.indexes[g]))
  }

  lemma DeleteIndexPreservesValid(c: Collection, f: string)
    requires Valid(c) && f in c.indexes
    ensures Valid(DeleteIndex(c, f).value)
  {
  }

  // ---------------------------------------------------------------- Query


  /** Query's scan: keep, in index order, the entries with a string under `f` inside the
      bounds. */
  function Scan(s: seq<Entry>, f: string, lo: Option<string>, hi: Option<string>): (r: seq<Entry>)
    ensures forall e :: e in r <==> e in s && StringField(e.doc, f).Some? && InRange(StringField(e.doc, f).value, lo, hi)
    ensures Subsequence(r, s)
    ensures |r| <= |s|
    decreases |s|
  {
    if |s| == 0 then []
    else
      var keep := StringField(s[0].doc, f).Some? && InRange(StringField(s[0].doc, f).value, lo, hi);
      var rest := Scan(s[1..], f, lo, hi);
      if keep then
        assert ([s[0]] + rest)[1..] == rest;
        [s[0]] + rest
      else rest
  }

  lemma {:induction false} ScanSorted(s: seq<Entry>, f: string, lo: Option<string>, hi: Option<string>)
    requires IndexSorted(s, f)
    ensures IndexSorted(Scan(s, f, lo, hi), f)
    decreases |s|
  {
    if |s| > 0 {
      IndexSortedTail(s, f);
      ScanSorted(s[1..], f, lo, hi);
      if StringField(s[0].doc, f).Some? && InRange(StringField(s[0].doc, f).value, lo, hi) {
        IndexSortedCons(s[0], Scan(s[1..], f, lo, hi), f);
      }
    }
  }

  lemma {:induction false} ScanDistinct(s: seq<Entry>, f: string, lo: Option<string>, hi: Option<string>)
    requires DistinctKeys(s)
    ensures DistinctKeys(Scan(s, f, lo, hi))
    decreases |s|
  {
    if |s| > 0 {
      TailDistinct(s);
      ScanDistinct(s[1..], f, lo, hi);
      if StringField(s[0].doc, f).Some? && InRange(StringField(s[0].doc, f).value, lo, hi) {
        ConsDistinct(s[0], Scan(s[1..], f, lo, hi));
      }
    }
  }

  /** Query: ErrIndexNotFound without an index on `f`; otherwise the documents of the
      in-range entries, in index order, reversed when `desc` is set. */
  function Query(c: Collection, f: string, p: QueryParams): (r: Result<seq<Document>>)
    ensures f !in c.indexes <==> r == Err(IndexNotFound)
    ensures f in c.indexes ==> r.Ok? && |r.value| <= |c.indexes[f]|
  {
    if f !in c.indexes then Err(IndexNotFound)
    else
      var found := Docs(Scan(c.indexes[f], f, p.minValue, p.maxValue));
      Ok(if p.desc then Reverse(found) else found)
  }

  /** With `desc` the result is exactly the ascending result reversed. */
  lemma QueryDescIsReverse(c: Collection, f: string, p: QueryParams)
    requires f in c.indexes
    ensures Query(c, f, p.(desc := true)) == Ok(Reverse(Query(c, f, p.(desc := false)).value))
  {
  }

  /** The ascending query result holds exactly the in-range documents. */
  lemma QueryMembers(c: Collection, f: string, p: QueryParams)
    requires Valid(c) && f in c.indexes && !p.desc
    ensures var r := Query(c, f, p).value;
            forall d :: d in r <==> d in c.documents.Values && StringField(d, f).Some? && InRange(StringField(d, f).value, p.minValue, p.maxValue)
  {
    var s := c.indexes[f];
    var scanned := Scan(s, f, p.minValue, p.maxValue);
    var r := Query(c, f, p).value;
    assert r == Docs(scanned);
    forall d
      ensures d in r <==> d in c.documents.Values && StringField(d, f).Some? && InRange(StringField(d, f).value, p.minValue, p.maxValue)
    {
      if d in r {
        var i :| 0 <= i < |r| && r[i] == d;
        assert scanned[i] in s;
      }
      if d in c.documents.Values && StringField(d, f).Some? && InRange(StringField(d, f).value, p.minValue, p.maxValue) {
        var k :| k in c.documents && c.documents[k] == d;
        assert k in KeysOf(s);
        var e :| e in s && e.key == k;
        assert e in scanned;
        var i :| 0 <= i < |scanned| && scanned[i] == e;
        assert r[i] == d;
      }
    }
  }

  /** The ascending query result holds each document once, in non-decreasing order of
      its string under `f`. */
  lemma QueryOrdered(c: Collection, f: string, p: QueryParams)
    requires Valid(c) && f in c.indexes && !p.desc
    ensures var r := Query(c, f, p).value;
            && Distinct(r)
            && (forall i :: 0 <= i < |r| ==> StringField(r[i], f).Some?)
            && (forall i, j :: 0 <= i < j < |r| ==> StrLe(StringField(r[i], f).value, StringField(r[j], f).value))
  {
    var s := c.indexes[f];
    var scanned := Scan(s, f, p.minValue, p.maxValue);
    var r := Query(c, f, p).value;
    assert r == Docs(scanned);
    ScanSorted(s, f, p.minValue, p.maxValue);
    ScanDistinct(s, f, p.minValue, p.maxValue);
    forall i | 0 <= i < |r|
      ensures r[i] == scanned[i].doc && scanned[i] in s
    {
    }
    forall i, j | 0 <= i < j < |r|
      ensures r[i] != r[j]
    {
      assert PrimaryKey(c.config, r[i]) == Ok(scanned[i].key);
      assert PrimaryKey(c.config, r[j]) == Ok(scanned[j].key);
    }
    forall i, j | 0 <= i < j < |r|
      ensures StrLe(StringField(r[i], f).value, StringField(r[j], f).value)
    {
      assert Val(scanned[i], f) == StringField(r[i], f).value;
      assert Val(scanned[j], f) == StringField(r[j], f).value;
    }
  }

  /** The ascending query result of a valid collection: exactly the stored documents
      with a string under `f` inside the bounds, each once, ascending by that string. */
  lemma AscendingQueryReturnsRange(c: Collection, f: string, p: QueryParams)
    requires Valid(c) && f in c.indexes && !p.desc
    ensures var r := Query(c, f, p).value;
            && (forall d :: d in r <==> d in c.documents.Values && StringField(d, f).Some? && InRange(StringField(d, f).value, p.minValue, p.maxValue))
            && Distinct(r)
            && (forall i :: 0 <= i < |r| ==> StringField(r[i], f).Some?)
            && (forall i, j :: 0 <= i < j < |r| ==> StrLe(StringField(r[i], f).value, StringField(r[j], f).value))
  {
    QueryMembers(c, f, p);
    QueryOrdered(c, f, p);
  }

  lemma ReverseDescends(asc: seq<Document>, f: string)
    requires Distinct(asc)
    requires forall i :: 0 <= i < |asc| ==> StringField(asc[i], f).Some?
    requires forall i, j :: 0 <= i < j < |asc| ==> StrLe(StringField(asc[i], f).value, StringField(asc[j], f).value)
    ensures var r := Reverse(asc);
            && Distinct(r)
            && (forall i :: 0 <= i < |r| ==> StringField(r[i], f).Some?)
            && (forall i, j :: 0 <= i < j < |r| ==> StrLe(StringField(r[j], f).value, StringField(r[i], f).value))
  {
    var r := Reverse(asc);
    forall i, j | 0 <= i < j < |r|
      ensures r[i] != r[j]
      ensures StrLe(StringField(r[j], f).value, StringField(r[i], f).value)
    {
      assert r[i] == asc[|asc| - 1 - i] && r[j] == asc[|asc| - 1 - j];
    }
  }

  /** The descending result is the ascending one reversed, so it holds the same
      documents, each once, in non-increasing order. */
  lemma DescendingQueryReturnsRange(c: Collection, f: string, p: QueryParams)
    requires Valid(c) && f in c.indexes && p.desc
    ensures var r := Query(c, f, p).value;
            && (forall d :: d in r <==> d in c.documents.Values && StringField(d, f).Some? && InRange(StringField(d, f).value, p.minValue, p.maxValue))
            && Distinct(r)
            && (forall i :: 0 <= i < |r| ==> StringField(r[i], f).Some?)
            && (forall i, j :: 0 <= i < j < |r| ==> StrLe(StringField(r[j], f).value, StringField(r[i], f).value))
  {
    var asc := Query(c, f, p.(desc := false)).value;
    AscendingQueryReturnsRange(c, f, p.(desc := false));
    assert Query(c, f, p).value == Reverse(asc);
    ReverseMembers(asc);
    ReverseDescends(asc, f);
  }

  // ---------------------------------------------------------------- reads

  /** Get: a copy of the stored document (documents are values), or ErrDocumentNotFound. */
  function Get(c: Collection, key: string): (r: Result<Document>)
    ensures key in c.documents <==> r.Ok?
    ensures r.Ok? ==> r.value == c.documents[key]
    ensures !r.Ok? ==> r == Err(DocumentNotFound)
  {
    if key in c.documents then Ok(c.documents[key]) else Err(DocumentNotFound)
  }

  /** List: one copy of every stored document, in the map's iteration order `order`. */
  function List(c: Collection, order: seq<string>): (r: seq<Document>)
    requires Enumerates(order, c.documents.Keys)
    ensures |r| == |c.documents|
    ensures forall k :: k in c.documents ==> c.documents[k] in r
    ensures forall d :: d in r ==> d in c.documents.Values
  {
    ValuesInOrder(c.documents, order)
  }

  function NumDocuments(c: Collection): (n: nat)
    ensures n == |c.documents|
  {
    |c.documents|
  }

  /** GetAll: like List, and never an error, not even for an empty collection. */
  function GetAll(c: Collection, order: seq<string>): (r: Result<seq<Document>>)
    requires Enumerates(order, c.documents.Keys)
    ensures r.Ok?
    ensures |r.value| == |c.documents|
    ensures |c.documents| == 0 ==> r.value == []
    ensures forall k :: k in c.documents ==> c.documents[k] in r.value
  {
    if |c.documents| == 0 then Ok([]) else Ok(List(c, order))
  }

  /** Put grows the count by one exactly when the key is new. */
  lemma PutCountsNewKeysOnce(c: Collection, doc: Document)
    requires Put(c, doc).Ok?
    ensures NumDocuments(Put(c, doc).value)
            == NumDocuments(c) + (if PrimaryKey(c.config, doc).value in c.documents then 0 else 1)
  {
    var k := PrimaryKey(c.config, doc).value;
    assert Put(c, doc).value.documents == c.documents[k := doc];
  }

  /** A successful Delete shrinks the count by one. */
  lemma DeleteCountsDown(c: Collection, key: string)
    requires DeleteCorrected(c, key).Ok?
    ensures NumDocuments(DeleteCorrected(c, key).value) == NumDocuments(c) - 1
  {
    assert DeleteCorrected(c, key).value.documents.Keys == c.documents.Keys - {key};
  }

  /** Get after a successful Put returns the document just stored. */
  lemma PutThenGet(c: Collection, doc: Document)
    requires Put(c, doc).Ok?
    ensures Get(Put(c, doc).value, PrimaryKey(c.config, doc).value) == Ok(doc)
  {
  }

  function ExampleDoc(id: string, tag: string): Document {
    Document(map["id" := Field(StringType, DString(id)), "tag" := Field(StringType, DString(tag))])
  }

  /** The two stored documents of the ordering example, before any index exists. */
  function ExampleStore(): Collection {
    Collection(Config("id"), map["1" := ExampleDoc("1", "b"), "2" := ExampleDoc("2", "a")], map[])
  }

  lemma ExampleStored()
    ensures Put(Empty(Config("id")), ExampleDoc("1", "b")).Ok?
    ensures Put(Put(Empty(Config("id")), ExampleDoc("1", "b")).value, ExampleDoc("2", "a"))
            == Ok(ExampleStore())
  {
    var d1 := ExampleDoc("1", "b");
    var d2 := ExampleDoc("2", "a");
    assert PrimaryKey(Config("id"), d1) == Ok("1");
    assert PrimaryKey(Config("id"), d2) == Ok("2");
  }

  /** Ranging over "1" then "2", both documents carry a string under "tag". */
  lemma ExampleCandidates(d1: Document, d2: Document)
    requires StringField(d1, "tag") == Some("b") && StringField(d2, "tag") == Some("a")
    ensures Candidates(map["1" := d1, "2" := d2], "tag", ["1", "2"])
            == [Sorting.Candidate("b", Entry("1", d1)), Sorting.Candidate("a", Entry("2", d2))]
  {
    var docs := map["1" := d1, "2" := d2];
    assert Candidates(docs, "tag", ["2"]) == [Sorting.Candidate("a", Entry("2", d2))] by {
      assert ["2"][1..] == [];
    }
    assert ["1", "2"][1..] == ["2"];
  }

  /** Sorting the two candidates puts "a" before "b". */
  lemma ExampleSortSwaps(x1: Sorting.Candidate, x2: Sorting.Candidate)
    requires x1.value == "b" && x2.value == "a"
    ensures Sorting.Sort([x1, x2]) == [x2, x1]
  {
    assert !StrLe("b", "a") by {
      assert StrLt("a", "b");
    }
    assert Sorting.Sort([x2]) == [x2] by {
      assert [x2][1..] == [];
    }
    assert [x1, x2][1..] == [x2];
    assert Sorting.Insert(x1, [x2]) == [x2] + Sorting.Insert(x1, []) by {
      assert [x2][1..] == [];
    }
  }

  /** Indexing two documents tagged "b" and "a" lists the one tagged "a" first. */
  lemma BuildIndexOfTwo(d1: Document, d2: Document)
    requires StringField(d1, "tag") == Some("b") && StringField(d2, "tag") == Some("a")
    ensures BuildIndex(map["1" := d1, "2" := d2], "tag", ["1", "2"]) == [Entry("2", d2), Entry("1", d1)]
  {
    var x1 := Sorting.Candidate("b", Entry("1", d1));
    var x2 := Sorting.Candidate("a", Entry("2", d2));
    var docs := map["1" := d1, "2" := d2];
    ExampleCandidates(d1, d2);
    ExampleSortSwaps(x1, x2);
    var sorted := Sorting.Sort(Candidates(docs, "tag", ["1", "2"]));
    assert sorted == [x2, x1];
    Sorting.EntriesPair(x2, x1);
    assert BuildIndex(docs, "tag", ["1", "2"]) == Sorting.Entries([x2, x1]);
  }

  lemma ExampleIndexed()
    ensures var c := Collection(Config("id"), map["1" := ExampleDoc("1", "b"), "2" := ExampleDoc("2", "a")], map[]);
            BuildIndex(c.documents, "tag", ["1", "2"]) == [Entry("2", ExampleDoc("2", "a")), Entry("1", ExampleDoc("1", "b"))]
  {
    var d1 := ExampleDoc("1", "b");
    var d2 := ExampleDoc("2", "a");
    assert StringField(d1, "tag") == Some("b") && StringField(d2, "tag") == Some("a");
    BuildIndexOfTwo(d1, d2);
  }

  lemma ExampleScanned()
    ensures var ix := [Entry("2", ExampleDoc("2", "a")), Entry("1", ExampleDoc("1", "b"))];
            Scan(ix, "tag", None, None) == ix
  {
    var d1 := ExampleDoc("1", "b");
    var d2 := ExampleDoc("2", "a");
    var ix := [Entry("2", d2), Entry("1", d1)];
    assert StringField(d1, "tag") == Some("b") && StringField(d2, "tag") == Some("a");
    assert InRange("a", None, None) && InRange("b", None, None);
    assert Scan([], "tag", None, None) == [];
    assert ix[1..] == [Entry("1", d1)];
    assert Scan([Entry("1", d1)], "tag", None, None) == [Entry("1", d1)] by {
      assert [Entry("1", d1)][1..] == [];
    }
  }

  function ExampleIndex(): seq<Entry> {
    [Entry("2", ExampleDoc("2", "a")), Entry("1", ExampleDoc("1", "b"))]
  }

  lemma ExampleCreated()
    ensures CreateIndex(ExampleStore(), "tag", ["1", "2"]) == Ok(ExampleStore().(indexes := map["tag" := ExampleIndex()]))
  {
    ExampleIndexed();
  }

  lemma ExampleQueried()
    ensures Query(ExampleStore().(indexes := map["tag" := ExampleIndex()]), "tag", QueryParams(false, None, None))
            == Ok([ExampleDoc("2", "a"), ExampleDoc("1", "b")])
  {
    ExampleScanned();
    assert Docs(ExampleIndex()) == [ExampleDoc("2", "a"), ExampleDoc("1", "b")];
  }

  /** The ordering example: two documents keyed "1" and "2" whose "tag" values are
      "b" and "a" (stored by ExampleStored); after indexing "tag", an unbounded
      ascending query lists "2" first. */
  lemma IndexOrdersByFieldValue()
    ensures CreateIndex(ExampleStore(), "tag", ["1", "2"]).Ok?
    ensures Query(CreateIndex(ExampleStore(), "tag", ["1", "2"]).value, "tag", QueryParams(false, None, None))
            == Ok([ExampleDoc("2", "a"), ExampleDoc("1", "b")])
  {
    ExampleCreated();
    ExampleQueried();
  }
}
