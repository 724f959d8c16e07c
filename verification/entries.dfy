/** Index entries as both indexed revisions keep them: the keys they carry, and the
    filter that drops one key from an index. */
module IndexEntries {
  import opened Documents

  predicate DistinctKeys(s: seq<Entry>) {
    forall i, j :: 0 <= i < j < |s| ==> s[i].key != s[j].key
  }

  function KeysOf(s: seq<Entry>): set<string> {
    set e | e in s :: e.key
  }

  lemma TailDistinct(s: seq<Entry>)
    requires |s| > 0 && DistinctKeys(s)
    ensures DistinctKeys(s[1..])
    ensures forall e :: e in s[1..] ==> e.key != s[0].key
  {
    var t := s[1..];
    forall i, j | 0 <= i < j < |t|
      ensures t[i].key != t[j].key
    {
      assert t[i] == s[i + 1] && t[j] == s[j + 1];
    }
    forall e | e in t
      ensures e.key != s[0].key
    {
      var m :| 0 <= m < |t| && t[m] == e;
      assert s[m + 1] == e;
    }
  }

  lemma AppendDistinct(s: seq<Entry>, x: Entry)
    requires DistinctKeys(s) && x.key !in KeysOf(s)
    ensures DistinctKeys(s + [x])
  {
    var u := s + [x];
    forall i, j | 0 <= i < j < |u|
      ensures u[i].key != u[j].key
    {
      if j == |s| {
        assert u[i] == s[i] && s[i] in s;
      } else {
        assert u[i] == s[i] && u[j] == s[j];
      }
    }
  }

  lemma ConsDistinct(x: Entry, s: seq<Entry>)
    requires DistinctKeys(s)
    requires forall e :: e in s ==> e.key != x.key
    ensures DistinctKeys([x] + s)
  {
    var u := [x] + s;
    forall i, j | 0 <= i < j < |u|
      ensures u[i].key != u[j].key
    {
      assert u[j] == s[j - 1] && s[j - 1] in s;
      if i > 0 {
        assert u[i] == s[i - 1];
      }
    }
  }

  /** The entries whose key is not `key`, in their original order: the filter loops of
      both revisions' index removal. */
  function RemoveKey(s: seq<Entry>, key: string): (r: seq<Entry>)
    ensures forall e :: e in r <==> e in s && e.key != key
    ensures |r| <= |s|
    decreases |s|
  {
    if |s| == 0 then []
    else (if s[0].key == key then [] else [s[0]]) + RemoveKey(s[1..], key)
  }

  lemma {:induction false} RemoveKeyDistinct(s: seq<Entry>, key: string)
    requires DistinctKeys(s)
    ensures DistinctKeys(RemoveKey(s, key))
    decreases |s|
  {
    if |s| > 0 {
      TailDistinct(s);
      RemoveKeyDistinct(s[1..], key);
      if s[0].key != key {
        ConsDistinct(s[0], RemoveKey(s[1..], key));
      }
    }
  }

  lemma {:induction false} RemoveKeyAppend(a: seq<Entry>, b: seq<Entry>, key: string)
    ensures RemoveKey(a + b, key) == RemoveKey(a, key) + RemoveKey(b, key)
    decreases |a|
  {
    if |a| > 0 {
      assert (a + b)[1..] == a[1..] + b;
      RemoveKeyAppend(a[1..], b, key);
    } else {
      assert a + b == b;
    }
  }

  lemma {:induction false} RemoveKeyAbsent(s: seq<Entry>, key: string)
    requires forall e :: e in s ==> e.key != key
    ensures RemoveKey(s, key) == s
    decreases |s|
  {
    if |s| > 0 {
      assert forall e :: e in s[1..] ==> e in s;
      RemoveKeyAbsent(s[1..], key);
      assert s == [s[0]] + s[1..];
    }
  }

  /** Filtering out the key of an entry spliced between two runs that lack it gives the
      two runs back, joined. */
  lemma RemoveKeySplice(a: seq<Entry>, x: Entry, b: seq<Entry>)
    requires forall e :: e in a ==> e.key != x.key
    requires forall e :: e in b ==> e.key != x.key
    ensures RemoveKey(a + [x] + b, x.key) == a + b
  {
    var k := x.key;
    assert RemoveKey(a + [x], k) == a by {
      RemoveKeyAppend(a, [x], k);
      RemoveKeyAbsent(a, k);
      assert RemoveKey([x], k) == [] by {
        assert [x][1..] == [];
      }
      assert a + [] == a;
    }
    RemoveKeyAbsent(b, k);
    RemoveKeyAppend(a + [x], b, k);
  }

  /** Filter the key out of every index: each index keeps exactly its entries for other
      keys, no longer mentions the key, and stays free of duplicate keys. */
  function RemoveFromIndexes(ix: map<string, seq<Entry>>, key: string): (r: map<string, seq<Entry>>)
    ensures r.Keys == ix.Keys
    ensures forall f :: f in ix ==> r[f] == RemoveKey(ix[f], key)
    ensures forall f, e :: f in ix ==> (e in r[f] <==> e in ix[f] && e.key != key)
    ensures forall f :: f in ix ==> key !in KeysOf(r[f])
    ensures forall f :: f in ix && DistinctKeys(ix[f]) ==> DistinctKeys(r[f])
  {
    assert forall f :: f in ix && DistinctKeys(ix[f]) ==> DistinctKeys(RemoveKey(ix[f], key)) by {
      forall f | f in ix && DistinctKeys(ix[f])
        ensures DistinctKeys(RemoveKey(ix[f], key))
      {
        RemoveKeyDistinct(ix[f], key);
      }
    }
    map f | f in ix :: RemoveKey(ix[f], key)
  }

  /** The documents of some entries, in order. */
  function Docs(s: seq<Entry>): (r: seq<Document>)
    ensures |r| == |s|
    ensures forall i :: 0 <= i < |s| ==> r[i] == s[i].doc
  {
    seq(|s|, i requires 0 <= i < |s| => s[i].doc)
  }
}
