/** The LRU cache of Lesson8. The Go code keeps a map from key to list element and a
    doubly linked recency list, front = most recently used. Here the list is a sequence
    of items and the map is its key set: every element the map points to is the item in
    the sequence with that key. */
module Lru {
  import opened Results

  datatype Item = Item(key: string, value: string)

  datatype Cache = Cache(capacity: int, items: set<string>, order: seq<Item>)

  predicate DistinctKeys(s: seq<Item>) {
    forall i, j :: 0 <= i < j < |s| ==> s[i].key != s[j].key
  }

  function KeySet(s: seq<Item>): set<string> {
    set i | 0 <= i < |s| :: s[i].key
  }

  /** The map and the list hold the same keys, and no key is on the list twice. */
  ghost predicate Valid(c: Cache) {
    DistinctKeys(c.order) && c.items == KeySet(c.order)
  }

  /** The value the cache holds for `key`: the first item with that key. */
  function Lookup(s: seq<Item>, key: string): (r: Option<string>)
    ensures r.Some? <==> key in KeySet(s)
    decreases |s|
  {
    if |s| == 0 then None
    else if s[0].key == key then Some(s[0].value)
    else
      assert KeySet(s) == {s[0].key} + KeySet(s[1..]) by {
        forall k | k in KeySet(s)
          ensures k in {s[0].key} + KeySet(s[1..])
        {
          var i :| 0 <= i < |s| && s[i].key == k;
          if i > 0 {
            assert s[1..][i - 1] == s[i];
          }
        }
        forall k | k in KeySet(s[1..])
          ensures k in KeySet(s)
        {
          var i :| 0 <= i < |s[1..]| && s[1..][i].key == k;
          assert s[i + 1] == s[1..][i];
        }
      }
      Lookup(s[1..], key)
  }

  /** The position of `key` on the list. */
  function Find(s: seq<Item>, key: string): (i: nat)
    requires key in KeySet(s)
    ensures i < |s| && s[i].key == key
    decreases |s|
  {
    if s[0].key == key then 0
    else
      assert key in KeySet(s[1..]) by {
        var j :| 0 <= j < |s| && s[j].key == key;
        assert s[1..][j - 1] == s[j];
      }
      1 + Find(s[1..], key)
  }

  /** The list without its element at `i`. */
  function RemoveAt(s: seq<Item>, i: nat): seq<Item>
    requires i < |s|
  {
    s[..i] + s[i + 1..]
  }

  /** The list without the item for `key`, the other items in their order. */
  function Without(s: seq<Item>, key: string): (r: seq<Item>)
    ensures |r| <= |s|
    decreases |s|
  {
    if |s| == 0 then []
    else (if s[0].key == key then [] else [s[0]]) + Without(s[1..], key)
  }

  // ---------------------------------------------------------------- list lemmas

  lemma TailKeys(s: seq<Item>)
    requires |s| > 0
    ensures KeySet(s) == KeySet(s[1..]) + {s[0].key}
    ensures DistinctKeys(s) ==> DistinctKeys(s[1..]) && s[0].key !in KeySet(s[1..])
  {
    var t := s[1..];
    forall k | k in KeySet(s)
      ensures k in KeySet(t) + {s[0].key}
    {
      var i :| 0 <= i < |s| && s[i].key == k;
      if i > 0 {
        assert t[i - 1] == s[i];
      }
    }
    forall k | k in KeySet(t)
      ensures k in KeySet(s)
    {
      var i :| 0 <= i < |t| && t[i].key == k;
      assert s[i + 1] == t[i];
    }
    if DistinctKeys(s) {
      forall i, j | 0 <= i < j < |t|
        ensures t[i].key != t[j].key
      {
        assert t[i] == s[i + 1] && t[j] == s[j + 1];
      }
      forall i | 0 <= i < |t|
        ensures t[i].key != s[0].key
      {
        assert t[i] == s[i + 1];
      }
    }
  }

  lemma {:induction false} WithoutAbsent(s: seq<Item>, key: string)
    requires key !in KeySet(s)
    ensures Without(s, key) == s
    decreases |s|
  {
    if |s| > 0 {
      TailKeys(s);
      WithoutAbsent(s[1..], key);
      assert s == [s[0]] + s[1..];
    }
  }

  /** With distinct keys, dropping the key of the item at `i` removes exactly that item. */
  lemma {:induction false} WithoutRemoveAt(s: seq<Item>, i: nat)
    requires i < |s| && DistinctKeys(s)
    ensures Without(s, s[i].key) == RemoveAt(s, i)
    decreases |s|
  {
    var t := s[1..];
    TailKeys(s);
    if i == 0 {
      WithoutAbsent(t, s[0].key);
      assert RemoveAt(s, 0) == t;
    } else {
      assert t[i - 1] == s[i];
      WithoutRemoveAt(t, i - 1);
      assert RemoveAt(s, i) == [s[0]] + RemoveAt(t, i - 1);
    }
  }


  lemma {:induction false} LookupConcat(a: seq<Item>, b: seq<Item>, key: string)
    ensures Lookup(a + b, key) == if Lookup(a, key).Some? then Lookup(a, key) else Lookup(b, key)
    decreases |a|
  {
    if |a| == 0 {
      assert a + b == b;
    } else {
      assert (a + b)[1..] == a[1..] + b;
      LookupConcat(a[1..], b, key);
    }
  }

  /** Removing the item with one key changes no other key's lookup. */
  lemma RemoveAtLookup(s: seq<Item>, i: nat, key: string)
    requires i < |s| && s[i].key != key
    ensures Lookup(RemoveAt(s, i), key) == Lookup(s, key)
  {
    assert s == s[..i] + ([s[i]] + s[i + 1..]);
    LookupConcat(s[..i], [s[i]] + s[i + 1..], key);
    LookupConcat(s[..i], s[i + 1..], key);
    assert ([s[i]] + s[i + 1..])[1..] == s[i + 1..];
  }

  lemma RemoveAtKeys(s: seq<Item>, i: nat)
    requires i < |s| && DistinctKeys(s)
    ensures DistinctKeys(RemoveAt(s, i))
    ensures KeySet(RemoveAt(s, i)) == KeySet(s) - {s[i].key}
    ensures |RemoveAt(s, i)| == |s| - 1
  {
    var t := RemoveAt(s, i);
    assert forall j :: 0 <= j < |t| ==> t[j] == if j < i then s[j] else s[j + 1];
    forall k | k in KeySet(s) - {s[i].key}
      ensures k in KeySet(t)
    {
      var j :| 0 <= j < |s| && s[j].key == k;
      if j < i {
        assert t[j] == s[j];
      } else {
        assert t[j - 1] == s[j];
      }
    }
  }

  lemma ConsKeys(x: Item, s: seq<Item>)
    requires DistinctKeys(s) && x.key !in KeySet(s)
    ensures DistinctKeys([x] + s)
    ensures KeySet([x] + s) == KeySet(s) + {x.key}
  {
    var t := [x] + s;
    assert forall j :: 0 < j < |t| ==> t[j] == s[j - 1];
    forall k | k in KeySet(s)
      ensures k in KeySet(t)
    {
      var j :| 0 <= j < |s| && s[j].key == k;
      assert t[j + 1] == s[j];
    }
    assert t[0] == x;
  }

  // ---------------------------------------------------------------- operations

  /** NewLruCache: an empty cache of the given capacity. Nothing checks the capacity. */
  function NewLruCache(capacity: int): (c: Cache)
    ensures c.capacity == capacity
    ensures Valid(c) && |c.order| == 0
    ensures forall k :: Lookup(c.order, k).None?
  {
    Cache(capacity, {}, [])
  }

  /** Put on a present key: update its value and move it to the front. Put on a new key:
      when the list is exactly at capacity, drop its back element; then push the new item
      on the front. */
  function Put(c: Cache, key: string, value: string): (r: Cache)
    requires Valid(c)
    ensures Valid(r)
    ensures r.capacity == c.capacity
    ensures c.capacity >= 1 && |c.order| <= c.capacity ==> |r.order| <= c.capacity
    ensures |r.order| > 0 && r.order[0] == Item(key, value)
    ensures Lookup(r.order, key) == Some(value)
    ensures key in c.items ==>
              && |r.order| == |c.order|
              && (forall k :: k != key ==> Lookup(r.order, k) == Lookup(c.order, k))
    ensures key !in c.items && |c.order| == c.capacity && |c.order| > 0 ==>
              var evicted := c.order[|c.order| - 1].key;
              && |r.order| == |c.order|
              && Lookup(r.order, evicted).None?
              && (forall k :: k != key && k != evicted ==> Lookup(r.order, k) == Lookup(c.order, k))
    ensures key !in c.items && !(|c.order| == c.capacity && |c.order| > 0) ==>
              && |r.order| == |c.order| + 1
              && (forall k :: k != key ==> Lookup(r.order, k) == Lookup(c.order, k))
    ensures key in c.items ==> r.order[1..] == Without(c.order, key)
    ensures key !in c.items && |c.order| == c.capacity && |c.order| > 0 ==> r.order[1..] == c.order[..|c.order| - 1]
    ensures key !in c.items && !(|c.order| == c.capacity && |c.order| > 0) ==> r.order[1..] == c.order
  {
    var x := Item(key, value);
    if key in c.items then
      var i := Find(c.order, key);
      var rest := RemoveAt(c.order, i);
      RemoveAtKeys(c.order, i);
      ConsKeys(x, rest);
      WithoutRemoveAt(c.order, i);
      assert forall k :: k != key ==> Lookup(rest, k) == Lookup(c.order, k) by {
        forall k | k != key {
          RemoveAtLookup(c.order, i, k);
        }
      }
      assert ([x] + rest)[1..] == rest;
      Cache(c.capacity, c.items, [x] + rest)
    else if |c.order| == c.capacity && |c.order| > 0 then
      var last := |c.order| - 1;
      var kept := RemoveAt(c.order, last);
      RemoveAtKeys(c.order, last);
      ConsKeys(x, kept);
      assert forall k :: k != c.order[last].key ==> Lookup(kept, k) == Lookup(c.order, k) by {
        forall k | k != c.order[last].key {
          RemoveAtLookup(c.order, last, k);
        }
      }
      assert ([x] + kept)[1..] == kept == c.order[..last];
      Cache(c.capacity, c.items - {c.order[last].key} + {key}, [x] + kept)
    else
      ConsKeys(x, c.order);
      assert ([x] + c.order)[1..] == c.order;
      Cache(c.capacity, c.items + {key}, [x] + c.order)
  }

  /** Get on a present key: its value and true, and the key moves to the front. A miss
      returns ("", false) and changes nothing. */
  function Get(c: Cache, key: string): (r: (string, bool, Cache))
    requires Valid(c)
    ensures r.1 <==> key in c.items
    ensures r.1 ==>
              && Lookup(c.order, key) == Some(r.0)
              && Valid(r.2) && r.2.capacity == c.capacity
              && |r.2.order| > 0 && r.2.order[0].key == key
              && |r.2.order| == |c.order|
              && (forall k :: Lookup(r.2.order, k) == Lookup(c.order, k))
    ensures r.1 ==> r.2.order[1..] == Without(c.order, key) && r.2.items == c.items
    ensures !r.1 ==> r.0 == "" && r.2 == c
  {
    if key in c.items then
      var i := Find(c.order, key);
      var x := c.order[i];
      var rest := RemoveAt(c.order, i);
      RemoveAtKeys(c.order, i);
      ConsKeys(x, rest);
      assert Lookup(c.order, key) == Some(x.value) by {
        assert c.order == c.order[..i] + [x] + c.order[i + 1..];
        LookupConcat(c.order[..i] + [x], c.order[i + 1..], key);
        LookupConcat(c.order[..i], [x], key);
        assert key !in KeySet(c.order[..i]);
      }
      assert forall k :: k != key ==> Lookup(rest, k) == Lookup(c.order, k) by {
        forall k | k != key {
          RemoveAtLookup(c.order, i, k);
        }
      }
      WithoutRemoveAt(c.order, i);
      assert ([x] + rest)[1..] == rest;
      (x.value, true, Cache(c.capacity, c.items, [x] + rest))
    else
      ("", false, c)
  }

  // ---------------------------------------------------------------- properties

  /** With capacity 0 the list is never exactly full after the first Put, nothing is
      evicted, and the cache holds more items than its capacity. */
  lemma ZeroCapacityOverflows()
    ensures |Put(NewLruCache(0), "a", "1").order| == 1
    ensures |Put(Put(NewLruCache(0), "a", "1"), "b", "2").order| == 2
  {
  }

  lemma ExampleFirstPuts()
    ensures Put(Put(NewLruCache(2), "x", "100"), "y", "200")
            == Cache(2, {"x", "y"}, [Item("y", "200"), Item("x", "100")])
  {
    var c0 := Put(NewLruCache(2), "x", "100");
    assert c0.order == [Item("x", "100")];
  }

  lemma ExampleGetMovesToFront(c: Cache)
    requires c == Cache(2, {"x", "y"}, [Item("y", "200"), Item("x", "100")])
    requires Valid(c)
    ensures Get(c, "x") == ("100", true, Cache(2, {"x", "y"}, [Item("x", "100"), Item("y", "200")]))
  {
    assert Lookup(c.order, "x") == Some("100") by {
      assert c.order[1..] == [Item("x", "100")];
    }
    assert Without(c.order, "x") == [Item("y", "200")] by {
      assert c.order[1..][1..] == [];
    }
    var g := Get(c, "x").2;
    assert g.order[0] == Item("x", "100") by {
      assert Lookup(g.order, "x") == Some("100");
    }
    assert g.order == [g.order[0]] + g.order[1..];
    assert Get(c, "x").1;
    assert Get(c, "x").0 == "100";
    assert g.capacity == 2;
    assert g.items == {"x", "y"};
    assert g.order == [Item("x", "100"), Item("y", "200")];
  }

  lemma ExamplePutEvicts(c: Cache)
    requires c == Cache(2, {"x", "y"}, [Item("x", "100"), Item("y", "200")])
    requires Valid(c)
    ensures Put(c, "z", "300") == Cache(2, {"x", "z"}, [Item("z", "300"), Item("x", "100")])
  {
    assert "z" !in c.items;
  }

  lemma ExampleFinalGets(c: Cache)
    requires c == Cache(2, {"x", "z"}, [Item("z", "300"), Item("x", "100")])
    requires Valid(c)
    ensures Get(c, "y") == ("", false, c)
    ensures Get(c, "x").0 == "100" && Get(c, "x").1
    ensures Get(c, "z").0 == "300" && Get(c, "z").1
  {
    assert Lookup(c.order, "x") == Some("100") by {
      assert c.order[1..] == [Item("x", "100")];
    }
  }

  /** With capacity 2: put x, put y, get x, put z evicts y and keeps x and z with their
      values. */
  lemma EvictsLeastRecentlyUsed()
    ensures var c1 := Put(Put(NewLruCache(2), "x", "100"), "y", "200");
            var c2 := Put(Get(c1, "x").2, "z", "300");
            && Get(c2, "y") == ("", false, c2)
            && Get(c2, "x").0 == "100" && Get(c2, "x").1
            && Get(c2, "z").0 == "300" && Get(c2, "z").1
  {
    var c1 := Put(Put(NewLruCache(2), "x", "100"), "y", "200");
    ExampleFirstPuts();
    ExampleGetMovesToFront(c1);
    var g := Get(c1, "x").2;
    ExamplePutEvicts(g);
    ExampleFinalGets(Put(g, "z", "300"));
  }

  /** Re-putting a present key makes the new value visible through Get. */
  lemma PutUpdatesValue(c: Cache, key: string, earlier: string, value: string)
    requires Valid(c)
    ensures var c1 := Put(Put(c, key, earlier), key, value);
            Get(c1, key).1 && Get(c1, key).0 == value && |c1.order| == |Put(c, key, earlier).order|
  {
  }

  // ---------------------------------------------------------------- recency order

  /** The keys of the list, front first. */
  function KeyList(s: seq<Item>): (r: seq<string>)
    ensures |r| == |s|
    ensures forall i :: 0 <= i < |s| ==> r[i] == s[i].key
    decreases |s|
  {
    if |s| == 0 then [] else [s[0].key] + KeyList(s[1..])
  }

  /** `ks` without `k`, the others in their order. */
  function Drop(ks: seq<string>, k: string): (r: seq<string>)
    ensures forall x :: x in r <==> x in ks && x != k
    decreases |ks|
  {
    if |ks| == 0 then []
    else (if ks[0] == k then [] else [ks[0]]) + Drop(ks[1..], k)
  }

  /** The first `n` keys, or all of them when there are fewer. */
  function Take(ks: seq<string>, n: nat): (r: seq<string>)
    ensures |r| <= n && |r| <= |ks|
    ensures forall i :: 0 <= i < |r| ==> r[i] == ks[i]
    ensures |ks| >= n ==> |r| == n
    ensures |ks| <= n ==> r == ks
  {
    if |ks| <= n then ks else ks[..n]
  }

  predicate NoRepeats(ks: seq<string>) {
    forall i, j :: 0 <= i < j < |ks| ==> ks[i] != ks[j]
  }

  lemma {:induction false} DropNoRepeats(ks: seq<string>, k: string)
    requires NoRepeats(ks)
    ensures NoRepeats(Drop(ks, k))
    decreases |ks|
  {
    if |ks| > 0 {
      var t := ks[1..];
      TailNoRepeats(ks);
      DropNoRepeats(t, k);
      if ks[0] != k {
        var d := Drop(t, k);
        var u := [ks[0]] + d;
        forall i, j | 0 <= i < j < |u|
          ensures u[i] != u[j]
        {
          assert u[j] == d[j - 1] && d[j - 1] in d;
          if i > 0 {
            assert u[i] == d[i - 1];
          }
        }
      }
    }
  }

  /** The touched keys, most recently touched first, each once: the reference order an
      LRU list is meant to keep. */
  function ByLastTouch(touches: seq<string>): (r: seq<string>)
    ensures NoRepeats(r)
    ensures forall k :: k in r <==> k in touches
    decreases |touches|
  {
    if |touches| == 0 then []
    else
      var k := touches[|touches| - 1];
      var earlier := touches[..|touches| - 1];
      var prev := ByLastTouch(earlier);
      ConsDropNoRepeats(k, prev);
      assert touches == earlier + [k];
      [k] + Drop(prev, k)
  }

  lemma ConsDropNoRepeats(k: string, ks: seq<string>)
    requires NoRepeats(ks)
    ensures NoRepeats([k] + Drop(ks, k))
  {
    var d := Drop(ks, k);
    DropNoRepeats(ks, k);
    var r := [k] + d;
    forall i, j | 0 <= i < j < |r|
      ensures r[i] != r[j]
    {
      assert r[j] == d[j - 1] && d[j - 1] in d;
      if i > 0 {
        assert r[i] == d[i - 1];
      }
    }
  }

  /** A call on the cache: Put with its key and value, or Get with its key. */
  datatype Op = PutOp(key: string, value: string) | GetOp(key: string)

  function Apply(c: Cache, op: Op): (r: Cache)
    requires Valid(c)
    ensures Valid(r) && r.capacity == c.capacity
  {
    match op
    case PutOp(k, v) => Put(c, k, v)
    case GetOp(k) => Get(c, k).2
  }

  /** The cache after the calls `ops`, in order, on a new cache of the given capacity. */
  function Replay(capacity: int, ops: seq<Op>): (c: Cache)
    ensures Valid(c) && c.capacity == capacity
    decreases |ops|
  {
    if |ops| == 0 then NewLruCache(capacity)
    else Apply(Replay(capacity, ops[..|ops| - 1]), ops[|ops| - 1])
  }

  /** The keys those calls touched, in call order: every Put, and every Get that hit. */
  function Touches(capacity: int, ops: seq<Op>): seq<string>
    decreases |ops|
  {
    if |ops| == 0 then []
    else
      var before := ops[..|ops| - 1];
      var op := ops[|ops| - 1];
      if op.PutOp? || op.key in Replay(capacity, before).items then Touches(capacity, before) + [op.key]
      else Touches(capacity, before)
  }

  lemma InKeyList(s: seq<Item>, key: string)
    ensures key in KeySet(s) <==> key in KeyList(s)
  {
    if key in KeySet(s) {
      var i :| 0 <= i < |s| && s[i].key == key;
      assert KeyList(s)[i] == key;
    }
    if key in KeyList(s) {
      var i :| 0 <= i < |s| && KeyList(s)[i] == key;
      assert s[i].key == key;
    }
  }

  lemma {:induction false} KeyListWithout(s: seq<Item>, key: string)
    ensures KeyList(Without(s, key)) == Drop(KeyList(s), key)
    decreases |s|
  {
    if |s| > 0 {
      KeyListWithout(s[1..], key);
      assert KeyList(s)[1..] == KeyList(s[1..]);
      var head := if s[0].key == key then [] else [s[0]];
      assert KeyList(head + Without(s[1..], key)) == KeyList(head) + KeyList(Without(s[1..], key));
    }
  }

  lemma TakeCons(k: string, ks: seq<string>, n: nat)
    requires n >= 1
    ensures Take([k] + ks, n) == [k] + Take(ks, n - 1)
  {
  }

  lemma DropCons(x: string, ks: seq<string>, k: string)
    ensures Drop([x] + ks, k) == (if x == k then [] else [x]) + Drop(ks, k)
  {
    assert ([x] + ks)[1..] == ks;
  }

  lemma TailNoRepeats(b: seq<string>)
    requires |b| > 0 && NoRepeats(b)
    ensures NoRepeats(b[1..]) && b[0] !in b[1..]
  {
    var t := b[1..];
    forall i, j | 0 <= i < j < |t|
      ensures t[i] != t[j]
    {
      assert t[i] == b[i + 1] && t[j] == b[j + 1];
    }
    forall i | 0 <= i < |t|
      ensures t[i] != b[0]
    {
      assert t[i] == b[i + 1];
    }
  }

  /** Dropping a key held among the first `n` keys leaves the next one in the window. */
  lemma {:induction false} DropInsideWindow(b: seq<string>, k: string, n: nat)
    requires NoRepeats(b) && k in Take(b, n)
    ensures n >= 1 && Drop(Take(b, n), k) == Take(Drop(b, k), n - 1)
    decreases |b|
  {
    var t := b[1..];
    assert b == [b[0]] + t;
    TailNoRepeats(b);
    TakeCons(b[0], t, n);
    DropCons(b[0], t, k);
    DropCons(b[0], Take(t, n - 1), k);
    if b[0] == k {
      DropAbsent(Take(t, n - 1), k);
      DropAbsent(t, k);
    } else {
      DropInsideWindow(t, k, n - 1);
      TakeCons(b[0], Drop(t, k), n - 1);
    }
  }

  /** Dropping a key outside the first `n` keys leaves them as they are. */
  lemma {:induction false} DropOutsideWindow(b: seq<string>, k: string, n: nat)
    requires k !in Take(b, n)
    ensures Take(Drop(b, k), n) == Take(b, n)
    decreases |b|
  {
    if |b| > 0 && n > 0 {
      var t := b[1..];
      assert b == [b[0]] + t;
      TakeCons(b[0], t, n);
      DropOutsideWindow(t, k, n - 1);
      TakeCons(b[0], Drop(t, k), n);
    }
  }

  lemma {:induction false} DropAbsent(ks: seq<string>, k: string)
    requires k !in ks
    ensures Drop(ks, k) == ks
    decreases |ks|
  {
    if |ks| > 0 {
      DropAbsent(ks[1..], k);
      assert ks == [ks[0]] + ks[1..];
    }
  }

  /** A hit on a held key, by Put or Get, moves it to the front of the window. */
  lemma TouchHeld(old_order: seq<Item>, new_order: seq<Item>, key: string, b: seq<string>, n: nat)
    requires NoRepeats(b) && KeyList(old_order) == Take(b, n)
    requires key in KeySet(old_order)
    requires |new_order| > 0 && new_order[0].key == key && new_order[1..] == Without(old_order, key)
    ensures KeyList(new_order) == Take([key] + Drop(b, key), n)
  {
    InKeyList(old_order, key);
    KeyListWithout(old_order, key);
    DropInsideWindow(b, key, n);
    TakeCons(key, Drop(b, key), n);
  }

  /** A Put of a new key on a full list: the new key goes in front, the last one drops. */
  lemma TouchEvicting(old_order: seq<Item>, new_order: seq<Item>, key: string, b: seq<string>, n: nat)
    requires KeyList(old_order) == Take(b, n) && |old_order| == n && n >= 1
    requires key !in KeySet(old_order)
    requires |new_order| > 0 && new_order[0].key == key && new_order[1..] == old_order[..n - 1]
    ensures KeyList(new_order) == Take([key] + Drop(b, key), n)
  {
    InKeyList(old_order, key);
    assert Take(b, n - 1) == Take(b, n)[..n - 1];
    assert key !in Take(b, n - 1);
    DropOutsideWindow(b, key, n - 1);
    TakeCons(key, Drop(b, key), n);
    assert KeyList(old_order[..n - 1]) == KeyList(old_order)[..n - 1];
  }

  /** A Put of a new key on a list below capacity: the new key goes in front. */
  lemma TouchInserting(old_order: seq<Item>, new_order: seq<Item>, key: string, b: seq<string>, n: nat)
    requires KeyList(old_order) == Take(b, n) && |old_order| < n
    requires key !in KeySet(old_order)
    requires |new_order| > 0 && new_order[0].key == key && new_order[1..] == old_order
    ensures KeyList(new_order) == Take([key] + Drop(b, key), n)
  {
    InKeyList(old_order, key);
    assert Take(b, n) == b;
    DropAbsent(b, key);
    TakeCons(key, b, n);
  }

  lemma ByLastTouchSnoc(touches: seq<string>, k: string)
    ensures ByLastTouch(touches + [k]) == [k] + Drop(ByLastTouch(touches), k)
  {
    assert (touches + [k])[..|touches|] == touches;
  }

  /** One call keeps the list equal to the window of the most recently touched keys. */
  lemma ApplyKeepsRecencyOrder(c: Cache, op: Op, touches: seq<string>)
    requires Valid(c) && c.capacity >= 1
    requires KeyList(c.order) == Take(ByLastTouch(touches), c.capacity)
    ensures var touched := if op.PutOp? || op.key in c.items then touches + [op.key] else touches;
            KeyList(Apply(c, op).order) == Take(ByLastTouch(touched), c.capacity)
  {
    var b := ByLastTouch(touches);
    var n := c.capacity;
    var key := op.key;
    var r := Apply(c, op);
    if op.PutOp? || key in c.items {
      ByLastTouchSnoc(touches, key);
      if key in c.items {
        TouchHeld(c.order, r.order, key, b, n);
      } else if |c.order| == n {
        TouchEvicting(c.order, r.order, key, b, n);
      } else {
        TouchInserting(c.order, r.order, key, b, n);
      }
    }
  }

  /** From a new cache of capacity at least one, after any sequence of Put and Get calls
      the list holds the `capacity` most recently touched keys, most recently touched
      first. So its back, the item the next eviction drops, is always the held key whose
      last touch is the oldest. */
  lemma {:induction false} ReplayKeepsRecencyOrder(capacity: int, ops: seq<Op>)
    requires capacity >= 1
    ensures KeyList(Replay(capacity, ops).order) == Take(ByLastTouch(Touches(capacity, ops)), capacity)
    decreases |ops|
  {
    if |ops| > 0 {
      var before := ops[..|ops| - 1];
      ReplayKeepsRecencyOrder(capacity, before);
      ApplyKeepsRecencyOrder(Replay(capacity, before), ops[|ops| - 1], Touches(capacity, before));
    }
  }
}
