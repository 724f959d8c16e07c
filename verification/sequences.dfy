/** Facts about sequences used by every revision of the store: distinctness, Go map
    iteration orders, and reversal. */
module Sequences {

  predicate Distinct<T(==)>(s: seq<T>) {
    forall i, j :: 0 <= i < j < |s| ==> s[i] != s[j]
  }

  /** `order` is one possible iteration order of a Go map whose key set is `keys`:
      every key exactly once, nothing else. */
  predicate Enumerates<T(==)>(order: seq<T>, keys: set<T>) {
    Distinct(order) && (forall k :: k in order ==> k in keys) && (forall k :: k in keys ==> k in order)
  }

  lemma {:induction false} EnumerationLength<T>(order: seq<T>, keys: set<T>)
    requires Enumerates(order, keys)
    ensures |order| == |keys|
    decreases |order|
  {
    if |order| > 0 {
      var rest := order[1..];
      assert Enumerates(rest, keys - {order[0]}) by {
        forall k
          ensures k in rest <==> k in keys - {order[0]}
        {
          if k in rest {
            var j :| 0 <= j < |rest| && rest[j] == k;
            assert order[j + 1] == k;
          }
          if k in order && k != order[0] {
            var j :| 0 <= j < |order| && order[j] == k;
            assert rest[j - 1] == k;
          }
        }
      }
      EnumerationLength(rest, keys - {order[0]});
    } else {
      assert forall k :: k !in keys;
      assert keys == {};
    }
  }

  /** `a` is `b` with some elements left out and the rest kept in their order. */
  predicate Subsequence<T(==)>(a: seq<T>, b: seq<T>)
    decreases |b|
  {
    if |b| == 0 then |a| == 0
    else Subsequence(a, b[1..]) || (|a| > 0 && a[0] == b[0] && Subsequence(a[1..], b[1..]))
  }

  /** The elements of `s` in the opposite order. */
  function Reverse<T>(s: seq<T>): (r: seq<T>)
    ensures |r| == |s|
    ensures forall i :: 0 <= i < |s| ==> r[i] == s[|s| - 1 - i]
  {
    if |s| == 0 then [] else Reverse(s[1..]) + [s[0]]
  }

  lemma ReverseMembers<T>(s: seq<T>)
    ensures forall x :: x in Reverse(s) <==> x in s
  {
    var r := Reverse(s);
    forall x
      ensures x in r <==> x in s
    {
      if x in r {
        var i :| 0 <= i < |r| && r[i] == x;
        assert s[|s| - 1 - i] == x;
      }
      if x in s {
        var i :| 0 <= i < |s| && s[i] == x;
        assert r[|s| - 1 - i] == x;
      }
    }
  }

  /** The values of a Go map collected by ranging over it in iteration order `order`:
      one value per key. */
  function ValuesInOrder<K, V(==)>(m: map<K, V>, order: seq<K>): (r: seq<V>)
    requires Enumerates(order, m.Keys)
    ensures |r| == |m| == |order|
    ensures forall i :: 0 <= i < |order| ==> r[i] == m[order[i]]
    ensures forall k :: k in m ==> m[k] in r
    ensures forall v :: v in r ==> v in m.Values
  {
    EnumerationLength(order, m.Keys);
    var r := seq(|order|, i requires 0 <= i < |order| => m[order[i]]);
    assert forall k :: k in m ==> m[k] in r by {
      forall k | k in m
        ensures m[k] in r
      {
        var i :| 0 <= i < |order| && order[i] == k;
        assert r[i] == m[k];
      }
    }
    r
  }
}
