/** The sort both indexed revisions use when building an index: entries paired with the
    string they are ordered by, sorted ascending. Go's sort.Slice is not stable, so only
    sortedness and the members of the result are promised; this insertion sort is one of
    the orders it may produce. */
module Sorting {
  import opened StringOrder
  import opened Documents

  /** An entry together with the string value it is sorted by. */
  datatype Candidate = Candidate(value: string, entry: Entry)

  predicate SortedByValue(s: seq<Candidate>) {
    forall i, j :: 0 <= i < j < |s| ==> StrLe(s[i].value, s[j].value)
  }

  /** No two candidates carry the same primary key. */
  predicate KeysDistinct(s: seq<Candidate>) {
    forall i, j :: 0 <= i < j < |s| ==> s[i].entry.key != s[j].entry.key
  }

  lemma SortedCons(x: Candidate, s: seq<Candidate>)
    requires SortedByValue(s)
    requires forall y :: y in s ==> StrLe(x.value, y.value)
    ensures SortedByValue([x] + s)
  {
    var t := [x] + s;
    forall i, j | 0 <= i < j < |t|
      ensures StrLe(t[i].value, t[j].value)
    {
      if i > 0 {
        assert t[i] == s[i - 1] && t[j] == s[j - 1];
      } else {
        assert t[j] == s[j - 1];
      }
    }
  }

  lemma KeysDistinctCons(x: Candidate, s: seq<Candidate>)
    requires KeysDistinct(s)
    requires forall y :: y in s ==> y.entry.key != x.entry.key
    ensures KeysDistinct([x] + s)
  {
    var t := [x] + s;
    forall i, j | 0 <= i < j < |t|
      ensures t[i].entry.key != t[j].entry.key
    {
      assert t[j] == s[j - 1];
      if i > 0 {
        assert t[i] == s[i - 1];
      }
    }
  }

  /** Insert `x` in front of the first candidate whose value is at least its own. */
  function Insert(x: Candidate, s: seq<Candidate>): (r: seq<Candidate>)
    ensures multiset(r) == multiset(s) + multiset{x}
    decreases |s|
  {
    if |s| == 0 then [x]
    else if StrLe(x.value, s[0].value) then [x] + s
    else
      assert s == [s[0]] + s[1..];
      [s[0]] + Insert(x, s[1..])
  }

  /** Insertion sort by value. */
  function Sort(s: seq<Candidate>): (r: seq<Candidate>)
    ensures multiset(r) == multiset(s)
    decreases |s|
  {
    if |s| == 0 then []
    else
      assert s == [s[0]] + s[1..];
      Insert(s[0], Sort(s[1..]))
  }

  lemma InSeqIffInMultiset(y: Candidate, a: seq<Candidate>, b: seq<Candidate>)
    requires multiset(a) == multiset(b)
    ensures y in a <==> y in b
  {
    assert y in a <==> y in multiset(a);
    assert y in b <==> y in multiset(b);
  }

  lemma InsertMembers(x: Candidate, s: seq<Candidate>)
    ensures forall y :: y in Insert(x, s) <==> y == x || y in s
  {
    forall y
      ensures y in Insert(x, s) <==> y == x || y in s
    {
      InSeqIffInMultiset(y, Insert(x, s), s + [x]);
    }
  }

  lemma TailSorted(s: seq<Candidate>)
    requires |s| > 0 && SortedByValue(s)
    ensures SortedByValue(s[1..])
    ensures forall y :: y in s[1..] ==> StrLe(s[0].value, y.value)
  {
    var tail := s[1..];
    forall i, j | 0 <= i < j < |tail|
      ensures StrLe(tail[i].value, tail[j].value)
    {
      assert tail[i] == s[i + 1] && tail[j] == s[j + 1];
    }
    forall y | y in tail
      ensures StrLe(s[0].value, y.value)
    {
      var j :| 0 <= j < |tail| && tail[j] == y;
      assert s[j + 1] == y;
    }
  }

  lemma TailKeysDistinct(s: seq<Candidate>)
    requires |s| > 0 && KeysDistinct(s)
    ensures KeysDistinct(s[1..])
    ensures forall y :: y in s[1..] ==> y.entry.key != s[0].entry.key
  {
    var tail := s[1..];
    forall i, j | 0 <= i < j < |tail|
      ensures tail[i].entry.key != tail[j].entry.key
    {
      assert tail[i] == s[i + 1] && tail[j] == s[j + 1];
    }
    forall y | y in tail
      ensures y.entry.key != s[0].entry.key
    {
      var j :| 0 <= j < |tail| && tail[j] == y;
      assert s[j + 1] == y;
    }
  }

  /** Inserting into a sorted sequence keeps it sorted. */
  lemma {:induction false} InsertSorted(x: Candidate, s: seq<Candidate>)
    requires SortedByValue(s)
    ensures SortedByValue(Insert(x, s))
    decreases |s|
  {
    if |s| == 0 {
    } else if StrLe(x.value, s[0].value) {
      TailSorted(s);
      forall y | y in s
        ensures StrLe(x.value, y.value)
      {
        if y != s[0] {
          assert y in s[1..];
          StrLeTransitive(x.value, s[0].value, y.value);
        }
      }
      SortedCons(x, s);
    } else {
      var tail := s[1..];
      TailSorted(s);
      InsertSorted(x, tail);
      InsertMembers(x, tail);
      StrLeTotal(x.value, s[0].value);
      SortedCons(s[0], Insert(x, tail));
    }
  }

  /** Inserting a candidate whose key is new keeps primary keys distinct. */
  lemma {:induction false} InsertKeysDistinct(x: Candidate, s: seq<Candidate>)
    requires KeysDistinct(s)
    requires forall y :: y in s ==> y.entry.key != x.entry.key
    ensures KeysDistinct(Insert(x, s))
    decreases |s|
  {
    if |s| == 0 {
    } else if StrLe(x.value, s[0].value) {
      KeysDistinctCons(x, s);
    } else {
      var tail := s[1..];
      TailKeysDistinct(s);
      InsertKeysDistinct(x, tail);
      InsertMembers(x, tail);
      KeysDistinctCons(s[0], Insert(x, tail));
    }
  }

  /** The sort returns a sorted permutation of its input; distinct keys stay distinct. */
  lemma {:induction false} SortSorted(s: seq<Candidate>)
    ensures SortedByValue(Sort(s))
    ensures KeysDistinct(s) ==> KeysDistinct(Sort(s))
    ensures forall y :: y in Sort(s) <==> y in s
    decreases |s|
  {
    forall y
      ensures y in Sort(s) <==> y in s
    {
      InSeqIffInMultiset(y, Sort(s), s);
    }
    if |s| > 0 {
      var tail := s[1..];
      assert s == [s[0]] + tail;
      SortSorted(tail);
      var rest := Sort(tail);
      InsertSorted(s[0], rest);
      if KeysDistinct(s) {
        TailKeysDistinct(s);
        InsertKeysDistinct(s[0], rest);
      }
    }
  }

  /** Drop the sort values, keeping the entries in order. */
  function Entries(s: seq<Candidate>): (r: seq<Entry>)
    ensures |r| == |s|
    ensures forall i :: 0 <= i < |s| ==> r[i] == s[i].entry
  {
    seq(|s|, i requires 0 <= i < |s| => s[i].entry)
  }

  lemma EntriesPair(a: Candidate, b: Candidate)
    ensures Entries([a, b]) == [a.entry, b.entry]
  {
    var r := Entries([a, b]);
    assert r[0] == a.entry && r[1] == b.entry;
  }

  lemma EntriesCons(x: Candidate, s: seq<Candidate>)
    ensures Entries([x] + s) == [x.entry] + Entries(s)
  {
    var r := Entries([x] + s);
    forall i | 0 <= i < |r|
      ensures r[i] == ([x.entry] + Entries(s))[i]
    {
      if i > 0 {
        assert ([x] + s)[i] == s[i - 1];
      }
    }
  }

  lemma EntriesTail(s: seq<Candidate>)
    requires |s| > 0
    ensures Entries(s) == [s[0].entry] + Entries(s[1..])
  {
    var r := Entries(s);
    forall i | 0 <= i < |r|
      ensures r[i] == ([s[0].entry] + Entries(s[1..]))[i]
    {
      if i > 0 {
        assert s[1..][i - 1] == s[i];
      }
    }
  }

  /** Inserting a candidate adds exactly its entry to the entries. */
  lemma {:induction false} InsertEntries(x: Candidate, s: seq<Candidate>)
    ensures multiset(Entries(Insert(x, s))) == multiset(Entries(s)) + multiset{x.entry}
    decreases |s|
  {
    if |s| == 0 {
      assert Entries([x]) == [x.entry];
    } else {
      assert s == [s[0]] + s[1..];
      EntriesCons(s[0], s[1..]);
      if StrLe(x.value, s[0].value) {
        EntriesCons(x, s);
      } else {
        InsertEntries(x, s[1..]);
        EntriesCons(s[0], Insert(x, s[1..]));
      }
    }
  }

  /** The sort permutes the entries as well as the candidates: no entry is lost or
      duplicated, even when two candidates are equal. */
  lemma {:induction false} SortEntries(s: seq<Candidate>)
    ensures multiset(Entries(Sort(s))) == multiset(Entries(s))
    decreases |s|
  {
    if |s| > 0 {
      var rest := Sort(s[1..]);
      assert Sort(s) == Insert(s[0], rest);
      SortEntries(s[1..]);
      InsertEntries(s[0], rest);
      EntriesTail(s);
      assert multiset(Entries(s)) == multiset{s[0].entry} + multiset(Entries(s[1..]));
    }
  }
}
