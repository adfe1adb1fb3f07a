/**
 * `findMany({ where, orderBy: { createdAt: "desc" } })`: the ids of the rows
 * a filter keeps, newest first. Built as a scan of the id range followed by
 * an insertion sort on the creation time.
 */
module Listing {
  import opened Tables

  /** No element occurs twice. */
  ghost predicate Distinct(s: seq<Id>) {
    forall i, j :: 0 <= i < j < |s| ==> s[i] != s[j]
  }

  /** Keys never increase along the sequence. */
  ghost predicate Descending(s: seq<Id>, key: Id -> int) {
    forall i, j :: 0 <= i < j < |s| ==> key(s[i]) >= key(s[j])
  }

  /** Inserts `x` before the first element whose key does not exceed its own. */
  function InsertDesc(x: Id, s: seq<Id>, key: Id -> int): (r: seq<Id>)
    ensures |r| == |s| + 1
    ensures multiset(r) == multiset(s) + multiset{x}
    ensures forall y :: y in r <==> y == x || y in s
    decreases |s|
  {
    if |s| == 0 || key(x) >= key(s[0]) then [x] + s
    else
      assert s == [s[0]] + s[1..];
      [s[0]] + InsertDesc(x, s[1..], key)
  }

  /** Insertion sort into descending key order. */
  function SortDesc(s: seq<Id>, key: Id -> int): (r: seq<Id>)
    ensures |r| == |s|
    ensures multiset(r) == multiset(s)
    ensures forall y :: y in r <==> y in s
    decreases |s|
  {
    if |s| == 0 then []
    else
      assert s == [s[0]] + s[1..];
      InsertDesc(s[0], SortDesc(s[1..], key), key)
  }

  /** An element that bounds all of a descending sequence may go in front of it. */
  lemma DescendingCons(a: Id, s: seq<Id>, key: Id -> int)
    requires Descending(s, key)
    requires forall y :: y in s ==> key(a) >= key(y)
    ensures Descending([a] + s, key)
  {
    forall i, j | 0 <= i < j < |[a] + s|
      ensures key(([a] + s)[i]) >= key(([a] + s)[j])
    {
      if i == 0 {
        assert ([a] + s)[j] == s[j - 1];
        assert s[j - 1] in s;
      } else {
        assert ([a] + s)[i] == s[i - 1] && ([a] + s)[j] == s[j - 1];
      }
    }
  }

  /** An element not in a sequence without repetitions may go in front of it. */
  lemma DistinctCons(a: Id, s: seq<Id>)
    requires Distinct(s) && a !in s
    ensures Distinct([a] + s)
  {
    forall i, j | 0 <= i < j < |[a] + s|
      ensures ([a] + s)[i] != ([a] + s)[j]
    {
      assert ([a] + s)[j] == s[j - 1];
      assert s[j - 1] in s;
      if i > 0 {
        assert ([a] + s)[i] == s[i - 1];
      }
    }
  }

  /** Inserting into a descending sequence keeps it descending. */
  lemma {:induction false} InsertDescSorted(x: Id, s: seq<Id>, key: Id -> int)
    requires Descending(s, key)
    ensures Descending(InsertDesc(x, s, key), key)
    decreases |s|
  {
    if |s| == 0 || key(x) >= key(s[0]) {
      forall y | y in s ensures key(x) >= key(y) {
        var j :| 0 <= j < |s| && s[j] == y;
        assert j == 0 || key(s[0]) >= key(s[j]);
      }
      DescendingCons(x, s, key);
    } else {
      var tail := s[1..];
      assert Descending(tail, key) by {
        forall i, j | 0 <= i < j < |tail| ensures key(tail[i]) >= key(tail[j]) {
          assert tail[i] == s[i + 1] && tail[j] == s[j + 1];
        }
      }
      InsertDescSorted(x, tail, key);
      forall y | y in InsertDesc(x, tail, key) ensures key(s[0]) >= key(y) {
        if y != x {
          var j :| 0 <= j < |tail| && tail[j] == y;
          assert s[j + 1] == y;
        }
      }
      DescendingCons(s[0], InsertDesc(x, tail, key), key);
    }
  }

  /** Inserting a new element into a sequence without repetitions keeps it so. */
  lemma {:induction false} InsertDescDistinct(x: Id, s: seq<Id>, key: Id -> int)
    requires Distinct(s) && x !in s
    ensures Distinct(InsertDesc(x, s, key))
    decreases |s|
  {
    if |s| == 0 || key(x) >= key(s[0]) {
      DistinctCons(x, s);
    } else {
      var tail := s[1..];
      assert Distinct(tail) by {
        forall i, j | 0 <= i < j < |tail| ensures tail[i] != tail[j] {
          assert tail[i] == s[i + 1] && tail[j] == s[j + 1];
        }
      }
      InsertDescDistinct(x, tail, key);
      DistinctCons(s[0], InsertDesc(x, tail, key));
    }
  }

  /** The insertion sort yields a descending sequence. */
  lemma {:induction false} SortDescSorted(s: seq<Id>, key: Id -> int)
    ensures Descending(SortDesc(s, key), key)
    decreases |s|
  {
    if |s| > 0 {
      SortDescSorted(s[1..], key);
      InsertDescSorted(s[0], SortDesc(s[1..], key), key);
    }
  }

  /** The insertion sort of a sequence without repetitions has none. */
  lemma {:induction false} SortDescDistinct(s: seq<Id>, key: Id -> int)
    requires Distinct(s)
    ensures Distinct(SortDesc(s, key))
    decreases |s|
  {
    if |s| > 0 {
      var tail := s[1..];
      assert Distinct(tail) by {
        forall i, j | 0 <= i < j < |tail| ensures tail[i] != tail[j] {
          assert tail[i] == s[i + 1] && tail[j] == s[j + 1];
        }
      }
      SortDescDistinct(tail, key);
      InsertDescDistinct(s[0], SortDesc(tail, key), key);
    }
  }

  /** The ids below `bound` whose rows `keep` selects, in increasing order. */
  function Collect<T>(t: Table<T>, keep: T -> bool, bound: nat): (r: seq<Id>)
    ensures forall k :: k in r <==> k < bound && k in t.rows && keep(t.rows[k])
    ensures forall i, j :: 0 <= i < j < |r| ==> r[i] < r[j]
    decreases bound
  {
    if bound == 0 then []
    else
      var prefix := Collect(t, keep, bound - 1);
      var k := bound - 1;
      assert forall i :: 0 <= i < |prefix| ==> prefix[i] in prefix;
      prefix + (if k in t.rows && keep(t.rows[k]) then [k] else [])
  }

  /** The creation time of the row under `k` (0 for an id not in use). */
  function StampOf<T>(t: Table<T>, stamp: T -> Timestamp, k: Id): Timestamp {
    if k in t.rows then stamp(t.rows[k]) else 0
  }

  /**
   * Every id whose row `keep` selects, each once, ordered by `stamp`
   * descending (rows with equal stamps in no promised order).
   */
  function NewestFirst<T>(t: Table<T>, keep: T -> bool, stamp: T -> Timestamp): (r: seq<Id>)
    requires Valid(t)
    ensures forall k :: k in r <==> k in t.rows && keep(t.rows[k])
    ensures Distinct(r)
    ensures forall i, j :: 0 <= i < j < |r| ==> stamp(t.rows[r[i]]) >= stamp(t.rows[r[j]])
  {
    var ids := Collect(t, keep, t.nextId);
    var key := (k: Id) => StampOf(t, stamp, k);
    SortDescSorted(ids, key);
    SortDescDistinct(ids, key);
    var r := SortDesc(ids, key);
    assert forall i :: 0 <= i < |r| ==> r[i] in r;
    r
  }
}
