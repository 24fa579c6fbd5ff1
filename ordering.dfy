/** `.sort({ createdAt: -1 })`: newest first. */
module Ordering {
  import opened Paging

  /** Keys never increase from front to back. */
  predicate SortedDesc<T>(s: seq<T>, key: T -> int)
  {
    forall i, j :: 0 <= i < j < |s| ==> key(s[i]) >= key(s[j])
  }

  /** Places `x` in front of the first document whose key is not larger; among equal
      keys the earlier document stays in front. */
  function Insert<T(==)>(x: T, s: seq<T>, key: T -> int): (r: seq<T>)
    ensures multiset(r) == multiset(s) + multiset{x}
    ensures |r| == |s| + 1
    ensures r[0] == x || (s != [] && r[0] == s[0])
  {
    if s == [] || key(s[0]) <= key(x) then
      [x] + s
    else
      assert s == [s[0]] + s[1..];
      [s[0]] + Insert(x, s[1..], key)
  }

  /** Inserting into a newest-first sequence keeps it newest first. */
  lemma {:induction false} InsertSorted<T>(x: T, s: seq<T>, key: T -> int)
    requires SortedDesc(s, key)
    ensures SortedDesc(Insert(x, s, key), key)
  {
    if s == [] || key(s[0]) <= key(x) {
      PrependSorted(x, s, key);
    } else {
      SortedTail(s, key);
      var rest := Insert(x, s[1..], key);
      InsertSorted(x, s[1..], key);
      PrependSorted(s[0], rest, key);
    }
  }

  /** The tail of a sorted sequence is sorted, and its head is no larger than the
      sequence's head. */
  lemma {:induction false} SortedTail<T>(s: seq<T>, key: T -> int)
    requires s != [] && SortedDesc(s, key)
    ensures SortedDesc(s[1..], key)
    ensures s[1..] != [] ==> key(s[0]) >= key(s[1..][0])
  {
    var tail := s[1..];
    forall i, j | 0 <= i < j < |tail| ensures key(tail[i]) >= key(tail[j]) {
      assert tail[i] == s[i + 1] && tail[j] == s[j + 1];
    }
  }

  /** A document whose key is at least that of the head of a sorted sequence can go in
      front of it. */
  lemma {:induction false} PrependSorted<T>(y: T, s: seq<T>, key: T -> int)
    requires SortedDesc(s, key) && (s == [] || key(y) >= key(s[0]))
    ensures SortedDesc([y] + s, key)
  {
    var r := [y] + s;
    forall i, j | 0 <= i < j < |r| ensures key(r[i]) >= key(r[j]) {
      if i == 0 && j > 1 {
        assert key(s[0]) >= key(s[j - 1]);
      }
    }
  }

  /** The documents of `s` ordered by descending key (a stable insertion sort). */
  function SortDesc<T(==)>(s: seq<T>, key: T -> int): (r: seq<T>)
    ensures SortedDesc(r, key)
    ensures multiset(r) == multiset(s)
    ensures |r| == |s|
  {
    if s == [] then []
    else
      assert s == [s[0]] + s[1..];
      var rest := SortDesc(s[1..], key);
      InsertSorted(s[0], rest, key);
      Insert(s[0], rest, key)
  }

  /** Sorting neither adds nor loses a document. */
  lemma {:induction false} SortKeepsMembers<T>(s: seq<T>, key: T -> int, x: T)
    ensures x in SortDesc(s, key) <==> x in s
  {
    assert x in SortDesc(s, key) <==> x in multiset(SortDesc(s, key));
    assert x in s <==> x in multiset(s);
  }

  /** A page cut from a sorted sequence is sorted and holds only its documents. */
  lemma {:induction false} SliceOfSorted<T>(s: seq<T>, w: Window, key: T -> int)
    requires SortedDesc(s, key)
    ensures SortedDesc(Slice(s, w), key)
    ensures forall x :: x in Slice(s, w) ==> x in s
  {
    var r := Slice(s, w);
    forall i, j | 0 <= i < j < |r| ensures key(r[i]) >= key(r[j]) {
      assert r[i] == s[w.skip + i] && r[j] == s[w.skip + j];
    }
    forall x | x in r ensures x in s {
      var k :| 0 <= k < |r| && r[k] == x;
      assert x == s[w.skip + k];
    }
  }
}
