/** Values shared by every collection of the PawAdopt server model. */
module Common {

  datatype Option<+T> = None | Some(value: T)

  /** A server-assigned document identifier (a MongoDB ObjectId), kept abstract. */
  type Id = nat

  /** JavaScript truthiness of an optional string: present and non-empty. */
  predicate Truthy(s: Option<string>)
  {
    s.Some? && s.value != ""
  }

  /** `s || ""` on an optional string. */
  function OrEmpty(s: Option<string>): (r: string)
    ensures r != "" <==> Truthy(s)
  {
    if s.Some? then s.value else ""
  }

  /** A value that overrides another only when it was supplied: the per-field rule of `$set`. */
  function Override<T>(supplied: Option<T>, current: Option<T>): (r: Option<T>)
    ensures supplied.Some? ==> r == supplied
    ensures supplied.None? ==> r == current
  {
    if supplied.Some? then supplied else current
  }

  /** No two documents of `s` share a key. */
  predicate KeysDistinct<T, K(==)>(s: seq<T>, key: T -> K)
  {
    forall i, j :: 0 <= i < j < |s| ==> key(s[i]) != key(s[j])
  }

  /** Position of the first document satisfying `p`: the one `findOne`, `updateOne`
      and `deleteOne` act on when several match. */
  function FirstWhere<T>(s: seq<T>, p: T -> bool): (r: Option<nat>)
    ensures r.Some? ==> r.value < |s| && p(s[r.value])
    ensures r.Some? ==> forall k :: 0 <= k < r.value ==> !p(s[k])
    ensures r.None? ==> forall k :: 0 <= k < |s| ==> !p(s[k])
  {
    if s == [] then None
    else if p(s[0]) then Some(0)
    else match FirstWhere(s[1..], p)
      case None => None
      case Some(i) => Some(i + 1)
  }

  /** When keys are distinct, the first document with a key is the only one with it. */
  lemma {:induction false} FirstWhereKeyUnique<T, K>(s: seq<T>, key: T -> K, k: K, i: nat)
    requires KeysDistinct(s, key)
    requires i < |s| && key(s[i]) == k
    ensures FirstWhere(s, (x: T) => key(x) == k) == Some(i)
  {
    var r := FirstWhere(s, (x: T) => key(x) == k);
    assert r.Some?;
  }

  /** `s` without its element at position `i`: a `deleteOne` that matched. */
  function RemoveAt<T>(s: seq<T>, i: nat): (r: seq<T>)
    requires i < |s|
    ensures |r| == |s| - 1
    ensures forall k :: 0 <= k < i ==> r[k] == s[k]
    ensures forall k :: i <= k < |r| ==> r[k] == s[k + 1]
  {
    s[..i] + s[i + 1..]
  }

  /** Removing one document keeps keys distinct and removes nothing else. */
  lemma {:induction false} RemoveAtKeepsDistinct<T, K>(s: seq<T>, key: T -> K, i: nat)
    requires i < |s| && KeysDistinct(s, key)
    ensures KeysDistinct(RemoveAt(s, i), key)
  {
    var r := RemoveAt(s, i);
    forall a, b | 0 <= a < b < |r| ensures key(r[a]) != key(r[b]) {
      var a' := if a < i then a else a + 1;
      var b' := if b < i then b else b + 1;
      assert r[a] == s[a'] && r[b] == s[b'] && a' < b';
    }
  }

  /** `updateOne({ _id: k }, ...)`: apply `f` to the first document whose key is `k`. */
  function UpdateByKey<T, K(==)>(s: seq<T>, key: T -> K, k: K, f: T -> T): (r: seq<T>)
    ensures |r| == |s|
    ensures forall j :: 0 <= j < |s| ==> r[j] == s[j] || (key(s[j]) == k && r[j] == f(s[j]))
  {
    match FirstWhere(s, (x: T) => key(x) == k)
    case None => s
    case Some(i) => s[i := f(s[i])]
  }

  /** With distinct keys the update reaches exactly the document with key `k` and no
      other, and every key that `f` preserves stays distinct. */
  lemma {:induction false} UpdateByKeyExact<T, K, L>(s: seq<T>, key: T -> K, k: K, f: T -> T, other: T -> L)
    requires KeysDistinct(s, key)
    requires KeysDistinct(s, other)
    requires forall x :: other(f(x)) == other(x)
    ensures forall j :: 0 <= j < |s| ==>
              UpdateByKey(s, key, k, f)[j] == if key(s[j]) == k then f(s[j]) else s[j]
    ensures KeysDistinct(UpdateByKey(s, key, k, f), other)
  {
    var r := UpdateByKey(s, key, k, f);
    match FirstWhere(s, (x: T) => key(x) == k)
    case None =>
    case Some(i) =>
      forall j | 0 <= j < |s| && key(s[j]) == k ensures j == i {
        assert key(s[j]) == key(s[i]);
      }
      forall a, b | 0 <= a < b < |r| ensures other(r[a]) != other(r[b]) {
        assert other(r[a]) == other(s[a]) && other(r[b]) == other(s[b]);
      }
  }

  /** `deleteOne({ _id: k })`: remove the first document whose key is `k`. */
  function DeleteByKey<T, K(==)>(s: seq<T>, key: T -> K, k: K): (r: seq<T>)
    ensures |s| - 1 <= |r| <= |s|
    ensures forall x :: x in r ==> x in s
    ensures forall x :: x in s && key(x) != k ==> x in r
  {
    match FirstWhere(s, (x: T) => key(x) == k)
    case None => s
    case Some(i) =>
      assert forall x :: x in RemoveAt(s, i) ==> x in s by {
        forall x | x in RemoveAt(s, i) ensures x in s {
          var j :| 0 <= j < |RemoveAt(s, i)| && RemoveAt(s, i)[j] == x;
          assert x == s[if j < i then j else j + 1];
        }
      }
      assert forall x :: x in s && key(x) != k ==> x in RemoveAt(s, i) by {
        forall x | x in s && key(x) != k ensures x in RemoveAt(s, i) {
          var j :| 0 <= j < |s| && s[j] == x;
          assert x == RemoveAt(s, i)[if j < i then j else j - 1];
        }
      }
      RemoveAt(s, i)
  }

  /** With distinct keys the delete removes exactly the document with key `k`, keeps
      every other document in order, and leaves every distinct key distinct. */
  lemma {:induction false} DeleteByKeyExact<T, K, L>(s: seq<T>, key: T -> K, k: K, other: T -> L)
    requires KeysDistinct(s, key)
    requires KeysDistinct(s, other)
    ensures forall x :: x in DeleteByKey(s, key, k) <==> x in s && key(x) != k
    ensures KeysDistinct(DeleteByKey(s, key, k), other)
    ensures (forall j :: 0 <= j < |s| ==> key(s[j]) != k) ==> DeleteByKey(s, key, k) == s
    ensures forall j :: 0 <= j < |s| && key(s[j]) == k ==> DeleteByKey(s, key, k) == RemoveAt(s, j)
  {
    var r := DeleteByKey(s, key, k);
    match FirstWhere(s, (x: T) => key(x) == k)
    case None =>
    case Some(i) =>
      RemoveAtKeepsDistinct(s, other, i);
      forall j | 0 <= j < |s| && key(s[j]) == k ensures j == i {
        assert key(s[j]) == key(s[i]);
      }
      forall x | x in r ensures key(x) != k {
        var j :| 0 <= j < |r| && r[j] == x;
        var j' := if j < i then j else j + 1;
        assert x == s[j'] && j' != i;
        assert key(s[j']) != key(s[i]);
      }
  }
}
