/** `Array.prototype.sort` with a numeric comparator `(a, b) => key(a) - key(b)`.
    The language requires the sort to be stable, so the result is fixed by
    the input: sorted by key, a permutation of the input, and elements with
    equal keys in their original order. A descending comparator
    `key(b) - key(a)` is the same sort on the negated key. */
module Sorting {

  predicate SortedBy<T>(s: seq<T>, key: T -> int) {
    forall i, j :: 0 <= i < j < |s| ==> key(s[i]) <= key(s[j])
  }

  /** The elements of `s` whose key is `k`, in their order in `s`. */
  function WithKey<T>(s: seq<T>, key: T -> int, k: int): seq<T> {
    if |s| == 0 then []
    else (if key(s[0]) == k then [s[0]] else []) + WithKey(s[1..], key, k)
  }

  /** Insertion of `x` before the first element whose key is not smaller
      than its own (so `x` precedes its equals). */
  function Insert<T(==)>(x: T, s: seq<T>, key: T -> int): (r: seq<T>)
    ensures |r| == |s| + 1
    ensures multiset(r) == multiset(s) + multiset{x}
  {
    if |s| == 0 || key(x) <= key(s[0]) then [x] + s
    else
      assert s == [s[0]] + s[1..];
      [s[0]] + Insert(x, s[1..], key)
  }

  lemma {:induction false} InsertLowerBound<T>(x: T, s: seq<T>, key: T -> int, b: int)
    requires b <= key(x)
    requires forall i :: 0 <= i < |s| ==> b <= key(s[i])
    ensures forall i :: 0 <= i < |s| + 1 ==> b <= key(Insert(x, s, key)[i])
  {
    if |s| > 0 && key(x) > key(s[0]) {
      InsertLowerBound(x, s[1..], key, b);
    }
  }

  /** Inserting into a sorted sequence keeps it sorted. */
  lemma {:induction false} InsertSorted<T>(x: T, s: seq<T>, key: T -> int)
    requires SortedBy(s, key)
    ensures SortedBy(Insert(x, s, key), key)
  {
    if |s| > 0 && key(x) > key(s[0]) {
      InsertSorted(x, s[1..], key);
      InsertLowerBound(x, s[1..], key, key(s[0]));
    }
  }

  /** Among the elements with one key, `x` lands first and the others keep
      their order. */
  lemma {:induction false} InsertWithKey<T>(x: T, s: seq<T>, key: T -> int, k: int)
    requires SortedBy(s, key)
    ensures WithKey(Insert(x, s, key), key, k) == (if key(x) == k then [x] else []) + WithKey(s, key, k)
  {
    var r := Insert(x, s, key);
    if |s| == 0 || key(x) <= key(s[0]) {
      assert r[0] == x && r[1..] == s;
    } else {
      InsertWithKey(x, s[1..], key, k);
      assert r[0] == s[0] && r[1..] == Insert(x, s[1..], key);
      var head := if key(s[0]) == k then [s[0]] else [];
      var mine := if key(x) == k then [x] else [];
      assert WithKey(r, key, k) == head + (mine + WithKey(s[1..], key, k));
      assert WithKey(s, key, k) == head + WithKey(s[1..], key, k);
      assert head == [] || mine == [];
    }
  }

  /** The stable sort by ascending key. */
  function SortBy<T(==)>(s: seq<T>, key: T -> int): (r: seq<T>)
    ensures SortedBy(r, key)
    ensures multiset(r) == multiset(s)
    ensures forall k :: WithKey(r, key, k) == WithKey(s, key, k)
  {
    if |s| == 0 then []
    else
      var t := SortBy(s[1..], key);
      var r := Insert(s[0], t, key);
      assert s == [s[0]] + s[1..];
      InsertSorted(s[0], t, key);
      assert forall k :: WithKey(r, key, k) == WithKey(s, key, k) by {
        forall k ensures WithKey(r, key, k) == WithKey(s, key, k) {
          InsertWithKey(s[0], t, key, k);
        }
      }
      r
  }

  /** A sequence already in key order is left as it is. */
  lemma {:induction false} SortSorted<T>(s: seq<T>, key: T -> int)
    requires SortedBy(s, key)
    ensures SortBy(s, key) == s
  {
    if |s| > 0 {
      SortSorted(s[1..], key);
      assert SortBy(s[1..], key) == s[1..];
    }
  }

  /** Sorting twice is sorting once. */
  lemma SortIdempotent<T>(s: seq<T>, key: T -> int)
    ensures SortBy(SortBy(s, key), key) == SortBy(s, key)
  {
    SortSorted(SortBy(s, key), key);
  }
}
