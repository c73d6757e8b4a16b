/** `Array.prototype.sort` with a comparator, as the application uses it: the sort is
    stable (ECMAScript 2019) and every comparator in the source compares one or two
    integer fields. Such a comparator is a `Key` extracted from each element, compared
    lexicographically; sorting by a field descending is sorting by its negation. */
module Sorting {

  datatype Key = Key(major: int, minor: int)

  /** Lexicographic order on keys. */
  predicate KeyLe(a: Key, b: Key) {
    a.major < b.major || (a.major == b.major && a.minor <= b.minor)
  }

  predicate Sorted<T>(s: seq<T>, key: T -> Key) {
    forall i, j :: 0 <= i < j < |s| ==> KeyLe(key(s[i]), key(s[j]))
  }

  /** The elements of `s` whose key is `k`, in their order in `s`. A sort is stable
      exactly when it leaves this subsequence unchanged for every key. */
  function KeepKey<T>(s: seq<T>, key: T -> Key, k: Key): (r: seq<T>)
    ensures |r| <= |s|
  {
    if |s| == 0 then []
    else (if key(s[0]) == k then [s[0]] else []) + KeepKey(s[1..], key, k)
  }

  /** Places `x` in front of the first element whose key is not below its own. */
  function Insert<T>(x: T, s: seq<T>, key: T -> Key): (r: seq<T>)
    ensures multiset(r) == multiset(s) + multiset{x}
  {
    if |s| == 0 || KeyLe(key(x), key(s[0])) then [x] + s
    else
      assert s == [s[0]] + s[1..];
      [s[0]] + Insert(x, s[1..], key)
  }

  lemma {:induction false} InsertSorted<T>(x: T, s: seq<T>, key: T -> Key)
    requires Sorted(s, key)
    ensures Sorted(Insert(x, s, key), key)
  {
    if |s| == 0 || KeyLe(key(x), key(s[0])) {
      forall j | 0 <= j < |s| ensures KeyLe(key(x), key(s[j])) {
        assert j == 0 || KeyLe(key(s[0]), key(s[j]));
      }
      PrependSorted(x, s, key);
    } else {
      var t := Insert(x, s[1..], key);
      InsertSorted(x, s[1..], key);
      HeadBelowInsert(x, s, key);
      PrependSorted(s[0], t, key);
    }
  }

  /** An element at or below every key of a sorted list keeps it sorted in front. */
  lemma PrependSorted<T>(y: T, t: seq<T>, key: T -> Key)
    requires Sorted(t, key)
    requires forall j :: 0 <= j < |t| ==> KeyLe(key(y), key(t[j]))
    ensures Sorted([y] + t, key)
  {
    var r := [y] + t;
    forall i, j | 0 <= i < j < |r| ensures KeyLe(key(r[i]), key(r[j])) {
      assert r[j] == t[j - 1];
      if i > 0 {
        assert r[i] == t[i - 1];
      }
    }
  }

  /** When `x` goes past the head, the head stays at or below everything after it. */
  lemma HeadBelowInsert<T>(x: T, s: seq<T>, key: T -> Key)
    requires Sorted(s, key) && |s| > 0 && !KeyLe(key(x), key(s[0]))
    ensures forall j :: 0 <= j < |Insert(x, s[1..], key)| ==> KeyLe(key(s[0]), key(Insert(x, s[1..], key)[j]))
  {
    var t := Insert(x, s[1..], key);
    forall j | 0 <= j < |t| ensures KeyLe(key(s[0]), key(t[j])) {
      assert t[j] in multiset(t);
      if t[j] != x {
        assert t[j] in multiset(s[1..]);
        var m :| 0 <= m < |s[1..]| && s[1..][m] == t[j];
        assert s[m + 1] == t[j];
      }
    }
  }

  lemma {:induction false} InsertKeepKey<T>(x: T, s: seq<T>, key: T -> Key, k: Key)
    ensures KeepKey(Insert(x, s, key), key, k)
         == if key(x) == k then [x] + KeepKey(s, key, k) else KeepKey(s, key, k)
  {
    if |s| == 0 || KeyLe(key(x), key(s[0])) {
      assert ([x] + s)[1..] == s;
    } else {
      var t := Insert(x, s[1..], key);
      InsertKeepKey(x, s[1..], key, k);
      assert ([s[0]] + t)[1..] == t;
      assert key(s[0]) != key(x);
    }
  }

  /** The stable sort: ordered by key, a permutation of the input, and elements with
      equal keys keep their input order. */
  function SortBy<T>(s: seq<T>, key: T -> Key): (r: seq<T>)
    ensures multiset(r) == multiset(s)
    ensures |r| == |s|
    ensures Sorted(r, key)
    ensures forall k :: KeepKey(r, key, k) == KeepKey(s, key, k)
  {
    if |s| == 0 then []
    else
      assert s == [s[0]] + s[1..];
      var t := SortBy(s[1..], key);
      var r := Insert(s[0], t, key);
      InsertSorted(s[0], t, key);
      assert forall k :: KeepKey(r, key, k) == KeepKey(s, key, k) by {
        forall k ensures KeepKey(r, key, k) == KeepKey(s, key, k) {
          InsertKeepKey(s[0], t, key, k);
        }
      }
      assert |r| == |multiset(r)|;
      r
  }
}
