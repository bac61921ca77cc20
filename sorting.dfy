/**
 * Ordering records by a string key, as Python's `sorted(paths)` and pandas'
 * `sort_values(column)` do: ascending by code point, no record lost or added.
 */
module Sorting {
  import opened Text

  predicate SortedBy<T>(s: seq<T>, key: T -> string) {
    forall i, j | 0 <= i < j < |s| :: LexLe(key(s[i]), key(s[j]))
  }

  /** Every element of s has a key no smaller than k. */
  predicate AllAtLeast<T>(k: string, s: seq<T>, key: T -> string) {
    forall i | 0 <= i < |s| :: LexLe(k, key(s[i]))
  }

  function Insert<T>(x: T, s: seq<T>, key: T -> string): (r: seq<T>)
    ensures |r| == |s| + 1
    ensures multiset(r) == multiset(s) + multiset{x}
  {
    if s == [] then [x]
    else if LexLe(key(x), key(s[0])) then [x] + s
    else
      assert s == [s[0]] + s[1..];
      [s[0]] + Insert(x, s[1..], key)
  }

  lemma {:induction false} InsertKeepsBound<T>(k: string, x: T, s: seq<T>, key: T -> string)
    requires AllAtLeast(k, s, key) && LexLe(k, key(x))
    ensures AllAtLeast(k, Insert(x, s, key), key)
  {
    var r := Insert(x, s, key);
    forall i | 0 <= i < |r| ensures LexLe(k, key(r[i])) {
      assert r[i] in multiset(r);
      assert r[i] == x || r[i] in multiset(s);
      if r[i] != x {
        var j :| 0 <= j < |s| && s[j] == r[i];
      }
    }
  }

  lemma {:induction false} InsertSorted<T>(x: T, s: seq<T>, key: T -> string)
    requires SortedBy(s, key)
    ensures SortedBy(Insert(x, s, key), key)
  {
    if s != [] && !LexLe(key(x), key(s[0])) {
      InsertSorted(x, s[1..], key);
      LexLeTotal(key(x), key(s[0]));
      InsertKeepsBound(key(s[0]), x, s[1..], key);
    } else if s != [] {
      forall j | 0 <= j < |s| ensures LexLe(key(x), key(s[j])) {
        if j > 0 {
          LexLeTransitive(key(x), key(s[0]), key(s[j]));
        }
      }
    }
  }

  /** Insertion sort by key. */
  function SortBy<T>(s: seq<T>, key: T -> string): (r: seq<T>)
    ensures |r| == |s|
    ensures multiset(r) == multiset(s)
  {
    if s == [] then []
    else
      assert s == [s[0]] + s[1..];
      Insert(s[0], SortBy(s[1..], key), key)
  }

  /** The result is in ascending key order. */
  lemma {:induction false} SortBySorted<T>(s: seq<T>, key: T -> string)
    ensures SortedBy(SortBy(s, key), key)
  {
    if s != [] {
      SortBySorted(s[1..], key);
      InsertSorted(s[0], SortBy(s[1..], key), key);
    }
  }
}
