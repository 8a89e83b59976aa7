/**
 * Shared result types, powers of two and filters, and the stable sort the TypeScript runtime
 * supplies.
 */
module Prelude {

  /** A value that may be absent: TypeScript's `T | null` and `T | undefined`. */
  datatype Option<+T> = None | Some(value: T)

  /** The outcome of code that may throw: its value, or the exception. */
  datatype Result<+T> = Ok(value: T) | Thrown {
    predicate IsFailure() { Thrown? }

    function PropagateFailure<U>(): Result<U>
      requires Thrown?
    {
      Thrown
    }

    function Extract(): T
      requires Ok?
    {
      value
    }
  }

  function Min(a: int, b: int): int { if a < b then a else b }

  function Max(a: int, b: int): int { if a < b then b else a }

  function Pow2(n: nat): (r: nat)
    ensures r >= 1
  {
    if n == 0 then 1 else 2 * Pow2(n - 1)
  }

  /** The elements of `s` that satisfy `keep`, in order. */
  function Filter<T>(keep: T -> bool, s: seq<T>): seq<T> {
    if s == [] then [] else (if keep(s[0]) then [s[0]] else []) + Filter(keep, s[1..])
  }

  /** The indices below `n` that satisfy `keep`, ascending. */
  function IndicesBelow(keep: nat -> bool, n: nat): (r: seq<nat>)
    ensures forall k :: 0 <= k < |r| ==> r[k] < n && keep(r[k])
    ensures forall i: nat :: i < n && keep(i) ==> i in r
    ensures Ascending(r)
  {
    if n == 0 then []
    else IndicesBelow(keep, n - 1) + (if keep(n - 1) then [n - 1] else [])
  }

  ghost predicate Ascending(s: seq<nat>) {
    forall j, k :: 0 <= j < k < |s| ==> s[j] < s[k]
  }
}

/** JavaScript's `Array.prototype.sort` with a numeric comparator: stable, as ES2019 requires. */
module StableSorting {
  import opened Prelude

  ghost predicate SortedBy<T>(key: T -> int, s: seq<T>) {
    forall j, k :: 0 <= j < k < |s| ==> key(s[j]) <= key(s[k])
  }

  /** `x` inserted ahead of the first element whose key is not smaller. */
  function InsertBy<T>(key: T -> int, x: T, s: seq<T>): seq<T> {
    if s == [] || key(x) <= key(s[0]) then [x] + s else [s[0]] + InsertBy(key, x, s[1..])
  }

  function StableSort<T>(key: T -> int, s: seq<T>): seq<T> {
    if s == [] then [] else InsertBy(key, s[0], StableSort(key, s[1..]))
  }

  /** The elements with key exactly `k`, in order: what stability preserves. */
  function WithKey<T>(key: T -> int, k: int, s: seq<T>): seq<T> {
    if s == [] then [] else (if key(s[0]) == k then [s[0]] else []) + WithKey(key, k, s[1..])
  }

  lemma {:induction false} InsertByPermutes<T>(key: T -> int, x: T, s: seq<T>)
    ensures multiset(InsertBy(key, x, s)) == multiset(s) + multiset{x}
  {
    if s == [] || key(x) <= key(s[0]) {
    } else {
      InsertByPermutes(key, x, s[1..]);
      assert s == [s[0]] + s[1..];
    }
  }

  lemma {:induction false} InsertBySorted<T>(key: T -> int, x: T, s: seq<T>)
    requires SortedBy(key, s)
    ensures SortedBy(key, InsertBy(key, x, s))
    ensures |InsertBy(key, x, s)| == |s| + 1
  {
    if s == [] || key(x) <= key(s[0]) {
    } else {
      var t := InsertBy(key, x, s[1..]);
      InsertBySorted(key, x, s[1..]);
      assert t[0] == x || t[0] == s[1];
      assert key(s[0]) <= key(t[0]);
    }
  }

  lemma {:induction false} InsertByWithKey<T>(key: T -> int, x: T, s: seq<T>, k: int)
    requires SortedBy(key, s)
    ensures WithKey(key, k, InsertBy(key, x, s)) == (if key(x) == k then [x] else []) + WithKey(key, k, s)
  {
    if s == [] || key(x) <= key(s[0]) {
      assert ([x] + s)[1..] == s;
    } else {
      InsertByWithKey(key, x, s[1..], k);
      assert ([s[0]] + InsertBy(key, x, s[1..]))[1..] == InsertBy(key, x, s[1..]);
      if key(x) == k {
        NoSmallerKey(key, k, s);
      }
    }
  }

  /** Sorted input whose head is below `k` puts nothing with key `k` at the head. */
  lemma NoSmallerKey<T>(key: T -> int, k: int, s: seq<T>)
    requires s != [] && key(s[0]) < k
    ensures WithKey(key, k, s) == WithKey(key, k, s[1..])
  {
  }

  /** Sorting sorts, permutes, and keeps equal-key elements in their original order. */
  lemma {:induction false} StableSortCorrect<T>(key: T -> int, s: seq<T>)
    ensures SortedBy(key, StableSort(key, s))
    ensures multiset(StableSort(key, s)) == multiset(s)
    ensures |StableSort(key, s)| == |s|
    ensures forall k :: WithKey(key, k, StableSort(key, s)) == WithKey(key, k, s)
  {
    if s == [] {
    } else {
      StableSortCorrect(key, s[1..]);
      InsertBySorted(key, s[0], StableSort(key, s[1..]));
      InsertByPermutes(key, s[0], StableSort(key, s[1..]));
      assert s == [s[0]] + s[1..];
      forall k ensures WithKey(key, k, StableSort(key, s)) == WithKey(key, k, s) {
        InsertByWithKey(key, s[0], StableSort(key, s[1..]), k);
      }
    }
  }
}
