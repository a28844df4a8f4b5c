/**
 * The ordering service the engine uses in three places: candidate nodes by
 * position (ascending), pending changes by position (descending) and
 * potential parent routes by position. `Array.prototype.sort` with a numeric
 * comparator is modelled as a stable insertion sort on an integer key:
 * `SortBy` is the specification, `SortInPlace` the in-place algorithm.
 */
module Sorting {

  ghost predicate SortedBy<T>(s: seq<T>, key: T -> int)
  {
    forall i, j :: 0 <= i < j < |s| ==> key(s[i]) <= key(s[j])
  }

  /** Inserts `x` into a sorted sequence, after every element with an equal key. */
  function InsertBy<T>(sorted: seq<T>, x: T, key: T -> int): seq<T>
  {
    if sorted == [] then [x]
    else if key(sorted[|sorted| - 1]) > key(x) then
      InsertBy(sorted[..|sorted| - 1], x, key) + [sorted[|sorted| - 1]]
    else sorted + [x]
  }

  /** Stable insertion sort by `key`. */
  function SortBy<T>(s: seq<T>, key: T -> int): seq<T>
  {
    if s == [] then [] else InsertBy(SortBy(s[..|s| - 1], key), s[|s| - 1], key)
  }

  lemma SortedAppend<T>(s: seq<T>, x: T, key: T -> int)
    requires SortedBy(s, key)
    requires forall k :: 0 <= k < |s| ==> key(s[k]) <= key(x)
    ensures SortedBy(s + [x], key)
  {
    var t := s + [x];
    forall i, j | 0 <= i < j < |t| ensures key(t[i]) <= key(t[j]) {
      if j == |s| {
        assert t[i] == s[i];
      } else {
        assert t[i] == s[i] && t[j] == s[j];
      }
    }
  }

  /** Inserting adds exactly `x` to the elements. */
  lemma {:induction false} InsertByPermutes<T>(sorted: seq<T>, x: T, key: T -> int)
    ensures multiset(InsertBy(sorted, x, key)) == multiset(sorted) + multiset{x}
    decreases |sorted|
  {
    if sorted != [] {
      var n := |sorted| - 1;
      assert sorted == sorted[..n] + [sorted[n]];
      if key(sorted[n]) > key(x) {
        InsertByPermutes(sorted[..n], x, key);
      }
    }
  }

  /** Inserting keeps every key below a bound that `x` and the elements respect. */
  lemma {:induction false} InsertByBounded<T>(sorted: seq<T>, x: T, key: T -> int, bound: int)
    requires forall k :: 0 <= k < |sorted| ==> key(sorted[k]) <= bound
    requires key(x) <= bound
    ensures forall k :: 0 <= k < |InsertBy(sorted, x, key)| ==> key(InsertBy(sorted, x, key)[k]) <= bound
    decreases |sorted|
  {
    if sorted != [] {
      var n := |sorted| - 1;
      if key(sorted[n]) > key(x) {
        InsertByBounded(sorted[..n], x, key, bound);
      }
    }
  }

  /** Inserting adds exactly one element. */
  lemma {:induction false} InsertByLength<T>(sorted: seq<T>, x: T, key: T -> int)
    ensures |InsertBy(sorted, x, key)| == |sorted| + 1
    decreases |sorted|
  {
    if sorted != [] && key(sorted[|sorted| - 1]) > key(x) {
      InsertByLength(sorted[..|sorted| - 1], x, key);
    }
  }

  lemma {:induction false} InsertByCorrect<T>(sorted: seq<T>, x: T, key: T -> int)
    requires SortedBy(sorted, key)
    ensures SortedBy(InsertBy(sorted, x, key), key)
    ensures multiset(InsertBy(sorted, x, key)) == multiset(sorted) + multiset{x}
    decreases |sorted|
  {
    InsertByPermutes(sorted, x, key);
    if sorted != [] {
      var n := |sorted| - 1;
      var last := sorted[n];
      var prefix := sorted[..n];
      if key(last) > key(x) {
        InsertByCorrect(prefix, x, key);
        var ins := InsertBy(prefix, x, key);
        forall k | 0 <= k < |prefix| ensures key(prefix[k]) <= key(last) {
          assert prefix[k] == sorted[k];
        }
        InsertByBounded(prefix, x, key, key(last));
        SortedAppend(ins, last, key);
      } else {
        forall k | 0 <= k < |sorted| ensures key(sorted[k]) <= key(x) {
          assert k == n || key(sorted[k]) <= key(sorted[n]);
        }
        SortedAppend(sorted, x, key);
      }
    }
  }

  /** `SortBy` returns a permutation of its input in non-decreasing key order. */
  lemma {:induction false} SortByCorrect<T>(s: seq<T>, key: T -> int)
    ensures SortedBy(SortBy(s, key), key)
    ensures multiset(SortBy(s, key)) == multiset(s)
    ensures |SortBy(s, key)| == |s|
  {
    if s != [] {
      var n := |s| - 1;
      var prefix := s[..n];
      SortByCorrect(prefix, key);
      var sorted := SortBy(prefix, key);
      assert SortBy(s, key) == InsertBy(sorted, s[n], key);
      InsertByCorrect(sorted, s[n], key);
      InsertByLength(sorted, s[n], key);
      assert s == prefix + [s[n]];
      assert multiset(s) == multiset(prefix) + multiset{s[n]};
    }
  }

  /** After sorting, the last element carries the largest key of the input. */
  lemma SortByLastIsMax<T>(s: seq<T>, key: T -> int)
    requires s != []
    ensures |SortBy(s, key)| == |s|
    ensures SortBy(s, key)[|s| - 1] in s
    ensures forall x :: x in s ==> key(x) <= key(SortBy(s, key)[|s| - 1])
  {
    SortByCorrect(s, key);
    var t := SortBy(s, key);
    assert t[|s| - 1] in multiset(t);
    forall x | x in s ensures key(x) <= key(t[|s| - 1]) {
      assert x in multiset(t);
      var i :| 0 <= i < |t| && t[i] == x;
    }
  }

  /** After sorting, the first element carries the smallest key of the input. */
  lemma SortByFirstIsMin<T>(s: seq<T>, key: T -> int)
    requires s != []
    ensures |SortBy(s, key)| == |s|
    ensures SortBy(s, key)[0] in s
    ensures forall x :: x in s ==> key(SortBy(s, key)[0]) <= key(x)
  {
    SortByCorrect(s, key);
    var t := SortBy(s, key);
    assert t[0] in multiset(t);
    forall x | x in s ensures key(t[0]) <= key(x) {
      assert x in multiset(t);
      var i :| 0 <= i < |t| && t[i] == x;
    }
  }

  /** Insertion sort in place: the array ends up as `SortBy` of its old contents. */
  method SortInPlace<T>(a: array<T>, key: T -> int)
    modifies a
    ensures a[..] == SortBy(old(a[..]), key)
  {
    ghost var orig := a[..];
    var i := 0;
    while i < a.Length
      invariant 0 <= i <= a.Length
      invariant a[..i] == SortBy(orig[..i], key)
      invariant a[i..] == orig[i..]
    {
      assert a[i] == orig[i];
      InsertLast(a, i, key);
      assert orig[..i + 1][..i] == orig[..i];
      i := i + 1;
    }
    assert a[..] == a[..a.Length] && orig == orig[..a.Length];
  }

  /** One swap of `InsertLast` keeps the pending insertion result unchanged. */
  lemma SwapStep<T>(b: seq<T>, j: nat, i: nat, x: T, key: T -> int)
    requires 0 < j <= i < |b| && b[j] == x && key(b[j - 1]) > key(x)
    ensures InsertBy(b[..j], x, key) + b[j + 1..i + 1]
         == InsertBy(b[j - 1 := x][j := b[j - 1]][..j - 1], x, key) + b[j - 1 := x][j := b[j - 1]][j..i + 1]
  {
    var c := b[j - 1 := x][j := b[j - 1]];
    assert b[..j][..j - 1] == b[..j - 1];
    assert InsertBy(b[..j], x, key) == InsertBy(b[..j - 1], x, key) + [b[j - 1]];
    assert c[..j - 1] == b[..j - 1];
    assert c[j..i + 1] == [b[j - 1]] + b[j + 1..i + 1];
  }

  /** Moves `a[i]` down into the sorted prefix `a[..i]`, one swap at a time. */
  method InsertLast<T>(a: array<T>, i: nat, key: T -> int)
    requires i < a.Length
    modifies a
    ensures a[..i + 1] == InsertBy(old(a[..i]), old(a[i]), key)
    ensures a[i + 1..] == old(a[i + 1..])
  {
    var x := a[i];
    ghost var target := InsertBy(a[..i], x, key);
    var j := i;
    while j > 0 && key(a[j - 1]) > key(x)
      invariant 0 <= j <= i
      invariant a[j] == x
      invariant a[i + 1..] == old(a[i + 1..])
      invariant target == InsertBy(a[..j], x, key) + a[j + 1..i + 1]
    {
      ghost var before := a[..];
      SwapStep(before, j, i, x, key);
      a[j - 1], a[j] := a[j], a[j - 1];
      assert a[..] == before[j - 1 := x][j := before[j - 1]];
      j := j - 1;
    }
    assert a[..i + 1] == a[..j] + [x] + a[j + 1..i + 1];
  }
}
