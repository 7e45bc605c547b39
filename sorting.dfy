/**
 * Python's `list.sort(key=...)` and `sorted(..., key=...)` on an integer key:
 * a stable sort. `SortByKey` is the reference definition (insertion from the
 * back, so equal keys keep their order); `SortInPlace` is the in-place version
 * that `msgs.sort(...)` performs on a conversation's message list.
 */
module Sorting {

  predicate SortedBy<T>(key: T -> int, s: seq<T>) {
    forall i, j :: 0 <= i < j < |s| ==> key(s[i]) <= key(s[j])
  }

  /** Inserts `x` after every element of `s` whose key is at most `key(x)`, scanning from the back. */
  function Insert<T>(key: T -> int, x: T, s: seq<T>): (r: seq<T>)
    ensures |r| == |s| + 1
  {
    if s == [] then [x]
    else if key(s[|s| - 1]) > key(x) then Insert(key, x, s[..|s| - 1]) + [s[|s| - 1]]
    else s + [x]
  }

  function SortByKey<T>(key: T -> int, s: seq<T>): (r: seq<T>)
    ensures |r| == |s|
  {
    if s == [] then [] else Insert(key, s[|s| - 1], SortByKey(key, s[..|s| - 1]))
  }

  /** The elements of `s` whose key is `k`, in their order in `s`. */
  function WithKey<T>(key: T -> int, s: seq<T>, k: int): seq<T> {
    if s == [] then []
    else WithKey(key, s[..|s| - 1], k) + (if key(s[|s| - 1]) == k then [s[|s| - 1]] else [])
  }

  lemma {:induction false} InsertCount<T>(key: T -> int, x: T, s: seq<T>)
    ensures multiset(Insert(key, x, s)) == multiset(s) + multiset{x}
  {
    if s != [] && key(s[|s| - 1]) > key(x) {
      InsertCount(key, x, s[..|s| - 1]);
      assert s == s[..|s| - 1] + [s[|s| - 1]];
    }
  }

  lemma {:induction false} InsertSorted<T>(key: T -> int, x: T, s: seq<T>)
    requires SortedBy(key, s)
    ensures SortedBy(key, Insert(key, x, s))
  {
    if s != [] && key(s[|s| - 1]) > key(x) {
      var init, last := s[..|s| - 1], s[|s| - 1];
      InsertSorted(key, x, init);
      InsertCount(key, x, init);
      var ins := Insert(key, x, init);
      forall i | 0 <= i < |ins|
        ensures key(ins[i]) <= key(last)
      {
        assert ins[i] in multiset(ins);
        assert ins[i] in multiset(init) || ins[i] == x;
        if ins[i] != x {
          var j :| 0 <= j < |init| && init[j] == ins[i];
        }
      }
    }
  }

  lemma WithKeySnoc<T>(key: T -> int, s: seq<T>, y: T, k: int)
    ensures WithKey(key, s + [y], k) == WithKey(key, s, k) + (if key(y) == k then [y] else [])
  {
    assert (s + [y])[..|s + [y]| - 1] == s;
  }

  /** Inserting `x` adds it after the elements with its own key and leaves every other key's order alone. */
  lemma {:induction false} InsertWithKey<T>(key: T -> int, x: T, s: seq<T>, k: int)
    ensures WithKey(key, Insert(key, x, s), k) == WithKey(key, s, k) + (if key(x) == k then [x] else [])
  {
    if s == [] {
      WithKeySnoc(key, [], x, k);
    } else if key(s[|s| - 1]) > key(x) {
      var init, last := s[..|s| - 1], s[|s| - 1];
      var ins := Insert(key, x, init);
      assert Insert(key, x, s) == ins + [last];
      InsertWithKey(key, x, init, k);
      WithKeySnoc(key, ins, last, k);
      WithKeySnoc(key, init, last, k);
      assert s == init + [last];
    } else {
      WithKeySnoc(key, s, x, k);
    }
  }

  /** The stable sort is sorted. */
  lemma {:induction false} SortByKeySorted<T>(key: T -> int, s: seq<T>)
    ensures SortedBy(key, SortByKey(key, s))
  {
    if s != [] {
      SortByKeySorted(key, s[..|s| - 1]);
      InsertSorted(key, s[|s| - 1], SortByKey(key, s[..|s| - 1]));
    }
  }

  /** The stable sort is a permutation of its input. */
  lemma {:induction false} SortByKeyPermutes<T>(key: T -> int, s: seq<T>)
    ensures multiset(SortByKey(key, s)) == multiset(s)
  {
    if s != [] {
      var init, last := s[..|s| - 1], s[|s| - 1];
      var sorted := SortByKey(key, init);
      SortByKeyPermutes(key, init);
      InsertCount(key, last, sorted);
      assert SortByKey(key, s) == Insert(key, last, sorted);
      assert s == init + [last];
      assert multiset(s) == multiset(init) + multiset{last};
    }
  }

  /** The sort is stable: the elements sharing a key keep their input order. */
  lemma {:induction false} SortByKeyStable<T>(key: T -> int, s: seq<T>, k: int)
    ensures WithKey(key, SortByKey(key, s), k) == WithKey(key, s, k)
  {
    if s != [] {
      SortByKeyStable(key, s[..|s| - 1], k);
      InsertWithKey(key, s[|s| - 1], SortByKey(key, s[..|s| - 1]), k);
    }
  }

  /** An element with a strictly larger key sits further on in a sorted sequence. */
  lemma SortedLater<T>(key: T -> int, s: seq<T>, i: nat, k: nat)
    requires SortedBy(key, s) && i < |s| && k < |s| && key(s[k]) > key(s[i])
    ensures i < k
  {
  }

  /** Every element of the input has a position in the sorted output. */
  lemma SortByKeyIndex<T>(key: T -> int, s: seq<T>, x: T) returns (k: nat)
    requires x in s
    ensures k < |SortByKey(key, s)| && SortByKey(key, s)[k] == x
  {
    SortByKeyPermutes(key, s);
    assert x in multiset(SortByKey(key, s));
    k :| 0 <= k < |SortByKey(key, s)| && SortByKey(key, s)[k] == x;
  }

  /** Once the scan from the back meets a key no larger than `key(x)`, `x` goes right after it. */
  lemma InsertAtEnd<T>(key: T -> int, x: T, p: seq<T>)
    requires p == [] || key(p[|p| - 1]) <= key(x)
    ensures Insert(key, x, p) == p + [x]
  {
  }

  /**
   * `Insert` puts `x` right after the last element whose key is at most
   * `key(x)`: at `j` when every key from `j` on is larger.
   */
  lemma {:induction false} InsertPlace<T>(key: T -> int, x: T, done: seq<T>, j: nat)
    requires j <= |done|
    requires j == 0 || key(done[j - 1]) <= key(x)
    requires forall k :: j <= k < |done| ==> key(done[k]) > key(x)
    ensures Insert(key, x, done) == done[..j] + [x] + done[j..]
  {
    if j == |done| {
      InsertAtEnd(key, x, done);
      assert done[..j] == done && done[j..] == [];
    } else {
      var init, last := done[..|done| - 1], done[|done| - 1];
      assert key(last) > key(x);
      InsertPlace(key, x, init, j);
      assert done[..j] == init[..j];
      assert done[j..] == init[j..] + [last];
    }
  }

  /**
   * The inner loop of one insertion pass: shifts the elements before `a[i]`
   * whose keys exceed `key(x)` one place up and returns the gap they leave.
   */
  method ShiftGreater<T>(a: array<T>, i: nat, x: T, key: T -> int) returns (j: nat)
    requires i < a.Length
    modifies a
    ensures j <= i
    ensures forall k :: 0 <= k < j ==> a[k] == old(a[k])
    ensures forall k :: j < k <= i ==> a[k] == old(a[k - 1])
    ensures forall k :: i < k < a.Length ==> a[k] == old(a[k])
    ensures j == 0 || key(old(a[j - 1])) <= key(x)
    ensures forall k :: j <= k < i ==> key(old(a[k])) > key(x)
  {
    j := i;
    while j > 0 && key(a[j - 1]) > key(x)
      invariant 0 <= j <= i
      invariant forall k :: 0 <= k < j ==> a[k] == old(a[k])
      invariant forall k :: j < k <= i ==> a[k] == old(a[k - 1])
      invariant forall k :: i < k < a.Length ==> a[k] == old(a[k])
      invariant forall k :: j <= k < i ==> key(old(a[k])) > key(x)
    {
      a[j] := a[j - 1];
      j := j - 1;
    }
  }

  /** One pass of insertion sort: moves `a[i]` back past the larger keys before it. */
  method InsertAt<T>(a: array<T>, i: nat, key: T -> int)
    requires i < a.Length
    modifies a
    ensures a[..i + 1] == Insert(key, old(a[i]), old(a[..i]))
    ensures a[i + 1..] == old(a[i + 1..])
  {
    var x := a[i];
    ghost var done := a[..i];
    ghost var rest := a[i + 1..];
    var j := ShiftGreater(a, i, x, key);
    InsertPlace(key, x, done, j);
    a[j] := x;
    assert a[..i + 1] == done[..j] + [x] + done[j..];
    assert forall k :: i < k < a.Length ==> a[k] == rest[k - i - 1];
    assert a[i + 1..] == rest;
  }

  /** `a.sort(key=key)`: a stable in-place insertion sort. */
  method SortInPlace<T>(a: array<T>, key: T -> int)
    modifies a
    ensures a[..] == SortByKey(key, old(a[..]))
  {
    ghost var orig := a[..];
    var i := 0;
    while i < a.Length
      invariant 0 <= i <= a.Length
      invariant a[..i] == SortByKey(key, orig[..i])
      invariant a[i..] == orig[i..]
    {
      assert a[i] == orig[i];
      InsertAt(a, i, key);
      assert orig[..i + 1][..i] == orig[..i];
      i := i + 1;
    }
    assert a[..] == a[..a.Length];
    assert orig == orig[..a.Length];
  }
}
