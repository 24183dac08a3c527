/** The insertion sort of week2/insertion_sort/insertion_sort.c, in place on an `int` array. */
module InsertionSort {
  import opened SortSpec

  /** Putting `key` between the part of a sorted sequence at most `key` and the part above it keeps it sorted. */
  lemma InsertedSorted(s: seq<int>, key: int, p: int)
    requires Sorted(s) && 0 <= p <= |s|
    requires p > 0 ==> s[p - 1] <= key
    requires forall k :: p <= k < |s| ==> s[k] > key
    ensures Sorted(s[..p] + [key] + s[p..])
  {
    var t := s[..p] + [key] + s[p..];
    forall x, y | 0 <= x < y < |t|
      ensures t[x] <= t[y]
    {
      if y < p {
        assert t[x] == s[x] && t[y] == s[y];
      } else if y == p {
        assert t[x] == s[x] <= s[p - 1];
      } else if x < p {
        assert t[x] == s[x] <= s[p - 1] && t[y] == s[y - 1];
      } else if x == p {
        assert t[y] == s[y - 1];
      } else {
        assert t[x] == s[x - 1] && t[y] == s[y - 1];
      }
    }
  }

  /** A sequence that agrees with `s` below `p`, holds `key` at `p` and `s` shifted by one above `p` is `s` with `key` put in at `p`. */
  lemma ShiftedIsInserted(s: seq<int>, t: seq<int>, key: int, p: int)
    requires 0 <= p <= |s| && |t| == |s| + 1
    requires forall k :: 0 <= k < p ==> t[k] == s[k]
    requires t[p] == key
    requires forall k :: p < k < |t| ==> t[k] == s[k - 1]
    ensures t == s[..p] + [key] + s[p..]
  {
  }

  /** A sequence is its prefix before `i`, its element at `i` and the rest. */
  lemma SplitAt(s: seq<int>, i: int)
    requires 0 <= i < |s|
    ensures s == s[..i] + [s[i]] + s[i + 1..]
  {
  }

  /** Putting `key` anywhere into `s` adds one occurrence of it. */
  lemma InsertedMultiset(s: seq<int>, key: int, p: int)
    requires 0 <= p <= |s|
    ensures multiset(s[..p] + [key] + s[p..]) == multiset(s) + multiset{key}
  {
    assert s == s[..p] + s[p..];
  }

  /**
   * `insertion_sort`: for each `i`, the element `array[i]` is inserted into
   * the sorted prefix before it.
   */
  method InsertionSort(a: array<int>)
    modifies a
    ensures Sorted(a[..]) && multiset(a[..]) == old(multiset(a[..]))
  {
    var n := a.Length;
    if n == 0 {
      return;
    }
    var i := 1;
    while i < n
      invariant 1 <= i <= n
      invariant Sorted(a[..i]) && multiset(a[..]) == old(multiset(a[..]))
    {
      Insert(a, i);
      i := i + 1;
    }
    assert a[..] == a[..n];
  }

  /**
   * One pass of the outer loop: `key = array[i]`; every element of the sorted
   * prefix above `key` moves one place to the right, and `key` goes into the
   * place left free. The prefix `a[..i + 1]` comes out sorted.
   */
  method Insert(a: array<int>, i: int)
    requires 0 < i < a.Length && Sorted(a[..i])
    modifies a
    ensures Sorted(a[..i + 1]) && multiset(a[..]) == old(multiset(a[..]))
  {
    var key := a[i];
    var j := ShiftGreater(a, i, key);
    a[j + 1] := key;
    InsertStep(old(a[..]), a[..], i, j + 1);
  }

  /**
   * The array after a pass: below `p` as before, `key = s[i]` at `p`, the
   * elements from `p` to `i - 1` one place up, the rest as before; `p` sits
   * just above the last element at most `key`. Its prefix up to `i` is
   * sorted and it holds the same elements.
   */
  lemma InsertStep(s: seq<int>, t: seq<int>, i: int, p: int)
    requires 0 <= p <= i < |s| && |t| == |s| && Sorted(s[..i])
    requires forall k :: 0 <= k < p ==> t[k] == s[k]
    requires t[p] == s[i]
    requires forall k :: p < k <= i ==> t[k] == s[k - 1]
    requires forall k :: i < k < |t| ==> t[k] == s[k]
    requires p > 0 ==> s[p - 1] <= s[i]
    requires forall k :: p <= k < i ==> s[k] > s[i]
    ensures Sorted(t[..i + 1]) && multiset(t) == multiset(s)
  {
    var prefix := s[..i];
    ShiftedIsInserted(prefix, t[..i + 1], s[i], p);
    InsertedSorted(prefix, s[i], p);
    InsertedMultiset(prefix, s[i], p);
    assert t == t[..i + 1] + s[i + 1..];
    SplitAt(s, i);
  }

  /**
   * The inner `while`: walking down from `i - 1`, every element above `key`
   * moves one place to the right, until an element at most `key` or the
   * start of the array is reached; `j + 1` is then the free place.
   */
  method ShiftGreater(a: array<int>, i: int, key: int) returns (j: int)
    requires 0 < i < a.Length
    modifies a
    ensures -1 <= j < i
    ensures forall k {:trigger a[k]} :: 0 <= k <= j ==> a[k] == old(a[k])
    ensures forall k {:trigger a[k]} :: j + 2 <= k <= i ==> a[k] == old(a[k - 1])
    ensures forall k {:trigger a[k]} :: i < k < a.Length ==> a[k] == old(a[k])
    ensures j >= 0 ==> old(a[j]) <= key
    ensures forall k :: j + 1 <= k < i ==> old(a[k]) > key
  {
    ghost var o := a[..];
    j := i - 1;
    while j >= 0 && a[j] > key
      invariant -1 <= j <= i - 1
      invariant forall k :: 0 <= k <= j ==> a[k] == o[k]
      invariant forall k :: j + 2 <= k <= i ==> a[k] == o[k - 1]
      invariant forall k :: i < k < a.Length ==> a[k] == o[k]
      invariant forall k :: j + 1 <= k < i ==> o[k] > key
    {
      assert o[j] == a[j] > key;
      a[j + 1] := a[j];
      j := j - 1;
    }
  }

  /** The demonstration program: {5, 2, 4, 6, 1, 3} comes out as 1 2 3 4 5 6. */
  method Demo() returns (sorted: seq<int>)
    ensures sorted == DEMO_OUTPUT
  {
    var a := new int[6] [5, 2, 4, 6, 1, 3];
    assert a[..] == DEMO_INPUT;
    InsertionSort(a);
    sorted := a[..];
    SortsDemo(sorted);
  }
}
