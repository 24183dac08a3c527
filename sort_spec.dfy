/**
 * What the sorting exercises of week 2 promise: an ascending order and a
 * permutation of the input. A sorted permutation is unique, so every sort
 * that keeps both promises computes the same sequence.
 */
module SortSpec {

  /** Ascending order: every element is at most every later one. */
  ghost predicate Sorted(s: seq<int>)
  {
    forall i, j :: 0 <= i < j < |s| ==> s[i] <= s[j]
  }

  /** Every element of `lo` is at most every element of `hi`. */
  ghost predicate Below(lo: seq<int>, hi: seq<int>)
  {
    forall i, j :: 0 <= i < |lo| && 0 <= j < |hi| ==> lo[i] <= hi[j]
  }

  /** The first element of a sorted sequence is at most everything in it. */
  lemma SortedHeadLeast(s: seq<int>, x: int)
    requires Sorted(s) && x in s
    ensures s[0] <= x
  {
    var k :| 0 <= k < |s| && s[k] == x;
  }

  /** Dropping the first element keeps a sequence sorted and removes one occurrence of that element. */
  lemma SortedTail(s: seq<int>)
    requires Sorted(s) && s != []
    ensures Sorted(s[1..]) && multiset(s[1..]) == multiset(s) - multiset{s[0]}
  {
    assert s == [s[0]] + s[1..];
  }

  /** Two sorted sequences with the same elements start alike and continue with sorted tails holding the same elements. */
  lemma SortedSameHead(a: seq<int>, b: seq<int>)
    requires Sorted(a) && Sorted(b) && multiset(a) == multiset(b) && a != []
    ensures b != [] && a[0] == b[0]
    ensures Sorted(a[1..]) && Sorted(b[1..]) && multiset(a[1..]) == multiset(b[1..])
  {
    assert a[0] in multiset(b);
    assert b != [];
    assert b[0] in multiset(a);
    SortedHeadLeast(a, b[0]);
    SortedHeadLeast(b, a[0]);
    SortedTail(a);
    SortedTail(b);
  }

  /** Two sorted sequences with the same elements are the same sequence. */
  lemma {:induction false} SortedUnique(a: seq<int>, b: seq<int>)
    requires Sorted(a) && Sorted(b) && multiset(a) == multiset(b)
    ensures a == b
  {
    if a == [] {
      assert |b| == |multiset(b)| == 0;
    } else {
      SortedSameHead(a, b);
      SortedUnique(a[1..], b[1..]);
      assert a == [a[0]] + a[1..];
      assert b == [b[0]] + b[1..];
    }
  }

  /** The array every sorting program of week 2 starts from. */
  const DEMO_INPUT: seq<int> := [5, 2, 4, 6, 1, 3]

  /** The output those programs document. */
  const DEMO_OUTPUT: seq<int> := [1, 2, 3, 4, 5, 6]

  /** Any sort of the demonstration array that keeps its promises prints 1 2 3 4 5 6. */
  lemma SortsDemo(s: seq<int>)
    requires Sorted(s) && multiset(s) == multiset(DEMO_INPUT)
    ensures s == DEMO_OUTPUT
  {
    assert multiset(DEMO_INPUT) == multiset{5, 2, 4, 6, 1, 3};
    assert multiset(DEMO_OUTPUT) == multiset{1, 2, 3, 4, 5, 6};
    SortedUnique(s, DEMO_OUTPUT);
  }

  /** The `temp` exchange the sorts use: the array keeps its elements and changes only at `i` and `j`. */
  method Swap(a: array<int>, i: int, j: int)
    requires 0 <= i < a.Length && 0 <= j < a.Length
    modifies a
    ensures a[i] == old(a[j]) && a[j] == old(a[i])
    ensures forall k :: 0 <= k < a.Length && k != i && k != j ==> a[k] == old(a[k])
    ensures multiset(a[..]) == old(multiset(a[..]))
  {
    var temp := a[i];
    a[i] := a[j];
    a[j] := temp;
  }
}
