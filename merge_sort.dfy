/** The merge sort of week2/merge_sort/merge_sort.c, in place on an `int` array with temporary arrays per merge. */
module MergeSort {
  import opened SortSpec

  /**
   * What `merge` writes back once `i` elements of the left run and `j` of
   * the right run are placed: the rest of the two runs interleaved front to
   * front, the left run's element first when the two are equal (`<=`).
   */
  function MergedFrom(l: seq<int>, r: seq<int>, i: int, j: int): (m: seq<int>)
    requires 0 <= i <= |l| && 0 <= j <= |r|
    ensures |m| == |l| - i + |r| - j
    decreases |l| - i + |r| - j
  {
    if i == |l| then r[j..]
    else if j == |r| then l[i..]
    else if l[i] <= r[j] then [l[i]] + MergedFrom(l, r, i + 1, j)
    else [r[j]] + MergedFrom(l, r, i, j + 1)
  }

  /** The whole merge of two runs. */
  function Merged(l: seq<int>, r: seq<int>): (m: seq<int>)
    ensures |m| == |l| + |r|
  {
    MergedFrom(l, r, 0, 0)
  }

  /** Merging loses and invents nothing: the result holds the remaining elements of both runs. */
  lemma {:induction false} MergedFromMultiset(l: seq<int>, r: seq<int>, i: int, j: int)
    requires 0 <= i <= |l| && 0 <= j <= |r|
    ensures multiset(MergedFrom(l, r, i, j)) == multiset(l[i..]) + multiset(r[j..])
    decreases |l| - i + |r| - j
  {
    if i < |l| && j < |r| {
      if l[i] <= r[j] {
        MergedFromMultiset(l, r, i + 1, j);
        SuffixMultiset(l, i);
      } else {
        MergedFromMultiset(l, r, i, j + 1);
        SuffixMultiset(r, j);
      }
    }
  }

  /** A suffix holds its first element and the suffix after it. */
  lemma SuffixMultiset(s: seq<int>, i: int)
    requires 0 <= i < |s|
    ensures multiset(s[i..]) == multiset{s[i]} + multiset(s[i + 1..])
  {
    assert s[i..] == [s[i]] + s[i + 1..];
  }

  /** Merging holds exactly the elements of both runs. */
  lemma MergedMultiset(l: seq<int>, r: seq<int>)
    ensures multiset(Merged(l, r)) == multiset(l) + multiset(r)
  {
    MergedFromMultiset(l, r, 0, 0);
    assert l[0..] == l && r[0..] == r;
  }

  /** A sorted sequence stays sorted with an element in front that is at most all of it. */
  lemma SortedCons(x: int, t: seq<int>)
    requires Sorted(t) && forall e | e in multiset(t) :: x <= e
    ensures Sorted([x] + t)
  {
    var s := [x] + t;
    forall i, j | 0 <= i < j < |s|
      ensures s[i] <= s[j]
    {
      assert s[j] == t[j - 1];
      if i == 0 {
        assert t[j - 1] in multiset(t);
      } else {
        assert s[i] == t[i - 1];
      }
    }
  }

  /** Every element left in a sorted run from `i` on is at least the one at `i`, and at least one before `i` if there is one. */
  lemma SortedSuffixLeast(s: seq<int>, i: int, e: int)
    requires Sorted(s) && 0 <= i < |s| && e in multiset(s[i..])
    ensures s[i] <= e
  {
    var k :| 0 <= k < |s[i..]| && s[i..][k] == e;
    assert s[i + k] == e;
  }

  /** Every element after index `i` of a sorted run is at least the one at `i`. */
  lemma SortedBeyondLeast(s: seq<int>, i: int, e: int)
    requires Sorted(s) && 0 <= i < |s| && e in multiset(s[i + 1..])
    ensures s[i] <= e
  {
    var k :| 0 <= k < |s[i + 1..]| && s[i + 1..][k] == e;
    assert s[i + 1 + k] == e;
  }

  /** Merging what remains of two sorted runs gives a sorted run. */
  lemma {:induction false} MergedFromSorted(l: seq<int>, r: seq<int>, i: int, j: int)
    requires 0 <= i <= |l| && 0 <= j <= |r| && Sorted(l) && Sorted(r)
    ensures Sorted(MergedFrom(l, r, i, j))
    decreases |l| - i + |r| - j
  {
    if i < |l| && j < |r| {
      if l[i] <= r[j] {
        var rest := MergedFrom(l, r, i + 1, j);
        MergedFromSorted(l, r, i + 1, j);
        LeftHeadLeast(l, r, i, j, rest);
        SortedCons(l[i], rest);
      } else {
        var rest := MergedFrom(l, r, i, j + 1);
        MergedFromSorted(l, r, i, j + 1);
        RightHeadLeast(l, r, i, j, rest);
        SortedCons(r[j], rest);
      }
    } else if i < |l| {
      assert Sorted(l[i..]);
    } else {
      assert Sorted(r[j..]);
    }
  }

  /** When the left run's element is placed, it is at most everything merged after it. */
  lemma LeftHeadLeast(l: seq<int>, r: seq<int>, i: int, j: int, rest: seq<int>)
    requires 0 <= i < |l| && 0 <= j < |r| && Sorted(l) && Sorted(r) && l[i] <= r[j]
    requires rest == MergedFrom(l, r, i + 1, j)
    ensures forall e | e in multiset(rest) :: l[i] <= e
  {
    var ls, rs := l[i + 1..], r[j..];
    MergedFromMultiset(l, r, i + 1, j);
    forall e | e in multiset(ls) + multiset(rs)
      ensures l[i] <= e
    {
      if e in multiset(ls) {
        SortedBeyondLeast(l, i, e);
      } else {
        SortedSuffixLeast(r, j, e);
      }
    }
  }

  /** When the right run's element is placed, it is at most everything merged after it. */
  lemma RightHeadLeast(l: seq<int>, r: seq<int>, i: int, j: int, rest: seq<int>)
    requires 0 <= i < |l| && 0 <= j < |r| && Sorted(l) && Sorted(r) && r[j] < l[i]
    requires rest == MergedFrom(l, r, i, j + 1)
    ensures forall e | e in multiset(rest) :: r[j] <= e
  {
    var ls, rs := l[i..], r[j + 1..];
    MergedFromMultiset(l, r, i, j + 1);
    forall e | e in multiset(ls) + multiset(rs)
      ensures r[j] <= e
    {
      if e in multiset(ls) {
        SortedSuffixLeast(l, i, e);
      } else {
        SortedBeyondLeast(r, j, e);
      }
    }
  }

  /** Merging two sorted runs gives a sorted run. */
  lemma MergedSorted(l: seq<int>, r: seq<int>)
    requires Sorted(l) && Sorted(r)
    ensures Sorted(Merged(l, r))
  {
    MergedFromSorted(l, r, 0, 0);
  }

  /** `middle = left + (right - left) / 2`: for `left < right` it splits the range into two non-empty halves. */
  function Middle(left: int, right: int): (middle: int)
    requires left < right
    ensures left <= middle < right
    ensures (middle - left + 1) - (right - middle) in {0, 1}
  {
    left + (right - left) / 2
  }

  /**
   * `merge_sort`: sorts `array[left..right]` (both ends included) by sorting
   * each half and merging them; a range of fewer than two elements is left
   * alone. Nothing outside the range changes.
   */
  method MergeSort(a: array<int>, left: int, right: int)
    requires 0 <= left && right < a.Length
    modifies a
    ensures forall k :: 0 <= k < a.Length && (k < left || right < k) ==> a[k] == old(a[k])
    ensures left <= right ==> Sorted(a[left..right + 1])
    ensures left <= right ==> multiset(a[left..right + 1]) == old(multiset(a[left..right + 1]))
    decreases right - left
  {
    if left < right {
      var middle := Middle(left, right);
      ghost var s0 := a[..];
      MergeSort(a, left, middle);
      ghost var s1 := a[..];
      MergeSort(a, middle + 1, right);
      ghost var s2 := a[..];
      Merge(a, left, middle, right);
      MergeSortStep(s0, s1, s2, a[..], left, middle, right);
    }
  }

  /**
   * The three steps of `merge_sort` on sequences: `s1` sorts the left half
   * of `s0`, `s2` the right half of `s1`, and `s3` merges the two halves of
   * `s2`. The whole range of `s3` is then sorted and holds what it held in
   * `s0`, and nothing outside it changed.
   */
  lemma MergeSortStep(s0: seq<int>, s1: seq<int>, s2: seq<int>, s3: seq<int>, left: int, middle: int, right: int)
    requires 0 <= left <= middle < right < |s0| && |s1| == |s0| && |s2| == |s0| && |s3| == |s0|
    requires forall k :: 0 <= k < |s0| && (k < left || middle < k) ==> s1[k] == s0[k]
    requires Sorted(s1[left..middle + 1]) && multiset(s1[left..middle + 1]) == multiset(s0[left..middle + 1])
    requires forall k :: 0 <= k < |s0| && (k <= middle || right < k) ==> s2[k] == s1[k]
    requires Sorted(s2[middle + 1..right + 1])
    requires multiset(s2[middle + 1..right + 1]) == multiset(s1[middle + 1..right + 1])
    requires forall k :: 0 <= k < |s0| && (k < left || right < k) ==> s3[k] == s2[k]
    requires s3[left..right + 1] == Merged(s2[left..middle + 1], s2[middle + 1..right + 1])
    ensures forall k :: 0 <= k < |s0| && (k < left || right < k) ==> s3[k] == s0[k]
    ensures Sorted(s3[left..right + 1])
    ensures multiset(s3[left..right + 1]) == multiset(s0[left..right + 1])
  {
    assert s2[left..middle + 1] == s1[left..middle + 1];
    assert s1[middle + 1..right + 1] == s0[middle + 1..right + 1];
    MergedSorted(s2[left..middle + 1], s2[middle + 1..right + 1]);
    MergedMultiset(s2[left..middle + 1], s2[middle + 1..right + 1]);
    assert s0[left..right + 1] == s0[left..middle + 1] + s0[middle + 1..right + 1];
  }

  /**
   * `merge`: copies `array[left..middle]` and `array[middle + 1..right]`
   * into temporary arrays, then writes their merge back over
   * `array[left..right]`.
   */
  method Merge(a: array<int>, left: int, middle: int, right: int)
    requires 0 <= left <= middle <= right < a.Length
    modifies a
    ensures forall k :: 0 <= k < a.Length && (k < left || right < k) ==> a[k] == old(a[k])
    ensures a[left..right + 1] == Merged(old(a[left..middle + 1]), old(a[middle + 1..right + 1]))
  {
    var leftArray := CopyRun(a, left, middle - left + 1);
    var rightArray := CopyRun(a, middle + 1, right - middle);
    MergeBack(a, leftArray, rightArray, left);
  }

  /** The copy loops of `merge`: a new array holding `array[from..from + n - 1]`. */
  method CopyRun(a: array<int>, from: int, n: int) returns (run: array<int>)
    requires 0 <= from && 0 <= n && from + n <= a.Length
    ensures fresh(run) && run[..] == a[from..from + n]
  {
    run := new int[n];
    for i := 0 to n
      invariant forall t :: 0 <= t < i ==> run[t] == a[from + t]
    {
      run[i] := a[from + i];
    }
  }

  /**
   * The three `while` loops of `merge`: the smaller front element of the two
   * runs goes next (the left one on a tie) until a run is used up, then the
   * rest of the other run follows.
   */
  method MergeBack(a: array<int>, leftArray: array<int>, rightArray: array<int>, left: int)
    requires leftArray != a && rightArray != a
    requires 0 <= left && left + leftArray.Length + rightArray.Length <= a.Length
    modifies a
    ensures forall t :: 0 <= t < a.Length && (t < left || left + leftArray.Length + rightArray.Length <= t) ==> a[t] == old(a[t])
    ensures a[left..left + leftArray.Length + rightArray.Length] == Merged(leftArray[..], rightArray[..])
  {
    ghost var l, r := leftArray[..], rightArray[..];
    ghost var m := Merged(l, r);
    var i, j := MergeFronts(a, leftArray, rightArray, left, l, r, m);
    MergedFromDone(l, r, i, j);
    CopyTails(a, leftArray, rightArray, i, j, left + i + j, left + leftArray.Length + j, left + leftArray.Length + rightArray.Length);
    Assemble(a[..], m, left, i + j);
  }

  /** Once one run is used up, what remains to merge is the rest of the other. */
  lemma MergedFromDone(l: seq<int>, r: seq<int>, i: int, j: int)
    requires 0 <= i <= |l| && 0 <= j <= |r| && (i == |l| || j == |r|)
    ensures MergedFrom(l, r, i, j) == l[i..] + r[j..]
  {
    if i == |l| {
      assert l[i..] == [];
    } else {
      assert r[j..] == [];
    }
  }

  /**
   * The second and third `while` of `merge`: the rest of the left run from
   * `i`, then the rest of the right run from `j`, are copied to `a` from `k`
   * on, and nothing else changes.
   */
  method CopyTails(a: array<int>, leftArray: array<int>, rightArray: array<int>, i: int, j: int, k: int, mid: int, end: int)
    requires leftArray != a && rightArray != a
    requires 0 <= i <= leftArray.Length && 0 <= j <= rightArray.Length
    requires 0 <= k && mid == k + leftArray.Length - i && end == mid + rightArray.Length - j && end <= a.Length
    modifies a
    ensures forall t :: 0 <= t < a.Length && (t < k || end <= t) ==> a[t] == old(a[t])
    ensures a[k..end] == leftArray[i..] + rightArray[j..]
  {
    CopyRest(a, leftArray, i, k, mid);
    ghost var ls := a[k..mid];
    CopyRest(a, rightArray, j, mid, end);
    assert a[k..mid] == ls;
    assert a[k..end] == a[k..mid] + a[mid..end];
  }

  /** A stretch of `s` from `left` that agrees with `m` up to `p` and with `m[p..]` after that is `m`. */
  lemma Assemble(s: seq<int>, m: seq<int>, left: int, p: int)
    requires 0 <= left && 0 <= p <= |m| && left + |m| <= |s|
    requires forall t :: left <= t < left + p ==> s[t] == m[t - left]
    requires s[left + p..left + |m|] == m[p..]
    ensures s[left..left + |m|] == m
  {
    forall t | left <= t < left + |m|
      ensures s[t] == m[t - left]
    {
      if t >= left + p {
        assert s[t] == s[left + p..left + |m|][t - left - p];
      }
    }
  }

  /**
   * The first `while` of `merge`: runs until one of the temporary arrays is
   * used up. What is written so far is the front of the merge, and what is
   * left to write is the merge of what remains of the two runs.
   */
  method MergeFronts(a: array<int>, leftArray: array<int>, rightArray: array<int>, left: int,
                     ghost l: seq<int>, ghost r: seq<int>, ghost m: seq<int>) returns (i: int, j: int)
    requires leftArray != a && rightArray != a
    requires 0 <= left && left + leftArray.Length + rightArray.Length <= a.Length
    requires l == leftArray[..] && r == rightArray[..] && m == Merged(l, r)
    modifies a
    ensures 0 <= i <= |l| && 0 <= j <= |r|
    ensures i == |l| || j == |r|
    ensures forall t :: 0 <= t < a.Length && (t < left || left + i + j <= t) ==> a[t] == old(a[t])
    ensures forall t :: left <= t < left + i + j ==> a[t] == m[t - left]
    ensures m[i + j..] == MergedFrom(l, r, i, j)
  {
    ghost var o := a[..];
    i, j := 0, 0;
    while i < leftArray.Length && j < rightArray.Length
      invariant 0 <= i <= leftArray.Length && 0 <= j <= rightArray.Length
      invariant forall t :: 0 <= t < a.Length && (t < left || left + i + j <= t) ==> a[t] == o[t]
      invariant forall t :: left <= t < left + i + j ==> a[t] == m[t - left]
      invariant m[i + j..] == MergedFrom(l, r, i, j)
    {
      ghost var k := left + i + j;
      label Before:
      i, j := TakeSmaller(a, leftArray, rightArray, left, i, j, l, r, m);
      forall t | left <= t < left + i + j
        ensures a[t] == m[t - left]
      {
        if t < k {
          assert a[t] == old@Before(a[t]);
        }
      }
    }
  }

  /**
   * The body of the first `while` of `merge`: the smaller front element, the
   * left one on a tie, goes to `array[k]` with `k = left + i + j`, and its
   * run moves on by one. That element is the next one of the merge.
   */
  method TakeSmaller(a: array<int>, leftArray: array<int>, rightArray: array<int>, left: int, i: int, j: int,
                     ghost l: seq<int>, ghost r: seq<int>, ghost m: seq<int>)
    returns (i': int, j': int)
    requires leftArray != a && rightArray != a
    requires l == leftArray[..] && r == rightArray[..]
    requires 0 <= left && left + |l| + |r| <= a.Length
    requires 0 <= i < |l| && 0 <= j < |r| && |m| == |l| + |r|
    requires m[i + j..] == MergedFrom(l, r, i, j)
    modifies a
    ensures (i', j') == (i + 1, j) || (i', j') == (i, j + 1)
    ensures i' + j' == i + j + 1
    ensures m[i' + j'..] == MergedFrom(l, r, i', j')
    ensures a[left + i + j] == m[i + j]
    ensures forall t :: 0 <= t < a.Length && t != left + i + j ==> a[t] == old(a[t])
  {
    var k := left + i + j;
    if leftArray[i] <= rightArray[j] {
      DropHead(m, i + j, l[i], MergedFrom(l, r, i + 1, j));
      a[k] := leftArray[i];
      i', j' := i + 1, j;
    } else {
      DropHead(m, i + j, r[j], MergedFrom(l, r, i, j + 1));
      a[k] := rightArray[j];
      i', j' := i, j + 1;
    }
  }

  /** A suffix that starts with `x` followed by `rest`: `x` is at its start and `rest` is the suffix after it. */
  lemma DropHead(s: seq<int>, p: int, x: int, rest: seq<int>)
    requires 0 <= p <= |s| && s[p..] == [x] + rest
    ensures p < |s| && s[p] == x && s[p + 1..] == rest
  {
    assert s[p..][0] == x;
    assert s[p + 1..] == s[p..][1..];
  }

  /** The remaining-element loops of `merge`: `run[from..]` is copied to `array[k..]`. */
  method CopyRest(a: array<int>, run: array<int>, from: int, k: int, end: int)
    requires run != a && 0 <= from <= run.Length
    requires 0 <= k && end == k + run.Length - from && end <= a.Length
    modifies a
    ensures forall t :: 0 <= t < a.Length && (t < k || end <= t) ==> a[t] == old(a[t])
    ensures a[k..end] == run[from..]
  {
    var i, p := from, k;
    while i < run.Length
      invariant from <= i <= run.Length && p == k + i - from
      invariant forall t :: 0 <= t < a.Length && (t < k || p <= t) ==> a[t] == old(a[t])
      invariant forall t :: k <= t < p ==> a[t] == run[t - k + from]
    {
      a[p] := run[i];
      i := i + 1;
      p := p + 1;
    }
  }

  /** The demonstration program: `merge_sort(array, 0, size - 1)` on {5, 2, 4, 6, 1, 3} prints 1 2 3 4 5 6. */
  method Demo() returns (sorted: seq<int>)
    ensures sorted == DEMO_OUTPUT
  {
    var a := new int[6] [5, 2, 4, 6, 1, 3];
    assert a[..] == DEMO_INPUT;
    assert a[0..a.Length - 1 + 1] == a[..];
    MergeSort(a, 0, a.Length - 1);
    assert a[0..a.Length - 1 + 1] == a[..];
    sorted := a[..];
    SortsDemo(sorted);
  }
}
