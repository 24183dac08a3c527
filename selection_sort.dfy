/** The selection sort of week2/selection_sort/selection_sort.c, in place on an `int` array. */
module SelectionSort {
  import opened SortSpec

  /**
   * `selection_sort`: for each `i`, the least element of `array[i..]` is
   * swapped into place `i`, so the prefix grows sorted and stays below the
   * rest.
   */
  method SelectionSort(a: array<int>)
    modifies a
    ensures Sorted(a[..]) && multiset(a[..]) == old(multiset(a[..]))
  {
    var n := a.Length;
    var i := 0;
    while i < n - 1
      invariant 0 <= i && (i == 0 || i <= n - 1)
      invariant multiset(a[..]) == old(multiset(a[..]))
      invariant forall x, y :: 0 <= x < y < i ==> a[x] <= a[y]
      invariant forall x, y :: 0 <= x < i <= y < n ==> a[x] <= a[y]
    {
      var minIndex := MinIndex(a, i);
      Swap(a, i, minIndex);
      i := i + 1;
    }
  }

  /**
   * The inner loop: the index of the first least element of `a[i..]`. A
   * later element replaces the candidate only when strictly smaller.
   */
  method MinIndex(a: array<int>, i: int) returns (m: int)
    requires 0 <= i < a.Length
    ensures i <= m < a.Length
    ensures forall k :: i <= k < a.Length ==> a[m] <= a[k]
    ensures forall k :: i <= k < m ==> a[k] > a[m]
  {
    m := i;
    var j := i + 1;
    while j < a.Length
      invariant i <= m < j <= a.Length
      invariant forall k :: i <= k < j ==> a[m] <= a[k]
      invariant forall k :: i <= k < m ==> a[k] > a[m]
    {
      if a[j] < a[m] {
        m := j;
      }
      j := j + 1;
    }
  }

  /** The demonstration program: {5, 2, 4, 6, 1, 3} comes out as 1 2 3 4 5 6. */
  method Demo() returns (sorted: seq<int>)
    ensures sorted == DEMO_OUTPUT
  {
    var a := new int[6] [5, 2, 4, 6, 1, 3];
    assert a[..] == DEMO_INPUT;
    SelectionSort(a);
    sorted := a[..];
    SortsDemo(sorted);
  }
}
