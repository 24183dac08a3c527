/** The bubble sort of week2/bubble_sort/bubble_sort.c, in place on an `int` array. */
module BubbleSort {
  import opened SortSpec

  /**
   * `bubble_sort`: pass `i` walks the unsorted prefix swapping adjacent
   * elements out of order, which carries its largest element to the front
   * of the sorted suffix.
   */
  method BubbleSort(a: array<int>)
    modifies a
    ensures Sorted(a[..]) && multiset(a[..]) == old(multiset(a[..]))
    ensures a.Length <= 1 ==> a[..] == old(a[..])
  {
    var n := a.Length;
    var i := 0;
    while i < n - 1
      invariant 0 <= i && (i == 0 || i <= n - 1)
      invariant n <= 1 ==> a[..] == old(a[..])
      invariant multiset(a[..]) == old(multiset(a[..]))
      invariant forall x, y :: n - i <= x < y < n ==> a[x] <= a[y]
      invariant forall x, y :: 0 <= x < n - i <= y < n ==> a[x] <= a[y]
    {
      Pass(a, n - i);
      i := i + 1;
    }
  }

  /**
   * One pass of the inner loop over `a[..hi]`: afterwards the largest
   * element of the prefix sits at `hi - 1`, and the suffix `a[hi..]`, which
   * the pass does not touch, is still above the whole prefix.
   */
  method Pass(a: array<int>, hi: int)
    requires 0 < hi <= a.Length
    requires forall x, y :: 0 <= x < hi <= y < a.Length ==> a[x] <= a[y]
    modifies a
    ensures multiset(a[..]) == old(multiset(a[..]))
    ensures forall k :: hi <= k < a.Length ==> a[k] == old(a[k])
    ensures forall x, y :: 0 <= x < hi <= y < a.Length ==> a[x] <= a[y]
    ensures forall m :: 0 <= m < hi ==> a[m] <= a[hi - 1]
  {
    var j := 0;
    while j < hi - 1
      invariant 0 <= j <= hi - 1
      invariant multiset(a[..]) == old(multiset(a[..]))
      invariant forall k :: hi <= k < a.Length ==> a[k] == old(a[k])
      invariant forall x, y :: 0 <= x < hi <= y < a.Length ==> a[x] <= a[y]
      invariant forall m :: 0 <= m <= j ==> a[m] <= a[j]
    {
      if a[j] > a[j + 1] {
        Swap(a, j, j + 1);
      }
      j := j + 1;
    }
  }

  /** The demonstration program: {5, 2, 4, 6, 1, 3} comes out as 1 2 3 4 5 6. */
  method Demo() returns (sorted: seq<int>)
    ensures sorted == DEMO_OUTPUT
  {
    var a := new int[6] [5, 2, 4, 6, 1, 3];
    assert a[..] == DEMO_INPUT;
    BubbleSort(a);
    sorted := a[..];
    SortsDemo(sorted);
  }
}
