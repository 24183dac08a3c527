/** The binary search of week2/binary_search/binary_search.c over a read-only `int` array. */
module BinarySearch {
  import opened SortSpec

  /**
   * `binary_search`: halves the window `[left, right]` around
   * `mid = left + (right - left) / 2` until `array[mid] == value` or the
   * window is empty. Any index it returns holds `value`, sorted array or
   * not; on an ascending array it returns -1 only when `value` is absent.
   */
  method BinarySearch(a: array<int>, value: int) returns (index: int)
    ensures index == -1 || (0 <= index < a.Length && a[index] == value)
    ensures Sorted(a[..]) && value in a[..] ==> index != -1
  {
    var left, right := 0, a.Length - 1;
    while left <= right
      invariant 0 <= left && right < a.Length && left <= right + 1
      invariant Sorted(a[..]) ==> forall k :: 0 <= k < a.Length && (k < left || right < k) ==> a[k] != value
      decreases right - left
    {
      var mid := left + (right - left) / 2;
      if a[mid] == value {
        return mid;
      } else if a[mid] < value {
        left := mid + 1;
      } else {
        right := mid - 1;
      }
    }
    return -1;
  }

  /** The array of the demonstration program. */
  const DEMO_ARRAY: seq<int> := [1, 2, 3, 4, 5, 6]

  /**
   * The demonstration program: on {1, 2, 3, 4, 5, 6} a value from 1 to 6 is
   * found at index `value - 1` (4 at index 3), anything else is not found.
   */
  method Demo(value: int) returns (index: int)
    ensures 1 <= value <= 6 ==> index == value - 1
    ensures (value < 1 || 6 < value) ==> index == -1
  {
    var a := new int[6] [1, 2, 3, 4, 5, 6];
    assert a[..] == DEMO_ARRAY;
    assert Sorted(DEMO_ARRAY);
    if 1 <= value <= 6 {
      assert DEMO_ARRAY[value - 1] == value;
    }
    index := BinarySearch(a, value);
  }
}
