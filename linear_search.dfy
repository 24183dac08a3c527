/** The linear search of week2/linear_search/linear_search.c over a read-only, possibly NULL `int` array. */
module LinearSearch {

  /** `MIN_ARRAY_SIZE` and `MAX_ARRAY_SIZE`. */
  const MIN_ARRAY_SIZE := 1
  const MAX_ARRAY_SIZE := 100

  /** `validate_array_size`: the size lies between the two bounds. */
  predicate ValidArraySize(size: int)
    ensures ValidArraySize(size) ==> 0 < size
  {
    MIN_ARRAY_SIZE <= size <= MAX_ARRAY_SIZE
  }

  /**
   * `linear_search`: a NULL array or a size of at most 0 finds nothing;
   * otherwise the first `size` elements are scanned in order and the scan
   * stops at the first one equal to `target`.
   */
  method LinearSearch(a: array?<int>, size: int, target: int) returns (found: bool)
    requires a != null && size > 0 ==> size <= a.Length
    ensures found <==> a != null && size > 0 && exists i :: 0 <= i < size && a[i] == target
  {
    if a == null || size <= 0 {
      return false;
    }
    for i := 0 to size
      invariant forall k :: 0 <= k < i ==> a[k] != target
    {
      if a[i] == target {
        return true;
      }
    }
    return false;
  }

  /** What the demonstration program prints. */
  datatype Outcome = InvalidSize | Found | NotFound

  /**
   * The demonstration program: {1, 2, 3, 4, 5} passes the size check, and a
   * target from 1 to 5 is reported found (5 among them), anything else not.
   */
  method Demo(target: int) returns (outcome: Outcome)
    ensures outcome == (if 1 <= target <= 5 then Found else NotFound)
  {
    var a := new int[5] [1, 2, 3, 4, 5];
    assert ValidArraySize(a.Length);
    if !ValidArraySize(a.Length) {
      return InvalidSize;
    }
    assert forall i :: 0 <= i < a.Length ==> a[i] == i + 1;
    var found := LinearSearch(a, a.Length, target);
    if 1 <= target <= 5 {
      assert a[target - 1] == target;
    }
    if found {
      var i :| 0 <= i < a.Length && a[i] == target;
      assert a[i] == i + 1;
    }
    outcome := if found then Found else NotFound;
  }
}
