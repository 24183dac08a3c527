/**
 * The singly linked list of week4/singly_linked_list/singly_linked_list.c:
 * heap nodes holding an `int` and a `next` pointer, a list record holding
 * the head and a size counter, and positional and value-based insertion
 * and deletion that relink the nodes in place.
 *
 * The list's ghost `spine` is the sequence of its nodes from the head, and
 * `contents` the sequence of their data; `Valid` ties both to the `next` fields.
 * Whether `malloc` returns NULL is a parameter of each insertion.
 */
module SinglyLinkedLists {

  /** `InsertAt(s, p, x)`: `x` at index `p`; index 0 puts it first, any index from `|s|` on puts it last. */
  function InsertAt(s: seq<int>, p: nat, x: int): (r: seq<int>)
    ensures var q := if p < |s| then p else |s|;
      && |r| == |s| + 1 && r[q] == x
      && r[..q] == s[..q] && r[q + 1..] == s[q..]
  {
    if p == 0 then [x] + s
    else if p >= |s| then s + [x]
    else s[..p] + [x] + s[p..]
  }

  /** `s` without its element at index `p`. */
  function RemoveAt(s: seq<int>, p: nat): (r: seq<int>)
    requires p < |s|
    ensures |r| == |s| - 1
    ensures forall i :: 0 <= i < |r| ==> r[i] == if i < p then s[i] else s[i + 1]
  {
    s[..p] + s[p + 1..]
  }

  /** The index of the first occurrence of `x` in `s`. */
  function FirstIndex(s: seq<int>, x: int): (k: nat)
    requires x in s
    ensures k < |s| && s[k] == x
    ensures forall i :: 0 <= i < k ==> s[i] != x
  {
    if s[0] == x then 0 else 1 + FirstIndex(s[1..], x)
  }

  /** `s` without the first occurrence of `x`; `s` itself when `x` does not occur. */
  function RemoveFirst(s: seq<int>, x: int): seq<int>
  {
    if x in s then RemoveAt(s, FirstIndex(s, x)) else s
  }

  /** Removing what was just inserted at a position gives the list back. */
  lemma RemoveInserted(s: seq<int>, p: nat, x: int)
    ensures RemoveAt(InsertAt(s, p, x), if p < |s| then p else |s|) == s
  {
    var q := if p < |s| then p else |s|;
    var r := InsertAt(s, p, x);
    assert r[..q] + r[q + 1..] == s[..q] + s[q..];
    assert s[..q] + s[q..] == s;
  }

  /** Removing one element takes exactly one copy of it out of the multiset. */
  lemma RemoveAtMultiset(s: seq<int>, p: nat)
    requires p < |s|
    ensures multiset(RemoveAt(s, p)) == multiset(s) - multiset{s[p]}
  {
    assert s == s[..p] + [s[p]] + s[p + 1..];
  }

  /** Deleting by value removes one copy of a present value and nothing else. */
  lemma RemoveFirstMultiset(s: seq<int>, x: int)
    ensures x in s ==> multiset(RemoveFirst(s, x)) == multiset(s) - multiset{x}
    ensures x !in s ==> RemoveFirst(s, x) == s
    ensures |RemoveFirst(s, x)| == if x in s then |s| - 1 else |s|
  {
    if x in s {
      RemoveAtMultiset(s, FirstIndex(s, x));
    }
  }

  /** The node after index `i` of a spine, NULL after the last. */
  function Successor(spine: seq<Node>, i: nat): Node?
  {
    if i + 1 < |spine| then spine[i + 1] else null
  }

  ghost predicate Distinct(spine: seq<Node>)
  {
    forall i, j :: 0 <= i < j < |spine| ==> spine[i] != spine[j]
  }

  /** Every node of the spine points to the next one, and the last one to NULL. */
  ghost predicate Linked(spine: seq<Node>)
    reads spine
  {
    forall i {:trigger spine[i].next} :: 0 <= i < |spine| ==> spine[i].next == Successor(spine, i)
  }

  /** Every node of the spine belongs to the footprint `repr`. */
  ghost predicate Within(spine: seq<Node>, repr: set<object>)
  {
    forall i :: 0 <= i < |spine| ==> spine[i] in repr
  }

  /** The spine's nodes hold `contents`, in order. */
  ghost predicate Holds(spine: seq<Node>, contents: seq<int>)
    reads spine
  {
    |spine| == |contents| && forall i :: 0 <= i < |spine| ==> spine[i].data == contents[i]
  }

  /**
   * Linking a node in at index `p` of a chain (after the node at `p - 1`, or
   * as the new first node) gives a chain with the node at `p`.
   */
  lemma InsertedLinked(s0: seq<Node>, p: nat, node: Node)
    requires p <= |s0|
    requires forall j {:trigger s0[j].next} :: 0 <= j < |s0| && j + 1 != p ==> s0[j].next == Successor(s0, j)
    requires p > 0 ==> s0[p - 1].next == node
    requires node.next == if p < |s0| then s0[p] else null
    ensures Linked(s0[..p] + [node] + s0[p..])
  {
    var s := s0[..p] + [node] + s0[p..];
    forall j | 0 <= j < |s| ensures s[j].next == Successor(s, j) {
      if j + 1 < p {
        assert s[j] == s0[j] && s[j + 1] == s0[j + 1];
      } else if j == p {
        if p < |s0| {
          assert s[j + 1] == s0[j];
        }
      } else if j > p {
        assert s[j] == s0[j - 1];
        if j + 1 < |s| {
          assert s[j + 1] == s0[j];
        }
      }
    }
  }

  /** Putting a node into a spine at the index where its value goes into the data keeps them in step. */
  lemma InsertedHolds(s0: seq<Node>, c0: seq<int>, p: nat, node: Node)
    requires p <= |s0|
    requires Holds(s0, c0)
    ensures Holds(s0[..p] + [node] + s0[p..], c0[..p] + [node.data] + c0[p..])
  {
    var s, c := s0[..p] + [node] + s0[p..], c0[..p] + [node.data] + c0[p..];
    assert |s| == |c|;
    forall j | 0 <= j < |s| ensures s[j].data == c[j] {
      if j < p {
        assert s[j] == s0[j] && c[j] == c0[j];
      } else if j > p {
        assert s[j] == s0[j - 1] && c[j] == c0[j - 1];
      }
    }
  }

  /** Putting a node that is not yet in a spine of distinct nodes into it keeps them distinct. */
  lemma InsertedDistinct(s0: seq<Node>, p: nat, node: Node)
    requires p <= |s0|
    requires Distinct(s0) && node !in s0
    ensures Distinct(s0[..p] + [node] + s0[p..])
  {
    var s := s0[..p] + [node] + s0[p..];
    forall i, j | 0 <= i < j < |s| ensures s[i] != s[j] {
      var i' := if i < p then i else i - 1;
      var j' := if j <= p then j else j - 1;
      if i != p && j != p {
        assert s[i] == s0[i'] && s[j] == s0[j'];
      } else if i == p {
        assert s[j] == s0[j'];
      } else {
        assert s[i] == s0[i'];
      }
    }
  }

  /** Unlinking the node at index `p` (bypassed by its predecessor, or dropped as the head) leaves a chain. */
  lemma RemovedLinked(s0: seq<Node>, p: nat)
    requires p < |s0|
    requires forall j {:trigger s0[j].next} :: 0 <= j < |s0| && j + 1 != p ==> s0[j].next == Successor(s0, j)
    requires p > 0 ==> s0[p - 1].next == Successor(s0, p)
    ensures Linked(s0[..p] + s0[p + 1..])
  {
    var s := s0[..p] + s0[p + 1..];
    forall j | 0 <= j < |s| ensures s[j].next == Successor(s, j) {
      if j + 1 < p {
        assert s[j] == s0[j] && s[j + 1] == s0[j + 1];
      } else if j + 1 == p {
        assert s[j] == s0[j];
        if p + 1 < |s0| {
          assert s[j + 1] == s0[p + 1];
        }
      } else {
        assert s[j] == s0[j + 1];
        if j + 1 < |s| {
          assert s[j + 1] == s0[j + 2];
        }
      }
    }
  }

  /** Dropping index `p` from both the spine and the data keeps them in step. */
  lemma RemovedHolds(s0: seq<Node>, c0: seq<int>, p: nat)
    requires p < |s0|
    requires Holds(s0, c0)
    ensures Holds(s0[..p] + s0[p + 1..], c0[..p] + c0[p + 1..])
  {
    var s, c := s0[..p] + s0[p + 1..], c0[..p] + c0[p + 1..];
    forall j | 0 <= j < |s| ensures s[j].data == c[j] {
      if j >= p {
        assert s[j] == s0[j + 1] && c[j] == c0[j + 1];
      }
    }
  }

  /** A spine within a footprint stays within it, grown by the new node, once that node is linked in. */
  lemma InsertedWithin(s0: seq<Node>, repr: set<object>, p: nat, node: Node)
    requires p <= |s0| && Within(s0, repr)
    ensures Within(s0[..p] + [node] + s0[p..], repr + {node})
  {
    var s := s0[..p] + [node] + s0[p..];
    forall j | 0 <= j < |s| ensures s[j] in repr + {node} {
      if j < p {
        assert s[j] == s0[j];
      } else if j > p {
        assert s[j] == s0[j - 1];
      }
    }
  }

  /** Dropping a node from a spine within a footprint leaves it within the footprint. */
  lemma RemovedWithin(s0: seq<Node>, repr: set<object>, p: nat)
    requires p < |s0| && Within(s0, repr)
    ensures Within(s0[..p] + s0[p + 1..], repr)
  {
    var s := s0[..p] + s0[p + 1..];
    forall j | 0 <= j < |s| ensures s[j] in repr {
      assert s[j] == s0[if j < p then j else j + 1];
    }
  }

  /** Dropping a node from a spine of distinct nodes keeps them distinct. */
  lemma RemovedDistinct(s0: seq<Node>, p: nat)
    requires p < |s0|
    requires Distinct(s0)
    ensures Distinct(s0[..p] + s0[p + 1..])
  {
    var s := s0[..p] + s0[p + 1..];
    forall i, j | 0 <= i < j < |s| ensures s[i] != s[j] {
      assert s[i] == s0[if i < p then i else i + 1];
      assert s[j] == s0[if j < p then j else j + 1];
    }
  }

  class Node {
    var data: int
    var next: Node?

    constructor (data: int, next: Node?)
      ensures this.data == data && this.next == next
    {
      this.data := data;
      this.next := next;
    }
  }

  class SinglyLinkedList {
    var head: Node?
    var size: nat
    /** The nodes reachable from `head`, in order. */
    ghost var spine: seq<Node>
    /** Their data, in order. */
    ghost var contents: seq<int>
    /** The nodes this list may own: every node of `spine`, and nodes it has since released. */
    ghost var Repr: set<object>

    /** `head` starts the chain `spine` of distinct nodes ending in NULL; `size` counts them. */
    ghost predicate Valid()
      reads this, spine
    {
      && |spine| == size
      && head == (if spine == [] then null else spine[0])
      && Holds(spine, contents)
      && Linked(spine)
      && Distinct(spine)
      && Within(spine, Repr)
    }

    /** `create_singly_linked_list` after its allocation succeeds: no nodes, size 0. */
    constructor ()
      ensures Valid() && contents == [] && spine == [] && Repr == {}
    {
      Repr := {};
      head := null;
      size := 0;
      spine := [];
      contents := [];
    }

    /** The node at index `i`, reached by following `next` from the head. */
    method Walk(i: nat) returns (current: Node)
      requires Valid() && i < size
      ensures current == spine[i]
    {
      current := head;
      var k := 0;
      while k < i
        invariant 0 <= k <= i && current == spine[k]
      {
        assert spine[k].next == Successor(spine, k);
        current := current.next;
        k := k + 1;
      }
    }

    /** `insert_at_beginning`: the value becomes element 0, unless its node cannot be allocated. */
    method InsertAtBeginning(data: int, allocFails: bool) returns (ok: bool)
      requires Valid()
      modifies this
      ensures Valid() && fresh(Repr - old(Repr))
      ensures ok == !allocFails
      ensures contents == if ok then [data] + old(contents) else old(contents)
    {
      if allocFails {
        return false;
      }
      var node := new Node(data, head);
      LinkFront(node);
      return true;
    }

    /** Makes `node`, whose `next` already points at the old head, the new first node. */
    method LinkFront(node: Node)
      requires Valid() && node !in spine && node.next == head
      modifies this
      ensures Valid() && Repr == old(Repr) + {node}
      ensures spine == [node] + old(spine) && contents == [node.data] + old(contents)
    {
      ghost var s0, c0 := spine, contents;
      head := node;
      size := size + 1;
      spine := s0[..0] + [node] + s0[0..];
      contents := c0[..0] + [node.data] + c0[0..];
      Repr := Repr + {node};
      InsertedLinked(s0, 0, node);
      InsertedHolds(s0, c0, 0, node);
      InsertedDistinct(s0, 0, node);
      InsertedWithin(s0, old(Repr), 0, node);
    }

    /** `insert_at_end`: the value becomes the last element, unless its node cannot be allocated. */
    method InsertAtEnd(data: int, allocFails: bool) returns (ok: bool)
      requires Valid()
      modifies this, Repr
      ensures Valid() && fresh(Repr - old(Repr))
      ensures ok == !allocFails
      ensures contents == if ok then old(contents) + [data] else old(contents)
    {
      if allocFails {
        return false;
      }
      var node := new Node(data, null);
      if head == null {
        LinkFront(node);
      } else {
        var current := head;
        ghost var k := 0;
        while current.next != null
          invariant 0 <= k < |spine| && current == spine[k]
          decreases |spine| - k
        {
          assert spine[k].next == Successor(spine, k);
          current := current.next;
          k := k + 1;
        }
        assert spine[k].next == Successor(spine, k);
        LinkAfter(current, node, |spine|);
        assert contents[..|contents| - 1] == old(contents);
      }
      return true;
    }

    /**
     * `insert_at_position`: position 0 inserts at the beginning, a position
     * from the size on at the end, and any other position links the new node
     * after the node at `position - 1`.
     */
    method InsertAtPosition(data: int, position: nat, allocFails: bool) returns (ok: bool)
      requires Valid()
      modifies this, Repr
      ensures Valid() && fresh(Repr - old(Repr))
      ensures ok == !allocFails
      ensures contents == if ok then InsertAt(old(contents), position, data) else old(contents)
    {
      if position == 0 {
        ok := InsertAtBeginning(data, allocFails);
        return;
      }
      if position >= size {
        ok := InsertAtEnd(data, allocFails);
        return;
      }
      if allocFails {
        return false;
      }
      var node := new Node(data, null);
      var current := Walk(position - 1);
      LinkAfter(current, node, position);
      return true;
    }

    /** Links `node` in after `current`, the node at index `p - 1`, so that it becomes the node at `p`. */
    method LinkAfter(current: Node, node: Node, ghost p: nat)
      requires Valid() && 0 < p <= |spine| && current == spine[p - 1]
      requires node !in spine
      modifies this, current, node
      ensures Valid() && node.data == old(node.data) && Repr == old(Repr) + {node}
      ensures spine == old(spine)[..p] + [node] + old(spine)[p..]
      ensures contents == old(contents)[..p] + [node.data] + old(contents)[p..]
    {
      ghost var s0, c0 := spine, contents;
      assert forall j {:trigger s0[j].next} {:trigger s0[j].data} :: 0 <= j < |s0| ==> s0[j].next == Successor(s0, j) && s0[j].data == c0[j];
      size := size + 1;
      spine := s0[..p] + [node] + s0[p..];
      contents := c0[..p] + [node.data] + c0[p..];
      Repr := Repr + {node};
      Splice(current, node);
      forall j | 0 <= j < |s0| && j + 1 != p ensures s0[j].next == Successor(s0, j) {
        assert s0[j] != current && s0[j] != node;
      }
      InsertedLinked(s0, p, node);
      InsertedHolds(s0, c0, p, node);
      InsertedDistinct(s0, p, node);
      InsertedWithin(s0, old(Repr), p, node);
    }

    /** Points `node` at the successor of `current`, and `current` at `node`. */
    static method Splice(current: Node, node: Node)
      requires current != node
      modifies current, node
      ensures node.next == old(current.next) && current.next == node
      ensures current.data == old(current.data) && node.data == old(node.data)
    {
      node.next := current.next;
      current.next := node;
    }

    /** `delete_by_value`: unlinks the first node holding `data`; false on an empty list or an absent value. */
    method DeleteByValue(data: int) returns (ok: bool)
      requires Valid()
      modifies this, Repr
      ensures Valid() && Repr == old(Repr)
      ensures ok <==> data in old(contents)
      ensures contents == RemoveFirst(old(contents), data)
    {
      if head == null {
        return false;
      }
      var current := head;
      var previous: Node? := null;
      ghost var k := 0;
      while current != null && current.data != data
        invariant 0 <= k <= |spine|
        invariant current == if k < |spine| then spine[k] else null
        invariant previous == if k == 0 then null else spine[k - 1]
        invariant forall i :: 0 <= i < k ==> contents[i] != data
        decreases |spine| - k
      {
        assert spine[k].next == Successor(spine, k);
        previous := current;
        current := current.next;
        k := k + 1;
      }
      if current == null {
        return false;
      }
      assert FirstIndex(contents, data) == k;
      Unlink(previous, current, k);
      return true;
    }

    /** `delete_at_position`: unlinks the node at `position`; false on an empty list or a position past the end. */
    method DeleteAtPosition(position: nat) returns (ok: bool)
      requires Valid()
      modifies this, Repr
      ensures Valid() && Repr == old(Repr)
      ensures ok <==> position < |old(contents)|
      ensures contents == if ok then RemoveAt(old(contents), position) else old(contents)
    {
      if head == null || position >= size {
        return false;
      }
      var current := head;
      var previous: Node? := null;
      var i := 0;
      while i < position && current != null
        invariant 0 <= i <= position
        invariant current == spine[i]
        invariant previous == if i == 0 then null else spine[i - 1]
      {
        assert spine[i].next == Successor(spine, i);
        previous := current;
        current := current.next;
        i := i + 1;
      }
      Unlink(previous, current, position);
      return true;
    }

    /** The unlinking shared by both deletions: the head moves on, or the predecessor bypasses the node. */
    method Unlink(previous: Node?, current: Node, ghost k: nat)
      requires Valid() && k < |spine| && current == spine[k]
      requires previous == if k == 0 then null else spine[k - 1]
      modifies this, Repr
      ensures Valid() && Repr == old(Repr)
      ensures spine == old(spine)[..k] + old(spine)[k + 1..]
      ensures contents == RemoveAt(old(contents), k)
    {
      ghost var s0, c0 := spine, contents;
      assert forall j {:trigger s0[j].next} {:trigger s0[j].data} :: 0 <= j < |s0| ==> s0[j].next == Successor(s0, j) && s0[j].data == c0[j];
      size := size - 1;
      spine := s0[..k] + s0[k + 1..];
      contents := c0[..k] + c0[k + 1..];
      label BeforeUnlink:
      if previous == null {
        head := current.next;
      } else {
        previous.next := current.next;
      }
      forall j | 0 <= j < |s0| && j + 1 != k ensures s0[j].next == Successor(s0, j) {
        assert old@BeforeUnlink(s0[j].next) == Successor(s0, j);
      }
      RemovedLinked(s0, k);
      RemovedHolds(s0, c0, k);
      RemovedDistinct(s0, k);
      RemovedWithin(s0, Repr, k);
    }

    /** `find_node`: the first node holding `data`, NULL if there is none. */
    method FindNode(data: int) returns (n: Node?)
      requires Valid()
      ensures n == null <==> data !in contents
      ensures n != null ==> n.data == data && n == spine[FirstIndex(contents, data)]
    {
      var current := head;
      ghost var k := 0;
      while current != null
        invariant 0 <= k <= |spine|
        invariant current == if k < |spine| then spine[k] else null
        invariant forall i :: 0 <= i < k ==> contents[i] != data
        decreases |spine| - k
      {
        assert spine[k].next == Successor(spine, k);
        if current.data == data {
          assert FirstIndex(contents, data) == k;
          return current;
        }
        current := current.next;
        k := k + 1;
      }
      return null;
    }

    /** The walk of `print_list`: the data from the head to the last node, without the formatting. */
    method Values() returns (values: seq<int>)
      requires Valid()
      ensures values == contents
    {
      values := [];
      var current := head;
      ghost var k := 0;
      while current != null
        invariant 0 <= k <= |spine|
        invariant current == if k < |spine| then spine[k] else null
        invariant values == contents[..k]
        decreases |spine| - k
      {
        assert spine[k].next == Successor(spine, k);
        values := values + [current.data];
        current := current.next;
        k := k + 1;
      }
    }

    /** `clear_list`: walks past every node to release it, then empties the list. */
    method Clear()
      requires Valid()
      modifies this
      ensures Valid() && contents == [] && size == 0 && head == null && Repr == old(Repr)
    {
      var current := head;
      ghost var k := 0;
      while current != null
        invariant 0 <= k <= |spine|
        invariant current == if k < |spine| then spine[k] else null
        decreases |spine| - k
      {
        assert spine[k].next == Successor(spine, k);
        current := current.next;
        k := k + 1;
      }
      head := null;
      size := 0;
      spine := [];
      contents := [];
    }
  }

  /** `get_size`: the node count, 0 for a NULL list. */
  function GetSize(list: SinglyLinkedList?): (n: nat)
    reads list, if list == null then [] else list.spine
    requires list != null ==> list.Valid()
    ensures n == if list == null then 0 else |list.contents|
  {
    if list == null then 0 else list.size
  }

  /** `is_empty`: true for a NULL list or a NULL head. */
  function IsEmpty(list: SinglyLinkedList?): (b: bool)
    reads list, if list == null then [] else list.spine
    requires list != null ==> list.Valid()
    ensures b <==> list == null || list.contents == []
  {
    list == null || list.head == null
  }

  /** `create_singly_linked_list`: NULL when the allocation fails, otherwise an empty list. */
  method CreateSinglyLinkedList(allocFails: bool) returns (list: SinglyLinkedList?)
    ensures allocFails <==> list == null
    ensures list != null ==> fresh(list) && list.Valid() && list.contents == []
  {
    if allocFails {
      return null;
    }
    list := new SinglyLinkedList();
  }

  /** The first stage of the demonstration program: 30, 20 and 10 inserted at the beginning. */
  method DemoFront() returns (list: SinglyLinkedList)
    ensures fresh(list) && fresh(list.Repr) && list.Valid()
    ensures list.contents == [10, 20, 30]
  {
    list := new SinglyLinkedList();
    var ok := list.InsertAtBeginning(30, false);
    assert fresh(list.Repr);
    ok := list.InsertAtBeginning(20, false);
    assert fresh(list.Repr);
    ok := list.InsertAtBeginning(10, false);
  }

  /** The list the demonstration program builds: `DemoFront`, then 40 at the end and 25 at position 2. */
  method DemoList() returns (list: SinglyLinkedList)
    ensures fresh(list) && fresh(list.Repr) && list.Valid()
    ensures list.contents == [10, 20, 25, 30, 40]
  {
    list := DemoFront();
    var ok := list.InsertAtEnd(40, false);
    assert fresh(list.Repr) && list.contents == [10, 20, 30, 40];
    ok := list.InsertAtPosition(25, 2, false);
  }

  /** The two deletions of the demonstration program on plain data. */
  lemma DemoDeletions()
    ensures 20 in [10, 20, 25, 30, 40] && RemoveFirst([10, 20, 25, 30, 40], 20) == [10, 25, 30, 40]
    ensures RemoveAt([10, 25, 30, 40], 1) == [10, 30, 40]
  {
    var s := [10, 20, 25, 30, 40];
    assert s[1] == 20;
    assert FirstIndex(s, 20) == 1;
    assert s[..1] + s[2..] == [10, 25, 30, 40];
    var t := [10, 25, 30, 40];
    assert t[..1] + t[2..] == [10, 30, 40];
  }

  /** The demonstration program: builds `DemoList`, finds 25, deletes 20 and then the element at position 1. */
  method Demo() returns (found: bool, deletedValue: bool, deletedPosition: bool, result: seq<int>, size: nat)
    ensures found && deletedValue && deletedPosition
    ensures result == [10, 30, 40] && size == 3
  {
    var list := DemoList();
    var node := list.FindNode(25);
    found := node != null;
    DemoDeletions();
    deletedValue := list.DeleteByValue(20);
    deletedPosition := list.DeleteAtPosition(1);
    result := list.Values();
    size := GetSize(list);
  }
}
