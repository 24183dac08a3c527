/**
 * The fixed-depth "trie" of week4/tries/tries.c: every node stores a
 * university name and ten numbered child slots; names are placed in a slot
 * chosen by the caller, and search is a preorder walk over the slots.
 *
 * Each heap node carries a ghost `tree`, the value of the subtree it roots,
 * so that search and deletion are specified by functions on `Tree` values.
 * Whether `malloc` returns NULL is a parameter of node creation.
 */
module Tries {
  import opened Basics

  /** `MAX_PATHS`: the number of child slots of every node. */
  const MAX_PATHS := 10

  /** The value of a subtree: the name at its root and its slots, each empty or holding a subtree. */
  datatype Tree = Tree(name: string, children: seq<Option<Tree>>)

  /** A node that has just been created: the name, and every slot empty. */
  function Leaf(name: string): Tree
  {
    Tree(name, seq(MAX_PATHS, _ => None))
  }

  /** `t` with the empty slot `i` holding a new leaf named `name`. */
  function Put(t: Tree, i: nat, name: string): (r: Tree)
    requires i < |t.children|
    ensures r.name == t.name && |r.children| == |t.children|
    ensures r.children[i] == Some(Leaf(name))
    ensures forall j :: 0 <= j < |t.children| && j != i ==> r.children[j] == t.children[j]
  {
    Tree(t.name, t.children[i := Some(Leaf(name))])
  }

  /** All subtrees of `t` in preorder: the root, then the subtrees of slot 0, 1, ... in turn. */
  function Subtrees(t: Tree): seq<Tree>
    decreases t, |t.children| + 1
  {
    [t] + ForestFrom(t, 0)
  }

  /** The preorders of the subtrees in slots `i`, `i + 1`, ... of `t`, one after the other. */
  function ForestFrom(t: Tree, i: nat): seq<Tree>
    decreases t, |t.children| - i
  {
    if i >= |t.children| then []
    else
      assert t.children[i] in t.children;
      match t.children[i]
      case None => ForestFrom(t, i + 1)
      case Some(c) => Subtrees(c) + ForestFrom(t, i + 1)
  }

  /** The names stored anywhere in `ts`. */
  function NamesOf(ts: seq<Tree>): set<string>
  {
    set u | u in ts :: u.name
  }

  /** The names stored anywhere in the subtree `t`. */
  function Names(t: Tree): set<string>
  {
    NamesOf(Subtrees(t))
  }

  /** The first tree in `ts` whose root is named `name`, if there is one. */
  function FirstNamed(ts: seq<Tree>, name: string): (r: Option<Tree>)
    ensures r == None <==> forall u | u in ts :: u.name != name
    ensures r.Some? ==> exists k :: (0 <= k < |ts| && ts[k] == r.value && r.value.name == name
                                      && forall j :: 0 <= j < k ==> ts[j].name != name)
  {
    if ts == [] then None
    else if ts[0].name == name then Some(ts[0])
    else
      var r := FirstNamed(ts[1..], name);
      assert forall u | u in ts :: u == ts[0] || u in ts[1..];
      assert r.Some? ==> exists k :: (0 <= k < |ts| && ts[k] == r.value && r.value.name == name
                                       && forall j :: 0 <= j < k ==> ts[j].name != name)
      by {
        if r.Some? {
          var k :| 0 <= k < |ts[1..]| && ts[1..][k] == r.value && r.value.name == name
            && forall j :: 0 <= j < k ==> ts[1..][j].name != name;
          assert ts[k + 1] == r.value;
          assert forall j :: 1 <= j < k + 1 ==> ts[j] == ts[1..][j - 1];
        }
      }
      r
  }

  /** What `trieSearch` finds in the subtree `t`: its first subtree in preorder named `name`. */
  function Find(t: Tree, name: string): (r: Option<Tree>)
    ensures r.Some? ==> r.value.name == name && r.value in Subtrees(t)
  {
    FirstNamed(Subtrees(t), name)
  }

  /** In a concatenation, the first match of the left part comes first; otherwise the right part decides. */
  lemma {:induction false} FirstNamedAppend(a: seq<Tree>, b: seq<Tree>, name: string)
    ensures FirstNamed(a + b, name) == if FirstNamed(a, name).Some? then FirstNamed(a, name) else FirstNamed(b, name)
  {
    if a == [] {
      assert a + b == b;
    } else {
      assert (a + b)[0] == a[0] && (a + b)[1..] == a[1..] + b;
      FirstNamedAppend(a[1..], b, name);
    }
  }

  /** Search finds something exactly when the name is stored somewhere in the subtree. */
  lemma FindSome(t: Tree, name: string)
    ensures Find(t, name).Some? <==> name in Names(t)
    ensures Find(t, name).Some? ==> Find(t, name).value.name == name
  {
    if name in Names(t) {
      var u :| u in Subtrees(t) && u.name == name;
    }
  }

  lemma NamesOfAppend(a: seq<Tree>, b: seq<Tree>)
    ensures NamesOf(a + b) == NamesOf(a) + NamesOf(b)
  {
    assert forall u | u in a + b :: u in a || u in b;
  }

  /** A forest depends only on the slots from `i` on. */
  lemma {:induction false} ForestFromSlots(t: Tree, u: Tree, i: nat)
    requires |t.children| == |u.children|
    requires forall j :: i <= j < |t.children| ==> t.children[j] == u.children[j]
    ensures ForestFrom(t, i) == ForestFrom(u, i)
    decreases |t.children| - i
  {
    if i < |t.children| {
      ForestFromSlots(t, u, i + 1);
    }
  }

  /** Empty slots from `i` on contribute nothing. */
  lemma {:induction false} EmptyForest(t: Tree, i: nat)
    requires forall j :: i <= j < |t.children| ==> t.children[j] == None
    ensures ForestFrom(t, i) == []
    decreases |t.children| - i
  {
    if i < |t.children| {
      EmptyForest(t, i + 1);
    }
  }

  /** A tree whose slots are all empty, such as a new leaf, is its own whole preorder. */
  lemma LeafSubtrees(t: Tree)
    requires forall j :: 0 <= j < |t.children| ==> t.children[j] == None
    ensures Subtrees(t) == [t]
  {
    EmptyForest(t, 0);
  }

  /** Filling slot `i` adds the new name to the forest of every slot range that covers `i`. */
  lemma {:induction false} PutForestNames(t: Tree, i: nat, name: string, j: nat)
    requires i < |t.children| && t.children[i] == None && j <= i
    ensures NamesOf(ForestFrom(Put(t, i, name), j)) == NamesOf(ForestFrom(t, j)) + {name}
    decreases i - j
  {
    var t' := Put(t, i, name);
    if j == i {
      ForestFromSlots(t, t', i + 1);
      LeafSubtrees(Leaf(name));
      NamesOfAppend([Leaf(name)], ForestFrom(t', i + 1));
    } else {
      PutForestNames(t, i, name, j + 1);
      match t.children[j]
      case None =>
      case Some(c) =>
        NamesOfAppend(Subtrees(c), ForestFrom(t, j + 1));
        NamesOfAppend(Subtrees(c), ForestFrom(t', j + 1));
    }
  }

  /** A successful `trieInsert` of `name` into an empty slot adds exactly that name to the tree's names. */
  lemma PutNames(t: Tree, i: nat, name: string)
    requires i < |t.children| && t.children[i] == None
    ensures Names(Put(t, i, name)) == Names(t) + {name}
  {
    var t' := Put(t, i, name);
    PutForestNames(t, i, name, 0);
    NamesOfAppend([t], ForestFrom(t, 0));
    NamesOfAppend([t'], ForestFrom(t', 0));
  }

  /** Filling slot `i` adds one tree to the forest of every slot range that covers `i`. */
  lemma {:induction false} PutForestSize(t: Tree, i: nat, name: string, j: nat)
    requires i < |t.children| && t.children[i] == None && j <= i
    ensures |ForestFrom(Put(t, i, name), j)| == |ForestFrom(t, j)| + 1
    decreases i - j
  {
    var t' := Put(t, i, name);
    if j == i {
      ForestFromSlots(t, t', i + 1);
      LeafSubtrees(Leaf(name));
    } else {
      PutForestSize(t, i, name, j + 1);
    }
  }

  /** A successful `trieInsert` adds exactly one node to the tree. */
  lemma PutSize(t: Tree, i: nat, name: string)
    requires i < |t.children| && t.children[i] == None
    ensures |Subtrees(Put(t, i, name))| == |Subtrees(t)| + 1
  {
    PutForestSize(t, i, name, 0);
  }

  class TrieNode {
    /** `university`: the name stored in this node. */
    var university: string
    /** `paths`: the child slots. */
    var paths: array<TrieNode?>
    /** The value of the subtree rooted here. */
    ghost var tree: Tree
    /** This node, its slot array and every node below it. */
    ghost var Repr: set<object>

    /**
     * The slot array has `MAX_PATHS` slots, `tree` mirrors the name and the
     * slots, and every child is a valid subtree whose footprint lies inside
     * this one and contains neither this node nor its slot array.
     */
    ghost predicate Valid()
      reads this, Repr
      decreases Repr
    {
      && this in Repr && paths in Repr
      && paths.Length == MAX_PATHS
      && tree.name == university && |tree.children| == MAX_PATHS
      && forall i :: 0 <= i < MAX_PATHS ==>
           if paths[i] == null then tree.children[i] == None
           else
             && paths[i] in Repr && paths[i].Repr <= Repr
             && this !in paths[i].Repr && paths !in paths[i].Repr
             && paths[i].Valid()
             && tree.children[i] == Some(paths[i].tree)
    }

    /** `trieCreateNode` once both allocations succeed: a copy of the name, every slot NULL. */
    constructor (name: string)
      ensures Valid() && fresh(Repr) && tree == Leaf(name)
    {
      var slots := new TrieNode?[MAX_PATHS];
      for i := 0 to MAX_PATHS
        invariant forall j :: 0 <= j < i ==> slots[j] == null
      {
        slots[i] := null;
      }
      university := name;
      paths := slots;
      tree := Leaf(name);
      Repr := {this, slots};
    }
  }

  /** `trieCreateNode`: NULL when either allocation fails, otherwise a fresh leaf. */
  method CreateNode(name: string, nodeAllocFails: bool, nameAllocFails: bool) returns (n: TrieNode?)
    ensures n == null <==> nodeAllocFails || nameAllocFails
    ensures n != null ==> fresh(n.Repr) && n.Valid() && n.tree == Leaf(name)
  {
    if nodeAllocFails || nameAllocFails {
      return null;
    }
    n := new TrieNode(name);
  }

  /**
   * `trieInsert`: false for a NULL root, an index outside the slots or an
   * occupied slot; otherwise the slot receives a new leaf, and the result
   * says whether its allocation succeeded.
   */
  method TrieInsert(root: TrieNode?, name: string, index: int, nodeAllocFails: bool, nameAllocFails: bool)
    returns (ok: bool)
    requires root != null ==> root.Valid()
    modifies if root == null then {} else {root, root.paths}
    ensures ok <==> (root != null && 0 <= index < MAX_PATHS && old(root.tree.children[index]) == None
                     && !nodeAllocFails && !nameAllocFails)
    ensures root != null ==> root.Valid() && fresh(root.Repr - old(root.Repr))
    ensures root != null ==> root.tree == if ok then Put(old(root.tree), index, name) else old(root.tree)
  {
    if root == null {
      return false;
    }
    if index < 0 || index >= MAX_PATHS {
      return false;
    }
    if root.paths[index] != null {
      return false;
    }
    var node := CreateNode(name, nodeAllocFails, nameAllocFails);
    root.paths[index] := node;
    if node != null {
      root.tree := Put(root.tree, index, name);
      root.Repr := root.Repr + node.Repr;
    }
    return node != null;
  }

  /** The child in slot `i` of a valid node is valid, mirrors slot `i` of the tree, and owns less than its parent. */
  lemma ChildValid(root: TrieNode, i: nat)
    requires root.Valid() && i < MAX_PATHS && root.paths[i] != null
    ensures root.paths[i].Valid() && root.tree.children[i] == Some(root.paths[i].tree)
    ensures root.paths[i].Repr < root.Repr
  {
  }

  /** The forest from a filled slot: the slot's preorder, then the forest after it. */
  lemma ForestFromSome(t: Tree, i: nat, c: Tree)
    requires i < |t.children| && t.children[i] == Some(c)
    ensures ForestFrom(t, i) == Subtrees(c) + ForestFrom(t, i + 1)
  {
  }

  /** The forest from an empty slot is the forest after it. */
  lemma ForestFromNone(t: Tree, i: nat)
    requires i < |t.children| && t.children[i] == None
    ensures ForestFrom(t, i) == ForestFrom(t, i + 1)
  {
  }

  /** `trieSearch`: NULL for a NULL root, otherwise the first node in preorder holding `name`. */
  method TrieSearch(root: TrieNode?, name: string) returns (found: TrieNode?)
    requires root != null ==> root.Valid()
    ensures root == null ==> found == null
    ensures root != null ==> (found == null <==> Find(root.tree, name) == None)
    ensures found != null ==> found.university == name && Find(root.tree, name) == Some(found.tree)
    decreases if root == null then {} else root.Repr, 1
  {
    if root == null {
      return null;
    }
    FirstNamedAppend([root.tree], ForestFrom(root.tree, 0), name);
    if root.university == name {
      return root;
    }
    found := SearchSlots(root, name);
  }

  /** The loop of `trieSearch` over the slots of a root not named `name`: the first match in the slots' preorder. */
  method SearchSlots(root: TrieNode, name: string) returns (found: TrieNode?)
    requires root.Valid()
    ensures found == null <==> FirstNamed(ForestFrom(root.tree, 0), name) == None
    ensures found != null ==> found.university == name && FirstNamed(ForestFrom(root.tree, 0), name) == Some(found.tree)
    decreases root.Repr, 0
  {
    ghost var t := root.tree;
    for i := 0 to MAX_PATHS
      invariant FirstNamed(ForestFrom(t, 0), name) == FirstNamed(ForestFrom(t, i), name)
    {
      var child := root.paths[i];
      if child != null {
        ChildValid(root, i);
        found := TrieSearch(child, name);
        ForestFromSome(t, i, child.tree);
        FirstNamedAppend(Subtrees(child.tree), ForestFrom(t, i + 1), name);
        if found != null {
          return;
        }
      } else {
        ForestFromNone(t, i);
      }
    }
    EmptyForest(t, MAX_PATHS);
    return null;
  }

  /** `trieDelete`: frees every node below the root, then the root; the result counts the nodes freed. */
  method TrieDelete(root: TrieNode?) returns (released: nat)
    requires root != null ==> root.Valid()
    ensures released == if root == null then 0 else |Subtrees(root.tree)|
    decreases if root == null then {} else root.Repr
  {
    if root == null {
      return 0;
    }
    ghost var t := root.tree;
    released := 0;
    for i := 0 to MAX_PATHS
      invariant released + |ForestFrom(t, i)| == |ForestFrom(t, 0)|
    {
      if root.paths[i] != null {
        var below := TrieDelete(root.paths[i]);
        released := released + below;
      }
    }
    released := released + 1;
  }

  /** Three insertions into the empty slots 0, 1 and 9 of a leaf give a tree of four nodes holding all four names. */
  lemma ThreeInserted(t0: Tree, a: string, b: string, c: string)
    requires |t0.children| == MAX_PATHS && forall j :: 0 <= j < MAX_PATHS ==> t0.children[j] == None
    ensures var t3 := Put(Put(Put(t0, 0, a), 1, b), 9, c);
      Names(t3) == {t0.name, a, b, c} && |Subtrees(t3)| == 4
  {
    var t1 := Put(t0, 0, a);
    var t2 := Put(t1, 1, b);
    LeafSubtrees(t0);
    assert Names(t0) == {t0.name};
    PutNames(t0, 0, a);
    PutSize(t0, 0, a);
    PutNames(t1, 1, b);
    PutSize(t1, 1, b);
    PutNames(t2, 9, c);
    PutSize(t2, 9, c);
  }

  /** The insertions of the demonstration program: Harvard in slot 0, MIT in slot 1 and Stanford in slot 9 under the root. */
  method DemoRoot() returns (root: TrieNode, inserted: bool)
    ensures fresh(root.Repr) && root.Valid() && inserted
    ensures Names(root.tree) == {"Root University", "Harvard", "MIT", "Stanford"}
    ensures |Subtrees(root.tree)| == 4
  {
    root := new TrieNode("Root University");
    ghost var t0 := root.tree;
    var ok1 := TrieInsert(root, "Harvard", 0, false, false);
    var ok2 := TrieInsert(root, "MIT", 1, false, false);
    var ok3 := TrieInsert(root, "Stanford", 9, false, false);
    inserted := ok1 && ok2 && ok3;
    ThreeInserted(t0, "Harvard", "MIT", "Stanford");
  }

  /** The demonstration program: the insertions, a search for MIT, then freeing the whole tree. */
  method Demo() returns (inserted: bool, found: TrieNode?, released: nat)
    ensures inserted && found != null && found.university == "MIT"
    ensures released == 4
  {
    var root;
    root, inserted := DemoRoot();
    FindSome(root.tree, "MIT");
    found := TrieSearch(root, "MIT");
    released := TrieDelete(root);
  }
}
