// The older search tree of trees/BST.go: a root link and nodes with public
// links, an `Insert` that always adds a node, and no other operation. Keys
// below a node go left; keys at or above it, duplicates included, go right.
module LegacyTrees {
  import SearchTree

  type Tree = SearchTree.Tree

  // ---------------------------------------------------------------------
  // Values

  /** Keys in a left subtree are below the node's key and keys in a right
      subtree are at or above it: the order trees/BST.go keeps, with room
      for repeated keys. */
  predicate Ordered(t: Tree) {
    match t
    case Nil => true
    case Node(l, x, r) =>
      (forall k :: k in SearchTree.Keys(l) ==> k < x) &&
      (forall k :: k in SearchTree.Keys(r) ==> x <= k) &&
      Ordered(l) && Ordered(r)
  }

  predicate NonDecreasing(s: seq<int>) {
    forall i, j :: 0 <= i < j < |s| ==> s[i] <= s[j]
  }

  /** `insertNode` on values: below the key go left, otherwise go right,
      and the new leaf fills the empty slot reached. */
  function InsertLeaf(t: Tree, v: int): (u: Tree)
    ensures u != SearchTree.Nil
    ensures SearchTree.Keys(u) == SearchTree.Keys(t) + {v}
    ensures SearchTree.Size(u) == SearchTree.Size(t) + 1
  {
    match t
    case Nil => SearchTree.Node(SearchTree.Nil, v, SearchTree.Nil)
    case Node(l, x, r) =>
      if v < x then SearchTree.Node(InsertLeaf(l, v), x, r)
      else SearchTree.Node(l, x, InsertLeaf(r, v))
  }

  /** `u` is `t` with exactly one empty child slot filled by a leaf holding
      `v`; every other key and link is as in `t`. */
  predicate LeafAdded(t: Tree, u: Tree, v: int) {
    match t
    case Nil => u == SearchTree.Node(SearchTree.Nil, v, SearchTree.Nil)
    case Node(l, x, r) =>
      u.Node? && u.value == x &&
      ((LeafAdded(l, u.left, v) && u.right == r) || (u.left == l && LeafAdded(r, u.right, v)))
  }

  /** The leaf hangs from a slot that was empty, and nothing else moves. */
  lemma {:induction false} InsertAddsOneLeaf(t: Tree, v: int)
    ensures LeafAdded(t, InsertLeaf(t, v), v)
  {
    match t
    case Nil =>
    case Node(l, x, r) =>
      if v < x {
        InsertAddsOneLeaf(l, v);
      } else {
        InsertAddsOneLeaf(r, v);
      }
  }

  /** Inserting keeps the ordering: smaller keys left, the rest right. */
  lemma {:induction false} InsertKeepsOrder(t: Tree, v: int)
    requires Ordered(t)
    ensures Ordered(InsertLeaf(t, v))
  {
    match t
    case Nil =>
    case Node(l, x, r) =>
      if v < x {
        InsertKeepsOrder(l, v);
      } else {
        InsertKeepsOrder(r, v);
      }
  }

  /** The keys of `t` with their repetitions. */
  function Bag(t: Tree): multiset<int> {
    match t
    case Nil => multiset{}
    case Node(l, x, r) => Bag(l) + multiset{x} + Bag(r)
  }

  lemma {:induction false} BagIsInOrder(t: Tree)
    ensures Bag(t) == multiset(SearchTree.InOrder(t))
  {
    match t
    case Nil =>
    case Node(l, x, r) =>
      BagIsInOrder(l);
      BagIsInOrder(r);
      var a, b := SearchTree.InOrder(l), SearchTree.InOrder(r);
      assert multiset(a + [x] + b) == multiset(a) + multiset{x} + multiset(b);
  }

  lemma {:induction false} InsertBag(t: Tree, v: int)
    ensures Bag(InsertLeaf(t, v)) == Bag(t) + multiset{v}
  {
    match t
    case Nil =>
    case Node(l, x, r) =>
      var bl, bx, br, bv := Bag(l), multiset{x}, Bag(r), multiset{v};
      if v < x {
        InsertBag(l, v);
        calc {
          Bag(InsertLeaf(t, v));
          Bag(InsertLeaf(l, v)) + bx + br;
          bl + bv + bx + br;
          bl + bx + br + bv;
        }
      } else {
        InsertBag(r, v);
        calc {
          Bag(InsertLeaf(t, v));
          bl + bx + Bag(InsertLeaf(r, v));
          bl + bx + (br + bv);
        }
      }
  }

  /** Every insert adds one occurrence of its key, a repeated one too. */
  lemma InsertKeepsDuplicates(t: Tree, v: int)
    ensures multiset(SearchTree.InOrder(InsertLeaf(t, v))) == multiset(SearchTree.InOrder(t)) + multiset{v}
  {
    InsertBag(t, v);
    BagIsInOrder(t);
    BagIsInOrder(InsertLeaf(t, v));
  }

  /** An ordered tree lists its keys, repeats included, in non-decreasing
      order. */
  lemma {:induction false} OrderedInOrderSorted(t: Tree)
    requires Ordered(t)
    ensures NonDecreasing(SearchTree.InOrder(t))
  {
    match t
    case Nil =>
    case Node(l, x, r) =>
      OrderedInOrderSorted(l);
      OrderedInOrderSorted(r);
      SearchTree.InOrderListsKeys(l);
      SearchTree.InOrderListsKeys(r);
      var a, b := SearchTree.InOrder(l), SearchTree.InOrder(r);
      var s := a + [x] + b;
      forall i, j | 0 <= i < j < |s| ensures s[i] <= s[j] {
        if j < |a| {
          assert s[i] == a[i] && s[j] == a[j];
        } else if i < |a| {
          assert s[i] == a[i] && a[i] in a;
          if j > |a| {
            assert s[j] == b[j - |a| - 1] && b[j - |a| - 1] in b;
          }
        } else if i == |a| {
          assert s[j] == b[j - |a| - 1] && b[j - |a| - 1] in b;
        } else {
          assert s[i] == b[i - |a| - 1] && s[j] == b[j - |a| - 1];
        }
      }
  }

  // ---------------------------------------------------------------------
  // Nodes on the heap

  /** `Node`: a key and two public child links. */
  class Node {
    var value: int
    var left: Node?
    var right: Node?
    ghost var Repr: set<Node>
    ghost var Model: Tree

    /** The subtree below this node is a finite, unshared tree whose
        abstract value is `Model`. */
    ghost predicate Valid()
      reads this, Repr
      decreases Repr
    {
      this in Repr &&
      (left != null ==> left in Repr && left.Repr <= Repr && this !in left.Repr && left.Valid()) &&
      (right != null ==> right in Repr && right.Repr <= Repr && this !in right.Repr && right.Valid()) &&
      (left != null && right != null ==> left.Repr !! right.Repr) &&
      Model == SearchTree.Node(ModelOf(left), value, ModelOf(right))
    }

    /** `NewNode`: a node holding `value` with no children. */
    constructor (value: int)
      ensures Valid() && fresh(this)
      ensures Repr == {this} && this.value == value && left == null && right == null
      ensures Model == SearchTree.Node(SearchTree.Nil, value, SearchTree.Nil)
    {
      this.value := value;
      left := null;
      right := null;
      Repr := {this};
      Model := SearchTree.Node(SearchTree.Nil, value, SearchTree.Nil);
    }
  }

  ghost function ModelOf(n: Node?): Tree
    reads n
  {
    if n == null then SearchTree.Nil else n.Model
  }

  ghost function ReprOf(n: Node?): set<Node>
    reads n
  {
    if n == null then {} else n.Repr
  }

  /** Recomputes the ghost footprint and value of `node` from its children
      after one of its links changed. */
  ghost method Refresh(node: Node)
    requires node.left != null ==> node.left.Valid() && node !in node.left.Repr
    requires node.right != null ==> node.right.Valid() && node !in node.right.Repr
    requires node.left != null && node.right != null ==> node.left.Repr !! node.right.Repr
    modifies node
    ensures node.Valid()
    ensures node.Repr == {node} + ReprOf(node.left) + ReprOf(node.right)
    ensures node.Model == SearchTree.Node(old(ModelOf(node.left)), node.value, old(ModelOf(node.right)))
    ensures node.value == old(node.value) && node.left == old(node.left) && node.right == old(node.right)
  {
    node.Repr := {node} + ReprOf(node.left) + ReprOf(node.right);
    node.Model := SearchTree.Node(ModelOf(node.left), node.value, ModelOf(node.right));
  }

  /** `insertNode`: walk down from `root` and hang `newNode` from the first
      empty child slot on the search path. Keys and non-nil links of the
      nodes already there stay as they were. */
  method InsertNode(root: Node, newNode: Node)
    requires root.Valid()
    requires newNode.Valid() && newNode.Repr == {newNode} && newNode.left == null && newNode.right == null
    requires newNode !in root.Repr
    modifies root.Repr
    decreases root.Repr
    ensures root.Valid() && root.Repr <= old(root.Repr) + {newNode}
    ensures root.Model == InsertLeaf(old(root.Model), newNode.value)
    ensures forall n :: n in old(root.Repr) ==>
              n.value == old(n.value) &&
              (old(n.left) == null || n.left == old(n.left)) &&
              (old(n.right) == null || n.right == old(n.right))
  {
    if newNode.value < root.value {
      if root.left == null {
        root.left := newNode;
      } else {
        InsertNode(root.left, newNode);
      }
    } else {
      if root.right == null {
        root.right := newNode;
      } else {
        InsertNode(root.right, newNode);
      }
    }
    Refresh(root);
  }

  /** `BST`: the tree object, a root link. */
  class BST {
    var Root: Node?
    ghost var Repr: set<object>

    ghost predicate Valid()
      reads this, Repr
    {
      this in Repr &&
      (Root != null ==> Root in Repr && Root.Repr <= Repr && Root.Valid()) &&
      Ordered(Model())
    }

    ghost function Model(): Tree
      reads this, Root
    {
      ModelOf(Root)
    }

    /** `BST{}`: the zero value, an empty tree. */
    constructor Empty()
      ensures Valid() && fresh(Repr)
      ensures Root == null && Model() == SearchTree.Nil
    {
      Root := null;
      Repr := {this};
    }

    /** `New(value)`: a tree whose root holds `value` and has no children. */
    constructor New(value: int)
      ensures Valid() && fresh(Repr)
      ensures Root != null && Root.value == value && Root.left == null && Root.right == null
      ensures Model() == SearchTree.Node(SearchTree.Nil, value, SearchTree.Nil)
    {
      Root := new Node(value);
      new;
      Repr := {this} + Root.Repr;
    }

    /** `Insert`: always adds a node holding `value`; into an empty tree it
        becomes the root. */
    method Insert(value: int)
      requires Valid()
      modifies Repr
      ensures Valid() && fresh(Repr - old(Repr))
      ensures Model() == InsertLeaf(old(Model()), value)
      ensures old(Root) == null ==> Root != null && Root.value == value && Root.left == null && Root.right == null
      ensures old(Root) != null ==> Root == old(Root)
    {
      var node := new Node(value);
      InsertKeepsOrder(Model(), value);
      if Root == null {
        Root := node;
      } else {
        InsertNode(Root, node);
      }
      Repr := Repr + {node};
    }
  }
}
