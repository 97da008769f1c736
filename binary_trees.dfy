// The integer binary search tree of trees/binarytrees: the heap nodes
// (BNode.go), the tree object with its node count (BST.go), the node-level
// recursive helpers it delegates to, and the sideways renderer of utils.go.
// Every node carries a ghost footprint `Repr` and a ghost abstract value
// `Model`; operations are proved against the functions of SearchTree,
// Traversals and Rendering.
module BinaryTrees {
  import opened Utils
  import opened SearchTree
  import opened Traversals
  import opened Rendering
  import opened Queues

  /** A single node of the tree (`BNode`). */
  class BNode {
    var value: int
    var left: BNode?
    var right: BNode?
    ghost var Repr: set<BNode>
    ghost var Model: Tree

    /** The subtree below this node is a finite, unshared tree whose
        abstract value is `Model`. */
    ghost predicate Valid()
      reads this, Repr
      decreases Repr
    {
      this in Repr &&
      (left != null ==> left in Repr && left.Repr <= Repr && this !in left.Repr && left.Valid()) &&
      (right != null ==> right in Repr && right.Repr <= Repr && this !in right.Repr && right.Valid()) &&
      (left != null && right != null ==> left.Repr !! right.Repr) &&
      Model == Node(ModelOf(left), value, ModelOf(right))
    }

    /** `NewBNode`: a node holding `value` with no children. */
    constructor (value: int)
      ensures Valid() && fresh(this)
      ensures Repr == {this} && this.value == value && left == null && right == null
      ensures Model == Node(Nil, value, Nil)
    {
      this.value := value;
      left := null;
      right := null;
      Repr := {this};
      Model := Node(Nil, value, Nil);
    }
  }

  /** The abstract value of a possibly nil subtree. */
  ghost function ModelOf(n: BNode?): Tree
    reads n
  {
    if n == null then Nil else n.Model
  }

  ghost function ReprOf(n: BNode?): set<BNode>
    reads n
  {
    if n == null then {} else n.Repr
  }

  /** The nodes reachable from `n` by child links: the nodes of the tree
      `n` stands for. */
  ghost function NodesOf(n: BNode?): set<BNode>
    reads n, ReprOf(n)
    requires ValidNode(n)
    decreases ReprOf(n)
  {
    if n == null then {} else {n} + NodesOf(n.left) + NodesOf(n.right)
  }

  /** The nodes of a subtree lie in its footprint, and there is one per key
      position of its abstract value. */
  lemma {:induction false} NodesInFootprint(n: BNode?)
    requires ValidNode(n)
    decreases ReprOf(n)
    ensures NodesOf(n) <= ReprOf(n)
    ensures |NodesOf(n)| == Size(ModelOf(n))
  {
    if n != null {
      NodesInFootprint(n.left);
      NodesInFootprint(n.right);
      assert n !in NodesOf(n.left) + NodesOf(n.right);
      assert NodesOf(n.left) !! NodesOf(n.right);
    }
  }

  /** A possibly nil subtree that is well formed. */
  ghost predicate ValidNode(n: BNode?)
    reads n, ReprOf(n)
  {
    n != null ==> n.Valid()
  }

  /** A possibly nil subtree that also satisfies the ordering invariant. */
  ghost predicate ValidBST(n: BNode?)
    reads n, ReprOf(n)
  {
    n != null ==> n.Valid() && IsBST(n.Model)
  }

  // ---------------------------------------------------------------------
  // Node-level helpers of BST.go

  /** Recomputes the ghost footprint and abstract value of `node` from its
      children after one of its links or a child subtree changed. */
  ghost method Refresh(node: BNode)
    requires node.left != null ==> node.left.Valid() && node !in node.left.Repr
    requires node.right != null ==> node.right.Valid() && node !in node.right.Repr
    requires node.left != null && node.right != null ==> node.left.Repr !! node.right.Repr
    modifies node
    ensures node.Valid()
    ensures node.Repr == {node} + ReprOf(node.left) + ReprOf(node.right)
    ensures node.Model == Node(old(ModelOf(node.left)), node.value, old(ModelOf(node.right)))
    ensures node.value == old(node.value) && node.left == old(node.left) && node.right == old(node.right)
  {
    node.Repr := {node} + ReprOf(node.left) + ReprOf(node.right);
    node.Model := Node(ModelOf(node.left), node.value, ModelOf(node.right));
  }

  /** `insertNode`: walk down from `root` and hang `newNode` from the first
      empty child slot on the search path, unless its key is met on the way. */
  method InsertNode(root: BNode, newNode: BNode) returns (inserted: bool)
    requires root.Valid() && IsBST(root.Model)
    requires newNode.Valid() && newNode.Repr == {newNode} && newNode.left == null && newNode.right == null
    requires newNode !in root.Repr
    modifies root.Repr
    decreases root.Repr
    ensures root.Valid() && root.Repr <= old(root.Repr) + {newNode}
    ensures root.Model == SearchTree.Insert(old(root.Model), newNode.value)
    ensures inserted == (newNode.value !in Keys(old(root.Model)))
  {
    if root.value == newNode.value {
      return false;
    }
    if newNode.value < root.value {
      DescendLeft(root.Model, newNode.value);
      if root.left == null {
        root.left := newNode;
        Refresh(root);
        return true;
      }
      inserted := InsertNode(root.left, newNode);
      Refresh(root);
    } else {
      DescendRight(root.Model, newNode.value);
      if root.right == null {
        root.right := newNode;
        Refresh(root);
        return true;
      }
      inserted := InsertNode(root.right, newNode);
      Refresh(root);
    }
  }

  /** `minNode`: follow left links from `node` to the last node. */
  method MinNode(node: BNode?) returns (least: BNode?)
    requires node != null ==> node.Valid()
    ensures (least == null) == (node == null)
    ensures least != null ==> least in node.Repr && least in NodesOf(node) && least.Valid() && least.left == null
    ensures least != null ==> least.value == MinKey(node.Model)
  {
    if node == null {
      return null;
    }
    var current: BNode := node;
    while true
      invariant current.Valid() && current in node.Repr && current.Repr <= node.Repr
      invariant current in NodesOf(node) && NodesOf(current) <= NodesOf(node)
      invariant MinKey(current.Model) == MinKey(node.Model)
      decreases current.Repr
    {
      if current.left == null {
        return current;
      }
      current := current.left;
    }
  }

  /** `maxNode`: follow right links from `node` to the last node. */
  method MaxNode(node: BNode?) returns (greatest: BNode?)
    requires node != null ==> node.Valid()
    ensures (greatest == null) == (node == null)
    ensures greatest != null ==> greatest in node.Repr && greatest in NodesOf(node) && greatest.Valid() && greatest.right == null
    ensures greatest != null ==> greatest.value == MaxKey(node.Model)
  {
    if node == null {
      return null;
    }
    var current: BNode := node;
    while true
      invariant current.Valid() && current in node.Repr && current.Repr <= node.Repr
      invariant current in NodesOf(node) && NodesOf(current) <= NodesOf(node)
      invariant MaxKey(current.Model) == MaxKey(node.Model)
      decreases current.Repr
    {
      if current.right == null {
        return current;
      }
      current := current.right;
    }
  }

  /** `searchNode`: the node carrying `value`, or nil when there is none. */
  function SearchNode(node: BNode?, value: int): (found: BNode?)
    reads node, ReprOf(node)
    requires ValidBST(node)
    decreases ReprOf(node)
    ensures (found != null) == (value in Keys(ModelOf(node)))
    ensures found != null ==> found in node.Repr && found in NodesOf(node) && found.Valid() && found.value == value
  {
    if node == null then null
    else if node.value == value then node
    else if node.value > value then SearchNode(node.left, value)
    else SearchNode(node.right, value)
  }

  /** `removeNode`: the subtree that replaces `node` once `value` is gone,
      and whether it was there. Child links are re-attached as the recursion
      unwinds; a two-child node takes the key of its left subtree's maximum,
      which is then removed from the left subtree. */
  method RemoveNode(node: BNode?, value: int) returns (newNode: BNode?, removed: bool)
    requires ValidBST(node)
    modifies ReprOf(node)
    decreases ReprOf(node), 1
    ensures newNode != null ==> newNode.Valid() && newNode.Repr <= old(ReprOf(node))
    ensures ModelOf(newNode) == SearchTree.Remove(old(ModelOf(node)), value)
    ensures removed == (value in Keys(old(ModelOf(node))))
  {
    if node == null {
      return null, false;
    }
    assert ValidNode(node.left) && ValidNode(node.right);
    if node.value > value {
      DescendLeft(node.Model, value);
      node.left, removed := RemoveNode(node.left, value);
      Refresh(node);
      return node, removed;
    } else if node.value < value {
      DescendRight(node.Model, value);
      node.right, removed := RemoveNode(node.right, value);
      Refresh(node);
      return node, removed;
    }
    // delete case 1: a leaf is spliced out
    if node.left == null && node.right == null {
      return null, true;
    }
    // delete case 2: a node with one child is replaced by that child
    if node.left == null {
      return node.right, true;
    } else if node.right == null {
      return node.left, true;
    }
    // delete case 3
    removed := RemoveInner(node);
    return node, removed;
  }

  /** Delete case 3 of `removeNode`: a node with two children takes the key
      of its left subtree's maximum, which is then removed from the left
      subtree; the node itself stays in place. */
  method RemoveInner(node: BNode) returns (removed: bool)
    requires node.Valid() && IsBST(node.Model) && node.left != null && node.right != null
    modifies node.Repr
    decreases node.Repr, 0
    ensures node.Valid() && node.Repr <= old(node.Repr)
    ensures node.Model == SearchTree.Remove(old(node.Model), old(node.value))
    ensures removed
  {
    var replacement := MaxNode(node.left);
    MaxKeyIsGreatest(node.left.Model);
    node.value := replacement.value;
    node.left, removed := RemoveNode(node.left, node.value);
    Refresh(node);
  }

  /** `nodeHeight`: 0 for nil, else one more than the taller child. */
  function NodeHeight(node: BNode?): (h: int)
    reads node, ReprOf(node)
    requires ValidNode(node)
    decreases ReprOf(node)
    ensures h == Height(ModelOf(node))
  {
    if node == null then 0 else IntMax(NodeHeight(node.left), NodeHeight(node.right)) + 1
  }

  /** `findLCA`: descend while both keys lie on the same side; at the split
      node answer it only if both keys are really below it. */
  function FindLCA(node: BNode?, v1: int, v2: int): (lca: BNode?)
    reads node, ReprOf(node)
    requires ValidBST(node)
    decreases ReprOf(node)
    ensures (lca != null) == (v1 in Keys(ModelOf(node)) && v2 in Keys(ModelOf(node)))
    ensures lca != null ==> lca in node.Repr && lca in NodesOf(node) && lca.Valid()
    ensures lca != null ==> v1 in Keys(lca.Model) && v2 in Keys(lca.Model)
    ensures lca != null ==> IntMin(v1, v2) <= lca.value <= IntMax(v1, v2)
    ensures lca != null ==> !(v1 in Keys(ModelOf(lca.left)) && v2 in Keys(ModelOf(lca.left)))
    ensures lca != null ==> !(v1 in Keys(ModelOf(lca.right)) && v2 in Keys(ModelOf(lca.right)))
  {
    if node == null then null
    else if node.value > v1 && node.value > v2 then FindLCA(node.left, v1, v2)
    else if node.value < v1 && node.value < v2 then FindLCA(node.right, v1, v2)
    else if SearchNode(node, v1) != null && SearchNode(node, v2) != null then node
    else null
  }

  /** `inOrderTraverse`: the keys passed to the callback, in order. */
  function InOrderFrom(node: BNode?): (keys: seq<int>)
    reads node, ReprOf(node)
    requires ValidNode(node)
    decreases ReprOf(node)
    ensures keys == InOrder(ModelOf(node))
  {
    if node == null then [] else InOrderFrom(node.left) + [node.value] + InOrderFrom(node.right)
  }

  /** `preOrderTraverse`: the keys passed to the callback, in order. */
  function PreOrderFrom(node: BNode?): (keys: seq<int>)
    reads node, ReprOf(node)
    requires ValidNode(node)
    decreases ReprOf(node)
    ensures keys == PreOrder(ModelOf(node))
  {
    if node == null then [] else [node.value] + PreOrderFrom(node.left) + PreOrderFrom(node.right)
  }

  /** `postOrderTraverse`: the keys passed to the callback, in order. */
  function PostOrderFrom(node: BNode?): (keys: seq<int>)
    reads node, ReprOf(node)
    requires ValidNode(node)
    decreases ReprOf(node)
    ensures keys == PostOrder(ModelOf(node))
  {
    if node == null then [] else PostOrderFrom(node.left) + PostOrderFrom(node.right) + [node.value]
  }

  /** The prefix of a line of `printTree` at depth `level`: the separator
      once per level, then the node marker. */
  method LinePrefix(level: nat) returns (format: string)
    ensures format == Indent(level) + PrintNode
  {
    format := "";
    var i := 0;
    while i < level
      invariant i <= level && format == Indent(i)
    {
      format := format + PrintLevelSeparator;
      i := i + 1;
    }
    format := format + PrintNode;
  }

  /** `printTree`: the text written for the subtree at `n`, whose root is at
      indentation `level`: the right subtree, the node's line, the left subtree.
      The ghost `t` names the tree `n` stands for. */
  method PrintTree(n: BNode?, level: nat, ghost t: Tree) returns (text: string)
    requires ValidNode(n) && ModelOf(n) == t
    decreases ReprOf(n)
    ensures text == Render(t, level)
  {
    if n == null {
      return "";
    }
    var format := LinePrefix(level);
    var above := PrintTree(n.right, level + 1, t.right);
    var line := format + IntToDecimal(n.value) + "\n";
    var below := PrintTree(n.left, level + 1, t.left);
    text := above + line + below;
  }

  // ---------------------------------------------------------------------

  /** The tree object (`BST`): a root link and a running node count. */
  class BST {
    var root: BNode?
    var length: int
    ghost var Repr: set<object>

    ghost predicate Valid()
      reads this, Repr
    {
      this in Repr &&
      (root != null ==> root in Repr && root.Repr <= Repr && root.Valid()) &&
      IsBST(Model())
    }

    ghost function Model(): Tree
      reads this, root
    {
      ModelOf(root)
    }

    /** The count agrees with the number of nodes in the tree. */
    ghost predicate Counted()
      reads this, Repr
      requires Valid()
    {
      length == Size(Model())
    }

    /** `BST{}`: the empty tree. */
    constructor Empty()
      ensures Valid() && fresh(Repr)
      ensures Model() == Nil && length == 0 && Counted()
    {
      root := null;
      length := 0;
      Repr := {this};
    }

    /** `New(value)` as written: a one-node tree whose count starts at 0. */
    constructor New(value: int)
      ensures Valid() && fresh(Repr)
      ensures Model() == Node(Nil, value, Nil) && length == 0
      ensures !Counted()
    {
      root := new BNode(value);
      length := 0;
      new;
      Repr := {this} + root.Repr;
    }

    /** `New(value)` with the count the one-node tree needs. */
    constructor NewCounted(value: int)
      ensures Valid() && fresh(Repr)
      ensures Model() == Node(Nil, value, Nil) && length == 1
      ensures Counted()
    {
      root := new BNode(value);
      length := 1;
      new;
      Repr := {this} + root.Repr;
    }

    /** `Root`: the root node, nil for an empty tree. */
    function Root(): (r: BNode?)
      reads this, Repr
      requires Valid()
      ensures (r == null) == (Model() == Nil)
      ensures r != null ==> r.Valid() && r.Model == Model()
    {
      root
    }

    /** `Insert`: adds `value` unless present; reports whether it did. */
    method Insert(value: int) returns (inserted: bool)
      requires Valid()
      modifies Repr
      ensures Valid() && fresh(Repr - old(Repr))
      ensures Model() == SearchTree.Insert(old(Model()), value)
      ensures inserted == (value !in old(Keys(Model())))
      ensures Keys(Model()) == old(Keys(Model())) + {value}
      ensures !inserted ==> Model() == old(Model())
      ensures length == old(length) + (if inserted then 1 else 0)
      ensures old(Counted()) ==> Counted()
    {
      ghost var before := Model();
      var node := new BNode(value);
      inserted := true;
      if root == null {
        root := node;
        length := length + 1;
        Repr := Repr + node.Repr;
        return;
      }
      inserted := InsertNode(root, node);
      if inserted {
        length := length + 1;
      }
      Repr := Repr + root.Repr;
      InsertKeepsBST(before, value);
      InsertAddsKey(before, value);
      if inserted {
        InsertAbsentGrows(before, value);
      } else {
        InsertPresentIsIdentity(before, value);
      }
    }

    /** `Remove`: deletes `value` if present; reports whether it did. */
    method Remove(value: int) returns (removed: bool)
      requires Valid()
      modifies Repr
      ensures Valid() && Repr == old(Repr)
      ensures Model() == SearchTree.Remove(old(Model()), value)
      ensures removed == (value in old(Keys(Model())))
      ensures Keys(Model()) == old(Keys(Model())) - {value}
      ensures !removed ==> Model() == old(Model())
      ensures length == old(length) - (if removed then 1 else 0)
      ensures old(Counted()) ==> Counted()
    {
      ghost var before := Model();
      root, removed := RemoveNode(root, value);
      if removed {
        length := length - 1;
      }
      RemoveDeletesKey(before, value);
      if removed {
        RemovePresentShrinks(before, value);
      } else {
        RemoveAbsentIsIdentity(before, value);
      }
    }

    /** `Search`: the node carrying `value`, nil when absent. */
    function Search(value: int): (found: BNode?)
      reads this, Repr
      requires Valid()
      ensures (found != null) == (value in Keys(Model()))
      ensures found != null ==> found in NodesOf(root) && found.Valid() && found.value == value
    {
      SearchNode(root, value)
    }

    /** `Has`: whether `value` is in the tree. */
    function Has(value: int): (present: bool)
      reads this, Repr
      requires Valid()
      ensures present == (value in Keys(Model()))
    {
      Search(value) != null
    }

    /** `Min`: the node with the least key, nil for an empty tree. */
    method Min() returns (least: BNode?)
      requires Valid()
      ensures (least == null) == (Model() == Nil)
      ensures least != null ==> least in NodesOf(root) && least.value in Keys(Model())
      ensures least != null ==> forall k :: k in Keys(Model()) ==> least.value <= k
    {
      least := MinNode(root);
      if least != null {
        MinKeyIsLeast(root.Model);
      }
    }

    /** `Max`: the node with the greatest key, nil for an empty tree. */
    method Max() returns (greatest: BNode?)
      requires Valid()
      ensures (greatest == null) == (Model() == Nil)
      ensures greatest != null ==> greatest in NodesOf(root) && greatest.value in Keys(Model())
      ensures greatest != null ==> forall k :: k in Keys(Model()) ==> k <= greatest.value
    {
      greatest := MaxNode(root);
      if greatest != null {
        MaxKeyIsGreatest(root.Model);
      }
    }

    /** `Len`: the running count; the number of keys when the count is right. */
    function Len(): (n: int)
      reads this, Repr
      requires Valid()
      ensures Counted() ==> n == |InOrder(Model())|
    {
      InOrderListsKeys(Model());
      length
    }

    /** `Height`: number of nodes on the longest root-to-leaf path. */
    function Height(): (h: int)
      reads this, Repr
      requires Valid()
      ensures h == SearchTree.Height(Model())
      ensures (h == 0) == (Model() == Nil)
      ensures h <= |Keys(Model())|
    {
      HeightAtMostSize(Model());
      BstSizeIsKeyCount(Model());
      NodeHeight(root)
    }

    /** `LCA`: the lowest node with both keys below it, nil unless both are
        in the tree. */
    function LCA(v1: int, v2: int): (lca: BNode?)
      reads this, Repr
      requires Valid()
      ensures (lca != null) == (v1 in Keys(Model()) && v2 in Keys(Model()))
      ensures lca != null ==> lca in NodesOf(root) && lca.Valid()
      ensures lca != null ==> v1 in Keys(lca.Model) && v2 in Keys(lca.Model)
      ensures lca != null ==> IntMin(v1, v2) <= lca.value <= IntMax(v1, v2)
    {
      FindLCA(root, v1, v2)
    }

    /** `InOrderTraverse`: every key once, in increasing order. */
    function InOrderTraverse(): (keys: seq<int>)
      reads this, Repr
      requires Valid()
      ensures keys == InOrder(Model())
      ensures StrictlyIncreasing(keys)
      ensures forall k :: k in keys <==> k in Keys(Model())
    {
      BstIffInOrderSorted(Model());
      InOrderListsKeys(Model());
      InOrderFrom(root)
    }

    /** `PreOrderTraverse`: node, left subtree, right subtree. */
    function PreOrderTraverse(): (keys: seq<int>)
      reads this, Repr
      requires Valid()
      ensures keys == PreOrder(Model())
      ensures EachKeyOnce(keys, Model())
    {
      TraversalsVisitEachKeyOnce(Model());
      PreOrderFrom(root)
    }

    /** `PostOrderTraverse`: left subtree, right subtree, node. */
    function PostOrderTraverse(): (keys: seq<int>)
      reads this, Repr
      requires Valid()
      ensures keys == PostOrder(Model())
      ensures EachKeyOnce(keys, Model())
    {
      TraversalsVisitEachKeyOnce(Model());
      PostOrderFrom(root)
    }

    /** `BreadthFirstTraverse`: the keys level by level, left to right,
        produced by the queue loop. */
    method BreadthFirstTraverse() returns (keys: seq<int>)
      requires Valid()
      ensures keys == LevelOrder(Model())
      ensures keys == ByLevels(Model())
      ensures EachKeyOnce(keys, Model())
    {
      ghost var t := Model();
      keys := [];
      if root == null {
        LevelOrderIsByLevels(t);
        TraversalsVisitEachKeyOnce(t);
        return;
      }
      var queue := new Queue<BNode>();
      queue.Push(root);
      ghost var forest := [t];
      ghost var nodes := root.Repr;
      while true
        invariant queue.items != [] && Mirrors(queue.items, forest, nodes)
        invariant keys + Bfs(forest) == LevelOrder(t)
        decreases ForestSize(forest)
      {
        ghost var seen := keys;
        var key;
        ghost var next;
        key, next := VisitFront(queue, forest, nodes);
        keys := keys + [key];
        BfsPop(forest);
        ReportFront(seen, key, Bfs(forest), Bfs(next), LevelOrder(t));
        forest := next;
        if queue.Size() == 0 {
          break;
        }
      }
      assert forest == [];
      LevelOrderIsByLevels(t);
      TraversalsVisitEachKeyOnce(t);
    }
  }

  /** Moving the front key of what is still to come onto what was reported
      keeps the two together equal to the whole walk. */
  lemma ReportFront(reported: seq<int>, key: int, toCome: seq<int>, later: seq<int>, walk: seq<int>)
    requires reported + toCome == walk && toCome == [key] + later
    ensures (reported + [key]) + later == walk
  {
    assert (reported + [key]) + later == reported + ([key] + later);
  }

  /** The queue entry for a child link: a nil child is never pushed. */
  function PushedNode(n: BNode?): seq<BNode> {
    if n == null then [] else [n]
  }

  /** One turn of the loop of `BreadthFirstTraverse`: pop the front node,
      report its key, push its non-nil left and right children. */
  method VisitFront(queue: Queue<BNode>, ghost forest: seq<Tree>, ghost r: set<BNode>) returns (key: int, ghost next: seq<Tree>)
    requires queue.items != [] && Mirrors(queue.items, forest, r)
    modifies queue
    ensures forest != [] && forest[0] != Nil && key == forest[0].value
    ensures next == forest[1..] + Pushed(forest[0].left) + Pushed(forest[0].right)
    ensures Mirrors(queue.items, next, r)
  {
    ghost var waiting := queue.items;
    MirrorsStep(waiting, forest, r);
    var front := queue.Pop();
    var node := front.value;
    key := node.value;
    if node.left != null {
      queue.Push(node.left);
    }
    if node.right != null {
      queue.Push(node.right);
    }
    next := forest[1..] + Pushed(forest[0].left) + Pushed(forest[0].right);
    assert queue.items == waiting[1..] + PushedNode(node.left) + PushedNode(node.right);
  }

  /** Popping the front node and pushing its non-nil children keeps the
      queue in step with the forest `Bfs` steps to. */
  lemma MirrorsStep(nodes: seq<BNode>, forest: seq<Tree>, r: set<BNode>)
    requires nodes != [] && Mirrors(nodes, forest, r)
    ensures forest[0] == nodes[0].Model && forest[0] != Nil && forest[0].value == nodes[0].value
    ensures Mirrors(nodes[1..] + PushedNode(nodes[0].left) + PushedNode(nodes[0].right),
                    forest[1..] + Pushed(forest[0].left) + Pushed(forest[0].right), r)
  {
    var n := nodes[0];
    assert n in r && n.Repr <= r && n.Valid() && n.Model == forest[0];
    var kids, trees := PushedNode(n.left) + PushedNode(n.right), Pushed(forest[0].left) + Pushed(forest[0].right);
    assert n.left != null ==> n.left in r && n.left.Repr <= r && n.left.Valid() && n.left.Model == forest[0].left;
    assert n.right != null ==> n.right in r && n.right.Repr <= r && n.right.Valid() && n.right.Model == forest[0].right;
    if n.left == null && n.right != null {
      assert kids == [n.right] && trees == [forest[0].right];
    } else if n.left != null && n.right == null {
      assert kids == [n.left] && trees == [forest[0].left];
    }
    var a, b := nodes[1..] + kids, forest[1..] + trees;
    assert nodes[1..] + PushedNode(n.left) + PushedNode(n.right) == a;
    assert forest[1..] + Pushed(forest[0].left) + Pushed(forest[0].right) == b;
    forall i | 0 <= i < |a|
      ensures a[i] in r && a[i].Repr <= r && a[i].Valid() && a[i].Model == b[i]
    {
      if i < |nodes| - 1 {
        assert a[i] == nodes[i + 1] && b[i] == forest[i + 1];
      } else {
        assert a[i] == kids[i - (|nodes| - 1)] && b[i] == trees[i - (|nodes| - 1)];
      }
    }
  }

  /** The nodes waiting in the traversal queue are well-formed subtrees
      inside `r` whose abstract values are `forest`, in queue order. */
  ghost predicate Mirrors(nodes: seq<BNode>, forest: seq<Tree>, r: set<BNode>)
    reads r
  {
    |nodes| == |forest| &&
    forall i :: 0 <= i < |nodes| ==>
      nodes[i] in r && nodes[i].Repr <= r && nodes[i].Valid() && nodes[i].Model == forest[i]
  }
}
