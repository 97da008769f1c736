// The abstract value of a tree of BNode (trees/binarytrees/BNode.go) and the
// value-level meaning of the BST operations of trees/binarytrees/BST.go. The
// heap classes in module BinaryTrees carry a ghost `Model` of this type and
// are proved against the functions here.
module SearchTree {
  import opened Utils

  datatype Tree = Nil | Node(left: Tree, value: int, right: Tree)

  function Keys(t: Tree): set<int> {
    match t
    case Nil => {}
    case Node(l, x, r) => Keys(l) + {x} + Keys(r)
  }

  function Size(t: Tree): nat {
    match t
    case Nil => 0
    case Node(l, _, r) => Size(l) + 1 + Size(r)
  }

  /** The ordering invariant: left keys < node key < right keys, everywhere. */
  predicate IsBST(t: Tree) {
    match t
    case Nil => true
    case Node(l, x, r) =>
      IsBST(l) && IsBST(r) &&
      (forall k :: k in Keys(l) ==> k < x) &&
      (forall k :: k in Keys(r) ==> x < k)
  }

  predicate StrictlyIncreasing(s: seq<int>) {
    forall i, j :: 0 <= i < j < |s| ==> s[i] < s[j]
  }

  /** Keys in left-subtree, node, right-subtree order (`inOrderTraverse`). */
  function InOrder(t: Tree): seq<int> {
    match t
    case Nil => []
    case Node(l, x, r) => InOrder(l) + [x] + InOrder(r)
  }

  // ---------------------------------------------------------------------
  // Keys, size and the in-order sequence

  lemma {:induction false} InOrderListsKeys(t: Tree)
    ensures |InOrder(t)| == Size(t)
    ensures forall k :: k in InOrder(t) <==> k in Keys(t)
  {
    match t
    case Nil =>
    case Node(l, x, r) =>
      InOrderListsKeys(l);
      InOrderListsKeys(r);
  }

  /** In a search tree no key repeats, so the node count is the key count. */
  lemma {:induction false} BstSizeIsKeyCount(t: Tree)
    requires IsBST(t)
    ensures Size(t) == |Keys(t)|
  {
    match t
    case Nil =>
    case Node(l, x, r) =>
      BstSizeIsKeyCount(l);
      BstSizeIsKeyCount(r);
      forall k | k in Keys(l) ensures k !in Keys(r) {
        assert k < x;
      }
      assert Keys(l) !! Keys(r) && x !in Keys(l) && x !in Keys(r);
      assert |Keys(l) + {x}| == |Keys(l)| + 1;
  }

  lemma SortedConcat(a: seq<int>, x: int, b: seq<int>)
    requires StrictlyIncreasing(a) && StrictlyIncreasing(b)
    requires forall k :: k in a ==> k < x
    requires forall k :: k in b ==> x < k
    ensures StrictlyIncreasing(a + [x] + b)
  {
    var s := a + [x] + b;
    forall i, j | 0 <= i < j < |s| ensures s[i] < s[j] {
      if j < |a| {
      } else if i < |a| {
        assert s[i] in a;
        if j > |a| { assert s[j] in b; }
      } else if i == |a| {
        assert s[j] in b;
      } else {
        assert s[i] == b[i - |a| - 1] && s[j] == b[j - |a| - 1];
      }
    }
  }

  lemma SortedSplit(a: seq<int>, x: int, b: seq<int>)
    requires StrictlyIncreasing(a + [x] + b)
    ensures StrictlyIncreasing(a) && StrictlyIncreasing(b)
    ensures forall k :: k in a ==> k < x
    ensures forall k :: k in b ==> x < k
  {
    var s := a + [x] + b;
    assert forall i :: 0 <= i < |a| ==> s[i] == a[i];
    assert forall i :: 0 <= i < |b| ==> s[|a| + 1 + i] == b[i];
    assert s[|a|] == x;
    forall k | k in a ensures k < x {
      var i :| 0 <= i < |a| && a[i] == k;
    }
    forall k | k in b ensures x < k {
      var i :| 0 <= i < |b| && b[i] == k;
    }
    forall i, j | 0 <= i < j < |b| ensures b[i] < b[j] {
      assert s[|a| + 1 + i] < s[|a| + 1 + j];
    }
  }

  /** A tree satisfies the ordering invariant exactly when its in-order
      traversal is strictly increasing. */
  lemma {:induction false} BstIffInOrderSorted(t: Tree)
    ensures IsBST(t) <==> StrictlyIncreasing(InOrder(t))
  {
    match t
    case Nil =>
    case Node(l, x, r) =>
      BstIffInOrderSorted(l);
      BstIffInOrderSorted(r);
      InOrderListsKeys(l);
      InOrderListsKeys(r);
      if IsBST(t) {
        SortedConcat(InOrder(l), x, InOrder(r));
      }
      if StrictlyIncreasing(InOrder(t)) {
        SortedSplit(InOrder(l), x, InOrder(r));
      }
  }

  // ---------------------------------------------------------------------
  // Insert (`insertNode`)

  /** The tree `insertNode` leaves behind: an equal key stops the descent,
      a smaller one goes left, a greater one right, and the new leaf hangs
      from the first empty child slot on that path. */
  function Insert(t: Tree, v: int): Tree {
    match t
    case Nil => Node(Nil, v, Nil)
    case Node(l, x, r) =>
      if x == v then t
      else if v < x then Node(Insert(l, v), x, r)
      else Node(l, x, Insert(r, v))
  }

  lemma {:induction false} InsertAddsKey(t: Tree, v: int)
    ensures Keys(Insert(t, v)) == Keys(t) + {v}
  {
    match t
    case Nil =>
    case Node(l, x, r) =>
      if x != v {
        if v < x { InsertAddsKey(l, v); } else { InsertAddsKey(r, v); }
      }
  }

  lemma {:induction false} InsertKeepsBST(t: Tree, v: int)
    requires IsBST(t)
    ensures IsBST(Insert(t, v))
  {
    match t
    case Nil =>
    case Node(l, x, r) =>
      if x != v {
        if v < x {
          InsertKeepsBST(l, v);
          InsertAddsKey(l, v);
        } else {
          InsertKeepsBST(r, v);
          InsertAddsKey(r, v);
        }
      }
  }

  /** A search for a key below the node's key continues in the left subtree,
      which is itself ordered. */
  lemma DescendLeft(t: Tree, v: int)
    requires IsBST(t) && t != Nil && v < t.value
    ensures IsBST(t.left) && (v in Keys(t) <==> v in Keys(t.left))
  {
  }

  /** A search for a key above the node's key continues in the right subtree. */
  lemma DescendRight(t: Tree, v: int)
    requires IsBST(t) && t != Nil && t.value < v
    ensures IsBST(t.right) && (v in Keys(t) <==> v in Keys(t.right))
  {
  }

  /** A key already present is rejected and the shape is left as it was. */
  lemma {:induction false} InsertPresentIsIdentity(t: Tree, v: int)
    requires IsBST(t) && v in Keys(t)
    ensures Insert(t, v) == t
  {
    match t
    case Node(l, x, r) =>
      if x != v {
        if v < x { InsertPresentIsIdentity(l, v); } else { InsertPresentIsIdentity(r, v); }
      }
  }

  /** A fresh key adds exactly one node. */
  lemma {:induction false} InsertAbsentGrows(t: Tree, v: int)
    requires v !in Keys(t)
    ensures Size(Insert(t, v)) == Size(t) + 1
  {
    match t
    case Nil =>
    case Node(l, x, r) =>
      if v < x { InsertAbsentGrows(l, v); } else { InsertAbsentGrows(r, v); }
  }

  // ---------------------------------------------------------------------
  // Min and max (`minNode`, `maxNode`)

  /** The key of the node `minNode` stops at: follow left links to the end. */
  function MinKey(t: Tree): int
    requires t != Nil
  {
    if t.left == Nil then t.value else MinKey(t.left)
  }

  /** The key of the node `maxNode` stops at: follow right links to the end. */
  function MaxKey(t: Tree): int
    requires t != Nil
  {
    if t.right == Nil then t.value else MaxKey(t.right)
  }

  lemma {:induction false} MinKeyIsLeast(t: Tree)
    requires t != Nil
    ensures MinKey(t) in Keys(t)
    ensures IsBST(t) ==> forall k :: k in Keys(t) ==> MinKey(t) <= k
  {
    if t.left != Nil {
      MinKeyIsLeast(t.left);
    }
  }

  lemma {:induction false} MaxKeyIsGreatest(t: Tree)
    requires t != Nil
    ensures MaxKey(t) in Keys(t)
    ensures IsBST(t) ==> forall k :: k in Keys(t) ==> k <= MaxKey(t)
  {
    if t.right != Nil {
      MaxKeyIsGreatest(t.right);
    }
  }

  // ---------------------------------------------------------------------
  // Remove (`removeNode`)

  /** The tree `removeNode` returns: descend by comparison; on the matching
      node splice out a leaf, replace a one-child node by its child, and give
      a two-child node the maximum key of its left subtree, which is then
      removed from that subtree. */
  function Remove(t: Tree, v: int): Tree {
    match t
    case Nil => Nil
    case Node(l, x, r) =>
      if x > v then Node(Remove(l, v), x, r)
      else if x < v then Node(l, x, Remove(r, v))
      else if l == Nil && r == Nil then Nil
      else if l == Nil then r
      else if r == Nil then l
      else Node(Remove(l, MaxKey(l)), MaxKey(l), r)
  }

  /** Removing an absent key returns the tree unchanged (ordered or not). */
  lemma {:induction false} RemoveAbsentIsIdentity(t: Tree, v: int)
    requires v !in Keys(t)
    ensures Remove(t, v) == t
  {
    match t
    case Nil =>
    case Node(l, x, r) =>
      if x > v { RemoveAbsentIsIdentity(l, v); } else { RemoveAbsentIsIdentity(r, v); }
  }

  /** Removing from a search tree deletes exactly that key and keeps the
      ordering invariant, in all three delete cases. */
  lemma {:induction false} RemoveDeletesKey(t: Tree, v: int)
    requires IsBST(t)
    ensures IsBST(Remove(t, v))
    ensures Keys(Remove(t, v)) == Keys(t) - {v}
  {
    match t
    case Nil =>
    case Node(l, x, r) =>
      if x > v {
        RemoveDeletesKey(l, v);
      } else if x < v {
        RemoveDeletesKey(r, v);
      } else if l != Nil && r != Nil {
        var m := MaxKey(l);
        MaxKeyIsGreatest(l);
        RemoveDeletesKey(l, m);
        assert Keys(l) == Keys(l) - {m} + {m};
      }
  }

  /** A removed key leaves exactly one node fewer. */
  lemma RemovePresentShrinks(t: Tree, v: int)
    requires IsBST(t) && v in Keys(t)
    ensures Size(Remove(t, v)) == Size(t) - 1
  {
    RemoveDeletesKey(t, v);
    BstSizeIsKeyCount(t);
    BstSizeIsKeyCount(Remove(t, v));
  }

  /** What the two-child case leaves of the left subtree: its right-most node
      replaced by that node's left child. */
  function DropMax(t: Tree): Tree
    requires t != Nil
  {
    if t.right == Nil then t.left else Node(t.left, t.value, DropMax(t.right))
  }

  /** The second removal in the two-child case never reaches a two-child
      node again: the maximum sits at the end of the right spine and has no
      right child, so it is spliced out by case 1 or 2. */
  lemma {:induction false} RemoveMaxSplicesSpineEnd(t: Tree)
    requires IsBST(t) && t != Nil
    ensures Remove(t, MaxKey(t)) == DropMax(t)
  {
    MaxKeyIsGreatest(t);
    if t.right != Nil {
      MaxKeyIsGreatest(t.right);
      RemoveMaxSplicesSpineEnd(t.right);
    }
  }

  // ---------------------------------------------------------------------
  // Height (`nodeHeight`)

  function Height(t: Tree): nat {
    match t
    case Nil => 0
    case Node(l, _, r) => IntMax(Height(l), Height(r)) + 1
  }

  lemma {:induction false} HeightAtMostSize(t: Tree)
    ensures Height(t) <= Size(t)
    ensures (Height(t) == 0) == (t == Nil)
  {
    match t
    case Nil =>
    case Node(l, _, r) =>
      HeightAtMostSize(l);
      HeightAtMostSize(r);
  }

  /** Inserts applied one after another, as the tests' fill helper does. */
  function InsertAll(t: Tree, s: seq<int>): Tree
    decreases |s|
  {
    if s == [] then t else InsertAll(Insert(t, s[0]), s[1..])
  }

  /** A degenerate tree hanging to the right: no node has a left child. */
  predicate RightChain(t: Tree) {
    t == Nil || (t.left == Nil && RightChain(t.right))
  }

  lemma {:induction false} ChainInsertGreater(t: Tree, v: int)
    requires RightChain(t)
    requires forall k :: k in Keys(t) ==> k < v
    ensures RightChain(Insert(t, v))
    ensures Keys(Insert(t, v)) == Keys(t) + {v}
    ensures Height(Insert(t, v)) == Height(t) + 1
  {
    match t
    case Nil =>
    case Node(l, x, r) =>
      assert x in Keys(t) && l == Nil;
      ChainInsertGreater(r, v);
  }

  lemma {:induction false} ChainInsertAllIncreasing(t: Tree, s: seq<int>)
    requires RightChain(t) && StrictlyIncreasing(s)
    requires forall k, i :: k in Keys(t) && 0 <= i < |s| ==> k < s[i]
    ensures Height(InsertAll(t, s)) == Height(t) + |s|
    decreases |s|
  {
    if s != [] {
      ChainInsertGreater(t, s[0]);
      var t' := Insert(t, s[0]);
      forall k, i | k in Keys(t') && 0 <= i < |s[1..]| ensures k < s[1..][i] {
        assert s[1..][i] == s[i + 1];
      }
      ChainInsertAllIncreasing(t', s[1..]);
    }
  }

  /** Inserting n strictly increasing keys into an empty tree gives height n. */
  lemma IncreasingInsertsHeight(s: seq<int>)
    requires StrictlyIncreasing(s)
    ensures Height(InsertAll(Nil, s)) == |s|
  {
    ChainInsertAllIncreasing(Nil, s);
  }
}
