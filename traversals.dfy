// Value-level meaning of the four traversals of trees/binarytrees/BST.go:
// pre-order, post-order (in-order is SearchTree.InOrder) and the queue-driven
// breadth-first walk, with an independent level-by-level reference for the
// latter and the "each key exactly once" facts for all of them.
module Traversals {
  import opened Utils
  import opened SearchTree

  /** Node, then left subtree, then right subtree (`preOrderTraverse`). */
  function PreOrder(t: Tree): seq<int> {
    match t
    case Nil => []
    case Node(l, x, r) => [x] + PreOrder(l) + PreOrder(r)
  }

  /** Left subtree, then right subtree, then node (`postOrderTraverse`). */
  function PostOrder(t: Tree): seq<int> {
    match t
    case Nil => []
    case Node(l, x, r) => PostOrder(l) + PostOrder(r) + [x]
  }

  // ---------------------------------------------------------------------
  // Breadth-first traversal, as the queue loop performs it

  /** The queue entry for a child link: a nil child is never pushed. */
  function Pushed(t: Tree): seq<Tree> {
    if t == Nil then [] else [t]
  }

  function ForestSize(f: seq<Tree>): nat {
    if f == [] then 0 else Size(f[0]) + ForestSize(f[1..])
  }

  lemma {:induction false} ForestSizeAppend(a: seq<Tree>, b: seq<Tree>)
    ensures ForestSize(a + b) == ForestSize(a) + ForestSize(b)
    decreases |a|
  {
    if a == [] {
      assert a + b == b;
    } else {
      assert (a + b)[0] == a[0] && (a + b)[1..] == a[1..] + b;
      ForestSizeAppend(a[1..], b);
    }
  }

  /** The key a tree at the front of the queue reports: none for `Nil`. */
  function RootKey(t: Tree): seq<int> {
    if t == Nil then [] else [t.value]
  }

  /** The trees popping `t` pushes: its non-nil left child, then its
      non-nil right child. */
  function Children(t: Tree): seq<Tree> {
    if t == Nil then [] else Pushed(t.left) + Pushed(t.right)
  }

  lemma ChildrenSize(t: Tree)
    ensures ForestSize(Children(t)) + |RootKey(t)| == Size(t)
  {
    if t != Nil {
      ForestSizeAppend(Pushed(t.left), Pushed(t.right));
      PushedLevel(t.left, 0);
      PushedLevel(t.right, 0);
    }
  }

  /** What the loop of `BreadthFirstTraverse` reports from a queue holding
      the trees `f`: pop the front, report its key, push its non-nil left
      and right children, until the queue is empty. */
  function Bfs(f: seq<Tree>): seq<int>
    decreases ForestSize(f), |f|
  {
    if f == [] then []
    else
      ForestSizeAppend(f[1..], Children(f[0]));
      ChildrenSize(f[0]);
      RootKey(f[0]) + Bfs(f[1..] + Children(f[0]))
  }

  /** One turn of the loop: popping a node reports its key, and the walk
      continues from a queue holding strictly fewer nodes. */
  lemma BfsPop(f: seq<Tree>)
    requires f != [] && f[0] != Nil
    ensures Bfs(f) == [f[0].value] + Bfs(f[1..] + Pushed(f[0].left) + Pushed(f[0].right))
    ensures ForestSize(f[1..] + Pushed(f[0].left) + Pushed(f[0].right)) < ForestSize(f)
  {
    var c := Children(f[0]);
    assert f[1..] + Pushed(f[0].left) + Pushed(f[0].right) == f[1..] + c;
    ForestSizeAppend(f[1..], c);
    ChildrenSize(f[0]);
  }

  /** `BreadthFirstTraverse`: nothing for an empty tree, else the queue
      seeded with the root. */
  function LevelOrder(t: Tree): seq<int> {
    if t == Nil then [] else Bfs([t])
  }

  // ---------------------------------------------------------------------
  // The reference: keys depth by depth, each depth left to right

  /** The keys at depth `d` of `t`, left to right. */
  function Level(t: Tree, d: nat): seq<int> {
    match t
    case Nil => []
    case Node(l, x, r) => if d == 0 then [x] else Level(l, d - 1) + Level(r, d - 1)
  }

  /** Levels `d`, `d + 1`, ..., `h - 1` of `t`, one after another. */
  function LevelsFrom(t: Tree, d: nat, h: nat): seq<int>
    decreases h - d
  {
    if d >= h then [] else Level(t, d) + LevelsFrom(t, d + 1, h)
  }

  /** Level order by definition: every depth of the tree, top to bottom. */
  function ByLevels(t: Tree): seq<int> {
    LevelsFrom(t, 0, Height(t))
  }

  // Forest versions of the reference, used to follow the queue.

  function Roots(f: seq<Tree>): seq<int> {
    if f == [] then [] else RootKey(f[0]) + Roots(f[1..])
  }

  function Kids(f: seq<Tree>): seq<Tree> {
    if f == [] then [] else Children(f[0]) + Kids(f[1..])
  }

  function LevelF(f: seq<Tree>, d: nat): seq<int> {
    if f == [] then [] else Level(f[0], d) + LevelF(f[1..], d)
  }

  function HeightF(f: seq<Tree>): nat {
    if f == [] then 0 else IntMax(Height(f[0]), HeightF(f[1..]))
  }

  function LevelsFromF(f: seq<Tree>, d: nat, h: nat): seq<int>
    decreases h - d
  {
    if d >= h then [] else LevelF(f, d) + LevelsFromF(f, d + 1, h)
  }

  /** Popping the trees `f` ahead of `g` reports the roots of `f`, then goes
      on with `g` followed by the children of `f`. */
  lemma {:induction false} BfsFront(f: seq<Tree>, g: seq<Tree>)
    ensures Bfs(f + g) == Roots(f) + Bfs(g + Kids(f))
    decreases |f|
  {
    if f == [] {
      assert f + g == g && g + Kids(f) == g;
    } else {
      var c := Children(f[0]);
      calc {
        Bfs(f + g);
        { assert (f + g)[0] == f[0] && (f + g)[1..] + c == f[1..] + (g + c); }
        RootKey(f[0]) + Bfs(f[1..] + (g + c));
        { BfsFront(f[1..], g + c); }
        RootKey(f[0]) + (Roots(f[1..]) + Bfs(g + c + Kids(f[1..])));
        { assert g + c + Kids(f[1..]) == g + Kids(f); }
        RootKey(f[0]) + (Roots(f[1..]) + Bfs(g + Kids(f)));
        RootKey(f[0]) + Roots(f[1..]) + Bfs(g + Kids(f));
      }
    }
  }

  lemma {:induction false} LevelFAppend(a: seq<Tree>, b: seq<Tree>, d: nat)
    ensures LevelF(a + b, d) == LevelF(a, d) + LevelF(b, d)
    decreases |a|
  {
    if a == [] {
      assert a + b == b;
    } else {
      assert (a + b)[0] == a[0] && (a + b)[1..] == a[1..] + b;
      LevelFAppend(a[1..], b, d);
    }
  }

  lemma {:induction false} HeightFAppend(a: seq<Tree>, b: seq<Tree>)
    ensures HeightF(a + b) == IntMax(HeightF(a), HeightF(b))
    decreases |a|
  {
    if a == [] {
      assert a + b == b;
    } else {
      assert (a + b)[0] == a[0] && (a + b)[1..] == a[1..] + b;
      HeightFAppend(a[1..], b);
    }
  }

  lemma PushedLevel(t: Tree, d: nat)
    ensures LevelF(Pushed(t), d) == Level(t, d)
    ensures HeightF(Pushed(t)) == Height(t)
    ensures ForestSize(Pushed(t)) == Size(t)
  {
    if t != Nil {
      assert Pushed(t)[1..] == [];
    }
  }

  /** Depth 0 of a forest is its roots; depth d + 1 is depth d of its children. */
  lemma {:induction false} LevelFKids(f: seq<Tree>, d: nat)
    ensures LevelF(f, 0) == Roots(f)
    ensures LevelF(f, d + 1) == LevelF(Kids(f), d)
    ensures HeightF(Kids(f)) == if HeightF(f) == 0 then 0 else HeightF(f) - 1
    ensures ForestSize(Kids(f)) + |Roots(f)| == ForestSize(f)
    decreases |f|
  {
    if f != [] {
      LevelFKids(f[1..], d);
      var c := Children(f[0]);
      LevelFAppend(c, Kids(f[1..]), d);
      HeightFAppend(c, Kids(f[1..]));
      ForestSizeAppend(c, Kids(f[1..]));
      if f[0] != Nil {
        LevelFAppend(Pushed(f[0].left), Pushed(f[0].right), d);
        HeightFAppend(Pushed(f[0].left), Pushed(f[0].right));
        ForestSizeAppend(Pushed(f[0].left), Pushed(f[0].right));
        PushedLevel(f[0].left, d);
        PushedLevel(f[0].right, d);
      }
    }
  }

  lemma {:induction false} LevelsFromKids(f: seq<Tree>, d: nat, h: nat)
    ensures LevelsFromF(Kids(f), d, h) == LevelsFromF(f, d + 1, h + 1)
    decreases h - d
  {
    if d < h {
      LevelFKids(f, d);
      LevelsFromKids(f, d + 1, h);
    }
  }

  lemma {:induction false} NoLevelsBelowHeight(f: seq<Tree>, d: nat)
    requires HeightF(f) == 0
    ensures LevelF(f, d) == [] && Roots(f) == [] && Kids(f) == []
    decreases |f|
  {
    if f != [] {
      NoLevelsBelowHeight(f[1..], d);
    }
  }

  /** The queue loop reports a forest depth by depth. */
  lemma {:induction false} BfsIsLevelsF(f: seq<Tree>)
    ensures Bfs(f) == LevelsFromF(f, 0, HeightF(f))
    decreases ForestSize(f)
  {
    BfsFront(f, []);
    assert f + [] == f && [] + Kids(f) == Kids(f);
    LevelFKids(f, 0);
    if HeightF(f) == 0 {
      NoLevelsBelowHeight(f, 0);
      assert Bfs(f) == [] + Bfs([]);
    } else {
      var h := HeightF(f);
      assert Roots(f) != [] by {
        if Roots(f) == [] {
          NoRootsNoHeight(f);
        }
      }
      BfsIsLevelsF(Kids(f));
      LevelsFromKids(f, 0, h - 1);
    }
  }

  lemma {:induction false} NoRootsNoHeight(f: seq<Tree>)
    requires Roots(f) == []
    ensures HeightF(f) == 0
    decreases |f|
  {
    if f != [] {
      NoRootsNoHeight(f[1..]);
    }
  }

  lemma {:induction false} LevelsFromSingleton(t: Tree, d: nat, h: nat)
    ensures LevelsFromF([t], d, h) == LevelsFrom(t, d, h)
    decreases h - d
  {
    if d < h {
      assert LevelF([t], d) == Level(t, d) + LevelF([], d);
      LevelsFromSingleton(t, d + 1, h);
    }
  }

  /** `BreadthFirstTraverse` visits the tree level by level, top to bottom,
      left to right within a level. */
  lemma LevelOrderIsByLevels(t: Tree)
    ensures LevelOrder(t) == ByLevels(t)
  {
    if t != Nil {
      BfsIsLevelsF([t]);
      assert HeightF([t]) == IntMax(Height(t), HeightF([]));
      LevelsFromSingleton(t, 0, Height(t));
    }
  }

  // ---------------------------------------------------------------------
  // Every traversal visits every key exactly once

  lemma {:induction false} OrdersArePermutations(t: Tree)
    ensures multiset(PreOrder(t)) == multiset(InOrder(t))
    ensures multiset(PostOrder(t)) == multiset(InOrder(t))
  {
    match t
    case Nil =>
    case Node(l, x, r) =>
      OrdersArePermutations(l);
      OrdersArePermutations(r);
  }

  function ForestBag(f: seq<Tree>): multiset<int> {
    if f == [] then multiset{} else multiset(InOrder(f[0])) + ForestBag(f[1..])
  }

  lemma {:induction false} ForestBagAppend(a: seq<Tree>, b: seq<Tree>)
    ensures ForestBag(a + b) == ForestBag(a) + ForestBag(b)
    decreases |a|
  {
    if a == [] {
      assert a + b == b;
    } else {
      assert (a + b)[0] == a[0] && (a + b)[1..] == a[1..] + b;
      ForestBagAppend(a[1..], b);
    }
  }

  lemma PushedBag(t: Tree)
    ensures ForestBag(Pushed(t)) == multiset(InOrder(t))
  {
    if t != Nil {
      assert Pushed(t)[1..] == [];
    }
  }

  lemma ChildrenBag(t: Tree)
    ensures ForestBag(Children(t)) + multiset(RootKey(t)) == multiset(InOrder(t))
  {
    if t != Nil {
      ForestBagAppend(Pushed(t.left), Pushed(t.right));
      PushedBag(t.left);
      PushedBag(t.right);
    }
  }

  lemma {:induction false} BfsPermutes(f: seq<Tree>)
    ensures multiset(Bfs(f)) == ForestBag(f)
    decreases ForestSize(f), |f|
  {
    if f != [] {
      var rest := f[1..] + Children(f[0]);
      ForestSizeAppend(f[1..], Children(f[0]));
      ChildrenSize(f[0]);
      BfsPermutes(rest);
      ForestBagAppend(f[1..], Children(f[0]));
      ChildrenBag(f[0]);
    }
  }

  lemma LevelOrderPermutes(t: Tree)
    ensures multiset(LevelOrder(t)) == multiset(InOrder(t))
  {
    if t != Nil {
      BfsPermutes([t]);
      assert ForestBag([t]) == multiset(InOrder(t)) + ForestBag([]);
    }
  }

  /** `s` lists the keys of `t`, each exactly once. */
  ghost predicate EachKeyOnce(s: seq<int>, t: Tree) {
    (forall k :: k in s <==> k in Keys(t)) &&
    (forall k :: k in multiset(s) ==> multiset(s)[k] == 1)
  }

  lemma {:induction false} IncreasingHasNoRepeats(s: seq<int>)
    requires StrictlyIncreasing(s)
    ensures forall k :: k in multiset(s) ==> multiset(s)[k] == 1
  {
    if s != [] {
      IncreasingHasNoRepeats(s[1..]);
      assert s == [s[0]] + s[1..];
      assert s[0] !in s[1..];
    }
  }

  lemma PermutationOfInOrder(s: seq<int>, t: Tree)
    requires IsBST(t)
    requires multiset(s) == multiset(InOrder(t))
    ensures EachKeyOnce(s, t)
  {
    BstIffInOrderSorted(t);
    InOrderListsKeys(t);
    IncreasingHasNoRepeats(InOrder(t));
    forall k ensures k in s <==> k in Keys(t) {
      assert (k in s) == (k in multiset(s));
      assert (k in InOrder(t)) == (k in multiset(InOrder(t)));
    }
  }

  /** For a search tree all four traversals visit every key exactly once. */
  lemma TraversalsVisitEachKeyOnce(t: Tree)
    requires IsBST(t)
    ensures EachKeyOnce(InOrder(t), t)
    ensures EachKeyOnce(PreOrder(t), t)
    ensures EachKeyOnce(PostOrder(t), t)
    ensures EachKeyOnce(LevelOrder(t), t)
  {
    OrdersArePermutations(t);
    LevelOrderPermutes(t);
    PermutationOfInOrder(InOrder(t), t);
    PermutationOfInOrder(PreOrder(t), t);
    PermutationOfInOrder(PostOrder(t), t);
    PermutationOfInOrder(LevelOrder(t), t);
  }
}
