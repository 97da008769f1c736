// Concrete runs of the tree and queue objects, following cases that
// trees/binarytrees/BST_test.go and queue_test.go check, and the run that
// shows the count `New` starts with.
module Scenarios {
  import opened Utils
  import opened SearchTree
  import opened Queues
  import BinaryTrees
  import LegacyTrees
  import Rendering

  /** `New(5)` as written: the count reads 0 for a one-node tree, and
      removing the node takes it to -1. */
  method NewMiscounts() returns (before: int, after: int, removed: bool)
    ensures removed
    ensures before == 0 && after == -1
  {
    var t := new BinaryTrees.BST.New(5);
    before := t.Len();
    removed := t.Remove(5);
    after := t.Len();
  }

  /** The same run from a tree whose count starts at 1. */
  method NewCountedCounts() returns (before: int, after: int, removed: bool)
    ensures removed
    ensures before == 1 && after == 0
  {
    var t := new BinaryTrees.BST.NewCounted(5);
    before := t.Len();
    removed := t.Remove(5);
    after := t.Len();
  }

  /** Inserting 1 twice into `BST{}`: the second insert is refused and the
      count stays at 1. */
  method DuplicateRejected() returns (first: bool, second: bool, n: int)
    ensures first && !second && n == 1
  {
    var t := new BinaryTrees.BST.Empty();
    first := t.Insert(1);
    second := t.Insert(1);
    n := t.Len();
  }

  /** The legacy tree keeps a repeated key: it becomes the root's right
      child. */
  method LegacyDuplicateGoesRight() returns (root: int, right: int)
    ensures root == 1 && right == 1
  {
    var t := new LegacyTrees.BST.New(1);
    t.Insert(1);
    var r := t.Root;
    assert r.Model == Node(Nil, 1, Node(Nil, 1, Nil));
    var child := r.right;
    assert child != null && child.Valid();
    root, right := r.value, child.value;
  }

  /** The text for the tree with 2 at the root, 1 on its left and 3 on its
      right. */
  lemma PlainTreeText()
    ensures Rendering.Render(Node(Node(Nil, 1, Nil), 2, Node(Nil, 3, Nil)), 0)
         == (PrintLevelSeparator + "-[3\n") + "-[2\n" + (PrintLevelSeparator + "-[1\n")
  {
    var a, b, c := Rendering.Line(Rendering.Entry(1, 3)), Rendering.Line(Rendering.Entry(0, 2)), Rendering.Line(Rendering.Entry(1, 1));
    assert Rendering.Render(Node(Node(Nil, 1, Nil), 2, Node(Nil, 3, Nil)), 0) == a + b + c;
    KeyText(3, "3");
    KeyText(2, "2");
    KeyText(1, "1");
    assert Indent(1) == PrintLevelSeparator && Indent(0) == "";
  }

  lemma KeyText(d: nat, s: string)
    requires d < 10 && s == [DigitChar(d)]
    ensures IntToDecimal(d) == s
  {
  }

  /** Inserting 2, 1, 3 into `BST{}` and printing from the root: 3 one level
      in, then 2, then 1 one level in. */
  method PrintPlainTree() returns (text: string)
    ensures text == (PrintLevelSeparator + "-[3\n") + "-[2\n" + (PrintLevelSeparator + "-[1\n")
  {
    var t := new BinaryTrees.BST.Empty();
    var first := t.Insert(2);
    var second := t.Insert(1);
    var third := t.Insert(3);
    assert t.Model() == Node(Node(Nil, 1, Nil), 2, Node(Nil, 3, Nil));
    text := BinaryTrees.PrintTree(t.Root(), 0, t.Model());
    PlainTreeText();
  }

  /** Pushing 3, 2, 5, 4 and popping once yields 3 and leaves three items;
      peeking first yields 3 and leaves all four. */
  method QueueFifo() returns (peeked: Option<int>, popped: Option<int>, size: nat)
    ensures peeked == Some(3) && popped == Some(3) && size == 3
  {
    var q := new Queue<int>();
    q.Push(3);
    q.Push(2);
    q.Push(5);
    q.Push(4);
    peeked := q.Peek();
    popped := q.Pop();
    size := q.Size();
  }

  /** An empty queue answers `None` to `Peek` and `Pop` and stays empty. */
  method QueueEmpty() returns (peeked: Option<int>, popped: Option<int>, empty: bool)
    ensures peeked == None && popped == None && empty
  {
    var q := new Queue<int>();
    peeked := q.Peek();
    popped := q.Pop();
    empty := q.IsEmpty();
  }
}
