// Layout of the sideways renderer `printTree` (trees/binarytrees/utils.go):
// one line per node, right subtree above the node, left subtree below it,
// each line indented by the separator once per level of depth.
module Rendering {
  import opened Utils
  import opened SearchTree

  /** One output line before formatting: the indentation level and the key. */
  datatype Entry = Entry(depth: nat, key: int)

  /** The lines `printTree(w, n, level)` writes, in output order. */
  function Entries(t: Tree, level: nat): seq<Entry> {
    match t
    case Nil => []
    case Node(l, x, r) => Entries(r, level + 1) + [Entry(level, x)] + Entries(l, level + 1)
  }

  /** `"%s%d\n"` of the indentation-plus-marker prefix and the key. */
  function Line(e: Entry): string {
    Indent(e.depth) + PrintNode + IntToDecimal(e.key) + "\n"
  }

  function Lines(es: seq<Entry>): string {
    if es == [] then "" else Line(es[0]) + Lines(es[1..])
  }

  /** The text `printTree(w, t, level)` writes: the right subtree one level
      deeper, the node's own line, then the left subtree one level deeper. */
  function Render(t: Tree, level: nat): string {
    match t
    case Nil => ""
    case Node(l, x, r) => Render(r, level + 1) + Line(Entry(level, x)) + Render(l, level + 1)
  }

  function EntryKeys(es: seq<Entry>): seq<int> {
    if es == [] then [] else [es[0].key] + EntryKeys(es[1..])
  }

  function Reverse(s: seq<int>): seq<int> {
    if s == [] then [] else Reverse(s[1..]) + [s[0]]
  }

  function Count(s: string, c: char): nat {
    if s == [] then 0 else (if s[0] == c then 1 else 0) + Count(s[1..], c)
  }

  /** Number of edges on the search path from the root to key `k`. */
  function DepthOf(t: Tree, k: int): nat {
    match t
    case Nil => 0
    case Node(l, x, r) => if k == x then 0 else if k < x then 1 + DepthOf(l, k) else 1 + DepthOf(r, k)
  }

  // ---------------------------------------------------------------------

  lemma {:induction false} LinesAppend(a: seq<Entry>, b: seq<Entry>)
    ensures Lines(a + b) == Lines(a) + Lines(b)
    decreases |a|
  {
    if a == [] {
      assert a + b == b;
    } else {
      assert (a + b)[0] == a[0] && (a + b)[1..] == a[1..] + b;
      LinesAppend(a[1..], b);
    }
  }

  lemma {:induction false} EntryKeysAppend(a: seq<Entry>, b: seq<Entry>)
    ensures EntryKeys(a + b) == EntryKeys(a) + EntryKeys(b)
    decreases |a|
  {
    if a == [] {
      assert a + b == b;
    } else {
      assert (a + b)[0] == a[0] && (a + b)[1..] == a[1..] + b;
      EntryKeysAppend(a[1..], b);
    }
  }

  lemma {:induction false} ReverseAppend(a: seq<int>, b: seq<int>)
    ensures Reverse(a + b) == Reverse(b) + Reverse(a)
    decreases |a|
  {
    if a == [] {
      assert a + b == b;
    } else {
      assert (a + b)[0] == a[0] && (a + b)[1..] == a[1..] + b;
      ReverseAppend(a[1..], b);
    }
  }

  lemma {:induction false} CountAppend(a: string, b: string, c: char)
    ensures Count(a + b, c) == Count(a, c) + Count(b, c)
    decreases |a|
  {
    if a == [] {
      assert a + b == b;
    } else {
      assert (a + b)[0] == a[0] && (a + b)[1..] == a[1..] + b;
      CountAppend(a[1..], b, c);
    }
  }

  lemma {:induction false} CountAbsent(s: string, c: char)
    requires c !in s
    ensures Count(s, c) == 0
    decreases |s|
  {
    if s != [] {
      assert s[0] != c;
      assert forall i :: 0 <= i < |s[1..]| ==> s[1..][i] == s[i + 1];
      CountAbsent(s[1..], c);
    }
  }

  /** Every line ends with the only newline it holds. */
  lemma LineHasOneNewline(e: Entry)
    ensures Count(Line(e), '\n') == 1
    ensures Line(e)[|Line(e)| - 1] == '\n'
  {
    var pre := Indent(e.depth) + PrintNode + IntToDecimal(e.key);
    assert '\n' !in Indent(e.depth);
    assert '\n' !in PrintNode;
    assert '\n' !in pre;
    CountAbsent(pre, '\n');
    CountAppend(pre, "\n", '\n');
    assert Line(e) == pre + "\n";
  }

  /** The text for a node: the right subtree's lines, the node's own line,
      then the left subtree's lines. */
  lemma LinesOfNode(l: Tree, x: int, r: Tree, level: nat)
    ensures Lines(Entries(Node(l, x, r), level))
         == Lines(Entries(r, level + 1)) + Line(Entry(level, x)) + Lines(Entries(l, level + 1))
  {
    var e, above, below := Entry(level, x), Entries(r, level + 1), Entries(l, level + 1);
    assert Entries(Node(l, x, r), level) == above + [e] + below;
    LinesAppend(above + [e], below);
    LinesAppend(above, [e]);
    assert Lines([e]) == Line(e) by {
      assert [e][1..] == [];
    }
  }

  /** The text is the lines of the entries, one after another, and it
      holds one line per node. */
  lemma {:induction false} RenderIsLines(t: Tree, level: nat)
    ensures Render(t, level) == Lines(Entries(t, level))
    ensures Count(Render(t, level), '\n') == Size(t)
    ensures (Render(t, level) == "") == (t == Nil)
  {
    match t
    case Nil =>
    case Node(l, x, r) =>
      RenderIsLines(l, level + 1);
      RenderIsLines(r, level + 1);
      LinesOfNode(l, x, r, level);
      LinesCountNewlines(Entries(t, level));
      EntriesReverseInOrder(t, level);
  }

  /** The output holds one newline per entry. */
  lemma {:induction false} LinesCountNewlines(es: seq<Entry>)
    ensures Count(Lines(es), '\n') == |es|
    decreases |es|
  {
    if es != [] {
      LineHasOneNewline(es[0]);
      CountAppend(Line(es[0]), Lines(es[1..]), '\n');
      LinesCountNewlines(es[1..]);
    }
  }

  /** One entry per node, listing the keys right-to-left: the reverse of the
      in-order sequence. */
  lemma {:induction false} EntriesReverseInOrder(t: Tree, level: nat)
    ensures |Entries(t, level)| == Size(t)
    ensures EntryKeys(Entries(t, level)) == Reverse(InOrder(t))
  {
    match t
    case Nil =>
    case Node(l, x, r) =>
      EntriesReverseInOrder(l, level + 1);
      EntriesReverseInOrder(r, level + 1);
      EntryKeysAppend(Entries(r, level + 1) + [Entry(level, x)], Entries(l, level + 1));
      EntryKeysAppend(Entries(r, level + 1), [Entry(level, x)]);
      ReverseAppend(InOrder(l) + [x], InOrder(r));
      ReverseAppend(InOrder(l), [x]);
      assert Reverse([x]) == [x];
  }

  predicate StrictlyDecreasing(s: seq<int>) {
    forall i, j :: 0 <= i < j < |s| ==> s[i] > s[j]
  }

  lemma ReverseIncreasing(s: seq<int>)
    requires StrictlyIncreasing(s)
    ensures StrictlyDecreasing(Reverse(s))
  {
    ReverseAt(s);
  }

  lemma {:induction false} ReverseAt(s: seq<int>)
    ensures |Reverse(s)| == |s|
    ensures forall i :: 0 <= i < |s| ==> Reverse(s)[i] == s[|s| - 1 - i]
    decreases |s|
  {
    if s != [] {
      ReverseAt(s[1..]);
    }
  }

  /** For a search tree the lines list the keys in strictly decreasing order. */
  lemma RenderedKeysDecrease(t: Tree, level: nat)
    requires IsBST(t)
    ensures StrictlyDecreasing(EntryKeys(Entries(t, level)))
  {
    EntriesReverseInOrder(t, level);
    BstIffInOrderSorted(t);
    ReverseIncreasing(InOrder(t));
  }

  lemma {:induction false} EntriesFromTree(t: Tree, level: nat)
    ensures forall e :: e in Entries(t, level) ==> e.key in Keys(t) && e.depth >= level
  {
    match t
    case Nil =>
    case Node(l, x, r) =>
      EntriesFromTree(l, level + 1);
      EntriesFromTree(r, level + 1);
  }

  /** Each line's indentation level is the starting level plus the depth of
      its key in the tree. */
  lemma {:induction false} IndentIsDepth(t: Tree, level: nat)
    requires IsBST(t)
    ensures forall e :: e in Entries(t, level) ==> e.depth == level + DepthOf(t, e.key)
  {
    match t
    case Nil =>
    case Node(l, x, r) =>
      IndentIsDepth(l, level + 1);
      IndentIsDepth(r, level + 1);
      EntriesFromTree(l, level + 1);
      EntriesFromTree(r, level + 1);
  }
}
