# Binary search trees of go-strutures, in Dafny

This project models the integer binary search tree of `trees/binarytrees`. The model covers:

- the heap nodes (`BNode`);
- the `BST` object, which holds a root link and a running node count `length`, together with its recursive node helpers;
- the sideways text renderer `printTree` and the helper `intMax`;
- the FIFO `Queue` that the breadth-first traversal uses;
- the older tree of `trees/BST.go`, which keeps repeated keys by sending them to the right.

The model is split into these modules:

- **`SearchTree`** (search_tree.dfy) gives the abstract value every heap structure is proved against.
  - `datatype Tree = Nil | Node(left, value, right)`, with `Keys`, `Size`, `InOrder` and the ordering predicate `IsBST` (left < node < right).
  - The functional meaning of insert (`Insert`) and of the three-case delete (`Remove`).
  - `MinKey`/`MaxKey` and `Height`.
- **`Traversals`** (traversals.dfy) defines the pre-order, post-order and breadth-first orders, and proves the queue-driven order equal to a level-by-level listing.
- **`Rendering`** (rendering.dfy) defines the text `printTree` writes, as a list of (depth, key) lines.
- **`Utils`** (utils.dfy) holds `intMax`, the two layout constants and the indentation prefix. It also holds the decimal rendering `%d` produces, with its read-back property.
- **`Queues`** (queue.dfy) holds `Queue<T>`, a class whose `items` sequence `Push` and `Pop` reassign.
- **`BinaryTrees`** (binary_trees.dfy) holds the heap classes `BNode` and `BST`:
  - Each node carries a ghost footprint `Repr` and a ghost abstract value `Model`.
  - `insertNode` and `removeNode` are recursive methods that relink children in place.
  - `minNode` and `maxNode` are pointer-chasing loops.
  - `BreadthFirstTraverse` is the queue loop of the source.
  - `printTree` builds its prefix in a loop and returns the text instead of writing it.
- **`LegacyTrees`** (legacy_bst.dfy) models `trees/BST.go` from its own code. Its order is left < node <= right.
- **`Scenarios`** (scenarios.dfy) holds concrete runs taken from the cases the test files check.

Callbacks `f func(int)` become returned `seq<int>`. Output to an `io.Writer` becomes a returned `string`. The Go `nil` of `Queue.Pop`/`Peek` becomes `None`.

## Model

| member | source | states |
|---|---|---|
| Utils.IntMax | trees/binarytrees/utils.go:43-48 | the result is at least each argument and equals one of them |
| Utils.IntMin | trees/binarytrees/BST.go:277-281 | helper: the smaller of two integers, at most each and equal to one; it bounds the key `findLCA` stops at |
| Utils.Indent | trees/binarytrees/utils.go:32-34 | the prefix for `level` is `level` copies of the seven-space separator: its length is 7·level and every character is a space |
| Utils.NatToDecimal | trees/binarytrees/utils.go:38 | the digits `%d` prints for a natural number: non-empty, all characters '0'..'9', and a leading '0' only for 0 itself |
| Utils.DecimalRoundTrip | trees/binarytrees/utils.go:38 | reading the printed digits back gives the number |
| Utils.IntToDecimal | trees/binarytrees/utils.go:38 | the text printed for a key is non-empty and holds no newline, so it cannot break the one-line-per-node layout |
| Utils.IntToDecimalRoundTrip | trees/binarytrees/utils.go:38 | the printed key starts with '-' exactly when it is negative; the digits after the sign read back to its absolute value and have no leading zero (only the key 0 prints as "0") |
| SearchTree.InOrderListsKeys | trees/binarytrees/BST.go:72-80 | the in-order walk has one entry per node and lists exactly the key set |
| SearchTree.BstSizeIsKeyCount | trees/binarytrees/BST.go:16-19 | in an ordered tree the node count equals the number of distinct keys |
| SearchTree.BstIffInOrderSorted | trees/binarytrees/BST.go:72-80 | a tree satisfies left < node < right everywhere if and only if its in-order walk is strictly increasing |
| SearchTree.InsertAddsKey | trees/binarytrees/BST.go:47-65 | inserting adds exactly the new key to the key set |
| SearchTree.InsertKeepsBST | trees/binarytrees/BST.go:47-65 | inserting preserves the ordering invariant |
| SearchTree.InsertPresentIsIdentity | trees/binarytrees/BST.go:48-50 | inserting a key already present leaves the tree unchanged |
| SearchTree.InsertAbsentGrows | trees/binarytrees/BST.go:52-64 | inserting an absent key adds exactly one node |
| SearchTree.MinKeyIsLeast | trees/binarytrees/BST.go:140-152 | the leftmost key is in the tree and, in an ordered tree, is at most every key |
| SearchTree.MaxKeyIsGreatest | trees/binarytrees/BST.go:159-171 | the rightmost key is in the tree and, in an ordered tree, is at least every key |
| SearchTree.RemoveAbsentIsIdentity | trees/binarytrees/BST.go:211-222 | removing an absent key changes nothing |
| SearchTree.RemoveDeletesKey | trees/binarytrees/BST.go:209-246 | removing keeps the ordering invariant and takes exactly the removed key out of the key set, in all three delete cases |
| SearchTree.RemovePresentShrinks | trees/binarytrees/BST.go:224-245 | removing a present key removes exactly one node |
| SearchTree.RemoveMaxSplicesSpineEnd | trees/binarytrees/BST.go:241-245 | removing the maximum, the key case 3 moves up, unlinks the end of the right spine; that node has no right child, so the inner removal takes delete case 1 or 2 |
| SearchTree.HeightAtMostSize | trees/binarytrees/BST.go:258-264 | the height is at most the node count and is 0 exactly for the empty tree |
| SearchTree.ChainInsertGreater | trees/binarytrees/BST.go:58-64 | inserting a key above all keys of a right-leaning chain extends the chain by one level |
| SearchTree.ChainInsertAllIncreasing | trees/binarytrees/BST.go:47-65 | inserting strictly increasing keys above a chain adds one level per key |
| SearchTree.IncreasingInsertsHeight | trees/binarytrees/BST_test.go:612 | inserting n strictly increasing keys into an empty tree gives height n |
| Traversals.ForestSizeAppend | trees/binarytrees/BST.go:118-132 | helper: the node count of a queue of subtrees splits over concatenation |
| Traversals.ChildrenSize | trees/binarytrees/BST.go:121-128 | popping a node and pushing its non-nil children lowers the waiting node count by one |
| Traversals.BfsPop | trees/binarytrees/BST.go:120-132 | one loop turn reports the front key and continues with the rest of the queue plus the front's non-nil left and right children; the waiting node count strictly decreases |
| Traversals.BfsFront | trees/binarytrees/BST.go:120-132 | draining a queue prefix reports its roots and appends their children behind the rest |
| Traversals.LevelFAppend | trees/binarytrees/BST.go:120-132 | helper: a level of a forest splits over concatenation |
| Traversals.HeightFAppend | trees/binarytrees/BST.go:120-132 | helper: the height of a forest is the larger height of its parts |
| Traversals.PushedLevel | trees/binarytrees/BST.go:123-128 | pushing a subtree only when it is non-nil changes no level, height or size |
| Traversals.LevelFKids | trees/binarytrees/BST.go:120-132 | level 0 of a forest is its roots and level d+1 is level d of the children; heights and sizes shift accordingly |
| Traversals.LevelsFromKids | trees/binarytrees/BST.go:120-132 | listing levels from the children is listing levels one deeper from the parents |
| Traversals.NoLevelsBelowHeight | trees/binarytrees/BST.go:120-132 | helper: a forest of height 0 has no roots, no children and empty levels |
| Traversals.BfsIsLevelsF | trees/binarytrees/BST.go:113-133 | the queue order is the levels of the forest listed top to bottom |
| Traversals.NoRootsNoHeight | trees/binarytrees/BST.go:114-116 | helper: a forest with no roots has height 0 |
| Traversals.LevelsFromSingleton | trees/binarytrees/BST.go:119 | the levels of a one-tree queue are the levels of that tree |
| Traversals.LevelOrderIsByLevels | trees/binarytrees/BST.go:112-133 | the breadth-first order equals the keys level by level from top to bottom, left to right on each level |
| Traversals.OrdersArePermutations | trees/binarytrees/BST.go:87-110 | pre-order and post-order list the same multiset of keys as in-order |
| Traversals.ForestBagAppend | trees/binarytrees/BST.go:118-132 | helper: the multiset of keys waiting in the queue splits over concatenation |
| Traversals.PushedBag | trees/binarytrees/BST.go:123-128 | pushing a child only when non-nil keeps its keys |
| Traversals.ChildrenBag | trees/binarytrees/BST.go:121-128 | a node's key plus its children's keys are the node's subtree keys |
| Traversals.BfsPermutes | trees/binarytrees/BST.go:118-132 | the queue loop reports exactly the keys waiting in the queue, with multiplicity |
| Traversals.LevelOrderPermutes | trees/binarytrees/BST.go:113-133 | breadth-first lists the same multiset as in-order |
| Traversals.IncreasingHasNoRepeats | trees/binarytrees/BST.go:72-80 | helper: a strictly increasing walk holds each key once |
| Traversals.PermutationOfInOrder | trees/binarytrees/BST.go:87-133 | any permutation of the in-order walk of an ordered tree visits every key exactly once and nothing else |
| Traversals.TraversalsVisitEachKeyOnce | trees/binarytrees/BST.go:68-133 | in-order, pre-order, post-order and breadth-first each visit every key of an ordered tree exactly once; an empty tree yields nothing |
| Rendering.LinesAppend | trees/binarytrees/utils.go:29-41 | helper: the text of consecutive line groups is their concatenation |
| Rendering.EntryKeysAppend | trees/binarytrees/utils.go:29-41 | helper: the keys of consecutive line groups are their concatenation |
| Rendering.ReverseAppend | trees/binarytrees/utils.go:37-39 | helper: reversing a concatenation reverses and swaps its parts |
| Rendering.CountAppend | trees/binarytrees/utils.go:38 | helper: newline counts add over concatenation |
| Rendering.CountAbsent | trees/binarytrees/utils.go:38 | helper: a string without newlines counts none |
| Rendering.LineHasOneNewline | trees/binarytrees/utils.go:38 | each node's line holds exactly one newline, its last character |
| Rendering.LinesOfNode | trees/binarytrees/utils.go:36-39 | a node's text is its right subtree's lines, its own line, then its left subtree's lines, the children one level deeper |
| Rendering.RenderIsLines | trees/binarytrees/utils.go:29-41 | the rendered text is the lines of the entries in output order, holds one newline per node, and is empty exactly for the empty tree |
| Rendering.LinesCountNewlines | trees/binarytrees/utils.go:29-41 | the text of n lines holds n newlines |
| Rendering.EntriesReverseInOrder | trees/binarytrees/utils.go:37-39 | there is one line per node, and the keys appear in reverse in-order |
| Rendering.ReverseIncreasing | trees/binarytrees/utils.go:37-39 | helper: reversing a strictly increasing sequence gives a strictly decreasing one |
| Rendering.ReverseAt | trees/binarytrees/utils.go:37-39 | helper: position i of the reversal is position n-1-i of the original |
| Rendering.RenderedKeysDecrease | trees/binarytrees/utils_test.go:31-35 | for a search tree the rendered keys are strictly decreasing from top to bottom |
| Rendering.EntriesFromTree | trees/binarytrees/utils.go:36-39 | every line holds a key of the tree at a depth no smaller than the starting level |
| Rendering.IndentIsDepth | trees/binarytrees/utils.go:36-39 | each line's indentation level is the starting level plus the depth of its key |
| Queues.Queue.constructor | queue.go:6-8 | a new queue holds no items |
| Queues.Queue.Push | queue.go:11-13 | the value is appended at the back; earlier items keep their order |
| Queues.Queue.Pop | queue_test.go:102-135 | a non-empty queue yields its front item and keeps the rest in order; an empty queue yields `None` and stays empty |
| Queues.Queue.Peek | queue_test.go:67-100 | `None` exactly when empty, otherwise the front item; nothing changes |
| Queues.Queue.Size | queue_test.go:45-65 | the number of items held |
| Queues.Queue.IsEmpty | queue_test.go:137-158 | true exactly when the size is 0 |
| BinaryTrees.BNode.constructor | trees/binarytrees/BNode.go:10-13 | a fresh node holding the value with nil children |
| BinaryTrees.NodesInFootprint | trees/binarytrees/BNode.go:4-8 | the nodes reachable from a node by child links lie in its footprint and are as many as the nodes of its abstract tree, so no node is reached twice |
| BinaryTrees.InsertNode | trees/binarytrees/BST.go:47-65 | the subtree becomes the functional insert of the new key; the result is true exactly when the key was absent; the footprint grows by at most the new node |
| BinaryTrees.MinNode | trees/binarytrees/BST.go:140-152 | nil exactly for a nil subtree; otherwise a node reachable from `node` with no left child, holding its leftmost key |
| BinaryTrees.MaxNode | trees/binarytrees/BST.go:159-171 | nil exactly for a nil subtree; otherwise a node reachable from `node` with no right child, holding its rightmost key |
| BinaryTrees.SearchNode | trees/binarytrees/BST.go:178-192 | non-nil exactly when the key is in the subtree; a non-nil result is a node reachable from `node` by child links that holds that key |
| BinaryTrees.RemoveNode | trees/binarytrees/BST.go:209-246 | the returned subtree is the functional delete of the key from the old subtree and lies within the old footprint; the flag is true exactly when the key was present |
| BinaryTrees.RemoveInner | trees/binarytrees/BST.go:241-245 | a two-child node takes the maximum of its left subtree, which is removed there; the whole subtree becomes the delete of the node's old key |
| BinaryTrees.NodeHeight | trees/binarytrees/BST.go:258-264 | the height of the subtree: 0 for nil, else one more than the taller child |
| BinaryTrees.FindLCA | trees/binarytrees/BST.go:272-288 | non-nil exactly when both keys are in the subtree; then a node reachable from `node` whose subtree holds both keys, whose key lies between them, and neither of whose children holds both |
| BinaryTrees.InOrderFrom | trees/binarytrees/BST.go:72-80 | the keys visited are the in-order walk of the subtree |
| BinaryTrees.PreOrderFrom | trees/binarytrees/BST.go:87-95 | the keys visited are the node-left-right walk of the subtree |
| BinaryTrees.PostOrderFrom | trees/binarytrees/BST.go:102-110 | the keys visited are the left-right-node walk of the subtree |
| BinaryTrees.LinePrefix | trees/binarytrees/utils.go:31-35 | the prefix is the separator `level` times followed by the node marker |
| BinaryTrees.PrintTree | trees/binarytrees/utils.go:29-41 | the text written for a subtree is its rendering: right subtree one level deeper, the node's line, left subtree one level deeper |
| BinaryTrees.BST.Empty | trees/binarytrees/BST.go:16-19 | the zero `BST{}` is an empty tree with count 0, and its count is right |
| BinaryTrees.BST.New | trees/binarytrees/BST.go:22-24 | a one-node tree holding the value, whose count is 0, which is wrong |
| BinaryTrees.BST.NewCounted | trees/binarytrees/BST.go:22-24 | the one-node tree with count 1, so its count is right |
| BinaryTrees.BST.Root | trees/binarytrees/BST.go:27-29 | nil exactly for the empty tree; otherwise a well-formed node standing for the whole tree |
| BinaryTrees.BST.Insert | trees/binarytrees/BST.go:32-45 | true exactly when the key was absent; the key set gains exactly that key and the order holds; a refused insert leaves the tree as it was; the count rises by one exactly on success, and a right count stays right |
| BinaryTrees.BST.Remove | trees/binarytrees/BST.go:200-207 | true exactly when the key was present; the key set loses exactly that key and the order holds; a missed remove changes nothing; the count falls by one exactly on success, and a right count stays right |
| BinaryTrees.BST.Search | trees/binarytrees/BST.go:174-176 | non-nil exactly when the key is present; then a node reachable from the root (not a detached one) holding it |
| BinaryTrees.BST.Has | trees/binarytrees/BST.go:195-197 | true exactly when the key is present |
| BinaryTrees.BST.Min | trees/binarytrees/BST.go:136-138 | nil exactly for the empty tree; otherwise a node reachable from the root whose key is in the tree and at most every key |
| BinaryTrees.BST.Max | trees/binarytrees/BST.go:155-157 | nil exactly for the empty tree; otherwise a node reachable from the root whose key is in the tree and at least every key |
| BinaryTrees.BST.Len | trees/binarytrees/BST.go:249-251 | when the count is right, the number of keys the in-order walk lists |
| BinaryTrees.BST.Height | trees/binarytrees/BST.go:254-256 | the tree's height, 0 exactly for the empty tree and at most the number of keys |
| BinaryTrees.BST.LCA | trees/binarytrees/BST.go:268-270 | non-nil exactly when both keys are present; then a node reachable from the root whose subtree holds both, with its key between them |
| BinaryTrees.BST.InOrderTraverse | trees/binarytrees/BST.go:68-70 | the in-order walk: strictly increasing and listing exactly the key set |
| BinaryTrees.BST.PreOrderTraverse | trees/binarytrees/BST.go:83-85 | node-left-right order, visiting every key exactly once |
| BinaryTrees.BST.PostOrderTraverse | trees/binarytrees/BST.go:98-100 | left-right-node order, visiting every key exactly once |
| BinaryTrees.BST.BreadthFirstTraverse | trees/binarytrees/BST.go:113-133 | the queue loop yields the keys level by level, left to right, each exactly once; an empty tree yields nothing |
| BinaryTrees.ReportFront | trees/binarytrees/BST.go:122 | helper: reporting the front key keeps what was reported plus what is still to come equal to the whole walk |
| BinaryTrees.VisitFront | trees/binarytrees/BST.go:121-128 | popping the front node and pushing its non-nil children keeps the queue in step with the abstract forest |
| BinaryTrees.MirrorsStep | trees/binarytrees/BST.go:121-128 | the popped node stands for the front tree, and the queue after the pushes stands for the forest after one step |
| LegacyTrees.InsertLeaf | trees/BST.go:34-48 | insertion is never empty, adds the key to the key set and adds exactly one node |
| LegacyTrees.InsertAddsOneLeaf | trees/BST.go:34-48 | the new key hangs as a leaf from one formerly empty slot, and every other key and link is as before |
| LegacyTrees.InsertKeepsOrder | trees/BST.go:35-46 | insertion preserves left < node <= right |
| LegacyTrees.BagIsInOrder | trees/BST.go:4-8 | the multiset of a tree's keys is that of its in-order walk |
| LegacyTrees.InsertBag | trees/BST.go:34-48 | insertion adds one occurrence of the key, a repeated one too |
| LegacyTrees.InsertKeepsDuplicates | trees/BST.go:41-46 | the in-order walk after insertion gains exactly one occurrence of the key; repeated keys are kept |
| LegacyTrees.OrderedInOrderSorted | trees/BST.go:35-46 | an ordered tree lists its keys, repeats included, in non-decreasing order |
| LegacyTrees.Node.constructor | trees/BST.go:10-12 | `NewNode`: a fresh node holding the value with nil children |
| LegacyTrees.InsertNode | trees/BST.go:34-48 | the subtree becomes the leaf insertion of the new key; every existing node keeps its key and every non-nil link |
| LegacyTrees.BST.Empty | trees/BST.go:15-17 | the zero tree has no root |
| LegacyTrees.BST.New | trees/BST.go:20-22 | a tree whose root holds the value and has no children |
| LegacyTrees.BST.Insert | trees/BST.go:25-32 | the tree becomes the leaf insertion of the key and stays ordered; an empty tree gets the new node as its root, otherwise the root stays |
| Scenarios.NewMiscounts | trees/binarytrees/BST.go:22-24 | `New(5)` reports `Len() == 0`, and after `Remove(5)` it reports -1 |
| Scenarios.NewCountedCounts | trees/binarytrees/BST.go:22-24 | with the corrected count the same run reports 1 and then 0 |
| Scenarios.DuplicateRejected | trees/binarytrees/BST_test.go:51 | inserting 1 twice into `BST{}` succeeds once, refuses the second time, and the count is 1 |
| Scenarios.LegacyDuplicateGoesRight | trees/BST.go:41-46 | in the older tree a repeated key becomes the root's right child |
| Scenarios.PlainTreeText | trees/binarytrees/utils_test.go:31-35 | the tree 2(1,3) renders as the separator with "-[3", then "-[2", then the separator with "-[1" |
| Scenarios.PrintPlainTree | trees/binarytrees/utils_test.go:31-35 | inserting 2, 1, 3 into `BST{}` and printing from the root gives that text |
| Scenarios.QueueFifo | queue_test.go:67-120 | after pushing 3, 2, 5, 4, peeking yields 3, popping yields 3, and three items remain |
| Scenarios.QueueEmpty | queue_test.go:87-135 | on an empty queue `Peek` and `Pop` yield `None` and the queue stays empty |

## Left out

- `NewRandBST` (trees/binarytrees/utils.go:16-22) draws a random permutation, so it is not modelled. Its result is an ordinary sequence of `Insert` calls.
- The `io.Writer`, `bytes.Buffer` and `fmt.Fprintf` plumbing of `printTree`: the text is returned as a `string`. `%d` is written out as `IntToDecimal`.
- `BST.Print` and `BST.PrintByLevel` (trees/binarytrees/BST.go:290-298) call `PrintTreeFromNode` and `PrintTreeByLevel`. Those are not part of this model.
- `Print(w, t BinaryTree)` (trees/binarytrees/utils.go:25-27) takes a `BinaryTree` interface that is not part of this model. `PrintTree` models the `printTree` it calls.
- Traversal callbacks `f func(int)` are modelled as the sequence of keys they would receive, in call order. Side effects of `f` are not modelled.
- trees/trees.go has no logic, only a duplicate node type and an interface, so it is not modelled.
- Concurrent use is not modelled; the source disclaims it.
- The queue's `Item` element type is not part of this model. `Queue<T>` is generic, so the type assertion `queue.Pop().(*BNode)` is not modelled.
- The bodies of `Pop`, `Peek`, `Size` and `IsEmpty` are not in queue.go. Their contracts follow what queue_test.go asserts.
- Go `int` is 64-bit, and keys are modelled as unbounded `int`. The only arithmetic on them is comparison, so no wrap-around can arise. `length` can only exceed 64 bits with more nodes than memory holds.
- BinaryTrees.InsertNode: states the new footprint as a subset of the old one plus the new node, not equal to it. The footprint is ghost bookkeeping; keys and shape are stated exactly.
- LegacyTrees.InsertNode: states the new footprint as a subset, as above. It states that every existing node keeps its key and non-nil links. It does not state that no node outside the tree moves; the `modifies` clause already limits that.
- BinaryTrees.BST.Len: its contract ties the count to the number of keys only when the count is right (`Counted`). Trees built by `New` start one short.
- BinaryTrees.RemoveNode: removed nodes stay in the ghost footprint of the tree object. The keys and shape reachable from the root are stated, and results that name a node (`Search`, `LCA`, `Min`, `Max`) are stated to be reachable from the root.
- BinaryTrees.PrintTree: takes a ghost `t`, the abstract subtree, only to name it in the contract. The source passes nothing of the kind, and the ghost parameter changes no behaviour.
- The tests in trees/BST_test.go expect `Len`, `Remove`, traversals and duplicate rejection on the older tree. trees/BST.go has none of these, so `LegacyTrees` follows trees/BST.go's own code.

## Findings

| source | as written | input that shows it | evidently intended | confidence | as-written member | corrected member |
|---|---|---|---|---|---|---|
| trees/binarytrees/BST.go:22-24 | `New(value)` builds a one-node tree with `length` 0 | `New(5)`: `Len()` is 0; after `Remove(5)` returns true, `Len()` is -1 | `length` 1, so that `Len()` counts the nodes as it does for trees grown from `BST{}` | high; not executed | Scenarios.NewMiscounts | Scenarios.NewCountedCounts |
