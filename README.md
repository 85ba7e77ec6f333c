# Unival subtree counter

A Dafny model of `findunival` in `dailycodingproblem954.cpp`. The function counts the unival subtrees of a binary tree. A subtree is unival when every node in it holds the same value.

The function works bottom-up. It first visits the left child and then the right child, always. It rejects a node when either child subtree is not unival. It also rejects a node when a present child holds a different value. Every node it accepts adds one to the global counter `count`. The empty tree is accepted and adds nothing.

The model, in module `Unival` of `unival.dfy`:

- `Tree` is an immutable datatype: `Leaf` (the null pointer) or `Node(data, left, right)`. It stands in for `class node`.
- The meaning is given by pure functions that do not follow the algorithm:
  - `Values(t)` is the set of values held in the tree.
  - `IsUnival(t)` holds when the tree is empty or every value in it equals the root's value.
  - `Subtrees(t)` lists the subtree rooted at each node, in preorder.
  - `CountUnival(t)` is how many of those subtrees are unival.
- `Counter` is a class whose field `count` stands for the global counter. Its recursive method `FindUnival` follows the source branch by branch. It is proved to return `IsUnival(root)` and to add exactly `CountUnival(root)` to `count`.
- `CountExampleTree` plays the role of `main`. It builds the documented example tree, resets the counter, runs the search and reads back 5.

## Model

| member | source | states |
|---|---|---|
| `Unival.Counter.FindUnival` | dailycodingproblem954.cpp:67-85 | returns true exactly when every value in `root` equals the root's value (true for the empty tree), and `count` grows by exactly the number of nodes of `root` whose subtree is unival (nothing for the empty tree) |
| `Unival.Counter.constructor` | dailycodingproblem954.cpp:35 | the counter starts at zero |
| `Unival.UnivalStep` | dailycodingproblem954.cpp:69-80 | a node's subtree is unival if and only if both child subtrees are unival and each present child holds the node's value; this is the local rule the recursion uses, proved equivalent to "all values equal the root's" |
| `Unival.CountUnivalNode` | dailycodingproblem954.cpp:72-83 | a node's count is its children's counts plus one exactly when the node's own subtree is unival, so unival subtrees below a rejected node still count |
| `Unival.FailingChild` | dailycodingproblem954.cpp:75-76 | when either child subtree is not unival, the node is not unival and contributes nothing beyond its children's counts |
| `Unival.MismatchedChild` | dailycodingproblem954.cpp:78-80 | when a present child holds a value different from the node's, the node is not unival and contributes nothing beyond its children's counts, whatever the children are |
| `Unival.ChildlessNode` | dailycodingproblem954.cpp:72-84 | a node without children is unival and counts exactly once |
| `Unival.CountBounds` | dailycodingproblem954.cpp:69-83 | the count is at least the number of childless nodes and at most the number of nodes |
| `Unival.ExampleTreeCount` | dailycodingproblem954.cpp:9-23 | the documented example tree has exactly 5 unival subtrees and is not unival itself |
| `Unival.CountExampleTree` | dailycodingproblem954.cpp:96-106 | building the example tree, resetting the counter and running the search leaves the counter at 5 |
| `Unival.ChildrenMatchNotEnough` | dailycodingproblem954.cpp:55-65 | every unival tree passes the immediate-children check, but the documented tree 1/(1, 1/(0, 1)) passes that check and is not unival |

## Left out

- Heap allocation with `new`, raw `node*` pointers and the tree that is never freed. The tree is an immutable datatype, so sharing and cycles between nodes cannot be expressed.
- The console output of the count with `cout`. `CountExampleTree` returns the count instead.
- `count` as process-wide state. It is a field of a `Counter` object, and the reset in `main` is an assignment to that field.
- Machine integer widths. `data` and `count` are unbounded integers. `data` is only compared, and `count` could only overflow on a tree of more than 2^31 - 1 nodes.
- The minimum-steps search in `Daily Coding Problem #1215.cpp` (plain recursion, breadth-first search, memoized recursion). It is a separate program and is not part of this model.
