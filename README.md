# Data structure visualizer core, in Dafny

The repository has two Tkinter programs, `DSA_python_V2.py` and `DSA_visualizer.py`.
Each one draws three data structures on a canvas:

- a binary search tree (`Node`, `BST`) with insert, delete, minimum search and in-order traversal;
- a `Stack` and a `Queue`, both wrappers around a Python list;
- the `draw` methods, which turn each structure into canvas shapes at integer coordinates.

The two files share the same algorithms. Their drawings differ in constants, in the bar-width and label formulas, and in the extra shadow shapes and arrow connectors of `DSA_python_V2.py`.
This project models the algorithms once.
Each file's way of drawing is a `Theme`: `Polished` is `DSA_python_V2.py` and `Classic` is `DSA_visualizer.py`.

Modules:

- `TreeModel` (tree_model.dfy): the tree as a value (`Tree`). It defines insert, delete, leftmost value, in-order and pre-order, and the ordering invariant `IsBst`: left subtree strictly smaller, right subtree greater than or equal, so duplicates go right. It holds the lemmas about these functions.
- `BinarySearchTree` (bst.dfy): the heap `Node` and `BST` classes. Links and values are updated in place, as in the source, including the successor value copy in `_delete`, whose two-child case is its own method, `CopySuccessor`. Each node carries a ghost footprint and a ghost `Tree`. The node-level methods (`InsertAt`, `DeleteAt`, `CopySuccessor`, `MinValueNode`, `InorderAt`) are proved to compute the matching `TreeModel` function on the node's abstract tree; `Node.Valid()` is only well-formedness. The ordering invariant `IsBst` is part of `BST.Valid()`, so it is `BST.Insert` and `BST.Delete` that keep it, through the lemmas `InsertKeepsBst` and `DeleteKeepsBst`. `Draw` and `DrawAt` compute `Layout.DrawTree`.
- `Containers` (containers.dfy): `Stack` and `Queue` as classes with a `seq<int>` field `items`. Popping or dequeuing an empty container returns `None` and changes nothing.
- `Layout` (layout.dfy): the `draw` methods as functions that return a sequence of `Primitive`s (ovals, rectangles, lines, arrows, texts) instead of calling a canvas. This covers the tree walk, with the root at (400, 100) or (400, 50) and children at (x∓100, y+50), and the bar rows of the stack and queue.
- `Scenarios` (scenarios.dfy): concrete sequences of operations on the three structures, with their final values proved.
- `Wrappers` (wrappers.dfy): `Option`, which stands for Python's `None`-or-value results.

Node values are unbounded integers. The source only ever inserts integers.

## Model

| member | source | states |
|---|---|---|
| BinarySearchTree.Node.constructor | DSA_python_V2.py:7-12 | a new node holds the value and has no children; its abstract tree is a single leaf |
| BinarySearchTree.BST.constructor | DSA_python_V2.py:16-17 | a new tree is empty and satisfies the ordering invariant |
| BinarySearchTree.BST.Insert | DSA_python_V2.py:19-24 | the new tree is the model insert of the old one and keeps the ordering invariant; its elements (the multiset of its in-order traversal, by `InorderElements`) gain exactly one `v`; an empty tree gets `v` as its single root |
| BinarySearchTree.BST.InsertAt | DSA_python_V2.py:26-37 | walking down from a node and linking a new leaf (smaller goes left, equal or larger goes right) yields the model insert of that subtree; only new nodes are added |
| BinarySearchTree.BST.Delete | DSA_python_V2.py:39-41 | the new tree is the model delete of the old one and keeps the invariant; its in-order sequence is the old one with the first occurrence of `v` removed; an absent `v` leaves the tree unchanged |
| BinarySearchTree.BST.DeleteAt | DSA_python_V2.py:43-61 | the node returned in place of a subtree holds the model delete of it: an absent value changes nothing, a node without a left (right) child gives way to its right (left) child; its footprint stays inside the old one |
| BinarySearchTree.BST.CopySuccessor | DSA_python_V2.py:57-59 | in the two-child case the node takes the value of the leftmost node of its right subtree, which is then deleted from that subtree; the node then holds the model delete of its old value |
| BinarySearchTree.BST.MinValueNode | DSA_python_V2.py:63-68 | the while loop ends at a node of the subtree with no left child whose value is the subtree's leftmost value and the first element of its in-order sequence |
| BinarySearchTree.BST.Inorder | DSA_python_V2.py:70-72 | the traversal of the tree equals the model in-order sequence and is non-decreasing |
| BinarySearchTree.BST.InorderAt | DSA_python_V2.py:74-76 | left traversal, node value, right traversal over heap nodes equals the model in-order sequence of the subtree |
| BinarySearchTree.BST.Draw | DSA_python_V2.py:78-121 | drawing the whole tree equals the model drawing anchored at (400, 100) for the V2 theme and (400, 50) for the other |
| BinarySearchTree.BST.DrawAt | DSA_visualizer.py:77-94 | drawing a subtree at (x, y) over heap nodes equals the model drawing of its abstract tree at (x, y) |
| TreeModel.Inorder | DSA_python_V2.py:74-76 | definition: left traversal, value, right traversal; its properties are in `InorderValues`, `InorderLength`, `InorderSorted`, `InorderElements` |
| TreeModel.Preorder | DSA_python_V2.py:90-121 | definition: the order in which `draw` visits the nodes, node before its left and right subtrees; `TreeDrawingCounts` proves the drawn texts follow it |
| TreeModel.Insert | DSA_python_V2.py:19-37 | definition: the value-level `insert`/`_insert`, with equal values going right; its properties are in `InsertValues`, `InsertKeepsBst`, `InsertMultiset`, `InsertPosition` |
| TreeModel.Leftmost | DSA_python_V2.py:63-68 | definition: the value at the end of the left links; `LeftmostIsFirst` and `LeftmostIsMinimum` state what it is |
| TreeModel.Delete | DSA_python_V2.py:43-61 | definition: the value-level `_delete` with its three cases and the successor copy; its properties are in `DeleteValues`, `DeleteKeepsBst`, `DeleteAbsent`, `DeleteInorder`, `DeleteMultiset` |
| Layout.NodeGlyph | DSA_python_V2.py:90-112 | definition: the shapes of one node, the shadow oval, the oval and the text in V2, the oval and the text in the other file (DSA_visualizer.py:84-85) |
| Layout.DrawTree | DSA_python_V2.py:78-121 | definition: the pre-order walk, node glyph then each present child's connector and subtree at (x∓100, y+50); `TreeDrawingCounts`, `NodeTextDrawn`, `TextDrawnAtNode`, `EdgeDrawn`, `ConnectorIsEdge` state what it draws |
| Layout.ChildPart | DSA_python_V2.py:114-121 | definition: one `if node.left:` or `if node.right:` block, a connector and the child's drawing, or nothing for a missing child |
| Layout.BarGlyph | DSA_python_V2.py:198-224 | definition: the shapes of bar i, the shadow rectangle, the rectangle and the label in V2, the rectangle and the label in the other file (DSA_visualizer.py:117-120); `BarGeometry` gives its coordinates in closed form |
| Layout.Bars | DSA_python_V2.py:272-299 | definition: bar i for every index i of the shown sequence, in order; `BarsLabels`, `BarDrawn`, `TextIsBarLabel` state what it draws |
| TreeModel.InorderValues | DSA_python_V2.py:74-76 | a value occurs in the in-order sequence exactly when it is stored in the tree |
| TreeModel.InorderLength | DSA_python_V2.py:74-76 | the in-order sequence has one entry per node, and it is empty exactly when the tree is empty |
| TreeModel.InorderSorted | DSA_visualizer.py:69-75 | under the ordering invariant the in-order sequence is non-decreasing |
| TreeModel.InsertValues | DSA_python_V2.py:26-37 | after insert the stored values are the old ones plus `v`, so no value is lost |
| TreeModel.InsertKeepsBst | DSA_visualizer.py:25-36 | insert keeps the ordering invariant |
| TreeModel.InorderElements | DSA_python_V2.py:74-76 | the multiset of the in-order traversal is exactly the tree's elements, counted with multiplicity |
| TreeModel.InsertMultiset | DSA_visualizer.py:18-36 | the elements and the in-order multiset after insert are the old ones plus one `v` |
| TreeModel.InsertElements | DSA_visualizer.py:25-36 | insert adds exactly one occurrence of `v` to the tree's elements, duplicates included |
| TreeModel.InsertPosition | DSA_python_V2.py:26-37 | the new in-order sequence is the old one with `v` placed after every element at most `v`, so a duplicate lands after its equals |
| TreeModel.InsertAllKeepsBst | DSA_python_V2.py:19-37 | inserting any sequence of values one at a time keeps the ordering invariant |
| TreeModel.InsertAllElements | DSA_python_V2.py:19-37 | inserting any sequence of values one at a time adds exactly those values to the tree's elements |
| TreeModel.InsertAllSorts | DSA_python_V2.py:19-37 | inserting any sequence of values keeps the invariant; the traversal is then sorted and holds the old values plus exactly the inserted ones |
| TreeModel.LeftmostIsFirst | DSA_visualizer.py:62-67 | the leftmost value of a non-empty tree is the first element of its in-order sequence |
| TreeModel.LeftmostIsMinimum | DSA_python_V2.py:57-59 | under the invariant the leftmost value is stored in the tree and is at most every stored value, so the copied successor is the minimum of the right subtree |
| TreeModel.DeleteValues | DSA_python_V2.py:43-61 | delete never adds a value |
| TreeModel.DeleteKeepsBst | DSA_python_V2.py:48-59 | delete, including the successor copy, keeps the ordering invariant |
| TreeModel.DeleteAbsent | DSA_visualizer.py:42-60 | deleting a value that is not stored returns the same tree |
| TreeModel.DeleteInorder | DSA_python_V2.py:43-61 | under the invariant the in-order sequence after delete is the old one with exactly the first occurrence of `v` removed, all other elements in place |
| TreeModel.DeleteMultiset | DSA_visualizer.py:42-60 | under the invariant delete removes one `v` from the multiset and one node when `v` is stored, and nothing otherwise |
| TreeModel.RemoveFirstMultiset | DSA_python_V2.py:43-61 | removing the first occurrence takes exactly one `v` out of the multiset, shortens a sequence containing `v` by one, and changes nothing otherwise |
| Containers.Reversed | DSA_python_V2.py:197 | `reversed(items)`: same length, entry i is item len-1-i |
| Containers.Stack.constructor | DSA_python_V2.py:154-155 | a new stack has no items |
| Containers.Stack.Push | DSA_python_V2.py:157-159 | the item is appended at the end, the top |
| Containers.Stack.Pop | DSA_python_V2.py:161-164 | on a non-empty stack returns the last item and removes only it; on an empty stack returns None and leaves the items unchanged |
| Containers.Stack.Draw | DSA_python_V2.py:197-224 | the bars show the items reversed, so bar i carries `items[len-1-i]`; one label per item, in that order |
| Containers.Queue.constructor | DSA_python_V2.py:229-230 | a new queue has no items |
| Containers.Queue.Enqueue | DSA_python_V2.py:232-234 | the item is appended at the back |
| Containers.Queue.Dequeue | DSA_python_V2.py:236-239 | on a non-empty queue returns the front item and removes only it; on an empty queue returns None and leaves the items unchanged |
| Containers.Queue.Draw | DSA_visualizer.py:137-146 | bar i carries `items[i]`; one label per item, in queue order |
| Layout.TreeDrawingCounts | DSA_python_V2.py:90-121 | the texts of the tree drawing read the values in pre-order; one text per node; one connector per edge (n-1 for n nodes); two ovals per node in V2, one in the other file |
| Layout.NodeTextDrawn | DSA_python_V2.py:107-121 | the node reached by a left/right path is labelled at x + 100·(rights − lefts), y + 50·depth |
| Layout.TextDrawnAtNode | DSA_visualizer.py:82-94 | every text in the drawing is the value of some node, placed at that node's path position |
| Layout.EdgeDrawn | DSA_python_V2.py:114-121 | every parent-child edge is drawn as a connector from the parent's position to the child's |
| Layout.ConnectorIsEdge | DSA_visualizer.py:88-94 | every connector in the drawing joins some node's position to one of its children's |
| Layout.DrawBars | DSA_python_V2.py:272-299 | the loop over the shown items builds exactly the bar row of the whole sequence |
| Layout.BarGeometry | DSA_python_V2.py:199-224 | V2 bar i spans x 100+75i to 160+75i and y 275 to 325 with its label at 130+75i; the other file's bar i spans 100+40i to 140+40i and 280 to 320 with its label at 120+40i; the label is centred on the bar |
| Layout.BarSpacing | DSA_visualizer.py:116-120 | consecutive V2 bars leave a gap of 15, the other file's bars touch, and no two bars overlap |
| Layout.LabelXExact | DSA_python_V2.py:218-219 | in exact arithmetic the label centre `100 + (i + 0.5)·w + i·g` of the source equals the integer label x; Python's double gives the same value while every intermediate is exactly representable, which holds for any realistic i |
| Layout.BarsLabels | DSA_visualizer.py:142-146 | the bar labels read the shown sequence in order; one text per bar; two rectangles per bar in V2, one in the other file |
| Layout.BarDrawn | DSA_python_V2.py:209-224 | the rectangle and the label of every bar appear in the drawing |
| Layout.TextIsBarLabel | DSA_python_V2.py:218-224 | every text in the bar row is the label of some bar, at that bar's label position |
| Scenarios.TreeScenario | DSA_python_V2.py:19-61 | inserting 50, 30, 70, 20, 40 gives [20, 30, 40, 50, 70]; deleting 30 (two children) gives [20, 40, 50, 70] |
| Scenarios.StackScenario | DSA_visualizer.py:102-109 | push a, push b; the pops return b, a, then None |
| Scenarios.QueueScenario | DSA_visualizer.py:128-135 | enqueue a, enqueue b; the dequeues return a, b, then None |

Each row cites one file. The same code, with the other file's constants, sits at these lines of the other file:
`Node` V2 7-12 / visualizer 6-11; `insert` 19-24 / 18-23; `_insert` 26-37 / 25-36; `delete` 39-41 / 38-40;
`_delete` 43-61 / 42-60; `_min_value_node` 63-68 / 62-67; `inorder` 70-72 / 69-71; `_inorder` 74-76 / 73-75;
`draw` 78-121 / 77-94; `push`/`pop` 157-164 / 102-109; `enqueue`/`dequeue` 232-239 / 128-135;
the bar loops 197-224 and 272-299 / 116-120 and 142-146.

## Left out

- The `DataStructureVisualizer` class: the window, widgets, buttons, hover handlers, status labels and canvas clearing are user-interface code.
- `random.randint` and `random.choice`: the inserted or deleted value is a parameter instead. The UI only deletes on a non-empty tree, with a value taken from `inorder()`. That guard is not needed, because `Delete` is proved for every value.
- `draw_arrow`: the arrow head is computed with floating-point `atan2`, `cos` and `sin`. A V2 connector is an `Arrow` primitive that keeps only its two integer endpoints.
- `create_rounded_rectangle` and `create_rounded_button`: these style widgets.
- Colours, fonts, outline widths, the title texts, and the decorative base rectangle under the stack and queue with its shadow: these shapes do not depend on the structure. The per-node and per-bar shadow shapes of `DSA_python_V2.py` do depend on it, and they are modelled.
- The `try/except` in the V2 delete handler is error reporting in the user interface.
- The unused `level` parameter of `draw`, and the canvas and colours parameters: they affect no coordinate.
- Python's duck-typed values: node and item values are modelled as `int`.
- The visualizer UI offers no delete for the stack and queue. That is user-interface code; `pop` and `dequeue` themselves are modelled for both files.
