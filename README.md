# custom::BST and custom::set, modelled in Dafny

This project models `custom::BST<T>` (bst.h) and the adapter built on it,
`custom::set<T>` (set.h), with `T = int`. The BST is an unbalanced binary
search tree of heap nodes with parent back-links, plus a bidirectional
iterator. The model keeps the source's imperative form. `BST` is a class
whose fields are `root`, `numElements` and the node heap. Its methods
rewire the `pLeft`, `pRight` and `pParent` links one field at a time,
following the source statement by statement.

- **Heap.** The heap is an arena: `nodes: seq<BNode>`. A `Ptr` is an index
  into it, and `Null` (-1) stands for nullptr. `new BNode` appends a cell.
  `delete` unlinks a cell and leaves it behind, unreachable.
- **Shape.** A ghost field `shape: Tree` records the tree that the links
  describe. `Linked(shape, Null, nodes)` ties each node of `shape` to its
  cell. The cell holds the node's value, the roots of its two subtrees and
  its parent.
- **Invariant.** `BST.Valid` says three things.
  - The links describe `shape`. This includes parent consistency, and the
    root's parent is null.
  - No address repeats, and the tree is in the source's BST order: left
    subtree < node <= right subtree, so duplicates go right.
  - `numElements` is the number of reachable nodes.
- **Traversal.** `Order(shape)` lists the node addresses in the order the
  iterator visits them. `Contents(shape)` lists their values in that order.
- **Abstract operations.** Every operation is related to a pure function on
  trees, with its properties proved as lemmas:
  - `Search` for `find`;
  - `InsertLeaf` for `insert`;
  - `Erase`, `EraseRoot` and `RemoveMin` for `erase`;
  - `Adjacent` for `++` and `--`.
- **Set.** `custom::set` is a class wrapping one `BST`. Its invariant adds
  that the values are pairwise distinct. Its operations are stated on
  `Elements()`, the in-order value sequence.

Modules:

- `BstTree` (tree.dfy): cells, trees, paths and the `Linked` abstraction.
- `BstLinks` (links.dfy): how `Linked` survives pointer updates.
- `BstOps` (ops.dfy): the tree-level meaning of search, insert, erase and
  iteration.
- `BstSplice` (splice.dfy): the link rewiring of `erase` and `insert` on
  the arena.
- `Bst` (bst.dfy): the `BST` class and its iterator.
- `CustomSet` (set.dfy): the `set` class and its iterator.

What the proofs establish:

- **find.** `find` returns a node holding `t` exactly when `t` is stored,
  and `end()` otherwise.
- **insert.** `insert` adds exactly one copy of `t` as a new leaf. It
  answers `false` and changes nothing when `keepUnique` holds and `t` is
  already stored. Insertion into an empty tree makes the new node the root.
- **erase.** `erase` removes exactly the erased node from the traversal,
  so the traversal keeps every other node in order. No value moves between
  cells. It returns the in-order successor.
- **++ and --.** They step to the in-order successor and predecessor, and
  each undoes the other. The postfix forms do not move the iterator, as in
  the source.
- **Copy assignment.** It rebuilds the source tree's shape and values,
  with consistent parent links.
- **Move, swap and clear.** Move leaves the source empty; `swap`
  exchanges the trees; `clear` empties the tree.
- **Set.** Inserting keeps the values unique. Erasing by value answers 0
  or 1. Range erase cuts exactly the stretch `[itBegin, itEnd)` out of the
  traversal and returns `itEnd`.

## Model

| member | source | states |
|---|---|---|
| BstTree.Link' | bst.h:500-513 | setting one child pointer of a cell leaves its other child pointer, its value and its parent pointer alone |
| BstTree.OrderContents | bst.h:68-69 | the traversal lists each node once, pairs every address with a value, and has as many entries as the tree has nodes (what `numElements` counts) |
| BstTree.StripSame | bst.h:232-252 | two trees equal up to node addresses have the same values in the same order, the same size, and are both in BST order or both not — what makes a deep copy a copy |
| BstTree.OrderDistinct | bst.h:127-129 | when the owning links form a tree (no address twice), the traversal visits no node twice |
| BstTree.LinkedBound | bst.h:127-129 | every node reachable through the links is an allocated cell |
| BstTree.SubIds | bst.h:127-128 | the nodes below any node are nodes of the whole tree |
| BstTree.SubDistinct | bst.h:127-128 | every subtree of a tree without repeated nodes has none either |
| BstTree.SubOrdered | bst.h:304-333 | every subtree of a tree in BST order is in BST order |
| BstTree.PathToSpec | bst.h:122-123 | every node of the tree is reached from the root by a path of left/right steps |
| BstTree.ParentAtSnoc | bst.h:129 | the parent of the node one step below a node is that node |
| BstLinks.LinkedAt | bst.h:127-129 | parent consistency holds at every node: each subtree's root cell points back at the node above it |
| BstLinks.LinkChild | bst.h:122-123 | a node's cell points at the roots of its two subtrees, which point back at it, and it holds the node's value |
| BstLinks.LinkedFrame | bst.h:127-129 | a tree's links depend only on the cells of its own nodes |
| BstLinks.LinkedReparent | bst.h:418 | re-pointing only the root cell's parent hangs the same tree below the new parent |
| BstLinks.LinkedReplace | bst.h:443-455 | replacing a subtree by another rooted at the same cell, with the cells outside it untouched, keeps the whole tree linked |
| BstLinks.LinkedData | bst.h:173-176 | the cell of the k-th node visited holds the k-th value of the traversal |
| BstLinks.LinkedHang | bst.h:500-513 | after `addLeft`/`addRight` hangs a subtree built from the old child's nodes, the tree with that subtree in place is linked |
| BstOps.ExtremeOrder | bst.h:472-478 | following left links from the root ends at the first node of the traversal, or at nullptr for an empty tree; following right links ends at the last |
| BstOps.AdjacentOrder | bst.h:545-590 | the successor of the k-th node is the (k+1)-th node, or nullptr after the last; the predecessor is the (k-1)-th, or nullptr before the first |
| BstOps.AdjacentAtPath | bst.h:549-563 | the successor is the leftmost node of the right subtree if there is one, else the nearest ancestor reached by climbing out of a left subtree (mirrored for `--`) |
| BstOps.UpSnocSame | bst.h:558-562 | climbing out of a right child keeps looking further up |
| BstOps.UpSnocTurn | bst.h:558-563 | climbing out of a left child stops at the parent |
| BstOps.AdjacentInverse | bst.h:545-590 | `--` after `++` (and `++` after `--`) returns to the node, and the step stays inside the tree |
| BstOps.SearchSpec | bst.h:482-495 | in a tree in BST order the search path meets `t` exactly when `t` is stored, and a hit is a node of the tree |
| BstOps.SearchHolds | bst.h:487-488 | the node the search stops at holds `t` |
| BstOps.InsertLeafContents | bst.h:304-333 | inserting a leaf adds exactly one copy of `t` to the values |
| BstOps.InsertLeafIds | bst.h:316-317 | inserting a leaf adds exactly the new node |
| BstOps.InsertLeafValues | bst.h:304-333 | after insertion every value is an old value or `t` |
| BstOps.InsertLeafOrdered | bst.h:310-333 | descending left when `t < data` and right otherwise keeps BST order, duplicates going right |
| BstOps.InsertLeafDistinct | bst.h:316 | a fresh node keeps the addresses distinct |
| BstOps.InsertLeafFacts | bst.h:304-333 | insertion keeps order and distinctness, grows the size by one and adds one `t` |
| BstOps.MinNode | bst.h:400-402 | the leftmost node has no left child |
| BstOps.RemoveMinSpec | bst.h:408-416 | unlinking the leftmost node removes exactly the first entry of the traversal and keeps order and distinctness; the removed value is a lower bound of the rest |
| BstOps.RemoveMinSeqs | bst.h:408-416 | unlinking the leftmost node removes the first address and the first value of the traversal |
| BstOps.RemoveMinKeeps | bst.h:408-416 | unlinking the leftmost node keeps distinctness and BST order; the removed value bounds the rest from below |
| BstOps.EraseRootSpec | bst.h:388-428 | removing a subtree's root by any of the three cases leaves exactly the left traversal followed by the right one, in BST order |
| BstOps.EraseOrder | bst.h:380-433 | erasing the k-th node removes exactly the k-th address from the traversal |
| BstOps.EraseContents | bst.h:380-433 | erasing the k-th node removes exactly the k-th value from the traversal |
| BstOps.EraseInvariants | bst.h:380-433 | erasing keeps distinctness and BST order and removes the erased node |
| BstOps.EraseValuesFrom | bst.h:400-427 | erasing moves no value between nodes: every value left was there before |
| BstOps.ErasePath | bst.h:418-425 | erasing a node replaces the subtree rooted at it by that subtree with its root removed, hung at the same place |
| BstOps.MinNodeAtPath | bst.h:400-402 | the node reached by going left until there is no left child is the leftmost node, and unlinking it is a splice at that place |
| BstOps.SuccessorFound | bst.h:400-402 | the leftmost node of the right subtree is the in-order successor of the erased node, the one `erase` returns |
| BstOps.OrderedSorted | bst.h:545-566 | iterating a tree in BST order yields the values in non-decreasing order |
| BstSplice.Unhook | bst.h:443-455 | `deleteNode` clearing the parent's link and hanging the single child in its place leaves the erased tree linked |
| BstSplice.AttachLeaf | bst.h:312-331 | the new cell linked below the last node of the search path makes the arena describe the tree with the leaf inserted; no old value changes |
| BstSplice.LeafCells | bst.h:316-317 | hanging a new leaf changes the parent's one link and the new cell only |
| BstSplice.HangAt | bst.h:500-513 | `addLeft`/`addRight` changes the node's child pointer and the child's parent pointer and no other cell |
| BstSplice.DeepCells | bst.h:404-416 | the three hangs of the two-children case change just the cells of the successor, both children, the successor's parent and its right child, each as the source's assignments say |
| BstSplice.RemoveMinLinked | bst.h:408-416 | lifting the successor's right child into its place keeps the rest of the right subtree linked below the successor |
| BstSplice.RemoveMinRelinked | bst.h:408-416 | after the successor is unlinked, the right subtree is linked below the erased node |
| BstSplice.PromoteChild | bst.h:404-406 | when the successor is the right child itself, it adopts the left subtree and keeps its own right subtree |
| BstSplice.PromoteDeep | bst.h:404-416 | a deeper successor adopts both subtrees of the erased node, and its old parent adopts its right child |
| BstSplice.PromotedHung | bst.h:418-422 | hanging the promoted successor below the erased node's parent leaves the subtree linked and touches only the parent cell outside it |
| BstSplice.SuccessorSpliced | bst.h:400-425 | the whole two-children rewiring leaves the arena describing the tree with the node erased, with a new root exactly when the erased node was the root |
| BstSplice.PromotedKeeps | bst.h:404-416 | the successor's promotion does not touch the erased node's cell or its parent's |
| BstSplice.SuccessorCells | bst.h:400-416 | the nodes the rewiring touches are distinct nodes of the subtree, with the links the source reads |
| BstSplice.ParentCell | bst.h:419-422 | the erased node's parent is null exactly for the root; otherwise it lies outside the subtree, and exactly one of its links points at the node |
| Bst.End | bst.h:88 | `end()` is the nullptr iterator |
| Bst.PostIncrement | bst.h:180-183 | postfix `++` returns the iterator unmoved |
| Bst.PostDecrement | bst.h:187-190 | postfix `--` returns the iterator unmoved |
| Bst.UniqueStep | bst.h:264-270 | one unique insert of the next list value keeps each value seen so far stored exactly once |
| Bst.AssembleCopy | bst.h:245-252 | after both children are copied and linked back to the destination node, the destination tree is a copy of the source tree, and only its own cells and fresh ones changed |
| Bst.BST.constructor | bst.h:202 | a new tree is empty and valid |
| Bst.BST.NewNode | bst.h:241 | `new BNode(t)` appends a fresh childless cell holding `t` |
| Bst.BST.NewLeaf | bst.h:316-317 | a new cell holding `t` becomes the parent's `d` child, with the parent as its parent |
| Bst.BST.SetLeft | bst.h:447 | writing a left pointer changes just that field |
| Bst.BST.SetRight | bst.h:452 | writing a right pointer changes just that field |
| Bst.BST.SetParent | bst.h:459 | writing a parent pointer changes just that field |
| Bst.BST.SetData | bst.h:243 | writing a node's value changes just that field |
| Bst.BST.Store | bst.h:226-227 | writing through a `BNode*&` parameter sets the root or the owner's child pointer, and nothing else |
| Bst.BST.AddLeft | bst.h:500-505 | `addLeft` hangs the node as left child, pointing it back at its new parent |
| Bst.BST.AddRight | bst.h:508-513 | `addRight` hangs the node as right child, pointing it back at its new parent |
| Bst.BST.Empty | bst.h:100 | `empty()` holds exactly when the tree holds no value |
| Bst.BST.Size | bst.h:101 | `size()` is the number of stored values |
| Bst.BST.Deref | bst.h:173-176 | `*it` is the value of the node the iterator visits at that position of the traversal |
| Bst.BST.Begin | bst.h:472-478 | `begin()` is the first node of the traversal, `end()` for an empty tree |
| Bst.BST.Find | bst.h:482-495 | `find` returns a node holding `t` exactly when `t` is stored, and `end()` otherwise; nothing changes |
| Bst.BST.FoundHolds | bst.h:487-488 | the node `find` returns is in the tree and holds `t` |
| Bst.BST.Step | bst.h:545-590 | the step loops of `++`/`--` reach the in-order neighbour, or nullptr; `end()` stays put |
| Bst.BST.ParentBound | bst.h:557 | every node's parent pointer is nullptr or an allocated cell |
| Bst.BST.ClimbStep | bst.h:558-562 | one step of the climb moves to the parent and keeps the ancestor being looked for |
| Bst.BST.ClimbExit | bst.h:558-563 | when the climb stops, it has reached the successor (or nullptr) |
| Bst.BST.Increment | bst.h:545-566 | `++` moves the k-th node to the (k+1)-th, the last to `end()`, and leaves `end()` alone |
| Bst.BST.Decrement | bst.h:569-590 | `--` moves the k-th node to the (k-1)-th, the first to `end()`, and leaves `end()` alone |
| Bst.BST.StepSpec | bst.h:545-590 | a step from a node of the tree lands on a node of the tree or on nullptr, at the neighbouring position of the traversal |
| Bst.BST.PostfixStaysPut | bst.h:180-190 | on a node of the tree the postfix operators stay put, although the prefix ones move it |
| Bst.BST.DeleteBinaryTree | bst.h:218-228 | deleting a subtree sets the reference to nullptr and changes no cell outside the subtree |
| Bst.BST.AssignBinaryTree | bst.h:232-252 | the destination subtree becomes a copy of the source subtree, reusing its own cells or fresh ones, with consistent parent links; no other cell changes |
| Bst.BST.TakeCell | bst.h:240-243 | the destination reuses its existing node (copying the value in) or receives a fresh one |
| Bst.BST.AssignChild | bst.h:245-251 | one child is copied and its root is pointed back at the destination node |
| Bst.BST.Clear | bst.h:465-469 | `clear` leaves a valid empty tree, and clearing an empty tree changes nothing |
| Bst.BST.Insert | bst.h:295-337 | insert answers `true` exactly unless `keepUnique` holds and `t` is stored; a new leaf adds one `t`, bumps the count, and an empty tree gets it as its root; otherwise the found node is returned unchanged; the result always points at a node holding `t` |
| Bst.BST.Erase | bst.h:380-433 | `erase(end())` is a no-op returning `end()`; otherwise the node leaves the traversal, the count drops by one, no value moves, and the successor is returned |
| Bst.BST.ReplaceBySuccessor | bst.h:398-428 | the two-children case erases the node and yields its in-order successor |
| Bst.BST.LeftmostBelow | bst.h:400-402 | the loop stops at a node of the right subtree whose left pointer is nullptr, reached by left steps only: the subtree's leftmost node |
| Bst.BST.PromoteSuccessor | bst.h:404-416 | the successor adopts the erased node's subtrees |
| Bst.BST.AdoptLeft | bst.h:404-406 | the successor takes the erased node's left child |
| Bst.BST.Detach | bst.h:408-416 | the successor's parent takes its right child, and the successor takes the erased node's right child |
| Bst.BST.TakePlace | bst.h:418-422 | the erased node's parent points at the successor on the same side |
| Bst.BST.DeleteNode | bst.h:439-461 | splicing out a node with at most one child yields the tree with that node erased |
| Bst.BST.Erased | bst.h:430-432 | after the rewiring and the count update the tree is valid, the returned iterator is usable, and the traversal lost exactly the erased node |
| Bst.BST.LeafInserted | bst.h:316-319 | after a leaf is hung and counted the tree is valid, holds one more `t`, and the new node holds `t` |
| Bst.BST.CopyAssign | bst.h:255-261 | copy assignment gives the same shape, values and count as the source |
| Bst.BST.Copy | bst.h:204-208 | the copy constructor yields the same shape, values and count as the source |
| Bst.BST.Swap | bst.h:284-288 | `swap` exchanges the two trees and their counts |
| Bst.BST.MoveAssign | bst.h:273-279 | move assignment takes over the source's tree and leaves the source empty |
| Bst.BST.Move | bst.h:77 | the move constructor takes over the source's tree and leaves the source empty |
| Bst.BST.AssignList | bst.h:264-270 | assigning a list leaves each listed value stored exactly once, and nothing else |
| Bst.BST.FromList | bst.h:78 | the list constructor stores each listed value exactly once |
| CustomSet.PostIncrement | set.h:254-259 | postfix `++` returns the iterator, and the underlying position does not move |
| CustomSet.PostDecrement | set.h:269-274 | postfix `--` returns the iterator, and the underlying position does not move |
| CustomSet.Position | set.h:189 | the position of a node in the traversal is its first index, or the length when it is absent |
| CustomSet.NoDupCounts | set.h:136-139 | values without repeats occur at most once each |
| CustomSet.CountsNoDup | set.h:136-139 | values occurring at most once each have no repeats |
| CustomSet.DropOne | set.h:169-173 | removing one entry of a repeat-free sequence removes exactly that value |
| CustomSet.RangeEnds | set.h:185-187 | the iterators bounding a range stand at their positions of the traversal |
| CustomSet.RangeExit | set.h:189 | the loop stops exactly at `itEnd`'s position, since no node repeats |
| CustomSet.CutStep | set.h:189-190 | erasing the node after the cut extends the cut by one and keeps `itEnd` in the tree |
| CustomSet.KeptValues | set.h:185-193 | cutting a stretch of nodes, with no value moved, cuts the same stretch of values |
| CustomSet.InsertListStep | set.h:148-149 | one more unique insert keeps every value once and counts the new ones |
| CustomSet.Set.Elements | set.h:197 | the set's values are one per node of the wrapped tree |
| CustomSet.Set.constructor | set.h:45-47 | a new set is empty |
| CustomSet.Set.Copy | set.h:48-50 | the copy constructor copies the values and the shape |
| CustomSet.Set.Move | set.h:51-53 | the move constructor takes over the values and leaves the source empty |
| CustomSet.Set.FromList | set.h:54-57 | the list constructor holds each listed value once |
| CustomSet.Set.CopyAssign | set.h:71-75 | copy assignment copies the values and the shape |
| CustomSet.Set.MoveAssign | set.h:76-80 | move assignment takes over the values and empties the source |
| CustomSet.Set.AssignList | set.h:81-85 | list assignment holds each listed value once |
| CustomSet.Set.Swap | set.h:86-89 | `swap` exchanges the two sets' values |
| CustomSet.Set.Begin | set.h:97-100 | `begin()` is the first position of the traversal |
| CustomSet.Set.End | set.h:101-104 | `end()` is the nullptr iterator |
| CustomSet.Set.Find | set.h:111-114 | `find` returns a node holding `t` exactly when `t` is in the set |
| CustomSet.Set.Empty | set.h:121-124 | `empty()` holds exactly when there are no values |
| CustomSet.Set.Size | set.h:125-128 | `size()` is the number of values |
| CustomSet.Set.Deref | set.h:241-244 | `*it` is the value at the iterator's position |
| CustomSet.Set.Increment | set.h:247-251 | prefix `++` moves to the next position |
| CustomSet.Set.Decrement | set.h:262-266 | prefix `--` moves to the previous position |
| CustomSet.Set.Insert | set.h:136-139 | insert always keeps values unique: it answers `true` exactly when `t` was absent, then adds one `t`, and otherwise changes nothing |
| CustomSet.Set.InsertList | set.h:146-150 | inserting a list holds each old and listed value once; the size grows by the number of listed values not present before |
| CustomSet.Set.Clear | set.h:165-168 | `clear` empties the set |
| CustomSet.Set.EraseIt | set.h:169-173 | erasing at an iterator removes exactly that position's node and value, and returns the next position |
| CustomSet.Set.EraseValue | set.h:174-184 | erasing `t` answers 1 and removes it when present, and otherwise answers 0 and changes nothing; `t` is absent afterwards |
| CustomSet.Set.EraseRange | set.h:185-193 | range erase removes exactly the stretch `[itBegin, itEnd)` of nodes and values, and returns `itEnd` |
| CustomSet.Set.EraseStretch | set.h:187-192 | the loop erases node after node until the iterator equals `itEnd`; the traversal then lacks exactly the stretch between the two positions, and no value moved |
| CustomSet.Set.EraseNextIn | set.h:189-190 | one round of the loop erases the next node of the stretch and moves the iterator on |

## Left out

- Memory management is not modelled: `delete`, the destructor (bst.h:211-214) and allocation failure. An erased or cleared node's cell stays in the arena, unreachable from the root.
- The `isRed` flag (bst.h:130) is not modelled; nothing reads it.
- `T` is `int`, compared with `<` and `==`; move-versus-copy of values does not arise.
- The `insert(T&&)` overload (bst.h:341-376) is not modelled separately. On integer values it does what `Bst.BST.Insert` does: it attaches at the same empty slot and decides the side by the same comparison. The set's `insert(T&&)` (set.h:141-144) is `CustomSet.Set.Insert` for the same reason.
- The value overloads `addLeft(const T&)`, `addRight(const T&)` and the `T&&` forms (bst.h:515-541) are not modelled; the tree never calls them.
- `copyBinaryTree` (bst.h:72) is declared but never defined, so it is not modelled.
- The iterator-range constructor and `insert(first, last)` of the set (set.h:58-62, 152-157) are not modelled; they are templates over iterator types outside this model.
- The friend declarations and the `DEBUG` visibility switch (bst.h:22-26, 34-65; set.h:27, 39) are not modelled; they only control access.
- Iterator `==` and `!=` (bst.h:161-170; set.h:231-238) have no member of their own: the iterators are values, and comparing them is comparing the node pointer.
- `numElements` is a `nat`: `size_t` overflow is not modelled.
- Bst.BST.Erase: requires that the erased node is not the only node of the tree. bst.h:388-391 then reaches bst.h:459 with a null `pNext` and dereferences it.
- CustomSet.Set.EraseIt: carries the same exclusion as `Bst.BST.Erase`. Its result is returned rather than also written back into the `iterator&` argument (set.h:171).
- CustomSet.Set.EraseValue: carries the same exclusion, so the set must not consist of `t` alone.
- CustomSet.Set.EraseRange: requires that `itBegin` does not come after `itEnd`, because the source loop would otherwise run off the end. It also requires that the range does not erase every node, which is the same exclusion as `Bst.BST.Erase`.
- Bst.BST.Swap: exchanges the arenas together with `root` and `numElements`, because each tree's nodes live in its own arena. In the source both trees share one heap, so exchanging the root pointers is the same exchange.
- Bst.BST.MoveAssign: states the contents taken over only when the source is another object. A self-move is stated as leaving the tree empty, which is what clear-then-swap does.
