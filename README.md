# ft_containers in Dafny

This project models the runtime core of ft_containers, a re-implementation of
part of the C++98 standard container library (ISO/IEC 14882:1998). It covers
these parts:

- `ft::RedBlackTree`: the balanced search tree behind `set` and `map`. This
  includes the node operations, the rotations, the insert and delete fixups,
  search, `min`/`max` and the red-black invariant that the debug checkers test.
- `ft::RBT_Iterator`: in-order stepping over that tree.
- `ft::set` and `ft::map`: facades over the tree.
- `ft::vector`: a growable buffer.
- `ft::VectorIterator` and `ft::reverse_iterator`: iterators over the buffer.
- `ft::stack`: an adapter over the vector.
- `ft::equal` and `ft::lexicographical_compare`.

## How the model is built

**Tree nodes.** The tree's nodes are values. `RbTree.Tree` is a node or a
black sentinel. A `Node*` is an `RbTree.Pos`. It is one of three things:

- `Null`;
- `EndOf(root)`, the tree's `_end` sentinel, whose left link is the root;
- a node or sentinel together with the path of parent links above it.

The parent pointer, the `isLeftChild` flag and the parent's child pointer are
one datum. So they cannot disagree.

**The tree object.** The object itself is the class `RbEngine.RedBlackTree`.
It holds the root, `_size` and the comparator, and its methods change them in
place. Its loops (`findNode`, `min`, `max`, `_getPredecessor`) are `while`
loops, each proved equal to a search function. The fixups are recursive
functions proved to restore the red-black invariant and to keep the in-order
values.

**Comparators.** A comparator is a function value `lt` that is required to be
a strict weak order. Equivalence (neither `lt(a, b)` nor `lt(b, a)`) plays the
part of equality.

**Sequence references.**

- `SortedInsert` and `SortedRemove` are reference definitions on sorted
  sequences. The tree's contents are proved to follow them.
- `Map.Lookup` reads a map's sorted pairs by key.

**Vector and stack.**

- The vector is a class over an `array<T>`, whose length is `_capacity`, plus
  `size`. Allocation is the creation of an array. Constructing an element is
  a write, and destroying one leaves the slot as it is.
- The vector iterator is the buffer plus an integer offset.
- The reverse iterator keeps the offset of its base.
- The stack is a class holding a vector.

**Algorithms.** `equal` and `lexicographical_compare` are looping methods,
each proved equal to a recursive reference function.

**Out-of-range reads.** A dereference outside the valid range is undefined
in the source. Here it is a precondition.

## Model

| member | source | states |
|---|---|---|
| Order.IntLessIsStrictWeakOrder | functional/functional.hpp:5-10 | `<` on integers, the default `less`, is irreflexive, transitive and has transitive incomparability |
| Order.EquivSubstitutes | red_black_tree/RedBlackTree.hpp:482-492 | equivalent values compare the same way against every third value, so a search may stop at any equivalent value |
| Order.SortedDistinct | red_black_tree/RedBlackTree.hpp:457-477 | in a sorted sequence no two positions hold equivalent values (the tree stores each key once) |
| Order.SortedReplaceEquiv | map/map.hpp:124-129 | overwriting a value with an equivalent one keeps the sequence sorted |
| RbTree.ElementsPlug | red_black_tree/RedBlackTree.hpp:68-88 | the values of a tree rebuilt around a node are the values left of the path, then the node's subtree, then the values right of the path |
| RbTree.FrameValues | red_black_tree/RedBlackTree.hpp:68-88 | hanging a subtree under one more parent keeps the values around it: the parent's value and sibling move from the path into the subtree on the side the frame records |
| RbTree.NodeValues | red_black_tree/RedBlackTree.hpp:68-88 | the whole tree's values are those left of the node's path and in its left subtree, then the node's value, then those in its right subtree and right of the path |
| RbTree.PlugValid | red_black_tree/RedBlackTree.hpp:412-425 | a red-black subtree in a context with the matching black height and no red-red link rebuilds into a valid red-black tree |
| RbTree.PlugDecompose | red_black_tree/RedBlackTree.hpp:412-425 | every subtree of a valid red-black tree sits in such a context |
| RbTree.RotationsKeepOrder | red_black_tree/RedBlackTree.hpp:136-178 | both rotations keep the in-order values; the functions modelled: `RbTree.RotateLeft` and `RbTree.RotateRight` |
| RbTree.RotationsInverse | red_black_tree/RedBlackTree.hpp:136-178 | a right rotation undoes a left rotation and the reverse |
| RbTree.NodeIndex | red_black_tree/RedBlackTree.hpp:20-25 | a node's rank lies inside the tree's values, and the value at that rank is the node's own |
| RbTree.ReplaceValue | map/map.hpp:128 | writing a new value into one node changes the in-order sequence at that node's rank only, and a valid red-black tree stays valid |
| RbTree.GapIndex | red_black_tree/RedBlackTree.hpp:27-50 | a sentinel's rank is the gap between the values left and right of it |
| RbTree.ChildPositions | red_black_tree/RedBlackTree.hpp:68-88 | a child's parent is the node, and the left and right children split the node's neighbours as in-order traversal does |
| RbTree.NewNodeLinks | red_black_tree/RedBlackTree.hpp:27-50 | a new node is red, holds the value and has two sentinel children linked back to it, the left flagged as a left child |
| RbTree.UpdateLinks | red_black_tree/RedBlackTree.hpp:68-88 | `updateLeft`/`updateRight` make the node the child's parent and set the side flag, and change nothing else; on a sentinel they do nothing. The lemma documents the representation: in the zipper a node's parent and side are its path, so the rotation and fixup members rebuild through `Plug` rather than calling these two |
| RbTree.LeftmostFromSpec | red_black_tree/RedBlackTree.hpp:593-599 | the leftmost node of a subtree has no left child and holds the subtree's first value; the function modelled: `RbTree.LeftmostFrom` |
| RbTree.RightmostFromSpec | red_black_tree/RedBlackTree.hpp:601-607 | the rightmost node of a subtree has no right child and holds the subtree's last value; the function modelled: `RbTree.RightmostFrom` |
| RbTree.FindFromSpec | red_black_tree/RedBlackTree.hpp:482-492 | the descent from a node whose context brackets `x` ends at a node equivalent to `x` if one is stored below, otherwise at the sentinel of `x`'s gap; the function modelled: `RbTree.FindFrom` |
| RbTree.FindSpec | red_black_tree/RedBlackTree.hpp:479-493 | `findNode` returns a real node iff an equivalent value is stored (that node holds it); otherwise it returns the sentinel after every smaller value and before every greater one; the function modelled: `RbTree.Find` |
| RbTree.NodeUnique | red_black_tree/RedBlackTree.hpp:20-25 | two real nodes of one tree with the same rank are the same node |
| RbTree.PositionUnique | red_black_tree/RedBlackTree.hpp:20-25 | nodes and `_end` of one tree are equal iff their ranks are equal, so comparing node pointers is comparing ranks |
| RbInsert.SortedInsertAt | red_black_tree/RedBlackTree.hpp:457-477 | with no equivalent value stored, insertion puts the value in the gap between the smaller and the greater values |
| RbInsert.SortedInsertPresent | red_black_tree/RedBlackTree.hpp:458-460 | inserting a value whose equivalent is stored changes nothing |
| RbInsert.SortedInsertHolds | red_black_tree/RedBlackTree.hpp:457-477 | after insertion, a value is stored iff it was stored before or is equivalent to the inserted one |
| RbInsert.SortedInsertFrom | red_black_tree/RedBlackTree.hpp:457-477 | insertion adds no value other than the inserted one |
| RbInsert.SortedInsertSorted | red_black_tree/RedBlackTree.hpp:457-477 | insertion keeps the values sorted |
| RbInsert.SortedInsertLast | set/set.hpp:47-51 | inserting a value greater than all stored ones appends it |
| RbInsert.SortedInsertNext | set/set.hpp:47-51 | copying a sorted sequence in order rebuilds it one prefix at a time |
| RbInsert.InsertAllHolds | set/set.hpp:123-128 | after a range insert, a value is stored iff it was stored before or is equivalent to one in the range |
| RbInsert.InsertAllSorted | set/set.hpp:123-128 | a range insert keeps the values sorted |
| RbInsert.InsertAllSkipsPresent | set/set.hpp:123-128 | a range element equivalent to a value already inserted is skipped |
| RbInsert.InsertAllPresent | set/set.hpp:123-128 | inserting only values already present changes nothing |
| RbInsert.InsertAllTwice | common/set_test.cpp:19-25 | inserting the same range twice gives the same set as once |
| RbInsert.RecolorCase | red_black_tree/RedBlackTree.hpp:222-228 | with a red uncle, recolouring parent, uncle and grandparent leaves a possibly red grandparent in a context that is otherwise valid |
| RbInsert.RotateLeftLeft | red_black_tree/RedBlackTree.hpp:230-237 | left-left with a black uncle: one right rotation at the grandparent and a swap of colours yield a valid subtree with the same values and black height |
| RbInsert.RotateRightRight | red_black_tree/RedBlackTree.hpp:239-246 | right-right: the mirror image, by one left rotation |
| RbInsert.RotateLeftRight | red_black_tree/RedBlackTree.hpp:248-256 | a left child of a right child: the double rotation yields a valid subtree with the same values and black height |
| RbInsert.RotateRightLeft | red_black_tree/RedBlackTree.hpp:258-266 | a right child of a left child: the mirror double rotation |
| RbInsert.InsertFixupSpec | red_black_tree/RedBlackTree.hpp:207-267 | `_insertFixup` from a red node in an otherwise valid context returns a valid red-black tree with the same in-order values; the function modelled: `RbInsert.InsertFixup` |
| RbInsert.InsertTreeSpec | red_black_tree/RedBlackTree.hpp:457-477 | `insertNode` keeps a valid sorted tree valid and sorted, its values are the reference insertion, it changes nothing when an equivalent value is stored, and otherwise the size grows by one; the function modelled: `RbInsert.InsertTree` |
| RbDelete.SortedRemoveAbsent | red_black_tree/RedBlackTree.hpp:496-498 | removing a value with no stored equivalent changes nothing |
| RbDelete.SortedRemoveAt | red_black_tree/RedBlackTree.hpp:495-575 | removing `x` from a sorted sequence deletes exactly the position holding its equivalent |
| RbDelete.SortedWithout | red_black_tree/RedBlackTree.hpp:495-575 | deleting one position keeps the values sorted |
| RbDelete.RedSiblingCase | red_black_tree/RedBlackTree.hpp:330-344 | a red sibling: the colour swap and rotation at the parent give a double-black node with a black sibling, the same values and a valid context |
| RbDelete.BlackNephewsCase | red_black_tree/RedBlackTree.hpp:346-353 | a black sibling with black nephews: painting the sibling red moves the extra black up to the parent |
| RbDelete.NearNephewCase | red_black_tree/RedBlackTree.hpp:355-363 | a red near nephew: the swap and rotation at the sibling make the far nephew red and keep the values |
| RbDelete.RedSiblingStep | red_black_tree/RedBlackTree.hpp:330-344 | `_deleteFixup` after the red-sibling rotation ends in a valid red-black tree holding the same in-order values |
| RbDelete.NearNephewStep | red_black_tree/RedBlackTree.hpp:355-363 | `_deleteFixup` after the near-nephew rotation ends in a valid red-black tree holding the same in-order values |
| RbDelete.FarNephewCase | red_black_tree/RedBlackTree.hpp:365-382 | a red far nephew: the rotation at the parent and the recolouring remove the extra black and keep the values |
| RbDelete.FixDoubleBlackSpec | red_black_tree/RedBlackTree.hpp:315-384 | `_deleteFixup` on a double-black node terminates with a valid red-black tree holding the same in-order values; the function modelled: `RbDelete.FixDoubleBlack` |
| RbDelete.DeleteFixupSpec | red_black_tree/RedBlackTree.hpp:315-318 | adding the removed colour to the replacing node and fixing up gives a valid tree with the same values; the function modelled: `RbDelete.DeleteFixup` |
| RbDelete.RemoveLeaf | red_black_tree/RedBlackTree.hpp:505-522 | a node without children: the left sentinel takes its place (an only root leaves no root), and the tree stays valid without that value |
| RbDelete.RemoveOneChild | red_black_tree/RedBlackTree.hpp:524-558 | a node with one child: the child takes its place, and the tree stays valid without that value |
| RbDelete.SpliceRedChild | red_black_tree/RedBlackTree.hpp:524-558 | a red leaf child moved into its black parent's place and painted black gives a valid red-black tree with the parent's value gone |
| RbDelete.PredecessorPlace | red_black_tree/RedBlackTree.hpp:282-288 | the predecessor is the rightmost node of the left subtree, has no right child and holds the value just before the node |
| RbDelete.RemoveTwoChildren | red_black_tree/RedBlackTree.hpp:560-574 | a node with two children takes its predecessor's value, the predecessor's left child replaces the predecessor, and the tree stays valid without the node's value |
| RbDelete.RemoveAtSpec | red_black_tree/RedBlackTree.hpp:499-574 | removing a found node keeps the tree valid and deletes exactly its rank from the values; the function modelled: `RbDelete.RemoveAt` |
| RbDelete.DeleteTreeSpec | red_black_tree/RedBlackTree.hpp:495-575 | `deleteNode` keeps a valid sorted tree valid and sorted, its values are the reference removal, nothing changes when no equivalent is stored, and otherwise the size drops by one; the function modelled: `RbDelete.DeleteTree` |
| RbIterator.GetRightParentSpec | iterator/RBT_Iterator.hpp:36-41 | the right parent is the first position after the subtree: a node, or `_end` after the last value; the function modelled: `RbIterator.GetRightParent` |
| RbIterator.GetLeftParentSpec | iterator/RBT_Iterator.hpp:43-48 | the left parent is the node just before the subtree, or NULL when the subtree starts the tree; the function modelled: `RbIterator.GetLeftParent` |
| RbIterator.NextFromNode | iterator/RBT_Iterator.hpp:50-55 | `++` from a node reaches the next rank: the next node, or `_end` after the last; the function modelled: `RbIterator.Next` |
| RbIterator.CopyStep | set/set.hpp:47-51 | one step of an in-order walk: inserting the value under the walk into a copy of the values before it extends the copy by that value, and `++` moves to the next rank |
| RbIterator.NextFromGap | set/set.hpp:201-203 | `++` from a sentinel (the corrected climb) reaches the first node after its gap, or `_end` |
| RbIterator.PrevSpec | iterator/RBT_Iterator.hpp:57-62 | `--` from a node or from `_end` reaches the previous rank, and from the first node it gives NULL; the function modelled: `RbIterator.Prev` |
| RbIterator.PrevNext | iterator/RBT_Iterator.hpp:50-62 | `--` undoes `++` from every node |
| RbIterator.NextPrev | iterator/RBT_Iterator.hpp:50-62 | `++` undoes `--` from every node but the first, and from `_end` of a non-empty tree |
| RbIterator.AdvanceSpec | iterator/RBT_Iterator.hpp:101-104 | `k` steps of `++` from rank `i` land on rank `i + k`, or on `_end` at the size; the function modelled: `RbIterator.Advance` |
| RbIterator.InOrderWalk | set/set.hpp:63-77 | walking `++` from `begin()` visits the values in order and reaches `end()` after `size()` steps |
| RbIterator.InOrderWalkIncreasing | set/set.hpp:63-77 | that walk visits strictly increasing values |
| RbIterator.SentinelStepFaults | iterator/RBT_Iterator.hpp:50-55 | on the tree {1}, `lower_bound(2)` stops at a sentinel; `_getNext` as written reads a NULL link there, while the climb reaches `end()`; the function modelled: `RbIterator.NextAsWritten` |
| RbIterator.Iterator.Equals | iterator/RBT_Iterator.hpp:81-87 | `==` of two positions of one tree (`!=` is its negation) holds iff their ranks are equal |
| RbIterator.Iterator.Value | iterator/RBT_Iterator.hpp:89-95 | `*it` is the value at the node's rank |
| RbIterator.Iterator.GetSuccessor | iterator/RBT_Iterator.hpp:20-26 | the loop down the right subtree's left spine ends at the next rank |
| RbIterator.Iterator.GetPredecessor | iterator/RBT_Iterator.hpp:28-34 | the loop down the left subtree's right spine (or from `_end`, the whole tree's) ends at the previous rank |
| RbIterator.Iterator.Increment | iterator/RBT_Iterator.hpp:101-104 | `++it` moves the pointer to the next position |
| RbIterator.Iterator.PostIncrement | iterator/RBT_Iterator.hpp:106-110 | `it++` returns a copy of the old position and moves on |
| RbIterator.Iterator.Decrement | iterator/RBT_Iterator.hpp:112-115 | `--it` moves the pointer to the previous position |
| RbIterator.Iterator.PostDecrement | iterator/RBT_Iterator.hpp:117-121 | `it--` returns a copy of the old position and moves back |
| RbEngine.RedBlackTree.constructor | red_black_tree/RedBlackTree.hpp:433-440 | a new tree has no root and no values |
| RbEngine.RedBlackTree.Size | red_black_tree/RedBlackTree.hpp:577-579 | `_size` is the number of stored values |
| RbEngine.RedBlackTree.FindNode | red_black_tree/RedBlackTree.hpp:479-493 | the loop returns NULL iff the tree is empty, and a real node iff an equivalent value is stored, that node holding it |
| RbEngine.RedBlackTree.Min | red_black_tree/RedBlackTree.hpp:593-599 | `min` is the node at rank 0, or `_end` for an empty tree |
| RbEngine.RedBlackTree.Max | red_black_tree/RedBlackTree.hpp:601-607 | `max` is the node at the last rank, or `_end` for an empty tree |
| RbEngine.RedBlackTree.GetPredecessor | red_black_tree/RedBlackTree.hpp:282-288 | the loop ends at the last node of the left subtree, which has no right child |
| RbEngine.RedBlackTree.InsertNode | red_black_tree/RedBlackTree.hpp:457-477 | the tree stays valid; the values are the reference insertion; the returned node holds the value's equivalent; it inserts iff no equivalent was stored, and otherwise the tree is unchanged; the first value becomes a black root; the size counts the insertion |
| RbEngine.RedBlackTree.DeleteAt | red_black_tree/RedBlackTree.hpp:499-574 | splicing out a found node keeps the tree valid, removes exactly that node's rank and lowers the size by one |
| RbEngine.RedBlackTree.DeleteNode | red_black_tree/RedBlackTree.hpp:495-575 | the tree stays valid; the values are the reference removal; one value goes iff an equivalent was stored, and otherwise the tree is unchanged |
| RbEngine.RedBlackTree.DeleteTree | red_black_tree/RedBlackTree.hpp:450-455 | afterwards there is no value and the size is 0 |
| RbEngine.RedBlackTree.WriteValue | map/map.hpp:128 | writing an equivalent value through a node changes that rank only, in place, and the tree stays valid and sorted |
| Set.Relocated | set/set.hpp:142-145 | after one value is erased, a later value is found one rank lower, so a saved iterator still designates its value |
| Set.BoundsEncloseEquivalents | set/set.hpp:217-219 | between the lower and the upper bound lie exactly the values equivalent to the key, and there is one of them iff the key is stored |
| Set.Set.constructor | set/set.hpp:36-37 | a new set is empty |
| Set.Set.FromRange | set/set.hpp:39-45 | the range constructor holds the range inserted into an empty set |
| Set.Set.Copy | set/set.hpp:47-51 | the copy holds the same values with the same comparator |
| Set.Set.Assign | set/set.hpp:55-60 | afterwards the set holds the other set's values (self-assignment clears the set, because the source clears before copying) |
| Set.Set.InsertEach | set/set.hpp:47-60 | the loop of the copy constructor and `operator=`: starting empty, the set ends up with the other set's values, in order; when the other set is this one, it stays empty |
| Set.Set.Begin | set/set.hpp:63-69 | `begin()` is rank 0: the first node, or `end()` when empty |
| Set.Set.End | set/set.hpp:71-77 | `end()` is the `_end` sentinel at rank `size()` |
| Set.Set.Size | set/set.hpp:100-102 | `size()` is the number of values |
| Set.Set.Empty | set/set.hpp:96-98 | `empty()` iff there are no values |
| Set.Set.Insert | set/set.hpp:110-116 | values become the reference insertion; the flag is true iff no equivalent was stored; the iterator designates the stored equivalent |
| Set.Set.InsertHint | set/set.hpp:118-121 | the hint is ignored, with the same effect as `insert` |
| Set.Set.InsertRange | set/set.hpp:123-128 | the values become the range inserted one by one |
| Set.Set.Erase | set/set.hpp:130-132 | exactly the value at the iterator's rank is removed |
| Set.Set.EraseKey | set/set.hpp:134-137 | the values become the reference removal, and it returns 1 iff an equivalent was stored, else 0 |
| Set.Set.EraseKeeping | set/set.hpp:142-144 | one step of the range erase: `first` is removed, and the saved `tmp` and `last` still designate their values, now one rank lower for `last` |
| Set.Set.EraseRange | set/set.hpp:139-146 | erasing `[first, last)` removes exactly the ranks from `first` up to `last` |
| Set.EraseOneThenRest | set/set.hpp:139-146 | erasing rank `i` and then ranks `i` to `n - 1` of what remains erases ranks `i` to `n` of the original |
| Set.Set.Clear | set/set.hpp:159-161 | afterwards there are no values |
| Set.Set.Find | set/set.hpp:173-190 | `find` returns the node holding the equivalent value iff one is stored, else `end()` |
| Set.Set.Count | set/set.hpp:192-194 | `count` is 1 iff an equivalent value is stored, else 0 |
| Set.Set.LowerBound | set/set.hpp:196-206 | `lower_bound` is the first rank whose value is not less than the key |
| Set.Set.UpperBound | set/set.hpp:208-215 | `upper_bound` is the first rank whose value is greater than the key |
| Set.Set.EqualRange | set/set.hpp:217-219 | both ends are node or `end()` positions of this tree; the pair encloses exactly the values equivalent to the key, at most one; the two positions are equal exactly when no value is equivalent to the key |
| Map.CompIsStrictWeakOrder | map/map.hpp:14-22 | ordering pairs by key alone is a strict weak order when the key order is |
| Map.CompEquiv | map/map.hpp:14-22 | two pairs compare, and are equivalent, exactly as their keys do |
| Map.Lookup | map/map.hpp:124-129 | the lookup finds nothing iff no stored key is equivalent, and otherwise the mapped value of a stored equivalent key |
| Map.LookupAt | map/map.hpp:124-129 | in a sorted map the lookup gives the mapped value at the position of the equivalent key |
| Map.LookupInsert | map/map.hpp:124-129 | after inserting a pair, a lookup gives the new value only for a key that was absent and is equivalent to the pair's key, else what it gave before |
| Map.LookupUpdateOther | map/map.hpp:128 | rewriting one entry leaves the lookup of every other key unchanged |
| Map.LookupHolds | map/map.hpp:124-129 | a key has an entry iff a pair with an equivalent key is stored |
| Map.InsertedAt | map/map.hpp:124-129 | after `insert`, the entry for the key holds the old mapped value, or the new one when the key was absent |
| Map.StoredAt | map/map.hpp:128 | writing through the found entry maps the key to the new value and leaves every other key's lookup as before |
| Map.Map.constructor | map/map.hpp:50-51 | a new map is empty |
| Map.Map.FromRange | map/map.hpp:53-61 | the range constructor holds the pairs inserted one by one, the first of equivalent keys winning |
| Map.Map.Copy | map/map.hpp:63-67 | the copy holds the same pairs with the same key order |
| Map.Map.Assign | map/map.hpp:71-76 | afterwards the map holds the other map's pairs (self-assignment clears the map, because the source clears before copying) |
| Map.Map.InsertEach | map/map.hpp:63-76 | the loop of the copy constructor and `operator=`: starting empty, the map ends up with the other map's pairs, in key order; when the other map is this one, it stays empty |
| Map.Map.Begin | map/map.hpp:79-85 | `begin()` is rank 0 |
| Map.Map.End | map/map.hpp:87-93 | `end()` is the `_end` sentinel at rank `size()` |
| Map.Map.Size | map/map.hpp:116-118 | `size()` is the number of pairs |
| Map.Map.Empty | map/map.hpp:112-114 | `empty()` iff there are no pairs |
| Map.Map.Subscript | map/map.hpp:124-129 | `m[k]` inserts `(k, mapped_type())` when `k` is absent, returns the mapped value, and afterwards the lookup of `k` gives it |
| Map.Map.Store | common/map_test.cpp:18-19 | `m[k] = v` makes the lookup of `k` give `v`, leaves every other key as it was, and adds a pair iff `k` was absent |
| Algorithm.EqualByMeans | algorithm/algorithm.hpp:7-25 | the reference `equal` holds iff `pred` holds at every offset |
| Algorithm.Equal | algorithm/algorithm.hpp:7-15 | the loop returns true iff every element of the first range equals the element at the same offset of the second |
| Algorithm.EqualPred | algorithm/algorithm.hpp:17-25 | the loop with `pred` agrees with the reference `equal` |
| Algorithm.EqualDetectsChange | common/algorithm_test.cpp:43-59 | a range equals itself, and changing one element makes `equal` false |
| Algorithm.LexLessMeans | algorithm/algorithm.hpp:28-40 | the comparison is true iff, after an equivalent common prefix, the first range ends while the second goes on, or the first range's element is smaller |
| Algorithm.LexIrreflexive | algorithm/algorithm.hpp:32-39 | a range never compares less than itself |
| Algorithm.LexAsymmetric | algorithm/algorithm.hpp:32-39 | two ranges never both compare less than each other |
| Algorithm.LexTrichotomy | algorithm/algorithm.hpp:28-40 | under a strict total order two ranges are equal or one compares less |
| Algorithm.LexEmptyFirst | algorithm/algorithm.hpp:39 | an empty first range compares less iff the second is not empty |
| Algorithm.LexicographicalCompare | algorithm/algorithm.hpp:28-40 | the loop with `<` agrees with the reference comparison |
| Algorithm.LexicographicalCompareBy | algorithm/algorithm.hpp:42-55 | the loop with `comp` agrees with the reference comparison |
| Algorithm.AppleApartment | common/algorithm_test.cpp:16-33 | "Apple" is less than "apartment" by `<`, but not under the case-insensitive comparison |
| VectorIterator.VectorIterator.constructor | iterator/VectorIterator.hpp:21-23 | the iterator points where it is told |
| VectorIterator.VectorIterator.Distance | iterator/VectorIterator.hpp:87-89 | `a - b` is the number of steps from `b` to `a` |
| VectorIterator.VectorIterator.Equals | iterator/VectorIterator.hpp:35-37 | `==` iff the distance is zero |
| VectorIterator.VectorIterator.NotEquals | iterator/VectorIterator.hpp:39-41 | `!=` is the negation of `==` |
| VectorIterator.VectorIterator.Less | iterator/VectorIterator.hpp:91-93 | `a < b` iff `b` lies a positive distance ahead |
| VectorIterator.VectorIterator.Greater | iterator/VectorIterator.hpp:95-97 | `a > b` iff `b < a` |
| VectorIterator.VectorIterator.LessEq | iterator/VectorIterator.hpp:99-101 | `<=` is not `>`, and is `<` or `==` |
| VectorIterator.VectorIterator.GreaterEq | iterator/VectorIterator.hpp:103-105 | `>=` is not `<`, and is `>` or `==` |
| VectorIterator.VectorIterator.Value | iterator/VectorIterator.hpp:43-49 | `*it` is the buffer slot under the pointer |
| VectorIterator.VectorIterator.Subscript | iterator/VectorIterator.hpp:117-123 | `it[n]` is the slot `n` places on |
| VectorIterator.VectorIterator.Increment | iterator/VectorIterator.hpp:55-57 | `++it` moves exactly one slot on |
| VectorIterator.VectorIterator.PostIncrement | iterator/VectorIterator.hpp:59-63 | `it++` returns the old position, and the iterator is then one slot on |
| VectorIterator.VectorIterator.Decrement | iterator/VectorIterator.hpp:65-67 | `--it` moves exactly one slot back |
| VectorIterator.VectorIterator.PostDecrement | iterator/VectorIterator.hpp:69-73 | `it--` returns the old position, and the iterator is then one slot back |
| VectorIterator.VectorIterator.Plus | iterator/VectorIterator.hpp:75-77 | `(it + n) - it == n`, and `*(it + n)` is `it[n]` |
| VectorIterator.VectorIterator.Minus | iterator/VectorIterator.hpp:83-85 | `it - (it - n) == n` |
| VectorIterator.VectorIterator.PlusAssign | iterator/VectorIterator.hpp:107-110 | `it += n` moves to where `it + n` points |
| VectorIterator.VectorIterator.MinusAssign | iterator/VectorIterator.hpp:112-115 | `it -= n` moves to where `it - n` points |
| VectorIterator.PlusLeft | iterator/VectorIterator.hpp:126-131 | `n + it` points where `it + n` does |
| VectorIterator.Walk | common/vector_test.cpp:62-63 | the loop from `begin()` to `end()` reads the elements in order |
| ReverseIterator.Reversed | iterator/iterator.hpp:59-62 | the reversal has the same length, and position `i` holds element `n - 1 - i` |
| ReverseIterator.ReversedTwice | iterator/iterator.hpp:59-62 | reversing twice gives the sequence back |
| ReverseIterator.ReverseIterator.constructor | iterator/iterator.hpp:39-41 | the reverse iterator keeps the base iterator it is given |
| ReverseIterator.ReverseIterator.Base | iterator/iterator.hpp:49-51 | `base()` returns the kept iterator unchanged |
| ReverseIterator.ReverseIterator.Target | iterator/iterator.hpp:59-62 | the slot `*r` reads is one before the base |
| ReverseIterator.ReverseIterator.Deref | iterator/iterator.hpp:59-62 | `*r` reads the slot one before `r.base()` |
| ReverseIterator.ReverseIterator.Subscript | iterator/iterator.hpp:102-104 | `r[n]`, that is `base()[-n-1]`, reads the slot `*(r + n)` reads |
| ReverseIterator.ReverseIterator.Plus | iterator/iterator.hpp:64-66 | `r + n` has base `base - n`, and so reads `n` slots further back |
| ReverseIterator.ReverseIterator.Increment | iterator/iterator.hpp:68-70 | `++r` moves the base one slot back |
| ReverseIterator.ReverseIterator.PostIncrement | iterator/iterator.hpp:72-76 | `r++` returns the old iterator and moves the base back |
| ReverseIterator.ReverseIterator.PlusAssign | iterator/iterator.hpp:78-81 | `r += n` shifts the base by `-n`, as `r + n` does |
| ReverseIterator.ReverseIterator.Decrement | iterator/iterator.hpp:83-85 | `--r` moves the base one slot on |
| ReverseIterator.ReverseIterator.PostDecrement | iterator/iterator.hpp:87-91 | `r--` returns the old iterator and moves the base on |
| ReverseIterator.ReverseIterator.MinusAssign | iterator/iterator.hpp:93-96 | `r -= n` shifts the base by `+n` |
| ReverseIterator.ReverseWalk | common/iterator_test.cpp:42-45 | walking from `reverse_iterator(end)` until the base reaches `begin` reads the elements back to front |
| Vector.Max | vector/vector.hpp:3 | the larger of the two arguments |
| Vector.AssignedAsWritten | vector/vector.hpp:96-101 | what `operator=` as written leaves: the source's elements first, and the target's length when that is longer |
| Vector.AssignAsWrittenKeepsTail | vector/vector.hpp:96-101 | assigning [3] to [1, 2] as written leaves [3, 2] |
| Vector.AssignAsWrittenIsNotCopy | vector/vector.hpp:96-101 | whenever the target is longer, the result as written is not a copy of the source |
| Vector.Vector.Capacity | vector/vector.hpp:169-171 | `capacity()` is the number of slots in the buffer |
| Vector.Vector.Size | vector/vector.hpp:150-152 | `size()` is the number of elements |
| Vector.Vector.Empty | vector/vector.hpp:173-175 | `empty()` iff there are no elements |
| Vector.Vector.constructor | vector/vector.hpp:42-47 | the default vector has no elements and capacity 0 |
| Vector.Vector.Fill | vector/vector.hpp:49-58 | the fill constructor holds `n` copies of `val`, with capacity `n` |
| Vector.Vector.FromRange | vector/vector.hpp:60-71 | the range constructor holds the range's elements, with capacity equal to their number |
| Vector.Vector.Copy | vector/vector.hpp:73-80 | the copy has the same elements and the same capacity, in a new buffer |
| Vector.Vector.ReAlloc | vector/vector.hpp:17-27 | `_reAlloc(c)` gives a new buffer of `c` slots that keeps the first min(size, c) elements, with the size unchanged |
| Vector.Vector.Assign | vector/vector.hpp:92-112 | afterwards the target holds the source's elements and the source is unchanged; a target at least as long keeps its buffer, and a shorter one takes the source's capacity |
| Vector.Vector.AssignAsWritten | vector/vector.hpp:92-112 | `operator=` as written leaves `AssignedAsWritten` of the old contents |
| Vector.Vector.Begin | vector/vector.hpp:117-123 | `begin()` points at slot 0 of the buffer |
| Vector.Vector.End | vector/vector.hpp:125-131 | `end()` points one past the last element |
| Vector.Vector.RBegin | vector/vector.hpp:133-139 | `rbegin()`, corrected to `reverse_iterator(end())`, reads the last element |
| Vector.Vector.REnd | vector/vector.hpp:141-147 | `rend()`, corrected to `reverse_iterator(begin())`, has base `begin()` |
| Vector.Vector.RBeginAsWritten | vector/vector.hpp:133-139 | `rbegin()` as written reads a slot before the buffer |
| Vector.Vector.REndAsWritten | vector/vector.hpp:141-147 | `rend()` as written has base `end()`, so `*rend()` reads the last element instead of lying one step past the first |
| Vector.Vector.ReverseElements | vector/vector.hpp:133-147 | walking from `rbegin()` to `rend()` reads the elements back to front |
| Vector.Vector.Resize | vector/vector.hpp:158-167 | `resize(n, val)` keeps the first `n` elements and fills the new slots with `val`; a too-small buffer grows to max(2 * capacity, n) |
| Vector.Vector.Reserve | vector/vector.hpp:177-181 | `reserve(n)` leaves the elements alone and makes the capacity max(capacity, n), keeping the buffer when it is big enough; a second call changes nothing |
| Vector.Vector.Get | vector/vector.hpp:184-190 | `v[n]` is element `n` |
| Vector.Vector.At | vector/vector.hpp:192-200 | `at(n)` fails with out_of_range iff `n >= size()`, and otherwise gives `v[n]` |
| Vector.Vector.Front | vector/vector.hpp:202-208 | `front()` is the first element |
| Vector.Vector.Back | vector/vector.hpp:210-216 | `back()` is the last element |
| Vector.Vector.AssignRange | vector/vector.hpp:227-237 | the range `assign` leaves exactly the range's elements; the capacity grows to their number only when it is too small |
| Vector.Vector.AssignFill | vector/vector.hpp:239-247 | `assign(n, val)` leaves `n` copies of `val`; the capacity grows to `n` only when it is too small |
| Vector.Vector.PushBack | vector/vector.hpp:249-254 | `push_back(val)` appends `val` and keeps the earlier elements; a full buffer grows to max(2 * capacity, 1), and the capacity never shrinks |
| Vector.Vector.PopBack | vector/vector.hpp:256-261 | `pop_back()` does nothing on an empty vector, and otherwise drops the last element and keeps the rest |
| Stack.ReversedPopLast | stack/stack.hpp:25-39 | the reversal of a sequence starts with its last element, followed by the reversal of the rest |
| Stack.Stack.constructor | stack/stack.hpp:15 | the stack holds a copy of the container given |
| Stack.Stack.Empty | stack/stack.hpp:17-19 | `empty()` is that of the container |
| Stack.Stack.Size | stack/stack.hpp:21-23 | `size()` is that of the container |
| Stack.Stack.Top | stack/stack.hpp:25-31 | `top()` is the element pushed last and not yet popped |
| Stack.Stack.Push | stack/stack.hpp:33-35 | `push(v)` puts `v` on top and adds one to the size |
| Stack.Stack.Pop | stack/stack.hpp:37-39 | `pop()` removes the top and keeps the rest, so it undoes a `push`; on an empty stack it does nothing |
| Stack.Stack.PopAll | common/stack_test.cpp:22-26 | popping until empty yields the values in the reverse of their push order (0..4 pushed, 4 3 2 1 0 popped) |
| Stack.Equal | stack/stack.hpp:42-45 | `==`, comparing elements with their own `==` (passed in as `eq`), holds iff the stacked values are the same |
| Stack.NotEqual | stack/stack.hpp:47-50 | `!=`, comparing elements with their own `==`, holds iff the stacked values differ |
| Stack.Less | stack/stack.hpp:52-55 | `<` is the lexicographical comparison of the stacked values, bottom first |
| Stack.LessEq | stack/stack.hpp:57-60 | `<=` is not `rhs < lhs` |
| Stack.Greater | stack/stack.hpp:62-65 | `>` is `rhs < lhs` |
| Stack.GreaterEq | stack/stack.hpp:67-70 | `>=` is not `lhs < rhs` |
| Stack.RelationalConsistent | stack/stack.hpp:42-70 | under a strict total order on the elements, exactly one of `<`, `==` and `>` holds; `<=` is `<` or `==`; and `>=` is `>` or `==` |

## Left out

- Allocators, and the explicit construction, destruction and freeing of nodes
  and elements (`_deleteTree`, the destructors, `deallocate`): the model has
  no manual memory management.
- Node pointer identity across mutations: after an insertion or erasure, the
  facades find a node again by its value. Values survive: the two-children
  erase moves the predecessor's value into the erased node's place.
- `_changeValue` (red_black_tree/RedBlackTree.hpp:386-404) allocates a new
  node and splices it in. The model writes the value in place, which gives
  the same contents and shape.
- The `Node` comparison operators (red_black_tree/RedBlackTree.hpp:90-112):
  nothing in the core uses them.
- The debug printers `_printTree` and `printTree`: console output.
- `max_size`, `get_allocator`, `data` and `set::swap`: allocator queries, a
  raw pointer, and a shallow swap of tree objects that have no copy
  constructor.
- The `Comp` template argument of the tree: it is the parameter `lt`.
- The comparator object passed to the set and map constructors
  (set/set.hpp:36-47, map/map.hpp:18) is stored in `_cmp` but never used.
  The tree always orders with a default-constructed `Comp()`
  (red_black_tree/RedBlackTree.hpp:435), and `key_comp()`/`value_comp()`
  return default instances (set/set.hpp:164-170). The `lt` given to
  `Set.Set.constructor`, `Set.Set.FromRange`, `Map.Map.constructor` and
  `Map.Map.FromRange` stands for that default-constructed `Compare`, and
  `Copy` keeps it. For a stateless order such as `ft::less` the two agree.
  A stateful comparator whose instances differ is not modelled.
- `std::less` is the strict weak order `<` on integers.
- `utility.hpp`'s `pair` is `Map.Pair`.
- `type_traits` and `iterator_traits`: compile-time machinery with no runtime
  behaviour.
- The container assignment operators are modelled with the meaning their
  bodies evidently intend. Set and map `operator=` (set/set.hpp:55-60,
  map/map.hpp:71-76) and `reverse_iterator`'s converting assignment
  (iterator/iterator.hpp:54-57) omit `return *this`.
- `reverse_iterator`'s default and converting constructors
  (iterator/iterator.hpp:37, 43-46) and its `operator->`
  (iterator/iterator.hpp:98-100): an unset iterator, and a pointer to the
  element that `*` reads.
- `RbIterator.Iterator.Increment`: `++` from a sentinel climbs to the next
  position, as the `lower_bound` and `upper_bound` callers need. `_getNext` as written reads a
  NULL link there; see Findings.
- `Vector.Vector.PopBack`: the source destroys slot `_size` before the
  decrement (vector/vector.hpp:259), one past the last element. In this model
  destroying leaves a slot's value as it was, so both readings give the same
  contents.
- Several lines of vector/vector.hpp do not compile. They are modelled by
  their evident intent:
  - `arr` for `_arr`;
  - `reAlloc` for `_reAlloc`;
  - `destory` for `destroy`;
  - `size - 1` for `_size - 1`;
  - `operator at` for `at`.
- The set and map facades call tree members that
  red_black_tree/RedBlackTree.hpp does not declare in the form they use.
  Each call is modelled by its evident meaning:
  - set/set.hpp:113 calls a two-argument `insertNode(val, &flag)` that
    returns the node and writes whether a value was added. This is
    `RbEngine.RedBlackTree.InsertNode`, with its `p` and `inserted`.
  - map/map.hpp:127 calls the one-argument `insertNode` and uses the node it
    returns. The one-argument overload at
    red_black_tree/RedBlackTree.hpp:457 is `void`. This is also
    `InsertNode`.
  - set/set.hpp:131 calls a two-argument `deleteNode(value, node)` that
    removes that node. This is `RbEngine.RedBlackTree.DeleteAt`.
  - set/set.hpp:136 uses the one-argument `deleteNode` as a count of
    removed values. The overload at red_black_tree/RedBlackTree.hpp:495 is
    `void`. This is `RbEngine.RedBlackTree.DeleteNode`, with its `count`.
- `size_t`, `int` and `difference_type` are unbounded integers. Sizes and
  offsets are never near the machine limits here.
- Decrementing from `begin()`, dereferencing `end()` and reading outside the
  buffer are undefined in the source. They are preconditions here.
- Vector, stack and set input ranges are sequences of the elements they
  visit. `distance(first, last)` is their length.
- `Stack.Less`, `Stack.LessEq`, `Stack.Greater` and `Stack.GreaterEq` take
  the element order as a parameter. vector/vector.hpp declares no comparison
  operators, so `lhs.c < rhs.c` is given the standard container meaning.

## Findings

| source | as written | input that shows it | evidently intended | confidence | as-written member | corrected member |
|---|---|---|---|---|---|---|
| vector/vector.hpp:96-101 | when the target is at least as long as the source, `operator=` copies the elements and destroys the tail, but never sets `_size` | assigning `[3]` to `[1, 2]` leaves size 2, holding `[3, 2]` | the target's size becomes the source's size | not executed | Vector.Vector.AssignAsWritten, Vector.AssignAsWrittenKeepsTail | Vector.Vector.Assign |
| vector/vector.hpp:133-147 | `rbegin()` is `reverse_iterator(begin())` and `rend()` is `reverse_iterator(end())`, the two swapped | on `[10, 20]`, `*v.rbegin()` reads slot -1, before the buffer (common/vector_test.cpp:48) | `rbegin()` wraps `end()` and `rend()` wraps `begin()` | not executed | Vector.Vector.RBeginAsWritten, Vector.Vector.REndAsWritten | Vector.Vector.RBegin, Vector.Vector.REnd, Vector.Vector.ReverseElements |
| iterator/RBT_Iterator.hpp:50-55 | `++` from a sentinel (as `lower_bound` and `upper_bound` do after a failed `findNode`, set/set.hpp:201-203, 213-214) reads the sentinel's NULL `right` link | `lower_bound(2)` on the set {1} | the climb to the first node after the sentinel's gap, here `end()` | not executed | RbIterator.NextAsWritten, RbIterator.SentinelStepFaults | RbIterator.Next, RbIterator.NextFromGap, Set.Set.LowerBound, Set.Set.UpperBound |
