/** In-order stepping of `ft::RBT_Iterator` (iterator/RBT_Iterator.hpp).

    An iterator holds one `Node*`, modelled by a `Pos` of RbTree.  The climbs
    `_getRightParent` / `_getLeftParent` are recursive in the source and are
    functions here; the descents `_getSuccessor` / `_getPredecessor` are
    loops and are methods of the iterator class, proved equal to the
    functions that specify them. */
module RbIterator {
  import opened Order
  import opened RbTree
  import opened RbInsert

  datatype Option<T> = None | Some(value: T)

  /** `_getRightParent` (iterator/RBT_Iterator.hpp:36-41): climb while the
      position is a right child, then step to the parent.  The root is
      flagged as a left child whose parent is `_end`, so the climb stops
      there at the latest. */
  function GetRightParent<T>(p: Pos<T>): Pos<T>
    requires p.At?
    decreases |p.path|
  {
    if IsLeftChild(p) then Parent(p) else GetRightParent(Parent(p))
  }

  /** `_getLeftParent` (iterator/RBT_Iterator.hpp:43-48): climb while the
      position is a left child, then step to the parent.  From the root the
      climb reaches `_end`, which is not a left child and whose parent is NULL. */
  function GetLeftParent<T>(p: Pos<T>): Pos<T>
    requires p.At?
    decreases |p.path|
  {
    if p.path == [] then Null
    else if !IsLeftChild(p) then Parent(p)
    else GetLeftParent(Parent(p))
  }

  /** `_getNext` (iterator/RBT_Iterator.hpp:50-55): the leftmost node of the
      right subtree when there is one, otherwise the right parent.  At a
      sentinel the source reads the NULL `right` link (see `NextAsWritten`);
      here a sentinel climbs like a node without right subtree. */
  function Next<T>(p: Pos<T>): Pos<T>
    requires p.At?
  {
    if p.node.Node? && p.node.right.Node? then LeftmostFrom(RightChild(p)) else GetRightParent(p)
  }

  /** `_getNext` as written: a sentinel's `right` is NULL
      (red_black_tree/RedBlackTree.hpp:31-33), and `node->right->isNull`
      reads through it, which is `None` here. */
  function NextAsWritten<T>(p: Pos<T>): Option<Pos<T>>
    requires p.At?
  {
    if p.node.Nil? then None
    else if p.node.right.Node? then Some(LeftmostFrom(RightChild(p)))
    else Some(GetRightParent(p))
  }

  /** `_getPrev` (iterator/RBT_Iterator.hpp:57-62) from a real node or from
      `_end` of a non-empty tree, whose `left` is the root
      (red_black_tree/RedBlackTree.hpp:204): the rightmost node of the left
      subtree when there is one, otherwise the left parent. */
  function Prev<T>(p: Pos<T>): Pos<T>
    requires IsNode(p) || (p.EndOf? && p.root.Node?)
  {
    if p.EndOf? then RightmostFrom(At(p.root, []))
    else if p.node.left.Node? then RightmostFrom(LeftChild(p))
    else GetLeftParent(p)
  }

  /** `begin()` of set/set.hpp:63-65 and map/map.hpp:79-81: `_end` when the
      tree is empty, otherwise `min()`, the leftmost node. */
  function Begin<T>(t: Tree<T>): Pos<T> {
    if t.Nil? then EndOf(t) else LeftmostFrom(At(t, []))
  }

  /** `k` applications of `++`, stopping where `++` is not defined. */
  function Advance<T>(p: Pos<T>, k: nat): Pos<T>
    decreases k
  {
    if k == 0 || !p.At? then p else Advance(Next(p), k - 1)
  }

  // ---------------------------------------------------------------------

  /** The right parent holds the first value after the subtree at `p`, or
      is `_end` when there is none. */
  lemma {:induction false} GetRightParentSpec<T>(p: Pos<T>)
    requires p.At?
    ensures var q := GetRightParent(p);
      && (IsNode(q) || q == EndOf(Whole(p)))
      && Whole(q) == Whole(p)
      && Index(q) == |LeftOf(p.path)| + |Elements(p.node)|
    decreases |p.path|
  {
    if p.path != [] {
      var f := p.path[0];
      var up := Parent(p);
      assert up == At(Attach(p.node, f), p.path[1..]);
      if !f.isLeft {
        GetRightParentSpec(up);
        assert LeftOf(p.path) == LeftOf(up.path) + Elements(f.sibling) + [f.value];
      }
    }
  }

  /** The left parent holds the last value before the subtree at `p`; it is
      NULL exactly when there is none. */
  lemma {:induction false} GetLeftParentSpec<T>(p: Pos<T>)
    requires p.At?
    ensures var q := GetLeftParent(p);
      && (q.Null? <==> LeftOf(p.path) == [])
      && (!q.Null? ==> IsNode(q) && Whole(q) == Whole(p) && Index(q) == |LeftOf(p.path)| - 1)
    decreases |p.path|
  {
    if p.path != [] {
      var f := p.path[0];
      var up := Parent(p);
      assert up == At(Attach(p.node, f), p.path[1..]);
      if f.isLeft {
        GetLeftParentSpec(up);
      } else {
        assert LeftOf(p.path) == LeftOf(up.path) + Elements(f.sibling) + [f.value];
      }
    }
  }

  /** `++` from a real node reaches the next rank: the next node, or `_end`
      after the last one (iterator/RBT_Iterator.hpp:50-55, 101-104). */
  lemma NextFromNode<T>(p: Pos<T>)
    requires IsNode(p)
    ensures var q := Next(p);
      (IsNode(q) || q == EndOf(Whole(p))) && Whole(q) == Whole(p) && Index(q) == Index(p) + 1
  {
    ChildPositions(p);
    if p.node.right.Node? {
      LeftmostFromSpec(RightChild(p));
    } else {
      GetRightParentSpec(p);
    }
  }

  /** One step of an in-order walk that copies a tree: the value under a
      node position is the next one in order, so inserting it into a copy of
      the values before it extends that copy by one, and the successor is the
      next position. */
  lemma CopyStep<T(!new)>(p: Pos<T>, lt: (T, T) -> bool)
    requires IsNode(p) && StrictWeakOrder(lt) && Sorted(Elements(Whole(p)), lt)
    ensures Index(p) < |Elements(Whole(p))|
    ensures var s := Elements(Whole(p));
      SortedInsert(s[..Index(p)], p.node.value, lt) == s[..Index(p) + 1]
    ensures var q := Next(p);
      (IsNode(q) || q == EndOf(Whole(p))) && Whole(q) == Whole(p) && Index(q) == Index(p) + 1
  {
    NodeIndex(p);
    SortedInsertNext(Elements(Whole(p)), Index(p), lt);
    NextFromNode(p);
  }

  /** `++` from the sentinel where `findNode` stopped reaches the first
      value after that gap, or `_end`. */
  lemma NextFromGap<T>(p: Pos<T>)
    requires p.At? && p.node.Nil?
    ensures var q := Next(p);
      (IsNode(q) || q == EndOf(Whole(p))) && Whole(q) == Whole(p) && Index(q) == Index(p)
  {
    GetRightParentSpec(p);
  }

  /** `--` reaches the previous rank; from the first node it climbs past
      `_end` to NULL (iterator/RBT_Iterator.hpp:57-62, 112-115). */
  lemma PrevSpec<T>(p: Pos<T>)
    requires IsNode(p) || (p.EndOf? && p.root.Node?)
    ensures var q := Prev(p);
      && (Index(p) == 0 ==> q == Null)
      && (Index(p) > 0 ==> IsNode(q) && Whole(q) == Whole(p) && Index(q) == Index(p) - 1)
  {
    if p.EndOf? {
      RightmostFromSpec(At(p.root, []));
      NodeIndex(At(p.root, []));
    } else if p.node.left.Node? {
      ChildPositions(p);
      RightmostFromSpec(LeftChild(p));
    } else {
      GetLeftParentSpec(p);
    }
  }

  /** `--` undoes `++` on every real node. */
  lemma PrevNext<T>(p: Pos<T>)
    requires IsNode(p)
    ensures var q := Next(p);
      (IsNode(q) || (q.EndOf? && q.root.Node?)) && Prev(q) == p
  {
    NextFromNode(p);
    NodeIndex(p);
    var q := Next(p);
    PrevSpec(q);
    PositionUnique(Prev(q), p);
  }

  /** `++` undoes `--` on every real node but the first, and on `_end` of a
      non-empty tree. */
  lemma NextPrev<T>(p: Pos<T>)
    requires (IsNode(p) && Index(p) > 0) || (p.EndOf? && p.root.Node?)
    ensures IsNode(Prev(p)) && Next(Prev(p)) == p
  {
    if p.EndOf? {
      NodeIndex(At(p.root, []));
    }
    PrevSpec(p);
    NextFromNode(Prev(p));
    PositionUnique(Next(Prev(p)), p);
  }

  /** `k` steps of `++` from a node or `_end` move the rank by `k`, as long
      as they stay within the tree. */
  lemma {:induction false} AdvanceSpec<T>(p: Pos<T>, k: nat)
    requires IsNode(p) || p.EndOf?
    requires Index(p) + k <= |Elements(Whole(p))|
    ensures var q := Advance(p, k);
      (IsNode(q) || q == EndOf(Whole(p))) && Whole(q) == Whole(p) && Index(q) == Index(p) + k
    decreases k
  {
    if k > 0 {
      NextFromNode(p);
      AdvanceSpec(Next(p), k - 1);
    }
  }

  /** Walking from `begin()` with `++` visits the stored values in order and
      lands on `_end` after `size` steps. */
  lemma InOrderWalk<T>(t: Tree<T>)
    ensures forall k | 0 <= k < |Elements(t)| ::
      IsNode(Advance(Begin(t), k)) && Advance(Begin(t), k).node.value == Elements(t)[k]
    ensures Advance(Begin(t), |Elements(t)|) == EndOf(t)
  {
    if t.Node? {
      LeftmostFromSpec(At(t, []));
    }
    forall k | 0 <= k <= |Elements(t)|
      ensures var q := Advance(Begin(t), k);
        && (k < |Elements(t)| ==> IsNode(q) && q.node.value == Elements(t)[k])
        && (k == |Elements(t)| ==> q == EndOf(t))
    {
      AdvanceSpec(Begin(t), k);
      var q := Advance(Begin(t), k);
      if IsNode(q) {
        NodeIndex(q);
      }
    }
  }

  /** In a sorted tree the walk from `begin()` is strictly increasing. */
  lemma InOrderWalkIncreasing<T>(t: Tree<T>, lt: (T, T) -> bool)
    requires Sorted(Elements(t), lt)
    ensures forall i, j | 0 <= i < j < |Elements(t)| ::
      && IsNode(Advance(Begin(t), i)) && IsNode(Advance(Begin(t), j))
      && lt(Advance(Begin(t), i).node.value, Advance(Begin(t), j).node.value)
  {
    InOrderWalk(t);
  }

  /** On the tree holding 1 alone, `lower_bound(2)` stops at the right
      sentinel of 1, and `++` from there reads through a NULL link; the
      climb of `Next` reaches `_end`, the first position after 2. */
  lemma SentinelStepFaults()
    ensures var t := Node(Black, Nil, 1, Nil);
      var p := Find(t, 2, (a: int, b: int) => a < b);
      && p == At(Nil, [Frame(false, Black, 1, Nil)])
      && NextAsWritten(p) == None
      && Next(p) == EndOf(t)
  {
  }

  // ---------------------------------------------------------------------

  /** `ft::RBT_Iterator`: a wrapper around one node pointer. */
  class Iterator<T(==)> {
    var ptr: Pos<T>

    /** iterator/RBT_Iterator.hpp:67-69. */
    constructor(p: Pos<T>)
      ensures ptr == p
    {
      ptr := p;
    }

    /** `operator==` (iterator/RBT_Iterator.hpp:81-83): pointer identity,
        which for real nodes and `_end` of one tree is equality of ranks;
        `operator!=` is its negation. */
    function Equals(other: Iterator<T>): (r: bool)
      reads this, other
      ensures ((IsNode(ptr) || ptr.EndOf?) && (IsNode(other.ptr) || other.ptr.EndOf?) && Whole(ptr) == Whole(other.ptr))
        ==> (r <==> Index(ptr) == Index(other.ptr))
    {
      if (IsNode(ptr) || ptr.EndOf?) && (IsNode(other.ptr) || other.ptr.EndOf?) && Whole(ptr) == Whole(other.ptr) then
        PositionUnique(ptr, other.ptr);
        ptr == other.ptr
      else
        ptr == other.ptr
    }

    /** `operator*` (iterator/RBT_Iterator.hpp:89-95): the value at the
        iterator's rank; dereferencing `_end` is not allowed. */
    function Value(): (v: T)
      reads this
      requires IsNode(ptr)
      ensures Index(ptr) < |Elements(Whole(ptr))| && v == Elements(Whole(ptr))[Index(ptr)]
    {
      NodeIndex(ptr);
      ptr.node.value
    }

    /** `_getSuccessor` (iterator/RBT_Iterator.hpp:20-26): down to the right
        child, then left until a sentinel, whose parent is the result. */
    static method GetSuccessor(p: Pos<T>) returns (q: Pos<T>)
      requires IsNode(p) && p.node.right.Node?
      ensures q == Next(p)
      ensures IsNode(q) && Whole(q) == Whole(p) && Index(q) == Index(p) + 1
    {
      var cur := RightChild(p);
      while cur.node.Node?
        invariant cur.At? && cur.path != []
        invariant cur.node.Node? ==> LeftmostFrom(cur) == Next(p)
        invariant cur.node.Nil? ==> Parent(cur) == Next(p)
        decreases cur.node
      {
        ChildPositions(cur);
        cur := LeftChild(cur);
      }
      q := Parent(cur);
      ChildPositions(p);
      LeftmostFromSpec(RightChild(p));
    }

    /** `_getPredecessor` (iterator/RBT_Iterator.hpp:28-34): down to the left
        child (the root, from `_end`), then right until a sentinel, whose
        parent is the result. */
    static method GetPredecessor(p: Pos<T>) returns (q: Pos<T>)
      requires (IsNode(p) && p.node.left.Node?) || (p.EndOf? && p.root.Node?)
      ensures q == Prev(p)
      ensures IsNode(q) && Whole(q) == Whole(p) && Index(q) == Index(p) - 1
    {
      var start := if p.EndOf? then At(p.root, []) else LeftChild(p);
      var cur := RightChild(start);
      ChildPositions(start);
      while cur.node.Node?
        invariant cur.At? && cur.path != []
        invariant cur.node.Node? ==> RightmostFrom(cur) == Prev(p)
        invariant cur.node.Nil? ==> Parent(cur) == Prev(p)
        decreases cur.node
      {
        ChildPositions(cur);
        cur := RightChild(cur);
      }
      q := Parent(cur);
      PrevSpec(p);
      if p.At? {
        NodeIndex(LeftChild(p));
        ChildPositions(p);
      }
    }

    /** `operator++` (iterator/RBT_Iterator.hpp:101-104). */
    method Increment()
      requires ptr.At?
      modifies this
      ensures ptr == Next(old(ptr))
    {
      if ptr.node.Node? && ptr.node.right.Node? {
        ptr := GetSuccessor(ptr);
      } else {
        ptr := GetRightParent(ptr);
      }
    }

    /** Post-increment (iterator/RBT_Iterator.hpp:106-110): a copy of the old
        position, and the iterator advanced. */
    method PostIncrement() returns (tmp: Iterator<T>)
      requires ptr.At?
      modifies this
      ensures fresh(tmp) && tmp.ptr == old(ptr) && ptr == Next(old(ptr))
    {
      tmp := new Iterator(ptr);
      Increment();
    }

    /** `operator--` (iterator/RBT_Iterator.hpp:112-115). */
    method Decrement()
      requires IsNode(ptr) || (ptr.EndOf? && ptr.root.Node?)
      modifies this
      ensures ptr == Prev(old(ptr))
    {
      if ptr.EndOf? || ptr.node.left.Node? {
        ptr := GetPredecessor(ptr);
      } else {
        ptr := GetLeftParent(ptr);
      }
    }

    /** Post-decrement (iterator/RBT_Iterator.hpp:117-121). */
    method PostDecrement() returns (tmp: Iterator<T>)
      requires IsNode(ptr) || (ptr.EndOf? && ptr.root.Node?)
      modifies this
      ensures fresh(tmp) && tmp.ptr == old(ptr) && ptr == Prev(old(ptr))
    {
      tmp := new Iterator(ptr);
      Decrement();
    }
  }
}
