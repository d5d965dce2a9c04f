/** The node structure of `ft::RedBlackTree` (red_black_tree/RedBlackTree.hpp).

    A node's links are modelled by where the node sits: a `Pos` is a node (or
    a sentinel) together with the path of frames that leads from it up to the
    root, `path[0]` being the link to its parent.  A frame records the node's
    `isLeftChild` flag and the parent's colour, value and other child, so the
    parent pointer, the `isLeftChild` flag and the parent's child pointer of
    the source are one datum here and cannot disagree. */
module RbTree {
  import opened Order

  /** Node::Red = 0 and Node::Black = 1 (red_black_tree/RedBlackTree.hpp:15-16).
      The transient Node::DBlack = 2 exists only inside the delete fixup. */
  datatype Color = Red | Black

  /** The numeric value of a colour, as `_deleteFixup` adds them. */
  function Weight(c: Color): nat {
    if c == Black then 1 else 0
  }

  /** `Nil` is a sentinel (`isNull`, black, no value); every real node owns
      two of them (red_black_tree/RedBlackTree.hpp:27-50). */
  datatype Tree<T> = Nil | Node(color: Color, left: Tree<T>, value: T, right: Tree<T>)

  /** The link from a node to its parent: the node's `isLeftChild` flag, and
      the parent's colour, value and other child. */
  datatype Frame<T> = Frame(isLeft: bool, color: Color, value: T, sibling: Tree<T>)

  /** A `Node*`: NULL, the tree's `_end` sentinel (whose left link is the
      root, red_black_tree/RedBlackTree.hpp:204), or a real node or sentinel
      reached through `path`. */
  datatype Pos<T> = Null | EndOf(root: Tree<T>) | At(node: Tree<T>, path: seq<Frame<T>>)

  /** A sentinel reads as black. */
  function ColorOf<T>(t: Tree<T>): Color {
    if t.Nil? then Black else t.color
  }

  predicate IsRed<T>(t: Tree<T>) {
    t.Node? && t.color == Red
  }

  /** Assigning `color` to a node; a no-op on a sentinel. */
  function Paint<T>(t: Tree<T>, c: Color): Tree<T> {
    if t.Nil? then t else t.(color := c)
  }

  /** The in-order sequence of stored values. */
  function Elements<T>(t: Tree<T>): seq<T> {
    match t
    case Nil => []
    case Node(_, l, v, r) => Elements(l) + [v] + Elements(r)
  }

  /** The parent node rebuilt around its child `n` (`updateLeft`/`updateRight`,
      red_black_tree/RedBlackTree.hpp:68-88). */
  function Attach<T>(n: Tree<T>, f: Frame<T>): Tree<T> {
    if f.isLeft then Node(f.color, n, f.value, f.sibling) else Node(f.color, f.sibling, f.value, n)
  }

  /** The whole tree seen from `n` and its path to the root. */
  function Plug<T>(n: Tree<T>, path: seq<Frame<T>>): Tree<T>
    decreases |path|
  {
    if path == [] then n else Plug(Attach(n, path[0]), path[1..])
  }

  /** The values stored before the subtree at the bottom of `path`. */
  function LeftOf<T>(path: seq<Frame<T>>): seq<T>
    decreases |path|
  {
    if path == [] then []
    else if path[0].isLeft then LeftOf(path[1..])
    else LeftOf(path[1..]) + Elements(path[0].sibling) + [path[0].value]
  }

  /** The values stored after the subtree at the bottom of `path`. */
  function RightOf<T>(path: seq<Frame<T>>): seq<T>
    decreases |path|
  {
    if path == [] then []
    else if path[0].isLeft then [path[0].value] + Elements(path[0].sibling) + RightOf(path[1..])
    else RightOf(path[1..])
  }

  /** Attaching `n` to its parent moves the parent's value and other subtree
      from around the path into the subtree. */
  lemma FrameValues<T>(n: Tree<T>, path: seq<Frame<T>>)
    requires path != []
    ensures LeftOf(path[1..]) + Elements(Attach(n, path[0])) + RightOf(path[1..])
      == LeftOf(path) + Elements(n) + RightOf(path)
  {
    var f := path[0];
    var L, e, s, R := LeftOf(path[1..]), Elements(n), Elements(f.sibling), RightOf(path[1..]);
    var v := [f.value];
    if f.isLeft {
      Assoc(L, e + v, s);
      Assoc(L, e, v);
      Assoc(L + e, v, s);
      Assoc(L + e, v + s, R);
      Assoc(v, s, R);
    } else {
      Assoc(L, s + v, e);
      Assoc(L, s, v);
    }
  }

  lemma {:induction false} ElementsPlug<T>(n: Tree<T>, path: seq<Frame<T>>)
    ensures Elements(Plug(n, path)) == LeftOf(path) + Elements(n) + RightOf(path)
    decreases |path|
  {
    if path != [] {
      ElementsPlug(Attach(n, path[0]), path[1..]);
      FrameValues(n, path);
    }
  }

  /** Replacing a subtree by one with the same values keeps the values of the whole tree. */
  lemma PlugSameElements<T>(a: Tree<T>, b: Tree<T>, path: seq<Frame<T>>)
    requires Elements(a) == Elements(b)
    ensures Elements(Plug(a, path)) == Elements(Plug(b, path))
  {
    ElementsPlug(a, path);
    ElementsPlug(b, path);
  }

  lemma {:induction false} PlugAppend<T>(n: Tree<T>, a: seq<Frame<T>>, b: seq<Frame<T>>)
    ensures Plug(n, a + b) == Plug(Plug(n, a), b)
    decreases |a|
  {
    if a == [] {
      assert a + b == b;
    } else {
      assert (a + b)[0] == a[0] && (a + b)[1..] == a[1..] + b;
      PlugAppend(Attach(n, a[0]), a[1..], b);
    }
  }

  lemma {:induction false} LeftOfAppend<T>(a: seq<Frame<T>>, b: seq<Frame<T>>)
    ensures LeftOf(a + b) == LeftOf(b) + LeftOf(a)
    ensures RightOf(a + b) == RightOf(a) + RightOf(b)
    decreases |a|
  {
    if a == [] {
      assert a + b == b;
    } else {
      assert (a + b)[0] == a[0] && (a + b)[1..] == a[1..] + b;
      LeftOfAppend(a[1..], b);
      var f, A, B := a[0], a[1..], b;
      var s, v := Elements(f.sibling), [f.value];
      if f.isLeft {
        Assoc(v + s, RightOf(A), RightOf(B));
      } else {
        Assoc(LeftOf(B) + LeftOf(A), s, v);
        Assoc(LeftOf(B), LeftOf(A), s);
        Assoc(LeftOf(B), LeftOf(A) + s, v);
      }
    }
  }

  // ---------------------------------------------------------------------
  // The red-black properties, as the DEBUG checkers compute them.

  /** `_getBlackHeight` (red_black_tree/RedBlackTree.hpp:406-410): black real
      nodes on the leftmost path. */
  function BlackHeight<T>(t: Tree<T>): nat {
    match t
    case Nil => 0
    case Node(c, l, _, _) => BlackHeight(l) + Weight(c)
  }

  /** `_testRedBlack` (red_black_tree/RedBlackTree.hpp:412-425): no red node
      has a red child, and the two children of every node have equal black height. */
  predicate RedBlack<T>(t: Tree<T>) {
    match t
    case Nil => true
    case Node(c, l, _, r) =>
      && (c == Red ==> !IsRed(l) && !IsRed(r))
      && BlackHeight(l) == BlackHeight(r)
      && RedBlack(l) && RedBlack(r)
  }

  /** The tree invariant: the checks above and a black root. */
  predicate IsRedBlackTree<T>(t: Tree<T>) {
    RedBlack(t) && !IsRed(t)
  }

  /** The path is a valid surrounding for a subtree of black height `h`:
      every sibling is a red-black tree of the black height its place needs,
      a red parent has a black parent and a non-red other child, and the
      root is black. */
  ghost predicate CtxOK<T>(path: seq<Frame<T>>, h: nat)
    decreases |path|
  {
    path == [] ||
    (&& RedBlack(path[0].sibling)
     && BlackHeight(path[0].sibling) == h
     && (path[0].color == Red ==> !IsRed(path[0].sibling) && |path| > 1 && path[1].color == Black)
     && CtxOK(path[1..], h + Weight(path[0].color)))
  }

  /** `n` may hang at the bottom of `path` in a valid tree. */
  ghost predicate Fits<T>(n: Tree<T>, path: seq<Frame<T>>) {
    && RedBlack(n)
    && CtxOK(path, BlackHeight(n))
    && (IsRed(n) ==> path != [] && path[0].color == Black)
  }

  lemma {:induction false} PlugValid<T>(n: Tree<T>, path: seq<Frame<T>>)
    requires Fits(n, path)
    ensures IsRedBlackTree(Plug(n, path))
    decreases |path|
  {
    if path != [] {
      var m := Attach(n, path[0]);
      assert BlackHeight(m) == BlackHeight(n) + Weight(path[0].color);
      PlugValid(m, path[1..]);
    }
  }

  lemma {:induction false} PlugDecompose<T>(n: Tree<T>, path: seq<Frame<T>>)
    requires IsRedBlackTree(Plug(n, path))
    ensures Fits(n, path)
    decreases |path|
  {
    if path != [] {
      var m := Attach(n, path[0]);
      PlugDecompose(m, path[1..]);
      assert BlackHeight(m) == BlackHeight(n) + Weight(path[0].color);
    }
  }

  // ---------------------------------------------------------------------
  // Rotations.

  /** `_rotateLeft` (red_black_tree/RedBlackTree.hpp:136-156): the right child
      takes the node's place and the node becomes its left child; the right
      child's former left subtree moves under the node.  Colours are kept. */
  function RotateLeft<T>(t: Tree<T>): Tree<T> {
    match t
    case Node(c, a, x, Node(c2, b, y, d)) => Node(c2, Node(c, a, x, b), y, d)
    case _ => t
  }

  /** `_rotateRight` (red_black_tree/RedBlackTree.hpp:158-178), the mirror image. */
  function RotateRight<T>(t: Tree<T>): Tree<T> {
    match t
    case Node(c, Node(c2, a, x, b), y, d) => Node(c2, a, x, Node(c, b, y, d))
    case _ => t
  }

  /** Rotations keep the in-order sequence. */
  lemma RotationsKeepOrder<T>(t: Tree<T>)
    ensures Elements(RotateLeft(t)) == Elements(t)
    ensures Elements(RotateRight(t)) == Elements(t)
  {
    if t.Node? && t.right.Node? {
      var r := t.right;
      assert Elements(RotateLeft(t)) == (Elements(t.left) + [t.value] + Elements(r.left)) + [r.value] + Elements(r.right);
    }
    if t.Node? && t.left.Node? {
      var l := t.left;
      assert Elements(RotateRight(t)) == Elements(l.left) + [l.value] + (Elements(l.right) + [t.value] + Elements(t.right));
    }
  }

  /** The two rotations undo each other. */
  lemma RotationsInverse<T>(t: Tree<T>)
    ensures t.Node? && t.right.Node? ==> RotateRight(RotateLeft(t)) == t
    ensures t.Node? && t.left.Node? ==> RotateLeft(RotateRight(t)) == t
  {
  }

  // ---------------------------------------------------------------------
  // Positions.

  /** The tree a position belongs to. */
  function Whole<T>(p: Pos<T>): Tree<T> {
    match p
    case Null => Nil
    case EndOf(root) => root
    case At(n, path) => Plug(n, path)
  }

  /** The position points at a real node. */
  predicate IsNode<T>(p: Pos<T>) {
    p.At? && p.node.Node?
  }

  /** The in-order rank of a position: the index of a real node's value, the
      number of values before a sentinel, and the size for `_end`. */
  function Index<T>(p: Pos<T>): nat {
    match p
    case Null => 0
    case EndOf(root) => |Elements(root)|
    case At(n, path) => |LeftOf(path)| + (if n.Node? then |Elements(n.left)| else 0)
  }

  lemma NodeIndex<T>(p: Pos<T>)
    requires IsNode(p)
    ensures Index(p) < |Elements(Whole(p))|
    ensures Elements(Whole(p))[Index(p)] == p.node.value
  {
    ElementsPlug(p.node, p.path);
  }

  /** Rewriting the value of one node changes the in-order sequence at
      that node's rank only, and leaves the colouring valid. */
  lemma ReplaceValue<T>(p: Pos<T>, v: T)
    requires IsNode(p)
    ensures Index(p) < |Elements(Whole(p))|
    ensures Elements(Plug(p.node.(value := v), p.path)) == Elements(Whole(p))[Index(p) := v]
    ensures IsRedBlackTree(Whole(p)) ==> IsRedBlackTree(Plug(p.node.(value := v), p.path))
  {
    var node := p.node.(value := v);
    NodeIndex(p);
    NodeValues(p);
    NodeValues(At(node, p.path));
    if IsRedBlackTree(Whole(p)) {
      PlugDecompose(p.node, p.path);
      assert Fits(node, p.path);
      PlugValid(node, p.path);
    }
  }

  /** The sentinel at the bottom of `path` stands between the values before and after it. */
  lemma GapIndex<T>(p: Pos<T>)
    requires p.At? && p.node.Nil?
    ensures Elements(Whole(p)) == LeftOf(p.path) + RightOf(p.path)
    ensures Index(p) == |LeftOf(p.path)|
  {
    ElementsPlug(p.node, p.path);
  }

  function LeftChild<T>(p: Pos<T>): Pos<T>
    requires IsNode(p)
  {
    At(p.node.left, [Frame(true, p.node.color, p.node.value, p.node.right)] + p.path)
  }

  function RightChild<T>(p: Pos<T>): Pos<T>
    requires IsNode(p)
  {
    At(p.node.right, [Frame(false, p.node.color, p.node.value, p.node.left)] + p.path)
  }

  /** `node->parent`; the root's parent is `_end` (red_black_tree/RedBlackTree.hpp:203). */
  function Parent<T>(p: Pos<T>): Pos<T>
    requires p.At?
  {
    if p.path == [] then EndOf(p.node) else At(Attach(p.node, p.path[0]), p.path[1..])
  }

  /** `node->isLeftChild`; the root is flagged as a left child (red_black_tree/RedBlackTree.hpp:202). */
  predicate IsLeftChild<T>(p: Pos<T>)
    requires p.At?
  {
    p.path == [] || p.path[0].isLeft
  }

  lemma ChildPositions<T>(p: Pos<T>)
    requires IsNode(p)
    ensures Whole(LeftChild(p)) == Whole(p) && Whole(RightChild(p)) == Whole(p)
    ensures Parent(LeftChild(p)) == p && Parent(RightChild(p)) == p
    ensures LeftOf(LeftChild(p).path) == LeftOf(p.path)
    ensures LeftOf(RightChild(p).path) == LeftOf(p.path) + Elements(p.node.left) + [p.node.value]
    ensures RightOf(LeftChild(p).path) == [p.node.value] + Elements(p.node.right) + RightOf(p.path)
    ensures RightOf(RightChild(p).path) == RightOf(p.path)
  {
    var f := [Frame(true, p.node.color, p.node.value, p.node.right)];
    var g := [Frame(false, p.node.color, p.node.value, p.node.left)];
    assert (f + p.path)[0] == f[0] && (f + p.path)[1..] == p.path;
    assert (g + p.path)[0] == g[0] && (g + p.path)[1..] == p.path;
  }

  /** A new node (red_black_tree/RedBlackTree.hpp:27-50): red, holding `x`,
      with two fresh sentinel children. */
  function NewNode<T>(x: T): Tree<T> {
    Node(Red, Nil, x, Nil)
  }

  /** `updateLeft` (red_black_tree/RedBlackTree.hpp:68-77): on a sentinel
      nothing happens; otherwise `child` becomes the left child. */
  function UpdateLeft<T>(p: Pos<T>, child: Tree<T>): Pos<T>
    requires p.At?
  {
    if p.node.Nil? then p else At(p.node.(left := child), p.path)
  }

  /** `updateRight` (red_black_tree/RedBlackTree.hpp:79-88), the mirror image. */
  function UpdateRight<T>(p: Pos<T>, child: Tree<T>): Pos<T>
    requires p.At?
  {
    if p.node.Nil? then p else At(p.node.(right := child), p.path)
  }

  /** The new node's sentinels point back to it, the left one flagged as a
      left child and the right one not. */
  lemma NewNodeLinks<T>(x: T, path: seq<Frame<T>>)
    ensures var p := At(NewNode(x), path);
      && IsNode(p) && p.node.color == Red && p.node.value == x
      && LeftChild(p).node.Nil? && Parent(LeftChild(p)) == p && IsLeftChild(LeftChild(p))
      && RightChild(p).node.Nil? && Parent(RightChild(p)) == p && !IsLeftChild(RightChild(p))
  {
    ChildPositions(At(NewNode(x), path));
  }

  /** After `updateLeft` / `updateRight` on a real node, the child's parent
      is that node and its `isLeftChild` flag tells the side; the node keeps
      its colour, value, other child and place.  A sentinel is left as it is. */
  lemma UpdateLinks<T>(p: Pos<T>, child: Tree<T>)
    requires p.At?
    ensures p.node.Nil? ==> UpdateLeft(p, child) == p && UpdateRight(p, child) == p
    ensures p.node.Node? ==> var q := UpdateLeft(p, child);
      && IsNode(q) && q.path == p.path
      && q.node.color == p.node.color && q.node.value == p.node.value && q.node.right == p.node.right
      && LeftChild(q).node == child && Parent(LeftChild(q)) == q && IsLeftChild(LeftChild(q))
    ensures p.node.Node? ==> var q := UpdateRight(p, child);
      && IsNode(q) && q.path == p.path
      && q.node.color == p.node.color && q.node.value == p.node.value && q.node.left == p.node.left
      && RightChild(q).node == child && Parent(RightChild(q)) == q && !IsLeftChild(RightChild(q))
  {
    if p.node.Node? {
      ChildPositions(UpdateLeft(p, child));
      ChildPositions(UpdateRight(p, child));
    }
  }

  /** The leftmost real node of the subtree at `p`. */
  function LeftmostFrom<T>(p: Pos<T>): (q: Pos<T>)
    requires IsNode(p)
    ensures IsNode(q)
    decreases p.node
  {
    if p.node.left.Nil? then p else LeftmostFrom(LeftChild(p))
  }

  /** The rightmost real node of the subtree at `p`. */
  function RightmostFrom<T>(p: Pos<T>): (q: Pos<T>)
    requires IsNode(p)
    ensures IsNode(q)
    decreases p.node
  {
    if p.node.right.Nil? then p else RightmostFrom(RightChild(p))
  }

  /** The leftmost node of a subtree holds the first of its values. */
  lemma {:induction false} LeftmostFromSpec<T>(p: Pos<T>)
    requires IsNode(p)
    ensures var q := LeftmostFrom(p);
      IsNode(q) && q.node.left.Nil? && Whole(q) == Whole(p) && Index(q) == |LeftOf(p.path)|
    decreases p.node
  {
    if p.node.left.Node? {
      ChildPositions(p);
      LeftmostFromSpec(LeftChild(p));
    }
  }

  /** The rightmost node of a subtree holds the last of its values. */
  lemma {:induction false} RightmostFromSpec<T>(p: Pos<T>)
    requires IsNode(p)
    ensures var q := RightmostFrom(p);
      IsNode(q) && q.node.right.Nil? && Whole(q) == Whole(p) &&
      Index(q) == |LeftOf(p.path)| + |Elements(p.node)| - 1
    decreases p.node
  {
    ChildPositions(p);
    if p.node.right.Node? {
      RightmostFromSpec(RightChild(p));
    }
  }

  // ---------------------------------------------------------------------
  // Search.

  /** The descent of `findNode` (red_black_tree/RedBlackTree.hpp:482-492)
      from `n`: stop at a sentinel or at a node equivalent to `x`, go left
      when `x` is less, right otherwise. */
  function FindFrom<T>(n: Tree<T>, path: seq<Frame<T>>, x: T, lt: (T, T) -> bool): (p: Pos<T>)
    ensures p.At?
    decreases n
  {
    match n
    case Nil => At(n, path)
    case Node(c, l, v, r) =>
      if !lt(x, v) && !lt(v, x) then At(n, path)
      else if lt(x, v) then FindFrom(l, [Frame(true, c, v, r)] + path, x, lt)
      else FindFrom(r, [Frame(false, c, v, l)] + path, x, lt)
  }

  /** `findNode` (red_black_tree/RedBlackTree.hpp:479-493): NULL on an empty tree. */
  function Find<T>(t: Tree<T>, x: T, lt: (T, T) -> bool): Pos<T> {
    if t.Nil? then Null else FindFrom(t, [], x, lt)
  }

  /** The values of the whole tree around a real node: those before its
      subtree and in its left subtree, the node's own, then those in its right
      subtree and after it. */
  lemma NodeValues<T>(p: Pos<T>)
    requires IsNode(p)
    ensures Elements(Whole(p)) ==
      (LeftOf(p.path) + Elements(p.node.left)) + [p.node.value] + (Elements(p.node.right) + RightOf(p.path))
  {
    ElementsPlug(p.node, p.path);
    var L, l, v, r, R := LeftOf(p.path), Elements(p.node.left), [p.node.value], Elements(p.node.right), RightOf(p.path);
    Assoc(L, l + v, r);
    Assoc(L, l, v);
    Assoc(L + l + v, r, R);
  }

  /** Going left from a node above `x` leaves only values above `x` after the subtree. */
  lemma DescendLeft<T(!new)>(p: Pos<T>, x: T, lt: (T, T) -> bool)
    requires StrictWeakOrder(lt) && IsNode(p) && Sorted(Elements(Whole(p)), lt)
    requires lt(x, p.node.value)
    ensures forall e | e in RightOf(LeftChild(p).path) :: lt(x, e)
  {
    var v, B := p.node.value, Elements(p.node.right) + RightOf(p.path);
    NodeValues(p);
    SortedBelowFrom(LeftOf(p.path) + Elements(p.node.left), v, B, x, lt);
    ChildPositions(p);
    assert RightOf(LeftChild(p).path) == [v] + B;
  }

  /** Going right from a node below `x` leaves only values below `x` before the subtree. */
  lemma DescendRight<T(!new)>(p: Pos<T>, x: T, lt: (T, T) -> bool)
    requires StrictWeakOrder(lt) && IsNode(p) && Sorted(Elements(Whole(p)), lt)
    requires lt(p.node.value, x)
    ensures forall e | e in LeftOf(RightChild(p).path) :: lt(e, x)
  {
    var v, A := p.node.value, LeftOf(p.path) + Elements(p.node.left);
    NodeValues(p);
    SortedAboveUpTo(A, v, Elements(p.node.right) + RightOf(p.path), x, lt);
    ChildPositions(p);
  }

  /** The descent keeps every value before the current subtree below `x` and
      every value after it above `x`, so where it stops is either the node
      equivalent to `x` or the sentinel where `x` belongs. */
  lemma {:induction false} FindFromSpec<T(!new)>(n: Tree<T>, path: seq<Frame<T>>, x: T, lt: (T, T) -> bool)
    requires StrictWeakOrder(lt)
    requires Sorted(Elements(Plug(n, path)), lt)
    requires forall e | e in LeftOf(path) :: lt(e, x)
    requires forall e | e in RightOf(path) :: lt(x, e)
    ensures var p := FindFrom(n, path, x, lt);
      && Whole(p) == Plug(n, path)
      && (p.node.Node? ==> Equiv(lt, p.node.value, x))
      && (p.node.Nil? ==> (forall e | e in LeftOf(p.path) :: lt(e, x)) && (forall e | e in RightOf(p.path) :: lt(x, e)))
    decreases n
  {
    if n.Node? && !Equiv(lt, n.value, x) {
      var p := At(n, path);
      ChildPositions(p);
      if lt(x, n.value) {
        DescendLeft(p, x, lt);
        FindFromSpec(n.left, LeftChild(p).path, x, lt);
      } else {
        DescendRight(p, x, lt);
        FindFromSpec(n.right, RightChild(p).path, x, lt);
      }
    }
  }

  /** `findNode` on a sorted non-empty tree: a real node exactly when a
      value equivalent to `x` is stored, and then it holds that value;
      otherwise the sentinel whose in-order gap is where `x` belongs. */
  lemma FindSpec<T(!new)>(t: Tree<T>, x: T, lt: (T, T) -> bool)
    requires StrictWeakOrder(lt)
    requires t.Node? && Sorted(Elements(t), lt)
    ensures var p := Find(t, x, lt);
      && p.At? && Whole(p) == t
      && (IsNode(p) <==> Holds(Elements(t), x, lt))
      && (IsNode(p) ==> Index(p) < |Elements(t)| && Elements(t)[Index(p)] == p.node.value && Equiv(lt, p.node.value, x))
      && (p.node.Nil? ==>
            && Index(p) <= |Elements(t)|
            && (forall i | 0 <= i < Index(p) :: lt(Elements(t)[i], x))
            && (forall i | Index(p) <= i < |Elements(t)| :: lt(x, Elements(t)[i])))
  {
    FindFromSpec(t, [], x, lt);
    var p := Find(t, x, lt);
    if IsNode(p) {
      NodeIndex(p);
    } else {
      GapIndex(p);
      var s := Elements(t);
      var L, R := LeftOf(p.path), RightOf(p.path);
      forall i | 0 <= i < Index(p) ensures lt(s[i], x) { assert s[i] == L[i] && L[i] in L; }
      forall i | Index(p) <= i < |s| ensures lt(x, s[i]) { assert s[i] == R[i - |L|] && R[i - |L|] in R; }
      assert forall i | 0 <= i < |s| :: !Equiv(lt, s[i], x);
    }
  }

  // ---------------------------------------------------------------------
  // Uniqueness: a real node is determined by its tree and its rank, so
  // position equality is node identity.

  lemma TopFrame<T>(n: Tree<T>, q: seq<Frame<T>>)
    requires q != []
    ensures q == q[..|q| - 1] + [q[|q| - 1]]
    ensures Plug(n, q) == Attach(Plug(n, q[..|q| - 1]), q[|q| - 1])
    ensures LeftOf(q) == LeftOf([q[|q| - 1]]) + LeftOf(q[..|q| - 1])
  {
    var k := |q| - 1;
    assert q == q[..k] + [q[k]];
    PlugAppend(n, q[..k], [q[k]]);
    LeftOfAppend(q[..k], [q[k]]);
    assert [q[k]][1..] == [];
  }

  /** Where the topmost link of a non-empty path puts a real node's rank. */
  lemma TopSide<T>(n: Tree<T>, q: seq<Frame<T>>)
    requires n.Node? && q != []
    ensures var k, t := |q| - 1, Plug(n, q);
      && t.Node? && q == q[..k] + [q[k]]
      && (q[k].isLeft ==>
            && q[k] == Frame(true, t.color, t.value, t.right) && t.left == Plug(n, q[..k])
            && Index(At(n, q)) == Index(At(n, q[..k])) < |Elements(t.left)|)
      && (!q[k].isLeft ==>
            && q[k] == Frame(false, t.color, t.value, t.left) && t.right == Plug(n, q[..k])
            && Index(At(n, q)) == |Elements(t.left)| + 1 + Index(At(n, q[..k])))
  {
    var k := |q| - 1;
    TopFrame(n, q);
    NodeIndex(At(n, q[..k]));
  }

  lemma {:induction false} NodeUnique<T>(n1: Tree<T>, q1: seq<Frame<T>>, n2: Tree<T>, q2: seq<Frame<T>>)
    requires n1.Node? && n2.Node?
    requires Plug(n1, q1) == Plug(n2, q2)
    requires Index(At(n1, q1)) == Index(At(n2, q2))
    ensures n1 == n2 && q1 == q2
    decreases |q1| + |q2|
  {
    if q1 == [] && q2 == [] {
    } else if q1 == [] {
      TopSide(n2, q2);
      assert false;
    } else if q2 == [] {
      TopSide(n1, q1);
      assert false;
    } else {
      TopSide(n1, q1);
      TopSide(n2, q2);
      var k1, k2 := |q1| - 1, |q2| - 1;
      if q1[k1].isLeft != q2[k2].isLeft {
        assert false;
      }
      NodeUnique(n1, q1[..k1], n2, q2[..k2]);
    }
  }

  /** Two pointers into the same tree that are real nodes or `_end` are
      equal exactly when their ranks are. */
  lemma PositionUnique<T>(p1: Pos<T>, p2: Pos<T>)
    requires IsNode(p1) || p1.EndOf?
    requires IsNode(p2) || p2.EndOf?
    requires Whole(p1) == Whole(p2)
    ensures p1 == p2 <==> Index(p1) == Index(p2)
  {
    if Index(p1) == Index(p2) {
      if IsNode(p1) { NodeIndex(p1); }
      if IsNode(p2) { NodeIndex(p2); }
      if IsNode(p1) && IsNode(p2) {
        NodeUnique(p1.node, p1.path, p2.node, p2.path);
      }
    }
  }
}
