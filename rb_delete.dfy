/** `deleteNode` and `_deleteFixup` of `ft::RedBlackTree`
    (red_black_tree/RedBlackTree.hpp:290-404, 495-575), proved to keep the
    red-black properties and to remove exactly the value asked for. */
module RbDelete {
  import opened Order
  import opened RbTree

  /** Reference definition: a sorted sequence without the element equivalent to `x`, if any. */
  function SortedRemove<T>(s: seq<T>, x: T, lt: (T, T) -> bool): seq<T> {
    if s == [] then []
    else if lt(x, s[0]) then s
    else if lt(s[0], x) then [s[0]] + SortedRemove(s[1..], x, lt)
    else s[1..]
  }

  /** Nothing equivalent to `x` is stored: nothing changes. */
  lemma {:induction false} SortedRemoveAbsent<T>(s: seq<T>, x: T, lt: (T, T) -> bool)
    requires !Holds(s, x, lt)
    ensures SortedRemove(s, x, lt) == s
  {
    if s != [] && !lt(x, s[0]) {
      assert !Holds(s[1..], x, lt) by {
        forall j | 0 <= j < |s[1..]| ensures !Equiv(lt, s[1..][j], x) { assert s[1..][j] == s[j + 1]; }
      }
      SortedRemoveAbsent(s[1..], x, lt);
    }
  }

  /** The element at `i` is equivalent to `x`: exactly it is removed. */
  lemma {:induction false} SortedRemoveAt<T(!new)>(s: seq<T>, x: T, lt: (T, T) -> bool, i: nat)
    requires StrictWeakOrder(lt) && Sorted(s, lt)
    requires i < |s| && Equiv(lt, s[i], x)
    ensures SortedRemove(s, x, lt) == s[..i] + s[i + 1..]
  {
    if i > 0 {
      EquivSubstitutes(lt, s[i], x, s[0]);
      assert lt(s[0], s[i]);
      assert s[1..][i - 1] == s[i];
      SortedRemoveAt(s[1..], x, lt, i - 1);
      assert s[1..][..i - 1] == s[1..i] && s[1..][i..] == s[i + 1..];
      assert s[..i] == [s[0]] + s[1..i];
    }
  }

  /** Removing one element keeps a sequence sorted. */
  lemma SortedWithout<T>(s: seq<T>, i: nat, lt: (T, T) -> bool)
    requires Sorted(s, lt) && i < |s|
    ensures Sorted(s[..i] + s[i + 1..], lt)
  {
    var u := s[..i] + s[i + 1..];
    forall a, b | 0 <= a < b < |u| ensures lt(u[a], u[b]) {
      var a', b' := if a < i then a else a + 1, if b < i then b else b + 1;
      assert u[a] == s[a'] && u[b] == s[b'];
    }
  }

  // ---------------------------------------------------------------------

  /** `_getFarNephew` (red_black_tree/RedBlackTree.hpp:296-300): the sibling's child on the far side. */
  function Far<T>(f: Frame<T>): Tree<T>
    requires f.sibling.Node?
  {
    if f.isLeft then f.sibling.right else f.sibling.left
  }

  /** `_getNearNephew` (red_black_tree/RedBlackTree.hpp:302-306): the sibling's child on the near side. */
  function Near<T>(f: Frame<T>): Tree<T>
    requires f.sibling.Node?
  {
    if f.isLeft then f.sibling.left else f.sibling.right
  }

  /** Number of values outside the subtree at the bottom of `path`. */
  function Outside<T>(path: seq<Frame<T>>): nat {
    |LeftOf(path)| + |RightOf(path)|
  }

  function SiblingSize<T>(path: seq<Frame<T>>): nat {
    if path == [] then 0 else |Elements(path[0].sibling)|
  }

  /** The double-black case that rotates at the sibling: near nephew red, far nephew not red. */
  predicate NearRedCase<T>(path: seq<Frame<T>>) {
    path != [] && path[0].sibling.Node? && !IsRed(Far(path[0])) && IsRed(Near(path[0]))
  }

  lemma Push<T>(f: Frame<T>, path: seq<Frame<T>>)
    ensures ([f] + path)[0] == f && ([f] + path)[1..] == path
    ensures |LeftOf([f] + path)| + |RightOf([f] + path)| == |LeftOf(path)| + |RightOf(path)| + |Elements(f.sibling)| + 1
  {
    assert ([f] + path)[1..] == path;
  }

  /** The loop of `_deleteFixup` (red_black_tree/RedBlackTree.hpp:315-384)
      while `n` carries the extra black (colour Node::DBlack); the result is
      the whole tree. */
  function FixDoubleBlack<T>(n: Tree<T>, path: seq<Frame<T>>): Tree<T>
    decreases Outside(path), SiblingSize(path), if NearRedCase(path) then 1 else 0
  {
    if path == [] then Paint(n, Black)          // node == _root
    else
      var f := path[0];
      var s := f.sibling;
      // A double-black node always has a real sibling; the source would read a sentinel's NULL child.
      if s.Nil? then Plug(n, path)
      else if s.color == Red then
        // swap parent and sibling colours, rotate at the parent towards n;
        // n keeps the (now red) parent, which hangs under the old sibling
        var q := if f.isLeft then [Frame(true, Red, f.value, s.left), Frame(true, f.color, s.value, s.right)] + path[1..]
                 else [Frame(false, Red, f.value, s.right), Frame(false, f.color, s.value, s.left)] + path[1..];
        Push(f, path[1..]);
        Push(q[1], path[1..]);
        Push(q[0], q[1..]);
        FixDoubleBlack(n, q)
      else if !IsRed(Far(f)) && !IsRed(Near(f)) then
        // the sibling turns red and the extra black moves up to the parent
        var m := Attach(n, f.(color := Black, sibling := Paint(s, Red)));
        Push(f, path[1..]);
        if f.color == Red then Plug(m, path[1..]) else FixDoubleBlack(m, path[1..])
      else if !IsRed(Far(f)) then
        // swap sibling and near nephew colours, rotate at the sibling away from n
        var s2 := NearNephewRotated(f);
        RotationsKeepOrder(Node(Red, Paint(s.left, Black), s.value, s.right));
        RotationsKeepOrder(Node(Red, s.left, s.value, Paint(s.right, Black)));
        Push(f, path[1..]);
        Push(f.(sibling := s2), path[1..]);
        FixDoubleBlack(n, [f.(sibling := s2)] + path[1..])
      else
        // rotate at the parent towards n; the sibling takes the parent's colour,
        // parent and far nephew become black, and the extra black is gone
        Plug(FarNephewRotated(n, f), path[1..])
  }

  /** `_deleteFixup(n, removed)`: `n->color += removed`; a sum below Node::DBlack
      is just the new colour of `n`, otherwise the double-black loop runs. */
  function DeleteFixup<T>(n: Tree<T>, path: seq<Frame<T>>, removed: Color): Tree<T> {
    var sum := Weight(ColorOf(n)) + Weight(removed);
    if sum == 2 then FixDoubleBlack(n, path)
    else if sum == 1 then Plug(Paint(n, Black), path)
    else Plug(n, path)
  }

  /** The one-child splice: at the root `_updateRoot` paints the child black before the fixup. */
  function Splice<T>(child: Tree<T>, path: seq<Frame<T>>, removed: Color): Tree<T> {
    if path == [] then DeleteFixup(Paint(child, Black), [], removed) else DeleteFixup(child, path, removed)
  }

  /** The removal of the real node at `p`, once `findNode` has found it
      (red_black_tree/RedBlackTree.hpp:499-574); the result is the whole tree. */
  function RemoveAt<T>(p: Pos<T>): Tree<T>
    requires IsNode(p)
  {
    var node := p.node;
    if node.left.Nil? && node.right.Nil? then
      // the left sentinel takes the node's place; an emptied root makes the tree empty
      if p.path == [] then Nil else DeleteFixup(node.left, p.path, node.color)
    else if node.left.Nil? then Splice(node.right, p.path, node.color)
    else if node.right.Nil? then Splice(node.left, p.path, node.color)
    else
      // `_getPredecessor`: the rightmost node of the left subtree, reached by
      // the local path `q.path`; `_changeValue` puts its value in the node's
      // place, then its left child takes the predecessor's place
      var q := RightmostFrom(At(node.left, []));
      var pred := q.node;
      DeleteFixup(pred.left, q.path + [Frame(true, node.color, pred.value, node.right)] + p.path, pred.color)
  }

  /** `deleteNode` (red_black_tree/RedBlackTree.hpp:495-575): nothing when no
      equivalent value is found. */
  function DeleteTree<T>(t: Tree<T>, x: T, lt: (T, T) -> bool): Tree<T> {
    var p := Find(t, x, lt);
    if IsNode(p) then RemoveAt(p) else t
  }

  // ---------------------------------------------------------------------

  /** The double-black state: `n` is one black short of what its place needs. */
  ghost predicate DoubleBlack<T>(n: Tree<T>, path: seq<Frame<T>>) {
    RedBlack(n) && !IsRed(n) && CtxOK(path, BlackHeight(n) + 1)
  }

  lemma OneUp<T>(n: Tree<T>, path: seq<Frame<T>>, h: nat)
    requires path != [] && CtxOK(path, h)
    ensures Plug(n, path) == Plug(Attach(n, path[0]), path[1..])
    ensures CtxOK(path[1..], h + Weight(path[0].color))
    ensures path[0].color == Red ==> !IsRed(path[0].sibling) && |path| > 1 && path[1].color == Black
    ensures RedBlack(path[0].sibling) && BlackHeight(path[0].sibling) == h
  {
  }

  /** Red sibling: after the swap and rotation `n` is still double black, now under a red parent. */
  lemma RedSiblingCase<T>(n: Tree<T>, path: seq<Frame<T>>, q: seq<Frame<T>>)
    requires DoubleBlack(n, path) && path != [] && IsRed(path[0].sibling)
    requires var f, s := path[0], path[0].sibling;
      q == if f.isLeft then [Frame(true, Red, f.value, s.left), Frame(true, f.color, s.value, s.right)] + path[1..]
           else [Frame(false, Red, f.value, s.right), Frame(false, f.color, s.value, s.left)] + path[1..]
    ensures DoubleBlack(n, q)
    ensures Elements(Plug(n, q)) == Elements(Plug(n, path))
    ensures var f := path[0];
      Plug(n, q) == Plug(if f.isLeft then RotateLeft(Attach(n, f.(color := Red, sibling := f.sibling.(color := f.color))))
                         else RotateRight(Attach(n, f.(color := Red, sibling := f.sibling.(color := f.color)))), path[1..])
  {
    var h := BlackHeight(n) + 1;
    OneUp(n, path, h);
    var f, s, rest := path[0], path[0].sibling, path[1..];
    var g := f.(color := Red, sibling := s.(color := f.color));
    var top := if f.isLeft then RotateLeft(Attach(n, g)) else RotateRight(Attach(n, g));
    assert q[1..][0] == q[1] && q[1..][1..] == rest;
    assert Attach(Attach(n, q[0]), q[1]) == top;
    assert Plug(n, q) == Plug(top, rest);
    RotationsKeepOrder(Attach(n, g));
    PlugSameElements(top, Attach(n, f), rest);
    assert CtxOK(q[1..], h);
  }

  /** Black sibling with black nephews: the sibling turns red and the parent absorbs the extra black. */
  lemma BlackNephewsCase<T>(n: Tree<T>, path: seq<Frame<T>>)
    requires DoubleBlack(n, path) && path != []
    requires path[0].sibling.Node? && path[0].sibling.color == Black
    requires !IsRed(Far(path[0])) && !IsRed(Near(path[0]))
    ensures var f := path[0];
      var m := Attach(n, f.(color := Black, sibling := Paint(f.sibling, Red)));
      && Elements(m) == Elements(Attach(n, f))
      && (f.color == Red ==> Fits(m, path[1..]))
      && (f.color == Black ==> DoubleBlack(m, path[1..]))
  {
    OneUp(n, path, BlackHeight(n) + 1);
  }

  /** The sibling after the swap and rotation of the near-nephew case. */
  function NearNephewRotated<T>(f: Frame<T>): Tree<T>
    requires f.sibling.Node?
  {
    var s := f.sibling;
    if f.isLeft then RotateRight(Node(Red, Paint(s.left, Black), s.value, s.right))
    else RotateLeft(Node(Red, s.left, s.value, Paint(s.right, Black)))
  }

  lemma NearNephewSibling<T>(f: Frame<T>, h: nat)
    requires f.sibling.Node? && f.sibling.color == Black && RedBlack(f.sibling) && BlackHeight(f.sibling) == h
    requires !IsRed(Far(f)) && IsRed(Near(f))
    ensures var s2 := NearNephewRotated(f);
      RedBlack(s2) && BlackHeight(s2) == h && !IsRed(s2) && Elements(s2) == Elements(f.sibling)
  {
    var s := f.sibling;
    RotationsKeepOrder(Node(Red, Paint(s.left, Black), s.value, s.right));
    RotationsKeepOrder(Node(Red, s.left, s.value, Paint(s.right, Black)));
    if f.isLeft {
      var a, b := s.left.left, s.left.right;
      assert NearNephewRotated(f) == Node(Black, a, s.left.value, Node(Red, b, s.value, s.right));
      assert BlackHeight(a) == BlackHeight(b) == BlackHeight(s.right) == h - 1;
    } else {
      var a, b := s.right.left, s.right.right;
      assert NearNephewRotated(f) == Node(Black, Node(Red, s.left, s.value, a), s.right.value, b);
      assert BlackHeight(a) == BlackHeight(b) == BlackHeight(s.left) == h - 1;
    }
  }

  /** Black sibling, near nephew red, far nephew not red: after the swap and
      rotation at the sibling, `n` is still double black with the same values around it. */
  lemma NearNephewCase<T>(n: Tree<T>, path: seq<Frame<T>>)
    requires DoubleBlack(n, path) && path != []
    requires path[0].sibling.Node? && path[0].sibling.color == Black
    requires !IsRed(Far(path[0])) && IsRed(Near(path[0]))
    ensures var q := [path[0].(sibling := NearNephewRotated(path[0]))] + path[1..];
      DoubleBlack(n, q) && Elements(Plug(n, q)) == Elements(Plug(n, path))
  {
    var h := BlackHeight(n) + 1;
    OneUp(n, path, h);
    var f := path[0];
    NearNephewSibling(f, h);
    var q := [f.(sibling := NearNephewRotated(f))] + path[1..];
    assert q[0] == f.(sibling := NearNephewRotated(f)) && q[1..] == path[1..];
    PlugSameElements(Attach(n, q[0]), Attach(n, f), path[1..]);
  }

  /** The subtree that replaces the parent in the far-nephew case. */
  function FarNephewRotated<T>(n: Tree<T>, f: Frame<T>): Tree<T>
    requires f.sibling.Node?
  {
    var s := f.sibling;
    if f.isLeft then Node(f.color, Node(Black, n, f.value, s.left), s.value, Paint(s.right, Black))
    else Node(f.color, Paint(s.left, Black), s.value, Node(Black, s.right, f.value, n))
  }

  lemma FarNephewLeft<T>(n: Tree<T>, f: Frame<T>, h: nat)
    requires RedBlack(n) && !IsRed(n) && BlackHeight(n) + 1 == h
    requires f.isLeft && f.sibling.Node? && f.sibling.color == Black
    requires RedBlack(f.sibling) && BlackHeight(f.sibling) == h && IsRed(f.sibling.right)
    ensures var m := FarNephewRotated(n, f);
      RedBlack(m.left) && RedBlack(m.right) && !IsRed(m.left) && !IsRed(m.right)
      && BlackHeight(m.left) == BlackHeight(m.right) == h && Elements(m) == Elements(Attach(n, f))
  {
    var s := f.sibling;
    var sl, far := s.left, s.right;
    assert BlackHeight(sl) == BlackHeight(far) == h - 1;
    assert BlackHeight(far.left) == BlackHeight(far.right) == h - 1;
    var left, right := Node(Black, n, f.value, sl), Paint(far, Black);
    assert FarNephewRotated(n, f) == Node(f.color, left, s.value, right);
    assert RedBlack(left) && BlackHeight(left) == h;
    assert RedBlack(right) && BlackHeight(right) == h;
    assert Elements(left) + [s.value] + Elements(right) == Elements(n) + [f.value] + (Elements(sl) + [s.value] + Elements(far));
  }

  lemma FarNephewRight<T>(n: Tree<T>, f: Frame<T>, h: nat)
    requires RedBlack(n) && !IsRed(n) && BlackHeight(n) + 1 == h
    requires !f.isLeft && f.sibling.Node? && f.sibling.color == Black
    requires RedBlack(f.sibling) && BlackHeight(f.sibling) == h && IsRed(f.sibling.left)
    ensures var m := FarNephewRotated(n, f);
      RedBlack(m.left) && RedBlack(m.right) && !IsRed(m.left) && !IsRed(m.right)
      && BlackHeight(m.left) == BlackHeight(m.right) == h && Elements(m) == Elements(Attach(n, f))
  {
    var s := f.sibling;
    assert BlackHeight(s.left) == BlackHeight(s.right) == h - 1;
    assert BlackHeight(s.left.left) == BlackHeight(s.left.right) == h - 1;
    assert Elements(FarNephewRotated(n, f)) == Elements(s.left) + [s.value] + Elements(s.right) + [f.value] + Elements(n);
  }

  /** Black sibling, far nephew red: the rotation at the parent ends the fixup. */
  lemma FarNephewCase<T>(n: Tree<T>, path: seq<Frame<T>>)
    requires DoubleBlack(n, path) && path != []
    requires path[0].sibling.Node? && path[0].sibling.color == Black
    requires IsRed(Far(path[0]))
    ensures var m := FarNephewRotated(n, path[0]);
      Fits(m, path[1..]) && Elements(m) == Elements(Attach(n, path[0]))
  {
    var h := BlackHeight(n) + 1;
    OneUp(n, path, h);
    var f := path[0];
    if f.isLeft {
      FarNephewLeft(n, f, h);
    } else {
      FarNephewRight(n, f, h);
    }
    var m := FarNephewRotated(n, f);
    assert RedBlack(m) && BlackHeight(m) == h + Weight(f.color);
  }

  /** The double-black loop ends in a valid tree with the same values in the same order. */
  lemma {:induction false} FixDoubleBlackSpec<T>(n: Tree<T>, path: seq<Frame<T>>)
    requires DoubleBlack(n, path)
    ensures IsRedBlackTree(FixDoubleBlack(n, path))
    ensures Elements(FixDoubleBlack(n, path)) == Elements(Plug(n, path))
    decreases Outside(path), SiblingSize(path), if NearRedCase(path) then 1 else 0, 1
  {
    if path != [] {
      var f, s := path[0], path[0].sibling;
      OneUp(n, path, BlackHeight(n) + 1);
      if s.Nil? {
        assert false;
      } else if s.color == Red {
        RedSiblingStep(n, path);
      } else if !IsRed(Far(f)) && !IsRed(Near(f)) {
        BlackNephewsCase(n, path);
        var m := Attach(n, f.(color := Black, sibling := Paint(s, Red)));
        PlugSameElements(m, Attach(n, f), path[1..]);
        if f.color == Red {
          PlugValid(m, path[1..]);
        } else {
          Push(f, path[1..]);
          FixDoubleBlackSpec(m, path[1..]);
        }
      } else if !IsRed(Far(f)) {
        NearNephewStep(n, path);
      } else {
        FarNephewCase(n, path);
        var m := FarNephewRotated(n, f);
        PlugValid(m, path[1..]);
        PlugSameElements(m, Attach(n, f), path[1..]);
      }
    }
  }

  /** The red-sibling pass of the loop (red_black_tree/RedBlackTree.hpp:330-344)
      leads to a loop that ends in a valid tree with the same values. */
  lemma {:induction false} RedSiblingStep<T>(n: Tree<T>, path: seq<Frame<T>>)
    requires DoubleBlack(n, path) && path != [] && IsRed(path[0].sibling)
    ensures IsRedBlackTree(FixDoubleBlack(n, path))
    ensures Elements(FixDoubleBlack(n, path)) == Elements(Plug(n, path))
    decreases Outside(path), SiblingSize(path), if NearRedCase(path) then 1 else 0, 0
  {
    var f, s := path[0], path[0].sibling;
    var q := if f.isLeft then [Frame(true, Red, f.value, s.left), Frame(true, f.color, s.value, s.right)] + path[1..]
             else [Frame(false, Red, f.value, s.right), Frame(false, f.color, s.value, s.left)] + path[1..];
    RedSiblingCase(n, path, q);
    Push(f, path[1..]);
    Push(q[1], path[1..]);
    Push(q[0], q[1..]);
    FixDoubleBlackSpec(n, q);
  }

  /** The near-nephew pass of the loop (red_black_tree/RedBlackTree.hpp:355-363)
      leads to a loop that ends in a valid tree with the same values. */
  lemma {:induction false} NearNephewStep<T>(n: Tree<T>, path: seq<Frame<T>>)
    requires DoubleBlack(n, path) && path != []
    requires path[0].sibling.Node? && path[0].sibling.color == Black
    requires !IsRed(Far(path[0])) && IsRed(Near(path[0]))
    ensures IsRedBlackTree(FixDoubleBlack(n, path))
    ensures Elements(FixDoubleBlack(n, path)) == Elements(Plug(n, path))
    decreases Outside(path), SiblingSize(path), if NearRedCase(path) then 1 else 0, 0
  {
    var f, s := path[0], path[0].sibling;
    NearNephewCase(n, path);
    var s2 := NearNephewRotated(f);
    RotationsKeepOrder(Node(Red, Paint(s.left, Black), s.value, s.right));
    RotationsKeepOrder(Node(Red, s.left, s.value, Paint(s.right, Black)));
    Push(f, path[1..]);
    Push(f.(sibling := s2), path[1..]);
    FixDoubleBlackSpec(n, [f.(sibling := s2)] + path[1..]);
  }

  /** `_deleteFixup` after a splice: `n` replaced a node of colour `removed`. */
  lemma DeleteFixupSpec<T>(n: Tree<T>, path: seq<Frame<T>>, removed: Color)
    requires RedBlack(n) && CtxOK(path, BlackHeight(n) + Weight(removed))
    requires removed == Red ==> !IsRed(n) && path != [] && path[0].color == Black
    ensures IsRedBlackTree(DeleteFixup(n, path, removed))
    ensures Elements(DeleteFixup(n, path, removed)) == Elements(Plug(n, path))
  {
    var sum := Weight(ColorOf(n)) + Weight(removed);
    if sum == 2 {
      assert DoubleBlack(n, path);
      FixDoubleBlackSpec(n, path);
    } else if sum == 1 {
      var m := Paint(n, Black);
      assert BlackHeight(m) == BlackHeight(n) + Weight(removed);
      assert Fits(m, path);
      PlugValid(m, path);
      PlugSameElements(m, n, path);
    }
  }

  // ---------------------------------------------------------------------

  /** `r` is a valid tree holding the values of the tree around `p` except
      the one at `p`. */
  ghost predicate RemovesNode<T>(p: Pos<T>, r: Tree<T>) {
    var s, i := Elements(Whole(p)), Index(p);
    i < |s| && IsRedBlackTree(r) && Elements(r) == s[..i] + s[i + 1..]
  }

  /** The splice of a node whose children are both sentinels. */
  lemma RemoveLeaf<T>(p: Pos<T>)
    requires IsNode(p) && IsRedBlackTree(Whole(p))
    requires p.node.left.Nil? && p.node.right.Nil?
    ensures RemovesNode(p, RemoveAt(p))
  {
    PlugDecompose(p.node, p.path);
    NodeSplit(p);
    var L, R := LeftOf(p.path), RightOf(p.path);
    assert L + Elements(p.node.left) == L && Elements(p.node.right) + R == R;
    if p.path != [] {
      DeleteFixupSpec(Nil, p.path, p.node.color);
      ElementsPlug(Nil, p.path);
    }
  }

  /** Splicing in a red child of black height 0 in place of a black node
      (red_black_tree/RedBlackTree.hpp:524-558): the child absorbs the
      removed black, and the values are those of the child in its new place. */
  lemma SpliceRedChild<T>(child: Tree<T>, path: seq<Frame<T>>)
    requires IsRed(child) && RedBlack(child) && BlackHeight(child) == 0
    requires CtxOK(path, 1)
    ensures IsRedBlackTree(Splice(child, path, Black))
    ensures Elements(Splice(child, path, Black)) == Elements(Plug(child, path))
  {
    var m := Paint(child, Black);
    assert RedBlack(m) && BlackHeight(m) == 1 && Elements(m) == Elements(child);
    if path == [] {
      DeleteFixupSpec(m, [], Black);
    } else {
      DeleteFixupSpec(child, path, Black);
    }
  }

  /** The splice of a node with exactly one real child: that child is red and the node black. */
  lemma RemoveOneChild<T>(p: Pos<T>, child: Tree<T>)
    requires IsNode(p) && IsRedBlackTree(Whole(p))
    requires (p.node.left.Nil? && p.node.right == child) || (p.node.right.Nil? && p.node.left == child)
    requires child.Node?
    ensures RemovesNode(p, RemoveAt(p))
  {
    PlugDecompose(p.node, p.path);
    assert IsRed(child) && RedBlack(child) && BlackHeight(child) == 0;
    assert p.node.color == Black && BlackHeight(p.node) == 1;
    assert RemoveAt(p) == Splice(child, p.path, Black);
    SpliceRedChild(child, p.path);
    ElementsPlug(child, p.path);
    NodeSplit(p);
    var s, i := Elements(Whole(p)), Index(p);
    var L, c, R := LeftOf(p.path), Elements(child), RightOf(p.path);
    assert s[..i] + s[i + 1..] == L + c + R by {
      if p.node.left.Nil? {
        assert s[..i] == L;
      } else {
        assert s[i + 1..] == R;
      }
      Assoc(L, c, R);
    }
  }

  /** `_getPredecessor` from a node with two real children: the rightmost
      node of the left subtree, holding the last value of that subtree. */
  lemma PredecessorValues<T>(node: Tree<T>)
    requires node.Node? && node.left.Node?
    ensures var q := RightmostFrom(At(node.left, []));
      && q.node.right.Nil? && Plug(q.node, q.path) == node.left
      && RightOf(q.path) == []
      && Elements(node.left) == LeftOf(q.path) + Elements(q.node.left) + [q.node.value]
  {
    var q := RightmostFrom(At(node.left, []));
    RightmostFromSpec(At(node.left, []));
    ElementsPlug(q.node, q.path);
    assert Elements(q.node) == Elements(q.node.left) + [q.node.value];
    assert |RightOf(q.path)| == 0;
  }

  /** The tree with the predecessor's value written into the node (`_changeValue`)
      is still valid, and the predecessor's place fits its left child. */
  lemma PredecessorPlace<T>(p: Pos<T>)
    requires IsNode(p) && IsRedBlackTree(Whole(p))
    requires p.node.left.Node? && p.node.right.Node?
    ensures var node, q := p.node, RightmostFrom(At(p.node.left, []));
      var path := q.path + [Frame(true, node.color, q.node.value, node.right)] + p.path;
      && RedBlack(q.node.left) && CtxOK(path, BlackHeight(q.node.left) + Weight(q.node.color))
      && (q.node.color == Red ==> !IsRed(q.node.left) && path != [] && path[0].color == Black)
  {
    var node, q := p.node, RightmostFrom(At(p.node.left, []));
    PredecessorValues(node);
    PlugDecompose(node, p.path);
    var node' := Node(node.color, node.left, q.node.value, node.right);
    assert Fits(node', p.path);
    PlugValid(node', p.path);
    var f := Frame(true, node.color, q.node.value, node.right);
    var path := q.path + [f] + p.path;
    assert path == q.path + ([f] + p.path);
    PlugAppend(q.node, q.path, [f] + p.path);
    assert ([f] + p.path)[0] == f && ([f] + p.path)[1..] == p.path;
    assert Plug(node.left, [f] + p.path) == Plug(node', p.path);
    PlugDecompose(q.node, path);
  }

  /** The values around the predecessor's left child, once the predecessor's
      value sits in the removed node's place. */
  lemma PredecessorSpliceValues<T>(p: Pos<T>)
    requires IsNode(p) && p.node.left.Node?
    ensures var node, q := p.node, RightmostFrom(At(p.node.left, []));
      var path := q.path + [Frame(true, node.color, q.node.value, node.right)] + p.path;
      Elements(Plug(q.node.left, path)) ==
        LeftOf(p.path) + Elements(node.left) + Elements(node.right) + RightOf(p.path)
  {
    var node, q := p.node, RightmostFrom(At(p.node.left, []));
    var pred := q.node;
    PredecessorValues(node);
    var f := Frame(true, node.color, pred.value, node.right);
    var up := [f] + p.path;
    var path := q.path + [f] + p.path;
    assert path == q.path + up;
    assert up[0] == f && up[1..] == p.path;
    assert LeftOf(up) == LeftOf(p.path);
    assert RightOf(up) == [pred.value] + Elements(node.right) + RightOf(p.path);
    LeftOfAppend(q.path, up);
    ElementsPlug(pred.left, path);
  }

  /** The values of the tree around a node, split at the node's rank. */
  lemma NodeSplit<T>(p: Pos<T>)
    requires IsNode(p)
    ensures var s, i := Elements(Whole(p)), Index(p);
      && i < |s|
      && s[..i] == LeftOf(p.path) + Elements(p.node.left)
      && s[i + 1..] == Elements(p.node.right) + RightOf(p.path)
  {
    NodeValues(p);
  }

  /** The two-children case: the predecessor's value replaces the node's, and
      the predecessor is spliced out. */
  lemma RemoveTwoChildren<T>(p: Pos<T>)
    requires IsNode(p) && IsRedBlackTree(Whole(p))
    requires p.node.left.Node? && p.node.right.Node?
    ensures IsRedBlackTree(RemoveAt(p))
    ensures Elements(RemoveAt(p)) ==
      LeftOf(p.path) + Elements(p.node.left) + Elements(p.node.right) + RightOf(p.path)
  {
    var node, q := p.node, RightmostFrom(At(p.node.left, []));
    var path := q.path + [Frame(true, node.color, q.node.value, node.right)] + p.path;
    assert RemoveAt(p) == DeleteFixup(q.node.left, path, q.node.color);
    PredecessorPlace(p);
    DeleteFixupSpec(q.node.left, path, q.node.color);
    PredecessorSpliceValues(p);
  }

  /** Removing a found node keeps the tree valid and removes exactly its value. */
  lemma RemoveAtSpec<T>(p: Pos<T>)
    requires IsNode(p) && IsRedBlackTree(Whole(p))
    ensures var s, i := Elements(Whole(p)), Index(p);
      i < |s| && IsRedBlackTree(RemoveAt(p)) && Elements(RemoveAt(p)) == s[..i] + s[i + 1..]
  {
    var node := p.node;
    if node.left.Nil? && node.right.Nil? {
      RemoveLeaf(p);
    } else if node.left.Nil? {
      RemoveOneChild(p, node.right);
    } else if node.right.Nil? {
      RemoveOneChild(p, node.left);
    } else {
      RemoveTwoChildren(p);
      NodeSplit(p);
    }
  }

  /** Deletion keeps a valid sorted tree valid and sorted, and its values are
      the reference removal: unchanged when nothing equivalent is stored,
      otherwise exactly one value fewer. */
  lemma DeleteTreeSpec<T(!new)>(t: Tree<T>, x: T, lt: (T, T) -> bool)
    requires StrictWeakOrder(lt) && IsRedBlackTree(t) && Sorted(Elements(t), lt)
    ensures IsRedBlackTree(DeleteTree(t, x, lt))
    ensures Elements(DeleteTree(t, x, lt)) == SortedRemove(Elements(t), x, lt)
    ensures Sorted(Elements(DeleteTree(t, x, lt)), lt)
    ensures !Holds(Elements(t), x, lt) ==> DeleteTree(t, x, lt) == t
    ensures |Elements(DeleteTree(t, x, lt))| == |Elements(t)| - (if Holds(Elements(t), x, lt) then 1 else 0)
  {
    var s := Elements(t);
    if t.Nil? {
      SortedRemoveAbsent(s, x, lt);
    } else {
      FindSpec(t, x, lt);
      var p := Find(t, x, lt);
      if IsNode(p) {
        RemoveAtSpec(p);
        SortedRemoveAt(s, x, lt, Index(p));
        SortedWithout(s, Index(p), lt);
      } else {
        SortedRemoveAbsent(s, x, lt);
      }
    }
  }
}
