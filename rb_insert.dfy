/** `insertNode` and `_insertFixup` of `ft::RedBlackTree`
    (red_black_tree/RedBlackTree.hpp:207-267, 457-477), proved to keep the
    red-black properties and to add exactly the new value. */
module RbInsert {
  import opened Order
  import opened RbTree

  /** Reference definition: a sorted sequence with `x` added at its place,
      unless a value equivalent to `x` is already there. */
  function SortedInsert<T>(s: seq<T>, x: T, lt: (T, T) -> bool): seq<T> {
    if s == [] then [x]
    else if lt(x, s[0]) then [x] + s
    else if lt(s[0], x) then [s[0]] + SortedInsert(s[1..], x, lt)
    else s
  }

  /** Into a gap: everything before index `i` is below `x`, everything from `i` on is above. */
  lemma {:induction false} SortedInsertAt<T(!new)>(s: seq<T>, x: T, lt: (T, T) -> bool, i: nat)
    requires StrictWeakOrder(lt)
    requires i <= |s|
    requires forall j | 0 <= j < i :: lt(s[j], x)
    requires forall j | i <= j < |s| :: lt(x, s[j])
    ensures SortedInsert(s, x, lt) == s[..i] + [x] + s[i..]
  {
    if i > 0 {
      assert lt(s[0], x);
      SortedInsertAt(s[1..], x, lt, i - 1);
      assert s[1..][..i - 1] == s[1..i] && s[1..][i - 1..] == s[i..];
      assert s[..i] == [s[0]] + s[1..i];
    }
  }

  /** A value equivalent to `x` is already present: nothing changes. */
  lemma {:induction false} SortedInsertPresent<T(!new)>(s: seq<T>, x: T, lt: (T, T) -> bool)
    requires StrictWeakOrder(lt) && Sorted(s, lt) && Holds(s, x, lt)
    ensures SortedInsert(s, x, lt) == s
  {
    var i :| 0 <= i < |s| && Equiv(lt, s[i], x);
    if lt(s[0], x) && !lt(x, s[0]) {
      assert i > 0;
      assert s[1..][i - 1] == s[i];
      SortedInsertPresent(s[1..], x, lt);
    }
  }

  /** A new value inserted at its gap keeps the sequence sorted. */
  lemma SortedGap<T(!new)>(s: seq<T>, x: T, lt: (T, T) -> bool, i: nat)
    requires StrictWeakOrder(lt) && Sorted(s, lt)
    requires i <= |s|
    requires forall j | 0 <= j < i :: lt(s[j], x)
    requires forall j | i <= j < |s| :: lt(x, s[j])
    ensures Sorted(s[..i] + [x] + s[i..], lt)
  {
    forall j | 0 <= j < |s[i..]| ensures lt(x, s[i..][j]) { assert s[i..][j] == s[i + j]; }
    SortedJoin(s[..i], x, s[i..], lt);
  }

  /** `[a] + r` holds a value equivalent to `y` exactly when `a` is, or `r` holds one. */
  lemma HoldsCons<T>(a: T, r: seq<T>, y: T, lt: (T, T) -> bool)
    ensures Holds([a] + r, y, lt) <==> Equiv(lt, a, y) || Holds(r, y, lt)
  {
    var u := [a] + r;
    assert u[0] == a;
    if Holds(r, y, lt) {
      var j :| 0 <= j < |r| && Equiv(lt, r[j], y);
      assert u[j + 1] == r[j];
    }
    if Holds(u, y, lt) && !Equiv(lt, a, y) {
      var j :| 0 <= j < |u| && Equiv(lt, u[j], y);
      assert r[j - 1] == u[j];
    }
  }

  /** After inserting `x`, the values held are those held before and `x`. */
  lemma {:induction false} SortedInsertHolds<T(!new)>(s: seq<T>, x: T, y: T, lt: (T, T) -> bool)
    requires StrictWeakOrder(lt)
    ensures Holds(SortedInsert(s, x, lt), y, lt) <==> Holds(s, y, lt) || Equiv(lt, x, y)
  {
    if s == [] {
      HoldsCons(x, [], y, lt);
    } else if lt(x, s[0]) {
      HoldsCons(x, s, y, lt);
    } else if lt(s[0], x) {
      SortedInsertHolds(s[1..], x, y, lt);
      HoldsCons(s[0], SortedInsert(s[1..], x, lt), y, lt);
      HoldsCons(s[0], s[1..], y, lt);
      assert [s[0]] + s[1..] == s;
    } else {
      HoldsCons(s[0], s[1..], y, lt);
      assert [s[0]] + s[1..] == s;
      if Equiv(lt, x, y) {
        EquivSubstitutes(lt, x, y, s[0]);
      }
    }
  }

  /** Every value of the result comes from `s` or is `x`. */
  lemma {:induction false} SortedInsertFrom<T>(s: seq<T>, x: T, lt: (T, T) -> bool)
    ensures forall e | e in SortedInsert(s, x, lt) :: e in s || e == x
  {
    if s != [] && !lt(x, s[0]) && lt(s[0], x) {
      SortedInsertFrom(s[1..], x, lt);
      assert forall e | e in s[1..] :: e in s;
    }
  }

  /** Insertion keeps a sequence sorted. */
  lemma {:induction false} SortedInsertSorted<T(!new)>(s: seq<T>, x: T, lt: (T, T) -> bool)
    requires StrictWeakOrder(lt) && Sorted(s, lt)
    ensures Sorted(SortedInsert(s, x, lt), lt)
  {
    if s == [] {
    } else if lt(x, s[0]) {
      assert forall j | 0 <= j < |s| :: lt(x, s[j]) by {
        forall j | 0 < j < |s| ensures lt(x, s[j]) { assert lt(s[0], s[j]); }
      }
      SortedJoin([], x, s, lt);
      assert [] + [x] + s == [x] + s;
    } else if lt(s[0], x) {
      var r := SortedInsert(s[1..], x, lt);
      assert Sorted(s[1..], lt) by {
        forall i, j | 0 <= i < j < |s[1..]| ensures lt(s[1..][i], s[1..][j]) {
          assert s[1..][i] == s[i + 1] && s[1..][j] == s[j + 1];
        }
      }
      SortedInsertSorted(s[1..], x, lt);
      SortedInsertFrom(s[1..], x, lt);
      forall j | 0 <= j < |r| ensures lt(s[0], r[j]) {
        assert r[j] in r;
        if r[j] != x {
          var k :| 0 <= k < |s[1..]| && s[1..][k] == r[j];
          assert s[1..][k] == s[k + 1];
        }
      }
      SortedJoin([], s[0], r, lt);
      assert [] + [s[0]] + r == [s[0]] + r;
    }
  }

  /** A value above everything stored goes at the back. */
  lemma SortedInsertLast<T(!new)>(s: seq<T>, x: T, lt: (T, T) -> bool)
    requires StrictWeakOrder(lt)
    requires forall j | 0 <= j < |s| :: lt(s[j], x)
    ensures SortedInsert(s, x, lt) == s + [x]
  {
    SortedInsertAt(s, x, lt, |s|);
    assert s[..|s|] == s && s[|s|..] == [];
  }

  /** Copying a sorted sequence in order: the next value goes at the back
      of the prefix copied so far (the copy loops of set/set.hpp:47-51 and
      map/map.hpp:63-67). */
  lemma SortedInsertNext<T(!new)>(s: seq<T>, k: nat, lt: (T, T) -> bool)
    requires StrictWeakOrder(lt) && Sorted(s, lt) && k < |s|
    ensures SortedInsert(s[..k], s[k], lt) == s[..k + 1]
  {
    assert s[..k + 1] == s[..k] + [s[k]];
    SortedInsertLast(s[..k], s[k], lt);
  }

  /** Inserting the values of `xs` one after the other, first to last:
      the range insertions of set/set.hpp:123-128 and map/map.hpp:53-61. */
  function InsertAll<T>(s: seq<T>, xs: seq<T>, lt: (T, T) -> bool): seq<T>
    decreases |xs|
  {
    if xs == [] then s
    else SortedInsert(InsertAll(s, xs[..|xs| - 1], lt), xs[|xs| - 1], lt)
  }

  /** After a range insertion, the values held are those held before and those of the range. */
  lemma {:induction false} InsertAllHolds<T(!new)>(s: seq<T>, xs: seq<T>, y: T, lt: (T, T) -> bool)
    requires StrictWeakOrder(lt)
    ensures Holds(InsertAll(s, xs, lt), y, lt) <==> Holds(s, y, lt) || Holds(xs, y, lt)
    decreases |xs|
  {
    if xs != [] {
      var n := |xs| - 1;
      InsertAllHolds(s, xs[..n], y, lt);
      SortedInsertHolds(InsertAll(s, xs[..n], lt), xs[n], y, lt);
      assert xs == xs[..n] + [xs[n]];
      if Holds(xs, y, lt) && !Equiv(lt, xs[n], y) {
        var j :| 0 <= j < |xs| && Equiv(lt, xs[j], y);
        assert xs[..n][j] == xs[j];
      }
      if Holds(xs[..n], y, lt) {
        var j :| 0 <= j < n && Equiv(lt, xs[..n][j], y);
        assert xs[j] == xs[..n][j];
      }
    }
  }

  /** A range insertion keeps a sequence sorted. */
  lemma {:induction false} InsertAllSorted<T(!new)>(s: seq<T>, xs: seq<T>, lt: (T, T) -> bool)
    requires StrictWeakOrder(lt) && Sorted(s, lt)
    ensures Sorted(InsertAll(s, xs, lt), lt)
    decreases |xs|
  {
    if xs != [] {
      InsertAllSorted(s, xs[..|xs| - 1], lt);
      SortedInsertSorted(InsertAll(s, xs[..|xs| - 1], lt), xs[|xs| - 1], lt);
    }
  }

  /** A later value whose equivalent is already held is ignored. */
  lemma InsertAllSkipsPresent<T(!new)>(s: seq<T>, xs: seq<T>, x: T, lt: (T, T) -> bool)
    requires StrictWeakOrder(lt) && Sorted(s, lt)
    requires Holds(InsertAll(s, xs, lt), x, lt)
    ensures InsertAll(s, xs + [x], lt) == InsertAll(s, xs, lt)
  {
    assert (xs + [x])[..|xs|] == xs;
    InsertAllSorted(s, xs, lt);
    SortedInsertPresent(InsertAll(s, xs, lt), x, lt);
  }

  /** Values that are all held already change nothing. */
  lemma {:induction false} InsertAllPresent<T(!new)>(u: seq<T>, ys: seq<T>, lt: (T, T) -> bool)
    requires StrictWeakOrder(lt) && Sorted(u, lt)
    requires forall i | 0 <= i < |ys| :: Holds(u, ys[i], lt)
    ensures InsertAll(u, ys, lt) == u
    decreases |ys|
  {
    if ys != [] {
      var n := |ys| - 1;
      InsertAllPresent(u, ys[..n], lt);
      SortedInsertPresent(u, ys[n], lt);
    }
  }

  /** Inserting the same range again changes nothing: every value ends up
      stored once (common/set_test.cpp:19-25 inserts 0..999 three times). */
  lemma InsertAllTwice<T(!new)>(s: seq<T>, xs: seq<T>, lt: (T, T) -> bool)
    requires StrictWeakOrder(lt) && Sorted(s, lt)
    ensures InsertAll(InsertAll(s, xs, lt), xs, lt) == InsertAll(s, xs, lt)
  {
    var u := InsertAll(s, xs, lt);
    InsertAllSorted(s, xs, lt);
    forall i | 0 <= i < |xs| ensures Holds(u, xs[i], lt) {
      assert Equiv(lt, xs[i], xs[i]);
      InsertAllHolds(s, xs, xs[i], lt);
    }
    InsertAllPresent(u, xs, lt);
  }

  // ---------------------------------------------------------------------

  /** `_insertFixup` (red_black_tree/RedBlackTree.hpp:207-267) applied to the
      node `n` hanging at the bottom of `path`; the result is the whole tree. */
  function InsertFixup<T>(n: Tree<T>, path: seq<Frame<T>>): Tree<T>
    decreases |path|
  {
    if !IsRed(n) then Plug(n, path)
    else if path == [] then Paint(n, Black)
    else if path[0].color == Black then Plug(n, path)
    // A red parent is never the root; `_getUncel` would read `_end`'s missing right link.
    else if |path| == 1 then Plug(n, path)
    else
      var p, g := path[0], path[1];
      if IsRed(g.sibling) then
        // red uncle: parent and uncle black, grandparent red, continue from the grandparent
        InsertFixup(Attach(Attach(n, p.(color := Black)), g.(color := Red, sibling := Paint(g.sibling, Black))), path[2..])
      else if p.isLeft && g.isLeft then
        // _rotateRight(grandParent), grandparent red, parent black
        var r := RotateRight(Attach(Attach(n, p), g));
        Plug(Node(Black, r.left, r.value, Paint(r.right, Red)), path[2..])
      else if !p.isLeft && !g.isLeft then
        // _rotateLeft(grandParent), grandparent red, parent black
        var r := RotateLeft(Attach(Attach(n, p), g));
        Plug(Node(Black, Paint(r.left, Red), r.value, r.right), path[2..])
      else if p.isLeft then
        // _rotateRight(parent), _rotateLeft(grandParent), grandparent red, node black
        var r := RotateLeft(Attach(RotateRight(Attach(n, p)), g));
        Plug(Node(Black, Paint(r.left, Red), r.value, r.right), path[2..])
      else
        // _rotateLeft(parent), _rotateRight(grandParent), grandparent red, node black
        var r := RotateRight(Attach(RotateLeft(Attach(n, p)), g));
        Plug(Node(Black, r.left, r.value, Paint(r.right, Red)), path[2..])
  }

  /** `insertNode` (red_black_tree/RedBlackTree.hpp:457-477): nothing when an
      equivalent value is found; a black root in an empty tree; otherwise a
      red node in the sentinel's place, then the fixup. */
  function InsertTree<T>(t: Tree<T>, x: T, lt: (T, T) -> bool): Tree<T> {
    var p := Find(t, x, lt);
    if p.Null? then Node(Black, Nil, x, Nil)
    else if p.node.Node? then t
    else InsertFixup(Node(Red, Nil, x, Nil), p.path)
  }

  // ---------------------------------------------------------------------

  lemma TwoUp<T>(n: Tree<T>, path: seq<Frame<T>>, h: nat)
    requires |path| >= 2
    ensures Plug(n, path) == Plug(Attach(Attach(n, path[0]), path[1]), path[2..])
    ensures CtxOK(path, h) ==> CtxOK(path[2..], h + Weight(path[0].color) + Weight(path[1].color))
  {
    assert path[1..][0] == path[1] && path[1..][1..] == path[2..];
    if CtxOK(path, h) {
      assert CtxOK(path[1..], h + Weight(path[0].color));
    }
  }

  /** The recolouring case keeps the single red-red violation one level higher. */
  lemma RecolorCase<T>(n: Tree<T>, path: seq<Frame<T>>)
    requires IsRed(n) && RedBlack(n) && CtxOK(path, BlackHeight(n))
    requires |path| >= 2 && path[0].color == Red && IsRed(path[1].sibling)
    ensures var p, g := path[0], path[1];
      var m := Attach(Attach(n, p.(color := Black)), g.(color := Red, sibling := Paint(g.sibling, Black)));
      && IsRed(m) && RedBlack(m) && CtxOK(path[2..], BlackHeight(m))
      && Elements(m) == Elements(Attach(Attach(n, p), g))
  {
    var h := BlackHeight(n);
    TwoUp(n, path, h);
    assert CtxOK(path[1..], h);
  }

  /** Outer grandchild on the left: `_rotateRight(grandParent)` leaves a
      black subtree root that fits where the grandparent was. */
  lemma RotateLeftLeft<T>(n: Tree<T>, path: seq<Frame<T>>)
    requires IsRed(n) && RedBlack(n) && CtxOK(path, BlackHeight(n))
    requires |path| >= 2 && path[0].color == Red && !IsRed(path[1].sibling)
    requires path[0].isLeft && path[1].isLeft
    ensures var r := RotateRight(Attach(Attach(n, path[0]), path[1]));
      var m := Node(Black, r.left, r.value, Paint(r.right, Red));
      Fits(m, path[2..]) && Elements(m) == Elements(Attach(Attach(n, path[0]), path[1]))
  {
    var h := BlackHeight(n);
    TwoUp(n, path, h);
    assert CtxOK(path[1..], h);
    var p, g := path[0], path[1];
    RotationsKeepOrder(Attach(Attach(n, p), g));
    assert RotateRight(Attach(Attach(n, p), g)) == Node(p.color, n, p.value, Node(g.color, p.sibling, g.value, g.sibling));
  }

  /** Outer grandchild on the right: `_rotateLeft(grandParent)`. */
  lemma RotateRightRight<T>(n: Tree<T>, path: seq<Frame<T>>)
    requires IsRed(n) && RedBlack(n) && CtxOK(path, BlackHeight(n))
    requires |path| >= 2 && path[0].color == Red && !IsRed(path[1].sibling)
    requires !path[0].isLeft && !path[1].isLeft
    ensures var r := RotateLeft(Attach(Attach(n, path[0]), path[1]));
      var m := Node(Black, Paint(r.left, Red), r.value, r.right);
      Fits(m, path[2..]) && Elements(m) == Elements(Attach(Attach(n, path[0]), path[1]))
  {
    var h := BlackHeight(n);
    TwoUp(n, path, h);
    assert CtxOK(path[1..], h);
    var p, g := path[0], path[1];
    RotationsKeepOrder(Attach(Attach(n, p), g));
    assert RotateLeft(Attach(Attach(n, p), g)) == Node(p.color, Node(g.color, g.sibling, g.value, p.sibling), p.value, n);
  }

  /** Inner grandchild, parent on the right: `_rotateRight(parent)` then `_rotateLeft(grandParent)`. */
  lemma RotateLeftRight<T>(n: Tree<T>, path: seq<Frame<T>>)
    requires IsRed(n) && RedBlack(n) && CtxOK(path, BlackHeight(n))
    requires |path| >= 2 && path[0].color == Red && !IsRed(path[1].sibling)
    requires path[0].isLeft && !path[1].isLeft
    ensures var r := RotateLeft(Attach(RotateRight(Attach(n, path[0])), path[1]));
      var m := Node(Black, Paint(r.left, Red), r.value, r.right);
      Fits(m, path[2..]) && Elements(m) == Elements(Attach(Attach(n, path[0]), path[1]))
  {
    var h := BlackHeight(n);
    TwoUp(n, path, h);
    assert CtxOK(path[1..], h);
    var p, g := path[0], path[1];
    RotationsKeepOrder(Attach(n, p));
    RotationsKeepOrder(Attach(RotateRight(Attach(n, p)), g));
    assert RotateLeft(Attach(RotateRight(Attach(n, p)), g)) ==
      Node(n.color, Node(g.color, g.sibling, g.value, n.left), n.value, Node(p.color, n.right, p.value, p.sibling));
  }

  /** Inner grandchild, parent on the left: `_rotateLeft(parent)` then `_rotateRight(grandParent)`. */
  lemma RotateRightLeft<T>(n: Tree<T>, path: seq<Frame<T>>)
    requires IsRed(n) && RedBlack(n) && CtxOK(path, BlackHeight(n))
    requires |path| >= 2 && path[0].color == Red && !IsRed(path[1].sibling)
    requires !path[0].isLeft && path[1].isLeft
    ensures var r := RotateRight(Attach(RotateLeft(Attach(n, path[0])), path[1]));
      var m := Node(Black, r.left, r.value, Paint(r.right, Red));
      Fits(m, path[2..]) && Elements(m) == Elements(Attach(Attach(n, path[0]), path[1]))
  {
    var h := BlackHeight(n);
    TwoUp(n, path, h);
    assert CtxOK(path[1..], h);
    var p, g := path[0], path[1];
    RotationsKeepOrder(Attach(n, p));
    RotationsKeepOrder(Attach(RotateLeft(Attach(n, p)), g));
    assert RotateRight(Attach(RotateLeft(Attach(n, p)), g)) ==
      Node(n.color, Node(p.color, p.sibling, p.value, n.left), n.value, Node(g.color, n.right, g.value, g.sibling));
  }

  /** `_insertFixup` restores the red-black properties from a single red-red
      violation at `n`, and rearranges nodes without changing their order. */
  lemma {:induction false} InsertFixupSpec<T>(n: Tree<T>, path: seq<Frame<T>>)
    requires IsRed(n) && RedBlack(n) && CtxOK(path, BlackHeight(n))
    ensures IsRedBlackTree(InsertFixup(n, path))
    ensures Elements(InsertFixup(n, path)) == Elements(Plug(n, path))
    decreases |path|
  {
    if path == [] {
    } else if path[0].color == Black {
      PlugValid(n, path);
    } else if |path| == 1 {
      assert false;
    } else {
      var p, g := path[0], path[1];
      TwoUp(n, path, BlackHeight(n));
      if IsRed(g.sibling) {
        RecolorCase(n, path);
        var m := Attach(Attach(n, p.(color := Black)), g.(color := Red, sibling := Paint(g.sibling, Black)));
        InsertFixupSpec(m, path[2..]);
        PlugSameElements(m, Attach(Attach(n, p), g), path[2..]);
      } else {
        if p.isLeft && g.isLeft {
          RotateLeftLeft(n, path);
          var r := RotateRight(Attach(Attach(n, p), g));
          var s := Node(Black, r.left, r.value, Paint(r.right, Red));
          PlugValid(s, path[2..]);
          PlugSameElements(s, Attach(Attach(n, p), g), path[2..]);
        } else if !p.isLeft && !g.isLeft {
          RotateRightRight(n, path);
          var r := RotateLeft(Attach(Attach(n, p), g));
          var s := Node(Black, Paint(r.left, Red), r.value, r.right);
          PlugValid(s, path[2..]);
          PlugSameElements(s, Attach(Attach(n, p), g), path[2..]);
        } else if p.isLeft {
          RotateLeftRight(n, path);
          var r := RotateLeft(Attach(RotateRight(Attach(n, p)), g));
          var s := Node(Black, Paint(r.left, Red), r.value, r.right);
          PlugValid(s, path[2..]);
          PlugSameElements(s, Attach(Attach(n, p), g), path[2..]);
        } else {
          RotateRightLeft(n, path);
          var r := RotateRight(Attach(RotateLeft(Attach(n, p)), g));
          var s := Node(Black, r.left, r.value, Paint(r.right, Red));
          PlugValid(s, path[2..]);
          PlugSameElements(s, Attach(Attach(n, p), g), path[2..]);
        }
      }
    }
  }

  /** Insertion keeps a valid sorted tree valid and sorted, and its values
      are the reference insertion: unchanged when an equivalent value is
      stored, otherwise the new value at its place. */
  lemma InsertTreeSpec<T(!new)>(t: Tree<T>, x: T, lt: (T, T) -> bool)
    requires StrictWeakOrder(lt) && IsRedBlackTree(t) && Sorted(Elements(t), lt)
    ensures IsRedBlackTree(InsertTree(t, x, lt))
    ensures Elements(InsertTree(t, x, lt)) == SortedInsert(Elements(t), x, lt)
    ensures Sorted(Elements(InsertTree(t, x, lt)), lt)
    ensures Holds(Elements(t), x, lt) ==> InsertTree(t, x, lt) == t
    ensures |Elements(InsertTree(t, x, lt))| == |Elements(t)| + (if Holds(Elements(t), x, lt) then 0 else 1)
  {
    var s := Elements(t);
    if t.Node? {
      FindSpec(t, x, lt);
      var p := Find(t, x, lt);
      if IsNode(p) {
        SortedInsertPresent(s, x, lt);
      } else {
        var n0 := Node(Red, Nil, x, Nil);
        PlugDecompose(Nil, p.path);
        InsertFixupSpec(n0, p.path);
        GapIndex(p);
        ElementsPlug(n0, p.path);
        var i := Index(p);
        assert LeftOf(p.path) == s[..i] && RightOf(p.path) == s[i..];
        SortedInsertAt(s, x, lt, i);
        SortedGap(s, x, lt, i);
      }
    }
  }
}
