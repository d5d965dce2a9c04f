/** `ft::set` (set/set.hpp): a facade over one red-black tree of values.
    Its iterators are positions in that tree (RbTree.Pos); `end()` is the
    tree's `_end`. */
module Set {
  import opened Order
  import opened RbTree
  import opened RbInsert
  import opened RbDelete
  import opened RbIterator
  import opened RbEngine

  /** Around a stored value equivalent to `k`, everything before is below
      `k` and everything after is above it. */
  lemma {:induction false} AroundEquivalent<T(!new)>(s: seq<T>, i: nat, k: T, lt: (T, T) -> bool)
    requires StrictWeakOrder(lt) && Sorted(s, lt)
    requires i < |s| && Equiv(lt, s[i], k)
    ensures forall j | 0 <= j < i :: lt(s[j], k)
    ensures forall j | i < j < |s| :: lt(k, s[j])
  {
    forall j | 0 <= j < i ensures lt(s[j], k) {
      EquivSubstitutes(lt, s[i], k, s[j]);
    }
    forall j | i < j < |s| ensures lt(k, s[j]) {
      EquivSubstitutes(lt, s[i], k, s[j]);
    }
  }

  /** After the value at rank `i` is removed, a value stored at rank `j > i`
      is found again at rank `j - 1`: the node pointers the range erase
      keeps (set/set.hpp:142-145) still hold the same values. */
  lemma Relocated<T(!new)>(s: seq<T>, i: nat, j: nat, t: Tree<T>, lt: (T, T) -> bool)
    requires StrictWeakOrder(lt) && Sorted(s, lt)
    requires i < j < |s| && t.Node? && Elements(t) == s[..i] + s[i + 1..]
    ensures var q := Find(t, s[j], lt);
      IsNode(q) && Whole(q) == t && Index(q) == j - 1
  {
    var u := s[..i] + s[i + 1..];
    assert u[j - 1] == s[j];
    SortedWithout(s, i, lt);
    FindSpec(t, s[j], lt);
    var q := Find(t, s[j], lt);
    assert Holds(u, s[j], lt) by {
      assert Equiv(lt, u[j - 1], s[j]);
    }
    SortedDistinct(u, lt, Index(q), j - 1);
  }

  /** Erasing rank `i` and then the ranks from `i` up to `n - 1` of what is
      left erases the ranks from `i` up to `n` of the original. */
  lemma EraseOneThenRest<T>(s: seq<T>, u: seq<T>, i: nat, n: nat)
    requires i < n <= |s| && u == s[..i] + s[i + 1..]
    ensures u[..i] + u[n - 1..] == s[..i] + s[n..]
  {
    assert u[..i] == s[..i];
    assert u[n - 1..] == s[n..];
  }

  /** The lower bound `a` (first rank not below `k`) and the upper bound `b`
      (first rank above `k`) of a sorted sequence enclose exactly the
      values equivalent to `k`, of which there is at most one. */
  lemma BoundsEncloseEquivalents<T(!new)>(s: seq<T>, a: nat, b: nat, k: T, lt: (T, T) -> bool)
    requires StrictWeakOrder(lt) && Sorted(s, lt) && a <= |s| && b <= |s|
    requires forall j | 0 <= j < a :: lt(s[j], k)
    requires forall j | a <= j < |s| :: !lt(s[j], k)
    requires forall j | 0 <= j < b :: !lt(k, s[j])
    requires forall j | b <= j < |s| :: lt(k, s[j])
    ensures a <= b <= a + 1
    ensures forall j | 0 <= j < |s| :: (a <= j < b <==> Equiv(lt, s[j], k))
    ensures b - a == (if Holds(s, k, lt) then 1 else 0)
  {
    if a > 0 {
      assert lt(s[a - 1], k) && !lt(k, s[a - 1]);
    }
    if a + 1 < |s| {
      assert lt(s[a], s[a + 1]) && !lt(s[a], k);
      assert lt(k, s[a + 1]);
    }
    if b > a {
      assert Equiv(lt, s[a], k);
    }
  }

  class Set<T(==,!new)> {
    const tree: RedBlackTree<T>

    ghost predicate Valid()
      reads this, tree
    {
      tree.Valid()
    }

    /** The stored values in increasing order. */
    ghost function Contents(): seq<T>
      reads this, tree
    {
      tree.Contents()
    }

    /** The empty set (set/set.hpp:36-37). */
    constructor(lt: (T, T) -> bool)
      requires StrictWeakOrder(lt)
      ensures Valid() && Contents() == [] && tree.lt == lt && fresh(tree)
    {
      tree := new RedBlackTree(lt);
    }

    /** The range constructor (set/set.hpp:39-45): the values of `xs`
        inserted one after the other. */
    constructor FromRange(xs: seq<T>, lt: (T, T) -> bool)
      requires StrictWeakOrder(lt)
      ensures Valid() && Contents() == InsertAll([], xs, lt) && tree.lt == lt && fresh(tree)
    {
      tree := new RedBlackTree(lt);
      new;
      InsertRange(xs);
    }

    /** The copy constructor (set/set.hpp:47-51): walk `x` from `begin()` to
        `end()` and insert each value; the copy holds the same values. */
    constructor Copy(x: Set<T>)
      requires x.Valid()
      ensures Valid() && Contents() == x.Contents() && tree.lt == x.tree.lt && fresh(tree)
    {
      tree := new RedBlackTree(x.tree.lt);
      new;
      InsertEach(x);
    }

    /** The loop shared by the copy constructor and `operator=`: walk `x`
        from `begin()` to `end()` and insert each value into this container,
        which starts out empty.  When `x` is this container there is nothing
        to walk, so it stays empty. */
    method InsertEach(x: Set<T>)
      requires Valid() && x.Valid() && x.tree.lt == tree.lt && Contents() == []
      modifies tree
      ensures Valid() && Contents() == old(x.Contents())
    {
      ghost var src, whole := x.Contents(), x.tree.root;
      var it := x.Begin();
      var last := x.End();
      while it != last
        invariant Valid()
        invariant src == Elements(whole) && Sorted(src, tree.lt)
        invariant x.tree == tree ==> src == []
        invariant last == EndOf(whole) && (IsNode(it) || it == last)
        invariant Whole(it) == whole && Index(it) <= |src|
        invariant tree.Contents() == src[..Index(it)]
        decreases |src| - Index(it)
      {
        if x.tree == tree {
          PositionUnique(it, last);
          assert false;
        }
        CopyStep(it, tree.lt);
        var _, _ := Insert(it.node.value);
        it := Next(it);
      }
      PositionUnique(it, last);
      assert src[..Index(it)] == src;
    }

    /** `operator=` (set/set.hpp:55-60): clear, then insert the values of
        `x`.  When `x` is this set, the clearing empties the source too. */
    method Assign(x: Set<T>)
      requires Valid() && x.Valid() && x.tree.lt == tree.lt
      modifies tree
      ensures Valid()
      ensures Contents() == if x.tree == tree then [] else old(x.Contents())
    {
      tree.DeleteTree();
      InsertEach(x);
    }

    /** `begin()` (set/set.hpp:63-69): `_end` when empty, otherwise `min()`;
        the position of rank 0. */
    method Begin() returns (p: Pos<T>)
      requires Valid()
      ensures p == RbIterator.Begin(tree.root)
      ensures (IsNode(p) || p == EndOf(tree.root)) && Whole(p) == tree.root && Index(p) == 0
    {
      if tree.Size() == 0 {
        p := EndOf(tree.root);
      } else {
        p := tree.Min();
      }
    }

    /** `end()` (set/set.hpp:71-77): `_end`, whose rank is the size. */
    method End() returns (p: Pos<T>)
      requires Valid()
      ensures p.EndOf? && Whole(p) == tree.root && Index(p) == |Contents()|
    {
      p := EndOf(tree.root);
    }

    /** `size()` (set/set.hpp:100-102). */
    function Size(): (n: nat)
      reads this, tree
      requires Valid()
      ensures n == |Contents()|
    {
      tree.Size()
    }

    /** `empty()` (set/set.hpp:96-98). */
    function Empty(): (r: bool)
      reads this, tree
      requires Valid()
      ensures r <==> Contents() == []
    {
      Size() == 0
    }

    /** `insert(val)` (set/set.hpp:110-116): the position of the value
        equivalent to `val` and whether it was added. */
    method Insert(x: T) returns (p: Pos<T>, inserted: bool)
      requires Valid()
      modifies tree
      ensures Valid()
      ensures Contents() == SortedInsert(old(Contents()), x, tree.lt)
      ensures inserted <==> !Holds(old(Contents()), x, tree.lt)
      ensures IsNode(p) && Whole(p) == tree.root && Equiv(tree.lt, p.node.value, x)
    {
      p, inserted := tree.InsertNode(x);
    }

    /** `insert(position, val)` (set/set.hpp:118-121): the hint is ignored. */
    method InsertHint(position: Pos<T>, x: T) returns (p: Pos<T>)
      requires Valid()
      modifies tree
      ensures Valid()
      ensures Contents() == SortedInsert(old(Contents()), x, tree.lt)
      ensures IsNode(p) && Whole(p) == tree.root && Equiv(tree.lt, p.node.value, x)
    {
      var inserted;
      p, inserted := Insert(x);
    }

    /** `insert(first, last)` (set/set.hpp:123-128): each value of the range
        in turn. */
    method InsertRange(xs: seq<T>)
      requires Valid()
      modifies tree
      ensures Valid()
      ensures Contents() == InsertAll(old(Contents()), xs, tree.lt)
    {
      var i := 0;
      while i < |xs|
        invariant 0 <= i <= |xs|
        invariant Valid()
        invariant Contents() == InsertAll(old(Contents()), xs[..i], tree.lt)
      {
        assert xs[..i + 1][..i] == xs[..i];
        var _, _ := Insert(xs[i]);
        i := i + 1;
      }
      assert xs[..i] == xs;
    }

    /** `erase(position)` (set/set.hpp:130-132): the value at the position
        goes and the others keep their order. */
    method Erase(position: Pos<T>)
      requires Valid() && IsNode(position) && Whole(position) == tree.root
      modifies tree
      ensures Valid()
      ensures Index(position) < |old(Contents())|
      ensures Contents() == old(Contents())[..Index(position)] + old(Contents())[Index(position) + 1..]
    {
      tree.DeleteAt(position);
    }

    /** `erase(k)` (set/set.hpp:134-137): the number of values removed, 1
        when one equivalent to `k` was stored and 0 otherwise. */
    method EraseKey(k: T) returns (count: nat)
      requires Valid()
      modifies tree
      ensures Valid()
      ensures Contents() == SortedRemove(old(Contents()), k, tree.lt)
      ensures count == (if Holds(old(Contents()), k, tree.lt) then 1 else 0)
      ensures |Contents()| == |old(Contents())| - count
    {
      count := tree.DeleteNode(k);
    }

    /** One step of the range erase (set/set.hpp:142-144): erase the node
        at `first` and find again the nodes behind `tmp`, one past `first`,
        and `last`.  Those nodes survive the erase with their values, so
        they are found again by value, one rank lower. */
    method EraseKeeping(first: Pos<T>, tmp: Pos<T>, last: Pos<T>) returns (next: Pos<T>, stop: Pos<T>)
      requires Valid() && IsNode(first) && Whole(first) == tree.root
      requires (IsNode(tmp) || tmp.EndOf?) && Whole(tmp) == tree.root && Index(tmp) == Index(first) + 1
      requires (IsNode(last) || last.EndOf?) && Whole(last) == tree.root && Index(first) < Index(last)
      modifies tree
      ensures Valid()
      ensures Index(first) < |old(Contents())|
      ensures Contents() == old(Contents())[..Index(first)] + old(Contents())[Index(first) + 1..]
      ensures (IsNode(next) || next.EndOf?) && Whole(next) == tree.root && Index(next) == Index(first)
      ensures (IsNode(stop) || stop.EndOf?) && Whole(stop) == tree.root && Index(stop) == Index(last) - 1
    {
      ghost var s := Contents();
      ghost var i, n := Index(first), Index(last);
      if IsNode(tmp) { NodeIndex(tmp); }
      if IsNode(last) { NodeIndex(last); }
      var tmpValue := if IsNode(tmp) then tmp.node.value else first.node.value;
      var lastValue := if IsNode(last) then last.node.value else first.node.value;
      Erase(first);
      next := EndOf(tree.root);
      if !tmp.EndOf? {
        next := tree.FindNode(tmpValue);
        Relocated(s, i, i + 1, tree.root, tree.lt);
      }
      stop := EndOf(tree.root);
      if !last.EndOf? {
        stop := tree.FindNode(lastValue);
        Relocated(s, i, n, tree.root, tree.lt);
      }
    }

    /** `erase(first, last)` (set/set.hpp:139-146): stop at `last`, else step
        a copy past `first`, erase `first` and recurse on the rest. */
    method EraseRange(first: Pos<T>, last: Pos<T>)
      requires Valid()
      requires IsNode(first) || first.EndOf?
      requires IsNode(last) || last.EndOf?
      requires Whole(first) == tree.root && Whole(last) == tree.root
      requires Index(first) <= Index(last)
      modifies tree
      ensures Valid()
      ensures Index(last) <= |old(Contents())|
      ensures Contents() == old(Contents())[..Index(first)] + old(Contents())[Index(last)..]
      decreases Index(last) - Index(first)
    {
      ghost var s := Contents();
      ghost var i, n := Index(first), Index(last);
      PositionUnique(first, last);
      if IsNode(last) { NodeIndex(last); }
      if first == last {
        assert s[..i] + s[n..] == s;
        return;
      }
      var tmp := new Iterator(first);
      tmp.Increment();
      NextFromNode(first);
      var next, stop := EraseKeeping(first, tmp.ptr, last);
      ghost var u := Contents();
      EraseRange(next, stop);
      EraseOneThenRest(s, u, i, n);
    }

    /** `clear()` (set/set.hpp:159-161). */
    method Clear()
      requires Valid()
      modifies tree
      ensures Valid() && Contents() == []
    {
      tree.DeleteTree();
    }

    /** `find(k)` (set/set.hpp:173-190): the node holding the value
        equivalent to `k`, or `end()` when there is none. */
    method Find(k: T) returns (p: Pos<T>)
      requires Valid()
      ensures IsNode(p) || p == EndOf(tree.root)
      ensures Whole(p) == tree.root
      ensures IsNode(p) <==> Holds(Contents(), k, tree.lt)
      ensures IsNode(p) ==> Index(p) < |Contents()| && Contents()[Index(p)] == p.node.value && Equiv(tree.lt, p.node.value, k)
    {
      var node := tree.FindNode(k);
      if node.Null? || node.node.Nil? {
        return EndOf(tree.root);
      }
      NodeIndex(node);
      p := node;
    }

    /** `count(k)` (set/set.hpp:192-194): 1 when a value equivalent to `k`
        is stored, 0 otherwise. */
    method Count(k: T) returns (n: nat)
      requires Valid()
      ensures n == (if Holds(Contents(), k, tree.lt) then 1 else 0)
    {
      var p := Find(k);
      var e := End();
      n := if p != e then 1 else 0;
    }

    /** `lower_bound(k)` (set/set.hpp:196-206): `end()` on an empty set; the
        node when `k` is found; from the sentinel where the search stopped,
        one `++`.  The result is the first position whose value is not
        below `k`. */
    method LowerBound(k: T) returns (p: Pos<T>)
      requires Valid()
      ensures IsNode(p) || p == EndOf(tree.root)
      ensures Whole(p) == tree.root && Index(p) <= |Contents()|
      ensures forall j | 0 <= j < Index(p) :: tree.lt(Contents()[j], k)
      ensures forall j | Index(p) <= j < |Contents()| :: !tree.lt(Contents()[j], k)
    {
      var node := tree.FindNode(k);
      if node.Null? {
        return EndOf(tree.root);
      }
      FindSpec(tree.root, k, tree.lt);
      if node.node.Nil? {
        var it := new Iterator(node);
        it.Increment();
        NextFromGap(node);
        return it.ptr;
      }
      AroundEquivalent(Contents(), Index(node), k, tree.lt);
      p := node;
    }

    /** `upper_bound(k)` (set/set.hpp:208-215): `end()` on an empty set,
        otherwise one `++` from where the search stopped.  The result is
        the first position whose value is above `k`. */
    method UpperBound(k: T) returns (p: Pos<T>)
      requires Valid()
      ensures IsNode(p) || p == EndOf(tree.root)
      ensures Whole(p) == tree.root && Index(p) <= |Contents()|
      ensures forall j | 0 <= j < Index(p) :: !tree.lt(k, Contents()[j])
      ensures forall j | Index(p) <= j < |Contents()| :: tree.lt(k, Contents()[j])
    {
      var node := tree.FindNode(k);
      if node.Null? {
        return EndOf(tree.root);
      }
      FindSpec(tree.root, k, tree.lt);
      var it := new Iterator(node);
      it.Increment();
      if node.node.Nil? {
        NextFromGap(node);
      } else {
        NextFromNode(node);
        AroundEquivalent(Contents(), Index(node), k, tree.lt);
      }
      p := it.ptr;
    }

    /** `equal_range(k)` (set/set.hpp:217-219): the bounds above, both
        positions in this tree; between them lies the one value equivalent
        to `k`, or nothing, and then the two positions coincide. */
    method EqualRange(k: T) returns (lo: Pos<T>, hi: Pos<T>)
      requires Valid()
      ensures IsNode(lo) || lo == EndOf(tree.root)
      ensures IsNode(hi) || hi == EndOf(tree.root)
      ensures Whole(lo) == tree.root && Whole(hi) == tree.root
      ensures Index(lo) <= Index(hi) <= |Contents()|
      ensures forall j | 0 <= j < |Contents()| ::
        (Index(lo) <= j < Index(hi) <==> Equiv(tree.lt, Contents()[j], k))
      ensures Index(hi) - Index(lo) == (if Holds(Contents(), k, tree.lt) then 1 else 0)
      ensures !Holds(Contents(), k, tree.lt) <==> lo == hi
    {
      lo := LowerBound(k);
      hi := UpperBound(k);
      BoundsEncloseEquivalents(Contents(), Index(lo), Index(hi), k, tree.lt);
      PositionUnique(lo, hi);
    }
  }
}
