/** The `ft::RedBlackTree` object (red_black_tree/RedBlackTree.hpp): the
    root, the count and the comparator, changed in place by insertion,
    deletion and clearing.

    The node structure is the value `root` of RbTree; the tree-wide `_end`
    sentinel is not stored, the position `EndOf(root)` stands for it.  The
    loops of the source (`findNode`, `min`, `max`, `_getPredecessor`) are
    loops here; the fixups are the functions of RbInsert and RbDelete. */
module RbEngine {
  import opened Order
  import opened RbTree
  import opened RbInsert
  import opened RbDelete

  class RedBlackTree<T(!new)> {
    var root: Tree<T>
    var size: nat
    const lt: (T, T) -> bool

    /** The invariant `_testRedBlack` checks (red_black_tree/RedBlackTree.hpp:406-425),
        the order of the values and `_size` as the number of values. */
    ghost predicate Valid()
      reads this
    {
      && StrictWeakOrder(lt)
      && IsRedBlackTree(root)
      && Sorted(Elements(root), lt)
      && size == |Elements(root)|
    }

    /** The stored values in order. */
    ghost function Contents(): seq<T>
      reads this
    {
      Elements(root)
    }

    /** red_black_tree/RedBlackTree.hpp:433-440: no root, size 0. */
    constructor(lt: (T, T) -> bool)
      requires StrictWeakOrder(lt)
      ensures Valid() && Contents() == [] && this.lt == lt
    {
      root := Nil;
      size := 0;
      this.lt := lt;
    }

    /** `size` (red_black_tree/RedBlackTree.hpp:577-579). */
    function Size(): (n: nat)
      reads this
      requires Valid()
      ensures n == |Contents()|
    {
      size
    }

    /** `findNode` (red_black_tree/RedBlackTree.hpp:479-493): NULL on an
        empty tree, else the descent to the node equivalent to `x` or to the
        sentinel where it stops. */
    method FindNode(x: T) returns (p: Pos<T>)
      requires Valid()
      ensures p == Find(root, x, lt)
      ensures p.Null? <==> root.Nil?
      ensures p.At? ==> Whole(p) == root
      ensures IsNode(p) <==> Holds(Contents(), x, lt)
      ensures IsNode(p) ==> Equiv(lt, p.node.value, x)
    {
      if root.Nil? {
        return Null;
      }
      FindSpec(root, x, lt);
      var current := At(root, []);
      while true
        invariant current.At? && FindFrom(current.node, current.path, x, lt) == Find(root, x, lt)
        decreases current.node
      {
        if current.node.Nil? || (!lt(x, current.node.value) && !lt(current.node.value, x)) {
          return current;
        }
        if lt(x, current.node.value) {
          current := LeftChild(current);
        } else {
          current := RightChild(current);
        }
      }
    }

    /** `min` (red_black_tree/RedBlackTree.hpp:593-599): walk left to a
        sentinel and return its parent; `_end` when there is no root. */
    method Min() returns (p: Pos<T>)
      requires Valid()
      ensures root.Nil? ==> p == EndOf(root)
      ensures root.Node? ==> p == LeftmostFrom(At(root, []))
      ensures root.Node? ==> IsNode(p) && Whole(p) == root && Index(p) == 0
    {
      var current := if root.Nil? then Null else At(root, []);
      while current.At? && current.node.Node?
        invariant current.Null? || current.At?
        invariant current.Null? <==> root.Nil?
        invariant current.At? && current.node.Node? ==> LeftmostFrom(current) == LeftmostFrom(At(root, []))
        invariant current.At? && current.node.Nil? ==> current.path != [] && Parent(current) == LeftmostFrom(At(root, []))
        decreases if current.At? then current.node else Nil
      {
        ChildPositions(current);
        current := LeftChild(current);
      }
      p := if current.Null? then EndOf(root) else Parent(current);
      if root.Node? {
        LeftmostFromSpec(At(root, []));
      }
    }

    /** `max` (red_black_tree/RedBlackTree.hpp:601-607), the mirror image. */
    method Max() returns (p: Pos<T>)
      requires Valid()
      ensures root.Nil? ==> p == EndOf(root)
      ensures root.Node? ==> p == RightmostFrom(At(root, []))
      ensures root.Node? ==> IsNode(p) && Whole(p) == root && Index(p) == |Contents()| - 1
    {
      var current := if root.Nil? then Null else At(root, []);
      while current.At? && current.node.Node?
        invariant current.Null? || current.At?
        invariant current.Null? <==> root.Nil?
        invariant current.At? && current.node.Node? ==> RightmostFrom(current) == RightmostFrom(At(root, []))
        invariant current.At? && current.node.Nil? ==> current.path != [] && Parent(current) == RightmostFrom(At(root, []))
        decreases if current.At? then current.node else Nil
      {
        ChildPositions(current);
        current := RightChild(current);
      }
      p := if current.Null? then EndOf(root) else Parent(current);
      if root.Node? {
        RightmostFromSpec(At(root, []));
      }
    }

    /** `_getPredecessor` (red_black_tree/RedBlackTree.hpp:282-288): from the
        left child walk right to a sentinel and return its parent.  The
        position is taken inside the left subtree: the last of its values,
        the in-order predecessor of the node. */
    static method GetPredecessor(p: Pos<T>) returns (q: Pos<T>)
      requires IsNode(p) && p.node.left.Node?
      ensures q == RightmostFrom(At(p.node.left, []))
      ensures IsNode(q) && q.node.right.Nil? && Whole(q) == p.node.left
      ensures Index(q) == |Elements(p.node.left)| - 1
    {
      var leftSubtree := At(p.node.left, []);
      var current := RightChild(leftSubtree);
      ChildPositions(leftSubtree);
      while current.node.Node?
        invariant current.At? && current.path != []
        invariant current.node.Node? ==> RightmostFrom(current) == RightmostFrom(leftSubtree)
        invariant current.node.Nil? ==> Parent(current) == RightmostFrom(leftSubtree)
        decreases current.node
      {
        ChildPositions(current);
        current := RightChild(current);
      }
      q := Parent(current);
      RightmostFromSpec(leftSubtree);
    }

    /** `insertNode` (red_black_tree/RedBlackTree.hpp:457-477).  The facades
        call it as "insert and report": it returns the node holding the
        value (the one found or the new one) and whether it inserted. */
    method InsertNode(x: T) returns (p: Pos<T>, inserted: bool)
      requires Valid()
      modifies this
      ensures Valid()
      ensures Contents() == SortedInsert(old(Contents()), x, lt)
      ensures inserted <==> !Holds(old(Contents()), x, lt)
      ensures !inserted ==> root == old(root)
      ensures size == old(size) + (if inserted then 1 else 0)
      ensures old(root).Nil? ==> root == Node(Black, Nil, x, Nil)
      ensures p == Find(root, x, lt) && IsNode(p) && Whole(p) == root && Equiv(lt, p.node.value, x)
    {
      var nodePos := FindNode(x);
      InsertTreeSpec(root, x, lt);
      if IsNode(nodePos) {
        return nodePos, false;
      }
      var newNode := NewNode(x);
      if nodePos.Null? {
        // `_updateRoot` paints the new root black
        root := Paint(newNode, Black);
      } else {
        // the new node takes the sentinel's place under its parent
        root := InsertFixup(newNode, nodePos.path);
      }
      size := size + 1;
      assert Holds(Contents(), x, lt) by {
        SortedInsertHolds(old(Contents()), x, x, lt);
      }
      p := FindNode(x);
      inserted := true;
    }

    /** The splice of the node at `p` (red_black_tree/RedBlackTree.hpp:499-574):
        `deleteNode` once `findNode` has found the node, and `erase(position)`
        of the facades. */
    method DeleteAt(p: Pos<T>)
      requires Valid() && IsNode(p) && Whole(p) == root
      modifies this
      ensures Valid()
      ensures Index(p) < |old(Contents())|
      ensures Contents() == old(Contents())[..Index(p)] + old(Contents())[Index(p) + 1..]
      ensures size == old(size) - 1
    {
      var node := p.node;
      var s := Contents();
      RemoveAtSpec(p);
      SortedWithout(s, Index(p), lt);
      if node.left.Nil? && node.right.Nil? {
        // the left sentinel replaces the node; a lone root leaves no root
        root := if p.path == [] then Nil else DeleteFixup(node.left, p.path, node.color);
      } else if node.left.Nil? {
        root := Splice(node.right, p.path, node.color);
      } else if node.right.Nil? {
        root := Splice(node.left, p.path, node.color);
      } else {
        // `_changeValue` writes the predecessor's value into the node, then
        // the predecessor's left child replaces the predecessor
        var predecessor := GetPredecessor(p);
        var path := predecessor.path + [Frame(true, node.color, predecessor.node.value, node.right)] + p.path;
        root := DeleteFixup(predecessor.node.left, path, predecessor.node.color);
      }
      size := size - 1;
    }

    /** `deleteNode` (red_black_tree/RedBlackTree.hpp:495-575).  The facades
        call it as "erase and count": it returns 1 when it removed a value
        and 0 when none was equivalent to `x`. */
    method DeleteNode(x: T) returns (count: nat)
      requires Valid()
      modifies this
      ensures Valid()
      ensures Contents() == SortedRemove(old(Contents()), x, lt)
      ensures count == (if Holds(old(Contents()), x, lt) then 1 else 0)
      ensures count == 0 ==> root == old(root)
      ensures size == old(size) - count
    {
      var node := FindNode(x);
      DeleteTreeSpec(root, x, lt);
      if !IsNode(node) {
        return 0;
      }
      FindSpec(root, x, lt);
      SortedRemoveAt(Contents(), x, lt, Index(node));
      DeleteAt(node);
      count := 1;
    }

    /** `deleteTree` (red_black_tree/RedBlackTree.hpp:450-455): every node
        goes, the root is NULL and the size 0. */
    method DeleteTree()
      requires Valid()
      modifies this
      ensures Valid() && Contents() == [] && size == 0
    {
      root := Nil;
      size := 0;
    }

    /** A write through the reference `operator*` or `map::operator[]`
        returns (map/map.hpp:128): the node at `p` holds `v`, which must
        compare equivalent to the value it replaces (only the mapped part
        of a map entry is written). */
    method WriteValue(p: Pos<T>, v: T)
      requires Valid() && IsNode(p) && Whole(p) == root && Equiv(lt, p.node.value, v)
      modifies this
      ensures Valid()
      ensures Index(p) < |old(Contents())| && Contents() == old(Contents())[Index(p) := v]
      ensures root == Plug(p.node.(value := v), p.path)
    {
      ReplaceValue(p, v);
      NodeIndex(p);
      SortedReplaceEquiv(Contents(), Index(p), v, lt);
      root := Plug(p.node.(value := v), p.path);
    }
  }
}
