/** `ft::map` (map/map.hpp): a red-black tree of key/value pairs ordered by
    key alone, and the subscript that finds or inserts a key. */
module Map {
  import opened Order
  import opened RbTree
  import opened RbInsert
  import opened RbIterator
  import opened RbEngine

  /** `ft::pair` (utility/utility.hpp:4-29). */
  datatype Pair<K, V> = Pair(first: K, second: V)

  /** `map::Comp` (map/map.hpp:14-22): the key comparator applied to the
      `first` members. */
  function Comp<K, V>(keyLt: (K, K) -> bool): (Pair<K, V>, Pair<K, V>) -> bool {
    (a: Pair<K, V>, b: Pair<K, V>) => keyLt(a.first, b.first)
  }

  /** Ordering pairs by key keeps the laws of the key order. */
  lemma CompIsStrictWeakOrder<K(!new), V(!new)>(keyLt: (K, K) -> bool)
    requires StrictWeakOrder(keyLt)
    ensures StrictWeakOrder(Comp<K, V>(keyLt))
  {
    var lt := Comp<K, V>(keyLt);
    forall a: Pair<K, V> ensures !lt(a, a) {
      CompEquiv(keyLt, a, a);
    }
    forall a: Pair<K, V>, b: Pair<K, V>, c: Pair<K, V> | lt(a, b) && lt(b, c)
      ensures lt(a, c)
    {
      CompEquiv(keyLt, a, b);
      CompEquiv(keyLt, b, c);
      CompEquiv(keyLt, a, c);
    }
    forall a: Pair<K, V>, b: Pair<K, V>, c: Pair<K, V> | lt(a, b)
      ensures lt(a, c) || lt(c, b)
    {
      CompEquiv(keyLt, a, b);
      CompEquiv(keyLt, a, c);
      CompEquiv(keyLt, c, b);
    }
  }

  /** Two pairs are equivalent under `Comp` exactly when their keys are. */
  lemma CompEquiv<K, V>(keyLt: (K, K) -> bool, a: Pair<K, V>, b: Pair<K, V>)
    ensures Comp(keyLt)(a, b) == keyLt(a.first, b.first)
    ensures Equiv(Comp(keyLt), a, b) == Equiv(keyLt, a.first, b.first)
  {
  }

  /** The mapped value of the first pair whose key is equivalent to `k`. */
  function Lookup<K, V>(s: seq<Pair<K, V>>, k: K, keyLt: (K, K) -> bool): (r: Option<V>)
    ensures r.None? <==> forall i | 0 <= i < |s| :: !Equiv(keyLt, s[i].first, k)
    ensures r.Some? ==> exists i | 0 <= i < |s| :: Equiv(keyLt, s[i].first, k) && s[i].second == r.value
    decreases |s|
  {
    if s == [] then None
    else if Equiv(keyLt, s[0].first, k) then Some(s[0].second)
    else
      var r := Lookup(s[1..], k, keyLt);
      assert forall i | 1 <= i < |s| :: s[i] == s[1..][i - 1];
      r
  }

  /** In a sequence sorted by key, the pair whose key is equivalent to `k`
      is the one `Lookup` finds. */
  lemma LookupAt<K(!new), V(!new)>(s: seq<Pair<K, V>>, i: nat, k: K, keyLt: (K, K) -> bool)
    requires StrictWeakOrder(keyLt) && Sorted(s, Comp(keyLt))
    requires i < |s| && Equiv(keyLt, s[i].first, k)
    ensures Lookup(s, k, keyLt) == Some(s[i].second)
  {
    var r := Lookup(s, k, keyLt);
    var j :| 0 <= j < |s| && Equiv(keyLt, s[j].first, k) && s[j].second == r.value;
    EquivSubstitutes(keyLt, s[i].first, k, s[j].first);
    EquivSubstitutes(keyLt, s[j].first, k, s[i].first);
    CompEquiv(keyLt, s[i], s[j]);
    CompEquiv(keyLt, s[j], s[i]);
  }

  /** Inserting a pair into a sequence sorted by key: a key that was there
      keeps its value, the key of the pair gets the pair's value when it was
      absent, and every other key is untouched. */
  lemma {:induction false} LookupInsert<K(!new), V(!new)>(s: seq<Pair<K, V>>, x: Pair<K, V>, k: K, keyLt: (K, K) -> bool)
    requires StrictWeakOrder(keyLt) && Sorted(s, Comp(keyLt))
    ensures Lookup(SortedInsert(s, x, Comp(keyLt)), k, keyLt) ==
      if Lookup(s, k, keyLt).None? && Equiv(keyLt, x.first, k) then Some(x.second) else Lookup(s, k, keyLt)
    decreases |s|
  {
    var lt := Comp<K, V>(keyLt);
    if s != [] {
      CompEquiv(keyLt, x, s[0]);
      CompEquiv(keyLt, s[0], x);
      if lt(x, s[0]) {
        assert SortedInsert(s, x, lt) == [x] + s;
        assert ([x] + s)[1..] == s;
        if Equiv(keyLt, x.first, k) {
          forall i | 0 <= i < |s| ensures !Equiv(keyLt, s[i].first, k) {
            CompEquiv(keyLt, x, s[0]);
            CompEquiv(keyLt, s[0], s[i]);
            if i > 0 { assert lt(s[0], s[i]); }
            EquivSubstitutes(keyLt, x.first, k, s[i].first);
          }
        }
      } else if lt(s[0], x) {
        assert SortedInsert(s, x, lt) == [s[0]] + SortedInsert(s[1..], x, lt);
        assert ([s[0]] + SortedInsert(s[1..], x, lt))[1..] == SortedInsert(s[1..], x, lt);
        assert Sorted(s[1..], lt) by {
          forall a, b | 0 <= a < b < |s[1..]| ensures lt(s[1..][a], s[1..][b]) {
            assert s[1..][a] == s[a + 1] && s[1..][b] == s[b + 1];
          }
        }
        LookupInsert(s[1..], x, k, keyLt);
        CompEquiv(keyLt, s[0], x);
        if Equiv(keyLt, s[0].first, k) {
          EquivSubstitutes(keyLt, s[0].first, k, x.first);
        }
      }
    }
  }

  /** Writing a pair whose key is not equivalent to `k` over one whose key
      is not either leaves the value found for `k` unchanged. */
  lemma {:induction false} LookupUpdateOther<K, V>(s: seq<Pair<K, V>>, i: nat, y: Pair<K, V>, k: K, keyLt: (K, K) -> bool)
    requires i < |s| && !Equiv(keyLt, s[i].first, k) && !Equiv(keyLt, y.first, k)
    ensures Lookup(s[i := y], k, keyLt) == Lookup(s, k, keyLt)
    decreases |s|
  {
    if i > 0 {
      assert s[i := y][1..] == s[1..][i - 1 := y];
      LookupUpdateOther(s[1..], i - 1, y, k, keyLt);
    }
  }

  /** A pair is held (up to key equivalence) exactly when its key is found. */
  lemma LookupHolds<K, V>(s: seq<Pair<K, V>>, x: Pair<K, V>, keyLt: (K, K) -> bool)
    ensures Lookup(s, x.first, keyLt).Some? <==> Holds(s, x, Comp(keyLt))
  {
    forall i | 0 <= i < |s| ensures Equiv(Comp(keyLt), s[i], x) == Equiv(keyLt, s[i].first, x.first) {
      CompEquiv(keyLt, s[i], x);
    }
  }

  /** After `x` is inserted, the pair whose key is equivalent to `x`'s
      carries the value the key had, or `x`'s value when the key was new,
      and the lookup of the key finds it. */
  lemma InsertedAt<K(!new), V(!new)>(s: seq<Pair<K, V>>, x: Pair<K, V>, i: nat, keyLt: (K, K) -> bool)
    requires StrictWeakOrder(keyLt) && Sorted(s, Comp(keyLt))
    requires var u := SortedInsert(s, x, Comp(keyLt));
      i < |u| && Equiv(Comp(keyLt), u[i], x)
    ensures var u := SortedInsert(s, x, Comp(keyLt));
      && u[i].second == (match Lookup(s, x.first, keyLt) case Some(w) => w case None => x.second)
      && Lookup(u, x.first, keyLt) == Some(u[i].second)
  {
    var u := SortedInsert(s, x, Comp(keyLt));
    CompIsStrictWeakOrder<K, V>(keyLt);
    SortedInsertSorted(s, x, Comp(keyLt));
    CompEquiv(keyLt, u[i], x);
    LookupInsert(s, x, x.first, keyLt);
    LookupAt(u, i, x.first, keyLt);
  }

  /** Writing `(key, v)` over the pair at rank `i` after inserting `x`: the
      key of `x` finds `v`, and every key not equivalent to it finds what it
      found before the insertion. */
  lemma StoredAt<K(!new), V(!new)>(s0: seq<Pair<K, V>>, s1: seq<Pair<K, V>>, x: Pair<K, V>, i: nat, v: V, keyLt: (K, K) -> bool)
    requires StrictWeakOrder(keyLt) && Sorted(s0, Comp(keyLt))
    requires s1 == SortedInsert(s0, x, Comp(keyLt))
    requires i < |s1| && Equiv(Comp(keyLt), s1[i], x)
    ensures var u := s1[i := Pair(s1[i].first, v)];
      && Lookup(u, x.first, keyLt) == Some(v)
      && forall k' | !Equiv(keyLt, k', x.first) :: Lookup(u, k', keyLt) == Lookup(s0, k', keyLt)
  {
    var y := Pair(s1[i].first, v);
    var u := s1[i := y];
    CompIsStrictWeakOrder<K, V>(keyLt);
    SortedInsertSorted(s0, x, Comp(keyLt));
    CompEquiv(keyLt, s1[i], x);
    CompEquiv(keyLt, s1[i], y);
    SortedReplaceEquiv(s1, i, y, Comp(keyLt));
    LookupAt(u, i, x.first, keyLt);
    forall k' | !Equiv(keyLt, k', x.first)
      ensures Lookup(u, k', keyLt) == Lookup(s0, k', keyLt)
    {
      LookupInsert(s0, x, k', keyLt);
      EquivSubstitutes(keyLt, s1[i].first, x.first, k');
      LookupUpdateOther(s1, i, y, k', keyLt);
    }
  }

  class Map<K(==,!new), V(==,!new)> {
    const tree: RedBlackTree<Pair<K, V>>
    const keyLt: (K, K) -> bool
    /** `mapped_type()`, the value a new key is given by `operator[]`. */
    const blank: V

    ghost predicate Valid()
      reads this, tree
    {
      tree.Valid() && StrictWeakOrder(keyLt) && tree.lt == Comp(keyLt)
    }

    /** The stored pairs in increasing key order. */
    ghost function Contents(): seq<Pair<K, V>>
      reads this, tree
    {
      tree.Contents()
    }

    /** The empty map (map/map.hpp:50-51). */
    constructor(keyLt: (K, K) -> bool, blank: V)
      requires StrictWeakOrder(keyLt)
      ensures Valid() && Contents() == [] && fresh(tree)
      ensures this.keyLt == keyLt && this.blank == blank
    {
      CompIsStrictWeakOrder<K, V>(keyLt);
      tree := new RedBlackTree(Comp(keyLt));
      this.keyLt := keyLt;
      this.blank := blank;
    }

    /** The range constructor (map/map.hpp:53-61): the pairs of `xs`
        inserted one after the other, so a later pair with a key already
        present is ignored. */
    constructor FromRange(xs: seq<Pair<K, V>>, keyLt: (K, K) -> bool, blank: V)
      requires StrictWeakOrder(keyLt)
      ensures Valid() && Contents() == InsertAll([], xs, Comp(keyLt)) && fresh(tree)
      ensures this.keyLt == keyLt && this.blank == blank
    {
      CompIsStrictWeakOrder<K, V>(keyLt);
      tree := new RedBlackTree(Comp(keyLt));
      this.keyLt := keyLt;
      this.blank := blank;
      new;
      var i := 0;
      while i < |xs|
        invariant 0 <= i <= |xs|
        invariant Valid() && fresh(tree)
        invariant Contents() == InsertAll([], xs[..i], Comp(keyLt))
      {
        assert xs[..i + 1][..i] == xs[..i];
        var _, _ := tree.InsertNode(xs[i]);
        i := i + 1;
      }
      assert xs[..i] == xs;
    }

    /** The copy constructor (map/map.hpp:63-67): walk `x` in order and
        insert each pair; the copy holds the same pairs. */
    constructor Copy(x: Map<K, V>)
      requires x.Valid()
      ensures Valid() && Contents() == x.Contents() && fresh(tree)
      ensures keyLt == x.keyLt && blank == x.blank
    {
      tree := new RedBlackTree(Comp(x.keyLt));
      keyLt := x.keyLt;
      blank := x.blank;
      new;
      InsertEach(x);
    }

    /** The loop shared by the copy constructor and `operator=`: walk `x`
        from `begin()` to `end()` and insert each value into this container,
        which starts out empty.  When `x` is this container there is nothing
        to walk, so it stays empty. */
    method InsertEach(x: Map<K, V>)
      requires Valid() && x.Valid() && x.keyLt == keyLt && Contents() == []
      modifies tree
      ensures Valid() && Contents() == old(x.Contents())
    {
      ghost var src, whole := x.Contents(), x.tree.root;
      var it := x.Begin();
      var last := x.End();
      while it != last
        invariant Valid()
        invariant src == Elements(whole) && Sorted(src, tree.lt)
        invariant x.tree == tree ==> src == []
        invariant last == EndOf(whole) && (IsNode(it) || it == last)
        invariant Whole(it) == whole && Index(it) <= |src|
        invariant tree.Contents() == src[..Index(it)]
        decreases |src| - Index(it)
      {
        if x.tree == tree {
          PositionUnique(it, last);
          assert false;
        }
        CopyStep(it, tree.lt);
        var _, _ := tree.InsertNode(it.node.value);
        it := Next(it);
      }
      PositionUnique(it, last);
      assert src[..Index(it)] == src;
    }

    /** `operator=` (map/map.hpp:71-76): clear, then insert the pairs of `x`.
        When `x` is this map, the clearing empties the source too. */
    method Assign(x: Map<K, V>)
      requires Valid() && x.Valid() && x.keyLt == keyLt
      modifies tree
      ensures Valid()
      ensures Contents() == if x.tree == tree then [] else old(x.Contents())
    {
      tree.DeleteTree();
      InsertEach(x);
    }

    /** `begin()` (map/map.hpp:79-85): `_end` when empty, otherwise `min()`. */
    method Begin() returns (p: Pos<Pair<K, V>>)
      requires Valid()
      ensures p == RbIterator.Begin(tree.root)
      ensures (IsNode(p) || p == EndOf(tree.root)) && Whole(p) == tree.root && Index(p) == 0
    {
      if tree.Size() == 0 {
        p := EndOf(tree.root);
      } else {
        p := tree.Min();
      }
    }

    /** `end()` (map/map.hpp:87-93): `_end`, whose rank is the size. */
    method End() returns (p: Pos<Pair<K, V>>)
      requires Valid()
      ensures p.EndOf? && Whole(p) == tree.root && Index(p) == |Contents()|
    {
      p := EndOf(tree.root);
    }

    /** `size()` (map/map.hpp:116-118). */
    function Size(): (n: nat)
      reads this, tree
      requires Valid()
      ensures n == |Contents()|
    {
      tree.Size()
    }

    /** `empty()` (map/map.hpp:112-114). */
    function Empty(): (r: bool)
      reads this, tree
      requires Valid()
      ensures r <==> Contents() == []
    {
      Size() == 0
    }

    /** `operator[]` read (map/map.hpp:124-129): insert `(k, mapped_type())`
        unless the key is there, and give the mapped value of the node
        holding the key: the old value, or `mapped_type()` for a new key. */
    method Subscript(k: K) returns (v: V)
      requires Valid()
      modifies tree
      ensures Valid()
      ensures Contents() == SortedInsert(old(Contents()), Pair(k, blank), tree.lt)
      ensures v == match Lookup(old(Contents()), k, keyLt) case Some(w) => w case None => blank
      ensures Lookup(Contents(), k, keyLt) == Some(v)
    {
      ghost var s := Contents();
      var toFind := Pair(k, blank);
      var node, _ := tree.InsertNode(toFind);
      NodeIndex(node);
      assert Contents() == SortedInsert(s, toFind, Comp(keyLt));
      InsertedAt(s, toFind, Index(node), keyLt);
      v := node.node.value.second;
    }

    /** `operator[]` written through (`mp[k] = v`, common/map_test.cpp:18-19):
        the key now maps to `v`, every other key keeps its value, and the
        map grows by one exactly when the key is new. */
    method Store(k: K, v: V)
      requires Valid()
      modifies tree
      ensures Valid()
      ensures Lookup(Contents(), k, keyLt) == Some(v)
      ensures forall k' | !Equiv(keyLt, k', k) :: Lookup(Contents(), k', keyLt) == Lookup(old(Contents()), k', keyLt)
      ensures |Contents()| == |old(Contents())| + (if Lookup(old(Contents()), k, keyLt).None? then 1 else 0)
    {
      ghost var s0 := Contents();
      var toFind := Pair(k, blank);
      var node, inserted := tree.InsertNode(toFind);
      ghost var s1 := Contents();
      NodeIndex(node);
      assert s1 == SortedInsert(s0, toFind, Comp(keyLt));
      InsertedAt(s0, toFind, Index(node), keyLt);
      LookupHolds(s0, toFind, keyLt);
      var stored := Pair(node.node.value.first, v);
      CompEquiv(keyLt, node.node.value, stored);
      tree.WriteValue(node, stored);
      StoredAt(s0, s1, toFind, Index(node), v, keyLt);
    }
  }
}
