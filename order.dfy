/** Comparators.  The containers take a comparator `Compare` that must be a
    strict weak ordering (`ft::less<T>` by default, functional/functional.hpp).
    Here a comparator is a total function `lt` with the three laws below. */
module Order {

  /** Irreflexive, transitive, and "negatively transitive": if a < b then
      every c is above a or below b, which makes equivalence transitive. */
  ghost predicate StrictWeakOrder<T(!new)>(lt: (T, T) -> bool) {
    && (forall a :: !lt(a, a))
    && (forall a, b, c :: lt(a, b) && lt(b, c) ==> lt(a, c))
    && (forall a, b, c :: lt(a, b) ==> lt(a, c) || lt(c, b))
  }

  /** Two values are equivalent when neither compares less than the other:
      the containers' notion of "same key" (red_black_tree/RedBlackTree.hpp:106-108). */
  predicate Equiv<T>(lt: (T, T) -> bool, a: T, b: T) {
    !lt(a, b) && !lt(b, a)
  }

  /** Strictly increasing under `lt`: the in-order sequence of a tree. */
  ghost predicate Sorted<T>(s: seq<T>, lt: (T, T) -> bool) {
    forall i, j :: 0 <= i < j < |s| ==> lt(s[i], s[j])
  }

  /** Some element of `s` is equivalent to `x`. */
  ghost predicate Holds<T>(s: seq<T>, x: T, lt: (T, T) -> bool) {
    exists i :: 0 <= i < |s| && Equiv(lt, s[i], x)
  }

  /** Regrouping a concatenation: stated once over plain sequences, where it
      is cheap, and called where a proof must move parentheses. */
  lemma Assoc<T>(a: seq<T>, b: seq<T>, c: seq<T>)
    ensures a + b + c == a + (b + c)
  {
  }

  /** The usual `<` on integers is a strict weak ordering (the `ft::less<int>`
      of the test drivers). */
  lemma IntLessIsStrictWeakOrder()
    ensures StrictWeakOrder((a: int, b: int) => a < b)
  {
  }

  /** Equivalent values compare the same way against everything else. */
  lemma EquivSubstitutes<T(!new)>(lt: (T, T) -> bool, a: T, b: T, c: T)
    requires StrictWeakOrder(lt)
    requires Equiv(lt, a, b)
    ensures lt(a, c) == lt(b, c) && lt(c, a) == lt(c, b)
  {
    if lt(a, c) { assert lt(a, b) || lt(b, c); }
    if lt(b, c) { assert lt(b, a) || lt(a, c); }
    if lt(c, a) { assert lt(c, b) || lt(b, a); }
    if lt(c, b) { assert lt(c, a) || lt(a, b); }
  }

  /** A sorted sequence splits around any of its elements. */
  lemma SortedSplit<T>(a: seq<T>, v: T, b: seq<T>, lt: (T, T) -> bool)
    requires Sorted(a + [v] + b, lt)
    ensures Sorted(a, lt) && Sorted(b, lt)
    ensures forall i :: 0 <= i < |a| ==> lt(a[i], v)
    ensures forall j :: 0 <= j < |b| ==> lt(v, b[j])
    ensures forall i, j :: 0 <= i < |a| && 0 <= j < |b| ==> lt(a[i], b[j])
  {
    var s := a + [v] + b;
    forall i, j | 0 <= i < j < |a| ensures lt(a[i], a[j]) { assert a[i] == s[i] && a[j] == s[j]; }
    forall i, j | 0 <= i < j < |b| ensures lt(b[i], b[j]) {
      assert b[i] == s[|a| + 1 + i] && b[j] == s[|a| + 1 + j];
    }
    forall i | 0 <= i < |a| ensures lt(a[i], v) { assert a[i] == s[i] && v == s[|a|]; }
    forall j | 0 <= j < |b| ensures lt(v, b[j]) { assert b[j] == s[|a| + 1 + j] && v == s[|a|]; }
    forall i, j | 0 <= i < |a| && 0 <= j < |b| ensures lt(a[i], b[j]) {
      assert a[i] == s[i] && b[j] == s[|a| + 1 + j];
    }
  }

  /** Conversely, two sorted sequences joined around a separating value are sorted. */
  lemma SortedJoin<T(!new)>(a: seq<T>, v: T, b: seq<T>, lt: (T, T) -> bool)
    requires StrictWeakOrder(lt)
    requires Sorted(a, lt) && Sorted(b, lt)
    requires forall i :: 0 <= i < |a| ==> lt(a[i], v)
    requires forall j :: 0 <= j < |b| ==> lt(v, b[j])
    ensures Sorted(a + [v] + b, lt)
  {
    var s := a + [v] + b;
    forall i, j | 0 <= i < j < |s| ensures lt(s[i], s[j]) {
      if j < |a| {
        assert s[i] == a[i] && s[j] == a[j];
      } else if j == |a| {
        assert s[i] == a[i];
      } else if i > |a| {
        assert s[i] == b[i - |a| - 1] && s[j] == b[j - |a| - 1];
      } else if i == |a| {
        assert s[j] == b[j - |a| - 1];
      } else {
        assert s[i] == a[i] && s[j] == b[j - |a| - 1];
        assert lt(a[i], v) && lt(v, b[j - |a| - 1]);
      }
    }
  }

  /** In a sorted sequence no two elements are equivalent. */
  lemma SortedDistinct<T>(s: seq<T>, lt: (T, T) -> bool, i: int, j: int)
    requires Sorted(s, lt)
    requires 0 <= i < |s| && 0 <= j < |s| && Equiv(lt, s[i], s[j])
    ensures i == j
  {
  }

  /** Whatever is below an element of a sorted sequence is below everything after it. */
  lemma SortedBelowFrom<T(!new)>(a: seq<T>, v: T, b: seq<T>, x: T, lt: (T, T) -> bool)
    requires StrictWeakOrder(lt) && Sorted(a + [v] + b, lt) && lt(x, v)
    ensures forall e | e in [v] + b :: lt(x, e)
  {
    SortedSplit(a, v, b, lt);
    forall e | e in [v] + b ensures lt(x, e) {
      if e != v {
        var j :| 0 <= j < |b| && b[j] == e;
      }
    }
  }

  /** Whatever is above an element of a sorted sequence is above everything before it. */
  lemma SortedAboveUpTo<T(!new)>(a: seq<T>, v: T, b: seq<T>, x: T, lt: (T, T) -> bool)
    requires StrictWeakOrder(lt) && Sorted(a + [v] + b, lt) && lt(v, x)
    ensures forall e | e in a + [v] :: lt(e, x)
  {
    SortedSplit(a, v, b, lt);
    forall e | e in a + [v] ensures lt(e, x) {
      if e != v {
        var j :| 0 <= j < |a| && a[j] == e;
      }
    }
  }

  /** Writing a value equivalent to the one it replaces keeps a sequence sorted. */
  lemma SortedReplaceEquiv<T(!new)>(s: seq<T>, i: nat, v: T, lt: (T, T) -> bool)
    requires StrictWeakOrder(lt) && Sorted(s, lt)
    requires i < |s| && Equiv(lt, s[i], v)
    ensures Sorted(s[i := v], lt)
  {
    var u := s[i := v];
    forall a, b | 0 <= a < b < |u| ensures lt(u[a], u[b]) {
      if a == i {
        EquivSubstitutes(lt, s[i], v, s[b]);
      } else if b == i {
        EquivSubstitutes(lt, s[i], v, s[a]);
      }
    }
  }
}
