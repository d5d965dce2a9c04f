/** `ft::stack` (stack/stack.hpp): an adapter over a `vector` member `c`
    whose back is the top.  The six relational operators forward to the
    vectors' comparisons, which vector/vector.hpp does not define; they are
    given the standard container meaning: `==` is equal sizes and `equal`,
    `<` is `lexicographical_compare` (the Algorithm module). */
module Stack {
  import Algorithm
  import opened Vector
  import opened ReverseIterator

  /** Popping the last element of `s` reverses the rest. */
  lemma {:induction false} ReversedPopLast<T>(s: seq<T>)
    requires s != []
    ensures Reversed(s) == [s[|s| - 1]] + Reversed(s[..|s| - 1])
  {
    if |s| > 1 {
      var t := s[1..];
      ReversedPopLast(t);
      assert t[..|t| - 1] == s[..|s| - 1][1..];
    }
  }

  class Stack<T(0)> {
    const c: Vector<T>

    ghost predicate Valid()
      reads this, c
    {
      c.Valid()
    }

    /** The stacked values, bottom first. */
    function Contents(): seq<T>
      reads this, c, c.arr
      requires Valid()
    {
      c.Elements()
    }

    /** stack/stack.hpp:15: `c` is a copy of the container given. */
    constructor(ctnr: Vector<T>)
      requires ctnr.Valid()
      ensures Valid() && fresh(c) && fresh(c.arr)
      ensures Contents() == ctnr.Elements()
    {
      c := new Vector.Copy(ctnr);
    }

    /** `empty` (stack/stack.hpp:17-19): that of the container. */
    function Empty(): (r: bool)
      reads this, c, c.arr
      requires Valid()
      ensures r <==> Contents() == []
    {
      c.Empty()
    }

    /** `size` (stack/stack.hpp:21-23): that of the container. */
    function Size(): (n: nat)
      reads this, c, c.arr
      requires Valid()
      ensures n == |Contents()|
    {
      c.Size()
    }

    /** `top` (stack/stack.hpp:25-31): the container's back, the value pushed
        last and not yet popped. */
    function Top(): (v: T)
      reads this, c, c.arr
      requires Valid() && Contents() != []
      ensures v == Contents()[|Contents()| - 1]
    {
      c.Back()
    }

    /** `push` (stack/stack.hpp:33-35): `val` goes on top. */
    method Push(val: T)
      requires Valid()
      modifies c, c.arr
      ensures Valid() && Contents() == old(Contents()) + [val]
      ensures Top() == val && Size() == old(Size()) + 1
    {
      c.PushBack(val);
    }

    /** `pop` (stack/stack.hpp:37-39): the top goes, the rest stay; on an
        empty stack nothing happens (that of `pop_back`).  After a push it
        restores the contents from before the push. */
    method Pop()
      requires Valid()
      modifies c
      ensures Valid() && c.arr == old(c.arr)
      ensures old(Contents()) == [] ==> Contents() == []
      ensures old(Contents()) != [] ==> old(Contents()) == Contents() + [old(Top())]
    {
      c.PopBack();
    }

    /** The loop of common/stack_test.cpp:22-26, `while (!empty()) { top();
        pop(); }`: the values come off in the reverse of their push order, so
        pushing 0..4 pops 4 3 2 1 0. */
    method PopAll() returns (out: seq<T>)
      requires Valid()
      modifies c
      ensures Valid() && Contents() == []
      ensures out == Reversed(old(Contents()))
    {
      out := [];
      while !Empty()
        invariant Valid() && c.arr == old(c.arr)
        invariant out + Reversed(Contents()) == Reversed(old(Contents()))
        decreases |Contents()|
      {
        var s := Contents();
        ReversedPopLast(s);
        out := out + [Top()];
        Pop();
      }
    }
  }

  /** `eq` is the elements' `==` on the values of `a` against those of `b`. */
  ghost predicate EqualityOn<T>(eq: (T, T) -> bool, a: seq<T>, b: seq<T>) {
    forall i, j :: 0 <= i < |a| && 0 <= j < |b| ==> (eq(a[i], b[j]) <==> a[i] == b[j])
  }

  /** `operator==` (stack/stack.hpp:42-45): same stacked values, compared
      by the elements' `==`, given as `eq`. */
  function Equal<T(0)>(lhs: Stack<T>, rhs: Stack<T>, eq: (T, T) -> bool): (r: bool)
    reads lhs, lhs.c, lhs.c.arr, rhs, rhs.c, rhs.c.arr
    requires lhs.Valid() && rhs.Valid()
    requires EqualityOn(eq, lhs.Contents(), rhs.Contents())
    ensures r <==> lhs.Contents() == rhs.Contents()
  {
    var a, b := lhs.Contents(), rhs.Contents();
    if |a| != |b| then false
    else
      Algorithm.EqualByMeans(a, b, eq);
      Algorithm.EqualBy(a, b, eq)
  }

  /** `operator!=` (stack/stack.hpp:47-50). */
  function NotEqual<T(0)>(lhs: Stack<T>, rhs: Stack<T>, eq: (T, T) -> bool): (r: bool)
    reads lhs, lhs.c, lhs.c.arr, rhs, rhs.c, rhs.c.arr
    requires lhs.Valid() && rhs.Valid()
    requires EqualityOn(eq, lhs.Contents(), rhs.Contents())
    ensures r <==> lhs.Contents() != rhs.Contents()
  {
    !Equal(lhs, rhs, eq)
  }

  /** `operator<` (stack/stack.hpp:52-55): the lexicographical comparison
      of the stacked values, bottom first, by the elements' `<`. */
  function Less<T(0)>(lhs: Stack<T>, rhs: Stack<T>, lt: (T, T) -> bool): (r: bool)
    reads lhs, lhs.c, lhs.c.arr, rhs, rhs.c, rhs.c.arr
    requires lhs.Valid() && rhs.Valid()
    ensures r == Algorithm.LexLess(lhs.Contents(), rhs.Contents(), lt)
  {
    Algorithm.LexLess(lhs.c.Elements(), rhs.c.Elements(), lt)
  }

  /** `operator<=` (stack/stack.hpp:57-60): not `rhs < lhs`. */
  function LessEq<T(0)>(lhs: Stack<T>, rhs: Stack<T>, lt: (T, T) -> bool): (r: bool)
    reads lhs, lhs.c, lhs.c.arr, rhs, rhs.c, rhs.c.arr
    requires lhs.Valid() && rhs.Valid()
    ensures r <==> !Less(rhs, lhs, lt)
  {
    !Algorithm.LexLess(rhs.c.Elements(), lhs.c.Elements(), lt)
  }

  /** `operator>` (stack/stack.hpp:62-65): `rhs < lhs`. */
  function Greater<T(0)>(lhs: Stack<T>, rhs: Stack<T>, lt: (T, T) -> bool): (r: bool)
    reads lhs, lhs.c, lhs.c.arr, rhs, rhs.c, rhs.c.arr
    requires lhs.Valid() && rhs.Valid()
    ensures r <==> Less(rhs, lhs, lt)
  {
    Algorithm.LexLess(rhs.c.Elements(), lhs.c.Elements(), lt)
  }

  /** `operator>=` (stack/stack.hpp:67-70): not `lhs < rhs`. */
  function GreaterEq<T(0)>(lhs: Stack<T>, rhs: Stack<T>, lt: (T, T) -> bool): (r: bool)
    reads lhs, lhs.c, lhs.c.arr, rhs, rhs.c, rhs.c.arr
    requires lhs.Valid() && rhs.Valid()
    ensures r <==> !Less(lhs, rhs, lt)
  {
    !Algorithm.LexLess(lhs.c.Elements(), rhs.c.Elements(), lt)
  }

  /** Under a strict total order on the elements the six operators agree
      with each other: exactly one of `<`, `==`, `>` holds, `<=` is `<` or
      `==`, and `>=` is `>` or `==`. */
  lemma RelationalConsistent<T(0)>(lhs: Stack<T>, rhs: Stack<T>, lt: (T, T) -> bool, eq: (T, T) -> bool)
    requires lhs.Valid() && rhs.Valid()
    requires forall x, y :: lt(x, y) ==> !lt(y, x)
    requires forall x, y :: x == y || lt(x, y) || lt(y, x)
    requires EqualityOn(eq, lhs.Contents(), rhs.Contents())
    ensures Less(lhs, rhs, lt) || Equal(lhs, rhs, eq) || Greater(lhs, rhs, lt)
    ensures !(Less(lhs, rhs, lt) && Equal(lhs, rhs, eq))
    ensures !(Greater(lhs, rhs, lt) && Equal(lhs, rhs, eq))
    ensures !(Less(lhs, rhs, lt) && Greater(lhs, rhs, lt))
    ensures LessEq(lhs, rhs, lt) <==> Less(lhs, rhs, lt) || Equal(lhs, rhs, eq)
    ensures GreaterEq(lhs, rhs, lt) <==> Greater(lhs, rhs, lt) || Equal(lhs, rhs, eq)
  {
    var a, b := lhs.Contents(), rhs.Contents();
    Algorithm.LexTrichotomy(a, b, lt);
    Algorithm.LexAsymmetric(a, b, lt);
    Algorithm.LexIrreflexive(a, lt);
  }
}
