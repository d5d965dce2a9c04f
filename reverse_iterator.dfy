/** `ft::reverse_iterator` (iterator/iterator.hpp:18-106) over a pointer-like
    iterator: it keeps the base position `current` and reads the element just
    before it, so the reverse range `[rbegin, rend)` is `[end, begin)` walked
    backwards.  The base iterator is the index iterator of VectorIterator. */
module ReverseIterator {
  import opened VectorIterator

  /** `s` back to front. */
  function Reversed<T>(s: seq<T>): (r: seq<T>)
    ensures |r| == |s|
    ensures forall i | 0 <= i < |s| :: r[i] == s[|s| - 1 - i]
  {
    if s == [] then [] else Reversed(s[1..]) + [s[0]]
  }

  /** Reversing twice gives the sequence back. */
  lemma {:induction false} ReversedTwice<T>(s: seq<T>)
    ensures Reversed(Reversed(s)) == s
  {
    var r := Reversed(Reversed(s));
    assert |r| == |s|;
    forall i | 0 <= i < |s|
      ensures r[i] == s[i]
    {
      assert r[i] == Reversed(s)[|s| - 1 - i];
    }
  }

  class ReverseIterator<T> {
    const buf: array<T>
    var current: int

    /** iterator/iterator.hpp:39-41: the base iterator `x` is kept as is. */
    constructor(x: VectorIterator<T>)
      ensures buf == x.buf && current == x.ptr
    {
      buf := x.buf;
      current := x.ptr;
    }

    /** `base` (iterator/iterator.hpp:49-51): a copy of the base iterator. */
    method Base() returns (it: VectorIterator<T>)
      ensures fresh(it) && it.buf == buf && it.ptr == current
    {
      it := new VectorIterator(buf, current);
    }

    /** The buffer index `*this` reads: one before the base. */
    function Target(): (i: int)
      reads this
      ensures i + 1 == current
    {
      current - 1
    }

    /** `operator*` (iterator/iterator.hpp:59-62): a copy of the base,
        decremented, then dereferenced. */
    method Deref() returns (v: T)
      requires 0 <= Target() < buf.Length
      ensures v == buf[Target()]
    {
      var tmp := new VectorIterator(buf, current);
      tmp.Decrement();
      v := tmp.Value();
    }

    /** `operator[]` (iterator/iterator.hpp:102-104): `base()[-n-1]`, the
        element `n` places further along the reverse range, which is what
        `*(r + n)` reads (see Plus). */
    method Subscript(n: int) returns (v: T)
      requires 0 <= Target() - n < buf.Length
      ensures v == buf[Target() - n]
    {
      var b := Base();
      v := b.Subscript(-n - 1);
    }

    /** `operator+` (iterator/iterator.hpp:64-66): `n` places along the
        reverse range is `n` places back in the buffer. */
    method Plus(n: int) returns (r: ReverseIterator<T>)
      ensures fresh(r) && r.buf == buf && r.current == current - n
      ensures r.Target() == Target() - n
    {
      var b := new VectorIterator(buf, current);
      var moved := b.Minus(n);
      r := new ReverseIterator(moved);
    }

    /** Pre-increment (iterator/iterator.hpp:68-70): the base steps back. */
    method Increment()
      modifies this
      ensures current == old(current) - 1
      ensures Target() == old(Target()) - 1
    {
      current := current - 1;
    }

    /** Post-increment (iterator/iterator.hpp:72-76). */
    method PostIncrement() returns (tmp: ReverseIterator<T>)
      modifies this
      ensures fresh(tmp) && tmp.buf == buf && tmp.current == old(current)
      ensures current == old(current) - 1
    {
      var b := new VectorIterator(buf, current);
      tmp := new ReverseIterator(b);
      Increment();
    }

    /** `+=` (iterator/iterator.hpp:78-81): the in-place form of Plus. */
    method PlusAssign(n: int)
      modifies this
      ensures current == old(current) - n
      ensures Target() == old(Target()) - n
    {
      current := current - n;
    }

    /** Pre-decrement (iterator/iterator.hpp:83-85): the base steps on. */
    method Decrement()
      modifies this
      ensures current == old(current) + 1
      ensures Target() == old(Target()) + 1
    {
      current := current + 1;
    }

    /** Post-decrement (iterator/iterator.hpp:87-91). */
    method PostDecrement() returns (tmp: ReverseIterator<T>)
      modifies this
      ensures fresh(tmp) && tmp.buf == buf && tmp.current == old(current)
      ensures current == old(current) + 1
    {
      var b := new VectorIterator(buf, current);
      tmp := new ReverseIterator(b);
      Decrement();
    }

    /** `-=` (iterator/iterator.hpp:93-96): the base moves `n` on. */
    method MinusAssign(n: int)
      modifies this
      ensures current == old(current) + n
      ensures Target() == old(Target()) + n
    {
      current := current + n;
    }
  }

  /** The reverse walk of common/iterator_test.cpp:42-45 over the first `n`
      elements of a buffer: from `reverse_iterator(end)` while the base is
      not `begin`, read `*it` and step; the elements come out back to front. */
  method ReverseWalk<T>(buf: array<T>, n: nat) returns (out: seq<T>)
    requires n <= buf.Length
    ensures out == Reversed(buf[..n])
  {
    var from := new VectorIterator(buf, 0);
    var until := new VectorIterator(buf, n);
    var it := new ReverseIterator(until);
    var runtil := new ReverseIterator(from);
    out := [];
    while true
      invariant fresh(it) && it.buf == buf && 0 <= it.current <= n
      invariant runtil.current == 0
      invariant out == Reversed(buf[it.current..n])
      decreases it.current
    {
      var b := it.Base();
      var stop := runtil.Base();
      if !b.NotEquals(stop) {
        return;
      }
      var v := it.Deref();
      assert Reversed(buf[it.current - 1..n]) == Reversed(buf[it.current..n]) + [v] by {
        assert buf[it.current - 1..n][1..] == buf[it.current..n];
      }
      out := out + [v];
      var _ := it.PostIncrement();
    }
  }
}
