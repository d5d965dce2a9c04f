/** `ft::VectorIterator` (iterator/VectorIterator.hpp): a raw pointer into
    a vector's buffer, modelled as the buffer and an offset into it.  The
    arithmetic is on the offset; only dereferencing needs it in bounds. */
module VectorIterator {

  class VectorIterator<T> {
    const buf: array<T>
    var ptr: int

    /** iterator/VectorIterator.hpp:21-23. */
    constructor(buf: array<T>, ptr: int)
      ensures this.buf == buf && this.ptr == ptr
    {
      this.buf := buf;
      this.ptr := ptr;
    }

    /** `operator-` between iterators (iterator/VectorIterator.hpp:87-89):
        the number of elements from `rhs` to this iterator. */
    function Distance(rhs: VectorIterator<T>): (d: int)
      reads this, rhs
      ensures d + rhs.ptr == ptr
    {
      ptr - rhs.ptr
    }

    /** `operator==` (iterator/VectorIterator.hpp:35-37): same position,
        that is, no distance between the two. */
    function Equals(rhs: VectorIterator<T>): (r: bool)
      reads this, rhs
      ensures r <==> Distance(rhs) == 0
    {
      ptr == rhs.ptr
    }

    /** `operator!=` (iterator/VectorIterator.hpp:39-41). */
    function NotEquals(rhs: VectorIterator<T>): (r: bool)
      reads this, rhs
      ensures r <==> !Equals(rhs)
    {
      ptr != rhs.ptr
    }

    /** `operator<` (iterator/VectorIterator.hpp:91-93): `rhs` lies ahead. */
    function Less(rhs: VectorIterator<T>): (r: bool)
      reads this, rhs
      ensures r <==> rhs.Distance(this) > 0
    {
      ptr < rhs.ptr
    }

    /** `operator>` (iterator/VectorIterator.hpp:95-97): the mirror of `<`. */
    function Greater(rhs: VectorIterator<T>): (r: bool)
      reads this, rhs
      ensures r <==> rhs.Less(this)
    {
      ptr > rhs.ptr
    }

    /** `operator<=` (iterator/VectorIterator.hpp:99-101): not `>`. */
    function LessEq(rhs: VectorIterator<T>): (r: bool)
      reads this, rhs
      ensures r <==> !Greater(rhs)
      ensures r <==> Less(rhs) || Equals(rhs)
    {
      ptr <= rhs.ptr
    }

    /** `operator>=` (iterator/VectorIterator.hpp:103-105): not `<`. */
    function GreaterEq(rhs: VectorIterator<T>): (r: bool)
      reads this, rhs
      ensures r <==> !Less(rhs)
      ensures r <==> Greater(rhs) || Equals(rhs)
    {
      ptr >= rhs.ptr
    }

    /** `operator*` (iterator/VectorIterator.hpp:43-49): the element under
        the pointer, which must lie inside the buffer. */
    function Value(): (v: T)
      reads this, buf
      requires 0 <= ptr < buf.Length
      ensures v == buf[ptr]
    {
      buf[ptr]
    }

    /** `operator[]` (iterator/VectorIterator.hpp:117-123): the element `n`
        places on. */
    function Subscript(n: int): (v: T)
      reads this, buf
      requires 0 <= ptr + n < buf.Length
      ensures v == buf[ptr + n]
    {
      buf[ptr + n]
    }

    /** Pre-increment (iterator/VectorIterator.hpp:55-57). */
    method Increment()
      modifies this
      ensures ptr == old(ptr) + 1
    {
      ptr := ptr + 1;
    }

    /** Post-increment (iterator/VectorIterator.hpp:59-63): a copy of the old
        position, and this iterator one further. */
    method PostIncrement() returns (tmp: VectorIterator<T>)
      modifies this
      ensures fresh(tmp) && tmp.buf == buf && tmp.ptr == old(ptr)
      ensures ptr == old(ptr) + 1 && Distance(tmp) == 1
    {
      tmp := new VectorIterator(buf, ptr);
      Increment();
    }

    /** Pre-decrement (iterator/VectorIterator.hpp:65-67). */
    method Decrement()
      modifies this
      ensures ptr == old(ptr) - 1
    {
      ptr := ptr - 1;
    }

    /** Post-decrement (iterator/VectorIterator.hpp:69-73). */
    method PostDecrement() returns (tmp: VectorIterator<T>)
      modifies this
      ensures fresh(tmp) && tmp.buf == buf && tmp.ptr == old(ptr)
      ensures ptr == old(ptr) - 1 && tmp.Distance(this) == 1
    {
      tmp := new VectorIterator(buf, ptr);
      Decrement();
    }

    /** `it + n` (iterator/VectorIterator.hpp:75-77): `n` places on, so that
        `(it + n) - it == n`, and `*(it + n)` is `it[n]`. */
    method Plus(n: int) returns (r: VectorIterator<T>)
      ensures fresh(r) && r.buf == buf && r.ptr == ptr + n
      ensures r.Distance(this) == n
      ensures 0 <= ptr + n < buf.Length ==> r.Value() == Subscript(n)
    {
      r := new VectorIterator(buf, ptr + n);
    }

    /** `it - n` (iterator/VectorIterator.hpp:83-85): `n` places back. */
    method Minus(n: int) returns (r: VectorIterator<T>)
      ensures fresh(r) && r.buf == buf && r.ptr == ptr - n
      ensures Distance(r) == n
    {
      r := new VectorIterator(buf, ptr - n);
    }

    /** `+=` (iterator/VectorIterator.hpp:107-110): the same move as `+ n`,
        in place. */
    method PlusAssign(n: int)
      modifies this
      ensures ptr == old(ptr) + n
    {
      ptr := ptr + n;
    }

    /** `-=` (iterator/VectorIterator.hpp:112-115): the same move as `- n`,
        in place. */
    method MinusAssign(n: int)
      modifies this
      ensures ptr == old(ptr) - n
    {
      ptr := ptr - n;
    }
  }

  /** `n + it` (iterator/VectorIterator.hpp:126-131): the same position as
      `it + n`. */
  method PlusLeft<T>(n: int, it: VectorIterator<T>) returns (r: VectorIterator<T>)
    ensures fresh(r) && r.buf == it.buf && r.ptr == it.ptr + n
    ensures r.Distance(it) == n
  {
    r := new VectorIterator(it.buf, n + it.ptr);
  }

  /** The walk `for (it = begin; it != end; it++) *it` over the first `n`
      elements of a buffer (common/vector_test.cpp:62-63) visits them in
      order. */
  method Walk<T>(buf: array<T>, n: nat) returns (out: seq<T>)
    requires n <= buf.Length
    ensures out == buf[..n]
  {
    var it := new VectorIterator(buf, 0);
    var end := new VectorIterator(buf, n);
    out := [];
    while it.NotEquals(end)
      invariant fresh(it) && it.buf == buf && 0 <= it.ptr <= n
      invariant end.ptr == n
      invariant out == buf[..it.ptr]
      decreases n - it.ptr
    {
      assert buf[..it.ptr + 1] == buf[..it.ptr] + [buf[it.ptr]];
      out := out + [it.Value()];
      var _ := it.PostIncrement();
    }
  }
}
