/** `ft::vector` (vector/vector.hpp): a buffer `_arr` of `_capacity` slots
    whose first `_size` hold the elements.  The buffer is an `array<T>` whose
    length is the capacity; allocator calls become array allocation, and
    constructing or destroying an element in a slot becomes a write or
    nothing.  Sizes are unbounded naturals.

    Lines of the source that do not compile are modelled by their evident
    intent: the buffer is written `arr` for `_arr` (vector/vector.hpp:100,
    163, 165, 233, 235, 243, 245), `reAlloc` for `_reAlloc` (180), `destory`
    for `destroy` (259), `size - 1` for `_size - 1` (211, 215), and `at` is
    declared `operator at` (192, 197). */
module Vector {
  import opened VectorIterator
  import opened ReverseIterator

  /** The `Max` macro (vector/vector.hpp:3). */
  function Max(x: nat, y: nat): (m: nat)
    ensures m >= x && m >= y && (m == x || m == y)
  {
    if x > y then x else y
  }

  datatype Error = OutOfRange

  datatype Result<T> = Success(value: T) | Failure(error: Error)

  /** What `operator=` as written leaves in the target: when the target is at
      least as long, the source elements over its front and the target's own
      (destroyed) tail after them. */
  function AssignedAsWritten<T>(lhs: seq<T>, rhs: seq<T>): (r: seq<T>)
    ensures |r| == if |lhs| >= |rhs| then |lhs| else |rhs|
    ensures r[..|rhs|] == rhs
  {
    if |lhs| >= |rhs| then rhs + lhs[|rhs|..] else rhs
  }

  /** Assigning [3] to [1, 2] as written leaves [3, 2] rather than [3]. */
  lemma AssignAsWrittenKeepsTail()
    ensures AssignedAsWritten([1, 2], [3]) == [3, 2] != [3]
  {
    assert [1, 2][1..] == [2];
  }

  /** Whenever the target is longer, the result as written is not a copy of
      the source. */
  lemma AssignAsWrittenIsNotCopy<T>(lhs: seq<T>, rhs: seq<T>)
    requires |lhs| > |rhs|
    ensures AssignedAsWritten(lhs, rhs) != rhs
    ensures |AssignedAsWritten(lhs, rhs)| == |lhs|
  {
  }

  class Vector<T(0)> {
    var arr: array<T>
    var size: nat

    /** `_size <= _capacity`. */
    ghost predicate Valid()
      reads this
    {
      size <= arr.Length
    }

    /** The elements, `_arr[0 .. _size)`. */
    function Elements(): (s: seq<T>)
      reads this, arr
      requires Valid()
      ensures |s| == size
    {
      arr[..size]
    }

    /** `capacity` (vector/vector.hpp:169-171): the buffer's length. */
    function Capacity(): (c: nat)
      reads this
      ensures c == arr.Length
    {
      arr.Length
    }

    /** `size` (vector/vector.hpp:150-152). */
    function Size(): (n: nat)
      reads this, arr
      requires Valid()
      ensures n == |Elements()|
    {
      size
    }

    /** `empty` (vector/vector.hpp:173-175). */
    function Empty(): (r: bool)
      reads this, arr
      requires Valid()
      ensures r <==> Elements() == []
    {
      size == 0
    }

    /** The default constructor (vector/vector.hpp:42-47): no elements and
        no buffer (a NULL `_arr` is a buffer of length 0). */
    constructor()
      ensures Valid() && fresh(arr)
      ensures Elements() == [] && Capacity() == 0
    {
      arr := new T[0];
      size := 0;
    }

    /** The fill constructor (vector/vector.hpp:49-58): `n` copies of `val`
        in a buffer of exactly `n` slots. */
    constructor Fill(n: nat, val: T)
      ensures Valid() && fresh(arr)
      ensures Elements() == seq(n, _ => val) && Capacity() == n
    {
      var a := new T[n];
      var i := 0;
      while i < n
        modifies a
        invariant 0 <= i <= n
        invariant a[..i] == seq(i, _ => val)
      {
        a[i] := val;
        i := i + 1;
      }
      arr := a;
      size := n;
    }

    /** The range constructor (vector/vector.hpp:60-71): the range's
        elements, `distance(begin, end)` of them, in as many slots. */
    constructor FromRange(xs: seq<T>)
      ensures Valid() && fresh(arr)
      ensures Elements() == xs && Capacity() == |xs|
    {
      var a := new T[|xs|];
      var i := 0;
      while i < |xs|
        modifies a
        invariant 0 <= i <= |xs|
        invariant a[..i] == xs[..i]
      {
        a[i] := xs[i];
        i := i + 1;
      }
      arr := a;
      size := |xs|;
    }

    /** The copy constructor (vector/vector.hpp:73-80): the same elements in
        a new buffer of the same capacity. */
    constructor Copy(obj: Vector<T>)
      requires obj.Valid()
      ensures Valid() && fresh(arr)
      ensures Elements() == obj.Elements() && Capacity() == obj.Capacity()
    {
      var a := new T[obj.arr.Length];
      var i := 0;
      while i < obj.size
        modifies a
        invariant 0 <= i <= obj.size
        invariant a[..i] == obj.arr[..i]
      {
        a[i] := obj.arr[i];
        i := i + 1;
      }
      arr := a;
      size := obj.size;
    }

    /** `_reAlloc` (vector/vector.hpp:17-27): a new buffer of `newCapacity`
        slots receives the first min(size, newCapacity) elements; the size is
        not changed, so the vector stays valid when nothing is cut off. */
    method ReAlloc(newCapacity: nat)
      requires Valid()
      modifies this
      ensures fresh(arr) && Capacity() == newCapacity && size == old(size)
      ensures newCapacity >= old(size) ==> Valid() && Elements() == old(Elements())
      ensures newCapacity < old(size) ==> arr[..] == old(arr[..newCapacity])
    {
      var a := new T[newCapacity];
      var i := 0;
      while i < size && i < newCapacity
        modifies a
        invariant 0 <= i <= size && i <= newCapacity
        invariant a[..i] == arr[..i]
      {
        a[i] := arr[i];
        i := i + 1;
      }
      arr := a;
    }

    /** `operator=` (vector/vector.hpp:92-112) with the shrinking branch
        setting `_size`: afterwards the target holds the source's elements.
        A target at least as long keeps its buffer; a shorter one takes a
        new buffer of the source's capacity.  Distinct vectors own distinct
        buffers. */
    method Assign(rhs: Vector<T>)
      requires Valid() && rhs.Valid()
      requires rhs != this ==> rhs.arr != arr
      modifies this, arr
      ensures Valid() && Elements() == old(rhs.Elements())
      ensures rhs != this ==> rhs.Elements() == old(rhs.Elements())
      ensures old(size) >= old(rhs.size) ==> arr == old(arr)
      ensures old(size) < old(rhs.size) ==> fresh(arr) && Capacity() == old(rhs.Capacity())
    {
      if this == rhs {
        return;
      }
      if size >= rhs.size {
        var i := 0;
        while i < rhs.size
          modifies arr
          invariant 0 <= i <= rhs.size
          invariant arr[..i] == rhs.arr[..i]
        {
          arr[i] := rhs.arr[i];
          i := i + 1;
        }
        // the tail [rhs._size, _size) is destroyed; the source then returns
        // without this update (vector/vector.hpp:96-101)
        size := rhs.size;
        return;
      }
      var a := new T[rhs.arr.Length];
      var i := 0;
      while i < rhs.size
        modifies a
        invariant 0 <= i <= rhs.size
        invariant a[..i] == rhs.arr[..i]
      {
        a[i] := rhs.arr[i];
        i := i + 1;
      }
      arr := a;
      size := rhs.size;
    }

    /** `operator=` exactly as vector/vector.hpp:92-112 writes it: when the
        target is at least as long, `_size` keeps its old value, so the
        destroyed tail still counts as elements. */
    method AssignAsWritten(rhs: Vector<T>)
      requires Valid() && rhs.Valid()
      requires rhs != this ==> rhs.arr != arr
      modifies this, arr
      ensures Valid()
      ensures Elements() == AssignedAsWritten(old(Elements()), old(rhs.Elements()))
    {
      if this == rhs {
        assert Elements()[size..] == [];
        return;
      }
      if size >= rhs.size {
        var i := 0;
        while i < rhs.size
          modifies arr
          invariant 0 <= i <= rhs.size
          invariant arr[..i] == rhs.arr[..i]
          invariant forall k | i <= k < arr.Length :: arr[k] == old(arr[k])
        {
          arr[i] := rhs.arr[i];
          i := i + 1;
        }
        assert arr[rhs.size..size] == old(Elements())[rhs.size..];
        assert arr[..size] == arr[..rhs.size] + arr[rhs.size..size];
        return;
      }
      var a := new T[rhs.arr.Length];
      var i := 0;
      while i < rhs.size
        modifies a
        invariant 0 <= i <= rhs.size
        invariant a[..i] == rhs.arr[..i]
      {
        a[i] := rhs.arr[i];
        i := i + 1;
      }
      arr := a;
      size := rhs.size;
    }

    /** `begin` (vector/vector.hpp:117-123): the first slot of the buffer. */
    method Begin() returns (it: VectorIterator<T>)
      ensures fresh(it) && it.buf == arr && it.ptr == 0
    {
      it := new VectorIterator(arr, 0);
    }

    /** `end` (vector/vector.hpp:125-131): one past the last element (a
        NULL buffer holds no element, so that is the first slot too). */
    method End() returns (it: VectorIterator<T>)
      requires Valid()
      ensures fresh(it) && it.buf == arr && it.ptr == |Elements()|
    {
      it := new VectorIterator(arr, size);
    }

    /** `rbegin` with the evident intent, `reverse_iterator(end())`: its
        `*` reads the last element. */
    method RBegin() returns (r: ReverseIterator<T>)
      requires Valid()
      ensures fresh(r) && r.buf == arr && r.current == size
      ensures size > 0 ==> 0 <= r.Target() < size && arr[r.Target()] == Elements()[|Elements()| - 1]
    {
      var e := End();
      r := new ReverseIterator(e);
    }

    /** `rend` with the evident intent, `reverse_iterator(begin())`: the
        element before it in the reverse range is the first element. */
    method REnd() returns (r: ReverseIterator<T>)
      requires Valid()
      ensures fresh(r) && r.buf == arr && r.current == 0 && r.Target() == -1
    {
      var b := Begin();
      r := new ReverseIterator(b);
    }

    /** `rbegin` as written (vector/vector.hpp:133-139):
        `reverse_iterator(begin())`, whose `*` reads the slot before the
        buffer, for every vector. */
    method RBeginAsWritten() returns (r: ReverseIterator<T>)
      ensures fresh(r) && r.buf == arr && r.current == 0
      ensures r.Target() < 0
    {
      var b := Begin();
      r := new ReverseIterator(b);
    }

    /** `rend` as written (vector/vector.hpp:141-147):
        `reverse_iterator(end())`, whose `*` reads the last element instead
        of standing one step past the first. */
    method REndAsWritten() returns (r: ReverseIterator<T>)
      requires Valid()
      ensures fresh(r) && r.buf == arr && r.current == size
      ensures r.Target() + 1 == |Elements()|
    {
      var e := End();
      r := new ReverseIterator(e);
    }

    /** The walk from `rbegin()` to `rend()` reading `*it` yields the
        elements back to front. */
    method ReverseElements() returns (out: seq<T>)
      requires Valid()
      ensures out == Reversed(Elements())
    {
      var it := RBegin();
      var stop := REnd();
      out := [];
      while it.current != stop.current
        invariant fresh(it) && it.buf == arr && 0 <= it.current <= size
        invariant stop.current == 0
        invariant out == Reversed(arr[it.current..size])
        decreases it.current
      {
        var v := it.Deref();
        assert Reversed(arr[it.current - 1..size]) == Reversed(arr[it.current..size]) + [v] by {
          assert arr[it.current - 1..size][1..] == arr[it.current..size];
        }
        out := out + [v];
        it.Increment();
      }
    }

    /** `resize` (vector/vector.hpp:158-167): `n` elements, the kept prefix
        unchanged and new slots holding `val`; a buffer too small grows to
        max(2 * capacity, n). */
    method Resize(n: nat, val: T)
      requires Valid()
      modifies this, arr
      ensures Valid()
      ensures Elements() == if n <= old(size) then old(Elements())[..n]
                            else old(Elements()) + seq(n - old(size), _ => val)
      ensures Capacity() == if n > old(Capacity()) then Max(2 * old(Capacity()), n) else old(Capacity())
    {
      if n > arr.Length {
        ReAlloc(Max(arr.Length * 2, n));
      }
      // the elements [n, _size) are destroyed, which leaves their slots
      var i := size;
      while i < n
        modifies arr
        invariant size <= i <= n || (n < size && i == size)
        invariant arr[..size] == old(Elements())
        invariant size <= i ==> arr[size..i] == seq(i - size, _ => val)
      {
        arr[i] := val;
        i := i + 1;
      }
      if n > size {
        assert arr[..n] == arr[..size] + arr[size..n];
      }
      size := n;
    }

    /** `resever`, that is `reserve` (vector/vector.hpp:177-181): nothing
        when `n` slots are already there, else exactly `n` slots with the
        elements unchanged.  The capacity afterwards is max(capacity, n), so
        a second call with the same `n` changes nothing. */
    method Reserve(n: nat)
      requires Valid()
      modifies this
      ensures Valid() && Elements() == old(Elements())
      ensures Capacity() == Max(old(Capacity()), n)
      ensures n <= old(Capacity()) ==> arr == old(arr)
    {
      if n <= arr.Length {
        return;
      }
      ReAlloc(n);
    }

    /** `operator[]` (vector/vector.hpp:184-190): unchecked, so the slot must
        hold an element. */
    function Get(n: nat): (v: T)
      reads this, arr
      requires Valid() && n < size
      ensures v == Elements()[n]
    {
      arr[n]
    }

    /** `at` (vector/vector.hpp:192-200): out_of_range from `n >= _size`,
        otherwise the same element as `operator[]`. */
    function At(n: nat): (r: Result<T>)
      reads this, arr
      requires Valid()
      ensures r.Failure? <==> n >= |Elements()|
      ensures r.Success? ==> r.value == Get(n)
    {
      if n >= size then Failure(OutOfRange) else Success(arr[n])
    }

    /** `front` (vector/vector.hpp:202-208): the first element. */
    function Front(): (v: T)
      reads this, arr
      requires Valid() && size > 0
      ensures v == Elements()[0]
    {
      arr[0]
    }

    /** `back` (vector/vector.hpp:210-216): the last element. */
    function Back(): (v: T)
      reads this, arr
      requires Valid() && size > 0
      ensures v == Elements()[|Elements()| - 1]
    {
      arr[size - 1]
    }

    /** The range `assign` (vector/vector.hpp:227-237): the range's elements;
        the buffer grows to exactly their number when it is too small. */
    method AssignRange(xs: seq<T>)
      requires Valid()
      modifies this, arr
      ensures Valid() && Elements() == xs
      ensures Capacity() == if |xs| > old(Capacity()) then |xs| else old(Capacity())
    {
      if |xs| > arr.Length {
        ReAlloc(|xs|);
      }
      // the elements [new_size, _size) are destroyed, which leaves their slots
      var i := 0;
      while i < |xs|
        modifies arr
        invariant 0 <= i <= |xs| <= arr.Length
        invariant arr[..i] == xs[..i]
      {
        arr[i] := xs[i];
        i := i + 1;
      }
      size := |xs|;
    }

    /** The fill `assign` (vector/vector.hpp:239-247): `n` copies of `val`;
        the buffer grows to exactly `n` when it is too small. */
    method AssignFill(n: nat, val: T)
      requires Valid()
      modifies this, arr
      ensures Valid() && Elements() == seq(n, _ => val)
      ensures Capacity() == if n > old(Capacity()) then n else old(Capacity())
    {
      if n > arr.Length {
        ReAlloc(n);
      }
      var i := 0;
      while i < n
        modifies arr
        invariant 0 <= i <= n <= arr.Length
        invariant arr[..i] == seq(i, _ => val)
      {
        arr[i] := val;
        i := i + 1;
      }
      size := n;
    }

    /** `push_back` (vector/vector.hpp:249-254): `val` goes after the
        elements; a full buffer first grows to max(2 * capacity, 1). */
    method PushBack(val: T)
      requires Valid()
      modifies this, arr
      ensures Valid() && Elements() == old(Elements()) + [val]
      ensures Capacity() == if old(size) >= old(Capacity()) then Max(2 * old(Capacity()), 1) else old(Capacity())
      ensures Capacity() >= old(Capacity())
    {
      if size >= arr.Length {
        ReAlloc(Max(arr.Length * 2, 1));
      }
      arr[size] := val;
      size := size + 1;
    }

    /** `pop_back` (vector/vector.hpp:256-261): nothing on an empty vector,
        else the last element goes and the rest stay.  The source destroys
        slot `_size` (one past the last element) before the decrement; the
        evident intent is the last element, and destroying leaves a slot's
        value in this model either way. */
    method PopBack()
      requires Valid()
      modifies this
      ensures Valid() && arr == old(arr)
      ensures old(size) == 0 ==> Elements() == old(Elements())
      ensures old(size) > 0 ==> Elements() == old(Elements())[..old(size) - 1]
    {
      if size == 0 {
        return;
      }
      size := size - 1;
    }
  }
}
