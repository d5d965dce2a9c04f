/** `ft::equal` and `ft::lexicographical_compare` (algorithm/algorithm.hpp).
    An input range [begin, end) is modelled by the sequence of the elements it
    visits; the loops advance an index where the source advances iterators. */
module Algorithm {
  import opened Order

  /** Reference definition for both `equal` overloads: `pred` holds between
      each element of `a` and the element at the same offset of `b`. */
  function EqualBy<T, U>(a: seq<T>, b: seq<U>, pred: (T, U) -> bool): bool
    requires |a| <= |b|
  {
    if a == [] then true else pred(a[0], b[0]) && EqualBy(a[1..], b[1..], pred)
  }

  lemma {:induction false} EqualByMeans<T, U>(a: seq<T>, b: seq<U>, pred: (T, U) -> bool)
    requires |a| <= |b|
    ensures EqualBy(a, b, pred) <==> forall i :: 0 <= i < |a| ==> pred(a[i], b[i])
  {
    if a != [] {
      EqualByMeans(a[1..], b[1..], pred);
      assert forall i :: 1 <= i < |a| ==> a[1..][i - 1] == a[i] && b[1..][i - 1] == b[i];
    }
  }

  /** algorithm/algorithm.hpp:7-15: `equal(b1, e1, b2)` compares with `==`.
      The second range must be at least as long as the first (the source reads
      past it otherwise). */
  method Equal<T(==)>(a: seq<T>, b: seq<T>) returns (r: bool)
    requires |a| <= |b|
    ensures r <==> forall i :: 0 <= i < |a| ==> a[i] == b[i]
  {
    var i := 0;
    while i != |a|
      invariant 0 <= i <= |a|
      invariant forall k :: 0 <= k < i ==> a[k] == b[k]
    {
      if !(a[i] == b[i]) {
        return false;
      }
      i := i + 1;
    }
    return true;
  }

  /** algorithm/algorithm.hpp:17-25: the same loop with `pred` in place of `==`. */
  method EqualPred<T, U>(a: seq<T>, b: seq<U>, pred: (T, U) -> bool) returns (r: bool)
    requires |a| <= |b|
    ensures r == EqualBy(a, b, pred)
  {
    EqualByMeans(a, b, pred);
    var i := 0;
    while i != |a|
      invariant 0 <= i <= |a|
      invariant forall k :: 0 <= k < i ==> pred(a[k], b[k])
    {
      if !pred(a[i], b[i]) {
        return false;
      }
      i := i + 1;
    }
    return true;
  }

  /** Changing one element of an equal range makes `equal` false: the
      {20,40,60,80,100} / {20,40,60,81,100} scenario of common/algorithm_test.cpp:43-59. */
  lemma {:induction false} EqualDetectsChange<T>(a: seq<T>, k: nat, x: T)
    requires k < |a| && x != a[k]
    ensures EqualBy(a, a, (p: T, q: T) => p == q)
    ensures !EqualBy(a[k := x], a, (p: T, q: T) => p == q)
  {
    var eq := (p: T, q: T) => p == q;
    EqualByMeans(a, a, eq);
    EqualByMeans(a[k := x], a, eq);
  }

  /** Reference definition for both `lexicographical_compare` overloads:
      the first range is smaller at the first position where the elements are
      not equivalent, or it is a proper prefix of the second. */
  function LexLess<T>(a: seq<T>, b: seq<T>, lt: (T, T) -> bool): bool
  {
    if a == [] then b != []
    else if b == [] || lt(b[0], a[0]) then false
    else if lt(a[0], b[0]) then true
    else LexLess(a[1..], b[1..], lt)
  }

  /** `a` and `b` agree (up to equivalence) on their first `i` positions. */
  ghost predicate EquivPrefix<T>(a: seq<T>, b: seq<T>, i: nat, lt: (T, T) -> bool)
    requires i <= |a| && i <= |b|
  {
    forall j :: 0 <= j < i ==> Equiv(lt, a[j], b[j])
  }

  /** The characterisation of the comparison by the first difference
      (algorithm/algorithm.hpp:28-40): true exactly when, after an equivalent
      common prefix of length i, either `a` ends while `b` goes on, or a[i] < b[i]. */
  lemma {:induction false} LexLessMeans<T(!new)>(a: seq<T>, b: seq<T>, lt: (T, T) -> bool)
    requires StrictWeakOrder(lt)
    ensures LexLess(a, b, lt) <==>
      exists i :: 0 <= i <= |a| && i <= |b| && EquivPrefix(a, b, i, lt) &&
        ((i == |a| && i < |b|) || (i < |a| && i < |b| && lt(a[i], b[i])))
  {
    if a == [] {
      if b != [] {
        assert EquivPrefix(a, b, 0, lt);
      }
    } else if b == [] {
    } else if lt(b[0], a[0]) {
      forall i | 0 <= i <= |a| && i <= |b| && EquivPrefix(a, b, i, lt)
        ensures !((i == |a| && i < |b|) || (i < |a| && i < |b| && lt(a[i], b[i])))
      {
        assert i == 0;
      }
    } else if lt(a[0], b[0]) {
      assert EquivPrefix(a, b, 0, lt);
    } else {
      LexLessMeans(a[1..], b[1..], lt);
      if LexLess(a, b, lt) {
        var i :| 0 <= i <= |a| - 1 && i <= |b| - 1 && EquivPrefix(a[1..], b[1..], i, lt) &&
          ((i == |a| - 1 && i < |b| - 1) || (i < |a| - 1 && i < |b| - 1 && lt(a[1..][i], b[1..][i])));
        assert EquivPrefix(a, b, i + 1, lt) by {
          forall j | 0 <= j < i + 1 ensures Equiv(lt, a[j], b[j]) {
            if j > 0 { assert a[j] == a[1..][j - 1] && b[j] == b[1..][j - 1]; }
          }
        }
      } else {
        forall i | 0 <= i <= |a| && i <= |b| && EquivPrefix(a, b, i, lt)
          ensures !((i == |a| && i < |b|) || (i < |a| && i < |b| && lt(a[i], b[i])))
        {
          if i > 0 {
            assert EquivPrefix(a[1..], b[1..], i - 1, lt) by {
              forall j | 0 <= j < i - 1 ensures Equiv(lt, a[1..][j], b[1..][j]) {
                assert a[1..][j] == a[j + 1] && b[1..][j] == b[j + 1];
              }
            }
          }
        }
      }
    }
  }

  /** A range never compares less than itself. */
  lemma {:induction false} LexIrreflexive<T>(a: seq<T>, lt: (T, T) -> bool)
    requires forall x :: !lt(x, x)
    ensures !LexLess(a, a, lt)
  {
    if a != [] {
      LexIrreflexive(a[1..], lt);
    }
  }

  /** Two ranges never both compare less than each other. */
  lemma {:induction false} LexAsymmetric<T>(a: seq<T>, b: seq<T>, lt: (T, T) -> bool)
    requires forall x, y :: lt(x, y) ==> !lt(y, x)
    ensures !(LexLess(a, b, lt) && LexLess(b, a, lt))
  {
    if a != [] && b != [] && !lt(a[0], b[0]) && !lt(b[0], a[0]) {
      LexAsymmetric(a[1..], b[1..], lt);
    }
  }

  /** Under a strict total order on the elements, two ranges are equal or one of
      them compares less than the other. */
  lemma {:induction false} LexTrichotomy<T>(a: seq<T>, b: seq<T>, lt: (T, T) -> bool)
    requires forall x, y :: lt(x, y) ==> !lt(y, x)
    requires forall x, y :: x == y || lt(x, y) || lt(y, x)
    ensures LexLess(a, b, lt) || a == b || LexLess(b, a, lt)
  {
    if a != [] && b != [] && !lt(a[0], b[0]) && !lt(b[0], a[0]) {
      LexTrichotomy(a[1..], b[1..], lt);
      if a[1..] == b[1..] {
        assert a[0] == b[0];
        assert a == [a[0]] + a[1..] && b == [b[0]] + b[1..];
      }
    }
  }

  /** With an empty first range the result is "the second range is not empty"
      (algorithm/algorithm.hpp:39). */
  lemma LexEmptyFirst<T>(b: seq<T>, lt: (T, T) -> bool)
    ensures LexLess([], b, lt) <==> |b| > 0
  {
  }

  /** algorithm/algorithm.hpp:28-40, the overload that compares with `<`,
      on integer elements. */
  method LexicographicalCompare(a: seq<int>, b: seq<int>) returns (r: bool)
    ensures r == LexLess(a, b, (x: int, y: int) => x < y)
  {
    var lt := (x: int, y: int) => x < y;
    var i := 0;
    while i != |a|
      invariant 0 <= i <= |a| && i <= |b|
      invariant LexLess(a, b, lt) == LexLess(a[i..], b[i..], lt)
    {
      if i == |b| || b[i] < a[i] {
        return false;
      }
      if a[i] < b[i] {
        return true;
      }
      assert a[i..][1..] == a[i + 1..] && b[i..][1..] == b[i + 1..];
      i := i + 1;
    }
    return i != |b|;
  }

  /** algorithm/algorithm.hpp:42-55, the overload that compares with `comp`. */
  method LexicographicalCompareBy<T>(a: seq<T>, b: seq<T>, comp: (T, T) -> bool) returns (r: bool)
    ensures r == LexLess(a, b, comp)
  {
    var i := 0;
    while i != |a|
      invariant 0 <= i <= |a| && i <= |b|
      invariant LexLess(a, b, comp) == LexLess(a[i..], b[i..], comp)
    {
      if i == |b| || comp(b[i], a[i]) {
        return false;
      }
      if comp(a[i], b[i]) {
        return true;
      }
      assert a[i..][1..] == a[i + 1..] && b[i..][1..] == b[i + 1..];
      i := i + 1;
    }
    return i != |b|;
  }

  /** ASCII lower-casing, as `std::tolower` does in the "C" locale. */
  function ToLower(c: char): char {
    if 'A' <= c <= 'Z' then (c as int + 32) as char else c
  }

  /** `mycomp` of common/algorithm_test.cpp:16: case-insensitive comparison. */
  function CaseInsensitiveLess(c1: char, c2: char): bool {
    ToLower(c1) < ToLower(c2)
  }

  /** common/algorithm_test.cpp:16-33: "Apple" is less than "apartment" with
      `<` ('A' sorts before 'a'), but not under the case-insensitive `mycomp`
      ("app" against "apa" decides). */
  lemma AppleApartment()
    ensures LexLess("Apple", "apartment", (x: char, y: char) => x < y)
    ensures !LexLess("Apple", "apartment", CaseInsensitiveLess)
  {
    var a, b := "Apple", "apartment";
    assert a[1..][1..] == "ple" && b[1..][1..] == "artment";
    assert CaseInsensitiveLess(b[2], a[2]);
  }
}
