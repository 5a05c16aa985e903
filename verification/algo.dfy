/** The non-modifying and element-wise algorithms: all_of, any_of, none_of,
    count, count_if, the finds, find_first_of, adjacent_find, max_element,
    min_element, is_sorted, median, replace, replace_if, reverse_copy, rgcd
    and is_permutation.

  A range that is only read is a sequence and an iterator into it is an
  index, `|s|` standing for `last`. A range written in place is an index
  range of an array. */
module Algo {
  import opened Order
  import opened Util
  import opened Functional
  import opened Ranges

  /** all_of: whether every element satisfies `pred`. */
  method AllOf<T>(s: seq<T>, pred: T -> bool) returns (r: bool)
    ensures r <==> forall i :: 0 <= i < |s| ==> pred(s[i])
    ensures |s| == 0 ==> r
  {
    var i := 0;
    while i < |s|
      invariant 0 <= i <= |s|
      invariant forall k :: 0 <= k < i ==> pred(s[k])
    {
      if !pred(s[i]) {
        return false;
      }
      i := i + 1;
    }
    return true;
  }

  /** any_of: whether some element satisfies `pred`. */
  method AnyOf<T>(s: seq<T>, pred: T -> bool) returns (r: bool)
    ensures r <==> exists i :: 0 <= i < |s| && pred(s[i])
    ensures |s| == 0 ==> !r
  {
    var i := 0;
    while i < |s|
      invariant 0 <= i <= |s|
      invariant forall k :: 0 <= k < i ==> !pred(s[k])
    {
      if pred(s[i]) {
        return true;
      }
      i := i + 1;
    }
    return false;
  }

  /** none_of: whether no element satisfies `pred`, the negation of
      any_of. */
  method NoneOf<T>(s: seq<T>, pred: T -> bool) returns (r: bool)
    ensures r <==> !exists i :: 0 <= i < |s| && pred(s[i])
    ensures |s| == 0 ==> r
  {
    var i := 0;
    while i < |s|
      invariant 0 <= i <= |s|
      invariant forall k :: 0 <= k < i ==> !pred(s[k])
    {
      if pred(s[i]) {
        return false;
      }
      i := i + 1;
    }
    return true;
  }

  /** count: the number of elements equal to `value`, its multiplicity in
      the range. */
  method Count<T(==)>(s: seq<T>, value: T) returns (n: int)
    ensures n == multiset(s)[value]
    ensures 0 <= n <= |s|
    ensures n == 0 <==> value !in s
  {
    n := 0;
    var i := 0;
    while i < |s|
      invariant 0 <= i <= |s|
      invariant n == multiset(s[..i])[value]
    {
      assert s[..i + 1] == s[..i] + [s[i]];
      if s[i] == value {
        n := n + 1;
      }
      i := i + 1;
    }
    assert s[..i] == s;
  }

  /** count_if: the number of elements that satisfy `pred`. */
  method CountIf<T>(s: seq<T>, pred: T -> bool) returns (n: int)
    ensures n == CountWhere(s, pred)
    ensures 0 <= n <= |s|
  {
    n := 0;
    var i := 0;
    while i < |s|
      invariant 0 <= i <= |s|
      invariant n == CountWhere(s[..i], pred)
    {
      assert s[..i + 1][..i] == s[..i];
      if pred(s[i]) {
        n := n + 1;
      }
      i := i + 1;
    }
    assert s[..i] == s;
  }

  /** find: the first position holding `value`, or the end. */
  method Find<T(==)>(s: seq<T>, value: T) returns (r: int)
    ensures 0 <= r <= |s|
    ensures r < |s| ==> s[r] == value
    ensures forall k :: 0 <= k < r ==> s[k] != value
    ensures r == |s| <==> value !in s
  {
    r := 0;
    while r < |s|
      invariant 0 <= r <= |s|
      invariant forall k :: 0 <= k < r ==> s[k] != value
    {
      if s[r] == value {
        break;
      }
      r := r + 1;
    }
  }

  /** find_if: the first position whose element satisfies `pred`, or the
      end. */
  method FindIf<T>(s: seq<T>, pred: T -> bool) returns (r: int)
    ensures 0 <= r <= |s|
    ensures r < |s| ==> pred(s[r])
    ensures forall k :: 0 <= k < r ==> !pred(s[k])
  {
    r := 0;
    while r < |s| && !pred(s[r])
      invariant 0 <= r <= |s|
      invariant forall k :: 0 <= k < r ==> !pred(s[k])
    {
      r := r + 1;
    }
  }

  /** find_if_not: the first position whose element fails `pred`, or the
      end. */
  method FindIfNot<T>(s: seq<T>, pred: T -> bool) returns (r: int)
    ensures 0 <= r <= |s|
    ensures r < |s| ==> !pred(s[r])
    ensures forall k :: 0 <= k < r ==> pred(s[k])
  {
    r := 0;
    while r < |s| && pred(s[r])
      invariant 0 <= r <= |s|
      invariant forall k :: 0 <= k < r ==> pred(s[k])
    {
      r := r + 1;
    }
  }

  /** find_first_of: the first position of the first range whose element
      occurs in the second range (looked up with find), or the end. */
  method FindFirstOf<T(==)>(s1: seq<T>, s2: seq<T>) returns (r: int)
    ensures 0 <= r <= |s1|
    ensures r < |s1| ==> s1[r] in s2
    ensures forall k :: 0 <= k < r ==> s1[k] !in s2
  {
    r := 0;
    while r < |s1|
      invariant 0 <= r <= |s1|
      invariant forall k :: 0 <= k < r ==> s1[k] !in s2
    {
      var at := Find(s2, s1[r]);
      if at != |s2| {
        return r;
      }
      r := r + 1;
    }
  }

  /** find_first_of with a predicate: the first position of the first range
      whose element is related by `pred` to some element of the second
      range, or the end. */
  method FindFirstOfBy<T>(s1: seq<T>, s2: seq<T>, pred: (T, T) -> bool) returns (r: int)
    ensures 0 <= r <= |s1|
    ensures r < |s1| ==> exists j :: 0 <= j < |s2| && pred(s1[r], s2[j])
    ensures forall k, j :: 0 <= k < r && 0 <= j < |s2| ==> !pred(s1[k], s2[j])
  {
    r := 0;
    while r < |s1|
      invariant 0 <= r <= |s1|
      invariant forall k, j :: 0 <= k < r && 0 <= j < |s2| ==> !pred(s1[k], s2[j])
    {
      var current := 0;
      while current < |s2|
        invariant 0 <= current <= |s2|
        invariant forall j :: 0 <= j < current ==> !pred(s1[r], s2[j])
      {
        if pred(s1[r], s2[current]) {
          return r;
        }
        current := current + 1;
      }
      r := r + 1;
    }
  }

  /** adjacent_find with a predicate: the first position `i` such that
      `pred(s[i], s[i + 1])`, or the end when there is none (in particular
      for fewer than two elements). */
  method AdjacentFindBy<T>(s: seq<T>, pred: (T, T) -> bool) returns (r: int)
    ensures 0 <= r <= |s|
    ensures r < |s| ==> r + 1 < |s| && pred(s[r], s[r + 1])
    ensures forall k :: 0 <= k < r && k + 1 < |s| ==> !pred(s[k], s[k + 1])
    ensures r == |s| ==> forall k :: 0 <= k < |s| - 1 ==> !pred(s[k], s[k + 1])
  {
    if |s| < 2 {
      return |s|;
    }
    var first, next := 0, 1;
    while next < |s|
      invariant 0 <= first && next == first + 1 <= |s|
      invariant forall k :: 0 <= k < first ==> !pred(s[k], s[k + 1])
    {
      if pred(s[first], s[next]) {
        return first;
      }
      first, next := first + 1, next + 1;
    }
    return |s|;
  }

  /** adjacent_find: the first position of two equal neighbours. */
  method AdjacentFind<T(==)>(s: seq<T>) returns (r: int)
    ensures 0 <= r <= |s|
    ensures r < |s| ==> r + 1 < |s| && s[r] == s[r + 1]
    ensures forall k :: 0 <= k < r && k + 1 < |s| ==> s[k] != s[k + 1]
    ensures r == |s| ==> forall k :: 0 <= k < |s| - 1 ==> s[k] != s[k + 1]
  {
    r := AdjacentFindBy(s, (x, y) => x == y);
  }

  /** The scenario of the adjacent_find test: in `{1, 2, 4, 3, 8, 8, 9}` the
      first equal neighbours are at index 4, and the first neighbours where
      the second is the square of the first are at index 1. */
  method AdjacentFindScenario() returns (equal: int, square: int)
    ensures equal == 4 && square == 1
  {
    var iv := [1, 2, 4, 3, 8, 8, 9];
    equal := AdjacentFind(iv);
    assert iv[4] == iv[5];
    square := AdjacentFindBy(iv, (x, y) => x * x == y);
    assert iv[1] * iv[1] == iv[2] && iv[0] * iv[0] != iv[1];
  }

  /** One turn of the max_element loop keeps its two facts: the candidate is
      not less than anything seen, and it is greater than everything seen
      before it. */
  lemma MaxElementStep<T(!new)>(s: seq<T>, r: int, i: int, lt: (T, T) -> bool)
    requires StrictWeakOrder(lt)
    requires 0 <= r < i < |s|
    requires forall k :: 0 <= k < i ==> !lt(s[r], s[k])
    requires forall k :: 0 <= k < r ==> lt(s[k], s[r])
    ensures lt(s[r], s[i]) ==>
              (forall k :: 0 <= k <= i ==> !lt(s[i], s[k])) && (forall k :: 0 <= k < i ==> lt(s[k], s[i]))
  {
    if lt(s[r], s[i]) {
      forall k | 0 <= k <= i
        ensures !lt(s[i], s[k])
      {
        if k < i && lt(s[i], s[k]) {
          Trans(lt, s[r], s[i], s[k]);
        }
      }
      forall k | 0 <= k < i
        ensures lt(s[k], s[i])
      {
        if !lt(s[k], s[i]) {
          NegTrans(lt, s[r], s[k], s[i]);
        }
      }
    }
  }

  /** max_element with a comparator: the first position of a maximal
      element (nothing is greater, everything before it is less), or the
      end of an empty range. */
  method MaxElementBy<T(!new)>(s: seq<T>, lt: (T, T) -> bool) returns (r: int)
    requires StrictWeakOrder(lt)
    ensures |s| == 0 ==> r == 0
    ensures |s| > 0 ==> 0 <= r < |s|
    ensures |s| > 0 ==> forall k :: 0 <= k < |s| ==> !lt(s[r], s[k])
    ensures |s| > 0 ==> forall k :: 0 <= k < r ==> lt(s[k], s[r])
  {
    if |s| == 0 {
      return 0;
    }
    r := 0;
    var i := 1;
    while i < |s|
      invariant 0 <= r < i <= |s|
      invariant forall k :: 0 <= k < i ==> !lt(s[r], s[k])
      invariant forall k :: 0 <= k < r ==> lt(s[k], s[r])
    {
      MaxElementStep(s, r, i, lt);
      if lt(s[r], s[i]) {
        r := i;
      }
      i := i + 1;
    }
  }

  /** max_element: the first position of a largest element. */
  method MaxElement(s: seq<int>) returns (r: int)
    ensures |s| == 0 ==> r == 0
    ensures |s| > 0 ==> 0 <= r < |s|
    ensures |s| > 0 ==> forall k :: 0 <= k < |s| ==> s[k] <= s[r]
    ensures |s| > 0 ==> forall k :: 0 <= k < r ==> s[k] < s[r]
  {
    IntLessIsTotal();
    r := MaxElementBy(s, IntLess);
  }

  /** min_element: the first position of a smallest element; its loop is
      max_element's with `>` in place of `<`. */
  method MinElement(s: seq<int>) returns (r: int)
    ensures |s| == 0 ==> r == 0
    ensures |s| > 0 ==> 0 <= r < |s|
    ensures |s| > 0 ==> forall k :: 0 <= k < |s| ==> s[r] <= s[k]
    ensures |s| > 0 ==> forall k :: 0 <= k < r ==> s[r] < s[k]
  {
    IntGreaterIsTotal();
    r := MaxElementBy(s, IntGreater);
  }

  /** is_sorted with a predicate, as written: fails as soon as `pred` does
      not hold of two neighbours, so with a strict `pred` such as `<` it
      demands strictly increasing neighbours. */
  method IsSortedByAsWritten<T>(s: seq<T>, pred: (T, T) -> bool) returns (r: bool)
    ensures r <==> forall k :: 0 <= k < |s| - 1 ==> pred(s[k], s[k + 1])
  {
    if |s| == 0 {
      return true;
    }
    var first, next := 0, 1;
    while next < |s|
      invariant 0 <= first && next == first + 1 <= |s|
      invariant forall k :: 0 <= k < first ==> pred(s[k], s[k + 1])
    {
      if !pred(s[first], s[next]) {
        return false;
      }
      first, next := first + 1, next + 1;
    }
    return true;
  }

  /** Two equal neighbours are sorted, yet the written predicate overload
      rejects them under `<`: `{1, 1}` is not accepted. */
  lemma IsSortedByRejectsEqualNeighbours()
    ensures SortedBetween([1, 1], 0, 2, IntLess)
    ensures !(forall k :: 0 <= k < |[1, 1]| - 1 ==> IntLess([1, 1][k], [1, 1][k + 1]))
  {
    assert !IntLess([1, 1][0], [1, 1][1]);
  }

  /** Neighbours in order make the whole range sorted. */
  lemma {:induction false} SortedFromNeighbours<T(!new)>(s: seq<T>, lt: (T, T) -> bool, hi: int)
    requires StrictWeakOrder(lt)
    requires 0 <= hi <= |s|
    requires forall k :: 0 <= k < hi - 1 ==> !lt(s[k + 1], s[k])
    ensures SortedBetween(s, 0, hi, lt)
    decreases hi
  {
    if hi > 1 {
      SortedFromNeighbours(s, lt, hi - 1);
      forall i | 0 <= i < hi - 1
        ensures !lt(s[hi - 1], s[i])
      {
        if i < hi - 2 {
          NegTrans(lt, s[hi - 1], s[hi - 2], s[i]);
        }
      }
    }
  }

  /** is_sorted with a predicate, as evidently intended and as the default
      overload does with `<`: fails only when a neighbour is less than the
      one before it. */
  method IsSortedBy<T(!new)>(s: seq<T>, pred: (T, T) -> bool) returns (r: bool)
    requires StrictWeakOrder(pred)
    ensures r <==> SortedBetween(s, 0, |s|, pred)
  {
    if |s| == 0 {
      return true;
    }
    var first, next := 0, 1;
    while next < |s|
      invariant 0 <= first && next == first + 1 <= |s|
      invariant forall k :: 0 <= k < first ==> !pred(s[k + 1], s[k])
    {
      if pred(s[next], s[first]) {
        return false;
      }
      first, next := first + 1, next + 1;
    }
    SortedFromNeighbours(s, pred, |s|);
    return true;
  }

  /** is_sorted: whether the range is in non-decreasing order. */
  method IsSorted(s: seq<int>) returns (r: bool)
    ensures r <==> forall i, j :: 0 <= i < j < |s| ==> s[i] <= s[j]
  {
    IntLessIsTotal();
    r := IsSortedBy(s, IntLess);
  }

  /** `x` lies between `a` and `b` in the order `lt`, either way round. */
  ghost predicate Between<T>(a: T, x: T, b: T, lt: (T, T) -> bool) {
    (!lt(x, a) && !lt(b, x)) || (!lt(x, b) && !lt(a, x))
  }

  /** median with a comparator: the middle of three values. */
  function MedianBy<T>(left: T, mid: T, right: T, pred: (T, T) -> bool): (m: T)
    ensures m == left || m == mid || m == right
  {
    if pred(left, mid) then
      if pred(mid, right) then mid
      else if pred(left, right) then right
      else left
    else if pred(left, right) then left
    else if pred(mid, right) then right
    else mid
  }

  /** What median picks lies between the other two values. */
  lemma MedianIsBetween<T(!new)>(left: T, mid: T, right: T, pred: (T, T) -> bool)
    requires StrictWeakOrder(pred)
    ensures var m := MedianBy(left, mid, right, pred);
      || (m == mid && Between(left, mid, right, pred))
      || (m == left && Between(mid, left, right, pred))
      || (m == right && Between(left, right, mid, pred))
  {
    if pred(left, mid) {
      Asymmetric(pred, left, mid);
    }
    if pred(left, right) {
      Asymmetric(pred, left, right);
    }
    if pred(mid, right) {
      Asymmetric(pred, mid, right);
    }
  }

  /** median: the middle of three integers. */
  function Median(left: int, mid: int, right: int): (m: int)
    ensures m == MedianBy(left, mid, right, IntLess)
    ensures || (m == mid && (left <= mid <= right || right <= mid <= left))
            || (m == left && (mid <= left <= right || right <= left <= mid))
            || (m == right && (left <= right <= mid || mid <= right <= left))
  {
    if left < mid then
      if mid < right then mid
      else if left < right then right
      else left
    else if left < right then left
    else if mid < right then right
    else mid
  }

  /** replace: every element of `a[first .. last)` equal to `oldVal` becomes
      `newVal`. */
  method Replace<T(==)>(a: array<T>, first: int, last: int, oldVal: T, newVal: T)
    requires 0 <= first <= last <= a.Length
    modifies a
    ensures forall k :: first <= k < last ==> a[k] == (if old(a[k]) == oldVal then newVal else old(a[k]))
    ensures forall k :: 0 <= k < a.Length && !(first <= k < last) ==> a[k] == old(a[k])
  {
    var f := first;
    while f < last
      invariant first <= f <= last
      invariant forall k :: first <= k < f ==> a[k] == (if old(a[k]) == oldVal then newVal else old(a[k]))
      invariant forall k :: 0 <= k < a.Length && !(first <= k < f) ==> a[k] == old(a[k])
    {
      if oldVal == a[f] {
        a[f] := newVal;
      }
      f := f + 1;
    }
  }

  /** replace_if: every element of `a[first .. last)` that satisfies `pred`
      becomes `value`. */
  method ReplaceIf<T>(a: array<T>, first: int, last: int, pred: T -> bool, value: T)
    requires 0 <= first <= last <= a.Length
    modifies a
    ensures forall k :: first <= k < last ==> a[k] == (if pred(old(a[k])) then value else old(a[k]))
    ensures forall k :: 0 <= k < a.Length && !(first <= k < last) ==> a[k] == old(a[k])
  {
    var f := first;
    while f < last
      invariant first <= f <= last
      invariant forall k :: first <= k < f ==> a[k] == (if pred(old(a[k])) then value else old(a[k]))
      invariant forall k :: 0 <= k < a.Length && !(first <= k < f) ==> a[k] == old(a[k])
    {
      if pred(a[f]) {
        a[f] := value;
      }
      f := f + 1;
    }
  }

  /** reverse_copy: writes the range back to front starting at `dest` and
      returns the end of what it wrote. */
  method ReverseCopy<T>(src: seq<T>, dst: array<T>, dest: int) returns (r: int)
    requires 0 <= dest && dest + |src| <= dst.Length
    modifies dst
    ensures r == dest + |src|
    ensures dst[dest..r] == Reversed(src)
    ensures forall k :: 0 <= k < dst.Length && !(dest <= k < r) ==> dst[k] == old(dst[k])
  {
    var last := |src|;
    r := dest;
    while last > 0
      invariant 0 <= last <= |src| && r == dest + |src| - last
      invariant forall k :: dest <= k < r ==> dst[k] == src[|src| - 1 - (k - dest)]
      invariant forall k :: 0 <= k < dst.Length && !(dest <= k < r) ==> dst[k] == old(dst[k])
    {
      last := last - 1;
      dst[r] := src[last];
      r := r + 1;
    }
    ReversedAt(src);
    assert dst[dest..r] == Reversed(src);
  }

  /** `d` divides `x`: `x` is a whole multiple of `d`. */
  ghost predicate DividesInt(d: int, x: int) {
    exists k :: k * d == x
  }

  /** The common divisors of `m` and `n` are those of `n` and `m % n`. */
  lemma CommonDivisorsStep(m: int, n: int)
    requires n != 0
    ensures forall d :: DividesInt(d, m) && DividesInt(d, n) <==> DividesInt(d, n) && DividesInt(d, Modulus(m, n))
  {
    var q := Divides(m, n);
    var t := Modulus(m, n);
    assert m == q * n + t;
    forall d | DividesInt(d, n)
      ensures DividesInt(d, m) <==> DividesInt(d, t)
    {
      var kn :| kn * d == n;
      assert q * n == (q * kn) * d;
      if DividesInt(d, m) {
        var km :| km * d == m;
        assert (km - q * kn) * d == t;
      }
      if DividesInt(d, t) {
        var kt :| kt * d == t;
        assert (q * kn + kt) * d == m;
      }
    }
  }

  /** rgcd: Euclid's algorithm with C++'s `%`. The result divides both
      arguments and every common divisor divides it: it is a greatest common
      divisor (with a sign when the arguments have one). */
  method RGcd(m0: int, n0: int) returns (g: int)
    ensures DividesInt(g, m0) && DividesInt(g, n0)
    ensures forall d :: DividesInt(d, m0) && DividesInt(d, n0) ==> DividesInt(d, g)
    ensures n0 == 0 ==> g == m0
  {
    var m, n := m0, n0;
    while n != 0
      invariant forall d :: DividesInt(d, m) && DividesInt(d, n) <==> DividesInt(d, m0) && DividesInt(d, n0)
      invariant n0 == 0 ==> m == m0
      decreases Abs(n)
    {
      CommonDivisorsStep(m, n);
      var t := Modulus(m, n);
      m := n;
      n := t;
    }
    assert 1 * m == m && 0 * m == 0;
    g := m;
  }

  /** Two multisets of the same size that agree on every element of the
      first are equal. */
  lemma SameSizeAgreeing<T>(a: multiset<T>, b: multiset<T>)
    requires |a| == |b|
    requires forall x :: x in a ==> a[x] == b[x]
    ensures a == b
  {
    assert a <= b;
    assert b == a + (b - a);
    assert |b - a| == 0;
  }

  /** One turn of is_permutation's outer loop: an element already met
      earlier is skipped, otherwise its occurrences in both rests are
      counted and compared. */
  method SameCount<T(==)>(r1: seq<T>, r2: seq<T>, i: int) returns (same: bool)
    requires 0 <= i < |r1|
    requires forall k :: 0 <= k < i ==> multiset(r1)[r1[k]] == multiset(r2)[r1[k]]
    ensures same ==> multiset(r1)[r1[i]] == multiset(r2)[r1[i]]
    ensures !same ==> multiset(r1) != multiset(r2)
  {
    var j := Find(r1[..i], r1[i]);
    if j < i {
      return true;
    }
    var c2 := Count(r2, r1[i]);
    if c2 == 0 {
      assert r1[i] in multiset(r1);
      return false;
    }
    var c1 := Count(r1[i + 1..], r1[i]);
    c1 := c1 + 1;
    assert r1 == r1[..i] + [r1[i]] + r1[i + 1..];
    same := c1 == c2;
  }

  /** is_permutation: whether the second range holds the same elements as
      the first, each as often. Equal lengths are checked first, then the
      common prefix is skipped, then each distinct element left in the first
      range must occur as often in the rest of the second. */
  method IsPermutation<T(==)>(s1: seq<T>, s2: seq<T>) returns (r: bool)
    ensures r <==> multiset(s1) == multiset(s2)
  {
    if |s1| != |s2| {
      return false;
    }
    var p := 0;
    while p < |s1| && s1[p] == s2[p]
      invariant 0 <= p <= |s1|
      invariant s1[..p] == s2[..p]
    {
      p := p + 1;
    }
    PermutationAfterPrefix(s1, s2, p);
    if p == |s1| {
      assert s1 == s1[..p] && s2 == s2[..p];
      return true;
    }
    var r1, r2 := s1[p..], s2[p..];
    var i := 0;
    while i < |r1|
      invariant 0 <= i <= |r1|
      invariant forall k :: 0 <= k < i ==> multiset(r1)[r1[k]] == multiset(r2)[r1[k]]
    {
      var same := SameCount(r1, r2, i);
      if !same {
        return false;
      }
      i := i + 1;
    }
    forall x | x in multiset(r1)
      ensures multiset(r1)[x] == multiset(r2)[x]
    {
      var k :| 0 <= k < |r1| && r1[k] == x;
    }
    SameSizeAgreeing(multiset(r1), multiset(r2));
    return true;
  }
}
