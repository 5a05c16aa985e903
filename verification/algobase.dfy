/** The basic algorithms: max and min, iter_swap, the copy and fill loops,
    copy_if, lexicographical_compare and mismatch.

  An iterator range `[first, last)` over a random-access container is a pair
  of indices into an array when the algorithm writes through it, and a
  sequence when it only reads. The `random_access_iterator_tag` overloads of
  the copy and fill loops are the ones modelled: they count `last - first`
  down to zero, so a reversed range (`last < first`) copies nothing. */
module AlgoBase {
  import opened Order
  import opened Util
  import opened Ranges

  /** max: `left > right ? left : right`, the larger argument. */
  function Max(left: int, right: int): (m: int)
    ensures m >= left && m >= right
    ensures m == left || m == right
    ensures m == MaxBy(left, right, IntGreater)
  {
    if left > right then left else right
  }

  /** max with a predicate: `left` when `pred(left, right)`, else `right`.
      Read `pred` as "greater than". */
  function MaxBy<T>(left: T, right: T, pred: (T, T) -> bool): (m: T)
    ensures m == left || m == right
  {
    if pred(left, right) then left else right
  }

  /** min: `left < right ? left : right`, the smaller argument. */
  function Min(left: int, right: int): (m: int)
    ensures m <= left && m <= right
    ensures m == left || m == right
    ensures m == MinBy(left, right, IntLess)
  {
    if left < right then left else right
  }

  /** min with a predicate: `left` when `pred(left, right)`, else `right`.
      Read `pred` as "less than"; the selection is the one max makes, so
      min is max applied to the opposite order. */
  function MinBy<T>(left: T, right: T, pred: (T, T) -> bool): (m: T)
    ensures m == left || m == right
  {
    MaxBy(left, right, pred)
  }

  /** Under a strict weak ordering, no argument is `pred`-related to what is
      picked: read as "greater", neither argument is greater than what max
      picks; read as "less", neither is less than what min picks. */
  lemma MaxMinByAreExtremal<T(!new)>(left: T, right: T, pred: (T, T) -> bool)
    requires StrictWeakOrder(pred)
    ensures !pred(left, MaxBy(left, right, pred)) && !pred(right, MaxBy(left, right, pred))
    ensures !pred(left, MinBy(left, right, pred)) && !pred(right, MinBy(left, right, pred))
  {
    if pred(left, right) {
      Asymmetric(pred, left, right);
    }
  }

  /** The comparators of the tests: absolute values compared by `>` and by
      `<`. */
  function AbsGreater(x: int, y: int): bool {
    (if x < 0 then -x else x) > (if y < 0 then -y else y)
  }

  function AbsLess(x: int, y: int): bool {
    (if x < 0 then -x else x) < (if y < 0 then -y else y)
  }

  /** The scenarios of the max and min tests. */
  lemma MaxMinScenarios()
    ensures MaxBy(6, -7, AbsGreater) == -7 && Max(6, -7) == 6
    ensures MinBy(6, -7, AbsLess) == 6 && Min(-7, 7) == -7
  {
  }

  /** On a tie (neither argument greater) max returns its second argument,
      although the function is documented to return the first: 7 and -7 have
      the same absolute value and `max(7, -7, abs_greater)` gives -7. */
  lemma MaxByReturnsSecondOnTie()
    ensures !AbsGreater(7, -7) && !AbsGreater(-7, 7)
    ensures MaxBy(7, -7, AbsGreater) == -7
  {
  }

  /** Likewise min: `min(7, -7, abs_less)` gives -7. */
  lemma MinByReturnsSecondOnTie()
    ensures !AbsLess(7, -7) && !AbsLess(-7, 7)
    ensures MinBy(7, -7, AbsLess) == -7
  {
  }

  /** For every comparator, on a tie (neither argument related to the
      other) max and min return the second argument, and otherwise the one
      that `pred` prefers. */
  lemma TieReturnsSecond<T>(left: T, right: T, pred: (T, T) -> bool)
    ensures !pred(left, right) && !pred(right, left) ==>
              MaxBy(left, right, pred) == right && MinBy(left, right, pred) == right
    ensures pred(left, right) ==> MaxBy(left, right, pred) == left && MinBy(left, right, pred) == left
  {
  }

  /** max as documented: the second argument only when it is greater. */
  function MaxKeepFirst<T>(left: T, right: T, pred: (T, T) -> bool): (m: T)
    ensures m == left || m == right
    ensures !pred(right, left) ==> m == left
  {
    if pred(right, left) then right else left
  }

  /** min as documented: the second argument only when it is less; as
      with the written pair, the selection is the one max makes. */
  function MinKeepFirst<T>(left: T, right: T, pred: (T, T) -> bool): (m: T)
    ensures m == left || m == right
    ensures !pred(right, left) ==> m == left
  {
    MaxKeepFirst(left, right, pred)
  }

  /** The documented max and min are extremal like the written ones, differ
      from them only on ties, and return the first argument on a tie. */
  lemma KeepFirstIsExtremal<T(!new)>(left: T, right: T, pred: (T, T) -> bool)
    requires StrictWeakOrder(pred)
    ensures !pred(left, MaxKeepFirst(left, right, pred)) && !pred(right, MaxKeepFirst(left, right, pred))
    ensures !pred(left, MinKeepFirst(left, right, pred)) && !pred(right, MinKeepFirst(left, right, pred))
    ensures pred(left, right) || pred(right, left) ==>
              MaxKeepFirst(left, right, pred) == MaxBy(left, right, pred) &&
              MinKeepFirst(left, right, pred) == MinBy(left, right, pred)
    ensures !pred(left, right) && !pred(right, left) ==>
              MaxKeepFirst(left, right, pred) == left && MinKeepFirst(left, right, pred) == left
  {
    if pred(left, right) {
      Asymmetric(pred, left, right);
    }
    if pred(right, left) {
      Asymmetric(pred, right, left);
    }
  }

  /** iter_swap: exchanges the two cells the iterators designate. */
  method IterSwap<T>(a: array<T>, i: int, b: array<T>, j: int)
    requires 0 <= i < a.Length && 0 <= j < b.Length
    modifies a, b
    ensures a[i] == old(b[j]) && b[j] == old(a[i])
    ensures forall k :: 0 <= k < a.Length && k != i && (a != b || k != j) ==> a[k] == old(a[k])
    ensures forall k :: 0 <= k < b.Length && k != j && (a != b || k != i) ==> b[k] == old(b[k])
  {
    Swap(a, i, b, j);
  }

  /** The scenario of the iter_swap test: the first and last of
      `{1, 2, 3, 4, 5}` change places. */
  method IterSwapScenario() returns (v: seq<int>)
    ensures v == [5, 2, 3, 4, 1]
  {
    var iv := new int[5](i => i + 1);
    IterSwap(iv, 0, iv, 4);
    v := iv[..];
  }

  /** The number of elements a counted loop over `[first, last)` visits. */
  function RangeLength(first: int, last: int): (n: nat)
    ensures first <= last ==> n == last - first
    ensures last <= first ==> n == 0
  {
    if first < last then last - first else 0
  }

  /** unchecked_copy_cat: copies `src[first .. last)` to the cells starting at
      `dest` front to back and returns the end of the written range. The
      destination may overlap the source only if it starts at or before it. */
  method UncheckedCopyCat<T>(src: array<T>, first: int, last: int, dst: array<T>, dest: int)
    returns (r: int)
    requires 0 <= first <= src.Length && 0 <= last <= src.Length
    requires 0 <= dest && dest + RangeLength(first, last) <= dst.Length
    requires src != dst || dest <= first || last <= dest
    modifies dst
    ensures r == dest + RangeLength(first, last)
    ensures forall k :: dest <= k < r ==> dst[k] == old(src[k - dest + first])
    ensures forall k :: 0 <= k < dst.Length && !(dest <= k < r) ==> dst[k] == old(dst[k])
  {
    var i := last - first;
    var f, d := first, dest;
    while i > 0
      invariant f - first == d - dest == RangeLength(first, last) - RangeLength(0, i)
      invariant i > 0 ==> f + i == last
      invariant forall k :: dest <= k < d ==> dst[k] == old(src[k - dest + first])
      invariant forall k :: 0 <= k < dst.Length && !(dest <= k < d) ==> dst[k] == old(dst[k])
      invariant forall k :: f <= k < last ==> src[k] == old(src[k])
    {
      dst[d] := src[f];
      i, f, d := i - 1, f + 1, d + 1;
    }
    r := d;
  }

  /** The scenario of the copy test: the first three elements of
      `v1 = {0, 10, .., 50}` copied into the middle of `v2 = {0, 3, .., 30}`
      at index 4; then a reversed source range, which copies nothing. */
  method CopyScenario() returns (v2: seq<int>, end: int)
    ensures v2 == [0, 3, 6, 9, 0, 10, 20, 21, 24, 27, 30]
    ensures end == 0
  {
    var a := new int[6](i => 10 * i);
    var b := new int[11](i => 3 * i);
    var r := UncheckedCopyCat(a, 0, 3, b, 4);
    end := UncheckedCopyCat(a, 5, 0, b, 0);
    v2 := b[..];
  }

  /** unchecked_copy_backward_cat: copies `src[first .. last)` back to front
      so that it ends at `destEnd`, and returns the start of the written
      range. The destination may overlap the source only if it starts at or
      after it. */
  method UncheckedCopyBackwardCat<T>(src: array<T>, first: int, last: int, dst: array<T>, destEnd: int)
    returns (r: int)
    requires 0 <= first <= src.Length && 0 <= last <= src.Length
    requires 0 <= destEnd - RangeLength(first, last) && destEnd <= dst.Length
    requires src != dst || first <= destEnd - RangeLength(first, last) || destEnd <= first
    modifies dst
    ensures r == destEnd - RangeLength(first, last)
    ensures forall k :: r <= k < destEnd ==> dst[k] == old(src[k - r + first])
    ensures forall k :: 0 <= k < dst.Length && !(r <= k < destEnd) ==> dst[k] == old(dst[k])
  {
    var n := last - first;
    var l, e := last, destEnd;
    while n > 0
      invariant destEnd - e == last - l == RangeLength(first, last) - RangeLength(0, n)
      invariant n > 0 ==> l - n == first
      invariant forall k :: e <= k < destEnd ==> dst[k] == old(src[k - destEnd + last])
      invariant forall k :: 0 <= k < dst.Length && !(e <= k < destEnd) ==> dst[k] == old(dst[k])
      invariant forall k :: first <= k < l ==> src[k] == old(src[k])
    {
      e, l := e - 1, l - 1;
      dst[e] := src[l];
      n := n - 1;
    }
    r := e;
  }

  /** copy_if: writes the elements of the source that satisfy `pred`, in
      order, starting at `dest`, and returns the end of what it wrote. */
  method CopyIf<T>(src: seq<T>, dst: array<T>, dest: int, pred: T -> bool) returns (r: int)
    requires 0 <= dest && dest + |Filter(src, pred)| <= dst.Length
    modifies dst
    ensures r == dest + |Filter(src, pred)|
    ensures dst[dest..r] == Filter(src, pred)
    ensures forall k :: 0 <= k < dst.Length && !(dest <= k < r) ==> dst[k] == old(dst[k])
  {
    var i := 0;
    r := dest;
    ghost var out: seq<T> := [];
    FilterPrefixFits(src, 0, pred);
    while i < |src|
      invariant 0 <= i <= |src|
      invariant out == Filter(src[..i], pred)
      invariant dest + |out| <= dst.Length
      invariant r == dest + |out|
      invariant forall k :: 0 <= k < |out| ==> dst[dest + k] == out[k]
      invariant forall k :: 0 <= k < dst.Length && !(dest <= k < r) ==> dst[k] == old(dst[k])
    {
      FilterStep(src, i, pred);
      if pred(src[i]) {
        dst[r] := src[i];
        r := r + 1;
        out := out + [src[i]];
      }
      i := i + 1;
    }
    assert src[..i] == src;
    assert dst[dest..r] == out;
  }

  /** Extending a prefix by one element extends what it selects by that
      element exactly when the element satisfies `p`. */
  lemma FilterStep<T>(s: seq<T>, i: int, p: T -> bool)
    requires 0 <= i < |s|
    ensures Filter(s[..i + 1], p) == Filter(s[..i], p) + (if p(s[i]) then [s[i]] else [])
    ensures |Filter(s[..i + 1], p)| <= |Filter(s, p)|
  {
    assert s[..i + 1][..i] == s[..i];
    FilterPrefixFits(s, i + 1, p);
  }

  /** The elements a prefix selects are no more than the whole range
      selects. */
  lemma {:induction false} FilterPrefixFits<T>(s: seq<T>, i: int, p: T -> bool)
    requires 0 <= i <= |s|
    ensures |Filter(s[..i], p)| <= |Filter(s, p)|
    decreases |s| - i
  {
    if i < |s| {
      FilterPrefixFits(s, i + 1, p);
      assert s[..i + 1][..i] == s[..i];
    } else {
      assert s[..i] == s;
    }
  }

  /** The random-access fill: sets every cell of `[first, last)` to
      `value`. */
  method Fill<T>(a: array<T>, first: int, last: int, value: T)
    requires 0 <= first <= a.Length && 0 <= last <= a.Length
    modifies a
    ensures forall k :: first <= k < last ==> a[k] == value
    ensures forall k :: 0 <= k < a.Length && !(first <= k < last) ==> a[k] == old(a[k])
  {
    var n := last - first;
    var f := first;
    while n > 0
      invariant f - first == RangeLength(first, last) - RangeLength(0, n)
      invariant n > 0 ==> f + n == last
      invariant forall k :: first <= k < f ==> a[k] == value
      invariant forall k :: 0 <= k < a.Length && !(first <= k < f) ==> a[k] == old(a[k])
    {
      a[f] := value;
      n, f := n - 1, f + 1;
    }
  }

  /** lexicographical_compare with a predicate: at the first position where
      the elements differ (by `!=`), the answer is `pred` of the two; when one
      range is a prefix of the other, the answer is whether the second one
      ran out first. */
  method LexicographicalCompareBy<T(==)>(s1: seq<T>, s2: seq<T>, pred: (T, T) -> bool) returns (r: bool)
    ensures forall k :: FirstDifference(s1, s2, k) ==>
              (r <==> if k < |s1| && k < |s2| then pred(s1[k], s2[k]) else |s1| > |s2|)
  {
    var i := 0;
    while i < |s1| && i < |s2|
      invariant 0 <= i <= |s1| && i <= |s2|
      invariant s1[..i] == s2[..i]
    {
      if s1[i] != s2[i] {
        FirstDifferenceUnique(s1, s2, i);
        return pred(s1[i], s2[i]);
      }
      assert s1[..i + 1] == s1[..i] + [s1[i]];
      assert s2[..i + 1] == s2[..i] + [s2[i]];
      i := i + 1;
    }
    FirstDifferenceUnique(s1, s2, i);
    r := i < |s1| && i == |s2|;
  }

  /** Two sequences have only one first difference. */
  lemma FirstDifferenceUnique<T>(a: seq<T>, b: seq<T>, k: int)
    requires FirstDifference(a, b, k)
    ensures forall j :: FirstDifference(a, b, j) ==> j == k
  {
  }

  /** lexicographical_compare: the predicate is `>`, so the answer is whether
      the first range is lexicographically GREATER than the second, the
      reverse of the ISO order: `s2 < s1` in the ISO sense. */
  method LexicographicalCompare(s1: seq<int>, s2: seq<int>) returns (r: bool)
    ensures r == LexLessBy(s2, s1, IntLess)
    ensures s1 == s2 ==> !r
  {
    r := LexicographicalCompareBy(s1, s2, IntGreater);
    var k := FirstDifferenceExists(s2, s1);
    LexLessAtDifference(s2, s1, k, IntLess);
    assert FirstDifference(s1, s2, k);
    IntLessIsTotal();
    LexLessIsStrictTotal(s1, s2, IntLess);
  }

  /** mismatch with a predicate: walks both ranges while `pred` holds of the
      pair and returns the first pair of positions where it does not, or the
      end of the first range. The second range is at least as long. */
  method MismatchBy<T>(s1: seq<T>, s2: seq<T>, pred: (T, T) -> bool) returns (p: Pair<int, int>)
    requires |s1| <= |s2|
    ensures p.first == p.second && 0 <= p.first <= |s1|
    ensures forall k :: 0 <= k < p.first ==> pred(s1[k], s2[k])
    ensures p.first < |s1| ==> !pred(s1[p.first], s2[p.first])
  {
    var i := 0;
    while i < |s1| && pred(s1[i], s2[i])
      invariant 0 <= i <= |s1|
      invariant forall k :: 0 <= k < i ==> pred(s1[k], s2[k])
    {
      i := i + 1;
    }
    p := MakePair(i, i);
  }

  /** mismatch: the predicate is `==`, so the result is the first difference
      of the first range and the same-length start of the second. */
  method Mismatch<T(==)>(s1: seq<T>, s2: seq<T>) returns (p: Pair<int, int>)
    requires |s1| <= |s2|
    ensures p.first == p.second
    ensures FirstDifference(s1, s2[..|s1|], p.first)
  {
    p := MismatchBy(s1, s2, (x, y) => x == y);
    assert s1[..p.first] == s2[..|s1|][..p.first];
  }
}
