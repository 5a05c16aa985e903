/** reverse, next_permutation and prev_permutation, which rearrange a range
    in place.

  The range of next_permutation and prev_permutation is a whole array; the
  range of reverse is `a[first .. last)`. The permutations of a range are
  ordered lexicographically (`LexLessBy`) over the element order `lt`. */
module Permutation {
  import opened Order
  import opened Util
  import opened Ranges

  /** `s[lo .. hi)` never rises: no element is less than a later one. */
  ghost predicate NonIncreasing<T>(s: seq<T>, lo: int, hi: int, lt: (T, T) -> bool)
    requires 0 <= lo <= hi <= |s|
  {
    forall p, q :: lo <= p < q < hi ==> !lt(s[p], s[q])
  }

  /** `m` is the permutation of `s` that comes next: it is greater than `s`
      and no permutation of `s` lies strictly between the two. */
  ghost predicate IsNextPermutation<T(!new)>(s: seq<T>, m: seq<T>, lt: (T, T) -> bool) {
    && multiset(m) == multiset(s)
    && LexLessBy(s, m, lt)
    && forall q :: multiset(q) == multiset(s) ==> (LexLessBy(s, q, lt) ==> !LexLessBy(q, m, lt))
  }

  /** No permutation of `s` is greater than `s`. */
  ghost predicate IsLastPermutation<T(!new)>(s: seq<T>, lt: (T, T) -> bool) {
    forall q :: multiset(q) == multiset(s) ==> !LexLessBy(s, q, lt)
  }

  /** `m` is the permutation of `s` that comes just before it. */
  ghost predicate IsPrevPermutation<T(!new)>(s: seq<T>, m: seq<T>, lt: (T, T) -> bool) {
    && multiset(m) == multiset(s)
    && LexLessBy(m, s, lt)
    && forall q :: multiset(q) == multiset(s) ==> (LexLessBy(q, s, lt) ==> !LexLessBy(m, q, lt))
  }

  /** No permutation of `s` is less than `s`. */
  ghost predicate IsFirstPermutation<T(!new)>(s: seq<T>, lt: (T, T) -> bool) {
    forall q :: multiset(q) == multiset(s) ==> !LexLessBy(q, s, lt)
  }

  /** Where the suffix of `q` from `k` is a permutation of that of `s`, the
      element `q[k]` sits somewhere in that suffix of `s`. */
  lemma ElementOfSuffix<T>(s: seq<T>, q: seq<T>, k: int) returns (p: int)
    requires 0 <= k < |q| && k <= |s|
    requires multiset(q[k..]) == multiset(s[k..])
    ensures k <= p < |s| && s[p] == q[k]
  {
    assert q[k..][0] == q[k];
    assert q[k] in multiset(s[k..]);
    var d :| 0 <= d < |s[k..]| && s[k..][d] == q[k];
    p := k + d;
  }

  /** A sorted range is the least of its permutations. */
  lemma {:induction false} SortedIsLeast<T>(s: seq<T>, t: seq<T>, lt: (T, T) -> bool)
    requires SortedBetween(s, 0, |s|, lt)
    requires multiset(t) == multiset(s)
    ensures !LexLessBy(t, s, lt)
    decreases |s|
  {
    assert |t| == |multiset(t)| == |s|;
    if |s| > 0 {
      assert t[0..] == t && s[0..] == s;
      var p := ElementOfSuffix(s, t, 0);
      if t[0] != s[0] {
        assert !lt(s[p], s[0]);
      } else {
        PermutationAfterPrefix(t, s, 1);
        SortedIsLeast(s[1..], t[1..], lt);
      }
    }
  }

  /** A range that never rises is the greatest of its permutations. */
  lemma {:induction false} NonIncreasingIsGreatest<T>(s: seq<T>, t: seq<T>, lt: (T, T) -> bool)
    requires NonIncreasing(s, 0, |s|, lt)
    requires multiset(t) == multiset(s)
    ensures !LexLessBy(s, t, lt)
    decreases |s|
  {
    assert |t| == |multiset(t)| == |s|;
    if |s| > 0 {
      assert t[0..] == t && s[0..] == s;
      var p := ElementOfSuffix(s, t, 0);
      if t[0] != s[0] {
        assert !lt(s[0], s[p]);
      } else {
        PermutationAfterPrefix(t, s, 1);
        NonIncreasingIsGreatest(s[1..], t[1..], lt);
      }
    }
  }

  /** A range that never rises is the last permutation. */
  lemma NonIncreasingIsLast<T(!new)>(s: seq<T>, lt: (T, T) -> bool)
    requires NonIncreasing(s, 0, |s|, lt)
    ensures IsLastPermutation(s, lt)
  {
    forall q | multiset(q) == multiset(s)
      ensures !LexLessBy(s, q, lt)
    {
      NonIncreasingIsGreatest(s, q, lt);
    }
  }

  /** An element not less than its successor extends a non-rising suffix. */
  lemma ExtendNonIncreasing<T(!new)>(s: seq<T>, i: int, hi: int, lt: (T, T) -> bool)
    requires StrictWeakOrder(lt)
    requires 0 <= i && i + 1 < hi <= |s|
    requires NonIncreasing(s, i + 1, hi, lt) && !lt(s[i], s[i + 1])
    ensures NonIncreasing(s, i, hi, lt)
  {
    forall q | i + 1 < q < hi
      ensures !lt(s[i], s[q])
    {
      NegTrans(lt, s[i], s[i + 1], s[q]);
    }
  }

  /** Reading a non-rising range backwards gives a sorted one. */
  lemma BackwardsIsSorted<T>(b: seq<T>, m: seq<T>, lo: int, hi: int, lt: (T, T) -> bool)
    requires 0 <= lo <= hi <= |b| == |m|
    requires NonIncreasing(b, lo, hi, lt)
    requires IsReversedBetween(b, m, lo, hi)
    ensures SortedBetween(m, lo, hi, lt)
  {
    forall p, q | lo <= p < q < hi
      ensures !lt(m[q], m[p])
    {
      assert !lt(b[lo + hi - 1 - q], b[lo + hi - 1 - p]);
    }
  }

  /** Exchanging two elements permutes the range. */
  lemma SwapPermutes<T>(s: seq<T>, i: int, j: int)
    requires 0 <= i < |s| && 0 <= j < |s|
    ensures multiset(s[i := s[j]][j := s[i]]) == multiset(s)
  {
  }

  /** Exchanging the pivot `s[i]` with `s[j]`, the last element of the
      non-rising suffix greater than it, leaves the suffix non-rising. */
  lemma SwapKeepsSuffix<T(!new)>(s: seq<T>, b: seq<T>, i: int, j: int, lt: (T, T) -> bool)
    requires StrictWeakOrder(lt)
    requires 0 <= i < j < |s|
    requires NonIncreasing(s, i + 1, |s|, lt)
    requires lt(s[i], s[j]) && forall q :: j < q < |s| ==> !lt(s[i], s[q])
    requires b == s[i := s[j]][j := s[i]]
    ensures NonIncreasing(b, i + 1, |b|, lt)
  {
    Asymmetric(lt, s[i], s[j]);
    forall p, q | i + 1 <= p < q < |b|
      ensures !lt(b[p], b[q])
    {
      if q == j {
        NegTrans(lt, s[p], s[j], s[i]);
      }
    }
  }

  /** The heart of next_permutation: with `s[i]` the rightmost element less
      than its successor, `s[j]` the rightmost element of the suffix greater
      than `s[i]`, and `m` keeping `s[.. i)`, holding `s[j]` at `i` and the
      rest sorted, no permutation of `s` lies strictly between `s` and `m`. */
  lemma NoneBetween<T(!new)>(s: seq<T>, m: seq<T>, q: seq<T>, i: int, j: int, lt: (T, T) -> bool)
    requires StrictTotalOrder(lt)
    requires 0 <= i < j < |s| == |m|
    requires NonIncreasing(s, i + 1, |s|, lt)
    requires lt(s[i], s[j]) && forall r :: j < r < |s| ==> !lt(s[i], s[r])
    requires m[..i] == s[..i] && m[i] == s[j]
    requires SortedBetween(m, i + 1, |m|, lt)
    requires multiset(m) == multiset(s) && multiset(q) == multiset(s)
    ensures LexLessBy(s, q, lt) ==> !LexLessBy(q, m, lt)
  {
    assert |q| == |multiset(q)| == |s|;
    var k := FirstDifferenceExists(s, q);
    LexLessAtDifference(s, q, k, lt);
    PermutationAfterPrefix(s, q, k);
    if k < i {
      DifferBeforePivot(s, m, q, i, k, lt);
    } else if k == i {
      DifferAtPivot(s, m, q, i, j, lt);
    } else if k < |s| {
      var p := ElementOfSuffix(s, q, k);
      assert p != k;
      assert !lt(s[k], s[p]);
    }
  }

  /** A permutation that first leaves `s` before the pivot and is greater
      than `s` is greater than `m` too. */
  lemma DifferBeforePivot<T(!new)>(s: seq<T>, m: seq<T>, q: seq<T>, i: int, k: int, lt: (T, T) -> bool)
    requires StrictWeakOrder(lt)
    requires 0 <= k < i < |s| == |m| == |q|
    requires m[..i] == s[..i]
    requires FirstDifference(s, q, k)
    ensures lt(s[k], q[k]) ==> !LexLessBy(q, m, lt)
  {
    assert m[..k] == m[..i][..k] == s[..i][..k] == s[..k];
    assert FirstDifference(q, m, k);
    LexLessAtDifference(q, m, k, lt);
    if lt(s[k], q[k]) {
      Asymmetric(lt, s[k], q[k]);
    }
  }

  /** A permutation that first leaves `s` at the pivot, with a greater
      element there, is not less than `m`: that element is at least `s[j]`,
      and after `s[j]` the range `m` holds its remaining elements sorted. */
  lemma DifferAtPivot<T(!new)>(s: seq<T>, m: seq<T>, q: seq<T>, i: int, j: int, lt: (T, T) -> bool)
    requires StrictTotalOrder(lt)
    requires 0 <= i < j < |s| == |m| == |q|
    requires NonIncreasing(s, i + 1, |s|, lt)
    requires lt(s[i], s[j]) && forall r :: j < r < |s| ==> !lt(s[i], s[r])
    requires m[..i] == s[..i] && m[i] == s[j]
    requires SortedBetween(m, i + 1, |m|, lt)
    requires multiset(m) == multiset(s) && multiset(q) == multiset(s)
    requires q[..i] == s[..i]
    ensures lt(s[i], q[i]) ==> !LexLessBy(q, m, lt)
  {
    if lt(s[i], q[i]) {
      PermutationAfterPrefix(s, q, i);
      var p := ElementOfSuffix(s, q, i);
      assert p <= j;
      if p < j {
        assert !lt(s[p], s[j]);
      }
      if q[i] != m[i] {
        assert FirstDifference(q, m, i);
        LexLessAtDifference(q, m, i, lt);
      } else {
        assert q[..i + 1] == q[..i] + [q[i]];
        assert m[..i + 1] == m[..i] + [m[i]];
        LexLessAfterPrefix(q, m, i + 1, lt);
        PermutationAfterPrefix(q, m, i + 1);
        SortedIsLeast(m[i + 1..], q[i + 1..], lt);
      }
    }
  }

  /** What next_permutation builds from a pivot is the next permutation. */
  lemma NextFromPivot<T(!new)>(s: seq<T>, m: seq<T>, i: int, j: int, lt: (T, T) -> bool)
    requires StrictTotalOrder(lt)
    requires 0 <= i < j < |s| == |m|
    requires NonIncreasing(s, i + 1, |s|, lt)
    requires lt(s[i], s[j]) && forall r :: j < r < |s| ==> !lt(s[i], s[r])
    requires m[..i] == s[..i] && m[i] == s[j]
    requires SortedBetween(m, i + 1, |m|, lt)
    requires multiset(m) == multiset(s)
    ensures IsNextPermutation(s, m, lt)
  {
    assert FirstDifference(s, m, i);
    LexLessAtDifference(s, m, i, lt);
    forall q | multiset(q) == multiset(s)
      ensures LexLessBy(s, q, lt) ==> !LexLessBy(q, m, lt)
    {
      NoneBetween(s, m, q, i, j, lt);
    }
  }

  /** `m` is `o` with the range `[first, last)` reversed: element `k` of the
      range is the element of `o` as far from the range's end as `k` is
      from its start, and nothing outside the range changes. */
  ghost predicate IsReversedBetween<T>(o: seq<T>, m: seq<T>, first: int, last: int)
    requires 0 <= first <= last <= |o| == |m|
  {
    && (forall k :: first <= k < last ==> m[k] == o[first + last - 1 - k])
    && (forall k :: 0 <= k < |m| && !(first <= k < last) ==> m[k] == o[k])
  }

  /** Reversing a range in place makes it the reversal of what it held, and
      permutes the whole. */
  lemma ReversedRange<T>(o: seq<T>, m: seq<T>, first: int, last: int)
    requires 0 <= first <= last <= |o| == |m|
    requires IsReversedBetween(o, m, first, last)
    ensures m[first..last] == Reversed(o[first..last])
    ensures m[..first] == o[..first] && m[last..] == o[last..]
    ensures multiset(m) == multiset(o)
  {
    ReversedAt(o[first..last]);
    assert m[first..last] == Reversed(o[first..last]);
    ReversedMultiset(o[first..last]);
    assert m == m[..first] + m[first..last] + m[last..];
    assert o == o[..first] + o[first..last] + o[last..];
    assert m[..first] == o[..first] && m[last..] == o[last..];
  }

  /** reverse as written for bidirectional iterators: `last` steps back and
      is exchanged with `first`, but `first` never steps forward, so the
      range is rotated left by one place instead of reversed. */
  method ReverseAsWritten<T>(a: array<T>, first: int, last: int)
    requires 0 <= first <= last <= a.Length
    modifies a
    ensures forall k :: first <= k < last - 1 ==> a[k] == old(a[k + 1])
    ensures first < last ==> a[last - 1] == old(a[first])
    ensures forall k :: 0 <= k < a.Length && !(first <= k < last) ==> a[k] == old(a[k])
  {
    var l := last;
    while first < l - 1
      invariant first <= l <= last
      invariant l == last ==> forall k :: 0 <= k < a.Length ==> a[k] == old(a[k])
      invariant l < last ==> a[first] == old(a[l]) && a[last - 1] == old(a[first])
      invariant l < last ==> forall k :: first < k < l ==> a[k] == old(a[k])
      invariant l < last ==> forall k :: l <= k < last - 1 ==> a[k] == old(a[k + 1])
      invariant forall k :: 0 <= k < a.Length && !(first <= k < last) ==> a[k] == old(a[k])
    {
      l := l - 1;
      Swap(a, first, a, l);
    }
  }

  /** reverse, with `first` stepping forward after each exchange as the
      algorithm intends: element `k` of the range becomes the one that was
      as far from its end as `k` is from its start. */
  method Reverse<T>(a: array<T>, first: int, last: int)
    requires 0 <= first <= last <= a.Length
    modifies a
    ensures IsReversedBetween(old(a[..]), a[..], first, last)
  {
    var f, l := first, last;
    while f != l && f != l - 1
      invariant first <= f <= l <= last && f - first == last - l
      invariant forall k :: first <= k < f ==> a[k] == old(a[first + last - 1 - k])
      invariant forall k :: l <= k < last ==> a[k] == old(a[first + last - 1 - k])
      invariant forall k :: f <= k < l ==> a[k] == old(a[k])
      invariant forall k :: 0 <= k < a.Length && !(first <= k < last) ==> a[k] == old(a[k])
    {
      l := l - 1;
      Swap(a, f, a, l);
      f := f + 1;
    }
  }

  /** On `{1, 2, 3}` the written reverse gives `{2, 3, 1}`; the intended one
      gives `{3, 2, 1}`. */
  method ReverseScenario() returns (written: seq<int>, intended: seq<int>)
    ensures written == [2, 3, 1]
    ensures intended == [3, 2, 1]
  {
    var v := new int[3](i => i + 1);
    ReverseAsWritten(v, 0, 3);
    written := v[..];
    var w := new int[3](i => i + 1);
    Reverse(w, 0, 3);
    intended := w[..];
  }

  /** The first loop of next_permutation: steps back from the end while
      each element is not less than its successor. The answer `i` starts
      the longest non-rising suffix; when `i > 0`, `s[i - 1]` is the pivot,
      the rightmost element less than its successor. */
  method FindPivot<T(!new)>(s: seq<T>, lt: (T, T) -> bool) returns (i: int)
    requires StrictWeakOrder(lt)
    requires |s| > 1
    ensures 0 <= i < |s|
    ensures NonIncreasing(s, i, |s|, lt)
    ensures i > 0 ==> lt(s[i - 1], s[i])
  {
    i := |s| - 1;
    while i > 0 && !lt(s[i - 1], s[i])
      invariant 0 <= i < |s|
      invariant NonIncreasing(s, i, |s|, lt)
    {
      ExtendNonIncreasing(s, i - 1, |s|, lt);
      i := i - 1;
    }
  }

  /** The second loop of next_permutation: steps back from the end to the
      rightmost element greater than the pivot. */
  method FindSwapTarget<T>(s: seq<T>, pivot: int, lt: (T, T) -> bool) returns (j: int)
    requires 0 <= pivot < |s| - 1 && lt(s[pivot], s[pivot + 1])
    ensures pivot < j < |s| && lt(s[pivot], s[j])
    ensures forall q :: j < q < |s| ==> !lt(s[pivot], s[q])
  {
    j := |s| - 1;
    while !lt(s[pivot], s[j])
      invariant pivot < j < |s|
      invariant forall q :: j < q < |s| ==> !lt(s[pivot], s[q])
      decreases j
    {
      j := j - 1;
    }
  }

  /** The last steps of next_permutation once the pivot `i` and the element
      `j` to exchange it with are known: exchanging them and then reversing
      the suffix after the pivot gives the next permutation. */
  lemma SwapThenReverseIsNext<T(!new)>(s: seq<T>, b: seq<T>, m: seq<T>, i: int, j: int, lt: (T, T) -> bool)
    requires StrictTotalOrder(lt)
    requires 0 <= i < j < |s| == |m|
    requires NonIncreasing(s, i + 1, |s|, lt)
    requires lt(s[i], s[j]) && forall r :: j < r < |s| ==> !lt(s[i], s[r])
    requires b == s[i := s[j]][j := s[i]]
    requires IsReversedBetween(b, m, i + 1, |m|)
    ensures IsNextPermutation(s, m, lt)
  {
    SwapPermutes(s, i, j);
    SwapKeepsSuffix(s, b, i, j, lt);
    BackwardsIsSorted(b, m, i + 1, |m|, lt);
    ReversedRange(b, m, i + 1, |m|);
    assert m[..i] == b[..i] == s[..i];
    NextFromPivot(s, m, i, j, lt);
  }

  /** next_permutation over the order `lt`: rearranges the array into the
      next permutation and answers true, or, when the array is already the
      greatest permutation, sorts it into the least and answers false. */
  method NextPermutationBy<T(!new)>(a: array<T>, lt: (T, T) -> bool) returns (r: bool)
    requires StrictTotalOrder(lt)
    modifies a
    ensures multiset(a[..]) == multiset(old(a[..]))
    ensures r ==> IsNextPermutation(old(a[..]), a[..], lt)
    ensures !r ==> IsLastPermutation(old(a[..]), lt) && SortedBetween(a[..], 0, a.Length, lt)
  {
    var n := a.Length;
    if n <= 1 {
      NonIncreasingIsLast(a[..], lt);
      return false;
    }
    var i := FindPivot(a[..], lt);
    ghost var s := a[..];
    if i == 0 {
      NonIncreasingIsLast(s, lt);
      Reverse(a, 0, n);
      BackwardsIsSorted(s, a[..], 0, n, lt);
      ReversedRange(s, a[..], 0, n);
      return false;
    }
    var pivot := i - 1;
    var j := FindSwapTarget(a[..], pivot, lt);
    Swap(a, pivot, a, j);
    ghost var b := a[..];
    assert b == s[pivot := s[j]][j := s[pivot]];
    Reverse(a, i, n);
    SwapThenReverseIsNext(s, b, a[..], pivot, j, lt);
    return true;
  }

  /** next_permutation: the instance with `<` on integers. */
  method NextPermutation(a: array<int>) returns (r: bool)
    modifies a
    ensures multiset(a[..]) == multiset(old(a[..]))
    ensures r ==> IsNextPermutation(old(a[..]), a[..], IntLess)
    ensures !r ==> IsLastPermutation(old(a[..]), IntLess)
    ensures !r ==> forall i, j :: 0 <= i < j < a.Length ==> a[i] <= a[j]
  {
    IntLessIsTotal();
    r := NextPermutationBy(a, IntLess);
  }

  /** Between sequences of one length, flipping the element order flips the
      lexicographic order. */
  lemma {:induction false} LexLessFlip<T>(a: seq<T>, b: seq<T>, lt: (T, T) -> bool)
    requires |a| == |b|
    ensures LexLessBy(a, b, Flip(lt)) == LexLessBy(b, a, lt)
    decreases |a|
  {
    if |a| > 0 && a[0] == b[0] {
      LexLessFlip(a[1..], b[1..], lt);
    }
  }

  /** The next permutation in the flipped order is the previous one. */
  lemma NextFlippedIsPrev<T(!new)>(s: seq<T>, m: seq<T>, lt: (T, T) -> bool)
    ensures |m| == |s| ==> (IsNextPermutation(s, m, Flip(lt)) <==> IsPrevPermutation(s, m, lt))
    ensures IsLastPermutation(s, Flip(lt)) <==> IsFirstPermutation(s, lt)
  {
    forall q | multiset(q) == multiset(s)
      ensures LexLessBy(s, q, Flip(lt)) == LexLessBy(q, s, lt)
      ensures |m| == |s| ==> LexLessBy(q, m, Flip(lt)) == LexLessBy(m, q, lt)
    {
      assert |q| == |multiset(q)| == |s|;
      LexLessFlip(s, q, lt);
      if |m| == |s| {
        LexLessFlip(q, m, lt);
      }
    }
    if |m| == |s| {
      LexLessFlip(s, m, lt);
    }
  }

  /** prev_permutation with a comparator: its loop is next_permutation's
      with the arguments of `comp` exchanged, so it rearranges the array
      into the previous permutation and answers true, or, when the array is
      already the least permutation, sorts it into the greatest and answers
      false. */
  method PrevPermutationBy<T(!new)>(a: array<T>, comp: (T, T) -> bool) returns (r: bool)
    requires StrictTotalOrder(comp)
    modifies a
    ensures multiset(a[..]) == multiset(old(a[..]))
    ensures r ==> IsPrevPermutation(old(a[..]), a[..], comp)
    ensures !r ==> IsFirstPermutation(old(a[..]), comp) && NonIncreasing(a[..], 0, a.Length, comp)
  {
    FlipIsTotal(comp);
    ghost var s := a[..];
    r := NextPermutationBy(a, Flip(comp));
    NextFlippedIsPrev(s, a[..], comp);
  }

  /** prev_permutation: the instance with `<` on integers. */
  method PrevPermutation(a: array<int>) returns (r: bool)
    modifies a
    ensures multiset(a[..]) == multiset(old(a[..]))
    ensures r ==> IsPrevPermutation(old(a[..]), a[..], IntLess)
    ensures !r ==> IsFirstPermutation(old(a[..]), IntLess)
    ensures !r ==> forall i, j :: 0 <= i < j < a.Length ==> a[i] >= a[j]
  {
    IntLessIsTotal();
    r := PrevPermutationBy(a, IntLess);
  }
}
