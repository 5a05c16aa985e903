/** The algorithms over sorted ranges: lower_bound, upper_bound,
    binary_search, equal_range and includes.

  The searches are the random-access versions, which halve the length of
  the range still to search; they compare elements with the built-in `<`,
  `<=` and `>` and are modelled on integer sequences. A range is the index
  range `[first, last)` of a sequence. */
module SortedRange {
  import opened Order
  import opened Util
  import opened Ranges

  /** `s[first .. last)` is in non-decreasing order. */
  ghost predicate Sorted(s: seq<int>, first: int, last: int)
    requires 0 <= first <= last <= |s|
  {
    forall i, j :: first <= i < j < last ==> s[i] <= s[j]
  }

  /** `r` splits `s[first .. last)` into the elements less than `value` and
      those not less: it is the first position not less than `value`. */
  ghost predicate IsLowerBound(s: seq<int>, first: int, last: int, value: int, r: int)
    requires 0 <= first <= last <= |s|
  {
    && first <= r <= last
    && (forall k :: first <= k < r ==> s[k] < value)
    && (forall k :: r <= k < last ==> value <= s[k])
  }

  /** `r` is the first position of `s[first .. last)` greater than `value`. */
  ghost predicate IsUpperBound(s: seq<int>, first: int, last: int, value: int, r: int)
    requires 0 <= first <= last <= |s|
  {
    && first <= r <= last
    && (forall k :: first <= k < r ==> s[k] <= value)
    && (forall k :: r <= k < last ==> value < s[k])
  }

  /** lower_bound: the first position in the sorted range whose element is
      not less than `value`, found by halving. */
  method LowerBound(s: seq<int>, first: int, last: int, value: int) returns (r: int)
    requires 0 <= first <= last <= |s|
    requires Sorted(s, first, last)
    ensures IsLowerBound(s, first, last, value, r)
  {
    r := first;
    var len := last - first;
    while len > 0
      invariant first <= r && 0 <= len && r + len <= last
      invariant forall k :: first <= k < r ==> s[k] < value
      invariant forall k :: r + len <= k < last ==> value <= s[k]
      decreases len
    {
      var half := len / 2;
      var middle := r + half;
      if s[middle] < value {
        r := middle + 1;
        len := len - half - 1;
      } else {
        len := half;
      }
    }
  }

  /** upper_bound: the first position in the sorted range whose element is
      greater than `value`. */
  method UpperBound(s: seq<int>, first: int, last: int, value: int) returns (r: int)
    requires 0 <= first <= last <= |s|
    requires Sorted(s, first, last)
    ensures IsUpperBound(s, first, last, value, r)
  {
    r := first;
    var len := last - first;
    while len > 0
      invariant first <= r && 0 <= len && r + len <= last
      invariant forall k :: first <= k < r ==> s[k] <= value
      invariant forall k :: r + len <= k < last ==> value < s[k]
      decreases len
    {
      var half := len / 2;
      var middle := r + half;
      if s[middle] <= value {
        r := middle + 1;
        len := len - half - 1;
      } else {
        len := half;
      }
    }
  }

  /** binary_search: whether the sorted range holds an element equal to
      `value`. */
  method BinarySearch(s: seq<int>, first: int, last: int, value: int) returns (found: bool)
    requires 0 <= first <= last <= |s|
    requires Sorted(s, first, last)
    ensures found <==> exists k :: first <= k < last && s[k] == value
  {
    var iter := LowerBound(s, first, last, value);
    found := iter != last && s[iter] == value;
  }

  /** The random-access equal_range loop up to, but not including, what it
      returns when the range holds no element equal to `value`: either the
      lower and upper bounds of `value`, or a position that is both because
      nothing equals `value`. */
  method EqualRangeSearch(s: seq<int>, first: int, last: int, value: int) returns (found: bool, p: Pair<int, int>)
    requires 0 <= first <= last <= |s|
    requires Sorted(s, first, last)
    ensures found <==> exists k :: first <= k < last && s[k] == value
    ensures IsLowerBound(s, first, last, value, p.first)
    ensures IsUpperBound(s, first, last, value, p.second)
  {
    var f := first;
    var len := last - first;
    while len > 0
      invariant first <= f && 0 <= len && f + len <= last
      invariant forall k :: first <= k < f ==> s[k] < value
      invariant forall k :: f + len <= k < last ==> value < s[k]
      decreases len
    {
      var half := len / 2;
      var middle := f + half;
      if s[middle] < value {
        f := middle + 1;
        len := len - half - 1;
      } else if s[middle] > value {
        len := half;
      } else {
        var left := LowerBound(s, f, middle, value);
        var right := UpperBound(s, middle + 1, f + len, value);
        return true, Pair(left, right);
      }
    }
    return false, Pair(f, f);
  }

  /** equal_range as written: for a value the range does not hold it returns
      `(last, last)`, although its own description asks for the first
      position not less than `value` and the first greater than it. */
  method EqualRangeAsWritten(s: seq<int>, first: int, last: int, value: int) returns (p: Pair<int, int>)
    requires 0 <= first <= last <= |s|
    requires Sorted(s, first, last)
    ensures (exists k :: first <= k < last && s[k] == value) ==>
              IsLowerBound(s, first, last, value, p.first) && IsUpperBound(s, first, last, value, p.second)
    ensures (forall k :: first <= k < last ==> s[k] != value) ==> p == Pair(last, last)
  {
    var found;
    found, p := EqualRangeSearch(s, first, last, value);
    if !found {
      p := Pair(last, last);
    }
  }

  /** equal_range as described: the lower and the upper bound of `value`,
      which coincide where `value` would be inserted when the range does not
      hold it. The elements between them are exactly those equal to
      `value`. */
  method EqualRange(s: seq<int>, first: int, last: int, value: int) returns (p: Pair<int, int>)
    requires 0 <= first <= last <= |s|
    requires Sorted(s, first, last)
    ensures IsLowerBound(s, first, last, value, p.first)
    ensures IsUpperBound(s, first, last, value, p.second)
    ensures forall k :: first <= k < last ==> (s[k] == value <==> p.first <= k < p.second)
  {
    var found;
    found, p := EqualRangeSearch(s, first, last, value);
    forall k | first <= k < last
      ensures s[k] == value <==> p.first <= k < p.second
    {
      if k < p.first {
        assert s[k] < value;
      } else if k >= p.second {
        assert value < s[k];
      }
    }
  }

  /** On `{1, 3}` and the absent value 2, the written equal_range answers
      `(2, 2)`, the end of the range, where the described one answers
      `(1, 1)`: the position where 2 belongs. */
  method EqualRangeAbsentScenario() returns (written: Pair<int, int>, intended: Pair<int, int>)
    ensures written == Pair(2, 2)
    ensures intended == Pair(1, 1)
  {
    var s := [1, 3];
    written := EqualRangeAsWritten(s, 0, 2, 2);
    intended := EqualRange(s, 0, 2, 2);
    assert s[0] == 1 && s[1] == 3;
  }

  /** What is left of the second range from `j` on occurs in what is left of
      the first from `i` on, each element as often. */
  ghost predicate IncludedFrom<T>(s1: seq<T>, s2: seq<T>, i: int, j: int)
    requires 0 <= i <= |s1| && 0 <= j <= |s2|
  {
    multiset(s2[j..]) <= multiset(s1[i..])
  }

  /** One step of includes when the head of the second range is less than
      the head of the first: the head of the second occurs nowhere in the
      rest of the first, which is sorted. */
  lemma HeadMissing<T(!new)>(s1: seq<T>, s2: seq<T>, i: int, j: int, lt: (T, T) -> bool)
    requires 0 <= i < |s1| && 0 <= j < |s2|
    requires SortedBetween(s1, 0, |s1|, lt)
    requires lt(s2[j], s1[i])
    requires StrictWeakOrder(lt)
    ensures !IncludedFrom(s1, s2, i, j)
  {
    assert s2[j] in multiset(s2[j..]);
    forall k | i <= k < |s1|
      ensures s1[k] != s2[j]
    {
      if k > i {
        assert !lt(s1[k], s1[i]);
      }
    }
    assert s2[j] !in s1[i..];
  }

  /** One step of includes when the head of the first range is less than the
      head of the second: that head occurs nowhere in the rest of the
      second, so it can be skipped. */
  lemma HeadSkippable<T(!new)>(s1: seq<T>, s2: seq<T>, i: int, j: int, lt: (T, T) -> bool)
    requires 0 <= i < |s1| && 0 <= j < |s2|
    requires SortedBetween(s2, 0, |s2|, lt)
    requires lt(s1[i], s2[j])
    requires StrictWeakOrder(lt)
    ensures IncludedFrom(s1, s2, i, j) <==> IncludedFrom(s1, s2, i + 1, j)
  {
    assert s1[i..] == [s1[i]] + s1[i + 1..];
    forall k | j <= k < |s2|
      ensures s2[k] != s1[i]
    {
      if k > j {
        assert !lt(s2[k], s2[j]);
      }
    }
    assert s1[i] !in s2[j..];
  }

  /** One step of includes when the heads are equal: both are dropped. */
  lemma HeadsMatch<T>(s1: seq<T>, s2: seq<T>, i: int, j: int)
    requires 0 <= i < |s1| && 0 <= j < |s2|
    requires s1[i] == s2[j]
    ensures IncludedFrom(s1, s2, i, j) <==> IncludedFrom(s1, s2, i + 1, j + 1)
  {
    var x := s1[i];
    var a, b := multiset(s2[j + 1..]), multiset(s1[i + 1..]);
    assert s1[i..] == [x] + s1[i + 1..];
    assert s2[j..] == [x] + s2[j + 1..];
    assert multiset(s2[j..]) == a + multiset{x};
    assert multiset(s1[i..]) == b + multiset{x};
    if a + multiset{x} <= b + multiset{x} {
      forall y
        ensures a[y] <= b[y]
      {
        assert (a + multiset{x})[y] <= (b + multiset{x})[y];
      }
    }
    if a <= b {
      forall y
        ensures (a + multiset{x})[y] <= (b + multiset{x})[y]
      {
        assert a[y] <= b[y];
      }
    }
  }

  /** includes with a comparator: whether every element of the sorted second
      range occurs in the sorted first range, as many times as in the
      second. */
  method IncludesBy<T(!new)>(s1: seq<T>, s2: seq<T>, lt: (T, T) -> bool) returns (r: bool)
    requires StrictTotalOrder(lt)
    requires SortedBetween(s1, 0, |s1|, lt) && SortedBetween(s2, 0, |s2|, lt)
    ensures r <==> multiset(s2) <= multiset(s1)
  {
    assert s1[0..] == s1 && s2[0..] == s2;
    var i, j := 0, 0;
    while i < |s1| && j < |s2|
      invariant 0 <= i <= |s1| && 0 <= j <= |s2|
      invariant IncludedFrom(s1, s2, 0, 0) <==> IncludedFrom(s1, s2, i, j)
    {
      if lt(s2[j], s1[i]) {
        HeadMissing(s1, s2, i, j, lt);
        return false;
      } else if lt(s1[i], s2[j]) {
        HeadSkippable(s1, s2, i, j, lt);
        i := i + 1;
      } else {
        HeadsMatch(s1, s2, i, j);
        i, j := i + 1, j + 1;
      }
    }
    if j < |s2| {
      assert s2[j] in multiset(s2[j..]);
    } else {
      assert s2[j..] == [];
    }
    r := j == |s2|;
  }

  /** includes: the instance with `<` on integers. */
  method Includes(s1: seq<int>, s2: seq<int>) returns (r: bool)
    requires Sorted(s1, 0, |s1|) && Sorted(s2, 0, |s2|)
    ensures r <==> multiset(s2) <= multiset(s1)
  {
    IntLessIsTotal();
    r := IncludesBy(s1, s2, IntLess);
  }
}
