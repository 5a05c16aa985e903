/** Reference definitions over whole ranges, shared by the algorithm
    modules: the elements a unary predicate selects, how many there are,
    and the lexicographic order of sequences.

  Ranges `[first, last)` of the library are modelled as sequences; the
  definitions here are written from the back of the sequence, the order in
  which a loop over the range extends what it has seen. */
module Ranges {
  import opened Order

  /** `s[lo..hi)` is ascending with respect to `lt`: no later element is
      less than an earlier one. */
  ghost predicate SortedBetween<T>(s: seq<T>, lo: int, hi: int, lt: (T, T) -> bool)
    requires 0 <= lo <= hi <= |s|
  {
    forall i, j :: lo <= i < j < hi ==> !lt(s[j], s[i])
  }

  /** The elements of `s` that satisfy `p`, in their order in `s`. */
  function Filter<T>(s: seq<T>, p: T -> bool): seq<T>
    decreases |s|
  {
    if |s| == 0 then []
    else Filter(s[..|s| - 1], p) + (if p(s[|s| - 1]) then [s[|s| - 1]] else [])
  }

  /** What the filter keeps satisfies `p`, and is drawn from `s`. */
  lemma {:induction false} FilterSelects<T>(s: seq<T>, p: T -> bool)
    ensures |Filter(s, p)| <= |s|
    ensures forall i :: 0 <= i < |Filter(s, p)| ==> p(Filter(s, p)[i])
    ensures multiset(Filter(s, p)) <= multiset(s)
    decreases |s|
  {
    if |s| > 0 {
      var init := s[..|s| - 1];
      assert s == init + [s[|s| - 1]];
      FilterSelects(init, p);
    }
  }

  /** The number of elements of `s` that satisfy `p`. */
  function CountWhere<T>(s: seq<T>, p: T -> bool): (n: nat)
    ensures n <= |s|
    decreases |s|
  {
    if |s| == 0 then 0
    else CountWhere(s[..|s| - 1], p) + (if p(s[|s| - 1]) then 1 else 0)
  }

  /** Counting the elements that satisfy `p` is measuring the filtered
      range: the number that copy_if writes is the number count_if finds. */
  lemma {:induction false} CountIsFilterLength<T>(s: seq<T>, p: T -> bool)
    ensures CountWhere(s, p) == |Filter(s, p)|
    decreases |s|
  {
    if |s| > 0 {
      CountIsFilterLength(s[..|s| - 1], p);
    }
  }

  /** Counting the elements equal to `x` is the multiplicity of `x`. */
  lemma {:induction false} CountEqualIsMultiplicity<T>(s: seq<T>, x: T)
    ensures CountWhere(s, y => y == x) == multiset(s)[x]
    decreases |s|
  {
    if |s| > 0 {
      var init := s[..|s| - 1];
      assert s == init + [s[|s| - 1]];
      CountEqualIsMultiplicity(init, x);
    }
  }

  /** Every element either satisfies `p` or does not: the two counts add up
      to the length of the range. */
  lemma {:induction false} CountWhereComplement<T>(s: seq<T>, p: T -> bool)
    ensures CountWhere(s, p) + CountWhere(s, x => !p(x)) == |s|
    decreases |s|
  {
    if |s| > 0 {
      CountWhereComplement(s[..|s| - 1], p);
    }
  }

  /** The elements of `s` in the opposite order. */
  function Reversed<T>(s: seq<T>): seq<T>
    decreases |s|
  {
    if |s| == 0 then [] else [s[|s| - 1]] + Reversed(s[..|s| - 1])
  }

  /** Element `k` of the reversal is element `|s| - 1 - k` of `s`. */
  lemma {:induction false} ReversedAt<T>(s: seq<T>)
    ensures |Reversed(s)| == |s|
    ensures forall k :: 0 <= k < |s| ==> Reversed(s)[k] == s[|s| - 1 - k]
    decreases |s|
  {
    if |s| > 0 {
      ReversedAt(s[..|s| - 1]);
    }
  }

  /** Reversing twice gives back the range, and reversing keeps its
      elements. */
  lemma ReversedInvolution<T>(s: seq<T>)
    ensures Reversed(Reversed(s)) == s
    ensures multiset(Reversed(s)) == multiset(s)
  {
    ReversedAt(s);
    ReversedAt(Reversed(s));
    ReversedMultiset(s);
  }

  lemma {:induction false} ReversedMultiset<T>(s: seq<T>)
    ensures multiset(Reversed(s)) == multiset(s)
    decreases |s|
  {
    if |s| > 0 {
      ReversedMultiset(s[..|s| - 1]);
      assert s == s[..|s| - 1] + [s[|s| - 1]];
    }
  }

  /** A predicate true of every element selects the whole range; one false of
      every element selects nothing. */
  lemma {:induction false} FilterAllOrNone<T>(s: seq<T>, p: T -> bool)
    ensures (forall i :: 0 <= i < |s| ==> p(s[i])) ==> Filter(s, p) == s
    ensures (forall i :: 0 <= i < |s| ==> !p(s[i])) ==> Filter(s, p) == []
    decreases |s|
  {
    if |s| > 0 {
      var init := s[..|s| - 1];
      assert s == init + [s[|s| - 1]];
      FilterAllOrNone(init, p);
    }
  }

  /** Lexicographic order over the element order `lt`, decided the way the
      library's loop decides it: at the first position where the elements
      differ by `!=`, `a < b` exactly when `lt` ranks `a`'s element first;
      with no such position, `a < b` when `a` is a proper prefix of `b`.
      This agrees with ISO C++ [alg.lex.comparison] when `lt` is a strict
      total order; for a mere strict weak order, ISO skips equivalent but
      unequal elements, which this rule does not. */
  function LexLessBy<T(==)>(a: seq<T>, b: seq<T>, lt: (T, T) -> bool): bool
    decreases |a|
  {
    if |b| == 0 then false
    else if |a| == 0 then true
    else if a[0] != b[0] then lt(a[0], b[0])
    else LexLessBy(a[1..], b[1..], lt)
  }

  /** `k` is the first position where `a` and `b` differ, or the end of the
      shorter one when one is a prefix of the other. */
  ghost predicate FirstDifference<T>(a: seq<T>, b: seq<T>, k: int) {
    && 0 <= k <= |a| && k <= |b|
    && a[..k] == b[..k]
    && (k == |a| || k == |b| || a[k] != b[k])
  }

  /** The first difference decides the lexicographic order. */
  lemma {:induction false} LexLessAtDifference<T>(a: seq<T>, b: seq<T>, k: int, lt: (T, T) -> bool)
    requires FirstDifference(a, b, k)
    ensures LexLessBy(a, b, lt) <==> if k < |a| && k < |b| then lt(a[k], b[k]) else |a| < |b|
    decreases k
  {
    if k > 0 && |a| > 0 && |b| > 0 {
      assert a[0] == a[..k][0] == b[..k][0] == b[0];
      assert a[1..][..k - 1] == a[..k][1..] == b[..k][1..] == b[1..][..k - 1];
      LexLessAtDifference(a[1..], b[1..], k - 1, lt);
    }
  }

  /** Any two sequences have a first difference. */
  lemma {:induction false} FirstDifferenceExists<T>(a: seq<T>, b: seq<T>) returns (k: int)
    ensures FirstDifference(a, b, k)
    decreases |a|
  {
    if |a| == 0 || |b| == 0 || a[0] != b[0] {
      k := 0;
    } else {
      var k' := FirstDifferenceExists(a[1..], b[1..]);
      k := k' + 1;
      assert a[..k] == [a[0]] + a[1..][..k'];
      assert b[..k] == [b[0]] + b[1..][..k'];
    }
  }

  /** Over a strict total order of the elements the order is strict and
      total: exactly one of `a < b`, `a == b`, `b < a` holds. */
  lemma LexLessIsStrictTotal<T(!new)>(a: seq<T>, b: seq<T>, lt: (T, T) -> bool)
    requires StrictTotalOrder(lt)
    ensures !LexLessBy(a, a, lt)
    ensures !(LexLessBy(a, b, lt) && LexLessBy(b, a, lt))
    ensures a != b ==> LexLessBy(a, b, lt) || LexLessBy(b, a, lt)
  {
    var k := FirstDifferenceExists(a, b);
    LexLessAtDifference(a, b, k, lt);
    LexLessAtDifference(b, a, k, lt);
    var j := FirstDifferenceExists(a, a);
    LexLessAtDifference(a, a, j, lt);
    if k < |a| && k < |b| && lt(a[k], b[k]) {
      Asymmetric(lt, a[k], b[k]);
    }
    if k == |a| && k == |b| {
      assert a == a[..k] == b[..k] == b;
    }
  }

  /** Over a strict weak order of the elements the order is transitive. */
  lemma {:induction false} LexLessTransitive<T(!new)>(a: seq<T>, b: seq<T>, c: seq<T>, lt: (T, T) -> bool)
    requires StrictWeakOrder(lt)
    requires LexLessBy(a, b, lt) && LexLessBy(b, c, lt)
    ensures LexLessBy(a, c, lt)
    decreases |a|
  {
    if |a| > 0 && a[0] != b[0] && b[0] != c[0] {
      Trans(lt, a[0], b[0], c[0]);
    } else if |a| > 0 && a[0] == b[0] && b[0] == c[0] {
      LexLessTransitive(a[1..], b[1..], c[1..], lt);
    }
  }

  /** After a common prefix the order is decided by what follows it. */
  lemma {:induction false} LexLessAfterPrefix<T>(a: seq<T>, b: seq<T>, k: int, lt: (T, T) -> bool)
    requires 0 <= k <= |a| && k <= |b| && a[..k] == b[..k]
    ensures LexLessBy(a, b, lt) <==> LexLessBy(a[k..], b[k..], lt)
    decreases k
  {
    if k > 0 {
      assert a[0] == a[..k][0] == b[..k][0] == b[0];
      assert a[1..][..k - 1] == a[..k][1..] == b[..k][1..] == b[1..][..k - 1];
      LexLessAfterPrefix(a[1..], b[1..], k - 1, lt);
      assert a[1..][k - 1..] == a[k..] && b[1..][k - 1..] == b[k..];
    }
  }

  /** Splitting both ranges after a common prefix: they are permutations of
      each other exactly when what follows the prefix is. */
  lemma PermutationAfterPrefix<T>(s1: seq<T>, s2: seq<T>, p: int)
    requires 0 <= p <= |s1| && p <= |s2| && s1[..p] == s2[..p]
    ensures multiset(s1) == multiset(s2) <==> multiset(s1[p..]) == multiset(s2[p..])
  {
    assert s1 == s1[..p] + s1[p..];
    assert s2 == s2[..p] + s2[p..];
    if multiset(s1) == multiset(s2) {
      assert multiset(s1[p..]) == multiset(s1) - multiset(s1[..p]);
    }
  }
}
