/** swap, swap_range, the array swap, and `pair` with its comparison
    operators and make_pair.

  A C++ reference `T&` is modelled as a cell of an array, so `swap` takes
  two (array, index) cells that may be the same. The comparisons of `pair`
  are those of `pair<int, int>`, whose components use the built-in `==`
  and `<`. */
module Util {
  import opened Order
  import opened Ranges

  /** swap: exchanges the values of two cells (possibly the same one). */
  method Swap<T>(a: array<T>, i: int, b: array<T>, j: int)
    requires 0 <= i < a.Length && 0 <= j < b.Length
    modifies a, b
    ensures a[i] == old(b[j]) && b[j] == old(a[i])
    ensures forall k :: 0 <= k < a.Length && k != i && (a != b || k != j) ==> a[k] == old(a[k])
    ensures forall k :: 0 <= k < b.Length && k != j && (a != b || k != i) ==> b[k] == old(b[k])
  {
    var temp := a[i];
    a[i] := b[j];
    b[j] := temp;
  }

  /** swap_range: exchanges `a[f1 .. f1 + n)` with `b[f2 .. f2 + n)` element by
      element and returns the end of the second range. The ranges are either
      in distinct arrays, disjoint, or the very same range. */
  method SwapRange<T>(a: array<T>, f1: int, n: int, b: array<T>, f2: int) returns (r: int)
    requires 0 <= n && 0 <= f1 && f1 + n <= a.Length && 0 <= f2 && f2 + n <= b.Length
    requires a != b || f1 == f2 || f1 + n <= f2 || f2 + n <= f1
    modifies a, b
    ensures r == f2 + n
    ensures forall k :: f1 <= k < f1 + n ==> a[k] == old(b[k - f1 + f2])
    ensures forall k :: f2 <= k < f2 + n ==> b[k] == old(a[k - f2 + f1])
    ensures forall k :: 0 <= k < a.Length && !(f1 <= k < f1 + n) && (a != b || !(f2 <= k < f2 + n)) ==>
              a[k] == old(a[k])
    ensures forall k :: 0 <= k < b.Length && !(f2 <= k < f2 + n) && (a != b || !(f1 <= k < f1 + n)) ==>
              b[k] == old(b[k])
  {
    var i := 0;
    while i < n
      invariant 0 <= i <= n
      invariant forall k :: f1 <= k < f1 + i ==> a[k] == old(b[k - f1 + f2])
      invariant forall k :: f2 <= k < f2 + i ==> b[k] == old(a[k - f2 + f1])
      invariant forall k :: 0 <= k < a.Length && !(f1 <= k < f1 + i) && (a != b || !(f2 <= k < f2 + i)) ==>
                  a[k] == old(a[k])
      invariant forall k :: 0 <= k < b.Length && !(f2 <= k < f2 + i) && (a != b || !(f1 <= k < f1 + i)) ==>
                  b[k] == old(b[k])
    {
      Swap(a, f1 + i, b, f2 + i);
      i := i + 1;
    }
    r := f2 + n;
  }

  /** swap of two arrays of the same length `N`: swap_range over all of `a`. */
  method ArraySwap<T>(a: array<T>, b: array<T>)
    requires a.Length == b.Length
    modifies a, b
    ensures a[..] == old(b[..]) && b[..] == old(a[..])
  {
    var _ := SwapRange(a, 0, a.Length, b, 0);
  }

  datatype Pair<A, B> = Pair(first: A, second: B)

  /** make_pair: the pair of its two arguments. */
  function MakePair<A, B>(x: A, y: B): (p: Pair<A, B>)
    ensures p.first == x && p.second == y
  {
    Pair(x, y)
  }

  /** `operator==` on pairs: componentwise equality. */
  function PairEq(l: Pair<int, int>, r: Pair<int, int>): (b: bool)
    ensures b <==> l == r
  {
    l.first == r.first && l.second == r.second
  }

  /** `operator!=`: the negation of `==`. */
  function PairNe(l: Pair<int, int>, r: Pair<int, int>): (b: bool)
    ensures b <==> l != r
  {
    !PairEq(l, r)
  }

  /** `operator<`: `first` decides, `second` breaks a tie; that is the
      lexicographic order of the two components read as a sequence. */
  function PairLess(l: Pair<int, int>, r: Pair<int, int>): (b: bool)
    ensures b <==> LexLessBy([l.first, l.second], [r.first, r.second], IntLess)
  {
    PairLexLess(l, r);
    l.first < r.first || (l.first == r.first && l.second < r.second)
  }

  lemma PairLexLess(l: Pair<int, int>, r: Pair<int, int>)
    ensures LexLessBy([l.first, l.second], [r.first, r.second], IntLess) <==>
              l.first < r.first || (l.first == r.first && l.second < r.second)
  {
    var ls, rs := [l.first, l.second], [r.first, r.second];
    assert ls[1..] == [l.second] && rs[1..] == [r.second];
    assert LexLessBy([l.second], [r.second], IntLess) <==> l.second < r.second by {
      assert [l.second][1..] == [] && [r.second][1..] == [];
      assert !LexLessBy([], [], IntLess);
    }
    if l.first == r.first {
      assert LexLessBy(ls, rs, IntLess) == LexLessBy([l.second], [r.second], IntLess);
    }
  }

  /** `operator>`: the lexicographic order of the components, with the
      arguments flipped. */
  function PairGreater(l: Pair<int, int>, r: Pair<int, int>): (b: bool)
    ensures b <==> LexLessBy([r.first, r.second], [l.first, l.second], IntLess)
  {
    PairLess(r, l)
  }

  /** `operator<=`: not `rhs < lhs`. */
  function PairLessEq(l: Pair<int, int>, r: Pair<int, int>): (b: bool)
    ensures b <==> PairLess(l, r) || l == r
  {
    !PairLess(r, l)
  }

  /** `operator>=`: not `rhs > lhs`, that is not `lhs < rhs`. */
  function PairGreaterEq(l: Pair<int, int>, r: Pair<int, int>): (b: bool)
    ensures b <==> PairGreater(l, r) || l == r
  {
    !PairGreater(r, l)
  }

  /** The order of `pair` is a strict total order: exactly one of `l < r`,
      `l == r`, `r < l` holds, and `<` is transitive. */
  lemma PairLessIsStrictTotal(l: Pair<int, int>, m: Pair<int, int>, r: Pair<int, int>)
    ensures !PairLess(l, l)
    ensures PairLess(l, m) && PairLess(m, r) ==> PairLess(l, r)
    ensures PairLess(l, r) || l == r || PairLess(r, l)
    ensures !(PairLess(l, r) && PairLess(r, l))
  {
  }

  /** The order of `pair` is the lexicographic order of the two components
      read as a sequence. */
  lemma PairLessIsLexicographic(l: Pair<int, int>, r: Pair<int, int>)
    ensures PairLess(l, r) <==>
      exists k :: 0 <= k < 2 && [l.first, l.second][..k] == [r.first, r.second][..k] &&
        [l.first, l.second][k] < [r.first, r.second][k]
  {
    var ls := [l.first, l.second];
    var rs := [r.first, r.second];
    if PairLess(l, r) {
      if l.first < r.first {
        assert ls[..0] == rs[..0];
      } else {
        assert ls[..1] == rs[..1];
      }
    }
    if exists k :: 0 <= k < 2 && ls[..k] == rs[..k] && ls[k] < rs[k] {
      var k :| 0 <= k < 2 && ls[..k] == rs[..k] && ls[k] < rs[k];
      if k == 1 {
        assert ls[..1][0] == rs[..1][0];
      }
    }
  }
}
