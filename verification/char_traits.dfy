/** char_traits: the character operations that basic_string is built on.

  Characters are integer code units and compare as integers. A pointer into
  a character buffer is an array with an offset; `copy`, `move` and `fill`
  return the destination pointer they were given, which is its offset here.
  The generic template and the `char16_t` and `char32_t` specialisations
  share these loops. */
module CharTraits {
  import opened Order
  import opened Ranges

  /** length: the number of characters before the first zero, in a string
      that has a zero terminator. */
  method Length(str: seq<int>) returns (result: int)
    requires exists k :: 0 <= k < |str| && str[k] == 0
    ensures 0 <= result < |str| && str[result] == 0
    ensures forall k :: 0 <= k < result ==> str[k] != 0
  {
    result := 0;
    while str[result] != 0
      invariant 0 <= result < |str|
      invariant forall k :: 0 <= k < result ==> str[k] != 0
      invariant exists k :: result <= k < |str| && str[k] == 0
      decreases |str| - result
    {
      result := result + 1;
    }
  }

  /** compare: 0 when the first `n` characters agree; otherwise 1 or -1 as
      the first character that differs is greater or less in `str1`. So the
      answer is negative exactly when `str1[.. n)` is lexicographically less
      than `str2[.. n)`, and positive exactly when it is greater. */
  method Compare(str1: seq<int>, str2: seq<int>, n: int) returns (r: int)
    requires 0 <= n <= |str1| && n <= |str2|
    ensures r == 0 || r == 1 || r == -1
    ensures r == 0 <==> str1[..n] == str2[..n]
    ensures forall k :: FirstDifference(str1[..n], str2[..n], k) && k < n ==>
              r == (if str1[k] > str2[k] then 1 else -1)
    ensures r < 0 <==> LexLessBy(str1[..n], str2[..n], IntLess)
    ensures r > 0 <==> LexLessBy(str2[..n], str1[..n], IntLess)
  {
    var i := 0;
    while i < n
      invariant 0 <= i <= n
      invariant str1[..i] == str2[..i]
    {
      if str1[i] > str2[i] {
        r := 1;
        CompareAtDifference(str1, str2, n, i);
        return;
      } else if str1[i] < str2[i] {
        r := -1;
        CompareAtDifference(str1, str2, n, i);
        return;
      }
      assert str1[..i + 1] == str1[..i] + [str1[i]];
      assert str2[..i + 1] == str2[..i] + [str2[i]];
      i := i + 1;
    }
    r := 0;
    IntLessIsTotal();
    LexLessIsStrictTotal(str1[..n], str2[..n], IntLess);
  }

  /** When `str1` and `str2` first differ at `i < n`, that position is the
      first difference of the two prefixes and decides their order. */
  lemma CompareAtDifference(str1: seq<int>, str2: seq<int>, n: int, i: int)
    requires 0 <= i < n <= |str1| && n <= |str2|
    requires str1[..i] == str2[..i] && str1[i] != str2[i]
    ensures FirstDifference(str1[..n], str2[..n], i)
    ensures forall k :: FirstDifference(str1[..n], str2[..n], k) ==> k == i
    ensures str1[..n] != str2[..n]
    ensures LexLessBy(str1[..n], str2[..n], IntLess) <==> str1[i] < str2[i]
    ensures LexLessBy(str2[..n], str1[..n], IntLess) <==> str2[i] < str1[i]
  {
    assert str1[..n][..i] == str1[..i] && str2[..n][..i] == str2[..i];
    assert str1[..n][i] != str2[..n][i];
    LexLessAtDifference(str1[..n], str2[..n], i, IntLess);
    LexLessAtDifference(str2[..n], str1[..n], i, IntLess);
    assert FirstDifference(str2[..n], str1[..n], i);
  }

  /** copy: the `n` characters at `src` are copied to `dst`; the two ranges
      must not overlap, which the source asserts. */
  method Copy(dst: array<int>, d: int, src: array<int>, s: int, n: int) returns (result: int)
    requires 0 <= n && 0 <= d && d + n <= dst.Length && 0 <= s && s + n <= src.Length
    requires src != dst || s + n <= d || d + n <= s
    modifies dst
    ensures result == d
    ensures forall k :: d <= k < d + n ==> dst[k] == old(src[k - d + s])
    ensures forall k :: 0 <= k < dst.Length && !(d <= k < d + n) ==> dst[k] == old(dst[k])
  {
    result := d;
    var i := 0;
    while i != n
      invariant 0 <= i <= n
      invariant forall k :: d <= k < d + i ==> dst[k] == old(src[k - d + s])
      invariant forall k :: 0 <= k < dst.Length && !(d <= k < d + i) ==> dst[k] == old(dst[k])
      invariant forall k :: s + i <= k < s + n ==> src[k] == old(src[k])
    {
      dst[d + i] := src[s + i];
      i := i + 1;
    }
  }

  /** The forward loop of move: correct when the destination does not start
      inside the source range after its first character. */
  method MoveForward(dst: array<int>, d: int, src: array<int>, s: int, n: int)
    requires 0 <= n && 0 <= d && d + n <= dst.Length && 0 <= s && s + n <= src.Length
    requires src != dst || d <= s
    modifies dst
    ensures forall k :: d <= k < d + n ==> dst[k] == old(src[k - d + s])
    ensures forall k :: 0 <= k < dst.Length && !(d <= k < d + n) ==> dst[k] == old(dst[k])
  {
    var i := 0;
    while i != n
      invariant 0 <= i <= n
      invariant forall k :: d <= k < d + i ==> dst[k] == old(src[k - d + s])
      invariant forall k :: 0 <= k < dst.Length && !(d <= k < d + i) ==> dst[k] == old(dst[k])
      invariant forall k :: s + i <= k < s + n ==> src[k] == old(src[k])
    {
      dst[d + i] := src[s + i];
      i := i + 1;
    }
  }

  /** The backward loop of move: both pointers start past the end and step
      back before each write. */
  method MoveBackward(dst: array<int>, d: int, src: array<int>, s: int, n: int)
    requires 0 <= n && 0 <= d && d + n <= dst.Length && 0 <= s && s + n <= src.Length
    requires src != dst || s <= d
    modifies dst
    ensures forall k :: d <= k < d + n ==> dst[k] == old(src[k - d + s])
    ensures forall k :: 0 <= k < dst.Length && !(d <= k < d + n) ==> dst[k] == old(dst[k])
  {
    var i := n;
    while i != 0
      invariant 0 <= i <= n
      invariant forall k :: d + i <= k < d + n ==> dst[k] == old(src[k - d + s])
      invariant forall k :: 0 <= k < dst.Length && !(d + i <= k < d + n) ==> dst[k] == old(dst[k])
      invariant forall k :: s <= k < s + i ==> src[k] == old(src[k])
    {
      i := i - 1;
      dst[d + i] := src[s + i];
    }
  }

  /** move: copies the `n` characters at `src` to `dst` even when the ranges
      overlap, by running forward when `dst` is below `src`, backward when
      it is above, and not at all when they coincide. */
  method Move(dst: array<int>, d: int, src: array<int>, s: int, n: int) returns (result: int)
    requires 0 <= n && 0 <= d && d + n <= dst.Length && 0 <= s && s + n <= src.Length
    modifies dst
    ensures result == d
    ensures forall k :: d <= k < d + n ==> dst[k] == old(src[k - d + s])
    ensures forall k :: 0 <= k < dst.Length && !(d <= k < d + n) ==> dst[k] == old(dst[k])
  {
    result := d;
    if src != dst || d < s {
      MoveForward(dst, d, src, s, n);
    } else if d > s {
      MoveBackward(dst, d, src, s, n);
    }
  }

  /** fill: the `count` characters at `dst` become `value`. */
  method Fill(dst: array<int>, d: int, value: int, count: int) returns (result: int)
    requires 0 <= count && 0 <= d && d + count <= dst.Length
    modifies dst
    ensures result == d
    ensures forall k :: d <= k < d + count ==> dst[k] == value
    ensures forall k :: 0 <= k < dst.Length && !(d <= k < d + count) ==> dst[k] == old(dst[k])
  {
    result := d;
    var i := 0;
    while i < count
      invariant 0 <= i <= count
      invariant forall k :: d <= k < d + i ==> dst[k] == value
      invariant forall k :: 0 <= k < dst.Length && !(d <= k < d + i) ==> dst[k] == old(dst[k])
    {
      dst[d + i] := value;
      i := i + 1;
    }
  }
}
