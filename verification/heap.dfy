/** The four heap algorithms: push_heap, pop_heap, sort_heap and make_heap.

  A heap range `[first, first + len)` is modelled as the prefix `a[0..len)`
  of an array; index arithmetic is the implicit binary tree of the source
  (children of `i` at `2i+1` and `2i+2`). The comparator `lt` plays the part
  of `pred` (or of `operator<` in the default overloads, `IntLess` on
  integers); the algorithms build a max-heap: no parent is less than its
  child. */
module HeapAlgo {
  import opened Order
  import opened Ranges

  /** Index of the parent of node `i` (for `i >= 1`). */
  function Parent(i: int): (p: int)
    ensures i >= 1 ==> 0 <= p < i && (i == 2 * p + 1 || i == 2 * p + 2)
  {
    (i - 1) / 2
  }

  /** `h` lies in the subtree rooted at `t`. */
  ghost predicate Desc(h: int, t: int)
    decreases h
  {
    h == t || (h > t && h >= 1 && Desc(Parent(h), t))
  }

  /** Every parent-child edge of `s[0..len)` whose parent index is at least
      `k` is in heap order. */
  ghost predicate HeapFrom<T>(s: seq<T>, k: int, len: int, lt: (T, T) -> bool)
    requires 0 <= len <= |s|
  {
    forall c :: 0 < c < len && k <= Parent(c) ==> !lt(s[Parent(c)], s[c])
  }

  /** `s[0..len)` is a max-heap with respect to `lt`. */
  ghost predicate IsHeap<T>(s: seq<T>, len: int, lt: (T, T) -> bool)
    requires 0 <= len <= |s|
  {
    HeapFrom(s, 0, len, lt)
  }

  /** `x` is not less than any child of node `h` inside `s[0..len)`. */
  ghost predicate Dominates<T>(s: seq<T>, x: T, h: int, len: int, lt: (T, T) -> bool)
    requires 0 <= h && 0 <= len <= |s|
  {
    && (2 * h + 1 < len ==> !lt(x, s[2 * h + 1]))
    && (2 * h + 2 < len ==> !lt(x, s[2 * h + 2]))
  }

  /** The edges from `top` down are in order except those touching the
      hole `h`, which is `skip`-dominated on its parent side. */
  ghost predicate EdgesOkExcept<T>(s: seq<T>, top: int, len: int, h: int, lt: (T, T) -> bool)
    requires 0 <= len <= |s|
  {
    forall c :: 0 < c < len && top <= Parent(c) && Parent(c) != h && c != h ==> !lt(s[Parent(c)], s[c])
  }

  /** What holds while `value` percolates up from the hole `h`. */
  ghost predicate SiftUpInv<T>(s: seq<T>, h: int, top: int, len: int, value: T, lt: (T, T) -> bool)
    requires 0 <= top <= h < |s| && 0 <= len <= |s|
  {
    && EdgesOkExcept(s, top, len, h, lt)
    && Dominates(s, value, h, len, lt)
    && (h > top ==> Dominates(s, s[Parent(h)], h, len, lt))
  }

  /** What holds while the hole `h` percolates down: the edge into the hole
      is in order (its parent holds a copy of the hole's old value), and
      the hole's parent dominates the hole's children. */
  ghost predicate SiftDownInv<T>(s: seq<T>, h: int, top: int, len: int, lt: (T, T) -> bool)
    requires 0 <= top <= h < |s| && 0 <= len <= |s|
  {
    && (forall c :: 0 < c < len && top <= Parent(c) && Parent(c) != h ==> !lt(s[Parent(c)], s[c]))
    && (h > top ==> Dominates(s, s[Parent(h)], h, len, lt))
  }

  lemma {:induction false} DescOfRoot(h: int)
    requires h >= 0
    ensures Desc(h, 0)
    decreases h
  {
    if h > 0 {
      DescOfRoot(Parent(h));
    }
  }

  lemma DescAtLeast(h: int, t: int)
    requires t >= 0 && Desc(h, t)
    ensures h >= t
  {
  }

  /** The root of a heap is not less than any element of the heap. */
  lemma {:induction false} HeapRootMax<T(!new)>(s: seq<T>, len: int, lt: (T, T) -> bool, i: int)
    requires StrictWeakOrder(lt)
    requires 0 <= i < len <= |s| && IsHeap(s, len, lt)
    ensures !lt(s[0], s[i])
    decreases i
  {
    if i > 0 {
      HeapRootMax(s, len, lt, Parent(i));
      assert !lt(s[Parent(i)], s[i]);
      NegTrans(lt, s[0], s[Parent(i)], s[i]);
    }
  }

  /** Overwriting two cells in turn yields the same multiset as the single
      overwrite: the bookkeeping of every hole move. */
  lemma MoveHole<T>(s: seq<T>, h: int, c: int, v: T)
    requires 0 <= h < |s| && 0 <= c < |s| && h != c
    ensures multiset(s[h := s[c]][c := v]) == multiset(s[h := v])
  {
    var t := s[h := s[c]];
    assert multiset(t) == multiset(s) - multiset{s[h]} + multiset{s[c]};
    assert multiset(t[c := v]) == multiset(t) - multiset{s[c]} + multiset{v};
  }

  lemma SplitMultiset<T>(s: seq<T>, t: seq<T>, len: int)
    requires 0 <= len <= |s| == |t|
    requires multiset(s) == multiset(t) && s[len..] == t[len..]
    ensures multiset(s[..len]) == multiset(t[..len])
  {
    assert s == s[..len] + s[len..];
    assert t == t[..len] + t[len..];
    assert multiset(s) == multiset(s[..len]) + multiset(s[len..]);
    assert multiset(t) == multiset(t[..len]) + multiset(t[len..]);
    forall x
      ensures multiset(s[..len])[x] == multiset(t[..len])[x]
    {
      assert multiset(s)[x] == multiset(s[..len])[x] + multiset(s[len..])[x];
      assert multiset(t)[x] == multiset(t[..len])[x] + multiset(t[len..])[x];
    }
  }

  /** An element of a prefix is found in any prefix with the same multiset. */
  lemma FindIn<T>(s: seq<T>, t: seq<T>, n: int, i: int) returns (k: int)
    requires 0 <= i < n <= |s| && n <= |t|
    requires multiset(s[..n]) == multiset(t[..n])
    ensures 0 <= k < n && t[k] == s[i]
  {
    assert s[..n][i] == s[i];
    assert s[i] in multiset(t[..n]);
    k :| 0 <= k < n && t[..n][k] == s[i];
  }

  /** After the hole moves from `h` up to `p = Parent(h)`, `value` still
      dominates the hole's children: the old parent, now at `h`, is less than
      `value`, and `value` is not less than its sibling. */
  lemma SiftUpValue<T(!new)>(s: seq<T>, h: int, top: int, len: int, value: T, lt: (T, T) -> bool)
    requires StrictWeakOrder(lt)
    requires 0 <= top < h < len <= |s|
    requires EdgesOkExcept(s, top, len, h, lt) && top <= Parent(h)
    requires lt(s[Parent(h)], value)
    ensures Dominates(s[h := s[Parent(h)]], value, Parent(h), len, lt)
  {
    var p := Parent(h);
    var sib := if h == 2 * p + 1 then 2 * p + 2 else 2 * p + 1;
    Asymmetric(lt, s[p], value);
    if sib < len {
      assert Parent(sib) == p;
      if lt(value, s[sib]) {
        Trans(lt, s[p], value, s[sib]);
      }
    }
  }

  /** After the move, the grandparent dominates the hole's children. */
  lemma SiftUpGrand<T(!new)>(s: seq<T>, h: int, top: int, len: int, lt: (T, T) -> bool)
    requires StrictWeakOrder(lt)
    requires 0 <= top < h < len <= |s|
    requires EdgesOkExcept(s, top, len, h, lt)
    requires top < Parent(h) && top <= Parent(Parent(h))
    ensures Dominates(s[h := s[Parent(h)]], s[Parent(Parent(h))], Parent(h), len, lt)
  {
    var p := Parent(h);
    var sib := if h == 2 * p + 1 then 2 * p + 2 else 2 * p + 1;
    assert !lt(s[Parent(p)], s[p]);
    if sib < len {
      assert Parent(sib) == p;
      NegTrans(lt, s[Parent(p)], s[p], s[sib]);
    }
  }

  /** After the move, the edges away from the new hole are in order: the
      old parent now at `h` dominates `h`'s children. */
  lemma SiftUpEdges<T>(s: seq<T>, h: int, top: int, len: int, lt: (T, T) -> bool)
    requires 0 <= top < h < len <= |s|
    requires EdgesOkExcept(s, top, len, h, lt)
    requires Dominates(s, s[Parent(h)], h, len, lt)
    ensures EdgesOkExcept(s[h := s[Parent(h)]], top, len, Parent(h), lt)
  {
    var t := s[h := s[Parent(h)]];
    forall c | 0 < c < len && top <= Parent(c) && Parent(c) != Parent(h) && c != Parent(h)
      ensures !lt(t[Parent(c)], t[c])
    {
      if Parent(c) == h {
        assert c == 2 * h + 1 || c == 2 * h + 2;
      }
    }
  }

  /** One move of the hole from `h` up to its parent, which is less than
      `value`. */
  lemma SiftUpStep<T(!new)>(s: seq<T>, h: int, top: int, len: int, value: T, lt: (T, T) -> bool)
    requires StrictWeakOrder(lt)
    requires 0 <= top < h < len <= |s| && Desc(h, top)
    requires SiftUpInv(s, h, top, len, value, lt)
    requires lt(s[Parent(h)], value)
    ensures Desc(Parent(h), top) && top <= Parent(h)
    ensures SiftUpInv(s[h := s[Parent(h)]], Parent(h), top, len, value, lt)
  {
    var p := Parent(h);
    DescAtLeast(p, top);
    SiftUpValue(s, h, top, len, value, lt);
    if p > top {
      DescAtLeast(Parent(p), top);
      SiftUpGrand(s, h, top, len, lt);
    }
    SiftUpEdges(s, h, top, len, lt);
  }

  /** Storing `value` where the percolation stopped completes the heap. */
  lemma SiftUpDone<T(!new)>(s: seq<T>, h: int, top: int, len: int, value: T, lt: (T, T) -> bool)
    requires 0 <= top <= h < |s| && 0 <= len <= |s|
    requires SiftUpInv(s, h, top, len, value, lt)
    requires h == top || !lt(s[Parent(h)], value)
    ensures HeapFrom(s[h := value], top, len, lt)
  {
    var t := s[h := value];
    forall c | 0 < c < len && top <= Parent(c)
      ensures !lt(t[Parent(c)], t[c])
    {
      if Parent(c) == h {
        assert c == 2 * h + 1 || c == 2 * h + 2;
      } else if c == h {
        assert Parent(h) < h;
      }
    }
  }

  /** push_heap_aux: percolates `value` up from `hole` towards `top`, moving
      every parent less than `value` one level down, then stores `value`. */
  method PushHeapAux<T(!new)>(a: array<T>, hole: int, top: int, len: int, value: T, lt: (T, T) -> bool)
    requires StrictWeakOrder(lt)
    requires 0 <= top <= hole < a.Length && 0 <= len <= a.Length
    requires hole < len || hole == top
    requires Desc(hole, top)
    requires SiftUpInv(a[..], hole, top, len, value, lt)
    modifies a
    ensures HeapFrom(a[..], top, len, lt)
    ensures multiset(a[..]) == multiset(old(a[..])[hole := value])
    ensures forall i :: 0 <= i < a.Length && !(top <= i <= hole) ==> a[i] == old(a[i])
  {
    var h := hole;
    while h > top && lt(a[Parent(h)], value)
      invariant top <= h <= hole && Desc(h, top) && (h < len || h == top)
      invariant SiftUpInv(a[..], h, top, len, value, lt)
      invariant multiset(a[..][h := value]) == multiset(old(a[..])[hole := value])
      invariant forall i :: 0 <= i < a.Length && !(h <= i <= hole) ==> a[i] == old(a[i])
      decreases h
    {
      var p := Parent(h);
      SiftUpStep(a[..], h, top, len, value, lt);
      MoveHole(a[..], h, p, value);
      a[h] := a[p];
      h := p;
    }
    SiftUpDone(a[..], h, top, len, value, lt);
    a[h] := value;
  }

  /** push_heap (the default overload, spelt push_head, and the `pred`
      overload): the last element of `a[0..len)` joins the heap
      `a[0..len-1)`. */
  method PushHeap<T(!new)>(a: array<T>, len: int, lt: (T, T) -> bool)
    requires StrictWeakOrder(lt)
    requires 1 <= len <= a.Length && IsHeap(a[..], len - 1, lt)
    modifies a
    ensures IsHeap(a[..], len, lt)
    ensures multiset(a[..len]) == multiset(old(a[..len]))
    ensures a[len..] == old(a[len..])
  {
    ghost var s0 := a[..];
    var hole := len - 1;
    var value := a[hole];
    DescOfRoot(hole);
    assert SiftUpInv(a[..], hole, 0, len, value, lt) by {
      forall c | 0 < c < len && 0 <= Parent(c) && Parent(c) != hole && c != hole
        ensures !lt(s0[Parent(c)], s0[c])
      {
        assert c < len - 1;
      }
    }
    PushHeapAux(a, hole, 0, len, value, lt);
    assert s0[hole := value] == s0;
    assert a[len..] == s0[len..];
    SplitMultiset(a[..], s0, len);
  }

  /** One move of the hole from `h` down to its larger child `child`. */
  lemma SiftDownStep<T(!new)>(s: seq<T>, h: int, child: int, top: int, len: int, lt: (T, T) -> bool)
    requires StrictWeakOrder(lt)
    requires 0 <= top <= h && 0 < child < len <= |s| && Parent(child) == h
    requires SiftDownInv(s, h, top, len, lt)
    requires Dominates(s, s[child], h, len, lt)
    ensures SiftDownInv(s[h := s[child]], child, top, len, lt)
  {
    var t := s[h := s[child]];
    forall c | 0 < c < len && top <= Parent(c) && Parent(c) != child
      ensures !lt(t[Parent(c)], t[c])
    {
      if c == h {
        assert h > top ==> Dominates(s, s[Parent(h)], h, len, lt);
        assert child == 2 * h + 1 || child == 2 * h + 2;
      } else if Parent(c) == h {
        assert c == 2 * h + 1 || c == 2 * h + 2;
      }
    }
    forall c | 0 < c < len && Parent(c) == child
      ensures !lt(t[Parent(child)], t[c])
    {
      assert !lt(s[child], s[c]);
    }
    assert Dominates(t, t[Parent(child)], child, len, lt);
  }

  /** The whole of one sift-down move to the larger child: order, multiset
      and subtree facts. `child` is the right child unless it is out of the
      range or less than the left one. */
  lemma SiftDownMove<T(!new)>(s: seq<T>, h: int, child: int, top: int, len: int, value: T, lt: (T, T) -> bool)
    requires StrictWeakOrder(lt)
    requires 0 <= top <= h && Desc(h, top) && len <= |s| && child < len
    requires child == 2 * h + 1 || child == 2 * h + 2
    requires child == 2 * h + 1 ==> 2 * h + 2 >= len || lt(s[2 * h + 2], s[2 * h + 1])
    requires child == 2 * h + 2 ==> !lt(s[2 * h + 2], s[2 * h + 1])
    requires SiftDownInv(s, h, top, len, lt)
    ensures SiftDownInv(s[h := s[child]], child, top, len, lt)
    ensures multiset(s[h := s[child]][child := value]) == multiset(s[h := value])
    ensures Desc(child, top) && h < child
  {
    assert Parent(child) == h;
    if child == 2 * h + 1 && 2 * h + 2 < len {
      Asymmetric(lt, s[2 * h + 2], s[2 * h + 1]);
    }
    assert Dominates(s, s[child], h, len, lt);
    SiftDownStep(s, h, child, top, len, lt);
    MoveHole(s, h, child, value);
  }

  /** A hole without children inside the range is ready to receive `value`. */
  lemma SiftDownDone<T>(s: seq<T>, h: int, top: int, len: int, value: T, lt: (T, T) -> bool)
    requires 0 <= top <= h < |s| && 0 <= len <= |s| && 2 * h + 1 >= len
    requires SiftDownInv(s, h, top, len, lt)
    ensures SiftUpInv(s, h, top, len, value, lt)
  {
  }

  /** One step of the percolation: the hole at `h` takes the value of the
      chosen child, and the hole moves down to that child. */
  method MoveHoleDown<T(!new)>(a: array<T>, h: int, child: int, top: int, len: int, value: T, lt: (T, T) -> bool)
    requires StrictWeakOrder(lt)
    requires 0 <= top <= h && Desc(h, top) && len <= a.Length && child < len
    requires child == 2 * h + 1 || child == 2 * h + 2
    requires child == 2 * h + 1 ==> 2 * h + 2 >= len || lt(a[2 * h + 2], a[2 * h + 1])
    requires child == 2 * h + 2 ==> !lt(a[2 * h + 2], a[2 * h + 1])
    requires SiftDownInv(a[..], h, top, len, lt)
    modifies a
    ensures a[h] == old(a[child])
    ensures forall i :: 0 <= i < a.Length && i != h ==> a[i] == old(a[i])
    ensures SiftDownInv(a[..], child, top, len, lt) && Desc(child, top) && h < child
    ensures multiset(a[..][child := value]) == multiset(old(a[..])[h := value])
  {
    SiftDownMove(a[..], h, child, top, len, value, lt);
    a[h] := a[child];
  }

  /** One turn of the percolation loop: the hole moves to the larger of its
      two children (the left one only when the right is less). */
  method DescendOnce<T(!new)>(a: array<T>, h: int, top: int, len: int, value: T, lt: (T, T) -> bool)
    returns (child: int)
    requires StrictWeakOrder(lt)
    requires 0 <= top <= h && Desc(h, top) && len <= a.Length && 2 * h + 2 < len
    requires SiftDownInv(a[..], h, top, len, lt)
    modifies a
    ensures child == 2 * h + 1 || child == 2 * h + 2
    ensures a[h] == old(a[child])
    ensures forall i :: 0 <= i < a.Length && i != h ==> a[i] == old(a[i])
    ensures SiftDownInv(a[..], child, top, len, lt) && Desc(child, top)
    ensures multiset(a[..][child := value]) == multiset(old(a[..])[h := value])
  {
    var rchild := 2 * h + 2;
    child := if lt(a[rchild], a[rchild - 1]) then rchild - 1 else rchild;
    MoveHoleDown(a, h, child, top, len, value, lt);
  }

  /** The first half of adjust_heap: percolates the hole at `top` down along
      the larger child to the bottom of the subtree, and returns where the
      hole ended. The hole is then ready to receive `value` on the way up. */
  method PercolateDown<T(!new)>(a: array<T>, top: int, len: int, value: T, lt: (T, T) -> bool)
    returns (h: int)
    requires StrictWeakOrder(lt)
    requires 0 <= top < a.Length && 0 <= len <= a.Length
    requires HeapFrom(a[..], top + 1, len, lt)
    modifies a
    ensures top <= h < a.Length && Desc(h, top) && (h < len || h == top)
    ensures SiftUpInv(a[..], h, top, len, value, lt)
    ensures multiset(a[..][h := value]) == multiset(old(a[..])[top := value])
    ensures forall i :: 0 <= i < a.Length && i >= len && i != top ==> a[i] == old(a[i])
  {
    h := top;
    var rchild := 2 * h + 2;
    ghost var s0 := a[..];
    while rchild < len
      invariant top <= h < a.Length && Desc(h, top) && (h < len || h == top)
      invariant rchild == 2 * h + 2
      invariant SiftDownInv(a[..], h, top, len, lt)
      invariant multiset(a[..][h := value]) == multiset(s0[top := value])
      invariant forall i :: 0 <= i < a.Length && i >= len && i != top ==> a[i] == s0[i]
      decreases len - h
    {
      h := DescendOnce(a, h, top, len, value, lt);
      rchild := 2 * (h + 1);
    }
    if rchild == len {
      MoveHoleDown(a, h, rchild - 1, top, len, value, lt);
      h := rchild - 1;
    }
    SiftDownDone(a[..], h, top, len, value, lt);
  }

  /** adjust_heap: percolates the hole at `top` down, then pushes `value`
      back up to its place. Turns a range whose edges below `top` are in
      order into one whose edges from `top` down are in order. */
  method AdjustHeap<T(!new)>(a: array<T>, top: int, len: int, value: T, lt: (T, T) -> bool)
    requires StrictWeakOrder(lt)
    requires 0 <= top < a.Length && 0 <= len <= a.Length
    requires HeapFrom(a[..], top + 1, len, lt)
    modifies a
    ensures HeapFrom(a[..], top, len, lt)
    ensures multiset(a[..]) == multiset(old(a[..])[top := value])
    ensures forall i :: 0 <= i < a.Length && i >= len && i != top ==> a[i] == old(a[i])
  {
    var h := PercolateDown(a, top, len, value, lt);
    PushHeapAux(a, h, top, len, value, lt);
  }

  /** What pop_heap leaves at the end of the range is the old maximum. */
  lemma PopMax<T(!new)>(s0: seq<T>, s: seq<T>, len: int, lt: (T, T) -> bool)
    requires StrictWeakOrder(lt)
    requires 1 <= len <= |s0| == |s| && IsHeap(s0, len, lt)
    requires multiset(s[..len]) == multiset(s0[..len]) && s[len - 1] == s0[0]
    ensures forall i :: 0 <= i < len ==> !lt(s[len - 1], s[i])
  {
    forall i | 0 <= i < len
      ensures !lt(s[len - 1], s[i])
    {
      var k := FindIn(s, s0, len, i);
      HeapRootMax(s0, len, lt, k);
    }
  }

  /** The two writes of pop_heap exchange the first and last elements as far
      as the multiset is concerned. */
  lemma PopMultiset<T>(s0: seq<T>, len: int)
    requires 1 <= len <= |s0|
    ensures multiset(s0[len - 1 := s0[0]][0 := s0[len - 1]]) == multiset(s0)
  {
    if len > 1 {
      MoveHole(s0, len - 1, 0, s0[len - 1]);
      assert s0[len - 1 := s0[len - 1]] == s0;
    } else {
      assert s0[len - 1 := s0[0]][0 := s0[len - 1]] == s0;
    }
  }

  /** The array left by pop_heap, as far as its contents go. */
  lemma PopFinish<T(!new)>(s0: seq<T>, s: seq<T>, len: int, lt: (T, T) -> bool)
    requires StrictWeakOrder(lt)
    requires 1 <= len <= |s0| == |s| && IsHeap(s0, len, lt)
    requires multiset(s) == multiset(s0[len - 1 := s0[0]][0 := s0[len - 1]])
    requires forall i :: 0 <= i < |s| && i >= len - 1 && i != 0 ==> s[i] == s0[len - 1 := s0[0]][i]
    ensures s[len - 1] == s0[0]
    ensures forall i :: 0 <= i < len ==> !lt(s[len - 1], s[i])
    ensures multiset(s[..len]) == multiset(s0[..len])
    ensures s[len..] == s0[len..]
  {
    PopMultiset(s0, len);
    if len == 1 {
      assert s[0] == s0[0] by {
        assert multiset(s) == multiset(s0);
        assert s[1..] == s0[1..];
        SplitMultiset(s, s0, 1);
        assert multiset(s[..1]) == multiset{s[0]};
        assert multiset(s0[..1]) == multiset{s0[0]};
      }
    }
    assert s[len..] == s0[len..];
    SplitMultiset(s, s0, len);
    PopMax(s0, s, len, lt);
  }

  /** pop_heap: moves the largest element of the heap `a[0..len)` to
      position `len - 1` and makes `a[0..len-1)` a heap again. */
  method PopHeap<T(!new)>(a: array<T>, len: int, lt: (T, T) -> bool)
    requires StrictWeakOrder(lt)
    requires 1 <= len <= a.Length && IsHeap(a[..], len, lt)
    modifies a
    ensures IsHeap(a[..], len - 1, lt)
    ensures a[len - 1] == old(a[0])
    ensures forall i :: 0 <= i < len ==> !lt(a[len - 1], a[i])
    ensures multiset(a[..len]) == multiset(old(a[..len]))
    ensures a[len..] == old(a[len..])
  {
    ghost var s0 := a[..];
    var value := a[len - 1];
    a[len - 1] := a[0];
    assert HeapFrom(a[..], 1, len - 1, lt) by {
      assert forall c :: 0 < c < len - 1 ==> a[c] == s0[c];
    }
    AdjustHeap(a, 0, len - 1, value, lt);
    PopFinish(s0, a[..], len, lt);
  }

  /** The bookkeeping of one round of sort_heap: the element pop_heap placed
      at `last - 1` extends the sorted suffix. */
  lemma SortStep<T(!new)>(before: seq<T>, after: seq<T>, last: int, len: int, lt: (T, T) -> bool)
    requires 1 <= last <= len <= |before| == |after|
    requires multiset(after[..last]) == multiset(before[..last]) && after[last..] == before[last..]
    requires SortedBetween(before, last, len, lt)
    requires forall i, j :: 0 <= i < last <= j < len ==> !lt(before[j], before[i])
    requires forall i :: 0 <= i < last ==> !lt(after[last - 1], after[i])
    ensures SortedBetween(after, last - 1, len, lt)
    ensures forall i, j :: 0 <= i < last - 1 <= j < len ==> !lt(after[j], after[i])
    ensures multiset(after[..len]) == multiset(before[..len]) && after[len..] == before[len..]
  {
    assert after[..len] == after[..last] + after[last..len];
    assert before[..len] == before[..last] + before[last..len];
    assert after[last..len] == before[last..len] by {
      assert after[last..] == before[last..];
    }
    assert after[len..] == before[len..] by {
      assert after[last..] == before[last..];
    }
    forall j | last <= j < len
      ensures after[j] == before[j]
    {
      assert after[last..][j - last] == before[last..][j - last];
    }
    forall i, j | 0 <= i < last && last <= j < len
      ensures !lt(after[j], after[i])
    {
      var k := FindIn(after, before, last, i);
    }
  }

  /** sort_heap: pops the heap `a[0..len)` until at most one element remains,
      leaving the range ascending. The default overload names an
      undeclared two-argument pop_heap_aux; both are this comparator
      version. */
  method SortHeap<T(!new)>(a: array<T>, len: int, lt: (T, T) -> bool)
    requires StrictWeakOrder(lt)
    requires 0 <= len <= a.Length && IsHeap(a[..], len, lt)
    modifies a
    ensures SortedBetween(a[..], 0, len, lt)
    ensures multiset(a[..len]) == multiset(old(a[..len]))
    ensures a[len..] == old(a[len..])
  {
    var last := len;
    while last > 1
      invariant 0 <= last <= len
      invariant IsHeap(a[..], last, lt)
      invariant SortedBetween(a[..], last, len, lt)
      invariant forall i, j :: 0 <= i < last <= j < len ==> !lt(a[j], a[i])
      invariant multiset(a[..len]) == multiset(old(a[..len]))
      invariant a[len..] == old(a[len..])
      decreases last
    {
      ghost var before := a[..];
      PopHeap(a, last, lt);
      SortStep(before, a[..], last, len, lt);
      last := last - 1;
    }
  }

  /** make_heap: fixes every subtree from the last parent back to the root,
      so that `a[0..len)` becomes a heap of the same elements. */
  method MakeHeap<T(!new)>(a: array<T>, len: int, lt: (T, T) -> bool)
    requires StrictWeakOrder(lt)
    requires 0 <= len <= a.Length
    modifies a
    ensures IsHeap(a[..], len, lt)
    ensures multiset(a[..len]) == multiset(old(a[..len]))
    ensures a[len..] == old(a[len..])
    ensures len < 2 ==> a[..] == old(a[..])
  {
    if len < 2 {
      return;
    }
    var hole := (len - 2) / 2;
    assert HeapFrom(a[..], hole + 1, len, lt) by {
      forall c | 0 < c < len
        ensures Parent(c) < hole + 1
      {
      }
    }
    while true
      invariant 0 <= hole <= (len - 2) / 2
      invariant HeapFrom(a[..], hole + 1, len, lt)
      invariant multiset(a[..]) == multiset(old(a[..]))
      invariant a[len..] == old(a[len..])
      decreases hole
    {
      ghost var before := a[..];
      AdjustHeap(a, hole, len, a[hole], lt);
      assert before[hole := before[hole]] == before;
      assert a[len..] == before[len..];
      if hole == 0 {
        SplitMultiset(a[..], old(a[..]), len);
        return;
      }
      hole := hole - 1;
    }
  }
}
