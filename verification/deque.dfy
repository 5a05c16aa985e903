/** The cursor arithmetic of `deque_iterator` and `deque_buf_size`.

  A deque keeps its elements in fixed-size buffers of `B` elements, reached
  through a map of buffer pointers. An iterator holds `node` (its index in
  the map), `first` and `last` (the bounds of that node's buffer) and `cur`
  (the element it designates). A pointer is modelled as `Ptr(block, off)`:
  the buffer it points into, named by the map node that holds it, and an
  offset in that buffer. Pointer subtraction and `<` are only meaningful
  inside one buffer, where they act on offsets.

  The linear position of an iterator is `node * B + (cur - first)`; every
  movement is specified by what it does to that position. */
module Deque {
  import opened Functional

  /** deque_buf_size<T>::value for an element of `elemSize` bytes: as many
      elements as fit in 4096 bytes, or 16 for elements of 256 bytes or more. */
  function BufSize(elemSize: int): (b: int)
    requires elemSize >= 1
    ensures 16 <= b <= 4096
    ensures elemSize < 256 ==> b * elemSize <= 4096 < (b + 1) * elemSize
    ensures elemSize >= 256 ==> b == 16
  {
    if elemSize < 256 then
      var q := 4096 / elemSize;
      assert q * elemSize <= 4096 < (q + 1) * elemSize by {
        assert 4096 == q * elemSize + 4096 % elemSize;
      }
      assert q >= 16;
      q
    else 16
  }

  lemma {:induction false} MulAtLeast(k: int, b: int)
    requires k >= 1 && b >= 1
    ensures k * b >= b
    decreases k
  {
    if k > 1 {
      MulAtLeast(k - 1, b);
      assert k * b == (k - 1) * b + b;
    }
  }

  /** The floor quotient is the only `q` with `q * b <= x < q * b + b`. */
  lemma FloorUnique(x: int, b: int, q: int)
    requires b >= 1 && q * b <= x < q * b + b
    ensures q == x / b
  {
    var d := x / b;
    var r := x % b;
    assert x == d * b + r && 0 <= r < b;
    if q < d {
      MulAtLeast(d - q, b);
    } else if q > d {
      MulAtLeast(q - d, b);
    }
  }

  /** The arithmetic of a move by `n` from slot `slot` of node `node`. */
  lemma MoveArith(node: int, slot: int, n: int, b: int)
    requires b >= 1
    ensures var o := slot + n;
            && (node + o / b) * b + o % b == node * b + slot + n
            && 0 <= o % b < b
            && o - (o / b) * b == o % b
            && (0 <= o < b ==> o / b == 0 && o % b == o)
  {
    var o := slot + n;
    assert o == (o / b) * b + o % b;
    assert (node + o / b) * b == node * b + (o / b) * b;
    if 0 <= o < b {
      FloorUnique(o, b, 0);
    }
  }

  /** The node offset `+=` computes when the target leaves the current
      buffer: `offset / B` for a positive offset, and
      `-((-offset - 1) / B) - 1` otherwise, both with C++'s truncating
      division. Either way it is the floor of `offset / B`. */
  function NodeOffset(offset: int, b: int): (r: int)
    requires b >= 1
    ensures offset != 0 ==> r == offset / b
  {
    if offset > 0 then
      Divides(offset, b)
    else
      var q := Divides(-offset - 1, b);
      NegativeNodeOffset(offset, b, q);
      -q - 1
  }

  /** For a negative offset, `-((-offset - 1) / B) - 1` is the floor. */
  lemma NegativeNodeOffset(offset: int, b: int, q: int)
    requires b >= 1 && q == Divides(-offset - 1, b)
    ensures offset < 0 ==> -q - 1 == offset / b
  {
    if offset < 0 {
      FloorUnique(-offset - 1, b, q);
      FloorUnique(offset, b, -q - 1);
    }
  }

  /** Linear positions `n * b + o` with `o` a slot of the buffer order
      like the pairs `(n, o)`: by node, then by slot. */
  lemma SlotOrder(n1: int, o1: int, n2: int, o2: int, b: int)
    ensures b >= 1 && 0 <= o1 < b && 0 <= o2 < b ==>
              && (n1 * b + o1 < n2 * b + o2 <==> n1 < n2 || (n1 == n2 && o1 < o2))
              && (n1 * b + o1 == n2 * b + o2 <==> n1 == n2 && o1 == o2)
  {
    var k := n2 - n1;
    assert n2 * b + o2 - (n1 * b + o1) == k * b + o2 - o1;
    if b >= 1 && k >= 1 {
      MulAtLeast(k, b);
    } else if b >= 1 && k <= -1 {
      MulAtLeast(-k, b);
      assert (-k) * b == -(k * b);
    }
  }

  /** A pointer into buffer `block` at offset `off`. */
  datatype Ptr = Ptr(block: int, off: int)

  class DequeIter {
    /** buffer_size */
    const B: int
    var cur: Ptr
    var first: Ptr
    var last: Ptr
    var node: int

    /** The iterator designates an element of the buffer of its node. */
    ghost predicate Valid()
      reads this
    {
      && B >= 1
      && first == Ptr(node, 0) && last == Ptr(node, B)
      && cur.block == node && 0 <= cur.off < B
    }

    /** `cur - first`: the slot of the iterator in its buffer. */
    function Slot(): int
      reads this
    {
      cur.off - first.off
    }

    /** The linear position of the iterator in the deque. */
    function Position(): int
      reads this
    {
      node * B + Slot()
    }

    /** deque_iterator(v, n) for an element type of `elemSize` bytes. */
    constructor(elemSize: int, v: Ptr, n: int)
      requires elemSize >= 1
      ensures B == BufSize(elemSize)
      ensures cur == v && first == Ptr(n, 0) && last == Ptr(n, B) && node == n
      ensures Valid() <==> v.block == n && 0 <= v.off < B
    {
      B := BufSize(elemSize);
      cur := v;
      first := Ptr(n, 0);
      last := Ptr(n, BufSize(elemSize));
      node := n;
    }

    /** The copy constructor. */
    constructor Copy(rhs: DequeIter)
      ensures B == rhs.B && cur == rhs.cur && first == rhs.first && last == rhs.last && node == rhs.node
    {
      B := rhs.B;
      cur := rhs.cur;
      first := rhs.first;
      last := rhs.last;
      node := rhs.node;
    }

    /** operator=: copies the four fields (nothing to do on self-assignment). */
    method Assign(rhs: DequeIter)
      requires rhs.B == B
      modifies this
      ensures cur == old(rhs.cur) && first == old(rhs.first) && last == old(rhs.last) && node == old(rhs.node)
    {
      if this != rhs {
        cur := rhs.cur;
        first := rhs.first;
        last := rhs.last;
        node := rhs.node;
      }
    }

    /** set_node: moves to another map node; `cur` is left alone. */
    method SetNode(newNode: int)
      modifies this
      ensures node == newNode && first == Ptr(newNode, 0) && last == Ptr(newNode, B)
      ensures last.off - first.off == B
      ensures cur == old(cur)
    {
      node := newNode;
      first := Ptr(newNode, 0);
      last := Ptr(first.block, first.off + B);
    }

    /** operator++ (prefix): one step forward, into the next buffer when the
        end of this one is reached. */
    method Increment()
      requires Valid()
      modifies this
      ensures Valid() && Position() == old(Position()) + 1
      ensures old(Slot()) == B - 1 ==> node == old(node) + 1 && Slot() == 0
      ensures old(Slot()) < B - 1 ==> node == old(node) && Slot() == old(Slot()) + 1
    {
      cur := Ptr(cur.block, cur.off + 1);
      if cur == last {
        SetNode(node + 1);
        cur := first;
      }
    }

    /** operator-- (prefix): one step back, into the previous buffer from
        the first slot of this one. */
    method Decrement()
      requires Valid()
      modifies this
      ensures Valid() && Position() == old(Position()) - 1
      ensures old(Slot()) == 0 ==> node == old(node) - 1 && Slot() == B - 1
      ensures old(Slot()) > 0 ==> node == old(node) && Slot() == old(Slot()) - 1
    {
      if cur == first {
        SetNode(node - 1);
        cur := last;
      }
      cur := Ptr(cur.block, cur.off - 1);
    }

    /** operator+=: moves `n` places in either direction, staying in the
        buffer when the target is inside it and otherwise moving the node by
        the floor of `(slot + n) / B`. */
    method AddAssign(n: int)
      requires Valid()
      modifies this
      ensures Valid() && Position() == old(Position()) + n
      ensures node == old(node) + (old(Slot()) + n) / B
      ensures Slot() == (old(Slot()) + n) % B
    {
      MoveArith(node, Slot(), n, B);
      var offset := n + (cur.off - first.off);
      if 0 <= offset < B {
        cur := Ptr(cur.block, cur.off + n);
      } else {
        var nodeOffset := NodeOffset(offset, B);
        SetNode(node + nodeOffset);
        cur := Ptr(first.block, first.off + (offset - nodeOffset * B));
      }
    }

    /** operator-=: `+= -n`. */
    method SubAssign(n: int)
      requires Valid()
      modifies this
      ensures Valid() && Position() == old(Position()) - n
      ensures node == old(node) + (old(Slot()) - n) / B
      ensures Slot() == (old(Slot()) - n) % B
    {
      AddAssign(-n);
    }

    /** operator+ with value semantics: a copy moved `n` places. */
    method Plus(n: int) returns (r: DequeIter)
      requires Valid()
      ensures fresh(r) && r.Valid() && r.B == B
      ensures r.Position() == Position() + n
      ensures r.node == node + (Slot() + n) / B && r.Slot() == (Slot() + n) % B
    {
      r := new DequeIter.Copy(this);
      r.AddAssign(n);
    }

    /** operator[]: the element `n` places away; without element storage,
        the pointer to it. */
    method Subscript(n: int) returns (p: Ptr)
      requires Valid()
      ensures p.block == node + (Slot() + n) / B && p.off == (Slot() + n) % B
    {
      var tmp := Plus(n);
      p := tmp.cur;
    }

    /** operator-: the signed distance between two iterators. */
    function Minus(rhs: DequeIter): (d: int)
      reads this, rhs
      requires Valid() && rhs.Valid() && rhs.B == B
      ensures d == Position() - rhs.Position()
      ensures d == 0 <==> Eq(rhs)
      ensures d > 0 <==> rhs.Less(this)
    {
      B * (node - rhs.node) + (cur.off - first.off) - (rhs.cur.off - rhs.first.off)
    }

    /** operator==: between valid iterators with one buffer size, the
        same position. */
    function Eq(rhs: DequeIter): (b: bool)
      reads this, rhs
      ensures Valid() && rhs.Valid() && B == rhs.B ==> (b <==> Position() == rhs.Position())
    {
      SlotOrder(node, Slot(), rhs.node, rhs.Slot(), B);
      cur == rhs.cur
    }

    /** operator<: by node, then by place in the shared buffer; between
        valid iterators with one buffer size, the earlier position. */
    function Less(rhs: DequeIter): (b: bool)
      reads this, rhs
      ensures Valid() && rhs.Valid() && B == rhs.B ==> (b <==> Position() < rhs.Position())
    {
      SlotOrder(node, Slot(), rhs.node, rhs.Slot(), B);
      if node == rhs.node then cur.off < rhs.cur.off else node < rhs.node
    }

    /** operator!= */
    function Ne(rhs: DequeIter): (b: bool)
      reads this, rhs
      ensures Valid() && rhs.Valid() && B == rhs.B ==> (b <==> Position() != rhs.Position())
    {
      !Eq(rhs)
    }

    /** operator> */
    function Gt(rhs: DequeIter): (b: bool)
      reads this, rhs
      ensures Valid() && rhs.Valid() && B == rhs.B ==> (b <==> Position() > rhs.Position())
    {
      rhs.Less(this)
    }

    /** operator<= */
    function Le(rhs: DequeIter): (b: bool)
      reads this, rhs
      ensures Valid() && rhs.Valid() && B == rhs.B ==> (b <==> Position() <= rhs.Position())
    {
      !rhs.Less(this)
    }

    /** operator>= */
    function Ge(rhs: DequeIter): (b: bool)
      reads this, rhs
      ensures Valid() && rhs.Valid() && B == rhs.B ==> (b <==> Position() >= rhs.Position())
    {
      !rhs.Gt(this)
    }
  }

  /** `a - a == 0` and `b - a == -(a - b)`. */
  lemma MinusProperties(a: DequeIter, b: DequeIter)
    requires a.Valid() && b.Valid() && a.B == b.B
    ensures a.Minus(a) == 0
    ensures b.Minus(a) == -a.Minus(b)
  {
  }

  /** Moving by `n` and then by `-n` in (node, slot) coordinates, as `+=`
      and `-=` do, returns to the start. */
  lemma AddSubRoundTrip(node: int, slot: int, n: int, b: int)
    requires b >= 1 && 0 <= slot < b
    ensures var node1 := node + (slot + n) / b;
            var slot1 := (slot + n) % b;
            node1 + (slot1 - n) / b == node && (slot1 - n) % b == slot
  {
    var q := (slot + n) / b;
    var slot1 := (slot + n) % b;
    assert slot + n == q * b + slot1;
    FloorUnique(slot1 - n, b, -q);
  }
}
