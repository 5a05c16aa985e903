/** basic_string: a character string held in a buffer of `cap` cells of
  which the first `size` are the string.

  Characters are integer code units. The operations modelled are those that
  work inside the buffer already allocated: a path of the source that would
  reallocate is excluded by a precondition saying the buffer has room. The
  string's contents are specified by the sequence functions below, whose
  properties are proved as lemmas. */
module BasicStrings {
  import CharTraits

  /** max_size: the largest value of the 64-bit `size_type`. */
  const MaxSize: int := 0xFFFF_FFFF_FFFF_FFFF

  /** What the operations may throw. */
  datatype Exception = LengthError | OutOfRange

  /** The result of an operation that returns a value or throws. */
  datatype Result<T> = Ok(value: T) | Throw(error: Exception)

  /** `s` with `v` inserted before position `p`. */
  function InsertAt(s: seq<int>, p: int, v: int): seq<int>
    requires 0 <= p <= |s|
  {
    s[..p] + [v] + s[p..]
  }

  /** `s` without the element at position `p`. */
  function EraseAt(s: seq<int>, p: int): seq<int>
    requires 0 <= p < |s|
  {
    s[..p] + s[p + 1..]
  }

  /** `s` without the elements of `[first, last)`. */
  function EraseBetween(s: seq<int>, first: int, last: int): seq<int>
    requires 0 <= first <= last <= |s|
  {
    s[..first] + s[last..]
  }

  /** `count` copies of `v`. */
  function Filled(count: nat, v: int): seq<int> {
    seq(count, _ => v)
  }

  /** `s` cut to `count` elements, or padded with `v` up to `count`. */
  function Resized(s: seq<int>, count: nat, v: int): seq<int> {
    if count < |s| then s[..count] else s + Filled(count - |s|, v)
  }

  /** Inserting and then erasing at the same position gives back the string,
      and the inserted element sits at that position. */
  lemma InsertEraseRoundTrip(s: seq<int>, p: int, v: int)
    requires 0 <= p <= |s|
    ensures |InsertAt(s, p, v)| == |s| + 1 && InsertAt(s, p, v)[p] == v
    ensures EraseAt(InsertAt(s, p, v), p) == s
  {
    var t := InsertAt(s, p, v);
    assert t[..p] == s[..p];
    assert t[p + 1..] == s[p..];
  }

  /** Erasing an element and inserting it back where it was gives back the
      string. */
  lemma EraseInsertRoundTrip(s: seq<int>, p: int)
    requires 0 <= p < |s|
    ensures InsertAt(EraseAt(s, p), p, s[p]) == s
  {
    var t := EraseAt(s, p);
    assert t[..p] == s[..p];
    assert t[p..] == s[p + 1..];
    assert s == s[..p] + [s[p]] + s[p + 1..];
  }

  /** Insertion adds one element and keeps all the others. */
  lemma InsertKeepsElements(s: seq<int>, p: int, v: int)
    requires 0 <= p <= |s|
    ensures multiset(InsertAt(s, p, v)) == multiset(s) + multiset{v}
  {
    assert s == s[..p] + s[p..];
  }

  /** Erasing a range removes exactly its elements: what is before it stays
      in place, what is after it moves down by the length of the range, and
      erasing everything leaves the empty string. */
  lemma EraseBetweenRemovesExactly(s: seq<int>, first: int, last: int)
    requires 0 <= first <= last <= |s|
    ensures |EraseBetween(s, first, last)| == |s| - (last - first)
    ensures forall k :: 0 <= k < first ==> EraseBetween(s, first, last)[k] == s[k]
    ensures forall k :: first <= k < |s| - (last - first) ==>
              EraseBetween(s, first, last)[k] == s[k + (last - first)]
    ensures multiset(EraseBetween(s, first, last)) == multiset(s) - multiset(s[first..last])
    ensures first == 0 && last == |s| ==> EraseBetween(s, first, last) == []
  {
    assert s == s[..first] + s[first..last] + s[last..];
  }

  /** Erasing the one-element range `[p, p + 1)` is erasing at `p`. */
  lemma EraseBetweenOfOne(s: seq<int>, p: int)
    requires 0 <= p < |s|
    ensures EraseBetween(s, p, p + 1) == EraseAt(s, p)
  {
  }

  /** After resizing to `count` the string has `count` elements, keeps its
      first `min(count, |s|)`, and every element added is `v`. */
  lemma ResizedFacts(s: seq<int>, count: nat, v: int)
    ensures |Resized(s, count, v)| == count
    ensures forall k :: 0 <= k < count && k < |s| ==> Resized(s, count, v)[k] == s[k]
    ensures forall k :: |s| <= k < count ==> Resized(s, count, v)[k] == v
  {
  }

  /** Resizing to the current size changes nothing, and resizing twice to
      the same size is resizing once. */
  lemma ResizedIdempotent(s: seq<int>, count: nat, v: int)
    ensures Resized(s, |s|, v) == s
    ensures Resized(Resized(s, count, v), count, v) == Resized(s, count, v)
  {
    assert Filled(0, v) == [];
    ResizedFacts(s, count, v);
    assert Filled(0, v) == [];
  }

  /** Shrinking by resize is erasing the tail from `count` on. */
  lemma ShrinkingResizeIsErase(s: seq<int>, count: nat, v: int)
    requires count <= |s|
    ensures Resized(s, count, v) == EraseBetween(s, count, |s|)
  {
    assert s[|s|..] == [];
    if count == |s| {
      assert Filled(0, v) == [];
    }
  }

  /** Growing by resize is appending copies of `v`. */
  lemma GrowingResizeIsAppend(s: seq<int>, count: nat, v: int)
    ensures Resized(s, |s| + count, v) == s + Filled(count, v)
  {
    if count == 0 {
      assert Filled(0, v) == [];
    }
  }

  class BasicString {
    /** The allocated buffer: `cap` cells, of which `buffer[.. size)` hold
        the string. */
    var buffer: array<int>
    var size: int
    var cap: int

    ghost predicate Valid()
      reads this
    {
      0 <= size <= cap <= MaxSize && buffer.Length == cap
    }

    /** The characters of the string. */
    ghost function Contents(): seq<int>
      reads this, buffer
      requires Valid()
    {
      buffer[..size]
    }

    /** An empty string with a buffer of `capacity` cells. The source's own
        constructors go through allocation helpers that are not part of this
        model; this one stands in for them. */
    constructor (capacity: int)
      requires 0 <= capacity <= MaxSize
      ensures Valid() && fresh(buffer)
      ensures Contents() == [] && cap == capacity
    {
      buffer := new int[capacity];
      size := 0;
      cap := capacity;
    }

    /** empty: whether the string has no characters. */
    function Empty(): (b: bool)
      reads this, buffer
      requires Valid()
      ensures b <==> Contents() == []
    {
      size == 0
    }

    /** size: the number of characters. */
    function Size(): (n: int)
      reads this, buffer
      requires Valid()
      ensures n == |Contents()|
    {
      size
    }

    /** length: the number of characters, the same as size. */
    function Length(): (n: int)
      reads this, buffer
      requires Valid()
      ensures n == |Contents()| && n == Size()
    {
      size
    }

    /** capacity: the number of cells allocated, never less than the
        size. */
    function Capacity(): (n: int)
      reads this, buffer
      requires Valid()
      ensures n == buffer.Length && |Contents()| <= n <= MaxSize
    {
      cap
    }

    /** operator[]: character `n`, where `n` may also be the size; reading at
        the size first writes a zero terminator there. */
    method Subscript(n: int) returns (c: int)
      requires Valid() && 0 <= n <= size && n < cap
      modifies buffer
      ensures Valid() && Contents() == old(Contents())
      ensures c == if n < size then Contents()[n] else 0
      ensures n == size ==> buffer[n] == 0
      ensures forall k :: 0 <= k < buffer.Length && k != n ==> buffer[k] == old(buffer[k])
      ensures n < size ==> buffer[..] == old(buffer[..])
    {
      if n == size {
        buffer[n] := 0;
      }
      c := buffer[n];
    }

    /** at: character `n`, or an out-of-range error exactly when `n` is not
        below the size. For such `n` operator[] only reads, so the buffer is
        read directly here. */
    method At(n: nat) returns (r: Result<int>)
      requires Valid()
      ensures r.Throw? <==> n >= |Contents()|
      ensures r.Throw? ==> r.error == OutOfRange
      ensures r.Ok? ==> r.value == Contents()[n]
    {
      if n >= size {
        return Throw(OutOfRange);
      }
      r := Ok(buffer[n]);
    }

    /** pop_back: drops the last character. */
    method PopBack()
      requires Valid() && size > 0
      modifies this
      ensures Valid() && buffer == old(buffer) && cap == old(cap)
      ensures Contents() == old(Contents())[..old(size) - 1]
    {
      size := size - 1;
    }

    /** clear: the string becomes empty and keeps its buffer. */
    method Clear()
      requires Valid()
      modifies this
      ensures Valid() && buffer == old(buffer) && cap == old(cap)
      ensures Contents() == []
    {
      size := 0;
    }

    /** insert(pos, value) when the buffer has room: the tail moves up one
        cell and `value` takes position `p`, which is returned. */
    method Insert(p: int, value: int) returns (r: int)
      requires Valid() && 0 <= p <= size && size < cap
      modifies this, buffer
      ensures Valid() && buffer == old(buffer) && cap == old(cap)
      ensures r == p
      ensures size == old(size) + 1
      ensures Contents() == InsertAt(old(Contents()), p, value)
    {
      ghost var before := buffer[..size];
      var _ := CharTraits.Move(buffer, p + 1, buffer, p, size - p);
      size := size + 1;
      buffer[p] := value;
      r := p;
      assert Contents() == before[..p] + [value] + before[p..] by {
        forall k | 0 <= k < size
          ensures Contents()[k] == (before[..p] + [value] + before[p..])[k]
        {
          if k > p {
            assert buffer[k] == before[k - 1];
          }
        }
      }
    }

    /** erase(pos): the tail after `p` moves down one cell; `p` is
        returned. */
    method Erase(p: int) returns (r: int)
      requires Valid() && 0 <= p < size
      modifies this, buffer
      ensures Valid() && buffer == old(buffer) && cap == old(cap)
      ensures r == p
      ensures size == old(size) - 1
      ensures Contents() == EraseAt(old(Contents()), p)
    {
      ghost var before := buffer[..size];
      var _ := CharTraits.Move(buffer, p, buffer, p + 1, size - p - 1);
      size := size - 1;
      r := p;
      assert Contents() == before[..p] + before[p + 1..] by {
        forall k | 0 <= k < size
          ensures Contents()[k] == (before[..p] + before[p + 1..])[k]
        {
          if k >= p {
            assert buffer[k] == before[k + 1];
          }
        }
      }
    }

    /** erase(first, last): erasing the whole string clears it; otherwise
        the tail after `last` moves down to `first`. Either way the position
        of `first` is returned (after clear, the end is the beginning). */
    method EraseRange(first: int, last: int) returns (r: int)
      requires Valid() && 0 <= first <= last <= size
      modifies this, buffer
      ensures Valid() && buffer == old(buffer) && cap == old(cap)
      ensures r == first
      ensures Contents() == EraseBetween(old(Contents()), first, last)
    {
      if first == 0 && last == size {
        Clear();
        r := size;
        return;
      }
      ghost var before := buffer[..size];
      var n := size - last;
      var _ := CharTraits.Move(buffer, first, buffer, last, n);
      size := size - (last - first);
      r := first;
      assert Contents() == before[..first] + before[last..] by {
        forall k | 0 <= k < size
          ensures Contents()[k] == (before[..first] + before[last..])[k]
        {
          if k >= first {
            assert buffer[k] == before[k + (last - first)];
          }
        }
      }
    }

    /** append(count, value): a length error, and no change, when the new
        size would exceed max_size; otherwise `count` copies of `value` are
        added at the end. The buffer must have room unless the error is
        thrown. */
    method Append(count: nat, value: int) returns (r: Result<()>)
      requires Valid() && count <= MaxSize
      requires size > MaxSize - count || count <= cap - size
      modifies this, buffer
      ensures Valid() && buffer == old(buffer) && cap == old(cap)
      ensures r.Throw? <==> old(size) + count > MaxSize
      ensures r.Throw? ==> r.error == LengthError && Contents() == old(Contents())
      ensures r.Ok? ==> Contents() == old(Contents()) + Filled(count, value)
    {
      if size > MaxSize - count {
        return Throw(LengthError);
      }
      ghost var before := buffer[..size];
      var _ := CharTraits.Fill(buffer, size, value, count);
      size := size + count;
      r := Ok(());
      assert Contents() == before + Filled(count, value) by {
        forall k | 0 <= k < size
          ensures Contents()[k] == (before + Filled(count, value))[k]
        {
        }
      }
    }

    /** resize(count, value): shrinking erases from `count` to the end,
        growing appends `value`; the buffer must hold `count` cells. */
    method Resize(count: nat, value: int)
      requires Valid() && count <= cap
      modifies this, buffer
      ensures Valid() && buffer == old(buffer) && cap == old(cap)
      ensures Contents() == Resized(old(Contents()), count, value)
    {
      if count < size {
        var _ := EraseRange(count, size);
      } else {
        var _ := Append(count - size, value);
      }
    }

    /** substr(index, count): the characters from `index` on, at most
        `count` of them; fewer only when the string ends first. */
    method Substr(index: int, count: nat) returns (r: seq<int>)
      requires Valid() && 0 <= index <= size
      ensures index + |r| <= |Contents()| && r == Contents()[index..index + |r|]
      ensures |r| <= count
      ensures |r| == count || index + |r| == |Contents()|
    {
      var n := if count < size - index then count else size - index;
      r := buffer[index..index + n];
    }
  }
}
