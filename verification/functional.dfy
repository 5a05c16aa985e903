/** The function objects, `identity_element`, the select functions and the
    hashes of the library.

  Arithmetic is modelled on unbounded `int`: `divides` and `modulus` follow
  C++, whose `/` truncates toward zero and whose `%` takes the sign of the
  dividend (Dafny's own `/` and `%` are Euclidean). The integral `hash`
  casts to a 64-bit `size_t`; `bitwise_hash` is 64-bit FNV-1a over bytes. */
module Functional {
  import opened Util

  function Abs(x: int): nat {
    if x < 0 then -x else x
  }

  /** plus: subtracting either operand from the sum gives back the other. */
  function Plus(x: int, y: int): (r: int)
    ensures r - y == x && r - x == y
  {
    x + y
  }

  /** minus */
  function Minus(x: int, y: int): (r: int)
    ensures Plus(r, y) == x
  {
    x - y
  }

  /** multiplies: the product is zero exactly when a factor is, and
      dividing it by a non-zero factor gives back the other factor. */
  function Multiplies(x: int, y: int): (r: int)
    ensures r == 0 <==> x == 0 || y == 0
    ensures y != 0 ==> Divides(r, y) == x
  {
    ProductFacts(x, y);
    x * y
  }

  lemma ProductFacts(x: int, y: int)
    ensures x * y == 0 <==> x == 0 || y == 0
    ensures y != 0 ==> Divides(x * y, y) == x
  {
    if y != 0 {
      DividesExact(x, y);
    }
  }

  /** The remainder `x - q * y` of dividing `x` by `y > 0` with Dafny's
      quotient of the magnitudes, signed like `x`. */
  lemma TruncatedRemainder(a: int, b: int)
    requires a >= 0 && b > 0
    ensures a - (a / b) * b == a % b
    ensures -a - (-(a / b)) * b == -(a % b)
    ensures a - (-(a / b)) * (-b) == a % b
    ensures -a - (a / b) * (-b) == -(a % b)
  {
    var q := a / b;
    assert a == q * b + a % b;
    assert (-q) * b == -(q * b);
    assert (-q) * (-b) == q * b;
    assert q * (-b) == -(q * b);
  }

  /** divides: C++ `x / y`, the quotient truncated toward zero. The
      remainder it leaves, `x - q * y`, is smaller than `y` in magnitude and
      never of the opposite sign to `x`. */
  function Divides(x: int, y: int): (q: int)
    requires y != 0
    ensures Abs(x - q * y) < Abs(y)
    ensures x >= 0 ==> x - q * y >= 0
    ensures x <= 0 ==> x - q * y <= 0
  {
    TruncatedRemainder(Abs(x), Abs(y));
    if (x < 0) == (y < 0) then Abs(x) / Abs(y) else -(Abs(x) / Abs(y))
  }

  /** Dividing an exact multiple of `y` by `y` leaves no remainder. */
  lemma DividesExact(x: int, y: int)
    requires y != 0
    ensures Divides(x * y, y) == x
  {
    var q := Divides(x * y, y);
    var k := x - q;
    assert x * y - q * y == k * y by {
      assert (x - q) * y == x * y - q * y;
    }
    if k != 0 {
      AbsProduct(k, y);
      ProductAtLeast(Abs(k), Abs(y));
      assert false;
    }
  }

  lemma AbsProduct(k: int, y: int)
    ensures Abs(k * y) == Abs(k) * Abs(y)
  {
    if k < 0 && y < 0 {
      assert k * y == (-k) * (-y);
    } else if k < 0 {
      assert k * y == -((-k) * y);
    } else if y < 0 {
      assert k * y == -(k * (-y));
    }
  }

  lemma ProductAtLeast(a: nat, b: nat)
    requires a >= 1
    ensures a * b >= b
  {
    assert a * b == (a - 1) * b + b;
  }

  /** modulus: C++ `x % y`, the remainder left by `Divides`. */
  function Modulus(x: int, y: int): (m: int)
    requires y != 0
    ensures Divides(x, y) * y + m == x
    ensures Abs(m) < Abs(y)
    ensures m == 0 || ((m > 0) <==> (x > 0))
  {
    x - Divides(x, y) * y
  }

  /** negate */
  function Negate(x: int): (r: int)
    ensures Plus(x, r) == 0
  {
    -x
  }

  /** identity_element(plus<T>): the element that `plus` leaves every
      value unchanged by. */
  function PlusIdentity(): (e: int)
    ensures forall x :: Plus(x, e) == x && Plus(e, x) == x
  {
    0
  }

  /** identity_element(multiplies<T>): the element that `multiplies` leaves
      every value unchanged by. */
  function MultipliesIdentity(): (e: int)
    ensures forall x :: Multiplies(x, e) == x && Multiplies(e, x) == x
  {
    1
  }

  /** The two identity elements are neutral for their operations. */
  lemma IdentityElements(x: int)
    ensures Plus(x, PlusIdentity()) == x && Plus(PlusIdentity(), x) == x
    ensures Multiplies(x, MultipliesIdentity()) == x && Multiplies(MultipliesIdentity(), x) == x
  {
  }

  /** equal_to: holds exactly when neither argument is less than the other. */
  function EqualTo(x: int, y: int): (b: bool)
    ensures b <==> !Less(x, y) && !Less(y, x)
  {
    x == y
  }

  /** not_equal_to */
  function NotEqualTo(x: int, y: int): (b: bool)
    ensures b == !EqualTo(x, y)
  {
    x != y
  }

  /** greater */
  function Greater(x: int, y: int): (b: bool)
    ensures b == Less(y, x)
  {
    x > y
  }

  /** less: holds exactly when `y - x` is positive. */
  function Less(x: int, y: int): (b: bool)
    ensures b <==> Minus(y, x) > 0
  {
    x < y
  }

  /** greater_equal */
  function GreaterEqual(x: int, y: int): (b: bool)
    ensures b == !Less(x, y)
  {
    x >= y
  }

  /** less_equal */
  function LessEqual(x: int, y: int): (b: bool)
    ensures b == !Greater(x, y)
    ensures b == (Less(x, y) || EqualTo(x, y))
  {
    x <= y
  }

  /** logical_and */
  function LogicalAnd(x: bool, y: bool): (b: bool)
    ensures b == !LogicalOr(!x, !y)
  {
    x && y
  }

  /** logical_or: false exactly when both arguments are false. */
  function LogicalOr(x: bool, y: bool): (b: bool)
    ensures !b <==> LogicalNot(x) && LogicalNot(y)
  {
    x || y
  }

  /** logical_not */
  function LogicalNot(x: bool): (b: bool)
    ensures b != x
  {
    !x
  }

  /** identity: returns its argument unchanged. */
  function Identity<T>(x: T): (r: T)
    ensures r == x
  {
    x
  }

  /** selectfirst */
  function SelectFirst<A, B>(p: Pair<A, B>): (a: A)
    ensures MakePair(a, p.second) == p
  {
    p.first
  }

  /** selectsecond */
  function SelectSecond<A, B>(p: Pair<A, B>): (b: B)
    ensures MakePair(p.first, b) == p
  {
    p.second
  }

  /** The select functions take apart what make_pair builds. */
  lemma SelectMakePair<A, B>(x: A, y: B)
    ensures SelectFirst(MakePair(x, y)) == x && SelectSecond(MakePair(x, y)) == y
  {
  }

  const SizeModulus: int := 0x1_0000_0000_0000_0000

  /** hash of an integral value: `static_cast<size_t>(val)`, which reduces
      the value modulo 2^64 (two's complement for negative values). */
  function IntegralHash(v: int): (h: int)
    ensures 0 <= h < SizeModulus
    ensures (h - v) % SizeModulus == 0
    ensures 0 <= v < SizeModulus ==> h == v
    ensures -SizeModulus <= v < 0 ==> h == v + SizeModulus
  {
    v % SizeModulus
  }

  /** The 64-bit FNV-1a constants of bitwise_hash. */
  const FnvOffset: bv64 := 14695981039346656037
  const FnvPrime: bv64 := 1099511628211

  /** One round of FNV-1a: xor the byte in, then multiply by the prime
      modulo 2^64. */
  function FnvStep(h: bv64, b: bv8): bv64 {
    (h ^ (b as bv64)) * FnvPrime
  }

  /** FNV-1a of `s` started from `h`, byte by byte from the front. */
  function FnvFrom(h: bv64, s: seq<bv8>): bv64
    decreases |s|
  {
    if |s| == 0 then h else FnvFrom(FnvStep(h, s[0]), s[1..])
  }

  /** Appending a byte applies one more round to the hash so far. */
  lemma {:induction false} FnvAppend(h: bv64, s: seq<bv8>, b: bv8)
    ensures FnvFrom(h, s + [b]) == FnvStep(FnvFrom(h, s), b)
    decreases |s|
  {
    if |s| == 0 {
      assert s + [b] == [b];
      assert [b][1..] == [];
    } else {
      assert (s + [b])[1..] == s[1..] + [b];
      FnvAppend(FnvStep(h, s[0]), s[1..], b);
    }
  }

  /** Hashing a concatenation continues from the hash of the first part. */
  lemma {:induction false} FnvConcat(h: bv64, s: seq<bv8>, t: seq<bv8>)
    ensures FnvFrom(h, s + t) == FnvFrom(FnvFrom(h, s), t)
    decreases |s|
  {
    if |s| == 0 {
      assert s + t == t;
    } else {
      assert (s + t)[1..] == s[1..] + t;
      FnvConcat(FnvStep(h, s[0]), s[1..], t);
    }
  }

  /** bitwise_hash: folds the `count` bytes at `first` into the FNV-1a
      offset basis. */
  method BitwiseHash(bytes: seq<bv8>) returns (result: bv64)
    ensures result == FnvFrom(FnvOffset, bytes)
    ensures |bytes| == 0 ==> result == FnvOffset
  {
    result := FnvOffset;
    var i := 0;
    while i < |bytes|
      invariant 0 <= i <= |bytes|
      invariant result == FnvFrom(FnvOffset, bytes[..i])
    {
      FnvAppend(FnvOffset, bytes[..i], bytes[i]);
      assert bytes[..i + 1] == bytes[..i] + [bytes[i]];
      result := FnvStep(result, bytes[i]);
      i := i + 1;
    }
    assert bytes[..i] == bytes;
  }
}
