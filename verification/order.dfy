/** Orderings that the comparator overloads of the library expect.

  Every algorithm that takes a binary predicate `pred` in place of `operator<`
  is modelled once, over a comparator `lt`; the default overload is the
  instance with the built-in `<` on `int` (`IntLess`).

  The transitivity laws are stated through the per-instance predicates
  `TransAt` and `NegTransAt`, so that a proof uses exactly the instances it
  names (through `Trans` and `NegTrans`) instead of every triple in scope. */
module Order {

  ghost predicate TransAt<T>(lt: (T, T) -> bool, x: T, y: T, z: T) {
    lt(x, y) && lt(y, z) ==> lt(x, z)
  }

  ghost predicate NegTransAt<T>(lt: (T, T) -> bool, x: T, y: T, z: T) {
    !lt(x, y) && !lt(y, z) ==> !lt(x, z)
  }

  /** The comparator is irreflexive, transitive, and its complement ("not less")
      is transitive too: the strict weak ordering the heap, search and sort
      algorithms assume of `pred`. */
  ghost predicate StrictWeakOrder<T(!new)>(lt: (T, T) -> bool) {
    && (forall x :: !lt(x, x))
    && (forall x, y, z :: TransAt(lt, x, y, z))
    && (forall x, y, z :: NegTransAt(lt, x, y, z))
  }

  /** A strict weak ordering in which incomparable elements are equal. */
  ghost predicate StrictTotalOrder<T(!new)>(lt: (T, T) -> bool) {
    && StrictWeakOrder(lt)
    && (forall x, y :: x != y ==> lt(x, y) || lt(y, x))
  }

  /** `operator<` on integers: the comparator of every default overload. */
  function IntLess(x: int, y: int): bool {
    x < y
  }

  /** `operator>` on integers. */
  function IntGreater(x: int, y: int): bool {
    x > y
  }

  lemma IntLessIsTotal()
    ensures StrictTotalOrder(IntLess)
  {
  }

  lemma IntGreaterIsTotal()
    ensures StrictTotalOrder(IntGreater)
  {
  }

  lemma Trans<T(!new)>(lt: (T, T) -> bool, x: T, y: T, z: T)
    requires StrictWeakOrder(lt)
    requires lt(x, y) && lt(y, z)
    ensures lt(x, z)
  {
    assert TransAt(lt, x, y, z);
  }

  lemma NegTrans<T(!new)>(lt: (T, T) -> bool, x: T, y: T, z: T)
    requires StrictWeakOrder(lt)
    requires !lt(x, y) && !lt(y, z)
    ensures !lt(x, z)
  {
    assert NegTransAt(lt, x, y, z);
  }

  /** A strict weak ordering is asymmetric. */
  lemma Asymmetric<T(!new)>(lt: (T, T) -> bool, x: T, y: T)
    requires StrictWeakOrder(lt)
    requires lt(x, y)
    ensures !lt(y, x)
  {
    if lt(y, x) {
      Trans(lt, x, y, x);
    }
  }

  /** The comparator with its arguments exchanged: `Flip(lt)(x, y)` is
      `lt(y, x)`. */
  function Flip<T>(lt: (T, T) -> bool): (T, T) -> bool {
    (x, y) => lt(y, x)
  }

  /** Exchanging the arguments of a strict total order gives one. */
  lemma FlipIsTotal<T(!new)>(lt: (T, T) -> bool)
    requires StrictTotalOrder(lt)
    ensures StrictTotalOrder(Flip(lt))
  {
    forall x, y, z
      ensures TransAt(Flip(lt), x, y, z) && NegTransAt(Flip(lt), x, y, z)
    {
      assert TransAt(lt, z, y, x) && NegTransAt(lt, z, y, x);
    }
  }
}
