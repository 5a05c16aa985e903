# mystl core, modelled in Dafny

This project models the core of mystl, a small reimplementation of the C++
standard template library:

- the generic algorithms: search, count, min/max, copy, fill, compare,
  binary search on sorted ranges, `includes`, `median`, `rgcd`,
  `is_permutation`, `reverse` and next/previous permutation;
- the heap algorithms, which keep a max-heap in the front of an array;
- the function objects and hashes of `functional.h`;
- `pair` and the swap helpers of `util.h`;
- the random-access iterator of `deque`, which walks a map of fixed-size
  buffers;
- `char_traits` and the character buffer of `basic_string`.

The proofs show what each operation computes, not only that it is safe.

Modelling choices:

- **Ranges.** A range `[first, last)` that an algorithm only reads is a
  sequence. A range it writes is an index range of an `array`.
- **Overloads.** The overloads that use `operator<` are the integer
  instances of the overloads that take a comparator. Properties that
  depend on the comparator assume it is a strict weak order
  (`Order.StrictWeakOrder`). Permutation order and `includes` assume a
  strict total order.
- **Characters** are integer code units and compare as integers.
- **Lexicographic order** is defined once (`Ranges.LexLessBy`), by
  mystl's own rule: the first position where the elements differ by `!=`
  decides, through the comparator. This agrees with ISO C++
  [alg.lex.comparison] only when the comparator is a strict total order.
- **`lexicographical_compare`.** mystl's own version compares with `>`.
  Its header comment states this: it answers false when the first range's
  element is the smaller one. So the model proves that it answers "the
  second range is lexicographically less than the first".
- **`basic_string`** is a class with a `buffer` array, a `size` and a
  `cap`. `Contents()` is `buffer[..size]`. Every mutating method is
  specified by a function on sequences (`InsertAt`, `EraseAt`,
  `EraseBetween`, `Filled`, `Resized`), and lemmas about those functions
  state the round trips and the preserved elements.
- **The `deque` iterator** is a class with the source's four fields. A
  pointer is modelled as a `(block, offset)` pair. `Position()` is the
  iterator's place in the deque seen as one flat sequence. Every
  iterator operation is proved against `Position()`.

## Model

| member | source | states |
|---|---|---|
| Util.Swap | include/01_allocators/util.h:39-45 | the two locations exchange their values; every other location is unchanged |
| Util.SwapRange | include/01_allocators/util.h:48-54 | the two non-overlapping ranges exchange their contents; the result is the end of the second range; nothing else changes |
| Util.ArraySwap | include/01_allocators/util.h:56-60 | two arrays of one length exchange their whole contents |
| Util.MakePair | include/01_allocators/util.h:286-290 | the pair holds `x` first and `y` second |
| Util.PairEq | include/01_allocators/util.h:242-246 | `==` holds exactly when both components are equal |
| Util.PairNe | include/01_allocators/util.h:248-252 | `!=` is the negation of `==` |
| Util.PairLessEq | include/01_allocators/util.h:266-270 | `<=` holds exactly when `<` holds or the pairs are equal |
| Util.PairGreaterEq | include/01_allocators/util.h:272-276 | `>=` holds exactly when `>` holds or the pairs are equal |
| Util.PairLess | include/01_allocators/util.h:254-258 | `<` is the lexicographic order of the two-element sequences `[first, second]` |
| Util.PairGreater | include/01_allocators/util.h:260-264 | `>` is that lexicographic order with the arguments exchanged |
| Util.PairLessIsStrictTotal | include/01_allocators/util.h:254-264 | pair `<` is irreflexive, transitive, asymmetric and total |
| Util.PairLessIsLexicographic | include/01_allocators/util.h:254-258 | pair `<` compares the first components, and the second components only when the first are equal |
| Functional.Plus | include/03_algorithms/functional.h:28-35 | subtracting either operand from the sum gives back the other |
| Functional.Multiplies | include/03_algorithms/functional.h:48-55 | the product is zero exactly when a factor is; dividing it by a non-zero factor gives back the other factor |
| Functional.Minus | include/03_algorithms/functional.h:38-45 | `minus` undoes `plus`: `(x - y) + y == x` |
| Functional.Divides | include/03_algorithms/functional.h:58-65 | the quotient truncates toward zero, as C++ division does: the remainder `x - q*y` is smaller than `y` in magnitude and has the sign of `x` |
| Functional.Modulus | include/03_algorithms/functional.h:68-75 | `divides(x,y)*y + modulus(x,y) == x`; the remainder is smaller than `y` in magnitude and is zero or has the sign of `x` |
| Functional.TruncatedRemainder | include/03_algorithms/functional.h:68-75 | for each combination of signs, the truncating remainder equals the Euclidean one up to the sign of the dividend |
| Functional.Negate | include/03_algorithms/functional.h:78-85 | `negate(x)` is the additive inverse of `x` |
| Functional.IdentityElements | include/03_algorithms/functional.h:88-99 | 0 is the identity of `plus` and 1 the identity of `multiplies`, on both sides |
| Functional.PlusIdentity | include/03_algorithms/functional.h:88-92 | `plus` with this element, on either side, leaves every value unchanged |
| Functional.MultipliesIdentity | include/03_algorithms/functional.h:95-99 | `multiplies` with this element, on either side, leaves every value unchanged |
| Functional.EqualTo | include/03_algorithms/functional.h:102-109 | holds exactly when neither argument is less than the other |
| Functional.NotEqualTo | include/03_algorithms/functional.h:112-119 | `not_equal_to` is the negation of `equal_to` |
| Functional.Greater | include/03_algorithms/functional.h:122-129 | `greater(x,y)` is `less(y,x)` |
| Functional.Less | include/03_algorithms/functional.h:132-139 | holds exactly when `y - x` is positive |
| Functional.GreaterEqual | include/03_algorithms/functional.h:142-149 | `greater_equal` is the negation of `less` |
| Functional.LessEqual | include/03_algorithms/functional.h:152-159 | `less_equal` is the negation of `greater`, and is `less` or `equal_to` |
| Functional.LogicalAnd | include/03_algorithms/functional.h:162-169 | `logical_and` is the De Morgan dual of `logical_or` |
| Functional.LogicalOr | include/03_algorithms/functional.h:172-179 | false exactly when both arguments are false |
| Functional.LogicalNot | include/03_algorithms/functional.h:182-189 | `logical_not` gives the opposite truth value |
| Functional.Identity | include/03_algorithms/functional.h:192-199 | returns its argument unchanged |
| Functional.SelectFirst | include/03_algorithms/functional.h:202-209 | the first component, together with the second component, rebuilds the pair |
| Functional.SelectSecond | include/03_algorithms/functional.h:212-219 | the second component, together with the first, rebuilds the pair |
| Functional.SelectMakePair | include/03_algorithms/functional.h:202-219 | `selectfirst` and `selectsecond` recover the arguments of `make_pair` |
| Functional.IntegralHash | include/03_algorithms/functional.h:259-297 | the hash of an integer is the integer converted to a 64-bit `size_t`: congruent to it modulo 2^64, equal to it when it is in range, and wrapped once when it is negative |
| Functional.FnvAppend | include/03_algorithms/functional.h:299-316 | hashing one more byte is one more FNV-1a step |
| Functional.FnvConcat | include/03_algorithms/functional.h:299-316 | hashing a concatenation continues from the hash of the first part |
| Functional.BitwiseHash | include/03_algorithms/functional.h:299-316 | the loop computes the 64-bit FNV-1a hash of the bytes, starting from the offset basis and wrapping modulo 2^64; the empty byte sequence hashes to the offset basis |
| AlgoBase.Max | 03_algorithms/algobase.h:19-26 | the result is one of the arguments and is at least both; it is `max` with the comparator `>` |
| AlgoBase.MaxBy | 03_algorithms/algobase.h:28-33 | the result is one of the two arguments |
| AlgoBase.Min | 03_algorithms/algobase.h:48-56 | the result is one of the arguments and is at most both; it is `min` with the comparator `<` |
| AlgoBase.MinBy | 03_algorithms/algobase.h:58-63 | the result is one of the two arguments |
| AlgoBase.TieReturnsSecond | 03_algorithms/algobase.h:19-63 | for every comparator, on two arguments neither of which is related to the other, max and min both return the second; otherwise the one the comparator prefers |
| AlgoBase.MaxMinByAreExtremal | 03_algorithms/algobase.h:28-63 | over a strict weak order, the comparator prefers neither argument over the result, for max and for min alike |
| AlgoBase.MaxMinScenarios | src/_test/max_test.cpp:27-28 | the test values: max by absolute value of 6 and -7 is -7, and min by absolute value is 6 |
| AlgoBase.MaxByReturnsSecondOnTie | 03_algorithms/algobase.h:19-33 | on two arguments that are equivalent under the comparator, max returns the second one, against the header comment |
| AlgoBase.MinByReturnsSecondOnTie | 03_algorithms/algobase.h:48-63 | on two equivalent arguments, min returns the second one, against the header comment |
| AlgoBase.MaxKeepFirst | 03_algorithms/algobase.h:19-33 | max as the comment intends: one of the arguments, and the first one unless the second is strictly greater |
| AlgoBase.MinKeepFirst | 03_algorithms/algobase.h:48-63 | min as the comment intends: one of the arguments, and the first one unless the second is strictly less |
| AlgoBase.KeepFirstIsExtremal | 03_algorithms/algobase.h:19-63 | the intended max and min are extremal, and return the first argument exactly when the arguments are equivalent or it is the extremal one |
| AlgoBase.IterSwap | 03_algorithms/algobase.h:82-86 | the two locations exchange their values; nothing else changes |
| AlgoBase.IterSwapScenario | src/_test/iter_swap_test.cpp:10-11 | exchanging the first and last elements of `{1,2,3,4,5}` gives `{5,2,3,4,1}` |
| AlgoBase.UncheckedCopyCat | 03_algorithms/algobase.h:98-123 | the destination range receives the source range element by element; the result is the end of the written range; nothing else changes |
| AlgoBase.CopyScenario | src/_test/copy_test.cpp:32-41 | the test: copying the first three elements of `{0,10,..,50}` into `{0,3,..,30}` at index 4 gives `{0,3,6,9,0,10,20,21,24,27,30}`, and a reversed source range copies nothing and returns the destination |
| AlgoBase.UncheckedCopyBackwardCat | 03_algorithms/algobase.h:132-151 | the range that ends at `destEnd` receives the source range; the result is its start; nothing else changes |
| AlgoBase.CopyIf | 03_algorithms/algobase.h:163-176 | the written range is exactly the elements that satisfy the predicate, in order; the result is its end |
| AlgoBase.FilterPrefixFits | 03_algorithms/algobase.h:163-176 | what `copy_if` has written after a prefix is no longer than what it writes in all |
| AlgoBase.Fill | 03_algorithms/algobase.h:335-348 | every position of the range holds the value; nothing else changes |
| AlgoBase.LexicographicalCompareBy | 03_algorithms/algobase.h:388-415 | at the first position where the ranges differ, the answer is the predicate of the two elements; when one range is a prefix of the other, the answer is whether the second ran out first |
| AlgoBase.LexicographicalCompare | 03_algorithms/algobase.h:350-385 | the answer is that the second range is lexicographically less than the first; equal ranges give false |
| AlgoBase.MismatchBy | 03_algorithms/algobase.h:434-444 | the result is the first position where the predicate fails, or the end of the first range; it holds at every earlier position |
| AlgoBase.Mismatch | 03_algorithms/algobase.h:421-431 | the result is the first position where the ranges differ |
| Algo.AllOf | include/03_algorithms/algo.h:22-34 | true exactly when every element satisfies the predicate |
| Algo.AnyOf | include/03_algorithms/algo.h:40-52 | true exactly when some element satisfies the predicate |
| Algo.NoneOf | include/03_algorithms/algo.h:58-70 | true exactly when no element satisfies the predicate |
| Algo.Count | include/03_algorithms/algo.h:76-88 | the result is the multiplicity of the value in the range; zero exactly when it is absent |
| Algo.CountIf | include/03_algorithms/algo.h:94-106 | the result is the number of elements that satisfy the predicate |
| Algo.Find | include/03_algorithms/algo.h:233-244 | the result is the first position holding the value; it is the end exactly when the value is absent |
| Algo.FindIf | include/03_algorithms/algo.h:250-258 | the result is the first position whose element satisfies the predicate, or the end |
| Algo.FindIfNot | include/03_algorithms/algo.h:264-272 | the result is the first position whose element fails the predicate, or the end |
| Algo.FindFirstOf | include/03_algorithms/algo.h:403-415 | the result is the first position whose element occurs in the second range, or the end |
| Algo.FindFirstOfBy | include/03_algorithms/algo.h:417-435 | the result is the first position whose element is related by the predicate to some element of the second range, or the end |
| Algo.AdjacentFindBy | include/03_algorithms/algo.h:462-481 | the result is the first position whose element and its successor satisfy the predicate, or the end when there is none |
| Algo.AdjacentFind | include/03_algorithms/algo.h:441-460 | the result is the first position whose element equals its successor, or the end when there is none |
| Algo.AdjacentFindScenario | src/_test/adjacent_find.cpp:13-17 | the test values: the first equal pair is at position 4, and the first pair where the second is the square of the first is at position 1 |
| Algo.MaxElementBy | include/03_algorithms/algo.h:1203-1220 | the result is the first position of a greatest element; an empty range gives its end |
| Algo.MaxElement | include/03_algorithms/algo.h:1184-1201 | the result is the first position of a greatest integer; an empty range gives its end |
| Algo.MinElement | include/03_algorithms/algo.h:1226-1242 | the result is the first position of a least integer; an empty range gives its end |
| Algo.IsSortedByAsWritten | include/03_algorithms/algo.h:1088-1109 | as written: true exactly when the predicate holds between every element and its successor |
| Algo.IsSortedByRejectsEqualNeighbours | include/03_algorithms/algo.h:1088-1109 | `{1, 1}` is sorted by `<`, yet the written test rejects it |
| Algo.SortedFromNeighbours | include/03_algorithms/algo.h:1065-1109 | over a strict weak order, when no element is less than its predecessor the whole range is sorted |
| Algo.IsSortedBy | include/03_algorithms/algo.h:1088-1109 | corrected: true exactly when no later element is ordered before an earlier one |
| Algo.IsSorted | include/03_algorithms/algo.h:1065-1086 | true exactly when the integers never decrease along the range |
| Algo.MedianBy | include/03_algorithms/algo.h:1148-1178 | the result is one of the three arguments |
| Algo.MedianIsBetween | include/03_algorithms/algo.h:1148-1178 | over a strict weak order, the result lies between the other two arguments |
| Algo.Median | include/03_algorithms/algo.h:1115-1145 | for integers the result is one of the arguments and lies between the other two |
| Algo.Replace | include/03_algorithms/algo.h:1381-1391 | every element of the range equal to the old value becomes the new value; the others and everything outside are unchanged |
| Algo.ReplaceIf | include/03_algorithms/algo.h:1437-1447 | every element that satisfies the predicate becomes the value; the others and everything outside are unchanged |
| Algo.ReverseCopy | include/03_algorithms/algo.h:1487-1497 | the destination receives the source in reverse order; the result is the end of the written range |
| Algo.CommonDivisorsStep | include/03_algorithms/algo.h:1590-1600 | one step of the loop keeps the set of common divisors |
| Algo.RGcd | include/03_algorithms/algo.h:1590-1600 | the result divides both arguments, and every common divisor divides it |
| Algo.SameCount | include/03_algorithms/algo.h:1681-1752 | the inner count comparison: a match keeps the counts equal, a mismatch proves the ranges are no permutation |
| Algo.IsPermutation | include/03_algorithms/algo.h:1754-1767 | true exactly when the two ranges hold the same multiset of elements |
| SortedRange.LowerBound | include/03_algorithms/algo.h:531-559 | the result is the first position whose element is not less than the value |
| SortedRange.UpperBound | include/03_algorithms/algo.h:658-688 | the result is the first position whose element is greater than the value |
| SortedRange.BinarySearch | include/03_algorithms/algo.h:759-764 | true exactly when the sorted range holds the value |
| SortedRange.EqualRangeSearch | include/03_algorithms/algo.h:815-848 | the bisection finds whether the value occurs, and if so the lower and upper bounds |
| SortedRange.EqualRangeAsWritten | include/03_algorithms/algo.h:815-854 | as written: the bounds when the value occurs, and `(last, last)` when it does not |
| SortedRange.EqualRange | include/03_algorithms/algo.h:815-854 | corrected: the result is the lower and the upper bound, and a position is inside it exactly when its element equals the value |
| SortedRange.EqualRangeAbsentScenario | include/03_algorithms/algo.h:815-848 | searching `{1, 3}` for 2 gives `(2, 2)` as written; the bounds are `(1, 1)` |
| SortedRange.HeadMissing | include/03_algorithms/algo.h:967-987 | when the head of the second range is less than the head of the first, the second is not included |
| SortedRange.HeadSkippable | include/03_algorithms/algo.h:967-987 | when the head of the first range is less, skipping it does not change the answer |
| SortedRange.HeadsMatch | include/03_algorithms/algo.h:967-987 | when the heads are equal, consuming both does not change the answer |
| SortedRange.IncludesBy | include/03_algorithms/algo.h:989-1009 | for ranges sorted by a strict total order, true exactly when the second range's multiset is contained in the first's |
| SortedRange.Includes | include/03_algorithms/algo.h:967-987 | for sorted integer ranges, true exactly when the second range's multiset is contained in the first's |
| Ranges.CountIsFilterLength | include/03_algorithms/algo.h:94-106 | the number that `count_if` finds is the length of what `copy_if` writes |
| Ranges.CountEqualIsMultiplicity | include/03_algorithms/algo.h:76-88 | counting the elements equal to a value is its multiplicity |
| Ranges.CountWhereComplement | include/03_algorithms/algo.h:94-106 | the counts of a predicate and of its negation add up to the length |
| Ranges.FilterSelects | 03_algorithms/algobase.h:163-176 | what `copy_if` writes satisfies the predicate and is a sub-multiset of the source |
| Ranges.FilterAllOrNone | 03_algorithms/algobase.h:163-176 | a predicate true of everything copies the whole range, and one false of everything copies nothing |
| Ranges.ReversedAt | include/03_algorithms/algo.h:1487-1497 | element `k` of the reversal is element `n - 1 - k` of the range |
| Ranges.ReversedInvolution | include/03_algorithms/algo.h:1477-1497 | reversing twice restores the range; reversing keeps its elements |
| Ranges.LexLessAtDifference | 03_algorithms/algobase.h:350-385 | the first difference decides the lexicographic order, and a proper prefix is less |
| Ranges.LexLessIsStrictTotal | 03_algorithms/algobase.h:350-385 | over a strict total order, exactly one of `a < b`, `a == b`, `b < a` holds |
| Ranges.LexLessTransitive | 03_algorithms/algobase.h:350-385 | over a strict weak order, the lexicographic order is transitive |
| Ranges.PermutationAfterPrefix | include/03_algorithms/algo.h:1681-1752 | after a common prefix, the ranges are permutations of each other exactly when the rests are |
| HeapAlgo.HeapRootMax | include/03_algorithms/heap_algo.h:79-117 | no element of a heap is greater than its root |
| HeapAlgo.PushHeapAux | include/03_algorithms/heap_algo.h:48-59 | sifting the value up from the hole leaves a heap below `top` holding the old elements with the value in place of the hole; nothing outside the path changes |
| HeapAlgo.Parent | include/03_algorithms/heap_algo.h:21-32 | for an index `i >= 1`, the parent `p` satisfies `0 <= p < i`, and `i` is `2p + 1` or `2p + 2` |
| HeapAlgo.PushHeap | include/03_algorithms/heap_algo.h:61-71 | when the front `len - 1` elements are a heap, the front `len` become one with the same elements; nothing after them changes |
| HeapAlgo.AdjustHeap | include/03_algorithms/heap_algo.h:120-144 | moving the hole to a leaf and then sifting the value up gives a heap of the old elements with the value in place of the top |
| HeapAlgo.PopMax | include/03_algorithms/heap_algo.h:146-152 | the element moved to the back is not less than any element in front of it |
| HeapAlgo.PopHeap | include/03_algorithms/heap_algo.h:146-159 | the old root moves to position `len - 1`, is a greatest element, and the front `len - 1` are a heap of the rest |
| HeapAlgo.SortStep | include/03_algorithms/heap_algo.h:177-185 | one pop extends the sorted tail, whose elements are all at least those in front of it |
| HeapAlgo.SortHeap | include/03_algorithms/heap_algo.h:177-185 | a heap becomes sorted ascending with the same elements |
| HeapAlgo.MakeHeap | include/03_algorithms/heap_algo.h:221-246 | the front `len` elements become a heap with the same elements; ranges shorter than two are untouched |
| Permutation.ReverseAsWritten | include/03_algorithms/algo.h:1455-1466 | as written for bidirectional iterators: the range rotates left by one place |
| Permutation.Reverse | include/03_algorithms/algo.h:1455-1481 | corrected: the range is reversed and nothing outside it changes |
| Permutation.ReverseScenario | include/03_algorithms/algo.h:1455-1466 | on `{1,2,3}` the written reverse gives `{2,3,1}`; the intended result is `{3,2,1}` |
| Permutation.ReversedRange | include/03_algorithms/algo.h:1477-1481 | a reversed range is the sequence reversal of the old range, and keeps its elements |
| Permutation.FindPivot | include/03_algorithms/algo.h:1773-1798 | the first loop finds the longest non-rising suffix and the pivot before it |
| Permutation.FindSwapTarget | include/03_algorithms/algo.h:1773-1798 | the second loop finds the rightmost element greater than the pivot |
| Permutation.NonIncreasingIsLast | include/03_algorithms/algo.h:1773-1798 | a non-rising range is the greatest of its permutations |
| Permutation.SortedIsLeast | include/03_algorithms/algo.h:1773-1798 | a sorted range is no greater than any of its permutations |
| Permutation.SwapThenReverseIsNext | include/03_algorithms/algo.h:1773-1798 | exchanging the pivot with that element and reversing the suffix gives the next permutation: greater, with nothing in between |
| Permutation.NextPermutationBy | include/03_algorithms/algo.h:1773-1798 | the array becomes the next greater permutation and the answer is true, or it was the greatest, becomes sorted and the answer is false |
| Permutation.NextPermutation | include/03_algorithms/algo.h:1773-1798 | the same for integers under `<` |
| Permutation.LexLessFlip | include/03_algorithms/algo.h:1857-1880 | reversing the element order reverses the lexicographic order of equal-length ranges |
| Permutation.NextFlippedIsPrev | include/03_algorithms/algo.h:1857-1880 | the next permutation under the reversed order is the previous one under the order |
| Permutation.PrevPermutationBy | include/03_algorithms/algo.h:1857-1880 | the array becomes the next smaller permutation and the answer is true, or it was the least, becomes non-rising and the answer is false |
| Permutation.PrevPermutation | include/03_algorithms/algo.h:1831-1854 | the same for integers under `<` |
| Deque.BufSize | include/04_containers/deque.hpp:18-21 | a buffer holds between 16 and 4096 elements; for elements under 256 bytes, as many as fit in 4096 bytes; for elements of 256 bytes or more, exactly 16 |
| Deque.NodeOffset | include/04_containers/deque.hpp:111-124 | the node step that `+=` computes is the floor of the offset divided by the buffer size, including for negative offsets |
| Deque.DequeIter.constructor | include/04_containers/deque.hpp:47 | the iterator points at `v` inside node `n`, whose buffer spans `B` slots |
| Deque.DequeIter.Copy | include/04_containers/deque.hpp:48-49 | the copy has the same four fields |
| Deque.DequeIter.Assign | include/04_containers/deque.hpp:66-74 | assignment copies the four fields of the right-hand side |
| Deque.DequeIter.SetNode | include/04_containers/deque.hpp:59-63 | the iterator moves to a new node, whose buffer spans `B` slots; `cur` is left alone |
| Deque.DequeIter.Increment | include/04_containers/deque.hpp:81-88 | the position grows by one; past the last slot of a buffer it moves to the first slot of the next node |
| Deque.DequeIter.Decrement | include/04_containers/deque.hpp:96-103 | the position shrinks by one; before the first slot it moves to the last slot of the previous node |
| Deque.DequeIter.AddAssign | include/04_containers/deque.hpp:111-124 | the position grows by `n`, forward or backward, across any number of nodes |
| Deque.DequeIter.SubAssign | include/04_containers/deque.hpp:131-133 | the position shrinks by `n` |
| Deque.DequeIter.Plus | include/04_containers/deque.hpp:126-129 | a fresh iterator `n` positions further on; this one is unchanged |
| Deque.DequeIter.Subscript | include/04_containers/deque.hpp:140-142 | the element `n` positions further on, found without moving the iterator |
| Deque.DequeIter.Minus | include/04_containers/deque.hpp:77-79 | the difference of the positions; zero exactly when the iterators are equal, positive exactly when the right one is less |
| Deque.SlotOrder | include/04_containers/deque.hpp:145-152 | with offsets inside one buffer size, slot positions compare like (node, offset) pairs compared lexicographically |
| Deque.DequeIter.Eq | include/04_containers/deque.hpp:145 | for valid iterators with one buffer size, `==` holds exactly when the positions are equal |
| Deque.DequeIter.Ne | include/04_containers/deque.hpp:149 | `!=` holds exactly when the positions differ |
| Deque.DequeIter.Less | include/04_containers/deque.hpp:146-148 | `<` holds exactly when the left position is earlier |
| Deque.DequeIter.Gt | include/04_containers/deque.hpp:150 | `>` holds exactly when the left position is later |
| Deque.DequeIter.Le | include/04_containers/deque.hpp:151 | `<=` holds exactly when the left position is not later |
| Deque.DequeIter.Ge | include/04_containers/deque.hpp:152 | `>=` holds exactly when the left position is not earlier |
| Deque.MinusProperties | include/04_containers/deque.hpp:77-79 | an iterator minus itself is zero, and the difference is antisymmetric |
| Deque.AddSubRoundTrip | include/04_containers/deque.hpp:111-133 | `+= n` followed by `-= n` returns to the same node and slot |
| CharTraits.Length | include/04_containers/basic_string.hpp:33-40 | the result is the index of the first zero terminator |
| CharTraits.Compare | src/04_containers/basic_string.hpp:351-362 | 0 exactly when the first `n` characters agree; otherwise 1 or -1 as the first differing character is greater or less in the first string, which is their lexicographic order |
| CharTraits.Copy | src/04_containers/basic_string.hpp:364-372 | the destination receives the `n` source characters; the result is the destination; nothing else changes |
| CharTraits.MoveForward | src/04_containers/basic_string.hpp:374-390 | the forward loop copies correctly when the destination is not above the source |
| CharTraits.MoveBackward | src/04_containers/basic_string.hpp:374-390 | the backward loop copies correctly when the destination is not below the source |
| CharTraits.Move | src/04_containers/basic_string.hpp:374-390 | the destination receives the old source characters even when the ranges overlap; nothing else changes |
| CharTraits.Fill | src/04_containers/basic_string.hpp:392-399 | the `count` characters at the destination become the value; nothing else changes |
| BasicStrings.InsertEraseRoundTrip | include/04_containers/basic_string.hpp:756-766 | inserting a character and then erasing it at the same position gives back the string |
| BasicStrings.EraseInsertRoundTrip | include/04_containers/basic_string.hpp:853-860 | erasing a character and inserting it again at the same position gives back the string |
| BasicStrings.InsertKeepsElements | include/04_containers/basic_string.hpp:756-766 | insertion adds exactly the one character to the contents' multiset |
| BasicStrings.EraseBetweenRemovesExactly | include/04_containers/basic_string.hpp:862-874 | erasing a range keeps the prefix, shifts the suffix down, and removes exactly the erased characters |
| BasicStrings.ResizedIdempotent | include/04_containers/basic_string.hpp:877-885 | resizing to the current length changes nothing, and resizing twice to one length is resizing once |
| BasicStrings.ShrinkingResizeIsErase | include/04_containers/basic_string.hpp:877-885 | a shrinking resize is the erasure of the tail |
| BasicStrings.GrowingResizeIsAppend | include/04_containers/basic_string.hpp:877-885 | a growing resize appends copies of the value |
| BasicStrings.BasicString.constructor | include/04_containers/basic_string.hpp:296-298 | a new string is empty with the requested capacity |
| BasicStrings.BasicString.Empty | include/04_containers/basic_string.hpp:366-371 | true exactly when the contents are empty |
| BasicStrings.BasicString.Size | include/04_containers/basic_string.hpp:366-371 | the length of the contents |
| BasicStrings.BasicString.Length | include/04_containers/basic_string.hpp:366-371 | the length of the contents, the same as `size` |
| BasicStrings.BasicString.Capacity | include/04_containers/basic_string.hpp:366-371 | the size of the buffer, which holds the contents |
| BasicStrings.BasicString.Subscript | include/04_containers/basic_string.hpp:377-391 | the character at `n`, or a zero terminator written and returned at `n == size`; the contents do not change |
| BasicStrings.BasicString.At | include/04_containers/basic_string.hpp:393-401 | the character at `n`, or `out_of_range` thrown exactly when `n >= size` |
| BasicStrings.BasicString.PopBack | include/04_containers/basic_string.hpp:445-448 | the last character is removed |
| BasicStrings.BasicString.Clear | include/04_containers/basic_string.hpp:484-486 | the contents become empty |
| BasicStrings.BasicString.Insert | include/04_containers/basic_string.hpp:756-766 | the contents become the old contents with the value inserted at `p`; the result is `p` |
| BasicStrings.BasicString.Erase | include/04_containers/basic_string.hpp:853-860 | the character at `p` is removed; the result is `p` |
| BasicStrings.BasicString.EraseRange | include/04_containers/basic_string.hpp:862-874 | the characters in `[first, last)` are removed; the result is `first` |
| BasicStrings.BasicString.Append | include/04_containers/basic_string.hpp:814-823 | `count` copies of the value are appended, or `length_error` is thrown with nothing changed exactly when the length would pass the maximum size |
| BasicStrings.BasicString.Resize | include/04_containers/basic_string.hpp:877-885 | the contents become the old ones cut to `count`, or padded to `count` with the value |
| BasicStrings.BasicString.Substr | include/04_containers/basic_string.hpp:499-502 | the characters from `index` on, at most `count` of them, and fewer only when the string ends first |

## Left out

- Integer widths: element values and indices are unbounded integers. The 64-bit wrap-around of the hashes is modelled: `size_t` arithmetic is taken modulo 2^64, and FNV-1a runs on `bv64`.
- Functional.BitwiseHash: only the 64-bit branch is modelled. On targets with 32-bit pointers `bitwise_hash` uses the 32-bit FNV offset basis 2166136261 and prime 16777619 with 32-bit wrap-around (include/03_algorithms/functional.h:301-306).
- Floating-point hashes (`hash<float>`, `hash<double>`, `hash<long double>`) are not part of this model, because they hash the object representation of the float.
- The allocator, `construct` and `type_traits` files are not part of this model. Neither are the algorithms of `algo.h` other than those listed above: `search`, `search_n`, `find_end`, `for_each`, the set algorithms, `merge`, `partition`, `sort`, `unique`, `rotate` and the rest.
- Reverse (random access): the random-access overload of `reverse_dispatch` exchanges `*first` with `*last` without moving either iterator. For a non-empty range it never terminates, and it reads `*last`, which is outside the range. `Permutation.Reverse` models the reversal both overloads are meant to perform.
- NextPermutationBy: the comparator overload of `next_permutation` (include/03_algorithms/algo.h:1800-1825) calls `pred(*i < *--j)` with one argument and tests `*--i < *ii` without `pred`, so it does not compile as written. The model takes the `operator<` version and abstracts the order.
- NextPermutationBy, PrevPermutationBy: modelled on a whole array, with the order assumed to be a strict total order, so that "next" and "previous" are unique.
- NextPermutationBy, NextPermutation, PrevPermutationBy, PrevPermutation: these are computed over the corrected `Permutation.Reverse`. As written, the suffix reversal they call (include/03_algorithms/algo.h:1789, 1794, 1845, 1850, 1871, 1876) never terminates on random-access ranges (include/03_algorithms/algo.h:1468-1475) and rotates the suffix on bidirectional ones (include/03_algorithms/algo.h:1455-1466), so the source does not produce the permutations these members state.
- The comparator overload of `min_element` (include/03_algorithms/algo.h:1244-1260) moves to `*first` when `pred(*result, *first)`, the same test as `max_element`, so it finds a maximum. Only the `operator<` `min_element` is modelled; `Algo.MaxElementBy` captures the behaviour of both comparator overloads.
- The comparator overloads of `upper_bound` and `binary_search` (include/03_algorithms/algo.h:684-688, 766-771) drop `pred`. `upper_bound` calls the dispatch without it and does not compile. `binary_search` uses `lower_bound` with `<` and then tests `pred(*iter, value)`. These overloads are not modelled. Neither are the comparator versions of `lower_bound` and `equal_range`, nor the forward-iterator dispatches, which compute the same positions by stepping.
- IncludesBy, NextPermutationBy, PrevPermutationBy: these require the comparator to be a strict total order. Under a mere strict weak order their results are not unique.
- CopyIf, ReverseCopy: the source range is a sequence value, so overlap between source and destination is not modelled.
- UncheckedCopyCat, UncheckedCopyBackwardCat: require the ranges not to overlap in the direction that would overwrite unread elements, as the standard requires of `copy` and `copy_backward`.
- The deque itself (map allocation, `push_front`, `push_back`, insertion and the rest) is not part of this model. Only the iterator is modelled.
- The postfix `++` and `--` of the deque iterator (include/04_containers/deque.hpp:90-94, 105-109), `operator+` (include/04_containers/deque.hpp:126-129) and the `const` `operator-=` (include/04_containers/deque.hpp:135-138) return a reference to a local copy, which dangles. The postfix operators and the `const` `operator-=` are not modelled; `Deque.DequeIter.Plus` returns the new iterator by value.
- Deque.DequeIter.Decrement: prefix `--` ends with `return cur;`, which is not a `self&` (include/04_containers/deque.hpp:102). The model keeps the movement and returns nothing.
- `difference_type` of `operator-` is unbounded here. The node arithmetic of `+=` is modelled with C++'s truncating division (`Functional.Divides`), as written.
- BasicStrings.BasicString.Insert, BasicStrings.BasicString.Append, BasicStrings.BasicString.Resize: the reallocating branches are not modelled, because `reallocate_and_fill` and `reallocate_and_copy` are declared but not defined (include/04_containers/basic_string.hpp:671-673). These methods therefore require enough spare capacity: `size < cap` for `Insert`; `count <= cap - size` for `Append` unless it throws; `count <= cap` for `Resize`.
- BasicStrings.BasicString.Subscript: requires `n < cap`. At `n == size == cap`, `operator[]` writes the terminator one past the buffer, which the source does not guard.
- BasicStrings.BasicString.At: returns an error value in place of throwing `out_of_range`.
- BasicStrings.BasicString.Substr: returns the characters as a sequence, because the string constructor it calls goes through `copy_init`, which is declared but not defined.
- BasicStrings.BasicString.constructor: stands in for the string constructors, which go through `fill_init`, `init_from` and `try_init`, declared but not defined.
- The move constructor and move assignment are not modelled. They hand the buffer pointer over to the new string and leave the source null. Move assignment also reads `rhs.cap`, which is not a member (include/04_containers/basic_string.hpp:688-697).
- `insert(pos, count, value)` and the range `insert` (include/04_containers/basic_string.hpp:769-810) shift `count` characters instead of the tail, and call `char_traits::fil`, which does not exist. They are not modelled.
- `reserve` allocates a new buffer without copying the contents, so it is not modelled.
- The assignment operators, `compare`, `replace`, `find` and the other searching members, `front`, `back`, `push_back`, the comparison operators and stream I/O of `basic_string` are not part of this model.
- The `char` and `wchar_t` specialisations of `char_traits` call the C library (`strlen`, `memcmp`, `memcpy`, `memmove`, `memset`). The generic loops model the results those calls promise.
- The `char32_t` specialisation has no `compare`.
- CharTraits.Length: the versions under include/ and src/04_containers/basic_string.hpp:341-347 compare with `char_type(nullptr)`, which is zero. The model takes a string that has a terminator.

## Findings

| source | as written | input that shows it | evidently intended | confidence | as-written member | corrected member |
|---|---|---|---|---|---|---|
| 03_algorithms/algobase.h:19-63 | `max` returns `left > right ? left : right` and `min` returns `left < right ? left : right`, so on equivalent arguments they return the second | `max(7, -7)` by absolute value returns -7 | the header comment: on equivalent arguments return the first | not executed | AlgoBase.MaxByReturnsSecondOnTie | AlgoBase.KeepFirstIsExtremal |
| include/03_algorithms/algo.h:1088-1109 | the comparator `is_sorted` fails when `!pred(*first, *next)`, which rejects equal neighbours under `less` | `{1, 1}` with `less` gives false | fail only when `pred(*next, *first)`, as the `operator<` overload's `*first > *next` does | not executed | Algo.IsSortedByRejectsEqualNeighbours | Algo.IsSortedBy |
| include/03_algorithms/algo.h:815-848 | when the value is absent, `equal_range` returns `(last, last)` | searching `{1, 3}` for 2 gives `(2, 2)` | the empty range at the lower bound, `(1, 1)`, where the value would be inserted | not executed | SortedRange.EqualRangeAbsentScenario | SortedRange.EqualRange |
| include/03_algorithms/algo.h:1455-1466 | the bidirectional `reverse` steps `last` back but never advances `first`, so it rotates the range left | `{1, 2, 3}` becomes `{2, 3, 1}` | `{3, 2, 1}`; `next_permutation` and `prev_permutation` depend on it | not executed | Permutation.ReverseScenario | Permutation.Reverse |
