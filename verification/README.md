# Lower bound over a sorted `int64` slice

The system is one primitive, `LowerBound(slice []int64, value int64) int64`
of package `search`: given a non-decreasing slice of signed 64-bit integers
and a target, it returns the leftmost index at which the target can be
inserted while keeping the slice sorted. That index is the number of elements
strictly less than the target and lies in `[0, len(slice)]`. The Go
declaration has no body (the implementation is in assembly that is not part
of this model); its test file pins the behaviour. This project models a
leftmost binary search over the half-open range `[lo, hi)` with midpoint
`lo + (hi - lo) / 2` and no early exit on equality, together with that test
oracle.

- `int64.dfy` — module `Int64`: the `int64` newtype bounded to `[-2^63, 2^63)`.
- `search.dfy` — module `Search`: the precondition `Sorted`, the reference
  answer `CountLess` (number of elements below the target), its local
  characterisation `IsInsertionPoint`, the overflow-free `Midpoint`, and the
  binary search `LowerBound` over the half-open range `[lo, hi)` with
  `int64` indices: probe `mid = lo + (hi - lo) / 2`; if `a[mid] < v` then
  `lo = mid + 1`, else `hi = mid`; stop when `lo == hi`. No early exit on
  equality, which is what makes the tie-break leftmost.
- `search_tests.dfy` — module `SearchTests`: the two test tables, the
  "32-overflow" case and the benchmark's identity slice, each proved against
  `CountLess`, and `RunTable`, which runs the search on every row.

Indices are `int64`, as the Go result is; a Go slice's length never exceeds
`MaxInt64`, which is the `|a| <= MAX` requirement of `LowerBound`. Because
the midpoint is computed as `lo + (hi - lo) / 2` on `int64` values, Dafny's
newtype range check proves that no intermediate leaves the 64-bit range.
Element comparisons are on the full signed 64-bit domain.

## Model

| member | source | states |
|---|---|---|
| Search.LowerBound | tests/lowerbound_test.go:10 | on a sorted slice the result lies in [0, len], every element before it is below the target, every element from it on is at or above the target, it equals the count of smaller elements, and the search makes at most floor(log2 len)+1 probes |
| Search.CountLess | tests/lowerbound_test.go:10 | the count of smaller elements never exceeds the length, and reaching the length means every element is below the target |
| Search.CountLessOfSplit | tests/lowerbound_test.go:10 | any split of a slice into a prefix below the target and a suffix at or above it has exactly CountLess elements in the prefix |
| Search.SortedSplitsAtCount | tests/lowerbound_test.go:10 | in a sorted slice the elements below the target are exactly the first CountLess ones |
| Search.InsertionPointIffCount | tests/lowerbound_test.go:59-70 | on sorted input an index whose left neighbour is below the target and whose own element is at or above it is the count of smaller elements, and conversely; so a target in a gap yields the index of the first greater element |
| Search.CountLessMonotone | tests/lowerbound_test.go:10 | a larger target never yields a smaller result |
| Search.CountIsLengthIffAllBelow | tests/lowerbound_test.go:157-162 | the result equals the length if and only if every element is strictly below the target |
| Search.CountIsZeroIffNoneBelow | tests/lowerbound_test.go:163-168 | on sorted input the result is 0 if and only if no element is below the target, if and only if the slice is empty or the target is at most the first element |
| Search.LeftmostOccurrence | tests/lowerbound_test.go:71-76 | when the target occurs in a sorted slice the result is the index of its first occurrence: an occurrence, no later than any other, with no copy before it |
| Search.Midpoint | tests/lowerbound_test.go:10 | the midpoint of a non-empty range lies inside it and leaves two sub-ranges each at most half as long, without any intermediate leaving int64 |
| Search.BitsIsLog | tests/lowerbound_test.go:10 | gives the meaning of LowerBound's probe bound: Bits(n) is floor(log2 n)+1, that is n < 2^Bits(n) and 2^(Bits(n)-1) <= n for positive n |
| SearchTests.BasicCasesPass | tests/lowerbound_test.go:22-77 | every row of the first table (exact match, empty, none, last, the two single-element rows, first, lower match, multiple repeating) is sorted and its expected index is the count of smaller elements |
| SearchTests.AdvancedCasesPass | tests/lowerbound_test.go:150-223 | every row of the advanced table (all-equal, duplicates at either end, negative values, gaps, both ends) is sorted and its expected index is the count of smaller elements |
| SearchTests.Overflow32Passes | tests/lowerbound_test.go:87-99 | the slice of five zeros followed by 1<<33 .. 1<<37 is sorted and querying 1<<35 yields len-3 = 7 |
| SearchTests.IdentityQuery | tests/lowerbound_test.go:106-116 | on the slice s[i] = i, querying any k in [0, len] yields k |
| SearchTests.RunTable | tests/lowerbound_test.go:79-85 | running the search over a table of sorted rows yields, for each row, the count of elements below its target |
| SearchTests.RunTestLowerBound | tests/lowerbound_test.go:225-230 | running the search over both tables reproduces each table's expected column exactly |

## Left out

- The assembly body of `LowerBound` is not part of this model; the model is a leftmost binary search, not the assembly's instruction-level encoding.
- `TestPerformance`'s timing comparison against `slices.BinarySearch` (wall-clock benchmark, floating-point ratio): not verifiable. Only its functional part, the expected index on the identity slice, is modelled (`SearchTests.IdentityQuery`), and the logarithmic probe bound stands in for the speed claim.
- `t.Parallel`, `t.Run` and the `testify/require` assertions: test plumbing and a foreign library; `RunTable` models the table loop sequentially.
- Behaviour on unsorted input is unspecified, so `Sorted` is a precondition rather than a modelled result. `CountLess`, `CountLessMonotone` and `CountIsLengthIffAllBelow` need no sortedness.
- Purity (calling twice yields the same index) needs no lemma: the result is fixed by `r == CountLess(a, v)`.
- Search.LowerBound: the probe counter is ghost, so the logarithmic bound is proved but is not an observable result.
