# FastSearcher in Dafny

A model of `FastSearcher.FindIndex(int[] arr, int item)` from TheAlgorithms C# collection. It is an adaptive search over an
array sorted in non-decreasing order. It returns an index whose element equals `item`, or throws
`ItemNotFoundException`. Here the exception is the `NotFound` value of `SearchResult`.

Each round the search keeps a live range `[low, high]` that still contains every occurrence of `item`:

- if `arr[low] == arr[high]`, the range holds one repeated value, so the answer is `low` or not-found. This also
  rules out a zero divisor.
- if `item` lies below `arr[low]` or above `arr[high]`, the answer is not-found.
- otherwise two probes are taken. The interpolation probe is `low + (item - arr[low]) * (high - low) / (arr[high] - arr[low])`,
  clamped into the range. The binary probe is `low + (high - low) / 2`. A probe that hits returns at once, the
  interpolation probe first. Otherwise the range shrinks to one of three segments: left of both probes, between
  them, or right of both.

The text of the implementation, `Algorithms/Search/FastSearcher.cs`, is not part of this model: only the test
suite `Algorithms.Tests/Search/FastSearcherTests.cs` is. The tests support the two probe formulas: the comment at line 39
("Item at binary index" for 5, index 4 of 10) fits `low + (high - low) / 2`, and the comments at lines 43-44 fit
the interpolation formula. The probe order (interpolation first) and the three-segment narrowing rule are
this model's own choice. They tie to the program only through the outcomes the tests observe. The test comments
at lines 38-44 place the item relative to the binary index, and the interpolation index relative to the binary
index; they do not describe the narrowing rule. Every row below therefore cites the test file.

Files:

- `FastSearcher.dfy` (module `FastSearcher`): the result type, the sortedness precondition, both probes, and
  `FindIndex` as a `while` loop. The loop's invariant says every occurrence of the item lies in `[low, high]`.
  Termination follows from `high - low` shrinking strictly.
- `FastSearcherTests.dfy` (module `FastSearcherTests`): each test as a method that builds its array, calls
  `FindIndex` and states the expected outcome. The outcome follows from `FindIndex`'s contract alone. Where the
  target occurs once, that outcome is its own index. The file also holds `CreateArrayOfDuplicates`, which
  allocates an array and fills it in place.

## Model

| member | source | states |
|---|---|---|
| `FastSearcher.FindIndex` | Algorithms.Tests/Search/FastSearcherTests.cs:8-119 | On a sorted array, a `Found(i)` result has `i` in bounds with `arr[i] == item`. The result is `NotFound` exactly when no element equals `item`: empty arrays, out-of-range targets and absent values included. |
| `FastSearcher.Midpoint` | Algorithms.Tests/Search/FastSearcherTests.cs:38-40 | The binary index lies in `[low, high]` and splits it in halves differing by at most one, with the left half no longer. |
| `FastSearcher.InterpolationProbe` | Algorithms.Tests/Search/FastSearcherTests.cs:43-44 | The clamped interpolation index always lies in `[low, high]`, whatever the spacing of the values. |
| `FastSearcher.InterpolationProbeExact` | Algorithms.Tests/Search/FastSearcherTests.cs:41-44 | When the target lies between the end values, the raw interpolation estimate is already inside `[low, high]`, so clamping never changes it and no bounds arithmetic escapes the range. A target equal to the first value probes `low`; one equal to the last value probes `high`. |
| `FastSearcherTests.CreateArrayOfDuplicates` | Algorithms.Tests/Search/FastSearcherTests.cs:121-126 | Returns a fresh array of exactly `length` elements, each equal to `value`. |
| `FastSearcherTests.ConstantIsSorted` | Algorithms.Tests/Search/FastSearcherTests.cs:65 | An array of one repeated value meets the sortedness precondition. |
| `FastSearcherTests.ItemPresent` | Algorithms.Tests/Search/FastSearcherTests.cs:9-21 | Any element of a sorted array, searched for, is found at an in-bounds index holding that element. |
| `FastSearcherTests.ItemPresentDistinct` | Algorithms.Tests/Search/FastSearcherTests.cs:48-58 | In a strictly increasing array, searching for the element at `k` returns exactly `Found(k)`. |
| `FastSearcherTests.ItemPresentInSpecificCase` | Algorithms.Tests/Search/FastSearcherTests.cs:23-36 | `[1,2]` with 1 gives index 0, with 2 gives index 1. `[1,2,3,3,3]` with 2 gives index 1. |
| `FastSearcherTests.ItemPresentDeterministicInOneToTen` | Algorithms.Tests/Search/FastSearcherTests.cs:38-42 | In `[1..10]`, the targets 3, 5, 8, 1 and 10 give indices 2, 4, 7, 0 and 9. |
| `FastSearcherTests.ItemPresentDeterministicInSpacings` | Algorithms.Tests/Search/FastSearcherTests.cs:43-45 | `[1,10,…,90]` with 20 gives index 2. `[1,…,9,100]` with 100 gives index 9. `[10,…,100]` with 50 gives index 4. |
| `FastSearcherTests.ItemPresentDeterministicInOneToTwenty` | Algorithms.Tests/Search/FastSearcherTests.cs:46-47 | In `[1..20]`, the targets 7 and 15 give indices 6 and 14. |
| `FastSearcherTests.ProbePlacement` | Algorithms.Tests/Search/FastSearcherTests.cs:38-44 | On the first round over ten elements, the binary index is 4. On `[1..10]` the interpolation probe for 3 lands on index 2. It falls left of the binary index for `[1,10,…,90]`/20 and right of it for `[1,…,9,100]`/100. |
| `FastSearcherTests.ItemPresentInArrayOfDuplicates` | Algorithms.Tests/Search/FastSearcherTests.cs:60-73 | Searching 1000 zeros for 0 returns an index below 1000 that holds 0. |
| `FastSearcherTests.ItemMissing` | Algorithms.Tests/Search/FastSearcherTests.cs:75-87 | The empty array with 2, and `[1,2,3]` with 4, give `NotFound`. |
| `FastSearcherTests.ItemMissingInArrayOfDuplicates` | Algorithms.Tests/Search/FastSearcherTests.cs:89-102 | Searching 1000 zeros for 1 gives `NotFound`. |
| `FastSearcherTests.ItemOutOfRange` | Algorithms.Tests/Search/FastSearcherTests.cs:104-119 | On a sorted array, a target below every element and a target above every element both give `NotFound`. |

## Left out

- `FastSearcher.FindIndex`: the product `(item - arr[low]) * (high - low)` may overflow if computed in 32-bit C# `int`. The model computes with unbounded integers. `InterpolationProbeExact` proves that, for a target between the end values, the raw estimate is already in range, so the clamp never changes it.
- `FastSearcher.FindIndex`: the probe order and the narrowing rule are this model's choice, not read from the implementation. They may differ from it in which index is returned among duplicates and in how many probes are taken. The contract promises only what the tests observe.
- `FastSearcher.FindIndex`: the contract does not say which occurrence is returned among duplicates. The tests check only `arr[index] == item`.
- `FastSearcher.FindIndex`: it is not stated that two calls with the same inputs give the same result. Stating it (for example by tying the result to a function of `a[..]` and `item`) would fix which duplicate index is returned, which the contract leaves open on purpose. The model has no hidden state, so nothing else can affect the outcome.
- Probe count and the constant-time handling of all-duplicate ranges are performance claims. The model proves termination, not complexity.
- `Helper.GetSortedArray`, `Helper.GetItemIn`, `Helper.GetItemSmallerThanAllIn` and `Helper.GetItemBiggerThanAllIn` are random test-data generators whose code is not part of this model. They become parameters: any sorted array, an index into it, and targets below or above every element.
- The NUnit and FluentAssertions harness (`[Test]`, `[TestCase]`, `Should()`) is left out. Each assertion becomes an `ensures` clause.
- The `ItemNotFoundException` type from `Utilities.Exceptions` is replaced by the `NotFound` result value.
- `FastSearcherTests.CreateArrayOfDuplicates`: `length` is a `nat`. The C# code would throw on a negative length, and no test passes one.
- Element types other than `int` are out of scope. The tests use only `int[]`.
