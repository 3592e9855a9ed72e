# Verified model of the dotnet_Core algorithm and system-design samples

This project models the parts of the repository that hold real logic, and
proves what they promise:

- the four system-design primitives of `systemDesign.cs`: the LRU cache
  (a dictionary plus a recency list), the sliding-window rate limiter (a
  queue of timestamps), the lock-guarded memory cache and the lazily created
  singleton logger;
- the array, string and matrix routines of `AlgorithmArry.cs`;
- the routines of `NEXT_LEVEL_ALGORITHMS.cs`: sliding window, Fibonacci,
  stair climbing, subset backtracking, greedy activity selection, the XOR
  single-number trick, and depth-first and breadth-first traversal;
- the fixed-window request counter of `RateLimitingMiddleware` in
  `apiTheory.cs`.

Routines that work step by step are Dafny methods with loops or recursion.
Each is proved against a specification function, and the properties of that
function are lemmas. Objects whose fields change (the LRU cache, the rate
limiter, the memory cache, the logger's static state, the middleware's
dictionary, the DFS `visited` set, the subset printer's shared list) are
classes whose methods state their whole new state. Arrays a routine changes
in place stay arrays. Arrays it only reads are sequences.

Modules, one per file: `Lru`, `SlidingLimiter`, `GuardedCache` and `Logging`
for `systemDesign.cs`; `ArrayBasics`, `SortedArrays`, `RotateRight`,
`ArrayScans`, `Strings`, `Matrix` and `XorTricks` for `AlgorithmArry.cs`;
`SlidingWindow`, `DynamicProgramming`, `Subsets`, `ActivitySelection`,
`XorTricks` and `Graphs` for `NEXT_LEVEL_ALGORITHMS.cs`; `FixedWindow` for
`apiTheory.cs`. `Wrappers` (an `Option` type), `Powers` (powers of two) and
`Sets` (a cardinality fact) are shared helpers.

The clocks (`DateTime.Now`, `DateTime.UtcNow`) are a `now` parameter. Console
output is the value a method returns or a sequence field it appends to. Locks
are left out: accesses are modelled one at a time.

## Model

| member | source | states |
|---|---|---|
| Lru.LruCache.constructor | systemDesign.cs:14-19 | a new cache of capacity at least 1 is empty and satisfies the representation invariant |
| Lru.LruCache.Get | systemDesign.cs:22-32 | returns the stored value or -1 and leaves the recency list as `AfterGet` says; the dictionary keeps indexing the list |
| Lru.LruCache.Put | systemDesign.cs:35-51 | leaves the recency list as `AfterPut` says (unlink an existing key, or drop the tail of a full cache, then insert at the head); the dictionary keeps indexing the list |
| Lru.MapMatchesList | systemDesign.cs:10-12 | the dictionary built from the list has exactly the list's keys and maps each to the entry `Lookup` finds |
| Lru.AfterGetKeys | systemDesign.cs:22-31 | `Get` keeps the key set, the size and the invariant (distinct keys, size at most capacity) |
| Lru.AfterPutKeys | systemDesign.cs:35-51 | `Put` keeps the invariant; an existing key keeps key set and size; a new key grows a non-full cache by one; a full cache loses exactly its least recently used key |
| Lru.GetSemantics | systemDesign.cs:24-31 | an absent key gives -1 and changes nothing; a present key moves to the head with its value, and the other entries keep their relative order |
| Lru.PutSemantics | systemDesign.cs:37-50 | after `Put` the key is at the head and reads back its new value; the other entries keep their order, and only a full cache given a new key loses its tail |
| Lru.PutOtherKeys | systemDesign.cs:41-46 | `Put` changes no other key's value, except that the evicted least recently used key now reads -1 |
| Lru.WithoutFacts | systemDesign.cs:28 | unlinking a key's node removes exactly that key, keeps the others and their values, and shortens the list by one when the key was there |
| Lru.DropLastFacts | systemDesign.cs:43-45 | removing the tail node removes exactly the least recently used key, from the dictionary too |
| Lru.RecentlyUsedSurvives | systemDesign.cs:27-29 | with capacity at least 2, a key just read by `Get` survives the next `Put` |
| Lru.StepKeepsInv | systemDesign.cs:22-51 | any `Get` or `Put` keeps the representation invariant |
| Lru.ReplaySize | systemDesign.cs:35-51 | after any interleaving of calls, the size is the smaller of the capacity and the number of distinct keys ever put |
| Lru.SizeFromEmpty | systemDesign.cs:154-159 | from an empty cache, the size is `min(capacity, distinct keys put)` |
| Lru.Scenario | systemDesign.cs:154-159 | capacity 2: `Put(1,10)`, `Put(2,20)`, `Get(1)` is 10, `Put(3,30)` evicts key 2, `Get(2)` is -1 |
| SlidingLimiter.RateLimiter.AllowRequest | systemDesign.cs:74-88 | drops stale timestamps from the front, then admits and enqueues `now` exactly when fewer than `limit` remain; the queue never exceeds the limit |
| SlidingLimiter.QueueBounded | systemDesign.cs:81-87 | the queue stays within `limit`; a rejected request leaves only the purged queue; an admitted one adds exactly one timestamp |
| SlidingLimiter.PurgeKeepsFresh | systemDesign.cs:78-79 | on a chronological queue the purge keeps exactly the timestamps at most `window` old, including one exactly `window` old |
| SlidingLimiter.AfterRequestInWindow | systemDesign.cs:76-87 | with a clock that never goes back the queue stays chronological and holds only timestamps of the last `window` |
| SlidingLimiter.Recovery | systemDesign.cs:78-86 | once the newest timestamp is more than `window` old the queue empties and the next request is admitted |
| SlidingLimiter.Scenario | systemDesign.cs:162-165 | limit 3 and a 5-second window: five quick requests give true, true, true, false, false |
| GuardedCache.MemoryCache.Set | systemDesign.cs:100-106 | stores the value under the key, replacing any earlier one; no other key changes |
| GuardedCache.MemoryCache.Get | systemDesign.cs:108-114 | returns the stored value, or `None` (null) for a key never set |
| GuardedCache.SetThenGet | systemDesign.cs:168-171 | `Set(k, v)` then `Get(k)` returns `v`; a key never set reads as null |
| GuardedCache.SetOverwrites | systemDesign.cs:100-106 | a second `Set` of a key overwrites the first; other keys keep their values |
| Logging.LoggerStatics.Instance | systemDesign.cs:130-139 | the first access constructs the logger; every later access returns the same object and constructs nothing |
| Logging.AccessTwice | systemDesign.cs:173-176 | two accesses from a fresh start see the same object, built once |
| FixedWindow.RecordSemantics | apiTheory.cs:180-187 | a new key gets `(now, 1)`; a window more than `TimeWindow` old restarts at `(now, 1)`; otherwise the anchor stays and the count grows by one; no other key changes |
| FixedWindow.RateLimitingMiddleware.InvokeAsync | apiTheory.cs:175-197 | records the request first, then answers 429 exactly when the key's updated count exceeds 5 |
| FixedWindow.TraceInsideWindow | apiTheory.cs:184-186 | inside one window every request counts, rejected ones included, and the anchor never moves |
| FixedWindow.BurstFromNewKey | apiTheory.cs:167-168 | a new key's burst within 10 seconds: the first five pass, the sixth and later are answered 429 |
| FixedWindow.AnchoredNotSliding | apiTheory.cs:184 | the window is fixed at its first request and the boundary is strict; one millisecond past it the count restarts |
| ArrayBasics.ReverseArray | AlgorithmArry.cs:66-79 | the array ends as the old array reversed |
| ArrayBasics.ReversedTwice | AlgorithmArry.cs:66-79 | reversing twice gives the array back |
| ArrayBasics.ReversedSameElements | AlgorithmArry.cs:66-79 | reversing keeps every element with its multiplicity |
| ArrayBasics.FindMaxMin | AlgorithmArry.cs:84-96 | `max` and `min` occur in the array and bound every element |
| ArrayBasics.LinearSearch | AlgorithmArry.cs:120-135 | the first index holding the target, or -1 exactly when it is absent |
| ArrayBasics.CheckIfArraySorted | AlgorithmArry.cs:247-259 | the neighbour comparison returns true exactly when the array is ascending |
| ArrayBasics.SumOfArray | AlgorithmArry.cs:262-271 | the running total equals the sum of the array |
| ArrayBasics.SliceSumSplit | AlgorithmArry.cs:262-271 | sums split at any point into the sums of the two parts |
| ArrayBasics.SecondLargestElement | AlgorithmArry.cs:274-291 | `largest` is the maximum; `second` is the greatest value strictly below it, or `int.MinValue` when there is none |
| SortedArrays.BubbleSort | AlgorithmArry.cs:101-115 | the array ends ascending and a permutation of the input |
| SortedArrays.BubblePass | AlgorithmArry.cs:107-111 | one inner pass carries the largest element of the unsorted prefix to its end and keeps the elements |
| SortedArrays.Swap | AlgorithmArry.cs:110 | the tuple swap exchanges the two cells and nothing else |
| SortedArrays.BinarySearch | AlgorithmArry.cs:140-162 | on an ascending array, an index holding the target, or -1 exactly when the target is absent |
| SortedArrays.MergeSortedArrays | AlgorithmArry.cs:167-182 | the new array holds `Merge(a, b)`: the two-pointer merge, ties taken from `b`, then the leftovers |
| SortedArrays.CopyLeftover | AlgorithmArry.cs:178-179 | a leftover loop copies the rest of one input to the next free slots and touches nothing else |
| SortedArrays.MergeCorrect | AlgorithmArry.cs:167-182 | the merge has length `a.Length + b.Length`, holds exactly the elements of both inputs, and is ascending when both are |
| SortedArrays.MergeSameElements | AlgorithmArry.cs:175-179 | the merge from any pair of positions holds exactly the remaining elements of both inputs |
| SortedArrays.MergeSorted | AlgorithmArry.cs:175-179 | merging two ascending inputs from any positions gives an ascending sequence |
| SortedArrays.RemoveDuplicates | AlgorithmArry.cs:187-200 | the prefix `a[..write]` is the array with runs of equal neighbours collapsed |
| SortedArrays.DedupOfSorted | AlgorithmArry.cs:187-200 | on an ascending array that prefix is strictly ascending and holds exactly the values that occur |
| RotateRight.ReverseAsWritten | AlgorithmArry.cs:217-221 | the helper exactly as written, as C# evaluates the deconstruction: a copy loop, stated step by step |
| RotateRight.ReverseAsWrittenCounterexample | AlgorithmArry.cs:205-221 | on the demo array the as-written helper does not reverse, and the rotation yields [4, 3, 3, 3, 3], not [4, 5, 1, 2, 3] |
| RotateRight.Reverse | AlgorithmArry.cs:217-221 | the intended helper reverses the segment `start..end` and leaves the rest |
| RotateRight.ThreeReversalsRotate | AlgorithmArry.cs:210-212 | reversing the whole, then the first `k`, then the rest, rotates right by `k` |
| RotateRight.RotatedRightMoves | AlgorithmArry.cs:205-215 | a right rotation by `k` moves each element `k` places right, wrapping around |
| RotateRight.RotateArrayRight | AlgorithmArry.cs:205-215 | with the intended helper the array is rotated right by `k % Length` |
| ArrayScans.FirstNonRepeating | AlgorithmArry.cs:226-242 | the first element occurring exactly once, or none exactly when no element occurs once |
| ArrayScans.CountIsMultiplicity | AlgorithmArry.cs:231-232 | the frequency count of a value is its multiplicity |
| ArrayScans.TwoSum | AlgorithmArry.cs:352-363 | true exactly when two distinct positions hold values summing to the target |
| ArrayScans.MoveZerosToEnd | AlgorithmArry.cs:314-327 | the array ends as its non-zero elements in order, followed by zeros |
| ArrayScans.NonZerosCounts | AlgorithmArry.cs:314-327 | the non-zero part holds no zero, keeps every non-zero value with its multiplicity and drops exactly the zeros |
| ArrayScans.NonZerosSameElements | AlgorithmArry.cs:314-327 | non-zero part followed by zeros is a permutation of the input |
| ArrayScans.MaxSubArraySum | AlgorithmArry.cs:334-345 | on a non-empty array, the greatest sum of a non-empty contiguous subarray, and some subarray reaches it |
| ArrayScans.FindPeakElement | AlgorithmArry.cs:456-464 | the value at the first interior position greater than both neighbours, or -1 exactly when there is none |
| ArrayScans.MajorityElement | AlgorithmArry.cs:470-481 | a value occurring in more than half the positions is the one returned |
| ArrayScans.MaxProfit | AlgorithmArry.cs:503-514 | the best single buy-then-sell profit, 0 when no trade gains, and some trade achieves it |
| Strings.LongestCommonPrefix | AlgorithmArry.cs:369-381 | empty for no strings; otherwise a prefix of every string, and every common prefix is a prefix of it |
| Strings.IsValidParentheses | AlgorithmArry.cs:387-406 | returns exactly `Valid(s)`: the stack scan never fails and ends empty |
| Strings.ScanAppend | AlgorithmArry.cs:391-404 | scanning a concatenation scans the first part, then the second from the stack it left |
| Strings.ValidConcat | AlgorithmArry.cs:387-406 | two accepted strings side by side are accepted |
| Strings.ValidWrap | AlgorithmArry.cs:387-406 | an accepted string wrapped in a matching bracket pair is accepted |
| Strings.ClosingFirstRejected | AlgorithmArry.cs:397 | a string starting with a non-opening character is rejected |
| Strings.RejectedExamples | AlgorithmArry.cs:397-405 | ")", "(]" and "((" are rejected |
| Strings.LetterPops | AlgorithmArry.cs:395-402 | any non-opening character pops, so "(a" is accepted |
| Strings.DemoValid | AlgorithmArry.cs:31 | the demo input "({[]})" is accepted |
| Strings.IsPalindrome | AlgorithmArry.cs:487-497 | true exactly when every mirrored pair of characters agrees |
| Matrix.RotateMatrix | AlgorithmArry.cs:412-426 | cell `(i, j)` of the leading square receives old cell `(n - 1 - j, i)`; other columns stay |
| Matrix.Transpose | AlgorithmArry.cs:416-419 | cell `(r, c)` of the leading square receives old cell `(c, r)` |
| Matrix.ReverseRows | AlgorithmArry.cs:421-425 | each row's first `n` cells are reversed |
| Matrix.Scenario | AlgorithmArry.cs:34-42 | the demo matrix 1..9 becomes 7 4 1 / 8 5 2 / 9 6 3 |
| XorTricks.XorSelf | AlgorithmArry.cs:444-448 | every value cancels itself |
| XorTricks.XorComm | AlgorithmArry.cs:444-448 | XOR is commutative |
| XorTricks.XorAssoc | AlgorithmArry.cs:444-448 | XOR is associative |
| XorTricks.XorWidth | AlgorithmArry.cs:444-448 | XOR of two `n`-bit patterns is an `n`-bit pattern |
| XorTricks.XorAllWidth | NEXT_LEVEL_ALGORITHMS.cs:185-188 | folding 32-bit patterns gives a 32-bit pattern, so the natural-number fold stays within C#'s `int` |
| XorTricks.XorPermutation | NEXT_LEVEL_ALGORITHMS.cs:185-188 | the fold depends only on the elements and their multiplicities |
| XorTricks.XorAllEven | NEXT_LEVEL_ALGORITHMS.cs:185-188 | when every value occurs an even number of times the fold is 0 |
| XorTricks.XorOddOneOut | NEXT_LEVEL_ALGORITHMS.cs:185-188 | when one value occurs an odd number of times and all others an even number, the fold is that value |
| XorTricks.MissingXorFinds | AlgorithmArry.cs:442-450 | when `nums` holds every value of `0..n` but one, each once, the routine returns the missing one |
| XorTricks.MissingDemo | AlgorithmArry.cs:46 | on the demo input [1, 2, 4, 5] the routine returns 6 |
| XorTricks.MissingDemoOutOfRange | AlgorithmArry.cs:46 | the demo input is not `0..4` with one value missing, so the answer 6 carries no meaning |
| XorTricks.FindMissingNumber | AlgorithmArry.cs:442-450 | returns the XOR of `0..n` and the elements, hence the missing value whenever exactly one is missing; for 32-bit elements the result is a 32-bit pattern |
| XorTricks.SingleNumber | NEXT_LEVEL_ALGORITHMS.cs:183-189 | returns the XOR of all elements, hence the odd one out when every other value is paired; for 32-bit elements the result is a 32-bit pattern |
| XorTricks.SingleDemo | NEXT_LEVEL_ALGORITHMS.cs:35 | in [4, 1, 2, 1, 2] every value but 4 is paired, and the fold is 4 |
| SlidingWindow.LongestUniqueSubstring | NEXT_LEVEL_ALGORITHMS.cs:70-84 | some repeat-free substring has length `maxLen`, and none is longer |
| SlidingWindow.RepeatWithinFour | NEXT_LEVEL_ALGORITHMS.cs:10 | every four consecutive characters of "abcabcbb" hold a repeat |
| SlidingWindow.Demo | NEXT_LEVEL_ALGORITHMS.cs:10 | the longest repeat-free substring of "abcabcbb" has length 3 |
| SlidingWindow.Scenario | NEXT_LEVEL_ALGORITHMS.cs:10 | `LongestUniqueSubstring("abcabcbb")` is 3 |
| DynamicProgramming.Fibonacci | NEXT_LEVEL_ALGORITHMS.cs:89-101 | `n` itself for `n <= 1`, otherwise F(n) with F(0) = 0, F(1) = 1 |
| DynamicProgramming.ClimbStairs | NEXT_LEVEL_ALGORITHMS.cs:106-118 | `n` itself for `n <= 2`, otherwise the number of climbs by steps of one or two |
| DynamicProgramming.WaysIsFib | NEXT_LEVEL_ALGORITHMS.cs:106-118 | the number of climbs of `n` stairs is F(n + 1) |
| DynamicProgramming.Demo | NEXT_LEVEL_ALGORITHMS.cs:14-17 | `Fibonacci(10)` is 55 and `ClimbStairs(5)` is 8 |
| Subsets.SubsetPrinter.Backtrack | NEXT_LEVEL_ALGORITHMS.cs:125-134 | prints exactly `Emissions(nums, index, current)` and restores `current` |
| Subsets.GenerateSubsets | NEXT_LEVEL_ALGORITHMS.cs:123-136 | the lines printed are `Emissions(nums, 0, [])` |
| Subsets.EmissionsCount | NEXT_LEVEL_ALGORITHMS.cs:125-134 | `Backtrack(k)` prints 2^(n - k) lines |
| Subsets.EmissionsSound | NEXT_LEVEL_ALGORITHMS.cs:125-134 | every line printed is `current` extended by a choice of later elements in index order |
| Subsets.EmissionsComplete | NEXT_LEVEL_ALGORITHMS.cs:125-134 | every choice of later elements in index order is printed |
| Subsets.EmissionsDistinct | NEXT_LEVEL_ALGORITHMS.cs:125-134 | with distinct values, no line is printed twice |
| Subsets.GenerateSubsetsCorrect | NEXT_LEVEL_ALGORITHMS.cs:123-136 | 2^n lines; each is an index-ordered choice of elements; every such choice appears; with distinct values each appears once |
| Subsets.DemoAll | NEXT_LEVEL_ALGORITHMS.cs:21 | for [1, 2, 3] the lines are [], [1], [1,2], [1,2,3], [1,3], [2], [2,3], [3] |
| Subsets.Scenario | NEXT_LEVEL_ALGORITHMS.cs:21 | `GenerateSubsets([1, 2, 3])` prints those eight lines |
| ActivitySelection.ActivitySelection | NEXT_LEVEL_ALGORITHMS.cs:164-178 | the count is the number of greedy picks: the first activity, then each one starting no earlier than the last pick ends |
| ActivitySelection.PicksCompatible | NEXT_LEVEL_ALGORITHMS.cs:169-176 | the greedy picks are a compatible selection, in increasing order |
| ActivitySelection.PicksDominate | NEXT_LEVEL_ALGORITHMS.cs:169-176 | with ends ascending, the picks among the first `i` outnumber any compatible selection, or match it and end no later |
| ActivitySelection.PicksOptimal | NEXT_LEVEL_ALGORITHMS.cs:164-178 | with ends ascending, no compatible selection has more activities than the greedy count |
| ActivitySelection.Scenario | NEXT_LEVEL_ALGORITHMS.cs:29-31 | the demo's six activities give 4 |
| Graphs.DepthFirst.Dfs | NEXT_LEVEL_ALGORITHMS.cs:237-244 | a visited node changes nothing; otherwise it is written first, every node newly visited is reachable from it, written once, and has all its neighbours visited |
| Graphs.DfsFrom | NEXT_LEVEL_ALGORITHMS.cs:237-244 | from a fresh `visited` set, the nodes written are exactly those reachable from the start, once each, start first |
| Graphs.Bfs | NEXT_LEVEL_ALGORITHMS.cs:249-270 | the nodes written are exactly those reachable from the start, once each, start first |
| Graphs.ClosedHoldsReachable | NEXT_LEVEL_ALGORITHMS.cs:242-243 | a set holding the start and closed under neighbours holds every node reachable from it |
| Graphs.DemoReachable | NEXT_LEVEL_ALGORITHMS.cs:51-57 | from node 0 of the demo graph exactly nodes 0 to 3 are reachable |
| Graphs.Scenario | NEXT_LEVEL_ALGORITHMS.cs:58-62 | both traversals from node 0 of the demo graph write nodes 0 to 3 once each, 0 first |

## Left out

- Locks (`lock` in `MemoryCache` and `Logger`), the `ConcurrentDictionary` atomicity of the middleware, and the re-read of `_requests[key]` after the update: calls are modelled one at a time.
- Console output, `Logger.Log`, `PrintMatrix`, the `Main` drivers and the HTTP response write and `_next` call: the drivers' inputs and expected outputs are the `Scenario` and demo members.
- Clocks: `DateTime.Now` and `DateTime.UtcNow` are a `now` parameter in whole milliseconds. `DateTime` counts 100-nanosecond ticks, so time finer than a millisecond is not modelled: in `FixedWindow.AnchoredNotSliding`, one millisecond past the boundary is the smallest step the model can express, while in the source a request half a millisecond past it also restarts the window. A clock that goes back is not modelled.
- Lru.LruCache.Put: the linked list is a sequence of entries and the dictionary maps a key to the entry of its node. Node identity and O(1) unlinking are not modelled.
- Lru.LruCache.constructor: requires a capacity of at least 1. With capacity 0 the first `Put` of a new key finds the cache full, `list.Last` is null, and the source throws `NullReferenceException`. With a negative capacity `map.Count == capacity` never holds, so the source never evicts and the cache grows without bound. The model covers neither.
- 32-bit overflow: `SumOfArray`, `MaxSubArraySum`, `TwoSum`'s `target - num`, `MaxProfit`'s `price - minPrice`, `Fibonacci` and `ClimbStairs` are computed on unbounded integers. Their results agree with the source only while the source does not overflow.
- XorTricks.FindMissingNumber and XorTricks.SingleNumber: elements are the natural numbers their 32-bit patterns spell, so a negative `int` stands for its pattern plus 2^32.
- Strings.LongestCommonPrefix: `StartsWith` is an ordinal prefix test. The culture-sensitive comparison C# uses by default is not modelled.
- The duplicates in `NEXT_LEVEL_ALGORITHMS.cs` of `IsValidParentheses`, `TwoSum`, `MaxSubArraySum` and `MaxProfit` are the same code as in `AlgorithmArry.cs` and are modelled once. `PairWithGivenSum` is the `TwoSum` loop on a fixed array and is modelled by `ArrayScans.TwoSum`.
- Graphs.DepthFirst.Dfs and Graphs.Bfs: they require every listed neighbour to be a key of the graph. A missing key throws `KeyNotFoundException` in the source, and that error path is not modelled. The exact visiting order is not stated beyond "start first, each reachable node once".
- ActivitySelection.PicksOptimal: optimality is proved for activities listed by ascending end time, which the greedy loop assumes.
- ActivitySelection.ActivitySelection: requires at least one end time and an end time for every start time. The source reads `end[i]` only for an activity it picks, so an input with fewer end times than start times can still succeed (start [0, 0] and end [5] give 1). It throws `IndexOutOfRangeException` only when it picks an activity with no end time. Inputs with fewer end times are not modelled.
- Strings.IsValidParentheses, Strings.IsPalindrome, Strings.LongestCommonPrefix, SlidingWindow.LongestUniqueSubstring: a string is a sequence of Unicode characters. C# indexes and iterates a string by UTF-16 code unit, so a character outside the Basic Multilingual Plane (an emoji, say) is two elements in the source and one here. For example, `IsValidParentheses("((😀")` is true in the source, where each surrogate pops an opener, and false in the model. Such strings are not modelled.
- GuardedCache.MemoryCache.Set and GuardedCache.MemoryCache.Get: keys and values are non-null strings. In the source `Set(k, null)` stores null, which `Get(k)` cannot tell apart from a key never set, and a null key throws `ArgumentNullException`. Neither is modelled.
- ArrayBasics.FindMaxMin: requires a non-empty array. On an empty array the source's `arr[0]` throws `IndexOutOfRangeException`.
- ArrayScans.MaxSubArraySum: requires a non-empty array. On an empty array the source's `nums[0]` throws `IndexOutOfRangeException`.
- SortedArrays.RemoveDuplicates: requires a non-empty array. On an empty array the source's final `arr[..1]` throws `ArgumentOutOfRangeException`.
- RotateRight.RotateArrayRight: requires a non-empty array. On an empty array the source's `k % arr.Length` throws `DivideByZeroException`.
- Matrix.RotateMatrix: requires at least as many columns as rows. With fewer columns the source's transpose throws `IndexOutOfRangeException`.
- Matrix.Transpose: requires at least as many columns as rows. With fewer columns the source's `matrix[i, j]` throws `IndexOutOfRangeException`.
- Matrix.ReverseRows: requires at least as many columns as rows. With fewer columns the source's `matrix[i, n - j - 1]` can index past the last column and throw `IndexOutOfRangeException`.
- FixedWindow.RateLimitingMiddleware: the source's `_requests` is static and shared by every middleware instance. Here it is a field of one object, so the model covers a single middleware instance, not two sharing one dictionary.
- SortedArrays.BinarySearch: requires an ascending array. On unsorted input the source's answer is not specified.
- Helper methods: BubbleSort's inner loop is `SortedArrays.BubblePass`, the tuple swap is `SortedArrays.Swap`, the merge's leftover loops are `SortedArrays.CopyLeftover`, and RotateMatrix's two phases are `Matrix.Transpose` and `Matrix.ReverseRows`. Each keeps the source's loop.

## Findings

| source | as written | input that shows it | evidently intended | confidence | as-written member | corrected member |
|---|---|---|---|---|---|---|
| AlgorithmArry.cs:220 | `(arr[start++], arr[end--]) = (arr[end], arr[start])` evaluates both targets, with the increments, before reading the right-hand side, so it stores the old `arr[end - 1]` at `start` and the old `arr[start + 1]` at `end` | `Reverse([1, 2, 3, 4, 5], 0, 4)` gives [4, 3, 3, 3, 2], and `RotateArrayRight` by 2 gives [4, 3, 3, 3, 3] | swap `arr[start]` and `arr[end]`, then move both inwards, so that the rotation gives [4, 5, 1, 2, 3] | not executed | RotateRight.ReverseAsWritten, RotateRight.ReverseAsWrittenCounterexample | RotateRight.Reverse, RotateRight.RotateArrayRight |
