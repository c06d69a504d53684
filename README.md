# Perfect-hash set and merge sort, modelled in Dafny

This project models two independent algorithms.

**A two-level static perfect-hash set** (`perfect_hashing/main.cpp`).
- Keys are routed by a linear hash `(coeff * key + intercept) mod (2^31 - 1)`.
- A top-level `FixedSet` sends each key to one of `n` buckets, where `n` is the number of keys.
- Each `Bucket` stores its `m` keys in `m * m` optional cells. It draws its own hash and retries until that hash has no collisions on its keys.
- Both levels search by generate-and-test. A candidate is accepted when the sum of squared per-slot counts is at most a threshold.

**A merge sort on `int` arrays** (`merge_sort/main.cpp`).
- Ranges below ten elements go to a selection sort, which the source calls `InsertionSort`.
- Longer ranges are halved and sorted recursively. The halves are merged into a shared scratch buffer, then moved back.

The modules are:

- `Optionals`: the `Option` type. It models the source's `optional<int>` cells and the outcome of a bounded hash search.
- `HashFunctions`:
  - `Mod`, `LinearHash`, `Apply` (the hash's call operator), `Slot` (`Mod(hash(key), n)`);
  - the counters `Tally` and `CalculateCollisions`, and `SquaredSizesSum`;
  - the acceptance test `Acceptable` and the search `GenerateHashFunction`;
  - the lemmas that make the acceptance test meaningful.
- `PerfectHashSet`: the classes `Bucket` and `FixedSet`, whose `Initialize` methods update their fields in place, and `GetQueryAnswers`.
- `MergeSorting`:
  - `MinElement` (the source's `std::min_element`), `InsertionSort`, `Move` (its `std::move` over a range), `Merge`, `MergeSort` and `Sort`, on `array<int>`;
  - the specification function `Merged` and the lemmas about it.

Randomness is an input. The generator becomes a finite sequence of candidate hashes `draws`, each within the ranges `GenarateRandomHash` can produce, together with a position in it.
- A search reads the draws from position `start` on. It returns the first acceptable one and `next`, the position one past it, which is where the next search starts.
- It returns `None` when the candidates run out. That is the model's construction failure; the source would keep drawing.
- The ghost functions `FirstAccepted`, `BucketDraws`, `BucketsDraws` and `ConstructionDraws` give the draw position after each stage as a function of the draws alone. The methods are proved to succeed exactly when that position exists, and to stop at it.
- `kMaxSizeRatio` is the module constant `MaxSizeRatio`.

**Two behaviours of the code that the model keeps as written:**
- `Mod` of a negative multiple of `rhs` returns `rhs`, not 0. So a hash value lies in `[0, p]`, and the value p itself is reachable: key -2 under coeff p - 1 and intercept p - 2 hashes to p.
- `FixedSet::Contains` on an empty set reduces modulo 0, which divides by zero in the source. `FixedSet.Contains` therefore requires a non-empty set. `GetQueryAnswers` requires an empty query list for an empty key list.

## Model

| member | source | states |
|---|---|---|
| HashFunctions.Mod | perfect_hashing/main.cpp:183-188 | the result is congruent to lhs modulo rhs; it is in [0, rhs) for lhs >= 0 and in [1, rhs] for lhs < 0; it equals rhs exactly when lhs is a negative multiple of rhs |
| HashFunctions.DefaultHash | perfect_hashing/main.cpp:22 | the default-constructed hash has modulus p, maps every key in [0, p) to itself, and is not a possible random draw (its intercept is 0) |
| HashFunctions.IsRandomDraw | perfect_hashing/main.cpp:44-45 | a drawn hash has coeff in [0, p - 1], intercept in [1, p - 1] and modulus p, all of which fit the source's 32-bit int fields |
| HashFunctions.Apply | perfect_hashing/main.cpp:37-39 | the hash value lies in [0, modulus] and is congruent to key * coeff + intercept modulo the modulus |
| HashFunctions.NoInt64Overflow | perfect_hashing/main.cpp:38 | for a 32-bit key and a drawn hash (coeff in [0, p - 1], intercept in [1, p - 1], as lines 44-45 draw them), the 64-bit affine value cannot overflow |
| HashFunctions.Slot | perfect_hashing/main.cpp:133-134 | Mod(hash(key), n) lies in [0, n) and equals the hash value modulo n |
| HashFunctions.Group | perfect_hashing/main.cpp:132-136 | the list of keys routed to slot i holds exactly the keys of the input whose slot is i |
| HashFunctions.Tally | perfect_hashing/main.cpp:196-200 | len counters, each between 0 and the number of keys, counter i being the size of the group of slot i; every counter at index n or beyond is 0 |
| HashFunctions.SquaredSizesSum | perfect_hashing/main.cpp:190-192 | the inner product of the counters with themselves is never negative, and is 0 exactly when every counter is 0 |
| HashFunctions.Acceptable | perfect_hashing/main.cpp:86-88 | the exit test of the retry loop, the sum of squared counts at most n * levelMultiplier; an empty key list always passes, and a passing test implies a non-negative threshold |
| HashFunctions.CalculateCollisions | perfect_hashing/main.cpp:194-202 | returns n * sizeMultiplier counters, counter i being the number of keys whose slot modulo n is i; the counters sum to n, and every counter at index n or beyond is 0 |
| HashFunctions.SumOfTally | perfect_hashing/main.cpp:196-200 | however many counters there are (at least n), they add up to the number of keys |
| HashFunctions.SquaresAtLeastSum | perfect_hashing/main.cpp:190-192 | for non-negative counters the sum of squares is at least the sum, with equality exactly when no counter exceeds 1 |
| HashFunctions.GenerateHashFunction | perfect_hashing/main.cpp:79-90 | reading the draws from position start, returns the first draw whose squared counts sum to at most n * levelMultiplier and next, the position one past it; every draw from start up to it fails that test; None means every draw from start on failed, and next is then the end of the draws; the outcome is FirstAccepted of the verdicts from start |
| HashFunctions.VerdictsAt | perfect_hashing/main.cpp:86-88 | verdict k is the outcome of the loop's exit test on draw k |
| HashFunctions.FirstAcceptedMeaning | perfect_hashing/main.cpp:84-88 | the do-while search stops one past an accepted verdict, every verdict it passes over is a rejection, and when it finds none every verdict from the start on is a rejection |
| HashFunctions.FirstAcceptedUnique | perfect_hashing/main.cpp:84-88 | conversely, any position with those properties is the search's result, so they characterise it |
| HashFunctions.SearchMeaning | perfect_hashing/main.cpp:84-88 | the search over the draws from position from stops just after a draw passing the exit test, every draw it skips fails the test, and a None outcome means every draw from there on fails |
| HashFunctions.BucketCounters | perfect_hashing/main.cpp:97-98 | with m * m counters for m keys only the first m can be non-zero, so the sum of squares is the same as with m counters, and those m counters sum to m |
| HashFunctions.BucketAcceptance | perfect_hashing/main.cpp:86-88 | the bucket-level test (threshold m, m * m counters) passes if and only if the hash modulo m gives distinct slots to all m positions of the list |
| HashFunctions.InjectiveSmallGroups | perfect_hashing/main.cpp:198-199 | under a hash that is injective modulo n, each counter is at most 1 |
| HashFunctions.SharedSlotGroup | perfect_hashing/main.cpp:198-199 | two positions with the same slot make that slot's counter at least 2 |
| HashFunctions.InjectiveModSquare | perfect_hashing/main.cpp:104-107 | a hash injective modulo m is injective modulo m * m, the cell count FillBucket reduces by |
| HashFunctions.InjectiveNoDuplicates | perfect_hashing/main.cpp:97-98 | a list that a hash sends to pairwise distinct slots has no repeated key |
| HashFunctions.GroupMultiplicity | perfect_hashing/main.cpp:132-136 | each key occurs in the list of its own slot exactly as often as in the input, and in no other list, so the lists partition the input |
| HashFunctions.DuplicatesNeverAccepted | perfect_hashing/main.cpp:84-88 | a bucket list with a repeated key fails the bucket-level test under every hash, so the retry loop never exits on it |
| HashFunctions.CongruentKeysCollide | perfect_hashing/main.cpp:37-38 | two non-negative keys congruent modulo p get the same hash value from every drawn hash |
| HashFunctions.CongruentKeysNeverAccepted | perfect_hashing/main.cpp:84-88 | a bucket list holding two non-negative keys congruent modulo p (0 and 2147483647, say) fails the bucket-level test under every drawn hash |
| PerfectHashSet.Bucket.constructor | perfect_hashing/main.cpp:64 | a new bucket is valid, has no keys and no cells, and carries the default hash |
| PerfectHashSet.Bucket.FillBucket | perfect_hashing/main.cpp:103-109 | fills m * m cells; every occupied cell holds a key whose own cell it is (whatever the hash); if the hash is injective modulo m * m, every key sits in its cell |
| PerfectHashSet.Bucket.Initialize | perfect_hashing/main.cpp:92-101 | an empty list leaves the bucket empty and draws nothing; otherwise on success the bucket holds exactly the list, in cells filled under an injective hash, and the list has no duplicates; on failure the bucket stays empty and every draw from start on failed the bucket-level test; it succeeds exactly when BucketDraws from start is Some, and next is that position |
| PerfectHashSet.Bucket.Contains | perfect_hashing/main.cpp:111-118 | answers true if and only if the key is among the bucket's keys (an empty bucket answers false) |
| PerfectHashSet.FixedSet.constructor | perfect_hashing/main.cpp:51 | a new set is valid, has no elements and no buckets, and carries the default hash |
| PerfectHashSet.FixedSet.Initialize | perfect_hashing/main.cpp:120-128 | on success the set holds exactly the input, which has no duplicates; each bucket i is valid and holds the keys routed to i; the total number of cells is at most kMaxSizeRatio * n = 2n; it succeeds exactly when ConstructionDraws is Some, and used is then that position; on failure the set is left empty and every draw has been used |
| PerfectHashSet.NewBuckets | perfect_hashing/main.cpp:124 | resizing the empty bucket vector to n yields n distinct, freshly default-constructed, valid and empty buckets |
| PerfectHashSet.FixedSet.InitializeBuckets | perfect_hashing/main.cpp:123-127 | after the top-level hash is chosen, groups the keys, builds n buckets and initialises them from position start; on success the set holds exactly the input, which has no duplicates, and is valid; on failure the set is left empty; it succeeds exactly when BucketsDraws over the groups of the hash is Some, and next is that position |
| PerfectHashSet.ConstructionAfterTopLevel | perfect_hashing/main.cpp:120-127 | once the top-level search stops at position t, the whole construction's draw position is the bucket loop's, run on the groups of draw t - 1 from position t |
| PerfectHashSet.BuildBuckets | perfect_hashing/main.cpp:124-127 | initialises bucket i from list i for every i, each starting where the previous one stopped; on success each bucket holds its list and no list has duplicates; it succeeds exactly when BucketsDraws from start is Some, and next is that position; on failure next is the end of the draws |
| PerfectHashSet.BuildStep | perfect_hashing/main.cpp:125-127 | one iteration of the bucket loop: on success bucket index holds its list, the other buckets keep theirs, and the remaining draw position is carried to the next index; on failure the whole loop's BucketsDraws is None |
| PerfectHashSet.CellsWithinBound | perfect_hashing/main.cpp:122-127 | buckets built from the lists of a top-level hash that passed the test with multiplier kMaxSizeRatio have at most 2n cells in total |
| PerfectHashSet.TotalCellsOfSquares | perfect_hashing/main.cpp:104 | the total cell count of buckets of sizes t is the sum of squares of t |
| PerfectHashSet.GroupsWithoutDuplicates | perfect_hashing/main.cpp:123-126 | if no bucket list repeats a key, neither does the input |
| PerfectHashSet.FixedSet.GroupToBuckets | perfect_hashing/main.cpp:130-138 | returns n lists; list i is the input's keys with slot i, in input order |
| PerfectHashSet.GroupsPartition | perfect_hashing/main.cpp:130-138 | the n lists are a partition of the input: each key occurs in the list of its own slot as often as in the input, and in no other list |
| PerfectHashSet.FixedSet.Contains | perfect_hashing/main.cpp:140-144 | answers true if and only if the key is one of the set's elements: no false positives and no false negatives |
| PerfectHashSet.FixedSet.AnswerQueries | perfect_hashing/main.cpp:160-165 | one answer per query, in order, and answer i is whether query i is among the set's elements |
| PerfectHashSet.GetQueryAnswers | perfect_hashing/main.cpp:156-166 | on success, one answer per query, in order, and answer i is whether query i is among the numbers, which have no duplicates; it succeeds exactly when ConstructionDraws is Some, and used is that position; on failure it gives no answers and every draw has been used |
| MergeSorting.MinElement | merge_sort/main.cpp:23 | returns the first position of a least element of the range |
| MergeSorting.InsertionSort | merge_sort/main.cpp:20-27 | the range becomes a sorted permutation of what it held, and nothing outside it changes |
| MergeSorting.SelectionStep | merge_sort/main.cpp:22-26 | swapping a least remaining element to the front extends the sorted prefix, which is also at most every remaining element |
| MergeSorting.SwapInRange | merge_sort/main.cpp:24 | exchanging two positions inside a range keeps the multiset of the range and everything outside it |
| MergeSorting.Merged | merge_sort/main.cpp:35-45 | the merge of two ranges has their combined length |
| MergeSorting.MergedPermutation | merge_sort/main.cpp:35-45 | the merge is a permutation of the two inputs together |
| MergeSorting.MergedSorted | merge_sort/main.cpp:35-45 | the merge of two sorted ranges is sorted |
| MergeSorting.MergedBounded | merge_sort/main.cpp:36-41 | a lower bound of both inputs bounds every element of the merge |
| MergeSorting.LeftExhausted | merge_sort/main.cpp:45 | once the left range is used up, what remains of the merge is the rest of the right range, unchanged |
| MergeSorting.Move | merge_sort/main.cpp:45 | copies src[first..last] to dst from dFirst, returns dFirst + (last - first), and leaves the rest of dst unchanged |
| MergeSorting.MergeHeads | merge_sort/main.cpp:35-44 | the while loop: it ends with the left range used up, and what it wrote to out from result on, followed by the merge of what is left of the right range, is the merge of both inputs |
| MergeSorting.MergeStep | merge_sort/main.cpp:36-43 | one loop iteration writes one element and advances one of the ranges, keeping that merge invariant and decreasing the elements left |
| MergeSorting.Take | merge_sort/main.cpp:36-42 | taking the left head when the right range is empty or the left head is smaller, and the right head otherwise, keeps the invariant |
| MergeSorting.Merge | merge_sort/main.cpp:29-46 | writes exactly (leftEnd - left) + (rightEnd - right) elements, returns result advanced by that count, and the written range is the merge of the two inputs (right element first on ties) |
| MergeSorting.MergeSort | merge_sort/main.cpp:48-60 | the range becomes a sorted permutation of what it held and nothing outside it changes; the recursion on the halves terminates |
| MergeSorting.MergeSortStep | merge_sort/main.cpp:55-59 | sorting both halves and merging them sorts the range |
| MergeSorting.Sort | merge_sort/main.cpp:62-67 | with a buffer of exactly hi - lo elements, the range becomes a sorted permutation of its input and nothing outside it changes |

## Left out

- Stream input and output are left out: `ReadData`, `PrintAnswers`, `PrintAnswer` and both `main` functions.
- Randomness is replaced by a supplied finite list of candidate hashes, each in the ranges `GenarateRandomHash` draws from. This covers the Mersenne-twister generator seeded with the clock and the uniform distributions. Expected numbers of trials and expected running times are probabilistic arguments the model does not make.
- HashFunctions.GenerateHashFunction: the source loops until a draw is accepted and has no failure path. The model stops when the supplied draws run out and reports `None`, so termination is bounded by the length of the list.
- Machine-integer widths are not modelled, for three reasons:
  - `CalculateSquaredSizesSum` accumulates in `int`, and the acceptance threshold is an `int` product. Both could overflow for very large inputs; the model uses unbounded integers for both.
  - `static_cast<int>` of `m * m` for the cell count is not modelled.
  - `NoInt64Overflow` states only that the 64-bit affine value cannot overflow.
- PerfectHashSet.Bucket.Initialize: it requires a freshly constructed bucket. Re-initialising a used bucket in the source resizes the cell vector and can keep stale cells; the model does not cover that case.
- PerfectHashSet.FixedSet.Initialize: it likewise requires a freshly constructed set.
- PerfectHashSet.GetQueryAnswers: it requires a non-empty key list unless there are no queries, because the source's `FixedSet::Contains` divides by zero on an empty set.
- PerfectHashSet.FixedSet.Contains: it requires a non-empty set, because the source reduces modulo the bucket count, which is 0 for an empty set.
- The merge-sort templates are specialised. Iterators become index ranges over one `int` array (plus the scratch buffer), the comparator becomes `<`, and `std::move` of an `int` becomes a copy.
- MergeSorting.Merge: it does not state that `out` outside `[result, resultEnd)` keeps its contents. The sort's correctness does not depend on it.
- MergeSorting.MergeSort: it does not state that the buffer beyond `hi - lo` is untouched; the buffer is scratch space whose final contents the source does not promise.
- Merge's tie rule (the right element goes first) appears in the definition of `Merged`. With plain `int` values equal elements cannot be told apart, so no separate stability lemma is stated.
