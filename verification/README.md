# PipeSort in Dafny

This project models the core of PipeSort, a library of sorts for fixed-width unsigned integer keys. A key is a tuple of 64-bit words, most significant word first. The model proves what each sort promises: sorted output, a permutation of the input, partition invariants, stability where the sort is stable, and recursion-depth bounds. It covers three families.

- **Generic N-word bit-partition sort.** `psort_u` in C, and `pipe_sort` in the C++ port. It finds the highest set bit over all keys and partitions in place on one bit at a time, working downward. It skips a bit that every key in the range shares, and sends ranges of at most 16 keys to a non-stable insertion sort. Modules `WideSort`, `PsortU` and `UniversalCpp`. `WideSort` holds the helpers the two versions share: the highest-set-bit position (`psort_msb_pos_u64` / `msb_pos`), `get_max_bit`, the `>=` comparison (`psort_ge_key` / `greater_or_equal`), the key swap, the insertion sort and the bit-skip scan. `PsortU` is the C recursion. `UniversalCpp` is the C++ recursion, whose partition loop has no guard on `right`.
- **Fixed 128-bit sort.** `pipe_sort_u128`. Each round ORs `a[i] ^ a[0]` over the range and stops if the result is zero. Otherwise it partitions on the highest set bit of that OR, recurses on the smaller side and loops on the larger. Ranges of at most 48 keys go to a stable insertion sort. Modules `U128Key` (`u128_cmp`) and `PipeSortU128`. The C and C++ versions differ only in parameter passing and the return type of `u128_is_sorted` (see Left out), so one model serves both.
- **MSD radix-8 index sorts** for 256-bit and 512-bit keys. They never move keys; they only permute an index array. Each pass builds a histogram of a 3-bit digit, takes exclusive prefix sums, does a stable scatter into `tmp` and copies back. It then recurses into each bucket at `startbit - 3`. A pass with one non-empty bucket skips to the next digit. Ranges of at most 96 indexes, or `startbit < 0`, go to a stable insertion sort on full keys.
  - `RadixDigit`, `RadixBuckets`, `RadixRec`, `Radix8` and `RadixOrder` model one recursion, parameterised by key width and by a digit rule.
  - `U256Index` and `U512Index` instantiate it with 4 and 8 words.
  - `RadixFindings` holds the counterexample described under Findings.

Shared modules:
- `Bits`: words as naturals below 2^64, with `Bit(x, k) = (x / 2^k) % 2`, shifts, OR/XOR and the position of the highest set bit.
- `Keys`: the numeric value of a key, and the fact that word-by-word lexicographic order is numeric order.
- `Ordering`: a functional insertion sort that is strict (stable) or non-strict, plus sortedness, permutation and the `Tied` subsequence that defines stability.

Arrays are immutable sequences: each in-place method returns the new contents. The insertion sorts, the entries `PsortU.PsortU`, `UniversalCpp.SortCpp` and `PipeSortU128.PipeSortU128`, and the radix entry `RadixOrder.PipeSortIndexRadix8` are proved equal to a pure reference, either the functional insertion sort or the recursion `RadixRec.Rec`, and that reference's properties are proved separately. The inner recursions `PsortU.PipeSortU` and `UniversalCpp.PipeSortCpp` are specified directly: a permutation, sorted when the keys agree above the starting bit. The index entries of `U256Index` and `U512Index` state a stable permutation and when it is sorted.

## Model

| member | source | states |
|---|---|---|
| WideSort.MsbPosU64 | src/psort_u.c:8-17 | The result is -1 exactly when the word is 0; otherwise it is p in 0..63 with bit p set and x < 2^(p+1). |
| Bits.MsbPosUnique | universal_cpp/pipe_sort.cpp:23-25 | The highest-set-bit position is unique: any m with 2^m <= x < 2^(m+1) is it. |
| WideSort.KeyMsb | src/psort_u.c:21-30 | Scanning a key's words from the most significant one gives the global position of its highest set bit (-1 for the zero key), which is below 64·limbs. |
| WideSort.GetMaxBit | src/psort_u.c:19-33 | The result is at least every key's highest set bit and is attained by some key, or it is -1. |
| WideSort.MaxBitFacts | universal_cpp/pipe_sort.cpp:7-20 | Every key is below 2^(max_bit+1), and max_bit is -1 exactly when every key is zero. |
| WideSort.MaxBitAgree | src/psort_u.c:124-126 | When every key is below 2^(max_bit+1), all keys agree on every bit above max_bit, which is the invariant the recursive sort starts from. |
| WideSort.GeKey | src/psort_u.c:35-42 | The word-by-word comparison answers true exactly when the first key's value is at least the second's; equal keys answer true. |
| Keys.LexLessValue | universal_cpp/pipe_sort.cpp:28-34 | Lexicographic order on equal-length word tuples, most significant word first, is the numeric order of their values. |
| WideSort.SwapKeys | src/psort_u.c:44-50 | Swapping limb by limb exchanges exactly keys i and j; every other key is unchanged. |
| WideSort.InsertKey | src/psort_u.c:57-66 | One outer step inserts key i into the first i keys, shifting while the earlier key is >= it, and leaves the rest untouched. |
| WideSort.InsertionSortWide | src/psort_u.c:52-70 | The insertion sort on >= gives the functional insertion sort's result, which is a sorted permutation of the range. |
| Ordering.NonStrictSwapsTies | universal_cpp/pipe_sort.cpp:37-47 | Shifting on >= is not stable: two items of equal rank, sorted on their own, come out swapped. |
| WideSort.NonStrictIsStrict | src/psort_u.c:60 | On numeric keys, shifting on >= and shifting on > give the same result, because keys of equal value are equal. |
| WideSort.AllSameBit | src/psort_u.c:84-90 | The scan reports the bit uniform exactly when every key has the first key's value there; otherwise keys with the bit clear and with it set both exist. |
| WideSort.AgreeStep | src/psort_u.c:91-94 | After a uniform bit, the keys agree on every bit from that bit upward, so the skip keeps the sort's invariant. |
| WideSort.ReadBit | src/psort_u.c:81-85 | Reading limb `limbs - 1 - bit/64` shifted by `bit % 64` and masked with 1 gives bit `bit` of the key's numeric value. The skip scan and both partition loops read this bit as `Keys.KeyBit`. |
| WideSort.SwapMisplaced | src/psort_u.c:111-114 | Swapping a set key at `left` with a clear key at `right` permutes the range and grows the clear prefix and the set suffix by one each. |
| WideSort.SplitBounds | src/psort_u.c:96-115 | After the partition, some clear key forces left > 0 and some set key forces left < n. |
| WideSort.Assemble | src/psort_u.c:117-118 | The two sorted parts together are a permutation of the range, and they are sorted when the range agreed above the partition bit. |
| WideSort.SplitAgree | universal_cpp/pipe_sort.cpp:89-90 | Both parts of a split on `bit` agree above `bit - 1`, as the recursive calls require. |
| WideSort.TrivialSorted | src/psort_u.c:123-125 | At most one key, zero-word keys, or all-zero keys are already sorted, so the early returns are correct. |
| WideSort.MatchesReference | universal_cpp/main.cpp:67-77 | A sorted permutation of numeric keys is the unique sorted arrangement, so it equals the reference sort's output. |
| PsortU.PartitionC | src/psort_u.c:96-115 | The guarded two-cursor loop permutes the range into a bit-clear prefix and a bit-set suffix; the prefix is non-empty if a clear key exists and the suffix if a set key exists. |
| PsortU.PipeSortU | src/psort_u.c:72-119 | The result is a permutation; at most one key or `bit < 0` returns the range unchanged; keys that agree above `bit` come out sorted. |
| PsortU.PartitionAndSort | src/psort_u.c:96-118 | Partitioning then sorting both parts from `bit - 1` gives a permutation that is sorted when the keys agree above `bit`. |
| PsortU.PsortU | src/psort_u.c:122-127 | The entry returns the sorted permutation, equal to the reference sort, and returns the input itself for n <= 1, zero limbs or all-zero keys. |
| UniversalCpp.PartitionCpp | universal_cpp/pipe_sort.cpp:73-87 | Given a non-uniform bit, the unguarded loop never steps `right` below 0, and it ends with 0 < left < n, a clear prefix, a set suffix and a permutation. |
| UniversalCpp.PipeSortCpp | universal_cpp/pipe_sort.cpp:50-91 | A permutation; n <= 1 or `bit < 0` leaves the range untouched; keys that agree above `bit` come out sorted. |
| UniversalCpp.PartitionAndSortCpp | universal_cpp/pipe_sort.cpp:73-90 | With both bit values present, partitioning and sorting both halves gives a permutation, sorted when the keys agree above `bit`. |
| UniversalCpp.SortCpp | universal_cpp/main.cpp:49-57 | `pipe_sort` started at `get_max_bit` returns the sorted permutation that `std::sort` gives. |
| U128Key.Cmp | internal/u128.h:9-15 | The result is -1, 0 or 1; it is 0 exactly on equal keys, -1 and 1 follow numeric order of hi·2^64+lo (so it is antisymmetric), and unequal `hi` words decide alone. |
| U128Key.ValWords | u128_locked_cpp/u128.hpp:9-15 | A 128-bit key's value is the value of the two-word key (hi, lo), so `u128_cmp` is the two-word lexicographic order. |
| PipeSortU128.ClzNonzero | internal/pipe_sort_u128.c:5-13 | For a non-zero word the count of leading zeros is 63 minus its highest set bit. |
| PipeSortU128.HighestSetBit | internal/pipe_sort_u128.c:15-19 | For a non-zero (hi, lo) the result is in 0..127, that bit is set, and every higher bit is clear. |
| PipeSortU128.InsertU128 | u128_locked_cpp/pipe_sort_u128.cpp:21-31 | One outer step inserts `a[i]` after every earlier key not greater than it, leaving the suffix untouched. |
| PipeSortU128.InsertionSortU128 | internal/pipe_sort_u128.c:21-31 | The stable insertion sort: a sorted permutation, equal to the strict functional insertion sort, keeping every group of equal keys in input order. |
| PipeSortU128.PartitionLimb | internal/pipe_sort_u128.c:34-66 | Partitioning on a bit of `hi` or of `lo` permutes the range into a bit-clear prefix `[0, split)` and a bit-set suffix. |
| PipeSortU128.DiffScan | internal/pipe_sort_u128.c:72-86 | The scan computes the OR over the range of each key XOR the first; it is zero exactly when every key equals the first. |
| PipeSortU128.DiffZero | u128_locked_cpp/pipe_sort_u128.cpp:71-87 | The accumulated diff of a range is zero if and only if the range is one repeated key. |
| PipeSortU128.DiffAgree | internal/pipe_sort_u128.c:90 | Above the diff's highest set bit, every key agrees with the first. |
| PipeSortU128.SplitRound | internal/pipe_sort_u128.c:88-98 | One round reports "all equal" exactly when it is so; otherwise it permutes the range with 0 < split < n and every left key strictly below every right key. |
| PipeSortU128.SplitLess | u128_locked_cpp/pipe_sort_u128.cpp:89-96 | Keys that agree above bit m and are split on bit m leave every left key strictly less than every right key. |
| PipeSortU128.DepthStep | internal/pipe_sort_u128.c:100-111 | Recursing on a side of at most half the range keeps 2^depth at most the number of keys. |
| PipeSortU128.PipeSortU128 | internal/pipe_sort_u128.c:68-115 | The result is a sorted permutation equal to the reference sort, a sorted input is unchanged, and the depth of nested calls is at most log2(n). |
| PipeSortU128.Finish | tests/test_all.c:97-98 | A sorted permutation is the reference sort's output, and it is the input itself when the input was sorted. |
| PipeSortU128.IsSortedU128 | internal/pipe_sort_u128.c:117-122 | `u128_is_sorted` answers true exactly when no neighbour compares greater, which is exactly when the range is sorted; it is true for n <= 1. |
| PipeSortU128.AdjacentCmp | u128_locked_cpp/pipe_sort_u128.cpp:115-120 | Adjacent pairs non-decreasing under `u128_cmp` is equivalent to sortedness by value. |
| RadixDigit.LimbAt | internal/pipe_sort_u512_idx_radix8.c:31-42 | Limb l counted from the least significant word is read for 0 <= l < W; any other l reads the least significant word. |
| RadixDigit.LimbBits | internal/pipe_sort_u256_idx_radix8.c:4-12 | Bit p of limb l is bit 64·l + p of the key's numeric value, so `limb_at` numbers limbs from the least significant word. |
| RadixDigit.LessByIdx | internal/pipe_sort_u256_idx_radix8.c:14-21 | The word-by-word comparison of `keys[ia]` and `keys[ib]` is strict numeric less, so it is irreflexive. |
| RadixDigit.Digit3 | internal/pipe_sort_u256_idx_radix8.c:38-43 | `digit3` as written: the single limb `startbit / 64` shifted by `startbit % 64`, masked to a digit in 0..7. |
| RadixDigit.Digit3Window | internal/pipe_sort_u512_idx_radix8.c:47-52 | `digit3` plus the bits it drops past the top of its limb is the true 3-bit group; the two coincide whenever `startbit % 64 <= 61`. |
| RadixDigit.WindowDigitValue | internal/pipe_sort_u256_idx_radix8.c:35-37 | The 3-bit group at `startbit` is the key's value shifted right by `startbit`, masked with 7. |
| Radix8.InsertIdx | internal/pipe_sort_u256_idx_radix8.c:25-31 | One outer step inserts index i after every earlier index whose key is not greater. |
| Radix8.InsertionSortIdx | internal/pipe_sort_u512_idx_radix8.c:18-28 | The index insertion sort leaves a permutation of the indexes whose keys are non-decreasing, and indexes of equal keys keep their order. |
| RadixBuckets.Histogram | internal/pipe_sort_u256_idx_radix8.c:55-61 | The counting loop computes the count of each digit, and the counts sum to n. |
| RadixBuckets.CountNonEmpty | internal/pipe_sort_u256_idx_radix8.c:64-65 | The loop counts the non-empty buckets. |
| RadixBuckets.SingleBucket | internal/pipe_sort_u256_idx_radix8.c:63-69 | At most one bucket is non-empty exactly when every index in the range has the first index's digit. |
| RadixBuckets.Offsets | internal/pipe_sort_u256_idx_radix8.c:71-74 | `off` is the exclusive prefix sum of the counts, and the last bucket ends at n. |
| RadixBuckets.Scatter | internal/pipe_sort_u256_idx_radix8.c:76-88 | The scatter fills `tmp` with bucket 0, then bucket 1, and so on, each in the range's order; it is a permutation of the range. |
| RadixBuckets.PlacedSlot | internal/pipe_sort_u512_idx_radix8.c:92-98 | After the scatter, bucket b occupies `[off[b], off[b] + c[b])` and holds exactly the indexes with digit b, in their original relative order. |
| RadixBuckets.BucketMember | internal/pipe_sort_u256_idx_radix8.c:80-84 | An index is in bucket b exactly when it is in the range and its digit is b. |
| RadixBuckets.GatherPerm | internal/pipe_sort_u512_idx_radix8.c:100-101 | The buckets laid end to end are a permutation of the range, of the same length. |
| Radix8.RecPerm | internal/pipe_sort_u512_idx_radix8.c:54-110 | The recursion only permutes the indexes: the multiset and the length are kept. |
| Radix8.BucketRound | internal/pipe_sort_u512_idx_radix8.c:103-109 | Sorting bucket b's slot at `startbit - 3` turns the array into the sorted buckets before b+1 followed by the unsorted rest, and a bucket of size at most 1 is left as it is. |
| Radix8.MsdRadix8Rec | internal/pipe_sort_u256_idx_radix8.c:45-97 | The method computes the recursion `Rec`: no-op for n <= 1, insertion sort for `startbit < 0` or n <= 96, skip on one bucket, otherwise scatter, copy back and recurse per bucket. |
| Radix8.SortBuckets | internal/pipe_sort_u256_idx_radix8.c:90-96 | The per-bucket loop leaves every bucket sorted in place, in bucket order. |
| Radix8.SortBucket | internal/pipe_sort_u256_idx_radix8.c:92-95 | One iteration of the per-bucket loop: with buckets before b already sorted, sorting bucket b's slot (a no-op unless it holds more than one index) leaves buckets up to b sorted and the later ones as scattered. |
| RadixOrder.PipeSortIndexRadix8 | internal/pipe_sort_u256_idx_radix8.c:99-103 | The entry returns a stable permutation of the indexes for either digit rule, equal to the reference recursion from the top group `64·W - 3`; it is sorted by key for n <= 96 and whenever every pass is sound. |
| RadixOrder.RecStable | internal/pipe_sort_u256_idx_radix8.c:79-96 | For every key value, the indexes with that value keep their relative order through the recursion. |
| RadixOrder.RecSorted | internal/pipe_sort_u256_idx_radix8.c:90-96 | If every pass the recursion makes orders digits as the keys are ordered, the result is sorted by key. |
| RadixOrder.SortIndexCorrect | internal/pipe_sort_u512_idx_radix8.c:112-117 | The index sort returns a stable permutation for either digit rule, sorted for n <= 96 and whenever every pass is sound. |
| RadixOrder.SoundFromCorrected | internal/pipe_sort_u256_idx_radix8.c:35-37 | With the true 3-bit group as digit, every pass from the top group down is sound. |
| RadixOrder.SoundFromAsWritten | internal/pipe_sort_u256_idx_radix8.c:40 | With `digit3` as written, every pass is sound provided that at every visited group the bits `digit3` drops are the same in every key. |
| RadixOrder.AsWrittenSorts | internal/pipe_sort_u256_idx_radix8.h:9 | The as-written sort orders the keys ascending when the keys agree on a set of bits covering every bit dropped at a visited group. |
| RadixOrder.CorrectedSorts | internal/pipe_sort_u512_idx_radix8.h:9 | With the true 3-bit digit the index sort is a stable permutation that orders the keys ascending, with no condition. |
| U256Index.LossyGroups | internal/pipe_sort_u256_idx_radix8.c:39-40 | Of the groups 253, 250, ..., the only ones with shift 62 or 63 are 190 and 127. |
| U256Index.DroppedCovers | internal/pipe_sort_u256_idx_radix8.c:38-43 | Bits 128, 129 and 192 are all the bits `digit3` drops at a visited group. |
| U256Index.PipeSortU256Index | internal/pipe_sort_u256_idx_radix8.c:99-103 | The 256-bit sort is a stable permutation of the indexes, and ascending when n <= 96 or when all keys agree on bits 128, 129 and 192. |
| U256Index.SortedWhenAgree | internal/pipe_sort_u256_idx_radix8.h:9 | When all keys agree on bits 128, 129 and 192, the as-written 256-bit sort is ascending. |
| U256Index.PipeSortU256IndexCorrected | internal/pipe_sort_u256_idx_radix8.c:35-37 | With the digit the comment describes, the 256-bit sort is a stable, always ascending permutation. |
| U256Index.Misorders | internal/pipe_sort_u256_idx_radix8.c:63-69 | On 97 keys, one equal to 2^192 followed by 96 copies of 2^191, the as-written sort puts the largest key first, so its result is not ascending. |
| U512Index.LossyGroups | internal/pipe_sort_u512_idx_radix8.c:48-49 | Of the groups 509, 506, ..., the only ones with shift 62 or 63 are 446, 383, 254, 191 and 62. |
| U512Index.DroppedCovers | internal/pipe_sort_u512_idx_radix8.c:47-52 | Bits 64, 192, 193, 256, 384, 385 and 448 are all the bits `digit3` drops at a visited group. |
| U512Index.PipeSortU512Index | internal/pipe_sort_u512_idx_radix8.c:112-117 | The 512-bit sort is a stable permutation of the indexes, and ascending when n <= 96 or when all keys agree on the seven dropped bits. |
| U512Index.SortedWhenAgree | internal/pipe_sort_u512_idx_radix8.h:9 | When all keys agree on the seven dropped bits, the as-written 512-bit sort is ascending. |
| U512Index.PipeSortU512IndexCorrected | internal/pipe_sort_u512_idx_radix8.c:44-46 | With the digit the comment describes, the 512-bit sort is a stable, always ascending permutation. |
| U512Index.Misorders | internal/pipe_sort_u512_idx_radix8.c:76-82 | On 97 keys, one equal to 2^448 followed by 96 copies of 2^447, the as-written sort puts the largest key first, so its result is not ascending. |
| RadixFindings.AsWrittenMisorders | internal/pipe_sort_u512_idx_radix8.c:47-52 | For every width of at least two words, the trap input makes the as-written sort return the larger key first, while the corrected digit sorts it. |
| Ordering.InsertionSortStable | internal/pipe_sort_u128.c:24-28 | Shifting only on strictly greater keeps every group of equal keys in input order. |

## Left out

- The public wrappers `src/psort_u128.c`, `src/psort_u256.c` and `src/psort_u512.c` are not modelled. They only cast pointers between layout-compatible structs.
- `u512_cmp` and `pipe_sort_u512` are declared in `internal/u512.h` without a body, so they are not part of this model.
- Benchmarks, test drivers and `universal_cpp/main.cpp` are not modelled. They are clock, printing and random-input plumbing; their equality-with-reference checks appear only as the `MatchesReference`/`Finish` lemmas.
- The `malloc` failure path of `psort_insertion_sort_u` is not modelled: allocation is taken to succeed. `memcpy` and `memmove` of a key are whole-key assignment.
- Arrays are sequences, and each in-place method returns the new contents. The radix sorts' `tmp` buffer is a returned sequence, and the copy back is an assignment. `keys` is never written, because no method receives it in a writable form.
- Machine integer widths are not modelled. Counts, offsets and indexes are unbounded naturals rather than `int` or `uint32_t`, and `64·limbs` is assumed to fit in `int`.
- `__builtin_clzll` and the portable `msb` loop are modelled as the mathematical highest-set-bit position, `MsbPos`.
- The 4-way unrolled diff scan of `pipe_sort_u128` is modelled as one OR loop over the range. It computes the same OR.
- `restrict` and other compiler hints are not modelled.
- The `!keys` null-pointer early return of `psort_u` (`src/psort_u.c:123`) is not modelled: a sequence cannot be null.
- The C and C++ 128-bit sorts and comparators are one model. The sources are the same line for line, apart from `const u128&` versus `const u128*`, and `u128_is_sorted` returning `bool` in C++ (`u128_locked_cpp/pipe_sort_u128.cpp:115`) but `int` 0/1 in C (`internal/pipe_sort_u128.c:117`). The model returns `bool`.
- PipeSortU128.PipeSortU128: its depth output counts the nesting of recursive calls. Stack frames are not modelled.
- U256Index.PipeSortU256Index: ascending order is proved only for n <= 96 or when all keys agree on bits 128, 129 and 192. Without that condition ascending order is not guaranteed; Findings gives an input where it fails.
- U512Index.PipeSortU512Index: ascending order is proved only for n <= 96 or when all keys agree on bits 64, 192, 193, 256, 384, 385 and 448. Without that condition ascending order is not guaranteed; Findings gives an input where it fails.
- RadixOrder.SortIndexCorrect: sortedness is stated under the condition that every pass is sound, which the digit rule has to supply.

## Findings

| source | as written | input that shows it | evidently intended | confidence | as-written member | corrected member |
|---|---|---|---|---|---|---|
| internal/pipe_sort_u256_idx_radix8.c:38-43 | `digit3` reads only limb `startbit / 64`. The descent 253, 250, ... reaches 190 (shift 62) and 127 (shift 63), where the group's top bits fall off the limb, so bits 192, 128 and 129 are never bucketed. | 97 keys: index 0 is 2^192 (words 1, 0, 0, 0), indexes 1..96 are 2^191 (words 0, 2^63, 0, 0). Every pass above 190 is skipped. At 190 index 0 gets digit 0 and the rest digit 2, so the larger key comes first. | The 3-bit group of global bits `startbit`..`startbit + 2`, as the comment at line 40 says (shift <= 61), possibly spanning two limbs. | not executed | U256Index.Misorders | U256Index.PipeSortU256IndexCorrected |
| internal/pipe_sort_u512_idx_radix8.c:47-52 | Same single-limb read. The descent 509, 506, ... reaches 446, 383, 254, 191 and 62, so bits 448, 384, 385, 256, 192, 193 and 64 are never bucketed. | 97 keys: index 0 is 2^448 (top word 1), indexes 1..96 are 2^447 (second word 2^63). The pass at 446 puts index 0 first. | The 3-bit group of global bits `startbit`..`startbit + 2`, as the comment at line 49 says. | not executed | U512Index.Misorders | U512Index.PipeSortU512IndexCorrected |
