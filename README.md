# HSDS succinct data structures in Dafny

This project models the core of HSDS, a C++ library of succinct data
structures, and proves properties of that model:

- `BitVector` stores a sequence of bits in 64-bit words. It answers `rank`
  (the ones before a position) from a two-level rank directory of
  `RankIndex` entries. It answers `select0`/`select1` (the position of the
  `x`-th zero or one) from every 512-th sampled position, a search of the
  directory, a decision tree over the eight small blocks of a large block,
  and `select64` inside one word (a byte-wise prefix count plus the
  `SELECT_TABLE` lookup). `rank64` counts the bits equal to `b` below
  position `i` of one word.
- `PopCount` is the portable population count. `include/hsds/internal/popcount.hpp` repeats it with comments, and the same members model both. It folds a word into
  byte-wise counts and multiplies them by `0x0101...01`, so that `lo8()` ...
  `lo64()` read the counts of the lowest 8, 16, ..., 64 bits.
- `RankIndex` is one entry of the rank directory: a 32-bit absolute count
  and seven relative counts packed into 7, 8, 8, 9, 9, 9 and 9 bits of a
  64-bit word.
- `Vector<T>` is a growable array. It has a capacity doubling policy, a
  "fixed" state after `fix()` or `map()`, and `max_size()` bounded by the
  64-bit byte count.
- `Trie` is a LOUDS trie over byte strings. `build` sorts the keys, removes
  duplicates and lays the trie out breadth first. Single-key subtrees are
  stored as tails. Ids are the ranks of terminal nodes. Its operations are
  `exactMatchSearch`, `commonPrefixSearch`, `predictiveSearch`,
  `traverse`, `decodeKey`, and the navigation helpers `getChild`,
  `getParent`, `enumerateAll`, `tailMatch` and `getTail`.
- `WaveletMatrix` stores a sequence of unsigned values one bit per level,
  most significant bit first. Each level orders its entries by the bits
  already seen. It answers `lookup`, `rank`, `rankAll` (with
  `rankLessThan` and `rankMoreThan`), `select`/`selectFromPos`, `freq`,
  `freqSum`, `freqRange`, `quantileRange`, `maxRange` and `minRange`.

## How the model is built

- Words are `bv64`. The word-level algorithms are methods over `bv64`
  values: `select64`, `rank64`, the `PopCount` fold, and the bit updates of
  `set`. Their results are tied to `Ones(w, n)`, the number of one bits
  below position `n`.
- `BitVector`, `Vector<T>`, `Trie` and `WaveletMatrix` are classes whose
  fields are the source's fields. Their methods carry `modifies` clauses.
- A `RankIndex` is copied by value inside the rank table, so it is a
  datatype. Its setters return the updated entry.
- The specification of a bit vector is `OnesUpTo(blocks, i)`, the number
  of ones below `i`, together with `IsOne`/`IsZero` for `select`.
  `BitBridges` proves that these agree with the counting `Rank`/`Select`
  over a plain `seq<bool>`. The trie and the wavelet matrix use that
  plain form.
- A trie is specified by its sorted, distinct keys and a ghost `Plan`. The
  plan holds the key range, depth, LOUDS start and parent of every
  breadth-first node. `KeyOf(id)` is the key with id `id`, and `Pre(v)`
  lists the ids below node `v` in key order.
- A wavelet matrix is specified by `Order(src, B, i)`, the order in which
  level `i` stores the positions of `src`, and by `Walk`, which moves a
  position down the levels with `rank0`, or with `rank1` plus the level's
  zeros. Occurrence counts use `Occ`, `Below`, `Above` and `InBand` over
  slices of `src`.
- Errors are values. An exception (`HSDS_EXCEPTION_IF`) or an
  out-of-bounds read is `Failure`, a `NOT_FOUND` answer is the constant
  `2^64 - 1`, and a non-terminating loop is `None` after `fuel` rounds.
- Where the declarations and the definitions disagree, the model follows
  the definitions:
  - `bit-vector.hpp` declares `build(bool, bool)`, while `src/bit-vector.cpp`
    defines a single `build()` that always fills both select tables. The
    model follows the definition.
  - The wavelet matrix's `build` calls `bv_.resize(n, size_)`. That call
    needs a copy constructor that `BitVector` keeps private. The model
    builds the levels that the loop evidently intends.
  - `HSDS_DEBUG_IF` (`include/hsds/vector.hpp` lines 51-52 and 59-60) is
    defined in no header. The model reads it as a check that throws and
    leaves the vector unchanged, like `HSDS_EXCEPTION_IF`.
  - `src/trie.cpp` uses `CAN_NOT_TRAVERSE`, which `include/hsds/trie.hpp`
    does not declare; it declares only `NOT_FOUND` and
    `FAILED_TRAVERSE_AT_NODE`. The model gives it the value of
    `FAILED_TRAVERSE_AT_NODE`, `2^64 - 2`, which is distinct from
    `NOT_FOUND`; only that distinction matters to `exactMatchSearch`.
- `SELECT_TABLE` (`src/bit-vector.cpp` lines 26-83) is modelled by its
  rule: entry `[k][b]` is the position of the `k`-th one of byte `b`, and 7
  when `b` has no more than `k` ones. A few literal entries are proved to
  follow from the rule.

## Model

| member | source | states |
|---|---|---|
| Words.SetBit | src/bit-vector.cpp:174-176 | `x \| (1ULL << r)` sets bit `r` and keeps every other bit |
| Words.ClearBit | src/bit-vector.cpp:177-178 | `x & ~(1ULL << r)` clears bit `r` and keeps every other bit |
| Words.UpdateBits | src/bit-vector.cpp:174-179 | writing `b` into bit `r` as `set` does changes bit `r` to `b` and nothing else |
| Words.OnesLowMask | src/bit-vector.cpp:319 | masking with `(1ULL << r) - 1` keeps exactly the ones below `r` |
| PopCounts.FromWord | include/hsds/popcount.hpp:12-52 | after the constructor's fold and multiply, `lo(8k)()` is the number of ones among the lowest `8k` bits, for every `k` from 1 to 8 |
| PopCounts.PrefixCounts | include/hsds/popcount.hpp:12-18 | byte `k` of `fold(x) * 0x0101...01` is the count of ones in the lowest `8(k+1)` bits of `x` |
| PopCounts.LoMonotone | include/hsds/popcount.hpp:22-52 | the prefix counts `lo8() <= lo16() <= ... <= lo64()` never decrease, and `lo64()` is the word's count |
| PopCounts.Count | include/hsds/popcount.hpp:54-64 | `count(x)` on the portable branch is the Hamming weight of `x`, at most 64 |
| PopCounts.CountBranchesAgree | include/hsds/popcount.hpp:54-64 | both branches of `count` agree; this records the assumption that the processor's count is the number of one bits, and the portable fold carries the proof |
| RankIndexes.Empty | include/hsds/rank-index.hpp:12-14 | the default entry has every count zero |
| RankIndexes.RankIndex.Rel1 | include/hsds/rank-index.hpp:52-54 | `rel1()` reads a 7-bit field, below 128 |
| RankIndexes.RankIndex.Rel2 | include/hsds/rank-index.hpp:56-58 | `rel2()` reads an 8-bit field, below 256 |
| RankIndexes.RankIndex.Rel3 | include/hsds/rank-index.hpp:60-62 | `rel3()` reads an 8-bit field, below 256 |
| RankIndexes.RankIndex.Rel4 | include/hsds/rank-index.hpp:64-66 | `rel4()` reads a 9-bit field, below 512 |
| RankIndexes.RankIndex.Rel5 | include/hsds/rank-index.hpp:68-70 | `rel5()` reads a 9-bit field, below 512 |
| RankIndexes.RankIndex.Rel6 | include/hsds/rank-index.hpp:72-74 | `rel6()` reads a 9-bit field, below 512 |
| RankIndexes.RankIndex.Rel7 | include/hsds/rank-index.hpp:76-78 | `rel7()` reads a 9-bit field, below 512 |
| RankIndexes.RankIndex.Rel | src/bit-vector.cpp:296-318 | the counter `rank` adds for small block `k` is 0 for block 0 and below the width of field `k` otherwise |
| RankIndexes.RankIndex.SetAbs | include/hsds/rank-index.hpp:16-18 | `set_abs` truncates to 32 bits, reads back a value that fits and leaves every relative count alone |
| RankIndexes.RankIndex.SetRel1 | include/hsds/rank-index.hpp:20-22 | `set_rel1` stores the low 7 bits of the value and keeps `abs` and the other six fields |
| RankIndexes.RankIndex.SetRel2 | include/hsds/rank-index.hpp:24-26 | `set_rel2` stores the low 8 bits and keeps everything else |
| RankIndexes.RankIndex.SetRel3 | include/hsds/rank-index.hpp:28-30 | `set_rel3` stores the low 8 bits and keeps everything else |
| RankIndexes.RankIndex.SetRel4 | include/hsds/rank-index.hpp:32-34 | `set_rel4` stores the low 9 bits and keeps everything else |
| RankIndexes.RankIndex.SetRel5 | include/hsds/rank-index.hpp:36-38 | `set_rel5` stores the low 9 bits and keeps everything else |
| RankIndexes.RankIndex.SetRel6 | include/hsds/rank-index.hpp:40-42 | `set_rel6` stores the low 9 bits and keeps everything else |
| RankIndexes.RankIndex.SetRel7 | include/hsds/rank-index.hpp:44-46 | `set_rel7` stores the low 9 bits and keeps everything else |
| RankIndexes.RankIndex.SetRel | src/bit-vector.cpp:199-231 | the setter chosen by `build`'s switch reads back any value below the field's width and keeps every other field |
| RankIndexes.SetsField1 | include/hsds/rank-index.hpp:20-22 | `set_rel1` followed by `rel1` is the identity on values below 128, and the other fields are untouched |
| RankIndexes.SetsField2 | include/hsds/rank-index.hpp:24-26 | `set_rel2` followed by `rel2` is the identity on values below 256, and the other fields are untouched |
| RankIndexes.SetsField3 | include/hsds/rank-index.hpp:28-30 | `set_rel3` followed by `rel3` is the identity on values below 256, and the other fields are untouched |
| RankIndexes.SetsField4 | include/hsds/rank-index.hpp:32-34 | `set_rel4` followed by `rel4` is the identity on values below 512, and the other fields are untouched |
| RankIndexes.SetsField5 | include/hsds/rank-index.hpp:36-38 | `set_rel5` followed by `rel5` is the identity on values below 512, and the other fields are untouched |
| RankIndexes.SetsField6 | include/hsds/rank-index.hpp:40-42 | `set_rel6` followed by `rel6` is the identity on values below 512, and the other fields are untouched |
| RankIndexes.SetsField7 | include/hsds/rank-index.hpp:44-46 | `set_rel7` followed by `rel7` is the identity on values below 512, and the other fields are untouched |
| SelectWords.SelectTable | src/bit-vector.cpp:26-83 | every `SELECT_TABLE` entry is a bit position below 8 |
| SelectWords.SelectTableSpec | src/bit-vector.cpp:26-83 | `SELECT_TABLE[k][b]` is the position of the `k`-th one of byte `b` when `b` has more than `k` ones, and 7 otherwise |
| SelectWords.SelectTableEntries | src/bit-vector.cpp:28-30 | sample entries of the literal table (`[0][0] = 7`, `[0][1] = 0`, `[0][8] = 3`, ...) follow from that rule; the table itself is modelled by its rule |
| SelectWords.Ctz | src/bit-vector.cpp:132 | `__builtin_ctzll(y)` is the number of zero bits below the lowest one |
| SelectWords.PrefixCountsOfBlock | src/bit-vector.cpp:109-113 | the subtracting pair step, the nibble and byte steps and the multiply of the portable branch leave in byte `k` the ones of the lowest `8(k+1)` bits |
| SelectWords.PairCountsAgree | src/bit-vector.cpp:109 | subtracting the upper bit of each pair counts the pair, as masking and adding does |
| SelectWords.NibbleCountsAgree | src/bit-vector.cpp:110 | shifting before masking adds the same pair counts as masking before shifting |
| SelectWords.NibbleCountsSmall | src/bit-vector.cpp:110 | each nibble count is at most 6, so the top bit of every nibble is clear |
| SelectWords.ByteCountsAgree | src/bit-vector.cpp:111 | with those nibbles, adding before masking is masking before adding |
| SelectWords.SelectFoldAgrees | src/bit-vector.cpp:109-111 | the three steps of `select64`'s portable branch compute the same word as `PopCount`'s fold |
| SelectWords.LeadingZeroLen | src/bit-vector.cpp:126-132 | the subtract-and-mask trick gives 8 times the index of the byte that holds the `i`-th one |
| SelectWords.ByteBelowShift | src/bit-vector.cpp:136-138 | `(block >> lzl) & 0xFF` is the byte at `lzl / 8` |
| SelectWords.SelectedByte | src/bit-vector.cpp:137 | the count subtracted is the ones below the chosen byte, and the rest of `i` is below that byte's count |
| SelectWords.SelectInByte | src/bit-vector.cpp:138 | the table entry for the rest of the count is the `i`-th one of the word |
| SelectWords.Select64 | src/bit-vector.cpp:91-139 | `select64(block, i, base)` is `base` plus the position of the `i`-th one of `block` |
| SelectWords.Rank64 | src/bit-vector.cpp:16-22 | `rank64(x, i, b)` counts the bits equal to `b` below position `i` |
| BitVectors.OnesBefore | src/bit-vector.cpp:288-321 | the number of ones below `p` is at most `p` |
| BitVectors.ZerosUpTo | src/bit-vector.cpp:323-324 | zeros and ones below `p` add up to `p` |
| BitVectors.FillFrom | src/bit-vector.cpp:258-280 | the fall-through switch sets field `from` and every later field to the value and keeps the earlier ones |
| BitVectors.RecordWord | src/bit-vector.cpp:196-232 | word `i` writes the directory entry that makes entries up to word `i + 1` correct |
| BitVectors.SampleOnes | src/bit-vector.cpp:234-241 | a sampled position is the one whose index is the next multiple of 512, and the running counter stays in `(0, 512]` |
| BitVectors.SampleZeros | src/bit-vector.cpp:242-248 | the same for the zeros, sampled with `select64` on the complement |
| BitVectors.CountBelow | src/bit-vector.cpp:234 | `PopCount::count` on a masked word is the number of ones below `r` |
| BitVectors.ScanWords | src/bit-vector.cpp:196-253 | after the loop, every directory entry of a whole large block is right and every sample is the `512 s`-th one or zero |
| BitVectors.FillPartial | src/bit-vector.cpp:255-282 | completing the partial large block makes its entry right and changes no other entry |
| BitVectors.FinishTable | src/bit-vector.cpp:255-283 | after the partial block and `rank_table_.back().set_abs(num_of_1s_)`, the whole table is a correct rank directory |
| BitVectors.BitVector.Build | src/bit-vector.cpp:182-286 | `build()` leaves the bits and `size` alone, sets `num_of_1s_` to the number of ones, and makes the rank directory and both sample lists correct |
| BitVectors.BitVector.constructor | include/hsds/bit-vector.hpp:35-37 | the default bit vector holds no bits |
| BitVectors.BitVector.Sized | src/bit-vector.cpp:148-153 | `BitVector(size)` holds `size` zero bits in `(size + 63) / 64` words |
| BitVectors.BitVector.Clear | src/bit-vector.cpp:155-162 | `clear()` returns to the empty bit vector |
| BitVectors.BitVector.Swap | include/hsds/bit-vector.hpp:174-181 | `swap` exchanges all six fields |
| BitVectors.BitVector.Size | include/hsds/bit-vector.hpp:98-100 | `size()` is the stored number of bits, at any time, within the words held |
| BitVectors.BitVector.SizeOf | include/hsds/bit-vector.hpp:109-111 | `size(true)` is the stored count of ones and `size(false)` the bits minus it, at any time; once built, these are the ones and the zeros of the bits |
| BitVectors.BitVector.IsEmpty | include/hsds/bit-vector.hpp:118-120 | `empty()` holds exactly when there are no bits |
| BitVectors.BitVector.Get | include/hsds/bit-vector.hpp:72-75 | `operator[](i)` throws past the end and is otherwise the bit whose one adds one to the rank |
| BitVectors.BitVector.Set | src/bit-vector.cpp:164-180 | `set(i, b)` makes bit `i` equal to `b`, keeps every other bit, grows the vector past its end with zero words, and leaves the directories alone |
| BitVectors.WriteWordBit | src/bit-vector.cpp:174-179 | the mask update changes bit `r` of the word to `b` and nothing else |
| BitVectors.WriteBit | src/bit-vector.cpp:171-179 | after padding with zero words, only bit `i` of the whole vector changes |
| BitVectors.BitVector.Rank | src/bit-vector.cpp:288-321 | `rank(i)` throws past `size` and is otherwise the number of ones below `i` (corrected read, see Findings) |
| BitVectors.RankIn | src/bit-vector.cpp:290-320 | the absolute count, the small block's relative count and the ones below `i` in its word add up to the ones below `i` |
| BitVectors.EntrySum | src/bit-vector.cpp:294-318 | `abs()` plus the counter of small block `k` is the number of ones before that small block |
| BitVectors.RankAsWrittenReads | src/bit-vector.cpp:289-319 | for every index the guard lets through, the source reads word `i / 64` |
| BitVectors.RankAsWrittenPastEnd | src/bit-vector.cpp:319 | with `size` a multiple of 64, `rank(size)` reads the word just past the last one |
| BitVectors.BitVector.Select1 | src/bit-vector.cpp:382-445 | `select1(x)` throws when `x` is not below the number of ones, and otherwise is the position below `size` of the one with index `x` |
| BitVectors.SelectOneIn | src/bit-vector.cpp:385-444 | a sample when `x` is a multiple of 512, otherwise search, decision tree and `select64`, gives the one with index `x` |
| BitVectors.SearchOnes | src/bit-vector.cpp:389-407 | the linear or binary search ends on the large block whose count is at most `x` and whose successor's count exceeds it |
| BitVectors.OneBlockOf | src/bit-vector.cpp:415-442 | the decision tree picks the small block whose counter is at most `x` and whose next counter exceeds it |
| BitVectors.SelectOneInLarge | src/bit-vector.cpp:409-444 | inside the large block found, the decision tree and `select64` give the one with index `x` |
| BitVectors.PickOne | src/bit-vector.cpp:444 | `select64(blocks_[j], rest, 64 j)` is the one with index `ones before word j + rest` |
| BitVectors.BitVector.Select0 | src/bit-vector.cpp:323-380 | `select0(x)` throws when `x` is not below the number of zeros, and otherwise is the position below `size` of the zero with index `x` |
| BitVectors.SelectZeroIn | src/bit-vector.cpp:326-379 | the same steps on the zero counts give the zero with index `x` |
| BitVectors.SearchZeros | src/bit-vector.cpp:330-345 | the search ends on the large block whose zeros before it are at most `x` and whose successor's exceed it |
| BitVectors.ZeroBlockOf | src/bit-vector.cpp:351-378 | the decision tree over `64 k - relk()` picks the small block that holds the zero |
| BitVectors.ZeroBlockLow | src/bit-vector.cpp:351-363 | the first half of the tree covers small blocks 0 to 3 |
| BitVectors.ZeroBlockHigh | src/bit-vector.cpp:364-378 | the second half of the tree covers small blocks 4 to 7 |
| BitVectors.SelectZeroInLarge | src/bit-vector.cpp:347-379 | inside the large block found, the tree and `select64` on the complement give the zero with index `x` |
| BitVectors.PickZero | src/bit-vector.cpp:379 | `select64(~blocks_[j], rest, 64 j)` is the zero with index `zeros before word j + rest` |
| BitBridges.RankAgrees | src/bit-vector.cpp:288-321 | `rank1`/`rank0` over the words are the counting ranks of the bit sequence they hold |
| BitBridges.TotalAgrees | include/hsds/bit-vector.hpp:109-111 | `size(true)`/`size(false)` are the totals of that bit sequence |
| BitBridges.SelectOneAgrees | src/bit-vector.cpp:382-445 | a `select1` answer is the sequence's `Select(true, x)` |
| BitBridges.SelectZeroAgrees | src/bit-vector.cpp:323-380 | a `select0` answer is the sequence's `Select(false, x)` |
| Vectors.GrownCapacityBounds | include/hsds/vector.hpp:90-105 | `reserve`'s new capacity never shrinks, fits the request, stays within `max_size()`, and at least doubles unless capped |
| Vectors.RoundUp8 | include/hsds/vector.hpp:178-180 | `(n + 7) & ~7` is a multiple of 8 and, without wrap-around, the least one not below `n` |
| Vectors.WholeCount | include/hsds/vector.hpp:206-218 | a byte length that counts whole elements names no more elements than the image holds |
| Vectors.Vector.MaxSize | include/hsds/vector.hpp:194-196 | `max_size()` is the largest element count whose bytes fit in `SIZE_MAX` |
| Vectors.Vector.constructor | include/hsds/vector.hpp:22-24 | a new vector is empty, has no capacity and is not fixed |
| Vectors.Vector.Realloc | include/hsds/vector.hpp:237-255 | `realloc` moves the elements to a fresh buffer of the new capacity |
| Vectors.Vector.Reserve | include/hsds/vector.hpp:90-105 | `reserve` fails on a fixed vector or past `max_size()`; otherwise the capacity grows by the doubling rule and the elements are kept |
| Vectors.Vector.PushBack | include/hsds/vector.hpp:50-56 | `push_back` fails on a fixed or full vector; otherwise the elements become the old ones followed by `x` |
| Vectors.Vector.PopBack | include/hsds/vector.hpp:58-62 | `pop_back` fails on a fixed or empty vector; otherwise it drops the last element |
| Vectors.Vector.ResizeWith | include/hsds/vector.hpp:78-88 | `resize(n, x)` keeps the first `min(size, n)` elements and fills new slots with `x` |
| Vectors.Vector.Resize | include/hsds/vector.hpp:65-75 | `resize(n)` does the same with `T()` |
| Vectors.Vector.Shrink | include/hsds/vector.hpp:107-112 | `shrink` cuts the capacity down to the size and keeps the elements |
| Vectors.Vector.Fix | include/hsds/vector.hpp:114-117 | `fix` freezes the vector once; a second call fails |
| Vectors.Vector.At | include/hsds/vector.hpp:125-128 | `operator[] const` is element `i`, or an error past the end |
| Vectors.Vector.Put | include/hsds/vector.hpp:146-150 | writing through the non-const `operator[]` fails on a fixed vector or past the end, and otherwise replaces element `i` only |
| Vectors.Vector.Front | include/hsds/vector.hpp:129-132 | `front() const` is the first element, and an error on an empty vector |
| Vectors.Vector.Back | include/hsds/vector.hpp:133-136 | `back() const` is the last element, and an error on an empty vector |
| Vectors.Vector.IsEmpty | include/hsds/vector.hpp:172-174 | `empty()` holds exactly when there are no elements |
| Vectors.Vector.TotalSize | include/hsds/vector.hpp:175-177 | `total_size()` fits in `SIZE_MAX` |
| Vectors.Vector.IoSize | include/hsds/vector.hpp:178-180 | `io_size()` is a multiple of 8: the header plus the elements padded to 8 bytes |
| Vectors.HeaderPadded | include/hsds/vector.hpp:178-180 | the header plus `n` bytes rounded up to 8, as a `size_t`, is a multiple of 8 and, without wrap-around, covers both with less than 8 bytes to spare |
| Vectors.Vector.Clear | include/hsds/vector.hpp:182-184 | `clear` leaves an empty, unfixed vector with no capacity, even when it was fixed |
| Vectors.Vector.Swap | include/hsds/vector.hpp:185-192 | `swap` exchanges buffers, sizes, capacities and flags |
| Vectors.Vector.Map | include/hsds/vector.hpp:206-218 | `map` fails on a bad header, and otherwise leaves a fixed vector with no capacity whose elements are the image's first `header / sizeof(T)` objects |
| TrieKeys.SortUnique | src/trie.cpp:32-33 | `sort` then `unique`/`erase` leave the distinct keys in increasing order, no more of them and no longer in total |
| TrieKeys.Insert | src/trie.cpp:32 | inserting a key at its place keeps the list sorted and adds exactly that key |
| TrieKeys.InsertSorted | src/trie.cpp:32 | the sortedness half of the insertion |
| TrieKeys.LessTransitive | src/trie.cpp:32 | the byte-wise order of `std::string` is transitive |
| TrieKeys.SortedSame | src/trie.cpp:32-33 | two sorted, distinct lists with the same keys are equal |
| TrieKeys.PrefixBlock | src/trie.cpp:179-209 | in a sorted list the keys that begin with `q` form one block |
| TrieLayouts.Seed | src/trie.cpp:40-49 | the seed bits `0 1` and the root range holding every key start the layout |
| TrieLayouts.Expand | src/trie.cpp:59-110 | one range taken off the queue adds its tail, terminal and LOUDS bits, its edges and its child ranges |
| TrieLayouts.PushEdges | src/trie.cpp:91-110 | the edge loop adds one `0`, one label and one child range per run of equal bytes, then the closing `1` |
| TrieLayouts.Step | src/trie.cpp:51-111 | one iteration of the breadth-first loop keeps the layout invariant |
| TrieLayouts.StepBudget | src/trie.cpp:51-111 | one iteration keeps the size budget and strictly shrinks the work left, so the loop ends |
| TrieRanges.RunsTile | src/trie.cpp:94-109 | the runs of equal bytes tile the range and are no more than its keys |
| TrieRanges.RunsIncrease | src/trie.cpp:94-109 | the runs' labels strictly increase |
| TrieShapes.LabelsIncrease | src/trie.cpp:91-110 | the edge labels under a node strictly increase, so each byte labels at most one child |
| TrieShapes.ChildByte | src/trie.cpp:91-110 | a key continuing past a non-tail node leaves it along the edge labelled with its next byte |
| TrieShapes.TailFacts | src/trie.cpp:64-74 | a tail leaf holds one key, has no children, is terminal, and its stored tail is the rest of its key |
| TrieShapes.KeyOf | src/trie.cpp:79-89 | the key with id `id` is one of the keys |
| TrieShapes.DecodeParts | src/trie.cpp:298-316 | a terminal node's key is its spelling followed by its tail when it is a tail leaf |
| TrieShapes.ChildFound | src/trie.cpp:215-227 | the child for byte `c` is one level deeper and spells its parent's spelling plus `c` |
| TrieShapes.ChildMissing | src/trie.cpp:215-227 | with no child for `b`, no key continues the node's spelling with `b` |
| TrieOrders.TailKeys | src/trie.cpp:192-202 | below a tail leaf on `q`'s path, the only key that can begin with `q` is the leaf's own |
| TrieOrders.NoKeys | src/trie.cpp:203-206 | when the walk finds no edge for the next byte, no key begins with `q` |
| TrieOrders.PredictAll | src/trie.cpp:208 | at the node that spells `q`, the first `limit` ids below it name the first `limit` keys that begin with `q` |
| TrieOrders.PredictTail | src/trie.cpp:192-202 | at a tail leaf, the keys beginning with `q` are the leaf's own key when the rest of `q` runs along its tail, and none otherwise |
| TrieOrders.TailAnswer | src/trie.cpp:192-202 | at a tail leaf, answering the leaf's own id when the rest of `q` runs along its tail, and nothing otherwise, lists the first `limit` keys beginning with `q` |
| TrieOrders.PreKeys | src/trie.cpp:236-247 | the preorder of a node's subtree lists the ids of its key range in key order |
| Tries.Trie.constructor | src/trie.cpp:17-25 | a new trie is empty and not ready |
| Tries.Trie.Swap | src/trie.cpp:318-326 | `swap` exchanges every field |
| Tries.Trie.Clear | src/trie.cpp:328-331 | `clear` leaves an empty trie that is not ready |
| Tries.Arrange | src/trie.cpp:30-111 | the work of `build`: sorted distinct keys with the same members as the input, laid out as a sound trie |
| Tries.Layout | src/trie.cpp:37-111 | the breadth-first loop lays sorted keys out as LOUDS with edges no longer than the keys in total |
| Tries.Advance | src/trie.cpp:59-110 | processing the front range keeps every loop invariant and shrinks the work left |
| Tries.Trie.Build | src/trie.cpp:30-123 | `build` keeps the distinct keys in increasing order, lays them out, counts them and is ready exactly when a key was given |
| Tries.Trie.IsLeaf | src/trie.cpp:211-213 | `isLeaf(pos)` is the LOUDS bit, and at a node's start it holds exactly when the node has no children |
| Tries.Trie.GetChild | src/trie.cpp:215-227 | `getChild` moves to the child for `c`, or sets `NOT_FOUND` exactly when there is none |
| Tries.Trie.GetParent | src/trie.cpp:229-234 | `getParent` moves to the parent and yields the byte on the edge, which leads back to the node; at the root it stops with `pos == 0` |
| Tries.Trie.GetTail | src/trie.cpp:264-266 | `getTail(i)` is the `i`-th stored tail |
| Tries.Trie.TailMatch | src/trie.cpp:249-262 | `tailMatch` holds exactly when the tail fits the rest of the query and agrees with it, and then reports the tail's length |
| Tries.AtLeastTwo | src/trie.cpp:273-275 | `std::max(x, 2)` is at least 2 and at least `x`, and is `x` when `x >= 2` |
| Tries.SymbolAt | src/trie.cpp:288 | the symbol read at `keyPos` is the query's byte, or the end marker past it |
| Tries.Trie.Visit | src/trie.cpp:276-286 | a tail leaf or terminal node reports its id exactly when its key is a prefix of the query, and moves `keyPos` past that key |
| Tries.Trie.Traverse | src/trie.cpp:268-296 | one step reports the current node's key if it is a prefix of the query, follows the next byte, and answers `CAN_NOT_TRAVERSE` only when it neither reports nor moves |
| Tries.Trie.StepEnds | src/trie.cpp:288-293 | after the child lookup the walk is at the child for the next byte, or stopped with no prefix key left beyond this node |
| Tries.Trie.Meets | src/trie.cpp:268-296 | a step that stops or reads past the query's end meets the query if it is a key, and a key it reports there is the query itself |
| Tries.Trie.ExactMatchSearch | src/trie.cpp:125-139 | `exactMatchSearch` answers an id exactly when the query is a key, and then the id's key is the query (corrected loop exit, see Findings) |
| Tries.Trie.ExactMatchSearchAsWritten | src/trie.cpp:131-136 | the loop as written gives right answers and finds every key; it is proved to loop for ever on a query that begins no key (it also loops on some queries that do begin a key, see Left out) |
| Tries.Trie.DecodeKey | src/trie.cpp:298-316 | `decodeKey(id)` is the key with that id, empty on an unready trie, and an error for an id past the last key |
| Tries.Trie.Climb | src/trie.cpp:302-312 | the `getParent` loop collects the node's spelling from the root down |
| Tries.Trie.ListMore | src/trie.cpp:169-175 | adding what a step reports keeps the matches listed with increasing lengths |
| Tries.Trie.FindMore | src/trie.cpp:169-175 | after a step, every prefix key shorter than the new `keyPos` has a match |
| Tries.Trie.Stuck | src/trie.cpp:169 | when a step says `CAN_NOT_TRAVERSE`, every prefix key of the query has been found |
| Tries.Trie.Reach | src/trie.cpp:172-174 | the search covers the whole query unless `limit` matches stopped it at the last one |
| Tries.Trie.WalkOn | src/trie.cpp:169-176 | a round that does not stop the walk keeps the loop state and moves `keyPos` on |
| Tries.Trie.WalkFull | src/trie.cpp:172-174 | a round whose match is the `limit`-th ends the walk with everything up to it found |
| Tries.Trie.WalkEnds | src/trie.cpp:169 | a round that stops the walk leaves every prefix key found |
| Tries.Trie.CommonPrefixMatches | src/trie.cpp:160-177 | `commonPrefixSearch` reports the keys that are prefixes of the query, shortest first, each with its id and length, stopping after `limit` |
| Tries.Trie.CommonPrefixSearch | src/trie.cpp:141-158 | the id overload returns at most `limit` ids, each the id of a key that is a prefix of the query; they are the ids of the matches above, shortest first |
| Tries.RunsAlong | src/trie.cpp:195-199 | the tail loop accepts exactly when the rest of the query runs along the tail |
| Tries.Trie.PredictAtTail | src/trie.cpp:192-202 | at a tail leaf the answer is the leaf's key id when the rest of the query runs along its tail, and nothing otherwise; this is the list of keys beginning with the query |
| Tries.EnumerateAll | src/trie.cpp:236-247 | `enumerateAll` appends the ids below the node in key order, up to `limit` in total |
| Tries.EnumerateChildren | src/trie.cpp:242-246 | the loop over a node's children, visiting child after child while fewer than `limit` ids are listed, ends with the node's whole listing |
| Tries.Trie.PredictiveSearch | src/trie.cpp:179-209 | `predictiveSearch` returns the ids of the first `limit` keys in key order that begin with the query, and nothing on an unready trie or a zero limit |
| TrieExamples.BuildOrder | t/test_trie.cpp:29-37 | the test's five keys are kept as "abc", "abcde", "able", "bbc", "can" |
| TrieExamples.CommonPrefixExample | t/test_trie.cpp:49-51 | `commonPrefixSearch("abcde")` finds two keys, "abc" then "abcde" |
| TrieExamples.PredictiveExample | t/test_trie.cpp:53-55 | `predictiveSearch("ab")` finds three keys, "abc", "abcde", "able" |
| WaveletLevels.TopStep | src/wavelet-matrix.cpp:56-57 | one more top bit is the shorter prefix shifted left plus the bit |
| WaveletLevels.LevelAt | src/wavelet-matrix.cpp:55-60 | entry `t` of level `i` is the level-`i` bit of the value stored there |
| WaveletLevels.OrderNext | src/wavelet-matrix.cpp:55-60 | level `i + 1` lists level `i`'s entries with a 0 bit, then those with a 1 bit, each in order |
| WaveletLevels.StepAt | src/wavelet-matrix.cpp:101-106 | following its own bit with `rank0`, or the zeros plus `rank1`, a position lands where the same entry is stored one level down |
| WaveletLevels.NodeBegins | src/wavelet-matrix.cpp:52-81 | `nodeBeginPos_[i][x]` is where the node of the `(i+1)`-bit prefix `x` begins on level `i + 1` |
| WaveletLevels.NodeOne | src/wavelet-matrix.cpp:103 | `nodeBeginPos_[i][1]` is the number of zeros of level `i` |
| WaveletLevels.WalkRange | src/wavelet-matrix.cpp:174-201 | walking both ends of a range along a prefix brackets exactly the range's entries with that prefix |
| WaveletLevels.Span | src/wavelet-matrix.cpp:174-204 | the walks of the two ends of a range along a prefix are ordered, and their distance is the number of range entries with that prefix |
| WaveletLevels.Descend | src/wavelet-matrix.cpp:192-198 | one level down along bit `v` maps `x` to `rank0(x)`, or to `x` plus the zeros minus `rank0(x)` |
| WaveletLevels.DescendCount | src/wavelet-matrix.cpp:192-199 | the entries leaving the range on a level are counted as below `c` on a 1 bit and as above on a 0 bit |
| WaveletLevels.RankSpan | src/wavelet-matrix.cpp:120-131 | after all levels, the walks of two positions differ by the occurrences of `c` between them |
| WaveletLevels.Trichotomy | src/wavelet-matrix.cpp:202-204 | below, equal to and above `c` add up to the range's length |
| WaveletLevels.InBandBelow | src/wavelet-matrix.cpp:267-269 | the values in `[a, b)` are those below `b` but not below `a` |
| WaveletMatrices.GetAlphabetNum | src/wavelet-matrix.cpp:363-371 | one more than the largest value: every value is below it, the largest occurs, and it is 0 only for an empty input |
| WaveletMatrices.Log2 | src/wavelet-matrix.cpp:373-382 | `log2(x)` is the number of bits needed for the values below `x` |
| WaveletMatrices.AlphabetFits | src/wavelet-matrix.cpp:37-41 | the values fit in the bit width `build` computes |
| WaveletMatrices.BuiltLevels | src/wavelet-matrix.cpp:52-85 | what `build` stores are the levels of the input, each of `size` bits, with node beginnings whose entry 1 is the level's zeros |
| WaveletMatrices.WaveletMatrix.constructor | src/wavelet-matrix.cpp:15-17 | a new matrix is empty |
| WaveletMatrices.WaveletMatrix.Clear | src/wavelet-matrix.cpp:22-24 | `clear` returns to the empty matrix |
| WaveletMatrices.WaveletMatrix.Swap | src/wavelet-matrix.cpp:26-33 | `swap` exchanges every field |
| WaveletMatrices.WaveletMatrix.Size | include/hsds/wavelet-matrix.hpp:49-51 | `size()` is the number of values |
| WaveletMatrices.WaveletMatrix.Build | src/wavelet-matrix.cpp:35-86 | `build` stores the input, its alphabet size and bit width, and the levels |
| WaveletMatrices.LookupStep | src/wavelet-matrix.cpp:95-107 | each level's bit is the next bit of the value, and the rank step keeps following the same entry |
| WaveletMatrices.LookupNext | src/wavelet-matrix.cpp:95-107 | one round of the loop of `lookup` keeps the position on the same entry, and appends that entry's bit on this level to the value |
| WaveletMatrices.LookupIn | src/wavelet-matrix.cpp:92-108 | the level loop of `lookup` rebuilds the value stored at `pos` |
| WaveletMatrices.WaveletMatrix.Lookup | src/wavelet-matrix.cpp:88-109 | `lookup(pos)` is the value at `pos`, or `NOT_FOUND` past the end |
| WaveletMatrices.WalkDown | src/wavelet-matrix.cpp:123-130 | the level loop of `rank` walks a position down along the bits of `c` |
| WaveletMatrices.RankByWalks | src/wavelet-matrix.cpp:120-131 | the walk of `pos` minus the node's beginning counts the occurrences of `c` before `pos` |
| WaveletMatrices.WaveletMatrix.Rank | src/wavelet-matrix.cpp:111-134 | `rank(c, pos)` counts `c` before `pos`, and is `NOT_FOUND` outside the alphabet or past the end (corrected for no levels, see Findings) |
| WaveletMatrices.WaveletMatrix.RankAsWritten | src/wavelet-matrix.cpp:116-131 | as written, a matrix with no levels reads outside `nodeBeginPos_` for every `pos > 0` |
| WaveletMatrices.SingleSymbol | src/wavelet-matrix.cpp:37-41 | a matrix built from {0} has one symbol and no levels |
| WaveletMatrices.RangeDownStep | src/wavelet-matrix.cpp:174-201 | one level of `rankAll` moves the entries leaving the range into the count below or above `c` |
| WaveletMatrices.RangeLevel | src/wavelet-matrix.cpp:175-200 | one round of `rankAll`'s loop keeps both ends on the node of `c` and the counts exact |
| WaveletMatrices.RangeDown | src/wavelet-matrix.cpp:168-204 | the loop of `rankAll` ends with the occurrences of `c`, the values below and the values above, in the range |
| WaveletMatrices.WaveletMatrix.RankAll | src/wavelet-matrix.cpp:152-205 | `rankAll(c, lo, hi)` counts the range's entries equal to, below and above `c`, with `NOT_FOUND` and zero cases as the guards say (corrected, see Findings: both ends always take `rank0`) |
| WaveletMatrices.Reported | src/wavelet-matrix.cpp:202-204 | past the last level the rank is the distance between the two ends modulo `2^64`, and the two counts are the ones gathered |
| WaveletMatrices.LevelAsWritten | src/wavelet-matrix.cpp:175-200 | one level of `rankAll` as written, with either shortcut: an end that starts inside the level stays inside it, and 64-bit counts stay 64-bit |
| WaveletMatrices.RangeAsWritten | src/wavelet-matrix.cpp:174-204 | the loop of `rankAll` as written, with the shortcuts at `begin_pos == 0` and `end_pos == size_`, reports 64-bit counts |
| WaveletMatrices.RangeUnfold | src/wavelet-matrix.cpp:174-201 | the loop as written at level `i` is one level as written followed by the rest of the loop at the next node |
| WaveletMatrices.LevelDownAsWritten | src/wavelet-matrix.cpp:175-200 | one pass of the loop as written leaves the rest of the loop with the same answer, and the next node within the next level |
| WaveletMatrices.RangeEnd | src/wavelet-matrix.cpp:202-204 | past the last level the loop as written reports the state it reached |
| WaveletMatrices.RangeDownAsWritten | src/wavelet-matrix.cpp:168-204 | the loop of `rankAll` as written, run level by level, ends with the answer of `RangeAsWritten` for the same shortcuts |
| WaveletMatrices.CountsWithin | src/wavelet-matrix.cpp:192-199 | no more entries of a range lie below or above a prefix than the range holds |
| WaveletMatrices.RangeInside | src/wavelet-matrix.cpp:174-204 | with neither shortcut, the loop as written from the corrected state at level `i` ends with the corrected answer |
| WaveletMatrices.InsideEnd | src/wavelet-matrix.cpp:202-204 | past the last level the loop as written reports the corrected loop's state |
| WaveletMatrices.NodeNext | src/wavelet-matrix.cpp:199 | `node_num | bit << i` stays below `2^(i + 1)` |
| WaveletMatrices.InsideThen | src/wavelet-matrix.cpp:174-201 | if the rest of the loop as written ends with an answer from the corrected state at level `i + 1`, the loop from level `i` ends with it too |
| WaveletMatrices.InsideStep | src/wavelet-matrix.cpp:175-200 | with neither shortcut, one level as written takes the corrected state at level `i` to the corrected state at level `i + 1` |
| WaveletMatrices.InsideCounts | src/wavelet-matrix.cpp:202-204 | past the last level the corrected state reports the occurrences of `c`, the values below and the values above in the range |
| WaveletMatrices.RangeFromStart | src/wavelet-matrix.cpp:168-204 | started at level 0 with neither shortcut, the loop as written ends with the exact counts of the range |
| WaveletMatrices.InsideTops | src/wavelet-matrix.cpp:174-201 | the corrected states at levels `i` and `i + 1` are the walks and counts for the prefixes of `c` |
| WaveletMatrices.InsideAt | src/wavelet-matrix.cpp:174-201 | the corrected state at level `i` is the pair of walks and the counts for the `i`-bit prefix of `c` |
| WaveletMatrices.WalksInside | src/wavelet-matrix.cpp:175-200 | with neither shortcut, one level as written moves both walks down along the next bit and moves the entries that leave into the right count |
| WaveletMatrices.LevelInRange | src/wavelet-matrix.cpp:175-200 | away from both edges, the modular arithmetic of one level as written gives the exact new ends and counts |
| WaveletMatrices.LevelOneInRange | src/wavelet-matrix.cpp:192-199 | the same for a 1 bit: both ends move past the level's zeros and the entries that leave are counted below `c` |
| WaveletMatrices.LevelZeroInRange | src/wavelet-matrix.cpp:195-199 | the same for a 0 bit: both ends move to their `rank0` and the entries that leave are counted above `c` |
| WaveletMatrices.WaveletMatrix.RanksAsWritten | src/wavelet-matrix.cpp:168-204 | the three counts the loop of `rankAll` as written ends with, shortcuts included, are 64-bit values |
| WaveletMatrices.WaveletMatrix.RankAllAsWritten | src/wavelet-matrix.cpp:152-205 | `rankAll` as written: the same guards as `RankAll`, the loop with both shortcuts, and, away from both edges, the exact counts of the range |
| WaveletMatrices.WaveletMatrix.RanksInside | src/wavelet-matrix.cpp:168-204 | when `0 < begin_pos` and `end_pos < size_`, the loop as written ends with the exact counts of the range |
| WaveletMatrices.TwoThreeMarks | src/wavelet-matrix.cpp:52-60 | the bits of {2, 3} on the two levels are `[1, 1]` and `[0, 1]` |
| WaveletMatrices.TwoThreeOrders | src/wavelet-matrix.cpp:52-60 | level 0 of {2, 3} and level 1 both keep the order `[0, 1]` |
| WaveletMatrices.TwoThreeRuns | src/wavelet-matrix.cpp:168-204 | tables of the shape of {2, 3} meet what the loop of `rankAll` reads |
| WaveletMatrices.TwoThreeTables | src/wavelet-matrix.cpp:52-81 | the levels and node beginnings of {2, 3} have that shape |
| WaveletMatrices.TwoThreeBits | src/wavelet-matrix.cpp:176 | the bits of 2 and 3 in a two-bit alphabet, most significant first |
| WaveletMatrices.TwoThreeMods | src/wavelet-matrix.cpp:194-198 | the residues modulo `2^64` the runs on {2, 3} meet, including `0 - 1` as `NOT_FOUND` |
| WaveletMatrices.TwoThreeLevelZero | src/wavelet-matrix.cpp:175-200 | on level 0 of {2, 3}, with a shortcut at either end, a 1 bit keeps the range where it is |
| WaveletMatrices.TwoThreeLevelOne | src/wavelet-matrix.cpp:175-200 | on level 1 of {2, 3} the shortcuts read node 1 where the range lies in node 0: the end moves to 3 or the count above to 1 |
| WaveletMatrices.TwoThreeWhole | src/wavelet-matrix.cpp:168-204 | `rankAll(3, 0, 2)` as written on those tables ends with rank 3, `NOT_FOUND` below and 0 above |
| WaveletMatrices.TwoThreePrefixBelow | src/wavelet-matrix.cpp:168-204 | `rankAll(3, 0, 1)` as written ends with rank 1, none below and none above |
| WaveletMatrices.TwoThreePrefixAbove | src/wavelet-matrix.cpp:168-204 | `rankAll(2, 0, 1)` as written ends with rank 0, none below and one above |
| WaveletMatrices.TwoThreeSuffix | src/wavelet-matrix.cpp:168-204 | `rankAll(3, 1, 2)` as written ends with rank 2, `NOT_FOUND` below and 0 above |
| WaveletMatrices.TwoThreeMatrix | src/wavelet-matrix.cpp:35-86 | a matrix built from {2, 3} has two values, four symbols in two bits, those levels and those node beginnings |
| WaveletMatrices.TwoThreeAsWritten | src/wavelet-matrix.cpp:152-205 | on that matrix, `rankAll` as written runs the loop on those tables with the shortcuts its ends call for |
| WaveletMatrices.ShortcutsMisread | src/wavelet-matrix.cpp:180-190 | on the matrix of {2, 3}, `rankAll(3, 0, 2)` answers (3, `NOT_FOUND`, 0) where the counts are (1, 1, 0), and `rankAll(3, 1, 2)` answers (2, `NOT_FOUND`, 0) where they are (1, 0, 0) |
| WaveletMatrices.WholeAsWritten | src/wavelet-matrix.cpp:180-190 | `rankAll(3, 0, 2)` as written on the matrix of {2, 3} |
| WaveletMatrices.SuffixAsWritten | src/wavelet-matrix.cpp:186-190 | `rankAll(3, 1, 2)` as written on the matrix of {2, 3} |
| WaveletMatrices.PrefixShortcutMisreads | src/wavelet-matrix.cpp:136-150 | on the matrix of {2, 3}, `rankLessThan(3, 1)` answers 0 where one entry is below 3, and `rankMoreThan(2, 1)` answers 1 where none is above 2 |
| WaveletMatrices.TwoThreeLevels | src/wavelet-matrix.cpp:52-60 | the levels built from {2, 3} are `[1, 1]` and `[0, 1]` |
| WaveletMatrices.TwoThreeBegins | src/wavelet-matrix.cpp:77-81 | their node beginnings are `[0, 0]` and `[0, 1, 0, 1]` |
| WaveletMatrices.TwoThreeCounts | src/wavelet-matrix.cpp:202-204 | in {2, 3}, 3 occurs once, one value is below it and none above, and one value is above 2 |
| WaveletMatrices.WaveletMatrix.RankLessThan | src/wavelet-matrix.cpp:136-142 | `rankLessThan(c, pos)` counts the entries before `pos` below `c`, `NOT_FOUND` outside the alphabet or past the end (corrected, see Findings: the source takes the shortcut at `begin_pos == 0`) |
| WaveletMatrices.WaveletMatrix.RankMoreThan | src/wavelet-matrix.cpp:144-150 | `rankMoreThan(c, pos)` counts the entries before `pos` above `c`, `NOT_FOUND` outside the alphabet or past the end (corrected, see Findings: the source takes the shortcut at `begin_pos == 0`) |
| WaveletMatrices.WaveletMatrix.SelectFromPos | src/wavelet-matrix.cpp:211-245 | `selectFromPos` is `NOT_FOUND` outside the alphabet or past the end; otherwise a success is a position from 1 to `size` |
| WaveletMatrices.WaveletMatrix.Select | src/wavelet-matrix.cpp:207-209 | `select(c, rank)` is `selectFromPos(c, 0, rank)` with the same guards and bounds |
| WaveletMatrices.WaveletMatrix.Freq | src/wavelet-matrix.cpp:247-249 | `freq(c)` counts `c` in the whole matrix, `NOT_FOUND` outside the alphabet (corrected, see Findings: it uses the corrected `rank`) |
| WaveletMatrices.FreqTotal | src/wavelet-matrix.cpp:251-257 | what the loop of `freqSum` adds up is a 64-bit value |
| WaveletMatrices.FreqTotalNext | src/wavelet-matrix.cpp:253-255 | one more value adds its count, or `NOT_FOUND` past the alphabet, modulo `2^64` |
| WaveletMatrices.FreqSumCounts | src/wavelet-matrix.cpp:251-257 | inside the alphabet the sum is exactly the number of values in the band |
| WaveletMatrices.BandStep | src/wavelet-matrix.cpp:253-255 | one more value adds its count, or `NOT_FOUND` past the alphabet |
| WaveletMatrices.FreqTotalCounts | src/wavelet-matrix.cpp:251-257 | the sum is the values in the band plus `NOT_FOUND` for every value past the alphabet, modulo `2^64` |
| WaveletMatrices.WaveletMatrix.FreqSum | src/wavelet-matrix.cpp:251-257 | `freqSum(a, b)` is the number of values in `[a, b)` plus `NOT_FOUND` for each value past the alphabet, modulo `2^64`; inside the alphabet it is exactly the count (corrected, see Findings: each `freq` is the corrected one) |
| WaveletMatrices.WaveletMatrix.FreqRangeAsWritten | src/wavelet-matrix.cpp:259-270 | `freqRange` as written: the same guards answer 0, and otherwise the answer is the difference modulo `2^64` of the two `rankAll` calls as written, shortcuts included (`BandAsWritten`) |
| WaveletMatrices.BandDifference | src/wavelet-matrix.cpp:267-269 | the subtraction modulo `2^64` of the counts below `min_c` and `max_c` is the count of the band, or `NOT_FOUND` minus the count below `min_c` past the alphabet |
| WaveletMatrices.Sub64 | src/wavelet-matrix.cpp:269 | `uint64_t` subtraction stays below `2^64` |
| WaveletMatrices.Sub64Wraps | src/wavelet-matrix.cpp:269 | `uint64_t` subtraction is subtraction modulo `2^64` |
| WaveletMatrices.WaveletMatrix.BandInside | src/wavelet-matrix.cpp:259-270 | away from both edges, `freqRange` as written counts the band, and a band reaching past the alphabet answers `NOT_FOUND` minus the count below `min_c` |
| WaveletMatrices.NarrowBand | src/wavelet-matrix.cpp:264-269 | on the matrix of {0, 1, 0}, one entry of `[1, 2)` lies in `[0, 2)` and none below 0 |
| WaveletMatrices.WaveletMatrix.FreqRange | src/wavelet-matrix.cpp:259-270 | `freqRange` counts the range's entries in `[min_c, max_c)`, and is 0 for the guarded cases (corrected, see Findings: no `NOT_FOUND` from `max_c` past the alphabet, and both `rankAll` calls corrected) |
| WaveletMatrices.QuantileStep | src/wavelet-matrix.cpp:295-324 | one level splits the range into the entries with a 0 and those with a 1 next, the zeros first in value order |
| WaveletMatrices.QuantileLevel | src/wavelet-matrix.cpp:310-323 | one round keeps the entry of rank `k` inside the child node it picks: the new `k` plus the entries below that node equals the old `k` plus those below the parent |
| WaveletMatrices.QuantileDown | src/wavelet-matrix.cpp:288-324 | the loop finds the value of rank `k` in the range, bit by bit |
| WaveletMatrices.ValueInAlphabet | src/wavelet-matrix.cpp:326 | a value that occurs in a range is inside the alphabet |
| WaveletMatrices.WaveletMatrix.QuantileRange | src/wavelet-matrix.cpp:280-328 | `quantileRange(lo, hi, k)` gives the value of rank `k` in the range, or `NOT_FOUND` twice for a bad range or `k` (corrected, see Findings: the source takes the shortcuts at `begin_pos == 0` and `end_pos == size_`) |
| WaveletMatrices.WaveletMatrix.MaxRange | src/wavelet-matrix.cpp:272-274 | `maxRange` gives a value that occurs in the range with nothing above it (corrected, see Findings: it calls the corrected `quantileRange`) |
| WaveletMatrices.WaveletMatrix.MinRange | src/wavelet-matrix.cpp:276-278 | `minRange` gives a value that occurs in the range with nothing below it (corrected, see Findings: it calls the corrected `quantileRange`) |
| WaveletMatrices.QuantLevelAsWritten | src/wavelet-matrix.cpp:298-320 | one level of `quantileRange` as written keeps every end that takes no shortcut inside the level, and a `k` below `2^64` below it |
| WaveletMatrices.QuantileAsWritten | src/wavelet-matrix.cpp:295-324 | the loop of `quantileRange` as written, value first bit on top and node first bit at bit 0, ends on a value of `alphabetBitNum_` bits |
| WaveletMatrices.QuantUnfold | src/wavelet-matrix.cpp:295-324 | the loop as written from level `i` is one level followed by the loop from level `i + 1`, the node gaining bit `i` and the value one bit at the bottom |
| WaveletMatrices.QuantOneInRange | src/wavelet-matrix.cpp:310-317 | away from both edges, when `k` is not below the zeros between the ends, the bit is 1, `k` drops by those zeros and both ends move past the level's zeros, nothing wrapping modulo `2^64` |
| WaveletMatrices.QuantZeroInRange | src/wavelet-matrix.cpp:310-320 | away from both edges, when `k` is below the zeros between the ends, the bit is 0 and the ends move to their `rank0` |
| WaveletMatrices.QuantInsideStep | src/wavelet-matrix.cpp:298-320 | away from both edges one level as written keeps the ends on the walks of the chosen prefix and `k` the rank among its entries, after those below it |
| WaveletMatrices.QuantileAtEnd | src/wavelet-matrix.cpp:295-324 | once all levels are read, the prefix found is the value of rank `k` in the range |
| WaveletMatrices.QuantAdvance | src/wavelet-matrix.cpp:295-324 | one level as written away from both edges gives the next node, prefix and state, and the loop from there ends on the same value |
| WaveletMatrices.QuantNext | src/wavelet-matrix.cpp:295-324 | one level as written away from both edges moves that state to the next level without changing the value the loop ends on |
| WaveletMatrices.QuantileInside | src/wavelet-matrix.cpp:295-324 | with neither shortcut, the loop as written ends on the value of rank `k` in the range |
| WaveletMatrices.QuantLevelDownAsWritten | src/wavelet-matrix.cpp:298-323 | one pass of the loop as written gives the state, node and value of `QuantileAsWritten` one level down |
| WaveletMatrices.QuantileDownAsWritten | src/wavelet-matrix.cpp:288-324 | the loop as written ends on the value `QuantileAsWritten` gives |
| WaveletMatrices.WaveletMatrix.QuantileValueAsWritten | src/wavelet-matrix.cpp:288-324 | the value the loop of `quantileRange` as written ends on, with the shortcuts its ends call for, is inside the alphabet's bits |
| WaveletMatrices.WaveletMatrix.QuantileRangeAsWritten | src/wavelet-matrix.cpp:280-328 | `quantileRange` as written: `NOT_FOUND` for a bad range or `k`; otherwise the value of the loop as written, which away from both edges is the value of rank `k` in the range |
| WaveletMatrices.WaveletMatrix.QuantilesInside | src/wavelet-matrix.cpp:292-324 | away from both edges the loop as written ends on the value of rank `k` in the range |
| WaveletMatrices.WaveletMatrix.MaxRangeAsWritten | src/wavelet-matrix.cpp:272-274 | `maxRange` as written: `NOT_FOUND` for a bad range, otherwise the loop as written for the last rank, which away from both edges is the largest value in the range |
| WaveletMatrices.WaveletMatrix.MinRangeAsWritten | src/wavelet-matrix.cpp:276-278 | `minRange` as written: `NOT_FOUND` for a bad range, otherwise the loop as written for rank 0, which away from both edges is the smallest value in the range |
| WaveletMatrices.TwoThreeQuantLevels | src/wavelet-matrix.cpp:298-320 | on {2, 3} with both shortcuts, level 0 picks a 1 and keeps the state, and level 1 reads node 1, whose zeros wrap to `NOT_FOUND`, and picks a 0 |
| WaveletMatrices.TwoThreeQuantile | src/wavelet-matrix.cpp:295-324 | `quantileRange(0, 2, 1)` as written on the tables of {2, 3} ends on the value 2 |
| WaveletMatrices.MaxRangeMisreads | src/wavelet-matrix.cpp:298-308 | on the matrix of {2, 3}, `maxRange(0, 2)`, through `quantileRange(0, 2, 1)` as written, answers 2, where 3 is above it and is the value of rank 1 |

## Left out

- Saving and loading: `BitVector::save`/`load`, `Vector::load`/`save`/`read_`/`write_`, and `WaveletMatrix::save`/`load`. These are stream I/O. `Vector::map` is modelled on an image already split into a header and objects.
- The SSE3, POPCNT and MSVC branches of `select64` and `PopCount::count` are left out. The hardware population count is taken to be the number of one bits.
- Benchmarks and destructors are left out.
- `Vector`'s iterators `begin()`/`end()`, and its `size()`/`capacity()`/`fixed()` getters, are read as fields. The non-const `front()`/`back()` are covered by `Put` and the const versions.
- `WaveletMatrix::bitSize()`, the unused `uint2bit` helper, and the `seps_` member are left out.
- The trie's three bit vectors and the wavelet matrix's levels are sequences of bits with counting `Rank`/`Select`. `BitBridges` ties that form to the words of `BitVector`.
- Tries.Trie.Build: requires the keys to total fewer than `2^31 - 1` bytes. This keeps the LOUDS bit vector within the 32-bit counts of the rank directory.
- BitVectors.BitVector.Sized: requires fewer than `2^32` bits, because the directory's absolute counts and the samples are 32-bit.
- BitVectors.BitVector.Set: requires `i + 1 < 2^32` for the same reason.
- Tries.RunsAlong: a query byte past the end of a tail counts as a mismatch. The source reads `tail[j-i]` there: the terminating `'\0'` at the tail's length, and undefined memory beyond it.
- Tries.Trie.ExactMatchSearchAsWritten: non-termination is shown by an answer of `None` for every `fuel`, not by an infinite loop.
- SelectWords.Ctz: gives 64 for a zero word, where the builtin is undefined. `select64` never calls it on zero.
- SelectWords.Rank64: requires `0 < i`, because the shift by 64 the source performs for `i == 0` is undefined.
- WaveletMatrices.WaveletMatrix.Build: requires fewer than `2^64` values, each below `NOT_FOUND`. It does not model the `int` shift `1 << (i + 1)`, which overflows from level 31 on.
- WaveletMatrices.GetAlphabetNum: states the alphabet only when every value is below `NOT_FOUND`; a value `2^64 - 1` wraps the answer.
- WaveletMatrices.WaveletMatrix.SelectFromPos: states only the guards, the case without levels, and that a success lies in `[1, size]`. It does not state that the answer is the position after the `rank`-th occurrence.
- WaveletMatrices.WaveletMatrix.Select: the same bounds only.
- WaveletMatrices.WaveletMatrix.QuantileRange: proves the value, but for the position only that it is below `size`. Its value is the corrected one (see Findings): both ends take `rank0` on every level, where the shortcuts at lines 298-308 of `src/wavelet-matrix.cpp` misread the node as at lines 180-190. `QuantileRangeAsWritten` models the value as written.
- WaveletMatrices.WaveletMatrix.QuantileRangeAsWritten: models the value only, not the position from `select`. Its contract gives the value as `QuantileValueAsWritten`; that it is the value of rank `k` is proved only away from both edges (`0 < begin_pos` and `end_pos < size_`), by `QuantilesInside`.
- WaveletMatrices.WaveletMatrix.MaxRange: its value is the corrected one (see Findings), from the corrected `QuantileRange`; the source's `maxRange` misreads with a shortcut, as `MaxRangeMisreads` shows. The position is bounded as in `QuantileRange`.
- WaveletMatrices.WaveletMatrix.MaxRangeAsWritten: models the value only; that it is the largest in the range is proved only away from both edges.
- WaveletMatrices.WaveletMatrix.MinRange: its value is the corrected one (see Findings), from the corrected `QuantileRange`. The position is bounded as in `QuantileRange`.
- WaveletMatrices.WaveletMatrix.MinRangeAsWritten: models the value only; that it is the smallest in the range is proved only away from both edges.
- WaveletMatrices.WaveletMatrix.FreqSum: 64-bit wrap-around is modelled. The loop counter is unbounded, so a band ending at `2^64` is not modelled. Each `freq` is the corrected one, so the misread of a one-symbol matrix (Findings) is not carried into the sum.
- WaveletMatrices.Log2: gives 64 for `x > 2^63`. There the source's loop `while (x >> bit_num)` reaches a shift by 64, which is undefined.
- WaveletMatrices.WaveletMatrix.Freq: uses the corrected `rank`. The source's `freq(0)` on a matrix of one symbol reads `nodeBeginPos_[-1]` (Findings).
- WaveletMatrices.WaveletMatrix.RankLessThan: states the corrected count. The source passes `begin_pos == 0`, so it always takes the shortcut of `rankAll`; `PrefixShortcutMisreads` shows it answering 0 where the count is 1.
- WaveletMatrices.WaveletMatrix.RankMoreThan: states the corrected count, for the same reason; `PrefixShortcutMisreads` shows it answering 1 where the count is 0.
- WaveletMatrices.WaveletMatrix.FreqRange: states the corrected count. Both of its `rankAll` calls are the corrected ones, and a `max_c` past the alphabet counts up to the alphabet.
- WaveletMatrices.WaveletMatrix.FreqRangeAsWritten: its contract gives the answer as `BandAsWritten`, the difference of the two `rankAll` calls as written. Its value as a count is proved only away from both edges (`0 < begin_pos` and `end_pos < size_`), by `BandInside`.
- Tries.SymbolAt: the end of the query labels no edge. The source reads `str[len]`, the terminating NUL, and follows an edge labelled 0 if a key has one. With keys {"a", "a\0"}, `commonPrefixSearch("a")` reports "a\0", which is not a prefix of "a", and then reads `str[len + 1]`. The model stops at the end of the query, so its `CommonPrefixSearch` agrees with the source only when no key continues the query with byte 0.
- Tries.Trie.ExactMatchSearchAsWritten: also loops for ever on some queries that begin a key, for example keys {"abc"} and the query "ab": the root is a tail leaf, the tail does not match, and the walk stops at `keyPos` 1. The contract proves `None` only for queries that begin no key.

## Findings

| source | as written | input that shows it | evidently intended | confidence | as-written member | corrected member |
|---|---|---|---|---|---|---|
| src/bit-vector.cpp:319 | `rank(i)` always reads `blocks_[i / 64]` | a bit vector of 64 bits and `rank(64)` reads `blocks_[1]` of a one-word array; the empty vector's `rank(0)` reads `blocks_[0]` | read the word only when `i % 64 != 0`, since it adds nothing otherwise | not executed | BitVectors.RankAsWrittenPastEnd | BitVectors.BitVector.Rank |
| src/trie.cpp:131-136 | the loop runs while `keyPos <= len`, but after a missing edge `traverse` answers `CAN_NOT_TRAVERSE` without moving `keyPos` | keys {"abc", "abd"} and `exactMatchSearch("x")` never returns; nor does keys {"abc"} and `exactMatchSearch("ab")` | return `NOT_FOUND` once `traverse` answers `CAN_NOT_TRAVERSE` | not executed | Tries.Trie.ExactMatchSearchAsWritten | Tries.Trie.ExactMatchSearch |
| src/wavelet-matrix.cpp:120 | `rank` reads `nodeBeginPos_[alphabetBitNum_ - 1][c]` even when there are no levels | a matrix built from {0} has `alphabetBitNum_ == 0`, and `rank(0, 1)` reads outside the table | with no levels every entry is `c`, and the answer is the count of `c` before `pos` | not executed | WaveletMatrices.WaveletMatrix.RankAsWritten | WaveletMatrices.WaveletMatrix.Rank |
| src/wavelet-matrix.cpp:180-190 | whenever `begin_pos == 0` (`from_zero`) or `end_pos == size_` (`to_end`), that end's zeros are read from `nodeBeginPos_[i][node_num]` or `[node_num + 1]`, where `node_num` gathers the bits of `c` with the first at bit 0, instead of from `rank0` | a matrix of {2, 3}: `rankAll(3, 0, 2)` answers (3, `NOT_FOUND`, 0) and `rankAll(3, 1, 2)` answers (2, `NOT_FOUND`, 0); `rankLessThan(3, 1)` answers 0 and `rankMoreThan(2, 1)` answers 1 | (1, 1, 0) and (1, 0, 0); `rankLessThan(3, 1)` is 1 and `rankMoreThan(2, 1)` is 0 | not executed | WaveletMatrices.ShortcutsMisread, WaveletMatrices.PrefixShortcutMisreads | WaveletMatrices.WaveletMatrix.RankAll |
| src/wavelet-matrix.cpp:267-269 | `rankAll(max_c, ...)` answers `NOT_FOUND` when `max_c` is past the alphabet, and that is subtracted from | a matrix of {0, 1, 0} and `freqRange(0, 2, 1, 2)` answers `NOT_FOUND` | 1, the one entry of `[1, 2)` in the band | not executed | WaveletMatrices.WaveletMatrix.FreqRangeAsWritten | WaveletMatrices.WaveletMatrix.FreqRange |
| src/wavelet-matrix.cpp:298-308 | `quantileRange` takes the same shortcuts: whenever `begin_pos == 0` (`from_zero`) or `end_pos == size_` (`to_end`), that end's zeros are read from `nodeBeginPos_[i][node_num]` or `[node_num + 1]`, where `node_num` gathers the bits chosen so far with the first at bit 0, instead of from `rank0` | a matrix of {2, 3}: `maxRange(0, 2)`, that is `quantileRange(0, 2, 1)`, answers the value 2: on level 1 it reads node 1 (beginnings 1 and 0), the zeros between the ends wrap to `NOT_FOUND`, and the bit is 0 | 3, the largest value and the one of rank 1 | not executed | WaveletMatrices.MaxRangeMisreads, WaveletMatrices.WaveletMatrix.QuantileRangeAsWritten | WaveletMatrices.WaveletMatrix.QuantileRange |
