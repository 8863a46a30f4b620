/**
 * `BitVector`: a growable sequence of bits stored in 64-bit words, with a
 * rank directory (one `RankIndex` per large block of 512 bits) and two
 * sampled select directories (the position of every 512-th one and every
 * 512-th zero), built once by `build()`.
 *
 * The specification side works on the word sequence `blocks`:
 * `OnesBefore(blocks, p)` is the number of one bits below position `p`,
 * counted bit by bit; it is the reference definition of `rank`.
 */
module BitVectors {
  import opened Words
  import opened PopCounts
  import opened RankIndexes
  import opened SelectWords
  import opened Outcomes

  const S_BLOCK_SIZE: nat := 64
  const L_BLOCK_SIZE: nat := 512
  const BLOCK_RATE: nat := 8

  // ------------------------------------------------------ specification

  /** Bit `p`: bit `p % 64` of word `p / 64`. */
  predicate BitOf(bs: seq<bv64>, p: nat)
    requires p < 64 * |bs|
  {
    Bit(bs[p / 64], p % 64)
  }

  /** The number of one bits at the positions below `p`. */
  function OnesBefore(bs: seq<bv64>, p: nat): (r: nat)
    requires p <= 64 * |bs|
    ensures r <= p
  {
    if p == 0 then 0 else OnesBefore(bs, p - 1) + (if BitOf(bs, p - 1) then 1 else 0)
  }

  /** `OnesBefore`, where the positions past the last word count as zeros. */
  function OnesUpTo(bs: seq<bv64>, p: nat): (r: nat)
    ensures r <= p
  {
    OnesBefore(bs, if p <= 64 * |bs| then p else 64 * |bs|)
  }

  /** The number of zero bits below `p`, counting the positions past the
      last word as zeros. */
  function ZerosUpTo(bs: seq<bv64>, p: nat): (r: nat)
    ensures r + OnesUpTo(bs, p) == p
  {
    p - OnesUpTo(bs, p)
  }

  /** Position `p` holds the one bit of index `x` (`select1(x) == p`). */
  ghost predicate IsOne(bs: seq<bv64>, p: nat, x: nat)
  {
    p < 64 * |bs| && BitOf(bs, p) && OnesBefore(bs, p) == x
  }

  /** Position `p` holds the zero bit of index `x` (`select0(x) == p`). */
  ghost predicate IsZero(bs: seq<bv64>, p: nat, x: nat)
  {
    p < 64 * |bs| && !BitOf(bs, p) && p - OnesBefore(bs, p) == x
  }

  /** Position `64 j + r` is bit `r` of word `j`. */
  lemma WordPosition(bs: seq<bv64>, j: nat, r: nat)
    requires j < |bs| && r < 64
    ensures (64 * j + r) / 64 == j && (64 * j + r) % 64 == r
    ensures BitOf(bs, 64 * j + r) == Bit(bs[j], r)
  {
  }

  /** Counting bit by bit inside word `j`. */
  lemma {:induction false} OnesInWord(bs: seq<bv64>, j: nat, r: nat)
    requires j < |bs| && r <= 64
    ensures OnesBefore(bs, 64 * j + r) == OnesBefore(bs, 64 * j) + Ones(bs[j], r)
  {
    if r > 0 {
      OnesInWord(bs, j, r - 1);
      WordPosition(bs, j, r - 1);
    }
  }

  /** Counting further never loses ones and gains at most one per bit. */
  lemma {:induction false} OnesBeforeMonotone(bs: seq<bv64>, p: nat, q: nat)
    requires p <= q <= 64 * |bs|
    ensures OnesBefore(bs, p) <= OnesBefore(bs, q)
    ensures OnesBefore(bs, q) - OnesBefore(bs, p) <= q - p
    decreases q
  {
    if p < q {
      OnesBeforeMonotone(bs, p, q - 1);
    }
  }

  lemma UpToMonotone(bs: seq<bv64>, p: nat, q: nat)
    requires p <= q
    ensures OnesUpTo(bs, p) <= OnesUpTo(bs, q)
    ensures ZerosUpTo(bs, p) <= ZerosUpTo(bs, q)
  {
    var n := 64 * |bs|;
    OnesBeforeMonotone(bs, if p <= n then p else n, if q <= n then q else n);
  }

  /** With no one bit at or past `size`, counting past `size` adds nothing. */
  lemma {:induction false} OnesPastSize(bs: seq<bv64>, size: nat, q: nat)
    requires size <= q <= 64 * |bs|
    requires forall p | size <= p < 64 * |bs| :: !BitOf(bs, p)
    ensures OnesBefore(bs, q) == OnesBefore(bs, size)
    decreases q
  {
    if size < q {
      OnesPastSize(bs, size, q - 1);
    }
  }

  // ------------------------------------------------------ directories

  /** Entry `L` of the rank directory: `abs` counts the ones before large
      block `L`, and `relK` the ones in its first `K` small blocks, where
      words past the end count as empty. */
  ghost predicate EntryOf(bs: seq<bv64>, L: nat, e: RankIndex)
  {
    e.Abs() == OnesUpTo(bs, 512 * L) &&
    forall k | 1 <= k < 8 :: e.Rel(k) == OnesUpTo(bs, 512 * L + 64 * k) - OnesUpTo(bs, 512 * L)
  }

  /** The rank directory after `build()`: one entry per large block plus
      a last entry holding the total. */
  ghost predicate RankDirectory(bs: seq<bv64>, t: seq<RankIndex>)
  {
    |t| == (|bs| + 7) / 8 + 1 &&
    forall L | 0 <= L < |t| :: EntryOf(bs, L, t[L])
  }

  /** `select1_table_`: the position of every 512-th one, then `size`. */
  ghost predicate OneSamples(bs: seq<bv64>, size: nat, t: seq<nat>)
  {
    var ones := OnesBefore(bs, 64 * |bs|);
    |t| == (ones + 511) / 512 + 1 && t[|t| - 1] == size &&
    forall s | 0 <= s < |t| - 1 :: IsOne(bs, t[s], 512 * s)
  }

  /** `select0_table_`: the position of every 512-th zero among all the
      bits of the words (the zeros past `size` included), then `size`. */
  ghost predicate ZeroSamples(bs: seq<bv64>, size: nat, t: seq<nat>)
  {
    var zeros := 64 * |bs| - OnesBefore(bs, 64 * |bs|);
    |t| == (zeros + 511) / 512 + 1 && t[|t| - 1] == size &&
    forall s | 0 <= s < |t| - 1 :: IsZero(bs, t[s], 512 * s)
  }

  /** Entry `L` while `build()` has processed the words below `i`: a field
      is set once the word it is recorded at has been reached, and is
      still zero otherwise. */
  ghost predicate EntryUpTo(bs: seq<bv64>, L: nat, e: RankIndex, i: nat)
  {
    e.Abs() == (if 8 * L < i then OnesUpTo(bs, 512 * L) else 0) &&
    forall k | 1 <= k < 8 ::
      e.Rel(k) == (if 8 * L + k < i then OnesUpTo(bs, 512 * L + 64 * k) - OnesUpTo(bs, 512 * L) else 0)
  }

  ghost predicate TableUpTo(bs: seq<bv64>, t: seq<RankIndex>, i: nat)
  {
    |t| == (|bs| + 7) / 8 + 1 &&
    forall L | 0 <= L < |t| :: EntryUpTo(bs, L, t[L], i)
  }

  // ------------------------------------------------ lemmas for build()

  /** The size `build()` gives the rank directory. */
  lemma TableLength(n: nat)
    ensures (n * 64) / 512 + (if (n * 64) % 512 != 0 then 1 else 0) == (n + 7) / 8
  {
  }

  /** A fresh directory has every field unset. */
  lemma FreshTable(bs: seq<bv64>, t: seq<RankIndex>)
    requires |t| == (|bs| + 7) / 8 + 1 && forall L | 0 <= L < |t| :: t[L] == Empty()
    ensures TableUpTo(bs, t, 0)
  {
  }

  /** Word `i` adds its weight to the count. */
  lemma WordStep(bs: seq<bv64>, i: nat, w: bv64)
    requires i < |bs| && w == bs[i]
    ensures OnesUpTo(bs, 64 * (i + 1)) == OnesUpTo(bs, 64 * i) + Weight(w)
  {
    OnesInWord(bs, i, 64);
  }

  /** Bit `t` of word `i`, seen from the whole vector. */
  lemma InWord(bs: seq<bv64>, i: nat, w: bv64, t: nat)
    requires i < |bs| && w == bs[i] && t < 64
    ensures BitOf(bs, 64 * i + t) == Bit(w, t)
    ensures OnesBefore(bs, 64 * i + t) == OnesUpTo(bs, 64 * i) + Ones(w, t)
  {
    WordPosition(bs, i, t);
    OnesInWord(bs, i, t);
  }

  /** Every count is at most the number of ones, which `size` bounds. */
  lemma CountBelowSize(bs: seq<bv64>, size: nat, p: nat)
    requires size <= 64 * |bs|
    requires forall q | size <= q < 64 * |bs| :: !BitOf(bs, q)
    ensures OnesUpTo(bs, p) <= OnesBefore(bs, 64 * |bs|) == OnesBefore(bs, size) <= size
  {
    if p <= 64 * |bs| {
      UpToMonotone(bs, p, 64 * |bs|);
    }
    OnesPastSize(bs, size, 64 * |bs|);
  }

  /** The bound that lets `build()` store a relative count without loss:
      the `K` words of large block `L` before word `i` hold at most `64 K`
      ones. */
  lemma RelBound(bs: seq<bv64>, i: nat, L: nat, K: nat, e: RankIndex, ones: nat)
    requires i == 8 * L + K && i <= |bs| && 0 < K < 8 && EntryUpTo(bs, L, e, i)
    requires ones == OnesUpTo(bs, 64 * i)
    ensures e.Abs() <= ones <= e.Abs() + 64 * K
  {
    UpToMonotone(bs, 512 * L, 64 * i);
  }

  /** `set_abs(num_of_1s_)` at the first word of large block `L`. */
  lemma RecordAbs(bs: seq<bv64>, i: nat, L: nat, e: RankIndex, e2: RankIndex, ones: nat)
    requires i == 8 * L && i < |bs| && EntryUpTo(bs, L, e, i)
    requires ones == OnesUpTo(bs, 64 * i) && ones < 0x1_0000_0000
    requires e2 == e.SetAbs(ones)
    ensures EntryUpTo(bs, L, e2, i + 1)
  {
  }

  /** Field `relK` can hold the count of `K` whole words. */
  lemma WidthFits(K: nat)
    requires 1 <= K < 8
    ensures 64 * K < FieldLimit(K)
  {
  }

  /** `set_relK(num_of_1s_ - rank.abs())` at word `K` of large block `L`. */
  lemma RecordRel(bs: seq<bv64>, i: nat, L: nat, K: nat, e: RankIndex, e2: RankIndex, ones: nat, value: bv64)
    requires i == 8 * L + K && i < |bs| && 0 < K < 8 && EntryUpTo(bs, L, e, i)
    requires ones == OnesUpTo(bs, 64 * i) && e.Abs() <= ones <= e.Abs() + 64 * K
    requires value as int == ones - e.Abs() && e2 == e.SetRel(K, value)
    ensures EntryUpTo(bs, L, e2, i + 1)
  {
    WidthFits(K);
    assert Stores(e2, K, value) && Keeps(e, e2, K);
    assert e2.Rel(K) == ones - e.Abs();
    forall k | 1 <= k < 8
      ensures e2.Rel(k) == if 8 * L + k < i + 1 then OnesUpTo(bs, 512 * L + 64 * k) - OnesUpTo(bs, 512 * L) else 0
    {
      if k < K {
        assert e2.Rel(k) == e.Rel(k) && 8 * L + k < i;
      } else if k > K {
        assert e2.Rel(k) == e.Rel(k) && !(8 * L + k < i + 1);
      }
    }
  }

  /** Recording word `i` in its own entry leaves the other entries right. */
  lemma TableStep(bs: seq<bv64>, t: seq<RankIndex>, i: nat, e: RankIndex)
    requires i < |bs| && TableUpTo(bs, t, i) && EntryUpTo(bs, i / 8, e, i + 1)
    ensures i / 8 < |t| && TableUpTo(bs, t[i / 8 := e], i + 1)
  {
    var t2 := t[i / 8 := e];
    forall L | 0 <= L < |t2|
      ensures EntryUpTo(bs, L, t2[L], i + 1)
    {
      if L != i / 8 {
        assert EntryUpTo(bs, L, t[L], i);
      }
    }
  }

  /** Once every word is recorded, an entry whose eight words all exist
      is final. */
  lemma FullEntry(bs: seq<bv64>, L: nat, e: RankIndex)
    requires EntryUpTo(bs, L, e, |bs|) && 8 * L + 8 <= |bs|
    ensures EntryOf(bs, L, e)
  {
  }

  /** Past the last word there is nothing more to count. */
  lemma PastEnd(bs: seq<bv64>, p: nat)
    requires 64 * |bs| <= p
    ensures OnesUpTo(bs, p) == OnesUpTo(bs, 64 * |bs|)
  {
  }

  /** The fall-through switch fills the fields of the last, partial large
      block `L`, which holds `m` words, with the total. */
  lemma PartialEntry(bs: seq<bv64>, L: nat, m: nat, e: RankIndex, e2: RankIndex)
    requires |bs| == 8 * L + m && 0 < m < 8 && EntryUpTo(bs, L, e, |bs|)
    requires e2.abs == e.abs
    requires forall k | 1 <= k < m :: e2.Rel(k) == e.Rel(k)
    requires forall k | m <= k < 8 :: e2.Rel(k) == OnesUpTo(bs, 64 * |bs|) - OnesUpTo(bs, 512 * L)
    ensures EntryOf(bs, L, e2)
  {
    forall k | 1 <= k < 8
      ensures e2.Rel(k) == OnesUpTo(bs, 512 * L + 64 * k) - OnesUpTo(bs, 512 * L)
    {
      if m <= k {
        PastEnd(bs, 512 * L + 64 * k);
      }
    }
  }

  /** The entry after the last large block holds the total alone. */
  lemma LastEntry(bs: seq<bv64>, L: nat, e: RankIndex, e2: RankIndex, ones: nat)
    requires L == (|bs| + 7) / 8 && EntryUpTo(bs, L, e, |bs|)
    requires ones == OnesUpTo(bs, 64 * |bs|) && ones < 0x1_0000_0000
    requires e2 == e.SetAbs(ones)
    ensures EntryOf(bs, L, e2)
  {
    PastEnd(bs, 512 * L);
    forall k | 1 <= k < 8
      ensures e2.Rel(k) == OnesUpTo(bs, 512 * L + 64 * k) - OnesUpTo(bs, 512 * L)
    {
      PastEnd(bs, 512 * L + 64 * k);
    }
  }

  /** The entries before the partial and the last one cover whole
      large blocks. */
  lemma WholeBlocks(n: nat, L: nat)
    requires L + 2 < (n + 7) / 8 + 1 || (n % 8 == 0 && L + 2 == (n + 7) / 8 + 1)
    ensures 8 * L + 8 <= n
  {
  }

  /** The directory is complete once the partial entry (if any) and the
      last one are final. */
  lemma TableComplete(bs: seq<bv64>, t0: seq<RankIndex>, t: seq<RankIndex>)
    requires TableUpTo(bs, t0, |bs|) && |t| == |t0|
    requires EntryOf(bs, |t| - 1, t[|t| - 1])
    requires |bs| % 8 != 0 ==> EntryOf(bs, |t| - 2, t[|t| - 2])
    requires forall L | 0 <= L < |t| - 1 && (|bs| % 8 == 0 || L != |t| - 2) :: t[L] == t0[L]
    ensures RankDirectory(bs, t)
  {
    forall L | 0 <= L < |t|
      ensures EntryOf(bs, L, t[L])
    {
      if L < |t| - 1 && (|bs| % 8 == 0 || L != |t| - 2) {
        WholeBlocks(|bs|, L);
        FullEntry(bs, L, t0[L]);
      }
    }
  }

  /** A count kept between 1 and 512 above a multiple of 512 fixes the
      number of samples taken. */
  lemma SampleCount(count: nat, m: nat)
    requires 0 < 512 + count - 512 * m <= 512
    ensures m == (count + 511) / 512
  {
  }

  /** The field limits grow with the field number. */
  lemma LimitGrows(a: nat, b: nat)
    requires 1 <= a <= b < 8
    ensures FieldLimit(a) <= FieldLimit(b)
  {
  }

  /** The fall-through `switch ((block_num - 1) % BLOCK_RATE)` at the end
      of `build()`: field `from` and every later field are set to `value`. */
  method FillFrom(e: RankIndex, from: nat, value: bv64) returns (r: RankIndex)
    requires 1 <= from < 8 && value as int < FieldLimit(from)
    ensures r.abs == e.abs
    ensures forall k | 1 <= k < from :: r.Rel(k) == e.Rel(k)
    ensures forall k | from <= k < 8 :: r.Rel(k) == value as int
  {
    r := e;
    var k := from;
    while k < 8
      invariant from <= k <= 8
      invariant r.abs == e.abs
      invariant forall j | 1 <= j < from :: r.Rel(j) == e.Rel(j)
      invariant forall j | from <= j < k :: r.Rel(j) == value as int
    {
      LimitGrows(from, k);
      var next := r.SetRel(k, value);
      assert Stores(next, k, value) && Keeps(r, next, k);
      r, k := next, k + 1;
    }
  }

  // --------------------------------------------------- steps of build()

  /** The `switch (i % 8)` of `build()` for word `i`: the first word of a
      large block stores the running count as `abs`, word `K` of it stores
      the count since the block began as `relK`. */
  method RecordWord(ghost bs: seq<bv64>, table: seq<RankIndex>, i: nat, ones: nat)
    returns (t: seq<RankIndex>)
    requires i < |bs| && TableUpTo(bs, table, i)
    requires ones == OnesUpTo(bs, 64 * i) && ones < 0x1_0000_0000
    ensures TableUpTo(bs, t, i + 1)
  {
    var rankId := i / BLOCK_RATE;
    var rank := table[rankId];
    if i % 8 == 0 {
      var next := rank.SetAbs(ones);
      RecordAbs(bs, i, rankId, rank, next, ones);
      rank := next;
    } else {
      RelBound(bs, i, rankId, i % 8, rank, ones);
      var value := FromNat(ones - rank.Abs());
      FromNatValue(ones - rank.Abs());
      var next := rank.SetRel(i % 8, value);
      RecordRel(bs, i, rankId, i % 8, rank, next, ones, value);
      rank := next;
    }
    TableStep(bs, table, i, rank);
    t := table[rankId := rank];
  }

  /** The `select1_table_` step of `build()` for word `i` holding `count1s`
      ones: when the ones seen in the current large block pass 512, the
      one that does so is sampled. `num1s` may drop below zero here; the
      caller adds `count1s` back. */
  method SampleOnes(ghost bs: seq<bv64>, i: nat, w: bv64, count1s: nat, num1s: int, sel: seq<nat>)
    returns (num1s': int, sel': seq<nat>)
    requires i < |bs| && w == bs[i] && count1s == Weight(w)
    requires num1s == 512 + OnesUpTo(bs, 64 * i) - 512 * |sel| && 0 < num1s <= 512
    requires forall s | 0 <= s < |sel| :: IsOne(bs, sel[s], 512 * s)
    ensures num1s' + count1s == 512 + OnesUpTo(bs, 64 * i) + count1s - 512 * |sel'|
    ensures 0 < num1s' + count1s <= 512
    ensures forall s | 0 <= s < |sel'| :: IsOne(bs, sel'[s], 512 * s)
  {
    num1s', sel' := num1s, sel;
    if num1s + count1s > L_BLOCK_SIZE {
      var diff := L_BLOCK_SIZE - num1s;
      var pos := Select64(w, diff, 0);
      InWord(bs, i, w, pos);
      sel' := sel + [i * S_BLOCK_SIZE + pos];
      num1s' := num1s - L_BLOCK_SIZE;
    }
  }

  /** The `select0_table_` step of `build()` for word `i` holding
      `count0s` zeros, sampled in the complement of the word. */
  method SampleZeros(ghost bs: seq<bv64>, i: nat, w: bv64, count0s: nat, num0s: int, sel: seq<nat>)
    returns (num0s': int, sel': seq<nat>)
    requires i < |bs| && w == bs[i] && count0s == 64 - Weight(w)
    requires num0s == 512 + (64 * i - OnesUpTo(bs, 64 * i)) - 512 * |sel| && 0 < num0s <= 512
    requires forall s | 0 <= s < |sel| :: IsZero(bs, sel[s], 512 * s)
    ensures num0s' + count0s == 512 + (64 * i - OnesUpTo(bs, 64 * i)) + count0s - 512 * |sel'|
    ensures 0 < num0s' + count0s <= 512
    ensures forall s | 0 <= s < |sel'| :: IsZero(bs, sel'[s], 512 * s)
  {
    num0s', sel' := num0s, sel;
    if num0s + count0s > L_BLOCK_SIZE {
      var diff := L_BLOCK_SIZE - num0s;
      OnesNot(w, 64);
      var pos := Select64(!w, diff, 0);
      NotBit(w, pos);
      OnesNot(w, pos);
      InWord(bs, i, w, pos);
      sel' := sel + [i * S_BLOCK_SIZE + pos];
      num0s' := num0s - L_BLOCK_SIZE;
    }
  }

  /** After the loop of `build()`: the fall-through switch on
      `(block_num - 1) % BLOCK_RATE` gives every field of the partial last
      large block that no word reached the total count. */
  method FillPartial(ghost bs: seq<bv64>, table: seq<RankIndex>, blockNum: nat, ones: nat)
    returns (t: seq<RankIndex>)
    requires blockNum == |bs| && blockNum % 8 != 0 && TableUpTo(bs, table, |bs|)
    requires ones == OnesUpTo(bs, 64 * |bs|)
    ensures |t| == |table| && EntryOf(bs, |t| - 2, t[|t| - 2])
    ensures forall L | 0 <= L < |t| && L != |t| - 2 :: t[L] == table[L]
  {
    var rankId := (blockNum - 1) / BLOCK_RATE;
    var rank := table[rankId];
    var from := (blockNum - 1) % BLOCK_RATE + 1;
    RelBound(bs, blockNum, rankId, from, rank, ones);
    WidthFits(from);
    var value := FromNat(ones - rank.Abs());
    FromNatValue(ones - rank.Abs());
    var filled := FillFrom(rank, from, value);
    PartialEntry(bs, rankId, from, rank, filled);
    t := table[rankId := filled];
  }

  /** The end of `build()`: the partial large block is completed and
      `rank_table_.back().set_abs(num_of_1s_)` stores the total. */
  method FinishTable(ghost bs: seq<bv64>, table: seq<RankIndex>, blockNum: nat, ones: nat)
    returns (t: seq<RankIndex>)
    requires blockNum == |bs| && TableUpTo(bs, table, |bs|)
    requires ones == OnesUpTo(bs, 64 * |bs|) && ones < 0x1_0000_0000
    ensures RankDirectory(bs, t)
  {
    t := table;
    if blockNum % 8 != 0 {
      t := FillPartial(bs, table, blockNum, ones);
    }
    var last := |t| - 1;
    var lastRank := t[last].SetAbs(ones);
    LastEntry(bs, last, t[last], lastRank, ones);
    t := t[last := lastRank];
    TableComplete(bs, table, t);
  }

  /** `PopCount::count(w)` on the whole word, and on
      `w & ((1ULL << r) - 1)` for the ones below bit `r`. */
  method CountBelow(w: bv64, r: nat) returns (c: nat)
    requires r <= 64
    ensures c == Ones(w, r)
  {
    if r == 64 {
      c := Count(w);
    } else {
      c := Count(w & LowMask(r));
      OnesLowMask(w, r);
    }
  }

  /** The loop of `build()`: word by word it records the rank directory
      entries and samples the position of every 512-th one and zero. The
      counters `num1s_in_lblock` and `num0s_in_lblock` are kept as integers:
      the source lets them go below zero for a moment in `uint64_t`
      arithmetic before adding the word's count back. */
  method ScanWords(bs: seq<bv64>)
    returns (table: seq<RankIndex>, sel0: seq<nat>, sel1: seq<nat>, ones: nat)
    requires OnesUpTo(bs, 64 * |bs|) < 0x1_0000_0000
    ensures ones == OnesUpTo(bs, 64 * |bs|)
    ensures TableUpTo(bs, table, |bs|)
    ensures 0 < 512 + ones - 512 * |sel1| <= 512
    ensures 0 < 512 + (64 * |bs| - ones) - 512 * |sel0| <= 512
    ensures forall s | 0 <= s < |sel1| :: IsOne(bs, sel1[s], 512 * s)
    ensures forall s | 0 <= s < |sel0| :: IsZero(bs, sel0[s], 512 * s)
  {
    var n := |bs|;
    var num0sInLBlock: int := L_BLOCK_SIZE;
    var num1sInLBlock: int := L_BLOCK_SIZE;
    ones := 0;
    TableLength(n);
    table := seq((n * 64) / 512 + (if (n * 64) % 512 != 0 then 1 else 0) + 1, _ => Empty());
    FreshTable(bs, table);
    sel0, sel1 := [], [];
    var i := 0;
    while i < n
      invariant i <= n
      invariant ones == OnesUpTo(bs, 64 * i) <= OnesUpTo(bs, 64 * n)
      invariant TableUpTo(bs, table, i)
      invariant num1sInLBlock == 512 + ones - 512 * |sel1| && 0 < num1sInLBlock <= 512
      invariant num0sInLBlock == 512 + (64 * i - ones) - 512 * |sel0| && 0 < num0sInLBlock <= 512
      invariant forall s | 0 <= s < |sel1| :: IsOne(bs, sel1[s], 512 * s)
      invariant forall s | 0 <= s < |sel0| :: IsZero(bs, sel0[s], 512 * s)
    {
      table := RecordWord(bs, table, i, ones);
      var w := bs[i];
      var count1s := CountBelow(w, 64);
      WordStep(bs, i, w);
      UpToMonotone(bs, 64 * (i + 1), 64 * n);
      num1sInLBlock, sel1 := SampleOnes(bs, i, w, count1s, num1sInLBlock, sel1);
      var count0s := S_BLOCK_SIZE - count1s;
      num0sInLBlock, sel0 := SampleZeros(bs, i, w, count0s, num0sInLBlock, sel0);
      num1sInLBlock := num1sInLBlock + count1s;
      num0sInLBlock := num0sInLBlock + count0s;
      ones := ones + count1s;
      i := i + 1;
    }
  }

  // ------------------------------------------------------------ BitVector

  class BitVector {
    var blocks: seq<bv64>
    var rankTable: seq<RankIndex>
    var select0Table: seq<nat>
    var select1Table: seq<nat>
    var size: nat
    var numOf1s: nat

    /** What every operation keeps: `blocks` holds exactly the words that
        cover `size` bits, the bits past `size` are zero, sizes fit the
        32-bit directory entries, and the cached count of ones never
        exceeds `size`. */
    ghost predicate Valid()
      reads this
    {
      |blocks| == (size + 63) / 64 && size < 0x1_0000_0000 && numOf1s <= size &&
      forall p | size <= p < 64 * |blocks| :: !BitOf(blocks, p)
    }

    /** The state `build()` leaves: the count of ones and the three
        directories describe the current bits. */
    ghost predicate Built()
      reads this
    {
      Valid() && numOf1s == OnesBefore(blocks, size) &&
      RankDirectory(blocks, rankTable) &&
      OneSamples(blocks, size, select1Table) && ZeroSamples(blocks, size, select0Table)
    }

    /** `build()`: one pass over the words fills the rank directory and
        samples every 512-th one and zero; then the partial last large
        block is completed, the last entry gets the total, and both sample
        lists end with `size`. */
    method Build()
      requires Valid()
      modifies this
      ensures Built()
      ensures blocks == old(blocks) && size == old(size)
    {
      var bs, n := blocks, |blocks|;
      CountBelowSize(bs, size, 64 * n);
      var table, sel0, sel1, ones := ScanWords(bs);
      table := FinishTable(bs, table, n, ones);
      SampleCount(ones, |sel1|);
      SampleCount(64 * n - ones, |sel0|);
      rankTable := table;
      select0Table := sel0 + [size];
      select1Table := sel1 + [size];
      numOf1s := ones;
    }

    /** `BitVector()`: no bits. */
    constructor ()
      ensures Valid()
      ensures blocks == [] && rankTable == [] && select0Table == [] && select1Table == []
      ensures size == 0 && numOf1s == 0
    {
      blocks, rankTable, select0Table, select1Table := [], [], [], [];
      size, numOf1s := 0, 0;
    }

    /** `BitVector(size)`: `size` zero bits in `(size + 63) / 64` words. */
    constructor Sized(n: nat)
      requires n < 0x1_0000_0000
      ensures Valid() && size == n && numOf1s == 0
      ensures |blocks| == (n + 63) / 64 && forall j | 0 <= j < |blocks| :: blocks[j] == 0
      ensures forall p | 0 <= p < 64 * |blocks| :: !BitOf(blocks, p)
      ensures rankTable == [] && select0Table == [] && select1Table == []
    {
      size := n;
      numOf1s := 0;
      var blockNum := (n + S_BLOCK_SIZE - 1) / S_BLOCK_SIZE;
      blocks := seq(blockNum, _ => 0);
      rankTable, select0Table, select1Table := [], [], [];
      new;
      ZeroWords(blocks);
    }

    /** `clear()`: back to the state of `BitVector()`. */
    method Clear()
      modifies this
      ensures Valid()
      ensures blocks == [] && rankTable == [] && select0Table == [] && select1Table == []
      ensures size == 0 && numOf1s == 0
    {
      blocks, rankTable, select0Table, select1Table := [], [], [], [];
      size, numOf1s := 0, 0;
    }

    /** `swap(x)`: the two vectors exchange all six fields. */
    method Swap(x: BitVector)
      modifies this, x
      ensures blocks == old(x.blocks) && x.blocks == old(blocks)
      ensures rankTable == old(x.rankTable) && x.rankTable == old(rankTable)
      ensures select0Table == old(x.select0Table) && x.select0Table == old(select0Table)
      ensures select1Table == old(x.select1Table) && x.select1Table == old(select1Table)
      ensures size == old(x.size) && x.size == old(size)
      ensures numOf1s == old(x.numOf1s) && x.numOf1s == old(numOf1s)
    {
      blocks, x.blocks := x.blocks, blocks;
      size, x.size := x.size, size;
      numOf1s, x.numOf1s := x.numOf1s, numOf1s;
      rankTable, x.rankTable := x.rankTable, rankTable;
      select0Table, x.select0Table := x.select0Table, select0Table;
      select1Table, x.select1Table := x.select1Table, select1Table;
    }

    /** `size()`: the number of bits, at any time; once built, the ones
        and the zeros together. */
    function Size(): (r: nat)
      reads this
      requires Valid()
      ensures r == size && r <= 64 * |blocks|
      ensures Built() ==> r == SizeOf(true) + SizeOf(false)
    {
      size
    }

    /** `size(b)`: the number of bits equal to `b`, from the count of ones
        `build()` last stored (so it is only current once built). */
    function SizeOf(b: bool): (r: nat)
      reads this
      requires Valid()
      ensures r == (if b then numOf1s else size - numOf1s)
      ensures Built() && b ==> r == OnesUpTo(blocks, size)
      ensures Built() && !b ==> r == ZerosUpTo(blocks, size)
    {
      if b then numOf1s else size - numOf1s
    }

    /** `empty()` */
    function IsEmpty(): (r: bool)
      reads this
      requires Valid()
      ensures r <==> blocks == []
    {
      size == 0
    }

    /** `operator[](i)`: bit `i`, and a throw for `i >= size`. A bit is set
        exactly when counting past it adds one to the rank. */
    method Get(i: nat) returns (r: Result<bool>)
      requires Valid()
      ensures i >= size ==> r == Failure
      ensures i < size ==> r.Success? && (r.value <==> OnesUpTo(blocks, i + 1) == OnesUpTo(blocks, i) + 1)
    {
      if i >= size {
        return Failure;
      }
      var q, rem := i / S_BLOCK_SIZE, i % S_BLOCK_SIZE;
      var w := blocks[q];
      ReadBit(blocks, i, q, rem, w);
      return Success(w & SingleBit(rem) != 0);
    }

    /** `set(i, b)`: bit `i` becomes `b`; an index past the end grows the
        vector to `i + 1` bits, appending zero words as needed. The
        directories are left as they were, so `build()` has to run again
        before `rank` or `select`. */
    method Set(i: nat, b: bool)
      requires Valid() && i + 1 < 0x1_0000_0000
      modifies this
      ensures Valid()
      ensures size == if i < old(size) then old(size) else i + 1
      ensures SetsBit(old(blocks), blocks, i, b)
      ensures rankTable == old(rankTable) && numOf1s == old(numOf1s)
      ensures select0Table == old(select0Table) && select1Table == old(select1Table)
    {
      ghost var before, oldSize := blocks, size;
      if i >= size {
        size := i + 1;
      }
      var q := i / S_BLOCK_SIZE;
      var r := i % S_BLOCK_SIZE;
      var words := blocks;
      while q >= |words|
        invariant |before| <= |words| && (|words| == |before| || |words| <= q + 1)
        invariant words[..|before|] == before
        invariant forall j | |before| <= j < |words| :: words[j] == 0
      {
        words := words + [0];
      }
      SetLength(oldSize, i, q, r, |before|, |words|);
      blocks := WriteBit(before, words, q, r, i, b);
      SetPadding(before, blocks, oldSize, size, i, b);
    }

    /** `select1(x)`: the position of the one bit of index `x` (counting
        from 0), that is the position `p` below `size` holding a one with
        `rank(p) == x`; an index with no such bit (`x >= size(true)`)
        throws. */
    method Select1(x: nat) returns (r: Result<nat>)
      requires Built()
      ensures x >= numOf1s ==> r == Failure
      ensures x < numOf1s ==> r.Success? && r.value < size && IsOne(blocks, r.value, x)
    {
      if x >= numOf1s {
        return Failure;
      }
      CountBelowSize(blocks, size, size);
      var p := SelectOneIn(blocks, rankTable, select1Table, size, x);
      return Success(p);
    }

    /** `select0(x)`: the position of the zero bit of index `x`, below
        `size`; `x >= size(false)` throws. */
    method Select0(x: nat) returns (r: Result<nat>)
      requires Built()
      ensures x >= size - numOf1s ==> r == Failure
      ensures x < size - numOf1s ==> r.Success? && r.value < size && IsZero(blocks, r.value, x)
    {
      if x >= size - numOf1s {
        return Failure;
      }
      CountBelowSize(blocks, size, size);
      var p := SelectZeroIn(blocks, rankTable, select0Table, size, x);
      return Success(p);
    }

    /** `rank(i)`: the number of ones below `i`. An index past `size`
        throws. The word holding `i` is read only when `i` is not a
        multiple of 64, so `rank(size)` stays inside `blocks` (see
        `RankAsWrittenReads` for the source's unconditional read). */
    method Rank(i: nat) returns (r: Result<nat>)
      requires Built()
      ensures i > size ==> r == Failure
      ensures i <= size ==> r == Success(OnesUpTo(blocks, i))
    {
      if i > size {
        return Failure;
      }
      var count := RankIn(blocks, rankTable, i);
      return Success(count);
    }
  }

  /** The lookup behind `rank(i)`: the large block's absolute count, the
      small block's relative count (`switch (q_small % BLOCK_RATE)`, where
      small block 0 adds nothing) and the ones below `i` in its word. */
  method RankIn(blocks: seq<bv64>, rankTable: seq<RankIndex>, i: nat) returns (offset: nat)
    requires RankDirectory(blocks, rankTable) && i <= 64 * |blocks|
    ensures offset == OnesUpTo(blocks, i)
  {
    var qLarge := i / L_BLOCK_SIZE;
    var qSmall := i / S_BLOCK_SIZE;
    var rem := i % S_BLOCK_SIZE;
    RankPosition(i, qLarge, qSmall, rem);
    RankLength(|blocks|, i, qLarge);
    var rank := rankTable[qLarge];
    offset := rank.Abs() + rank.Rel(qSmall % BLOCK_RATE);
    EntrySum(blocks, qLarge, qSmall % BLOCK_RATE, rank);
    if rem != 0 {
      var w := blocks[qSmall];
      var low := CountBelow(w, rem);
      InWord(blocks, qSmall, w, rem);
      offset := offset + low;
    }
  }


  /** `i` splits into its large block, its small block and the offset in
      the small block. */
  lemma RankPosition(i: nat, qLarge: nat, qSmall: nat, rem: nat)
    requires qLarge == i / 512 && qSmall == i / 64 && rem == i % 64
    ensures qSmall == 8 * qLarge + qSmall % 8 && i == 64 * qSmall + rem
  {
  }

  /** A position up to the end of the words lies in a large block that has
      a directory entry. */
  lemma RankLength(n: nat, i: nat, qLarge: nat)
    requires i <= 64 * n && qLarge == i / 512
    ensures qLarge < (n + 7) / 8 + 1
  {
  }

  /** The absolute count plus the relative count of small block `k` counts
      the ones before that small block. */
  lemma EntrySum(bs: seq<bv64>, L: nat, k: nat, e: RankIndex)
    requires k < 8 && EntryOf(bs, L, e)
    ensures e.Abs() + e.Rel(k) == OnesUpTo(bs, 64 * (8 * L + k))
  {
    if k > 0 {
      UpToMonotone(bs, 512 * L, 512 * L + 64 * k);
    }
  }

  /** The word `rank(i)` reads as written: for every `i` the guard lets
      through, the word `blocks_[i / 64]`, read unconditionally. */
  function RankAsWrittenReads(size: nat, i: nat): (r: Option<nat>)
    ensures r.Some? <==> i <= size
    ensures r.Some? ==> 64 * r.value <= i < 64 * r.value + 64
  {
    if i > size then None else Some(i / S_BLOCK_SIZE)
  }

  /** When `size` is a multiple of 64, `rank(size)` as written reads the
      word just past the last one; for the empty vector, `rank(0)` reads
      `blocks_[0]` of an empty word array. */
  lemma RankAsWrittenPastEnd(size: nat)
    requires size % 64 == 0
    ensures RankAsWrittenReads(size, size) == Some((size + 63) / 64)
  {
  }

  /** Zero words hold no one bit. */
  lemma ZeroWords(bs: seq<bv64>)
    requires forall j | 0 <= j < |bs| :: bs[j] == 0
    ensures forall p | 0 <= p < 64 * |bs| :: !BitOf(bs, p)
  {
    forall p | 0 <= p < 64 * |bs|
      ensures !BitOf(bs, p)
    {
      ZeroBit(p % 64);
    }
  }

  /** `blocks_[q] & (1ULL << r)` for `i == 64 q + r` is nonzero exactly
      when bit `i` is set, which is when the count of ones grows by one
      past `i`. */
  lemma ReadBit(bs: seq<bv64>, i: nat, q: nat, r: nat, w: bv64)
    requires q < |bs| && r < 64 && i == 64 * q + r && w == bs[q]
    ensures (w & SingleBit(r) != 0) == BitOf(bs, i)
    ensures BitOf(bs, i) <==> OnesUpTo(bs, i + 1) == OnesUpTo(bs, i) + 1
  {
    WordPosition(bs, q, r);
    AndSingleBit(w, r);
  }

  /** The bit update of `set(i, b)` on one word: `x | (1ULL << r)` or
      `x & ~(1ULL << r)`. */
  method WriteWordBit(x: bv64, r: nat, b: bool) returns (w: bv64)
    requires r < 64
    ensures forall t | 0 <= t < 64 :: Bit(w, t) == if t == r then b else Bit(x, t)
  {
    if b {
      w := x | SingleBit(r);
    } else {
      w := x & !SingleBit(r);
    }
    UpdateBits(x, r, b, w);
  }

  /** The last step of `set(i, b)`: `blocks_[q] |= 1ULL << r` or
      `blocks_[q] &= ~(1ULL << r)`. */
  method WriteBit(ghost before: seq<bv64>, words: seq<bv64>, q: nat, r: nat, i: nat, b: bool)
    returns (bs: seq<bv64>)
    requires |before| <= |words| && words[..|before|] == before
    requires forall j | |before| <= j < |words| :: words[j] == 0
    requires q < |words| && r < 64 && i == 64 * q + r
    ensures |bs| == |words| && SetsBit(before, bs, i, b)
  {
    var w := WriteWordBit(words[q], r, b);
    SetWord(before, words, q, r, i, b, w);
    bs := words[q := w];
  }

  /** `bs` is `before` with bit `i` set to `b`, grown by zero bits. */
  ghost predicate SetsBit(before: seq<bv64>, bs: seq<bv64>, i: nat, b: bool)
  {
    forall p: nat | p < 64 * |bs| ::
      BitOf(bs, p) == if p == i then b else p < 64 * |before| && BitOf(before, p)
  }

  /** The word `set(i, b)` writes: bit `i % 64` of word `q` takes the value
      `b`; every other bit keeps its old value, and a bit in an appended
      word is zero. */
  lemma SetWord(before: seq<bv64>, words: seq<bv64>, q: nat, r: nat, i: nat, b: bool, w: bv64)
    requires |before| <= |words| && words[..|before|] == before
    requires forall j | |before| <= j < |words| :: words[j] == 0
    requires q < |words| && r < 64 && i == 64 * q + r
    requires forall t | 0 <= t < 64 :: Bit(w, t) == if t == r then b else Bit(words[q], t)
    ensures SetsBit(before, words[q := w], i, b)
  {
    forall p: nat | p < 64 * |words|
      ensures BitOf(words[q := w], p) == if p == i then b else p < 64 * |before| && BitOf(before, p)
    {
      var j, t := p / 64, p % 64;
      assert p == 64 * j + t;
      SetWordBit(before, words, q, r, i, b, w, j, t);
    }
  }

  /** `SetWord` at position `64 j + t`. */
  lemma SetWordBit(before: seq<bv64>, words: seq<bv64>, q: nat, r: nat, i: nat, b: bool, w: bv64, j: nat, t: nat)
    requires |before| <= |words| && words[..|before|] == before
    requires forall k | |before| <= k < |words| :: words[k] == 0
    requires q < |words| && r < 64 && i == 64 * q + r
    requires j < |words| && t < 64
    requires j == q ==> Bit(w, t) == if t == r then b else Bit(words[q], t)
    ensures BitOf(words[q := w], 64 * j + t) ==
      if 64 * j + t == i then b else 64 * j + t < 64 * |before| && BitOf(before, 64 * j + t)
  {
    var nw := words[q := w];
    WordPosition(nw, j, t);
    SamePosition(j, t, q, r);
    SamePosition(j, t, |before|, 0);
    if j < |before| {
      assert words[j] == before[j];
      WordPosition(before, j, t);
    } else {
      assert words[j] == 0;
      ZeroBit(t);
    }
  }

  lemma SamePosition(j: nat, t: nat, q: nat, r: nat)
    requires t < 64 && r < 64
    ensures (64 * j + t == 64 * q + r) == (j == q && t == r)
    ensures (64 * j + t < 64 * q) == (j < q)
  {
  }

  /** After `set(i, b)` the words cover exactly the new size. */
  lemma SetLength(oldSize: nat, i: nat, q: nat, r: nat, before: nat, words: nat)
    requires before == (oldSize + 63) / 64 && q == i / 64 && r == i % 64
    requires before <= words && (words == before || words <= q + 1) && q < words
    ensures words == ((if i < oldSize then oldSize else i + 1) + 63) / 64
  {
  }

  /** `set(i, b)` writes no one bit at or past the new size. */
  lemma SetPadding(before: seq<bv64>, bs: seq<bv64>, oldSize: nat, newSize: nat, i: nat, b: bool)
    requires SetsBit(before, bs, i, b)
    requires forall p | oldSize <= p < 64 * |before| :: !BitOf(before, p)
    requires newSize == if i < oldSize then oldSize else i + 1
    ensures forall p | newSize <= p < 64 * |bs| :: !BitOf(bs, p)
  {
  }

  // ------------------------------------------------------- select1/select0

  /** The sample that starts the search for bit `x`, and the next one,
      exist. */
  lemma SampleIndex(total: nat, x: nat, s: nat)
    requires x < total && s == x / 512
    ensures s + 1 < (total + 511) / 512 + 1
    ensures 512 * s <= x < 512 * s + 512
    ensures x % 512 == 0 ==> x == 512 * s
  {
  }

  /** Rounding a position down and up to a large block. */
  lemma BlockRounding(p: nat, n: nat)
    ensures 512 * (p / 512) <= p <= 512 * ((p + 511) / 512)
    ensures p <= 64 * n ==> (p + 511) / 512 <= (n + 7) / 8
  {
  }

  /** The last directory entry holds the total count of ones. */
  lemma TotalInLast(bs: seq<bv64>, t: seq<RankIndex>)
    requires RankDirectory(bs, t)
    ensures t[|t| - 1].Abs() == OnesUpTo(bs, 64 * |bs|)
  {
    assert EntryOf(bs, |t| - 1, t[|t| - 1]);
    PastEnd(bs, 512 * (|t| - 1));
  }

  /** The large blocks of the samples `x` falls between bracket `x` in the
      directory: the entry at `begin` counts at most `x` ones and the entry
      at `end` more than `x`. */
  lemma OneSearchBounds(bs: seq<bv64>, t: seq<RankIndex>, size: nat, x: nat, s: nat,
                        p0: nat, p1: nat, begin: nat, end: nat)
    requires RankDirectory(bs, t) && size <= 64 * |bs|
    requires OnesUpTo(bs, size) == OnesUpTo(bs, 64 * |bs|) && x < OnesUpTo(bs, 64 * |bs|)
    requires 512 * s <= x < 512 * s + 512
    requires IsOne(bs, p0, 512 * s) && (IsOne(bs, p1, 512 * (s + 1)) || p1 == size)
    requires begin == p0 / 512 && end == (p1 + 511) / 512
    ensures begin < end <= |t| - 1 && t[begin].Abs() <= x < t[end].Abs()
  {
    BlockRounding(p0, |bs|);
    BlockRounding(p1, |bs|);
    assert EntryOf(bs, begin, t[begin]);
    assert EntryOf(bs, end, t[end]);
    UpToMonotone(bs, 512 * begin, p0);
    UpToMonotone(bs, p1, 512 * end);
    if end <= begin {
      UpToMonotone(bs, 512 * end, 512 * begin);
    }
  }

  /** The same for zeros, where the directory's zero count of large block
      `L` is `512 L - abs`. */
  lemma ZeroSearchBounds(bs: seq<bv64>, t: seq<RankIndex>, size: nat, x: nat, s: nat,
                         p0: nat, p1: nat, begin: nat, end: nat)
    requires RankDirectory(bs, t) && size <= 64 * |bs|
    requires x < ZerosUpTo(bs, size)
    requires 512 * s <= x < 512 * s + 512
    requires IsZero(bs, p0, 512 * s) && (IsZero(bs, p1, 512 * (s + 1)) || p1 == size)
    requires begin == p0 / 512 && end == (p1 + 511) / 512
    ensures begin < end <= |t| - 1
    ensures 512 * begin - t[begin].Abs() <= x < 512 * end - t[end].Abs()
  {
    BlockRounding(p0, |bs|);
    BlockRounding(p1, |bs|);
    assert EntryOf(bs, begin, t[begin]);
    assert EntryOf(bs, end, t[end]);
    UpToMonotone(bs, 512 * begin, p0);
    UpToMonotone(bs, p1, 512 * end);
    if end <= begin {
      UpToMonotone(bs, 512 * end, 512 * begin);
    }
  }

  /** The decision tree of `select1`: the small block `k` of a large block
      whose first `k` small blocks hold at most `x` of its ones and whose
      first `k + 1` hold more; `rest` is the index of the bit inside
      small block `k`. `limit` is the number of ones of the large block. */
  method OneBlockOf(e: RankIndex, x: nat, ghost limit: int) returns (k: nat, rest: nat)
    requires x < limit
    ensures k < 8 && e.Rel(k) <= x && rest == x - e.Rel(k)
    ensures x < if k == 7 then limit else e.Rel(k + 1)
  {
    if x < e.Rel4() {
      if x < e.Rel2() {
        if x >= e.Rel1() {
          k, rest := 1, x - e.Rel1();
        } else {
          k, rest := 0, x;
        }
      } else if x < e.Rel3() {
        k, rest := 2, x - e.Rel2();
      } else {
        k, rest := 3, x - e.Rel3();
      }
    } else if x < e.Rel6() {
      if x < e.Rel5() {
        k, rest := 4, x - e.Rel4();
      } else {
        k, rest := 5, x - e.Rel5();
      }
    } else if x < e.Rel7() {
      k, rest := 6, x - e.Rel6();
    } else {
      k, rest := 7, x - e.Rel7();
    }
  }

  /** The zeros in the first `k` small blocks of a large block, from the
      entry's count of ones (`64 k - relK`). */
  function ZerosIn(e: RankIndex, k: nat): (r: int)
    requires k < 8
    ensures k == 0 ==> r == 0
  {
    64 * k - e.Rel(k)
  }

  /** The decision tree of `select0`, on the zero counts `ZerosIn`. */
  method ZeroBlockOf(e: RankIndex, x: nat, ghost limit: int) returns (k: nat, rest: nat)
    requires x < limit
    ensures k < 8 && ZerosIn(e, k) <= x && rest == x - ZerosIn(e, k)
    ensures x < if k == 7 then limit else ZerosIn(e, k + 1)
  {
    if x < 256 - e.Rel4() {
      k, rest := ZeroBlockLow(e, x);
    } else {
      k, rest := ZeroBlockHigh(e, x, limit);
    }
  }

  /** The half of `select0`'s decision tree for the first four small
      blocks. */
  method ZeroBlockLow(e: RankIndex, x: nat) returns (k: nat, rest: nat)
    requires x < 256 - e.Rel4()
    ensures k < 4 && ZerosIn(e, k) <= x && rest == x - ZerosIn(e, k) && x < ZerosIn(e, k + 1)
  {
    if x < 128 - e.Rel2() {
      if x >= 64 - e.Rel1() {
        k, rest := 1, x - (64 - e.Rel1());
      } else {
        k, rest := 0, x;
      }
    } else if x < 192 - e.Rel3() {
      k, rest := 2, x - (128 - e.Rel2());
    } else {
      k, rest := 3, x - (192 - e.Rel3());
    }
  }

  /** The half of `select0`'s decision tree for the last four small
      blocks. */
  method ZeroBlockHigh(e: RankIndex, x: nat, ghost limit: int) returns (k: nat, rest: nat)
    requires 256 - e.Rel4() <= x < limit
    ensures 4 <= k < 8 && ZerosIn(e, k) <= x && rest == x - ZerosIn(e, k)
    ensures x < if k == 7 then limit else ZerosIn(e, k + 1)
  {
    if x < 384 - e.Rel6() {
      if x < 320 - e.Rel5() {
        k, rest := 4, x - (256 - e.Rel4());
      } else {
        k, rest := 5, x - (320 - e.Rel5());
      }
    } else if x < 448 - e.Rel7() {
      k, rest := 6, x - (384 - e.Rel6());
    } else {
      k, rest := 7, x - (448 - e.Rel7());
    }
  }

  /** The directory entry of large block `b` gives the ones before small
      block `k` and before the next one. */
  lemma EntryBounds(bs: seq<bv64>, t: seq<RankIndex>, b: nat, k: nat)
    requires RankDirectory(bs, t) && b + 1 < |t| && k < 8
    ensures OnesUpTo(bs, 64 * (8 * b + k)) == t[b].Abs() + t[b].Rel(k)
    ensures OnesUpTo(bs, 64 * (8 * b + k) + 64) ==
      if k == 7 then t[b + 1].Abs() else t[b].Abs() + t[b].Rel(k + 1)
  {
    EntrySum(bs, b, k, t[b]);
    if k < 7 {
      EntrySum(bs, b, k + 1, t[b]);
      assert 64 * (8 * b + k) + 64 == 64 * (8 * b + (k + 1));
    } else {
      assert EntryOf(bs, b + 1, t[b + 1]);
      var next := 512 * (b + 1);
      assert 64 * (8 * b + k) + 64 == next;
      assert OnesUpTo(bs, next) == t[b + 1].Abs();
    }
  }

  /** A count between the ones before word `j` and the ones before the
      next word is the count of a one inside word `j`. */
  lemma WordOfOne(bs: seq<bv64>, j: nat, x: nat)
    requires OnesUpTo(bs, 64 * j) <= x < OnesUpTo(bs, 64 * j + 64)
    ensures j < |bs| && x - OnesUpTo(bs, 64 * j) < Weight(bs[j])
  {
    if j >= |bs| {
      PastEnd(bs, 64 * j);
      assert false;
    }
    WordStep(bs, j, bs[j]);
  }

  /** The same for zeros, for a count below the zeros of all the words. */
  lemma WordOfZero(bs: seq<bv64>, j: nat, x: nat)
    requires ZerosUpTo(bs, 64 * j) <= x < ZerosUpTo(bs, 64 * j + 64)
    requires x < ZerosUpTo(bs, 64 * |bs|)
    ensures j < |bs| && x - ZerosUpTo(bs, 64 * j) < 64 - Weight(bs[j])
  {
    if j >= |bs| {
      UpToMonotone(bs, 64 * |bs|, 64 * j);
      assert false;
    }
    WordStep(bs, j, bs[j]);
  }

  /** `select64(blocks_[j], rest, 64 j)`: the one of index `rest` inside
      word `j`. */
  method PickOne(ghost bs: seq<bv64>, j: nat, w: bv64, rest: nat) returns (p: nat)
    requires j < |bs| && w == bs[j] && rest < Weight(w)
    ensures IsOne(bs, p, OnesUpTo(bs, 64 * j) + rest)
  {
    p := Select64(w, rest, 64 * j);
    InWord(bs, j, w, p - 64 * j);
  }

  /** `select64(~blocks_[j], rest, 64 j)`: the zero of index `rest` inside
      word `j`. */
  method PickZero(ghost bs: seq<bv64>, j: nat, w: bv64, rest: nat) returns (p: nat)
    requires j < |bs| && w == bs[j] && rest < 64 - Weight(w)
    ensures IsZero(bs, p, ZerosUpTo(bs, 64 * j) + rest)
  {
    OnesNot(w, 64);
    p := Select64(!w, rest, 64 * j);
    NotBit(w, p - 64 * j);
    OnesNot(w, p - 64 * j);
    InWord(bs, j, w, p - 64 * j);
  }

  /** The body of `select1(x)` for an `x` below the count of ones: a
      sampled position when `x` is a multiple of 512; otherwise a linear
      (up to 10 large blocks) or binary search of the directory between the
      two samples around `x`, the decision tree inside the large block, and
      `select64` inside the word. */
  method SelectOneIn(blocks: seq<bv64>, rankTable: seq<RankIndex>, select1Table: seq<nat>,
                     ghost size: nat, x: nat) returns (p: nat)
    requires RankDirectory(blocks, rankTable) && OneSamples(blocks, size, select1Table)
    requires size <= 64 * |blocks| && OnesUpTo(blocks, size) == OnesUpTo(blocks, 64 * |blocks|)
    requires x < OnesUpTo(blocks, 64 * |blocks|)
    ensures IsOne(blocks, p, x)
  {
    var selectId := x / L_BLOCK_SIZE;
    SampleIndex(OnesUpTo(blocks, 64 * |blocks|), x, selectId);
    if x % L_BLOCK_SIZE == 0 {
      return select1Table[selectId];
    }
    var begin := select1Table[selectId] / L_BLOCK_SIZE;
    var end := (select1Table[selectId + 1] + L_BLOCK_SIZE - 1) / L_BLOCK_SIZE;
    OneSearchBounds(blocks, rankTable, size, x, selectId, select1Table[selectId], select1Table[selectId + 1], begin, end);
    TotalInLast(blocks, rankTable);
    begin := SearchOnes(rankTable, x, begin, end);
    p := SelectOneInLarge(blocks, rankTable, begin, x);
  }

  /** The search for the large block of the `x`th one: a linear scan when
      the sampled range spans at most ten large blocks, a binary search
      otherwise. Both end on a block whose count is at most `x` and whose
      successor's count exceeds it. */
  method SearchOnes(rankTable: seq<RankIndex>, x: nat, begin: nat, end: nat) returns (b: nat)
    requires begin < end <= |rankTable| - 1
    requires rankTable[begin].Abs() <= x < rankTable[end].Abs()
    requires x < rankTable[|rankTable| - 1].Abs()
    ensures b + 1 < |rankTable| && rankTable[b].Abs() <= x < rankTable[b + 1].Abs()
  {
    b := begin;
    if begin + 10 >= end {
      while x >= rankTable[b + 1].Abs()
        invariant b + 1 < |rankTable| && rankTable[b].Abs() <= x
        decreases |rankTable| - b
      {
        b := b + 1;
      }
    } else {
      var e := end;
      while b + 1 < e
        invariant b < e <= |rankTable| - 1
        invariant rankTable[b].Abs() <= x < rankTable[e].Abs()
        decreases e - b
      {
        var pivot := (b + e) / 2;
        if x < rankTable[pivot].Abs() {
          e := pivot;
        } else {
          b := pivot;
        }
      }
    }
  }

  /** The `x`th one of the bit vector, once its large block `b` is known:
      the decision tree over the relative counts picks the word and
      `select64` the bit within it. */
  method SelectOneInLarge(blocks: seq<bv64>, rankTable: seq<RankIndex>, b: nat, x: nat) returns (p: nat)
    requires RankDirectory(blocks, rankTable) && b + 1 < |rankTable|
    requires rankTable[b].Abs() <= x < rankTable[b + 1].Abs()
    ensures IsOne(blocks, p, x)
  {
    var rank := rankTable[b];
    var k, rest := OneBlockOf(rank, x - rank.Abs(), rankTable[b + 1].Abs() - rank.Abs());
    var blockId := b * BLOCK_RATE + k;
    EntryBounds(blocks, rankTable, b, k);
    WordOfOne(blocks, blockId, x);
    p := PickOne(blocks, blockId, blocks[blockId], rest);
  }

  /** The body of `select0(x)`, on the zero counts `512 L - abs` of the
      directory. */
  method SelectZeroIn(blocks: seq<bv64>, rankTable: seq<RankIndex>, select0Table: seq<nat>,
                      ghost size: nat, x: nat) returns (p: nat)
    requires RankDirectory(blocks, rankTable) && ZeroSamples(blocks, size, select0Table)
    requires size <= 64 * |blocks| && x < ZerosUpTo(blocks, size)
    ensures IsZero(blocks, p, x) && p < size
  {
    UpToMonotone(blocks, size, 64 * |blocks|);
    var selectId := x / L_BLOCK_SIZE;
    SampleIndex(ZerosUpTo(blocks, 64 * |blocks|), x, selectId);
    if x % L_BLOCK_SIZE == 0 {
      p := select0Table[selectId];
    } else {
      var begin := select0Table[selectId] / L_BLOCK_SIZE;
      var end := (select0Table[selectId + 1] + L_BLOCK_SIZE - 1) / L_BLOCK_SIZE;
      ZeroSearchBounds(blocks, rankTable, size, x, selectId, select0Table[selectId], select0Table[selectId + 1], begin, end);
      TotalInLast(blocks, rankTable);
      UpToMonotone(blocks, 64 * |blocks|, 512 * (|rankTable| - 1));
      begin := SearchZeros(rankTable, x, begin, end);
      p := SelectZeroInLarge(blocks, rankTable, begin, x);
    }
    if p >= size {
      UpToMonotone(blocks, size, p);
    }
  }

  /** The zeros before large block `b`, as `select0` computes them from the
      directory: `b * L_BLOCK_SIZE - rank_table_[b].abs()`. */
  function ZerosBeforeLarge(rankTable: seq<RankIndex>, b: nat): int
    requires b < |rankTable|
  {
    b * L_BLOCK_SIZE - rankTable[b].Abs()
  }

  /** The search of `select0` for the large block of the `x`th zero. */
  method SearchZeros(rankTable: seq<RankIndex>, x: nat, begin: nat, end: nat) returns (b: nat)
    requires begin < end <= |rankTable| - 1
    requires ZerosBeforeLarge(rankTable, begin) <= x < ZerosBeforeLarge(rankTable, end)
    requires x < ZerosBeforeLarge(rankTable, |rankTable| - 1)
    ensures b + 1 < |rankTable|
    ensures ZerosBeforeLarge(rankTable, b) <= x < ZerosBeforeLarge(rankTable, b + 1)
  {
    b := begin;
    if begin + 10 >= end {
      while x >= (b + 1) * L_BLOCK_SIZE - rankTable[b + 1].Abs()
        invariant b + 1 < |rankTable| && ZerosBeforeLarge(rankTable, b) <= x
        decreases |rankTable| - b
      {
        b := b + 1;
      }
    } else {
      var e := end;
      while b + 1 < e
        invariant b < e <= |rankTable| - 1
        invariant ZerosBeforeLarge(rankTable, b) <= x < ZerosBeforeLarge(rankTable, e)
        decreases e - b
      {
        var pivot := (b + e) / 2;
        if x < pivot * L_BLOCK_SIZE - rankTable[pivot].Abs() {
          e := pivot;
        } else {
          b := pivot;
        }
      }
    }
  }

  /** The `x`th zero, once its large block `b` is known. */
  method SelectZeroInLarge(blocks: seq<bv64>, rankTable: seq<RankIndex>, b: nat, x: nat) returns (p: nat)
    requires RankDirectory(blocks, rankTable) && b + 1 < |rankTable|
    requires ZerosBeforeLarge(rankTable, b) <= x < ZerosBeforeLarge(rankTable, b + 1)
    requires x < ZerosUpTo(blocks, 64 * |blocks|)
    ensures IsZero(blocks, p, x)
  {
    var rank := rankTable[b];
    var base := b * L_BLOCK_SIZE - rank.Abs();
    var k, rest := ZeroBlockOf(rank, x - base, (b + 1) * L_BLOCK_SIZE - rankTable[b + 1].Abs() - base);
    var blockId := b * BLOCK_RATE + k;
    EntryBounds(blocks, rankTable, b, k);
    WordOfZero(blocks, blockId, x);
    p := PickZero(blocks, blockId, blocks[blockId], rest);
  }
}
