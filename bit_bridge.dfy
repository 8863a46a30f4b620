/**
 * The words of a `BitVector` read as a sequence of bits: its `rank` and
 * `select` answers are the counting `Rank` and `Select` over that sequence,
 * which is how the trie and the wavelet matrix are modelled.
 */
module BitBridges {
  import opened BitVectors
  import BitSeqs

  /** The first `size` bits held by the words `bs`. */
  ghost function BitsOf(bs: seq<bv64>, size: nat): (bits: seq<bool>)
    requires size <= 64 * |bs|
    ensures |bits| == size && forall p | 0 <= p < size :: bits[p] == BitOf(bs, p)
  {
    seq(size, p requires 0 <= p < size => BitOf(bs, p))
  }

  /** `rank1(i)` of the words is the count of ones among the first `i`
      bits, and `rank0(i)` the count of zeros. */
  lemma {:induction false} RankAgrees(bs: seq<bv64>, size: nat, i: nat)
    requires i <= size <= 64 * |bs|
    ensures BitSeqs.Rank(BitsOf(bs, size), true, i) == OnesBefore(bs, i)
    ensures BitSeqs.Rank(BitsOf(bs, size), false, i) == i - OnesBefore(bs, i)
  {
    if i > 0 {
      RankAgrees(bs, size, i - 1);
    }
  }

  /** The stored number of ones is the sequence's total. */
  lemma TotalAgrees(bs: seq<bv64>, size: nat)
    requires size <= 64 * |bs|
    ensures BitSeqs.Total(BitsOf(bs, size), true) == OnesBefore(bs, size)
    ensures BitSeqs.Total(BitsOf(bs, size), false) == size - OnesBefore(bs, size)
  {
    RankAgrees(bs, size, size);
  }

  /** What `select1(x)` answers is the sequence's `Select(true, x)`. */
  lemma SelectOneAgrees(bs: seq<bv64>, size: nat, p: nat, x: nat)
    requires size <= 64 * |bs| && p < size && IsOne(bs, p, x)
    ensures x < BitSeqs.Total(BitsOf(bs, size), true)
    ensures BitSeqs.Select(BitsOf(bs, size), true, x) == p
  {
    RankAgrees(bs, size, p);
    BitSeqs.SelectUnique(BitsOf(bs, size), true, x, p);
  }

  /** What `select0(x)` answers is the sequence's `Select(false, x)`. */
  lemma SelectZeroAgrees(bs: seq<bv64>, size: nat, p: nat, x: nat)
    requires size <= 64 * |bs| && p < size && IsZero(bs, p, x)
    ensures x < BitSeqs.Total(BitsOf(bs, size), false)
    ensures BitSeqs.Select(BitsOf(bs, size), false, x) == p
  {
    RankAgrees(bs, size, p);
    BitSeqs.SelectUnique(BitsOf(bs, size), false, x, p);
  }
}
