/**
 * Rank and select over a plain sequence of bits.
 *
 * The trie and the wavelet matrix use their bit vectors only through
 * `operator[]`, `rank` and `select`; `BitVector` (bit_vector.dfy) is proved
 * to answer these as counts over its bits. The structures built on top are
 * modelled here over `seq<bool>`, with rank and select as the counting
 * functions below.
 */
module BitSeqs {

  /** The number of entries equal to `v` among the first `i`: `rank1(i)`
      for `v == true`, `rank0(i)` for `v == false`. */
  function Rank(bits: seq<bool>, v: bool, i: nat): (r: nat)
    requires i <= |bits|
    ensures r <= i
  {
    if i == 0 then 0 else Rank(bits, v, i - 1) + (if bits[i - 1] == v then 1 else 0)
  }

  /** The total number of entries equal to `v`. */
  function Total(bits: seq<bool>, v: bool): nat
  {
    Rank(bits, v, |bits|)
  }

  /** Ones and zeros before `i` add up to `i`. */
  lemma {:induction false} RankSplit(bits: seq<bool>, i: nat)
    requires i <= |bits|
    ensures Rank(bits, true, i) + Rank(bits, false, i) == i
  {
    if i > 0 {
      RankSplit(bits, i - 1);
    }
  }

  lemma {:induction false} RankMonotone(bits: seq<bool>, v: bool, i: nat, j: nat)
    requires i <= j <= |bits|
    ensures Rank(bits, v, i) <= Rank(bits, v, j)
    decreases j - i
  {
    if i < j {
      RankMonotone(bits, v, i, j - 1);
    }
  }

  /** Between two positions holding `v`, the count of `v` grows. */
  lemma RankGrows(bits: seq<bool>, v: bool, p: nat, q: nat)
    requires p < q <= |bits| && bits[p] == v
    ensures Rank(bits, v, p) < Rank(bits, v, q)
  {
    RankMonotone(bits, v, p + 1, q);
  }

  /** Appending bits does not change counts over the old prefix. */
  lemma {:induction false} RankAppend(bits: seq<bool>, more: seq<bool>, v: bool, i: nat)
    requires i <= |bits|
    ensures Rank(bits + more, v, i) == Rank(bits, v, i)
  {
    if i > 0 {
      RankAppend(bits, more, v, i - 1);
    }
  }

  /** Counting within a prefix ignores whatever follows it. */
  lemma RankPrefix(bits: seq<bool>, longer: seq<bool>, v: bool, i: nat)
    requires bits <= longer && i <= |bits|
    ensures Rank(longer, v, i) == Rank(bits, v, i)
  {
    assert longer == bits + longer[|bits|..];
    RankAppend(bits, longer[|bits|..], v, i);
  }

  /** A run of `k` copies of `w` after `i` adds `k` or nothing. */
  lemma {:induction false} RankRun(bits: seq<bool>, v: bool, w: bool, i: nat, k: nat)
    requires i + k <= |bits|
    requires forall t | i <= t < i + k :: bits[t] == w
    ensures Rank(bits, v, i + k) == Rank(bits, v, i) + (if v == w then k else 0)
  {
    if k > 0 {
      RankRun(bits, v, w, i, k - 1);
    }
  }

  /** `select(k)`: the position of the `k`-th (0-based) entry equal to `v`,
      searched among the first `n` positions. */
  function SelectBelow(bits: seq<bool>, v: bool, k: nat, n: nat): (p: nat)
    requires n <= |bits| && k < Rank(bits, v, n)
    ensures p < n && bits[p] == v && Rank(bits, v, p) == k
  {
    if bits[n - 1] == v && Rank(bits, v, n - 1) == k then n - 1
    else SelectBelow(bits, v, k, n - 1)
  }

  /** `select1(k)` for `v == true`, `select0(k)` for `v == false`. */
  function Select(bits: seq<bool>, v: bool, k: nat): (p: nat)
    requires k < Total(bits, v)
    ensures p < |bits| && bits[p] == v && Rank(bits, v, p) == k
  {
    SelectBelow(bits, v, k, |bits|)
  }

  /** Select inverts rank: the only position holding the `k`-th `v` is
      `Select(bits, v, k)`. */
  lemma SelectUnique(bits: seq<bool>, v: bool, k: nat, q: nat)
    requires q < |bits| && bits[q] == v && Rank(bits, v, q) == k
    ensures k < Total(bits, v) && Select(bits, v, k) == q
  {
    RankGrows(bits, v, q, |bits|);
    var p := Select(bits, v, k);
    if p < q {
      RankGrows(bits, v, p, q);
    } else if q < p {
      RankGrows(bits, v, q, p);
    }
  }

  /** Selecting among old bits is not disturbed by appending. */
  lemma SelectAppend(bits: seq<bool>, more: seq<bool>, v: bool, k: nat)
    requires k < Total(bits, v)
    ensures k < Total(bits + more, v) && Select(bits + more, v, k) == Select(bits, v, k)
  {
    var p := Select(bits, v, k);
    RankAppend(bits, more, v, p);
    SelectUnique(bits + more, v, k, p);
  }

  /** `n` copies of `v`. */
  function Repeat(v: bool, n: nat): (r: seq<bool>)
    ensures |r| == n && forall t | 0 <= t < n :: r[t] == v
  {
    if n == 0 then [] else Repeat(v, n - 1) + [v]
  }
}
