/**
 * `hsds::WaveletMatrix`: a sequence of 64-bit values stored as
 * `alphabetBitNum_` bit vectors, one per bit of the values, most
 * significant first (see WaveletLevels for what the levels hold).
 *
 * The bit vectors are modelled as `seq<bool>` with `rank` and `select` as
 * the counting functions of BitSeqs; `BitVector` itself is proved to answer
 * them that way (BitBridges). The values the matrix was built from are kept
 * as the ghost field `src`, and every query is specified against it.
 */
module WaveletMatrices {
  import opened Outcomes
  import opened WaveletLevels
  import BitSeqs

  /** `NOT_FOUND`, the all-ones 64-bit value every failed query returns. */
  const NOT_FOUND: nat := 0xFFFF_FFFF_FFFF_FFFF

  /** `2^64`: unsigned 64-bit arithmetic is taken modulo this. */
  const WORD: nat := 0x1_0000_0000_0000_0000

  /** `n` is the alphabet size of `a`: every value is below `n`, and `n - 1`
      occurs (so `n` is 0 exactly for the empty input). */
  ghost predicate IsAlphabet(a: seq<nat>, n: nat)
  {
    (forall j | 0 <= j < |a| :: a[j] < n) &&
    (n > 0 ==> exists j | 0 <= j < |a| :: a[j] == n - 1)
  }

  /** `b` is the number of bits of the values below `n`, the ceiling of
      `log2(n)` (0 for `n <= 1`). */
  ghost predicate CeilLog(n: nat, b: nat)
  {
    (n == 0 ==> b == 0) &&
    (n > 0 ==> n <= Pow2(b) && (b == 0 || Pow2(b - 1) < n))
  }

  /** `getAlphabetNum`: one more than the largest value, computed in 64
      bits, so a value `2^64 - 1` wraps the running answer to 0. */
  method GetAlphabetNum(a: seq<nat>) returns (n: nat)
    requires forall j | 0 <= j < |a| :: a[j] < WORD
    ensures n < WORD
    ensures (forall j | 0 <= j < |a| :: a[j] < NOT_FOUND) ==> IsAlphabet(a, n) && (n == 0 <==> a == [])
  {
    n := 0;
    var i := 0;
    while i < |a|
      invariant i <= |a| && n < WORD
      invariant (forall j | 0 <= j < i :: a[j] < NOT_FOUND) ==> IsAlphabet(a[..i], n) && (n == 0 <==> i == 0)
    {
      if a[i] >= n {
        n := (a[i] + 1) % WORD;
      }
      if forall j | 0 <= j < i + 1 :: a[j] < NOT_FOUND {
        assert a[..i + 1] == a[..i] + [a[i]];
        if n > 0 && a[i] != n - 1 {
          var j :| 0 <= j < i && a[..i][j] == n - 1;
          assert a[..i + 1][j] == n - 1;
        }
      }
      i := i + 1;
    }
    assert a[..|a|] == a;
  }

  /** `log2`: the number of bits needed to write the values below `x`. */
  method Log2(x: nat) returns (b: nat)
    ensures CeilLog(x, b)
  {
    if x == 0 {
      return 0;
    }
    var y := x - 1;
    b := 0;
    ShrLess(y, 0, 1);
    while Shr(y, b) != 0
      invariant b == 0 || Pow2(b - 1) <= y
      invariant Pow2(b) <= 2 * y + 1
      decreases 2 * y + 1 - Pow2(b)
    {
      ShrLess(y, b, 1);
      b := b + 1;
    }
    ShrLess(y, b, 1);
  }

  /** Values below the alphabet size fit in its bit width. */
  lemma AlphabetFits(a: seq<nat>, n: nat, B: nat)
    requires IsAlphabet(a, n) && CeilLog(n, B)
    ensures Fits(a, B)
  {
  }

  /** The three counts `rankAll` reports: entries equal to, below and above
      the given value. */
  datatype Ranks = Ranks(rank: nat, less: nat, more: nat)

  /** The levels `ls` are those of `s`, and entry 1 of each level's node
      beginnings is that level's number of zeros. */
  ghost predicate LevelsOf(ls: seq<seq<bool>>, nb: seq<seq<nat>>, s: seq<nat>, B: nat)
  {
    |ls| == B && (forall i | 0 <= i < B :: ls[i] == Level(s, B, i)) && ZerosOf(ls, nb)
  }

  /** Entry 1 of each level's node beginnings is the level's number of
      zeros. */
  ghost predicate ZerosOf(ls: seq<seq<bool>>, nb: seq<seq<nat>>)
  {
    |nb| == |ls| &&
    forall i | 0 <= i < |ls| :: |nb[i]| > 1 && nb[i][1] == BitSeqs.Total(ls[i], false)
  }

  /** The shape of the tables that the loop of `rankAll` reads: `B` levels
      of `n` bits each, level `j` with `2^(j+1)` node beginnings of which
      entry 1 is the level's number of zeros. */
  ghost predicate Tables(ls: seq<seq<bool>>, nb: seq<seq<nat>>, n: nat, B: nat)
  {
    |ls| == B && Uniform(ls, n) && ZerosOf(ls, nb) && forall j | 0 <= j < B :: |nb[j]| == Pow2(j + 1)
  }

  /** What `build` stores satisfies `LevelsOf`. */
  lemma BuiltLevels(s: seq<nat>, B: nat)
    ensures LevelsOf(Levels(s, B), NodeBegins(Levels(s, B), |s|), s, B)
    ensures Uniform(Levels(s, B), |s|)
  {
    var ls := Levels(s, B);
    var nb := NodeBegins(ls, |s|);
    forall i | 0 <= i < B
      ensures ls[i] == Level(s, B, i) && |nb[i]| > 1 && nb[i][1] == BitSeqs.Total(ls[i], false)
    {
      assert Pow2(i + 1) > 1;
      NodeOne(ls, |s|, i);
      LevelsAt(s, B, i);
    }
  }

  /** One level of `lookup`: the bit at entry `x` of level `i` is bit `i`
      of the value stored there, and moving `x` by `rank` (plus the level's
      zeros for a 1) finds the same value on level `i + 1`. */
  lemma LookupStep(s: seq<nat>, B: nat, i: nat, x: nat, pos: nat)
    requires i < B && x < |s| && Order(s, B, i)[x] == pos
    ensures var l := Level(s, B, i);
            var y := if l[x] then BitSeqs.Rank(l, true, x) + BitSeqs.Total(l, false) else BitSeqs.Rank(l, false, x);
            pos < |s| && l[x] == Bit(s[pos], B, i) && y < |s| && Order(s, B, i + 1)[y] == pos &&
            Top(s[pos], B, i + 1) == 2 * Top(s[pos], B, i) + (if l[x] then 1 else 0)
  {
    var l := Level(s, B, i);
    LevelAt(s, B, i, x);
    StepAt(s, B, i, x);
    StepAgrees(l, x);
    TopStep(s[pos], B, i);
  }

  /** `Step` is `rank1` plus the zeros for a 1 and `rank0` for a 0. */
  lemma StepAgrees(l: seq<bool>, x: nat)
    requires x < |l|
    ensures Step(l, l[x], x) == if l[x] then BitSeqs.Rank(l, true, x) + BitSeqs.Total(l, false) else BitSeqs.Rank(l, false, x)
  {
  }

  /** The loop of `lookup` over the levels `ls` of `s` and their node
      beginnings `nb`. */
  method LookupIn(ls: seq<seq<bool>>, nb: seq<seq<nat>>, n: nat, ghost s: seq<nat>, ghost B: nat, pos: nat)
    returns (c: nat)
    requires LevelsOf(ls, nb, s, B) && n == |s| && Fits(s, B) && pos < n
    ensures c == s[pos]
  {
    var at: nat := pos;
    c := 0;
    ShrLess(s[pos], B, 1);
    var i: nat := 0;
    while i < |ls|
      invariant i <= B && Follows(s, B, i, at, pos, c)
    {
      LookupNext(ls, nb, s, B, i, at, pos, c);
      var l := ls[i];
      var bit := l[at];
      c := 2 * c + (if bit then 1 else 0);
      if bit {
        at := BitSeqs.Rank(l, true, at) + nb[i][1];
      } else {
        at := BitSeqs.Rank(l, false, at);
      }
      i := i + 1;
    }
  }

  /** Where the loop of `lookup` stands after `i` levels: entry `at` of
      level `i` holds entry `pos`, and `c` holds its top `i` bits. */
  ghost predicate Follows(s: seq<nat>, B: nat, i: nat, at: nat, pos: nat, c: nat)
    requires i <= B
  {
    at < |s| && pos < |s| && Order(s, B, i)[at] == pos && c == Top(s[pos], B, i)
  }

  /** `LookupStep` on the stored levels `ls` and node beginnings `nb`:
      the position the loop of `lookup` moves to still holds entry `pos`. */
  lemma LookupNext(ls: seq<seq<bool>>, nb: seq<seq<nat>>, s: seq<nat>, B: nat, i: nat, at: nat, pos: nat, c: nat)
    requires LevelsOf(ls, nb, s, B) && i < |ls| && Follows(s, B, i, at, pos, c)
    ensures i < B && |ls[i]| == |s| && |nb[i]| > 1
    ensures ls[i][at] ==> Follows(s, B, i + 1, BitSeqs.Rank(ls[i], true, at) + nb[i][1], pos, 2 * c + 1)
    ensures !ls[i][at] ==> Follows(s, B, i + 1, BitSeqs.Rank(ls[i], false, at), pos, 2 * c)
  {
    LookupStep(s, B, i, at, pos);
  }

  /** Walking position `x` down all levels along the bits of `c`, as
      `rank` and `selectFromPos` do: `rank0`, or `rank1` plus the level's
      zeros for a 1. */
  method WalkDown(ls: seq<seq<bool>>, nb: seq<seq<nat>>, n: nat, B: nat, c: nat, x: nat) returns (e: nat)
    requires |ls| == B && Uniform(ls, n) && ZerosOf(ls, nb) && x <= n
    ensures e == Walk(ls, n, B, c, x)
  {
    e := x;
    var i: nat := 0;
    while i < B
      invariant i <= B && e == Walk(ls, n, i, Top(c, B, i), x)
    {
      var bit := Bit(c, B, i);
      PathStep(ls, n, B, c, i, x);
      e := if bit then BitSeqs.Rank(ls[i], true, e) else BitSeqs.Rank(ls[i], false, e);
      if bit {
        e := e + nb[i][1];
      }
      i := i + 1;
    }
  }

  /** `rank`'s answer: the walk of `pos` minus where the node of `c` begins
      on the last level (0 when there are no levels) counts the occurrences
      of `c` before `pos`. */
  lemma RankByWalks(s: seq<nat>, B: nat, c: nat, pos: nat)
    requires Fits(s, B) && c < Pow2(B) && pos <= |s|
    ensures var ls := Levels(s, B);
            var begin := if B == 0 then 0 else NodeBegins(ls, |s|)[B - 1][c];
            begin <= Walk(ls, |s|, B, c, pos) &&
            Walk(ls, |s|, B, c, pos) - begin == Occ(s[..pos], c)
  {
    RankSpan(s, B, c, 0, pos);
    assert s[0..pos] == s[..pos];
  }

  /** One level of `rankAll` along bit `v` from prefix `p`: the entries
      leaving the range are those with the other next bit, counted as below
      when `v` is 1 and as above when `v` is 0. */
  lemma RangeDownStep(s: seq<nat>, B: nat, i: nat, p: nat, v: bool, lo: nat, hi: nat)
    requires Fits(s, B) && i < B && p < Pow2(i) && lo <= hi <= |s|
    ensures var ls, n, r := Levels(s, B), |s|, 2 * p + (if v then 1 else 0);
            var b, e := Walk(ls, n, i, p, lo), Walk(ls, n, i, p, hi);
            var b2, e2 := Walk(ls, n, i + 1, r, lo), Walk(ls, n, i + 1, r, hi);
            b <= e && b2 <= e2 && e2 - b2 <= e - b &&
            CountBelow(s, B, i + 1, r, lo, hi) == CountBelow(s, B, i, p, lo, hi) + (if v then (e - b) - (e2 - b2) else 0) &&
            CountAbove(s, B, i + 1, r, lo, hi) == CountAbove(s, B, i, p, lo, hi) + (if v then 0 else (e - b) - (e2 - b2))
  {
    var r := 2 * p + (if v then 1 else 0);
    assert r < Pow2(i + 1) by {
      assert Pow2(i + 1) == 2 * Pow2(i);
    }
    Span(s, B, i, p, lo, hi);
    Span(s, B, i + 1, r, lo, hi);
    DescendCount(s, B, i, p, v, lo, hi);
  }

  /** One level of `rankAll`'s loop: both ends move along bit `v` with
      `rank0` (plus the level's zeros for a 1), and the entries that leave
      the range are added to `less` for a 1 and to `more` for a 0. */
  method RangeLevel(ls: seq<seq<bool>>, nb: seq<seq<nat>>, n: nat, ghost s: seq<nat>, ghost B: nat,
                    i: nat, ghost p: nat, ghost r: nat, v: bool, lo: nat, hi: nat,
                    b: nat, e: nat, less: nat, more: nat)
    returns (b': nat, e': nat, less': nat, more': nat)
    requires n == |s| && ls == Levels(s, B) && ZerosOf(ls, nb) && Fits(s, B)
    requires i < B && p < Pow2(i) && r == 2 * p + (if v then 1 else 0) && lo <= hi <= n
    requires b == Walk(ls, n, i, p, lo) && e == Walk(ls, n, i, p, hi)
    requires less == CountBelow(s, B, i, p, lo, hi) && more == CountAbove(s, B, i, p, lo, hi)
    ensures b' == Walk(ls, n, i + 1, r, lo) && e' == Walk(ls, n, i + 1, r, hi)
    ensures less' == CountBelow(s, B, i + 1, r, lo, hi) && more' == CountAbove(s, B, i + 1, r, lo, hi)
  {
    var l := ls[i];
    RangeDownStep(s, B, i, p, v, lo, hi);
    Descend(ls, n, i, p, v, lo);
    Descend(ls, n, i, p, v, hi);
    var rangeBits := e - b;
    var beginZero := BitSeqs.Rank(l, false, b);
    var endZero := BitSeqs.Rank(l, false, e);
    var zeros := nb[i][1];
    if v {
      b' := b + zeros - beginZero;
      e' := e + zeros - endZero;
      less', more' := less + (rangeBits - (e' - b')), more;
    } else {
      b' := beginZero;
      e' := endZero;
      less', more' := less, more + (rangeBits - (e' - b'));
    }
  }

  /** The loop of `rankAll(c, lo, hi)`, with `rank0` for both ends on every
      level: the ends follow the node of `c`, and each level adds the
      entries leaving the range to the count below or above `c`. */
  method RangeDown(ls: seq<seq<bool>>, nb: seq<seq<nat>>, n: nat, ghost s: seq<nat>, B: nat, c: nat, lo: nat, hi: nat)
    returns (res: Ranks)
    requires n == |s| && ls == Levels(s, B) && ZerosOf(ls, nb) && Fits(s, B) && c < Pow2(B) && lo <= hi <= n
    ensures res == Ranks(Occ(s[lo..hi], c), Below(s[lo..hi], c), Above(s[lo..hi], c))
  {
    var less, more := 0, 0;
    var b, e := lo, hi;
    CountStart(s, B, lo, hi);
    ShrLess(c, B, 1);
    var i: nat := 0;
    while i < B
      invariant i <= B && Top(c, B, i) < Pow2(i)
      invariant b == Walk(ls, n, i, Top(c, B, i), lo) && e == Walk(ls, n, i, Top(c, B, i), hi)
      invariant less == CountBelow(s, B, i, Top(c, B, i), lo, hi)
      invariant more == CountAbove(s, B, i, Top(c, B, i), lo, hi)
    {
      var bit := Bit(c, B, i);
      ghost var p, r := Top(c, B, i), Top(c, B, i + 1);
      TopStep(c, B, i);
      TopBelow(c, B, i + 1);
      b, e, less, more := RangeLevel(ls, nb, n, s, B, i, p, r, bit, lo, hi, b, e, less, more);
      i := i + 1;
    }
    RankSpan(s, B, c, lo, hi);
    CountEnd(s, B, c, lo, hi);
    res := Ranks(e - b, less, more);
  }

  /** One level of `quantileRange` from prefix `p`: the range splits into
      the entries whose next bit is 0 and those whose next bit is 1, and
      those with a 0 come first in value order. */
  lemma QuantileStep(s: seq<nat>, B: nat, i: nat, k: nat, p: nat, lo: nat, hi: nat)
    requires Fits(s, B) && i < B && k == i + 1 && p < Pow2(i) && lo <= hi <= |s|
    ensures var ls, n := Levels(s, B), |s|;
            var b, e := Walk(ls, n, i, p, lo), Walk(ls, n, i, p, hi);
            var b0, e0 := Walk(ls, n, k, 2 * p, lo), Walk(ls, n, k, 2 * p, hi);
            var b1, e1 := Walk(ls, n, k, 2 * p + 1, lo), Walk(ls, n, k, 2 * p + 1, hi);
            b <= e && b0 <= e0 && b1 <= e1 && (e0 - b0) + (e1 - b1) == e - b &&
            CountBelow(s, B, k, 2 * p, lo, hi) == CountBelow(s, B, i, p, lo, hi) &&
            CountBelow(s, B, k, 2 * p + 1, lo, hi) == CountBelow(s, B, i, p, lo, hi) + (e0 - b0)
  {
    var ls := Levels(s, B);
    RangeDownStep(s, B, i, p, false, lo, hi);
    RangeDownStep(s, B, i, p, true, lo, hi);
    Descend(ls, |s|, i, p, false, lo);
    Descend(ls, |s|, i, p, false, hi);
    Descend(ls, |s|, i, p, true, lo);
    Descend(ls, |s|, i, p, true, hi);
  }

  /** One level of `quantileRange`'s loop: the `k`-th entry of the range
      (counting from 0 in value order) has next bit 0 when fewer than `k + 1`
      zeros fall in the range, and then keeps its place among them;
      otherwise it has next bit 1 and the zeros are skipped. */
  method QuantileLevel(ls: seq<seq<bool>>, nb: seq<seq<nat>>, n: nat, ghost s: seq<nat>, ghost B: nat,
                       i: nat, ghost p: nat, lo: nat, hi: nat, b: nat, e: nat, k: nat)
    returns (bit: bool, b': nat, e': nat, k': nat)
    requires n == |s| && ls == Levels(s, B) && ZerosOf(ls, nb) && Fits(s, B)
    requires i < B && p < Pow2(i) && lo <= hi <= n
    requires b == Walk(ls, n, i, p, lo) && e == Walk(ls, n, i, p, hi) && k < e - b
    ensures var r := 2 * p + (if bit then 1 else 0);
            b' == Walk(ls, n, i + 1, r, lo) && e' == Walk(ls, n, i + 1, r, hi) && k' < e' - b' &&
            k' + CountBelow(s, B, i + 1, r, lo, hi) == k + CountBelow(s, B, i, p, lo, hi)
  {
    var l := ls[i];
    QuantileStep(s, B, i, i + 1, p, lo, hi);
    Descend(ls, n, i, p, false, lo);
    Descend(ls, n, i, p, false, hi);
    Descend(ls, n, i, p, true, lo);
    Descend(ls, n, i, p, true, hi);
    var beginZero := BitSeqs.Rank(l, false, b);
    var endZero := BitSeqs.Rank(l, false, e);
    var zeroBits := endZero - beginZero;
    bit := k >= zeroBits;
    if bit {
      k' := k - zeroBits;
      b' := b + nb[i][1] - beginZero;
      e' := e + nb[i][1] - endZero;
    } else {
      k' := k;
      b', e' := beginZero, endZero;
    }
  }

  /** `rank0(x)` never exceeds `x`, and the ones before `x` never exceed
      the level's ones. */
  lemma ZerosWithin(l: seq<bool>, x: nat)
    requires x <= |l|
    ensures BitSeqs.Rank(l, false, x) <= x && x - BitSeqs.Rank(l, false, x) <= |l| - BitSeqs.Total(l, false)
  {
    BitSeqs.RankSplit(l, x);
    BitSeqs.RankSplit(l, |l|);
    BitSeqs.RankMonotone(l, true, x, |l|);
  }

  /** Where `rankAll`'s loop stands between two levels: the two ends of
      the range, and the counts below and above `c` so far. */
  datatype RangeState = RangeState(b: nat, e: nat, less: nat, more: nat)

  /** What the loop reports once past the last level: the width of the
      range between its two ends, modulo `2^64`, and the two counts. */
  function Reported(st: RangeState): (r: Ranks)
    ensures r.rank < WORD && r.less == st.less && r.more == st.more
  {
    Ranks((st.e - st.b) % WORD, st.less, st.more)
  }

  /** One level of `rankAll`'s loop as written, on the level's bits `l`
      with `zeros` zeros. The start takes its zeros from `nodeBegin` when
      `fromZero` and from `rank0` otherwise; the end from `nodeEnd` when
      `toEnd` and from `rank0` otherwise. Both ends then move along `bit`,
      and the entries that left the range are added to the count below
      for a 1 and above for a 0. All arithmetic is modulo `2^64`. */
  function LevelAsWritten(l: seq<bool>, zeros: nat, nodeBegin: nat, nodeEnd: nat, bit: bool,
                          fromZero: bool, toEnd: bool, st: RangeState): (r: RangeState)
    requires zeros == BitSeqs.Total(l, false) && (fromZero || st.b <= |l|) && (toEnd || st.e <= |l|)
    ensures (fromZero || r.b <= |l|) && (toEnd || r.e <= |l|)
    ensures st.less < WORD && st.more < WORD ==> r.less < WORD && r.more < WORD
  {
    var rangeBits := (st.e - st.b) % WORD;
    var beginZero := if fromZero then nodeBegin else BitSeqs.Rank(l, false, st.b);
    var endZero := if toEnd then nodeEnd else BitSeqs.Rank(l, false, st.e);
    var b' := if bit then (st.b + zeros - beginZero) % WORD else beginZero;
    var e' := if bit then (st.e + zeros - endZero) % WORD else endZero;
    assert (fromZero || b' <= |l|) && (toEnd || e' <= |l|) by {
      if !fromZero {
        ZerosWithin(l, st.b);
        MovedWithin(st.b + zeros - beginZero, |l|);
      }
      if !toEnd {
        ZerosWithin(l, st.e);
        MovedWithin(st.e + zeros - endZero, |l|);
      }
    }
    var gone := (rangeBits - (e' - b') % WORD) % WORD;
    if bit then RangeState(b', e', (st.less + gone) % WORD, st.more)
    else RangeState(b', e', st.less, (st.more + gone) % WORD)
  }

  /** The loop of `rankAll(c, begin_pos, end_pos)` as written, from level
      `i` on: `node` gathers the bits of `c` seen so far with the first one
      at bit 0 (`node_num |= bit << i`), and each level reads its node
      beginnings at `node` and `node + 1`. `fromZero` is `begin_pos == 0`
      and `toEnd` is `end_pos == size_`. */
  function RangeAsWritten(ls: seq<seq<bool>>, nb: seq<seq<nat>>, n: nat, B: nat, c: nat, i: nat, node: nat,
                          fromZero: bool, toEnd: bool, st: RangeState): (r: Ranks)
    requires i <= B && Tables(ls, nb, n, B) && node < Pow2(i)
    requires (fromZero || st.b <= n) && (toEnd || st.e <= n)
    ensures st.less < WORD && st.more < WORD ==> r.rank < WORD && r.less < WORD && r.more < WORD
    decreases B - i
  {
    if i == B then Reported(st)
    else
      assert Pow2(i + 1) == 2 * Pow2(i);
      var bit := Bit(c, B, i);
      var next := LevelAsWritten(ls[i], nb[i][1], nb[i][node], nb[i][node + 1], bit, fromZero, toEnd, st);
      RangeAsWritten(ls, nb, n, B, c, i + 1, node + (if bit then Pow2(i) else 0), fromZero, toEnd, next)
  }

  /** No more entries of a range lie below or above a prefix than the
      range holds. */
  lemma CountsWithin(s: seq<nat>, B: nat, i: nat, q: nat, lo: nat, hi: nat)
    requires i <= B && lo <= hi <= |s|
    ensures CountBelow(s, B, i, q, lo, hi) <= hi - lo && CountAbove(s, B, i, q, lo, hi) <= hi - lo
    decreases hi - lo
  {
    if hi > lo {
      CountsWithin(s, B, i, q, lo, hi - 1);
    }
  }

  /** The matrix `ls`, `nb` is built from `s` and is asked about `c` in
      `[lo, hi)`. */
  ghost predicate Query(ls: seq<seq<bool>>, nb: seq<seq<nat>>, s: seq<nat>, B: nat, c: nat, lo: nat, hi: nat)
  {
    |s| < WORD && ls == Levels(s, B) && Tables(ls, nb, |s|, B) && Fits(s, B) && c < Pow2(B) && lo <= hi <= |s|
  }

  /** Away from both edges (neither shortcut taken) the loop as written
      keeps both ends on the walks of `lo` and `hi` and never wraps: from
      the corrected loop's state at level `i` it ends where the corrected
      loop ends. `InsideCounts` says what that end state counts. */
  lemma {:induction false} RangeInside(ls: seq<seq<bool>>, nb: seq<seq<nat>>, s: seq<nat>, B: nat, c: nat,
                                       lo: nat, hi: nat, i: nat, node: nat, st: RangeState)
    requires Query(ls, nb, s, B, c, lo, hi) && i <= B && node < Pow2(i)
    requires st == Inside(ls, s, B, c, lo, hi, i)
    ensures RangeAsWritten(ls, nb, |s|, B, c, i, node, false, false, st) == Reported(Inside(ls, s, B, c, lo, hi, B))
    decreases B - i
  {
    if i == B {
      InsideEnd(ls, nb, s, B, c, lo, hi, node, st);
    } else {
      var node' := node + (if Bit(c, B, i) then Pow2(i) else 0);
      NodeNext(i, node, Bit(c, B, i));
      RangeInside(ls, nb, s, B, c, lo, hi, i + 1, node', Inside(ls, s, B, c, lo, hi, i + 1));
      InsideThen(ls, nb, s, B, c, lo, hi, i, node, node', st, Reported(Inside(ls, s, B, c, lo, hi, B)));
    }
  }

  /** Past the last level the loop as written reports the corrected loop's
      end state. */
  lemma InsideEnd(ls: seq<seq<bool>>, nb: seq<seq<nat>>, s: seq<nat>, B: nat, c: nat,
                  lo: nat, hi: nat, node: nat, st: RangeState)
    requires Query(ls, nb, s, B, c, lo, hi) && node < Pow2(B)
    requires st == Inside(ls, s, B, c, lo, hi, B)
    ensures RangeAsWritten(ls, nb, |s|, B, c, B, node, false, false, st) == Reported(st)
  {
    RangeEnd(ls, nb, |s|, B, c, node, st);
  }

  /** `node | bit << i` stays below `2^(i + 1)`. */
  lemma NodeNext(i: nat, node: nat, bit: bool)
    requires node < Pow2(i)
    ensures node + (if bit then Pow2(i) else 0) < Pow2(i + 1)
  {
    assert Pow2(i + 1) == 2 * Pow2(i);
  }

  /** If the loop as written ends with `end` from the corrected loop's state
      at level `i + 1`, it ends with `end` from its state at level `i`. */
  lemma InsideThen(ls: seq<seq<bool>>, nb: seq<seq<nat>>, s: seq<nat>, B: nat, c: nat,
                   lo: nat, hi: nat, i: nat, node: nat, node': nat, st: RangeState, end: Ranks)
    requires Query(ls, nb, s, B, c, lo, hi) && i < B && node < Pow2(i)
    requires st == Inside(ls, s, B, c, lo, hi, i)
    requires node' == node + (if Bit(c, B, i) then Pow2(i) else 0) && node' < Pow2(i + 1)
    requires RangeAsWritten(ls, nb, |s|, B, c, i + 1, node', false, false, Inside(ls, s, B, c, lo, hi, i + 1)) == end
    ensures RangeAsWritten(ls, nb, |s|, B, c, i, node, false, false, st) == end
  {
    InsideStep(ls, nb, s, B, c, lo, hi, i, node, st);
  }

  /** One level of the loop as written takes the corrected loop's state at
      level `i` to its state at level `i + 1`. */
  lemma InsideStep(ls: seq<seq<bool>>, nb: seq<seq<nat>>, s: seq<nat>, B: nat, c: nat,
                   lo: nat, hi: nat, i: nat, node: nat, st: RangeState)
    requires Query(ls, nb, s, B, c, lo, hi) && i < B && node < Pow2(i)
    requires st == Inside(ls, s, B, c, lo, hi, i)
    ensures node + (if Bit(c, B, i) then Pow2(i) else 0) < Pow2(i + 1)
    ensures RangeAsWritten(ls, nb, |s|, B, c, i, node, false, false, st) ==
              RangeAsWritten(ls, nb, |s|, B, c, i + 1, node + (if Bit(c, B, i) then Pow2(i) else 0), false, false,
                             Inside(ls, s, B, c, lo, hi, i + 1))
  {
    InsideTops(ls, s, B, c, lo, hi, i);
    WalksInside(ls, s, B, i, Top(c, B, i), Bit(c, B, i), lo, hi, nb[i][node], nb[i][node + 1],
                st, Inside(ls, s, B, c, lo, hi, i + 1));
    RangeUnfold(ls, nb, |s|, B, c, i, node, false, false, st);
  }

  /** Past the last level the ends of the corrected loop lie `Occ` apart
      and its counts are those below and above `c`. */
  lemma InsideCounts(ls: seq<seq<bool>>, s: seq<nat>, B: nat, c: nat, lo: nat, hi: nat, st: RangeState)
    requires |s| < WORD && ls == Levels(s, B)
    requires Fits(s, B) && c < Pow2(B) && lo <= hi <= |s|
    requires st == Inside(ls, s, B, c, lo, hi, B)
    ensures Reported(st) == Ranks(Occ(s[lo..hi], c), Below(s[lo..hi], c), Above(s[lo..hi], c))
  {
    RankSpan(s, B, c, lo, hi);
    CountEnd(s, B, c, lo, hi);
    assert Top(c, B, B) == c;
    ModSmall(st.e - st.b);
  }

  /** Started at level 0 with neither shortcut, the loop as written ends
      with the number of occurrences of `c` in `s[lo..hi]` and the numbers
      of entries below and above it. */
  lemma RangeFromStart(ls: seq<seq<bool>>, nb: seq<seq<nat>>, s: seq<nat>, B: nat, c: nat, lo: nat, hi: nat)
    requires |s| < WORD && ls == Levels(s, B) && Tables(ls, nb, |s|, B)
    requires Fits(s, B) && c < Pow2(B) && lo <= hi <= |s|
    ensures RangeAsWritten(ls, nb, |s|, B, c, 0, 0, false, false, RangeState(lo, hi, 0, 0)) ==
              Ranks(Occ(s[lo..hi], c), Below(s[lo..hi], c), Above(s[lo..hi], c))
  {
    ShrLess(c, B, 1);
    CountStart(s, B, lo, hi);
    assert Inside(ls, s, B, c, lo, hi, 0) == RangeState(lo, hi, 0, 0);
    RangeInside(ls, nb, s, B, c, lo, hi, 0, 0, RangeState(lo, hi, 0, 0));
    InsideCounts(ls, s, B, c, lo, hi, Inside(ls, s, B, c, lo, hi, B));
  }

  /** The state the corrected loop reaches at level `i`: both ends on the
      walks of `lo` and `hi` along the first `i` bits of `c`, and the
      counts below and above that prefix. */
  ghost function Inside(ls: seq<seq<bool>>, s: seq<nat>, B: nat, c: nat, lo: nat, hi: nat, i: nat): RangeState
    requires ls == Levels(s, B) && lo <= hi <= |s| && i <= B
  {
    var p := Top(c, B, i);
    RangeState(Walk(ls, |s|, i, p, lo), Walk(ls, |s|, i, p, hi), CountBelow(s, B, i, p, lo, hi), CountAbove(s, B, i, p, lo, hi))
  }

  /** The corrected loop's states at levels `i` and `i + 1` in terms of the
      top `i` bits of `c` and the next one. */
  lemma InsideTops(ls: seq<seq<bool>>, s: seq<nat>, B: nat, c: nat, lo: nat, hi: nat, i: nat)
    requires ls == Levels(s, B) && c < Pow2(B) && lo <= hi <= |s| && i < B
    ensures var p := Top(c, B, i);
            var r := 2 * p + (if Bit(c, B, i) then 1 else 0);
            p < Pow2(i) &&
            Inside(ls, s, B, c, lo, hi, i) ==
              RangeState(Walk(ls, |s|, i, p, lo), Walk(ls, |s|, i, p, hi), CountBelow(s, B, i, p, lo, hi), CountAbove(s, B, i, p, lo, hi)) &&
            Inside(ls, s, B, c, lo, hi, i + 1) ==
              RangeState(Walk(ls, |s|, i + 1, r, lo), Walk(ls, |s|, i + 1, r, hi),
                         CountBelow(s, B, i + 1, r, lo, hi), CountAbove(s, B, i + 1, r, lo, hi))
  {
    var p := Top(c, B, i);
    TopStep(c, B, i);
    TopBelow(c, B, i);
    InsideAt(ls, s, B, c, lo, hi, i, p);
    InsideAt(ls, s, B, c, lo, hi, i + 1, 2 * p + (if Bit(c, B, i) then 1 else 0));
  }

  /** The corrected loop's state at level `i` for the prefix `p` of `c`. */
  lemma InsideAt(ls: seq<seq<bool>>, s: seq<nat>, B: nat, c: nat, lo: nat, hi: nat, i: nat, p: nat)
    requires ls == Levels(s, B) && lo <= hi <= |s| && i <= B && p == Top(c, B, i)
    ensures Inside(ls, s, B, c, lo, hi, i) ==
            RangeState(Walk(ls, |s|, i, p, lo), Walk(ls, |s|, i, p, hi), CountBelow(s, B, i, p, lo, hi), CountAbove(s, B, i, p, lo, hi))
  {
  }

  /** With neither shortcut, one level as written takes the corrected
      loop's state for the prefix `p` to its state for `p` followed by the
      bit `v`: `st` holds the walks of both ends along `p` and the counts
      below and above it, and `st'` the same along `p` and then `v`. */
  lemma WalksInside(ls: seq<seq<bool>>, s: seq<nat>, B: nat, i: nat, p: nat, v: bool, lo: nat, hi: nat,
                    nodeBegin: nat, nodeEnd: nat, st: RangeState, st': RangeState)
    requires |s| < WORD && ls == Levels(s, B) && Fits(s, B) && i < B && p < Pow2(i) && lo <= hi <= |s|
    requires st == RangeState(Walk(ls, |s|, i, p, lo), Walk(ls, |s|, i, p, hi), CountBelow(s, B, i, p, lo, hi), CountAbove(s, B, i, p, lo, hi))
    requires var r := 2 * p + (if v then 1 else 0);
             st' == RangeState(Walk(ls, |s|, i + 1, r, lo), Walk(ls, |s|, i + 1, r, hi),
                               CountBelow(s, B, i + 1, r, lo, hi), CountAbove(s, B, i + 1, r, lo, hi))
    ensures st.b <= |s| && st.e <= |s|
    ensures LevelAsWritten(ls[i], BitSeqs.Total(ls[i], false), nodeBegin, nodeEnd, v, false, false, st) == st'
  {
    var n := |s|;
    RangeDownStep(s, B, i, p, v, lo, hi);
    Descend(ls, n, i, p, v, lo);
    Descend(ls, n, i, p, v, hi);
    var r := 2 * p + (if v then 1 else 0);
    CountsWithin(s, B, i + 1, r, lo, hi);
    ZerosWithin(ls[i], st.b);
    ZerosWithin(ls[i], st.e);
    if v {
      LevelOneInRange(ls[i], nodeBegin, nodeEnd, st, st');
    } else {
      LevelZeroInRange(ls[i], nodeBegin, nodeEnd, st, st');
    }
  }

  /** The arithmetic of one level as written, away from both edges: when
      the next state lies in range, no step wraps modulo `2^64`, and the
      level moves both ends along `bit` and adds the entries that left the
      range to the count below (for a 1) or above (for a 0). */
  lemma LevelInRange(l: seq<bool>, bit: bool, nodeBegin: nat, nodeEnd: nat, st: RangeState, st': RangeState)
    requires st.b <= st.e <= |l| < WORD
    requires st'.b == if bit then st.b + BitSeqs.Total(l, false) - BitSeqs.Rank(l, false, st.b)
                      else BitSeqs.Rank(l, false, st.b)
    requires st'.e == if bit then st.e + BitSeqs.Total(l, false) - BitSeqs.Rank(l, false, st.e)
                      else BitSeqs.Rank(l, false, st.e)
    requires st'.b <= st'.e <= |l| && st'.e - st'.b <= st.e - st.b
    requires st'.less == st.less + (if bit then (st.e - st.b) - (st'.e - st'.b) else 0) && st'.less < WORD
    requires st'.more == st.more + (if bit then 0 else (st.e - st.b) - (st'.e - st'.b)) && st'.more < WORD
    ensures LevelAsWritten(l, BitSeqs.Total(l, false), nodeBegin, nodeEnd, bit, false, false, st) == st'
  {
    if bit {
      LevelOneInRange(l, nodeBegin, nodeEnd, st, st');
    } else {
      LevelZeroInRange(l, nodeBegin, nodeEnd, st, st');
    }
  }

  /** `LevelInRange` for a 1 bit: both ends move past the level's zeros. */
  lemma LevelOneInRange(l: seq<bool>, nodeBegin: nat, nodeEnd: nat, st: RangeState, st': RangeState)
    requires st.b <= st.e <= |l| < WORD
    requires st'.b == st.b + BitSeqs.Total(l, false) - BitSeqs.Rank(l, false, st.b)
    requires st'.e == st.e + BitSeqs.Total(l, false) - BitSeqs.Rank(l, false, st.e)
    requires st'.b <= st'.e <= |l| && st'.e - st'.b <= st.e - st.b
    requires st'.less == st.less + (st.e - st.b) - (st'.e - st'.b) && st'.less < WORD
    requires st'.more == st.more
    ensures LevelAsWritten(l, BitSeqs.Total(l, false), nodeBegin, nodeEnd, true, false, false, st) == st'
  {
    ModSmall(st.e - st.b);
    ModSmall(st'.e - st'.b);
    ModSmall((st.e - st.b) - (st'.e - st'.b));
    ModSmall(st'.b);
    ModSmall(st'.e);
    ModSmall(st'.less);
  }

  /** `LevelInRange` for a 0 bit: both ends move to their zero ranks. */
  lemma LevelZeroInRange(l: seq<bool>, nodeBegin: nat, nodeEnd: nat, st: RangeState, st': RangeState)
    requires st.b <= st.e <= |l| < WORD
    requires st'.b == BitSeqs.Rank(l, false, st.b)
    requires st'.e == BitSeqs.Rank(l, false, st.e)
    requires st'.b <= st'.e <= |l| && st'.e - st'.b <= st.e - st.b
    requires st'.less == st.less
    requires st'.more == st.more + (st.e - st.b) - (st'.e - st'.b) && st'.more < WORD
    ensures LevelAsWritten(l, BitSeqs.Total(l, false), nodeBegin, nodeEnd, false, false, false, st) == st'
  {
    ModSmall(st.e - st.b);
    ModSmall(st'.e - st'.b);
    ModSmall((st.e - st.b) - (st'.e - st'.b));
    ModSmall(st'.more);
  }

  /** `RangeAsWritten` at level `i` is one `LevelAsWritten` followed by
      the levels below. */
  lemma RangeUnfold(ls: seq<seq<bool>>, nb: seq<seq<nat>>, n: nat, B: nat, c: nat, i: nat, node: nat,
                    fromZero: bool, toEnd: bool, st: RangeState)
    requires i < B && Tables(ls, nb, n, B) && node < Pow2(i)
    requires (fromZero || st.b <= n) && (toEnd || st.e <= n)
    ensures Pow2(i + 1) == 2 * Pow2(i) && |ls[i]| == n && |nb[i]| == Pow2(i + 1) && nb[i][1] == BitSeqs.Total(ls[i], false)
    ensures var next := LevelAsWritten(ls[i], nb[i][1], nb[i][node], nb[i][node + 1], Bit(c, B, i), fromZero, toEnd, st);
            RangeAsWritten(ls, nb, n, B, c, i, node, fromZero, toEnd, st) ==
              RangeAsWritten(ls, nb, n, B, c, i + 1, node + (if Bit(c, B, i) then Pow2(i) else 0), fromZero, toEnd, next)
  {
    assert Pow2(i + 1) == 2 * Pow2(i);
  }

  /** One pass of the loop of `rankAll` as written, at level `i` of node
      `node`: the new range and counts, and the node with bit `i` of `c`
      added (`node_num |= bit << i`; bit `i` of `node` is still clear). */
  method LevelDownAsWritten(ls: seq<seq<bool>>, nb: seq<seq<nat>>, n: nat, B: nat, c: nat, i: nat, node: nat,
                            fromZero: bool, toEnd: bool, st: RangeState)
    returns (st': RangeState, node': nat)
    requires i < B && Tables(ls, nb, n, B) && node < Pow2(i)
    requires (fromZero || st.b <= n) && (toEnd || st.e <= n)
    ensures node' < Pow2(i + 1) && (fromZero || st'.b <= n) && (toEnd || st'.e <= n)
    ensures RangeAsWritten(ls, nb, n, B, c, i + 1, node', fromZero, toEnd, st') ==
            RangeAsWritten(ls, nb, n, B, c, i, node, fromZero, toEnd, st)
  {
    RangeUnfold(ls, nb, n, B, c, i, node, fromZero, toEnd, st);
    var bit := Bit(c, B, i);
    st' := LevelAsWritten(ls[i], nb[i][1], nb[i][node], nb[i][node + 1], bit, fromZero, toEnd, st);
    node' := node + (if bit then Pow2(i) else 0);
  }

  /** Past the last level the loop as written reports the width of the
      range and the two counts it gathered. */
  lemma RangeEnd(ls: seq<seq<bool>>, nb: seq<seq<nat>>, n: nat, B: nat, c: nat, node: nat, st: RangeState)
    requires Tables(ls, nb, n, B) && node < Pow2(B) && st.b <= n && st.e <= n
    ensures RangeAsWritten(ls, nb, n, B, c, B, node, false, false, st) == Reported(st)
  {
  }

  /** The loop of `rankAll(c, lo, hi)` as written, with `fromZero` for
      `begin_pos == 0` and `toEnd` for `end_pos == size_`: each level reads
      the ends' zeros from `nodeBeginPos_` under a shortcut and from `rank0`
      otherwise, and all arithmetic is modulo `2^64`. */
  method RangeDownAsWritten(ls: seq<seq<bool>>, nb: seq<seq<nat>>, n: nat, B: nat, c: nat, lo: nat, hi: nat,
                            fromZero: bool, toEnd: bool)
    returns (res: Ranks)
    requires Tables(ls, nb, n, B)
    requires lo <= hi <= n
    ensures res == RangeAsWritten(ls, nb, n, B, c, 0, 0, fromZero, toEnd, RangeState(lo, hi, 0, 0))
  {
    // `begin_pos`, `end_pos` and `more_and_less[1]`, `more_and_less[0]`.
    var st := RangeState(lo, hi, 0, 0);
    var node: nat := 0;
    var i: nat := 0;
    ghost var target := RangeAsWritten(ls, nb, n, B, c, 0, 0, fromZero, toEnd, st);
    while i < B
      invariant i <= B && node < Pow2(i)
      invariant (fromZero || st.b <= n) && (toEnd || st.e <= n)
      invariant RangeAsWritten(ls, nb, n, B, c, i, node, fromZero, toEnd, st) == target
    {
      st, node := LevelDownAsWritten(ls, nb, n, B, c, i, node, fromZero, toEnd, st);
      i := i + 1;
    }
    res := Reported(st);
  }

  /** Where `quantileRange`'s loop stands between two levels: the two ends
      of the range and the rank `k` still sought among its entries. */
  datatype QuantState = QuantState(b: nat, e: nat, k: nat)

  /** One level of `quantileRange`'s loop as written, on the level's bits
      `l` with `zeros` zeros. The ends' zeros come from `nodeBegin` and
      `nodeEnd` under the shortcuts and from `rank0` otherwise; the next bit
      is 0 exactly when `k` is below the zeros between them; then `k` and
      both ends move as in `rankAll`. All arithmetic is modulo `2^64`. */
  function QuantLevelAsWritten(l: seq<bool>, zeros: nat, nodeBegin: nat, nodeEnd: nat,
                               fromZero: bool, toEnd: bool, st: QuantState): (r: (bool, QuantState))
    requires zeros == BitSeqs.Total(l, false) && (fromZero || st.b <= |l|) && (toEnd || st.e <= |l|)
    ensures (fromZero || r.1.b <= |l|) && (toEnd || r.1.e <= |l|)
    ensures st.k < WORD ==> r.1.k < WORD
  {
    var beginZero := if fromZero then nodeBegin else BitSeqs.Rank(l, false, st.b);
    var endZero := if toEnd then nodeEnd else BitSeqs.Rank(l, false, st.e);
    var zeroBits := (endZero - beginZero) % WORD;
    var bit := st.k >= zeroBits;
    var b' := if bit then (st.b + zeros - beginZero) % WORD else beginZero;
    var e' := if bit then (st.e + zeros - endZero) % WORD else endZero;
    assert (fromZero || b' <= |l|) && (toEnd || e' <= |l|) by {
      if !fromZero {
        ZerosWithin(l, st.b);
        MovedWithin(st.b + zeros - beginZero, |l|);
      }
      if !toEnd {
        ZerosWithin(l, st.e);
        MovedWithin(st.e + zeros - endZero, |l|);
      }
    }
    (bit, QuantState(b', e', if bit then (st.k - zeroBits) % WORD else st.k))
  }

  /** The loop of `quantileRange` as written, from level `i` on: `val`
      gathers the bits chosen so far with the first one on top
      (`val <<= 1; val |= bit`), while `node` gathers them with the first
      one at bit 0 (`node_num |= bit << i`) and picks the node beginnings
      each level reads under a shortcut. The answer is the final `val`. */
  function QuantileAsWritten(ls: seq<seq<bool>>, nb: seq<seq<nat>>, n: nat, B: nat, i: nat, node: nat, val: nat,
                             fromZero: bool, toEnd: bool, st: QuantState): (r: nat)
    requires i <= B && Tables(ls, nb, n, B) && node < Pow2(i)
    requires (fromZero || st.b <= n) && (toEnd || st.e <= n)
    ensures val < Pow2(i) ==> r < Pow2(B)
    decreases B - i
  {
    if i == B then val
    else
      assert Pow2(i + 1) == 2 * Pow2(i);
      var step := QuantLevelAsWritten(ls[i], nb[i][1], nb[i][node], nb[i][node + 1], fromZero, toEnd, st);
      QuantileAsWritten(ls, nb, n, B, i + 1, node + (if step.0 then Pow2(i) else 0), 2 * val + (if step.0 then 1 else 0),
                        fromZero, toEnd, step.1)
  }

  /** `QuantileAsWritten` at level `i` is one `QuantLevelAsWritten`
      followed by the levels below. */
  lemma QuantUnfold(ls: seq<seq<bool>>, nb: seq<seq<nat>>, n: nat, B: nat, i: nat, node: nat, val: nat,
                    fromZero: bool, toEnd: bool, st: QuantState)
    requires i < B && Tables(ls, nb, n, B) && node < Pow2(i)
    requires (fromZero || st.b <= n) && (toEnd || st.e <= n)
    ensures Pow2(i + 1) == 2 * Pow2(i) && |ls[i]| == n && |nb[i]| == Pow2(i + 1) && nb[i][1] == BitSeqs.Total(ls[i], false)
    ensures var step := QuantLevelAsWritten(ls[i], nb[i][1], nb[i][node], nb[i][node + 1], fromZero, toEnd, st);
            QuantileAsWritten(ls, nb, n, B, i, node, val, fromZero, toEnd, st) ==
              QuantileAsWritten(ls, nb, n, B, i + 1, node + (if step.0 then Pow2(i) else 0),
                                2 * val + (if step.0 then 1 else 0), fromZero, toEnd, step.1)
  {
    assert Pow2(i + 1) == 2 * Pow2(i);
  }

  /** One level of `quantileRange` as written, away from both edges, when
      `k` is not below the zeros between the ends: the next bit is 1, `k`
      skips those zeros and both ends move past the level's zeros, with
      nothing wrapping modulo `2^64`. */
  lemma QuantOneInRange(l: seq<bool>, nodeBegin: nat, nodeEnd: nat, st: QuantState)
    requires st.b <= st.e <= |l| < WORD && st.k < WORD
    requires st.k >= BitSeqs.Rank(l, false, st.e) - BitSeqs.Rank(l, false, st.b)
    ensures var zb, ze, zeros := BitSeqs.Rank(l, false, st.b), BitSeqs.Rank(l, false, st.e), BitSeqs.Total(l, false);
            zb <= st.b && ze <= st.e &&
            QuantLevelAsWritten(l, zeros, nodeBegin, nodeEnd, false, false, st) ==
              (true, QuantState(st.b + zeros - zb, st.e + zeros - ze, st.k - (ze - zb)))
  {
    var zb, ze, zeros := BitSeqs.Rank(l, false, st.b), BitSeqs.Rank(l, false, st.e), BitSeqs.Total(l, false);
    BitSeqs.RankMonotone(l, false, st.b, st.e);
    ZerosWithin(l, st.b);
    ZerosWithin(l, st.e);
    ModSmall(ze - zb);
    ModSmall(st.k - (ze - zb));
    ModSmall(st.b + zeros - zb);
    ModSmall(st.e + zeros - ze);
  }

  /** The same when `k` is below the zeros between the ends: the next bit
      is 0 and both ends move to their zero ranks. */
  lemma QuantZeroInRange(l: seq<bool>, nodeBegin: nat, nodeEnd: nat, st: QuantState)
    requires st.b <= st.e <= |l| < WORD
    requires st.k < BitSeqs.Rank(l, false, st.e) - BitSeqs.Rank(l, false, st.b)
    ensures QuantLevelAsWritten(l, BitSeqs.Total(l, false), nodeBegin, nodeEnd, false, false, st) ==
              (false, QuantState(BitSeqs.Rank(l, false, st.b), BitSeqs.Rank(l, false, st.e), st.k))
  {
    ModSmall(BitSeqs.Rank(l, false, st.e) - BitSeqs.Rank(l, false, st.b));
  }

  /** The corrected loop's state of `quantileRange` at level `i` along the
      prefix `p`: both ends on their walks along `p`, and the rank `k`
      sought in the whole range is `st.k` among the entries with prefix
      `p`, after those below it. */
  ghost predicate OnRank(ls: seq<seq<bool>>, s: seq<nat>, B: nat, i: nat, p: nat, lo: nat, hi: nat, k: nat, st: QuantState)
    requires ls == Levels(s, B) && i <= B && lo <= hi <= |s|
  {
    st.b == Walk(ls, |s|, i, p, lo) && st.e == Walk(ls, |s|, i, p, hi) && st.k < st.e - st.b &&
    st.k + CountBelow(s, B, i, p, lo, hi) == k
  }

  /** With neither shortcut, one level of `quantileRange` as written keeps
      the corrected loop's state along the prefix it extends. */
  lemma QuantInsideStep(ls: seq<seq<bool>>, s: seq<nat>, B: nat, i: nat, p: nat, lo: nat, hi: nat, k: nat,
                        zeros: nat, nodeBegin: nat, nodeEnd: nat, st: QuantState)
    requires |s| < WORD && ls == Levels(s, B) && Fits(s, B) && i < B && p < Pow2(i) && lo <= hi <= |s|
    requires zeros == BitSeqs.Total(ls[i], false) && OnRank(ls, s, B, i, p, lo, hi, k, st)
    ensures var step := QuantLevelAsWritten(ls[i], zeros, nodeBegin, nodeEnd, false, false, st);
            OnRank(ls, s, B, i + 1, 2 * p + (if step.0 then 1 else 0), lo, hi, k, step.1)
  {
    var n, l := |s|, ls[i];
    QuantileStep(s, B, i, i + 1, p, lo, hi);
    if st.k >= BitSeqs.Rank(l, false, st.e) - BitSeqs.Rank(l, false, st.b) {
      Descend(ls, n, i, p, true, lo);
      Descend(ls, n, i, p, true, hi);
      Descend(ls, n, i, p, false, lo);
      Descend(ls, n, i, p, false, hi);
      QuantOneInRange(l, nodeBegin, nodeEnd, st);
    } else {
      Descend(ls, n, i, p, false, lo);
      Descend(ls, n, i, p, false, hi);
      QuantZeroInRange(l, nodeBegin, nodeEnd, st);
    }
  }

  /** At the last level the corrected state has found the value `p`. */
  lemma QuantileAtEnd(ls: seq<seq<bool>>, s: seq<nat>, B: nat, p: nat, lo: nat, hi: nat, k: nat, st: QuantState)
    requires |s| < WORD && ls == Levels(s, B) && Fits(s, B) && p < Pow2(B) && lo <= hi <= |s|
    requires OnRank(ls, s, B, B, p, lo, hi, k, st)
    ensures Below(s[lo..hi], p) <= k < Below(s[lo..hi], p) + Occ(s[lo..hi], p)
  {
    RankSpan(s, B, p, lo, hi);
    CountEnd(s, B, p, lo, hi);
  }

  /** One level of `quantileRange` as written, away from both edges: the
      next node, prefix and state, and the value the loop ends on from
      there is the same. */
  lemma QuantAdvance(ls: seq<seq<bool>>, nb: seq<seq<nat>>, n: nat, B: nat, i: nat, node: nat, p: nat, st: QuantState)
    returns (node': nat, p': nat, st': QuantState)
    requires i < B && Tables(ls, nb, n, B) && node < Pow2(i) && p < Pow2(i) && st.b <= n && st.e <= n
    ensures nb[i][1] == BitSeqs.Total(ls[i], false) && |ls[i]| == n
    ensures var step := QuantLevelAsWritten(ls[i], nb[i][1], nb[i][node], nb[i][node + 1], false, false, st);
            st' == step.1 && p' == 2 * p + (if step.0 then 1 else 0)
    ensures node' < Pow2(i + 1) && p' < Pow2(i + 1) && st'.b <= n && st'.e <= n
    ensures QuantileAsWritten(ls, nb, n, B, i, node, p, false, false, st) ==
            QuantileAsWritten(ls, nb, n, B, i + 1, node', p', false, false, st')
  {
    QuantUnfold(ls, nb, n, B, i, node, p, false, false, st);
    var step := QuantLevelAsWritten(ls[i], nb[i][1], nb[i][node], nb[i][node + 1], false, false, st);
    st' := step.1;
    if step.0 {
      node', p' := node + Pow2(i), 2 * p + 1;
    } else {
      node', p' := node, 2 * p;
    }
  }

  /** One level of `quantileRange` as written, away from both edges, moves
      the corrected state to the next level and leaves the value it will
      end on unchanged. */
  lemma QuantNext(ls: seq<seq<bool>>, nb: seq<seq<nat>>, s: seq<nat>, B: nat, i: nat,
                  node: nat, p: nat, lo: nat, hi: nat, k: nat, st: QuantState)
    returns (node': nat, p': nat, st': QuantState)
    requires |s| < WORD && ls == Levels(s, B) && Tables(ls, nb, |s|, B) && Fits(s, B)
    requires i < B && node < Pow2(i) && p < Pow2(i) && lo <= hi <= |s|
    requires OnRank(ls, s, B, i, p, lo, hi, k, st) && st.b <= |s| && st.e <= |s|
    ensures st'.b <= |s| && st'.e <= |s|
    ensures node' < Pow2(i + 1) && p' < Pow2(i + 1) && OnRank(ls, s, B, i + 1, p', lo, hi, k, st')
    ensures QuantileAsWritten(ls, nb, |s|, B, i, node, p, false, false, st) ==
            QuantileAsWritten(ls, nb, |s|, B, i + 1, node', p', false, false, st')
  {
    node', p', st' := QuantAdvance(ls, nb, |s|, B, i, node, p, st);
    QuantInsideStep(ls, s, B, i, p, lo, hi, k, nb[i][1], nb[i][node], nb[i][node + 1], st);
  }

  /** With neither shortcut, the loop of `quantileRange` as written from
      the corrected state at level `i` ends on the value of rank `k` in
      `[lo, hi)`. */
  lemma {:induction false} QuantileInside(ls: seq<seq<bool>>, nb: seq<seq<nat>>, s: seq<nat>, B: nat, i: nat,
                                          node: nat, p: nat, lo: nat, hi: nat, k: nat, st: QuantState)
    requires |s| < WORD && ls == Levels(s, B) && Tables(ls, nb, |s|, B) && Fits(s, B)
    requires i <= B && node < Pow2(i) && p < Pow2(i) && lo <= hi <= |s|
    requires OnRank(ls, s, B, i, p, lo, hi, k, st)
    requires st.b <= |s| && st.e <= |s|
    ensures var v := QuantileAsWritten(ls, nb, |s|, B, i, node, p, false, false, st);
            Below(s[lo..hi], v) <= k < Below(s[lo..hi], v) + Occ(s[lo..hi], v)
    decreases B - i
  {
    if i == B {
      QuantileAtEnd(ls, s, B, p, lo, hi, k, st);
    } else {
      var node', p', st' := QuantNext(ls, nb, s, B, i, node, p, lo, hi, k, st);
      QuantileInside(ls, nb, s, B, i + 1, node', p', lo, hi, k, st');
    }
  }

  /** One pass of the loop of `quantileRange` as written, at level `i` of
      node `node`: the bit it picks, the new state, and `node` and `val`
      with that bit added. */
  method QuantLevelDownAsWritten(ls: seq<seq<bool>>, nb: seq<seq<nat>>, n: nat, B: nat, i: nat, node: nat, val: nat,
                                 fromZero: bool, toEnd: bool, st: QuantState)
    returns (st': QuantState, node': nat, val': nat)
    requires i < B && Tables(ls, nb, n, B) && node < Pow2(i)
    requires (fromZero || st.b <= n) && (toEnd || st.e <= n)
    ensures node' < Pow2(i + 1) && (fromZero || st'.b <= n) && (toEnd || st'.e <= n)
    ensures QuantileAsWritten(ls, nb, n, B, i + 1, node', val', fromZero, toEnd, st') ==
            QuantileAsWritten(ls, nb, n, B, i, node, val, fromZero, toEnd, st)
  {
    QuantUnfold(ls, nb, n, B, i, node, val, fromZero, toEnd, st);
    var step := QuantLevelAsWritten(ls[i], nb[i][1], nb[i][node], nb[i][node + 1], fromZero, toEnd, st);
    var bit := step.0;
    st' := step.1;
    node' := node + (if bit then Pow2(i) else 0);
    val' := 2 * val + (if bit then 1 else 0);
  }

  /** The loop of `quantileRange(lo, hi, k)` as written, with `fromZero`
      for `begin_pos == 0` and `toEnd` for `end_pos == size_`. */
  method QuantileDownAsWritten(ls: seq<seq<bool>>, nb: seq<seq<nat>>, n: nat, B: nat, lo: nat, hi: nat, k: nat,
                               fromZero: bool, toEnd: bool)
    returns (val: nat)
    requires Tables(ls, nb, n, B) && lo <= hi <= n
    ensures val == QuantileAsWritten(ls, nb, n, B, 0, 0, 0, fromZero, toEnd, QuantState(lo, hi, k))
  {
    // `begin_pos`, `end_pos` and `k`.
    var st := QuantState(lo, hi, k);
    var node: nat := 0;
    var i: nat := 0;
    val := 0;
    ghost var target := QuantileAsWritten(ls, nb, n, B, 0, 0, 0, fromZero, toEnd, st);
    while i < B
      invariant i <= B && node < Pow2(i)
      invariant (fromZero || st.b <= n) && (toEnd || st.e <= n)
      invariant QuantileAsWritten(ls, nb, n, B, i, node, val, fromZero, toEnd, st) == target
    {
      st, node, val := QuantLevelDownAsWritten(ls, nb, n, B, i, node, val, fromZero, toEnd, st);
      i := i + 1;
    }
  }

  /** How many of the values in `[a, b)` are `m` or more. */
  function Beyond(a: nat, b: nat, m: nat): (r: nat)
    ensures r <= b - a || b <= a
  {
    if b <= a || b <= m then 0 else b - (if a < m then m else a)
  }

  /** One more value in `freqSum`'s band adds its count, or `NOT_FOUND`
      past the alphabet. */
  lemma BandStep(s: seq<nat>, a: nat, i: nat, m: nat, f: nat)
    requires a <= i && forall j | 0 <= j < |s| :: s[j] < m
    requires f == (if i < m then Occ(s, i) else NOT_FOUND)
    ensures InBand(s, a, i + 1) + Beyond(a, i + 1, m) * NOT_FOUND ==
              InBand(s, a, i) + Beyond(a, i, m) * NOT_FOUND + f
  {
    InBandNext(s, a, i);
    if i >= m {
      BelowAll(s, i);
    }
  }

  /** What `freqSum` adds up over `[a, b)`: each value's count, or
      `NOT_FOUND` past the alphabet of `m` values, modulo `2^64`. */
  ghost function FreqTotal(s: seq<nat>, m: nat, a: nat, b: nat): (r: nat)
    ensures r < WORD
    decreases b - a
  {
    if b <= a then 0
    else (FreqTotal(s, m, a, b - 1) + (if b - 1 < m then Occ(s, b - 1) else NOT_FOUND)) % WORD
  }

  /** What the loop of `freqSum` ends with: the values in the band, plus
      `NOT_FOUND` for every value past the alphabet, modulo `2^64`; just the
      values in the band when it stays inside the alphabet. */
  lemma FreqSumCounts(s: seq<nat>, m: nat, a: nat, b: nat)
    requires |s| < WORD && forall j | 0 <= j < |s| :: s[j] < m
    ensures var r := FreqTotal(s, m, a, if a < b then b else a);
            r == (InBand(s, a, b) + Beyond(a, b, m) * NOT_FOUND) % WORD &&
            (b <= m ==> r == InBand(s, a, b))
  {
    if b <= a {
      InBandEmpty(s, a, b);
    } else {
      FreqTotalCounts(s, m, a, b);
      if b <= m {
        ModSmall(InBand(s, a, b));
      }
    }
  }

  /** One more value adds its count, or `NOT_FOUND` past the alphabet. */
  lemma FreqTotalNext(s: seq<nat>, m: nat, a: nat, b: nat)
    requires a <= b
    ensures FreqTotal(s, m, a, b + 1) == (FreqTotal(s, m, a, b) + (if b < m then Occ(s, b) else NOT_FOUND)) % WORD
  {
  }

  /** The sum counts the values in the band, plus `NOT_FOUND` for every
      value past the alphabet, modulo `2^64`. */
  lemma {:induction false} FreqTotalCounts(s: seq<nat>, m: nat, a: nat, b: nat)
    requires a <= b && forall j | 0 <= j < |s| :: s[j] < m
    ensures FreqTotal(s, m, a, b) == (InBand(s, a, b) + Beyond(a, b, m) * NOT_FOUND) % WORD
    decreases b - a
  {
    if b == a {
      InBandEmpty(s, a, a);
    } else {
      FreqTotalCounts(s, m, a, b - 1);
      var f := if b - 1 < m then Occ(s, b - 1) else NOT_FOUND;
      BandStep(s, a, b - 1, m, f);
      ModAdd(InBand(s, a, b - 1) + Beyond(a, b - 1, m) * NOT_FOUND, f);
    }
  }

  /** The difference `freqRange` takes modulo `2^64`, with the counts below
      the band's ends read correctly: the band itself, or `NOT_FOUND` minus
      the count below `minC` when `maxC` is past the alphabet. */
  lemma BandDifference(band: seq<nat>, minC: nat, maxC: nat, alphabet: nat, maxLess: nat, minLess: nat)
    requires |band| < WORD && minC < maxC && minLess == Below(band, minC)
    requires maxLess == if maxC >= alphabet then NOT_FOUND else Below(band, maxC)
    ensures maxC < alphabet ==> Sub64(maxLess, minLess) == InBand(band, minC, maxC)
    ensures maxC >= alphabet ==> Sub64(maxLess, minLess) == NOT_FOUND - Below(band, minC)
  {
    InBandBelow(band, minC, maxC);
  }

  /** `uint64_t` subtraction: `a - b` wrapped around into `[0, 2^64)`. */
  function Sub64(a: nat, b: nat): (r: nat)
    requires a < WORD && b < WORD
    ensures r < WORD
  {
    if a >= b then a - b else a - b + WORD
  }

  /** `Sub64` is subtraction modulo `2^64`. */
  lemma Sub64Wraps(a: nat, b: nat)
    requires a < WORD && b < WORD
    ensures Sub64(a, b) == (a - b) % WORD
  {
    if a >= b {
      ModSmall(a - b);
    } else {
      ModSmall(a - b + WORD);
    }
  }

  /** Reducing a value below `2^64` leaves it unchanged. */
  lemma ModSmall(x: int)
    requires 0 <= x < WORD
    ensures x % WORD == x
  {
  }

  /** An end that lies within a level still does after reducing modulo
      `2^64`. */
  lemma MovedWithin(x: int, n: nat)
    requires 0 <= x <= n
    ensures x % WORD <= n
  {
    if x < WORD {
      ModSmall(x);
    }
  }

  /** Adding after reducing modulo `2^64` is adding, then reducing. */
  lemma ModAdd(x: int, y: int)
    ensures (x % WORD + y) % WORD == (x + y) % WORD
  {
  }

  /** The loop of `quantileRange(lo, hi, k)`: the value of rank `k` in the
      range, bit by bit, with the start `b` of its entries on the last level
      and its rank `kk` among them. */
  method QuantileDown(ls: seq<seq<bool>>, nb: seq<seq<nat>>, n: nat, ghost s: seq<nat>, B: nat,
                      lo: nat, hi: nat, k: nat)
    returns (val: nat, b: nat, kk: nat)
    requires n == |s| && ls == Levels(s, B) && ZerosOf(ls, nb) && Fits(s, B) && lo < hi <= n && k < hi - lo
    ensures val < Pow2(B) && b == Walk(ls, n, B, val, lo)
    ensures Below(s[lo..hi], val) <= k && kk == k - Below(s[lo..hi], val) && kk < Occ(s[lo..hi], val)
  {
    CountStart(s, B, lo, hi);
    var e := hi;
    b, kk := lo, k;
    val := 0;
    var i: nat := 0;
    while i < B
      invariant i <= B && val < Pow2(i)
      invariant b == Walk(ls, n, i, val, lo) && e == Walk(ls, n, i, val, hi)
      invariant kk < e - b && kk + CountBelow(s, B, i, val, lo, hi) == k
    {
      var bit;
      bit, b, e, kk := QuantileLevel(ls, nb, n, s, B, i, val, lo, hi, b, e, kk);
      val := 2 * val + (if bit then 1 else 0);
      i := i + 1;
    }
    RankSpan(s, B, val, lo, hi);
    CountEnd(s, B, val, lo, hi);
  }

  /** A value that occurs in a range of `s`, whose entries are all below
      `m`, is below `m`. */
  lemma ValueInAlphabet(s: seq<nat>, m: nat, lo: nat, hi: nat, v: nat)
    requires lo <= hi <= |s| && Occ(s[lo..hi], v) > 0
    requires forall j | 0 <= j < |s| :: s[j] < m
    ensures v < m
  {
    var j := OccursAt(s[lo..hi], v);
    assert s[lo..hi][j] == s[lo + j];
  }

  class WaveletMatrix {
    var size: nat
    var alphabetNum: nat
    var alphabetBitNum: nat
    var bv: seq<seq<bool>>
    var nodeBeginPos: seq<seq<nat>>
    /** The values the matrix was built from. */
    ghost var src: seq<nat>

    /** The levels and node beginnings are those of `src` over the
        alphabet's bit width. */
    ghost predicate Valid()
      reads this
    {
      size == |src| < WORD &&
      IsAlphabet(src, alphabetNum) &&
      CeilLog(alphabetNum, alphabetBitNum) &&
      Fits(src, alphabetBitNum) &&
      bv == Levels(src, alphabetBitNum) &&
      nodeBeginPos == NodeBegins(bv, size)
    }

    /** The empty matrix. */
    constructor()
      ensures Valid() && src == [] && size == 0 && alphabetNum == 0 && alphabetBitNum == 0
      ensures bv == [] && nodeBeginPos == []
    {
      size, alphabetNum, alphabetBitNum := 0, 0, 0;
      bv, nodeBeginPos := [], [];
      src := [];
    }

    /** `size()`: the number of values stored. */
    function Size(): (n: nat)
      reads this
      requires Valid()
      ensures n == |src|
    {
      size
    }

    /** `clear()`: back to the empty matrix. */
    method Clear()
      modifies this
      ensures Valid() && src == [] && size == 0 && alphabetNum == 0 && alphabetBitNum == 0
      ensures bv == [] && nodeBeginPos == []
    {
      size, alphabetNum, alphabetBitNum := 0, 0, 0;
      bv, nodeBeginPos := [], [];
      src := [];
    }

    /** `swap(x)`: the two matrices exchange their contents. */
    method Swap(x: WaveletMatrix)
      requires Valid() && x.Valid()
      modifies this, x
      ensures Valid() && x.Valid()
      ensures src == old(x.src) && x.src == old(src)
      ensures size == old(x.size) && x.size == old(size)
      ensures alphabetNum == old(x.alphabetNum) && x.alphabetNum == old(alphabetNum)
      ensures alphabetBitNum == old(x.alphabetBitNum) && x.alphabetBitNum == old(alphabetBitNum)
      ensures bv == old(x.bv) && x.bv == old(bv)
      ensures nodeBeginPos == old(x.nodeBeginPos) && x.nodeBeginPos == old(nodeBeginPos)
    {
      size, x.size := x.size, size;
      alphabetNum, x.alphabetNum := x.alphabetNum, alphabetNum;
      alphabetBitNum, x.alphabetBitNum := x.alphabetBitNum, alphabetBitNum;
      bv, x.bv := x.bv, bv;
      nodeBeginPos, x.nodeBeginPos := x.nodeBeginPos, nodeBeginPos;
      src, x.src := x.src, src;
    }

    /** `build(src)`: the alphabet size and bit width of the values, then
        the levels and the node beginnings. An empty input leaves the
        empty matrix. */
    method Build(a: seq<nat>)
      requires |a| < WORD && forall j | 0 <= j < |a| :: a[j] < NOT_FOUND
      modifies this
      ensures Valid() && src == a
      ensures size == |a| && IsAlphabet(a, alphabetNum) && CeilLog(alphabetNum, alphabetBitNum)
    {
      Clear();
      var n := GetAlphabetNum(a);
      alphabetNum := n;
      if n == 0 {
        assert a == [];
        return;
      }
      var B := Log2(n);
      AlphabetFits(a, n, B);
      var ls := Levels(a, B);
      var nb := NodeBegins(ls, |a|);
      alphabetBitNum, size, bv, nodeBeginPos, src := B, |a|, ls, nb, a;
    }

    /** `lookup(pos)`: the value stored at `pos`, or `NOT_FOUND` past the
        end. Each level's bit is one bit of the value, and `rank` moves the
        position to where the same value is stored on the next level. */
    method Lookup(pos: nat) returns (r: nat)
      requires Valid()
      ensures pos >= |src| ==> r == NOT_FOUND
      ensures pos < |src| ==> r == src[pos]
    {
      if pos >= size {
        return NOT_FOUND;
      }
      BuiltLevels(src, alphabetBitNum);
      r := LookupIn(bv, nodeBeginPos, size, src, alphabetBitNum, pos);
    }

    /** `rank(c, pos)`: how many times `c` occurs before `pos`; `NOT_FOUND`
        for a value outside the alphabet or a position past the end. */
    method Rank(c: nat, pos: nat) returns (r: nat)
      requires Valid()
      ensures c >= alphabetNum || pos > |src| ==> r == NOT_FOUND
      ensures c < alphabetNum && pos <= |src| ==> r == Occ(src[..pos], c)
    {
      if c >= alphabetNum || pos > size {
        return NOT_FOUND;
      }
      if pos == 0 {
        return 0;
      }
      BuiltLevels(src, alphabetBitNum);
      var B := alphabetBitNum;
      var beginPos := if B == 0 then 0 else nodeBeginPos[B - 1][c];
      var endPos := WalkDown(bv, nodeBeginPos, size, B, c, pos);
      RankByWalks(src, B, c, pos);
      r := endPos - beginPos;
    }

    /** `rank(c, pos)` as written: the node of `c` is read from
        `nodeBeginPos_[alphabetBitNum_ - 1]` even when there are no levels,
        which reads outside the table (`Failure`). */
    method RankAsWritten(c: nat, pos: nat) returns (r: Result<nat>)
      requires Valid()
      ensures c >= alphabetNum || pos > |src| ==> r == Success(NOT_FOUND)
      ensures c < alphabetNum && pos == 0 ==> r == Success(0)
      ensures c < alphabetNum && 0 < pos <= |src| && alphabetBitNum == 0 ==> r == Failure
      ensures c < alphabetNum && 0 < pos <= |src| && alphabetBitNum > 0 ==> r == Success(Occ(src[..pos], c))
    {
      if c >= alphabetNum || pos > size {
        return Success(NOT_FOUND);
      }
      if pos == 0 {
        return Success(0);
      }
      if alphabetBitNum == 0 {
        return Failure;
      }
      var n := Rank(c, pos);
      r := Success(n);
    }

    /** `rankAll(c, begin_pos, end_pos)`: how many entries of
        `[begin_pos, end_pos)` equal `c`, are below it and are above it;
        `NOT_FOUND` three times for a value outside the alphabet or a range
        outside the matrix, and zeros for an empty range. Both ends take
        `rank0` on every level. */
    method RankAll(c: nat, lo: nat, hi: nat) returns (res: Ranks)
      requires Valid()
      ensures c >= alphabetNum || lo >= |src| || hi > |src| ==> res == Ranks(NOT_FOUND, NOT_FOUND, NOT_FOUND)
      ensures c < alphabetNum && lo < |src| && hi <= lo ==> res == Ranks(0, 0, 0)
      ensures c < alphabetNum && lo < hi <= |src| ==>
                res == Ranks(Occ(src[lo..hi], c), Below(src[lo..hi], c), Above(src[lo..hi], c))
    {
      if c >= alphabetNum || lo >= size || hi > size {
        return Ranks(NOT_FOUND, NOT_FOUND, NOT_FOUND);
      }
      if lo >= hi {
        return Ranks(0, 0, 0);
      }
      BuiltLevels(src, alphabetBitNum);
      res := RangeDown(bv, nodeBeginPos, size, src, alphabetBitNum, c, lo, hi);
    }

    /** The three counts the loop of `rankAll(c, lo, hi)` as written ends
        with, taking the shortcuts at `lo == 0` and `hi == size_`. */
    ghost function RanksAsWritten(c: nat, lo: nat, hi: nat): (r: Ranks)
      reads this
      requires Valid() && lo <= hi <= size
      ensures r.rank < WORD && r.less < WORD && r.more < WORD
    {
      BuiltLevels(src, alphabetBitNum);
      RangeAsWritten(bv, nodeBeginPos, size, alphabetBitNum, c, 0, 0, lo == 0, hi == size, RangeState(lo, hi, 0, 0))
    }

    /** `rankAll(c, begin_pos, end_pos)` as written: the same guards, and
        the loop of `RangeAsWritten`, which takes the node beginnings as the
        ends' zeros when `begin_pos` is 0 or `end_pos` is `size_`. Away from
        both edges it answers the counts `RankAll` does. */
    method RankAllAsWritten(c: nat, lo: nat, hi: nat) returns (res: Ranks)
      requires Valid()
      ensures c >= alphabetNum || lo >= |src| || hi > |src| ==> res == Ranks(NOT_FOUND, NOT_FOUND, NOT_FOUND)
      ensures c < alphabetNum && lo < |src| && hi <= lo ==> res == Ranks(0, 0, 0)
      ensures c < alphabetNum && lo < hi <= |src| ==> res == RanksAsWritten(c, lo, hi)
      ensures c < alphabetNum && 0 < lo < hi < |src| ==>
                res == Ranks(Occ(src[lo..hi], c), Below(src[lo..hi], c), Above(src[lo..hi], c))
    {
      if c >= alphabetNum || lo >= size || hi > size {
        return Ranks(NOT_FOUND, NOT_FOUND, NOT_FOUND);
      }
      if lo >= hi {
        return Ranks(0, 0, 0);
      }
      BuiltLevels(src, alphabetBitNum);
      res := RangeDownAsWritten(bv, nodeBeginPos, size, alphabetBitNum, c, lo, hi, lo == 0, hi == size);
      if lo > 0 && hi < size {
        RanksInside(c, lo, hi);
      }
    }

    /** Away from both edges of the matrix the loop as written ends with
        the right counts of `[lo, hi)`. */
    lemma RanksInside(c: nat, lo: nat, hi: nat)
      requires Valid() && c < alphabetNum && 0 < lo < hi < |src|
      ensures RanksAsWritten(c, lo, hi) == Ranks(Occ(src[lo..hi], c), Below(src[lo..hi], c), Above(src[lo..hi], c))
    {
      BuiltLevels(src, alphabetBitNum);
      RangeFromStart(bv, nodeBeginPos, src, alphabetBitNum, c, lo, hi);
    }

    /** `rankLessThan(c, pos)`: how many entries before `pos` are below
        `c`. */
    method RankLessThan(c: nat, pos: nat) returns (r: nat)
      requires Valid()
      ensures c >= alphabetNum || pos > |src| ==> r == NOT_FOUND
      ensures c < alphabetNum && pos <= |src| ==> r == Below(src[..pos], c)
    {
      var res := RankAll(c, 0, pos);
      if pos <= size {
        assert src[0..pos] == src[..pos];
      }
      r := res.less;
    }

    /** `rankMoreThan(c, pos)`: how many entries before `pos` are above
        `c`. */
    method RankMoreThan(c: nat, pos: nat) returns (r: nat)
      requires Valid()
      ensures c >= alphabetNum || pos > |src| ==> r == NOT_FOUND
      ensures c < alphabetNum && pos <= |src| ==> r == Above(src[..pos], c)
    {
      var res := RankAll(c, 0, pos);
      if pos <= size {
        assert src[0..pos] == src[..pos];
      }
      r := res.more;
    }

    /** `selectFromPos(c, pos, rank)`: `NOT_FOUND` for a value outside the
        alphabet or a position past the end. Otherwise the position is
        walked down to the node of `c` (or the node's beginning is read when
        `pos` is 0), `rank` is added, and the index climbs back up with
        `select`, plus one, on every level. A `select` beyond the level's
        count, or reading the node of `c` when there are no levels, is a
        `Failure`. */
    method SelectFromPos(c: nat, pos: nat, rank: nat) returns (r: Result<nat>)
      requires Valid()
      ensures c >= alphabetNum || pos >= |src| ==> r == Success(NOT_FOUND)
      ensures c < alphabetNum && pos < |src| && alphabetBitNum == 0 ==>
                r == (if pos == 0 then Failure else Success((pos + rank) % WORD))
      ensures c < alphabetNum && pos < |src| && alphabetBitNum > 0 && r.Success? ==> 1 <= r.value <= |src|
    {
      if c >= alphabetNum || pos >= size {
        return Success(NOT_FOUND);
      }
      var B := alphabetBitNum;
      BuiltLevels(src, B);
      var index: nat;
      if pos == 0 {
        if B == 0 {
          return Failure;
        }
        index := nodeBeginPos[B - 1][c];
      } else {
        index := WalkDown(bv, nodeBeginPos, size, B, c, pos);
      }
      index := (index + rank) % WORD;
      var i: nat := B;
      while i > 0
        invariant i <= B && (i < B ==> 1 <= index <= size)
        invariant B == 0 ==> index == (pos + rank) % WORD
      {
        i := i - 1;
        var l := bv[i];
        var bit := Bit(c, B, i);
        if bit {
          index := (index - nodeBeginPos[i][1]) % WORD;
        }
        if index >= BitSeqs.Total(l, bit) {
          return Failure;
        }
        // A selected position is below `size`, so the source's check for
        // `NOT_FOUND` after adding one never holds.
        index := BitSeqs.Select(l, bit, index) + 1;
      }
      r := Success(index);
    }

    /** `select(c, rank)`: `selectFromPos` from position 0. */
    method Select(c: nat, rank: nat) returns (r: Result<nat>)
      requires Valid()
      ensures c >= alphabetNum || |src| == 0 ==> r == Success(NOT_FOUND)
      ensures c < alphabetNum && alphabetBitNum == 0 ==> r == Failure
      ensures c < alphabetNum && alphabetBitNum > 0 && r.Success? ==> 1 <= r.value <= |src|
    {
      r := SelectFromPos(c, 0, rank);
    }

    /** `freq(c)`: how many times `c` occurs, `NOT_FOUND` outside the
        alphabet. */
    method Freq(c: nat) returns (r: nat)
      requires Valid()
      ensures c >= alphabetNum ==> r == NOT_FOUND
      ensures c < alphabetNum ==> r == Occ(src, c)
    {
      r := Rank(c, size);
      assert src[..size] == src;
    }

    /** `freqSum(min_c, max_c)`: the sum of `freq` over `[min_c, max_c)`,
        modulo `2^64`; this is the number of values in the band when it
        stays inside the alphabet, and every value past the alphabet adds
        `NOT_FOUND`. */
    method FreqSum(minC: nat, maxC: nat) returns (r: nat)
      requires Valid()
      ensures r == (InBand(src, minC, maxC) + Beyond(minC, maxC, alphabetNum) * NOT_FOUND) % WORD
      ensures maxC <= alphabetNum ==> r == InBand(src, minC, maxC)
    {
      var sum: nat := 0;
      var i: nat := minC;
      while i < maxC
        invariant minC <= i <= if minC < maxC then maxC else minC
        invariant sum == FreqTotal(src, alphabetNum, minC, i)
      {
        var f := Freq(i);
        FreqTotalNext(src, alphabetNum, minC, i);
        sum := (sum + f) % WORD;
        i := i + 1;
      }
      r := sum;
      FreqSumCounts(src, alphabetNum, minC, maxC);
    }

    /** `freqRange(min_c, max_c, begin_pos, end_pos)` as written: the count
        below `max_c` minus the count below `min_c`, both from `rankAll` as
        written, modulo `2^64`; for `max_c` past the alphabet the first is
        `NOT_FOUND`. `BandAsWritten` says what this is away from both edges
        of the matrix. */
    method FreqRangeAsWritten(minC: nat, maxC: nat, lo: nat, hi: nat) returns (r: nat)
      requires Valid()
      ensures minC >= alphabetNum || maxC <= minC || hi > |src| || lo >= hi ==> r == 0
      ensures minC < alphabetNum && minC < maxC && lo < hi <= |src| ==> r == BandAsWritten(minC, maxC, lo, hi)
    {
      if minC >= alphabetNum || maxC <= minC || hi > size || lo >= hi {
        return 0;
      }
      var maxRanks := RankAllAsWritten(maxC, lo, hi);
      var minRanks := RankAllAsWritten(minC, lo, hi);
      r := Sub64(maxRanks.less, minRanks.less);
    }

    /** What `freqRange` as written answers for a band starting inside the
        alphabet and a non-empty range: the count below `max_c` (or
        `NOT_FOUND` past the alphabet) minus the count below `min_c`, both
        from the loop as written, modulo `2^64`. */
    ghost function BandAsWritten(minC: nat, maxC: nat, lo: nat, hi: nat): nat
      reads this
      requires Valid() && lo <= hi <= size
    {
      var maxLess := if maxC >= alphabetNum then NOT_FOUND else RanksAsWritten(maxC, lo, hi).less;
      Sub64(maxLess, RanksAsWritten(minC, lo, hi).less)
    }

    /** Away from both edges of the matrix `freqRange` as written counts the
        band, and a band reaching past the alphabet answers `NOT_FOUND`
        minus the count below `min_c`. */
    lemma BandInside(minC: nat, maxC: nat, lo: nat, hi: nat)
      requires Valid() && minC < alphabetNum && minC < maxC && 0 < lo < hi < |src|
      ensures maxC < alphabetNum ==> BandAsWritten(minC, maxC, lo, hi) == InBand(src[lo..hi], minC, maxC)
      ensures maxC >= alphabetNum ==> BandAsWritten(minC, maxC, lo, hi) == NOT_FOUND - Below(src[lo..hi], minC)
    {
      var band := src[lo..hi];
      RanksInside(minC, lo, hi);
      var maxLess := NOT_FOUND;
      if maxC < alphabetNum {
        RanksInside(maxC, lo, hi);
        maxLess := Below(band, maxC);
      }
      BandDifference(band, minC, maxC, alphabetNum, maxLess, Below(band, minC));
    }

    /** `freqRange(min_c, max_c, begin_pos, end_pos)`: how many entries of
        `[begin_pos, end_pos)` lie in `[min_c, max_c)`; 0 for a band
        starting past the alphabet, an empty band or an empty or outside
        range. A band reaching past the alphabet counts the whole range
        below `max_c`. */
    method FreqRange(minC: nat, maxC: nat, lo: nat, hi: nat) returns (r: nat)
      requires Valid()
      ensures minC >= alphabetNum || maxC <= minC || hi > |src| || lo >= hi ==> r == 0
      ensures minC < alphabetNum && minC < maxC && lo < hi <= |src| ==> r == InBand(src[lo..hi], minC, maxC)
    {
      if minC >= alphabetNum || maxC <= minC || hi > size || lo >= hi {
        return 0;
      }
      var maxLess: nat;
      if maxC >= alphabetNum {
        maxLess := hi - lo;
        BelowAll(src[lo..hi], maxC);
      } else {
        var maxRanks := RankAll(maxC, lo, hi);
        maxLess := maxRanks.less;
      }
      var minRanks := RankAll(minC, lo, hi);
      InBandBelow(src[lo..hi], minC, maxC);
      r := maxLess - minRanks.less;
    }

    /** `quantileRange(begin_pos, end_pos, k)`: the value of rank `k`
        (counting from 0) among the entries of `[begin_pos, end_pos)`, read
        one bit per level, and a position from `select`; `NOT_FOUND` for
        both when the range is empty or outside the matrix or `k` is not
        below its length. Both ends take `rank0` on every level. */
    method QuantileRange(lo: nat, hi: nat, k: nat) returns (pos: Result<nat>, val: nat)
      requires Valid()
      ensures hi > |src| || lo >= hi || k >= hi - lo ==> pos == Success(NOT_FOUND) && val == NOT_FOUND
      ensures hi <= |src| && lo < hi && k < hi - lo ==>
                Below(src[lo..hi], val) <= k < Below(src[lo..hi], val) + Occ(src[lo..hi], val)
      ensures hi <= |src| && lo < hi && k < hi - lo && alphabetBitNum == 0 ==> pos == Failure
      ensures hi <= |src| && lo < hi && k < hi - lo && pos.Success? ==> pos.value < |src|
    {
      if hi > size || lo >= hi || k >= hi - lo {
        return Success(NOT_FOUND), NOT_FOUND;
      }
      var B := alphabetBitNum;
      BuiltLevels(src, B);
      var b, kk;
      val, b, kk := QuantileDown(bv, nodeBeginPos, size, src, B, lo, hi, k);
      ValueInAlphabet(src, alphabetNum, lo, hi, val);
      if B == 0 {
        return Failure, val;
      }
      var rank := (b + kk - nodeBeginPos[B - 1][val] + 1) % WORD;
      var found := SelectFromPos(val, 0, rank);
      pos := if found.Success? then Success(found.value - 1) else Failure;
    }

    /** The value the loop of `quantileRange(lo, hi, k)` as written ends
        on, taking the shortcuts at `lo == 0` and `hi == size_`. */
    ghost function QuantileValueAsWritten(lo: nat, hi: nat, k: nat): (r: nat)
      reads this
      requires Valid() && lo <= hi <= size
      ensures r < Pow2(alphabetBitNum)
    {
      BuiltLevels(src, alphabetBitNum);
      QuantileAsWritten(bv, nodeBeginPos, size, alphabetBitNum, 0, 0, 0, lo == 0, hi == size, QuantState(lo, hi, k))
    }

    /** The value `quantileRange(begin_pos, end_pos, k)` as written answers:
        the same guards, and the loop of `QuantileAsWritten`, which takes
        the node beginnings as the ends' zeros when `begin_pos` is 0 or
        `end_pos` is `size_`. Away from both edges it answers the value of
        rank `k` that `QuantileRange` does. */
    method QuantileRangeAsWritten(lo: nat, hi: nat, k: nat) returns (val: nat)
      requires Valid()
      ensures hi > |src| || lo >= hi || k >= hi - lo ==> val == NOT_FOUND
      ensures hi <= |src| && lo < hi && k < hi - lo ==> val == QuantileValueAsWritten(lo, hi, k)
      ensures 0 < lo < hi < |src| && k < hi - lo ==>
                Below(src[lo..hi], val) <= k < Below(src[lo..hi], val) + Occ(src[lo..hi], val)
    {
      if hi > size || lo >= hi || k >= hi - lo {
        return NOT_FOUND;
      }
      BuiltLevels(src, alphabetBitNum);
      val := QuantileDownAsWritten(bv, nodeBeginPos, size, alphabetBitNum, lo, hi, k, lo == 0, hi == size);
      if lo > 0 && hi < size {
        QuantilesInside(lo, hi, k);
      }
    }

    /** Away from both edges of the matrix the loop of `quantileRange` as
        written ends on the value of rank `k` in `[lo, hi)`. */
    lemma QuantilesInside(lo: nat, hi: nat, k: nat)
      requires Valid() && 0 < lo < hi < |src| && k < hi - lo
      ensures var v := QuantileValueAsWritten(lo, hi, k);
              Below(src[lo..hi], v) <= k < Below(src[lo..hi], v) + Occ(src[lo..hi], v)
    {
      BuiltLevels(src, alphabetBitNum);
      CountStart(src, alphabetBitNum, lo, hi);
      QuantileInside(bv, nodeBeginPos, src, alphabetBitNum, 0, 0, 0, lo, hi, k, QuantState(lo, hi, k));
    }

    /** The value `maxRange(begin_pos, end_pos)` as written answers: that of
        `quantileRange` as written for the last rank. Away from both edges
        it is the largest value in the range. */
    method MaxRangeAsWritten(lo: nat, hi: nat) returns (val: nat)
      requires Valid()
      ensures hi > |src| || lo >= hi ==> val == NOT_FOUND
      ensures hi <= |src| && lo < hi ==> val == QuantileValueAsWritten(lo, hi, hi - lo - 1)
      ensures 0 < lo < hi < |src| ==> Occ(src[lo..hi], val) > 0 && Above(src[lo..hi], val) == 0
    {
      var k: nat := (hi - lo - 1) % WORD;
      if lo < hi <= size {
        ModSmall(hi - lo - 1);
      }
      val := QuantileRangeAsWritten(lo, hi, k);
      if hi <= size && lo < hi {
        Trichotomy(src[lo..hi], val);
      }
    }

    /** The value `minRange(begin_pos, end_pos)` as written answers: that of
        `quantileRange` as written for rank 0. Away from both edges it is
        the smallest value in the range. */
    method MinRangeAsWritten(lo: nat, hi: nat) returns (val: nat)
      requires Valid()
      ensures hi > |src| || lo >= hi ==> val == NOT_FOUND
      ensures hi <= |src| && lo < hi ==> val == QuantileValueAsWritten(lo, hi, 0)
      ensures 0 < lo < hi < |src| ==> Occ(src[lo..hi], val) > 0 && Below(src[lo..hi], val) == 0
    {
      val := QuantileRangeAsWritten(lo, hi, 0);
    }

    /** `maxRange(begin_pos, end_pos)`: the largest value in the range. */
    method MaxRange(lo: nat, hi: nat) returns (pos: Result<nat>, val: nat)
      requires Valid()
      ensures hi > |src| || lo >= hi ==> pos == Success(NOT_FOUND) && val == NOT_FOUND
      ensures hi <= |src| && lo < hi ==> Occ(src[lo..hi], val) > 0 && Above(src[lo..hi], val) == 0
    {
      var k: nat := (hi - lo - 1) % WORD;
      pos, val := QuantileRange(lo, hi, k);
      if hi <= size && lo < hi {
        Trichotomy(src[lo..hi], val);
      }
    }

    /** `minRange(begin_pos, end_pos)`: the smallest value in the range. */
    method MinRange(lo: nat, hi: nat) returns (pos: Result<nat>, val: nat)
      requires Valid()
      ensures hi > |src| || lo >= hi ==> pos == Success(NOT_FOUND) && val == NOT_FOUND
      ensures hi <= |src| && lo < hi ==> Occ(src[lo..hi], val) > 0 && Below(src[lo..hi], val) == 0
    {
      pos, val := QuantileRange(lo, hi, 0);
    }
  }

  /** `2^a <= 2^b` for `a <= b`. */
  lemma {:induction false} Pow2Grows(a: nat, b: nat)
    requires a <= b
    ensures Pow2(a) <= Pow2(b)
    decreases b - a
  {
    if a < b {
      Pow2Grows(a, b - 1);
    }
  }

  /** The bits of {2, 3} on each level: both have a 1 on top. */
  lemma TwoThreeMarks()
    ensures Marks([2, 3], 2, 0) == [true, true] && Marks([2, 3], 2, 1) == [false, true]
  {
    var s: seq<nat> := [2, 3];
    assert Marks(s, 2, 0) == [true, true];
    assert Marks(s, 2, 1) == [false, true];
  }

  /** The bits of {2, 3} on each level, and the order of each level:
      both values have a 1 on top, so level 1 keeps level 0's order. */
  lemma TwoThreeOrders()
    ensures Marks([2, 3], 2, 0) == [true, true] && Marks([2, 3], 2, 1) == [false, true]
    ensures Order([2, 3], 2, 0) == [0, 1] && Order([2, 3], 2, 1) == [0, 1]
  {
    var s: seq<nat> := [2, 3];
    TwoThreeMarks();
    assert Order(s, 2, 0) == [0, 1];
    var o, m := [0, 1], [true, true];
    assert o[..1] == [0] && [0][..0] == [];
    assert Keep(o, m, false) == [] && Keep(o, m, true) == [0, 1];
    assert Order(s, 2, 1) == Keep(o, m, false) + Keep(o, m, true);
  }

  /** The levels of {2, 3} in two bits: [1, 1] and [0, 1]. */
  lemma TwoThreeLevels()
    ensures Levels([2, 3], 2) == [[true, true], [false, true]]
  {
    var s: seq<nat> := [2, 3];
    TwoThreeOrders();
    assert Level(s, 2, 0) == [true, true];
    assert Level(s, 2, 1) == [false, true];
    LevelsAt(s, 2, 0);
    LevelsAt(s, 2, 1);
  }

  /** What the loop of `rankAll` reads from the levels [1, 1] and [0, 1]
      of {2, 3} and their node beginnings [0, 0] and [0, 1, 0, 1]. */
  ghost predicate TwoThreeShape(ls: seq<seq<bool>>, nb: seq<seq<nat>>)
  {
    |ls| == 2 && |ls[0]| == 2 && |ls[1]| == 2 &&
    BitSeqs.Total(ls[0], false) == 0 && BitSeqs.Total(ls[1], false) == 1 &&
    BitSeqs.Rank(ls[0], false, 1) == 0 && BitSeqs.Rank(ls[1], false, 1) == 1 &&
    |nb| == 2 && |nb[0]| == 2 && |nb[1]| == 4 &&
    nb[0][0] == 0 && nb[0][1] == 0 && nb[1][1] == 1 && nb[1][2] == 0
  }

  /** That shape is enough to run the loop of `rankAll` as written. */
  lemma TwoThreeRuns(ls: seq<seq<bool>>, nb: seq<seq<nat>>)
    requires TwoThreeShape(ls, nb)
    ensures Tables(ls, nb, 2, 2)
  {
    TwoThreeBits();
    assert Uniform(ls, 2) by {
      forall j | 0 <= j < 2 ensures |ls[j]| == 2 {
        assert j == 0 || j == 1;
      }
    }
    assert ZerosOf(ls, nb) by {
      forall j | 0 <= j < 2 ensures |nb[j]| > 1 && nb[j][1] == BitSeqs.Total(ls[j], false) {
        assert j == 0 || j == 1;
      }
    }
    forall j | 0 <= j < 2 ensures |nb[j]| == Pow2(j + 1) {
      assert j == 0 || j == 1;
    }
  }

  /** The levels [1, 1] and [0, 1] have that shape. */
  lemma TwoThreeTables(ls: seq<seq<bool>>, nb: seq<seq<nat>>)
    requires ls == [[true, true], [false, true]] && nb == [[0, 0], [0, 1, 0, 1]]
    ensures TwoThreeShape(ls, nb)
  {
    assert BitSeqs.Rank(ls[0], false, 1) == 0 && BitSeqs.Rank(ls[1], false, 1) == 1;
    assert BitSeqs.Rank(ls[0], false, 2) == 0 && BitSeqs.Rank(ls[1], false, 2) == 1;
  }

  /** The bits of 2 and 3 in two bits, and the node counts of two levels. */
  lemma TwoThreeBits()
    ensures Pow2(0) == 1 && Pow2(1) == 2 && Pow2(2) == 4
    ensures Bit(3, 2, 0) && Bit(3, 2, 1) && Bit(2, 2, 0) && !Bit(2, 2, 1)
  {
    assert Shr(2, 0) == 2 && Shr(3, 0) == 3;
  }

  /** The residues modulo `2^64` the runs on {2, 3} meet: small values
      stay, and one less than nothing wraps to `NOT_FOUND`. */
  lemma TwoThreeMods()
    ensures 0 % WORD == 0 && 1 % WORD == 1 && 2 % WORD == 2 && 3 % WORD == 3
    ensures NOT_FOUND % WORD == NOT_FOUND && (0 - 1) % WORD == NOT_FOUND
  {
    ModSmall(0);
    ModSmall(1);
    ModSmall(2);
    ModSmall(3);
    ModSmall(NOT_FOUND);
  }

  /** Level 0 of {2, 3} holds [1, 1]: for 3 and 2 alike (first bit 1) the
      loop as written keeps every range where it is. */
  lemma TwoThreeLevelZero(l: seq<bool>)
    requires |l| == 2 && BitSeqs.Total(l, false) == 0 && BitSeqs.Rank(l, false, 1) == 0
    ensures LevelAsWritten(l, 0, 0, 0, true, true, true, RangeState(0, 2, 0, 0)) == RangeState(0, 2, 0, 0)
    ensures LevelAsWritten(l, 0, 0, 0, true, true, false, RangeState(0, 1, 0, 0)) == RangeState(0, 1, 0, 0)
    ensures LevelAsWritten(l, 0, 0, 0, true, false, true, RangeState(1, 2, 0, 0)) == RangeState(1, 2, 0, 0)
  {
    TwoThreeMods();
  }

  /** Level 1 of {2, 3} holds [0, 1], and the loop as written reads node 1
      (beginning 1, next beginning 0) for a shortcut end, where the node
      of the prefix 1 is node 2:
      - over [0, 2) along a 1 the range grows to [0, 3) and the count
        below wraps to `NOT_FOUND`;
      - over [0, 1) along a 1 the range stays [0, 1), keeping the entry 2;
      - over [0, 1) along a 0 the range empties to [1, 1) and counts one
        entry above;
      - over [1, 2) along a 1 the range grows to [1, 3) and the count
        below wraps to `NOT_FOUND`. */
  lemma TwoThreeLevelOne(l: seq<bool>)
    requires |l| == 2 && BitSeqs.Total(l, false) == 1 && BitSeqs.Rank(l, false, 1) == 1
    ensures LevelAsWritten(l, 1, 1, 0, true, true, true, RangeState(0, 2, 0, 0)) == RangeState(0, 3, NOT_FOUND, 0)
    ensures LevelAsWritten(l, 1, 1, 0, true, true, false, RangeState(0, 1, 0, 0)) == RangeState(0, 1, 0, 0)
    ensures LevelAsWritten(l, 1, 1, 0, false, true, false, RangeState(0, 1, 0, 0)) == RangeState(1, 1, 0, 1)
    ensures LevelAsWritten(l, 1, 1, 0, true, false, true, RangeState(1, 2, 0, 0)) == RangeState(1, 3, NOT_FOUND, 0)
  {
    TwoThreeMods();
  }

  /** `rankAll(3, 0, 2)` on {2, 3}, level by level: both shortcuts. */
  lemma TwoThreeWhole(ls: seq<seq<bool>>, nb: seq<seq<nat>>)
    requires TwoThreeShape(ls, nb)
    ensures Tables(ls, nb, 2, 2)
    ensures RangeAsWritten(ls, nb, 2, 2, 3, 0, 0, true, true, RangeState(0, 2, 0, 0)) == Ranks(3, NOT_FOUND, 0)
  {
    TwoThreeBits();
    TwoThreeRuns(ls, nb);
    TwoThreeLevelZero(ls[0]);
    TwoThreeLevelOne(ls[1]);
    RangeUnfold(ls, nb, 2, 2, 3, 0, 0, true, true, RangeState(0, 2, 0, 0));
    RangeUnfold(ls, nb, 2, 2, 3, 1, 1, true, true, RangeState(0, 2, 0, 0));
  }

  /** `rankAll(3, 0, 1)` on {2, 3}, level by level: the shortcut from
      zero. */
  lemma TwoThreePrefixBelow(ls: seq<seq<bool>>, nb: seq<seq<nat>>)
    requires TwoThreeShape(ls, nb)
    ensures Tables(ls, nb, 2, 2)
    ensures RangeAsWritten(ls, nb, 2, 2, 3, 0, 0, true, false, RangeState(0, 1, 0, 0)) == Ranks(1, 0, 0)
  {
    TwoThreeBits();
    TwoThreeRuns(ls, nb);
    TwoThreeLevelZero(ls[0]);
    TwoThreeLevelOne(ls[1]);
    RangeUnfold(ls, nb, 2, 2, 3, 0, 0, true, false, RangeState(0, 1, 0, 0));
    RangeUnfold(ls, nb, 2, 2, 3, 1, 1, true, false, RangeState(0, 1, 0, 0));
  }

  /** `rankAll(2, 0, 1)` on {2, 3}, level by level: the shortcut from
      zero. */
  lemma TwoThreePrefixAbove(ls: seq<seq<bool>>, nb: seq<seq<nat>>)
    requires TwoThreeShape(ls, nb)
    ensures Tables(ls, nb, 2, 2)
    ensures RangeAsWritten(ls, nb, 2, 2, 2, 0, 0, true, false, RangeState(0, 1, 0, 0)) == Ranks(0, 0, 1)
  {
    TwoThreeBits();
    TwoThreeRuns(ls, nb);
    TwoThreeLevelZero(ls[0]);
    TwoThreeLevelOne(ls[1]);
    RangeUnfold(ls, nb, 2, 2, 2, 0, 0, true, false, RangeState(0, 1, 0, 0));
    RangeUnfold(ls, nb, 2, 2, 2, 1, 1, true, false, RangeState(0, 1, 0, 0));
  }

  /** `rankAll(3, 1, 2)` on {2, 3}, level by level: the shortcut to the
      end. */
  lemma TwoThreeSuffix(ls: seq<seq<bool>>, nb: seq<seq<nat>>)
    requires TwoThreeShape(ls, nb)
    ensures Tables(ls, nb, 2, 2)
    ensures RangeAsWritten(ls, nb, 2, 2, 3, 0, 0, false, true, RangeState(1, 2, 0, 0)) == Ranks(2, NOT_FOUND, 0)
  {
    TwoThreeBits();
    TwoThreeRuns(ls, nb);
    TwoThreeLevelZero(ls[0]);
    TwoThreeLevelOne(ls[1]);
    RangeUnfold(ls, nb, 2, 2, 3, 0, 0, false, true, RangeState(1, 2, 0, 0));
    RangeUnfold(ls, nb, 2, 2, 3, 1, 1, false, true, RangeState(1, 2, 0, 0));
  }

  /** In {2, 3}, 3 occurs once with one value below it; in its prefix
      {2}, 3 does not occur and one value is below it, while 2 occurs once
      with nothing above it; in its suffix {3}, 3 occurs once and nothing
      is below it. */
  lemma TwoThreeCounts()
    ensures Occ([2, 3], 3) == 1 && Below([2, 3], 3) == 1 && Above([2, 3], 3) == 0
    ensures Occ([2], 3) == 0 && Below([2], 3) == 1 && Above([2], 3) == 0
    ensures Occ([2], 2) == 1 && Below([2], 2) == 0 && Above([2], 2) == 0
    ensures Occ([3], 3) == 1 && Below([3], 3) == 0 && Above([3], 3) == 0
    ensures Above([2, 3], 2) == 1
  {
    assert [2, 3][..1] == [2] && [2][..0] == [] && [3][..0] == [];
  }

  /** The node beginnings of the levels [1, 1] and [0, 1]. */
  lemma TwoThreeBegins()
    ensures NodeBegins([[true, true], [false, true]], 2) == [[0, 0], [0, 1, 0, 1]]
  {
    var ls := [[true, true], [false, true]];
    var nb := NodeBegins(ls, 2);
    assert Pow2(1) == 2 && Pow2(2) == 4;
    assert nb[0] == [0, 0];
    assert nb[1] == [0, 1, 0, 1];
  }

  /** A matrix built from {2, 3} has four symbols in two bits, levels
      [1, 1] and [0, 1], and node beginnings [0, 0] and [0, 1, 0, 1]. */
  lemma TwoThreeMatrix(w: WaveletMatrix)
    requires w.Valid() && w.src == [2, 3]
    ensures w.size == 2 && w.alphabetNum == 4 && w.alphabetBitNum == 2
    ensures w.bv == [[true, true], [false, true]] && w.nodeBeginPos == [[0, 0], [0, 1, 0, 1]]
  {
    var s := w.src;
    assert s[0] == 2 && s[1] == 3;
    var B := w.alphabetBitNum;
    assert w.alphabetNum == 4;
    if B >= 3 {
      Pow2Grows(2, B - 1);
    }
    assert Pow2(2) == 4;
    assert B == 2;
    TwoThreeLevels();
    TwoThreeBegins();
  }

  /** On the matrix built from {2, 3}, `rankAll` as written misreads
      whenever a shortcut is taken:
      - over the whole matrix, `rankAll(3, 0, 2)` answers 3 occurrences and
        `NOT_FOUND` values below 3, where 3 occurs once and 2 is below it;
      - `rankAll(3, 1, 2)` answers 2 occurrences and `NOT_FOUND` values
        below 3 in {3}, where 3 occurs once and nothing is below it. */
  lemma ShortcutsMisread(w: WaveletMatrix)
    requires w.Valid() && w.src == [2, 3]
    ensures w.size == 2
    ensures w.RanksAsWritten(3, 0, 2) == Ranks(3, NOT_FOUND, 0)
    ensures Ranks(Occ(w.src[0..2], 3), Below(w.src[0..2], 3), Above(w.src[0..2], 3)) == Ranks(1, 1, 0)
    ensures w.RanksAsWritten(3, 1, 2) == Ranks(2, NOT_FOUND, 0)
    ensures Ranks(Occ(w.src[1..2], 3), Below(w.src[1..2], 3), Above(w.src[1..2], 3)) == Ranks(1, 0, 0)
  {
    var s := w.src;
    assert s[0..2] == [2, 3] && s[1..2] == [3];
    WholeAsWritten(w);
    SuffixAsWritten(w);
    TwoThreeCounts();
  }

  /** `rankAll(3, 0, 2)` as written on the matrix built from {2, 3}. */
  lemma WholeAsWritten(w: WaveletMatrix)
    requires w.Valid() && w.src == [2, 3]
    ensures w.size == 2 && w.RanksAsWritten(3, 0, 2) == Ranks(3, NOT_FOUND, 0)
  {
    var ls, nb := TwoThreeAsWritten(w, 3, 0, 2);
    TwoThreeWhole(ls, nb);
  }

  /** `rankAll(3, 1, 2)` as written on the matrix built from {2, 3}. */
  lemma SuffixAsWritten(w: WaveletMatrix)
    requires w.Valid() && w.src == [2, 3]
    ensures w.size == 2 && w.RanksAsWritten(3, 1, 2) == Ranks(2, NOT_FOUND, 0)
  {
    var ls, nb := TwoThreeAsWritten(w, 3, 1, 2);
    TwoThreeSuffix(ls, nb);
  }

  /** On the matrix built from {2, 3}, the shortcut from zero misleads
      `rankLessThan` and `rankMoreThan`:
      - `rankLessThan(3, 1)`, through `rankAll(3, 0, 1)`, answers no value
        below 3 in {2}, where there is one;
      - `rankMoreThan(2, 1)`, through `rankAll(2, 0, 1)`, answers one value
        above 2 in {2}, where there is none. */
  lemma PrefixShortcutMisreads(w: WaveletMatrix)
    requires w.Valid() && w.src == [2, 3]
    ensures w.size == 2
    ensures w.RanksAsWritten(3, 0, 1).less == 0
    ensures Below(w.src[..1], 3) == 1
    ensures w.RanksAsWritten(2, 0, 1).more == 1
    ensures Above(w.src[..1], 2) == 0
  {
    var s := w.src;
    assert s[..1] == [2];
    var ls, nb := TwoThreeAsWritten(w, 3, 0, 1);
    TwoThreePrefixBelow(ls, nb);
    ls, nb := TwoThreeAsWritten(w, 2, 0, 1);
    TwoThreePrefixAbove(ls, nb);
    TwoThreeCounts();
  }

  /** The two levels of `quantileRange(0, 2, 1)` as written on {2, 3}:
      - on level 0, [1, 1], no zeros lie between the ends, so the bit is 1
        and the state stays;
      - on level 1, [0, 1], node 1 is read (beginning 1, next beginning 0)
        where the node of the prefix 1 is node 2, the zeros between the
        ends wrap to `NOT_FOUND`, and the bit is 0. */
  lemma TwoThreeQuantLevels(l0: seq<bool>, l1: seq<bool>)
    requires |l0| == 2 && BitSeqs.Total(l0, false) == 0
    requires |l1| == 2 && BitSeqs.Total(l1, false) == 1
    ensures QuantLevelAsWritten(l0, 0, 0, 0, true, true, QuantState(0, 2, 1)) == (true, QuantState(0, 2, 1))
    ensures QuantLevelAsWritten(l1, 1, 1, 0, true, true, QuantState(0, 2, 1)) == (false, QuantState(1, 0, 1))
  {
    TwoThreeMods();
  }

  /** `quantileRange(0, 2, 1)` on {2, 3}, level by level: both shortcuts. */
  lemma TwoThreeQuantile(ls: seq<seq<bool>>, nb: seq<seq<nat>>)
    requires TwoThreeShape(ls, nb)
    ensures Tables(ls, nb, 2, 2)
    ensures QuantileAsWritten(ls, nb, 2, 2, 0, 0, 0, true, true, QuantState(0, 2, 1)) == 2
  {
    TwoThreeBits();
    TwoThreeRuns(ls, nb);
    TwoThreeQuantLevels(ls[0], ls[1]);
    QuantUnfold(ls, nb, 2, 2, 0, 0, 0, true, true, QuantState(0, 2, 1));
    QuantUnfold(ls, nb, 2, 2, 1, 1, 1, true, true, QuantState(0, 2, 1));
  }

  /** On the matrix built from {2, 3}, `maxRange(0, 2)`, through
      `quantileRange(0, 2, 1)` as written, answers 2, where 3 is above it;
      3 is the value of rank 1 that `QuantileRange` finds. */
  lemma MaxRangeMisreads(w: WaveletMatrix)
    requires w.Valid() && w.src == [2, 3]
    ensures w.size == 2 && w.QuantileValueAsWritten(0, 2, 1) == 2
    ensures Above(w.src[0..2], 2) == 1
    ensures Below(w.src[0..2], 3) <= 1 < Below(w.src[0..2], 3) + Occ(w.src[0..2], 3)
  {
    var s := w.src;
    assert s[0..2] == [2, 3];
    var ls, nb := TwoThreeAsWritten(w, 3, 0, 2);
    TwoThreeQuantile(ls, nb);
    TwoThreeCounts();
  }

  /** On the matrix built from {2, 3}, `rankAll` as written runs the loop
      of `RangeAsWritten` over its two levels. */
  lemma TwoThreeAsWritten(w: WaveletMatrix, c: nat, lo: nat, hi: nat) returns (ls: seq<seq<bool>>, nb: seq<seq<nat>>)
    requires w.Valid() && w.src == [2, 3] && lo <= hi <= 2
    ensures ls == w.bv && nb == w.nodeBeginPos
    ensures TwoThreeShape(ls, nb) && w.size == 2
    ensures Tables(ls, nb, 2, 2)
    ensures w.RanksAsWritten(c, lo, hi) == RangeAsWritten(ls, nb, 2, 2, c, 0, 0, lo == 0, hi == 2, RangeState(lo, hi, 0, 0))
  {
    TwoThreeMatrix(w);
    ls, nb := w.bv, w.nodeBeginPos;
    TwoThreeTables(ls, nb);
    TwoThreeRuns(ls, nb);
  }

  /** A matrix built from {0}: one symbol and no levels. */
  lemma SingleSymbol(w: WaveletMatrix)
    requires w.Valid() && w.src == [0]
    ensures w.alphabetNum == 1 && w.alphabetBitNum == 0 && w.size == 1
  {
    assert w.src[0] == 0;
  }

  /** A matrix built from {0, 1, 0}: two symbols, and in `[1, 2)` no value
      is below 0 while one lies in `[0, 2)`. */
  lemma NarrowBand(w: WaveletMatrix)
    requires w.Valid() && w.src == [0, 1, 0]
    ensures w.alphabetNum == 2 && w.size == 3
    ensures Below(w.src[1..2], 0) == 0 && InBand(w.src[1..2], 0, 2) == 1
  {
    assert w.src[1] == 1 && w.src[1..2] == [1];
    assert [1][..0] == [];
  }
}
