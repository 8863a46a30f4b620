/**
 * The levels of a wavelet matrix over a sequence of values `src`, each value
 * written with `B` bits, level 0 holding the most significant one.
 *
 * `Order(src, B, i)` lists the positions of `src` in the order level `i`
 * stores them: level 0 keeps the input order, and level `i + 1` lists the
 * entries of level `i` whose level-`i` bit is 0, then those whose bit is 1,
 * each part in its previous order. `Level(src, B, i)` is the bit vector of
 * level `i`. Moving a position from level `i` to level `i + 1` (`Step`) is
 * `rank0`, or the number of zeros of the level plus `rank1`; `Walk` repeats
 * that along the bits of a prefix, and `nodeBeginPos_[i][x]` is the walk of
 * position 0 along the `i + 1` bits of `x`.
 */
module WaveletLevels {
  import opened BitSeqs

  function Pow2(b: nat): (p: nat)
    ensures p >= 1
  {
    if b == 0 then 1 else 2 * Pow2(b - 1)
  }

  /** `x >> k`. */
  function Shr(x: nat, k: nat): nat
  {
    if k == 0 then x else Shr(x, k - 1) / 2
  }

  /** `x >> k` is below `m` exactly when `x` is below `m * 2^k`. */
  lemma {:induction false} ShrLess(x: nat, k: nat, m: nat)
    ensures Shr(x, k) < m <==> x < Pow2(k) * m
  {
    if k > 0 {
      ShrLess(x, k - 1, 2 * m);
      assert Pow2(k - 1) * (2 * m) == Pow2(k) * m;
    }
  }

  /** The top `i` of the `B` bits of `x`: `x >> (B - i)`. */
  function Top(x: nat, B: nat, i: nat): nat
    requires i <= B
  {
    Shr(x, B - i)
  }

  /** Bit `i` of `x`, counting from the most significant of `B` bits:
      `(x >> (B - i - 1)) & 1`. */
  function Bit(x: nat, B: nat, i: nat): bool
    requires i < B
  {
    Shr(x, B - i - 1) % 2 == 1
  }

  /** One more top bit is the previous prefix shifted left, plus the bit. */
  lemma TopStep(x: nat, B: nat, i: nat)
    requires i < B
    ensures Top(x, B, i + 1) == 2 * Top(x, B, i) + (if Bit(x, B, i) then 1 else 0)
  {
    assert Top(x, B, i) == Shr(x, B - i - 1) / 2;
  }

  /** Every value fits in `B` bits. */
  ghost predicate Fits(src: seq<nat>, B: nat)
  {
    forall k | 0 <= k < |src| :: src[k] < Pow2(B)
  }

  /** An `i`-bit prefix of a `B`-bit value has at most `i` bits. */
  lemma {:induction false} TopBelow(x: nat, B: nat, i: nat)
    requires x < Pow2(B) && i <= B
    ensures Top(x, B, i) < Pow2(i)
  {
    if i == 0 {
      ShrLess(x, B, 1);
    } else {
      TopBelow(x, B, i - 1);
      TopStep(x, B, i - 1);
    }
  }

  /** Every entry of `o` is below `n`. */
  ghost predicate Within(o: seq<nat>, n: nat)
  {
    forall t | 0 <= t < |o| :: o[t] < n
  }

  /** The mark of entry `x`; entries past the marks count as unmarked. */
  function Mark(m: seq<bool>, x: nat): bool
  {
    x < |m| && m[x]
  }

  /** The entries of `o` whose mark is `v`, in their order. */
  function Keep(o: seq<nat>, m: seq<bool>, v: bool): (r: seq<nat>)
    ensures |r| <= |o|
    decreases |o|
  {
    if o == [] then []
    else
      var last := o[|o| - 1];
      Keep(o[..|o| - 1], m, v) + (if Mark(m, last) == v then [last] else [])
  }

  /** Keeping entries keeps them below any bound they were below. */
  lemma {:induction false} KeepWithin(o: seq<nat>, m: seq<bool>, v: bool, n: nat)
    requires Within(o, n)
    ensures Within(Keep(o, m, v), n)
    decreases |o|
  {
    if o != [] {
      KeepWithin(o[..|o| - 1], m, v, n);
    }
  }

  lemma {:induction false} KeepAppend(a: seq<nat>, b: seq<nat>, m: seq<bool>, v: bool)
    ensures Keep(a + b, m, v) == Keep(a, m, v) + Keep(b, m, v)
    decreases |b|
  {
    if b == [] {
      assert a + b == a;
    } else {
      assert (a + b)[..|a + b| - 1] == a + b[..|b| - 1];
      KeepAppend(a, b[..|b| - 1], m, v);
    }
  }

  /** The two parts of a partition add up to the whole. */
  lemma {:induction false} KeepSplit(o: seq<nat>, m: seq<bool>)
    ensures |Keep(o, m, false)| + |Keep(o, m, true)| == |o|
    decreases |o|
  {
    if o != [] {
      KeepSplit(o[..|o| - 1], m);
    }
  }

  /** The marks of the entries of `o`, in its order. */
  function Along(o: seq<nat>, m: seq<bool>): (r: seq<bool>)
    ensures |r| == |o|
  {
    seq(|o|, t requires 0 <= t < |o| => Mark(m, o[t]))
  }

  /** Ranking the marks counts the kept entries before `j`. */
  lemma {:induction false} AlongRank(o: seq<nat>, m: seq<bool>, v: bool, j: nat)
    requires j <= |o|
    ensures Rank(Along(o, m), v, j) == |Keep(o[..j], m, v)|
  {
    if j > 0 {
      AlongRank(o, m, v, j - 1);
      assert o[..j][..j - 1] == o[..j - 1];
    }
  }

  /** An entry stands in its part right after the entries of that part
      that precede it. */
  lemma KeepAt(o: seq<nat>, m: seq<bool>, j: nat)
    requires j < |o|
    ensures |Keep(o[..j], m, Mark(m, o[j]))| < |Keep(o, m, Mark(m, o[j]))|
    ensures Keep(o, m, Mark(m, o[j]))[|Keep(o[..j], m, Mark(m, o[j]))|] == o[j]
  {
    var v := Mark(m, o[j]);
    assert o == o[..j + 1] + o[j + 1..];
    KeepAppend(o[..j + 1], o[j + 1..], m, v);
    assert o[..j + 1][..j] == o[..j];
  }

  /** The kept entries of a slice sit together in the part. */
  lemma KeepSlice(o: seq<nat>, m: seq<bool>, v: bool, b: nat, e: nat)
    requires b <= e <= |o|
    ensures |Keep(o[..b], m, v)| <= |Keep(o[..e], m, v)| <= |Keep(o, m, v)|
    ensures Keep(o, m, v)[|Keep(o[..b], m, v)|..|Keep(o[..e], m, v)|] == Keep(o[b..e], m, v)
  {
    assert o[..e] == o[..b] + o[b..e];
    KeepAppend(o[..b], o[b..e], m, v);
    assert o == o[..e] + o[e..];
    KeepAppend(o[..e], o[e..], m, v);
  }

  /** The positions `0, 1, ..., n - 1`. */
  function Iota(n: nat): (r: seq<nat>)
    ensures |r| == n && forall t | 0 <= t < n :: r[t] == t
  {
    if n == 0 then [] else Iota(n - 1) + [n - 1]
  }

  /** The level-`i` bit of each value. */
  function Marks(src: seq<nat>, B: nat, i: nat): (m: seq<bool>)
    requires i < B
    ensures |m| == |src|
  {
    seq(|src|, k requires 0 <= k < |src| => Bit(src[k], B, i))
  }

  /** The positions of `src` in the order level `i` stores them. */
  function Order(src: seq<nat>, B: nat, i: nat): (o: seq<nat>)
    requires i <= B
    ensures |o| == |src|
    decreases i
  {
    if i == 0 then Iota(|src|)
    else
      var o := Order(src, B, i - 1);
      var m := Marks(src, B, i - 1);
      KeepSplit(o, m);
      Keep(o, m, false) + Keep(o, m, true)
  }

  /** Every level stores positions of `src`. */
  lemma {:induction false} OrderWithin(src: seq<nat>, B: nat, i: nat)
    requires i <= B
    ensures Within(Order(src, B, i), |src|)
  {
    if i > 0 {
      OrderWithin(src, B, i - 1);
      var o, m := Order(src, B, i - 1), Marks(src, B, i - 1);
      KeepWithin(o, m, false, |src|);
      KeepWithin(o, m, true, |src|);
    }
  }

  /** The bit vector `bv_[i]`. */
  function Level(src: seq<nat>, B: nat, i: nat): (l: seq<bool>)
    requires i < B
    ensures |l| == |src|
  {
    Along(Order(src, B, i), Marks(src, B, i))
  }

  /** Entry `t` of level `i` is the level-`i` bit of the value stored there. */
  lemma LevelAt(src: seq<nat>, B: nat, i: nat, t: nat)
    requires i < B && t < |src|
    ensures Order(src, B, i)[t] < |src|
    ensures Level(src, B, i)[t] == Bit(src[Order(src, B, i)[t]], B, i)
  {
    OrderWithin(src, B, i);
  }

  /** All `B` bit vectors. */
  function Levels(src: seq<nat>, B: nat): (ls: seq<seq<bool>>)
    ensures |ls| == B && Uniform(ls, |src|)
  {
    LevelsBelow(src, B, B)
  }

  /** The first `k` of the bit vectors. */
  function LevelsBelow(src: seq<nat>, B: nat, k: nat): (ls: seq<seq<bool>>)
    requires k <= B
    ensures |ls| == k && Uniform(ls, |src|)
  {
    if k == 0 then [] else LevelsBelow(src, B, k - 1) + [Level(src, B, k - 1)]
  }

  /** Entry `i` of `Levels` is `Level(src, B, i)`. */
  lemma LevelsAt(src: seq<nat>, B: nat, i: nat)
    requires i < B
    ensures Levels(src, B)[i] == Level(src, B, i)
  {
    BelowAt(src, B, B, i);
  }

  lemma {:induction false} BelowAt(src: seq<nat>, B: nat, k: nat, i: nat)
    requires i < k <= B
    ensures LevelsBelow(src, B, k)[i] == Level(src, B, i)
  {
    if i < k - 1 {
      BelowAt(src, B, k - 1, i);
    }
  }

  /** Each of the levels `ls` holds `n` bits. */
  ghost predicate Uniform(ls: seq<seq<bool>>, n: nat)
  {
    forall j | 0 <= j < |ls| :: |ls[j]| == n
  }

  /** Where position `x` of a level with bits `l` goes on the next level
      along bit `v`: `rank0(x)`, or the number of zeros plus `rank1(x)`. */
  function Step(l: seq<bool>, v: bool, x: nat): (r: nat)
    requires x <= |l|
    ensures r <= |l|
  {
    RankMonotone(l, v, x, |l|);
    RankSplit(l, |l|);
    (if v then Total(l, false) else 0) + Rank(l, v, x)
  }

  /** Where position `x` of level 0 goes on level `i` along the `i` bits of
      the prefix `p`, most significant first. */
  function Walk(ls: seq<seq<bool>>, n: nat, i: nat, p: nat, x: nat): (r: nat)
    requires i <= |ls| && Uniform(ls, n) && x <= n
    ensures r <= n
    decreases i
  {
    if i == 0 then x else Step(ls[i - 1], p % 2 == 1, Walk(ls, n, i - 1, p / 2, x))
  }

  /** `nodeBeginPos_`: for each level `i`, where the node of every
      `(i + 1)`-bit prefix begins on level `i + 1`. */
  function NodeBegins(ls: seq<seq<bool>>, n: nat): (nb: seq<seq<nat>>)
    requires Uniform(ls, n)
    ensures |nb| == |ls|
    ensures forall i | 0 <= i < |ls| :: |nb[i]| == Pow2(i + 1)
    ensures forall i, x | 0 <= i < |ls| && 0 <= x < Pow2(i + 1) :: nb[i][x] == Walk(ls, n, i + 1, x, 0)
  {
    seq(|ls|, i requires 0 <= i < |ls| =>
      seq(Pow2(i + 1), x requires 0 <= x < Pow2(i + 1) => Walk(ls, n, i + 1, x, 0)))
  }

  /** Level `i + 1` is level `i` split by the level-`i` bit. */
  lemma OrderNext(src: seq<nat>, B: nat, i: nat)
    requires i < B
    ensures Order(src, B, i + 1) ==
              Keep(Order(src, B, i), Marks(src, B, i), false) + Keep(Order(src, B, i), Marks(src, B, i), true)
  {
  }

  /** Where entry `j` of `o` stands once `o` is split by its marks: among
      the entries with its own mark, after those that precede it. */
  lemma PartAt(o: seq<nat>, m: seq<bool>, j: nat)
    requires j < |o|
    ensures var l, v := Along(o, m), Mark(m, o[j]);
            var at := (if v then Rank(l, false, |o|) else 0) + Rank(l, v, j);
            var parts := Keep(o, m, false) + Keep(o, m, true);
            at < |parts| && parts[at] == o[j]
  {
    var v := Mark(m, o[j]);
    AlongRank(o, m, v, j);
    AlongRank(o, m, false, |o|);
    assert o[..|o|] == o;
    KeepAt(o, m, j);
    KeepSplit(o, m);
  }

  /** Split by its marks, the entries of `o[b..e]` with mark `v` stand
      together. */
  lemma PartRange(o: seq<nat>, m: seq<bool>, v: bool, b: nat, e: nat)
    requires b <= e <= |o|
    ensures var l, parts := Along(o, m), Keep(o, m, false) + Keep(o, m, true);
            var off := if v then Rank(l, false, |o|) else 0;
            off + Rank(l, v, b) <= off + Rank(l, v, e) <= |parts| &&
            parts[off + Rank(l, v, b)..off + Rank(l, v, e)] == Keep(o[b..e], m, v)
  {
    AlongRank(o, m, v, b);
    AlongRank(o, m, v, e);
    AlongRank(o, m, false, |o|);
    assert o[..|o|] == o;
    KeepSlice(o, m, v, b, e);
    KeepSplit(o, m);
    var k0, k1 := Keep(o, m, false), Keep(o, m, true);
    var x, y := |Keep(o[..b], m, v)|, |Keep(o[..e], m, v)|;
    var part := Keep(o[b..e], m, v);
    if v {
      assert k1[x..y] == part;
      SliceRight(k0, k1, x, y);
      assert (k0 + k1)[|k0| + x..|k0| + y] == part;
    } else {
      assert k0[x..y] == part;
      SliceLeft(k0, k1, x, y);
      assert (k0 + k1)[x..y] == part;
    }
  }

  /** `PartAt` in terms of `Step` over the marks of `o`. */
  lemma PartStepAt(o: seq<nat>, m: seq<bool>, j: nat)
    requires j < |o|
    ensures var l, parts := Along(o, m), Keep(o, m, false) + Keep(o, m, true);
            Step(l, l[j], j) < |parts| && parts[Step(l, l[j], j)] == o[j]
  {
    PartAt(o, m, j);
  }

  /** Following its own bit, a position lands where the same entry is stored
      on the next level. */
  lemma StepAt(src: seq<nat>, B: nat, i: nat, j: nat)
    requires i < B && j < |src|
    ensures var l := Level(src, B, i);
            Step(l, l[j], j) < |src| && Order(src, B, i + 1)[Step(l, l[j], j)] == Order(src, B, i)[j]
  {
    var o, m := Order(src, B, i), Marks(src, B, i);
    OrderNext(src, B, i);
    assert Level(src, B, i) == Along(o, m);
    PartStepAt(o, m, j);
  }

  /** `PartRange` in terms of `Step` over the marks of `o`. */
  lemma PartStep(o: seq<nat>, m: seq<bool>, v: bool, b: nat, e: nat)
    requires b <= e <= |o|
    ensures var l, parts := Along(o, m), Keep(o, m, false) + Keep(o, m, true);
            Step(l, v, b) <= Step(l, v, e) <= |parts| &&
            parts[Step(l, v, b)..Step(l, v, e)] == Keep(o[b..e], m, v)
  {
    PartRange(o, m, v, b, e);
  }

  /** Along bit `v`, a slice of level `i` maps onto the entries of that
      slice whose bit is `v`, in order. */
  lemma StepRange(src: seq<nat>, B: nat, i: nat, k: nat, v: bool, b: nat, e: nat)
    requires i < B && k == i + 1 && b <= e <= |src|
    ensures Step(Level(src, B, i), v, b) <= Step(Level(src, B, i), v, e)
    ensures Order(src, B, k)[Step(Level(src, B, i), v, b)..Step(Level(src, B, i), v, e)] ==
              Keep(Order(src, B, i)[b..e], Marks(src, B, i), v)
  {
    var o, m := Order(src, B, i), Marks(src, B, i);
    assert Order(src, B, k) == Keep(o, m, false) + Keep(o, m, true);
    assert Level(src, B, i) == Along(o, m);
    PartStep(o, m, v, b, e);
  }

  lemma SliceLeft(a: seq<nat>, b: seq<nat>, x: nat, y: nat)
    requires x <= y <= |a|
    ensures (a + b)[x..y] == a[x..y]
  {
  }

  lemma SliceRight(a: seq<nat>, b: seq<nat>, x: nat, y: nat)
    requires x <= y <= |b|
    ensures (a + b)[|a| + x..|a| + y] == b[x..y]
  {
  }

  /** Walking position 0 along zeros stays at 0. */
  lemma {:induction false} WalkZero(ls: seq<seq<bool>>, n: nat, i: nat)
    requires i <= |ls| && Uniform(ls, n)
    ensures Walk(ls, n, i, 0, 0) == 0
  {
    if i > 0 {
      WalkZero(ls, n, i - 1);
    }
  }

  /** `nodeBeginPos_[i][1]` is the number of zeros of level `i`. */
  lemma NodeOne(ls: seq<seq<bool>>, n: nat, i: nat)
    requires i < |ls| && Uniform(ls, n)
    ensures Walk(ls, n, i + 1, 1, 0) == Total(ls[i], false)
  {
    WalkZero(ls, n, i);
  }

  /** The positions in `[lo, hi)` whose top `i` bits are `p`, in order. */
  ghost function Among(src: seq<nat>, B: nat, i: nat, p: nat, lo: nat, hi: nat): (r: seq<nat>)
    requires i <= B && lo <= hi <= |src|
    ensures Within(r, |src|)
    decreases hi - lo
  {
    if hi == lo then []
    else Among(src, B, i, p, lo, hi - 1) + (if Top(src[hi - 1], B, i) == p then [hi - 1] else [])
  }

  /** Splitting the positions of prefix `p` by the next bit gives the
      positions of the two longer prefixes. */
  lemma {:induction false} AmongKeep(src: seq<nat>, B: nat, i: nat, k: nat, p: nat, r: nat, v: bool, lo: nat, hi: nat)
    requires i < B && k == i + 1 && r == 2 * p + (if v then 1 else 0) && lo <= hi <= |src|
    ensures Keep(Among(src, B, i, p, lo, hi), Marks(src, B, i), v) == Among(src, B, k, r, lo, hi)
    decreases hi - lo
  {
    if hi > lo {
      var t := hi - 1;
      AmongKeep(src, B, i, k, p, r, v, lo, t);
      var last: seq<nat> := if Top(src[t], B, i) == p then [t] else [];
      KeepAppend(Among(src, B, i, p, lo, t), last, Marks(src, B, i), v);
      TopStep(src[t], B, i);
      if last != [] {
        assert last[..0] == [];
      }
    }
  }

  /** The two longer prefixes share the positions of `p` between them. */
  lemma AmongSplit(src: seq<nat>, B: nat, i: nat, p: nat, lo: nat, hi: nat)
    requires i < B && lo <= hi <= |src|
    ensures |Among(src, B, i + 1, 2 * p, lo, hi)| + |Among(src, B, i + 1, 2 * p + 1, lo, hi)| ==
              |Among(src, B, i, p, lo, hi)|
  {
    AmongKeep(src, B, i, i + 1, p, 2 * p, false, lo, hi);
    AmongKeep(src, B, i, i + 1, p, 2 * p + 1, true, lo, hi);
    KeepSplit(Among(src, B, i, p, lo, hi), Marks(src, B, i));
  }

  /** Level 0 is the input order, and every value has the empty prefix. */
  lemma {:induction false} OrderStart(src: seq<nat>, B: nat, lo: nat, hi: nat)
    requires Fits(src, B) && lo <= hi <= |src|
    ensures Order(src, B, 0)[lo..hi] == Among(src, B, 0, 0, lo, hi)
    decreases hi - lo
  {
    if hi > lo {
      OrderStart(src, B, lo, hi - 1);
      ShrLess(src[hi - 1], B, 1);
      var o := Order(src, B, 0);
      assert o[lo..hi] == o[lo..hi - 1] + [o[hi - 1]];
    }
  }

  /** Walking the ends of a range along the bits of `p` brackets, on level
      `i`, exactly the positions of the range whose top bits are `p`. */
  lemma {:induction false} WalkRange(src: seq<nat>, B: nat, i: nat, p: nat, lo: nat, hi: nat)
    requires Fits(src, B) && i <= B && p < Pow2(i) && lo <= hi <= |src|
    ensures var ls := Levels(src, B);
            Walk(ls, |src|, i, p, lo) <= Walk(ls, |src|, i, p, hi) &&
            Order(src, B, i)[Walk(ls, |src|, i, p, lo)..Walk(ls, |src|, i, p, hi)] == Among(src, B, i, p, lo, hi)
  {
    if i == 0 {
      OrderStart(src, B, lo, hi);
    } else {
      WalkRange(src, B, i - 1, p / 2, lo, hi);
      RangeStep(src, B, i - 1, i, p / 2, p, p % 2 == 1, lo, hi);
    }
  }

  /** One level of `WalkRange`: from the prefix `q` to `r = 2q + v`. */
  lemma RangeStep(src: seq<nat>, B: nat, j: nat, k: nat, q: nat, r: nat, v: bool, lo: nat, hi: nat)
    requires j < B && k == j + 1 && r == 2 * q + (if v then 1 else 0) && lo <= hi <= |src|
    requires var ls := Levels(src, B);
             Walk(ls, |src|, j, q, lo) <= Walk(ls, |src|, j, q, hi) &&
             Order(src, B, j)[Walk(ls, |src|, j, q, lo)..Walk(ls, |src|, j, q, hi)] == Among(src, B, j, q, lo, hi)
    ensures var ls := Levels(src, B);
            Walk(ls, |src|, k, r, lo) <= Walk(ls, |src|, k, r, hi) &&
            Order(src, B, k)[Walk(ls, |src|, k, r, lo)..Walk(ls, |src|, k, r, hi)] == Among(src, B, k, r, lo, hi)
  {
    var ls, n := Levels(src, B), |src|;
    var b, e := Walk(ls, n, j, q, lo), Walk(ls, n, j, q, hi);
    WalkNext(ls, n, j, k, q, r, v, lo);
    WalkNext(ls, n, j, k, q, r, v, hi);
    LevelsAt(src, B, j);
    StepRange(src, B, j, k, v, b, e);
    AmongKeep(src, B, j, k, q, r, v, lo, hi);
  }

  /** One more level of a walk is one more `Step`. */
  lemma WalkNext(ls: seq<seq<bool>>, n: nat, j: nat, k: nat, q: nat, r: nat, v: bool, x: nat)
    requires j < |ls| && k == j + 1 && Uniform(ls, n) && x <= n && r == 2 * q + (if v then 1 else 0)
    ensures Walk(ls, n, k, r, x) == Step(ls[j], v, Walk(ls, n, j, q, x))
  {
    assert r / 2 == q && (r % 2 == 1 <==> v);
  }

  /** Following the bits of `c` from the top is a walk along its top bits. */
  lemma PathStep(ls: seq<seq<bool>>, n: nat, B: nat, c: nat, i: nat, x: nat)
    requires i < B && i < |ls| && Uniform(ls, n) && x <= n
    ensures Walk(ls, n, i + 1, Top(c, B, i + 1), x) == Step(ls[i], Bit(c, B, i), Walk(ls, n, i, Top(c, B, i), x))
  {
    TopStep(c, B, i);
  }

  /** How many entries of `s` equal `c`. */
  ghost function Occ(s: seq<nat>, c: nat): (r: nat)
    ensures r <= |s|
  {
    if s == [] then 0 else Occ(s[..|s| - 1], c) + (if s[|s| - 1] == c then 1 else 0)
  }

  /** How many entries of `s` are below `c`. */
  ghost function Below(s: seq<nat>, c: nat): (r: nat)
    ensures r <= |s|
  {
    if s == [] then 0 else Below(s[..|s| - 1], c) + (if s[|s| - 1] < c then 1 else 0)
  }

  /** How many entries of `s` are above `c`. */
  ghost function Above(s: seq<nat>, c: nat): (r: nat)
    ensures r <= |s|
  {
    if s == [] then 0 else Above(s[..|s| - 1], c) + (if s[|s| - 1] > c then 1 else 0)
  }

  /** How many entries of `s` lie in `[a, b)`. */
  ghost function InBand(s: seq<nat>, a: nat, b: nat): (r: nat)
    ensures r <= |s|
  {
    if s == [] then 0 else InBand(s[..|s| - 1], a, b) + (if a <= s[|s| - 1] < b then 1 else 0)
  }

  /** Widening the band by `b` adds the entries equal to `b`. */
  lemma {:induction false} InBandNext(s: seq<nat>, a: nat, b: nat)
    requires a <= b
    ensures InBand(s, a, b + 1) == InBand(s, a, b) + Occ(s, b)
  {
    if s != [] {
      InBandNext(s[..|s| - 1], a, b);
    }
  }

  /** An empty band holds nothing. */
  lemma {:induction false} InBandEmpty(s: seq<nat>, a: nat, b: nat)
    requires b <= a
    ensures InBand(s, a, b) == 0
  {
    if s != [] {
      InBandEmpty(s[..|s| - 1], a, b);
    }
  }

  /** The band `[a, b)` is what lies below `b` but not below `a`. */
  lemma {:induction false} InBandBelow(s: seq<nat>, a: nat, b: nat)
    requires a <= b
    ensures Below(s, a) <= Below(s, b) && InBand(s, a, b) == Below(s, b) - Below(s, a)
  {
    if s != [] {
      InBandBelow(s[..|s| - 1], a, b);
    }
  }

  /** When every entry is below `c`, all of them count. */
  lemma {:induction false} BelowAll(s: seq<nat>, c: nat)
    requires forall j | 0 <= j < |s| :: s[j] < c
    ensures Below(s, c) == |s| && Occ(s, c) == 0
  {
    if s != [] {
      BelowAll(s[..|s| - 1], c);
    }
  }

  /** A value that occurs is one of the entries. */
  lemma {:induction false} OccursAt(s: seq<nat>, c: nat) returns (j: nat)
    requires Occ(s, c) > 0
    ensures j < |s| && s[j] == c
  {
    if s[|s| - 1] == c {
      j := |s| - 1;
    } else {
      j := OccursAt(s[..|s| - 1], c);
    }
  }

  /** Every entry is below, equal to or above `c`. */
  lemma {:induction false} Trichotomy(s: seq<nat>, c: nat)
    ensures Below(s, c) + Occ(s, c) + Above(s, c) == |s|
  {
    if s != [] {
      Trichotomy(s[..|s| - 1], c);
    }
  }

  /** With all `B` bits as the prefix, the positions are the occurrences. */
  lemma {:induction false} AmongOcc(src: seq<nat>, B: nat, c: nat, lo: nat, hi: nat)
    requires lo <= hi <= |src|
    ensures |Among(src, B, B, c, lo, hi)| == Occ(src[lo..hi], c)
    decreases hi - lo
  {
    if hi > lo {
      AmongOcc(src, B, c, lo, hi - 1);
      assert src[lo..hi][..hi - 1 - lo] == src[lo..hi - 1];
    }
  }

  /** How many positions in `[lo, hi)` have top `i` bits below `q`. */
  ghost function CountBelow(src: seq<nat>, B: nat, i: nat, q: nat, lo: nat, hi: nat): nat
    requires i <= B && lo <= hi <= |src|
    decreases hi - lo
  {
    if hi == lo then 0
    else CountBelow(src, B, i, q, lo, hi - 1) + (if Top(src[hi - 1], B, i) < q then 1 else 0)
  }

  /** How many positions in `[lo, hi)` have top `i` bits above `q`. */
  ghost function CountAbove(src: seq<nat>, B: nat, i: nat, q: nat, lo: nat, hi: nat): nat
    requires i <= B && lo <= hi <= |src|
    decreases hi - lo
  {
    if hi == lo then 0
    else CountAbove(src, B, i, q, lo, hi - 1) + (if Top(src[hi - 1], B, i) > q then 1 else 0)
  }

  /** Going one bit down: below `2p + v` is below `p`, or `p` then a 0 bit
      when `v` is 1; above is above `p`, or `p` then a 1 bit when `v` is 0. */
  lemma {:induction false} CountStep(src: seq<nat>, B: nat, i: nat, p: nat, v: bool, lo: nat, hi: nat)
    requires i < B && lo <= hi <= |src|
    ensures CountBelow(src, B, i + 1, 2 * p + (if v then 1 else 0), lo, hi) ==
              CountBelow(src, B, i, p, lo, hi) + (if v then |Among(src, B, i + 1, 2 * p, lo, hi)| else 0)
    ensures CountAbove(src, B, i + 1, 2 * p + (if v then 1 else 0), lo, hi) ==
              CountAbove(src, B, i, p, lo, hi) + (if v then 0 else |Among(src, B, i + 1, 2 * p + 1, lo, hi)|)
    decreases hi - lo
  {
    if hi > lo {
      CountStep(src, B, i, p, v, lo, hi - 1);
      TopStep(src[hi - 1], B, i);
    }
  }

  /** With the empty prefix nothing is below or above. */
  lemma {:induction false} CountStart(src: seq<nat>, B: nat, lo: nat, hi: nat)
    requires Fits(src, B) && lo <= hi <= |src|
    ensures CountBelow(src, B, 0, 0, lo, hi) == 0 && CountAbove(src, B, 0, 0, lo, hi) == 0
    decreases hi - lo
  {
    if hi > lo {
      CountStart(src, B, lo, hi - 1);
      ShrLess(src[hi - 1], B, 1);
    }
  }

  /** With all `B` bits as the prefix, the counts are those of the values. */
  lemma {:induction false} CountEnd(src: seq<nat>, B: nat, c: nat, lo: nat, hi: nat)
    requires lo <= hi <= |src|
    ensures CountBelow(src, B, B, c, lo, hi) == Below(src[lo..hi], c)
    ensures CountAbove(src, B, B, c, lo, hi) == Above(src[lo..hi], c)
    decreases hi - lo
  {
    if hi > lo {
      CountEnd(src, B, c, lo, hi - 1);
      assert src[lo..hi][..hi - 1 - lo] == src[lo..hi - 1];
    }
  }

  /** The walks of both ends of `[lo, hi)` along the prefix `p` bracket the
      range's entries with that prefix. */
  lemma Span(src: seq<nat>, B: nat, i: nat, p: nat, lo: nat, hi: nat)
    requires Fits(src, B) && i <= B && p < Pow2(i) && lo <= hi <= |src|
    ensures var ls := Levels(src, B);
            Walk(ls, |src|, i, p, lo) <= Walk(ls, |src|, i, p, hi) &&
            Walk(ls, |src|, i, p, hi) - Walk(ls, |src|, i, p, lo) == |Among(src, B, i, p, lo, hi)|
  {
    WalkRange(src, B, i, p, lo, hi);
  }

  /** Going down one level along bit `v`, a position `x` of level `i`
      becomes `rank0(x)`, or `x` plus the zeros of the level minus
      `rank0(x)`. */
  lemma Descend(ls: seq<seq<bool>>, n: nat, i: nat, p: nat, v: bool, x: nat)
    requires i < |ls| && Uniform(ls, n) && x <= n
    ensures var l, y := ls[i], Walk(ls, n, i, p, x);
            Rank(l, false, y) <= Total(l, false) &&
            Walk(ls, n, i + 1, 2 * p + (if v then 1 else 0), x) ==
              (if v then y + Total(l, false) - Rank(l, false, y) else Rank(l, false, y))
  {
    var l, y := ls[i], Walk(ls, n, i, p, x);
    WalkNext(ls, n, i, i + 1, p, 2 * p + (if v then 1 else 0), v, x);
    RankSplit(l, y);
    RankMonotone(l, false, y, |l|);
  }

  /** Going down one level along bit `v` from prefix `p`: the range keeps
      the entries with prefix `2p + v`, and those with the other next bit
      are counted as below (when `v` is 1) or above (when `v` is 0). */
  lemma DescendCount(src: seq<nat>, B: nat, i: nat, p: nat, v: bool, lo: nat, hi: nat)
    requires Fits(src, B) && i < B && p < Pow2(i) && lo <= hi <= |src|
    ensures var r, other := 2 * p + (if v then 1 else 0), 2 * p + (if v then 0 else 1);
            |Among(src, B, i + 1, r, lo, hi)| + |Among(src, B, i + 1, other, lo, hi)| ==
              |Among(src, B, i, p, lo, hi)| &&
            CountBelow(src, B, i + 1, r, lo, hi) ==
              CountBelow(src, B, i, p, lo, hi) + (if v then |Among(src, B, i + 1, other, lo, hi)| else 0) &&
            CountAbove(src, B, i + 1, r, lo, hi) ==
              CountAbove(src, B, i, p, lo, hi) + (if v then 0 else |Among(src, B, i + 1, other, lo, hi)|)
  {
    AmongSplit(src, B, i, p, lo, hi);
    CountStep(src, B, i, p, v, lo, hi);
  }

  /** After all `B` levels along the bits of `c`, the walks of `lo` and
      `hi` differ by the occurrences of `c` in `[lo, hi)`. */
  lemma RankSpan(src: seq<nat>, B: nat, c: nat, lo: nat, hi: nat)
    requires Fits(src, B) && c < Pow2(B) && lo <= hi <= |src|
    ensures var ls := Levels(src, B);
            Walk(ls, |src|, B, c, lo) <= Walk(ls, |src|, B, c, hi) &&
            Walk(ls, |src|, B, c, hi) - Walk(ls, |src|, B, c, lo) == Occ(src[lo..hi], c)
  {
    Span(src, B, B, c, lo, hi);
    AmongOcc(src, B, c, lo, hi);
  }
}
