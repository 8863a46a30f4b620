/**
 * Work inside one 64-bit word of the bit vector, on the portable code
 * path: `SELECT_TABLE`, `select64` (the position of the `i`-th one bit)
 * and `rank64` (the number of ones or zeros below a position).
 *
 * `select64` computes the byte-prefix counts with its own folding steps
 * (proved to agree with `PopCount`'s), subtracts `i + 1` from every byte at
 * once, finds the
 * first byte whose prefix count exceeds `i` with a count of trailing
 * zeros, and finishes inside that byte with `SELECT_TABLE`.
 */
module SelectWords {
  import opened Words
  import opened PopCounts

  const MASK_01: bv64 := 0x0101_0101_0101_0101
  const MASK_80: bv64 := 0x8080_8080_8080_8080

  // ------------------------------------------------------ SELECT_TABLE

  /** The eight bits of byte `b`, lowest first. */
  function BitsOfByte(b: bv8): (bits: seq<bool>)
    ensures |bits| == 8
  {
    var w := b as bv64;
    [Bit(w, 0), Bit(w, 1), Bit(w, 2), Bit(w, 3), Bit(w, 4), Bit(w, 5), Bit(w, 6), Bit(w, 7)]
  }

  /** The number of set entries among the first `n` of `bits`. */
  function CountSet(bits: seq<bool>, n: nat): nat
    requires n <= |bits|
  {
    if n == 0 then 0 else CountSet(bits, n - 1) + (if bits[n - 1] then 1 else 0)
  }

  lemma {:induction false} CountSetMonotone(bits: seq<bool>, m: nat, n: nat)
    requires m <= n <= |bits|
    ensures CountSet(bits, m) <= CountSet(bits, n)
    decreases n - m
  {
    if m < n {
      CountSetMonotone(bits, m, n - 1);
    }
  }

  lemma BitsOfByteAt(b: bv8, t: nat)
    requires t < 8
    ensures BitsOfByte(b)[t] == Bit(b as bv64, t)
  {
    var bits := BitsOfByte(b);
    if t < 4 {
      assert t == 0 || t == 1 || t == 2 || t == 3;
    } else {
      assert t == 4 || t == 5 || t == 6 || t == 7;
    }
  }

  /** Counting the listed bits is counting the ones of the byte. */
  lemma {:induction false} BitsOfByteCount(b: bv8, t: nat)
    requires t <= 8
    ensures CountSet(BitsOfByte(b), t) == Ones(b as bv64, t)
  {
    if t > 0 {
      BitsOfByteCount(b, t - 1);
      BitsOfByteAt(b, t - 1);
    }
  }

  /** Scanning `bits` upwards from position `t`: the position of the
      `k`-th further set bit, or 7 when there are not that many. */
  function SelectFrom(bits: seq<bool>, k: nat, t: nat): (r: nat)
    requires |bits| == 8 && t <= 8
    ensures r < 8
    decreases 8 - t
  {
    if t == 8 then 7
    else if bits[t] then (if k == 0 then t else SelectFrom(bits, k - 1, t + 1))
    else SelectFrom(bits, k, t + 1)
  }

  /** When more than `k` bits are set from position `t` on, the scan stops
      on the `k`-th of them. */
  lemma {:induction false} SelectFromFound(bits: seq<bool>, k: nat, t: nat)
    requires |bits| == 8 && t <= 8 && k < CountSet(bits, 8) - CountSet(bits, t)
    ensures t <= SelectFrom(bits, k, t) && bits[SelectFrom(bits, k, t)]
    ensures CountSet(bits, SelectFrom(bits, k, t)) == CountSet(bits, t) + k
    decreases 8 - t
  {
    if t == 8 {
      assert false;
    }
    CountSetMonotone(bits, t + 1, 8);
    if bits[t] {
      if k > 0 {
        SelectFromFound(bits, k - 1, t + 1);
      }
    } else {
      SelectFromFound(bits, k, t + 1);
    }
  }

  /** Otherwise it runs off the end and yields 7. */
  lemma {:induction false} SelectFromMissing(bits: seq<bool>, k: nat, t: nat)
    requires |bits| == 8 && t <= 8 && k >= CountSet(bits, 8) - CountSet(bits, t)
    ensures SelectFrom(bits, k, t) == 7
    decreases 8 - t
  {
    if t < 8 {
      CountSetMonotone(bits, t + 1, 8);
      if bits[t] {
        SelectFromMissing(bits, k - 1, t + 1);
      } else {
        SelectFromMissing(bits, k, t + 1);
      }
    }
  }

  /** `SELECT_TABLE[k][b]`: the position of the `k`-th one bit (counting
      from 0) of byte `b`, or 7 when `b` has no more than `k` ones. */
  function SelectTable(k: nat, b: bv8): (t: nat)
    requires k < 8
    ensures t < 8
  {
    SelectFrom(BitsOfByte(b), k, 0)
  }

  /** The rule every entry of `SELECT_TABLE` follows. */
  lemma SelectTableSpec(k: nat, b: bv8)
    requires k < 8
    ensures k < ByteOnes(b) ==>
              Bit(b as bv64, SelectTable(k, b)) && Ones(b as bv64, SelectTable(k, b)) == k
    ensures k >= ByteOnes(b) ==> SelectTable(k, b) == 7
  {
    var bits := BitsOfByte(b);
    ByteOnesIsOnes(b);
    BitsOfByteCount(b, 8);
    BitsOfByteCount(b, 0);
    if k < ByteOnes(b) {
      SelectFromFound(bits, k, 0);
      BitsOfByteCount(b, SelectTable(k, b));
      BitsOfByteAt(b, SelectTable(k, b));
    } else {
      SelectFromMissing(bits, k, 0);
    }
  }

  /** A few entries of the literal table, computed from the rule. */
  lemma SelectTableEntries()
    ensures SelectTable(0, 0x00) == 7 && SelectTable(0, 0x01) == 0 && SelectTable(0, 0x08) == 3
    ensures SelectTable(1, 0x03) == 1 && SelectTable(1, 0x05) == 2 && SelectTable(1, 0x04) == 7
    ensures SelectTable(7, 0xFF) == 7 && SelectTable(6, 0xFF) == 6
  {
    LowBits(0x01);
    LowBits(0x03);
    LowBits(0x04);
    LowBits(0x05);
    LowBits(0x08);
    LowBits(0xFF);
  }

  // ------------------------------------------------- trailing zeros

  /** Scanning `y` upwards from bit `j` for a one bit; 64 when none. */
  function CtzFrom(y: bv64, j: nat): nat
    requires j <= 64
    decreases 64 - j
  {
    if j == 64 then 64 else if Bit(y, j) then j else CtzFrom(y, j + 1)
  }

  lemma {:induction false} CtzFromSpec(y: bv64, j: nat)
    requires j <= 64
    ensures j <= CtzFrom(y, j) <= 64
    ensures CtzFrom(y, j) < 64 ==> Bit(y, CtzFrom(y, j))
    ensures forall i | j <= i < CtzFrom(y, j) && i < 64 :: !Bit(y, i)
    decreases 64 - j
  {
    if j < 64 && !Bit(y, j) {
      CtzFromSpec(y, j + 1);
    }
  }

  /** `__builtin_ctzll(y)`: the number of zero bits below the lowest one
      bit. The builtin leaves `y == 0` undefined; here it gives 64. */
  function Ctz(y: bv64): (r: nat)
    ensures r <= 64
    ensures r < 64 ==> Bit(y, r)
    ensures forall j | 0 <= j < r && j < 64 :: !Bit(y, j)
  {
    CtzFromSpec(y, 0);
    CtzFrom(y, 0)
  }

  /** A stretch of zero bits can be skipped. */
  lemma {:induction false} CtzGap(y: bv64, j: nat, n: nat)
    requires j + n <= 64
    requires forall i | j <= i < j + n :: !Bit(y, i)
    ensures CtzFrom(y, j) == CtzFrom(y, j + n)
    decreases n
  {
    if n > 0 {
      CtzGap(y, j + 1, n - 1);
    }
  }

  // ------------------------------------------------------ the flags

  /** `(x & MASK_80) >> 7` for `x = (counts | MASK_80) - v * MASK_01`. */
  function Flags(counts: bv64, v: bv64): bv64
  {
    (((counts | MASK_80) - v * MASK_01) & MASK_80) >> 7
  }

  /** Bit `8k` of the flags tells whether byte `k` of `counts` is at
      least `v`. */
  predicate FlagIs(counts: bv64, v: bv64, k: nat)
    requires k < 8
  {
    Bit(Flags(counts, v), 8 * k) == (ByteAt(counts, k) as int >= v as int)
  }

  function Replicate(v: bv64): bv64
  {
    v | (v << 8) | (v << 16) | (v << 24) | (v << 32) | (v << 40) | (v << 48) | (v << 56)
  }

  /** Multiplying a byte-sized value by `MASK_01` copies it into every byte. */
  lemma MulReplicates(v: bv64)
    requires v < 128
    ensures v * MASK_01 == Replicate(v)
  {}

  /** No byte borrows from the next one in the subtraction. */
  lemma Truncate(z: bv64, v: bv64)
    requires z < 256
    ensures ((z as bv8) as int >= v as int) == (z >= v)
  {}

  lemma FlagBit0(c: bv64, v: bv64)
    requires c & MASK_80 == 0 && v < 128
    ensures ((Flags(c, v) >> 0) & 1 == 1) == ((c >> 0) & 0xFF >= v)
  {
    MulReplicates(v);
  }

  lemma Flag0(c: bv64, v: bv64)
    requires c & MASK_80 == 0 && v < 128
    ensures FlagIs(c, v, 0)
  {
    FlagBit0(c, v);
    ByteLit0(c);
    Truncate((c >> 0) & 0xFF, v);
  }

  lemma FlagBit1(c: bv64, v: bv64)
    requires c & MASK_80 == 0 && v < 128
    ensures ((Flags(c, v) >> 8) & 1 == 1) == ((c >> 8) & 0xFF >= v)
  {
    MulReplicates(v);
  }

  lemma Flag1(c: bv64, v: bv64)
    requires c & MASK_80 == 0 && v < 128
    ensures FlagIs(c, v, 1)
  {
    FlagBit1(c, v);
    ByteLit1(c);
    IdxValue(8);
    assert Idx(8) == 8;
    Truncate((c >> 8) & 0xFF, v);
  }

  lemma FlagBit2(c: bv64, v: bv64)
    requires c & MASK_80 == 0 && v < 128
    ensures ((Flags(c, v) >> 16) & 1 == 1) == ((c >> 16) & 0xFF >= v)
  {
    MulReplicates(v);
  }

  lemma Flag2(c: bv64, v: bv64)
    requires c & MASK_80 == 0 && v < 128
    ensures FlagIs(c, v, 2)
  {
    FlagBit2(c, v);
    ByteLit2(c);
    IdxValue(16);
    assert Idx(16) == 16;
    Truncate((c >> 16) & 0xFF, v);
  }

  lemma FlagBit3(c: bv64, v: bv64)
    requires c & MASK_80 == 0 && v < 128
    ensures ((Flags(c, v) >> 24) & 1 == 1) == ((c >> 24) & 0xFF >= v)
  {
    MulReplicates(v);
  }

  lemma Flag3(c: bv64, v: bv64)
    requires c & MASK_80 == 0 && v < 128
    ensures FlagIs(c, v, 3)
  {
    FlagBit3(c, v);
    ByteLit3(c);
    IdxValue(24);
    assert Idx(24) == 24;
    Truncate((c >> 24) & 0xFF, v);
  }

  lemma FlagBit4(c: bv64, v: bv64)
    requires c & MASK_80 == 0 && v < 128
    ensures ((Flags(c, v) >> 32) & 1 == 1) == ((c >> 32) & 0xFF >= v)
  {
    MulReplicates(v);
  }

  lemma Flag4(c: bv64, v: bv64)
    requires c & MASK_80 == 0 && v < 128
    ensures FlagIs(c, v, 4)
  {
    FlagBit4(c, v);
    ByteLit4(c);
    IdxValue(32);
    assert Idx(32) == 32;
    Truncate((c >> 32) & 0xFF, v);
  }

  lemma FlagBit5(c: bv64, v: bv64)
    requires c & MASK_80 == 0 && v < 128
    ensures ((Flags(c, v) >> 40) & 1 == 1) == ((c >> 40) & 0xFF >= v)
  {
    MulReplicates(v);
  }

  lemma Flag5(c: bv64, v: bv64)
    requires c & MASK_80 == 0 && v < 128
    ensures FlagIs(c, v, 5)
  {
    FlagBit5(c, v);
    ByteLit5(c);
    IdxValue(40);
    assert Idx(40) == 40;
    Truncate((c >> 40) & 0xFF, v);
  }

  lemma FlagBit6(c: bv64, v: bv64)
    requires c & MASK_80 == 0 && v < 128
    ensures ((Flags(c, v) >> 48) & 1 == 1) == ((c >> 48) & 0xFF >= v)
  {
    MulReplicates(v);
  }

  lemma Flag6(c: bv64, v: bv64)
    requires c & MASK_80 == 0 && v < 128
    ensures FlagIs(c, v, 6)
  {
    FlagBit6(c, v);
    ByteLit6(c);
    IdxValue(48);
    assert Idx(48) == 48;
    Truncate((c >> 48) & 0xFF, v);
  }

  lemma FlagBit7(c: bv64, v: bv64)
    requires c & MASK_80 == 0 && v < 128
    ensures ((Flags(c, v) >> 56) & 1 == 1) == ((c >> 56) & 0xFF >= v)
  {
    MulReplicates(v);
  }

  lemma Flag7(c: bv64, v: bv64)
    requires c & MASK_80 == 0 && v < 128
    ensures FlagIs(c, v, 7)
  {
    FlagBit7(c, v);
    ByteLit7(c);
    IdxValue(56);
    assert Idx(56) == 56;
    Truncate((c >> 56) & 0xFF, v);
  }

  lemma Flag(c: bv64, v: bv64, k: nat)
    requires c & MASK_80 == 0 && v < 128 && k < 8
    ensures FlagIs(c, v, k)
  {
    if k == 0 { Flag0(c, v); }
    else if k == 1 { Flag1(c, v); }
    else if k == 2 { Flag2(c, v); }
    else if k == 3 { Flag3(c, v); }
    else if k == 4 { Flag4(c, v); }
    else if k == 5 { Flag5(c, v); }
    else if k == 6 { Flag6(c, v); }
    else { Flag7(c, v); }
  }

  lemma SparseAt(y: bv64, s: bv6)
    requires y & 0xFEFE_FEFE_FEFE_FEFE == 0 && s & 7 != 0
    ensures !BitAt(y, s)
  {}

  lemma Mod8(s: bv6)
    ensures (s & 7 == 0) == (s as int % 8 == 0)
  {}

  lemma FlagsSparse(c: bv64, v: bv64)
    ensures Flags(c, v) & 0xFEFE_FEFE_FEFE_FEFE == 0
  {}

  /** Only the bits at multiples of 8 can be set in the flags. */
  lemma FlagsOff(c: bv64, v: bv64, j: nat)
    requires j < 64 && j % 8 != 0
    ensures !Bit(Flags(c, v), j)
  {
    FlagsSparse(c, v);
    IdxValue(j);
    Mod8(Idx(j));
    SparseAt(Flags(c, v), Idx(j));
  }

  /** With the bit at `8m` set, and the bits at the multiples of 8 from
      `8k` up to it clear, the first one bit from `8k` is at `8m`. */
  lemma {:induction false} CtzBytes(y: bv64, k: nat, m: nat)
    requires k <= m < 8 && Bit(y, 8 * m)
    requires forall k' | k <= k' < m :: !Bit(y, 8 * k')
    requires forall j | 0 <= j < 64 && j % 8 != 0 :: !Bit(y, j)
    ensures CtzFrom(y, 8 * k) == 8 * m
    decreases m - k
  {
    if k < m {
      forall i | 8 * k <= i < 8 * k + 8
        ensures !Bit(y, i)
      {
        if i % 8 == 0 {
          assert i == 8 * k;
        }
      }
      CtzGap(y, 8 * k, 8);
      CtzBytes(y, k + 1, m);
    }
  }

  // -------------------------------------------------- select64 proof

  /** Byte `k` of the byte-prefix counts. */
  lemma CountsByte(x: bv64, k: nat)
    requires k < 8
    ensures ByteAt(FromWord(x).value, k) as int == Ones(x, 8 * k + 8)
  {
    var p := FromWord(x);
    if k == 0 { assert p.Lo8() == Ones(x, 8); }
    else if k == 1 { assert p.Lo16() == Ones(x, 16); }
    else if k == 2 { assert p.Lo24() == Ones(x, 24); }
    else if k == 3 { assert p.Lo32() == Ones(x, 32); }
    else if k == 4 { assert p.Lo40() == Ones(x, 40); }
    else if k == 5 { assert p.Lo48() == Ones(x, 48); }
    else if k == 6 { assert p.Lo56() == Ones(x, 56); }
    else { assert p.Lo64() == Ones(x, 64); }
  }

  /** Every byte of `c` is below 128. */
  predicate SmallBytes(c: bv64)
  {
    forall k | 0 <= k < 8 :: ByteAt(c, k) < 128
  }

  /** Bytes below 128 leave the top bit of every byte clear. */
  lemma HighClear(c: bv64)
    requires SmallBytes(c)
    ensures c & MASK_80 == 0
  {
    assert ByteAt(c, 0) < 128 && ByteAt(c, 1) < 128 && ByteAt(c, 2) < 128 && ByteAt(c, 3) < 128;
    assert ByteAt(c, 4) < 128 && ByteAt(c, 5) < 128 && ByteAt(c, 6) < 128 && ByteAt(c, 7) < 128;
    ByteLit0(c);
    ByteLit1(c);
    ByteLit2(c);
    ByteLit3(c);
    ByteLit4(c);
    ByteLit5(c);
    ByteLit6(c);
    ByteLit7(c);
  }

  /** The first byte `m >= k` of `x` whose prefix count exceeds `i`. */
  function ByteOfOne(x: bv64, i: nat, k: nat): nat
    requires k < 8
    decreases 8 - k
  {
    if k == 7 || Ones(x, 8 * k + 8) > i then k else ByteOfOne(x, i, k + 1)
  }

  lemma {:induction false} ByteOfOneSpec(x: bv64, i: nat, k: nat)
    requires k < 8 && i < Weight(x) && Ones(x, 8 * k) <= i
    ensures k <= ByteOfOne(x, i, k) < 8
    ensures Ones(x, 8 * ByteOfOne(x, i, k)) <= i < Ones(x, 8 * ByteOfOne(x, i, k) + 8)
    ensures forall k' | k <= k' < ByteOfOne(x, i, k) :: Ones(x, 8 * k' + 8) <= i
    decreases 8 - k
  {
    var next := 8 * k + 8;
    if k == 7 {
      assert next == 64;
    } else if Ones(x, next) <= i {
      assert next == 8 * (k + 1);
      ByteOfOneSpec(x, i, k + 1);
    }
  }

  /** The bytes of `c` are the byte-prefix counts of `x`. */
  predicate PrefixCountsOf(c: bv64, x: bv64)
  {
    forall k | 0 <= k < 8 :: ByteAt(c, k) as int == Ones(x, 8 * k + 8)
  }

  lemma CountsBytes(x: bv64)
    ensures PrefixCountsOf(FromWord(x).value, x)
  {
    forall k | 0 <= k < 8
      ensures ByteAt(FromWord(x).value, k) as int == Ones(x, 8 * k + 8)
    {
      CountsByte(x, k);
    }
  }

  /** Bit `8k` of the flags of `select64`: whether the prefix count of
      bytes `0..k` exceeds `i`. */
  lemma FlagsMeaning(c: bv64, x: bv64, i: nat, v: bv64, k: nat)
    requires PrefixCountsOf(c, x) && i < 64 && v == FromNat(i + 1) && k < 8
    ensures Bit(Flags(c, v), 8 * k) == (Ones(x, 8 * k + 8) > i)
  {
    FromNatValue(i + 1);
    PrefixSmall(c, x);
    HighClear(c);
    Flag(c, v, k);
  }

  lemma PrefixSmall(c: bv64, x: bv64)
    requires PrefixCountsOf(c, x)
    ensures SmallBytes(c)
  {
    forall k | 0 <= k < 8
      ensures ByteAt(c, k) < 128
    {
      assert ByteAt(c, k) as int == Ones(x, 8 * k + 8) <= 64;
    }
  }

  /** The trailing zeros of a word flagging the bytes whose prefix count
      exceeds `i` end at the byte that holds the `i`-th one. */
  lemma CtzOfByteFlags(y: bv64, x: bv64, i: nat)
    requires i < Weight(x)
    requires forall k | 0 <= k < 8 :: Bit(y, 8 * k) == (Ones(x, 8 * k + 8) > i)
    requires forall j | 0 <= j < 64 && j % 8 != 0 :: !Bit(y, j)
    ensures Ctz(y) == 8 * ByteOfOne(x, i, 0)
  {
    ByteOfOneSpec(x, i, 0);
    CtzBytes(y, 0, ByteOfOne(x, i, 0));
  }

  /** `leading_zero_len` is eight times the byte that holds the `i`-th one. */
  lemma CtzOfFlags(c: bv64, x: bv64, i: nat, v: bv64, y: bv64)
    requires PrefixCountsOf(c, x) && i < Weight(x)
    requires v == FromNat(i + 1) && y == Flags(c, v)
    ensures Ctz(y) == 8 * ByteOfOne(x, i, 0)
  {
    forall k | 0 <= k < 8
      ensures Bit(y, 8 * k) == (Ones(x, 8 * k + 8) > i)
    {
      FlagsMeaning(c, x, i, v, k);
    }
    forall j | 0 <= j < 64 && j % 8 != 0
      ensures !Bit(y, j)
    {
      FlagsOff(c, v, j);
    }
    CtzOfByteFlags(y, x, i);
  }

  /** Byte `m` of `w << 8` is byte `m - 1` of `w`. */
  predicate ShiftsUp(w: bv64, m: nat)
    requires m < 8
  {
    ByteAt(w << 8, m) == if m == 0 then 0 else ByteAt(w, m - 1)
  }

  /** Shifting `w` down by `s` and masking reads the byte `b`. */
  predicate ReadsByte(w: bv64, s: bv6, b: bv8)
  {
    ((w >> s) & 0xFF) as bv8 == b
  }

  lemma UpLit0(w: bv64)
    ensures ShiftsUp(w, 0)
  {
    ByteLit0(w << 8);
  }

  lemma UpLit1(w: bv64)
    ensures ShiftsUp(w, 1)
  {
    ByteLit1(w << 8);
    ByteLit0(w);
  }

  lemma UpLit2(w: bv64)
    ensures ShiftsUp(w, 2)
  {
    ByteLit2(w << 8);
    ByteLit1(w);
  }

  lemma UpLit3(w: bv64)
    ensures ShiftsUp(w, 3)
  {
    ByteLit3(w << 8);
    ByteLit2(w);
  }

  lemma UpLit4(w: bv64)
    ensures ShiftsUp(w, 4)
  {
    ByteLit4(w << 8);
    ByteLit3(w);
  }

  lemma UpLit5(w: bv64)
    ensures ShiftsUp(w, 5)
  {
    ByteLit5(w << 8);
    ByteLit4(w);
  }

  lemma UpLit6(w: bv64)
    ensures ShiftsUp(w, 6)
  {
    ByteLit6(w << 8);
    ByteLit5(w);
  }

  lemma UpLit7(w: bv64)
    ensures ShiftsUp(w, 7)
  {
    ByteLit7(w << 8);
    ByteLit6(w);
  }

  lemma Read0(w: bv64, s: bv6, b: bv8)
    requires s == 0 && b == ByteAt(w, 0)
    ensures ReadsByte(w, s, b)
  {
    ByteLit0(w);
  }

  lemma Read1(w: bv64, s: bv6, b: bv8)
    requires s == 8 && b == ByteAt(w, 1)
    ensures ReadsByte(w, s, b)
  {
    ByteLit1(w);
  }

  lemma Read2(w: bv64, s: bv6, b: bv8)
    requires s == 16 && b == ByteAt(w, 2)
    ensures ReadsByte(w, s, b)
  {
    ByteLit2(w);
  }

  lemma Read3(w: bv64, s: bv6, b: bv8)
    requires s == 24 && b == ByteAt(w, 3)
    ensures ReadsByte(w, s, b)
  {
    ByteLit3(w);
  }

  lemma Read4(w: bv64, s: bv6, b: bv8)
    requires s == 32 && b == ByteAt(w, 4)
    ensures ReadsByte(w, s, b)
  {
    ByteLit4(w);
  }

  lemma Read5(w: bv64, s: bv6, b: bv8)
    requires s == 40 && b == ByteAt(w, 5)
    ensures ReadsByte(w, s, b)
  {
    ByteLit5(w);
  }

  lemma Read6(w: bv64, s: bv6, b: bv8)
    requires s == 48 && b == ByteAt(w, 6)
    ensures ReadsByte(w, s, b)
  {
    ByteLit6(w);
  }

  lemma Read7(w: bv64, s: bv6, b: bv8)
    requires s == 56 && b == ByteAt(w, 7)
    ensures ReadsByte(w, s, b)
  {
    ByteLit7(w);
  }

  lemma ShiftUp(w: bv64, m: nat)
    requires m < 8
    ensures ShiftsUp(w, m)
  {
    if m == 0 { UpLit0(w); }
    else if m == 1 { UpLit1(w); }
    else if m == 2 { UpLit2(w); }
    else if m == 3 { UpLit3(w); }
    else if m == 4 { UpLit4(w); }
    else if m == 5 { UpLit5(w); }
    else if m == 6 { UpLit6(w); }
    else { UpLit7(w); }
  }

  /** Shifting down by `8m` and masking reads byte `m`. */
  lemma ReadByte(w: bv64, m: nat, s: bv6, b: bv8)
    requires m < 8 && s == Idx(8 * m) && b == ByteAt(w, m)
    ensures ReadsByte(w, s, b)
  {
    IdxValue(8 * m);
    if m == 0 { Read0(w, s, b); }
    else if m == 1 { Read1(w, s, b); }
    else if m == 2 { Read2(w, s, b); }
    else if m == 3 { Read3(w, s, b); }
    else if m == 4 { Read4(w, s, b); }
    else if m == 5 { Read5(w, s, b); }
    else if m == 6 { Read6(w, s, b); }
    else { Read7(w, s, b); }
  }

  /** Byte `m` of `counts << 8` is the prefix count of the bytes below `m`. */
  lemma CountsBelow(c: bv64, d: bv64, x: bv64, m: nat)
    requires PrefixCountsOf(c, x) && d == c << 8 && m < 8
    ensures ByteAt(d, m) as int == Ones(x, 8 * m)
  {
    ShiftUp(c, m);
    if m > 0 {
      assert ByteAt(c, m - 1) as int == Ones(x, 8 * (m - 1) + 8);
    }
  }

  /** A bit of byte `m` at position `t`, seen as a bit of the word. */
  lemma Located(w: bv64, m: nat, b: bv8, k: nat, t: nat)
    requires m < 8 && b == ByteAt(w, m) && t < 8
    requires Bit(b as bv64, t) && Ones(b as bv64, t) == k
    ensures Bit(w, 8 * m + t) && Ones(w, 8 * m + t) == Ones(w, 8 * m) + k
  {
    ByteBits(w, m, b as bv64);
    OnesShifted(w, b as bv64, 8 * m, t, 8);
  }

  /** The ones of byte `m`, added to the ones below it. */
  lemma OnesThroughByte(w: bv64, m: nat, b: bv8)
    requires m < 8 && b == ByteAt(w, m)
    ensures Ones(w, 8 * m + 8) == Ones(w, 8 * m) + ByteOnes(b)
  {
    OnesByte(w, m);
  }

  /** The first folding step of `select64`: each pair of bits becomes its
      count, by subtracting the upper bit of the pair from the pair. */
  function PairCounts(x: bv64): bv64
  {
    x - ((x >> 1) & 0x5555_5555_5555_5555)
  }

  /** The second step: each nibble becomes the sum of its two pair
      counts. */
  function NibbleCounts(a: bv64): bv64
  {
    (a & 0x3333_3333_3333_3333) + ((a >> 2) & 0x3333_3333_3333_3333)
  }

  /** The third step: each byte becomes the sum of its two nibbles, adding
      before masking. */
  function ByteCounts(b: bv64): bv64
  {
    (b + (b >> 4)) & 0x0F0F_0F0F_0F0F_0F0F
  }

  /** Subtracting the upper bit of each pair counts the pair as masking
      and adding does. */
  lemma PairCountsAgree(x: bv64)
    ensures PairCounts(x) == (x & 0x5555_5555_5555_5555) + ((x & 0xAAAA_AAAA_AAAA_AAAA) >> 1)
  {
  }

  /** Shifting before masking picks the same upper pairs as masking
      before shifting. */
  lemma NibbleCountsAgree(a: bv64)
    ensures NibbleCounts(a) == (a & 0x3333_3333_3333_3333) + ((a & 0xCCCC_CCCC_CCCC_CCCC) >> 2)
  {
  }

  /** Each nibble count is at most 6, so its top bit is clear. */
  lemma NibbleCountsSmall(a: bv64)
    ensures NibbleCounts(a) & 0x8888_8888_8888_8888 == 0
  {
  }

  /** With every nibble below 8, adding the shifted word carries nothing
      into the next byte, so adding before masking is masking before
      adding. */
  lemma ByteCountsAgree(b: bv64)
    requires b & 0x8888_8888_8888_8888 == 0
    ensures ByteCounts(b) == (b & 0x0F0F_0F0F_0F0F_0F0F) + ((b & 0xF0F0_F0F0_F0F0_F0F0) >> 4)
  {
  }

  /** `select64`'s three folding steps compute `PopCount`'s fold. */
  lemma SelectFoldAgrees(x: bv64)
    ensures ByteCounts(NibbleCounts(PairCounts(x))) == Fold(x)
  {
    PairCountsAgree(x);
    NibbleCountsAgree(PairCounts(x));
    NibbleCountsSmall(PairCounts(x));
    ByteCountsAgree(NibbleCounts(PairCounts(x)));
  }

  /** A carry-free product of the fold of `x` holds the byte-prefix
      counts of `x`. */
  lemma FoldedCounts(x: bv64, f: bv64, p: bv64)
    requires f == Fold(x) && Spreads(f, p)
    ensures PrefixCountsOf(p, x)
  {
    forall k | 0 <= k < 8
      ensures ByteAt(p, k) as int == Ones(x, 8 * k + 8)
    {
      PrefixCount(x, p, k);
    }
  }

  /** The hamming-weight block of `select64`: pair, nibble and byte
      counts, then the multiplication that turns byte `k` into the count
      of the lowest `k + 1` bytes. */
  method PrefixCountsOfBlock(block: bv64) returns (counts: bv64)
    ensures PrefixCountsOf(counts, block)
  {
    counts := PairCounts(block);
    counts := NibbleCounts(counts);
    counts := ByteCounts(counts);
    SelectFoldAgrees(block);
    FoldNibbles(block);
    ProductSpreads(counts);
    ghost var folded := counts;
    counts := counts * 0x0101_0101_0101_0101;  // MASK_01
    FoldedCounts(block, folded, counts);
  }

  /** The leading-zero-length block of `select64`: eight times the byte
      of `block` that holds its `i`-th one. */
  method LeadingZeroLen(counts: bv64, ghost block: bv64, i: nat) returns (lzl: nat)
    requires PrefixCountsOf(counts, block) && i < Weight(block)
    ensures lzl == 8 * ByteOfOne(block, i, 0) && lzl < 64
  {
    ByteOfOneSpec(block, i, 0);
    var v := FromNat(i + 1);
    var y := Flags(counts, v);
    lzl := Ctz(y);
    CtzOfFlags(counts, block, i, v, y);
  }

  /** The table entry for the rest of the count, inside byte `m`. */
  lemma SelectInByte(w: bv64, m: nat, b: bv8, k: nat, i: nat)
    requires m < 8 && b == ByteAt(w, m) && k < ByteOnes(b) && Ones(w, 8 * m) + k == i
    ensures Bit(w, 8 * m + SelectTable(k, b)) && Ones(w, 8 * m + SelectTable(k, b)) == i
  {
    SelectTableSpec(k, b);
    Located(w, m, b, k, SelectTable(k, b));
  }

  /** `(w >> lzl) & 0xFF` for a shift by a whole number of bytes: byte
      `lzl / 8` of `w`. */
  method ByteBelowShift(w: bv64, lzl: nat) returns (b: bv8)
    requires lzl < 64 && lzl % 8 == 0
    ensures b == ByteAt(w, lzl / 8)
  {
    var s := Idx(lzl);
    b := ((w >> s) & 0xFF) as bv8;
    ghost var own := ByteAt(w, lzl / 8);
    ReadByte(w, lzl / 8, s, own);
  }

  /** What `select64` reads at byte `m`, the byte holding the `i`-th one:
      the ones below the byte, and enough ones inside it. */
  lemma SelectedByte(x: bv64, c: bv64, i: nat, m: nat, below: bv8, b: bv8)
    requires PrefixCountsOf(c, x) && i < Weight(x) && m == ByteOfOne(x, i, 0)
    requires m < 8 && below == ByteAt(c << 8, m) && b == ByteAt(x, m)
    ensures below as int == Ones(x, 8 * m) <= i
    ensures i - below as int < ByteOnes(b)
  {
    assert Ones(x, 8 * 0) == 0;
    ByteOfOneSpec(x, i, 0);
    ghost var lo, hi := Ones(x, 8 * m), Ones(x, 8 * m + 8);
    assert lo <= i < hi;
    CountsBelow(c, c << 8, x, m);
    OnesThroughByte(x, m, b);
    assert hi == lo + ByteOnes(b);
  }

  /** `select64(block, i, base)`: `base` plus the position of the `i`-th
      one bit (counting from 0) of `block`, found with the byte-wise
      counts of the block and `SELECT_TABLE`. */
  method Select64(block: bv64, i: nat, base: nat) returns (r: nat)
    requires i < Weight(block)
    ensures base <= r < base + 64
    ensures Bit(block, r - base) && Ones(block, r - base) == i
  {
    var counts := PrefixCountsOfBlock(block);
    var lzl := LeadingZeroLen(counts, block, i);
    ghost var m := lzl / 8;
    var b := base + lzl;
    var below := ByteBelowShift(counts << 8, lzl);
    var byte := ByteBelowShift(block, lzl);
    SelectedByte(block, counts, i, m, below, byte);
    var j := i - below as int;
    SelectInByte(block, m, byte, j, i);
    r := b + SelectTable(j, byte);
  }

  // ------------------------------------------------------------ rank64

  /** `w << s`, spelled as `s` shifts by one position. */
  function Shl(w: bv64, s: nat): bv64
  {
    if s == 0 then w else Shl(w, s - 1) << 1
  }

  lemma Shl1At(z: bv64, s: bv6)
    requires s < 63
    ensures BitAt(z << 1, s + 1) == BitAt(z, s)
  {}

  lemma Shl1Low(z: bv64)
    ensures !BitAt(z << 1, 0)
  {}

  lemma Shl1Bit(y: bv64, z: bv64, j: nat)
    requires j < 64 && z == y << 1
    ensures Bit(z, j) == (1 <= j && Bit(y, j - 1))
  {
    if j == 0 {
      Shl1Low(y);
    } else {
      IdxAdd(j - 1, 1);
      IdxValue(j - 1);
      assert Idx(1) == 1;
      Shl1At(y, Idx(j - 1));
    }
  }

  /** Bit `j` of `z` is bit `j - s` of `w`, and the `s` lowest bits of `z`
      are clear. */
  predicate ShiftedUp(z: bv64, w: bv64, s: nat)
  {
    forall j | 0 <= j < 64 :: Bit(z, j) == (s <= j && Bit(w, j - s))
  }

  lemma ShiftedUpStep(y: bv64, z: bv64, w: bv64, s: nat)
    requires 0 < s && ShiftedUp(y, w, s - 1) && z == y << 1
    ensures ShiftedUp(z, w, s)
  {
    forall j | 0 <= j < 64
      ensures Bit(z, j) == (s <= j && Bit(w, j - s))
    {
      Shl1Bit(y, z, j);
    }
  }

  lemma {:induction false} ShlBits(w: bv64, s: nat)
    ensures ShiftedUp(Shl(w, s), w, s)
  {
    if s > 0 {
      ShlBits(w, s - 1);
      ShiftedUpStep(Shl(w, s - 1), Shl(w, s), w, s);
    }
  }

  /** The ones of a word shifted up by `s`, counted below `n`. */
  lemma {:induction false} OnesShiftedUp(z: bv64, w: bv64, s: nat, n: nat)
    requires ShiftedUp(z, w, s) && n <= 64
    ensures Ones(z, n) == if n <= s then 0 else Ones(w, n - s)
  {
    if n > 0 {
      OnesShiftedUp(z, w, s, n - 1);
    }
  }

  /** `rank64(x, i, b)`: the number of bits equal to `b` among the lowest
      `i` bits of `x`. A shift by 64 is undefined in C++, so `i > 0`. */
  method Rank64(x: bv64, i: nat, b: bool) returns (r: nat)
    requires 0 < i <= 64
    ensures r == if b then Ones(x, i) else i - Ones(x, i)
  {
    var w := x;
    if !b {
      w := !w;
      OnesNot(x, i);
    }
    ghost var v := w;
    w := Shl(w, 64 - i);
    ShlBits(v, 64 - i);
    OnesShiftedUp(w, v, 64 - i, 64);
    r := Count(w);
  }
}
