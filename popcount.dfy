/**
 * `PopCount`: the portable (SWAR) Hamming weight of a 64-bit word. The
 * constructor folds the word into per-byte counts and multiplies by
 * 0x0101...01, so that byte `k` of the stored value counts the ones among
 * the lowest `8(k+1)` bits; `lo8()` ... `lo64()` read those bytes.
 */
module PopCounts {
  import opened Words

  /** The three folding steps of the constructor. */
  function Fold(x: bv64): bv64
  {
    var a := (x & 0x5555_5555_5555_5555) + ((x & 0xAAAA_AAAA_AAAA_AAAA) >> 1);
    var b := (a & 0x3333_3333_3333_3333) + ((a & 0xCCCC_CCCC_CCCC_CCCC) >> 2);
    (b & 0x0F0F_0F0F_0F0F_0F0F) + ((b & 0xF0F0_F0F0_F0F0_F0F0) >> 4)
  }

  /** The same three steps applied to one byte on its own. */
  function FoldByte(b: bv8): bv8
  {
    var a := (b & 0x55) + ((b & 0xAA) >> 1);
    var c := (a & 0x33) + ((a & 0xCC) >> 2);
    (c & 0x0F) + ((c & 0xF0) >> 4)
  }

  /** A `PopCount` holds the multiplied word; `LoN()` is byte `N/8 - 1`
      of it, that is `(value >> (N - 8)) & 0xFF`. */
  datatype PopCount = PopCount(value: bv64)
  {
    function Lo8(): nat { ByteAt(value, 0) as int }
    function Lo16(): nat { ByteAt(value, 1) as int }
    function Lo24(): nat { ByteAt(value, 2) as int }
    function Lo32(): nat { ByteAt(value, 3) as int }
    function Lo40(): nat { ByteAt(value, 4) as int }
    function Lo48(): nat { ByteAt(value, 5) as int }
    function Lo56(): nat { ByteAt(value, 6) as int }
    function Lo64(): nat { ByteAt(value, 7) as int }
  }

  /** The constructor `PopCount(x)`: `lo(8k)` is the number of ones among
      the lowest `8k` bits of `x`. */
  function FromWord(x: bv64): (p: PopCount)
    ensures p.Lo8() == Ones(x, 8)
    ensures p.Lo16() == Ones(x, 16)
    ensures p.Lo24() == Ones(x, 24)
    ensures p.Lo32() == Ones(x, 32)
    ensures p.Lo40() == Ones(x, 40)
    ensures p.Lo48() == Ones(x, 48)
    ensures p.Lo56() == Ones(x, 56)
    ensures p.Lo64() == Ones(x, 64)
  {
    PrefixCounts(x);
    PopCount(Fold(x) * 0x0101_0101_0101_0101)
  }

  /** `count(x)` on the portable branch: `lo64()` of `PopCount(x)`. */
  function Count(x: bv64): (r: nat)
    ensures r == Weight(x)
    ensures r <= 64
  {
    FromWord(x).Lo64()
  }

  /** `count(x)` on the hardware branch: the processor's population count,
      which by definition is the number of one bits. */
  function HardwareCount(x: bv64): nat
  {
    Weight(x)
  }

  /** Both branches of `count` agree. This only records the assumption
      behind `HardwareCount`: the processor's count is taken to be the
      weight, so the portable fold is what carries the proof. */
  lemma CountBranchesAgree(x: bv64)
    ensures Count(x) == HardwareCount(x)
  {}

  /** The prefix counts never decrease, and grow by at most 8 per byte. */
  lemma LoMonotone(x: bv64)
    ensures FromWord(x).Lo8() <= FromWord(x).Lo16() <= FromWord(x).Lo24() <= FromWord(x).Lo32()
    ensures FromWord(x).Lo32() <= FromWord(x).Lo40() <= FromWord(x).Lo48() <= FromWord(x).Lo56()
    ensures FromWord(x).Lo56() <= FromWord(x).Lo64() == Count(x)
    ensures FromWord(x).Lo8() <= 8 && FromWord(x).Lo64() - FromWord(x).Lo56() <= 8
  {
    OnesMonotone(x, 0, 8);
    OnesMonotone(x, 8, 16);
    OnesMonotone(x, 16, 24);
    OnesMonotone(x, 24, 32);
    OnesMonotone(x, 32, 40);
    OnesMonotone(x, 40, 48);
    OnesMonotone(x, 48, 56);
    OnesMonotone(x, 56, 64);
  }

  // ------------------------------------------------- the folding steps

  lemma FoldByteCount(b: bv8)
    ensures FoldByte(b) as int == ByteOnes(b)
  {}

  /** Folding works byte by byte, so it commutes with a one-byte shift. */
  lemma FoldShift(x: bv64)
    ensures Fold(x) >> 8 == Fold(x >> 8)
  {}

  lemma FoldLow(x: bv64)
    ensures ByteAt(Fold(x), 0) == FoldByte(ByteAt(x, 0))
  {}

  /** Byte `k` of `Fold(x)` is byte `k` of `x` folded on its own. */
  lemma {:induction false} FoldBytes(x: bv64, k: nat)
    requires k < 8
    ensures ByteAt(Fold(x), k) == FoldByte(ByteAt(x, k))
  {
    if k == 0 {
      FoldLow(x);
    } else {
      FoldShift(x);
      FoldBytes(x >> 8, k - 1);
    }
  }

  /** Byte `k` of `Fold(x)` counts the ones of byte `k` of `x`. */
  lemma FoldCount(x: bv64, k: nat)
    requires k < 8
    ensures ByteAt(Fold(x), k) as int == Ones(x, 8 * k + 8) - Ones(x, 8 * k)
  {
    FoldBytes(x, k);
    FoldByteCount(ByteAt(x, k));
    OnesByte(x, k);
  }

  /** After folding, every byte is at most 15, so the upper nibbles are clear. */
  lemma FoldNibbles(x: bv64)
    ensures Fold(x) & 0xF0F0_F0F0_F0F0_F0F0 == 0
  {}

  // --------------------------------------- the multiply by 0x0101...01

  lemma MulAsShifts(f: bv64)
    ensures f * 0x0101_0101_0101_0101 ==
      f + (f << 8) + (f << 16) + (f << 24) + (f << 32) + (f << 40) + (f << 48) + (f << 56)
  {}

  lemma ShiftSumSmall(f: bv64)
    requires f & 0xF0F0_F0F0_F0F0_F0F0 == 0
    ensures (f + (f << 8) + (f << 16) + (f << 24) + (f << 32) + (f << 40) + (f << 48) + (f << 56))
      & 0x8080_8080_8080_8080 == 0
  {}

  /** The product is its own multiplicand plus itself moved up one byte. */
  lemma MulRecurrence(f: bv64)
    ensures f * 0x0101_0101_0101_0101 == f + ((f * 0x0101_0101_0101_0101) << 8)
  {}

  /** `p` is a product `f * 0x0101...01` whose bytes cannot carry: every
      byte of `f` is below 16 and every byte of `p` below 128. */
  predicate Spreads(f: bv64, p: bv64)
  {
    f & 0xF0F0_F0F0_F0F0_F0F0 == 0 && p & 0x8080_8080_8080_8080 == 0 && p == f + (p << 8)
  }

  lemma ProductSpreads(f: bv64)
    requires f & 0xF0F0_F0F0_F0F0_F0F0 == 0
    ensures Spreads(f, f * 0x0101_0101_0101_0101)
  {
    MulAsShifts(f);
    ShiftSumSmall(f);
    MulRecurrence(f);
  }

  /** One byte of `f + (p << 8)`: no carry crosses a byte boundary when
      `f`'s bytes are below 16 and `p`'s below 128. */
  lemma AddShifted0(f: bv64, p: bv64)
    ensures ByteAt(f + (p << 8), 0) == ByteAt(f, 0)
  {
    ByteLit0(f + (p << 8));
    ByteLit0(f);
  }

  lemma AddShifted1(f: bv64, p: bv64)
    requires f & 0xF0F0_F0F0_F0F0_F0F0 == 0 && p & 0x8080_8080_8080_8080 == 0
    ensures ByteAt(f + (p << 8), 1) == ByteAt(f, 1) + ByteAt(p, 0)
  {
    ByteLit1(f + (p << 8));
    ByteLit1(f);
    ByteLit0(p);
  }

  lemma AddShifted2(f: bv64, p: bv64)
    requires f & 0xF0F0_F0F0_F0F0_F0F0 == 0 && p & 0x8080_8080_8080_8080 == 0
    ensures ByteAt(f + (p << 8), 2) == ByteAt(f, 2) + ByteAt(p, 1)
  {
    ByteLit2(f + (p << 8));
    ByteLit2(f);
    ByteLit1(p);
  }

  lemma AddShifted3(f: bv64, p: bv64)
    requires f & 0xF0F0_F0F0_F0F0_F0F0 == 0 && p & 0x8080_8080_8080_8080 == 0
    ensures ByteAt(f + (p << 8), 3) == ByteAt(f, 3) + ByteAt(p, 2)
  {
    ByteLit3(f + (p << 8));
    ByteLit3(f);
    ByteLit2(p);
  }

  lemma AddShifted4(f: bv64, p: bv64)
    requires f & 0xF0F0_F0F0_F0F0_F0F0 == 0 && p & 0x8080_8080_8080_8080 == 0
    ensures ByteAt(f + (p << 8), 4) == ByteAt(f, 4) + ByteAt(p, 3)
  {
    ByteLit4(f + (p << 8));
    ByteLit4(f);
    ByteLit3(p);
  }

  lemma AddShifted5(f: bv64, p: bv64)
    requires f & 0xF0F0_F0F0_F0F0_F0F0 == 0 && p & 0x8080_8080_8080_8080 == 0
    ensures ByteAt(f + (p << 8), 5) == ByteAt(f, 5) + ByteAt(p, 4)
  {
    ByteLit5(f + (p << 8));
    ByteLit5(f);
    ByteLit4(p);
  }

  lemma AddShifted6(f: bv64, p: bv64)
    requires f & 0xF0F0_F0F0_F0F0_F0F0 == 0 && p & 0x8080_8080_8080_8080 == 0
    ensures ByteAt(f + (p << 8), 6) == ByteAt(f, 6) + ByteAt(p, 5)
  {
    ByteLit6(f + (p << 8));
    ByteLit6(f);
    ByteLit5(p);
  }

  lemma AddShifted7(f: bv64, p: bv64)
    requires f & 0xF0F0_F0F0_F0F0_F0F0 == 0 && p & 0x8080_8080_8080_8080 == 0
    ensures ByteAt(f + (p << 8), 7) == ByteAt(f, 7) + ByteAt(p, 6)
  {
    ByteLit7(f + (p << 8));
    ByteLit7(f);
    ByteLit6(p);
  }

  /** Byte `k` of `p` is byte `k` of `f` plus byte `k - 1` of `p`. */
  predicate CarriesUp(f: bv64, p: bv64, k: nat)
    requires 0 < k < 8
  {
    ByteAt(p, k) == ByteAt(f, k) + ByteAt(p, k - 1)
  }

  lemma ProductCarries(f: bv64, p: bv64)
    requires Spreads(f, p)
    ensures CarriesUp(f, p, 1) && CarriesUp(f, p, 2) && CarriesUp(f, p, 3) && CarriesUp(f, p, 4)
    ensures CarriesUp(f, p, 5) && CarriesUp(f, p, 6) && CarriesUp(f, p, 7)
  {
    AddShifted1(f, p);
    AddShifted2(f, p);
    AddShifted3(f, p);
    AddShifted4(f, p);
    AddShifted5(f, p);
    AddShifted6(f, p);
    AddShifted7(f, p);
  }

  /** Each byte of the product is the byte of the multiplicand plus the
      byte below it of the product. */
  lemma ProductByte(f: bv64, p: bv64, k: nat)
    requires Spreads(f, p) && 0 < k < 8
    ensures CarriesUp(f, p, k)
  {
    ProductCarries(f, p);
    if k == 1 {
    } else if k == 2 {
    } else if k == 3 {
    } else if k == 4 {
    } else if k == 5 {
    } else if k == 6 {
    } else {
    }
  }

  lemma AddSmall(a: bv8, b: bv8)
    requires a <= 15 && b < 128
    ensures (a + b) as int == a as int + b as int
  {}

  /** Byte `k` of `p` is the number of ones among the lowest `8(k+1)` bits of `x`. */
  predicate CountsPrefix(x: bv64, p: bv64, k: nat)
    requires k < 8
  {
    ByteAt(p, k) as int == Ones(x, 8 * k + 8)
  }

  /** One step of the running sum: the count of byte `k` added to the
      prefix count of the bytes below it is the longer prefix count. */
  lemma Accumulate(x: bv64, p: bv64, k: nat)
    requires 0 < k < 8 && CarriesUp(Fold(x), p, k) && CountsPrefix(x, p, k - 1)
    ensures CountsPrefix(x, p, k)
  {
    FoldCount(x, k);
    AddCounts(x, ByteAt(Fold(x), k), ByteAt(p, k - 1), ByteAt(p, k), k);
  }

  lemma AddCounts(x: bv64, a: bv8, b: bv8, c: bv8, k: nat)
    requires 0 < k < 8 && c == a + b
    requires a as int == Ones(x, 8 * k + 8) - Ones(x, 8 * k)
    requires b as int == Ones(x, 8 * k)
    ensures c as int == Ones(x, 8 * k + 8)
  {
    OnesMonotone(x, 8 * k, 8 * k + 8);
    AddSmall(a, b);
  }

  /** Byte `k` of a carry-free product of `Fold(x)` counts the ones among
      the lowest `8(k+1)` bits of `x`. */
  lemma {:induction false} PrefixCount(x: bv64, p: bv64, k: nat)
    requires k < 8 && Spreads(Fold(x), p)
    ensures CountsPrefix(x, p, k)
  {
    if k == 0 {
      FoldCount(x, 0);
      AddShifted0(Fold(x), p);
    } else {
      PrefixCount(x, p, k - 1);
      ProductByte(Fold(x), p, k);
      Accumulate(x, p, k);
    }
  }

  /** The bytes of the product of `Fold(x)` and 0x0101...01 are the running
      sums of the byte counts of `x`. */
  lemma PrefixCounts(x: bv64)
    ensures ByteAt(Fold(x) * 0x0101_0101_0101_0101, 0) as int == Ones(x, 8)
    ensures ByteAt(Fold(x) * 0x0101_0101_0101_0101, 1) as int == Ones(x, 16)
    ensures ByteAt(Fold(x) * 0x0101_0101_0101_0101, 2) as int == Ones(x, 24)
    ensures ByteAt(Fold(x) * 0x0101_0101_0101_0101, 3) as int == Ones(x, 32)
    ensures ByteAt(Fold(x) * 0x0101_0101_0101_0101, 4) as int == Ones(x, 40)
    ensures ByteAt(Fold(x) * 0x0101_0101_0101_0101, 5) as int == Ones(x, 48)
    ensures ByteAt(Fold(x) * 0x0101_0101_0101_0101, 6) as int == Ones(x, 56)
    ensures ByteAt(Fold(x) * 0x0101_0101_0101_0101, 7) as int == Ones(x, 64)
  {
    FoldNibbles(x);
    ProductSpreads(Fold(x));
    PrefixCount(x, Fold(x) * 0x0101_0101_0101_0101, 0);
    PrefixCount(x, Fold(x) * 0x0101_0101_0101_0101, 1);
    PrefixCount(x, Fold(x) * 0x0101_0101_0101_0101, 2);
    PrefixCount(x, Fold(x) * 0x0101_0101_0101_0101, 3);
    PrefixCount(x, Fold(x) * 0x0101_0101_0101_0101, 4);
    PrefixCount(x, Fold(x) * 0x0101_0101_0101_0101, 5);
    PrefixCount(x, Fold(x) * 0x0101_0101_0101_0101, 6);
    PrefixCount(x, Fold(x) * 0x0101_0101_0101_0101, 7);
  }
}
