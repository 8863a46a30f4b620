/**
 * 64-bit machine words as used by the bit vector: bit positions, bytes,
 * masks and the number of one bits below a position.
 *
 * Bit positions are plain naturals in the specifications.  The solver
 * reasons about bit-vector shifts only when the shift amount is itself a
 * bit vector, so a position `j` is turned into the 6-bit shift amount
 * `Idx(j)` and every bit-level fact is first proved over `bv6` and then
 * restated over naturals.
 */
module Words {

  /** The shift amount for position `j`, i.e. `j mod 64` as a `bv6`. */
  function Idx(j: nat): bv6
  {
    if j == 0 then 0 else Idx(j - 1) + 1
  }

  lemma {:induction false} IdxValue(j: nat)
    requires j < 64
    ensures Idx(j) as int == j
  {
    if j > 0 {
      IdxValue(j - 1);
    }
  }

  lemma {:induction false} IdxAdd(a: nat, b: nat)
    ensures Idx(a + b) == Idx(a) + Idx(b)
  {
    if b > 0 {
      IdxAdd(a, b - 1);
    }
  }

  lemma IdxLess(i: nat, j: nat)
    requires i < 64 && j < 64
    ensures (Idx(i) < Idx(j)) == (i < j)
    ensures (Idx(i) == Idx(j)) == (i == j)
  {
    IdxValue(i);
    IdxValue(j);
  }

  /** The word holding the small count `n`, built bit by bit from the
      top so that its value is visible to the solver. */
  function FromNat(n: nat): bv64
    requires n < 1024
  {
    if n == 0 then 0 else Push(FromNat(n / 2), n % 2 == 1)
  }

  /** Shifts `x` left by one and appends one bit. */
  function Push(x: bv64, odd: bool): bv64
  {
    (x << 1) | (if odd then 1 else 0)
  }

  lemma PushValue(x: bv64, odd: bool)
    requires x < 512
    ensures Push(x, odd) as int == 2 * x as int + (if odd then 1 else 0)
  {}

  lemma {:induction false} FromNatValue(n: nat)
    requires n < 1024
    ensures FromNat(n) as int == n
  {
    if n > 0 {
      FromNatValue(n / 2);
      var x := FromNat(n / 2);
      assert x < 512;
      PushValue(x, n % 2 == 1);
    }
  }

  // ---------------------------------------------------------------- bits

  /** Bit `s` of `w`, with a bit-vector shift amount. */
  predicate BitAt(w: bv64, s: bv6)
  {
    (w >> s) & 1 == 1
  }

  /** Bit `j` of `w` (bit 0 is the least significant one). */
  predicate Bit(w: bv64, j: nat)
    requires j < 64
  {
    BitAt(w, Idx(j))
  }

  lemma NotBitAt(w: bv64, s: bv6)
    ensures BitAt(!w, s) == !BitAt(w, s)
  {}

  lemma NotBit(w: bv64, j: nat)
    requires j < 64
    ensures Bit(!w, j) == !Bit(w, j)
  {
    NotBitAt(w, Idx(j));
  }

  lemma AndBitAt(a: bv64, b: bv64, s: bv6)
    ensures BitAt(a & b, s) == (BitAt(a, s) && BitAt(b, s))
  {}

  lemma AndBit(a: bv64, b: bv64, j: nat)
    requires j < 64
    ensures Bit(a & b, j) == (Bit(a, j) && Bit(b, j))
  {
    AndBitAt(a, b, Idx(j));
  }

  lemma OrBitAt(a: bv64, b: bv64, s: bv6)
    ensures BitAt(a | b, s) == (BitAt(a, s) || BitAt(b, s))
  {}

  lemma OrBit(a: bv64, b: bv64, j: nat)
    requires j < 64
    ensures Bit(a | b, j) == (Bit(a, j) || Bit(b, j))
  {
    OrBitAt(a, b, Idx(j));
  }

  lemma ZeroBit(j: nat)
    requires j < 64
    ensures !Bit(0, j)
  {}

  /** The word whose only one bit is bit `r` (`1ULL << r`). */
  function SingleBit(r: nat): bv64
    requires r < 64
  {
    1 << Idx(r)
  }

  lemma SingleBitAt(r: bv6, s: bv6)
    ensures BitAt(1 << r, s) == (s == r)
  {}

  lemma SingleBitBit(r: nat, j: nat)
    requires r < 64 && j < 64
    ensures Bit(SingleBit(r), j) == (j == r)
  {
    SingleBitAt(Idx(r), Idx(j));
    IdxLess(r, j);
  }

  lemma AndSingleBitAt(w: bv64, s: bv6)
    ensures (w & (1 << s) != 0) == BitAt(w, s)
  {}

  /** `w & (1ULL << r)` is nonzero exactly when bit `r` of `w` is set. */
  lemma AndSingleBit(w: bv64, r: nat)
    requires r < 64
    ensures (w & SingleBit(r) != 0) == Bit(w, r)
  {
    AndSingleBitAt(w, Idx(r));
  }

  lemma SetBitAt(x: bv64, s: bv6, u: bv6)
    ensures BitAt(x | (1 << s), u) == (u == s || BitAt(x, u))
  {}

  lemma ClearBitAt(x: bv64, s: bv6, u: bv6)
    ensures BitAt(x & !(1 << s), u) == (u != s && BitAt(x, u))
  {}

  /** `x | (1ULL << r)` sets bit `r` and keeps every other bit. */
  lemma SetBit(x: bv64, r: nat, t: nat)
    requires r < 64 && t < 64
    ensures Bit(x | SingleBit(r), t) == (t == r || Bit(x, t))
  {
    IdxLess(r, t);
    SetBitAt(x, Idx(r), Idx(t));
    if t == r {
      assert Bit(x | SingleBit(r), t);
    }
  }

  /** `x & ~(1ULL << r)` clears bit `r` and keeps every other bit. */
  lemma ClearBit(x: bv64, r: nat, t: nat)
    requires r < 64 && t < 64
    ensures Bit(x & !SingleBit(r), t) == (t != r && Bit(x, t))
  {
    IdxLess(r, t);
    ClearBitAt(x, Idx(r), Idx(t));
  }

  /** Writing `b` into bit `r` of `x` as `set` does. */
  lemma UpdateBits(x: bv64, r: nat, b: bool, w: bv64)
    requires r < 64
    requires w == if b then x | SingleBit(r) else x & !SingleBit(r)
    ensures forall t | 0 <= t < 64 :: Bit(w, t) == if t == r then b else Bit(x, t)
  {
    forall t | 0 <= t < 64
      ensures Bit(w, t) == if t == r then b else Bit(x, t)
    {
      if b {
        SetBit(x, r, t);
      } else {
        ClearBit(x, r, t);
      }
    }
  }

  /** The mask of the positions below `r` (`(1ULL << r) - 1`). */
  function LowMask(r: nat): bv64
    requires r < 64
  {
    SingleBit(r) - 1
  }

  lemma LowMaskStepAt(r: bv6)
    requires r < 63
    ensures ((1 as bv64) << (r + 1)) - 1 == (((1 as bv64) << r) - 1) | ((1 as bv64) << r)
  {}

  lemma {:induction false} LowMaskBit(r: nat, j: nat)
    requires r < 64 && j < 64
    ensures Bit(LowMask(r), j) == (j < r)
  {
    if r == 0 {
      ZeroBit(j);
    } else {
      LowMaskBit(r - 1, j);
      LowMaskStep(r);
      OrBit(LowMask(r - 1), SingleBit(r - 1), j);
      SingleBitBit(r - 1, j);
    }
  }

  lemma LowMaskStep(r: nat)
    requires 0 < r < 64
    ensures LowMask(r) == LowMask(r - 1) | SingleBit(r - 1)
  {
    IdxAdd(r - 1, 1);
    IdxLess(r - 1, 63);
    LowMaskStepAt(Idx(r - 1));
  }

  // ---------------------------------------------------------- counting

  /** The number of one bits of `w` at positions below `n`. */
  function Ones(w: bv64, n: nat): (r: nat)
    requires n <= 64
    ensures r <= n
  {
    if n == 0 then 0 else Ones(w, n - 1) + (if Bit(w, n - 1) then 1 else 0)
  }

  /** The number of one bits of the whole word (its Hamming weight). */
  function Weight(w: bv64): (r: nat)
    ensures r <= 64
  {
    Ones(w, 64)
  }

  lemma {:induction false} OnesMonotone(w: bv64, m: nat, n: nat)
    requires m <= n <= 64
    ensures Ones(w, m) <= Ones(w, n)
    ensures Ones(w, n) - Ones(w, m) <= n - m
    decreases n - m
  {
    if m < n {
      OnesMonotone(w, m, n - 1);
    }
  }

  lemma {:induction false} OnesNot(w: bv64, n: nat)
    requires n <= 64
    ensures Ones(!w, n) == n - Ones(w, n)
  {
    if n > 0 {
      OnesNot(w, n - 1);
      NotBit(w, n - 1);
    }
  }

  lemma {:induction false} OnesZero(n: nat)
    requires n <= 64
    ensures Ones(0, n) == 0
  {
    if n > 0 {
      OnesZero(n - 1);
      ZeroBit(n - 1);
    }
  }

  /** Masking with a word whose ones are exactly the positions below `r`
      keeps exactly the ones of `w` below `r`. */
  lemma {:induction false} OnesAnd(w: bv64, m: bv64, r: nat, n: nat)
    requires r <= 64 && n <= 64
    requires forall j | 0 <= j < 64 :: Bit(m, j) == (j < r)
    ensures Ones(w & m, n) == Ones(w, if n < r then n else r)
  {
    if n > 0 {
      OnesAnd(w, m, r, n - 1);
      AndBit(w, m, n - 1);
    }
  }

  lemma OnesLowMask(w: bv64, r: nat)
    requires r < 64
    ensures Ones(w & LowMask(r), 64) == Ones(w, r)
  {
    forall j | 0 <= j < 64
      ensures Bit(LowMask(r), j) == (j < r)
    {
      LowMaskBit(r, j);
    }
    OnesAnd(w, LowMask(r), r, 64);
  }

  // -------------------------------------------------------------- bytes

  /** Byte `k` of `x` (byte 0 is the least significant one): the low byte
      of `x` shifted down by `8k`. */
  function ByteAt(x: bv64, k: nat): bv8
    requires k < 8
  {
    if k == 0 then (x & 0xFF) as bv8 else ByteAt(x >> 8, k - 1)
  }

  /** Byte `k` with its shift written out, for each literal `k`. */
  lemma ByteLit0(w: bv64)
    ensures ByteAt(w, 0) == (w & 0xFF) as bv8
  {}

  lemma ByteLit1(w: bv64)
    ensures ByteAt(w, 1) == ((w >> 8) & 0xFF) as bv8
  {
    ByteLit0(w >> 8);
  }

  lemma ByteLit2(w: bv64)
    ensures ByteAt(w, 2) == ((w >> 16) & 0xFF) as bv8
  {
    ByteLit1(w >> 8);
  }

  lemma ByteLit3(w: bv64)
    ensures ByteAt(w, 3) == ((w >> 24) & 0xFF) as bv8
  {
    ByteLit2(w >> 8);
  }

  lemma ByteLit4(w: bv64)
    ensures ByteAt(w, 4) == ((w >> 32) & 0xFF) as bv8
  {
    ByteLit3(w >> 8);
  }

  lemma ByteLit5(w: bv64)
    ensures ByteAt(w, 5) == ((w >> 40) & 0xFF) as bv8
  {
    ByteLit4(w >> 8);
  }

  lemma ByteLit6(w: bv64)
    ensures ByteAt(w, 6) == ((w >> 48) & 0xFF) as bv8
  {
    ByteLit5(w >> 8);
  }

  lemma ByteLit7(w: bv64)
    ensures ByteAt(w, 7) == ((w >> 56) & 0xFF) as bv8
  {
    ByteLit6(w >> 8);
  }

  /** The number of one bits of a byte. */
  function ByteOnes(b: bv8): (r: nat)
    ensures r <= 8
  {
    (if b & 0x01 != 0 then 1 else 0) + (if b & 0x02 != 0 then 1 else 0) +
    (if b & 0x04 != 0 then 1 else 0) + (if b & 0x08 != 0 then 1 else 0) +
    (if b & 0x10 != 0 then 1 else 0) + (if b & 0x20 != 0 then 1 else 0) +
    (if b & 0x40 != 0 then 1 else 0) + (if b & 0x80 != 0 then 1 else 0)
  }

  /** Bit `i` of a byte-sized word, for each literal position. */
  lemma LowBits(v: bv64)
    ensures Bit(v, 0) == (v & 0x01 != 0) && Bit(v, 1) == (v & 0x02 != 0)
    ensures Bit(v, 2) == (v & 0x04 != 0) && Bit(v, 3) == (v & 0x08 != 0)
    ensures Bit(v, 4) == (v & 0x10 != 0) && Bit(v, 5) == (v & 0x20 != 0)
    ensures Bit(v, 6) == (v & 0x40 != 0) && Bit(v, 7) == (v & 0x80 != 0)
  {
    assert Idx(1) == 1 && Idx(2) == 2 && Idx(3) == 3 && Idx(4) == 4;
    assert Idx(5) == 5 && Idx(6) == 6 && Idx(7) == 7;
  }

  lemma OnesFour(v: bv64)
    ensures Ones(v, 4) == (if v & 0x01 != 0 then 1 else 0) + (if v & 0x02 != 0 then 1 else 0) +
    (if v & 0x04 != 0 then 1 else 0) + (if v & 0x08 != 0 then 1 else 0)
  {
    LowBits(v);
    assert Ones(v, 4) == Ones(v, 3) + (if Bit(v, 3) then 1 else 0);
    assert Ones(v, 3) == Ones(v, 2) + (if Bit(v, 2) then 1 else 0);
    assert Ones(v, 2) == Ones(v, 1) + (if Bit(v, 1) then 1 else 0);
  }
  lemma OnesEight(v: bv64)
    ensures Ones(v, 8) == Ones(v, 4) +
    (if v & 0x10 != 0 then 1 else 0) + (if v & 0x20 != 0 then 1 else 0) +
    (if v & 0x40 != 0 then 1 else 0) + (if v & 0x80 != 0 then 1 else 0)
  {
    LowBits(v);
    assert Ones(v, 8) == Ones(v, 7) + (if Bit(v, 7) then 1 else 0);
    assert Ones(v, 7) == Ones(v, 6) + (if Bit(v, 6) then 1 else 0);
    assert Ones(v, 6) == Ones(v, 5) + (if Bit(v, 5) then 1 else 0);
    assert Ones(v, 5) == Ones(v, 4) + (if Bit(v, 4) then 1 else 0);
  }
  lemma ZeroExt(b: bv8)
    ensures ((b as bv64) & 0x01 != 0) == (b & 0x01 != 0) && ((b as bv64) & 0x02 != 0) == (b & 0x02 != 0)
    ensures ((b as bv64) & 0x04 != 0) == (b & 0x04 != 0) && ((b as bv64) & 0x08 != 0) == (b & 0x08 != 0)
    ensures ((b as bv64) & 0x10 != 0) == (b & 0x10 != 0) && ((b as bv64) & 0x20 != 0) == (b & 0x20 != 0)
    ensures ((b as bv64) & 0x40 != 0) == (b & 0x40 != 0) && ((b as bv64) & 0x80 != 0) == (b & 0x80 != 0)
  {}
  lemma ByteOnesIsOnes(b: bv8)
    ensures ByteOnes(b) == Ones(b as bv64, 8)
  {
    OnesFour(b as bv64);
    OnesEight(b as bv64);
    ZeroExt(b);
  }

  lemma ShiftByteAt(w: bv64, s: bv6)
    requires s < 56
    ensures BitAt(w >> 8, s) == BitAt(w, s + 8)
  {}

  /** Shifting down by a byte moves bit `j + 8` to bit `j`. */
  lemma ShiftByte(w: bv64, j: nat)
    requires j < 56
    ensures Bit(w >> 8, j) == Bit(w, j + 8)
  {
    IdxAdd(j, 8);
    IdxValue(j);
    assert Idx(8) == 8;
    ShiftByteAt(w, Idx(j));
  }

  lemma LowByteAt(w: bv64, t: bv6)
    requires t < 8
    ensures BitAt(w, t) == BitAt(((w & 0xFF) as bv8) as bv64, t)
  {}

  lemma {:induction false} BitOfByte(w: bv64, k: nat, i: nat)
    requires k < 8 && i < 8
    ensures Bit(w, 8 * k + i) == Bit(ByteAt(w, k) as bv64, i)
  {
    if k == 0 {
      IdxValue(i);
      LowByteAt(w, Idx(i));
    } else {
      BitOfByte(w >> 8, k - 1, i);
      ShiftByte(w, 8 * (k - 1) + i);
    }
  }

  /** Counting ones over a stretch of `w` that repeats the low bits of `v`. */
  lemma {:induction false} OnesShifted(w: bv64, v: bv64, base: nat, d: nat, len: nat)
    requires d <= len && base + len <= 64
    requires forall i | 0 <= i < len :: Bit(w, base + i) == Bit(v, i)
    ensures Ones(w, base + d) == Ones(w, base) + Ones(v, d)
  {
    if d > 0 {
      OnesShifted(w, v, base, d - 1, len);
    }
  }

  lemma ByteBits(w: bv64, k: nat, v: bv64)
    requires k < 8 && v == ByteAt(w, k) as bv64
    ensures forall i | 0 <= i < 8 :: Bit(w, 8 * k + i) == Bit(v, i)
  {
    forall i | 0 <= i < 8
      ensures Bit(w, 8 * k + i) == Bit(v, i)
    {
      BitOfByte(w, k, i);
    }
  }

  lemma OnesOfByte(w: bv64, k: nat, b: bv8, v: bv64)
    requires k < 8 && v == b as bv64
    requires forall i | 0 <= i < 8 :: Bit(w, 8 * k + i) == Bit(v, i)
    ensures Ones(w, 8 * k + 8) == Ones(w, 8 * k) + ByteOnes(b)
  {
    OnesShifted(w, v, 8 * k, 8, 8);
    ByteOnesIsOnes(b);
  }

  /** The ones of the word, counted byte by byte. */
  lemma OnesByte(w: bv64, k: nat)
    requires k < 8
    ensures Ones(w, 8 * k + 8) == Ones(w, 8 * k) + ByteOnes(ByteAt(w, k))
  {
    ByteBits(w, k, ByteAt(w, k) as bv64);
    OnesOfByte(w, k, ByteAt(w, k), ByteAt(w, k) as bv64);
  }
}
