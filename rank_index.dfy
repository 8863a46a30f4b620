/**
 * `RankIndex`: one entry of the bit vector's rank directory. It holds a
 * 32-bit absolute count `abs` and seven relative counters packed into one
 * unsigned 64-bit word `rel`, at the bit ranges [0,7), [7,15), [15,23),
 * [23,32), [32,41), [41,50) and [50,59).
 *
 * The rank table stores its entries by value and updates them in place one
 * field at a time; an entry is therefore a datatype and each setter returns
 * the updated entry, which the table writes back into its slot.
 */
module RankIndexes {

  datatype RankIndex = RankIndex(abs: nat, rel: bv64)
  {
    /** `abs_` is a `uint32_t`. */
    predicate Valid()
    {
      abs < 0x1_0000_0000
    }

    /** `abs()` */
    function Abs(): nat { abs }

    /** `rel1()` ... `rel7()`: the seven bit fields of `rel`, each below
        its width limit. */
    function Rel1(): (r: nat) ensures r < 128 { (rel & 0x7F) as int }
    function Rel2(): (r: nat) ensures r < 256 { ((rel >> 7) & 0xFF) as int }
    function Rel3(): (r: nat) ensures r < 256 { ((rel >> 15) & 0xFF) as int }
    function Rel4(): (r: nat) ensures r < 512 { ((rel >> 23) & 0x1FF) as int }
    function Rel5(): (r: nat) ensures r < 512 { ((rel >> 32) & 0x1FF) as int }
    function Rel6(): (r: nat) ensures r < 512 { ((rel >> 41) & 0x1FF) as int }
    function Rel7(): (r: nat) ensures r < 512 { ((rel >> 50) & 0x1FF) as int }

    /** The counter of small block `k` of the large block, as `rank`
        selects it with `switch (q_small % BLOCK_RATE)`: small block 0 adds
        nothing. */
    function Rel(k: nat): (r: nat)
      requires k < 8
      ensures k == 0 ==> r == 0
      ensures 0 < k ==> r < FieldLimit(k)
    {
      match k
      case 0 => 0
      case 1 => Rel1()
      case 2 => Rel2()
      case 3 => Rel3()
      case 4 => Rel4()
      case 5 => Rel5()
      case 6 => Rel6()
      case _ => Rel7()
    }

    /** `set_abs(value)`: the parameter is a `uint32_t`, so a wider count
        is truncated to its low 32 bits; `rel` is untouched. */
    function SetAbs(value: nat): (r: RankIndex)
      ensures r.Valid()
      ensures value < 0x1_0000_0000 ==> r.Abs() == value
      ensures r.rel == rel
      ensures forall k | 0 <= k < 8 :: r.Rel(k) == Rel(k)
    {
      RankIndex(value % 0x1_0000_0000, rel)
    }

    /** `set_rel1(value)`: only the field at bits [0,7) changes. */
    function SetRel1(value: bv64): (r: RankIndex)
      ensures r.abs == abs
      ensures r.Rel1() == (value & 0x7F) as int
      ensures r.Rel2() == Rel2() && r.Rel3() == Rel3() && r.Rel4() == Rel4()
      ensures r.Rel5() == Rel5() && r.Rel6() == Rel6() && r.Rel7() == Rel7()
    {
      RankIndex(abs, (rel & !0x7F) | (value & 0x7F))
    }

    /** `set_rel2(value)`: only the field at bits [7,15) changes. */
    function SetRel2(value: bv64): (r: RankIndex)
      ensures r.abs == abs
      ensures r.Rel2() == (value & 0xFF) as int
      ensures r.Rel1() == Rel1() && r.Rel3() == Rel3() && r.Rel4() == Rel4()
      ensures r.Rel5() == Rel5() && r.Rel6() == Rel6() && r.Rel7() == Rel7()
    {
      RankIndex(abs, (rel & !(0xFF << 7)) | ((value & 0xFF) << 7))
    }

    /** `set_rel3(value)`: only the field at bits [15,23) changes. */
    function SetRel3(value: bv64): (r: RankIndex)
      ensures r.abs == abs
      ensures r.Rel3() == (value & 0xFF) as int
      ensures r.Rel1() == Rel1() && r.Rel2() == Rel2() && r.Rel4() == Rel4()
      ensures r.Rel5() == Rel5() && r.Rel6() == Rel6() && r.Rel7() == Rel7()
    {
      RankIndex(abs, (rel & !(0xFF << 15)) | ((value & 0xFF) << 15))
    }

    /** `set_rel4(value)`: only the field at bits [23,32) changes. */
    function SetRel4(value: bv64): (r: RankIndex)
      ensures r.abs == abs
      ensures r.Rel4() == (value & 0x1FF) as int
      ensures r.Rel1() == Rel1() && r.Rel2() == Rel2() && r.Rel3() == Rel3()
      ensures r.Rel5() == Rel5() && r.Rel6() == Rel6() && r.Rel7() == Rel7()
    {
      RankIndex(abs, (rel & !(0x1FF << 23)) | ((value & 0x1FF) << 23))
    }

    /** `set_rel5(value)`: only the field at bits [32,41) changes. */
    function SetRel5(value: bv64): (r: RankIndex)
      ensures r.abs == abs
      ensures r.Rel5() == (value & 0x1FF) as int
      ensures r.Rel1() == Rel1() && r.Rel2() == Rel2() && r.Rel3() == Rel3()
      ensures r.Rel4() == Rel4() && r.Rel6() == Rel6() && r.Rel7() == Rel7()
    {
      RankIndex(abs, (rel & !(0x1FF << 32)) | ((value & 0x1FF) << 32))
    }

    /** `set_rel6(value)`: only the field at bits [41,50) changes. */
    function SetRel6(value: bv64): (r: RankIndex)
      ensures r.abs == abs
      ensures r.Rel6() == (value & 0x1FF) as int
      ensures r.Rel1() == Rel1() && r.Rel2() == Rel2() && r.Rel3() == Rel3()
      ensures r.Rel4() == Rel4() && r.Rel5() == Rel5() && r.Rel7() == Rel7()
    {
      RankIndex(abs, (rel & !(0x1FF << 41)) | ((value & 0x1FF) << 41))
    }

    /** `set_rel7(value)`: only the field at bits [50,59) changes. */
    function SetRel7(value: bv64): (r: RankIndex)
      ensures r.abs == abs
      ensures r.Rel7() == (value & 0x1FF) as int
      ensures r.Rel1() == Rel1() && r.Rel2() == Rel2() && r.Rel3() == Rel3()
      ensures r.Rel4() == Rel4() && r.Rel5() == Rel5() && r.Rel6() == Rel6()
    {
      RankIndex(abs, (rel & !(0x1FF << 50)) | ((value & 0x1FF) << 50))
    }

    /** `set_relK(value)` for the `K` chosen by `build`'s switch. The
        value is cut to the field's width, so a value below the width limit
        reads back unchanged; every other field is kept. */
    function SetRel(k: nat, value: bv64): (r: RankIndex)
      requires 1 <= k < 8
      ensures r.abs == abs
      ensures Stores(r, k, value) && Keeps(this, r, k)
    {
      match k
      case 1 => SetsField1(this, value); SetRel1(value)
      case 2 => SetsField2(this, value); SetRel2(value)
      case 3 => SetsField3(this, value); SetRel3(value)
      case 4 => SetsField4(this, value); SetRel4(value)
      case 5 => SetsField5(this, value); SetRel5(value)
      case 6 => SetsField6(this, value); SetRel6(value)
      case _ => SetsField7(this, value); SetRel7(value)
    }
  }

  /** Field `k` of `r` reads `value` back whenever `value` fits the field. */
  predicate Stores(r: RankIndex, k: nat, value: bv64)
    requires 1 <= k < 8
  {
    value as int < FieldLimit(k) ==> r.Rel(k) == value as int
  }

  /** `r` has the absolute count and every relative count but the `k`th of `e`. */
  predicate Keeps(e: RankIndex, r: RankIndex, k: nat)
  {
    r.abs == e.abs && forall j | 1 <= j < 8 && j != k :: r.Rel(j) == e.Rel(j)
  }

  /** What `SetRel` keeps and changes, one field at a time. */
  lemma SetsField1(e: RankIndex, value: bv64)
    ensures Stores(e.SetRel1(value), 1, value) && Keeps(e, e.SetRel1(value), 1)
  {
    Fits7(value);
  }

  lemma SetsField2(e: RankIndex, value: bv64)
    ensures Stores(e.SetRel2(value), 2, value) && Keeps(e, e.SetRel2(value), 2)
  {
    Fits8(value);
  }

  lemma SetsField3(e: RankIndex, value: bv64)
    ensures Stores(e.SetRel3(value), 3, value) && Keeps(e, e.SetRel3(value), 3)
  {
    Fits8(value);
  }

  lemma SetsField4(e: RankIndex, value: bv64)
    ensures Stores(e.SetRel4(value), 4, value) && Keeps(e, e.SetRel4(value), 4)
  {
    Fits9(value);
  }

  lemma SetsField5(e: RankIndex, value: bv64)
    ensures Stores(e.SetRel5(value), 5, value) && Keeps(e, e.SetRel5(value), 5)
  {
    Fits9(value);
  }

  lemma SetsField6(e: RankIndex, value: bv64)
    ensures Stores(e.SetRel6(value), 6, value) && Keeps(e, e.SetRel6(value), 6)
  {
    Fits9(value);
  }

  lemma SetsField7(e: RankIndex, value: bv64)
    ensures Stores(e.SetRel7(value), 7, value) && Keeps(e, e.SetRel7(value), 7)
  {
    Fits9(value);
  }

  /** The number of values field `relK` can hold: widths 7, 8, 8, 9, 9, 9, 9. */
  function FieldLimit(k: nat): nat
    requires 1 <= k < 8
  {
    if k == 1 then 128 else if k <= 3 then 256 else 512
  }

  /** A value below a field's size survives the field's mask. */
  lemma Fits7(value: bv64)
    ensures value as int < 128 ==> (value & 0x7F) as int == value as int
  {
    if value as int < 128 {
      assert value < 128;
    }
  }

  lemma Fits8(value: bv64)
    ensures value as int < 256 ==> (value & 0xFF) as int == value as int
  {
    if value as int < 256 {
      assert value < 256;
    }
  }

  lemma Fits9(value: bv64)
    ensures value as int < 512 ==> (value & 0x1FF) as int == value as int
  {
    if value as int < 512 {
      assert value < 512;
    }
  }

  /** The default constructor: every count is zero. */
  function Empty(): (r: RankIndex)
    ensures r.Valid() && r.Abs() == 0
    ensures forall k | 0 <= k < 8 :: r.Rel(k) == 0
  {
    RankIndex(0, 0)
  }
}
