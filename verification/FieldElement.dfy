/** Elements of the field of integers modulo p = 2^255 - 19, held in ten signed
    limbs of alternately 26 and 25 bits. */
module FieldElement {
  import opened Arith
  import opened Words

  const P: int := 0x7fffffffffffffff_ffffffffffffffff_ffffffffffffffff_ffffffffffffffed

  datatype Fe = Fe(f0: i32, f1: i32, f2: i32, f3: i32, f4: i32, f5: i32, f6: i32, f7: i32, f8: i32, f9: i32)

  /** The ten 64-bit sums a product leaves before carrying. */
  datatype Columns = Columns(t0: i64, t1: i64, t2: i64, t3: i64, t4: i64, t5: i64, t6: i64, t7: i64, t8: i64, t9: i64)

  /** The number that limbs k and up stand for: radix 2^26 below an even limb, 2^25
      below an odd one. */
  function Mixed(t: seq<int>, k: nat): int
    decreases |t| - k
  {
    if k >= |t| then 0 else t[k] + (if k % 2 == 0 then 0x400_0000 else 0x200_0000) * Mixed(t, k + 1)
  }

  /** The number the limbs of an element stand for. */
  function Value(h: Fe): int
  {
    Mixed([h.f0, h.f1, h.f2, h.f3, h.f4, h.f5, h.f6, h.f7, h.f8, h.f9], 0)
  }

  function ColumnsValue(c: Columns): int
  {
    Mixed([c.t0, c.t1, c.t2, c.t3, c.t4, c.t5, c.t6, c.t7, c.t8, c.t9], 0)
  }

  /** The same number as a weighted sum. */
  function Weigh(a0: int, a1: int, a2: int, a3: int, a4: int, a5: int, a6: int, a7: int, a8: int, a9: int): int
  {
    a0 + 0x4000000 * a1 + 0x8000000000000 * a2 + 0x20000000000000000000 * a3 + 0x40000000000000000000000000 * a4
        + 0x100000000000000000000000000000000 * a5 + 0x200000000000000000000000000000000000000 * a6
        + 0x800000000000000000000000000000000000000000000 * a7
        + 0x1000000000000000000000000000000000000000000000000000 * a8
        + 0x4000000000000000000000000000000000000000000000000000000000 * a9
  }

  lemma MixedIs(a0: int, a1: int, a2: int, a3: int, a4: int, a5: int, a6: int, a7: int, a8: int, a9: int)
    ensures Mixed([a0, a1, a2, a3, a4, a5, a6, a7, a8, a9], 0) == Weigh(a0, a1, a2, a3, a4, a5, a6, a7, a8, a9)
  {
    var t := [a0, a1, a2, a3, a4, a5, a6, a7, a8, a9];
    assert Mixed(t, 10) == 0;
    assert Mixed(t, 9) == a9;
    assert Mixed(t, 8) == a8 + 0x400_0000 * Mixed(t, 9);
    assert Mixed(t, 7) == a7 + 0x200_0000 * Mixed(t, 8);
    assert Mixed(t, 6) == a6 + 0x400_0000 * Mixed(t, 7);
    assert Mixed(t, 5) == a5 + 0x200_0000 * Mixed(t, 6);
    assert Mixed(t, 4) == a4 + 0x400_0000 * Mixed(t, 5);
    assert Mixed(t, 3) == a3 + 0x200_0000 * Mixed(t, 4);
    assert Mixed(t, 2) == a2 + 0x400_0000 * Mixed(t, 3);
    assert Mixed(t, 1) == a1 + 0x200_0000 * Mixed(t, 2);
  }

  lemma ValueIs(h: Fe)
    ensures Value(h) == Weigh(h.f0, h.f1, h.f2, h.f3, h.f4, h.f5, h.f6, h.f7, h.f8, h.f9)
  {
    MixedIs(h.f0, h.f1, h.f2, h.f3, h.f4, h.f5, h.f6, h.f7, h.f8, h.f9);
  }

  lemma ColumnsIs(c: Columns)
    ensures ColumnsValue(c) == Weigh(c.t0, c.t1, c.t2, c.t3, c.t4, c.t5, c.t6, c.t7, c.t8, c.t9)
  {
    MixedIs(c.t0, c.t1, c.t2, c.t3, c.t4, c.t5, c.t6, c.t7, c.t8, c.t9);
  }

  /** The field element the limbs stand for: the canonical residue. */
  function Residue(h: Fe): int
  {
    Value(h) % P
  }

  predicate Within(h: Fe, even: int, odd: int)
  {
    && -even <= h.f0 <= even && -odd <= h.f1 <= odd
    && -even <= h.f2 <= even && -odd <= h.f3 <= odd
    && -even <= h.f4 <= even && -odd <= h.f5 <= odd
    && -even <= h.f6 <= even && -odd <= h.f7 <= odd
    && -even <= h.f8 <= even && -odd <= h.f9 <= odd
  }

  /** Below 1.1 * 2^25 and 1.1 * 2^24: what a carry leaves. */
  predicate Tight(h: Fe)
  {
    Within(h, 36909875, 18454937)
  }

  /** Below 1.65 * 2^26 and 1.65 * 2^25: what a multiplication accepts. */
  predicate Loose(h: Fe)
  {
    Within(h, 110729625, 55364812)
  }

  // ---- carrying ---------------------------------------------------------------

  /** The input range of FE_CARRY.  The rounding constant is added to t0 before
      anything else, so t0 itself must leave room for it. */
  predicate Carriable(c: Columns)
  {
    && -0x7fff_ffff_ffff_ffff <= c.t0 <= 0x7fff_ffff_fdff_ffff
    && -0x4000_0000_0000_0000 < c.t1 < 0x4000_0000_0000_0000
    && -0x4000_0000_0000_0000 < c.t2 < 0x4000_0000_0000_0000
    && -0x4000_0000_0000_0000 < c.t3 < 0x4000_0000_0000_0000
    && -0x4000_0000_0000_0000 < c.t4 < 0x4000_0000_0000_0000
    && -0x4000_0000_0000_0000 < c.t5 < 0x4000_0000_0000_0000
    && -0x4000_0000_0000_0000 < c.t6 < 0x4000_0000_0000_0000
    && -0x4000_0000_0000_0000 < c.t7 < 0x4000_0000_0000_0000
    && -0x4000_0000_0000_0000 < c.t8 < 0x4000_0000_0000_0000
    && -0x4000_0000_0000_0000 < c.t9 < 0x4000_0000_0000_0000
  }

  /** Below 2^63 in absolute value is not enough: the rounding constant fits exactly up
      to that bound, and 2^63 - 1 is past it. */
  lemma RoundingFits(t0: int)
    requires -0x8000_0000_0000_0000 < t0 < 0x8000_0000_0000_0000
    ensures -0x8000_0000_0000_0000 <= t0 + 0x200_0000 < 0x8000_0000_0000_0000 <==> t0 <= 0x7fff_ffff_fdff_ffff
    ensures t0 == 0x7fff_ffff_ffff_ffff ==> t0 + 0x200_0000 >= 0x8000_0000_0000_0000
  {
  }

  /** Rounded quotient by 2^26: the carry out of an even limb. */
  function Carry26(t: i64): (c: i64)
    requires t < 0x7fff_ffff_fe00_0000
    ensures -0x200_0000 <= t - c * 0x400_0000 < 0x200_0000
  {
    (t + 0x200_0000) / 0x400_0000
  }

  /** Rounded quotient by 2^25: the carry out of an odd limb. */
  function Carry25(t: i64): (c: i64)
    requires t < 0x7fff_ffff_ff00_0000
    ensures -0x100_0000 <= t - c * 0x200_0000 < 0x100_0000
  {
    (t + 0x100_0000) / 0x200_0000
  }

  /** The first six steps of FE_CARRY, out of limbs 0, 4, 1, 5, 2 and 6. */
  function CarriedHalf(t: Columns): (u: Columns)
    requires Carriable(t)
    ensures ColumnsValue(u) == ColumnsValue(t)
    ensures HalfCarried(u)
  {
    var c: i64 := Carry26(t.t0);  var t0: i64 := t.t0 - c * 0x400_0000;  var t1: i64 := t.t1 + c;
    var c: i64 := Carry26(t.t4);  var t4: i64 := t.t4 - c * 0x400_0000;  var t5: i64 := t.t5 + c;
    var c: i64 := Carry25(t1);  var t1: i64 := t1 - c * 0x200_0000;  var t2: i64 := t.t2 + c;
    var c: i64 := Carry25(t5);  var t5: i64 := t5 - c * 0x200_0000;  var t6: i64 := t.t6 + c;
    var c: i64 := Carry26(t2);  var t2: i64 := t2 - c * 0x400_0000;  var t3: i64 := t.t3 + c;
    var c: i64 := Carry26(t6);  var t6: i64 := t6 - c * 0x400_0000;  var t7: i64 := t.t7 + c;
    var u := Columns(t0, t1, t2, t3, t4, t5, t6, t7, t.t8, t.t9);
    ColumnsIs(t); ColumnsIs(u);
    u
  }

  predicate HalfCarried(u: Columns)
  {
    && -0x200_0000 <= u.t0 <= 0x200_0000 && -0x100_0000 <= u.t1 <= 0x100_0000
    && -0x200_0000 <= u.t2 <= 0x200_0000 && -0x5000_0000_0000_0000 < u.t3 < 0x5000_0000_0000_0000
    && -0x200_0000 <= u.t4 <= 0x200_0000 && -0x100_0000 <= u.t5 <= 0x100_0000
    && -0x200_0000 <= u.t6 <= 0x200_0000 && -0x5000_0000_0000_0000 < u.t7 < 0x5000_0000_0000_0000
    && -0x4000_0000_0000_0000 < u.t8 < 0x4000_0000_0000_0000
    && -0x4000_0000_0000_0000 < u.t9 < 0x4000_0000_0000_0000
  }

  /** The last six steps, out of limbs 3, 7, 4, 8, 9 and 0, with the multiple of
      p that the wrap from limb 9 to limb 0 takes away. */
  function CarriedRest(t: Columns): (r: (Fe, i64))
    requires HalfCarried(t)
    ensures Tight(r.0)
    ensures Value(r.0) == ColumnsValue(t) - r.1 * P
  {
    var c: i64 := Carry25(t.t3);  var t3: i64 := t.t3 - c * 0x200_0000;  var t4: i64 := t.t4 + c;
    var c: i64 := Carry25(t.t7);  var t7: i64 := t.t7 - c * 0x200_0000;  var t8: i64 := t.t8 + c;
    var c: i64 := Carry26(t4);  var t4: i64 := t4 - c * 0x400_0000;  var t5: i64 := t.t5 + c;
    var c: i64 := Carry26(t8);  var t8: i64 := t8 - c * 0x400_0000;  var t9: i64 := t.t9 + c;
    var k: i64 := Carry25(t9);  var t9: i64 := t9 - k * 0x200_0000;  var t0: i64 := t.t0 + k * 19;
    var c: i64 := Carry26(t0);  var t0: i64 := t0 - c * 0x400_0000;  var t1: i64 := t.t1 + c;
    var h := Fe(t0, t1, t.t2, t3, t4, t5, t.t6, t7, t8, t9);
    ColumnsIs(t); ValueIs(h);
    (h, k)
  }

  /** FE_CARRY: the number modulo p is kept and every limb ends up small. */
  function Carried(t: Columns): (h: Fe)
    requires Carriable(t)
    ensures Tight(h)
    ensures Residue(h) == ColumnsValue(t) % P
  {
    var (h, k) := CarriedRest(CarriedHalf(t));
    ModEq(Value(h), ColumnsValue(t), -k, P);
    h
  }
}
