/** Multiplication and squaring of field elements, column by column. */
module FieldMul {
  import opened Arith
  import opened Words
  import opened FieldElement

  const EVEN_BOUND: int := 110729625

  /** One product of a column, in 64 bits. */
  function Product(x: i32, y: i32): (r: i64)
    requires -EVEN_BOUND <= x <= EVEN_BOUND && -(19 * EVEN_BOUND) <= y <= 19 * EVEN_BOUND
    ensures r == x * y
    ensures -(19 * EVEN_BOUND * EVEN_BOUND) <= r <= 19 * EVEN_BOUND * EVEN_BOUND
  {
    AbsMulBound(x, y, EVEN_BOUND, 19 * EVEN_BOUND);
    x * y
  }

  /** A column: ten products summed from left to right.  Every partial sum is
      typed as a 64-bit integer, so none of them overflows. */
  function Column(x0: i32, y0: i32, x1: i32, y1: i32, x2: i32, y2: i32, x3: i32, y3: i32, x4: i32, y4: i32, x5: i32,
      y5: i32, x6: i32, y6: i32, x7: i32, y7: i32, x8: i32, y8: i32, x9: i32, y9: i32): (r: i64)
    requires -EVEN_BOUND <= x0 <= EVEN_BOUND && -(19 * EVEN_BOUND) <= y0 <= 19 * EVEN_BOUND
    requires -EVEN_BOUND <= x1 <= EVEN_BOUND && -(19 * EVEN_BOUND) <= y1 <= 19 * EVEN_BOUND
    requires -EVEN_BOUND <= x2 <= EVEN_BOUND && -(19 * EVEN_BOUND) <= y2 <= 19 * EVEN_BOUND
    requires -EVEN_BOUND <= x3 <= EVEN_BOUND && -(19 * EVEN_BOUND) <= y3 <= 19 * EVEN_BOUND
    requires -EVEN_BOUND <= x4 <= EVEN_BOUND && -(19 * EVEN_BOUND) <= y4 <= 19 * EVEN_BOUND
    requires -EVEN_BOUND <= x5 <= EVEN_BOUND && -(19 * EVEN_BOUND) <= y5 <= 19 * EVEN_BOUND
    requires -EVEN_BOUND <= x6 <= EVEN_BOUND && -(19 * EVEN_BOUND) <= y6 <= 19 * EVEN_BOUND
    requires -EVEN_BOUND <= x7 <= EVEN_BOUND && -(19 * EVEN_BOUND) <= y7 <= 19 * EVEN_BOUND
    requires -EVEN_BOUND <= x8 <= EVEN_BOUND && -(19 * EVEN_BOUND) <= y8 <= 19 * EVEN_BOUND
    requires -EVEN_BOUND <= x9 <= EVEN_BOUND && -(19 * EVEN_BOUND) <= y9 <= 19 * EVEN_BOUND
    ensures -(190 * EVEN_BOUND * EVEN_BOUND) <= r <= 190 * EVEN_BOUND * EVEN_BOUND
    ensures r == x0 * y0 + x1 * y1 + x2 * y2 + x3 * y3 + x4 * y4 + x5 * y5 + x6 * y6 + x7 * y7 + x8 * y8 + x9 * y9
  {
    var s0: i64 := Product(x0, y0);
    var s1: i64 := s0 + Product(x1, y1);
    var s2: i64 := s1 + Product(x2, y2);
    var s3: i64 := s2 + Product(x3, y3);
    var s4: i64 := s3 + Product(x4, y4);
    var s5: i64 := s4 + Product(x5, y5);
    var s6: i64 := s5 + Product(x6, y6);
    var s7: i64 := s6 + Product(x7, y7);
    var s8: i64 := s7 + Product(x8, y8);
    var s9: i64 := s8 + Product(x9, y9);
    s9
  }

  /** The ten sums fe_mul computes, from f with its odd limbs doubled where two
      odd limbs meet and g times 19 where the weights wrap past 2^255. */
  function MulColumns(f: Fe, g: Fe): (c: Columns)
    requires Loose(f) && Loose(g)
    ensures Carriable(c)
  {
    Columns(MulColumn0(f, g), MulColumn1(f, g), MulColumn2(f, g), MulColumn3(f, g), MulColumn4(f, g), MulColumn5(f,
        g), MulColumn6(f, g), MulColumn7(f, g), MulColumn8(f, g), MulColumn9(f, g))
  }

  function MulColumn0(f: Fe, g: Fe): (t: i64)
    requires Loose(f) && Loose(g)
    ensures -(190 * EVEN_BOUND * EVEN_BOUND) <= t <= 190 * EVEN_BOUND * EVEN_BOUND
    ensures t == (f.f0 * g.f0) + 38 * (f.f1 * g.f9) + 19 * (f.f2 * g.f8) + 38 * (f.f3 * g.f7) + 19 * (f.f4 * g.f6)
        + 38 * (f.f5 * g.f5) + 19 * (f.f6 * g.f4) + 38 * (f.f7 * g.f3) + 19 * (f.f8 * g.f2) + 38 * (f.f9 * g.f1)
  {
    var F1: i32 := f.f1 * 2;
    var F3: i32 := f.f3 * 2;
    var F5: i32 := f.f5 * 2;
    var F7: i32 := f.f7 * 2;
    var F9: i32 := f.f9 * 2;
    var G9: i32 := g.f9 * 19;
    var G8: i32 := g.f8 * 19;
    var G7: i32 := g.f7 * 19;
    var G6: i32 := g.f6 * 19;
    var G5: i32 := g.f5 * 19;
    var G4: i32 := g.f4 * 19;
    var G3: i32 := g.f3 * 19;
    var G2: i32 := g.f2 * 19;
    var G1: i32 := g.f1 * 19;
    Column(f.f0, g.f0, F1, G9, f.f2, G8, F3, G7, f.f4, G6, F5, G5, f.f6, G4, F7, G3, f.f8, G2, F9, G1)
  }

  function MulColumn1(f: Fe, g: Fe): (t: i64)
    requires Loose(f) && Loose(g)
    ensures -(190 * EVEN_BOUND * EVEN_BOUND) <= t <= 190 * EVEN_BOUND * EVEN_BOUND
    ensures t == (f.f0 * g.f1) + (f.f1 * g.f0) + 19 * (f.f2 * g.f9) + 19 * (f.f3 * g.f8) + 19 * (f.f4 * g.f7)
        + 19 * (f.f5 * g.f6) + 19 * (f.f6 * g.f5) + 19 * (f.f7 * g.f4) + 19 * (f.f8 * g.f3) + 19 * (f.f9 * g.f2)
  {
    var G9: i32 := g.f9 * 19;
    var G8: i32 := g.f8 * 19;
    var G7: i32 := g.f7 * 19;
    var G6: i32 := g.f6 * 19;
    var G5: i32 := g.f5 * 19;
    var G4: i32 := g.f4 * 19;
    var G3: i32 := g.f3 * 19;
    var G2: i32 := g.f2 * 19;
    Column(f.f0, g.f1, f.f1, g.f0, f.f2, G9, f.f3, G8, f.f4, G7, f.f5, G6, f.f6, G5, f.f7, G4, f.f8, G3, f.f9, G2)
  }

  function MulColumn2(f: Fe, g: Fe): (t: i64)
    requires Loose(f) && Loose(g)
    ensures -(190 * EVEN_BOUND * EVEN_BOUND) <= t <= 190 * EVEN_BOUND * EVEN_BOUND
    ensures t == (f.f0 * g.f2) + 2 * (f.f1 * g.f1) + (f.f2 * g.f0) + 38 * (f.f3 * g.f9) + 19 * (f.f4 * g.f8)
        + 38 * (f.f5 * g.f7) + 19 * (f.f6 * g.f6) + 38 * (f.f7 * g.f5) + 19 * (f.f8 * g.f4) + 38 * (f.f9 * g.f3)
  {
    var F1: i32 := f.f1 * 2;
    var F3: i32 := f.f3 * 2;
    var F5: i32 := f.f5 * 2;
    var F7: i32 := f.f7 * 2;
    var F9: i32 := f.f9 * 2;
    var G9: i32 := g.f9 * 19;
    var G8: i32 := g.f8 * 19;
    var G7: i32 := g.f7 * 19;
    var G6: i32 := g.f6 * 19;
    var G5: i32 := g.f5 * 19;
    var G4: i32 := g.f4 * 19;
    var G3: i32 := g.f3 * 19;
    Column(f.f0, g.f2, F1, g.f1, f.f2, g.f0, F3, G9, f.f4, G8, F5, G7, f.f6, G6, F7, G5, f.f8, G4, F9, G3)
  }

  function MulColumn3(f: Fe, g: Fe): (t: i64)
    requires Loose(f) && Loose(g)
    ensures -(190 * EVEN_BOUND * EVEN_BOUND) <= t <= 190 * EVEN_BOUND * EVEN_BOUND
    ensures t == (f.f0 * g.f3) + (f.f1 * g.f2) + (f.f2 * g.f1) + (f.f3 * g.f0) + 19 * (f.f4 * g.f9)
        + 19 * (f.f5 * g.f8) + 19 * (f.f6 * g.f7) + 19 * (f.f7 * g.f6) + 19 * (f.f8 * g.f5) + 19 * (f.f9 * g.f4)
  {
    var G9: i32 := g.f9 * 19;
    var G8: i32 := g.f8 * 19;
    var G7: i32 := g.f7 * 19;
    var G6: i32 := g.f6 * 19;
    var G5: i32 := g.f5 * 19;
    var G4: i32 := g.f4 * 19;
    Column(f.f0, g.f3, f.f1, g.f2, f.f2, g.f1, f.f3, g.f0, f.f4, G9, f.f5, G8, f.f6, G7, f.f7, G6, f.f8, G5, f.f9, G4)
  }

  function MulColumn4(f: Fe, g: Fe): (t: i64)
    requires Loose(f) && Loose(g)
    ensures -(190 * EVEN_BOUND * EVEN_BOUND) <= t <= 190 * EVEN_BOUND * EVEN_BOUND
    ensures t == (f.f0 * g.f4) + 2 * (f.f1 * g.f3) + (f.f2 * g.f2) + 2 * (f.f3 * g.f1) + (f.f4 * g.f0)
        + 38 * (f.f5 * g.f9) + 19 * (f.f6 * g.f8) + 38 * (f.f7 * g.f7) + 19 * (f.f8 * g.f6) + 38 * (f.f9 * g.f5)
  {
    var F1: i32 := f.f1 * 2;
    var F3: i32 := f.f3 * 2;
    var F5: i32 := f.f5 * 2;
    var F7: i32 := f.f7 * 2;
    var F9: i32 := f.f9 * 2;
    var G9: i32 := g.f9 * 19;
    var G8: i32 := g.f8 * 19;
    var G7: i32 := g.f7 * 19;
    var G6: i32 := g.f6 * 19;
    var G5: i32 := g.f5 * 19;
    Column(f.f0, g.f4, F1, g.f3, f.f2, g.f2, F3, g.f1, f.f4, g.f0, F5, G9, f.f6, G8, F7, G7, f.f8, G6, F9, G5)
  }

  function MulColumn5(f: Fe, g: Fe): (t: i64)
    requires Loose(f) && Loose(g)
    ensures -(190 * EVEN_BOUND * EVEN_BOUND) <= t <= 190 * EVEN_BOUND * EVEN_BOUND
    ensures t == (f.f0 * g.f5) + (f.f1 * g.f4) + (f.f2 * g.f3) + (f.f3 * g.f2) + (f.f4 * g.f1) + (f.f5 * g.f0)
        + 19 * (f.f6 * g.f9) + 19 * (f.f7 * g.f8) + 19 * (f.f8 * g.f7) + 19 * (f.f9 * g.f6)
  {
    var G9: i32 := g.f9 * 19;
    var G8: i32 := g.f8 * 19;
    var G7: i32 := g.f7 * 19;
    var G6: i32 := g.f6 * 19;
    Column(f.f0, g.f5, f.f1, g.f4, f.f2, g.f3, f.f3, g.f2, f.f4, g.f1, f.f5, g.f0, f.f6, G9, f.f7, G8, f.f8, G7, f.f9,
        G6)
  }

  function MulColumn6(f: Fe, g: Fe): (t: i64)
    requires Loose(f) && Loose(g)
    ensures -(190 * EVEN_BOUND * EVEN_BOUND) <= t <= 190 * EVEN_BOUND * EVEN_BOUND
    ensures t == (f.f0 * g.f6) + 2 * (f.f1 * g.f5) + (f.f2 * g.f4) + 2 * (f.f3 * g.f3) + (f.f4 * g.f2)
        + 2 * (f.f5 * g.f1) + (f.f6 * g.f0) + 38 * (f.f7 * g.f9) + 19 * (f.f8 * g.f8) + 38 * (f.f9 * g.f7)
  {
    var F1: i32 := f.f1 * 2;
    var F3: i32 := f.f3 * 2;
    var F5: i32 := f.f5 * 2;
    var F7: i32 := f.f7 * 2;
    var F9: i32 := f.f9 * 2;
    var G9: i32 := g.f9 * 19;
    var G8: i32 := g.f8 * 19;
    var G7: i32 := g.f7 * 19;
    Column(f.f0, g.f6, F1, g.f5, f.f2, g.f4, F3, g.f3, f.f4, g.f2, F5, g.f1, f.f6, g.f0, F7, G9, f.f8, G8, F9, G7)
  }

  function MulColumn7(f: Fe, g: Fe): (t: i64)
    requires Loose(f) && Loose(g)
    ensures -(190 * EVEN_BOUND * EVEN_BOUND) <= t <= 190 * EVEN_BOUND * EVEN_BOUND
    ensures t == (f.f0 * g.f7) + (f.f1 * g.f6) + (f.f2 * g.f5) + (f.f3 * g.f4) + (f.f4 * g.f3) + (f.f5 * g.f2)
        + (f.f6 * g.f1) + (f.f7 * g.f0) + 19 * (f.f8 * g.f9) + 19 * (f.f9 * g.f8)
  {
    var G9: i32 := g.f9 * 19;
    var G8: i32 := g.f8 * 19;
    Column(f.f0, g.f7, f.f1, g.f6, f.f2, g.f5, f.f3, g.f4, f.f4, g.f3, f.f5, g.f2, f.f6, g.f1, f.f7, g.f0, f.f8, G9,
        f.f9, G8)
  }

  function MulColumn8(f: Fe, g: Fe): (t: i64)
    requires Loose(f) && Loose(g)
    ensures -(190 * EVEN_BOUND * EVEN_BOUND) <= t <= 190 * EVEN_BOUND * EVEN_BOUND
    ensures t == (f.f0 * g.f8) + 2 * (f.f1 * g.f7) + (f.f2 * g.f6) + 2 * (f.f3 * g.f5) + (f.f4 * g.f4)
        + 2 * (f.f5 * g.f3) + (f.f6 * g.f2) + 2 * (f.f7 * g.f1) + (f.f8 * g.f0) + 38 * (f.f9 * g.f9)
  {
    var F1: i32 := f.f1 * 2;
    var F3: i32 := f.f3 * 2;
    var F5: i32 := f.f5 * 2;
    var F7: i32 := f.f7 * 2;
    var F9: i32 := f.f9 * 2;
    var G9: i32 := g.f9 * 19;
    Column(f.f0, g.f8, F1, g.f7, f.f2, g.f6, F3, g.f5, f.f4, g.f4, F5, g.f3, f.f6, g.f2, F7, g.f1, f.f8, g.f0, F9, G9)
  }

  function MulColumn9(f: Fe, g: Fe): (t: i64)
    requires Loose(f) && Loose(g)
    ensures -(190 * EVEN_BOUND * EVEN_BOUND) <= t <= 190 * EVEN_BOUND * EVEN_BOUND
    ensures t == (f.f0 * g.f9) + (f.f1 * g.f8) + (f.f2 * g.f7) + (f.f3 * g.f6) + (f.f4 * g.f5) + (f.f5 * g.f4)
        + (f.f6 * g.f3) + (f.f7 * g.f2) + (f.f8 * g.f1) + (f.f9 * g.f0)
  {
    Column(f.f0, g.f9, f.f1, g.f8, f.f2, g.f7, f.f3, g.f6, f.f4, g.f5, f.f5, g.f4, f.f6, g.f3, f.f7, g.f2, f.f8, g.f1,
        f.f9, g.f0)
  }

  // ---- value of a product -------------------------------------------------------

  /** Limb 0 of f times all of g: its share of every column, modulo p. */
  lemma Row0(x: int, g: Fe) returns (q: int)
    ensures (0x1 * x) * Value(g) == x * g.f0 + 0x4000000 * (x * g.f1) + 0x8000000000000 * (x * g.f2)
        + 0x20000000000000000000 * (x * g.f3) + 0x40000000000000000000000000 * (x * g.f4)
        + 0x100000000000000000000000000000000 * (x * g.f5) + 0x200000000000000000000000000000000000000 * (x * g.f6)
        + 0x800000000000000000000000000000000000000000000 * (x * g.f7)
        + 0x1000000000000000000000000000000000000000000000000000 * (x * g.f8)
        + 0x4000000000000000000000000000000000000000000000000000000000 * (x * g.f9) + q * P
  {
    q := 0;
    LimbTimes(x, g);
    assert (0x1 * x) * Value(g) == 0x1 * (x * Value(g));
  }

  /** Limb 1 of f times all of g: its share of every column, modulo p. */
  lemma Row1(x: int, g: Fe) returns (q: int)
    ensures (0x4000000 * x) * Value(g) == 0x4000000 * (x * g.f0) + 0x10000000000000 * (x * g.f1)
        + 0x20000000000000000000 * (x * g.f2) + 0x80000000000000000000000000 * (x * g.f3)
        + 0x100000000000000000000000000000000 * (x * g.f4) + 0x400000000000000000000000000000000000000 * (x * g.f5)
        + 0x800000000000000000000000000000000000000000000 * (x * g.f6)
        + 0x2000000000000000000000000000000000000000000000000000 * (x * g.f7)
        + 0x4000000000000000000000000000000000000000000000000000000000 * (x * g.f8) + 0x26 * (x * g.f9) + q * P
  {
    q := 0x2 * (x * g.f9);
    LimbTimes(x, g);
    assert (0x4000000 * x) * Value(g) == 0x4000000 * (x * Value(g));
  }

  /** Limb 2 of f times all of g: its share of every column, modulo p. */
  lemma Row2(x: int, g: Fe) returns (q: int)
    ensures (0x8000000000000 * x) * Value(g) == 0x8000000000000 * (x * g.f0) + 0x20000000000000000000 * (x * g.f1)
        + 0x40000000000000000000000000 * (x * g.f2) + 0x100000000000000000000000000000000 * (x * g.f3)
        + 0x200000000000000000000000000000000000000 * (x * g.f4)
        + 0x800000000000000000000000000000000000000000000 * (x * g.f5)
        + 0x1000000000000000000000000000000000000000000000000000 * (x * g.f6)
        + 0x4000000000000000000000000000000000000000000000000000000000 * (x * g.f7) + 0x13 * (x * g.f8)
        + 0x4c000000 * (x * g.f9) + q * P
  {
    q := x * g.f8 + 0x4000000 * (x * g.f9);
    LimbTimes(x, g);
    assert (0x8000000000000 * x) * Value(g) == 0x8000000000000 * (x * Value(g));
  }

  /** Limb 3 of f times all of g: its share of every column, modulo p. */
  lemma Row3(x: int, g: Fe) returns (q: int)
    ensures (0x20000000000000000000 * x) * Value(g) == 0x20000000000000000000 * (x * g.f0)
        + 0x80000000000000000000000000 * (x * g.f1) + 0x100000000000000000000000000000000 * (x * g.f2)
        + 0x400000000000000000000000000000000000000 * (x * g.f3)
        + 0x800000000000000000000000000000000000000000000 * (x * g.f4)
        + 0x2000000000000000000000000000000000000000000000000000 * (x * g.f5)
        + 0x4000000000000000000000000000000000000000000000000000000000 * (x * g.f6) + 0x26 * (x * g.f7)
        + 0x4c000000 * (x * g.f8) + 0x130000000000000 * (x * g.f9) + q * P
  {
    q := 0x2 * (x * g.f7) + 0x4000000 * (x * g.f8) + 0x10000000000000 * (x * g.f9);
    LimbTimes(x, g);
    assert (0x20000000000000000000 * x) * Value(g) == 0x20000000000000000000 * (x * Value(g));
  }

  /** Limb 4 of f times all of g: its share of every column, modulo p. */
  lemma Row4(x: int, g: Fe) returns (q: int)
    ensures (0x40000000000000000000000000 * x) * Value(g) == 0x40000000000000000000000000 * (x * g.f0)
        + 0x100000000000000000000000000000000 * (x * g.f1) + 0x200000000000000000000000000000000000000 * (x * g.f2)
        + 0x800000000000000000000000000000000000000000000 * (x * g.f3)
        + 0x1000000000000000000000000000000000000000000000000000 * (x * g.f4)
        + 0x4000000000000000000000000000000000000000000000000000000000 * (x * g.f5) + 0x13 * (x * g.f6)
        + 0x4c000000 * (x * g.f7) + 0x98000000000000 * (x * g.f8) + 0x260000000000000000000 * (x * g.f9) + q * P
  {
    q := x * g.f6 + 0x4000000 * (x * g.f7) + 0x8000000000000 * (x * g.f8) + 0x20000000000000000000 * (x * g.f9);
    LimbTimes(x, g);
    assert (0x40000000000000000000000000 * x) * Value(g) == 0x40000000000000000000000000 * (x * Value(g));
  }

  /** Limb 5 of f times all of g: its share of every column, modulo p. */
  lemma Row5(x: int, g: Fe) returns (q: int)
    ensures (0x100000000000000000000000000000000 * x) * Value(g) == 0x100000000000000000000000000000000 * (x * g.f0)
        + 0x400000000000000000000000000000000000000 * (x * g.f1)
        + 0x800000000000000000000000000000000000000000000 * (x * g.f2)
        + 0x2000000000000000000000000000000000000000000000000000 * (x * g.f3)
        + 0x4000000000000000000000000000000000000000000000000000000000 * (x * g.f4) + 0x26 * (x * g.f5)
        + 0x4c000000 * (x * g.f6) + 0x130000000000000 * (x * g.f7) + 0x260000000000000000000 * (x * g.f8)
        + 0x980000000000000000000000000 * (x * g.f9) + q * P
  {
    q := 0x2 * (x * g.f5) + 0x4000000 * (x * g.f6) + 0x10000000000000 * (x * g.f7)
        + 0x20000000000000000000 * (x * g.f8) + 0x80000000000000000000000000 * (x * g.f9);
    LimbTimes(x, g);
    assert (0x100000000000000000000000000000000 * x) * Value(g) == 0x100000000000000000000000000000000 * (x * Value(g));
  }

  /** Limb 6 of f times all of g: its share of every column, modulo p. */
  lemma Row6(x: int, g: Fe) returns (q: int)
    ensures (0x200000000000000000000000000000000000000 * x) * Value(g) ==
        0x200000000000000000000000000000000000000 * (x * g.f0)
        + 0x800000000000000000000000000000000000000000000 * (x * g.f1)
        + 0x1000000000000000000000000000000000000000000000000000 * (x * g.f2)
        + 0x4000000000000000000000000000000000000000000000000000000000 * (x * g.f3) + 0x13 * (x * g.f4)
        + 0x4c000000 * (x * g.f5) + 0x98000000000000 * (x * g.f6) + 0x260000000000000000000 * (x * g.f7)
        + 0x4c0000000000000000000000000 * (x * g.f8) + 0x1300000000000000000000000000000000 * (x * g.f9) + q * P
  {
    q := x * g.f4 + 0x4000000 * (x * g.f5) + 0x8000000000000 * (x * g.f6) + 0x20000000000000000000 * (x * g.f7)
        + 0x40000000000000000000000000 * (x * g.f8) + 0x100000000000000000000000000000000 * (x * g.f9);
    LimbTimes(x, g);
    assert (0x200000000000000000000000000000000000000 * x) * Value(g) ==
        0x200000000000000000000000000000000000000 * (x * Value(g));
  }

  /** Limb 7 of f times all of g: its share of every column, modulo p. */
  lemma Row7(x: int, g: Fe) returns (q: int)
    ensures (0x800000000000000000000000000000000000000000000 * x) * Value(g) ==
        0x800000000000000000000000000000000000000000000 * (x * g.f0)
        + 0x2000000000000000000000000000000000000000000000000000 * (x * g.f1)
        + 0x4000000000000000000000000000000000000000000000000000000000 * (x * g.f2) + 0x26 * (x * g.f3)
        + 0x4c000000 * (x * g.f4) + 0x130000000000000 * (x * g.f5) + 0x260000000000000000000 * (x * g.f6)
        + 0x980000000000000000000000000 * (x * g.f7) + 0x1300000000000000000000000000000000 * (x * g.f8)
        + 0x4c00000000000000000000000000000000000000 * (x * g.f9) + q * P
  {
    q := 0x2 * (x * g.f3) + 0x4000000 * (x * g.f4) + 0x10000000000000 * (x * g.f5)
        + 0x20000000000000000000 * (x * g.f6) + 0x80000000000000000000000000 * (x * g.f7)
        + 0x100000000000000000000000000000000 * (x * g.f8) + 0x400000000000000000000000000000000000000 * (x * g.f9);
    LimbTimes(x, g);
    assert (0x800000000000000000000000000000000000000000000 * x) * Value(g) ==
        0x800000000000000000000000000000000000000000000 * (x * Value(g));
  }

  /** Limb 8 of f times all of g: its share of every column, modulo p. */
  lemma Row8(x: int, g: Fe) returns (q: int)
    ensures (0x1000000000000000000000000000000000000000000000000000 * x) * Value(g) ==
        0x1000000000000000000000000000000000000000000000000000 * (x * g.f0)
        + 0x4000000000000000000000000000000000000000000000000000000000 * (x * g.f1) + 0x13 * (x * g.f2)
        + 0x4c000000 * (x * g.f3) + 0x98000000000000 * (x * g.f4) + 0x260000000000000000000 * (x * g.f5)
        + 0x4c0000000000000000000000000 * (x * g.f6) + 0x1300000000000000000000000000000000 * (x * g.f7)
        + 0x2600000000000000000000000000000000000000 * (x * g.f8)
        + 0x9800000000000000000000000000000000000000000000 * (x * g.f9) + q * P
  {
    q := x * g.f2 + 0x4000000 * (x * g.f3) + 0x8000000000000 * (x * g.f4) + 0x20000000000000000000 * (x * g.f5)
        + 0x40000000000000000000000000 * (x * g.f6) + 0x100000000000000000000000000000000 * (x * g.f7)
        + 0x200000000000000000000000000000000000000 * (x * g.f8)
        + 0x800000000000000000000000000000000000000000000 * (x * g.f9);
    LimbTimes(x, g);
    assert (0x1000000000000000000000000000000000000000000000000000 * x) * Value(g) ==
        0x1000000000000000000000000000000000000000000000000000 * (x * Value(g));
  }

  /** Limb 9 of f times all of g: its share of every column, modulo p. */
  lemma Row9(x: int, g: Fe) returns (q: int)
    ensures (0x4000000000000000000000000000000000000000000000000000000000 * x) * Value(g) ==
        0x4000000000000000000000000000000000000000000000000000000000 * (x * g.f0) + 0x26 * (x * g.f1)
        + 0x4c000000 * (x * g.f2) + 0x130000000000000 * (x * g.f3) + 0x260000000000000000000 * (x * g.f4)
        + 0x980000000000000000000000000 * (x * g.f5) + 0x1300000000000000000000000000000000 * (x * g.f6)
        + 0x4c00000000000000000000000000000000000000 * (x * g.f7)
        + 0x9800000000000000000000000000000000000000000000 * (x * g.f8)
        + 0x26000000000000000000000000000000000000000000000000000 * (x * g.f9) + q * P
  {
    q := 0x2 * (x * g.f1) + 0x4000000 * (x * g.f2) + 0x10000000000000 * (x * g.f3)
        + 0x20000000000000000000 * (x * g.f4) + 0x80000000000000000000000000 * (x * g.f5)
        + 0x100000000000000000000000000000000 * (x * g.f6) + 0x400000000000000000000000000000000000000 * (x * g.f7)
        + 0x800000000000000000000000000000000000000000000 * (x * g.f8)
        + 0x2000000000000000000000000000000000000000000000000000 * (x * g.f9);
    LimbTimes(x, g);
    assert (0x4000000000000000000000000000000000000000000000000000000000 * x) * Value(g) ==
        0x4000000000000000000000000000000000000000000000000000000000 * (x * Value(g));
  }

  lemma LimbTimes(x: int, g: Fe)
    ensures x * Value(g) == Weigh(x * g.f0, x * g.f1, x * g.f2, x * g.f3, x * g.f4, x * g.f5, x * g.f6, x * g.f7,
        x * g.f8, x * g.f9)
  {
    hide Value;
    ValueIs(g);
  }

  function LowColumns(f: Fe, g: Fe): int
  {
    Weigh((f.f0 * g.f0) + 38 * (f.f1 * g.f9) + 19 * (f.f2 * g.f8) + 38 * (f.f3 * g.f7) + 19 * (f.f4 * g.f6),
                         (f.f0 * g.f1) + (f.f1 * g.f0) + 19 * (f.f2 * g.f9) + 19 * (f.f3 * g.f8) + 19 * (f.f4 * g.f7),
                         (f.f0 * g.f2) + 2 * (f.f1 * g.f1) + (f.f2 * g.f0) + 38 * (f.f3 * g.f9) + 19 * (f.f4 * g.f8),
                         (f.f0 * g.f3) + (f.f1 * g.f2) + (f.f2 * g.f1) + (f.f3 * g.f0) + 19 * (f.f4 * g.f9),
                         (f.f0 * g.f4) + 2 * (f.f1 * g.f3) + (f.f2 * g.f2) + 2 * (f.f3 * g.f1) + (f.f4 * g.f0),
                         (f.f0 * g.f5) + (f.f1 * g.f4) + (f.f2 * g.f3) + (f.f3 * g.f2) + (f.f4 * g.f1),
                         (f.f0 * g.f6) + 2 * (f.f1 * g.f5) + (f.f2 * g.f4) + 2 * (f.f3 * g.f3) + (f.f4 * g.f2),
                         (f.f0 * g.f7) + (f.f1 * g.f6) + (f.f2 * g.f5) + (f.f3 * g.f4) + (f.f4 * g.f3),
                         (f.f0 * g.f8) + 2 * (f.f1 * g.f7) + (f.f2 * g.f6) + 2 * (f.f3 * g.f5) + (f.f4 * g.f4),
                         (f.f0 * g.f9) + (f.f1 * g.f8) + (f.f2 * g.f7) + (f.f3 * g.f6) + (f.f4 * g.f5))
  }

  /** The first five limbs of f times g. */
  lemma LowRows(f: Fe, g: Fe, v: int) returns (q: int)
    requires v == Value(g)
    ensures Weigh(f.f0, f.f1, f.f2, f.f3, f.f4, 0, 0, 0, 0, 0) * v == LowColumns(f, g) + q * P
  {
    var q0 := Row0(f.f0, g);
    var q1 := Row1(f.f1, g);
    var q2 := Row2(f.f2, g);
    var q3 := Row3(f.f3, g);
    var q4 := Row4(f.f4, g);
    q := q0 + q1 + q2 + q3 + q4;
    LowSum(f, v);
  }

  lemma LowSum(f: Fe, v: int)
    ensures Weigh(f.f0, f.f1, f.f2, f.f3, f.f4, 0, 0, 0, 0, 0) * v == (0x1 * f.f0) * v + (0x4000000 * f.f1) * v
        + (0x8000000000000 * f.f2) * v + (0x20000000000000000000 * f.f3) * v + (0x40000000000000000000000000 * f.f4) * v
  {
  }

  function HighColumns(f: Fe, g: Fe): int
  {
    Weigh(38 * (f.f5 * g.f5) + 19 * (f.f6 * g.f4) + 38 * (f.f7 * g.f3) + 19 * (f.f8 * g.f2) + 38 * (f.f9 * g.f1),
                         19 * (f.f5 * g.f6) + 19 * (f.f6 * g.f5) + 19 * (f.f7 * g.f4) + 19 * (f.f8 * g.f3)
                             + 19 * (f.f9 * g.f2),
                         38 * (f.f5 * g.f7) + 19 * (f.f6 * g.f6) + 38 * (f.f7 * g.f5) + 19 * (f.f8 * g.f4)
                             + 38 * (f.f9 * g.f3),
                         19 * (f.f5 * g.f8) + 19 * (f.f6 * g.f7) + 19 * (f.f7 * g.f6) + 19 * (f.f8 * g.f5)
                             + 19 * (f.f9 * g.f4),
                         38 * (f.f5 * g.f9) + 19 * (f.f6 * g.f8) + 38 * (f.f7 * g.f7) + 19 * (f.f8 * g.f6)
                             + 38 * (f.f9 * g.f5),
                         (f.f5 * g.f0) + 19 * (f.f6 * g.f9) + 19 * (f.f7 * g.f8) + 19 * (f.f8 * g.f7)
                             + 19 * (f.f9 * g.f6),
                         2 * (f.f5 * g.f1) + (f.f6 * g.f0) + 38 * (f.f7 * g.f9) + 19 * (f.f8 * g.f8)
                             + 38 * (f.f9 * g.f7),
                         (f.f5 * g.f2) + (f.f6 * g.f1) + (f.f7 * g.f0) + 19 * (f.f8 * g.f9) + 19 * (f.f9 * g.f8),
                         2 * (f.f5 * g.f3) + (f.f6 * g.f2) + 2 * (f.f7 * g.f1) + (f.f8 * g.f0) + 38 * (f.f9 * g.f9),
                         (f.f5 * g.f4) + (f.f6 * g.f3) + (f.f7 * g.f2) + (f.f8 * g.f1) + (f.f9 * g.f0))
  }

  /** The last five limbs of f times g. */
  lemma HighRows(f: Fe, g: Fe, v: int) returns (q: int)
    requires v == Value(g)
    ensures Weigh(0, 0, 0, 0, 0, f.f5, f.f6, f.f7, f.f8, f.f9) * v == HighColumns(f, g) + q * P
  {
    var q5 := Row5(f.f5, g);
    var q6 := Row6(f.f6, g);
    var q7 := Row7(f.f7, g);
    var q8 := Row8(f.f8, g);
    var q9 := Row9(f.f9, g);
    q := q5 + q6 + q7 + q8 + q9;
    HighSum(f, v);
  }

  lemma HighSum(f: Fe, v: int)
    ensures Weigh(0, 0, 0, 0, 0, f.f5, f.f6, f.f7, f.f8, f.f9) * v == (0x100000000000000000000000000000000 * f.f5) * v
        + (0x200000000000000000000000000000000000000 * f.f6) * v
        + (0x800000000000000000000000000000000000000000000 * f.f7) * v
        + (0x1000000000000000000000000000000000000000000000000000 * f.f8) * v
        + (0x4000000000000000000000000000000000000000000000000000000000 * f.f9) * v
  {
  }

  lemma Halves(f: Fe, v: int)
    ensures Value(f) * v == Weigh(f.f0, f.f1, f.f2, f.f3, f.f4, 0, 0, 0, 0, 0) * v + Weigh(0, 0, 0, 0, 0, f.f5, f.f6,
        f.f7, f.f8, f.f9) * v
  {
    var a := Weigh(f.f0, f.f1, f.f2, f.f3, f.f4, 0, 0, 0, 0, 0);
    var b := Weigh(0, 0, 0, 0, 0, f.f5, f.f6, f.f7, f.f8, f.f9);
    ValueIs(f);
    assert Value(f) == a + b;
    Split(a, b, v);
  }

  lemma Split(a: int, b: int, v: int)
    ensures (a + b) * v == a * v + b * v
  {
  }

  lemma ColumnsSplit(f: Fe, g: Fe)
    requires Loose(f) && Loose(g)
    ensures ColumnsValue(MulColumns(f, g)) == LowColumns(f, g) + HighColumns(f, g)
  {
    ColumnsIs(MulColumns(f, g));
  }

  /** The columns stand for the product, up to a multiple of p. */
  lemma MulColumnsExact(f: Fe, g: Fe) returns (q: int)
    requires Loose(f) && Loose(g)
    ensures Value(f) * Value(g) == ColumnsValue(MulColumns(f, g)) + q * P
  {
    var q0 := LowRows(f, g, Value(g));
    var q1 := HighRows(f, g, Value(g));
    Halves(f, Value(g));
    ColumnsSplit(f, g);
    q := q0 + q1;
  }

  lemma MulColumnsValue(f: Fe, g: Fe)
    requires Loose(f) && Loose(g)
    ensures ColumnsValue(MulColumns(f, g)) % P == (Value(f) * Value(g)) % P
  {
    var q := MulColumnsExact(f, g);
    ModEq(Value(f) * Value(g), ColumnsValue(MulColumns(f, g)), q, P);
  }

  // ---- squaring -------------------------------------------------------------------

  /** One product of a squaring column, in 64 bits. */
  function SquareProduct(x: i32, y: i32): (r: i64)
    requires -(2 * EVEN_BOUND) <= x <= 2 * EVEN_BOUND && -(19 * EVEN_BOUND) <= y <= 19 * EVEN_BOUND
    ensures r == x * y
    ensures -(38 * EVEN_BOUND * EVEN_BOUND) <= r <= 38 * EVEN_BOUND * EVEN_BOUND
  {
    AbsMulBound(x, y, 2 * EVEN_BOUND, 19 * EVEN_BOUND);
    x * y
  }

  /** The ten sums fe_sq computes, each symmetric pair of products taken once. */
  function SqColumns(f: Fe): (c: Columns)
    requires Loose(f)
    ensures c == MulColumns(f, f)
  {
    Columns(SqColumn0(f), SqColumn1(f), SqColumn2(f), SqColumn3(f), SqColumn4(f), SqColumn5(f), SqColumn6(f),
        SqColumn7(f), SqColumn8(f), SqColumn9(f))
  }

  function SqColumn0(f: Fe): (t: i64)
    requires Loose(f)
    ensures t == (f.f0 * f.f0) + 76 * (f.f1 * f.f9) + 38 * (f.f2 * f.f8) + 76 * (f.f3 * f.f7) + 38 * (f.f4 * f.f6)
        + 38 * (f.f5 * f.f5)
  {
    var f1_2: i32 := f.f1 * 2;
    var f9_38: i32 := f.f9 * 38;
    var f2_2: i32 := f.f2 * 2;
    var f8_19: i32 := f.f8 * 19;
    var f3_2: i32 := f.f3 * 2;
    var f7_38: i32 := f.f7 * 38;
    var f4_2: i32 := f.f4 * 2;
    var f6_19: i32 := f.f6 * 19;
    var f5_38: i32 := f.f5 * 38;
    var s0: i64 := SquareProduct(f.f0, f.f0);
    var s1: i64 := s0 + SquareProduct(f1_2, f9_38);
    var s2: i64 := s1 + SquareProduct(f2_2, f8_19);
    var s3: i64 := s2 + SquareProduct(f3_2, f7_38);
    var s4: i64 := s3 + SquareProduct(f4_2, f6_19);
    var s5: i64 := s4 + SquareProduct(f.f5, f5_38);
    s5
  }

  function SqColumn1(f: Fe): (t: i64)
    requires Loose(f)
    ensures t == 2 * (f.f0 * f.f1) + 38 * (f.f2 * f.f9) + 38 * (f.f3 * f.f8) + 38 * (f.f4 * f.f7) + 38 * (f.f5 * f.f6)
  {
    var f0_2: i32 := f.f0 * 2;
    var f9_38: i32 := f.f9 * 38;
    var f3_2: i32 := f.f3 * 2;
    var f8_19: i32 := f.f8 * 19;
    var f7_38: i32 := f.f7 * 38;
    var f5_2: i32 := f.f5 * 2;
    var f6_19: i32 := f.f6 * 19;
    var s0: i64 := SquareProduct(f0_2, f.f1);
    var s1: i64 := s0 + SquareProduct(f.f2, f9_38);
    var s2: i64 := s1 + SquareProduct(f3_2, f8_19);
    var s3: i64 := s2 + SquareProduct(f.f4, f7_38);
    var s4: i64 := s3 + SquareProduct(f5_2, f6_19);
    s4
  }

  function SqColumn2(f: Fe): (t: i64)
    requires Loose(f)
    ensures t == 2 * (f.f0 * f.f2) + 2 * (f.f1 * f.f1) + 76 * (f.f3 * f.f9) + 38 * (f.f4 * f.f8) + 76 * (f.f5 * f.f7)
        + 19 * (f.f6 * f.f6)
  {
    var f0_2: i32 := f.f0 * 2;
    var f1_2: i32 := f.f1 * 2;
    var f3_2: i32 := f.f3 * 2;
    var f9_38: i32 := f.f9 * 38;
    var f4_2: i32 := f.f4 * 2;
    var f8_19: i32 := f.f8 * 19;
    var f5_2: i32 := f.f5 * 2;
    var f7_38: i32 := f.f7 * 38;
    var f6_19: i32 := f.f6 * 19;
    var s0: i64 := SquareProduct(f0_2, f.f2);
    var s1: i64 := s0 + SquareProduct(f1_2, f.f1);
    var s2: i64 := s1 + SquareProduct(f3_2, f9_38);
    var s3: i64 := s2 + SquareProduct(f4_2, f8_19);
    var s4: i64 := s3 + SquareProduct(f5_2, f7_38);
    var s5: i64 := s4 + SquareProduct(f.f6, f6_19);
    s5
  }

  function SqColumn3(f: Fe): (t: i64)
    requires Loose(f)
    ensures t == 2 * (f.f0 * f.f3) + 2 * (f.f1 * f.f2) + 38 * (f.f4 * f.f9) + 38 * (f.f5 * f.f8) + 38 * (f.f6 * f.f7)
  {
    var f0_2: i32 := f.f0 * 2;
    var f1_2: i32 := f.f1 * 2;
    var f9_38: i32 := f.f9 * 38;
    var f5_2: i32 := f.f5 * 2;
    var f8_19: i32 := f.f8 * 19;
    var f7_38: i32 := f.f7 * 38;
    var s0: i64 := SquareProduct(f0_2, f.f3);
    var s1: i64 := s0 + SquareProduct(f1_2, f.f2);
    var s2: i64 := s1 + SquareProduct(f.f4, f9_38);
    var s3: i64 := s2 + SquareProduct(f5_2, f8_19);
    var s4: i64 := s3 + SquareProduct(f.f6, f7_38);
    s4
  }

  function SqColumn4(f: Fe): (t: i64)
    requires Loose(f)
    ensures t == 2 * (f.f0 * f.f4) + 4 * (f.f1 * f.f3) + (f.f2 * f.f2) + 76 * (f.f5 * f.f9) + 38 * (f.f6 * f.f8)
        + 38 * (f.f7 * f.f7)
  {
    var f0_2: i32 := f.f0 * 2;
    var f1_2: i32 := f.f1 * 2;
    var f3_2: i32 := f.f3 * 2;
    var f5_2: i32 := f.f5 * 2;
    var f9_38: i32 := f.f9 * 38;
    var f6_2: i32 := f.f6 * 2;
    var f8_19: i32 := f.f8 * 19;
    var f7_38: i32 := f.f7 * 38;
    var s0: i64 := SquareProduct(f0_2, f.f4);
    var s1: i64 := s0 + SquareProduct(f1_2, f3_2);
    var s2: i64 := s1 + SquareProduct(f.f2, f.f2);
    var s3: i64 := s2 + SquareProduct(f5_2, f9_38);
    var s4: i64 := s3 + SquareProduct(f6_2, f8_19);
    var s5: i64 := s4 + SquareProduct(f.f7, f7_38);
    s5
  }

  function SqColumn5(f: Fe): (t: i64)
    requires Loose(f)
    ensures t == 2 * (f.f0 * f.f5) + 2 * (f.f1 * f.f4) + 2 * (f.f2 * f.f3) + 38 * (f.f6 * f.f9) + 38 * (f.f7 * f.f8)
  {
    var f0_2: i32 := f.f0 * 2;
    var f1_2: i32 := f.f1 * 2;
    var f2_2: i32 := f.f2 * 2;
    var f9_38: i32 := f.f9 * 38;
    var f7_2: i32 := f.f7 * 2;
    var f8_19: i32 := f.f8 * 19;
    var s0: i64 := SquareProduct(f0_2, f.f5);
    var s1: i64 := s0 + SquareProduct(f1_2, f.f4);
    var s2: i64 := s1 + SquareProduct(f2_2, f.f3);
    var s3: i64 := s2 + SquareProduct(f.f6, f9_38);
    var s4: i64 := s3 + SquareProduct(f7_2, f8_19);
    s4
  }

  function SqColumn6(f: Fe): (t: i64)
    requires Loose(f)
    ensures t == 2 * (f.f0 * f.f6) + 4 * (f.f1 * f.f5) + 2 * (f.f2 * f.f4) + 2 * (f.f3 * f.f3) + 76 * (f.f7 * f.f9)
        + 19 * (f.f8 * f.f8)
  {
    var f0_2: i32 := f.f0 * 2;
    var f1_2: i32 := f.f1 * 2;
    var f5_2: i32 := f.f5 * 2;
    var f2_2: i32 := f.f2 * 2;
    var f3_2: i32 := f.f3 * 2;
    var f7_2: i32 := f.f7 * 2;
    var f9_38: i32 := f.f9 * 38;
    var f8_19: i32 := f.f8 * 19;
    var s0: i64 := SquareProduct(f0_2, f.f6);
    var s1: i64 := s0 + SquareProduct(f1_2, f5_2);
    var s2: i64 := s1 + SquareProduct(f2_2, f.f4);
    var s3: i64 := s2 + SquareProduct(f3_2, f.f3);
    var s4: i64 := s3 + SquareProduct(f7_2, f9_38);
    var s5: i64 := s4 + SquareProduct(f.f8, f8_19);
    s5
  }

  function SqColumn7(f: Fe): (t: i64)
    requires Loose(f)
    ensures t == 2 * (f.f0 * f.f7) + 2 * (f.f1 * f.f6) + 2 * (f.f2 * f.f5) + 2 * (f.f3 * f.f4) + 38 * (f.f8 * f.f9)
  {
    var f0_2: i32 := f.f0 * 2;
    var f1_2: i32 := f.f1 * 2;
    var f2_2: i32 := f.f2 * 2;
    var f3_2: i32 := f.f3 * 2;
    var f9_38: i32 := f.f9 * 38;
    var s0: i64 := SquareProduct(f0_2, f.f7);
    var s1: i64 := s0 + SquareProduct(f1_2, f.f6);
    var s2: i64 := s1 + SquareProduct(f2_2, f.f5);
    var s3: i64 := s2 + SquareProduct(f3_2, f.f4);
    var s4: i64 := s3 + SquareProduct(f.f8, f9_38);
    s4
  }

  function SqColumn8(f: Fe): (t: i64)
    requires Loose(f)
    ensures t == 2 * (f.f0 * f.f8) + 4 * (f.f1 * f.f7) + 2 * (f.f2 * f.f6) + 4 * (f.f3 * f.f5) + (f.f4 * f.f4)
        + 38 * (f.f9 * f.f9)
  {
    var f0_2: i32 := f.f0 * 2;
    var f1_2: i32 := f.f1 * 2;
    var f7_2: i32 := f.f7 * 2;
    var f2_2: i32 := f.f2 * 2;
    var f3_2: i32 := f.f3 * 2;
    var f5_2: i32 := f.f5 * 2;
    var f9_38: i32 := f.f9 * 38;
    var s0: i64 := SquareProduct(f0_2, f.f8);
    var s1: i64 := s0 + SquareProduct(f1_2, f7_2);
    var s2: i64 := s1 + SquareProduct(f2_2, f.f6);
    var s3: i64 := s2 + SquareProduct(f3_2, f5_2);
    var s4: i64 := s3 + SquareProduct(f.f4, f.f4);
    var s5: i64 := s4 + SquareProduct(f.f9, f9_38);
    s5
  }

  function SqColumn9(f: Fe): (t: i64)
    requires Loose(f)
    ensures t == 2 * (f.f0 * f.f9) + 2 * (f.f1 * f.f8) + 2 * (f.f2 * f.f7) + 2 * (f.f3 * f.f6) + 2 * (f.f4 * f.f5)
  {
    var f0_2: i32 := f.f0 * 2;
    var f1_2: i32 := f.f1 * 2;
    var f2_2: i32 := f.f2 * 2;
    var f3_2: i32 := f.f3 * 2;
    var f5_2: i32 := f.f5 * 2;
    var s0: i64 := SquareProduct(f0_2, f.f9);
    var s1: i64 := s0 + SquareProduct(f1_2, f.f8);
    var s2: i64 := s1 + SquareProduct(f2_2, f.f7);
    var s3: i64 := s2 + SquareProduct(f3_2, f.f6);
    var s4: i64 := s3 + SquareProduct(f.f4, f5_2);
    s4
  }

  // ---- the routines ------------------------------------------------------------------

  function FAdd(a: int, b: int): int { (a + b) % P }

  function FSub(a: int, b: int): int { (a - b) % P }

  function FMul(a: int, b: int): int { (a * b) % P }

  lemma MulMod(a: int, b: int)
    ensures FMul(a % P, b % P) == (a * b) % P
  {
    ModMul(a % P, b % P, a, b, P);
  }

  lemma MulModSmall(a: int, g: int)
    ensures FMul(a % P, g) == (a * g) % P
  {
    ModMul(a % P, g, a, g, P);
  }

  lemma AddedResidue(a: int, b: int, c: int)
    requires c == a + b
    ensures c % P == FAdd(a % P, b % P)
  {
    ModAdd(a % P, b % P, a, b, P);
  }

  lemma SubtractedResidue(a: int, b: int, c: int)
    requires c == a - b
    ensures c % P == FSub(a % P, b % P)
  {
    ModSub(a % P, b % P, a, b, P);
  }

  /** fe_mul: the carried columns are the product of the residues. */
  lemma CarriedProduct(f: Fe, g: Fe)
    requires Loose(f) && Loose(g)
    ensures Residue(Carried(MulColumns(f, g))) == FMul(Residue(f), Residue(g))
  {
    MulColumnsValue(f, g);
    MulMod(Value(f), Value(g));
  }

  /** fe_mul. */
  method FeMul(f: Fe, g: Fe) returns (h: Fe)
    requires Loose(f) && Loose(g)
    ensures Tight(h) && Residue(h) == FMul(Residue(f), Residue(g))
  {
    h := Carried(MulColumns(f, g));
    CarriedProduct(f, g);
  }

  /** fe_sq. */
  method FeSq(f: Fe) returns (h: Fe)
    requires Loose(f)
    ensures Tight(h) && Residue(h) == FMul(Residue(f), Residue(f))
  {
    h := Carried(SqColumns(f));
    CarriedProduct(f, f);
  }

  /** fe_sq and fe_mul agree limb for limb, not just modulo p. */
  lemma SquareIsMultiply(f: Fe)
    requires Loose(f)
    ensures Carried(SqColumns(f)) == Carried(MulColumns(f, f))
  {
  }

  function SmallProduct(x: i32, g: i32): (r: i64)
    requires -EVEN_BOUND <= x <= EVEN_BOUND
    ensures r == x * g
    ensures -(EVEN_BOUND * 0x8000_0000) <= r <= EVEN_BOUND * 0x8000_0000
  {
    AbsMulBound(x, g, EVEN_BOUND, 0x8000_0000);
    x * g
  }

  function SmallColumns(f: Fe, g: i32): (c: Columns)
    requires Loose(f)
    ensures Carriable(c)
  {
    Columns(SmallProduct(f.f0, g), SmallProduct(f.f1, g), SmallProduct(f.f2, g), SmallProduct(f.f3, g),
        SmallProduct(f.f4, g), SmallProduct(f.f5, g), SmallProduct(f.f6, g), SmallProduct(f.f7, g), SmallProduct(f.f8,
        g), SmallProduct(f.f9, g))
  }

  lemma WeighTimes(f: Fe, g: int)
    ensures Weigh(f.f0 * g, f.f1 * g, f.f2 * g, f.f3 * g, f.f4 * g, f.f5 * g, f.f6 * g, f.f7 * g, f.f8 * g,
        f.f9 * g) == Value(f) * g
  {
    hide Value;
    ValueIs(f);
  }

  lemma SmallColumnsWeigh(f: Fe, g: i32)
    requires Loose(f)
    ensures ColumnsValue(SmallColumns(f, g)) == Weigh(f.f0 * g, f.f1 * g, f.f2 * g, f.f3 * g, f.f4 * g, f.f5 * g,
        f.f6 * g, f.f7 * g, f.f8 * g, f.f9 * g)
  {
    ColumnsIs(SmallColumns(f, g));
  }

  /** fe_mul_small, for any 32-bit factor. */
  method FeMulSmall(f: Fe, g: i32) returns (h: Fe)
    requires Loose(f)
    ensures Tight(h) && Residue(h) == FMul(Residue(f), g)
  {
    h := Carried(SmallColumns(f, g));
    SmallColumnsWeigh(f, g);
    WeighTimes(f, g);
    MulModSmall(Value(f), g);
  }

  /** fe_add: the sum of two tight elements may be multiplied at once. */
  method FeAdd(f: Fe, g: Fe) returns (h: Fe)
    requires Loose(f) && Loose(g)
    ensures Residue(h) == FAdd(Residue(f), Residue(g))
    ensures Tight(f) && Tight(g) ==> Loose(h)
  {
    h := Fe(f.f0 + g.f0, f.f1 + g.f1, f.f2 + g.f2, f.f3 + g.f3, f.f4 + g.f4, f.f5 + g.f5, f.f6 + g.f6, f.f7 + g.f7,
        f.f8 + g.f8, f.f9 + g.f9);
    ValueIs(f);
    ValueIs(g);
    ValueIs(h);
    AddedResidue(Value(f), Value(g), Value(h));
  }

  /** fe_sub. */
  method FeSub(f: Fe, g: Fe) returns (h: Fe)
    requires Loose(f) && Loose(g)
    ensures Residue(h) == FSub(Residue(f), Residue(g))
    ensures Tight(f) && Tight(g) ==> Loose(h)
  {
    h := Fe(f.f0 - g.f0, f.f1 - g.f1, f.f2 - g.f2, f.f3 - g.f3, f.f4 - g.f4, f.f5 - g.f5, f.f6 - g.f6, f.f7 - g.f7,
        f.f8 - g.f8, f.f9 - g.f9);
    ValueIs(f);
    ValueIs(g);
    ValueIs(h);
    SubtractedResidue(Value(f), Value(g), Value(h));
  }
}
