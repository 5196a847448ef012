/** Base point multiplication by two signed combs: every one of the 256 bits of
    the recoded scalar is used once, as +1 or -1 with its own weight. */
module Comb {
  import opened Arith
  import opened Words
  import opened Bits
  import opened Group
  import opened ScalarL
  import opened Curve

  // ---- one column of teeth -----------------------------------------------------------

  /** The signed weight of four bits, 32 positions apart. */
  function Teeth(b0: int, b1: int, b2: int, b3: int): int
  {
    Sign(b0) + Sign(b1) * W32N + Sign(b2) * W64N + Sign(b3) * W96N
  }

  /** The table index lookup_add derives: the three low teeth, complemented when
      the top tooth is clear. */
  function TableIndex(teeth: int): (j: int)
    ensures 0 <= j < 8
  {
    if teeth / 8 == 1 then teeth % 8 else (-teeth - 1) % 8
  }

  predicate IsBit(b: int)
  {
    b == 0 || b == 1
  }

  lemma ThreeBits(b0: int, b1: int, b2: int)
    requires IsBit(b0) && IsBit(b1) && IsBit(b2)
    ensures CombWeight(b0 + 2 * b1 + 4 * b2) == W96N + Sign(b2) * W64N + Sign(b1) * W32N + Sign(b0)
  {
    var t := b0 + 2 * b1 + 4 * b2;
    assert t % 2 == b0 && t / 2 == b1 + 2 * b2 && t / 4 == b2;
  }

  /** With the sign of the top tooth, the table holds every column's weight. */
  lemma TableCoversTeeth(b0: int, b1: int, b2: int, b3: int)
    requires IsBit(b0) && IsBit(b1) && IsBit(b2) && IsBit(b3)
    ensures var teeth := b0 + 2 * b1 + 4 * b2 + 8 * b3;
            Teeth(b0, b1, b2, b3) == Sign(teeth / 8) * CombWeight(TableIndex(teeth))
  {
    hide CombWeight;
    var t := b0 + 2 * b1 + 4 * b2;
    if b3 == 1 {
      assert TableIndex(t + 8) == t;
      ThreeBits(b0, b1, b2);
    } else {
      assert TableIndex(t) == 7 - t;
      ThreeBits(1 - b0, 1 - b1, 1 - b2);
    }
  }

  /** Weight of the four bits of s at i, i+32, i+64 and i+96. */
  function Column(s: seq<u8>, i: nat): int
    requires |s| == 32 && i + 96 < 256
  {
    Teeth(ScalarBit(s, i), ScalarBit(s, i + 32), ScalarBit(s, i + 64), ScalarBit(s, i + 96))
  }

  /** lookup_add: adds the table's multiple for the column at i, where the table
      holds scale times the comb weights. */
  method LookupAdd<T(!new)>(g: Group<T>, p: T, comb: seq<T>, scalar: seq<u8>, i: nat,
                            ghost n: int, ghost scale: int, ghost base: T)
    returns (q: T)
    requires Abelian(g) && |comb| == 8 && |scalar| == 32 && i + 96 < 256
    requires forall j :: 0 <= j < 8 ==> comb[j] == Times(g, scale * CombWeight(j), base)
    requires p == Times(g, n, base)
    ensures q == Times(g, n + scale * Column(scalar, i), base)
  {
    hide Abelian, Times, ScalarBit, CombWeight, Teeth;
    var b0, b1 := ScalarBit(scalar, i), ScalarBit(scalar, i + 32);
    var b2, b3 := ScalarBit(scalar, i + 64), ScalarBit(scalar, i + 96);
    var teeth := b0 + 2 * b1 + 4 * b2 + 8 * b3;
    var high := teeth / 8;
    var index := TableIndex(teeth);
    TableCoversTeeth(b0, b1, b2, b3);
    var select := comb[0];
    for j := 0 to 8
      invariant index < j ==> select == comb[index]
    {
      if j == index {
        select := comb[j];
      }
    }
    ghost var w := scale * CombWeight(index);
    Negated(scale, CombWeight(index));
    if high == 0 {
      TimesNegate(g, w, base);
      select := g.neg(select);
    }
    TimesAdd(g, n, scale * Column(scalar, i), base);
    q := g.add(p, select);
  }

  lemma Negated(scale: int, w: int)
    ensures scale * (Sign(0) * w) == -(scale * w) && scale * (Sign(1) * w) == scale * w
  {
  }

  // ---- all rows -----------------------------------------------------------------------

  /** Limb k of the scalar shifted right by i, in all-bits-set form. */
  function LimbShare(limb: nat, i: nat): int
    requires i <= 32
  {
    2 * (limb / Pow2(i)) - (Pow2(32 - i) - 1)
  }

  /** Both combs at row i. */
  function Row(s: seq<u8>, i: nat): int
    requires |s| == 32 && i < 32
  {
    Column(s, i) + W128N * Column(s, i + 128)
  }

  /** What the double-and-add loop has accumulated after rows 31 down to i. */
  function Rows(s: seq<u8>, i: nat): int
    requires |s| == 32 && i <= 32
    decreases 32 - i
  {
    if i == 32 then 0 else 2 * Rows(s, i + 1) + Row(s, i)
  }

  /** The same, limb by limb. */
  function Shares(l: seq<u32>, i: nat): int
    requires |l| == 8 && i <= 32
  {
    LimbShare(l[0], i) + W32N * LimbShare(l[1], i) + W64N * LimbShare(l[2], i) + W96N * LimbShare(l[3], i)
    + W128N * (LimbShare(l[4], i) + W32N * LimbShare(l[5], i) + W64N * LimbShare(l[6], i) + W96N * LimbShare(l[7], i))
  }

  /** A bit of the scalar is a bit of one of its limbs. */
  lemma BitOfLimb(s: seq<u8>, k: nat, i: nat)
    requires |s| == 32 && k < 8 && i < 32
    ensures ScalarBit(s, i + 32 * k) == Bit(LoadLimbs(s)[k], i)
  {
    hide Bit, Load32;
    var w := s[4 * k..4 * k + 4];
    LoadLimbAt(s, k);
    ScalarBitIsBit(w, i);
    Val8Cons4(w);
    assert w[..4] == w && w[4..] == [];
    assert (i + 32 * k) / 8 == i / 8 + 4 * k && (i + 32 * k) % 8 == i % 8;
    assert w[i / 8] == s[4 * k + i / 8];
  }

  /** One more row doubles a limb's share and adds its signed bit. */
  lemma ShareStep(limb: nat, i: nat)
    requires i < 32
    ensures LimbShare(limb, i) == 2 * LimbShare(limb, i + 1) + Sign(Bit(limb, i))
  {
    hide Bit;
    ShiftBit(limb, i);
    assert 32 - i == (32 - (i + 1)) + 1;
    Pow2Step(32 - (i + 1));
  }

  lemma Pow2Step(k: nat)
    ensures Pow2(k + 1) == 2 * Pow2(k)
  {
  }

  lemma ColumnIs(s: seq<u8>, k: nat, i: nat)
    requires |s| == 32 && i < 32 && (k == 0 || k == 4)
    ensures Column(s, i + 32 * k) == (var l := LoadLimbs(s);
              Teeth(Bit(l[k], i), Bit(l[k + 1], i), Bit(l[k + 2], i), Bit(l[k + 3], i)))
  {
    hide Bit, ScalarBit, LoadLimbs, Teeth;
    BitOfLimb(s, k, i);
    BitOfLimb(s, k + 1, i);
    BitOfLimb(s, k + 2, i);
    BitOfLimb(s, k + 3, i);
  }

  lemma {:induction false} RowsAreShares(s: seq<u8>, i: nat)
    requires |s| == 32 && i <= 32
    ensures Rows(s, i) == Shares(LoadLimbs(s), i)
    decreases 32 - i
  {
    hide Bit, ScalarBit, LoadLimbs, Shares, Teeth, Column;
    var l := LoadLimbs(s);
    if i == 32 {
      EmptyShares(l);
    } else {
      RowsAreShares(s, i + 1);
      ColumnIs(s, 0, i);
      ColumnIs(s, 4, i);
      SharesStep(l, i);
    }
  }

  /** One more row doubles all shares and adds the signed column of every limb. */
  lemma SharesStep(l: seq<u32>, i: nat)
    requires |l| == 8 && i < 32
    ensures Shares(l, i) == 2 * Shares(l, i + 1) + Teeth(Bit(l[0], i), Bit(l[1], i), Bit(l[2], i), Bit(l[3], i))
                            + W128N * Teeth(Bit(l[4], i), Bit(l[5], i), Bit(l[6], i), Bit(l[7], i))
  {
    hide Bit, LimbShare;
    ShareStep(l[0], i);
    ShareStep(l[1], i);
    ShareStep(l[2], i);
    ShareStep(l[3], i);
    ShareStep(l[4], i);
    ShareStep(l[5], i);
    ShareStep(l[6], i);
    ShareStep(l[7], i);
  }

  lemma Powers32()
    ensures Pow2(32) == B32 && Pow2(0) == 1
  {
    Pow2Eight();
    Pow2Add(8, 8);
    Pow2Add(16, 16);
  }

  lemma EmptyShares(l: seq<u32>)
    requires |l| == 8
    ensures Shares(l, 32) == 0
  {
    hide Pow2;
    Powers32();
    forall k | 0 <= k < 8
      ensures LimbShare(l[k], 32) == 0
    {
      NoShare(l[k], Pow2(32));
    }
  }

  lemma NoShare(x: nat, p: int)
    requires x < B32 == p
    ensures x / p == 0
  {
  }

  lemma FullShare(x: nat)
    ensures LimbShare(x, 0) == 2 * x - (B32 - 1)
  {
    Powers32();
  }

  /** The combs compute the all-bits-set reading of the scalar: 2s - (2^256 - 1). */
  lemma RowsTotal(s: seq<u8>)
    requires |s| == 32
    ensures Rows(s, 0) == 2 * Val8(s) - (W256 - 1)
  {
    hide LoadLimbs, LimbShare, Val8, Rows;
    RowsAreShares(s, 0);
    var l := LoadLimbs(s);
    LoadLimbsVal(s);
    Val32Of8(l);
    FullShare(l[0]);
    FullShare(l[1]);
    FullShare(l[2]);
    FullShare(l[3]);
    FullShare(l[4]);
    FullShare(l[5]);
    FullShare(l[6]);
    FullShare(l[7]);
  }

  // ---- ge_scalarmult_base --------------------------------------------------------------

  const HALF: int := 0x08000000000000000000000000000000_0a6f7cef517bce6b_2c09318d2e7ae9f7
  const HALF_ONES: int := 0x07ffffffffffffffffffffffffffffff_6377adfa39bee7b8_6b7618ba46cc4a8e

  /** 1/2 modulo L and (2^256 - 1)/2 modulo L. */
  const HALF_MOD_L: seq<u8> := StoreLimbs([
    0x2e7ae9f7, 0x2c09318d, 0x517bce6b, 0x0a6f7cef, 0, 0, 0, 0x08000000])
  const HALF_ONES_MOD_L: seq<u8> := StoreLimbs([
    0x46cc4a8e, 0x6b7618ba, 0x39bee7b8, 0x6377adfa, 0xffffffff, 0xffffffff, 0xffffffff, 0x07ffffff])

  lemma Halves()
    ensures |HALF_MOD_L| == 32 && Val8(HALF_MOD_L) == HALF
    ensures 2 * HALF == 1 + L
  {
    hide Val8, Val32;
    StoreLimbsVal([0x2e7ae9f7, 0x2c09318d, 0x517bce6b, 0x0a6f7cef, 0, 0, 0, 0x08000000]);
    Val32Of8([0x2e7ae9f7, 0x2c09318d, 0x517bce6b, 0x0a6f7cef, 0, 0, 0, 0x08000000]);
  }

  lemma HalfOnes()
    ensures |HALF_ONES_MOD_L| == 32 && Val8(HALF_ONES_MOD_L) == HALF_ONES
    ensures 2 * HALF_ONES == W256 - 1 - 15 * L
  {
    hide Val8, Val32;
    StoreLimbsVal([0x46cc4a8e, 0x6b7618ba, 0x39bee7b8, 0x6377adfa, 0xffffffff, 0xffffffff, 0xffffffff, 0x07ffffff]);
    Val32Of8([0x46cc4a8e, 0x6b7618ba, 0x39bee7b8, 0x6377adfa, 0xffffffff, 0xffffffff, 0xffffffff, 0x07ffffff]);
  }

  lemma RecodedInts(v: int, s: int, h: int, ho: int, ones: int, l: int, q: int)
    requires 2 * h == 1 + l && 2 * ho == ones - 15 * l && s == v * h + ho - q * l
    ensures 2 * s - ones == v + (v - 15 - 2 * q) * l
  {
    calc {
      2 * s - ones;
      2 * (v * h) + 2 * ho - 2 * (q * l) - ones;
      { assert 2 * (v * h) == v * (2 * h); }
      v * (1 + l) - 15 * l - 2 * (q * l);
    }
  }

  /** The recoded scalar reads back as the scalar modulo L. */
  lemma RecodedScalar(v: int, s: int) returns (k: int)
    requires s == (v * HALF + HALF_ONES) % L
    ensures 2 * s - (W256 - 1) == v + k * L
  {
    hide StoreLimbs, Val8;
    Halves();
    HalfOnes();
    var q := (v * HALF + HALF_ONES) / L;
    RecodedInts(v, s, HALF, HALF_ONES, W256 - 1, L, q);
    k := v - 15 - 2 * q;
  }

  /** ge_scalarmult_base: the multiple of the base point, for any 32-byte scalar. */
  method ScalarmultBase<T(!new)>(c: Curve<T>, scalar: seq<u8>) returns (p: T)
    requires Lawful(c) && |scalar| == 32
    ensures p == Times(c.g, Val8(scalar), c.base)
  {
    hide Abelian, Lawful, TablesLawful, Times, Val8, Column, StoreLimbs, CombWeight, Rows;
    GroupPart(c);
    HalfOnes();
    Halves();
    var s := EddsaMulAdd(scalar, HALF_MOD_L, HALF_ONES_MOD_L);
    p := c.g.zero;
    TimesZero(c.g, c.base);
    RowsStart(s);
    for i := 32 downto 0
      invariant p == Times(c.g, Rows(s, i), c.base)
    {
      RowsNext(s, i);
      if i < 31 {
        TimesAdd(c.g, Rows(s, i + 1), Rows(s, i + 1), c.base);
        p := c.g.add(p, p);
      } else {
        RowsStart(s);
      }
      TablesPart(c);
      CombTables(c);
      ghost var n := 2 * Rows(s, i + 1);
      p := LookupAdd(c.g, p, c.combLow, s, i, n, 1, c.base);
      p := LookupAdd(c.g, p, c.combHigh, s, i + 128, n + Column(s, i), W128N, c.base);
    }
    RowsTotal(s);
    ghost var k := RecodedScalar(Val8(scalar), Val8(s));
    TimesOrder(c.g, L, k, Rows(s, 0), Val8(scalar), c.base);
  }

  lemma CombTables<T(!new)>(c: Curve<T>)
    requires TablesLawful(c)
    ensures |c.combLow| == 8 && (forall j :: 0 <= j < 8 ==> c.combLow[j] == Times(c.g, 1 * CombWeight(j), c.base))
    ensures |c.combHigh| == 8 && (forall j :: 0 <= j < 8 ==> c.combHigh[j] == Times(c.g, W128N * CombWeight(j), c.base))
  {
    hide CombWeight, Times;
  }

  lemma RowsStart(s: seq<u8>)
    requires |s| == 32
    ensures Rows(s, 32) == 0
  {
  }

  lemma RowsNext(s: seq<u8>, i: nat)
    requires |s| == 32 && i < 32
    ensures Rows(s, i) == 2 * Rows(s, i + 1) + Column(s, i) + W128N * Column(s, i + 128)
  {
  }
}
