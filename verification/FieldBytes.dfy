/** Field elements to and from 32 bytes: decoding drops the top bit, encoding
    writes the unique representative in [0, p). */
module FieldBytes {
  import opened Arith
  import opened Words
  import opened Bits
  import opened FieldElement

  const W255: int := 0x8000000000000000_0000000000000000_0000000000000000_0000000000000000

  // ---- decoding ------------------------------------------------------------------

  function Load24(s: seq<u8>): (r: int)
    requires |s| == 3
    ensures 0 <= r < 0x100_0000
  {
    Join4(s[0], s[1], s[2], 0)
  }

  lemma Val8Cons3(s: seq<u8>)
    requires |s| >= 3
    ensures Val8(s) == Load24(s[..3]) + 0x100_0000 * Val8(s[3..])
  {
    var t1, t2, t3 := s[1..], s[2..], s[3..];
    assert t1[1..] == t2 && t2[1..] == t3;
    assert Val8(s) == s[0] + 0x100 * Val8(t1);
    assert Val8(t1) == s[1] + 0x100 * Val8(t2);
    assert Val8(t2) == s[2] + 0x100 * Val8(t3);
  }

  /** The columns fe_frombytes carries: byte groups shifted onto limb
      boundaries, the last one without its top bit. */
  function FromBytesColumns(s: seq<u8>): (c: Columns)
    requires |s| == 32
    ensures Carriable(c)
  {
    Columns(Load32(s[0..4]), Load24(s[4..7]) * 0x40, Load24(s[7..10]) * 0x20, Load24(s[10..13]) * 8,
            Load24(s[13..16]) * 4, Load32(s[16..20]), Load24(s[20..23]) * 0x80, Load24(s[23..26]) * 0x20,
            Load24(s[26..29]) * 0x10, (Load24(s[29..32]) % 0x80_0000) * 4)
  }

  /** The first five byte groups of a 32-byte string. */
  lemma LowGroups(s: seq<u8>)
    requires |s| == 32
    ensures Val8(s) == Load32(s[0..4]) + 0x1_0000_0000 * (Load24(s[4..7]) + 0x100_0000 * (Load24(s[7..10])
                     + 0x100_0000 * (Load24(s[10..13]) + 0x100_0000 * (Load24(s[13..16])
                         + 0x100_0000 * Val8(s[16..])))))
  {
    Val8Cons4(s);
    GroupAt(s, 4);
    GroupAt(s, 7);
    GroupAt(s, 10);
    GroupAt(s, 13);
  }

  /** The last five byte groups. */
  lemma HighGroups(s: seq<u8>)
    requires |s| == 32
    ensures Val8(s[16..]) == Load32(s[16..20]) + 0x1_0000_0000 * (Load24(s[20..23]) + 0x100_0000 * (Load24(s[23..26])
                     + 0x100_0000 * (Load24(s[26..29]) + 0x100_0000 * Load24(s[29..32]))))
  {
    Val8Cons4(s[16..]);
    assert s[16..][..4] == s[16..20] && s[16..][4..] == s[20..];
    GroupAt(s, 20);
    GroupAt(s, 23);
    GroupAt(s, 26);
    GroupAt(s, 29);
    assert Val8(s[32..]) == 0;
  }

  lemma GroupAt(s: seq<u8>, k: nat)
    requires k + 3 <= |s|
    ensures Val8(s[k..]) == Load24(s[k..k + 3]) + 0x100_0000 * Val8(s[k + 3..])
  {
    Val8Cons3(s[k..]);
    assert s[k..][..3] == s[k..k + 3] && s[k..][3..] == s[k + 3..];
  }

  lemma FromBytesValue(s: seq<u8>)
    requires |s| == 32
    ensures ColumnsValue(FromBytesColumns(s)) == Val8(s) % W255
  {
    hide ColumnsValue, Val8, Load24, Load32;
    LowGroups(s);
    HighGroups(s);
    ColumnsIs(FromBytesColumns(s));
    var top := Load24(s[29..32]) / 0x80_0000;
    DivModUnique(Val8(s), W255, top, ColumnsValue(FromBytesColumns(s)));
  }

  /** fe_frombytes. */
  method FeFromBytes(s: seq<u8>) returns (h: Fe)
    requires |s| == 32
    ensures Tight(h) && Residue(h) == (Val8(s) % W255) % P
  {
    h := Carried(FromBytesColumns(s));
    FromBytesValue(s);
  }

  // ---- prefixes of a limb sequence --------------------------------------------------

  function LimbBase(k: nat): (b: int)
    ensures b > 0
  {
    if k % 2 == 0 then 0x400_0000 else 0x200_0000
  }

  function LimbWeight(k: nat): (w: int)
    ensures w > 0
  {
    if k == 0 then 1 else LimbWeight(k - 1) * LimbBase(k - 1)
  }

  /** The number the first k limbs stand for. */
  function Prefix(t: seq<int>, k: nat): int
    requires k <= |t|
  {
    if k == 0 then 0 else Prefix(t, k - 1) + LimbWeight(k - 1) * t[k - 1]
  }

  function Limbs(h: Fe): seq<i32>
  {
    [h.f0, h.f1, h.f2, h.f3, h.f4, h.f5, h.f6, h.f7, h.f8, h.f9]
  }

  lemma Weights()
    ensures LimbWeight(1) == 0x400_0000 && LimbWeight(2) == 0x8_0000_0000_0000
    ensures LimbWeight(3) == 0x2000_0000_0000_0000_0000 && LimbWeight(4) == 0x40_0000_0000_0000_0000_0000_0000
    ensures LimbWeight(5) == 0x1_0000_0000_0000_0000_0000_0000_0000_0000
  {
    assert LimbWeight(0) == 1;
    assert LimbWeight(1) == LimbWeight(0) * LimbBase(0);
    assert LimbWeight(2) == LimbWeight(1) * LimbBase(1);
    assert LimbWeight(3) == LimbWeight(2) * LimbBase(2);
    assert LimbWeight(4) == LimbWeight(3) * LimbBase(3);
    assert LimbWeight(5) == LimbWeight(4) * LimbBase(4);
  }

  lemma HighWeights()
    ensures LimbWeight(6) == 0x200_0000_0000_0000_0000_0000_0000_0000_0000_0000
    ensures LimbWeight(7) == 0x8_0000_0000_0000_0000_0000_0000_0000_0000_0000_0000_0000
    ensures LimbWeight(8) == 0x1000_0000_0000_0000_0000_0000_0000_0000_0000_0000_0000_0000_0000
    ensures LimbWeight(9) == 0x40_0000_0000_0000_0000_0000_0000_0000_0000_0000_0000_0000_0000_0000_0000
    ensures LimbWeight(10) == W255
  {
    Weights();
    assert LimbWeight(6) == LimbWeight(5) * LimbBase(5);
    assert LimbWeight(7) == LimbWeight(6) * LimbBase(6);
    assert LimbWeight(8) == LimbWeight(7) * LimbBase(7);
    assert LimbWeight(9) == LimbWeight(8) * LimbBase(8);
    assert LimbWeight(10) == LimbWeight(9) * LimbBase(9);
  }

  /** Ten limbs: the prefix sum is the weighted sum. */
  lemma PrefixTen(t: seq<int>)
    requires |t| == 10
    ensures Prefix(t, 10) == Weigh(t[0], t[1], t[2], t[3], t[4], t[5], t[6], t[7], t[8], t[9])
  {
    Weights();
    HighWeights();
    assert Prefix(t, 0) == 0;
    assert Prefix(t, 1) == t[0];
    assert Prefix(t, 2) == Prefix(t, 1) + LimbWeight(1) * t[1];
    assert Prefix(t, 3) == Prefix(t, 2) + LimbWeight(2) * t[2];
    assert Prefix(t, 4) == Prefix(t, 3) + LimbWeight(3) * t[3];
    assert Prefix(t, 5) == Prefix(t, 4) + LimbWeight(4) * t[4];
    assert Prefix(t, 6) == Prefix(t, 5) + LimbWeight(5) * t[5];
    assert Prefix(t, 7) == Prefix(t, 6) + LimbWeight(6) * t[6];
    assert Prefix(t, 8) == Prefix(t, 7) + LimbWeight(7) * t[7];
    assert Prefix(t, 9) == Prefix(t, 8) + LimbWeight(8) * t[8];
    assert Prefix(t, 10) == Prefix(t, 9) + LimbWeight(9) * t[9];
  }

  lemma {:induction false} PrefixUnchanged(s: seq<int>, t: seq<int>, k: nat)
    requires k <= |s| && k <= |t|
    requires forall j :: 0 <= j < k ==> s[j] == t[j]
    ensures Prefix(s, k) == Prefix(t, k)
  {
    if k == 0 {
    } else {
      PrefixUnchanged(s, t, k - 1);
    }
  }

  predicate ReducedLimbs(t: seq<int>, k: nat)
    requires k <= |t|
  {
    forall j :: 0 <= j < k ==> 0 <= t[j] < LimbBase(j)
  }

  /** Limbs within their radix stand for a number below the next weight. */
  lemma {:induction false} PrefixBound(t: seq<int>, k: nat)
    requires k <= |t| && ReducedLimbs(t, k)
    ensures 0 <= Prefix(t, k) < LimbWeight(k)
  {
    if k == 0 {
    } else {
      PrefixBound(t, k - 1);
      var w, x, b := LimbWeight(k - 1), t[k - 1], LimbBase(k - 1);
      NatMulBound(w, x, w, b - 1);
      assert w * (b - 1) == w * b - w;
    }
  }

  // ---- encoding ------------------------------------------------------------------------

  /** One step of the running floor of a prefix. */
  lemma FloorStep(total: int, q: int, w: int, r: int, t: int, base: int, q': int, r': int)
    requires total == q * w + r && 0 <= r < w && base > 0
    requires q + t == q' * base + r' && 0 <= r' < base
    ensures total + w * t == q' * (w * base) + (r + w * r')
    ensures 0 <= r + w * r' < w * base
  {
    calc {
      total + w * t;
      q * w + r + w * t;
      w * (q + t) + r;
      w * (q' * base + r') + r;
      { assert w * (q' * base) == q' * (w * base); }
      q' * (w * base) + (r + w * r');
    }
    NatMulBound(w, r', w, base - 1);
    assert w * (base - 1) == w * base - w;
  }

  /** A tight element lies well inside (-p, p), so its sign decides the quotient. */
  lemma SignEstimate(h: Fe, q0: int, q: int, r: int)
    requires Tight(h)
    requires q0 == (19 * h.f9 + 0x100_0000) / 0x200_0000
    requires q0 + Value(h) == q * W255 + r && 0 <= r < W255
    ensures q == if Value(h) >= 0 then 0 else -1
    ensures -P < Value(h) < P
  {
    hide Value;
    ValueIs(h);
    QuotientSign(q0 + Value(h), q, r);
  }

  lemma QuotientSign(x: int, q: int, r: int)
    requires x == q * W255 + r && 0 <= r < W255
    ensures 0 <= x < W255 ==> q == 0
    ensures -W255 <= x < 0 ==> q == -1
  {
  }

  /** One step of the running floor at limb k. */
  lemma FloorAt(t: seq<int>, k: nat, q0: int, q: int, r: int, q': int) returns (r': int)
    requires k < |t|
    requires q0 + Prefix(t, k) == q * LimbWeight(k) + r && 0 <= r < LimbWeight(k)
    requires q' == (q + t[k]) / LimbBase(k)
    ensures q0 + Prefix(t, k + 1) == q' * LimbWeight(k + 1) + r' && 0 <= r' < LimbWeight(k + 1)
  {
    var d := (q + t[k]) % LimbBase(k);
    FloorStep(q0 + Prefix(t, k), q, LimbWeight(k), r, t[k], LimbBase(k), q', d);
    r' := r + LimbWeight(k) * d;
  }

  predicate Shallow(t: seq<int>)
  {
    forall j :: 0 <= j < |t| ==> -LimbBase(j) < t[j] < LimbBase(j)
  }

  lemma TightIsShallow(h: Fe)
    requires Tight(h)
    ensures |Limbs(h)| == 10 && Shallow(Limbs(h))
  {
  }

  /** One limb of the running floor. */
  method FloorLimb(t: array<i32>, k: nat, q: i32, base: i32, ghost q0: int, ghost r: int) returns (q': i32,
      ghost r': int)
    requires t.Length == 10 && k < 10 && base == LimbBase(k)
    requires -16 <= q <= 16
    requires -base < t[k] < base
    requires 0 <= r < LimbWeight(k) && q0 + Prefix(t[..], k) == q * LimbWeight(k) + r
    ensures -2 <= q' <= 1
    ensures 0 <= r' < LimbWeight(k + 1) && q0 + Prefix(t[..], k + 1) == q' * LimbWeight(k + 1) + r'
  {
    q' := q + t[k];
    q' := q' / base;
    r' := FloorAt(t[..], k, q0, q, r, q');
  }

  lemma QuotientTotal(h: Fe, t: seq<int>)
    requires t == Limbs(h)
    ensures Prefix(t, 10) == Value(h) && LimbWeight(10) == W255
  {
    hide Value, Prefix;
    PrefixTen(t);
    HighWeights();
    ValueIs(h);
  }

  /** The floor of (q0 + the number) by 2^255, limb by limb. */
  method QuotientEstimate(h: Fe, t: array<i32>) returns (q: i32)
    requires Tight(h) && t.Length == 10 && t[..] == Limbs(h)
    ensures q == if Value(h) >= 0 then 0 else -1
    ensures -P < Value(h) < P
  {
    q := (19 * t[9] + 0x100_0000) / 0x200_0000;
    ghost var q0: int := q;
    TightIsShallow(h);
    ghost var r := 0;
    for i := 0 to 5
      invariant -16 <= q <= 16
      invariant 0 <= r < LimbWeight(2 * i)
      invariant q0 + Prefix(t[..], 2 * i) == q * LimbWeight(2 * i) + r
    {
      q, r := FloorLimb(t, 2 * i, q, 0x400_0000, q0, r);
      q, r := FloorLimb(t, 2 * i + 1, q, 0x200_0000, q0, r);
    }
    QuotientTotal(h, t[..]);
    SignEstimate(h, q0, q, r);
  }

  /** Moving the carry of a limb into the running carry. */
  lemma CarryMoves(ps: int, ph: int, w: int, b: int, x: int, y: int, q1: int, q: int, q': int)
    requires ps + q * w == ph + q1 && x + q' * b == y + q
    ensures ps + w * x + q' * (w * b) == ph + w * y + q1
  {
    assert q' * (w * b) == w * (q' * b);
    assert w * x + w * (q' * b) == w * (x + q' * b);
    assert w * (y + q) == w * y + q * w;
  }

  /** One limb of the reduction: the incoming carry is added and the excess
      over the radix passed on. */
  method ReduceLimb(t: array<i32>, k: nat, q: i32, base: i32, ghost h: seq<i32>, ghost q1: int) returns (q': i32)
    requires t.Length == 10 && k < 10 && |h| == 10 && base == LimbBase(k)
    requires -19 <= q <= 1 && (forall j :: k <= j < 10 ==> t[j] == h[j])
    requires -base < h[k] < base
    requires ReducedLimbs(t[..], k) && Prefix(t[..], k) + q * LimbWeight(k) == Prefix(h, k) + q1
    modifies t
    ensures -2 <= q' <= 1 && (forall j :: k < j < 10 ==> t[j] == h[j])
    ensures ReducedLimbs(t[..], k + 1) && Prefix(t[..], k + 1) + q' * LimbWeight(k + 1) == Prefix(h, k + 1) + q1
  {
    ghost var was: seq<int> := t[..];
    t[k] := t[k] + q;
    q' := t[k] / base;
    t[k] := t[k] - q' * base;
    PrefixUnchanged(was, t[..], k);
    CarryMoves(Prefix(t[..], k), Prefix(h, k), LimbWeight(k), LimbBase(k), t[k], h[k], q1, q, q');
  }

  /** Reducing the limbs in place, starting from the shifted sign. */
  method ReduceLimbs(t: array<i32>, q0: i32, ghost h: Fe) returns (q: i32)
    requires t.Length == 10 && t[..] == Limbs(h) && Shallow(t[..])
    requires q0 == 0 || q0 == -1
    modifies t
    ensures ReducedLimbs(t[..], 10)
    ensures Prefix(t[..], 10) == Value(h) + 19 * q0 - q * W255
  {
    q := q0 * 19;
    ghost var hs := Limbs(h);
    for i := 0 to 5
      invariant -19 <= q <= 1
      invariant forall j :: 2 * i <= j < 10 ==> t[j] == hs[j]
      invariant ReducedLimbs(t[..], 2 * i)
      invariant Prefix(t[..], 2 * i) + q * LimbWeight(2 * i) == Prefix(hs, 2 * i) + 19 * q0
    {
      q := ReduceLimb(t, 2 * i, q, 0x400_0000, hs, 19 * q0);
      q := ReduceLimb(t, 2 * i + 1, q, 0x200_0000, hs, 19 * q0);
    }
    QuotientTotal(h, hs);
  }

  /** What the reduction leaves is the canonical residue. */
  lemma ReducedIsResidue(h: Fe, q0: int, q: int, v: int)
    requires q0 == (if Value(h) >= 0 then 0 else -1) && -P < Value(h) < P
    requires 0 <= v < W255 && v == Value(h) + 19 * q0 - q * W255
    ensures v == Residue(h)
  {
    SmallResidue(Value(h), q0, q, v);
  }

  lemma SmallResidue(x: int, q0: int, q: int, v: int)
    requires q0 == (if x >= 0 then 0 else -1) && -P < x < P
    requires 0 <= v < W255 && v == x + 19 * q0 - q * W255
    ensures v == x % P
  {
    if x >= 0 {
      assert q == 0;
    } else {
      assert q == -1;
      DivModUnique(x, P, -1, v);
    }
  }

  // ---- packing limbs into words ----------------------------------------------------------

  /** (u32)lo | ((u32)hi << k), for a shift k with 2^k = w. */
  function Pack(lo: nat, hi: nat, w: int): (r: nat)
    requires w > 0
  {
    BitOr(lo, (hi * w) % B32)
  }

  /** The parts do not overlap, so packing is addition. */
  lemma PackIs(lo: nat, hi: nat, k: nat, w: int, rest: int)
    requires w == Pow2(k) && lo < w && rest > 0 && w * rest == B32
    ensures Pack(lo, hi, w) == lo + (hi % rest) * w < B32
  {
    var q, c := hi / rest, hi % rest;
    assert hi * w == q * B32 + c * w by {
      assert (q * rest + c) * w == q * (w * rest) + c * w;
    }
    NatMulBound(c, w, rest - 1, w);
    assert (rest - 1) * w == rest * w - w;
    DivModUnique(hi * w, B32, q, c * w);
    OrDisjoint(lo, c, k);
  }

  lemma PowersUsed()
    ensures Pow2(6) == 0x40 && Pow2(12) == 0x1000 && Pow2(13) == 0x2000
    ensures Pow2(19) == 0x8_0000 && Pow2(25) == 0x200_0000 && Pow2(26) == 0x400_0000
  {
    assert Pow2(6) == 0x40;
    Pow2Add(6, 6);
    assert Pow2(13) == 2 * Pow2(12);
    Pow2Add(6, 13);
    Pow2Add(6, 19);
    assert Pow2(26) == 2 * Pow2(25);
  }

  function Pack26(lo: nat, hi: nat): (r: u32)
    requires lo < 0x400_0000
    ensures r == lo + 0x400_0000 * (hi % 0x40)
  {
    PowersUsed();
    PackIs(lo, hi, 26, 0x400_0000, 0x40);
    Pack(lo, hi, 0x400_0000)
  }

  function Pack25(lo: nat, hi: nat): (r: u32)
    requires lo < 0x200_0000
    ensures r == lo + 0x200_0000 * (hi % 0x80)
  {
    PowersUsed();
    PackIs(lo, hi, 25, 0x200_0000, 0x80);
    Pack(lo, hi, 0x200_0000)
  }

  function Pack19(lo: nat, hi: nat): (r: u32)
    requires lo < 0x8_0000
    ensures r == lo + 0x8_0000 * (hi % 0x2000)
  {
    PowersUsed();
    PackIs(lo, hi, 19, 0x8_0000, 0x2000);
    Pack(lo, hi, 0x8_0000)
  }

  function Pack13(lo: nat, hi: nat): (r: u32)
    requires lo < 0x2000
    ensures r == lo + 0x2000 * (hi % 0x8_0000)
  {
    PowersUsed();
    PackIs(lo, hi, 13, 0x2000, 0x8_0000);
    Pack(lo, hi, 0x2000)
  }

  function Pack12(lo: nat, hi: nat): (r: u32)
    requires lo < 0x1000
    ensures r == lo + 0x1000 * (hi % 0x10_0000)
  {
    PowersUsed();
    PackIs(lo, hi, 12, 0x1000, 0x10_0000);
    Pack(lo, hi, 0x1000)
  }

  function Pack6(lo: nat, hi: nat): (r: u32)
    requires lo < 0x40
    ensures r == lo + 0x40 * (hi % 0x400_0000)
  {
    PowersUsed();
    PackIs(lo, hi, 6, 0x40, 0x400_0000);
    Pack(lo, hi, 0x40)
  }

  /** The eight words fe_tobytes stores. */
  function Words8(t: seq<i32>): (w: seq<u32>)
    requires |t| == 10 && ReducedLimbs(t, 10)
    ensures |w| == 8
  {
    [Pack26(t[0], t[1]), Pack19(t[1] / 0x40, t[2]), Pack13(t[2] / 0x2000, t[3]), Pack6(t[3] / 0x8_0000, t[4]),
     Pack25(t[5], t[6]), Pack19(t[6] / 0x80, t[7]), Pack12(t[7] / 0x2000, t[8]), Pack6(t[8] / 0x10_0000, t[9])]
  }

  /** Cutting five limbs of 26, 25, 26, 25 and 26 bits into four words. */
  lemma LowWords(t0: int, t1: int, t2: int, t3: int, t4: int)
    requires 0 <= t4 < 0x400_0000
    ensures Weigh(t0, t1, t2, t3, t4, 0, 0, 0, 0, 0)
         == (t0 + 0x400_0000 * (t1 % 0x40)) + B32 * ((t1 / 0x40 + 0x8_0000 * (t2 % 0x2000))
          + B32 * ((t2 / 0x2000 + 0x2000 * (t3 % 0x8_0000)) + B32 * (t3 / 0x8_0000 + 0x40 * (t4 % 0x400_0000))))
  {
  }

  /** Cutting five limbs of 25, 26, 25, 26 and 25 bits into four words. */
  lemma HighWords(t5: int, t6: int, t7: int, t8: int, t9: int)
    requires 0 <= t9 < 0x200_0000
    ensures Weigh(0, 0, 0, 0, 0, t5, t6, t7, t8, t9)
         == 0x1_0000_0000_0000_0000_0000_0000_0000_0000 * ((t5 + 0x200_0000 * (t6 % 0x80)) + B32 * ((t6 / 0x80
             + 0x8_0000 * (t7 % 0x2000))
          + B32 * ((t7 / 0x2000 + 0x1000 * (t8 % 0x10_0000)) + B32 * (t8 / 0x10_0000 + 0x40 * (t9 % 0x400_0000)))))
  {
  }

  /** Packing keeps the number. */
  lemma Words8Value(t: seq<i32>)
    requires |t| == 10 && ReducedLimbs(t, 10)
    ensures Val32(Words8(t)) == Prefix(t, 10)
  {
    Val32Of8(Words8(t));
    PrefixTen(t);
    LowWords(t[0], t[1], t[2], t[3], t[4]);
    HighWords(t[5], t[6], t[7], t[8], t[9]);
  }

  /** fe_tobytes: the bytes are the unique representative in [0, p). */
  method FeToBytes(h: Fe) returns (s: seq<u8>)
    requires Tight(h)
    ensures |s| == 32 && Val8(s) == Residue(h)
  {
    var t := new i32[10](i requires 0 <= i < 10 => Limbs(h)[i]);
    assert t[..] == Limbs(h);
    var q := QuotientEstimate(h, t);
    TightIsShallow(h);
    ghost var excess := ReduceLimbs(t, q, h);
    PrefixBound(t[..], 10);
    HighWeights();
    ReducedIsResidue(h, q, excess, Prefix(t[..], 10));
    s := StoreLimbs(Words8(t[..]));
    StoreLimbsVal(Words8(t[..]));
    Words8Value(t[..]);
  }

  // ---- comparison -----------------------------------------------------------------------

  function Load64(s: seq<u8>): (r: u64)
    requires |s| == 8
  {
    Join64(Load32(s[..4]), Load32(s[4..]))
  }

  function Join64(lo: int, hi: int): int
  {
    lo + B32 * hi
  }

  /** neq0: -1 for a nonzero word, 0 for zero, without a branch. */
  function Neq0(diff: u64): (r: int)
    ensures r == if diff == 0 then 0 else -1
  {
    Pow2Words();
    OrIsZero(diff / B32, diff % B32);
    OrBound(diff / B32, diff % B32, 32);
    var half := BitOr(diff / B32, diff % B32);
    var eq0 := (((half - 1) % B64) / B32) % 2;
    eq0 - 1
  }

  lemma Load64Injective(a: seq<u8>, b: seq<u8>)
    requires |a| == |b| == 8
    ensures Load64(a) == Load64(b) <==> a == b
  {
    if Load64(a) == Load64(b) {
      Load32Injective(a[..4], b[..4]);
      Load32Injective(a[4..], b[4..]);
      assert a == a[..4] + a[4..] && b == b[..4] + b[4..];
    }
  }

  lemma Load32Injective(a: seq<u8>, b: seq<u8>)
    requires |a| == |b| == 4
    ensures Load32(a) == Load32(b) ==> a == b
  {
    if Load32(a) == Load32(b) {
      Val8Cons4(a);
      Val8Cons4(b);
      assert a[..4] == a && b[..4] == b && a[4..] == [] && b[4..] == [];
      Val8Injective(a, b);
    }
  }

  /** x16: zero exactly when sixteen bytes agree. */
  function Diff16(a: seq<u8>, b: seq<u8>): (d: u64)
    requires |a| == |b| == 16
    ensures d == 0 <==> a == b
  {
    var x := BitXor(Load64(a[..8]), Load64(b[..8]));
    var y := BitXor(Load64(a[8..]), Load64(b[8..]));
    Pow2Words();
    XorBound(Load64(a[..8]), Load64(b[..8]), 64);
    XorBound(Load64(a[8..]), Load64(b[8..]), 64);
    OrBound(x, y, 64);
    XorIsZero(Load64(a[..8]), Load64(b[..8]));
    XorIsZero(Load64(a[8..]), Load64(b[8..]));
    OrIsZero(x, y);
    Load64Injective(a[..8], b[..8]);
    Load64Injective(a[8..], b[8..]);
    assert a == a[..8] + a[8..] && b == b[..8] + b[8..];
    BitOr(x, y)
  }

  /** crypto_verify32: 0 for equal strings, -1 otherwise. */
  function Verify32(a: seq<u8>, b: seq<u8>): (r: int)
    requires |a| == |b| == 32
    ensures r == if a == b then 0 else -1
  {
    var x, y := Diff16(a[..16], b[..16]), Diff16(a[16..], b[16..]);
    Pow2Words();
    OrIsZero(x, y);
    OrBound(x, y, 64);
    assert a == a[..16] + a[16..] && b == b[..16] + b[16..];
    Neq0(BitOr(x, y))
  }

  /** fe_isequal decides equality modulo p, whatever the limbs look like. */
  method FeIsEqual(f: Fe, g: Fe) returns (equal: int)
    requires Tight(f) && Tight(g)
    ensures equal == if Residue(f) == Residue(g) then 1 else 0
  {
    var fs := FeToBytes(f);
    var gs := FeToBytes(g);
    if Residue(f) == Residue(g) {
      Val8Injective(fs, gs);
    }
    equal := 1 + Verify32(fs, gs);
  }

  /** Encoding what was decoded: the number modulo 2^255, then modulo p. */
  method Canonicalize(s: seq<u8>) returns (r: seq<u8>)
    requires |s| == 32
    ensures |r| == 32 && Val8(r) == (Val8(s) % W255) % P
  {
    var h := FeFromBytes(s);
    r := FeToBytes(h);
  }
}
