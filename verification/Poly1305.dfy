/** Poly1305 as section 2.5 of RFC 8439 defines it, and the block routine with
    partial carries that computes it. */
module Poly1305 {
  import opened Arith
  import opened Words

  /** 2^130 - 5. */
  const P: int := 0x3_ffffffff_ffffffff_ffffffff_fffffffb
  const W128: int := 0x1_00000000_00000000_00000000_00000000
  const W96: int := 0x1_00000000_00000000_00000000
  const W64: int := 0x1_00000000_00000000

  // ---- the definition -------------------------------------------------------------------

  /** Length of the last block of a nonempty message. */
  function LastLength(n: nat): (k: nat)
    requires n > 0
    ensures 0 < k <= 16 && k <= n && (n - k) % 16 == 0
  {
    if n % 16 == 0 then 16 else n % 16
  }

  /** The accumulator after the whole message: every block, with a one appended,
      is added and the sum multiplied by r. */
  function Accumulate(r: int, msg: seq<u8>): (a: int)
  {
    if |msg| == 0 then 0
    else
      var k := LastLength(|msg|);
      var rest, last := msg[..|msg| - k], msg[|msg| - k..];
      ((Accumulate(r, rest) + Val8(last + [1])) * r) % P
  }

  function Clamp0(x: int): int { x % 0x1000_0000 }

  function Clamp(x: int): int { x % 0x1000_0000 - x % 4 }

  /** The clamped multiplier of a 32-byte key. */
  function KeyR(key: seq<u8>): int
    requires |key| == 32
  {
    var l := LoadLimbs(key[..16]);
    Clamp0(l[0]) + B32 * Clamp(l[1]) + W64 * Clamp(l[2]) + W96 * Clamp(l[3])
  }

  function KeyS(key: seq<u8>): int
    requires |key| == 32
  {
    Val8(key[16..])
  }

  /** The authenticator as a number. */
  function Tag(key: seq<u8>, msg: seq<u8>): int
    requires |key| == 32
  {
    (Accumulate(KeyR(key), msg) + KeyS(key)) % W128
  }

  // ---- one block ---------------------------------------------------------------------------

  datatype Acc = Acc(h0: u32, h1: u32, h2: u32, h3: u32, h4: u32)

  function Value(a: Acc): int
  {
    a.h0 + B32 * a.h1 + W64 * a.h2 + W96 * a.h3 + W128 * a.h4
  }

  /** At most 4_ffffffff_ffffffff_ffffffff_ffffffff. */
  predicate Bounded(a: Acc)
  {
    a.h4 <= 4
  }

  datatype Key = Key(r0: u32, r1: u32, r2: u32, r3: u32)

  predicate Clamped(k: Key)
  {
    && k.r0 <= 0x0fff_ffff
    && k.r1 <= 0x0fff_fffc && k.r1 % 4 == 0
    && k.r2 <= 0x0fff_fffc && k.r2 % 4 == 0
    && k.r3 <= 0x0fff_fffc && k.r3 % 4 == 0
  }

  function KeyValue(k: Key): int
  {
    k.r0 + B32 * k.r1 + W64 * k.r2 + W96 * k.r3
  }

  // ---- (h + c) * r without carries ------------------------------------------------------

  /** The bound on a limb of h plus a limb of the block. */
  const SMAX: int := 0x1_ffff_fffe

  /** A product of a 33-bit sum and a 29-bit multiplier. */
  function Product(s: u64, m: u32): (x: u64)
    requires s <= SMAX && m <= 0x13ff_ffff
    ensures x == s * m && x <= SMAX * m
  {
    NatMulBound(s, m, SMAX, m);
    s * m
  }

  /** One column: four 64-bit products and a 32-bit one. */
  function Column(s0: u64, m0: u32, s1: u64, m1: u32, s2: u64, m2: u32, s3: u64, m3: u32, t: u32): (x: u64)
    requires s0 <= SMAX && s1 <= SMAX && s2 <= SMAX && s3 <= SMAX
    requires m0 <= 0x13ff_ffff && m1 <= 0x13ff_ffff && m2 <= 0x13ff_ffff && m3 <= 0x13ff_ffff
    requires m0 + m1 + m2 + m3 <= 0x4bff_fff0
    ensures x == s0 * m0 + s1 * m1 + s2 * m2 + s3 * m3 + t
    ensures x <= SMAX * (m0 + m1 + m2 + m3) + t
  {
    Add5(Product(s0, m0), Product(s1, m1), Product(s2, m2), Product(s3, m3), t)
  }

  /** A left-to-right sum in 64 bits. */
  function Add5(a: u64, b: u64, c: u64, d: u64, e: u64): (x: u64)
    requires a + b + c + d + e < B64
    ensures x == a + b + c + d + e
  {
    var p1: u64 := a + b;
    var p2: u64 := p1 + c;
    var p3: u64 := p2 + d;
    p3 + e
  }

  /** The multipliers that absorb 2^130: five times the key words over four. */
  datatype Folded = Folded(rr0: u32, rr1: u32, rr2: u32, rr3: u32, rr4: u32)

  function FoldKey(k: Key): (f: Folded)
    requires Clamped(k)
    ensures k.r0 == 4 * (k.r0 / 4) + f.rr4 && f.rr0 == 5 * (k.r0 / 4) && f.rr4 <= 3
    ensures k.r1 == 4 * (k.r1 / 4) && f.rr1 == 5 * (k.r1 / 4)
    ensures k.r2 == 4 * (k.r2 / 4) && f.rr2 == 5 * (k.r2 / 4)
    ensures k.r3 == 4 * (k.r3 / 4) && f.rr3 == 5 * (k.r3 / 4)
    ensures f.rr0 <= 0x13ff_fffb && f.rr1 <= 0x13ff_fffb && f.rr2 <= 0x13ff_fffb && f.rr3 <= 0x13ff_fffb
  {
    Folded((k.r0 / 4) * 5, k.r1 / 4 + k.r1, k.r2 / 4 + k.r2, k.r3 / 4 + k.r3, k.r0 % 4)
  }

  /** The five column sums. */
  datatype Sums = Sums(x0: u64, x1: u64, x2: u64, x3: u64, x4: u32)

  function SumsValue(x: Sums): int
  {
    x.x0 + B32 * x.x1 + W64 * x.x2 + W96 * x.x3 + W128 * x.x4
  }

  function Columns(k: Key, f: Folded, s0: u64, s1: u64, s2: u64, s3: u64, s4: u32): (x: Sums)
    requires Clamped(k) && f == FoldKey(k)
    requires s0 <= SMAX && s1 <= SMAX && s2 <= SMAX && s3 <= SMAX && s4 <= 5
    ensures x.x3 / B32 + x.x4 <= 0x7fff_fff5
  {
    var x3 := Column(s0, k.r3, s1, k.r2, s2, k.r1, s3, k.r0, Small(s4, f.rr3));
    var x4: u32 := Small(s4, f.rr4);
    TopBound(x3, x4, s4, f.rr4, k.r0 + k.r1 + k.r2 + k.r3, Small(s4, f.rr3));
    Sums(Column(s0, k.r0, s1, f.rr3, s2, f.rr2, s3, f.rr1, Small(s4, f.rr0)),
         Column(s0, k.r1, s1, k.r0, s2, f.rr3, s3, f.rr2, Small(s4, f.rr1)),
         Column(s0, k.r2, s1, k.r1, s2, k.r0, s3, f.rr3, Small(s4, f.rr2)),
         x3, x4)
  }

  /** The products that fit 32 bits: the top limb of h plus one is at most 5. */
  function Small(s: u32, m: u32): (x: u32)
    requires s <= 5 && m <= 0x13ff_fffb
    ensures x == s * m
  {
    NatMulBound(s, m, 5, 0x13ff_fffb);
    s * m
  }

  lemma TopBound(x3: int, x4: int, s4: int, e: int, m: int, t: int)
    requires x3 <= SMAX * m + t && m <= 0x3fff_fff3 && t < B32
    requires 0 <= s4 <= 5 && 0 <= e <= 3 && x4 == s4 * e
    ensures x3 / B32 + x4 <= 0x7fff_fff5
  {
    AbsMulBound(s4, e, 5, 3);
  }

  // ---- the columns are the product mod P ---------------------------------------------------

  /** One row of the product, in terms of the quarter words q. */
  lemma Row(s: int, r0: int, q1: int, q2: int, q3: int)
    ensures s * (r0 + B32 * (4 * q1) + W64 * (4 * q2) + W96 * (4 * q3))
         == s * r0 + 4 * (B32 * (s * q1)) + 4 * (W64 * (s * q2)) + 4 * (W96 * (s * q3))
  {
    assert s * (B32 * (4 * q1)) == 4 * (B32 * (s * q1));
    assert s * (W64 * (4 * q2)) == 4 * (W64 * (s * q2));
    assert s * (W96 * (4 * q3)) == 4 * (W96 * (s * q3));
  }

  lemma SumOfRows(s0: int, s1: int, s2: int, s3: int, s4: int, r: int)
    ensures (s0 + B32 * s1 + W64 * s2 + W96 * s3 + W128 * s4) * r
         == s0 * r + B32 * (s1 * r) + W64 * (s2 * r) + W96 * (s3 * r) + W128 * (s4 * r)
  {
    assert (B32 * s1) * r == B32 * (s1 * r);
    assert (W64 * s2) * r == W64 * (s2 * r);
    assert (W96 * s3) * r == W96 * (s3 * r);
    assert (W128 * s4) * r == W128 * (s4 * r);
  }

  /** The multiple of P by which the columns fall short of the product. */
  function Deficit(s1: int, s2: int, s3: int, s4: int, q0: int, q1: int, q2: int, q3: int): int
  {
    s1 * q3 + s2 * q2 + s3 * q1 + s4 * q0
    + B32 * (s2 * q3 + s3 * q2 + s4 * q1) + W64 * (s3 * q3 + s4 * q2) + W96 * (s4 * q3)
  }

  lemma ColumnsValue(s0: int, s1: int, s2: int, s3: int, s4: int,
                     r0: int, q0: int, q1: int, q2: int, q3: int, e: int, x: Sums)
    requires r0 == 4 * q0 + e
    requires x.x0 == s0 * r0 + 5 * (s1 * q3) + 5 * (s2 * q2) + 5 * (s3 * q1) + 5 * (s4 * q0)
    requires x.x1 == 4 * (s0 * q1) + s1 * r0 + 5 * (s2 * q3) + 5 * (s3 * q2) + 5 * (s4 * q1)
    requires x.x2 == 4 * (s0 * q2) + 4 * (s1 * q1) + s2 * r0 + 5 * (s3 * q3) + 5 * (s4 * q2)
    requires x.x3 == 4 * (s0 * q3) + 4 * (s1 * q2) + 4 * (s2 * q1) + s3 * r0 + 5 * (s4 * q3)
    requires x.x4 == s4 * e
    ensures (s0 + B32 * s1 + W64 * s2 + W96 * s3 + W128 * s4) * (r0 + B32 * (4 * q1) + W64 * (4 * q2) + W96 * (4 * q3))
         == SumsValue(x) + Deficit(s1, s2, s3, s4, q0, q1, q2, q3) * P
  {
    Row(s0, r0, q1, q2, q3);
    Row(s1, r0, q1, q2, q3);
    Row(s2, r0, q1, q2, q3);
    Row(s3, r0, q1, q2, q3);
    Row(s4, r0, q1, q2, q3);
    SumOfRows(s0, s1, s2, s3, s4, r0 + B32 * (4 * q1) + W64 * (4 * q2) + W96 * (4 * q3));
    assert s4 * r0 == 4 * (s4 * q0) + s4 * e;
  }

  lemma Regroup(s: int, q: int, n: int)
    ensures s * (n * q) == n * (s * q)
  {
  }

  lemma ColumnsProduct(k: Key, s0: u64, s1: u64, s2: u64, s3: u64, s4: u32) returns (d: int)
    requires Clamped(k)
    requires s0 <= SMAX && s1 <= SMAX && s2 <= SMAX && s3 <= SMAX && s4 <= 5
    ensures (s0 + B32 * s1 + W64 * s2 + W96 * s3 + W128 * s4) * KeyValue(k)
         == SumsValue(Columns(k, FoldKey(k), s0, s1, s2, s3, s4)) + d * P
  {
    hide SumsValue, Deficit, FoldKey, Column;
    var f, q0, q1, q2, q3 := FoldKey(k), k.r0 / 4, k.r1 / 4, k.r2 / 4, k.r3 / 4;
    d := Deficit(s1, s2, s3, s4, q0, q1, q2, q3);
    var x := Columns(k, f, s0, s1, s2, s3, s4);
    Regroup(s1, q3, 5); Regroup(s2, q2, 5); Regroup(s3, q1, 5); Regroup(s4, q0, 5);
    Regroup(s2, q3, 5); Regroup(s3, q2, 5); Regroup(s4, q1, 5);
    Regroup(s3, q3, 5); Regroup(s4, q2, 5); Regroup(s4, q3, 5);
    Regroup(s0, q1, 4); Regroup(s0, q2, 4); Regroup(s1, q1, 4);
    Regroup(s0, q3, 4); Regroup(s1, q2, 4); Regroup(s2, q1, 4);
    ColumnsValue(s0, s1, s2, s3, s4, k.r0, q0, q1, q2, q3, f.rr4, x);
  }

  // ---- the partial reduction ---------------------------------------------------------------

  /** The carries, with everything above 2^130 folded back five times. */
  function Reduce(x: Sums): (a: Acc)
    requires x.x3 / B32 + x.x4 <= 0x7fff_fff5
    ensures Bounded(a)
  {
    var u5: u32 := x.x3 / B32 + x.x4;
    var f: u32 := (u5 / 4) * 5;
    var u0: u64 := f + x.x0 % B32;
    var u1: u64 := u0 / B32 + x.x1 % B32 + x.x0 / B32;
    var u2: u64 := u1 / B32 + x.x2 % B32 + x.x1 / B32;
    var u3: u64 := u2 / B32 + x.x3 % B32 + x.x2 / B32;
    var u4: u32 := u3 / B32 + u5 % 4;
    Acc(u0 % B32, u1 % B32, u2 % B32, u3 % B32, u4)
  }

  lemma ReduceValue(x: Sums) returns (d: int)
    requires x.x3 / B32 + x.x4 <= 0x7fff_fff5
    ensures SumsValue(x) == Value(Reduce(x)) + d * P
  {
    d := (x.x3 / B32 + x.x4) / 4;
  }

  // ---- one block ---------------------------------------------------------------------------

  /** The body of the loop of poly_blocks, on the words c0..c3 of a block. */
  function Block(k: Key, h: Acc, c: seq<u32>, end: u32): (a: Acc)
    requires Clamped(k) && Bounded(h) && |c| == 4 && end <= 1
    ensures Bounded(a)
  {
    var s0: u64 := h.h0 + c[0];
    var s1: u64 := h.h1 + c[1];
    var s2: u64 := h.h2 + c[2];
    var s3: u64 := h.h3 + c[3];
    var s4: u32 := h.h4 + end;
    Reduce(Columns(k, FoldKey(k), s0, s1, s2, s3, s4))
  }

  lemma SumValue(h: Acc, c: seq<u32>, end: int)
    requires |c| == 4
    ensures Value(h) + Val32(c) + end * W128
         == (h.h0 + c[0]) + B32 * (h.h1 + c[1]) + W64 * (h.h2 + c[2]) + W96 * (h.h3 + c[3]) + W128 * (h.h4 + end)
  {
    Val32Of4(c);
  }

  lemma Val32Of4(s: seq<u32>)
    requires |s| == 4
    ensures Val32(s) == s[0] + B32 * s[1] + W64 * s[2] + W96 * s[3]
  {
    assert s[1..][1..][1..] == [s[3]] && s[1..][1..] == [s[2], s[3]] && s[1..] == [s[1], s[2], s[3]];
    assert Val32([s[3]]) == s[3] + B32 * Val32([]);
    assert Val32([s[2], s[3]]) == s[2] + B32 * Val32([s[3]]);
    assert Val32([s[1], s[2], s[3]]) == s[1] + B32 * Val32([s[2], s[3]]);
  }

  /** A block is one step of the definition: h becomes (h + c) * r mod P. */
  lemma BlockIsStep(k: Key, h: Acc, c: seq<u32>, end: u32)
    requires Clamped(k) && Bounded(h) && |c| == 4 && end <= 1
    ensures Value(Block(k, h, c, end)) % P == ((Value(h) + Val32(c) + end * W128) * KeyValue(k)) % P
  {
    hide Value, KeyValue, SumsValue, Reduce, Columns, FoldKey, Val32;
    SumValue(h, c, end);
    var s0, s1, s2, s3, s4 := h.h0 + c[0], h.h1 + c[1], h.h2 + c[2], h.h3 + c[3], h.h4 + end;
    var x := Columns(k, FoldKey(k), s0, s1, s2, s3, s4);
    var d := ColumnsProduct(k, s0, s1, s2, s3, s4);
    var e := ReduceValue(x);
    assert Value(Block(k, h, c, end)) == Value(Reduce(x));
    TwoShifts((Value(h) + Val32(c) + end * W128) * KeyValue(k), SumsValue(x), Value(Reduce(x)), d, e);
  }

  lemma TwoShifts(a: int, b: int, c: int, d: int, e: int)
    requires a == b + d * P && b == c + e * P
    ensures c % P == a % P
  {
    ModShift(b, d, P);
    ModShift(c, e, P);
  }

  // ---- the end -----------------------------------------------------------------------------

  /** The carry test of the end: adding 5 reaches 2^130 exactly from P on. */
  lemma SubtractOnce(v: int, c: int)
    requires 0 <= v < 5 * W128
    requires c == (v + 5) / W128
    ensures (c / 4 == 0 || c / 4 == 1)
    ensures v % P + W128 * (4 * (c / 4)) == v + 5 * (c / 4)
  {
    if c / 4 == 0 {
      DivModUnique(v, P, 0, v);
    } else {
      DivModUnique(v, P, 1, v - P);
    }
  }

  /** Appending a whole block to whole blocks is one step of the definition. */
  lemma AccumulateAppend(r: int, done: seq<u8>, block: seq<u8>)
    requires |done| % 16 == 0 && 0 < |block| <= 16
    ensures Accumulate(r, done + block) == ((Accumulate(r, done) + Val8(block + [1])) * r) % P
  {
    hide Val8;
    var msg := done + block;
    LastIs(|done|, |block|);
    assert msg[..|msg| - |block|] == done && msg[|msg| - |block|..] == block;
  }

  lemma LastIs(n: nat, k: nat)
    requires n % 16 == 0 && 0 < k <= 16
    ensures LastLength(n + k) == k
  {
  }

  lemma StepCongruent(v: int, a: int, c: int, r: int)
    requires v % P == a % P
    ensures ((v + c) * r) % P == ((a + c) * r) % P
  {
    ModAdd(v, c, a, c, P);
    ModMul(v + c, r, a + c, r, P);
  }
}
