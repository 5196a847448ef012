/** Arithmetic modulo the group order L = 2^252 + 27742317777372353535851937790883648493:
    conditional subtraction, Barrett and Montgomery reduction, multiply-add. */
module ScalarL {
  import opened Arith
  import opened Words
  import opened Limbs

  const L: int := 0x1000000000000000_0000000000000000_14def9dea2f79cd6_5812631a5cf5d3ed
  const W256: int := 0x1_0000000000000000_0000000000000000_0000000000000000_0000000000000000

  const L_LIMBS: seq<u32> := [
    0x5cf5d3ed, 0x5812631a, 0xa2f79cd6, 0x14def9de,
    0x00000000, 0x00000000, 0x00000000, 0x10000000]

  lemma LLimbs()
    ensures |L_LIMBS| == 8 && Val32(L_LIMBS) == L
    ensures W32(8) == W256
  {
    Val32Of8(L_LIMBS);
    W32Eight();
  }

  // ---- conditional subtraction --------------------------------------------

  /** One column of an addition with carry. */
  lemma AddStep(lo: int, c: int, c': int, limb: int, vx: int, x: int, vy: int, y: int, w: int)
    requires lo + c * w == vx + vy
    requires limb + B32 * c' == c + x + y
    ensures (lo + w * limb) + c' * (B32 * w) == (vx + w * x) + (vy + w * y)
  {
    calc {
      (lo + w * limb) + c' * (B32 * w);
      lo + w * (limb + B32 * c');
      lo + w * (c + x + y);
      lo + c * w + w * x + w * y;
    }
  }

  /** The one's complement of every limb. */
  function Complement(s: seq<u32>): (r: seq<u32>)
    ensures |r| == |s|
    ensures forall i :: 0 <= i < |s| ==> r[i] == B32 - 1 - s[i]
  {
    if |s| == 0 then [] else [B32 - 1 - s[0]] + Complement(s[1..])
  }

  lemma {:induction false} ComplementVal(s: seq<u32>)
    ensures Val32(Complement(s)) == W32(|s|) - 1 - Val32(s)
  {
    if |s| == 0 {
    } else {
      ComplementVal(s[1..]);
      assert Complement(s)[1..] == Complement(s[1..]);
    }
  }

  /** A sum below twice the weight leaves a carry of one exactly from the weight up. */
  lemma CarryOut(lo: int, c: int, w: int, total: int)
    requires 0 <= lo < w && c >= 0
    requires lo + c * w == total < 2 * w
    ensures c == (if total >= w then 1 else 0)
    ensures lo == total - c * w
  {
    assert c >= 2 ==> c * w >= 2 * w;
    assert c == 1 ==> c * w == w;
    assert c == 0 ==> c * w == 0;
  }

  /** The carry out of an addition over eight limbs. */
  method CarryOfSum(x: seq<u32>, y: seq<u32>, carryIn: u32) returns (carry: u64, ghost lo: seq<u32>)
    requires |x| == |y| == 8 && carryIn <= 1
    ensures |lo| == 8 && carry <= 1
    ensures Val32(lo) + carry * W32(8) == Val32(x) + Val32(y) + carryIn
  {
    carry := carryIn;
    lo := [];
    assert Val32(x[..0]) == 0 && Val32(y[..0]) == 0;
    for i := 0 to 8
      invariant |lo| == i && carry <= 1
      invariant Val32(lo) + carry * W32(i) == Val32(x[..i]) + Val32(y[..i]) + carryIn
    {
      ghost var c := carry;
      carry := carry + x[i] + y[i];
      ghost var limb: u32 := carry % B32;
      carry := carry / B32;
      AddStep(Val32(lo) - carryIn, c, carry, limb, Val32(x[..i]), x[i], Val32(y[..i]), y[i], W32(i));
      ValPrefixSnoc(x, i);
      ValPrefixSnoc(y, i);
      Val32Snoc(lo, limb);
      lo := lo + [limb];
    }
    assert x[..8] == x && y[..8] == y;
  }

  /** is_above_l: adds the two's complement of L and returns the carry. */
  method IsAboveL(x: seq<u32>) returns (above: u32)
    requires |x| == 8
    ensures above == (if Val32(x) >= L then 1 else 0)
  {
    var notL := Complement(L_LIMBS);
    LLimbs();
    ComplementVal(L_LIMBS);
    ghost var vn := Val32(notL);
    assert vn == W256 - 1 - L;
    var carry, lo := CarryOfSum(x, notL, 1);
    Val32Bound(lo);
    Val32Bound(x);
    CarryOut(Val32(lo), carry, W256, Val32(x) + (W256 - L));
    above := carry;
  }

  /** r[..8] = x[off..off+8] + y + carry; the arrays may be the same one. */
  method AddLimbs(r: array<u32>, x: array<u32>, off: nat, y: seq<u32>, carryIn: u32) returns (carry: u64)
    requires r.Length >= 8 && off + 8 <= x.Length && |y| == 8 && carryIn <= 1
    requires r == x ==> off == 0
    modifies r
    ensures Val32(r[..8]) + carry * W32(8) == old(Val32(x[off..off + 8])) + Val32(y) + carryIn
    ensures r[8..] == old(r[8..])
  {
    ghost var xs := x[off..off + 8];
    carry := carryIn;
    assert Val32(xs[..0]) == 0 && Val32(y[..0]) == 0 && Val32(r[..0]) == 0;
    for i := 0 to 8
      invariant carry <= 1
      invariant forall k :: i <= k < 8 ==> x[off + k] == xs[k]
      invariant r[8..] == old(r[8..])
      invariant Val32(r[..i]) + carry * W32(i) == Val32(xs[..i]) + Val32(y[..i]) + carryIn
    {
      ghost var c, rs := carry, r[..i];
      carry := carry + x[off + i] + y[i];
      r[i] := carry % B32;
      carry := carry / B32;
      AddStep(Val32(rs) - carryIn, c, carry, r[i], Val32(xs[..i]), xs[i], Val32(y[..i]), y[i], W32(i));
      ValPrefixSnoc(xs, i);
      ValPrefixSnoc(y, i);
      assert r[..i + 1] == rs + [r[i]];
      Val32Snoc(rs, r[i]);
    }
    assert xs[..8] == xs && y[..8] == y;
  }

  /** remove_l: r = x - L when x is at least L, otherwise r = x.  The arrays may
      be the same one. */
  method RemoveL(r: array<u32>, x: array<u32>, off: nat)
    requires r.Length >= 8 && off + 8 <= x.Length
    requires r == x ==> off == 0
    modifies r
    ensures var v := old(Val32(x[off..off + 8])); Val32(r[..8]) == if v >= L then v - L else v
    ensures r[8..] == old(r[8..])
  {
    ghost var v := Val32(x[off..off + 8]);
    Val32Bound(x[off..off + 8]);
    var above := IsAboveL(x[off..off + 8]);
    var sub: seq<u32> := if above == 1 then Complement(L_LIMBS) else [0, 0, 0, 0, 0, 0, 0, 0];
    var carry := AddLimbs(r, x, off, sub, above);
    Masked(above, sub);
    Val32Bound(r[..8]);
    LLimbs();
    CarryOut(Val32(r[..8]), carry, W256, if above == 1 then v + (W256 - L) else v);
  }

  lemma Masked(above: u32, sub: seq<u32>)
    requires sub == if above == 1 then Complement(L_LIMBS) else [0, 0, 0, 0, 0, 0, 0, 0]
    ensures Val32(sub) == if above == 1 then W256 - 1 - L else 0
  {
    LLimbs();
    if above == 1 {
      ComplementVal(L_LIMBS);
    } else {
      Val32Zeros(sub);
    }
  }

  // ---- Barrett reduction ----------------------------------------------------

  const W512: int := 0x1_0000000000000000_0000000000000000_0000000000000000_0000000000000000_0000000000000000_0000000000000000_0000000000000000_0000000000000000
  const R: int := 0xf_ffffffffffffffff_ffffffffffffffeb_2106215d086329a7_ed9ce5a30a2c131b

  const R_LIMBS: seq<u32> := [
    0x0a2c131b, 0xed9ce5a3, 0x086329a7, 0x2106215d,
    0xffffffeb, 0xffffffff, 0xffffffff, 0xffffffff, 0xf]

  lemma RLimbs()
    ensures |R_LIMBS| == 9 && Val32(R_LIMBS) == R
    ensures W32(8) == W256 && W32(16) == W512
    ensures R * L <= W512 < R * L + L
  {
    Val32Of8(R_LIMBS[..8]);
    ValPrefixSnoc(R_LIMBS, 8);
    assert R_LIMBS[..9] == R_LIMBS;
    W32Eight();
  }

  /** The quotient estimate floor(x*R / 2^512) never exceeds the true quotient
      and is at most one below it. */
  lemma BarrettQuotient(x: int, q: int, d: int)
    requires 0 <= x < W512 && 0 <= d < W512
    requires x * R == q * W512 + d
    ensures 0 <= x - q * L < 2 * L
    ensures q == x / L || q == x / L - 1
    ensures 0 <= q * L <= x
  {
    var e := W512 - R * L;
    assert 0 <= e < L by { RLimbs(); }
    calc {
      (x - q * L) * W512;
      x * W512 - (q * W512) * L;
      x * W512 - (x * R - d) * L;
      { assert (x * R) * L == x * (R * L); }
      x * (W512 - R * L) + d * L;
      x * e + d * L;
    }
    assert 0 <= x * e;
    assert x * e <= W512 * e;
    var z := x - q * L;
    if z >= L {
      DivModUnique(x, L, q + 1, z - L);
    } else {
      DivModUnique(x, L, q, z);
    }
  }

  lemma EstimateFromProduct(x: seq<u32>, prod: seq<u32>)
    requires |x| == 16 && |prod| == 25 && Val32(prod) == R * Val32(x)
    ensures 0 <= Val32(x) - Val32(prod[16..]) * L < 2 * L
  {
    RLimbs();
    Val32Split(prod, 16);
    Val32Bound(prod[..16]);
    Val32Bound(x);
    BarrettQuotient(Val32(x), Val32(prod[16..]), Val32(prod[..16]));
  }

  /** The high limbs of x*R: the quotient estimate. */
  method EstimateQuotient(xr: array<u32>, x: seq<u32>)
    requires xr.Length == 25 && |x| == 16 && (forall k :: 0 <= k < 25 ==> xr[k] == 0)
    modifies xr
    ensures 0 <= Val32(x) - Val32(xr[16..]) * L < 2 * L
  {
    Val32Zeros(xr[..16]);
    RLimbs();
    MultiplyAcc(xr, R_LIMBS, x);
    assert xr[..25] == xr[..];
    EstimateFromProduct(x, xr[..]);
  }

  /** xr[..8] becomes the low 256 bits of quotient times L. */
  method QuotientTimesL(xr: array<u32>) returns (ghost wraps: int)
    requires xr.Length == 25
    modifies xr
    ensures xr[16..] == old(xr[16..])
    ensures Val32(xr[..8]) + wraps * W256 == Val32(xr[16..24]) * L
  {
    ghost var quot := xr[16..];
    for i := 0 to 8
      invariant forall k :: 0 <= k < i ==> xr[k] == 0
      invariant xr[16..] == quot
    {
      xr[i] := 0;
    }
    Val32Zeros(xr[..8]);
    ghost var before := xr[..];
    wraps := MultiplyLow(xr, xr[16..24], L_LIMBS);
    LLimbs();
    assert xr[16..] == xr[8..][8..] && before[16..] == before[8..][8..];
    assert xr[16..24] == xr[16..][..8] && before[16..24] == before[16..][..8];
  }

  /** xr[..8] = x[..8] - xr[..8] modulo 2^256: x plus the complement plus one. */
  method Subtract(xr: array<u32>, x: seq<u32>) returns (ghost c: int)
    requires xr.Length >= 8 && |x| >= 8
    modifies xr
    ensures xr[8..] == old(xr[8..])
    ensures Val32(xr[..8]) + c * W256 == Val32(x[..8]) - old(Val32(xr[..8]))
  {
    var carry: u64 := 1;
    ghost var low := xr[..8];
    ghost var notLow := Complement(low);
    assert Val32(x[..0]) == 0 && Val32(notLow[..0]) == 0 && Val32(xr[..0]) == 0;
    for i := 0 to 8
      invariant carry <= 1
      invariant forall k :: i <= k < 8 ==> xr[k] == low[k]
      invariant xr[8..] == old(xr[8..])
      invariant Val32(xr[..i]) + carry * W32(i) == Val32(x[..i]) + Val32(notLow[..i]) + 1
    {
      ghost var cin, rs := carry, xr[..i];
      carry := carry + x[i] + (B32 - 1 - xr[i]);
      xr[i] := carry % B32;
      carry := carry / B32;
      AddStep(Val32(rs) - 1, cin, carry, xr[i], Val32(x[..i]), x[i], Val32(notLow[..i]), notLow[i], W32(i));
      ValPrefixSnoc(x, i);
      ValPrefixSnoc(notLow, i);
      assert xr[..i + 1] == rs + [xr[i]];
      Val32Snoc(rs, xr[i]);
    }
    assert notLow[..8] == notLow;
    c := BorrowFromCarry(low, Val32(xr[..8]), carry, Val32(x[..8]));
  }

  lemma BorrowFromCarry(low: seq<u32>, r: int, carry: int, x: int) returns (c: int)
    requires |low| == 8
    requires r + carry * W32(8) == x + Val32(Complement(low)) + 1
    ensures r + c * W256 == x - Val32(low)
  {
    ComplementVal(low);
    LLimbs();
    c := carry - 1;
  }

  lemma SubtractionExact(x: seq<u32>, quot: seq<u32>, low: int, wraps: int, diff: seq<u32>, c: int)
    requires |x| == 16 && |quot| == 9 && |diff| == 8
    requires 0 <= Val32(x) - Val32(quot) * L < 2 * L
    requires low + wraps * W256 == Val32(quot[..8]) * L
    requires Val32(diff) + c * W256 == Val32(x[..8]) - low
    ensures Val32(diff) == Val32(x) - Val32(quot) * L
  {
    LLimbs();
    Val32Split(quot, 8);
    Val32Split(x, 8);
    Val32Bound(diff);
    TruncatedDifference(Val32(x), Val32(quot), Val32(x[..8]), Val32(x[8..]), Val32(quot[..8]), Val32(quot[8..]),
                        low, wraps, Val32(diff), c);
  }

  /** mod_l: Barrett reduction of a 512-bit number, in place over xr[25]. */
  method ModL(x: seq<u32>) returns (reduced: seq<u8>)
    requires |x| == 16
    ensures |reduced| == 32 && Val8(reduced) == Val32(x) % L
  {
    var xr := new u32[25](_ => 0);
    EstimateQuotient(xr, x);
    ghost var quot := xr[16..];
    ghost var wraps := QuotientTimesL(xr);
    ghost var low := Val32(xr[..8]);
    assert xr[16..24] == quot[..8];
    ghost var c := Subtract(xr, x);
    SubtractionExact(x, quot, low, wraps, xr[..8], c);
    assert xr[0..0 + 8] == xr[..8];
    RemoveL(xr, xr, 0);
    BarrettRemainder(Val32(x), Val32(quot), Val32(xr[..8]));
    reduced := StoreLimbs(xr[..8]);
    StoreLimbsVal(xr[..8]);
  }

  /** Computing only the low 256 bits of x - q*L loses nothing, since the true
      difference is below 2*L. */
  lemma TruncatedDifference(x: int, q: int, x0: int, x1: int, q0: int, q1: int, low: int, wraps: int, diff: int, c: int)
    requires x == x0 + W256 * x1 && q == q0 + W256 * q1
    requires low + wraps * W256 == q0 * L
    requires 0 <= diff < W256
    requires diff + c * W256 == x0 - low
    requires 0 <= x - q * L < 2 * L
    ensures diff == x - q * L
  {
    var k := c - wraps + x1 - q1 * L;
    calc {
      x - q * L;
      x0 + W256 * x1 - (q0 * L) - (W256 * q1) * L;
      { assert (W256 * q1) * L == (q1 * L) * W256; }
      x0 + W256 * x1 - low - wraps * W256 - (q1 * L) * W256;
      diff + k * W256;
    }
    assert k >= 1 ==> k * W256 >= W256;
    assert k <= -1 ==> k * W256 <= -W256;
  }

  lemma BarrettRemainder(x: int, q: int, r: int)
    requires x >= 0
    requires 0 <= x - q * L < 2 * L
    requires r == (if x - q * L >= L then x - q * L - L else x - q * L)
    ensures r == x % L
  {
    if x - q * L >= L {
      DivModUnique(x, L, q + 1, r);
    } else {
      DivModUnique(x, L, q, r);
    }
  }

  /** crypto_eddsa_reduce: a 64-byte string modulo L. */
  method EddsaReduce(expanded: seq<u8>) returns (reduced: seq<u8>)
    requires |expanded| == 64
    ensures |reduced| == 32 && Val8(reduced) == Val8(expanded) % L
  {
    LoadLimbsVal(expanded);
    reduced := ModL(LoadLimbs(expanded));
  }

  /** crypto_eddsa_mul_add: r = a*b + c modulo L, for any 32-byte strings. */
  method EddsaMulAdd(a: seq<u8>, b: seq<u8>, c: seq<u8>) returns (r: seq<u8>)
    requires |a| == |b| == |c| == 32
    ensures |r| == 32 && Val8(r) == (Val8(a) * Val8(b) + Val8(c)) % L
  {
    var A, B, C := LoadLimbs(a), LoadLimbs(b), LoadLimbs(c);
    LoadLimbsVal(a);
    LoadLimbsVal(b);
    LoadLimbsVal(c);
    var p := new u32[16](i requires 0 <= i < 16 => if i < 8 then C[i] else 0);
    assert p[..8] == C;
    MultiplyAcc(p, A, B);
    assert p[..16] == p[..];
    r := ModL(p[..]);
  }

  // ---- Montgomery reduction ---------------------------------------------------

  const K: int := 0x9db6c6f26fe91836_14e75438ffa36bea_b1a206f2fdba84ff_d2b51da312547e1b
  /** (K*L + 1) / 2^256, an integer: K is minus the inverse of L. */
  const KL_QUOTIENT: int := 0x9db6c6f26fe91836_14e75438ffa36beb_7f5c66a973f754cc_766cca43d5f0d24

  const K_LIMBS: seq<u32> := [
    0x12547e1b, 0xd2b51da3, 0xfdba84ff, 0xb1a206f2,
    0xffa36bea, 0x14e75438, 0x6fe91836, 0x9db6c6f2]

  lemma KLimbs()
    ensures |K_LIMBS| == 8 && Val32(K_LIMBS) == K
  {
    Val32Of8(K_LIMBS);
  }

  /** x plus s*L vanishes in its low 256 bits when s = x*K modulo 2^256. */
  lemma MontgomeryMultiple(x: int, x0: int, x1: int, s: int, wraps: int) returns (y: int)
    requires x == x0 + W256 * x1
    requires s + wraps * W256 == x0 * K
    ensures x + s * L == y * W256
  {
    assert K * L + 1 == KL_QUOTIENT * W256;
    y := x0 * KL_QUOTIENT - wraps * L + x1;
    calc {
      x + s * L;
      x0 + W256 * x1 + (x0 * K - wraps * W256) * L;
      { assert (x0 * K - wraps * W256) * L == x0 * (K * L) - (wraps * L) * W256; }
      x0 * (K * L + 1) - (wraps * L) * W256 + W256 * x1;
      x0 * (KL_QUOTIENT * W256) - (wraps * L) * W256 + W256 * x1;
      { assert x0 * (KL_QUOTIENT * W256) == (x0 * KL_QUOTIENT) * W256; }
      (x0 * KL_QUOTIENT) * W256 - (wraps * L) * W256 + W256 * x1;
      y * W256;
    }
  }

  lemma MontgomeryBound(x: int, s: int, y: int)
    requires 0 <= x < L * W256 && 0 <= s < W256
    requires x + s * L == y * W256
    ensures 0 <= y < 2 * L
  {
    assert s * L <= W256 * L;
  }

  /** s = x*K modulo 2^256, so that x + s*L is a multiple of 2^256. */
  method MontgomeryFactor(x: seq<u32>) returns (sl: array<u32>, ghost y: int)
    requires |x| == 16 && Val32(x) < L * W256
    ensures fresh(sl) && sl.Length == 8
    ensures Val32(x) + Val32(sl[..]) * L == y * W256 && 0 <= y < 2 * L
  {
    hide Val32, W32;
    sl := new u32[8](_ => 0);
    Val32Zeros(sl[..8]);
    ghost var wraps := MultiplyLow(sl, x[..8], K_LIMBS);
    assert sl[..8] == sl[..];
    ghost var s := Val32(sl[..]);
    KLimbs();
    LLimbs();
    Val32Split(x, 8);
    Val32Bound(sl[..]);
    y := MontgomeryMultiple(Val32(x), Val32(x[..8]), Val32(x[8..]), s, wraps);
    MontgomeryBound(Val32(x), s, y);
  }

  /** t = x + s*L, a multiple of 2^256 below 2*L*2^256. */
  method MontgomerySum(t: array<u32>, x: seq<u32>) returns (ghost s: int, ghost y: int)
    requires t.Length == |x| == 16 && Val32(x) < L * W256
    requires forall k :: 0 <= k < 16 ==> t[k] == 0
    modifies t
    ensures Val32(x) + s * L == y * W256 && 0 <= y < 2 * L
    ensures Val32(t[..]) == y * W256
  {
    Val32Zeros(t[..8]);
    var sl;
    sl, y := MontgomeryFactor(x);
    s := Val32(sl[..]);
    LLimbs();
    MultiplyAcc(t, sl[..], L_LIMBS);
    assert t[..16] == t[..];
    var carry := AddIn(t, x);
    NoFinalCarry(t[..], carry, y * W256);
  }

  /** redc: for x < L*2^256 the result u is below L and u*2^256 is congruent to x. */
  method Redc(u: array<u32>, x: seq<u32>)
    requires u.Length == 8 && |x| == 16 && Val32(x) < L * W256
    modifies u
    ensures Val32(u[..]) < L
    ensures (Val32(u[..]) * W256) % L == Val32(x) % L
  {
    var t := new u32[16](_ => 0);
    ghost var s, y := MontgomerySum(t, x);
    LLimbs();
    Val32Multiple(t[..], 8, y);
    assert t[8..8 + 8] == t[..][8..];
    RemoveL(u, t, 8);
    assert u[..8] == u[..];
    MontgomeryResult(Val32(x), s, y, Val32(u[..]));
  }

  lemma MontgomeryResult(x: int, s: int, y: int, u: int)
    requires x + s * L == y * W256
    requires u == (if y >= L then y - L else y)
    ensures (u * W256) % L == x % L
  {
    if y >= L {
      assert u * W256 == x + (s - W256) * L;
      ModShift(x, s - W256, L);
    } else {
      ModShift(x, s, L);
    }
  }

  /** t += x over sixteen limbs. */
  method AddIn(t: array<u32>, x: seq<u32>) returns (carry: u64)
    requires t.Length == |x| == 16
    modifies t
    ensures carry <= 1
    ensures Val32(t[..]) + carry * W32(16) == old(Val32(t[..])) + Val32(x)
  {
    carry := 0;
    ghost var was := t[..];
    assert Val32(x[..0]) == 0 && Val32(was[..0]) == 0 && Val32(t[..0]) == 0;
    for i := 0 to 16
      invariant carry <= 1
      invariant forall k :: i <= k < 16 ==> t[k] == was[k]
      invariant Val32(t[..i]) + carry * W32(i) == Val32(was[..i]) + Val32(x[..i])
    {
      ghost var c, ts := carry, t[..i];
      carry := carry + t[i] + x[i];
      t[i] := carry % B32;
      carry := carry / B32;
      AddStep(Val32(ts), c, carry, t[i], Val32(was[..i]), was[i], Val32(x[..i]), x[i], W32(i));
      ValPrefixSnoc(was, i);
      ValPrefixSnoc(x, i);
      assert t[..i + 1] == ts + [t[i]];
      Val32Snoc(ts, t[i]);
    }
    assert was[..16] == was && x[..16] == x && t[..16] == t[..];
  }

  /** The final carry is zero when the sum fits. */
  lemma NoFinalCarry(t: seq<u32>, carry: int, total: int)
    requires |t| == 16 && carry >= 0
    requires Val32(t) + carry * W32(16) == total < W512
    ensures Val32(t) == total
  {
    RLimbs();
    Val32Bound(t);
    CarryOut(Val32(t), carry, W512, total);
  }
}
