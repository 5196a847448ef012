/** crypto_x25519_inverse: a scalar inverted modulo L by exponentiation in
    Montgomery form, then lifted to a multiple of the cofactor. */
module ScalarInverse {
  import opened Arith
  import opened Words
  import opened Bits
  import opened Limbs
  import opened ScalarL
  import opened FieldInvert
  import opened Ladder
  import FieldBytes

  const LM2_LIMBS: seq<u32> := [
    0x5cf5d3eb, 0x5812631a, 0xa2f79cd6, 0x14def9de,
    0x00000000, 0x00000000, 0x00000000, 0x10000000]

  /** The 32 bytes of L - 2. */
  const LM2: seq<u8> := StoreLimbs(LM2_LIMBS)

  const M_ONE: seq<u32> := [
    0x8d98951d, 0xd6ec3174, 0x737dcf70, 0xc6ef5bf4,
    0xfffffffe, 0xffffffff, 0xffffffff, 0x0fffffff]

  /** The inverse of 2^256 modulo L, and the quotient that shows it. */
  const W_INVERSE: int := 0x9db6c6f26fe9183614e75438ffa36beb7f5c66a973f754cc766cca43d5f0d24
  const W_QUOTIENT: int := 0x9db6c6f26fe9183614e75438ffa36beab1a206f2fdba84ffd2b51da312547e1b

  lemma Lm2Value()
    ensures |LM2| == 32 && Val8(LM2) == L - 2
  {
    hide Val8;
    StoreLimbsVal(LM2_LIMBS);
    Val32Of8(LM2_LIMBS);
  }

  /** One in Montgomery form is 2^256 modulo L. */
  lemma MontgomeryOne()
    ensures |M_ONE| == 8 && Val32(M_ONE) < L && Val32(M_ONE) % L == W256 % L
  {
    Val32Of8(M_ONE);
    ModEq(W256, Val32(M_ONE), 15, L);
  }

  /** 2^256 may be cancelled modulo L. */
  lemma CancelW(a: int, b: int)
    requires (a * W256) % L == (b * W256) % L
    ensures a % L == b % L
  {
    var k := ModWitness(a * W256, b * W256, L);
    assert W256 * W_INVERSE == 1 + W_QUOTIENT * L;
    var x := a - b;
    assert x * W256 == k * L;
    assert (x * W256) * W_INVERSE == x * (W256 * W_INVERSE);
    assert x * (1 + W_QUOTIENT * L) == x + (x * W_QUOTIENT) * L;
    assert (k * L) * W_INVERSE == (k * W_INVERSE) * L;
    assert x == (k * W_INVERSE - x * W_QUOTIENT) * L;
    ModEq(a, b, k * W_INVERSE - x * W_QUOTIENT, L);
  }

  /** m is x in Montgomery form. */
  ghost predicate Represents(m: seq<u32>, x: int)
  {
    |m| == 8 && Val32(m) < L && Val32(m) % L == (x * W256) % L
  }

  lemma RegroupFactors(x: int, y: int, w: int)
    ensures (x * w) * (y * w) == ((x * y) * w) * w
  {
    assert (x * w) * (y * w) == x * (w * (y * w)) == x * ((y * w) * w) == (x * (y * w)) * w;
    assert x * (y * w) == (x * y) * w;
  }

  lemma MontgomeryProduct(u: int, a: int, b: int, x: int, y: int)
    requires (u * W256) % L == (a * b) % L
    requires a % L == (x * W256) % L && b % L == (y * W256) % L
    ensures u % L == ((x * y) * W256) % L
  {
    var xw, yw, p := x * W256, y * W256, (x * y) * W256;
    ModMul(a, b, xw, yw, L);
    RegroupFactors(x, y, W256);
    CancelW(u, p);
  }

  /** product = a*b; m = redc(product): a multiplication in Montgomery form. */
  method MontgomeryMultiply(m: array<u32>, a: seq<u32>, b: seq<u32>, ghost x: int, ghost y: int)
    requires m.Length == 8 && Represents(a, x) && Represents(b, y)
    modifies m
    ensures Represents(m[..], x * y)
  {
    var product := new u32[16](_ => 0);
    Val32Zeros(product[..8]);
    MultiplyAcc(product, a, b);
    assert product[..16] == product[..];
    NatMulBound(Val32(a), Val32(b), L, L);
    Redc(m, product[..]);
    MontgomeryProduct(Val32(m[..]), Val32(a), Val32(b), x, y);
  }

  lemma PowSquare(s: int, e: nat)
    ensures Pow(s, e) * Pow(s, e) == Pow(s, 2 * e)
    ensures Pow(s, 2 * e) * s == Pow(s, 2 * e + 1)
  {
    PowAdd(s, e, e);
    PowAdd(s, 2 * e, 1);
    assert Pow(s, 1) == s * Pow(s, 0);
  }

  /** The 253 square-and-multiply steps: the power L-2 in Montgomery form. */
  method PowerLoop(mInv: array<u32>, mScl: seq<u32>, ghost s: int)
    requires mInv.Length == 8 && mInv[..] == M_ONE && Represents(mScl, s)
    modifies mInv
    ensures Represents(mInv[..], Pow(s, L - 2))
  {
    hide Represents, Bit, ScalarBit, Pow, Pow2, Val8, StoreLimbs, Store32;
    Lm2Value();
    StartExponent(s, mInv[..]);
    ghost var e := 0;
    for i := 253 downto 0
      invariant e == (L - 2) / Pow2(i)
      invariant Represents(mInv[..], Pow(s, e))
    {
      MontgomeryMultiply(mInv, mInv[..], mInv[..], Pow(s, e), Pow(s, e));
      PowSquare(s, e);
      ScalarBitIsBit(LM2, i);
      ShiftBit(L - 2, i);
      e := 2 * e;
      if ScalarBit(LM2, i) != 0 {
        MontgomeryMultiply(mInv, mInv[..], mScl, Pow(s, e), s);
        e := e + 1;
      }
    }
    assert Pow2(0) == 1 by { Pow2Zero(); }
  }

  lemma Pow2Zero()
    ensures Pow2(0) == 1
  {
  }

  lemma StartExponent(s: int, m: seq<u32>)
    requires m == M_ONE
    ensures Represents(m, Pow(s, 0)) && (L - 2) / Pow2(253) == 0
  {
    hide Pow2;
    MontgomeryOne();
    TopPower();
    ShiftBeyond(L - 2, 253);
  }

  lemma Pow2One()
    ensures Pow2(1) == 2
  {
  }

  lemma TopPower()
    ensures Pow2(253) == 0x2000000000000000_0000000000000000_0000000000000000_0000000000000000
  {
    hide Pow2;
    Pow2Eight();
    Pow2One();
    Pow2Add(8, 8);
    Pow2Add(16, 16);
    Pow2Add(32, 32);
    Pow2Add(64, 64);
    Pow2Add(128, 64);
    Pow2Add(192, 32);
    Pow2Add(224, 16);
    Pow2Add(240, 8);
    Pow2Add(248, 4);
    Pow2Add(252, 1);
  }

  // ---- clearing the cofactor ---------------------------------------------------------

  lemma ScaledStep(lo: int, c: int, c': int, limb: int, vs: int, x: int, m: int, vl: int, l: int, w: int)
    requires lo + c * w == vs + m * vl
    requires limb + B32 * c' == c + x + l * m
    ensures (lo + w * limb) + c' * (B32 * w) == (vs + w * x) + m * (vl + w * l)
  {
    AddStep(lo, c, c', limb, vs, x, m * vl, l * m, w);
    assert m * (vl + w * l) == m * vl + w * (l * m);
  }

  /** add_xl: s + (x mod 8)*L, cut at 256 bits. */
  method AddXL(s: seq<u8>, x: u8) returns (r: seq<u8>, ghost carry: u64)
    requires |s| == 32
    ensures |r| == 32 && Val8(r) + carry * W256 == Val8(s) + (x % 8) * L
  {
    hide Val8, StoreLimbs, LoadLimbs, Load32, Store32;
    var mod8 := x % 8;
    var c: u64 := 0;
    ghost var limbs := LoadLimbs(s);
    ghost var done: seq<u32> := [];
    r := [];
    EmptyPrefixes(limbs, done);
    for i := 0 to 8
      invariant c < B32 && |done| == i && |r| == 4 * i && r == StoreLimbs(done)
      invariant Val32(done) + c * W32(i) == Val32(limbs[..i]) + mod8 * Val32(L_LIMBS[..i])
    {
      ghost var c0 := c;
      LoadLimbAt(s, i);
      c := c + Load32(s[4 * i..4 * i + 4]) + L_LIMBS[i] * mod8;
      r := r + Store32(c % B32);
      StoreLimbsSnoc(done, c % B32);
      ghost var limb: u32 := c % B32;
      c := c / B32;
      ScaledStep(Val32(done), c0, c, limb, Val32(limbs[..i]), limbs[i], mod8, Val32(L_LIMBS[..i]), L_LIMBS[i], W32(i));
      ValPrefixSnoc(limbs, i);
      ValPrefixSnoc(L_LIMBS, i);
      Val32Snoc(done, limb);
      done := done + [limb];
    }
    carry := c;
    assert limbs[..8] == limbs && L_LIMBS[..8] == L_LIMBS;
    LLimbs();
    LoadLimbsVal(s);
    StoreLimbsVal(done);
  }

  lemma EmptyPrefixes(s: seq<u32>, t: seq<u32>)
    requires t == []
    ensures Val32(s[..0]) == 0 && Val32(t) == 0 && StoreLimbs(t) == [] && Val32(L_LIMBS[..0]) == 0 && W32(0) == 1
  {
  }

  lemma FiveTimes(v: nat, q: int)
    requires q == (3 * v) % 8
    ensures (v + 5 * q) % 8 == 0
  {
  }

  lemma TripleByte(v: nat)
    ensures ((((v % 256) * 3) % 256) % 8) == (3 * v) % 8
  {
  }

  lemma NoOverflow(v: nat, q: int, c: int, carry: int)
    requires v < L && 0 <= q < 8 && carry >= 0 && 0 <= c < W256
    requires c + carry * W256 == v + q * L
    ensures c == v + q * L < 8 * L
  {
  }

  lemma AddEights(c: int, a: int, k: int)
    requires a % 8 == 0 && c == a + 8 * k
    ensures c % 8 == 0
  {
  }

  /** Adding (3v mod 8)*L makes v a multiple of the cofactor and keeps it modulo L. */
  lemma CofactorCleared(v: nat, byte: int, c: int, carry: int)
    requires v < L && byte == v % 256 && carry >= 0 && 0 <= c < W256
    requires c + carry * W256 == v + (((byte * 3) % 256) % 8) * L
    ensures c < 8 * L && c % 8 == 0 && c % L == v
  {
    var q := (3 * v) % 8;
    TripleByte(v);
    NoOverflow(v, q, c, carry);
    FiveTimes(v, q);
    AddEights(c, v + 5 * q, q * (L / 8));
    DivModUnique(c, L, q, v);
  }

  lemma LowByte(s: seq<u8>)
    requires |s| > 0
    ensures s[0] == Val8(s) % 256
  {
    DivModUnique(Val8(s), 256, Val8(s[1..]), s[0]);
  }

  const ZEROS: seq<u32> := [0, 0, 0, 0, 0, 0, 0, 0]

  lemma ShiftUp(s: seq<u32>)
    ensures Val32(ZEROS + s) == Val32(s) * W256
    ensures Val32(s + ZEROS) == Val32(s)
  {
    hide Val32, W32, Complement;
    Val32Append(ZEROS, s);
    Val32Append(s, ZEROS);
    Val32Zeros(ZEROS);
    LLimbs();
  }

  lemma ReducedRepresents(m: seq<u32>, x: int)
    requires |m| == 8 && Val32(m) == (x * W256) % L
    ensures Represents(m, x)
  {
    ModSelf(x * W256, L);
  }

  /** The scalar times 2^256, reduced: its Montgomery form. */
  method ToMontgomery(scalar: seq<u8>) returns (m: seq<u32>)
    requires |scalar| == 32
    ensures Represents(m, Val8(scalar))
  {
    hide Val8, Val32, StoreLimbs, Represents;
    var tmp := ZEROS + LoadLimbs(scalar);
    LoadLimbsVal(scalar);
    ShiftUp(LoadLimbs(scalar));
    var reduced := ModL(tmp);
    LoadLimbsVal(reduced);
    m := LoadLimbs(reduced);
    ReducedRepresents(m, Val8(scalar));
  }

  lemma LeaveMontgomery(u: int, m: int, x: int)
    requires 0 <= u < L && (u * W256) % L == m % L && m % L == (x * W256) % L
    ensures u == x % L
  {
    CancelW(u, x);
    DivModUnique(u, L, 0, u);
  }

  lemma BelowProduct(m: int)
    requires m < L
    ensures m < L * W256
  {
  }

  /** Out of Montgomery form: one more reduction. */
  method FromMontgomery(m: array<u32>, ghost x: int)
    requires m.Length == 8 && Represents(m[..], x)
    modifies m
    ensures Val32(m[..]) == x % L
  {
    hide Val32;
    ghost var m0 := Val32(m[..]);
    ShiftUp(m[..]);
    BelowProduct(m0);
    Redc(m, m[..] + ZEROS);
    LeaveMontgomery(Val32(m[..]), m0, x);
  }

  /** What the blinding scalar is: the power L-2 of s modulo L, zero modulo 8. */
  ghost predicate Blinds(c: nat, s: nat)
  {
    c < 8 * L && c % 8 == 0 && c % L == Pow(s, L - 2) % L
  }

  /** The power L-2 of the scalar, as bytes. */
  method InvertScalar(scalar: seq<u8>) returns (r: seq<u8>)
    requires |scalar| == 32
    ensures |r| == 32 && Val8(r) == Pow(Val8(scalar), L - 2) % L
  {
    hide Val8, Val32, StoreLimbs, Pow, Represents;
    var mScl := ToMontgomery(scalar);
    var mInv := new u32[8](i requires 0 <= i < 8 => M_ONE[i]);
    assert mInv[..] == M_ONE;
    PowerLoop(mInv, mScl, Val8(scalar));
    FromMontgomery(mInv, Pow(Val8(scalar), L - 2));
    r := StoreLimbs(mInv[..]);
    StoreLimbsVal(mInv[..]);
  }

  /** The scalar part of crypto_x25519_inverse. */
  method BlindingScalar(scalar: seq<u8>) returns (r: seq<u8>)
    requires |scalar| == 32
    ensures |r| == 32 && Blinds(Val8(r), Val8(scalar))
  {
    hide Val8, StoreLimbs, Pow;
    r := InvertScalar(scalar);
    LowByte(r);
    ghost var v := Val8(r);
    ghost var carry;
    r, carry := AddXL(r, Triple(r[0]));
    ByteStringBound(r);
    CofactorCleared(v, v % 256, Val8(r), carry);
  }

  /** (u8)(byte * 3). */
  function Triple(byte: int): int
  {
    (byte * 3) % 256
  }

  lemma ByteStringBound(r: seq<u8>)
    requires |r| == 32
    ensures Val8(r) < W256
  {
    hide Val8, Val32, W32, LoadLimbs;
    LoadLimbsVal(r);
    Val32Bound(LoadLimbs(r));
    LLimbs();
  }

  /** crypto_x25519_inverse. */
  method X25519Inverse(privateKey: seq<u8>, curvePoint: seq<u8>) returns (salt: seq<u8>, ghost c: nat)
    requires |privateKey| == 32 && |curvePoint| == 32 && PrimeField()
    ensures Blinds(c, Val8(Trim(privateKey)))
    ensures |salt| == 32 && Val8(salt) == X25519Value(c, Val8(curvePoint) % FieldBytes.W255, 256)
  {
    hide Val8, X25519Value, Blinds, PrimeField, Trim;
    var scalar := BlindingScalar(Trim(privateKey));
    c := Val8(scalar);
    salt := Scalarmult(scalar, curvePoint, 256);
  }

  /** What primality of L gives: Fermat's little theorem. */
  ghost predicate PrimeOrder()
  {
    forall s: int :: s % L != 0 ==> Pow(s, L - 1) % L == 1
  }

  function TimesL(k: int): int { k * L }

  /** s and c are inverse to each other modulo L. */
  ghost predicate InverseModL(s: int, c: int)
  {
    exists k :: s * c == 1 + TimesL(k)
  }

  /** L being prime, the blinding scalar inverts every s that L does not divide. */
  lemma BlindingInverts(c: nat, s: nat)
    requires PrimeOrder() && Blinds(c, s) && s % L != 0
    ensures InverseModL(s, c)
  {
    ModMul(s, c, s, Pow(s, L - 2), L);
    assert Pow(s, L - 1) == s * Pow(s, L - 2);
    var k := ModWitness(s * c, 1, L);
    assert s * c == 1 + TimesL(k);
  }
}
