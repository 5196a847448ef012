/** What the functions and constants of section 4 of FIPS 180-4 are, stated bit by
    bit and prime by prime. */
module Sha512Laws {
  import opened Arith
  import opened Words
  import opened Bits
  import opened Primes
  import opened Sha512Spec
  import Stream = Sha512Stream

  // ---- bits of the round functions ----------------------------------------------------

  lemma BitOfShiftedRight(x: Word, c: nat, i: nat)
    requires i < 64
    ensures Bit(Shr(x, c), i) == if i + c < 64 then Bit(x, i + c) else 0
  {
    hide Bit, Pow2;
    BitOfShr(x, c, i);
    if i + c >= 64 {
      Pow2Words();
      Pow2Mono(64, i + c);
      BitZeroBeyond(x, i + c);
    }
  }

  lemma BitOfShiftedLeft(x: Word, d: nat, i: nat)
    requires i < 64
    ensures Bit(Shl(x, d), i) == if i < d then 0 else Bit(x, i - d)
  {
    hide Bit, Pow2;
    Pow2Words();
    BitOfShl(x, d, i);
    BitOfMod(x * Pow2(d), 64, i);
  }

  /** A rotation by c takes its bit i from place i + c, around the end of the word. */
  lemma BitOfRotation(x: Word, c: nat, i: nat)
    requires 0 < c < 64 && i < 64
    ensures Bit(Rot(x, c), i) == Bit(x, (i + c) % 64)
  {
    hide Bit, Pow2, Shr, Shl, BitOr;
    BitOfOr(Shr(x, c), Shl(x, 64 - c), i);
    BitOfShiftedRight(x, c, i);
    BitOfShiftedLeft(x, 64 - c, i);
  }

  lemma BitOfSum(x: Word, y: Word, z: Word, i: nat)
    ensures Bit(Xor(Xor(x, y), z), i) == (Bit(x, i) + Bit(y, i) + Bit(z, i)) % 2
  {
    hide Bit, BitXor, Pow2;
    BitOfXor(x, y, i);
    BitOfXor(Xor(x, y), z, i);
  }

  /** Ch chooses by the bits of x. */
  lemma ChChooses(x: Word, y: Word, z: Word, i: nat)
    requires i < 64
    ensures Bit(Ch(x, y, z), i) == if Bit(x, i) == 1 then Bit(y, i) else Bit(z, i)
  {
    hide Bit, BitXor, BitAnd, Pow2;
    Pow2Words();
    BitOfNot(x, 64, i);
    BitOfAnd(x, y, i);
    BitOfAnd(B64 - 1 - x, z, i);
    BitOfXor(BitAnd(x, y), BitAnd(B64 - 1 - x, z), i);
  }

  /** Maj is the majority of the three bits. */
  lemma MajDecides(x: Word, y: Word, z: Word, i: nat)
    ensures Bit(Maj(x, y, z), i) == if Bit(x, i) + Bit(y, i) + Bit(z, i) >= 2 then 1 else 0
  {
    hide Bit, BitXor, BitAnd, Pow2, Xor;
    BitOfAnd(x, y, i);
    BitOfAnd(x, z, i);
    BitOfAnd(y, z, i);
    BitOfSum(BitAnd(x, y), BitAnd(x, z), BitAnd(y, z), i);
  }

  lemma BigSigmasMix(x: Word, i: nat)
    requires i < 64
    ensures Bit(BigSigma0(x), i) == (Bit(x, (i + 28) % 64) + Bit(x, (i + 34) % 64) + Bit(x, (i + 39) % 64)) % 2
    ensures Bit(BigSigma1(x), i) == (Bit(x, (i + 14) % 64) + Bit(x, (i + 18) % 64) + Bit(x, (i + 41) % 64)) % 2
  {
    hide Bit, Rot, Xor;
    BitOfRotation(x, 28, i);
    BitOfRotation(x, 34, i);
    BitOfRotation(x, 39, i);
    BitOfSum(Rot(x, 28), Rot(x, 34), Rot(x, 39), i);
    BitOfRotation(x, 14, i);
    BitOfRotation(x, 18, i);
    BitOfRotation(x, 41, i);
    BitOfSum(Rot(x, 14), Rot(x, 18), Rot(x, 41), i);
  }

  lemma LitSigmasMix(x: Word, i: nat)
    requires i < 64
    ensures Bit(LitSigma0(x), i)
         == (Bit(x, (i + 1) % 64) + Bit(x, (i + 8) % 64) + if i + 7 < 64 then Bit(x, i + 7) else 0) % 2
    ensures Bit(LitSigma1(x), i)
         == (Bit(x, (i + 19) % 64) + Bit(x, (i + 61) % 64) + if i + 6 < 64 then Bit(x, i + 6) else 0) % 2
  {
    hide Bit, Rot, Shr, Xor;
    BitOfRotation(x, 1, i);
    BitOfRotation(x, 8, i);
    BitOfShiftedRight(x, 7, i);
    BitOfSum(Rot(x, 1), Rot(x, 8), Shr(x, 7), i);
    BitOfRotation(x, 19, i);
    BitOfRotation(x, 61, i);
    BitOfShiftedRight(x, 6, i);
    BitOfSum(Rot(x, 19), Rot(x, 61), Shr(x, 6), i);
  }

  // ---- constants ------------------------------------------------------------------------

  /** v is what 64 bits show of the fractional part of the square root of p, whose
      whole part is n. */
  predicate SquareRoot(v: Word, p: nat, n: nat)
  {
    var x := n * B64 + v;
    x * x <= p * B64 * B64 < (x + 1) * (x + 1)
  }

  /** The same for the cube root. */
  predicate CubeRoot(v: Word, p: nat, n: nat)
  {
    var x := n * B64 + v;
    x * x * x <= p * B64 * B64 * B64 < (x + 1) * (x + 1) * (x + 1)
  }

  /** v comes from the square root of the prime with t primes below it. */
  ghost predicate OfSquareRoot(v: Word, t: nat)
  {
    exists p: nat, n: nat :: IsPrime(p) && PrimesBelow(p) == t && SquareRoot(v, p, n)
  }

  /** v comes from the cube root of that prime. */
  ghost predicate OfCubeRoot(v: Word, t: nat)
  {
    exists p: nat, n: nat :: IsPrime(p) && PrimesBelow(p) == t && CubeRoot(v, p, n)
  }

  lemma SquareAt(v: Word, t: nat, n: nat)
    requires t < 80 && |TABLE| == 80 && SquareRoot(v, TABLE[t], n)
    ensures OfSquareRoot(v, t)
  {
    hide TABLE, IsPrime, PrimesBelow, SquareRoot;
    TableCounts(t);
  }

  lemma CubeAt(v: Word, t: nat, p: nat, n: nat)
    requires t < 80 && |TABLE| == 80 && TABLE[t] == p && CubeRoot(v, p, n)
    ensures OfCubeRoot(v, t)
  {
    hide TABLE, IsPrime, PrimesBelow, CubeRoot;
    TableCounts(t);
  }

  lemma FirstPrimes()
    ensures |TABLE| == 80
    ensures TABLE[0] == 2 && TABLE[1] == 3 && TABLE[2] == 5 && TABLE[3] == 7
    ensures TABLE[4] == 11 && TABLE[5] == 13 && TABLE[6] == 17 && TABLE[7] == 19
  {
    hide P1, P2, P3, P4;
    RowsAreLong();
  }

  /** The initial hash value: the square roots of the first eight primes. */
  lemma InitialValue()
    ensures OfSquareRoot(IV.a, 0) && OfSquareRoot(IV.b, 1) && OfSquareRoot(IV.c, 2) && OfSquareRoot(IV.d, 3)
    ensures OfSquareRoot(IV.e, 4) && OfSquareRoot(IV.f, 5) && OfSquareRoot(IV.g, 6) && OfSquareRoot(IV.h, 7)
  {
    hide TABLE, OfSquareRoot;
    FirstPrimes();
    SquareAt(IV.a, 0, 1);
    SquareAt(IV.b, 1, 1);
    SquareAt(IV.c, 2, 2);
    SquareAt(IV.d, 3, 2);
    SquareAt(IV.e, 4, 3);
    SquareAt(IV.f, 5, 3);
    SquareAt(IV.g, 6, 4);
    SquareAt(IV.h, 7, 4);
  }

  lemma Roots0a(i: nat)
    requires 0 <= i < 8
    ensures |K0| == |P0| == 16
    ensures exists n: nat :: CubeRoot(K0[i], P0[i], n)
  {
    assert CubeRoot(K0[0], P0[0], 1);
    assert CubeRoot(K0[1], P0[1], 1);
    assert CubeRoot(K0[2], P0[2], 1);
    assert CubeRoot(K0[3], P0[3], 1);
    assert CubeRoot(K0[4], P0[4], 2);
    assert CubeRoot(K0[5], P0[5], 2);
    assert CubeRoot(K0[6], P0[6], 2);
    assert CubeRoot(K0[7], P0[7], 2);
  }

  lemma Roots0b(i: nat)
    requires 8 <= i < 16
    ensures |K0| == |P0| == 16
    ensures exists n: nat :: CubeRoot(K0[i], P0[i], n)
  {
    assert CubeRoot(K0[8], P0[8], 2);
    assert CubeRoot(K0[9], P0[9], 3);
    assert CubeRoot(K0[10], P0[10], 3);
    assert CubeRoot(K0[11], P0[11], 3);
    assert CubeRoot(K0[12], P0[12], 3);
    assert CubeRoot(K0[13], P0[13], 3);
    assert CubeRoot(K0[14], P0[14], 3);
    assert CubeRoot(K0[15], P0[15], 3);
  }

  lemma Roots1a(i: nat)
    requires 0 <= i < 8
    ensures |K1| == |P1| == 16
    ensures exists n: nat :: CubeRoot(K1[i], P1[i], n)
  {
    assert CubeRoot(K1[0], P1[0], 3);
    assert CubeRoot(K1[1], P1[1], 3);
    assert CubeRoot(K1[2], P1[2], 4);
    assert CubeRoot(K1[3], P1[3], 4);
    assert CubeRoot(K1[4], P1[4], 4);
    assert CubeRoot(K1[5], P1[5], 4);
    assert CubeRoot(K1[6], P1[6], 4);
    assert CubeRoot(K1[7], P1[7], 4);
  }

  lemma Roots1b(i: nat)
    requires 8 <= i < 16
    ensures |K1| == |P1| == 16
    ensures exists n: nat :: CubeRoot(K1[i], P1[i], n)
  {
    assert CubeRoot(K1[8], P1[8], 4);
    assert CubeRoot(K1[9], P1[9], 4);
    assert CubeRoot(K1[10], P1[10], 4);
    assert CubeRoot(K1[11], P1[11], 4);
    assert CubeRoot(K1[12], P1[12], 4);
    assert CubeRoot(K1[13], P1[13], 4);
    assert CubeRoot(K1[14], P1[14], 5);
    assert CubeRoot(K1[15], P1[15], 5);
  }

  lemma Roots2a(i: nat)
    requires 0 <= i < 8
    ensures |K2| == |P2| == 16
    ensures exists n: nat :: CubeRoot(K2[i], P2[i], n)
  {
    assert CubeRoot(K2[0], P2[0], 5);
    assert CubeRoot(K2[1], P2[1], 5);
    assert CubeRoot(K2[2], P2[2], 5);
    assert CubeRoot(K2[3], P2[3], 5);
    assert CubeRoot(K2[4], P2[4], 5);
    assert CubeRoot(K2[5], P2[5], 5);
    assert CubeRoot(K2[6], P2[6], 5);
    assert CubeRoot(K2[7], P2[7], 5);
  }

  lemma Roots2b(i: nat)
    requires 8 <= i < 16
    ensures |K2| == |P2| == 16
    ensures exists n: nat :: CubeRoot(K2[i], P2[i], n)
  {
    assert CubeRoot(K2[8], P2[8], 5);
    assert CubeRoot(K2[9], P2[9], 5);
    assert CubeRoot(K2[10], P2[10], 5);
    assert CubeRoot(K2[11], P2[11], 5);
    assert CubeRoot(K2[12], P2[12], 5);
    assert CubeRoot(K2[13], P2[13], 5);
    assert CubeRoot(K2[14], P2[14], 5);
    assert CubeRoot(K2[15], P2[15], 6);
  }

  lemma Roots3a(i: nat)
    requires 0 <= i < 8
    ensures |K3| == |P3| == 16
    ensures exists n: nat :: CubeRoot(K3[i], P3[i], n)
  {
    assert CubeRoot(K3[0], P3[0], 6);
    assert CubeRoot(K3[1], P3[1], 6);
    assert CubeRoot(K3[2], P3[2], 6);
    assert CubeRoot(K3[3], P3[3], 6);
    assert CubeRoot(K3[4], P3[4], 6);
    assert CubeRoot(K3[5], P3[5], 6);
    assert CubeRoot(K3[6], P3[6], 6);
    assert CubeRoot(K3[7], P3[7], 6);
  }

  lemma Roots3b(i: nat)
    requires 8 <= i < 16
    ensures |K3| == |P3| == 16
    ensures exists n: nat :: CubeRoot(K3[i], P3[i], n)
  {
    assert CubeRoot(K3[8], P3[8], 6);
    assert CubeRoot(K3[9], P3[9], 6);
    assert CubeRoot(K3[10], P3[10], 6);
    assert CubeRoot(K3[11], P3[11], 6);
    assert CubeRoot(K3[12], P3[12], 6);
    assert CubeRoot(K3[13], P3[13], 6);
    assert CubeRoot(K3[14], P3[14], 6);
    assert CubeRoot(K3[15], P3[15], 6);
  }

  lemma Roots4a(i: nat)
    requires 0 <= i < 8
    ensures |K4| == |P4| == 16
    ensures exists n: nat :: CubeRoot(K4[i], P4[i], n)
  {
    assert CubeRoot(K4[0], P4[0], 6);
    assert CubeRoot(K4[1], P4[1], 6);
    assert CubeRoot(K4[2], P4[2], 6);
    assert CubeRoot(K4[3], P4[3], 6);
    assert CubeRoot(K4[4], P4[4], 7);
    assert CubeRoot(K4[5], P4[5], 7);
    assert CubeRoot(K4[6], P4[6], 7);
    assert CubeRoot(K4[7], P4[7], 7);
  }

  lemma Roots4b(i: nat)
    requires 8 <= i < 16
    ensures |K4| == |P4| == 16
    ensures exists n: nat :: CubeRoot(K4[i], P4[i], n)
  {
    assert CubeRoot(K4[8], P4[8], 7);
    assert CubeRoot(K4[9], P4[9], 7);
    assert CubeRoot(K4[10], P4[10], 7);
    assert CubeRoot(K4[11], P4[11], 7);
    assert CubeRoot(K4[12], P4[12], 7);
    assert CubeRoot(K4[13], P4[13], 7);
    assert CubeRoot(K4[14], P4[14], 7);
    assert CubeRoot(K4[15], P4[15], 7);
  }

  lemma ConstantRows()
    ensures |K0| == |K1| == |K2| == |K3| == |K4| == 16
  {
  }

  lemma RootAt(t: nat)
    requires t < 80
    ensures |K| == |TABLE| == 80
    ensures exists n: nat :: CubeRoot(K[t], TABLE[t], n)
  {
    hide CubeRoot, K0, K1, K2, K3, K4, P0, P1, P2, P3, P4;
    ConstantRows();
    RowsAreLong();
    RowEntry(P0, P1, P2, P3, P4, t);
    RowEntry(K0, K1, K2, K3, K4, t);
    if t < 8 {
      Roots0a(t);
    } else if t < 16 {
      Roots0b(t);
    } else if t < 24 {
      Roots1a(t - 16);
    } else if t < 32 {
      Roots1b(t - 16);
    } else if t < 40 {
      Roots2a(t - 32);
    } else if t < 48 {
      Roots2b(t - 32);
    } else if t < 56 {
      Roots3a(t - 48);
    } else if t < 64 {
      Roots3b(t - 48);
    } else if t < 72 {
      Roots4a(t - 64);
    } else {
      Roots4b(t - 64);
    }
  }

  /** The round constants: the cube roots of the first eighty primes. */
  lemma RoundConstants(t: nat)
    requires t < 80
    ensures |K| == 80 && OfCubeRoot(K[t], t)
  {
    hide CubeRoot, OfCubeRoot, K, TABLE;
    RootAt(t);
    var n: nat :| CubeRoot(K[t], TABLE[t], n);
    CubeAt(K[t], t, TABLE[t], n);
  }

  // ---- one round and one schedule word -----------------------------------------------------

  /** A word added to a sum, or a sum to a word. */
  lemma AddSum(x: int, y: int)
    ensures (x % B64 + y) % B64 == (x + y) % B64 && (y + x % B64) % B64 == (x + y) % B64
    ensures (x % B64 + y % B64) % B64 == (x + y) % B64
  {
    ModSelf(x, B64);
    ModSelf(y, B64);
    ModAdd(x % B64, y, x, y, B64);
    ModAdd(x % B64, y % B64, x, y, B64);
  }

  /** One more summand. */
  lemma AddTo(x: Word, t: int, y: Word)
    requires x == t % B64
    ensures Add(x, y) == (t + y) % B64
  {
    AddSum(t, y);
  }

  lemma AddTwo(x: Word, y: Word)
    ensures Add(x, y) == (x + y) % B64
  {
  }

  lemma AddFive(h: Word, s: Word, c: Word, k: Word, w: Word)
    ensures Add(Add(Add(Add(h, s), c), k), w) == (h + s + c + k + w) % B64
  {
    hide Add;
    AddTwo(h, s);
    AddTo(Add(h, s), h + s, c);
    AddTo(Add(Add(h, s), c), h + s + c, k);
    AddTo(Add(Add(Add(h, s), c), k), h + s + c + k, w);
  }

  /** Section 6.4.2, step 3: six variables move on, a and e are the two sums. */
  lemma RoundFormula(r: Regs, k: Word, w: Word)
    ensures var n, t1 := Round(r, k, w), r.h + BigSigma1(r.e) + Ch(r.e, r.f, r.g) + k + w;
            && n.b == r.a && n.c == r.b && n.d == r.c && n.f == r.e && n.g == r.f && n.h == r.g
            && n.e == (r.d + t1) % B64
            && n.a == (t1 + BigSigma0(r.a) + Maj(r.a, r.b, r.c)) % B64
  {
    hide BigSigma0, BigSigma1, Ch, Maj, Add;
    AddFive(r.h, BigSigma1(r.e), Ch(r.e, r.f, r.g), k, w);
    var t1: int := r.h + BigSigma1(r.e) + Ch(r.e, r.f, r.g) + k + w;
    AddIs(r.d, t1);
    TwoSums(t1, BigSigma0(r.a), Maj(r.a, r.b, r.c));
  }

  lemma AddIs(d: Word, t: int)
    ensures Add(d, t % B64) == (d + t) % B64
  {
    AddSum(t, d);
  }

  lemma TwoSums(t: int, s: Word, m: Word)
    ensures Add(t % B64, Add(s, m)) == (t + s + m) % B64
  {
    AddSum(t, s + m);
  }

  lemma FourSum(a: Word, b: Word, c: Word, d: Word)
    ensures Add(Add(Add(a, b), c), d) == (a + b + c + d) % B64
  {
    hide Add;
    AddTwo(a, b);
    AddTo(Add(a, b), a + b, c);
    AddTo(Add(Add(a, b), c), a + b + c, d);
  }

  /** Section 6.4.2, step 1. */
  lemma ScheduleFormula(m: seq<Word>, t: nat)
    requires |m| == 16
    ensures t < 16 ==> Schedule(m, t) == m[t]
    ensures t >= 16 ==>
        Schedule(m, t) == (LitSigma1(Schedule(m, t - 2)) + Schedule(m, t - 7) + LitSigma0(Schedule(m, t - 15))
                           + Schedule(m, t - 16)) % B64
  {
    hide LitSigma0, LitSigma1;
    if t >= 16 {
      FourSum(LitSigma1(Schedule(m, t - 2)), Schedule(m, t - 7), LitSigma0(Schedule(m, t - 15)), Schedule(m, t - 16));
    }
  }

  /** Eighty rounds in the order of the constants, added to what went in. */
  lemma CompressFormula(r: Regs, m: seq<Word>, t: nat)
    requires |m| == 16 && t < 80
    ensures |K| == 80 && Rounds(r, m, 0) == r
    ensures Rounds(r, m, t + 1) == Round(Rounds(r, m, t), K[t], Schedule(m, t))
    ensures var x, y := Rounds(r, m, 80), Compress(r, m);
            && y.a == (r.a + x.a) % B64 && y.b == (r.b + x.b) % B64 && y.c == (r.c + x.c) % B64
            && y.d == (r.d + x.d) % B64 && y.e == (r.e + x.e) % B64 && y.f == (r.f + x.f) % B64
            && y.g == (r.g + x.g) % B64 && y.h == (r.h + x.h) % B64
  {
    hide Round, Schedule, Rounds, Add, K;
    RoundsStep(r, m, t);
    var x := Rounds(r, m, 80);
    AddTwo(r.a, x.a);
    AddTwo(r.b, x.b);
    AddTwo(r.c, x.c);
    AddTwo(r.d, x.d);
    AddTwo(r.e, x.e);
    AddTwo(r.f, x.f);
    AddTwo(r.g, x.g);
    AddTwo(r.h, x.h);
  }

  lemma RoundsStep(r: Regs, m: seq<Word>, t: nat)
    requires |m| == 16 && t < 80
    ensures |K| == 80 && Rounds(r, m, 0) == r
    ensures Rounds(r, m, t + 1) == Round(Rounds(r, m, t), K[t], Schedule(m, t))
  {
    hide Round, Schedule, K0, K1, K2, K3, K4;
    ConstantRows();
  }

  /** Blocks are compressed one after another from the initial value on, and the digest
      is that of the padded message. */
  lemma HashChain(done: seq<u8>, block: seq<u8>, msg: seq<u8>)
    requires |done| % 128 == 0 && |block| == 128
    ensures HashBlocks([]) == IV
    ensures HashBlocks(done + block) == Compress(HashBlocks(done), BlockWords(block))
    ensures Sha512(msg) == StoreRegs(HashBlocks(Pad(msg)))
  {
    hide Compress, BlockWords, StoreRegs, Pad;
    Stream.HashAppend(done, block);
  }

  // ---- bytes ----------------------------------------------------------------------------------

  function Join(a: int, b: int, c: int, d: int): int
  {
    0x1000000 * a + 0x10000 * b + 0x100 * c + d
  }

  /** Word w of a block, from its eight bytes. */
  lemma WordFromBytes(block: seq<u8>, w: nat)
    requires 8 * w + 8 <= |block|
    ensures var b := block[8 * w..8 * w + 8];
            WordAt(block, w) == 0x1_0000_0000 * Join(b[0], b[1], b[2], b[3]) + Join(b[4], b[5], b[6], b[7])
  {
    var b := block[8 * w..8 * w + 8];
    assert b[..7][..6] == b[..6] && b[..6][..5] == b[..5] && b[..5][..4] == b[..4];
    assert b[..4][..3] == b[..3] && b[..3][..2] == b[..2] && b[..2][..1] == b[..1] && b[..1][..0] == [];
    assert BigEndian(b[..4]) == 0x100 * BigEndian(b[..3]) + b[3];
    assert BigEndian(b[..3]) == 0x100 * BigEndian(b[..2]) + b[2];
    assert BigEndian(b[..2]) == 0x100 * BigEndian(b[..1]) + b[1];
    assert BigEndian(b[..1]) == 0x100 * BigEndian([]) + b[0];
    assert BigEndian(b) == 0x100 * BigEndian(b[..7]) + b[7];
    assert BigEndian(b[..7]) == 0x100 * BigEndian(b[..6]) + b[6];
    assert BigEndian(b[..6]) == 0x100 * BigEndian(b[..5]) + b[5];
    assert BigEndian(b[..5]) == 0x100 * BigEndian(b[..4]) + b[4];
  }

  /** Section 5.1.2: the message, a one bit, zeros, and its length in bits in the last
      sixteen bytes. */
  lemma PaddingLayout(msg: seq<u8>)
    ensures var p := Pad(msg);
            && |p| % 128 == 0 && |msg| + 17 <= |p| < |msg| + 17 + 128
            && p[..|msg|] == msg && p[|msg|] == 0x80
            && (forall k :: |msg| < k < |p| - 16 ==> p[k] == 0)
            && BigEndian(p[|p| - 16..|p| - 8]) * B64 + BigEndian(p[|p| - 8..]) == 8 * |msg| % (B64 * B64)
  {
    hide StoreWord, BigEndian;
    var p, n := Pad(msg), |msg|;
    var v := (8 * n) % Stream.B128;
    var hi, lo := v / B64, v % B64;
    Stream.LengthWords(n, hi, lo);
    assert p[|p| - 16..|p| - 8] == StoreWord(hi);
    assert p[|p| - 8..] == StoreWord(lo);
  }

  lemma {:induction false} StoredWordAt(h: seq<Word>, i: nat)
    requires i < |h|
    ensures BigEndian(StoreWords(h)[8 * i..8 * i + 8]) == h[i]
    decreases |h|
  {
    hide BigEndian, StoreWord;
    var front, last := h[..|h| - 1], h[|h| - 1];
    var s := StoreWords(h);
    assert s == StoreWords(front) + StoreWord(last);
    if i == |h| - 1 {
      Pow2Words();
      Stream.BigEndianStored(last, 8);
      assert s[8 * i..8 * i + 8] == StoreWord(last);
      StoredIs(last);
    } else {
      StoredWordAt(front, i);
      assert s[8 * i..8 * i + 8] == StoreWords(front)[8 * i..8 * i + 8];
    }
  }

  lemma StoredIs(w: Word)
    ensures StoreWord(w) == StoreBigEndian(w, 8)
  {
  }

  /** The digest is the eight variables in order, most significant byte first. */
  lemma DigestWords(r: Regs, i: nat)
    requires i < 8
    ensures BigEndian(StoreRegs(r)[8 * i..8 * i + 8]) == [r.a, r.b, r.c, r.d, r.e, r.f, r.g, r.h][i]
  {
    hide BigEndian, StoreWords;
    StoredWordAt([r.a, r.b, r.c, r.d, r.e, r.f, r.g, r.h], i);
  }
}
