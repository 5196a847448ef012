/** What the definitions of section 2.5 of RFC 8439 are, byte by byte and block by
    block. */
module Poly1305Laws {
  import opened Arith
  import opened Words
  import opened Bits
  import opened Poly1305

  lemma PrimeIs()
    ensures P == Pow2(130) - 5 && W128 == Pow2(128)
  {
    Pow2Words();
    Pow2Add(64, 64);
    Pow2Add(128, 2);
    assert Pow2(2) == 4;
  }

  /** A byte of the clamped multiplier: the top four bits of bytes 3, 7, 11 and 15 and
      the low two bits of bytes 4, 8 and 12 are cleared. */
  function ClampedByte(b: u8, i: nat): (c: u8)
  {
    if i % 4 == 3 then b % 16 else if i % 4 == 0 && i > 0 then b - b % 4 else b
  }

  lemma FirstLimb(a: u8, b: u8, c: u8, d: u8)
    ensures Clamp0(Join4(a, b, c, d)) == Join4(a, b, c, d % 16)
  {
    var q := d / 16;
    assert Join4(a, b, c, d) == q * 0x1000_0000 + Join4(a, b, c, d % 16);
    DivModUnique(Join4(a, b, c, d), 0x1000_0000, q, Join4(a, b, c, d % 16));
  }

  lemma OtherLimb(a: u8, b: u8, c: u8, d: u8)
    ensures Clamp(Join4(a, b, c, d)) == Join4(a - a % 4, b, c, d % 16)
  {
    FirstLimb(a, b, c, d);
    var q := a / 4 + 0x40 * b + 0x4000 * c + 0x400000 * d;
    DivModUnique(Join4(a, b, c, d), 4, q, a % 4);
  }

  lemma LimbOf(key: seq<u8>, r: seq<u8>, k: nat)
    requires |key| == 16 && |r| == 16 && k < 4
    requires forall i :: 0 <= i < 16 ==> r[i] == ClampedByte(key[i], i)
    ensures LoadLimbs(r)[k] == if k == 0 then Clamp0(LoadLimbs(key)[k]) else Clamp(LoadLimbs(key)[k])
  {
    hide Clamp0, Clamp, Join4;
    LoadLimbAt(key, k);
    LoadLimbAt(r, k);
    var a, b, c, d := key[4 * k], key[4 * k + 1], key[4 * k + 2], key[4 * k + 3];
    if k == 0 {
      FirstLimb(a, b, c, d);
    } else {
      OtherLimb(a, b, c, d);
    }
  }

  lemma FourLimbs(l: seq<u32>)
    requires |l| == 4
    ensures Val32(l) == l[0] + B32 * l[1] + W64 * l[2] + W96 * l[3]
  {
    assert l[1..][1..] == l[2..] && l[2..][1..] == l[3..] && l[3..][1..] == [];
    assert Val32(l) == l[0] + B32 * Val32(l[1..]);
    assert Val32(l[1..]) == l[1] + B32 * Val32(l[2..]);
    assert Val32(l[2..]) == l[2] + B32 * Val32(l[3..]);
    assert Val32(l[3..]) == l[3] + B32 * Val32([]);
  }

  /** The multiplier is the number of the key's first sixteen bytes with those bits
      cleared, and the summand the number of the other sixteen. */
  lemma KeyHalves(key: seq<u8>, r: seq<u8>)
    requires |key| == 32 && |r| == 16
    requires forall i :: 0 <= i < 16 ==>
        r[i] == if i in {3, 7, 11, 15} then key[i] % 16 else if i in {4, 8, 12} then key[i] - key[i] % 4 else key[i]
    ensures KeyR(key) == Val8(r) && KeyS(key) == Val8(key[16..])
  {
    hide Clamp0, Clamp, Val8, LoadLimbs;
    var low := key[..16];
    forall i | 0 <= i < 16
      ensures r[i] == ClampedByte(low[i], i)
    {
    }
    LimbOf(low, r, 0);
    LimbOf(low, r, 1);
    LimbOf(low, r, 2);
    LimbOf(low, r, 3);
    FourLimbs(LoadLimbs(r));
    LoadLimbsVal(r);
  }

  lemma LastLengthIs(n: nat, k: nat)
    requires 0 < k <= 16 && k <= n && (n - k) % 16 == 0
    ensures LastLength(n) == k
  {
  }

  lemma LastStep(r: int, done: seq<u8>, block: seq<u8>)
    requires |done| % 16 == 0 && 0 < |block| <= 16
    ensures Accumulate(r, done + block) == ((Accumulate(r, done) + Val8(block + [1])) * r) % P
  {
    hide Val8, LastLength;
    var msg := done + block;
    LastLengthIs(|msg|, |block|);
    assert msg[..|msg| - |block|] == done && msg[|msg| - |block|..] == block;
  }

  /** One block more: the block's number with a one above it is added, and the sum is
      multiplied by r. */
  lemma AccumulateBlock(r: int, done: seq<u8>, block: seq<u8>)
    requires |done| % 16 == 0 && 0 < |block| <= 16
    ensures Accumulate(r, []) == 0
    ensures Accumulate(r, done + block)
         == ((Accumulate(r, done) + Val8(block) + Pow2(8 * |block|)) * r) % (Pow2(130) - 5)
  {
    hide Val8, Pow2, LastLength, Accumulate;
    PrimeIs();
    NothingAccumulated(r);
    LastStep(r, done, block);
    Val8Join(block, [1]);
    OneByteNumber();
  }

  lemma NothingAccumulated(r: int)
    ensures Accumulate(r, []) == 0
  {
  }

  lemma OneByteNumber()
    ensures Val8([1]) == 1
  {
    assert [1][1..] == [];
  }

  /** The authenticator: the accumulator plus the second half of the key, modulo 2^128. */
  lemma TagIs(key: seq<u8>, msg: seq<u8>)
    requires |key| == 32
    ensures Tag(key, msg) == (Accumulate(KeyR(key), msg) + Val8(key[16..])) % Pow2(128)
  {
    hide Accumulate, KeyR, Val8, Pow2;
    PrimeIs();
  }
}
