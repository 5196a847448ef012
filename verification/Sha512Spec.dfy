/** SHA-512 of FIPS 180-4: the padding of section 5.1.2 and the computation of
    section 6.4, stated on whole messages. */
module Sha512Spec {

  import opened Arith
  import opened Words
  import opened Bits

  type Word = u64

  // The round constants, sixteen at a time.
  const K0: seq<Word> := [
    0x428a2f98d728ae22, 0x7137449123ef65cd, 0xb5c0fbcfec4d3b2f, 0xe9b5dba58189dbbc,
    0x3956c25bf348b538, 0x59f111f1b605d019, 0x923f82a4af194f9b, 0xab1c5ed5da6d8118,
    0xd807aa98a3030242, 0x12835b0145706fbe, 0x243185be4ee4b28c, 0x550c7dc3d5ffb4e2,
    0x72be5d74f27b896f, 0x80deb1fe3b1696b1, 0x9bdc06a725c71235, 0xc19bf174cf692694]

  const K1: seq<Word> := [
    0xe49b69c19ef14ad2, 0xefbe4786384f25e3, 0x0fc19dc68b8cd5b5, 0x240ca1cc77ac9c65,
    0x2de92c6f592b0275, 0x4a7484aa6ea6e483, 0x5cb0a9dcbd41fbd4, 0x76f988da831153b5,
    0x983e5152ee66dfab, 0xa831c66d2db43210, 0xb00327c898fb213f, 0xbf597fc7beef0ee4,
    0xc6e00bf33da88fc2, 0xd5a79147930aa725, 0x06ca6351e003826f, 0x142929670a0e6e70]

  const K2: seq<Word> := [
    0x27b70a8546d22ffc, 0x2e1b21385c26c926, 0x4d2c6dfc5ac42aed, 0x53380d139d95b3df,
    0x650a73548baf63de, 0x766a0abb3c77b2a8, 0x81c2c92e47edaee6, 0x92722c851482353b,
    0xa2bfe8a14cf10364, 0xa81a664bbc423001, 0xc24b8b70d0f89791, 0xc76c51a30654be30,
    0xd192e819d6ef5218, 0xd69906245565a910, 0xf40e35855771202a, 0x106aa07032bbd1b8]

  const K3: seq<Word> := [
    0x19a4c116b8d2d0c8, 0x1e376c085141ab53, 0x2748774cdf8eeb99, 0x34b0bcb5e19b48a8,
    0x391c0cb3c5c95a63, 0x4ed8aa4ae3418acb, 0x5b9cca4f7763e373, 0x682e6ff3d6b2b8a3,
    0x748f82ee5defb2fc, 0x78a5636f43172f60, 0x84c87814a1f0ab72, 0x8cc702081a6439ec,
    0x90befffa23631e28, 0xa4506cebde82bde9, 0xbef9a3f7b2c67915, 0xc67178f2e372532b]

  const K4: seq<Word> := [
    0xca273eceea26619c, 0xd186b8c721c0c207, 0xeada7dd6cde0eb1e, 0xf57d4f7fee6ed178,
    0x06f067aa72176fba, 0x0a637dc5a2c898a6, 0x113f9804bef90dae, 0x1b710b35131c471b,
    0x28db77f523047d84, 0x32caab7b40c72493, 0x3c9ebe0a15c9bebc, 0x431d67c49c100d4c,
    0x4cc5d4becb3e42b6, 0x597f299cfc657e2a, 0x5fcb6fab3ad6faec, 0x6c44198c4a475817]

  const K: seq<Word> := K0 + K1 + K2 + K3 + K4

  datatype Regs = Regs(a: Word, b: Word, c: Word, d: Word, e: Word, f: Word, g: Word, h: Word)

  const IV: Regs := Regs(
    0x6a09e667f3bcc908, 0xbb67ae8584caa73b, 0x3c6ef372fe94f82b, 0xa54ff53a5f1d36f1,
    0x510e527fade682d1, 0x9b05688c2b3e6c1f, 0x1f83d9abfb41bd6b, 0x5be0cd19137e2179)

  /** Addition modulo 2^64. */
  function Add(x: Word, y: Word): Word { (x + y) % B64 }

  function Xor(x: Word, y: Word): Word
  {
    Pow2Words();
    XorBound(x, y, 64);
    BitXor(x, y)
  }

  function Shr(x: Word, c: nat): Word
  {
    NatDiv(x, Pow2(c));
    x / Pow2(c)
  }

  function Shl(x: Word, c: nat): Word { (x * Pow2(c)) % B64 }

  function Rot(x: Word, c: nat): Word
    requires 0 < c < 64
  {
    Pow2Words();
    OrBound(Shr(x, c), Shl(x, 64 - c), 64);
    BitOr(Shr(x, c), Shl(x, 64 - c))
  }

  function Ch(x: Word, y: Word, z: Word): Word { Xor(BitAnd(x, y), BitAnd(B64 - 1 - x, z)) }

  function Maj(x: Word, y: Word, z: Word): Word { Xor(Xor(BitAnd(x, y), BitAnd(x, z)), BitAnd(y, z)) }

  function BigSigma0(x: Word): Word { Xor(Xor(Rot(x, 28), Rot(x, 34)), Rot(x, 39)) }

  function BigSigma1(x: Word): Word { Xor(Xor(Rot(x, 14), Rot(x, 18)), Rot(x, 41)) }

  function LitSigma0(x: Word): Word { Xor(Xor(Rot(x, 1), Rot(x, 8)), Shr(x, 7)) }

  function LitSigma1(x: Word): Word { Xor(Xor(Rot(x, 19), Rot(x, 61)), Shr(x, 6)) }

  // ---- bytes and words ------------------------------------------------------------

  /** The number of a big-endian byte string. */
  function BigEndian(s: seq<u8>): (r: nat)
  {
    if |s| == 0 then 0 else 0x100 * BigEndian(s[..|s| - 1]) + s[|s| - 1]
  }

  lemma {:induction false} BigEndianBound(s: seq<u8>)
    ensures BigEndian(s) < Pow2(8 * |s|)
  {
    if |s| == 0 {
    } else {
      BigEndianBound(s[..|s| - 1]);
      Pow2Eight();
      Pow2Add(8, 8 * |s| - 8);
    }
  }

  /** The n bytes of a number, most significant first. */
  function StoreBigEndian(w: nat, n: nat): (s: seq<u8>)
    ensures |s| == n
  {
    if n == 0 then [] else StoreBigEndian(w / 0x100, n - 1) + [w % 0x100]
  }

  function StoreWord(w: Word): (s: seq<u8>)
    ensures |s| == 8
  {
    StoreBigEndian(w, 8)
  }

  /** Word w of a byte string. */
  function WordAt(block: seq<u8>, w: nat): Word
    requires 8 * w + 8 <= |block|
  {
    Pow2Words();
    BigEndianBound(block[8 * w..8 * w + 8]);
    BigEndian(block[8 * w..8 * w + 8])
  }

  function BlockWords(block: seq<u8>): (m: seq<Word>)
    requires |block| == 128
    ensures |m| == 16
    ensures forall w :: 0 <= w < 16 ==> m[w] == WordAt(block, w)
  {
    seq(16, w requires 0 <= w < 16 => WordAt(block, w))
  }

  // ---- one block ----------------------------------------------------------------------

  /** The message schedule, word t of 80. */
  function Schedule(m: seq<Word>, t: nat): Word
    requires |m| == 16
  {
    if t < 16 then m[t]
    else Add(Add(Add(LitSigma1(Schedule(m, t - 2)), Schedule(m, t - 7)), LitSigma0(Schedule(m, t - 15))), Schedule(m,
        t - 16))
  }

  function Round(r: Regs, k: Word, w: Word): Regs
  {
    var t1 := Add(Add(Add(Add(r.h, BigSigma1(r.e)), Ch(r.e, r.f, r.g)), k), w);
    var t2 := Add(BigSigma0(r.a), Maj(r.a, r.b, r.c));
    Regs(Add(t1, t2), r.a, r.b, r.c, Add(r.d, t1), r.e, r.f, r.g)
  }

  /** The working variables after t rounds. */
  function Rounds(r: Regs, m: seq<Word>, t: nat): Regs
    requires |m| == 16 && t <= 80
  {
    if t == 0 then r else Round(Rounds(r, m, t - 1), K[t - 1], Schedule(m, t - 1))
  }

  function AddRegs(x: Regs, y: Regs): Regs
  {
    Regs(Add(x.a, y.a), Add(x.b, y.b), Add(x.c, y.c), Add(x.d, y.d), Add(x.e, y.e), Add(x.f, y.f), Add(x.g, y.g),
        Add(x.h, y.h))
  }

  function Compress(r: Regs, m: seq<Word>): Regs
    requires |m| == 16
  {
    AddRegs(r, Rounds(r, m, 80))
  }

  // ---- whole messages ---------------------------------------------------------------------

  /** The chaining value after every block of data. */
  function HashBlocks(data: seq<u8>): Regs
    requires |data| % 128 == 0
  {
    if |data| == 0 then IV
    else Compress(HashBlocks(data[..|data| - 128]), BlockWords(data[|data| - 128..]))
  }

  function Zeros(n: nat): (z: seq<u8>)
    ensures |z| == n
    ensures forall i :: 0 <= i < n ==> z[i] == 0
  {
    seq(n, _ => 0)
  }

  /** The bit length of a message of n bytes as a 128-bit big-endian number. */
  function LengthBytes(n: nat): (s: seq<u8>)
    ensures |s| == 16
  {
    StoreWord((8 * n / B64) % B64) + StoreWord((8 * n) % B64)
  }

  /** How many zero bytes follow the 0x80 of the padding: the least number that
      completes a block. */
  function PadZeros(n: nat): (k: nat)
    ensures k < 128 && (n + 1 + k + 16) % 128 == 0
  {
    (111 - n) % 128
  }

  function Pad(msg: seq<u8>): (p: seq<u8>)
    ensures |p| % 128 == 0
  {
    msg + [0x80] + Zeros(PadZeros(|msg|)) + LengthBytes(|msg|)
  }

  /** Words stored one after another. */
  function StoreWords(h: seq<Word>): (s: seq<u8>)
    ensures |s| == 8 * |h|
  {
    if |h| == 0 then [] else StoreWords(h[..|h| - 1]) + StoreWord(h[|h| - 1])
  }

  function StoreRegs(r: Regs): (s: seq<u8>)
    ensures |s| == 64
  {
    StoreWords([r.a, r.b, r.c, r.d, r.e, r.f, r.g, r.h])
  }

  function Sha512(msg: seq<u8>): (digest: seq<u8>)
    ensures |digest| == 64
  {
    StoreRegs(HashBlocks(Pad(msg)))
  }
}
