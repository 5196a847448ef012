/** X25519: the limb-level Montgomery ladder against section 5 of RFC 7748. */
module Ladder {
  import opened Arith
  import opened Words
  import opened Bits
  import opened FieldElement
  import opened FieldMul
  import opened FieldBytes
  import opened FieldInvert

  /** The four projective coordinates the ladder carries, as residues. */
  datatype Quad = Quad(x2: int, z2: int, x3: int, z3: int)

  /** One ladder step as RFC 7748 writes it, with a24 = 121665. */
  function RfcStep(x1: int, s: Quad): Quad
  {
    var a := FAdd(s.x2, s.z2);
    var aa := FMul(a, a);
    var b := FSub(s.x2, s.z2);
    var bb := FMul(b, b);
    var e := FSub(aa, bb);
    var c := FAdd(s.x3, s.z3);
    var d := FSub(s.x3, s.z3);
    var da := FMul(d, a);
    var cb := FMul(c, b);
    var sum := FAdd(da, cb);
    var dif := FSub(da, cb);
    Quad(FMul(aa, bb), FMul(e, FAdd(aa, FMul(121665, e))),
         FMul(sum, sum), FMul(x1, FMul(dif, dif)))
  }

  function Swapped(b: int, s: Quad): Quad
  {
    if b == 1 then Quad(s.x3, s.z3, s.x2, s.z2) else s
  }

  /** The state after all bits of k from n-1 down to pos: each step works on
      the pair in the order the bit asks for and restores the order. */
  function Rungs(x1: int, k: nat, n: nat, pos: nat): Quad
    requires pos <= n
    decreases n - pos
  {
    if pos == n then Quad(1, 0, x1, 1)
    else
      var b := Bit(k, pos);
      Swapped(b, RfcStep(x1, Swapped(b, Rungs(x1, k, n, pos + 1))))
  }

  /** RFC 7748's loop, literally: the swap of a bit is merged with the swap back
      of the bit before it, so the pair may be held in swapped order. */
  function RfcLoop(x1: int, k: nat, n: nat, pos: nat): (r: (Quad, int))
    requires pos <= n
    ensures r.1 == 0 || r.1 == 1
    decreases n - pos
  {
    if pos == n then (Quad(1, 0, x1, 1), 0)
    else
      var (s, swap) := RfcLoop(x1, k, n, pos + 1);
      var b := Bit(k, pos);
      (RfcStep(x1, Swapped(if swap == b then 0 else 1, s)), b)
  }

  lemma SwapTwice(b: int, c: int, s: Quad)
    requires (b == 0 || b == 1) && (c == 0 || c == 1)
    ensures Swapped(b, Swapped(c, s)) == Swapped(if b == c then 0 else 1, s)
  {
  }

  /** Deferring swaps does not change the ladder. */
  lemma {:induction false} DeferredSwap(x1: int, k: nat, n: nat, pos: nat)
    requires pos <= n
    ensures var (s, swap) := RfcLoop(x1, k, n, pos); Swapped(swap, s) == Rungs(x1, k, n, pos)
    decreases n - pos
  {
    hide RfcStep, Bit;
    if pos == n {
    } else {
      DeferredSwap(x1, k, n, pos + 1);
      var (s, swap) := RfcLoop(x1, k, n, pos + 1);
      SwapTwice(Bit(k, pos), swap, s);
    }
  }

  lemma LoopStart(x1: int, k: nat, n: nat)
    ensures RfcLoop(x1, k, n, n) == (Quad(1, 0, x1, 1), 0)
  {
  }

  lemma LoopNext(x1: int, k: nat, n: nat, pos: nat)
    requires pos < n
    ensures var (s, swap) := RfcLoop(x1, k, n, pos + 1);
            var b := Bit(k, pos);
            RfcLoop(x1, k, n, pos) == (RfcStep(x1, Swapped(if swap == b then 0 else 1, s)), b)
  {
    hide RfcStep, Bit, Swapped;
  }

  /** The number the whole computation encodes. */
  function X25519Value(k: nat, u: int, n: nat): int
  {
    var s := Rungs(u % P, k, n, 0);
    FMul(s.x2, FInv(s.z2))
  }

  // ---- the step ------------------------------------------------------------------------

  /** The constant trick: AA + 121665 E is BB + 121666 E. */
  lemma RewrittenConstant(aa: int, bb: int)
    ensures var e := FSub(aa, bb); FAdd(bb, FMul(e, 121666)) == FAdd(aa, FMul(121665, e))
  {
    var e := FSub(aa, bb);
    var k := ModWitness(e, aa - bb, P);
    var m := ModWitness(FMul(e, 121666), e * 121666, P);
    var n := ModWitness(FMul(121665, e), 121665 * e, P);
    ModEq(bb + FMul(e, 121666), aa + FMul(121665, e), k + m - n, P);
  }

  ghost predicate Holds(x2: Fe, z2: Fe, x3: Fe, z3: Fe, s: Quad)
  {
    && Tight(x2) && Tight(z2) && Tight(x3) && Tight(z3)
    && s == Quad(Residue(x2), Residue(z2), Residue(x3), Residue(z3))
  }

  /** One iteration of scalarmult's loop, after the conditional swap.  Every
      multiplication is entered within its limb bounds. */
  method Step(x1: Fe, x2: Fe, z2: Fe, x3: Fe, z3: Fe) returns (x2': Fe, z2': Fe, x3': Fe, z3': Fe)
    requires Tight(x1) && Tight(x2) && Tight(z2) && Tight(x3) && Tight(z3)
    ensures Holds(x2', z2', x3', z3', RfcStep(Residue(x1), Quad(Residue(x2), Residue(z2), Residue(x3), Residue(z3))))
  {
    hide Within, FMul, FAdd, FSub, Residue;
    TightIsLoose(x1);
    TightIsLoose(x2);
    TightIsLoose(z2);
    TightIsLoose(x3);
    TightIsLoose(z3);
    x2', z2', x3', z3' := x2, z2, x3, z3;
    var t0 := FeSub(x3', z3');
    var t1 := FeSub(x2', z2');
    x2' := FeAdd(x2', z2');
    z2' := FeAdd(x3', z3');
    z3' := FeMul(t0, x2');
    z2' := FeMul(z2', t1);
    t0 := FeSq(t1);
    t1 := FeSq(x2');
    TightIsLoose(z3');
    TightIsLoose(z2');
    TightIsLoose(t0);
    TightIsLoose(t1);
    x3' := FeAdd(z3', z2');
    z2' := FeSub(z3', z2');
    x2' := FeMul(t1, t0);
    ghost var aa, bb := Residue(t1), Residue(t0);
    var e := FeSub(t1, t0);
    t1 := e;
    z2' := FeSq(z2');
    z3' := FeMulSmall(t1, 121666);
    x3' := FeSq(x3');
    TightIsLoose(z3');
    TightIsLoose(z2');
    t0 := FeAdd(t0, z3');
    RewrittenConstant(aa, bb);
    z3' := FeMul(x1, z2');
    z2' := FeMul(t1, t0);
  }

  /** fe_cswap. */
  function CSwap(f: Fe, g: Fe, b: int): (Fe, Fe)
  {
    if b == 1 then (g, f) else (f, g)
  }

  /** One iteration of scalarmult's loop: the deferred swap, then the step. */
  method Iterate(x1: Fe, x2: Fe, z2: Fe, x3: Fe, z3: Fe, swap: int, ghost s: Quad) returns (x2': Fe, z2': Fe, x3': Fe,
      z3': Fe)
    requires Tight(x1) && Holds(x2, z2, x3, z3, s)
    ensures Holds(x2', z2', x3', z3', RfcStep(Residue(x1), Swapped(swap, s)))
  {
    hide RfcStep, Residue, Within;
    var (xs2, xs3) := CSwap(x2, x3, swap);
    var (zs2, zs3) := CSwap(z2, z3, swap);
    x2', z2', x3', z3' := Step(x1, xs2, zs2, xs3, zs3);
  }

  lemma OneZero()
    ensures Tight(ONE) && Tight(ZERO) && Residue(ONE) == 1 && Residue(ZERO) == 0
  {
    ConstantResidues();
  }

  /** The ladder loop of scalarmult, deferred swap included. */
  method LadderLoop(x1: Fe, scalar: seq<u8>, nbBits: nat) returns (x2: Fe, z2: Fe, x3: Fe, z3: Fe)
    requires Tight(x1) && |scalar| == 32 && nbBits <= 256
    ensures Holds(x2, z2, x3, z3, Rungs(Residue(x1), Val8(scalar), nbBits, 0))
  {
    hide RfcStep, Bit, Residue, ScalarBit, Within, RfcLoop, Rungs, Val8, FeNeg, Value;
    ghost var u, k := Residue(x1), Val8(scalar);
    OneZero();
    x2, z2, x3, z3 := ONE, ZERO, x1, ONE;
    var swap := 0;
    LoopStart(u, k, nbBits);
    ghost var s := Quad(1, 0, u, 1);
    for pos := nbBits downto 0
      invariant Holds(x2, z2, x3, z3, s) && RfcLoop(u, k, nbBits, pos) == (s, swap)
    {
      var b := ScalarBit(scalar, pos);
      ScalarBitIsBit(scalar, pos);
      LoopNext(u, k, nbBits, pos);
      swap := if swap == b then 0 else 1;
      x2, z2, x3, z3 := Iterate(x1, x2, z2, x3, z3, swap, s);
      s := RfcStep(u, Swapped(swap, s));
      swap := b;
    }
    DeferredSwap(u, k, nbBits, 0);
    var (xs2, xs3) := CSwap(x2, x3, swap);
    var (zs2, zs3) := CSwap(z2, z3, swap);
    x2, z2, x3, z3 := xs2, zs2, xs3, zs3;
  }

  /** scalarmult: the ladder and the final division, for any scalar and point. */
  method Scalarmult(scalar: seq<u8>, p: seq<u8>, nbBits: nat) returns (q: seq<u8>)
    requires |scalar| == 32 && |p| == 32 && nbBits <= 256 && PrimeField()
    ensures |q| == 32 && Val8(q) == X25519Value(Val8(scalar), Val8(p) % W255, nbBits)
  {
    hide Rungs, FInv, FMul, Residue, Within, PrimeField, Val8;
    var x1 := FeFromBytes(p);
    var x2, z2, x3, z3 := LadderLoop(x1, scalar, nbBits);
    z2 := FeInvert(z2);
    TightIsLoose(x2);
    TightIsLoose(z2);
    x2 := FeMul(x2, z2);
    q := FeToBytes(x2);
  }

  /** crypto_eddsa_trim_scalar. */
  function Trim(s: seq<u8>): (r: seq<u8>)
    requires |s| == 32
    ensures |r| == 32
  {
    [LowCleared(s[0])] + s[1..31] + [HighSet(s[31])]
  }

  function LowCleared(x: int): int { x - x % 8 }

  function HighSet(x: int): int { 64 + x % 64 }

  // ---- clamping ------------------------------------------------------------------------------

  /** The lowest three bits go, the others of the first byte stay. */
  lemma LowBits(x: u8, i: nat)
    requires 3 <= i < 8
    ensures 0 <= LowCleared(x) <= x && LowCleared(x) % 8 == 0
    ensures Bit(LowCleared(x), i) == Bit(x, i)
  {
    hide Bit;
    var y := LowCleared(x);
    assert Pow2(3) == 8;
    BitOfShr(x, 3, i - 3);
    BitOfShr(y, 3, i - 3);
    assert y / 8 == x / 8;
  }

  /** The last byte keeps its six low bits. */
  lemma HighBits(x: u8, i: nat)
    requires i < 6
    ensures 64 <= HighSet(x) < 128
    ensures Bit(HighSet(x), i) == Bit(x, i)
  {
    hide Bit;
    Pow2Six();
    BitOfMod(x, 6, i);
    LowBit(x % 64, 1, i, 6);
  }

  lemma Pow2Six()
    ensures Pow2(6) == 64
  {
    Pow2Eight();
    Pow2Add(4, 2);
    assert Pow2(2) == 4;
  }

  lemma TopByte(s: seq<u8>)
    requires |s| == 32 && 64 <= s[31] < 128
    ensures Pow2(254) <= Val8(s) < Pow2(255)
  {
    hide Val8, Pow2;
    assert s == s[..31] + s[31..] && s[31..] == [s[31]];
    Val8Join(s[..31], s[31..]);
    Val8Bound(s[..31]);
    SingleByte(s[31]);
    Pow2Six();
    Pow2Add(248, 6);
    Pow2Add(1, 254);
    assert Pow2(1) == 2 by {
      Pow2One();
    }
    TopBounds(Pow2(248), Val8(s[..31]), s[31]);
  }

  lemma Pow2One()
    ensures Pow2(1) == 2
  {
  }

  lemma SingleByte(b: u8)
    ensures Val8([b]) == b
  {
    assert [b][1..] == [];
  }

  lemma TopBounds(w: int, lo: int, b: int)
    requires 0 <= lo < w && 64 <= b < 128
    ensures w * 64 <= lo + w * b < 2 * (w * 64)
  {
    MulMono(64, b, w);
    MulMono(b, 127, w);
  }

  lemma FirstByte(t: seq<u8>)
    requires |t| > 0 && t[0] % 8 == 0
    ensures Val8(t) % 8 == 0
  {
  }

  /** What a trimmed scalar is: a multiple of the cofactor with its top bit at 254 and
      the 251 bits between as they were. */
  lemma TrimmedScalar(s: seq<u8>)
    requires |s| == 32
    ensures Val8(Trim(s)) % 8 == 0
    ensures Pow2(254) <= Val8(Trim(s)) < Pow2(255)
  {
    hide LowCleared, HighSet, Pow2, Val8;
    LowBits(s[0], 3);
    HighBits(s[31], 0);
    TopByte(Trim(s));
    FirstByte(Trim(s));
  }

  lemma TrimKeepsBits(s: seq<u8>, i: nat)
    requires |s| == 32 && 3 <= i < 254
    ensures Bit(Val8(Trim(s)), i) == Bit(Val8(s), i)
  {
    hide LowCleared, HighSet, Bit, Val8;
    var t := Trim(s);
    ScalarBitIsBit(s, i);
    ScalarBitIsBit(t, i);
    if i < 8 {
      LowBits(s[0], i);
    } else if i >= 248 {
      HighBits(s[31], i - 248);
    } else {
      assert t[i / 8] == s[i / 8];
    }
  }

  /** crypto_x25519: the function X25519 of RFC 7748 with clamped scalar, the top
      bit of the point ignored. */
  method X25519(secretKey: seq<u8>, publicKey: seq<u8>) returns (shared: seq<u8>)
    requires |secretKey| == 32 && |publicKey| == 32 && PrimeField()
    ensures |shared| == 32 && Val8(shared) == X25519Value(Val8(Trim(secretKey)), Val8(publicKey) % W255, 255)
  {
    shared := Scalarmult(Trim(secretKey), publicKey, 255);
  }
}
