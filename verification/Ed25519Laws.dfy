/** What the definitions behind the signatures are: the constants, the precomputed
    tables, and the formulas of section 5.1 of RFC 8032 written out. */
module Ed25519Laws {
  import opened Arith
  import opened Words
  import opened Bits
  import opened Group
  import opened ScalarL
  import opened Curve
  import opened Ladder
  import opened CheckEquation
  import opened Sha512Spec
  import opened Ed25519
  import FieldElement
  import FieldBytes

  // ---- constants ------------------------------------------------------------------------

  lemma SmallPowers()
    ensures Pow2(96) == W96N && Pow2(128) == W128N && Pow2(64) == W64N && Pow2(32) == W32N
  {
    hide Pow2;
    Pow2Words();
    Pow2Add(64, 32);
    Pow2Add(64, 64);
  }

  lemma LargePowers()
    ensures Pow2(252) == 0x1000000000000000_0000000000000000_0000000000000000_0000000000000000
    ensures Pow2(255) == 0x8000000000000000_0000000000000000_0000000000000000_0000000000000000
    ensures Pow2(256) == W256
  {
    hide Pow2;
    SmallPowers();
    Pow2Add(128, 64);
    Pow2Eight();
    Pow2Add(8, 8);
    Pow2Add(16, 8);
    Pow2Add(192, 32);
    Pow2Add(224, 24);
    Pow2Add(248, 4);
    Pow2Eighth();
    Pow2Add(252, 3);
    Pow2Add(252, 4);
  }

  lemma Pow2Eighth()
    ensures Pow2(3) == 8
  {
  }

  /** The field's prime and the group's order, as section 5.1 gives them. */
  lemma PrimesAre()
    ensures FieldElement.P == Pow2(255) - 19 && FieldBytes.W255 == Pow2(255)
    ensures L == Pow2(252) + 27742317777372353535851937790883648493 && W256 == Pow2(256)
  {
    hide Pow2;
    LargePowers();
  }

  /** The domain of the pre-hashed variant. */
  lemma DomainSpelled()
    ensures |DOMAIN| == 34 && DOMAIN[32] == 1 && DOMAIN[33] == 0
    ensures forall i :: 0 <= i < 32 ==> DOMAIN[i] == "SigEd25519 no Ed25519 collisions"[i] as int
  {
  }

  // ---- tables ------------------------------------------------------------------------------

  /** The window table: B, 3B, ..., 15B. */
  lemma WindowEntries<T>(c: Curve<T>)
    requires TablesLawful(c)
    ensures |c.window| == 8
    ensures c.window[0] == Times(c.g, 1, c.base) && c.window[1] == Times(c.g, 3, c.base)
    ensures c.window[2] == Times(c.g, 5, c.base) && c.window[3] == Times(c.g, 7, c.base)
    ensures c.window[4] == Times(c.g, 9, c.base) && c.window[5] == Times(c.g, 11, c.base)
    ensures c.window[6] == Times(c.g, 13, c.base) && c.window[7] == Times(c.g, 15, c.base)
  {
    hide Times, CombWeight;
  }

  /** The comb tables' weights: 2^96 with the lower teeth 2^64, 2^32 and 1 signed by the
      bits of the index. */
  lemma CombWeights(b2: nat, b1: nat, b0: nat)
    requires b2 < 2 && b1 < 2 && b0 < 2
    ensures CombWeight(4 * b2 + 2 * b1 + b0)
         == Pow2(96) + (if b2 == 1 then Pow2(64) else -Pow2(64)) + (if b1 == 1 then Pow2(32) else -Pow2(32))
            + (if b0 == 1 then 1 else -1)
  {
    hide Pow2;
    SmallPowers();
    var j := 4 * b2 + 2 * b1 + b0;
    assert (j / 4) % 2 == b2 && (j / 2) % 2 == b1 && j % 2 == b0;
  }

  /** One table holds those multiples of B, the other 2^128 times as much. */
  lemma CombEntries<T>(c: Curve<T>, j: nat)
    requires TablesLawful(c) && j < 8
    ensures |c.combLow| == 8 && |c.combHigh| == 8
    ensures c.combLow[j] == Times(c.g, CombWeight(j), c.base)
    ensures c.combHigh[j] == Times(c.g, Pow2(128) * CombWeight(j), c.base)
  {
    hide Times, Pow2, CombWeight;
    SmallPowers();
  }

  // ---- formulas -----------------------------------------------------------------------------

  /** Section 5.1.5. */
  lemma PublicKeyFormula<T>(c: Curve<T>, seed: seq<u8>)
    ensures PublicKey(c, seed) == c.encode(Times(c.g, Val8(Trim(Sha512(seed)[..32])), c.base))
  {
    hide Times, Val8, Trim, Sha512;
  }

  /** The secret scalar: a multiple of eight with its top bit at 254, whose other bits
      are those of the hashed seed. */
  lemma SecretScalarBits(seed: seq<u8>, i: nat)
    requires 3 <= i < 254
    ensures SecretScalar(seed) % 8 == 0 && Pow2(254) <= SecretScalar(seed) < Pow2(255)
    ensures Bit(SecretScalar(seed), i) == Bit(Val8(Sha512(seed)[..32]), i)
  {
    hide Val8, Trim, Sha512, Bit, Pow2;
    var s := Sha512(seed)[..32];
    TrimmedScalar(s);
    TrimKeepsBits(s, i);
  }

  /** Section 5.1.6: r from the second half of the hashed seed, S = r + k a. */
  lemma SignatureFormula<T>(c: Curve<T>, seed: seq<u8>, pk: seq<u8>, dom: seq<u8>, message: seq<u8>, sig: seq<u8>)
    requires |seed| == 32 && |pk| == 32
    ensures Signs(c, seed + pk, dom, message, sig)
       <==> && |sig| == 64
            && var r, a := Val8(Sha512(dom + Sha512(seed)[32..] + message)) % L, SecretScalar(seed);
               && sig[..32] == c.encode(Times(c.g, r, c.base))
               && Val8(sig[32..]) == ((Val8(Sha512(dom + sig[..32] + pk + message)) % L) * a + r) % L
  {
    hide Times, Val8, Sha512, SecretScalar;
    assert (seed + pk)[..32] == seed && (seed + pk)[32..] == pk;
  }

  // ---- what a check decides --------------------------------------------------------------------

  lemma TimesNeg<T(!new)>(g: Group<T>, n: int, x: T)
    requires Abelian(g)
    ensures Times(g, n, g.neg(x)) == g.neg(Times(g, n, x))
  {
    hide Abelian, Times;
    TimesNegate(g, 1, x);
    TimesOne(g, x);
    TimesTimes(g, n, -1, x);
    TimesNegate(g, n, x);
    assert n * -1 == -n;
  }

  /** [h](-A) + [s]B - R is [s]B - (R + [h]A). */
  lemma Rearranged<T(!new)>(g: Group<T>, h: int, a: T, s: int, b: T, r: T)
    requires Abelian(g)
    ensures g.add(Lin(g, h, g.neg(a), s, b), g.neg(r)) == g.add(Times(g, s, b), g.neg(g.add(r, Times(g, h, a))))
  {
    hide Abelian, Times;
    var p, q := Times(g, h, a), Times(g, s, b);
    TimesNeg(g, h, a);
    NegAdd(g, r, p);
    Comm(g, g.neg(p), q);
    Assoc(g, q, g.neg(p), g.neg(r));
    Comm(g, g.neg(p), g.neg(r));
  }

  /** Section 5.1.7: a signature is accepted exactly when public key and R decode to
      points, S is below the order, and eight times [S]B is eight times R + [k]A. */
  lemma AcceptsFormula<T(!new)>(c: Curve<T>, dom: seq<u8>, publicKey: seq<u8>, message: seq<u8>, sig: seq<u8>)
    requires Abelian(c.g) && |sig| == 64
    ensures Accepts(c, dom, publicKey, message, sig)
       <==> exists A: T, R: T ::
              && c.decodeNeg(publicKey) == Some(c.g.neg(A)) && c.decodeNeg(sig[..32]) == Some(c.g.neg(R))
              && Val8(sig[32..]) < L
              && var k, S := Val8(Sha512(dom + sig[..32] + publicKey + message)) % L, Val8(sig[32..]);
                 Times(c.g, 8, c.g.add(Times(c.g, S, c.base), c.g.neg(c.g.add(R, Times(c.g, k, A))))) == c.g.zero
  {
    hide Abelian, Times, Val8, Sha512, Lin;
    var k, S := Val8(Sha512(dom + sig[..32] + publicKey + message)) % L, Val8(sig[32..]);
    if Accepts(c, dom, publicKey, message, sig) {
      var x, y := c.decodeNeg(publicKey).value, c.decodeNeg(sig[..32]).value;
      NegNeg(c.g, x);
      NegNeg(c.g, y);
      Rearranged(c.g, k, c.g.neg(x), S, c.base, c.g.neg(y));
      assert c.decodeNeg(publicKey) == Some(c.g.neg(c.g.neg(x)));
    }
    forall A: T, R: T | c.decodeNeg(publicKey) == Some(c.g.neg(A)) && c.decodeNeg(sig[..32]) == Some(c.g.neg(R))
      ensures Times(c.g, 8, c.g.add(Times(c.g, S, c.base), c.g.neg(c.g.add(R, Times(c.g, k, A)))))
           == Times(c.g, 8, c.g.add(Lin(c.g, k, c.g.neg(A), S, c.base), c.g.neg(R)))
    {
      Rearranged(c.g, k, A, S, c.base, R);
    }
  }
}
