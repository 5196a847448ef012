/** Ed25519 end to end: key generation, signing and checking over the verified
    hash, scalar and point routines. */
module Ed25519 {
  import opened Arith
  import opened Words
  import opened Bits
  import opened Group
  import opened ScalarL
  import opened Curve
  import opened Ladder
  import opened Comb
  import opened CheckEquation
  import opened Sha512Spec
  import opened Sha512Stream

  // ---- the definitions of RFC 8032 ------------------------------------------------------

  /** A 64-byte digest as a number modulo L. */
  function DigestScalar(message: seq<u8>): nat
  {
    Val8(Sha512(message)) % L
  }

  /** Section 5.1.5: the clamped low half of the hashed seed. */
  function SecretScalar(seed: seq<u8>): nat
  {
    Val8(Trim(Sha512(seed)[..32]))
  }

  ghost function PublicKey<T>(c: Curve<T>, seed: seq<u8>): seq<u8>
  {
    c.encode(Times(c.g, SecretScalar(seed), c.base))
  }

  /** Section 5.1.6: sig is the signature of message under the 64-byte secret
      key (seed and public half), with domain prefix dom. */
  ghost predicate Signs<T>(c: Curve<T>, secretKey: seq<u8>, dom: seq<u8>, message: seq<u8>, sig: seq<u8>)
    requires |secretKey| == 64
  {
    var seed, pk := secretKey[..32], secretKey[32..];
    var r := DigestScalar(dom + Sha512(seed)[32..] + message);
    var R := c.encode(Times(c.g, r, c.base));
    && |sig| == 64 && sig[..32] == R
    && Val8(sig[32..]) == (DigestScalar(dom + R + pk + message) * SecretScalar(seed) + r) % L
  }

  /** Section 5.1.7, cofactored: what a check of sig decides. */
  ghost predicate Accepts<T>(c: Curve<T>, dom: seq<u8>, publicKey: seq<u8>, message: seq<u8>, sig: seq<u8>)
    requires |sig| == 64
  {
    Equation(c, sig, publicKey, DigestScalar(dom + sig[..32] + publicKey + message))
  }

  // ---- the group-level argument ------------------------------------------------------------

  /** [S]B - [h]A - R vanishes when A = [a]B, R = [r]B and S = h*a + r modulo L. */
  lemma EquationVanishes<T(!new)>(c: Curve<T>, h: nat, a: nat, r: nat, s: int)
    requires Lawful(c) && s == (h * a + r) % L
    ensures var A, R := Times(c.g, a, c.base), Times(c.g, r, c.base);
            c.g.add(Lin(c.g, h, c.g.neg(A), s, c.base), c.g.neg(R)) == c.g.zero
  {
    hide Lawful, Abelian, Times;
    GroupPart(c);
    var B := c.base;
    var A, R := Times(c.g, a, B), Times(c.g, r, B);
    TimesNegate(c.g, a, B);
    TimesTimes(c.g, h, 0 - a, B);
    TimesAdd(c.g, h * (0 - a), s, B);
    var q := (h * a + r) / L;
    OrderArgument(h, a, r, s, q);
    TimesOrder(c.g, L, -q, h * (0 - a) + s, r, B);
    Inverse(c.g, R);
  }

  lemma OrderArgument(h: int, a: int, r: int, s: int, q: int)
    requires s == (h * a + r) % L && q == (h * a + r) / L
    ensures h * (0 - a) + s == r + (-q) * L
  {
    assert h * (0 - a) == -(h * a);
  }

  /** Sign then check accepts, for every seed, message and domain. */
  lemma SignedAccepted<T(!new)>(c: Curve<T>, seed: seq<u8>, pk: seq<u8>, sk: seq<u8>, dom: seq<u8>, message: seq<u8>,
      sig: seq<u8>)
    requires |seed| == 32 && |pk| == 32 && sk == seed + pk && |sk| == 64 && |sig| == 64
    requires pk == PublicKey(c, seed) && Signs(c, sk, dom, message, sig)
    requires Lawful(c)
    ensures Accepts(c, dom, pk, message, sig)
  {
    hide Lawful, Abelian, Times, Val8, DigestScalar, SecretScalar, Sha512, Lin, StoreLimbs;
    assert sk[..32] == seed && sk[32..] == pk;
    var a, r := SecretScalar(seed), DigestScalar(dom + Sha512(seed)[32..] + message);
    var R := c.encode(Times(c.g, r, c.base));
    var h := DigestScalar(dom + R + pk + message);
    Encodes(c, Times(c.g, a, c.base));
    Encodes(c, Times(c.g, r, c.base));
    EquationVanishes(c, h, a, r, Val8(sig[32..]));
    GroupPart(c);
    TimesOfZero(c.g, 8);
  }

  // ---- the code -----------------------------------------------------------------------------

  /** hash_reduce: four updates, then the digest modulo L. */
  method HashReduce(a: seq<u8>, b: seq<u8>, c: seq<u8>, d: seq<u8>) returns (h: seq<u8>)
    ensures |h| == 32 && Val8(h) == DigestScalar(a + b + c + d)
  {
    hide Sha512, Val8;
    var ctx := new Sha512Ctx();
    assert [] + a == a;
    ctx.Update(a);
    ctx.Update(b);
    ctx.Update(c);
    ctx.Update(d);
    var hash := ctx.Final();
    h := EddsaReduce(hash);
  }

  /** crypto_ed25519_key_pair. */
  method KeyPair<T(!new)>(c: Curve<T>, seed: seq<u8>) returns (secretKey: seq<u8>, publicKey: seq<u8>)
    requires Lawful(c) && |seed| == 32
    ensures |publicKey| == 32 && publicKey == PublicKey(c, seed)
    ensures secretKey == seed + publicKey
  {
    hide Lawful, Sha512, Times, Val8, Trim, StoreLimbs;
    var a := CryptoSha512(seed);
    var scalar := Trim(a[..32]);
    var point := ScalarmultBase(c, scalar);
    publicKey := c.encode(point);
    Encodes(c, point);
    secretKey := seed + publicKey;
  }

  /** ed25519_dom_sign. */
  method DomSign<T(!new)>(c: Curve<T>, secretKey: seq<u8>, dom: seq<u8>, message: seq<u8>) returns (signature: seq<u8>)
    requires Lawful(c) && |secretKey| == 64
    ensures Signs(c, secretKey, dom, message, signature)
  {
    hide Lawful, Sha512, Times, Val8, Trim, StoreLimbs;
    var pk := secretKey[32..];
    var a := CryptoSha512(secretKey[..32]);
    var scalar := Trim(a[..32]);
    var r := HashReduce(dom, a[32..], message, []);
    assert dom + a[32..] + message + [] == dom + a[32..] + message;
    var point := ScalarmultBase(c, r);
    var R := c.encode(point);
    Encodes(c, point);
    var h := HashReduce(dom, R, pk, message);
    var s := EddsaMulAdd(h, scalar, r);
    signature := R + s;
    assert signature[..32] == R && signature[32..] == s;
  }

  lemma ReducedBelowTop(v: nat)
    ensures v % L < Arith.Pow2(253)
  {
    BelowTop(v % L);
  }

  /** crypto_ed25519_check. */
  method Check<T(!new)>(c: Curve<T>, signature: seq<u8>, publicKey: seq<u8>, msg: seq<u8>) returns (r: int)
    requires Lawful(c) && |signature| == 64 && |publicKey| == 32
    ensures r == (if Accepts(c, [], publicKey, msg, signature) then 0 else -1)
  {
    hide Lawful, Sha512, Val8, Equation, Pow2;
    var h := HashReduce(signature[..32], publicKey, msg, []);
    assert signature[..32] + publicKey + msg + [] == [] + signature[..32] + publicKey + msg;
    ReducedBelowTop(Val8(Sha512([] + signature[..32] + publicKey + msg)));
    r := CryptoEddsaCheckEquation(c, signature, publicKey, h);
  }

  /** The domain of the pre-hashed variant: the text, the octet 1 and the string's
      terminating zero. */
  const DOMAIN: seq<u8> := [
    83, 105, 103, 69, 100, 50, 53, 53, 49, 57, 32, 110, 111, 32, 69, 100,
    50, 53, 53, 49, 57, 32, 99, 111, 108, 108, 105, 115, 105, 111, 110, 115, 1, 0]

  /** crypto_ed25519_ph_check. */
  method PhCheck<T(!new)>(c: Curve<T>, signature: seq<u8>, publicKey: seq<u8>, msgHash: seq<u8>) returns (r: int)
    requires Lawful(c) && |signature| == 64 && |publicKey| == 32 && |msgHash| == 64
    ensures r == (if Accepts(c, DOMAIN, publicKey, msgHash, signature) then 0 else -1)
  {
    hide Lawful, Sha512, Val8, Equation, Pow2;
    var h := HashReduce(DOMAIN, signature[..32], publicKey, msgHash);
    ReducedBelowTop(Val8(Sha512(DOMAIN + signature[..32] + publicKey + msgHash)));
    r := CryptoEddsaCheckEquation(c, signature, publicKey, h);
  }

  /** The three routines composed: the check of an honest signature returns 0. */
  method SignThenCheck<T(!new)>(c: Curve<T>, seed: seq<u8>, message: seq<u8>) returns (r: int)
    requires Lawful(c) && |seed| == 32
    ensures r == 0
  {
    hide Lawful, Signs, Accepts, PublicKey;
    var secretKey, publicKey := KeyPair(c, seed);
    var signature := DomSign(c, secretKey, [], message);
    SignedIsLong(c, secretKey, [], message, signature);
    SignedAccepted(c, seed, publicKey, secretKey, [], message, signature);
    r := Check(c, signature, publicKey, message);
  }

  /** The same for the pre-hashed variant. */
  method PhSignThenCheck<T(!new)>(c: Curve<T>, seed: seq<u8>, msgHash: seq<u8>) returns (r: int)
    requires Lawful(c) && |seed| == 32 && |msgHash| == 64
    ensures r == 0
  {
    hide Lawful, Signs, Accepts, PublicKey;
    var secretKey, publicKey := KeyPair(c, seed);
    var signature := DomSign(c, secretKey, DOMAIN, msgHash);
    SignedIsLong(c, secretKey, DOMAIN, msgHash, signature);
    SignedAccepted(c, seed, publicKey, secretKey, DOMAIN, msgHash, signature);
    r := PhCheck(c, signature, publicKey, msgHash);
  }

  lemma SignedIsLong<T>(c: Curve<T>, secretKey: seq<u8>, dom: seq<u8>, message: seq<u8>, sig: seq<u8>)
    requires |secretKey| == 64 && Signs(c, secretKey, dom, message, sig)
    ensures |sig| == 64
  {
    hide Times, Val8, DigestScalar, SecretScalar, Sha512;
  }
}
