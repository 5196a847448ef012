/** The phone's half of the protocol and the agreement of both parties. */
module Handshake {
  import opened Words
  import opened Session
  import opened Transport

  /** The laws of the primitives: key agreement commutes and maps the zero point to
      zero, signatures of a key pair verify, and sealed text opens. */
  ghost predicate Lawful(c: Crypto, keyOf: Bytes -> Bytes)
  {
    && Sized(c)
    && (forall a, b :: c.dh(a, c.publicKey(b)) == c.dh(b, c.publicKey(a)))
    && (forall a :: c.dh(a, Zeros(32)) == Zeros(32))
    && (forall seed, m :: c.check(keyOf(seed), m, c.sign(seed + keyOf(seed), m)))
    && (forall s, i, n :: c.hkdf(s, i, n).Some?)
    && (forall k, n, p :: c.seal(k, n, p).Some?)
    && (forall k, n, p :: c.seal(k, n, p).Some? ==>
          c.open(k, n, c.seal(k, n, p).value.ct, c.seal(k, n, p).value.tag) == Some(p))
  }

  // ---- the phone -----------------------------------------------------------------------------

  class Phone {
    const crypto: Crypto
    const phoneSk: Bytes
    const phonePk: Bytes
    const lockPk: Bytes
    var ephPk: Bytes
    var ephSk: Bytes
    var cP: Bytes
    var kP2e: Bytes
    var kE2p: Bytes

    ghost predicate Ready()
      reads this
    {
      Sized(crypto) && |ephPk| == 32 && |cP| == 32
    }

    /** mock_phone_init: the secret key is seed followed by public key. */
    constructor (c: Crypto, sk: Bytes, lock: Bytes)
      requires Sized(c) && |sk| == 64
      ensures Ready() && crypto == c && phoneSk == sk && phonePk == sk[32..] && lockPk == lock
    {
      crypto, phoneSk, phonePk, lockPk := c, sk, sk[32..], lock;
      ephPk, ephSk, cP, kP2e, kE2p := Zeros(32), Zeros(32), Zeros(32), Zeros(32), Zeros(32);
    }

    /** mock_phone_get_m1. */
    method GetM1(sk: Bytes, challenge: Bytes) returns (m1: Bytes)
      requires Ready() && |challenge| == 32
      modifies this
      ensures Ready() && ephSk == sk && ephPk == crypto.publicKey(sk) && cP == challenge
      ensures |m1| == M1_LEN && m1[..32] == ephPk && m1[32..] == cP
    {
      hide Sized;
      PublicKeySize(crypto, sk);
      ephSk, ephPk, cP := sk, crypto.publicKey(sk), challenge;
      m1 := ephPk + cP;
    }

    /** The phone's own copy of the transcript. */
    method BuildTranscript(ephPkL: Bytes, cL: Bytes) returns (t: Bytes)
      requires Ready() && |ephPkL| == 32 && |cL| == 32
      ensures t == Transcript(ephPk, ephPkL, cP, cL) && |t| == TRANSCRIPT_LEN
    {
      hide Sized, DOMAIN;
      DomainLength();
      var out := new u8[TRANSCRIPT_LEN];
      var off := Copy(DOMAIN, out, 0);
      out[off] := 0x01;
      off := off + 1;
      off := Copy(ephPk, out, off);
      off := Copy(ephPkL, out, off);
      off := Copy(cP, out, off);
      off := Copy(cL, out, off);
      t := out[..off];
    }

    /** mock_phone_process_m2_get_m3: the lock must have signed the same transcript. */
    method ProcessM2(m2: Bytes) returns (m3: Option<Bytes>)
      requires Ready() && |m2| == 128
      modifies this`kP2e, this`kE2p
      ensures Ready()
      ensures var t := Transcript(ephPk, m2[..32], cP, m2[32..64]);
              && (m3.Some? <==> crypto.check(lockPk, t, m2[64..]) && crypto.dh(ephSk, m2[..32]) != Zeros(32))
              && (m3.Some? ==> m3 == Some(crypto.sign(phoneSk, t)))
              && (m3.Some? && KeysOf(crypto, ephSk, m2[..32], cP, m2[32..64]).Some? ==>
                    KeysOf(crypto, ephSk, m2[..32], cP, m2[32..64]) == Some((kP2e, kE2p)))
    {
      hide Sized, Transcript, Zeros;
      var ephPkL, cL, sigL := m2[..32], m2[32..64], m2[64..];
      var transcript := BuildTranscript(ephPkL, cL);
      if !crypto.check(lockPk, transcript, sigL) {
        return None;
      }
      var shared := crypto.dh(ephSk, ephPkL);
      DhSize(crypto, ephSk, ephPkL);
      var zero := IsZero(shared);
      if zero {
        return None;
      }
      var salt := cP + cL;
      var k1 := crypto.hkdf(salt, shared, INFO_P2E);
      if k1.Some? {
        kP2e := k1.value;
      }
      var k2 := crypto.hkdf(salt, shared, INFO_E2P);
      if k2.Some? {
        kE2p := k2.value;
      }
      return Some(crypto.sign(phoneSk, transcript));
    }

    /** mock_phone_encrypt_payload. */
    method Encrypt(pt: Bytes, nonce: Bytes) returns (payload: Bytes)
      requires |nonce| == 12 && crypto.seal(kP2e, nonce, pt).Some?
      ensures var s := crypto.seal(kP2e, nonce, pt).value; payload == nonce + s.ct + s.tag
    {
      var s := crypto.seal(kP2e, nonce, pt).value;
      payload := nonce + s.ct + s.tag;
    }

    /** mock_phone_decrypt_payload. */
    method Decrypt(payload: Bytes) returns (pt: Option<Bytes>)
      ensures pt == if |payload| < GCM_OVERHEAD then None else Opened(crypto, kE2p, payload)
    {
      if |payload| < GCM_OVERHEAD {
        return None;
      }
      pt := Opened(crypto, kE2p, payload);
    }
  }

  // ---- agreement ---------------------------------------------------------------------------------

  /** Both sides derive the same keys, or neither derives any. */
  lemma SameKeys(c: Crypto, keyOf: Bytes -> Bytes, a: Bytes, b: Bytes, cP: Bytes, cL: Bytes)
    requires Lawful(c, keyOf)
    ensures KeysOf(c, a, c.publicKey(b), cP, cL) == KeysOf(c, b, c.publicKey(a), cP, cL)
  {
    assert c.dh(a, c.publicKey(b)) == c.dh(b, c.publicKey(a));
  }

  /** A nonzero shared secret means the phone's public key is not the zero point. */
  lemma NonzeroPoint(c: Crypto, keyOf: Bytes -> Bytes, a: Bytes, b: Bytes)
    requires Lawful(c, keyOf) && c.dh(b, c.publicKey(a)) != Zeros(32)
    ensures c.publicKey(a) != Zeros(32)
  {
  }

  lemma NonzeroKeys(c: Crypto, keyOf: Bytes -> Bytes, a: Bytes, b: Bytes, cP: Bytes, cL: Bytes)
    requires Lawful(c, keyOf) && c.dh(a, c.publicKey(b)) != Zeros(32)
    ensures KeysOf(c, a, c.publicKey(b), cP, cL).Some?
  {
    DhSize(c, a, c.publicKey(b));
  }

  /** A sealed payload opens under the same key to what was sealed. */
  lemma OpensSealed(c: Crypto, keyOf: Bytes -> Bytes, key: Bytes, nonce: Bytes, pt: Bytes)
    requires Lawful(c, keyOf) && |nonce| == 12
    ensures c.seal(key, nonce, pt).Some?
    ensures var s := c.seal(key, nonce, pt).value; var data := nonce + s.ct + s.tag;
            |data| == GCM_OVERHEAD + |pt| && Opened(c, key, data) == Some(pt)
  {
    var s := c.seal(key, nonce, pt).value;
    var data := nonce + s.ct + s.tag;
    assert |s.ct| == |pt| && |s.tag| == 16;
    assert data[..12] == nonce && data[12..|data| - 16] == s.ct && data[|data| - 16..] == s.tag;
  }

  lemma SignedVerifies(c: Crypto, keyOf: Bytes -> Bytes, seed: Bytes, m: Bytes)
    requires Lawful(c, keyOf)
    ensures c.check(keyOf(seed), m, c.sign(seed + keyOf(seed), m))
    ensures |c.sign(seed + keyOf(seed), m)| == 64
  {
  }

  /** Both parties' long-term keys, and the phone's place among the lock's keys. */
  ghost predicate Enrolled(s: Session, p: Phone, keyOf: Bytes -> Bytes, lockSeed: Bytes, phoneSeed: Bytes,
                           provider: nat -> Option<Bytes>, slot: nat)
  {
    && s.crypto == p.crypto && Lawful(s.crypto, keyOf)
    && s.localSk == lockSeed + keyOf(lockSeed) && p.lockPk == keyOf(lockSeed)
    && p.phoneSk == phoneSeed + keyOf(phoneSeed)
    && slot < MAX_PEER_CANDIDATES && Offers(provider, slot) && provider(slot) == Some(keyOf(phoneSeed))
  }

  /** The wire form of a command arrives as that command. */
  lemma Arrives(ins: u8, data: Bytes)
    requires |data| <= 255
    ensures ParseCapdu(Wire(ins, 0, 0, data)) == Command(Capdu(ins, data))
  {
    ParsesExactly(Wire(ins, 0, 0, data), Capdu(ins, data));
  }

  /** M1 out, M2 back: the lock caches what the phone sent. */
  method FirstHalf(s: Session, p: Phone, phoneEph: Bytes, phoneChallenge: Bytes, lockEph: Bytes, lockChallenge: Bytes)
    returns (m2: Bytes)
    requires s.Valid() && p.Ready() && s.crypto == p.crypto && |phoneChallenge| == 32 && |lockChallenge| == 32
    requires s.crypto.publicKey(phoneEph) != Zeros(32)
    modifies s, s.facade, p
    ensures s.Valid() && p.Ready() && s.stage == Ephemeral
    ensures s.pkEphP == p.ephPk == s.crypto.publicKey(phoneEph) && s.cP == p.cP == phoneChallenge
    ensures s.pkEphL == s.crypto.publicKey(lockEph) && s.cL == lockChallenge && s.skEphL == lockEph && p.ephSk
        == phoneEph
    ensures |m2| == 128 && m2[..32] == s.pkEphL && m2[32..64] == s.cL
    ensures m2[64..] == s.crypto.sign(s.localSk, s.CurrentTranscript())
  {
    hide Zeros, Sized, Transcript, ParseCapdu, Wire;
    var m1 := p.GetM1(phoneEph, phoneChallenge);
    Arrives(INS_HANDSHAKE_INIT, m1);
    var start := ParseCapdu(Wire(INS_HANDSHAKE_INIT, 0, 0, m1));
    var r := s.HandleM1(start.capdu.data, lockEph, lockChallenge);
    m2 := r.rapdu.data;
    SignatureSize(s.crypto, s.localSk, s.CurrentTranscript());
    M2Parts(s.pkEphL, s.cL, s.crypto.sign(s.localSk, s.CurrentTranscript()));
  }

  lemma SignatureSize(c: Crypto, sk: Bytes, m: Bytes)
    requires Sized(c)
    ensures |c.sign(sk, m)| == 64
  {
  }

  /** An honest handshake: whatever state the session was in, whatever either side
      draws, unless the shared secret is zero, M3 is accepted, both sides signed
      the same 140 bytes and hold the same two keys. */
  method Establish(s: Session, p: Phone, ghost keyOf: Bytes -> Bytes, ghost lockSeed: Bytes, ghost phoneSeed: Bytes,
                   provider: nat -> Option<Bytes>, ghost slot: nat, now: int,
                   phoneEph: Bytes, phoneChallenge: Bytes, lockEph: Bytes, lockChallenge: Bytes)
    returns (accepted: bool, transcript: Bytes)
    requires s.Valid() && p.Ready() && |phoneChallenge| == 32 && |lockChallenge| == 32
    requires s.crypto.dh(phoneEph, s.crypto.publicKey(lockEph)) != Zeros(32)
    requires Enrolled(s, p, keyOf, lockSeed, phoneSeed, provider, slot)
    modifies s, s.facade, p
    ensures accepted && s.Valid() && s.stage == Established && s.facade.active
    ensures s.kP2e == p.kP2e && s.kE2p == p.kE2p
    ensures |transcript| == TRANSCRIPT_LEN && s.CurrentTranscript() == transcript
    ensures transcript == Transcript(s.crypto.publicKey(phoneEph), s.crypto.publicKey(lockEph), phoneChallenge,
        lockChallenge)
  {
    hide Zeros, Sized, Lawful, Transcript, KeysOf, Resolves, AfterM3, DeferredEvents, ParseCapdu, Wire;
    ghost var c := s.crypto;
    NonzeroShared(c, keyOf, phoneEph, lockEph, phoneChallenge, lockChallenge);
    var m2 := FirstHalf(s, p, phoneEph, phoneChallenge, lockEph, lockChallenge);
    ghost var t := s.CurrentTranscript();
    SignedVerifies(c, keyOf, lockSeed, t);
    transcript := p.BuildTranscript(m2[..32], m2[32..64]);
    var m3 := p.ProcessM2(m2);
    SignedVerifies(c, keyOf, phoneSeed, t);
    ResolvedBy(c, provider, slot, t, m3.value);
    accepted := SecondHalf(s, m3.value, provider, now);
  }

  /** M3 to the lock. */
  method SecondHalf(s: Session, m3: Bytes, provider: nat -> Option<Bytes>, now: int) returns (accepted: bool)
    requires s.Valid() && s.stage == Ephemeral && |m3| == M3_LEN
    requires Resolves(s.crypto, provider, s.CurrentTranscript(), m3)
    requires KeysOf(s.crypto, s.skEphL, s.pkEphP, s.cP, s.cL).Some?
    modifies s, s.facade
    ensures accepted && s.Valid() && s.stage == Established && s.Cache() == old(s.Cache())
    ensures old(KeysOf(s.crypto, s.skEphL, s.pkEphP, s.cP, s.cL)) == Some((s.kP2e, s.kE2p))
  {
    hide Zeros, Sized, Transcript, KeysOf, Resolves, AfterM3, DeferredEvents, ParseCapdu, Wire;
    Arrives(INS_HANDSHAKE_FINISH, m3);
    var finish := ParseCapdu(Wire(INS_HANDSHAKE_FINISH, 0, 0, m3));
    var r := s.HandleM3(finish.capdu.data, provider, now);
    accepted := r.Answer?;
  }

  lemma M2Parts(pk: Bytes, challenge: Bytes, sig: Bytes)
    requires |pk| == 32 && |challenge| == 32
    ensures var m2 := pk + challenge + sig; m2[..32] == pk && m2[32..64] == challenge && m2[64..] == sig
  {
  }

  lemma ResolvedBy(c: Crypto, provider: nat -> Option<Bytes>, slot: nat, transcript: Bytes, sig: Bytes)
    requires slot < MAX_PEER_CANDIDATES && Offers(provider, slot) && c.check(provider(slot).value, transcript, sig)
    ensures Resolves(c, provider, transcript, sig)
  {
  }

  lemma NonzeroShared(c: Crypto, keyOf: Bytes -> Bytes, a: Bytes, b: Bytes, cP: Bytes, cL: Bytes)
    requires Lawful(c, keyOf) && c.dh(a, c.publicKey(b)) != Zeros(32)
    ensures c.publicKey(a) != Zeros(32) && |c.publicKey(a)| == 32 && |c.publicKey(b)| == 32
    ensures KeysOf(c, a, c.publicKey(b), cP, cL).Some?
    ensures KeysOf(c, a, c.publicKey(b), cP, cL) == KeysOf(c, b, c.publicKey(a), cP, cL)
  {
    hide KeysOf, Zeros;
    SameKeys(c, keyOf, a, b, cP, cL);
    NonzeroKeys(c, keyOf, a, b, cP, cL);
    assert c.dh(b, c.publicKey(a)) == c.dh(a, c.publicKey(b));
    NonzeroPoint(c, keyOf, a, b);
  }

  /** One command and its answer: a plaintext of at most 199 bytes passes the
      transport's budget, reaches the application verbatim, and the application's
      reply of at most 227 bytes reaches the phone verbatim. */
  method Exchange(s: Session, p: Phone, ghost keyOf: Bytes -> Bytes, pt: Bytes, handler: Bytes -> AppReply,
                  phoneNonce: Bytes, lockNonce: Bytes)
    returns (reply: Option<Bytes>)
    requires s.Valid() && s.stage == Established && s.crypto == p.crypto && s.kP2e == p.kP2e && s.kE2p == p.kE2p
    requires |pt| <= 199 && |phoneNonce| == 12 && |lockNonce| == 12
    requires forall x :: |handler(x).buffer| == PLAINTEXT_MAX
    requires Lawful(s.crypto, keyOf)
    modifies s.facade`trace
    ensures s.Valid()
    ensures s.facade.trace == old(s.facade.trace) + [HandlerRan(pt)]
    ensures reply == Some(ReplyBytes(handler(pt)))
  {
    hide Zeros, Sized, Lawful, Opened, ParseCapdu, Wire, ReplyBytes;
    ghost var c := s.crypto;
    OpensSealed(c, keyOf, p.kP2e, phoneNonce, pt);
    var payload := p.Encrypt(pt, phoneNonce);
    Arrives(INS_SECURE_PAYLOAD, payload);
    var cmd := ParseCapdu(Wire(INS_SECURE_PAYLOAD, 0, 0, payload));
    assert |cmd.capdu.data| <= PLAINTEXT_BUDGET;
    OpensSealed(c, keyOf, s.kE2p, lockNonce, ReplyBytes(handler(pt)));
    var r := s.HandlePayload(cmd.capdu.data, handler, lockNonce);
    reply := p.Decrypt(r.rapdu.data);
  }

  /** A whole conversation after an honest handshake. */
  method Converse(s: Session, p: Phone, ghost keyOf: Bytes -> Bytes, plaintexts: seq<Bytes>, handler: Bytes -> AppReply,
                  phoneNonces: nat -> Bytes, lockNonces: nat -> Bytes)
    returns (replies: seq<Bytes>)
    requires s.Valid() && s.stage == Established && s.crypto == p.crypto && s.kP2e == p.kP2e && s.kE2p == p.kE2p
    requires forall i :: 0 <= i < |plaintexts| ==> |plaintexts[i]| <= 199
    requires forall n: nat :: |phoneNonces(n)| == 12 && |lockNonces(n)| == 12
    requires forall x :: |handler(x).buffer| == PLAINTEXT_MAX
    requires Lawful(s.crypto, keyOf)
    modifies s.facade`trace
    ensures |replies| == |plaintexts|
    ensures forall i :: 0 <= i < |plaintexts| ==> replies[i] == ReplyBytes(handler(plaintexts[i]))
    ensures s.facade.trace == old(s.facade.trace) + seq(|plaintexts|,
        i requires 0 <= i < |plaintexts| => HandlerRan(plaintexts[i]))
  {
    hide Zeros, Sized, Lawful, ReplyBytes;
    replies := [];
    ghost var ran: seq<Event> := [];
    for k := 0 to |plaintexts|
      invariant s.Valid() && |replies| == k && |ran| == k
      invariant forall i :: 0 <= i < k ==>
            replies[i] == ReplyBytes(handler(plaintexts[i])) && ran[i] == HandlerRan(plaintexts[i])
      invariant s.facade.trace == old(s.facade.trace) + ran
    {
      var reply := Exchange(s, p, keyOf, plaintexts[k], handler, phoneNonces(k), lockNonces(k));
      replies := replies + [reply.value];
      ran := ran + [HandlerRan(plaintexts[k])];
    }
    assert ran == seq(|plaintexts|, i requires 0 <= i < |plaintexts| => HandlerRan(plaintexts[i]));
  }
}
