/** The session layer: the three-message handshake and the secure channel, one
    session object updated in place, with its primitives as functions. */
module Session {
  import opened Words
  import opened Bits

  type Bytes = seq<u8>

  datatype Option<T> = None | Some(value: T)

  function Zeros(n: nat): (z: Bytes)
    ensures |z| == n
  {
    seq(n, _ => 0)
  }

  // ---- primitives ----------------------------------------------------------------------------

  datatype Sealed = Sealed(ct: Bytes, tag: Bytes)

  /** The primitives of session_crypto.c.  Key derivation and sealing go through a
      backend that can fail. */
  datatype Crypto = Crypto(
    publicKey: Bytes -> Bytes,
    dh: (Bytes, Bytes) -> Bytes,
    sign: (Bytes, Bytes) -> Bytes,
    check: (Bytes, Bytes, Bytes) -> bool,
    hkdf: (Bytes, Bytes, Bytes) -> Option<Bytes>,
    seal: (Bytes, Bytes, Bytes) -> Option<Sealed>,
    open: (Bytes, Bytes, Bytes, Bytes) -> Option<Bytes>)

  /** The lengths every primitive delivers. */
  ghost predicate Sized(c: Crypto)
  {
    && (forall sk :: |c.publicKey(sk)| == 32)
    && (forall sk, pk :: |c.dh(sk, pk)| == 32)
    && (forall sk, m :: |c.sign(sk, m)| == 64)
    && (forall s, i, n :: c.hkdf(s, i, n).Some? ==> |c.hkdf(s, i, n).value| == 32)
    && (forall k, n, p :: c.seal(k, n, p).Some? ==>
          |c.seal(k, n, p).value.ct| == |p| && |c.seal(k, n, p).value.tag| == 16)
    && (forall k, n, ct, t :: c.open(k, n, ct, t).Some? ==> |c.open(k, n, ct, t).value| == |ct|)
  }

  // ---- messages --------------------------------------------------------------------------------

  const INS_HANDSHAKE_INIT: u8 := 0x10
  const INS_HANDSHAKE_FINISH: u8 := 0x11
  const INS_SECURE_PAYLOAD: u8 := 0x20
  const INS_SESSION_ABORT: u8 := 0x30

  const M1_LEN: nat := 64
  const M3_LEN: nat := 64
  const TRANSCRIPT_LEN: nat := 140
  const GCM_OVERHEAD: nat := 28
  const PLAINTEXT_MAX: nat := 227
  const MAX_PEER_CANDIDATES: nat := 64

  datatype Error = InvalidApdu | InvalidState | Internal

  datatype Capdu = Capdu(ins: u8, data: Bytes)

  datatype Rapdu = Rapdu(data: Bytes, sw1: u8, sw2: u8)

  datatype Reply = Answer(rapdu: Rapdu) | Failed(error: Error)

  const SUCCESS: Rapdu := Rapdu([], 0x90, 0x00)

  /** "SLOCK-HS-v1". */
  const DOMAIN: Bytes := [0x53, 0x4C, 0x4F, 0x43, 0x4B, 0x2D, 0x48, 0x53, 0x2D, 0x76, 0x31]
  /** "phone->esp" and "esp->phone". */
  const INFO_P2E: Bytes := [0x70, 0x68, 0x6F, 0x6E, 0x65, 0x2D, 0x3E, 0x65, 0x73, 0x70]
  const INFO_E2P: Bytes := [0x65, 0x73, 0x70, 0x2D, 0x3E, 0x70, 0x68, 0x6F, 0x6E, 0x65]

  /** Domain, version, both ephemeral keys and both challenges. */
  function Transcript(pkP: Bytes, pkL: Bytes, cP: Bytes, cL: Bytes): (t: Bytes)
  {
    DOMAIN + [0x01] + pkP + pkL + cP + cL
  }

  /** What the application's handler leaves behind: its verdict, the reply buffer and
      the length it claims. */
  datatype AppReply = AppReply(ok: bool, buffer: Bytes, len: nat)

  /** The bytes the session encrypts for that outcome. */
  function ReplyBytes(a: AppReply): (b: Bytes)
    requires |a.buffer| == PLAINTEXT_MAX
    ensures |b| <= PLAINTEXT_MAX
    ensures a.ok && a.len <= PLAINTEXT_MAX ==> |b| == a.len && b <= a.buffer
    ensures !a.ok ==> b == []
  {
    if !a.ok then [] else if a.len > PLAINTEXT_MAX then a.buffer else a.buffer[..a.len]
  }

  /** One of the first 64 keys of the provider verifies the signature. */
  ghost predicate Resolves(c: Crypto, provider: nat -> Option<Bytes>, transcript: Bytes, sig: Bytes)
  {
    exists i: nat :: i < MAX_PEER_CANDIDATES && Offers(provider, i) && c.check(provider(i).value, transcript, sig)
  }

  /** The provider has a key at i and at every index before it. */
  predicate Offers(provider: nat -> Option<Bytes>, i: nat)
  {
    forall j: nat :: j <= i ==> provider(j).Some?
  }

  // ---- the facade ----------------------------------------------------------------------------------

  datatype CommEvent = NoEvent | SessionStarted | SessionEnded

  /** What has happened so far, for statements about whole runs. */
  datatype Event =
    | Activated
    | M1Accepted
    | M3Accepted
    | HandlerRan(plaintext: Bytes)
    | Armed
    | Deferred(sig: Bytes, transcript: Bytes)
    | WindowOpened(secret: Bytes, deadline: int)
    | Attempted(cmd: Bytes, now: int)
    | KeyAdded(pk: Bytes)

  /** The communication module's lifecycle callbacks. */
  class Facade {
    var active: bool
    var pendingEvent: CommEvent
    ghost var trace: seq<Event>

    constructor ()
      ensures !active && pendingEvent == NoEvent && trace == []
    {
      active, pendingEvent, trace := false, NoEvent, [];
    }

    method OnEstablished()
      modifies this`active, this`pendingEvent
      ensures active && pendingEvent == SessionStarted
    {
      active := true;
      pendingEvent := SessionStarted;
    }

    method OnTerminated()
      modifies this`active, this`pendingEvent
      ensures !active && pendingEvent == SessionEnded
    {
      active := false;
      pendingEvent := SessionEnded;
    }
  }

  // ---- the session -------------------------------------------------------------------------------------

  datatype Stage = Empty | Ephemeral | Established

  class Session {
    const crypto: Crypto
    const localSk: Bytes
    const facade: Facade
    var stage: Stage
    var pkEphP: Bytes
    var cP: Bytes
    var pkEphL: Bytes
    var skEphL: Bytes
    var cL: Bytes
    var kP2e: Bytes
    var kE2p: Bytes
    var provisioningArmed: bool
    var deadline: int
    var m3Cached: bool
    var cachedSig: Bytes
    var cachedTranscript: Bytes

    /** All seven key buffers hold zeros. */
    ghost predicate Erased()
      reads this
    {
      && pkEphP == Zeros(32) && cP == Zeros(32) && pkEphL == Zeros(32)
      && skEphL == Zeros(32) && cL == Zeros(32) && NoKeys()
    }

    ghost predicate NoKeys()
      reads this
    {
      kP2e == Zeros(32) && kE2p == Zeros(32)
    }

    /** The stage tells what the buffers hold and what the facade reports. */
    ghost predicate Valid()
      reads this, facade
    {
      && Consistent()
      && (stage == Empty ==> Erased())
      && (stage == Ephemeral ==> NoKeys())
    }

    ghost predicate Consistent()
      reads this, facade
    {
      Sized(crypto) && Cached() && (facade.active <==> stage == Established)
    }

    ghost predicate Cached()
      reads this
    {
      |pkEphP| == 32 && |cP| == 32 && |pkEphL| == 32 && |cL| == 32
    }

    /** The transcript of the handshake in the cache. */
    ghost function CurrentTranscript(): Bytes
      reads this
    {
      Transcript(pkEphP, pkEphL, cP, cL)
    }

    /** The handshake cache: the phone's key and challenge, the lock's key pair and
        challenge. */
    ghost function Cache(): (Bytes, Bytes, Bytes, Bytes, Bytes)
      reads this
    {
      (pkEphP, cP, pkEphL, skEphL, cL)
    }

    /** Handshake cache, provisioning window and history are as they were. */
    ghost predicate Same(cache: (Bytes, Bytes, Bytes, Bytes, Bytes), window: (bool, int, bool, Bytes, Bytes),
        trace: seq<Event>)
      reads this, facade
    {
      Cache() == cache && Window() == window && facade.trace == trace
    }

    /** What provisioning keeps between sessions. */
    ghost function Window(): (bool, int, bool, Bytes, Bytes)
      reads this
    {
      (provisioningArmed, deadline, m3Cached, cachedSig, cachedTranscript)
    }

    /** session_init. */
    constructor (c: Crypto, sk: Bytes, f: Facade)
      requires Sized(c) && !f.active
      ensures Valid() && stage == Empty && facade == f && crypto == c && localSk == sk
      ensures Window() == (false, 0, false, Zeros(64), Zeros(TRANSCRIPT_LEN))
    {
      crypto, localSk, facade, stage := c, sk, f, Empty;
      pkEphP, cP, pkEphL, skEphL, cL := Zeros(32), Zeros(32), Zeros(32), Zeros(32), Zeros(32);
      kP2e, kE2p := Zeros(32), Zeros(32);
      provisioningArmed, deadline, m3Cached := false, 0, false;
      cachedSig, cachedTranscript := Zeros(64), Zeros(TRANSCRIPT_LEN);
    }

    /** session_on_erase.  The callback runs twice; its effect is the same as once. */
    method OnErase()
      requires Consistent()
      modifies this, facade
      ensures Valid() && stage == Empty && Erased()
      ensures Window() == old(Window()) && facade.trace == old(facade.trace)
      ensures facade.pendingEvent == if old(stage) == Established then SessionEnded else old(facade.pendingEvent)
    {
      hide Zeros, Sized;
      if stage == Established {
        facade.OnTerminated();
      }
      if stage == Established {
        facade.OnTerminated();
      }
      Wipe();
      stage := Empty;
    }

    /** Zeroes the seven key buffers and nothing else. */
    method Wipe()
      modifies this`pkEphP, this`cP, this`pkEphL, this`skEphL, this`cL, this`kP2e, this`kE2p
      ensures Erased() && Cached()
    {
      pkEphP := Zeros(32);
      cP := Zeros(32);
      pkEphL := Zeros(32);
      skEphL := Zeros(32);
      cL := Zeros(32);
      kP2e := Zeros(32);
      kE2p := Zeros(32);
    }

    /** build_transcript. */
    method BuildTranscript(out: array<u8>) returns (off: nat)
      requires Cached() && out.Length == TRANSCRIPT_LEN
      modifies out
      ensures off == TRANSCRIPT_LEN && out[..] == CurrentTranscript()
    {
      hide Zeros, DOMAIN;
      DomainLength();
      off := Copy(DOMAIN, out, 0);
      out[off] := 0x01;
      off := off + 1;
      off := Copy(pkEphP, out, off);
      off := Copy(pkEphL, out, off);
      off := Copy(cP, out, off);
      off := Copy(cL, out, off);
    }

    /** The lock's signature over the handshake. */
    method SignTranscript() returns (sigL: Bytes)
      requires Cached()
      ensures sigL == crypto.sign(localSk, CurrentTranscript())
    {
      hide Zeros, Transcript, Sized;
      var transcript := new u8[TRANSCRIPT_LEN];
      var tlen := BuildTranscript(transcript);
      assert transcript[..tlen] == transcript[..];
      sigL := crypto.sign(localSk, transcript[..tlen]);
    }

    /** session_handle_m1, with the ephemeral secret and challenge drawn by the lock. */
    method HandleM1(data: Bytes, sk: Bytes, challenge: Bytes) returns (r: Reply)
      requires Valid() && |challenge| == 32
      modifies this, facade
      ensures Valid() && Window() == old(Window())
      ensures r.Answer? <==> |data| == M1_LEN && data[..32] != Zeros(32)
      ensures |data| != M1_LEN ==> r == Failed(InvalidApdu)
      ensures |data| == M1_LEN && data[..32] == Zeros(32) ==> r == Failed(Internal)
      ensures r.Failed? ==> stage == old(stage) && facade.trace == old(facade.trace)
      ensures r.Answer? ==> stage == Ephemeral && facade.trace == old(facade.trace) + [M1Accepted]
      ensures r.Answer? ==> pkEphP == data[..32] && cP == data[32..] && cL == challenge
      ensures r.Answer? ==> skEphL == sk && pkEphL == crypto.publicKey(sk)
      ensures r.Answer? ==> r.rapdu == Rapdu(pkEphL + cL + crypto.sign(localSk, CurrentTranscript()), 0x90, 0x00)
    {
      hide Zeros, Transcript, Sized;
      if |data| != M1_LEN {
        return Failed(InvalidApdu);
      }
      var pkP, c := data[..32], data[32..];
      var zero := IsZero(pkP);
      if zero {
        return Failed(Internal);
      }
      var m2 := AnswerM1(pkP, c, sk, challenge);
      return Answer(m2);
    }

    /** The answering half of session_handle_m1: a clean slate, fresh material, M2. */
    method AnswerM1(pkP: Bytes, c: Bytes, sk: Bytes, challenge: Bytes) returns (m2: Rapdu)
      requires Valid() && |pkP| == 32 && |c| == 32 && |challenge| == 32
      modifies this, facade
      ensures Valid() && Window() == old(Window())
      ensures stage == Ephemeral && facade.trace == old(facade.trace) + [M1Accepted]
      ensures pkEphP == pkP && cP == c && cL == challenge && skEphL == sk && pkEphL == crypto.publicKey(sk)
      ensures m2 == Rapdu(pkEphL + cL + crypto.sign(localSk, CurrentTranscript()), 0x90, 0x00)
    {
      hide Zeros, Transcript, Sized;
      OnErase();
      PublicKeySize(crypto, sk);
      skEphL := sk;
      pkEphL := crypto.publicKey(sk);
      cL := challenge;
      pkEphP := pkP;
      cP := c;
      var sigL := SignTranscript();
      stage := Ephemeral;
      facade.trace := facade.trace + [M1Accepted];
      m2 := Rapdu(pkEphL + cL + sigL, 0x90, 0x00);
    }

    /** The candidate loop of M3. */
    method ResolveIdentity(provider: nat -> Option<Bytes>, transcript: Bytes, sig: Bytes) returns (ok: bool)
      ensures ok <==> Resolves(crypto, provider, transcript, sig)
    {
      for i := 0 to MAX_PEER_CANDIDATES
        invariant forall j: nat :: j < i ==> provider(j).Some? && !crypto.check(provider(j).value, transcript, sig)
      {
        if provider(i).None? {
          return false;
        }
        if crypto.check(provider(i).value, transcript, sig) {
          assert Offers(provider, i);
          return true;
        }
      }
      return false;
    }

    /** The window is used up by the first M3 that reaches it; inside its deadline the
        signature is kept for the provisioning step instead of being resolved. */
    method UseWindow(sig: Bytes, transcript: Bytes, now: int) returns (deferred: bool)
      requires Valid()
      modifies this`provisioningArmed, this`m3Cached, this`cachedSig, this`cachedTranscript, facade`trace
      ensures Valid() && deferred == old(provisioningArmed && now <= deadline)
      ensures Window() == AfterM3(old(Window()), sig, transcript, now)
      ensures facade.trace == old(facade.trace) + DeferredEvents(deferred, sig, transcript)
    {
      hide Zeros, Sized;
      deferred := false;
      if provisioningArmed {
        provisioningArmed := false;
        if now <= deadline {
          cachedSig := sig;
          cachedTranscript := transcript;
          m3Cached := true;
          deferred := true;
          facade.trace := facade.trace + [Deferred(sig, transcript)];
        }
      }
    }

    /** Shared secret and both directional keys.  A zero secret leaves everything as it
        is; a failing key derivation erases. */
    method DeriveKeys() returns (ok: bool)
      requires Valid() && stage == Ephemeral
      modifies this, facade
      ensures Valid() && Window() == old(Window()) && facade.trace == old(facade.trace)
      ensures ok <==> old(KeysOf(crypto, skEphL, pkEphP, cP, cL).Some?)
      ensures ok ==> stage == Established && old(KeysOf(crypto, skEphL, pkEphP, cP, cL)) == Some((kP2e, kE2p))
      ensures !ok ==> stage == Ephemeral || stage == Empty
      ensures stage != Empty ==> Cache() == old(Cache())
    {
      hide Zeros, Sized;
      var shared := crypto.dh(skEphL, pkEphP);
      DhSize(crypto, skEphL, pkEphP);
      var zero := IsZero(shared);
      if zero {
        return false;
      }
      var salt := cP + cL;
      var k1 := crypto.hkdf(salt, shared, INFO_P2E);
      if k1.None? {
        OnErase();
        return false;
      }
      kP2e := k1.value;
      var k2 := crypto.hkdf(salt, shared, INFO_E2P);
      if k2.None? {
        OnErase();
        return false;
      }
      kE2p := k2.value;
      stage := Established;
      facade.OnEstablished();
      return true;
    }

    /** What an M3 with this signature meets in the current state. */
    ghost predicate Authenticates(provider: nat -> Option<Bytes>, sig: Bytes, now: int)
      reads this
    {
      (provisioningArmed && now <= deadline) || Resolves(crypto, provider, CurrentTranscript(), sig)
    }

    /** session_handle_m3 at time now, against the provider's keys. */
    method HandleM3(data: Bytes, provider: nat -> Option<Bytes>, now: int) returns (r: Reply)
      requires Valid()
      modifies this, facade
      ensures Valid()
      ensures old(stage) != Ephemeral ==> r == Failed(InvalidState)
      ensures old(stage) == Ephemeral && |data| != M3_LEN ==> r == Failed(InvalidApdu)
      ensures old(stage) != Ephemeral || |data| != M3_LEN ==>
                stage == old(stage) && Window() == old(Window()) && facade.trace == old(facade.trace)
      ensures r.Answer? <==> && old(stage) == Ephemeral && |data| == M3_LEN
                             && old(Authenticates(provider, data, now) && KeysOf(crypto, skEphL, pkEphP, cP, cL).Some?)
      ensures r.Answer? ==> r.rapdu == SUCCESS && stage == Established
                            && old(KeysOf(crypto, skEphL, pkEphP, cP, cL)) == Some((kP2e, kE2p))
      ensures r.Failed? && old(stage) == Ephemeral ==> stage == Ephemeral || stage == Empty
      ensures stage == old(stage) || stage == Established ==> Cache() == old(Cache())
      ensures old(stage) == Ephemeral && |data| == M3_LEN ==>
                && Window() == AfterM3(old(Window()), data, old(CurrentTranscript()), now)
                && facade.trace == old(facade.trace) + DeferredEvents(old(provisioningArmed && now <= deadline), data,
                   old(CurrentTranscript()))
                                   + (if r.Answer? then [M3Accepted] else [])
    {
      hide Zeros, Sized, Transcript, KeysOf, Resolves, AfterM3, DeferredEvents;
      if stage != Ephemeral {
        return Failed(InvalidState);
      }
      if |data| != M3_LEN {
        return Failed(InvalidApdu);
      }
      var transcript := ReadTranscript();
      var authenticated := UseWindow(data, transcript, now);
      if !authenticated {
        authenticated := ResolveIdentity(provider, transcript, data);
      }
      if !authenticated {
        return Failed(Internal);
      }
      var ok := DeriveKeys();
      if !ok {
        return Failed(Internal);
      }
      facade.trace := facade.trace + [M3Accepted];
      return Answer(SUCCESS);
    }

    method ReadTranscript() returns (transcript: Bytes)
      requires Cached()
      ensures transcript == CurrentTranscript()
    {
      var out := new u8[TRANSCRIPT_LEN];
      var tlen := BuildTranscript(out);
      transcript := out[..tlen];
    }

    /** session_handle_secure_payload, with the application's handler and the nonce the
        lock draws for its answer. */
    method HandlePayload(data: Bytes, handler: Bytes -> AppReply, nonce: Bytes) returns (r: Reply)
      requires Valid() && |data| <= 255 && |nonce| == 12
      requires forall p :: |handler(p).buffer| == PLAINTEXT_MAX
      modifies facade`trace
      ensures Valid()
      ensures stage != Established ==> r == Failed(InvalidState)
      ensures stage == Established && |data| < GCM_OVERHEAD ==> r == Failed(InvalidApdu)
      ensures stage == Established && |data| >= GCM_OVERHEAD ==>
                match Opened(crypto, kP2e, data)
                case None => r == Failed(Internal)
                case Some(pt) =>
                  match crypto.seal(kE2p, nonce, ReplyBytes(handler(pt)))
                  case None => r == Failed(Internal)
                  case Some(s) => r == Answer(Rapdu(nonce + s.ct + s.tag, 0x90, 0x00))
      ensures facade.trace == old(facade.trace) +
                if stage == Established && |data| >= GCM_OVERHEAD && Opened(crypto, kP2e, data).Some?
                then [HandlerRan(Opened(crypto, kP2e, data).value)] else []
    {
      hide Zeros;
      if stage != Established {
        return Failed(InvalidState);
      }
      if |data| < GCM_OVERHEAD {
        return Failed(InvalidApdu);
      }
      var pt := Opened(crypto, kP2e, data);
      if pt.None? {
        return Failed(Internal);
      }
      var reply := ReplyBytes(handler(pt.value));
      facade.trace := facade.trace + [HandlerRan(pt.value)];
      var sealed_ := crypto.seal(kE2p, nonce, reply);
      if sealed_.None? {
        return Failed(Internal);
      }
      var buffer := nonce + sealed_.value.ct + sealed_.value.tag;
      var len := (GCM_OVERHEAD + |reply|) % 0x100;
      assert buffer[..len] == buffer;
      return Answer(Rapdu(buffer[..len], 0x90, 0x00));
    }

    /** session_arm_provisioning_window. */
    method ArmWindow(now: int, timeoutMs: u32)
      requires Valid()
      modifies this`provisioningArmed, this`deadline, this`m3Cached, this`cachedSig, this`cachedTranscript, facade`trace
      ensures Valid()
      ensures Window() == (true, now + timeoutMs * 1000, false, Zeros(64), Zeros(TRANSCRIPT_LEN))
      ensures facade.trace == old(facade.trace) + [Armed]
    {
      hide Sized;
      provisioningArmed := true;
      deadline := now + (timeoutMs as int) * 1000;
      m3Cached := false;
      cachedSig, cachedTranscript := Zeros(64), Zeros(TRANSCRIPT_LEN);
      facade.trace := facade.trace + [Armed];
    }

    /** session_provision_verify_identity. */
    method VerifyIdentity(claimed: Bytes) returns (ok: bool)
      ensures ok <==> m3Cached && crypto.check(claimed, cachedTranscript, cachedSig)
    {
      if !m3Cached {
        return false;
      }
      ok := crypto.check(claimed, cachedTranscript, cachedSig);
    }
  }

  /** Nonce, ciphertext and tag of a payload, opened. */
  function Opened(c: Crypto, key: Bytes, data: Bytes): (pt: Option<Bytes>)
    requires |data| >= GCM_OVERHEAD
  {
    c.open(key, data[..12], data[12..|data| - 16], data[|data| - 16..])
  }

  /** The provisioning part of the session after an M3. */
  function AfterM3(w: (bool, int, bool, Bytes, Bytes), sig: Bytes, transcript: Bytes, now: int): (bool, int, bool,
      Bytes, Bytes)
  {
    if w.0 && now <= w.1 then (false, w.1, true, sig, transcript) else (false, w.1, w.2, w.3, w.4)
  }

  function DeferredEvents(deferred: bool, sig: Bytes, transcript: Bytes): seq<Event>
  {
    if deferred then [Deferred(sig, transcript)] else []
  }

  /** Both directional keys from the shared secret, unless it is zero. */
  function KeysOf(c: Crypto, sk: Bytes, pk: Bytes, cP: Bytes, cL: Bytes): (k: Option<(Bytes, Bytes)>)
  {
    var shared := c.dh(sk, pk);
    var k1, k2 := c.hkdf(cP + cL, shared, INFO_P2E), c.hkdf(cP + cL, shared, INFO_E2P);
    if shared == Zeros(|shared|) || k1.None? || k2.None? then None else Some((k1.value, k2.value))
  }

  lemma PublicKeySize(c: Crypto, sk: Bytes)
    requires Sized(c)
    ensures |c.publicKey(sk)| == 32
  {
  }

  lemma DhSize(c: Crypto, sk: Bytes, pk: Bytes)
    requires Sized(c)
    ensures |c.dh(sk, pk)| == 32
  {
  }

  lemma DomainLength()
    ensures |DOMAIN| == 11
  {
  }

  /** memcpy to an offset; the offset past the copy is returned. */
  method Copy(src: Bytes, out: array<u8>, off: nat) returns (next: nat)
    requires off + |src| <= out.Length
    modifies out
    ensures next == off + |src|
    ensures out[..next] == old(out[..off]) + src
  {
    forall k | 0 <= k < |src| {
      out[off + k] := src[k];
    }
    next := off + |src|;
  }

  /** session_crypto_is_zero. */
  method IsZero(buf: Bytes) returns (b: bool)
    ensures b <==> buf == Zeros(|buf|)
  {
    var acc: u8 := 0;
    for i := 0 to |buf|
      invariant acc == 0 <==> buf[..i] == Zeros(i)
    {
      assert buf[..i + 1] == buf[..i] + [buf[i]];
      assert Zeros(i + 1) == Zeros(i) + [0];
      assert buf[..i + 1][..i] == buf[..i] && buf[..i + 1][i] == buf[i];
      acc := OrByte(acc, buf[i]);
    }
    assert buf[..|buf|] == buf;
    b := acc == 0;
  }

  /** The or of two bytes: zero only of zeros. */
  function OrByte(x: u8, y: u8): (r: u8)
    ensures r == 0 <==> x == 0 && y == 0
  {
    Pow2Eight();
    OrBound(x, y, 8);
    OrIsZero(x, y);
    BitOr(x, y)
  }
}
