/** The bytes of the protocol: what a transcript binds, what the keys are derived from,
    how payloads, commands, slots and frames are laid out, and which status answers
    what. */
module ProtocolFormat {
  import opened Words
  import opened Session
  import opened Transport
  import KeyStore
  import Mailbox
  import Pn532
  import Provision

  // ---- the transcript ----------------------------------------------------------------------

  lemma DomainSpelled()
    ensures Spells(DOMAIN, "SLOCK-HS-v1")
  {
  }

  /** Where everything is in a transcript of 32-byte parts. */
  lemma TranscriptLayout(pkP: Bytes, pkL: Bytes, cP: Bytes, cL: Bytes)
    requires |pkP| == 32 && |pkL| == 32 && |cP| == 32 && |cL| == 32
    ensures var t := Transcript(pkP, pkL, cP, cL);
            && |t| == 140
            && Spells(t[..11], "SLOCK-HS-v1") && t[11] == 1
            && t[12..44] == pkP && t[44..76] == pkL && t[76..108] == cP && t[108..140] == cL
  {
    hide DOMAIN, Spells;
    DomainLength();
    DomainSpelled();
    var t := Transcript(pkP, pkL, cP, cL);
    assert t[..11] == DOMAIN;
  }

  /** Equal transcripts have equal parts: a signature binds both keys and both
      challenges. */
  lemma TranscriptBinds(a: Bytes, b: Bytes, c: Bytes, d: Bytes, a': Bytes, b': Bytes, c': Bytes, d': Bytes)
    requires |a| == |b| == |c| == |d| == 32 && |a'| == |b'| == |c'| == |d'| == 32
    ensures Transcript(a, b, c, d) == Transcript(a', b', c', d') <==> a == a' && b == b' && c == c' && d == d'
  {
    hide Transcript, Spells;
    TranscriptLayout(a, b, c, d);
    TranscriptLayout(a', b', c', d');
  }

  /** Two sessions that drew different challenges have different transcripts. */
  lemma ChallengesDiffer(s: Session, t: Session)
    requires s.Cached() && t.Cached() && s.cL != t.cL
    ensures s.CurrentTranscript() != t.CurrentTranscript()
  {
    hide Transcript;
    TranscriptBinds(s.pkEphP, s.pkEphL, s.cP, s.cL, t.pkEphP, t.pkEphL, t.cP, t.cL);
  }

  /** Two locks answer two first messages with different challenges: they sign
      different messages, even if everything else is equal. */
  method SignDifferently(s: Session, t: Session, m1: Bytes, n1: Bytes, skS: Bytes, skT: Bytes, cS: Bytes, cT: Bytes)
    returns (x: Reply, y: Reply, ghost signedX: Bytes, ghost signedY: Bytes)
    requires s != t && s.facade != t.facade && s.Valid() && t.Valid()
    requires |cS| == 32 && |cT| == 32 && cS != cT
    modifies s, s.facade, t, t.facade
    ensures x.Answer? ==> |x.rapdu.data| >= 64 && x.rapdu.data[64..] == s.crypto.sign(s.localSk, signedX)
    ensures y.Answer? ==> |y.rapdu.data| >= 64 && y.rapdu.data[64..] == t.crypto.sign(t.localSk, signedY)
    ensures x.Answer? && y.Answer? ==> signedX != signedY
  {
    hide Transcript, Zeros, Sized;
    x := s.HandleM1(m1, skS, cS);
    y := t.HandleM1(n1, skT, cT);
    signedX, signedY := s.CurrentTranscript(), t.CurrentTranscript();
    if x.Answer? && y.Answer? {
      ChallengesDiffer(s, t);
    }
  }

  /** A third message that answers an earlier challenge of the same lock: it is checked
      against a transcript that differs from the one it was made for. */
  method StaleThirdMessage(s: Session, m1: Bytes, skA: Bytes, cA: Bytes, n1: Bytes, skB: Bytes, cB: Bytes,
                           m3: Bytes, provider: nat -> Option<Bytes>, now: int)
    returns (first: Reply, second: Reply, r: Reply, ghost answered: Bytes, ghost checked: Bytes)
    requires s.Valid() && |cA| == 32 && |cB| == 32 && cA != cB
    modifies s, s.facade
    ensures s.Valid()
    ensures first.Answer? && second.Answer? ==> answered != checked
    ensures first.Answer? && second.Answer? && r.Answer? ==>
        old(s.provisioningArmed && now <= s.deadline) || Resolves(s.crypto, provider, checked, m3)
  {
    hide Transcript, Zeros, Sized, KeysOf, Resolves, AfterM3, DeferredEvents;
    first := s.HandleM1(m1, skA, cA);
    answered := s.CurrentTranscript();
    ghost var a := (s.pkEphP, s.pkEphL, s.cP, s.cL);
    second := s.HandleM1(n1, skB, cB);
    checked := s.CurrentTranscript();
    if first.Answer? && second.Answer? {
      TranscriptBinds(a.0, a.1, a.2, a.3, s.pkEphP, s.pkEphL, s.cP, s.cL);
    }
    r := s.HandleM3(m3, provider, now);
  }

  // ---- keys and payloads --------------------------------------------------------------------

  lemma InfosSpelled()
    ensures Spells(INFO_P2E, "phone->esp") && Spells(INFO_E2P, "esp->phone")
  {
  }

  /** The two keys: derived from the shared secret and both challenges, one per
      direction. */
  lemma KeysFrom(c: Crypto, sk: Bytes, pk: Bytes, cP: Bytes, cL: Bytes, p2e: Bytes, e2p: Bytes)
    requires |cP| == 32 && |cL| == 32
    ensures KeysOf(c, sk, pk, cP, cL) == Some((p2e, e2p))
       <==> exists salt, i, j :: && |salt| == 64 && salt[..32] == cP && salt[32..] == cL
                                 && Spells(i, "phone->esp") && Spells(j, "esp->phone")
                                 && c.dh(sk, pk) != Zeros(|c.dh(sk, pk)|)
                                 && c.hkdf(salt, c.dh(sk, pk), i) == Some(p2e)
                                 && c.hkdf(salt, c.dh(sk, pk), j) == Some(e2p)
  {
    hide Zeros, INFO_P2E, INFO_E2P, Spells;
    InfosSpelled();
    var salt := cP + cL;
    assert |salt| == 64 && salt[..32] == cP && salt[32..] == cL;
    if salt', i, j :| && |salt'| == 64 && salt'[..32] == cP && salt'[32..] == cL
                      && Spells(i, "phone->esp") && Spells(j, "esp->phone")
                      && c.dh(sk, pk) != Zeros(|c.dh(sk, pk)|)
                      && c.hkdf(salt', c.dh(sk, pk), i) == Some(p2e) && c.hkdf(salt', c.dh(sk, pk), j) == Some(e2p)
    {
      assert salt' == salt'[..32] + salt'[32..];
      SpellsOne(i, INFO_P2E, "phone->esp");
      SpellsOne(j, INFO_E2P, "esp->phone");
    }
  }

  lemma SpellsOne(x: Bytes, y: Bytes, text: string)
    requires Spells(x, text) && Spells(y, text)
    ensures x == y
  {
  }

  /** A payload is nonce, ciphertext and tag. */
  lemma PayloadLayout(c: Crypto, key: Bytes, nonce: Bytes, ct: Bytes, tag: Bytes)
    requires |nonce| == 12 && |tag| == 16
    ensures Opened(c, key, nonce + ct + tag) == c.open(key, nonce, ct, tag)
  {
    var d := nonce + ct + tag;
    assert d[..12] == nonce && d[12..|d| - 16] == ct && d[|d| - 16..] == tag;
  }

  // ---- commands and statuses ------------------------------------------------------------------

  /** Which byte is what in a command. */
  lemma CommandLayout(ins: u8, p1: u8, p2: u8, data: Bytes)
    requires |data| <= 255
    ensures var w := Wire(ins, p1, p2, data);
            && |w| == 5 + |data| && w[0] == 0x80 && w[1] == ins && w[2] == p1 && w[3] == p2 && w[4] == |data|
            && w[5..] == data
            && ParseCapdu(w) == Command(Capdu(ins, data))
  {
    ParsesExactly(Wire(ins, p1, p2, data), Capdu(ins, data));
  }

  /** A damaged command and the status it gets: 6A81 for another class byte, 6A80 for a
      wrong length byte, for missing and for extra bytes. */
  lemma DamagedCommand(ins: u8, p1: u8, p2: u8, data: Bytes, x: u8, n: nat, more: Bytes)
    requires |data| <= 255
    ensures var w := Wire(ins, p1, p2, data);
            && (x != 0x80 ==> ParseCapdu(w[0 := x]) == Status(0x6A, 0x81))
            && (x != |data| ==> ParseCapdu(w[4 := x]) == Status(0x6A, 0x80))
            && (n < |w| ==> ParseCapdu(w[..n]) == Status(0x6A, 0x80))
            && (more != [] ==> ParseCapdu(w + more) == Status(0x6A, 0x80))
  {
  }

  /** Every string is a command or gets one of two statuses. */
  lemma RefusedExactly(raw: Bytes)
    ensures ParseCapdu(raw).Command? || ParseCapdu(raw) == Status(0x6A, 0x80) || ParseCapdu(raw) == Status(0x6A, 0x81)
    ensures ParseCapdu(raw) == Status(0x6A, 0x81) <==> |raw| >= 5 && raw[0] != 0x80
    ensures ParseCapdu(raw).Command? <==> |raw| >= 5 && raw[0] == 0x80 && raw[4] == |raw| - 5
  {
  }

  /** What a command does in each state: 10 starts and 11 finishes a handshake, 20
      carries a payload of at most 227 bytes, 30 aborts; anything else gets 6985. */
  lemma CommandActs(st: State, i: Input, ins: u8, p1: u8, p2: u8, data: Bytes)
    requires st in {ActivatedState, State.Handshake, SecureSession} && |data| <= 255
    requires i.recv == LliOk && i.raw == Wire(ins, p1, p2, data)
    requires (st == ActivatedState || !i.released) && (st == State.Handshake ==> !i.expired)
    ensures Act(st, i) == if ins == 0x30 then Aborts
                          else if st == ActivatedState && ins == 0x10 then Forwards(data)
                          else if st == State.Handshake && ins == 0x11 then Forwards(data)
                          else if st == SecureSession && ins == 0x20 && |data| <= 227 then Forwards(data)
                          else if st == SecureSession && ins == 0x20 then Stays([0x6A, 0x80])
                          else Stays([0x69, 0x85])
  {
    hide Wire, ParseCapdu;
    CommandLayout(ins, p1, p2, data);
  }

  /** What the link decides before any command is looked at. */
  lemma LinkActs(st: State, i: Input)
    ensures st != ActivatedState && i.released ==> Act(st, i) == Ends
    ensures st == State.Handshake && i.expired ==> Act(st, i) == Ends
    ensures (st == ActivatedState || !i.released) && !(st == State.Handshake && i.expired) ==>
        && (i.recv == LliBusFatal ==> Act(st, i) == Fatal)
        && (i.recv in {LliTimeout, LliReleased} ==> Act(st, i) == Ends)
        && (i.recv == LliOther ==> Act(st, i) == if st == State.Handshake then Stays([]) else Ends)
        && (i.recv == LliOk && ParseCapdu(i.raw).Status? ==>
              Act(st, i) == Stays([ParseCapdu(i.raw).sw1, ParseCapdu(i.raw).sw2]))
  {
  }

  /** What goes out for an answer of the session: its data and 9000, or 6982. */
  lemma AnswerGoesOut(r: Reply)
    ensures r.Failed? ==> Outgoing(r) == [0x69, 0x82]
    ensures r == Answer(SUCCESS) ==> Outgoing(r) == [0x90, 0x00]
    ensures r.Answer? ==> Outgoing(r)[..|Outgoing(r)| - 2] == r.rapdu.data
  {
  }

  /** How a state's handler ends for an input that is not forwarded: nothing is sent for
      a lost or dead link, 9000 for an abort, its status for a refused command. */
  lemma SettlesSo(st: State, b: Bytes, e: TransportError, now: State, base: seq<Bytes>, sent: seq<Bytes>)
    ensures Settled(st, Ends, e, now, base, sent) <==> e == TOk && now == Released && sent == base
    ensures Settled(st, Fatal, e, now, base, sent) <==> e == TBusFatal && now == st && sent == base
    ensures Settled(st, Aborts, e, now, base, sent) <==> e == TOk && now == Released && sent == base + [[0x90, 0x00]]
    ensures Settled(st, Stays(b), e, now, base, sent)
       <==> e == TOk && now == st && sent == base + (if b == [] then [] else [b])
  {
  }

  // ---- the session's decisions -------------------------------------------------------------------

  /** Whose M3 counts: a key among the first 64 the provider has, before its first gap,
      verifies it. */
  lemma ResolvesExactly(c: Crypto, provider: nat -> Option<Bytes>, transcript: Bytes, sig: Bytes)
    ensures Resolves(c, provider, transcript, sig)
       <==> exists i: nat :: i < 64 && (forall j: nat :: j <= i ==> provider(j).Some?)
              && c.check(provider(i).value, transcript, sig)
  {
    if i: nat :| i < 64 && (forall j: nat :: j <= i ==> provider(j).Some?)
                 && c.check(provider(i).value, transcript, sig) {
      assert Offers(provider, i);
    }
  }

  /** What an M3 does to the window: it is used up; what is kept changes exactly when it
      was armed and in time. */
  lemma WindowUsed(armed: bool, deadline: int, cached: bool, keptSig: Bytes, keptTranscript: Bytes, sig: Bytes,
                   transcript: Bytes, now: int)
    ensures AfterM3((armed, deadline, cached, keptSig, keptTranscript), sig, transcript, now)
         == if armed && now <= deadline then (false, deadline, true, sig, transcript)
            else (false, deadline, cached, keptSig, keptTranscript)
  {
  }

  /** Which of the handler's 227 bytes are sealed: none after a failure, else as many as
      it claims. */
  lemma RepliedBytes(buffer: Bytes, len: nat)
    requires |buffer| == 227
    ensures ReplyBytes(AppReply(false, buffer, len)) == []
    ensures ReplyBytes(AppReply(true, buffer, len)) == buffer[..if len <= 227 then len else 227]
  {
    assert buffer[..227] == buffer;
  }

  // ---- provisioning, slots, limits ------------------------------------------------------------------

  /** A provisioning command: one byte, the secret, the key. */
  lemma ProvisionLayout(op: u8, secret: Bytes, pk: Bytes)
    requires |secret| == 32 && |pk| == 32
    ensures Provision.CarriesKey([op] + secret + pk, secret, pk)
  {
    var cmd := [op] + secret + pk;
    assert cmd[1..33] == secret && cmd[33..] == pk;
  }

  /** What a command has to meet. */
  lemma AcceptableMeans(m: Provision.Manager, cmd: Bytes, pk: Bytes)
    ensures m.Acceptable(cmd, pk)
       <==> && |cmd| == 65 && cmd[1..33] == m.secret && cmd[33..] == pk
            && m.session.m3Cached && m.session.crypto.check(pk, m.session.cachedTranscript, m.session.cachedSig)
  {
  }

  /** The statuses a provisioning command is answered with. */
  lemma ProvisionStatuses()
    ensures Provision.STATUS_OK == 0 && Provision.STATUS_INVALID_SECRET == 1 && Provision.STATUS_INVALID_CMD == 3
    ensures Provision.STATUS_INTERNAL == 6 && Provision.STATUS_KEY_EXISTS == 8
  {
  }

  /** A slot's name reads as its number in two decimal digits. */
  lemma SlotNames(i: nat)
    requires i < 100
    ensures var s := KeyStore.Name(i);
            && |s| == 3 && s[0] == 'k' && '0' <= s[1] <= '9' && '0' <= s[2] <= '9'
            && 10 * (s[1] as int - '0' as int) + (s[2] as int - '0' as int) == i
    ensures KeyStore.Name(7) == "k07" && KeyStore.Name(63) == "k63"
  {
  }

  lemma Limits()
    ensures M1_LEN == 64 && M3_LEN == 64 && TRANSCRIPT_LEN == 140 && GCM_OVERHEAD == 28 && PLAINTEXT_MAX == 227
    ensures PLAINTEXT_BUDGET == 227 && MAX_PEER_CANDIDATES == 64 && FATAL_RETRY_LIMIT == 3
    ensures KeyStore.KEY_MAX == 64 && Mailbox.CAPACITY == 227
  {
  }

  // ---- frames ---------------------------------------------------------------------------------------

  /** A command frame up to 254 bytes, byte by byte. */
  lemma NormalFrame(cmd: u8, params: Bytes)
    requires |params| <= 252
    ensures var f, n := Pn532.Frame(0xD4, [cmd] + params), 2 + |params|;
            && |f| == 7 + n
            && f[..3] == [0x00, 0x00, 0xFF] && f[3] == n && f[4] == 0x100 - n
            && f[5] == 0xD4 && f[6] == cmd && f[7..5 + n] == params
            && (Pn532.Sum(f[5..5 + n]) + f[5 + n]) % 0x100 == 0 && f[6 + n] == 0x00
  {
    hide Pn532.Sum;
    var f, n, b := Pn532.Frame(0xD4, [cmd] + params), 2 + |params|, Pn532.Body(0xD4, [cmd] + params);
    assert f == [0x00, 0x00, 0xFF, n, 0x100 - n] + b + [0x00];
    assert f[5..5 + n] == [0xD4] + ([cmd] + params);
  }

  /** A longer one: the marker FF FF, a two-byte length and a checksum over both. */
  lemma ExtendedFrame(cmd: u8, params: Bytes)
    requires 253 <= |params| <= 263
    ensures var f, n := Pn532.Frame(0xD4, [cmd] + params), 2 + |params|;
            && |f| == 10 + n
            && f[..5] == [0x00, 0x00, 0xFF, 0xFF, 0xFF] && 0x100 * (f[5] as int) + f[6] as int == n
            && (f[5] as int + f[6] as int + f[7] as int) % 0x100 == 0
            && f[8] == 0xD4 && f[9] == cmd && f[10..8 + n] == params
            && (Pn532.Sum(f[8..8 + n]) + f[8 + n]) % 0x100 == 0 && f[9 + n] == 0x00
  {
    hide Pn532.Sum;
    var f, n, b := Pn532.Frame(0xD4, [cmd] + params), 2 + |params|, Pn532.Body(0xD4, [cmd] + params);
    var h := Pn532.ExtendedHeader(n);
    assert f == [0x00, 0x00, 0xFF] + h + b + [0x00];
    assert f[8..8 + n] == [0xD4] + ([cmd] + params);
  }

  lemma Directions()
    ensures Pn532.TFI_HOST == 0xD4 && Pn532.TFI_CHIP == 0xD5 && Pn532.TX_BUF_SIZE == 275 && Pn532.RX_BUF_SIZE == 276
  {
  }
}
