/** An honest phone's session through the whole stack: its messages on the wire, the
    transport's states, the session, and the mailbox behind the handler. */
module EndToEnd {
  import opened Words
  import opened Session
  import opened Transport
  import opened Handshake
  import Mailbox

  /** Nonce, ciphertext and tag of a sealed text. */
  function Payload(c: Crypto, key: Bytes, nonce: Bytes, pt: Bytes): (b: Bytes)
    requires c.seal(key, nonce, pt).Some?
  {
    var s := c.seal(key, nonce, pt).value;
    nonce + s.ct + s.tag
  }

  /** The link works at this input and delivers this command. */
  ghost predicate Delivers(i: Input, ins: u8, data: Bytes)
  {
    && Sane(i) && i.activate == LliOk && !i.released && !i.expired && i.recv == LliOk && i.send == LliOk
    && |data| <= 255 && i.raw == Wire(ins, 0, 0, data)
  }

  /** A delivered command that its state expects is forwarded. */
  lemma Forwarded(st: State, i: Input, data: Bytes)
    requires st in {ActivatedState, Handshake, SecureSession} && Delivers(i, Expected(st), data)
    requires st == SecureSession ==> |data| <= PLAINTEXT_BUDGET
    ensures Act(st, i) == Forwards(data)
  {
    hide Act, Wire;
    ForwardsExactly(st, i, data);
  }

  /** A sealed plaintext is forwarded exactly when it has at most 199 bytes; a longer one
      that still fits a command is answered 6A80. */
  lemma PayloadBudget(c: Crypto, keyOf: Bytes -> Bytes, key: Bytes, nonce: Bytes, pt: Bytes, i: Input)
    requires Lawful(c, keyOf) && |nonce| == 12 && |pt| <= PLAINTEXT_MAX
    requires c.seal(key, nonce, pt).Some? && Delivers(i, INS_SECURE_PAYLOAD, Payload(c, key, nonce, pt))
    ensures |pt| <= 199 <==> Act(SecureSession, i) == Forwards(Payload(c, key, nonce, pt))
    ensures |pt| > 199 <==> Act(SecureSession, i) == Stays([0x6A, 0x80])
  {
    hide Lawful, Wire;
    OpensSealed(c, keyOf, key, nonce, pt);
    Arrives(INS_SECURE_PAYLOAD, Payload(c, key, nonce, pt));
  }

  // ---- the secure part ------------------------------------------------------------------------------

  /** Inputs that carry these plaintexts, sealed by the phone. */
  ghost predicate Carry(c: Crypto, kP2e: Bytes, inputs: seq<Input>, pts: seq<Bytes>, nonces: seq<Bytes>)
  {
    && |inputs| == |pts| == |nonces|
    && forall k :: 0 <= k < |pts| ==>
         && |pts[k]| <= 199 && |nonces[k]| == 12 && c.seal(kP2e, nonces[k], pts[k]).Some?
         && Delivers(inputs[k], INS_SECURE_PAYLOAD, Payload(c, kP2e, nonces[k], pts[k]))
  }

  /** The lock's sealed answer to one of them. */
  ghost function SealedReply(c: Crypto, kE2p: Bytes, i: Input, pt: Bytes): Bytes
    requires Sane(i) && c.seal(kE2p, i.nonce, ReplyBytes(i.handler(pt))).Some?
  {
    Payload(c, kE2p, i.nonce, ReplyBytes(i.handler(pt)))
  }

  /** Response k is the sealed answer to plaintext k. */
  ghost predicate Answered(c: Crypto, kE2p: Bytes, inputs: seq<Input>, pts: seq<Bytes>, out: seq<Bytes>)
    requires |inputs| == |pts|
  {
    && |out| == |pts|
    && forall k :: 0 <= k < |pts| ==>
         && Sane(inputs[k]) && c.seal(kE2p, inputs[k].nonce, ReplyBytes(inputs[k].handler(pts[k]))).Some?
         && out[k] == SealedReply(c, kE2p, inputs[k], pts[k]) + OK_STATUS
  }

  function Ran(pts: seq<Bytes>): (t: seq<Event>)
  {
    if |pts| == 0 then [] else Ran(pts[..|pts| - 1]) + [HandlerRan(pts[|pts| - 1])]
  }

  /** One carried plaintext: the handler runs on it, its reply is sealed and sent, and
      the session goes on. */
  lemma OnePayload(c: Crypto, keyOf: Bytes -> Bytes, kP2e: Bytes, kE2p: Bytes, i: Input, pt: Bytes, nonce: Bytes)
    requires Lawful(c, keyOf) && |pt| <= 199 && |nonce| == 12 && c.seal(kP2e, nonce, pt).Some?
    requires Delivers(i, INS_SECURE_PAYLOAD, Payload(c, kP2e, nonce, pt))
    ensures SecureGoesOn(c, kP2e, kE2p, i) && SecureRan(c, kP2e, i) == [HandlerRan(pt)]
    ensures c.seal(kE2p, i.nonce, ReplyBytes(i.handler(pt))).Some?
    ensures SecureOut(c, kP2e, kE2p, i) == [SealedReply(c, kE2p, i, pt) + OK_STATUS]
  {
    hide Lawful, Wire, Act, ReplyBytes, Opened;
    OpensSealed(c, keyOf, kP2e, nonce, pt);
    Forwarded(SecureSession, i, Payload(c, kP2e, nonce, pt));
    OpensSealed(c, keyOf, kE2p, i.nonce, ReplyBytes(i.handler(pt)));
  }

  lemma {:induction false} AllPayloads(c: Crypto, keyOf: Bytes -> Bytes, kP2e: Bytes, kE2p: Bytes,
                                       inputs: seq<Input>, pts: seq<Bytes>, nonces: seq<Bytes>)
    requires Lawful(c, keyOf) && Carry(c, kP2e, inputs, pts, nonces)
    ensures forall k :: 0 <= k < |inputs| ==> Sane(inputs[k]) && SecureGoesOn(c, kP2e, kE2p, inputs[k])
    ensures SecureRanAll(c, kP2e, inputs) == Ran(pts)
    ensures Answered(c, kE2p, inputs, pts, SecureOutAll(c, kP2e, kE2p, inputs))
    ensures |SecureOutAll(c, kP2e, kE2p, inputs)| == |pts| == |inputs|
    decreases |inputs|
  {
    hide Lawful, Wire, Act, ReplyBytes, SecureOut, SecureRan, SecureGoesOn, Payload, Sane;
    if |inputs| == 0 {
    } else {
      var n := |inputs| - 1;
      var ins, ps, ns := inputs[..n], pts[..n], nonces[..n];
      CarryPrefix(c, kP2e, inputs, pts, nonces);
      AllPayloads(c, keyOf, kP2e, kE2p, ins, ps, ns);
      OnePayload(c, keyOf, kP2e, kE2p, inputs[n], pts[n], nonces[n]);
    }
  }

  lemma CarryPrefix(c: Crypto, kP2e: Bytes, inputs: seq<Input>, pts: seq<Bytes>, nonces: seq<Bytes>)
    requires Carry(c, kP2e, inputs, pts, nonces) && |inputs| > 0
    ensures var n := |inputs| - 1; Carry(c, kP2e, inputs[..n], pts[..n], nonces[..n])
  {
  }

  // ---- the whole session --------------------------------------------------------------------------------

  /** The inputs are an honest phone's session: activation, M1, M3 and then the sealed
      plaintexts. */
  ghost predicate HonestScript(inputs: seq<Input>, c: Crypto, phoneSk: Bytes, phoneEph: Bytes, phoneChallenge: Bytes,
                               pts: seq<Bytes>, nonces: seq<Bytes>)
  {
    && |inputs| == 3 + |pts| && inputs[0].activate == LliOk
    && var i, j := inputs[1], inputs[2];
    && Delivers(i, INS_HANDSHAKE_INIT, c.publicKey(phoneEph) + phoneChallenge)
    && Delivers(j, INS_HANDSHAKE_FINISH, c.sign(phoneSk, SharedTranscript(c, phoneEph, phoneChallenge, i)))
    && (PhoneKeys(c, phoneEph, phoneChallenge, i).Some? ==>
          Carry(c, PhoneKeys(c, phoneEph, phoneChallenge, i).value.0, inputs[3..], pts, nonces))
  }

  /** The transcript and the keys of a handshake in which the lock draws as i says. */
  function SharedTranscript(c: Crypto, phoneEph: Bytes, phoneChallenge: Bytes, i: Input): Bytes
  {
    Transcript(c.publicKey(phoneEph), c.publicKey(i.sk), phoneChallenge, i.challenge)
  }

  function PhoneKeys(c: Crypto, phoneEph: Bytes, phoneChallenge: Bytes, i: Input): Option<(Bytes, Bytes)>
  {
    KeysOf(c, phoneEph, c.publicKey(i.sk), phoneChallenge, i.challenge)
  }

  /** Activation and M1: M2 goes out, the handshake state is reached. */
  method OpenSession(t: Transport, ghost data: Bytes)
    requires t.Lockstep() && t.state == Idle && t.pos + 2 <= |t.script| && t.script[t.pos].activate == LliOk
    requires Delivers(t.script[t.pos + 1], INS_HANDSHAKE_INIT, data) && GoodM1(data)
    modifies t, t.session, t.session.facade
    ensures t.Lockstep() && t.state == Handshake && t.pos == old(t.pos) + 2
    ensures var i := t.script[old(t.pos) + 1];
            && t.sent == old(t.sent) + [M2Of(t.session.crypto, t.session.localSk, data, i) + OK_STATUS]
            && t.session.Cache() == (data[..32], data[32..], t.session.crypto.publicKey(i.sk), i.sk, i.challenge)
    ensures t.session.Window() == old(t.session.Window())
    ensures t.session.facade.trace == old(t.session.facade.trace) + [Activated, M1Accepted]
  {
    hide Safe, Accepted, Sane, Act, Wire, M2Of, GoodM1;
    Forwarded(ActivatedState, t.script[t.pos + 1], data);
    var e := t.RunIdle();
    assert t.script[t.pos] == t.script[old(t.pos) + 1];
    e := t.RunActivated();
    assert old(t.session.facade.trace) + [Activated] + [M1Accepted] == old(t.session.facade.trace) + [Activated,
        M1Accepted];
  }

  /** M3: 9000 goes out, the secure state is reached with the derived keys. */
  method FinishSession(t: Transport, ghost data: Bytes)
    requires t.Lockstep() && t.state == Handshake && t.pos < |t.script|
    requires Delivers(t.script[t.pos], INS_HANDSHAKE_FINISH, data)
    requires GoodM3(t.session.crypto, t.session.Cache(), t.session.Window(), data, t.script[t.pos])
    modifies t, t.session, t.session.facade
    ensures t.Lockstep() && t.state == SecureSession && t.pos == old(t.pos) + 1 && t.sent == old(t.sent) + [OK_STATUS]
    ensures old(KeysIn(t.session.crypto, t.session.Cache())) == Some((t.session.kP2e, t.session.kE2p))
    ensures t.session.facade.trace == old(t.session.facade.trace) +
              old(M3Events(t.session.crypto, t.session.Cache(), t.session.Window(), data, t.script[t.pos]))
  {
    hide Safe, Accepted, Sane, Act, Wire, GoodM3, M3Events, KeysIn, Statuses;
    Forwarded(Handshake, t.script[t.pos], data);
    NoStatuses(Handshake);
    var e := t.RunHandshake();
    assert Act(Handshake, t.script[old(t.pos)]) == Forwards(data);
    assert t.pos - 1 == old(t.pos);
    assert t.script[old(t.pos)..t.pos - 1] == [];
    assert old(t.sent) + [] == old(t.sent);
  }

  /** The payloads: every one is answered, and the session is still up at the end of the
      script. */
  method CarryPayloads(t: Transport, ghost keyOf: Bytes -> Bytes, ghost pts: seq<Bytes>, ghost nonces: seq<Bytes>)
    requires t.Lockstep() && t.state == SecureSession && Lawful(t.session.crypto, keyOf)
    requires Carry(t.session.crypto, t.session.kP2e, t.script[t.pos..], pts, nonces)
    modifies t, t.session, t.session.facade
    ensures t.Lockstep() && t.state == SecureSession && t.pos == |t.script|
    ensures t.session.kP2e == old(t.session.kP2e) && t.session.kE2p == old(t.session.kE2p)
    ensures t.session.facade.trace == old(t.session.facade.trace) + Ran(pts)
    ensures |t.sent| == |old(t.sent)| + |pts| && t.sent[..|old(t.sent)|] == old(t.sent)
    ensures Answered(t.session.crypto, t.session.kE2p, t.script[old(t.pos)..], pts, t.sent[|old(t.sent)|..])
  {
    hide Safe, Accepted, Sane, Act, Lawful, Carry, Answered, Ran, SecureGoesOn, SecureOutAll, SecureRanAll;
    ghost var c, k1, k2, from := t.session.crypto, t.session.kP2e, t.session.kE2p, t.pos;
    ghost var inputs := t.script[from..];
    AllPayloads(c, keyOf, k1, k2, inputs, pts, nonces);
    assert forall k :: from <= k < |t.script| ==> t.script[k] == inputs[k - from];
    var e := t.RunSecureSession();
    assert t.pos > from ==> SecureGoesOn(c, k1, k2, t.script[t.pos - 1]);
    assert e == RunCut;
    assert t.script[from..t.pos] == inputs;
  }

  /** The phone opens every reply that was sent. */
  method RecoverReplies(p: Phone, ghost keyOf: Bytes -> Bytes, ghost inputs: seq<Input>, ghost pts: seq<Bytes>,
      out: seq<Bytes>)
    returns (replies: seq<Bytes>)
    requires Lawful(p.crypto, keyOf) && |inputs| == |pts| && Answered(p.crypto, p.kE2p, inputs, pts, out)
    ensures |replies| == |pts| && forall k :: 0 <= k < |pts| ==>
          Sane(inputs[k]) && replies[k] == ReplyBytes(inputs[k].handler(pts[k]))
  {
    hide Lawful, ReplyBytes, Opened;
    replies := [];
    for n := 0 to |out|
      invariant |replies| == n && forall k :: 0 <= k < n ==>
            Sane(inputs[k]) && replies[k] == ReplyBytes(inputs[k].handler(pts[k]))
    {
      ghost var i, reply := inputs[n], ReplyBytes(inputs[n].handler(pts[n]));
      OpensSealed(p.crypto, keyOf, p.kE2p, i.nonce, reply);
      assert out[n][..|out[n]| - 2] == Payload(p.crypto, p.kE2p, i.nonce, reply);
      var opened_ := p.Decrypt(out[n][..|out[n]| - 2]);
      replies := replies + [opened_.value];
    }
  }

  /** The phone, given M2 as it went out, makes M3 and derives its keys. */
  method PhoneM3(p: Phone, ghost keyOf: Bytes -> Bytes, ghost lockSeed: Bytes, ghost phoneEph: Bytes,
      ghost phoneChallenge: Bytes,
                 ghost i: Input, response: Bytes)
    returns (m3: Bytes)
    requires p.Ready() && p.ephSk == phoneEph && p.ephPk == p.crypto.publicKey(phoneEph) && p.cP == phoneChallenge
    requires |i.challenge| == 32 && p.lockPk == keyOf(lockSeed) && Lawful(p.crypto, keyOf)
    requires p.crypto.dh(phoneEph, p.crypto.publicKey(i.sk)) != Zeros(32)
    requires response == p.crypto.publicKey(i.sk) + i.challenge
                         + p.crypto.sign(lockSeed + keyOf(lockSeed), SharedTranscript(p.crypto, phoneEph,
                             phoneChallenge, i)) + OK_STATUS
    modifies p`kP2e, p`kE2p
    ensures m3 == p.crypto.sign(p.phoneSk, SharedTranscript(p.crypto, phoneEph, phoneChallenge, i))
    ensures PhoneKeys(p.crypto, phoneEph, phoneChallenge, i) == Some((p.kP2e, p.kE2p))
  {
    hide Lawful, KeysOf, Transcript, Zeros, Sized;
    ghost var c, tr := p.crypto, SharedTranscript(p.crypto, phoneEph, phoneChallenge, i);
    ghost var sig := c.sign(lockSeed + keyOf(lockSeed), tr);
    NonzeroShared(c, keyOf, phoneEph, i.sk, phoneChallenge, i.challenge);
    SignedVerifies(c, keyOf, lockSeed, tr);
    M2Parts(c.publicKey(i.sk), i.challenge, sig);
    assert response[..|response| - 2] == c.publicKey(i.sk) + i.challenge + sig;
    var r := p.ProcessM2(response[..|response| - 2]);
    m3 := r.value;
  }

  /** The lock accepts that M3, and derives the same keys. */
  lemma HonestM3(c: Crypto, keyOf: Bytes -> Bytes, phoneSeed: Bytes, slot: nat, phoneEph: Bytes, phoneChallenge: Bytes,
                 i: Input, j: Input, window: (bool, int, bool, Bytes, Bytes), m3: Bytes)
    requires Lawful(c, keyOf) && c.dh(phoneEph, c.publicKey(i.sk)) != Zeros(32)
    requires slot < MAX_PEER_CANDIDATES && Offers(j.provider, slot) && j.provider(slot) == Some(keyOf(phoneSeed))
    requires m3 == c.sign(phoneSeed + keyOf(phoneSeed), SharedTranscript(c, phoneEph, phoneChallenge, i))
    ensures var cache := (c.publicKey(phoneEph), phoneChallenge, c.publicKey(i.sk), i.sk, i.challenge);
            && GoodM3(c, cache, window, m3, j) && TranscriptOf(cache) == SharedTranscript(c, phoneEph, phoneChallenge,
               i)
            && KeysIn(c, cache) == PhoneKeys(c, phoneEph, phoneChallenge, i)
  {
    hide Lawful, KeysOf, Transcript, Zeros, Resolves;
    var tr := SharedTranscript(c, phoneEph, phoneChallenge, i);
    NonzeroShared(c, keyOf, phoneEph, i.sk, phoneChallenge, i.challenge);
    SignedVerifies(c, keyOf, phoneSeed, tr);
    ResolvedBy(c, j.provider, slot, tr, m3);
  }

  /** The handshake of an honest session: M2 and 9000 go out, the phone makes exactly the
      M3 of the script, and both sides hold the same keys. */
  method HonestHandshake(t: Transport, p: Phone, ghost keyOf: Bytes -> Bytes, ghost lockSeed: Bytes,
      ghost phoneSeed: Bytes, ghost slot: nat,
                         phoneEph: Bytes, phoneChallenge: Bytes, ghost pts: seq<Bytes>, ghost nonces: seq<Bytes>)
    requires t.Lockstep() && t.state == Idle && p.Ready() && |phoneChallenge| == 32 && t.pos + 3 <= |t.script|
    requires HonestScript(t.script[t.pos..], p.crypto, p.phoneSk, phoneEph, phoneChallenge, pts, nonces)
    requires Enrolled(t.session, p, keyOf, lockSeed, phoneSeed, t.script[t.pos + 2].provider, slot)
    requires p.crypto.dh(phoneEph, p.crypto.publicKey(t.script[t.pos + 1].sk)) != Zeros(32)
    modifies t, t.session, t.session.facade, p
    ensures t.Lockstep() && t.state == SecureSession && t.pos == old(t.pos) + 3
    ensures PhoneKeys(p.crypto, phoneEph, phoneChallenge, t.script[old(t.pos) + 1]) == Some((t.session.kP2e,
        t.session.kE2p))
    ensures p.kP2e == t.session.kP2e && p.kE2p == t.session.kE2p
    ensures var i, j := t.script[old(t.pos) + 1], t.script[old(t.pos) + 2];
            var tr := SharedTranscript(p.crypto, phoneEph, phoneChallenge, i);
            && t.sent == old(t.sent) + [p.crypto.publicKey(i.sk) + i.challenge + p.crypto.sign(t.session.localSk, tr)
               + OK_STATUS] + [OK_STATUS]
            && t.session.facade.trace == old(t.session.facade.trace) + [Activated, M1Accepted]
                 + DeferredEvents(old(t.session.provisioningArmed && j.now <= t.session.deadline),
                     p.crypto.sign(p.phoneSk, tr), tr) + [M3Accepted]
  {
    hide Safe, Accepted, Sane, Act, Wire, Lawful, KeysOf, Resolves, Transcript, Zeros, Sized, DeferredEvents, Carry;
    ghost var c, i, j := p.crypto, t.script[t.pos + 1], t.script[t.pos + 2];
    ghost var w := t.session.Window();
    assert t.script[t.pos..][1] == i && t.script[t.pos..][2] == j && t.script[t.pos..][0] == t.script[t.pos];
    NonzeroShared(c, keyOf, phoneEph, i.sk, phoneChallenge, i.challenge);
    var m1 := p.GetM1(phoneEph, phoneChallenge);
    assert m1 == m1[..32] + m1[32..];
    OpenSession(t, m1);
    var m3 := PhoneM3(p, keyOf, lockSeed, phoneEph, phoneChallenge, i, t.sent[|t.sent| - 1]);
    HonestM3(c, keyOf, phoneSeed, slot, phoneEph, phoneChallenge, i, j, w, m3);
    FinishSession(t, m3);
    Joined(old(t.session.facade.trace), [Activated, M1Accepted],
           DeferredEvents(w.0 && j.now <= w.1, m3, SharedTranscript(c, phoneEph, phoneChallenge, i)), [M3Accepted]);
  }

  lemma Joined(a: seq<Event>, b: seq<Event>, c: seq<Event>, d: seq<Event>)
    ensures a + b + (c + d) == a + b + c + d
  {
  }

  /** A whole honest session: whatever state the lock's session was in, the transport
      reaches the secure state and sends exactly M2, 9000 and the sealed replies; the
      handler runs on exactly the plaintexts; and the phone recovers every reply. */
  method HonestSession(t: Transport, p: Phone, ghost keyOf: Bytes -> Bytes, ghost lockSeed: Bytes,
      ghost phoneSeed: Bytes, ghost slot: nat,
                       phoneEph: Bytes, phoneChallenge: Bytes, ghost pts: seq<Bytes>, ghost nonces: seq<Bytes>)
    returns (replies: seq<Bytes>)
    requires t.Lockstep() && t.state == Idle && p.Ready() && |phoneChallenge| == 32 && t.pos + 3 <= |t.script|
    requires HonestScript(t.script[t.pos..], p.crypto, p.phoneSk, phoneEph, phoneChallenge, pts, nonces)
    requires Enrolled(t.session, p, keyOf, lockSeed, phoneSeed, t.script[t.pos + 2].provider, slot)
    requires p.crypto.dh(phoneEph, p.crypto.publicKey(t.script[t.pos + 1].sk)) != Zeros(32)
    modifies t, t.session, t.session.facade, p
    ensures t.Lockstep() && t.state == SecureSession && t.pos == |t.script|
    ensures p.kP2e == t.session.kP2e && p.kE2p == t.session.kE2p
    ensures var i, j := t.script[old(t.pos) + 1], t.script[old(t.pos) + 2];
            var tr := SharedTranscript(p.crypto, phoneEph, phoneChallenge, i);
            var head := old(t.sent) + [p.crypto.publicKey(i.sk) + i.challenge + p.crypto.sign(t.session.localSk, tr)
                + OK_STATUS] + [OK_STATUS];
            && head <= t.sent && Answered(p.crypto, p.kE2p, t.script[old(t.pos) + 3..], pts, t.sent[|head|..])
            && t.session.facade.trace == old(t.session.facade.trace) + [Activated, M1Accepted]
                 + DeferredEvents(old(t.session.provisioningArmed && j.now <= t.session.deadline),
                     p.crypto.sign(p.phoneSk, tr), tr) + [M3Accepted]
                 + Ran(pts)
    ensures |replies| == |pts| && |t.script[old(t.pos) + 3..]| == |pts|
    ensures forall k :: 0 <= k < |pts| ==>
              Sane(t.script[old(t.pos) + 3..][k]) && replies[k] == ReplyBytes(t.script[old(t.pos)
                  + 3..][k].handler(pts[k]))
  {
    hide Safe, Accepted, Sane, Act, Wire, Lawful, KeysOf, Resolves, Transcript, Zeros, Sized, DeferredEvents, Carry,
        Answered, Ran, ReplyBytes;
    ghost var from := t.pos;
    assert t.script[from..][3..] == t.script[from + 3..];
    HonestHandshake(t, p, keyOf, lockSeed, phoneSeed, slot, phoneEph, phoneChallenge, pts, nonces);
    assert t.script[from..][1] == t.script[from + 1];
    var n := |t.sent|;
    CarryPayloads(t, keyOf, pts, nonces);
    replies := RecoverReplies(p, keyOf, t.script[from + 3..], pts, t.sent[n..]);
  }

  // ---- the mailbox behind the handler ---------------------------------------------------------------------

  /** The session's handler when the application answers through the mailbox. */
  function HandlerOf(app: Bytes -> Bytes): Bytes -> AppReply
  {
    pt => AppReply(true, Mailbox.Overwrite(Zeros(Mailbox.CAPACITY), Mailbox.Clamp(app(pt))), |Mailbox.Clamp(app(pt))|)
  }

  lemma HandlerReply(app: Bytes -> Bytes, pt: Bytes)
    ensures |HandlerOf(app)(pt).buffer| == PLAINTEXT_MAX && ReplyBytes(HandlerOf(app)(pt)) == Mailbox.Clamp(app(pt))
  {
  }

  /** Replies recovered through a handler that goes through the mailbox are, over every
      interleaving of the two tasks that posts those plaintexts, exactly what the
      dispatches returned. */
  lemma ThroughBothTasks(states: seq<Mailbox.State>, steps: seq<Mailbox.Step>, app: Bytes -> Bytes, k: nat,
      pts: seq<Bytes>, replies: seq<Bytes>)
    requires Mailbox.IsRun(states, steps) && k < |states|
    requires forall j :: 0 <= j < |steps| && steps[j].AppStep? && states[j].app.ADispatch? ==>
          steps[j].resp == app(states[j].app.cmd)
    requires states[k].posted == pts && |states[k].returned| == |pts| == |replies|
    requires forall j :: 0 <= j < |pts| ==>
          |HandlerOf(app)(pts[j]).buffer| == PLAINTEXT_MAX && replies[j] == ReplyBytes(HandlerOf(app)(pts[j]))
    ensures replies == states[k].returned
  {
    hide Mailbox.Next, HandlerOf, ReplyBytes, Mailbox.IsRun;
    forall j | 0 <= j < |pts|
      ensures replies[j] == states[k].returned[j]
    {
      Mailbox.DispatchIsFunction(states, steps, app, k, j);
      HandlerReply(app, pts[j]);
    }
  }
}
