/** Provisioning: the application's window, the session's window, and what a whole
    run of both can add to the key store. */
module Provision {
  import opened Words
  import opened Bits
  import opened Session
  import KeyStore

  const SECRET_LEN: nat := 32
  const KEY_LEN: nat := 32
  const STATUS_OK: u8 := 0x00
  const STATUS_INVALID_SECRET: u8 := 0x01
  const STATUS_INVALID_CMD: u8 := 0x03
  const STATUS_INTERNAL: u8 := 0x06
  const STATUS_KEY_EXISTS: u8 := 0x08

  // ---- what a run may show ---------------------------------------------------------------------

  /** What has happened since the last arming. */
  datatype Since = Since(
    armed: bool,
    isOpen: bool, secret: Bytes, deadline: int,
    deferrals: nat, sig: Bytes, transcript: Bytes,
    attempts: nat, cmd: Bytes, now: int)

  const NEVER: Since := Since(false, false, [], 0, 0, [], [], 0, [], 0)

  function SinceStep(s: Since, e: Event): Since
  {
    match e
    case Armed => NEVER.(armed := true)
    case WindowOpened(secret, deadline) => s.(isOpen := true, secret := secret, deadline := deadline)
    case Deferred(sig, transcript) => s.(deferrals := s.deferrals + 1, sig := sig, transcript := transcript)
    case Attempted(cmd, now) => s.(attempts := s.attempts + 1, cmd := cmd, now := now)
    case _ => s
  }

  function SinceArming(t: seq<Event>): (s: Since)
  {
    if |t| == 0 then NEVER else SinceStep(SinceArming(t[..|t| - 1]), t[|t| - 1])
  }

  /** A command that carries this secret and this key. */
  predicate CarriesKey(cmd: Bytes, secret: Bytes, pk: Bytes)
  {
    |cmd| == 1 + SECRET_LEN + KEY_LEN && cmd[1..1 + SECRET_LEN] == secret && cmd[1 + SECRET_LEN..] == pk
  }

  /** One event in its place: an arming lets one M3 through unresolved and one attempt
      be made, inside its window; a key is added only by that attempt, with the
      armed secret, for the key that signed that M3. */
  ghost predicate Allowed(c: Crypto, s: Since, e: Event)
  {
    match e
    case Deferred(_, _) => s.armed && s.deferrals == 0
    case Attempted(_, now) => s.isOpen && s.attempts == 0 && now <= s.deadline
    case KeyAdded(pk) =>
      && s.attempts == 1 && s.now <= s.deadline && CarriesKey(s.cmd, s.secret, pk)
      && s.deferrals == 1 && c.check(pk, s.transcript, s.sig)
    case _ => true
  }

  ghost predicate ProvisionSafe(c: Crypto, t: seq<Event>)
  {
    forall i :: 0 <= i < |t| ==> Allowed(c, SinceArming(t[..i]), t[i])
  }

  lemma ProvisionSnoc(c: Crypto, t: seq<Event>, e: Event)
    requires ProvisionSafe(c, t) && Allowed(c, SinceArming(t), e)
    ensures ProvisionSafe(c, t + [e]) && SinceArming(t + [e]) == SinceStep(SinceArming(t), e)
  {
    hide Allowed;
    var u := t + [e];
    assert u[..|t|] == t;
    forall i | 0 <= i < |u|
      ensures Allowed(c, SinceArming(u[..i]), u[i])
    {
      assert i < |t| ==> u[..i] == t[..i];
    }
  }

  /** At most one M3 without a resolver match and at most one attempt between two
      armings: two such events have an arming between them. */
  lemma OncePerArming(c: Crypto, t: seq<Event>, i: nat, j: nat)
    requires ProvisionSafe(c, t) && i < j < |t|
    requires (t[i].Deferred? && t[j].Deferred?) || (t[i].Attempted? && t[j].Attempted?)
    ensures exists k :: i < k < j && t[k].Armed?
  {
    assert Allowed(c, SinceArming(t[..j]), t[j]);
    if forall k :: i < k < j ==> !t[k].Armed? {
      CountsKept(t, i, j);
    }
  }

  lemma {:induction false} CountsKept(t: seq<Event>, i: nat, j: nat)
    requires i < j <= |t| && (forall k :: i < k < j ==> !t[k].Armed?)
    ensures t[i].Deferred? ==> SinceArming(t[..j]).deferrals >= 1
    ensures t[i].Attempted? ==> SinceArming(t[..j]).attempts >= 1
  {
    assert t[..j][..j - 1] == t[..j - 1];
    if j == i + 1 {
    } else {
      CountsKept(t, i, j - 1);
    }
  }

  // ---- the manager -------------------------------------------------------------------------------

  class Manager {
    const session: Session
    const store: KeyStore.Store
    const lockPk: Bytes
    var active: bool
    var deadline: int
    var secret: Bytes

    /** The session's window matches the run so far. */
    ghost predicate SessionLinked()
      reads this, session, session.facade
    {
      var s := SinceArming(session.facade.trace);
      && session.Valid() && ProvisionSafe(session.crypto, session.facade.trace)
      && (session.provisioningArmed ==> s.armed && s.deferrals == 0)
      && (session.m3Cached ==>
          s.deferrals == 1 && session.cachedSig == s.sig && session.cachedTranscript == s.transcript)
    }

    /** So does the manager's window. */
    ghost predicate Linked()
      reads this, session, session.facade
    {
      var s := SinceArming(session.facade.trace);
      && SessionLinked()
      && |secret| == SECRET_LEN
      && (active ==> s.isOpen && s.attempts == 0 && s.secret == secret && s.deadline == deadline)
    }

    constructor (s: Session, ks: KeyStore.Store, pk: Bytes)
      requires s.Valid() && s.facade.trace == [] && !s.provisioningArmed && !s.m3Cached && ks.Valid()
      ensures Linked() && store.Valid() && session == s && store == ks && !active && lockPk == pk
    {
      session, store, lockPk := s, ks, pk;
      active, deadline, secret := false, 0, Zeros(SECRET_LEN);
    }

    /** The first half of provision_mgr_arm: a fresh secret, then the session's window.
        The communication task may run between the halves. */
    method ArmSession(fresh_: Bytes, now: int, timeoutMs: u32)
      requires SessionLinked() && |fresh_| == SECRET_LEN
      modifies this`secret, session`provisioningArmed, session`deadline, session`m3Cached, session`cachedSig,
               session`cachedTranscript, session.facade`trace
      ensures SessionLinked() && secret == fresh_
      ensures session.provisioningArmed && session.deadline == now + timeoutMs * 1000 && !session.m3Cached
      ensures session.facade.trace == old(session.facade.trace) + [Armed]
      ensures SinceArming(session.facade.trace) == NEVER.(armed := true)
    {
      hide Zeros, Sized, ProvisionSafe, SinceArming;
      secret := fresh_;
      ProvisionSnoc(session.crypto, session.facade.trace, Armed);
      session.ArmWindow(now, timeoutMs);
    }

    /** The second half: the manager's own deadline. */
    method OpenWindow(now: int, timeoutMs: u32)
      requires SessionLinked() && |secret| == SECRET_LEN && SinceArming(session.facade.trace).attempts == 0
      modifies this`active, this`deadline, session.facade`trace
      ensures Linked() && active && deadline == now + timeoutMs * 1000
      ensures session.facade.trace == old(session.facade.trace) + [WindowOpened(secret, deadline)]
    {
      hide Zeros, Sized, ProvisionSafe, SinceArming;
      deadline := now + (timeoutMs as int) * 1000;
      active := true;
      ProvisionSnoc(session.crypto, session.facade.trace, WindowOpened(secret, deadline));
      session.facade.trace := session.facade.trace + [WindowOpened(secret, deadline)];
    }

    /** provision_mgr_is_active. */
    method IsActive(now: int) returns (b: bool)
      requires Linked()
      modifies this`active
      ensures Linked() && b == active == (old(active) && now <= deadline)
    {
      if active && now > deadline {
        active := false;
      }
      b := active;
    }

    /** provision_mgr_abort, as far as the window goes. */
    method Abort()
      requires Linked()
      modifies this`active
      ensures Linked() && !active
    {
      active := false;
    }

    /** What the command would have to meet to be committed. */
    ghost predicate Acceptable(cmd: Bytes, pk: Bytes)
      reads this, session
    {
      CarriesKey(cmd, secret, pk) && session.m3Cached && session.crypto.check(pk, session.cachedTranscript,
          session.cachedSig)
    }

    /** The store has room for a new key and storage will take it. */
    ghost predicate StoreTakes(pk: Bytes)
      requires store.Valid()
      reads store, store.keys, store.hal
    {
      pk !in store.Contents() && store.count < KeyStore.KEY_MAX && store.hal.oracle(store.hal.ops) == KeyStore.Success
    }

    /** provision_mgr_handle_cmd.  Any attempt inside the window closes it; the key of
        the command is added exactly when all checks pass and the store takes it. */
    method HandleCmd(cmd: Bytes, now: int) returns (resp: Bytes, ghost added: Option<KeyStore.Key>)
      requires Linked() && store.Valid()
      modifies this`active, session.facade`trace, store, store.keys, store.hal
      ensures Linked() && store.Valid() && !active
      ensures !(old(active) && now <= deadline) ==>
                resp == [STATUS_INVALID_CMD] && added == None && session.facade.trace == old(session.facade.trace)
      ensures old(active) && now <= deadline ==>
                session.facade.trace == old(session.facade.trace) + [Attempted(cmd, now)] + Added(added)
      ensures added.Some? ==> Acceptable(cmd, added.value) && resp == [STATUS_OK] + lockPk
                              && store.Contents() == old(store.Contents()) + [added.value]
      ensures added.None? ==> store.Contents() == old(store.Contents()) && |resp| == 1 && resp[0] != STATUS_OK
      ensures old(active) && now <= deadline && |cmd| != 1 + SECRET_LEN + KEY_LEN ==> resp == [STATUS_INVALID_CMD]
      ensures old(active) && now <= deadline && |cmd| == 1 + SECRET_LEN + KEY_LEN ==>
                (resp == [STATUS_INVALID_SECRET] <==> !Acceptable(cmd, cmd[1 + SECRET_LEN..]))
                && (Acceptable(cmd, cmd[1 + SECRET_LEN..]) && old(StoreTakes(cmd[1 + SECRET_LEN..])) ==> added.Some?)
    {
      hide Zeros, Sized, ProvisionSafe, SinceArming;
      added := None;
      var ok := IsActive(now);
      if !ok {
        return [STATUS_INVALID_CMD], None;
      }
      ProvisionSnoc(session.crypto, session.facade.trace, Attempted(cmd, now));
      session.facade.trace := session.facade.trace + [Attempted(cmd, now)];
      active := false;
      assert session.facade.trace + [] == session.facade.trace;
      if |cmd| != 1 + SECRET_LEN + KEY_LEN {
        return [STATUS_INVALID_CMD], None;
      }
      var received, claimed := cmd[1..1 + SECRET_LEN], cmd[1 + SECRET_LEN..];
      var same := SecretsEqual(received, secret);
      if !same {
        return [STATUS_INVALID_SECRET], None;
      }
      var verified := session.VerifyIdentity(claimed);
      if !verified {
        return [STATUS_INVALID_SECRET], None;
      }
      resp, added := Commit(claimed);
    }

    /** The commit step: the key goes into the store unless it is there. */
    method Commit(pk: KeyStore.Key) returns (resp: Bytes, ghost added: Option<KeyStore.Key>)
      requires Linked() && store.Valid() && Allowed(session.crypto, SinceArming(session.facade.trace), KeyAdded(pk))
      modifies session.facade`trace, store, store.keys, store.hal
      ensures Linked() && store.Valid()
      ensures added.Some? ==> added == Some(pk) && resp == [STATUS_OK] + lockPk
      ensures added.None? ==> resp == [STATUS_KEY_EXISTS] || resp == [STATUS_INTERNAL]
      ensures old(StoreTakes(pk)) ==> added.Some?
      ensures |resp| > 0 && (resp[0] == STATUS_KEY_EXISTS <==> pk in old(store.Contents()))
      ensures session.facade.trace == old(session.facade.trace) + Added(added)
      ensures store.Contents() == old(store.Contents()) + (if added.Some? then [pk] else [])
    {
      hide Zeros, Sized, ProvisionSafe, SinceArming;
      assert session.facade.trace + [] == session.facade.trace;
      assert store.Contents() + [] == store.Contents();
      var known := store.Contains(pk);
      if known {
        return [STATUS_KEY_EXISTS], None;
      }
      var e := store.Add(pk);
      if e != KeyStore.Ok {
        return [STATUS_INTERNAL], None;
      }
      ProvisionSnoc(session.crypto, session.facade.trace, KeyAdded(pk));
      session.facade.trace := session.facade.trace + [KeyAdded(pk)];
      return [STATUS_OK] + lockPk, Some(pk);
    }
  }

  function Added(added: Option<KeyStore.Key>): seq<Event>
  {
    if added.Some? then [KeyAdded(added.value)] else []
  }

  /** constant_time_memcmp on two secrets. */
  method SecretsEqual(a: Bytes, b: Bytes) returns (same: bool)
    requires |a| == |b|
    ensures same <==> a == b
  {
    var diff: u8 := 0;
    for i := 0 to |a|
      invariant diff == 0 <==> a[..i] == b[..i]
    {
      assert a[..i + 1] == a[..i] + [a[i]] && b[..i + 1] == b[..i] + [b[i]];
      assert a[..i + 1][..i] == a[..i] && b[..i + 1][..i] == b[..i] && a[..i + 1][i] == a[i] && b[..i + 1][i] == b[i];
      diff := OrByte(diff, XorByte(a[i], b[i]));
    }
    assert a[..|a|] == a && b[..|b|] == b;
    same := diff == 0;
  }

  /** The exclusive or of two bytes: zero exactly of equals. */
  function XorByte(x: u8, y: u8): (r: u8)
    ensures r == 0 <==> x == y
  {
    Pow2Eight();
    XorBound(x, y, 8);
    XorIsZero(x, y);
    BitXor(x, y)
  }

  // ---- whole runs ------------------------------------------------------------------------------------

  /** What the communication task can do with the session at any moment. */
  datatype CommOp =
    | CommM1(data: Bytes, sk: Bytes, challenge: Bytes)
    | CommM3(data: Bytes, provider: nat -> Option<Bytes>, now: int)
    | CommErase

  /** What the application task can do; an arming has the communication task's steps
      between its two halves. */
  datatype Op =
    | Arm(secret: Bytes, now1: int, between: seq<CommOp>, now2: int, timeoutMs: u32)
    | Tick(now: int)
    | AbortOp
    | Cmd(bytes: Bytes, now: int)
    | Comm(op: CommOp)

  predicate Drawn(o: CommOp)
  {
    o.CommM1? ==> |o.challenge| == 32
  }

  predicate WellFormed(o: Op)
  {
    match o
    case Arm(secret, _, between, _, _) => |secret| == SECRET_LEN && forall i :: 0 <= i < |between| ==> Drawn(between[i])
    case Comm(op) => Drawn(op)
    case _ => true
  }

  lemma DeferralAllowed(c: Crypto, t: seq<Event>, deferred: bool, sig: Bytes, transcript: Bytes)
    requires ProvisionSafe(c, t)
    requires deferred ==> SinceArming(t).armed && SinceArming(t).deferrals == 0
    ensures ProvisionSafe(c, t + DeferredEvents(deferred, sig, transcript))
    ensures SinceArming(t + DeferredEvents(deferred, sig, transcript))
         == if deferred then SinceStep(SinceArming(t), Deferred(sig, transcript)) else SinceArming(t)
  {
    hide ProvisionSafe, SinceArming;
    if deferred {
      ProvisionSnoc(c, t, Deferred(sig, transcript));
    } else {
      assert t + [] == t;
    }
  }

  /** One step of the communication task keeps both windows tied to the run. */
  method CommStep(m: Manager, o: CommOp)
    requires m.SessionLinked() && Drawn(o)
    modifies m.session, m.session.facade
    ensures m.SessionLinked()
    ensures SameWindow(SinceArming(old(m.session.facade.trace)), SinceArming(m.session.facade.trace))
    ensures old(m.session.facade.trace) <= m.session.facade.trace
  {
    hide Zeros, Sized, ProvisionSafe, SinceArming, Transcript, AfterM3, KeysOf, Resolves, DeferredEvents;
    var s := m.session;
    ghost var t := s.facade.trace;
    match o {
      case CommM1(data, sk, challenge) =>
        ProvisionSnoc(s.crypto, t, M1Accepted);
        var _ := s.HandleM1(data, sk, challenge);
      case CommM3(data, provider, now) =>
        CommThird(m, data, provider, now);
      case CommErase =>
        s.OnErase();
    }
  }

  /** The manager's half of the window is untouched. */
  predicate SameWindow(a: Since, b: Since)
  {
    a.isOpen == b.isOpen && a.secret == b.secret && a.deadline == b.deadline && a.attempts == b.attempts
        && a.armed == b.armed
  }

  method CommThird(m: Manager, data: Bytes, provider: nat -> Option<Bytes>, now: int)
    requires m.SessionLinked()
    modifies m.session, m.session.facade
    ensures m.SessionLinked()
    ensures SameWindow(SinceArming(old(m.session.facade.trace)), SinceArming(m.session.facade.trace))
    ensures old(m.session.facade.trace) <= m.session.facade.trace
  {
    hide Zeros, Sized, ProvisionSafe, SinceArming, Transcript, KeysOf, Resolves, DeferredEvents;
    var s := m.session;
    ghost var t, tr := s.facade.trace, s.CurrentTranscript();
    ghost var d := s.provisioningArmed && now <= s.deadline;
    DeferralAllowed(s.crypto, t, d, data, tr);
    ProvisionSnoc(s.crypto, t + DeferredEvents(d, data, tr), M3Accepted);
    assert t + DeferredEvents(d, data, tr) + [] == t + DeferredEvents(d, data, tr);
    ghost var w := s.Window();
    var _ := s.HandleM3(data, provider, now);
    assert s.Window() == w || s.Window() == AfterM3(w, data, tr, now);
  }

  /** Any run of both tasks: every event of it is allowed where it happened, and a key
      in the store that was not there before was added by an allowed attempt. */
  method Run(m: Manager, ops: seq<Op>)
    requires m.Linked() && m.store.Valid()
    requires forall i :: 0 <= i < |ops| ==> WellFormed(ops[i])
    modifies m, m.session, m.session.facade, m.store, m.store.keys, m.store.hal
    ensures m.Linked() && m.store.Valid() && ProvisionSafe(m.session.crypto, m.session.facade.trace)
    ensures old(m.session.facade.trace) <= m.session.facade.trace
    ensures forall pk :: pk in m.store.Contents() ==>
        pk in old(m.store.Contents()) || KeyAdded(pk) in m.session.facade.trace
  {
    hide Zeros, Sized, ProvisionSafe, SinceArming;
    for k := 0 to |ops|
      invariant m.Linked() && m.store.Valid() && old(m.session.facade.trace) <= m.session.facade.trace
      invariant forall pk :: pk in m.store.Contents() ==>
          pk in old(m.store.Contents()) || KeyAdded(pk) in m.session.facade.trace
    {
      AppStep(m, ops[k]);
    }
  }

  method CommSteps(m: Manager, ops: seq<CommOp>)
    requires m.SessionLinked() && forall i :: 0 <= i < |ops| ==> Drawn(ops[i])
    modifies m.session, m.session.facade
    ensures m.SessionLinked() && old(m.session.facade.trace) <= m.session.facade.trace
    ensures SameWindow(SinceArming(old(m.session.facade.trace)), SinceArming(m.session.facade.trace))
  {
    hide Zeros, Sized, ProvisionSafe, SinceArming;
    for i := 0 to |ops|
      invariant m.SessionLinked() && old(m.session.facade.trace) <= m.session.facade.trace
      invariant SameWindow(SinceArming(old(m.session.facade.trace)), SinceArming(m.session.facade.trace))
    {
      CommStep(m, ops[i]);
    }
  }

  method AppStep(m: Manager, o: Op)
    requires m.Linked() && m.store.Valid() && WellFormed(o)
    modifies m, m.session, m.session.facade, m.store, m.store.keys, m.store.hal
    ensures m.Linked() && m.store.Valid() && old(m.session.facade.trace) <= m.session.facade.trace
    ensures forall pk :: pk in m.store.Contents() ==>
        pk in old(m.store.Contents()) || KeyAdded(pk) in m.session.facade.trace
  {
    hide Zeros, Sized, ProvisionSafe, SinceArming;
    match o {
      case Arm(secret, now1, between, now2, timeoutMs) =>
        m.ArmSession(secret, now1, timeoutMs);
        CommSteps(m, between);
        m.OpenWindow(now2, timeoutMs);
      case Tick(now) =>
        var _ := m.IsActive(now);
      case AbortOp =>
        m.Abort();
      case Cmd(bytes, now) =>
        var _, added := m.HandleCmd(bytes, now);
        ghost var t := m.session.facade.trace;
        assert added.Some? ==> t[|t| - 1] == KeyAdded(added.value);
      case Comm(op) =>
        CommStep(m, op);
    }
  }

  /** A phone that signed the current handshake is provisioned: armed, its M3 inside the
      window, then the command with the shown secret inside the window. */
  method ProvisionPhone(m: Manager, secret: Bytes, timeoutMs: u32, armed: int, m3At: int, cmdAt: int,
                        sig: Bytes, pk: Bytes, provider: nat -> Option<Bytes>)
    returns (resp: Bytes)
    requires m.SessionLinked() && m.store.Valid() && |secret| == SECRET_LEN && |sig| == M3_LEN && |pk| == KEY_LEN
    requires m3At <= armed + timeoutMs * 1000 && cmdAt <= armed + timeoutMs * 1000
    requires m.session.stage == Ephemeral && m.session.crypto.check(pk, m.session.CurrentTranscript(), sig)
    requires KeysOf(m.session.crypto, m.session.skEphL, m.session.pkEphP, m.session.cP, m.session.cL).Some?
    requires m.StoreTakes(pk)
    modifies m, m.session, m.session.facade, m.store, m.store.keys, m.store.hal
    ensures m.Linked() && m.store.Valid() && m.session.stage == Established
    ensures resp == [STATUS_OK] + m.lockPk && m.store.Contents() == old(m.store.Contents()) + [pk]
  {
    hide Zeros, Sized, ProvisionSafe, SinceArming, KeysOf, Resolves, DeferredEvents, Transcript, Allowed;
    m.ArmSession(secret, armed, timeoutMs);
    m.OpenWindow(armed, timeoutMs);
    MThird(m, sig, provider, m3At);
    var cmd := [0x01] + secret + pk;
    assert cmd[1..1 + SECRET_LEN] == secret && cmd[1 + SECRET_LEN..] == pk;
    ghost var added;
    resp, added := m.HandleCmd(cmd, cmdAt);
  }

  method MThird(m: Manager, sig: Bytes, provider: nat -> Option<Bytes>, now: int)
    requires m.Linked() && |sig| == M3_LEN && m.session.stage == Ephemeral
    requires m.session.provisioningArmed && now <= m.session.deadline
    requires KeysOf(m.session.crypto, m.session.skEphL, m.session.pkEphP, m.session.cP, m.session.cL).Some?
    modifies m.session, m.session.facade
    ensures m.Linked() && m.session.stage == Established
    ensures m.session.m3Cached && m.session.cachedSig == sig
        && m.session.cachedTranscript == old(m.session.CurrentTranscript())
  {
    hide Zeros, Sized, ProvisionSafe, SinceArming, Transcript, KeysOf, Resolves, DeferredEvents;
    var s := m.session;
    ghost var t, tr := s.facade.trace, s.CurrentTranscript();
    DeferralAllowed(s.crypto, t, true, sig, tr);
    ProvisionSnoc(s.crypto, t + DeferredEvents(true, sig, tr), M3Accepted);
    var _ := s.HandleM3(sig, provider, now);
  }
}
