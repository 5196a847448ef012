/** The transport layer's states over a scripted link, in lockstep with the session
    and the facade over every run. */
module Transport {
  import opened Words
  import opened Session

  // ---- command parsing -----------------------------------------------------------------------

  const PLAINTEXT_BUDGET: nat := 227

  datatype Parsed = Command(capdu: Capdu) | Status(sw1: u8, sw2: u8)

  /** parse_capdu: class 80, four header bytes, a length byte that must match. */
  function ParseCapdu(raw: Bytes): (p: Parsed)
    ensures p.Command? ==> |p.capdu.data| <= 255
  {
    if |raw| < 5 then Status(0x6A, 0x80)
    else if raw[0] != 0x80 then Status(0x6A, 0x81)
    else if raw[4] as int != |raw| - 5 then Status(0x6A, 0x80)
    else Command(Capdu(raw[1], raw[5..]))
  }

  /** A well-formed command as a reader sends it. */
  function Wire(ins: u8, p1: u8, p2: u8, data: Bytes): (raw: Bytes)
    requires |data| <= 255
  {
    [0x80, ins, p1, p2, |data|] + data
  }

  /** The parser accepts exactly the wire form of a command. */
  lemma ParsesExactly(raw: Bytes, c: Capdu)
    ensures ParseCapdu(raw) == Command(c) <==> |c.data| <= 255 && exists p1, p2 :: raw == Wire(c.ins, p1, p2, c.data)
  {
    if ParseCapdu(raw) == Command(c) {
      assert raw == Wire(c.ins, raw[2], raw[3], c.data);
    }
    if p1, p2 :| |c.data| <= 255 && raw == Wire(c.ins, p1, p2, c.data) {
      assert raw[5..] == c.data;
    }
  }

  // ---- what a run may show -----------------------------------------------------------------------

  /** Accepted first and third messages since the last activation. */
  function Accepted(t: seq<Event>): (n: (nat, nat))
  {
    if |t| == 0 then (0, 0)
    else
      var before := Accepted(t[..|t| - 1]);
      match t[|t| - 1]
      case Activated => (0, 0)
      case M1Accepted => (before.0 + 1, before.1)
      case M3Accepted => (before.0, before.1 + 1)
      case _ => before
  }

  /** M3 is accepted only after one M1 of the same activation, and the application's
      handler runs only after one M1 and one M3 of the same activation. */
  ghost predicate Safe(t: seq<Event>)
  {
    forall i :: 0 <= i < |t| ==>
      && (t[i].M3Accepted? ==> Accepted(t[..i]) == (1, 0))
      && (t[i].HandlerRan? ==> Accepted(t[..i]) == (1, 1))
  }

  lemma SafeSnoc(t: seq<Event>, e: Event)
    requires Safe(t)
    requires e.M3Accepted? ==> Accepted(t) == (1, 0)
    requires e.HandlerRan? ==> Accepted(t) == (1, 1)
    ensures Safe(t + [e])
    ensures Accepted(t + [e]) == match e
                                 case Activated => (0, 0)
                                 case M1Accepted => (Accepted(t).0 + 1, Accepted(t).1)
                                 case M3Accepted => (Accepted(t).0, Accepted(t).1 + 1)
                                 case _ => Accepted(t)
  {
    var u := t + [e];
    assert u[..|t|] == t;
    forall i | 0 <= i < |u|
      ensures u[i].M3Accepted? ==> Accepted(u[..i]) == (1, 0)
      ensures u[i].HandlerRan? ==> Accepted(u[..i]) == (1, 1)
    {
      assert i < |t| ==> u[..i] == t[..i];
    }
  }

  lemma SafeDeferred(t: seq<Event>, deferred: bool, sig: Bytes, transcript: Bytes)
    requires Safe(t)
    ensures Safe(t + DeferredEvents(deferred, sig, transcript))
    ensures Accepted(t + DeferredEvents(deferred, sig, transcript)) == Accepted(t)
  {
    if deferred {
      SafeSnoc(t, Deferred(sig, transcript));
    } else {
      assert t + [] == t;
    }
  }

  // ---- the link ------------------------------------------------------------------------------------

  datatype LliError = LliOk | LliTimeout | LliReleased | LliBusFatal | LliOther

  datatype TransportError = TOk | TTimeout | TBusFatal | TInternal | RunCut

  /** What the outside does at one step: the link's answers, the bytes received, the
      lock's random draws, the clock, the stored keys and the application. */
  datatype Input = Input(
    activate: LliError,
    released: bool,
    expired: bool,
    recv: LliError,
    raw: Bytes,
    send: LliError,
    sk: Bytes,
    challenge: Bytes,
    nonce: Bytes,
    now: int,
    provider: nat -> Option<Bytes>,
    handler: Bytes -> AppReply)

  ghost predicate Sane(i: Input)
  {
    |i.challenge| == 32 && |i.nonce| == 12 && forall p :: |i.handler(p).buffer| == PLAINTEXT_MAX
  }

  datatype State = Idle | ActivatedState | Handshake | SecureSession | Released

  // ---- one received command ----------------------------------------------------------------------------

  /** What an input leads to: the session ends, the bus is dead, the command is
      answered by a status (or ignored, when empty) and the state stays, the reader
      aborts, or the data goes to the session. */
  datatype Action = Ends | Fatal | Stays(status: Bytes) | Aborts | Forwards(data: Bytes)

  /** The one command that may reach the session in a state. */
  function Expected(st: State): u8
  {
    match st
    case Handshake => INS_HANDSHAKE_FINISH
    case SecureSession => INS_SECURE_PAYLOAD
    case _ => INS_HANDSHAKE_INIT
  }

  function Act(st: State, i: Input): (a: Action)
  {
    if st != ActivatedState && i.released then Ends
    else if st == Handshake && i.expired then Ends
    else if i.recv == LliBusFatal then Fatal
    else if i.recv != LliOk then if st == Handshake && i.recv == LliOther then Stays([]) else Ends
    else
      match ParseCapdu(i.raw)
      case Status(sw1, sw2) => Stays([sw1, sw2])
      case Command(c) =>
        if c.ins == INS_SESSION_ABORT then Aborts
        else if c.ins != Expected(st) then Stays([0x69, 0x85])
        else if st == SecureSession && |c.data| > PLAINTEXT_BUDGET then Stays([0x6A, 0x80])
        else Forwards(c.data)
  }

  /** A command reaches the session exactly when the link is up and in time, it is in
      wire form, it is the one its state expects, and a payload is within budget. */
  lemma ForwardsExactly(st: State, i: Input, data: Bytes)
    requires st in {ActivatedState, Handshake, SecureSession}
    ensures Act(st, i) == Forwards(data)
       <==> && (st == ActivatedState || !i.released) && (st == Handshake ==> !i.expired) && i.recv == LliOk
            && |data| <= (if st == SecureSession then PLAINTEXT_BUDGET else 255)
            && (exists p1, p2 :: i.raw == Wire(Expected(st), p1, p2, data))
  {
    hide ParseCapdu, Wire;
    ParsesExactly(i.raw, Capdu(Expected(st), data));
  }

  /** The bytes that go out for the inputs that change nothing. */
  function Statuses(st: State, inputs: seq<Input>): (out: seq<Bytes>)
  {
    if |inputs| == 0 then []
    else
      var before, a := Statuses(st, inputs[..|inputs| - 1]), Act(st, inputs[|inputs| - 1]);
      if a.Stays? && a.status != [] then before + [a.status] else before
  }

  /** How a state's handler leaves the transport after an input that was not forwarded:
      where it stands, what it returned and what it sent beyond base. */
  predicate Settled(st: State, a: Action, e: TransportError, now: State, base: seq<Bytes>, sent: seq<Bytes>)
  {
    match a
    case Fatal => e == TBusFatal && now == st && sent == base
    case Ends => e == TOk && now == Released && sent == base
    case Aborts => e == TOk && now == Released && sent == base + [[0x90, 0x00]]
    case Stays(b) => e == TOk && now == st && sent == (if b == [] then base else base + [b])
    case Forwards(_) => e == TOk
  }

  /** The session's answer as it goes out. */
  function Outgoing(r: Reply): (b: Bytes)
  {
    if r.Answer? then r.rapdu.data + [r.rapdu.sw1, r.rapdu.sw2] else [0x69, 0x82]
  }

  // ---- what goes out for a forwarded command ---------------------------------------------------------------

  const OK_STATUS: Bytes := [0x90, 0x00]
  const AUTH_FAILED: Bytes := [0x69, 0x82]

  /** An M1 the session answers. */
  predicate GoodM1(data: Bytes)
  {
    |data| == M1_LEN && data[..32] != Zeros(32)
  }

  /** The M2 that answers it, from what the lock draws. */
  function M2Of(c: Crypto, localSk: Bytes, data: Bytes, i: Input): Bytes
    requires |data| == M1_LEN
  {
    var pk := c.publicKey(i.sk);
    pk + i.challenge + c.sign(localSk, Transcript(data[..32], pk, data[32..], i.challenge))
  }

  function TranscriptOf(cache: (Bytes, Bytes, Bytes, Bytes, Bytes)): Bytes
  {
    Transcript(cache.0, cache.2, cache.1, cache.4)
  }

  function KeysIn(c: Crypto, cache: (Bytes, Bytes, Bytes, Bytes, Bytes)): Option<(Bytes, Bytes)>
  {
    KeysOf(c, cache.3, cache.0, cache.1, cache.4)
  }

  /** An M3 that a session with this cache and this window accepts. */
  ghost predicate GoodM3(c: Crypto, cache: (Bytes, Bytes, Bytes, Bytes, Bytes), window: (bool, int, bool, Bytes,
      Bytes), data: Bytes, i: Input)
  {
    && |data| == M3_LEN && ((window.0 && i.now <= window.1) || Resolves(c, i.provider, TranscriptOf(cache), data))
    && KeysIn(c, cache).Some?
  }

  /** The events it leaves, accepted or not. */
  ghost function M3Events(c: Crypto, cache: (Bytes, Bytes, Bytes, Bytes, Bytes), window: (bool, int, bool, Bytes,
      Bytes), data: Bytes, i: Input): seq<Event>
  {
    if |data| != M3_LEN then []
    else DeferredEvents(window.0 && i.now <= window.1, data, TranscriptOf(cache))
         + (if GoodM3(c, cache, window, data, i) then [M3Accepted] else [])
  }

  /** The sealed answer to a payload, if it opens and the reply can be sealed. */
  ghost function SealedAnswer(c: Crypto, kP2e: Bytes, kE2p: Bytes, data: Bytes, i: Input): (a: Option<Bytes>)
    requires Sane(i)
  {
    if |data| < GCM_OVERHEAD then None
    else
      match Opened(c, kP2e, data)
      case None => None
      case Some(pt) =>
        match c.seal(kE2p, i.nonce, ReplyBytes(i.handler(pt)))
        case None => None
        case Some(s) => Some(i.nonce + s.ct + s.tag)
  }

  /** The response to a payload. */
  ghost function PayloadResponse(a: Option<Bytes>): Bytes
  {
    if a.Some? then a.value + OK_STATUS else AUTH_FAILED
  }

  /** The handler's run for a payload that opens. */
  ghost function RanFor(c: Crypto, kP2e: Bytes, data: Bytes): seq<Event>
  {
    if |data| >= GCM_OVERHEAD && Opened(c, kP2e, data).Some? then [HandlerRan(Opened(c, kP2e, data).value)] else []
  }

  /** What one input of a secure session sends, shows and decides. */
  ghost function SecureOut(c: Crypto, kP2e: Bytes, kE2p: Bytes, i: Input): seq<Bytes>
    requires Sane(i)
  {
    match Act(SecureSession, i)
    case Stays(b) => if b == [] then [] else [b]
    case Aborts => [OK_STATUS]
    case Forwards(data) => [PayloadResponse(SealedAnswer(c, kP2e, kE2p, data, i))]
    case _ => []
  }

  ghost function SecureRan(c: Crypto, kP2e: Bytes, i: Input): seq<Event>
  {
    match Act(SecureSession, i)
    case Forwards(data) => RanFor(c, kP2e, data)
    case _ => []
  }

  ghost predicate SecureGoesOn(c: Crypto, kP2e: Bytes, kE2p: Bytes, i: Input)
    requires Sane(i)
  {
    match Act(SecureSession, i)
    case Stays(_) => true
    case Forwards(data) => SealedAnswer(c, kP2e, kE2p, data, i).Some? && i.send == LliOk
    case _ => false
  }

  /** The same for several inputs in a row. */
  ghost function SecureOutAll(c: Crypto, kP2e: Bytes, kE2p: Bytes, inputs: seq<Input>): seq<Bytes>
    requires forall k :: 0 <= k < |inputs| ==> Sane(inputs[k])
  {
    if |inputs| == 0 then []
    else SecureOutAll(c, kP2e, kE2p, inputs[..|inputs| - 1]) + SecureOut(c, kP2e, kE2p, inputs[|inputs| - 1])
  }

  ghost function SecureRanAll(c: Crypto, kP2e: Bytes, inputs: seq<Input>): seq<Event>
  {
    if |inputs| == 0 then [] else SecureRanAll(c, kP2e, inputs[..|inputs| - 1]) + SecureRan(c, kP2e,
        inputs[|inputs| - 1])
  }

  lemma SecureSnoc(c: Crypto, kP2e: Bytes, kE2p: Bytes, inputs: seq<Input>, i: Input)
    requires (forall k :: 0 <= k < |inputs| ==> Sane(inputs[k])) && Sane(i)
    ensures SecureOutAll(c, kP2e, kE2p, inputs + [i]) == SecureOutAll(c, kP2e, kE2p, inputs) + SecureOut(c, kP2e,
        kE2p, i)
    ensures SecureRanAll(c, kP2e, inputs + [i]) == SecureRanAll(c, kP2e, inputs) + SecureRan(c, kP2e, i)
  {
    assert (inputs + [i])[..|inputs|] == inputs;
  }

  lemma SecureNone(c: Crypto, kP2e: Bytes, kE2p: Bytes)
    ensures SecureOutAll(c, kP2e, kE2p, []) == [] && SecureRanAll(c, kP2e, []) == []
  {
  }

  class Transport {
    const session: Session
    const script: seq<Input>
    var pos: nat
    var state: State
    var sessionJustEnded: bool
    /** Every response handed to the link. */
    var sent: seq<Bytes>

    ghost predicate Running()
      reads this, session, session.facade
    {
      && session.Valid() && pos <= |script| && (forall i :: 0 <= i < |script| ==> Sane(script[i]))
      && Safe(session.facade.trace)
    }

    /** The three layers agree: the transport's state fixes the session's stage and what
        has been accepted since the activation. */
    ghost predicate Lockstep()
      reads this, session, session.facade
    {
      && Running()
      && (state == ActivatedState ==> Accepted(session.facade.trace) == (0, 0))
      && (state == Handshake ==> session.stage == Ephemeral && Accepted(session.facade.trace) == (1, 0))
      && (state == SecureSession ==> session.stage == Established && Accepted(session.facade.trace) == (1, 1))
      && (state == Released ==> session.stage == Empty)
    }

    constructor (s: Session, inputs: seq<Input>)
      requires s.Valid() && s.facade.trace == [] && (forall i :: 0 <= i < |inputs| ==> Sane(inputs[i]))
      ensures Lockstep() && state == Idle && session == s && script == inputs && pos == 0
    {
      session, script, pos, state, sessionJustEnded, sent := s, inputs, 0, Idle, false, [];
    }

    /** Erase and release, the common end of a session. */
    method Release()
      requires Running()
      modifies this`state, session, session.facade
      ensures Lockstep() && state == Released && session.Window() == old(session.Window())
      ensures session.facade.trace == old(session.facade.trace)
    {
      hide Safe, Sane;
      session.OnErase();
      state := Released;
    }

    /** run_idle. */
    method RunIdle() returns (e: TransportError)
      requires Lockstep() && state == Idle
      modifies this, session.facade`trace
      ensures Lockstep() && pos >= old(pos)
      ensures e == TOk ==> state == ActivatedState && pos > old(pos)
      ensures e != TOk ==> state == Idle
      ensures e == RunCut <==> old(pos) == |script|
      ensures old(pos) < |script| ==> pos == old(pos) + 1 && (e == TOk <==> script[old(pos)].activate == LliOk)
      ensures sent == old(sent) && session.facade.trace == old(session.facade.trace) + (if e
          == TOk then [Activated] else [])
    {
      hide Safe, Accepted, Sane;
      assert session.facade.trace + [] == session.facade.trace;
      if pos == |script| {
        return RunCut;
      }
      var i := script[pos];
      pos := pos + 1;
      sessionJustEnded := false;
      match i.activate {
        case LliTimeout => return TTimeout;
        case LliBusFatal => return TBusFatal;
        case LliOk =>
          SafeSnoc(session.facade.trace, Activated);
          session.facade.trace := session.facade.trace + [Activated];
          state := ActivatedState;
          return TOk;
        case _ => return TInternal;
      }
    }

    /** run_activated: one command.  Only a handshake start gets anywhere. */
    method RunActivated() returns (e: TransportError)
      requires Lockstep() && state == ActivatedState
      modifies this, session, session.facade
      ensures Lockstep() && pos >= old(pos)
      ensures e == RunCut <==> old(pos) == |script|
      ensures old(pos) < |script| ==> pos == old(pos) + 1
      ensures old(pos) < |script| ==> Settled(ActivatedState, Act(ActivatedState, script[old(pos)]), e, state,
          old(sent), sent)
      ensures e == TOk ==> state in {ActivatedState, Handshake, Released}
      ensures state == Handshake ==> old(pos) < |script| && Act(ActivatedState, script[old(pos)]).Forwards?
      ensures state != Handshake && state != Released ==> session.stage == old(session.stage)
      ensures session.Window() == old(session.Window())
      ensures old(pos) < |script| ==> match Act(ActivatedState, script[old(pos)])
                                      case Forwards(data) =>
                                        && Started(data, script[old(pos)], old(sent))
                                        && session.facade.trace == old(session.facade.trace)
                                           + (if GoodM1(data) then [M1Accepted] else [])
                                      case _ => session.facade.trace == old(session.facade.trace)
    {
      hide Safe, Accepted, Sane, ParseCapdu, Started, Zeros;
      if pos == |script| {
        return RunCut;
      }
      var i := script[pos];
      pos := pos + 1;
      if i.recv == LliBusFatal {
        return TBusFatal;
      }
      if i.recv != LliOk {
        Release();
        return TOk;
      }
      var p := ParseCapdu(i.raw);
      if p.Status? {
        sent := sent + [[p.sw1, p.sw2]];
        return TOk;
      }
      if p.capdu.ins == INS_SESSION_ABORT {
        Release();
        sent := sent + [[0x90, 0x00]];
        return TOk;
      }
      if p.capdu.ins != INS_HANDSHAKE_INIT {
        sent := sent + [[0x69, 0x85]];
        return TOk;
      }
      StartHandshake(p.capdu.data, i);
      return TOk;
    }

    /** The outcome of a forwarded M1: M2 goes out if it is a good one, and the handshake
        state is entered if M2 went out. */
    ghost predicate Started(data: Bytes, i: Input, before: seq<Bytes>)
      reads this, session
    {
      if GoodM1(data) then
        && sent == before + [M2Of(session.crypto, session.localSk, data, i) + OK_STATUS]
        && state == (if i.send == LliOk then Handshake else Released)
        && (state == Handshake ==> session.Cache() == (data[..32], data[32..], session.crypto.publicKey(i.sk), i.sk,
           i.challenge))
      else sent == before + [AUTH_FAILED] && state == Released
    }

    /** M1 to the session and M2 back to the reader. */
    method StartHandshake(data: Bytes, i: Input)
      requires Lockstep() && state == ActivatedState && Sane(i)
      modifies this`state, this`sent, session, session.facade
      ensures Lockstep() && (state == Handshake || state == Released)
      ensures Started(data, i, old(sent)) && session.Window() == old(session.Window())
      ensures session.facade.trace == old(session.facade.trace) + (if GoodM1(data) then [M1Accepted] else [])
    {
      hide Safe, Accepted, Zeros, Sized, Transcript;
      ghost var t := session.facade.trace;
      SafeSnoc(t, M1Accepted);
      assert t + [] == t;
      var r := session.HandleM1(data, i.sk, i.challenge);
      sent := sent + [Outgoing(r)];
      if r.Failed? {
        Release();
        return;
      }
      if i.send != LliOk {
        Release();
        return;
      }
      state := Handshake;
    }

    /** run_handshake: until an M3 arrives, the reader gives up or time runs out.  The
        secure state is entered exactly when that M3 is accepted and answered. */
    method RunHandshake() returns (e: TransportError)
      requires Lockstep() && state == Handshake
      modifies this, session, session.facade
      ensures Lockstep() && pos >= old(pos)
      ensures e == RunCut ==> pos == |script| && state == Handshake && sent == old(sent) + Statuses(Handshake,
          script[old(pos)..pos])
      ensures e != RunCut ==> pos > old(pos)
      ensures forall k :: old(pos) <= k < pos ==> (Act(Handshake, script[k]).Stays? <==> k < pos - 1 || e == RunCut)
      ensures e != RunCut ==> match Act(Handshake, script[pos - 1])
                              case Forwards(data) =>
                                var i, before := script[pos - 1], old(sent) + Statuses(Handshake,
                                    script[old(pos)..pos - 1]);
                                Finished(data, i, before, old(session.Cache()), old(session.Window()),
                                    old(session.facade.trace))
                              case a => Settled(Handshake, a, e, state, old(sent) + Statuses(Handshake,
                                  script[old(pos)..pos - 1]), sent)
      ensures e == TOk ==> state == SecureSession || state == Released
    {
      hide Safe, Accepted, Sane, Act, Statuses, KeysIn, M3Events, GoodM3;
      NoStatuses(Handshake);
      assert script[old(pos)..pos] == [];
      while pos < |script|
        invariant Lockstep() && state == Handshake && pos >= old(pos)
        invariant sent == old(sent) + Statuses(Handshake, script[old(pos)..pos])
        invariant forall k :: old(pos) <= k < pos ==> Act(Handshake, script[k]).Stays?
        invariant session.Same(old(session.Cache()), old(session.Window()), old(session.facade.trace))
        decreases |script| - pos
      {
        var i := script[pos];
        ghost var seen := script[old(pos)..pos];
        StatusesSnoc(Handshake, seen, i);
        assert script[old(pos)..pos + 1] == seen + [i];
        pos := pos + 1;
        var again;
        again, e := HandshakeInput(i);
        if !again {
          return;
        }
      }
      return RunCut;
    }

    /** The outcome of a forwarded M3. */
    ghost predicate Finished(data: Bytes, i: Input, before: seq<Bytes>, cache: (Bytes, Bytes, Bytes, Bytes, Bytes),
                             window: (bool, int, bool, Bytes, Bytes), trace: seq<Event>)
      reads this, session, session.facade
    {
      var good := GoodM3(session.crypto, cache, window, data, i);
      && sent == before + [if good then OK_STATUS else AUTH_FAILED]
      && state == (if good && i.send == LliOk then SecureSession else Released)
      && (state == SecureSession ==>
            KeysIn(session.crypto, cache) == Some((session.kP2e, session.kE2p)) && session.Cache() == cache)
      && session.facade.trace == trace + M3Events(session.crypto, cache, window, data, i)
    }

    /** One pass of the handshake loop. */
    method HandshakeInput(i: Input) returns (again: bool, e: TransportError)
      requires Lockstep() && state == Handshake && Sane(i)
      modifies this`state, this`sent, session, session.facade
      ensures Lockstep() && (again <==> Act(Handshake, i).Stays?)
      ensures Settled(Handshake, Act(Handshake, i), e, state, old(sent), sent)
      ensures again ==> session.Same(old(session.Cache()), old(session.Window()), old(session.facade.trace))
      ensures match Act(Handshake, i)
              case Forwards(data) =>
                && Finished(data, i, old(sent), old(session.Cache()), old(session.Window()), old(session.facade.trace))
                && (state == SecureSession || state == Released)
              case _ => true
    {
      hide Safe, Accepted, Sane, ParseCapdu, Finished, KeysIn, GoodM3, M3Events;
      if i.released || i.expired {
        Release();
        return false, TOk;
      }
      if i.recv == LliBusFatal {
        return false, TBusFatal;
      }
      if i.recv == LliReleased || i.recv == LliTimeout {
        Release();
        return false, TOk;
      }
      if i.recv != LliOk {
        return true, TOk;
      }
      var p := ParseCapdu(i.raw);
      if p.Status? {
        sent := sent + [[p.sw1, p.sw2]];
        return true, TOk;
      }
      if p.capdu.ins == INS_SESSION_ABORT {
        Release();
        sent := sent + [[0x90, 0x00]];
        return false, TOk;
      }
      if p.capdu.ins != INS_HANDSHAKE_FINISH {
        sent := sent + [[0x69, 0x85]];
        return true, TOk;
      }
      FinishHandshake(p.capdu.data, i);
      return false, TOk;
    }

    /** M3 to the session and its status back to the reader. */
    method FinishHandshake(data: Bytes, i: Input)
      requires Lockstep() && state == Handshake && Sane(i)
      modifies this`state, this`sent, session, session.facade
      ensures Lockstep() && (state == SecureSession || state == Released)
      ensures Finished(data, i, old(sent), old(session.Cache()), old(session.Window()), old(session.facade.trace))
    {
      hide Safe, Accepted, Zeros, Sized, Transcript, DeferredEvents, KeysOf, AfterM3, Resolves;
      ghost var t, tr := session.facade.trace, session.CurrentTranscript();
      ghost var d := session.provisioningArmed && i.now <= session.deadline;
      SafeDeferred(t, d, data, tr);
      SafeSnoc(t + DeferredEvents(d, data, tr), M3Accepted);
      assert t + [] == t;
      assert forall x :: (t + DeferredEvents(d, data, tr)) + x == t + (DeferredEvents(d, data, tr) + x);
      assert t + DeferredEvents(d, data, tr) + [] == t + DeferredEvents(d, data, tr);
      var r := session.HandleM3(data, i.provider, i.now);
      assert SUCCESS.data + OK_STATUS == OK_STATUS;
      sent := sent + [Outgoing(r)];
      if r.Failed? {
        Release();
        return;
      }
      if i.send != LliOk {
        Release();
        return;
      }
      state := SecureSession;
    }

    /** run_secure_session: payloads until the session ends.  Everything sent and every
        run of the handler follows from the inputs and the two keys. */
    method RunSecureSession() returns (e: TransportError)
      requires Lockstep() && state == SecureSession
      modifies this, session, session.facade
      ensures Lockstep() && pos >= old(pos)
      ensures forall k :: old(pos) <= k < pos ==>
                (SecureGoesOn(session.crypto, old(session.kP2e), old(session.kE2p), script[k]) <==>
                      k < pos - 1 || e == RunCut)
      ensures sent == old(sent) + SecureOutAll(session.crypto, old(session.kP2e), old(session.kE2p),
          script[old(pos)..pos])
      ensures session.facade.trace == old(session.facade.trace) + SecureRanAll(session.crypto, old(session.kP2e),
          script[old(pos)..pos])
      ensures state == SecureSession ==> session.kP2e == old(session.kP2e) && session.kE2p == old(session.kE2p)
      ensures e == RunCut ==> pos == |script| && state == SecureSession
      ensures e == TBusFatal ==>
            pos > old(pos) && Act(SecureSession, script[pos - 1]) == Fatal && state == SecureSession
      ensures e != RunCut && e != TBusFatal ==> e == TOk && state == Released && pos > old(pos)
    {
      hide Safe, Accepted, Sane, Act, SecureOut, SecureRan, SecureGoesOn, SecureOutAll, SecureRanAll;
      ghost var c, k1, k2 := session.crypto, session.kP2e, session.kE2p;
      SecureNone(c, k1, k2);
      assert script[old(pos)..pos] == [];
      while pos < |script|
        invariant Lockstep() && state == SecureSession && pos >= old(pos)
        invariant session.kP2e == k1 && session.kE2p == k2
        invariant sent == old(sent) + SecureOutAll(c, k1, k2, script[old(pos)..pos])
        invariant session.facade.trace == old(session.facade.trace) + SecureRanAll(c, k1, script[old(pos)..pos])
        invariant forall k :: old(pos) <= k < pos ==> SecureGoesOn(c, k1, k2, script[k])
        decreases |script| - pos
      {
        var i := script[pos];
        ghost var seen := script[old(pos)..pos];
        SecureSnoc(c, k1, k2, seen, i);
        assert script[old(pos)..pos + 1] == seen + [i];
        pos := pos + 1;
        var again;
        again, e := SecureInput(i);
        if !again {
          return;
        }
      }
      return RunCut;
    }

    /** One pass of the secure loop. */
    method SecureInput(i: Input) returns (again: bool, e: TransportError)
      requires Lockstep() && state == SecureSession && Sane(i)
      modifies this`state, this`sent, session, session.facade
      ensures Lockstep() && state == if again || e == TBusFatal then SecureSession else Released
      ensures (e == TBusFatal || e == TOk) && (e == TBusFatal <==> Act(SecureSession, i) == Fatal)
      ensures again <==> SecureGoesOn(session.crypto, old(session.kP2e), old(session.kE2p), i)
      ensures state == SecureSession ==> session.kP2e == old(session.kP2e) && session.kE2p == old(session.kE2p)
      ensures sent == old(sent) + SecureOut(session.crypto, old(session.kP2e), old(session.kE2p), i)
      ensures session.facade.trace == old(session.facade.trace) + SecureRan(session.crypto, old(session.kP2e), i)
    {
      hide Safe, Accepted, Sane, ParseCapdu, SealedAnswer, RanFor;
      assert sent + [] == sent && session.facade.trace + [] == session.facade.trace;
      if i.released {
        Release();
        return false, TOk;
      }
      if i.recv == LliBusFatal {
        return false, TBusFatal;
      }
      if i.recv != LliOk {
        Release();
        return false, TOk;
      }
      var p := ParseCapdu(i.raw);
      if p.Status? {
        sent := sent + [[p.sw1, p.sw2]];
        return true, TOk;
      }
      if p.capdu.ins == INS_SESSION_ABORT {
        Release();
        sent := sent + [[0x90, 0x00]];
        return false, TOk;
      }
      if p.capdu.ins != INS_SECURE_PAYLOAD {
        sent := sent + [[0x69, 0x85]];
        return true, TOk;
      }
      if |p.capdu.data| > PLAINTEXT_BUDGET {
        sent := sent + [[0x6A, 0x80]];
        return true, TOk;
      }
      var ended := ForwardPayload(p.capdu.data, i);
      return !ended, TOk;
    }

    /** One payload to the session and its answer back to the reader. */
    method ForwardPayload(data: Bytes, i: Input) returns (ended: bool)
      requires Lockstep() && state == SecureSession && Sane(i) && |data| <= 255
      modifies this`state, this`sent, session, session.facade
      ensures Lockstep() && state == if ended then Released else SecureSession
      ensures var a := SealedAnswer(session.crypto, old(session.kP2e), old(session.kE2p), data, i);
              && sent == old(sent) + [PayloadResponse(a)]
              && (ended <==> a.None? || i.send != LliOk)
      ensures !ended ==> session.kP2e == old(session.kP2e) && session.kE2p == old(session.kE2p)
      ensures session.facade.trace == old(session.facade.trace) + RanFor(session.crypto, old(session.kP2e), data)
    {
      hide Safe, Accepted, Zeros, Sized, Opened, ReplyBytes;
      ghost var t := session.facade.trace;
      assert t + [] == t;
      if |data| >= GCM_OVERHEAD && Opened(session.crypto, session.kP2e, data).Some? {
        SafeSnoc(t, HandlerRan(Opened(session.crypto, session.kP2e, data).value));
      }
      var r := session.HandlePayload(data, i.handler, i.nonce);
      sent := sent + [Outgoing(r)];
      if r.Failed? {
        Release();
        return true;
      }
      if i.send != LliOk {
        Release();
        return true;
      }
      return false;
    }

    /** transport_run_session: one activation and what follows it.  A fatal bus error
        leaves without erasing; the next session starts from there. */
    method RunSession() returns (e: TransportError)
      requires Lockstep()
      modifies this, session, session.facade
      ensures Lockstep() && pos >= old(pos)
      ensures e == TOk ==> state == Idle && sessionJustEnded && session.stage == Empty && session.Erased()
      ensures e == RunCut ==> pos == |script|
      ensures old(pos) < |script| ==> pos > old(pos)
    {
      hide Safe, Accepted, Sane, Zeros, Sized, Act, Statuses, Started, Finished, GoodM3, M3Events, KeysIn,
           SecureGoesOn, SecureOutAll, SecureRanAll;
      state := Idle;
      e := RunIdle();
      if e != TOk {
        return;
      }
      while true
        invariant Lockstep() && pos > old(pos) && state != Idle
        decreases |script| - pos, if state == Released then 0 else 1
      {
        match state {
          case ActivatedState =>
            e := RunActivated();
            if e != TOk { return; }
          case Handshake =>
            e := RunHandshake();
            if e != TOk { return; }
          case SecureSession =>
            e := RunSecureSession();
            if e != TOk { return; }
          case Released =>
            state := Idle;
            sessionJustEnded := true;
            return TOk;
        }
      }
    }
  }

  lemma NoStatuses(st: State)
    ensures Statuses(st, []) == []
  {
  }

  lemma StatusesSnoc(st: State, inputs: seq<Input>, i: Input)
    ensures Statuses(st, inputs + [i]) ==
      if Act(st, i).Stays? && Act(st, i).status != [] then Statuses(st, inputs) + [Act(st,
          i).status] else Statuses(st, inputs)
  {
    hide Act;
    assert (inputs + [i])[..|inputs|] == inputs;
  }

  /** What each state of the transport says about the session's memory. */
  lemma LockstepMeans(t: Transport)
    requires t.Lockstep()
    ensures t.state == Handshake ==>
          t.session.stage == Ephemeral && t.session.kP2e == Zeros(32) && t.session.kE2p == Zeros(32)
    ensures t.state == SecureSession ==> t.session.stage == Established
    ensures t.state == Released ==> t.session.stage == Empty && t.session.Erased()
    ensures t.session.facade.active <==> t.session.stage == Established
  {
  }

  const FATAL_RETRY_LIMIT: nat := 3

  datatype TaskEnd = StopRequested | BusDead | StillRunning

  /** comm_task_fn: sessions one after another, until a stop is requested or three fatal
      bus errors come in a row.  stop(n) is the flag as the task reads it before
      session n.  Everything the run shows is safe, whatever the errors. */
  method CommTask(t: Transport, stop: nat -> bool) returns (end: TaskEnd, results: seq<TransportError>)
    requires t.Lockstep()
    modifies t, t.session, t.session.facade
    ensures t.Lockstep() && Safe(t.session.facade.trace)
    ensures forall n :: 0 <= n < |results| ==> !stop(n)
    ensures end == StopRequested ==> stop(|results|)
    ensures end == BusDead <==> ThreeFatal(results, |results|)
    ensures forall n :: 0 <= n < |results| ==> !ThreeFatal(results, n)
    ensures end == StillRunning ==> t.pos == |t.script|
  {
    hide Safe, Sane, Zeros, Sized;
    var fatalRetries := 0;
    results := [];
    while t.pos < |t.script|
      invariant t.Lockstep() && fatalRetries < FATAL_RETRY_LIMIT && fatalRetries <= |results|
      invariant forall n :: 0 <= n < |results| ==> !stop(n)
      invariant forall k :: |results| - fatalRetries <= k < |results| ==> results[k] == TBusFatal
      invariant fatalRetries < |results| ==> results[|results| - 1 - fatalRetries] != TBusFatal
      invariant forall n :: 0 <= n <= |results| ==> !ThreeFatal(results, n)
      decreases |t.script| - t.pos
    {
      if stop(|results|) {
        return StopRequested, results;
      }
      var e := t.RunSession();
      FatalSnoc(results, e);
      results := results + [e];
      if e == TBusFatal {
        fatalRetries := fatalRetries + 1;
        if fatalRetries >= FATAL_RETRY_LIMIT {
          return BusDead, results;
        }
      } else {
        fatalRetries := 0;
      }
    }
    return StillRunning, results;
  }

  /** The last three of the first n sessions ended in a fatal bus error. */
  predicate ThreeFatal(results: seq<TransportError>, n: nat)
    requires n <= |results|
  {
    n >= FATAL_RETRY_LIMIT && forall k :: n - FATAL_RETRY_LIMIT <= k < n ==> results[k] == TBusFatal
  }

  lemma FatalSnoc(results: seq<TransportError>, e: TransportError)
    ensures forall n :: 0 <= n <= |results| ==> ThreeFatal(results + [e], n) == ThreeFatal(results, n)
  {
    forall n | 0 <= n <= |results|
      ensures ThreeFatal(results + [e], n) == ThreeFatal(results, n)
    {
      assert (results + [e])[..|results|] == results;
      if ThreeFatal(results + [e], n) {
        assert forall k :: n - FATAL_RETRY_LIMIT <= k < n ==> results[k] == (results + [e])[k];
      }
    }
  }
}
