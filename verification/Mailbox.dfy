/** The mailbox between the communication task and the application task: two
    threads of control over shared fields and two notification counters, one step
    at a time, in runs where the wait for the application never expires. */
module Mailbox {
  import opened Words
  import opened Session

  const CAPACITY: nat := 227

  // ---- the two tasks ---------------------------------------------------------------------------

  /** Where the communication task stands: idle, between writing an event and notifying,
      or at a line of comm_dispatch_via_mailbox. */
  datatype CommPc =
    | CIdle
    | CNotifyEvent
    | CWriteLength(cmd: Bytes)
    | CWriteCommand(cmd: Bytes)
    | CSetValid
    | CNotify
    | CWait
    | CReadLength
    | CReadResponse(len: nat)

  /** Where the application task stands in its loop and in the calls it makes. */
  datatype AppPc =
    | ABlocked
    | APoll
    | AClearEvent(seen: CommEvent)
    | AHasCommand
    | AGetValid
    | AGetCopy
    | ADispatch(cmd: Bytes)
    | ACompleteCheck(cmd: Bytes, resp: Bytes)
    | ACompleteClear(cmd: Bytes, resp: Bytes)
    | ACompleteCopy(resp: Bytes)
    | ACompleteLength(len: nat)
    | ANotify

  /** The shared fields, both program counters and the history of the run: commands
      posted, commands handled with the bytes stored for each, bytes returned. */
  datatype State = State(
    valid: bool,
    command: Bytes,
    commandLength: nat,
    event: CommEvent,
    response: Bytes,
    responseLength: nat,
    appNotified: nat,
    commNotified: nat,
    comm: CommPc,
    app: AppPc,
    posted: seq<Bytes>,
    handled: seq<(Bytes, Bytes)>,
    returned: seq<Bytes>)

  const START: State := State(false, Zeros(CAPACITY), 0, NoEvent, Zeros(CAPACITY), 0, 0, 0, CIdle, ABlocked, [], [], [])

  /** What the session asks of the communication task, and what the application answers. */
  datatype Input = Dispatch(cmd: Bytes) | Lifecycle(event: CommEvent) | Nothing

  function Clamp(resp: Bytes): (r: Bytes)
    ensures |r| <= CAPACITY && r <= resp
    ensures |resp| <= CAPACITY ==> r == resp
  {
    if |resp| > CAPACITY then resp[..CAPACITY] else resp
  }

  /** memcpy over the front of a buffer. */
  function Overwrite(buffer: Bytes, src: Bytes): (b: Bytes)
    requires |src| <= |buffer|
    ensures |b| == |buffer| && b[..|src|] == src && b[|src|..] == buffer[|src|..]
  {
    src + buffer[|src|..]
  }

  predicate Fits(s: State)
  {
    |s.command| == CAPACITY && |s.response| == CAPACITY
    && (s.comm.CWriteLength? || s.comm.CWriteCommand? ==> |s.comm.cmd| <= CAPACITY)
    && (s.comm.CReadResponse? ==> s.comm.len <= CAPACITY)
    && s.commandLength <= CAPACITY
  }

  /** A step of the communication task.  A wait without a notification stays put. */
  function CommNext(s: State, i: Input): (t: State)
    requires Fits(s) && (i.Dispatch? ==> |i.cmd| <= CAPACITY)
  {
    match s.comm
    case CIdle =>
      (match i
       case Dispatch(cmd) => s.(comm := CWriteLength(cmd), posted := s.posted + [cmd])
       case Lifecycle(event) => s.(event := event, comm := CNotifyEvent)
       case Nothing => s)
    case CNotifyEvent => s.(appNotified := s.appNotified + 1, comm := CIdle)
    case CWriteLength(cmd) => s.(commandLength := |cmd|, comm := CWriteCommand(cmd))
    case CWriteCommand(cmd) => s.(command := Overwrite(s.command, cmd), comm := CSetValid)
    case CSetValid => s.(valid := true, comm := CNotify)
    case CNotify => s.(appNotified := s.appNotified + 1, comm := CWait)
    case CWait => if s.commNotified == 0 then s else s.(commNotified := 0, comm := CReadLength)
    case CReadLength => if s.responseLength <= CAPACITY then s.(comm := CReadResponse(s.responseLength)) else s
    case CReadResponse(len) => s.(comm := CIdle, returned := s.returned + [s.response[..len]])
  }

  /** A step of the application task; resp is what it answers when it dispatches. */
  function AppNext(s: State, resp: Bytes): (t: State)
    requires Fits(s)
  {
    match s.app
    case ABlocked => if s.appNotified == 0 then s else s.(appNotified := 0, app := APoll)
    case APoll => s.(app := AClearEvent(s.event))
    case AClearEvent(_) => s.(event := NoEvent, app := AHasCommand)
    case AHasCommand => s.(app := if s.valid then AGetValid else ABlocked)
    case AGetValid => s.(app := if s.valid then AGetCopy else ABlocked)
    case AGetCopy => s.(app := ADispatch(s.command[..s.commandLength]))
    case ADispatch(cmd) => s.(app := ACompleteCheck(cmd, resp))
    case ACompleteCheck(cmd, r) => s.(app := if s.valid then ACompleteClear(cmd, r) else ABlocked)
    case ACompleteClear(cmd, r) => s.(valid := false, app := ACompleteCopy(r), handled := s.handled + [(cmd, Clamp(r))])
    case ACompleteCopy(r) => s.(response := Overwrite(s.response, Clamp(r)), app := ACompleteLength(|Clamp(r)|))
    case ACompleteLength(len) => s.(responseLength := len, app := ANotify)
    case ANotify => s.(commNotified := s.commNotified + 1, app := ABlocked)
  }

  // ---- what every reachable state satisfies ---------------------------------------------------------

  /** The communication task is inside a dispatch. */
  predicate Dispatching(s: State)
  {
    !s.comm.CIdle? && !s.comm.CNotifyEvent?
  }

  /** The command is out and its answer has not been taken. */
  predicate Posted(s: State)
  {
    s.comm.CNotify? || s.comm.CWait?
  }

  predicate Answered(s: State)
  {
    s.comm.CReadLength? || s.comm.CReadResponse?
  }

  /** The application is between reading a command and completing it. */
  predicate Holding(s: State)
  {
    s.app.AGetValid? || s.app.AGetCopy? || s.app.ADispatch? || s.app.ACompleteCheck? || s.app.ACompleteClear?
  }

  /** The application has taken the completion but not notified yet. */
  predicate Completing(s: State)
  {
    s.app.ACompleteCopy? || s.app.ACompleteLength? || s.app.ANotify?
  }

  /** The answer for the command in flight lies in the mailbox. */
  predicate ResponseReady(s: State)
  {
    && |s.handled| == |s.returned| + 1 && s.responseLength <= CAPACITY && |s.response| == CAPACITY
    && s.response[..s.responseLength] == s.handled[|s.returned|].1
  }

  /** Every dispatch so far was answered with what was stored for that command. */
  predicate HistoryMatches(s: State)
  {
    && |s.returned| <= |s.handled| <= |s.posted|
    && |s.posted| == |s.returned| + (if Dispatching(s) then 1 else 0)
    && (forall k :: 0 <= k < |s.handled| ==> s.handled[k].0 == s.posted[k])
    && (forall k :: 0 <= k < |s.returned| ==> s.returned[k] == s.handled[k].1)
  }

  /** The posted command lies in the mailbox as it was posted. */
  predicate CommandLies(s: State)
  {
    var n := |s.returned|;
    && (s.comm.CWriteLength? || s.comm.CWriteCommand? ==> n < |s.posted| && s.comm.cmd == s.posted[n])
    && (s.comm.CWriteCommand? ==> s.commandLength == |s.comm.cmd|)
    && (s.comm.CSetValid? || Posted(s) ==>
          n < |s.posted| && s.commandLength <= |s.command| && s.command[..s.commandLength] == s.posted[n])
  }

  predicate AppHolds(s: State)
  {
    var n := |s.returned|;
    && (Holding(s) ==> s.valid && n < |s.posted|)
    && (s.app.ADispatch? || s.app.ACompleteCheck? || s.app.ACompleteClear? ==>
          n < |s.posted| && s.app.cmd == s.posted[n])
    && (Completing(s) ==> Posted(s) && s.commNotified == 0 && |s.handled| == n + 1)
    && (s.app.ACompleteCopy? ==> Clamp(s.app.resp) == s.handled[n].1)
    && (s.app.ACompleteLength? ==>
          s.app.len <= CAPACITY && |s.response| == CAPACITY && s.response[..s.app.len] == s.handled[n].1)
    && (s.app.ANotify? ==> ResponseReady(s))
  }

  predicate Inv(s: State)
  {
    && Fits(s) && HistoryMatches(s) && CommandLies(s) && AppHolds(s)
    && (s.valid <==> Posted(s) && |s.handled| == |s.returned|)
    && (|s.handled| == |s.returned| + 1 ==> Posted(s) || Answered(s))
    && (Answered(s) ==> ResponseReady(s) && s.commNotified == 0)
    && (s.comm.CReadResponse? ==> s.comm.len == s.responseLength)
    && s.commNotified <= 1
    && (s.commNotified == 1 ==> Posted(s) && ResponseReady(s) && !Completing(s))
    && (Posted(s) && !s.valid && !Completing(s) ==> s.commNotified == 1)
    && (s.comm.CWait? && s.valid && s.app.ABlocked? ==> s.appNotified > 0)
  }

  lemma InvStart()
    ensures Inv(START)
  {
  }

  lemma InvComm(s: State, i: Input)
    requires Inv(s) && (i.Dispatch? ==> |i.cmd| <= CAPACITY)
    ensures Inv(CommNext(s, i))
  {
  }

  /** The application's own loop, up to the clearing of the command. */
  lemma InvAppLoop(s: State, resp: Bytes)
    requires Inv(s) && !Completing(s) && !s.app.ACompleteClear?
    ensures Inv(AppNext(s, resp))
  {
  }

  lemma InvAppClear(s: State, resp: Bytes)
    requires Inv(s) && s.app.ACompleteClear?
    ensures Inv(AppNext(s, resp))
  {
  }

  /** The completion of a command, field by field. */
  lemma InvAppComplete(s: State, resp: Bytes)
    requires Inv(s) && Completing(s)
    ensures Inv(AppNext(s, resp))
  {
  }

  // ---- whole runs ---------------------------------------------------------------------------------------

  /** One step of either task, or the button's interrupt, which also notifies the
      application. */
  datatype Step = CommStep(input: Input) | AppStep(resp: Bytes) | ButtonStep

  predicate Possible(step: Step)
  {
    step.CommStep? && step.input.Dispatch? ==> |step.input.cmd| <= CAPACITY
  }

  function Next(s: State, step: Step): (t: State)
    requires Fits(s) && Possible(step)
  {
    match step
    case CommStep(i) => CommNext(s, i)
    case AppStep(resp) => AppNext(s, resp)
    case ButtonStep => s.(appNotified := s.appNotified + 1)
  }

  lemma InvButton(s: State)
    requires Inv(s)
    ensures Inv(s.(appNotified := s.appNotified + 1))
  {
  }

  lemma InvNext(s: State, step: Step)
    requires Inv(s) && Possible(step)
    ensures Inv(Next(s, step))
  {
    hide Inv, CommNext, AppNext;
    match step {
      case CommStep(i) => InvComm(s, i);
      case AppStep(resp) =>
        if Completing(s) {
          InvAppComplete(s, resp);
        } else if s.app.ACompleteClear? {
          InvAppClear(s, resp);
        } else {
          InvAppLoop(s, resp);
        }
      case ButtonStep => InvButton(s);
    }
  }

  /** The states that a schedule of steps leads through. */
  ghost predicate IsSegment(states: seq<State>, steps: seq<Step>)
  {
    && |states| == |steps| + 1
    && forall k :: 0 <= k < |steps| ==> Possible(steps[k]) && Fits(states[k]) && states[k + 1] == Next(states[k],
       steps[k])
  }

  /** A segment from the beginning. */
  ghost predicate IsRun(states: seq<State>, steps: seq<Step>)
  {
    IsSegment(states, steps) && states[0] == START
  }

  lemma {:induction false} RunInv(states: seq<State>, steps: seq<Step>, k: nat)
    requires IsRun(states, steps) && k < |states|
    ensures Inv(states[k])
  {
    hide Inv, Next;
    if k == 0 {
      InvStart();
    } else {
      RunInv(states, steps, k - 1);
      InvNext(states[k - 1], steps[k - 1]);
    }
  }

  /** Over every interleaving, the i-th dispatch returned exactly the bytes that were
      stored for the i-th command, and the command handled then was the one posted. */
  lemma EveryReplyMatches(states: seq<State>, steps: seq<Step>, k: nat, i: nat)
    requires IsRun(states, steps) && k < |states| && i < |states[k].returned|
    ensures i < |states[k].handled| && i < |states[k].posted|
    ensures states[k].handled[i].0 == states[k].posted[i] && states[k].returned[i] == states[k].handled[i].1
  {
    RunInv(states, steps, k);
  }

  /** What is stored for a command is the application's answer to the command it
      holds, cut to the mailbox. */
  lemma StoresAnswer(s: State, resp: Bytes)
    requires Inv(s)
    ensures var t := AppNext(s, resp);
            && (t.handled != s.handled ==> s.app.ACompleteClear? && t.handled == s.handled + [(s.app.cmd,
               Clamp(s.app.resp))])
            && (s.app.ADispatch? ==> t.app == ACompleteCheck(s.app.cmd, resp) && s.app.cmd == s.posted[|s.returned|])
            && (s.app.ACompleteCheck? ==> t.app == ACompleteClear(s.app.cmd, s.app.resp))
  {
  }

  /** No step of the communication task rewrites the command while the application
      holds it, nor the response while it is being read. */
  lemma BuffersStable(s: State, i: Input, resp: Bytes)
    requires Inv(s) && (i.Dispatch? ==> |i.cmd| <= CAPACITY)
    ensures Holding(s) ==> CommNext(s, i).command == s.command && CommNext(s, i).commandLength == s.commandLength
    ensures Answered(s) ==>
          AppNext(s, resp).response == s.response && AppNext(s, resp).responseLength == s.responseLength
  {
  }

  // ---- an application that answers by a function -------------------------------------------------------------

  /** What the application has taken up so far is answered by this function. */
  predicate AnswersBy(s: State, app: Bytes -> Bytes)
  {
    && (forall k :: 0 <= k < |s.handled| ==> s.handled[k].1 == Clamp(app(s.handled[k].0)))
    && (s.app.ACompleteCheck? || s.app.ACompleteClear? ==> s.app.resp == app(s.app.cmd))
  }

  lemma AnswersStep(s: State, step: Step, app: Bytes -> Bytes)
    requires Fits(s) && Possible(step) && AnswersBy(s, app)
    requires step.AppStep? && s.app.ADispatch? ==> step.resp == app(s.app.cmd)
    ensures AnswersBy(Next(s, step), app)
  {
  }

  lemma {:induction false} AnswersRun(states: seq<State>, steps: seq<Step>, app: Bytes -> Bytes, k: nat)
    requires IsRun(states, steps) && k < |states|
    requires forall i :: 0 <= i < |steps| && steps[i].AppStep? && states[i].app.ADispatch? ==>
          steps[i].resp == app(states[i].app.cmd)
    ensures AnswersBy(states[k], app)
  {
    hide Next;
    if k == 0 {
    } else {
      AnswersRun(states, steps, app, k - 1);
      AnswersStep(states[k - 1], steps[k - 1], app);
    }
  }

  /** With an application that answers by a function, every dispatch of every run
      returns that function's answer to its own command, cut to the mailbox. */
  lemma DispatchIsFunction(states: seq<State>, steps: seq<Step>, app: Bytes -> Bytes, k: nat, i: nat)
    requires IsRun(states, steps) && k < |states| && i < |states[k].returned|
    requires forall j :: 0 <= j < |steps| && steps[j].AppStep? && states[j].app.ADispatch? ==>
          steps[j].resp == app(states[j].app.cmd)
    ensures i < |states[k].posted| && states[k].returned[i] == Clamp(app(states[k].posted[i]))
  {
    hide Next;
    EveryReplyMatches(states, steps, k, i);
    AnswersRun(states, steps, app, k);
  }

  // ---- no lost wake-up ------------------------------------------------------------------------------------

  /** Steps the application still has to make before it notifies. */
  function Distance(a: AppPc): nat
  {
    match a
    case ANotify => 1
    case ACompleteLength(_) => 2
    case ACompleteCopy(_) => 3
    case ACompleteClear(_, _) => 4
    case ACompleteCheck(_, _) => 5
    case ADispatch(_) => 6
    case AGetCopy => 7
    case AGetValid => 8
    case AHasCommand => 9
    case AClearEvent(_) => 10
    case APoll => 11
    case ABlocked => 12
  }

  /** While a dispatch waits unanswered the application is never stuck: each of its
      steps brings the notification nearer, however the session's events have
      coalesced with the command's. */
  lemma WaitEnds(s: State, resp: Bytes)
    requires Inv(s) && s.comm.CWait? && s.commNotified == 0
    ensures AppNext(s, resp).comm == CWait
    ensures AppNext(s, resp).commNotified == 1 || Distance(AppNext(s, resp).app) < Distance(s.app)
  {
  }

  /** Twelve steps of the application are enough, whatever it answers. */
  lemma {:induction false} AnsweredWithin(s: State, resps: seq<Bytes>)
    requires Inv(s) && s.comm.CWait? && Distance(s.app) <= |resps|
    ensures exists k :: 0 <= k <= |resps| && After(s, resps[..k]).Some? && After(s, resps[..k]).value.commNotified == 1
    decreases |resps|
  {
    hide Inv, AppNext, Distance;
    CountOk(s);
    DistancePositive(s.app);
    if s.commNotified == 1 {
      assert resps[..0] == [];
    } else {
      WaitEnds(s, resps[0]);
      InvNext(s, AppStep(resps[0]));
      var t, rest := AppNext(s, resps[0]), resps[1..];
      CountOk(t);
      var k := 0;
      if t.commNotified == 1 {
        assert rest[..0] == [];
      } else {
        AnsweredWithin(t, rest);
        k :| 0 <= k <= |rest| && After(t, rest[..k]).Some? && After(t, rest[..k]).value.commNotified == 1;
      }
      assert resps[..k + 1][1..] == rest[..k];
      assert After(s, resps[..k + 1]) == After(t, rest[..k]);
    }
  }

  lemma CountOk(s: State)
    requires Inv(s)
    ensures s.commNotified <= 1 && Fits(s)
  {
  }

  lemma DistancePositive(a: AppPc)
    ensures Distance(a) > 0
  {
  }

  /** The application stepping alone. */
  function After(s: State, resps: seq<Bytes>): (t: Option<State>)
    decreases |resps|
  {
    if !Fits(s) then None
    else if |resps| == 0 then Some(s)
    else After(AppNext(s, resps[0]), resps[1..])
  }

  // ---- when a lifecycle event arrives ----------------------------------------------------------------------

  /** No further lifecycle event is written. */
  predicate Quiet(steps: seq<Step>)
  {
    forall k :: 0 <= k < |steps| ==> !(steps[k].CommStep? && steps[k].input.Lifecycle?)
  }

  /** Step k reads the event out of the mailbox. */
  predicate ReadsEvent(s: State, step: Step, event: CommEvent)
  {
    step.AppStep? && s.app.APoll? && s.event == event
  }

  ghost predicate Arrives(states: seq<State>, steps: seq<Step>, event: CommEvent)
    requires |states| == |steps| + 1
  {
    exists k :: 0 <= k < |steps| && ReadsEvent(states[k], steps[k], event)
  }

  function AppSteps(steps: seq<Step>): (n: nat)
  {
    if |steps| == 0 then 0 else (if steps[0].AppStep? then 1 else 0) + AppSteps(steps[1..])
  }

  /** The communication task moves at least once, and after its first move the
      application makes at least eleven steps. */
  predicate Fair(steps: seq<Step>)
  {
    |steps| > 0 && if steps[0].CommStep? then AppSteps(steps[1..]) >= 11 else Fair(steps[1..])
  }

  /** Steps of the application until it has read the event field. */
  function PollDistance(a: AppPc): (n: nat)
    ensures n <= 12
  {
    match a
    case APoll => 1
    case ABlocked => 2
    case ANotify => 3
    case ACompleteLength(_) => 4
    case ACompleteCopy(_) => 5
    case ACompleteClear(_, _) => 6
    case ACompleteCheck(_, _) => 7
    case ADispatch(_) => 8
    case AGetCopy => 9
    case AGetValid => 10
    case AHasCommand => 11
    case AClearEvent(_) => 12
  }

  /** The event lies in the field and the application is not about to clear it. */
  predicate Pending(s: State, event: CommEvent)
  {
    s.event == event && !s.app.AClearEvent?
  }

  /** And the application has been, or will be, woken. */
  predicate Woken(s: State, event: CommEvent)
  {
    Pending(s, event) && (s.appNotified > 0 || s.app.APoll?)
  }

  /** The event is gone, or goes with the next step of the application. */
  predicate Doomed(s: State, event: CommEvent)
  {
    s.event == NoEvent || (s.event == event && s.app.AClearEvent?)
  }

  lemma PendingStep(s: State, step: Step, event: CommEvent)
    requires Fits(s) && Possible(step) && Quiet([step]) && Pending(s, event) && !ReadsEvent(s, step, event)
    ensures Pending(Next(s, step), event)
    ensures Woken(s, event) ==> Woken(Next(s, step), event)
    ensures Woken(s, event) && step.AppStep? ==> PollDistance(Next(s, step).app) < PollDistance(s.app)
    ensures !step.AppStep? ==> Next(s, step).app == s.app
    ensures s.comm.CNotifyEvent? && step.CommStep? ==> Woken(Next(s, step), event)
    ensures s.comm.CNotifyEvent? && !step.CommStep? ==> Next(s, step).comm == CNotifyEvent
  {
    assert [step][0] == step;
  }

  lemma DoomedStep(s: State, step: Step, event: CommEvent)
    requires Fits(s) && Possible(step) && Quiet([step]) && Doomed(s, event) && event != NoEvent
    ensures Doomed(Next(s, step), event) && !ReadsEvent(s, step, event)
  {
    assert [step][0] == step;
  }

  /** A segment without its first step. */
  lemma SegmentTail(states: seq<State>, steps: seq<Step>, event: CommEvent)
    requires IsSegment(states, steps) && |steps| > 0
    ensures IsSegment(states[1..], steps[1..]) && states[1] == Next(states[0], steps[0])
    ensures Quiet(steps) ==> Quiet([steps[0]]) && Quiet(steps[1..])
    ensures Arrives(states, steps, event) <==> ReadsEvent(states[0], steps[0], event) || Arrives(states[1..],
        steps[1..], event)
  {
    hide Next;
    var ss, ts := states[1..], steps[1..];
    if k :| 0 <= k < |steps| && ReadsEvent(states[k], steps[k], event) {
      assert k > 0 ==> ReadsEvent(ss[k - 1], ts[k - 1], event);
    }
    if k :| 0 <= k < |ts| && ReadsEvent(ss[k], ts[k], event) {
      assert ReadsEvent(states[k + 1], steps[k + 1], event);
    }
  }

  lemma {:induction false} WokenArrives(states: seq<State>, steps: seq<Step>, event: CommEvent)
    requires IsSegment(states, steps) && Quiet(steps) && Woken(states[0], event)
    requires AppSteps(steps) >= PollDistance(states[0].app)
    ensures Arrives(states, steps, event)
    decreases |steps|
  {
    hide Next, Woken, Pending, Fits;
    NotArrivedYet(states[0], event);
    if |steps| == 0 {
      assert false;
    } else {
      SegmentTail(states, steps, event);
      if !ReadsEvent(states[0], steps[0], event) {
        PendingStep(states[0], steps[0], event);
        WokenArrives(states[1..], steps[1..], event);
      }
    }
  }

  lemma NotArrivedYet(s: State, event: CommEvent)
    requires Woken(s, event)
    ensures Pending(s, event) && PollDistance(s.app) > 0
  {
  }

  lemma {:induction false} PendingArrives(states: seq<State>, steps: seq<Step>, event: CommEvent)
    requires IsSegment(states, steps) && Quiet(steps) && Fair(steps)
    requires Pending(states[0], event) && states[0].comm.CNotifyEvent?
    ensures Arrives(states, steps, event)
    decreases |steps|
  {
    hide Next, Woken, Fits, AppSteps;
    SegmentTail(states, steps, event);
    if !ReadsEvent(states[0], steps[0], event) {
      PendingStep(states[0], steps[0], event);
      if steps[0].CommStep? {
        WokenArrives(states[1..], steps[1..], event);
      } else {
        PendingArrives(states[1..], steps[1..], event);
      }
    }
  }

  lemma {:induction false} DoomedNeverArrives(states: seq<State>, steps: seq<Step>, event: CommEvent)
    requires IsSegment(states, steps) && Quiet(steps) && Doomed(states[0], event) && event != NoEvent
    ensures !Arrives(states, steps, event)
    decreases |steps|
  {
    hide Next, Doomed, Fits;
    if |steps| == 0 {
    } else {
      SegmentTail(states, steps, event);
      DoomedStep(states[0], steps[0], event);
      DoomedNeverArrives(states[1..], steps[1..], event);
    }
  }

  /** A lifecycle event reaches the application if and only if the application is not,
      at the write, between its read and its clearing of the event field: for every
      fair schedule of what follows until the next event is written. */
  lemma EventArrivesExactly(s: State, event: CommEvent, states: seq<State>, steps: seq<Step>)
    requires Fits(s) && s.comm.CIdle? && event != NoEvent
    requires IsSegment(states, steps) && states[0] == CommNext(s, Lifecycle(event)) && Quiet(steps) && Fair(steps)
    ensures Arrives(states, steps, event) <==> !s.app.AClearEvent?
  {
    hide Next, Fair, AppSteps;
    if s.app.AClearEvent? {
      DoomedNeverArrives(states, steps, event);
    } else {
      PendingArrives(states, steps, event);
    }
  }

  /** A run that loses an event: a session starts, the application reads that, the
      session ends before the field is cleared, and the end is never seen. */
  lemma EventCanBeLost() returns (states: seq<State>, steps: seq<Step>)
    ensures IsRun(states, steps) && |steps| == 6 && steps[4] == CommStep(Lifecycle(SessionEnded))
    ensures states[4].app == AClearEvent(SessionStarted) && states[5].event == SessionEnded
    ensures states[6].event == NoEvent && states[6].app == AHasCommand
  {
    hide Zeros;
    var none: Bytes := [];
    steps := [CommStep(Lifecycle(SessionStarted)), CommStep(Nothing), AppStep(none), AppStep(none),
              CommStep(Lifecycle(SessionEnded)), AppStep(none)];
    InvStart();
    var s1 := Next(START, steps[0]);
    var s2 := Next(s1, steps[1]);
    var s3 := Next(s2, steps[2]);
    var s4 := Next(s3, steps[3]);
    var s5 := Next(s4, steps[4]);
    var s6 := Next(s5, steps[5]);
    states := [START, s1, s2, s3, s4, s5, s6];
  }

  // ---- the calls, each run to completion ---------------------------------------------------------------------

  /** What a dispatch leaves in the fields before it notifies. */
  function Posting(s: State, cmd: Bytes): State
    requires Fits(s) && |cmd| <= CAPACITY
  {
    s.(commandLength := |cmd|, command := Overwrite(s.command, cmd), valid := true)
  }

  /** What a completion leaves in the fields. */
  function Completed(s: State, resp: Bytes): State
    requires Fits(s)
  {
    s.(valid := false, response := Overwrite(s.response, Clamp(resp)), responseLength := |Clamp(resp)|,
       commNotified := s.commNotified + 1)
  }

  class CommMailbox {
    var commandValid: bool
    const command: array<u8>
    var commandLength: nat
    var pendingEvent: CommEvent
    const response: array<u8>
    var responseLength: nat
    var commNotified: nat

    ghost predicate Valid()
      reads this
    {
      command.Length == CAPACITY && response.Length == CAPACITY && command != response && commandLength <= CAPACITY
    }

    /** A state of the two tasks with these fields in it. */
    ghost function In(s: State): State
      reads this, command, response
    {
      s.(valid := commandValid, command := command[..], commandLength := commandLength, event := pendingEvent,
         response := response[..], responseLength := responseLength, commNotified := commNotified)
    }

    constructor ()
      ensures Valid() && fresh(command) && fresh(response)
      ensures In(START) == START
    {
      commandValid, commandLength, pendingEvent, responseLength, commNotified := false, 0, NoEvent, 0, 0;
      command := new u8[CAPACITY](_ => 0);
      response := new u8[CAPACITY](_ => 0);
      new;
      assert command[..] == Zeros(CAPACITY) && response[..] == Zeros(CAPACITY);
    }

    /** comm_module_poll_event: the event is handed out once. */
    method PollEvent() returns (event: CommEvent)
      modifies this`pendingEvent
      ensures event == old(pendingEvent)
      ensures forall s :: In(s) == old(In(s)).(event := NoEvent)
    {
      event := pendingEvent;
      pendingEvent := NoEvent;
    }

    /** The fields a dispatch fills before it notifies the application. */
    method Post(cmd: Bytes)
      requires Valid() && |cmd| <= CAPACITY
      modifies this`commandLength, this`commandValid, command
      ensures Valid()
      ensures forall s :: Fits(old(In(s))) ==> In(s) == Posting(old(In(s)), cmd)
    {
      commandLength := |cmd|;
      forall k | 0 <= k < |cmd| {
        command[k] := cmd[k];
      }
      commandValid := true;
      assert command[..] == Overwrite(old(command[..]), cmd);
    }

    /** comm_module_get_command into a buffer of the given capacity. */
    method GetCommand(capacity: nat) returns (cmd: Option<Bytes>)
      requires Valid()
      ensures cmd == if commandValid && commandLength <= capacity then Some(command[..commandLength]) else None
    {
      if !commandValid {
        return None;
      }
      if capacity < commandLength {
        return None;
      }
      return Some(command[..commandLength]);
    }

    /** comm_module_complete_response.  Nothing happens unless a command is pending.  A
        missing or empty response keeps the claimed length as it is. */
    method CompleteResponse(resp: Option<Bytes>, len: nat)
      requires Valid() && (resp.Some? ==> len <= |resp.value|)
      modifies this`commandValid, this`responseLength, this`commNotified, response
      ensures Valid()
      ensures !old(commandValid) ==> forall s :: In(s) == old(In(s))
      ensures old(commandValid) && resp.Some? ==>
                forall s :: Fits(old(In(s))) ==> In(s) == Completed(old(In(s)), resp.value[..len])
      ensures old(commandValid) && resp.None? ==>
                forall s :: In(s) == old(In(s)).(valid := false, responseLength := len,
                    commNotified := old(commNotified) + 1)
      ensures old(commandValid) ==> (responseLength <= CAPACITY <==> resp.Some? || len <= CAPACITY)
    {
      if !commandValid {
        return;
      }
      commandValid := false;
      var n := len;
      if resp.Some? && len > 0 {
        if n > CAPACITY {
          n := CAPACITY;
        }
        forall k | 0 <= k < n {
          response[k] := resp.value[k];
        }
      }
      responseLength := n;
      commNotified := commNotified + 1;
      assert resp.Some? ==> response[..] == Overwrite(old(response[..]), Clamp(resp.value[..len]));
    }

    /** The fields a dispatch reads after it was notified. */
    method Take() returns (reply: Bytes)
      requires Valid() && responseLength <= CAPACITY
      ensures forall s :: Fits(In(s)) && In(s).comm.CReadLength? ==>
                CommNext(CommNext(In(s), Nothing), Nothing).returned == In(s).returned + [reply]
    {
      reply := response[..responseLength];
    }
  }

  /** The three steps that fill the mailbox leave the fields as the call does. */
  lemma PostingSteps(s: State, cmd: Bytes)
    requires Fits(s) && s.comm.CIdle? && |cmd| <= CAPACITY
    ensures var t := CommNext(CommNext(CommNext(CommNext(s, Dispatch(cmd)), Nothing), Nothing), Nothing);
            t == Posting(s, cmd).(comm := CNotify, posted := s.posted + [cmd])
  {
  }

  /** The two steps that read an event do what the call does. */
  lemma PollingSteps(s: State)
    requires Fits(s) && s.app.APoll?
    ensures var t := AppNext(s, []);
            t.app == AClearEvent(s.event) && AppNext(t, []) == s.(event := NoEvent, app := AHasCommand)
  {
  }

  /** The five steps of a completion, taken together, leave the fields as the call does. */
  lemma CompletionSteps(s: State, r0: Bytes, r1: Bytes, r2: Bytes, r3: Bytes, r4: Bytes)
    requires Fits(s) && s.app.ACompleteCheck? && s.valid
    ensures After(s, [r0, r1, r2, r3, r4]) == Some(Completed(s, s.app.resp).(
              app := ABlocked, handled := s.handled + [(s.app.cmd, Clamp(s.app.resp))]))
  {
    hide Clamp, Overwrite;
    var none: seq<Bytes> := [];
    var l4, l3, l2, l1, l0 := [r4], [r3, r4], [r2, r3, r4], [r1, r2, r3, r4], [r0, r1, r2, r3, r4];
    assert l0[1..] == l1 && l1[1..] == l2 && l2[1..] == l3 && l3[1..] == l4 && l4[1..] == none;
    var s1 := AppNext(s, r0);
    var s2 := AppNext(s1, r1);
    var s3 := AppNext(s2, r2);
    var s4 := AppNext(s3, r3);
    var s5 := AppNext(s4, r4);
    assert After(s4, l4) == After(s5, none) == Some(s5);
    assert After(s2, l2) == After(s3, l3) == After(s4, l4);
    assert After(s, l0) == After(s1, l1) == After(s2, l2);
  }
}
