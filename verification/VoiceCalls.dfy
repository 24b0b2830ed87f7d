/**
 Call control (src/main/services/voice-call-service.ts): one active call driven by user actions, by
 signals from the peer and by events and replies of the sidecar, which may arrive in any order. Each
 event is one run-to-completion step. An activation is one `startCall` or `acceptCall`; `epoch`
 numbers them, and `pushes` are the states shown to the renderer.
 */
module VoiceCalls {
  import opened Wrappers

  datatype CallState = Ringing | Connecting | Connected | Ended

  datatype ActiveCall = ActiveCall(
    callId: string,
    remoteAddress: string,
    state: CallState,
    tunaSessionId: Option<string>,
    startedAt: Option<int>)

  datatype Incoming = Incoming(callId: string, remoteAddress: string, hasPubAddrs: bool)

  datatype Push = Push(epoch: nat, state: CallState)

  datatype State = State(
    activeCall: Option<ActiveCall>,
    incomingCall: Option<Incoming>,
    pendingTunaSessionId: Option<string>,
    epoch: nat,
    pushes: seq<Push>)

  datatype Event =
    | StartCall(callId: string, target: string)
    | SidecarStartFailed(callId: string)
    | Invite(callId: string, src: string, hasPubAddrs: bool)
    | AcceptCall(callId: string)
    | NoCallerPubAddrs(callId: string)
    | DeclineCall(callId: string)
    | RemoteAccept(callId: string, now: int)
    | RemoteDecline(callId: string)
    | RemoteEnd(callId: string)
    | EndCall
    | ToggleVideo
    | DialSucceeded(callId: string, sessionId: Option<string>, now: int)
    | DialExhausted(callId: string)
    | IncomingSession(sessionId: Option<string>, now: int)
    | SessionClosed(sessionId: Option<string>)
    | SidecarExited

  const IDLE := State(None, None, None, 0, [])

  /** JavaScript truthiness of an optional id. */
  predicate Truthy(id: Option<string>): (b: bool)
    ensures id == None || id == Some("") ==> !b
    ensures !b ==> id == None || id == Some("")
  {
    id.Some? && id.value != ""
  }

  predicate IsActive(s: State, callId: string) {
    s.activeCall.Some? && s.activeCall.value.callId == callId
  }

  // --- Steps ---

  /** `pushCallState` while a call is active. */
  function Pushed(s: State): State
    requires s.activeCall.Some?
  {
    s.(pushes := s.pushes + [Push(s.epoch, s.activeCall.value.state)])
  }

  function WithCall(s: State, c: ActiveCall): State {
    Pushed(s.(activeCall := Some(c)))
  }

  /** `endCallInternal`. */
  function EndInternal(s: State): State {
    if s.activeCall.None? then s
    else WithCall(s, s.activeCall.value.(state := Ended)).(activeCall := None)
  }

  function Connect(s: State, c: ActiveCall, sessionId: Option<string>, now: int): State {
    WithCall(s, c.(tunaSessionId := sessionId, state := Connected, startedAt := Some(now)))
  }

  function Activate(s: State, c: ActiveCall): State {
    WithCall(s.(epoch := s.epoch + 1), c)
  }

  function Step(s: State, e: Event): State {
    match e
    case StartCall(callId, target) =>
      if s.activeCall.Some? then s else Activate(s, ActiveCall(callId, target, Ringing, None, None))
    case SidecarStartFailed(_) => EndInternal(s)  // no check that the failing call is the active one
    case Invite(callId, src, hasPubAddrs) =>
      if s.activeCall.Some? then s else s.(incomingCall := Some(Incoming(callId, src, hasPubAddrs)))
    case AcceptCall(callId) =>
      if s.incomingCall.None? || s.incomingCall.value.callId != callId then s
      else Activate(s.(incomingCall := None), ActiveCall(callId, s.incomingCall.value.remoteAddress, Connecting, None, None))
    case NoCallerPubAddrs(_) => EndInternal(s)
    case DeclineCall(callId) =>
      if s.incomingCall.Some? && s.incomingCall.value.callId == callId then s.(incomingCall := None) else s
    case RemoteAccept(callId, now) =>
      if !IsActive(s, callId) then s else
        var c := s.activeCall.value;
        if Truthy(c.tunaSessionId) then WithCall(s, c.(state := Connected, startedAt := Some(now)))
        else WithCall(s, c.(state := Connecting))
    case RemoteDecline(callId) => if IsActive(s, callId) then EndInternal(s) else s
    case RemoteEnd(callId) => if IsActive(s, callId) then EndInternal(s) else s
    case EndCall => EndInternal(s)
    case ToggleVideo => if s.activeCall.Some? then Pushed(s) else s
    case DialSucceeded(callId, sessionId, now) =>
      if IsActive(s, callId) then Connect(s, s.activeCall.value, sessionId, now) else s
    case DialExhausted(callId) => if IsActive(s, callId) then EndInternal(s) else s
    case IncomingSession(sessionId, now) =>
      if s.activeCall.Some? && !Truthy(s.activeCall.value.tunaSessionId) then
        var c := s.activeCall.value;
        if c.state.Ringing? || c.state.Connecting? then Connect(s, c, sessionId, now)
        else s.(activeCall := Some(c.(tunaSessionId := sessionId)))
      else if s.activeCall.None? && s.incomingCall.Some? then s.(pendingTunaSessionId := sessionId)
      else s
    case SessionClosed(sessionId) =>
      if s.activeCall.Some? && s.activeCall.value.tunaSessionId == sessionId then EndInternal(s) else s
    case SidecarExited =>
      if s.activeCall.Some? && !s.activeCall.value.state.Ended? then EndInternal(s) else s
  }

  function Run(s: State, events: seq<Event>): State
    decreases |events|
  {
    if events == [] then s else Run(Step(s, events[0]), events[1..])
  }

  // --- Coherence of the active call ---

  /** Having a session, being connected and having started are one and the same. */
  predicate Coherent(s: State) {
    s.activeCall.Some? ==>
      var c := s.activeCall.value;
      && !c.state.Ended?
      && (Truthy(c.tunaSessionId) <==> c.state.Connected?)
      && (c.startedAt.Some? <==> c.state.Connected?)
  }

  /** Does this event link a session to the active call? Then the id that it brings. */
  function Links(s: State, e: Event): Option<Option<string>> {
    match e
    case DialSucceeded(callId, sessionId, _) => if IsActive(s, callId) then Some(sessionId) else None
    case IncomingSession(sessionId, _) =>
      if s.activeCall.Some? && !Truthy(s.activeCall.value.tunaSessionId) then Some(sessionId) else None
    case _ => None
  }

  /** A step keeps the call coherent exactly when a session it links comes with a non-empty id. */
  lemma StepCoherentIff(s: State, e: Event)
    requires Coherent(s)
    ensures Coherent(Step(s, e)) <==> (Links(s, e).Some? ==> Truthy(Links(s, e).value))
  {
  }

  /** The sidecar puts an id on every session it reports or dials. */
  predicate CarriesId(e: Event) {
    match e
    case DialSucceeded(_, sessionId, _) => Truthy(sessionId)
    case IncomingSession(sessionId, _) => Truthy(sessionId)
    case _ => true
  }

  predicate AllCarryIds(events: seq<Event>) {
    forall i :: 0 <= i < |events| ==> CarriesId(events[i])
  }

  // --- What the renderer sees ---

  function Rank(state: CallState): nat {
    match state
    case Ringing => 0
    case Connecting => 1
    case Connected => 2
    case Ended => 3
  }

  predicate NotAfter(p: Push, q: Push) {
    p.epoch < q.epoch || (p.epoch == q.epoch && Rank(p.state) <= Rank(q.state))
  }

  /** Pushes go forward: by activation, and within one activation by state; nothing follows its end. */
  predicate Forward(pushes: seq<Push>) {
    && (forall i, j :: 0 <= i < j < |pushes| ==> NotAfter(pushes[i], pushes[j]))
    && (forall i, j :: 0 <= i < j < |pushes| && pushes[i].state.Ended? ==> pushes[i].epoch < pushes[j].epoch)
  }

  /** Nothing shown of this activation is further along than this state, and it has not ended. */
  predicate Leads(pushes: seq<Push>, epoch: nat, state: CallState) {
    forall i :: 0 <= i < |pushes| && pushes[i].epoch == epoch ==>
      Rank(pushes[i].state) <= Rank(state) && !pushes[i].state.Ended?
  }

  predicate Ordered(pushes: seq<Push>, epoch: nat, current: Option<CallState>) {
    && Forward(pushes)
    && (forall i :: 0 <= i < |pushes| ==> pushes[i].epoch <= epoch)
    && (current.Some? ==> Leads(pushes, epoch, current.value))
  }

  function Current(s: State): Option<CallState> {
    if s.activeCall.Some? then Some(s.activeCall.value.state) else None
  }

  lemma PushKeepsOrdered(pushes: seq<Push>, epoch: nat, current: Option<CallState>, state: CallState)
    requires Ordered(pushes, epoch, current) && Leads(pushes, epoch, state)
    ensures Ordered(pushes + [Push(epoch, state)], epoch, if state.Ended? then None else Some(state))
  {
  }

  /** A step shows nothing, the start of a new activation, or one state of the current call, never an earlier one. */
  lemma StepShows(s: State, e: Event) returns (shown: Option<CallState>)
    requires Coherent(s)
    ensures var next := Step(s, e);
            && next.pushes == s.pushes + (if shown.None? then [] else [Push(next.epoch, shown.value)])
            && (shown.None? ==> next.epoch == s.epoch && Current(next) == Current(s))
            && (shown.Some? ==> Current(next) == if shown.value.Ended? then None else Some(shown.value))
            && (shown.Some? && next.epoch == s.epoch ==>
                  Current(s).Some? && Rank(Current(s).value) <= Rank(shown.value))
            && (next.epoch == s.epoch || (next.epoch == s.epoch + 1 && shown.Some?))
  {
    var next := Step(s, e);
    shown := if next.pushes == s.pushes then None else Some(next.pushes[|s.pushes|].state);
  }

  lemma StepKeepsOrdered(s: State, e: Event)
    requires Coherent(s) && Ordered(s.pushes, s.epoch, Current(s))
    ensures Ordered(Step(s, e).pushes, Step(s, e).epoch, Current(Step(s, e))) && s.pushes <= Step(s, e).pushes
  {
    var next := Step(s, e);
    var shown := StepShows(s, e);
    if shown.Some? && next.epoch != s.epoch {
      PushKeepsOrdered(s.pushes, next.epoch, None, shown.value);
    } else if shown.Some? {
      PushKeepsOrdered(s.pushes, s.epoch, Current(s), shown.value);
    }
  }

  predicate InOrder(s: State) {
    Coherent(s) && Ordered(s.pushes, s.epoch, Current(s))
  }

  /** A step keeps everything in order, and takes back nothing shown, exactly when a session it links has an id. */
  lemma StepInOrderIff(s: State, e: Event)
    requires InOrder(s)
    ensures s.pushes <= Step(s, e).pushes
    ensures InOrder(Step(s, e)) <==> (Links(s, e).Some? ==> Truthy(Links(s, e).value))
  {
    StepCoherentIff(s, e);
    StepKeepsOrdered(s, e);
  }

  lemma StepKeepsInOrder(s: State, e: Event)
    requires InOrder(s) && CarriesId(e)
    ensures InOrder(Step(s, e)) && s.pushes <= Step(s, e).pushes
  {
    StepInOrderIff(s, e);
  }

  /**
   Whichever of remote accept, incoming session and dial result comes first, over every run the call
   stays coherent and no activation is ever shown moving back.
   */
  lemma {:induction false} CallsMoveForward(s: State, events: seq<Event>)
    requires InOrder(s) && AllCarryIds(events)
    ensures InOrder(Run(s, events)) && s.pushes <= Run(s, events).pushes
    decreases |events|
  {
    if events != [] {
      assert CarriesId(events[0]);
      StepKeepsInOrder(s, events[0]);
      CallsMoveForward(Step(s, events[0]), events[1..]);
    }
  }

  /** Without an id the order breaks: a session reported without one connects the call, and the accept takes it back. */
  lemma MissingIdMovesBack(callId: string, target: string, t0: int, t1: int)
    ensures var connected := Step(Step(IDLE, StartCall(callId, target)), IncomingSession(None, t0));
            Coherent(Step(IDLE, StartCall(callId, target))) && !Coherent(connected)
            && !Forward(Step(connected, RemoteAccept(callId, t1)).pushes)
  {
    var connected := Step(Step(IDLE, StartCall(callId, target)), IncomingSession(None, t0));
    var pushes := Step(connected, RemoteAccept(callId, t1)).pushes;
    assert pushes[1] == Push(1, Connected) && pushes[2] == Push(1, Connecting);
    assert !NotAfter(pushes[1], pushes[2]);
  }

  // --- Late failures ---

  /** The two failures reported after an await name no call: they end whichever call is active by then. */
  predicate IsFailureOf(e: Event, callId: string) {
    e == SidecarStartFailed(callId) || e == NoCallerPubAddrs(callId)
  }

  /** Such a failure does what it should, end its own call or nothing, if and only if no other call is active. */
  lemma FailureEndsOnlyItsOwnIff(s: State, e: Event, callId: string)
    requires IsFailureOf(e, callId)
    ensures Step(s, e) == (if IsActive(s, callId) then EndInternal(s) else s)
       <==> s.activeCall.None? || IsActive(s, callId)
  {
  }

  /** Hanging up while the sidecar still starts, and calling again, is enough: the old failure ends the new call. */
  lemma LateFailureEndsNextCall(first: string, second: string, target: string, e: Event)
    requires first != second && IsFailureOf(e, first)
    ensures var next := Step(Step(Step(IDLE, StartCall(first, target)), EndCall), StartCall(second, target));
            IsActive(next, second) && Step(next, e).activeCall.None?
  {
  }

  /** The active call, if there is one, is shown ended and is gone; nothing else changes. */
  predicate Ends(before: State, after: State) {
    after == State(None, before.incomingCall, before.pendingTunaSessionId, before.epoch,
                   if before.activeCall.Some? then before.pushes + [Push(before.epoch, Ended)] else before.pushes)
  }

  /** A new activation begins with this call, shown in its first state. */
  predicate Begins(before: State, after: State, call: ActiveCall) {
    && after.activeCall == Some(call)
    && after.epoch == before.epoch + 1
    && after.pushes == before.pushes + [Push(after.epoch, call.state)]
    && after.pendingTunaSessionId == before.pendingTunaSessionId
  }

  /** The active call goes on as this one and is shown so; nothing else changes. */
  predicate GoesOnAs(before: State, after: State, call: ActiveCall) {
    after == State(Some(call), before.incomingCall, before.pendingTunaSessionId, before.epoch,
                   before.pushes + [Push(before.epoch, call.state)])
  }

  class VoiceCallService {
    var activeCall: Option<ActiveCall>
    var incomingCall: Option<Incoming>
    var pendingTunaSessionId: Option<string>
    var epoch: nat
    var pushes: seq<Push>

    function View(): State
      reads this
    {
      State(activeCall, incomingCall, pendingTunaSessionId, epoch, pushes)
    }

    /** The call is coherent, and what the renderer was shown goes forward. */
    predicate Valid()
      reads this
    {
      InOrder(View())
    }

    constructor ()
      ensures Valid() && View() == IDLE
    {
      activeCall, incomingCall, pendingTunaSessionId, epoch, pushes := None, None, None, 0, [];
    }

    method PushCallState()
      requires activeCall.Some?
      modifies this`pushes
      ensures View() == Pushed(old(View()))
    {
      pushes := pushes + [Push(epoch, activeCall.value.state)];
    }

    method EndCallInternal()
      modifies this
      ensures View() == EndInternal(old(View()))
    {
      if activeCall.Some? {
        activeCall := Some(activeCall.value.(state := Ended));
        PushCallState();
      }
      activeCall := None;
    }

    /** The synchronous part of `startCall`; it throws while another call is active. */
    method BeginCall(callId: string, target: string) returns (ok: bool)
      requires Valid()
      modifies this
      ensures Valid() && old(pushes) <= pushes && View() == Step(old(View()), Event.StartCall(callId, target))
      ensures ok <==> old(activeCall).None?
      ensures ok ==> Begins(old(View()), View(), ActiveCall(callId, target, Ringing, None, None))
      ensures ok ==> incomingCall == old(incomingCall)
      ensures !ok ==> View() == old(View())
    {
      StepKeepsInOrder(View(), Event.StartCall(callId, target));
      if activeCall.Some? {
        return false;
      }
      epoch := epoch + 1;
      activeCall := Some(ActiveCall(callId, target, Ringing, None, None));
      PushCallState();
      return true;
    }

    method OnSidecarStartFailed(callId: string)
      requires Valid()
      modifies this
      ensures Valid() && old(pushes) <= pushes && View() == Step(old(View()), SidecarStartFailed(callId))
      ensures Ends(old(View()), View())
    {
      StepKeepsInOrder(View(), SidecarStartFailed(callId));
      EndCallInternal();
    }

    /** `handleIncomingInvite`; a second call is declined at once. */
    method HandleIncomingInvite(callId: string, src: string, hasPubAddrs: bool) returns (declined: bool)
      requires Valid()
      modifies this
      ensures Valid() && pushes == old(pushes) && View() == Step(old(View()), Invite(callId, src, hasPubAddrs))
      ensures declined <==> old(activeCall).Some?
      ensures incomingCall == if declined then old(incomingCall) else Some(Incoming(callId, src, hasPubAddrs))
      ensures activeCall == old(activeCall)
    {
      StepKeepsInOrder(View(), Invite(callId, src, hasPubAddrs));
      if activeCall.Some? {
        return true;
      }
      incomingCall := Some(Incoming(callId, src, hasPubAddrs));
      return false;
    }

    /** The synchronous part of `acceptCall`; `dial` says whether the caller's addresses are known. */
    method AcceptIncoming(callId: string) returns (ok: bool, dial: bool)
      requires Valid()
      modifies this
      ensures Valid() && old(pushes) <= pushes && View() == Step(old(View()), Event.AcceptCall(callId))
      ensures ok <==> old(incomingCall).Some? && old(incomingCall).value.callId == callId
      ensures ok ==> (dial <==> old(incomingCall).value.hasPubAddrs)
      ensures ok ==> incomingCall.None?
      ensures ok ==>
                Begins(old(View()), View(), ActiveCall(callId, old(incomingCall).value.remoteAddress, Connecting, None, None))
      ensures !ok ==> View() == old(View())
    {
      StepKeepsInOrder(View(), Event.AcceptCall(callId));
      if incomingCall.None? || incomingCall.value.callId != callId {
        return false, false;
      }
      var incoming := incomingCall.value;
      epoch := epoch + 1;
      activeCall := Some(ActiveCall(callId, incoming.remoteAddress, Connecting, None, None));
      incomingCall := None;
      PushCallState();
      return true, incoming.hasPubAddrs;
    }

    method OnNoCallerPubAddrs(callId: string)
      requires Valid()
      modifies this
      ensures Valid() && old(pushes) <= pushes && View() == Step(old(View()), NoCallerPubAddrs(callId))
      ensures Ends(old(View()), View())
    {
      StepKeepsInOrder(View(), NoCallerPubAddrs(callId));
      EndCallInternal();
    }

    method DeclineIncoming(callId: string)
      requires Valid()
      modifies this
      ensures Valid() && pushes == old(pushes) && View() == Step(old(View()), Event.DeclineCall(callId))
      ensures incomingCall == if old(incomingCall).Some? && old(incomingCall).value.callId == callId then None
                              else old(incomingCall)
      ensures activeCall == old(activeCall)
    {
      StepKeepsInOrder(View(), Event.DeclineCall(callId));
      if incomingCall.Some? && incomingCall.value.callId == callId {
        incomingCall := None;
      }
    }

    method HandleRemoteAccept(callId: string, now: int)
      requires Valid()
      modifies this
      ensures Valid() && old(pushes) <= pushes && View() == Step(old(View()), RemoteAccept(callId, now))
      ensures old(activeCall).Some? && old(activeCall).value.callId == callId ==>
                var call := old(activeCall).value;
                GoesOnAs(old(View()), View(),
                         if call.state.Connected? then call.(startedAt := Some(now)) else call.(state := Connecting))
      ensures old(activeCall).None? || old(activeCall).value.callId != callId ==> View() == old(View())
    {
      StepKeepsInOrder(View(), RemoteAccept(callId, now));
      if activeCall.None? || activeCall.value.callId != callId {
        return;
      }
      if Truthy(activeCall.value.tunaSessionId) {
        activeCall := Some(activeCall.value.(state := Connected, startedAt := Some(now)));
      } else {
        activeCall := Some(activeCall.value.(state := Connecting));
      }
      PushCallState();
    }

    /** `handleRemoteDecline` and `handleRemoteEnd` alike; `hangup` names the session to hang up, if any. */
    method HandleRemoteEnd(callId: string) returns (hangup: Option<string>)
      requires Valid()
      modifies this
      ensures Valid() && old(pushes) <= pushes
      ensures View() == Step(old(View()), RemoteEnd(callId)) == Step(old(View()), RemoteDecline(callId))
      ensures hangup.Some? <==>
                old(activeCall).Some? && old(activeCall).value.callId == callId && old(activeCall).value.state.Connected?
      ensures hangup.Some? ==> hangup == old(activeCall).value.tunaSessionId
      ensures if old(activeCall).Some? && old(activeCall).value.callId == callId then Ends(old(View()), View())
              else View() == old(View())
    {
      StepKeepsInOrder(View(), RemoteEnd(callId));
      hangup := None;
      if activeCall.None? || activeCall.value.callId != callId {
        return;
      }
      if Truthy(activeCall.value.tunaSessionId) {
        hangup := activeCall.value.tunaSessionId;
      }
      EndCallInternal();
    }

    method EndActiveCall()
      requires Valid()
      modifies this
      ensures Valid() && old(pushes) <= pushes && View() == Step(old(View()), EndCall)
      ensures Ends(old(View()), View())
    {
      StepKeepsInOrder(View(), EndCall);
      if activeCall.Some? {
        EndCallInternal();
      }
    }

    method ToggleVideoShown()
      requires Valid()
      modifies this
      ensures Valid() && old(pushes) <= pushes && View() == Step(old(View()), ToggleVideo)
      ensures if old(activeCall).Some? then GoesOnAs(old(View()), View(), old(activeCall).value) else View() == old(View())
    {
      StepKeepsInOrder(View(), ToggleVideo);
      if activeCall.Some? {
        PushCallState();
      }
    }

    /** The continuation of a successful dial in `dialTuna`. */
    method OnDialSucceeded(callId: string, sessionId: Option<string>, now: int)
      requires Valid()
      modifies this
      ensures old(pushes) <= pushes && View() == Step(old(View()), DialSucceeded(callId, sessionId, now))
      ensures Valid() <==> ((old(activeCall).Some? && old(activeCall).value.callId == callId) ==> Truthy(sessionId))
      ensures old(activeCall).Some? && old(activeCall).value.callId == callId ==>
                GoesOnAs(old(View()), View(), old(activeCall).value.(tunaSessionId := sessionId, state := Connected,
                                                                     startedAt := Some(now)))
      ensures old(activeCall).None? || old(activeCall).value.callId != callId ==> View() == old(View())
    {
      StepInOrderIff(View(), DialSucceeded(callId, sessionId, now));
      if activeCall.Some? && activeCall.value.callId == callId {
        activeCall := Some(activeCall.value.(tunaSessionId := sessionId));
        activeCall := Some(activeCall.value.(state := Connected));
        activeCall := Some(activeCall.value.(startedAt := Some(now)));
        PushCallState();
      }
    }

    method OnDialExhausted(callId: string)
      requires Valid()
      modifies this
      ensures Valid() && old(pushes) <= pushes && View() == Step(old(View()), DialExhausted(callId))
      ensures if old(activeCall).Some? && old(activeCall).value.callId == callId then Ends(old(View()), View())
              else View() == old(View())
    {
      StepKeepsInOrder(View(), DialExhausted(callId));
      if activeCall.Some? && activeCall.value.callId == callId {
        EndCallInternal();
      }
    }

    /** The `incoming` event of the sidecar; a session beyond the first is rejected. */
    method OnIncomingSession(sessionId: Option<string>, now: int) returns (rejected: bool)
      requires Valid()
      modifies this
      ensures old(pushes) <= pushes && View() == Step(old(View()), IncomingSession(sessionId, now))
      ensures Valid() <==> (old(activeCall).Some? && !rejected ==> Truthy(sessionId))
      ensures rejected <==> old(activeCall).Some? && old(activeCall).value.state.Connected?
      ensures old(activeCall).Some? && !rejected ==>
                GoesOnAs(old(View()), View(), old(activeCall).value.(tunaSessionId := sessionId, state := Connected,
                                                                     startedAt := Some(now)))
      ensures rejected ==> View() == old(View())
      ensures old(activeCall).None? ==>
                View() == old(View()).(pendingTunaSessionId := if incomingCall.Some? then sessionId
                                                               else old(pendingTunaSessionId))
    {
      StepInOrderIff(View(), IncomingSession(sessionId, now));
      rejected := false;
      if activeCall.Some? && !Truthy(activeCall.value.tunaSessionId) {
        activeCall := Some(activeCall.value.(tunaSessionId := sessionId));
        if activeCall.value.state.Ringing? || activeCall.value.state.Connecting? {
          activeCall := Some(activeCall.value.(state := Connected, startedAt := Some(now)));
          PushCallState();
        }
      } else if activeCall.Some? {
        rejected := true;
      }
      if activeCall.None? && incomingCall.Some? {
        pendingTunaSessionId := sessionId;
      }
    }

    method OnSessionClosed(sessionId: Option<string>)
      requires Valid()
      modifies this
      ensures Valid() && old(pushes) <= pushes && View() == Step(old(View()), SessionClosed(sessionId))
      ensures if old(activeCall).Some? && old(activeCall).value.tunaSessionId == sessionId then Ends(old(View()), View())
              else View() == old(View())
    {
      StepKeepsInOrder(View(), SessionClosed(sessionId));
      if activeCall.Some? && activeCall.value.tunaSessionId == sessionId {
        EndCallInternal();
      }
    }

    method OnSidecarExit()
      requires Valid()
      modifies this
      ensures Valid() && old(pushes) <= pushes && View() == Step(old(View()), SidecarExited)
      ensures Ends(old(View()), View())
    {
      StepKeepsInOrder(View(), SidecarExited);
      if activeCall.Some? && !activeCall.value.state.Ended? {
        EndCallInternal();
      }
    }
  }
}
