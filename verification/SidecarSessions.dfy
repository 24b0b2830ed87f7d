/**
 The sidecar's table of call sessions (dchat-tuna/main.go). A session can be ended by its reader, its writer,
 a hangup, a rejection or the shutdown, in any order and several of them at once.
 */
module SidecarSessions {

  datatype Closing = Closing(id: string, reason: string)

  /** `registered` are all sessions ever entered in the table, `announced` the closings reported to the user. */
  datatype State = State(sessions: set<string>, registered: set<string>, announced: seq<Closing>)

  datatype Event = Register(id: string) | Close(id: string, reason: string)

  const STARTED := State({}, {}, [])

  function Step(s: State, e: Event): State {
    match e
    case Register(id) => s.(sessions := s.sessions + {id}, registered := s.registered + {id})
    case Close(id, reason) =>
      if id !in s.sessions then s else
        s.(sessions := s.sessions - {id}, announced := s.announced + [Closing(id, reason)])
  }

  function Run(s: State, events: seq<Event>): State
    decreases |events|
  {
    if events == [] then s else Run(Step(s, events[0]), events[1..])
  }

  /** Session ids are taken from the clock, in nanoseconds, and do not repeat. */
  predicate FreshIds(s: State, events: seq<Event>)
    decreases |events|
  {
    events == [] || (
      && (events[0].Register? ==> events[0].id !in s.registered)
      && FreshIds(Step(s, events[0]), events[1..]))
  }

  /** Every registered session is open or was announced closed, never both, and no closing is announced twice. */
  ghost predicate Accounted(s: State) {
    && (forall id :: id in s.registered <==> id in s.sessions || Announced(s, id))
    && (forall id <- s.sessions :: !Announced(s, id))
    && (forall i, j :: 0 <= i < j < |s.announced| ==> s.announced[i].id != s.announced[j].id)
  }

  ghost predicate Announced(s: State, id: string) {
    exists c <- s.announced :: c.id == id
  }

  lemma StepKeepsAccounts(s: State, e: Event)
    requires Accounted(s) && (e.Register? ==> e.id !in s.registered)
    ensures Accounted(Step(s, e))
  {
  }

  /** Over every run, however many parties close a session: one announcement for each closed session. */
  lemma {:induction false} AnnouncedExactlyOnce(s: State, events: seq<Event>)
    requires Accounted(s) && FreshIds(s, events)
    ensures Accounted(Run(s, events))
    decreases |events|
  {
    if events != [] {
      StepKeepsAccounts(s, events[0]);
      AnnouncedExactlyOnce(Step(s, events[0]), events[1..]);
    }
  }

  /** A closed session stays as it was announced first: later reasons, and closings of other sessions, change nothing. */
  lemma {:induction false} FirstReasonStays(s: State, events: seq<Event>, i: nat)
    requires Accounted(s) && FreshIds(s, events) && i < |s.announced|
    ensures var after := Run(s, events);
            && i < |after.announced| && after.announced[i] == s.announced[i]
            && s.announced[i].id !in after.sessions
    decreases |events|
  {
    assert s.announced[i] in s.announced;
    if events != [] {
      StepKeepsAccounts(s, events[0]);
      FirstReasonStays(Step(s, events[0]), events[1..], i);
    }
  }

  class SessionTable {
    var sessions: set<string>
    var announced: seq<Closing>
    ghost var registered: set<string>

    ghost function View(): State
      reads this
    {
      State(sessions, registered, announced)
    }

    constructor ()
      ensures View() == STARTED && Accounted(View())
    {
      sessions, announced, registered := {}, [], {};
    }

    method Add(id: string)
      requires Accounted(View()) && id !in registered
      modifies this
      ensures Accounted(View()) && View() == Step(old(View()), Register(id))
      ensures sessions == old(sessions) + {id} && registered == old(registered) + {id} && announced == old(announced)
    {
      StepKeepsAccounts(View(), Register(id));
      sessions, registered := sessions + {id}, registered + {id};
    }

    method CloseSession(id: string, reason: string)
      requires Accounted(View())
      modifies this
      ensures Accounted(View()) && View() == Step(old(View()), Close(id, reason))
      ensures sessions == old(sessions) - {id} && registered == old(registered)
      ensures announced == old(announced) + if id in old(sessions) then [Closing(id, reason)] else []
    {
      StepKeepsAccounts(View(), Close(id, reason));
      if id !in sessions {
        return;
      }
      sessions := sessions - {id};
      announced := announced + [Closing(id, reason)];
    }

    /** Closes whatever is still open, in the map's own order. */
    method Shutdown()
      requires Accounted(View())
      modifies this
      ensures Accounted(View()) && sessions == {} && registered == old(registered)
      ensures old(announced) <= announced
      ensures forall i :: |old(announced)| <= i < |announced| ==>
                announced[i].reason == "shutdown" && announced[i].id in old(sessions)
      ensures forall id <- registered :: Announced(View(), id)
    {
      while sessions != {}
        invariant Accounted(View()) && registered == old(registered) && old(announced) <= announced
        invariant sessions <= old(sessions)
        invariant forall i :: |old(announced)| <= i < |announced| ==>
                    announced[i].reason == "shutdown" && announced[i].id in old(sessions)
        decreases |sessions|
      {
        var id :| id in sessions;
        CloseSession(id, "shutdown");
      }
    }
  }
}
