/**
 Deduplication and burn-after-read of direct messages: delivery in `handleIncomingMessage` and the
 scheduler tick (src/main/services/chat-service.ts), over the message table
 (src/main/db/repositories/message-repository.ts). Burned rows stay in the table, hidden.
 */
module BurnAfterRead {
  import opened Wrappers

  datatype MessageId = MessageId(text: string)
  datatype SessionId = SessionId(text: string)

  datatype Row = Row(sessionId: SessionId, deleteAt: Option<int>, hidden: bool)

  datatype State = State(rows: map<MessageId, Row>, announced: set<MessageId>)

  datatype Event =
    | Deliver(id: MessageId, sessionId: SessionId, now: int, burnSeconds: Option<int>)
    | Tick(at: int)
    | DeleteSession(sessionId: SessionId)

  const EMPTY := State(map[], {})

  /** When a message received now should burn; a zero time counts as none. */
  function DeleteAt(now: int, burnSeconds: Option<int>): Option<int> {
    if burnSeconds.Some? && burnSeconds.value > 0 && now + burnSeconds.value * 1000 != 0
    then Some(now + burnSeconds.value * 1000) else None
  }

  predicate Due(row: Row, at: int) {
    row.deleteAt.Some? && row.deleteAt.value <= at
  }

  /** `findExpired`. */
  function Expired(rows: map<MessageId, Row>, at: int): set<MessageId> {
    set id | id in rows && Due(rows[id], at) && !rows[id].hidden
  }

  /** Some message of this session burns at this tick. */
  predicate LosesMessage(rows: map<MessageId, Row>, at: int, sessionId: SessionId) {
    exists id :: id in Expired(rows, at) && rows[id].sessionId == sessionId
  }

  /** The same messages stay, in their sessions, and those whose time has come are hidden. */
  predicate HidesExactlyDue(before: map<MessageId, Row>, after: map<MessageId, Row>, at: int) {
    && after.Keys == before.Keys
    && forall id :: id in after ==>
         && after[id].sessionId == before[id].sessionId && after[id].deleteAt == before[id].deleteAt
         && (after[id].hidden <==> before[id].hidden || (before[id].deleteAt.Some? && before[id].deleteAt.value <= at))
  }

  function Step(s: State, e: Event): State {
    match e
    case Deliver(id, sessionId, now, burnSeconds) =>
      if id in s.rows then s else s.(rows := s.rows[id := Row(sessionId, DeleteAt(now, burnSeconds), false)])
    case Tick(at) =>
      State(map id | id in s.rows :: s.rows[id].(hidden := s.rows[id].hidden || Due(s.rows[id], at)),
            s.announced + Expired(s.rows, at))
    case DeleteSession(sessionId) =>
      s.(rows := map id | id in s.rows && s.rows[id].sessionId != sessionId :: s.rows[id])
  }

  function Run(s: State, events: seq<Event>): State
    decreases |events|
  {
    if events == [] then s else Run(Step(s, events[0]), events[1..])
  }

  predicate NoDeletions(events: seq<Event>) {
    forall i :: 0 <= i < |events| ==> !events[i].DeleteSession?
  }

  /** No event deletes this session; others may be deleted. */
  predicate Spares(events: seq<Event>, sessionId: SessionId) {
    forall i :: 0 <= i < |events| ==> events[i] != DeleteSession(sessionId)
  }

  /** Some tick in the run comes at or after the time this row is due. */
  predicate TickedDue(row: Row, events: seq<Event>) {
    exists i :: 0 <= i < |events| && events[i].Tick? && Due(row, events[i].at)
  }

  lemma TickedDueStep(row: Row, events: seq<Event>)
    requires events != []
    ensures TickedDue(row, events) <==> (events[0].Tick? && Due(row, events[0].at)) || TickedDue(row, events[1..])
  {
  }

  /**
   The fate of a stored message over every run of deliveries, redeliveries, ticks and deletions of other
   sessions: its row stays, nothing about it changes, and it becomes hidden exactly when some tick comes
   at or after its `delete_at`. So it never burns early, never survives a due tick, and never comes back.
   */
  lemma {:induction false} HiddenExactlyWhenTickedDue(s: State, events: seq<Event>, id: MessageId)
    requires id in s.rows && Spares(events, s.rows[id].sessionId)
    ensures id in Run(s, events).rows
    ensures Run(s, events).rows[id] == s.rows[id].(hidden := s.rows[id].hidden || TickedDue(s.rows[id], events))
    decreases |events|
  {
    if events != [] {
      TickedDueStep(s.rows[id], events);
      var next := Step(s, events[0]);
      HiddenExactlyWhenTickedDue(next, events[1..], id);
      assert forall j :: 0 <= j < |events[1..]| && events[1..][j].Tick? ==>
          Due(next.rows[id], events[1..][j].at) == Due(s.rows[id], events[1..][j].at);
      assert TickedDue(next.rows[id], events[1..]) == TickedDue(s.rows[id], events[1..]);
    }
  }

  /** The first delivery decides: redelivering an id, with whatever burn time, changes nothing. */
  lemma FirstDeliveryWins(id: MessageId, sessionId: SessionId, now: int, burnSeconds: Option<int>, s: State,
                          events: seq<Event>)
    requires id !in s.rows && Spares(events, sessionId)
    ensures var t := Run(Step(s, Deliver(id, sessionId, now, burnSeconds)), events);
            id in t.rows && t.rows[id].sessionId == sessionId && t.rows[id].deleteAt == DeleteAt(now, burnSeconds)
    ensures var t := Run(Step(s, Deliver(id, sessionId, now, burnSeconds)), events);
            t.rows[id].hidden <==> TickedDue(Row(sessionId, DeleteAt(now, burnSeconds), false), events)
  {
    HiddenExactlyWhenTickedDue(Step(s, Deliver(id, sessionId, now, burnSeconds)), events, id);
  }

  /** From its first delivery on, a message is hidden exactly when some later tick comes `b` seconds or more after it. */
  lemma HiddenAfterItsTime(id: MessageId, sessionId: SessionId, now: int, b: int, s: State, events: seq<Event>)
    requires id !in s.rows && Spares(events, sessionId) && b > 0 && now + 1000 * b != 0
    ensures var t := Run(Step(s, Deliver(id, sessionId, now, Some(b))), events);
            && id in t.rows
            && (t.rows[id].hidden <==>
                  exists i :: 0 <= i < |events| && events[i].Tick? && events[i].at >= now + 1000 * b)
  {
    FirstDeliveryWins(id, sessionId, now, Some(b), s, events);
    var row := Row(sessionId, DeleteAt(now, Some(b)), false);
    assert forall i :: 0 <= i < |events| && events[i].Tick? ==> (Due(row, events[i].at) <==> events[i].at >= now + 1000 * b);
  }

  /** After a tick nothing visible is due. */
  lemma NothingDueStaysVisible(s: State, at: int)
    ensures Expired(Step(s, Tick(at)).rows, at) == {}
  {
  }

  // --- Announcements ---

  /** The ids this step announces as burned. */
  function Announces(s: State, e: Event): set<MessageId> {
    if e.Tick? then Expired(s.rows, e.at) else {}
  }

  ghost predicate AnnouncedAreHidden(s: State) {
    forall id :: id in s.announced <==> id in s.rows && s.rows[id].hidden
  }

  /** Every announcement is a first one. */
  lemma AnnouncesOnlyNew(s: State, e: Event)
    requires AnnouncedAreHidden(s) && !e.DeleteSession?
    ensures AnnouncedAreHidden(Step(s, e))
    ensures Announces(s, e) !! s.announced && Step(s, e).announced == s.announced + Announces(s, e)
  {
  }

  /** From an empty table, an id is announced, and then only once, exactly when its message is hidden. */
  lemma {:induction false} AnnouncedExactlyWhenHidden(s: State, events: seq<Event>)
    requires AnnouncedAreHidden(s) && NoDeletions(events)
    ensures AnnouncedAreHidden(Run(s, events)) && s.announced <= Run(s, events).announced
    decreases |events|
  {
    if events != [] {
      AnnouncesOnlyNew(s, events[0]);
      AnnouncedExactlyWhenHidden(Step(s, events[0]), events[1..]);
    }
  }

  /** A burned message stays hidden through a deletion and a redelivery if and only if another session was deleted. */
  lemma StaysHiddenIff(s: State, id: MessageId, deleted: SessionId, sessionId: SessionId, now: int,
                       burnSeconds: Option<int>)
    requires id in s.rows && s.rows[id].hidden
    ensures var t := Step(Step(s, DeleteSession(deleted)), Deliver(id, sessionId, now, burnSeconds));
            id in t.rows && (t.rows[id].hidden <==> s.rows[id].sessionId != deleted)
  {
  }

  predicate AlwaysHidden(s: State, id: MessageId, events: seq<Event>)
    decreases |events|
  {
    id in s.rows && s.rows[id].hidden && (events == [] || AlwaysHidden(Step(s, events[0]), id, events[1..]))
  }

  /** Over every run a burned message is there and hidden at every moment if and only if its session is never deleted. */
  lemma {:induction false} AlwaysHiddenIff(s: State, id: MessageId, events: seq<Event>)
    requires id in s.rows && s.rows[id].hidden
    ensures AlwaysHidden(s, id, events) <==> Spares(events, s.rows[id].sessionId)
    decreases |events|
  {
    if events != [] {
      var own, rest := s.rows[id].sessionId, events[1..];
      assert events == [events[0]] + rest;
      assert Spares(events, own) <==> events[0] != DeleteSession(own) && Spares(rest, own);
      if events[0] != DeleteSession(own) {
        AlwaysHiddenIff(Step(s, events[0]), id, rest);
      }
    }
  }

  lemma NewlyPushed(before: seq<MessageId>, after: seq<MessageId>)
    requires before <= after && forall i, j :: 0 <= i < j < |after| ==> after[i] != after[j]
    ensures forall id :: id in after[|before|..] <==> id in after && id !in before
  {
    assert after == before + after[|before|..];
  }

  class MessageStore {
    var rows: map<MessageId, Row>
    var pushed: seq<MessageId>  // ids pushed to the renderer as burned
    var previews: map<SessionId, string>
    ghost var announced: set<MessageId>

    ghost function View(): State
      reads this
    {
      State(rows, announced)
    }

    ghost predicate Valid()
      reads this
    {
      && AnnouncedAreHidden(View())
      && (forall id :: id in pushed <==> id in announced)
      && (forall i, j :: 0 <= i < j < |pushed| ==> pushed[i] != pushed[j])
    }

    constructor ()
      ensures Valid() && View() == EMPTY
    {
      rows, pushed, previews, announced := map[], [], map[], {};
    }

    /** Deduplication and insertion; the insert never meets an existing primary key. */
    method HandleIncoming(id: MessageId, sessionId: SessionId, now: int, burnSeconds: Option<int>, preview: string)
      returns (stored: bool)
      requires Valid()
      modifies this`rows, this`previews
      ensures Valid() && View() == Step(old(View()), Deliver(id, sessionId, now, burnSeconds))
      ensures stored <==> id !in old(rows)
      ensures !stored ==> rows == old(rows)
      ensures stored ==> rows - {id} == old(rows) && id in rows && rows[id].sessionId == sessionId && !rows[id].hidden
      ensures stored ==>
                rows[id].deleteAt == match burnSeconds
                                     case None => None
                                     case Some(b) => if b > 0 && now + 1000 * b != 0 then Some(now + 1000 * b) else None
      ensures previews == if stored then old(previews)[sessionId := preview] else old(previews)
    {
      if id in rows {
        return false;
      }
      var deleteAt: Option<int> := None;
      if burnSeconds.Some? && burnSeconds.value > 0 {
        deleteAt := Some(now + burnSeconds.value * 1000);
      }
      rows := rows[id := Row(sessionId, None, false)];
      if deleteAt.Some? && deleteAt.value != 0 {
        rows := rows[id := rows[id].(deleteAt := deleteAt)];
      }
      previews := previews[sessionId := preview];
      return true;
    }

    /** One firing of the burn scheduler: hide what is due, then blank the previews of the sessions affected. */
    method BurnTick(at: int)
      requires Valid()
      modifies this
      ensures Valid() && View() == Step(old(View()), Tick(at))
      ensures HidesExactlyDue(old(rows), rows, at)
      ensures old(pushed) <= pushed
      ensures forall id :: id in pushed[|old(pushed)|..] <==> id in rows && rows[id].hidden && !old(rows)[id].hidden
      ensures previews.Keys == old(previews).Keys
      ensures forall x :: x in previews ==> previews[x] == if LosesMessage(old(rows), at, x) then "" else old(previews)[x]
    {
      ghost var before := View();
      var affected := HideExpired(at);
      NewlyPushed(old(pushed), pushed);
      assert rows == Step(before, Tick(at)).rows;
      ClearPreviews(affected);
    }

    method HideExpired(at: int) returns (affected: set<SessionId>)
      requires Valid()
      modifies this`rows, this`pushed, this`announced
      ensures Valid() && View() == Step(old(View()), Tick(at))
      ensures old(pushed) <= pushed
      ensures forall x :: x in affected <==> LosesMessage(old(rows), at, x)
    {
      ghost var before := View();
      var expired := Expired(rows, at);
      ghost var burned := {};
      affected := {};
      while expired != {}
        invariant Valid() && old(pushed) <= pushed
        invariant burned !! expired && burned + expired == Expired(before.rows, at)
        invariant announced == before.announced + burned
        invariant rows.Keys == before.rows.Keys
        invariant forall id :: id in rows ==> rows[id] == before.rows[id].(hidden := before.rows[id].hidden || id in burned)
        invariant forall x :: x in affected <==> exists id :: id in burned && before.rows[id].sessionId == x
        decreases expired
      {
        var id :| id in expired;
        expired := expired - {id};
        rows := rows[id := rows[id].(hidden := true)];
        affected := affected + {rows[id].sessionId};
        pushed := pushed + [id];
        announced := announced + {id};
        burned := burned + {id};
      }
      assert rows == Step(before, Tick(at)).rows;
    }

    /** `updateLastMessage(sessionId, "", …)` for each of these sessions. */
    method ClearPreviews(affected: set<SessionId>)
      modifies this`previews
      ensures previews.Keys == old(previews).Keys
      ensures forall x :: x in previews ==> previews[x] == if x in affected then "" else old(previews)[x]
    {
      var todo := affected;
      while todo != {}
        invariant todo <= affected && previews.Keys == old(previews).Keys
        invariant forall x :: x in previews ==> previews[x] == if x in affected - todo then "" else old(previews)[x]
        decreases todo
      {
        var sessionId :| sessionId in todo;
        todo := todo - {sessionId};
        if sessionId in previews {
          previews := previews[sessionId := ""];
        }
      }
    }
  }
}
