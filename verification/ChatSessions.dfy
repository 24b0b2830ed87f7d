/**
 Direct-chat sessions and the messages that reference them: the startup merge of legacy sessions and
 the lookup that creates a session (src/main/services/chat-service.ts), over the two tables
 (src/main/db/repositories/session-repository.ts, message-repository.ts). Foreign keys are enforced
 at once, and deleting a session deletes its messages.
 */
module ChatSessions {
  import opened Wrappers

  /** A session id is either `direct:` followed by an address, or some other text. */
  datatype SessionId = DirectId(target: string) | OtherId(text: string)

  datatype MessageId = MessageId(text: string)

  datatype Kind = Direct | Topic | PrivateGroup

  datatype Session = Session(
    kind: Kind,
    target: string,
    name: string,
    lastContent: string,
    lastAt: int,
    unread: int,
    muted: bool,
    createdAt: int)

  datatype Message = Message(sessionId: SessionId, body: string)

  datatype Store = Store(sessions: map<SessionId, Session>, messages: map<MessageId, Message>)

  // --- The statements the repositories run ---

  /** `upsert`: a new row starts unmuted; an existing one keeps its kind, target, mute and creation time. */
  function UpsertSession(st: Store, id: SessionId, s: Session): Store {
    if id in st.sessions then
      st.(sessions := st.sessions[id := st.sessions[id].(name := s.name, lastContent := s.lastContent,
                                                         lastAt := s.lastAt, unread := s.unread)])
    else st.(sessions := st.sessions[id := s.(muted := false)])
  }

  predicate HasMessages(st: Store, id: SessionId) {
    exists m :: m in st.messages && st.messages[m].sessionId == id
  }

  /** `UPDATE message SET session_id`: refused when a moved row would reference a missing session. */
  function MoveMessages(st: Store, from: SessionId, to: SessionId): Option<Store> {
    if HasMessages(st, from) && to !in st.sessions then None
    else Some(st.(messages := map m | m in st.messages ::
      if st.messages[m].sessionId == from then st.messages[m].(sessionId := to) else st.messages[m]))
  }

  /** `DELETE FROM session`, with the cascade. */
  function DeleteSession(st: Store, id: SessionId): Store {
    Store(st.sessions - {id}, map m | m in st.messages && st.messages[m].sessionId != id :: st.messages[m])
  }

  ghost predicate ForeignKeysHold(st: Store) {
    forall m :: m in st.messages ==> st.messages[m].sessionId in st.sessions
  }

  /** An id of the form `direct:T` is only ever used for the direct session of `T`. */
  ghost predicate DirectIdsWellFormed(st: Store) {
    forall id :: id in st.sessions && id.DirectId? ==> IsDirectOf(st, id, id.target)
  }

  predicate IsDirectOf(st: Store, id: SessionId, target: string) {
    id in st.sessions && st.sessions[id].kind.Direct? && st.sessions[id].target == target
  }

  function DirectTargets(st: Store): set<string> {
    set id | id in st.sessions && st.sessions[id].kind.Direct? :: st.sessions[id].target
  }

  // --- What consolidation achieves ---

  /** Is this one of the sessions that consolidating the given targets replaces? */
  predicate Affected(st: Store, id: SessionId, targets: set<string>) {
    id in st.sessions && st.sessions[id].kind.Direct? && st.sessions[id].target in targets
  }

  /** Where a session's messages belong once the given targets are consolidated. */
  function Home(st: Store, id: SessionId, targets: set<string>): SessionId {
    if Affected(st, id, targets) then DirectId(st.sessions[id].target) else id
  }

  /** A new `direct:T` row copies one of the most recently used sessions of `T`, unmuted. */
  ghost predicate CopiesLatest(st: Store, s: Session, target: string) {
    exists best ::
      && IsDirectOf(st, best, target)
      && s == st.sessions[best].(muted := false)
      && forall id :: IsDirectOf(st, id, target) ==> st.sessions[id].lastAt <= s.lastAt
  }

  ghost predicate Consolidated(before: Store, after: Store, targets: set<string>) {
    && after.messages.Keys == before.messages.Keys
    && (forall m :: m in before.messages ==>
          after.messages[m] == before.messages[m].(sessionId := Home(before, before.messages[m].sessionId, targets)))
    && (forall id :: id in after.sessions <==>
          (id in before.sessions && !Affected(before, id, targets)) || (id.DirectId? && id.target in targets))
    && (forall id :: id in after.sessions && id in before.sessions ==> after.sessions[id] == before.sessions[id])
    && (forall id :: id in after.sessions && id !in before.sessions ==>
          id.DirectId? && CopiesLatest(before, after.sessions[id], id.target))
  }

  lemma MessagesGoHome(a: Store, b: Store, c: Store, targets: set<string>, target: string)
    requires DirectIdsWellFormed(a)
    requires Consolidated(a, b, targets) && Consolidated(b, c, {target})
    requires target !in targets && target in DirectTargets(a)
    ensures forall m :: m in a.messages ==>
              c.messages[m] == a.messages[m].(sessionId := Home(a, a.messages[m].sessionId, targets + {target}))
  {
    forall m | m in a.messages
      ensures c.messages[m] == a.messages[m].(sessionId := Home(a, a.messages[m].sessionId, targets + {target}))
    {
      assert b.messages[m] == a.messages[m].(sessionId := Home(a, a.messages[m].sessionId, targets));
    }
  }

  lemma NewSessionsCopyLatest(a: Store, b: Store, c: Store, targets: set<string>, target: string)
    requires DirectIdsWellFormed(a)
    requires Consolidated(a, b, targets) && Consolidated(b, c, {target})
    requires target !in targets
    ensures forall id :: id in c.sessions && id !in a.sessions ==> id.DirectId? && CopiesLatest(a, c.sessions[id], id.target)
  {
    assert forall id :: IsDirectOf(a, id, target) <==> IsDirectOf(b, id, target);
    forall id | id in c.sessions && id !in a.sessions
      ensures id.DirectId? && CopiesLatest(a, c.sessions[id], id.target)
    {
      if id in b.sessions {
        assert c.sessions[id] == b.sessions[id];
      } else {
        assert id.target == target && CopiesLatest(b, c.sessions[id], target);
      }
    }
  }

  /** Consolidating some targets and then one more consolidates them all. */
  lemma ConsolidateOneMore(a: Store, b: Store, c: Store, targets: set<string>, target: string)
    requires DirectIdsWellFormed(a)
    requires Consolidated(a, b, targets) && Consolidated(b, c, {target})
    requires target !in targets && target in DirectTargets(a) && targets <= DirectTargets(a)
    ensures Consolidated(a, c, targets + {target})
  {
    MessagesGoHome(a, b, c, targets, target);
    NewSessionsCopyLatest(a, b, c, targets, target);
  }

  /**
   No message is lost or altered beyond its session, every reference still resolves, and ids stay
   well formed, although sessions are deleted with a cascade along the way.
   */
  lemma ConsolidationLosesNothing(before: Store, after: Store)
    requires ForeignKeysHold(before) && DirectIdsWellFormed(before)
    requires Consolidated(before, after, DirectTargets(before))
    ensures ForeignKeysHold(after) && DirectIdsWellFormed(after)
    ensures after.messages.Keys == before.messages.Keys
    ensures forall m :: m in before.messages ==> after.messages[m].body == before.messages[m].body
  {
  }

  /** Each direct target ends with the single session `direct:T`, which holds all messages of all its sessions. */
  lemma OneSessionPerTarget(before: Store, after: Store, target: string)
    requires ForeignKeysHold(before) && DirectIdsWellFormed(before)
    requires Consolidated(before, after, DirectTargets(before))
    requires target in DirectTargets(before)
    ensures forall id :: IsDirectOf(after, id, target) <==> id == DirectId(target)
    ensures forall m :: m in before.messages ==>
              (after.messages[m].sessionId == DirectId(target) <==> IsDirectOf(before, before.messages[m].sessionId, target))
  {
    forall id
      ensures IsDirectOf(after, id, target) <==> id == DirectId(target)
    {
      if id in after.sessions && id !in before.sessions {
        assert CopiesLatest(before, after.sessions[id], id.target);
      }
    }
  }

  /** Topic and group sessions, and their messages, are left exactly as they were. */
  lemma OtherSessionsUntouched(before: Store, after: Store, id: SessionId)
    requires ForeignKeysHold(before) && DirectIdsWellFormed(before)
    requires Consolidated(before, after, DirectTargets(before))
    requires id in before.sessions && !before.sessions[id].kind.Direct?
    ensures id in after.sessions && after.sessions[id] == before.sessions[id]
    ensures forall m :: m in before.messages && before.messages[m].sessionId == id ==>
              after.messages[m] == before.messages[m]
  {
  }

  lemma OnlyCanonicalLeft(before: Store, after: Store)
    requires ForeignKeysHold(before) && DirectIdsWellFormed(before)
    requires Consolidated(before, after, DirectTargets(before))
    ensures forall id :: id in after.sessions && after.sessions[id].kind.Direct? ==>
              id == DirectId(after.sessions[id].target)
  {
  }

  lemma CanonicalIsSettled(st: Store, after: Store)
    requires ForeignKeysHold(st)
    requires forall id :: id in st.sessions && st.sessions[id].kind.Direct? ==> id == DirectId(st.sessions[id].target)
    requires Consolidated(st, after, DirectTargets(st))
    ensures after == st
  {
  }

  /** A second consolidation changes nothing. */
  lemma RerunChangesNothing(before: Store, once: Store, twice: Store)
    requires ForeignKeysHold(before) && DirectIdsWellFormed(before)
    requires Consolidated(before, once, DirectTargets(before))
    requires Consolidated(once, twice, DirectTargets(once))
    ensures twice == once
  {
    OnlyCanonicalLeft(before, once);
    ConsolidationLosesNothing(before, once);
    CanonicalIsSettled(once, twice);
  }

  // --- The same, row by row ---

  /** A message of a direct session belongs to `direct:` and that session's target, any other stays. */
  function Rehomed(sessions: map<SessionId, Session>, m: Message): Message {
    if m.sessionId in sessions && sessions[m.sessionId].kind.Direct?
    then Message(DirectId(sessions[m.sessionId].target), m.body) else m
  }

  /** The sessions left: topics and groups, and `direct:T` for every target some direct session has. */
  predicate IsHome(sessions: map<SessionId, Session>, id: SessionId) {
    || (id in sessions && !sessions[id].kind.Direct?)
    || exists x :: x in sessions && sessions[x].kind.Direct? && id == DirectId(sessions[x].target)
  }

  /** A new `direct:T` row is an unmuted copy of a session of `T` that none of `T` is more recent than. */
  predicate IsLatestCopy(sessions: map<SessionId, Session>, id: SessionId, row: Session) {
    && id.DirectId?
    && (exists x :: x in sessions && sessions[x].kind.Direct? && sessions[x].target == id.target
          && row == sessions[x].(muted := false))
    && (forall x :: x in sessions && sessions[x].kind.Direct? && sessions[x].target == id.target ==>
          sessions[x].lastAt <= row.lastAt)
  }

  lemma ConsolidatedMeans(before: Store, after: Store)
    requires DirectIdsWellFormed(before) && Consolidated(before, after, DirectTargets(before))
    ensures after.messages.Keys == before.messages.Keys
    ensures forall m :: m in after.messages ==> after.messages[m] == Rehomed(before.sessions, before.messages[m])
    ensures forall id :: id in after.sessions <==> IsHome(before.sessions, id)
    ensures forall id :: id in after.sessions && id in before.sessions ==> after.sessions[id] == before.sessions[id]
    ensures forall id :: id in after.sessions && id !in before.sessions ==>
              IsLatestCopy(before.sessions, id, after.sessions[id])
  {
    forall id | id in after.sessions && id !in before.sessions
      ensures IsLatestCopy(before.sessions, id, after.sessions[id])
    {
      var best :| IsDirectOf(before, best, id.target) && after.sessions[id] == before.sessions[best].(muted := false)
        && forall x :: IsDirectOf(before, x, id.target) ==> before.sessions[x].lastAt <= after.sessions[id].lastAt;
      assert best in before.sessions && before.sessions[best].kind.Direct?;
      assert forall x :: x in before.sessions && before.sessions[x].kind.Direct? && before.sessions[x].target == id.target ==>
          IsDirectOf(before, x, id.target);
    }
  }

  // --- Looking a session up ---

  /** Which row `findByTargetAddress` may return. */
  predicate MayFind(st: Store, target: string, found: Option<SessionId>) {
    match found
    case Some(id) => id in st.sessions && st.sessions[id].target == target
    case None => forall id :: id in st.sessions ==> st.sessions[id].target != target
  }

  /**
   The lookup moves messages to `direct:T` before that row exists. So it is refused exactly when the
   canonical row is missing and the session it found still has messages.
   */
  predicate LookupRefused(st: Store, target: string, found: Option<SessionId>) {
    DirectId(target) !in st.sessions && found.Some? && HasMessages(st, found.value)
  }

  /** After consolidation the lookup is never refused, unless a topic or group session carries the address as its target. */
  lemma ConsolidationMakesLookupSafe(before: Store, after: Store, target: string, found: Option<SessionId>)
    requires ForeignKeysHold(before) && DirectIdsWellFormed(before)
    requires Consolidated(before, after, DirectTargets(before))
    requires MayFind(after, target, found)
    requires forall id :: id in before.sessions && before.sessions[id].target == target ==> before.sessions[id].kind.Direct?
    ensures !LookupRefused(after, target, found)
  {
  }

  /** Without it, one legacy session with one message is enough for the lookup to be refused. */
  lemma LegacySessionBlocksLookup(target: string, legacy: SessionId, s: Session, m: MessageId, body: string)
    requires s.kind.Direct? && s.target == target && legacy != DirectId(target)
    ensures var st := Store(map[legacy := s], map[m := Message(legacy, body)]);
            ForeignKeysHold(st) && MayFind(st, target, Some(legacy)) && LookupRefused(st, target, Some(legacy))
  {
    var st := Store(map[legacy := s], map[m := Message(legacy, body)]);
    assert m in st.messages && st.messages[m].sessionId == legacy;
  }

  // --- The service ---

  datatype SessionRow = SessionRow(id: SessionId, session: Session)

  /** Merging the listed sessions into `to`: their messages move and their rows go. */
  ghost predicate Drained(before: Store, after: Store, legacy: set<SessionId>, to: SessionId) {
    && after.sessions == before.sessions - legacy
    && after.messages.Keys == before.messages.Keys
    && (forall m :: m in before.messages ==>
          after.messages[m] == if before.messages[m].sessionId in legacy then before.messages[m].(sessionId := to)
                               else before.messages[m])
  }

  lemma DrainOneMore(before: Store, st: Store, legacy: set<SessionId>, id: SessionId, to: SessionId)
    requires Drained(before, st, legacy, to) && to in before.sessions && to !in legacy && id != to && id !in legacy
    ensures MoveMessages(st, id, to).Some?
    ensures Drained(before, DeleteSession(MoveMessages(st, id, to).value, id), legacy + {id}, to)
  {
  }

  /** Creating the canonical row if needed and draining the other sessions of the target consolidates it. */
  lemma DrainingConsolidates(before: Store, canonical: Store, after: Store, target: string, legacy: set<SessionId>)
    requires DirectIdsWellFormed(before) && target in DirectTargets(before)
    requires forall id :: id in legacy <==> IsDirectOf(before, id, target) && id != DirectId(target)
    requires canonical.messages == before.messages
    requires if DirectId(target) in before.sessions then canonical == before else
               && DirectId(target) in canonical.sessions
               && canonical.sessions == before.sessions[DirectId(target) := canonical.sessions[DirectId(target)]]
               && CopiesLatest(before, canonical.sessions[DirectId(target)], target)
    requires Drained(canonical, after, legacy, DirectId(target))
    ensures Consolidated(before, after, {target})
  {
    forall m | m in before.messages
      ensures after.messages[m] == before.messages[m].(sessionId := Home(before, before.messages[m].sessionId, {target}))
    {
      var sid := before.messages[m].sessionId;
      assert Affected(before, sid, {target}) <==> IsDirectOf(before, sid, target);
    }
  }

  class ChatService {
    var sessions: map<SessionId, Session>
    var messages: map<MessageId, Message>

    function View(): Store
      reads this
    {
      Store(sessions, messages)
    }

    constructor (st: Store)
      ensures View() == st
    {
      sessions, messages := st.sessions, st.messages;
    }

    /**
     `updateSessionId`; the statement fails and changes nothing when the foreign key would break. Otherwise the
     old session is left without messages, and no message is lost.
     */
    method UpdateSessionId(from: SessionId, to: SessionId) returns (ok: bool)
      modifies this`messages
      ensures ok <==> to in sessions || forall m :: m in old(messages) ==> old(messages)[m].sessionId != from
      ensures messages.Keys == old(messages).Keys
      ensures ok ==> forall m :: m in messages ==>
                messages[m] == if old(messages)[m].sessionId == from then old(messages)[m].(sessionId := to)
                               else old(messages)[m]
      ensures !ok ==> messages == old(messages)
      ensures View() == if ok then MoveMessages(old(View()), from, to).value else old(View())
      ensures ok && from != to ==> !HasMessages(View(), from)
      ensures ForeignKeysHold(old(View())) ==> ForeignKeysHold(View())
    {
      ok := to in sessions || !HasMessages(View(), from);
      if ok {
        messages := map m | m in messages ::
          if messages[m].sessionId == from then messages[m].(sessionId := to) else messages[m];
      }
    }

    /** `deleteById`: the cascade takes the session's messages along, and no others. */
    method DeleteById(id: SessionId)
      modifies this
      ensures View() == DeleteSession(old(View()), id)
      ensures sessions == old(sessions) - {id} && messages.Keys <= old(messages).Keys
      ensures !HasMessages(View(), id)
      ensures forall m :: m in old(messages) && old(messages)[m].sessionId != id ==>
                m in messages && messages[m] == old(messages)[m]
      ensures ForeignKeysHold(old(View())) ==> ForeignKeysHold(View())
    {
      sessions := sessions - {id};
      messages := map m | m in messages && messages[m].sessionId != id :: messages[m];
    }

    /** `upsert`: a repeated insert never turns a session into another one's, and frees or creates no reference. */
    method Upsert(id: SessionId, s: Session)
      modifies this`sessions
      ensures View() == UpsertSession(old(View()), id, s)
      ensures id in old(sessions) ==>
                var was, row := old(sessions)[id], sessions[id];
                && row.kind == was.kind && row.target == was.target && row.muted == was.muted
                && row.createdAt == was.createdAt && row.lastAt == s.lastAt && row.unread == s.unread
                && row.name == s.name && row.lastContent == s.lastContent
      ensures id !in old(sessions) ==> sessions[id] == s.(muted := false)
      ensures sessions - {id} == old(sessions) - {id} && id in sessions
      ensures ForeignKeysHold(old(View())) ==> ForeignKeysHold(View())
      ensures DirectIdsWellFormed(old(View())) && (id.DirectId? ==> s.kind.Direct? && s.target == id.target) ==>
                DirectIdsWellFormed(View())
    {
      if id in sessions {
        var row := sessions[id];
        sessions := sessions[id := row.(name := s.name, lastContent := s.lastContent, lastAt := s.lastAt, unread := s.unread)];
      } else {
        sessions := sessions[id := s.(muted := false)];
      }
    }

    /** `findAll`: every session row once, the most recently used first; ties in any order. */
    method FindAll() returns (rows: seq<SessionRow>)
      ensures RowsOf(rows, View()) && LatestFirst(rows)
    {
      rows := [];
      var todo := sessions.Keys;
      while todo != {}
        invariant Collected(rows, View(), todo)
        decreases todo
      {
        var id := NextLatest(todo);
        CollectOneMore(rows, View(), todo, id);
        todo := todo - {id};
        rows := rows + [SessionRow(id, sessions[id])];
      }
    }

    method NextLatest(ids: set<SessionId>) returns (id: SessionId)
      requires ids != {} && ids <= sessions.Keys
      ensures id in ids && forall x :: x in ids ==> sessions[x].lastAt <= sessions[id].lastAt
    {
      id :| id in ids;
      var todo := ids - {id};
      while todo != {}
        invariant id in ids && todo <= ids
        invariant forall x :: x in ids && x !in todo ==> sessions[x].lastAt <= sessions[id].lastAt
        decreases todo
      {
        var x :| x in todo;
        todo := todo - {x};
        if sessions[id].lastAt < sessions[x].lastAt {
          id := x;
        }
      }
    }

    /** The body of the loop over targets: `group` are the sessions of one target. */
    method ConsolidateTarget(target: string, group: seq<SessionRow>) returns (ok: bool)
      requires DirectIdsWellFormed(View()) && group != []
      requires forall i :: 0 <= i < |group| ==>
                 IsDirectOf(View(), group[i].id, target) && group[i].session == sessions[group[i].id]
      requires forall id :: IsDirectOf(View(), id, target) ==> SessionRow(id, sessions[id]) in group
      requires forall i, j :: 0 <= i < j < |group| ==> group[i].id != group[j].id
      modifies this
      ensures ok && Consolidated(old(View()), View(), {target})
    {
      var canonicalId := DirectId(target);
      ghost var before := View();
      if canonicalId !in sessions {
        var best := Latest(group);
        Upsert(canonicalId, best.session);
      }
      ghost var canonical := View();
      ghost var legacy := {};
      for i := 0 to |group|
        invariant Drained(canonical, View(), legacy, canonicalId)
        invariant forall id :: id in legacy <==> id != canonicalId && exists j :: 0 <= j < i && group[j].id == id
      {
        if group[i].id != canonicalId {
          DrainOneMore(canonical, View(), legacy, group[i].id, canonicalId);
          ok := UpdateSessionId(group[i].id, canonicalId);
          if !ok {
            return;
          }
          DeleteById(group[i].id);
          legacy := legacy + {group[i].id};
        }
      }
      DrainingConsolidates(before, canonical, View(), target, legacy);
      ok := true;
    }

    /** `sessions.reduce(...)`: the first of the most recently used rows. */
    static method Latest(group: seq<SessionRow>) returns (best: SessionRow)
      requires group != []
      ensures best in group && forall i :: 0 <= i < |group| ==> group[i].session.lastAt <= best.session.lastAt
      ensures exists k :: 0 <= k < |group| && group[k] == best &&
                forall i :: 0 <= i < k ==> group[i].session.lastAt < best.session.lastAt
    {
      var at := 0;
      for i := 1 to |group|
        invariant 0 <= at < i && forall j :: 0 <= j < i ==> group[j].session.lastAt <= group[at].session.lastAt
        invariant forall j :: 0 <= j < at ==> group[j].session.lastAt < group[at].session.lastAt
      {
        if group[at].session.lastAt < group[i].session.lastAt {
          at := i;
        }
      }
      best := group[at];
    }

    /** The first loop of `consolidateLegacySessions`: direct sessions by their target. */
    method GroupByTarget(allSessions: seq<SessionRow>) returns (byTarget: map<string, seq<SessionRow>>)
      requires RowsOf(allSessions, View())
      ensures Grouped(byTarget, allSessions)
    {
      byTarget := map[];
      for i := 0 to |allSessions|
        invariant Grouped(byTarget, allSessions[..i])
      {
        var row := allSessions[i];
        assert allSessions[..i + 1] == allSessions[..i] + [row];
        assert forall r :: r in allSessions[..i] ==> r.id != row.id;
        GroupOneMore(byTarget, allSessions[..i], row);
        if row.session.kind.Direct? {
          var existing := if row.session.target in byTarget then byTarget[row.session.target] else [];
          byTarget := byTarget[row.session.target := existing + [row]];
        }
      }
      assert allSessions[..|allSessions|] == allSessions;
    }

    method SessionsByTarget() returns (byTarget: map<string, seq<SessionRow>>, ghost rows: seq<SessionRow>)
      ensures RowsOf(rows, View()) && Grouped(byTarget, rows)
      ensures byTarget.Keys == DirectTargets(View())
    {
      var allSessions := FindAll();
      byTarget := GroupByTarget(allSessions);
      GroupsAreTargets(View(), allSessions, byTarget);
      rows := allSessions;
    }

    /** `consolidateLegacySessions`, run when the service starts. No statement in it ever fails. */
    method ConsolidateLegacySessions() returns (ok: bool)
      requires DirectIdsWellFormed(View())
      modifies this
      ensures ok && Consolidated(old(View()), View(), DirectTargets(old(View())))
      ensures messages.Keys == old(messages).Keys
      ensures forall m :: m in messages ==> messages[m] == Rehomed(old(sessions), old(messages)[m])
      ensures forall id :: id in sessions <==> IsHome(old(sessions), id)
      ensures forall id :: id in sessions && id in old(sessions) ==> sessions[id] == old(sessions)[id]
      ensures forall id :: id in sessions && id !in old(sessions) ==> IsLatestCopy(old(sessions), id, sessions[id])
    {
      ghost var before := View();
      var byTarget, rows := SessionsByTarget();
      ok := ConsolidateTargets(byTarget, rows);
      ConsolidatedMeans(before, View());
    }

    /** The second loop, in whatever order the targets come. */
    method ConsolidateTargets(byTarget: map<string, seq<SessionRow>>, ghost rows: seq<SessionRow>) returns (ok: bool)
      requires DirectIdsWellFormed(View()) && RowsOf(rows, View()) && Grouped(byTarget, rows)
      requires byTarget.Keys == DirectTargets(View())
      modifies this
      ensures ok && Consolidated(old(View()), View(), byTarget.Keys)
    {
      ghost var before, finished := View(), {};
      ConsolidateNone(before);
      var todo := byTarget.Keys;
      ok := true;
      while ok && todo != {}
        invariant ok && todo !! finished && todo + finished == byTarget.Keys
        invariant Consolidated(before, View(), finished) && DirectIdsWellFormed(View())
        decreases todo
      {
        var target :| target in todo;
        todo := todo - {target};
        ok := ConsolidateNext(target, byTarget, before, rows, finished);
        finished := finished + {target};
      }
    }

    method ConsolidateNext(target: string, byTarget: map<string, seq<SessionRow>>,
                           ghost before: Store, ghost rows: seq<SessionRow>, ghost finished: set<string>)
      returns (ok: bool)
      requires DirectIdsWellFormed(before) && DirectIdsWellFormed(View()) && Consolidated(before, View(), finished)
      requires RowsOf(rows, before) && Grouped(byTarget, rows) && target in byTarget
      requires target !in finished && target in DirectTargets(before) && finished <= DirectTargets(before)
      modifies this
      ensures ok && Consolidated(before, View(), finished + {target}) && DirectIdsWellFormed(View())
    {
      ghost var st := View();
      TargetStillToDo(before, st, finished, target, rows, byTarget);
      ok := ConsolidateTarget(target, byTarget[target]);
      FinishTarget(before, st, View(), finished, target);
    }

    /**
     `getOrCreateSession`; `found` is the row `findByTargetAddress` returns. `None` is the exception that
     a refused statement raises.
     */
    method GetOrCreateSession(target: string, blank: Session, found: Option<SessionId>) returns (id: Option<SessionId>)
      requires DirectIdsWellFormed(View()) && MayFind(View(), target, found)
      requires blank.kind.Direct? && blank.target == target
      modifies this
      ensures id.None? <==>
                && DirectId(target) !in old(sessions) && found.Some?
                && exists m :: m in old(messages) && old(messages)[m].sessionId == found.value
      ensures id.Some? ==> id.value == DirectId(target)
      ensures id.None? <==> LookupRefused(old(View()), target, found)
      ensures id.None? ==> View() == old(View())
      ensures id.Some? ==> DirectId(target) in sessions && messages == old(messages)
      ensures id.Some? ==> forall x :: x in sessions <==>
                x == DirectId(target) || (x in old(sessions) && (DirectId(target) in old(sessions) || Some(x) != found))
      ensures id.Some? ==> forall x :: x in sessions && x in old(sessions) ==> sessions[x] == old(sessions[x])
      ensures id.Some? && DirectId(target) !in old(sessions) ==> sessions[DirectId(target)] == blank.(muted := false)
    {
      var sessionId := DirectId(target);
      if sessionId !in sessions {
        if found.Some? && found.value != sessionId {
          var ok := UpdateSessionId(found.value, sessionId);
          if !ok {
            return None;
          }
          assert messages == old(messages);
          DeleteById(found.value);
          assert messages == old(messages);
        }
        Upsert(sessionId, blank);
      }
      return Some(sessionId);
    }
  }

  // --- Grouping rows by target ---

  ghost predicate LatestFirst(rows: seq<SessionRow>) {
    forall i, j :: 0 <= i < j < |rows| ==> rows[j].session.lastAt <= rows[i].session.lastAt
  }

  /** All rows but those in `todo` are listed, and none of those still to come is more recent. */
  ghost predicate Collected(rows: seq<SessionRow>, st: Store, todo: set<SessionId>) {
    && todo <= st.sessions.Keys
    && (forall i :: 0 <= i < |rows| ==>
          rows[i].id in st.sessions && rows[i].id !in todo && rows[i].session == st.sessions[rows[i].id])
    && (forall id :: id in st.sessions && id !in todo ==> SessionRow(id, st.sessions[id]) in rows)
    && (forall i, j :: 0 <= i < j < |rows| ==> rows[i].id != rows[j].id)
    && LatestFirst(rows)
    && (forall i, id :: 0 <= i < |rows| && id in todo ==> st.sessions[id].lastAt <= rows[i].session.lastAt)
  }

  lemma CollectOneMore(rows: seq<SessionRow>, st: Store, todo: set<SessionId>, id: SessionId)
    requires Collected(rows, st, todo) && id in todo
    requires forall x :: x in todo ==> st.sessions[x].lastAt <= st.sessions[id].lastAt
    ensures Collected(rows + [SessionRow(id, st.sessions[id])], st, todo - {id})
  {
    var more := rows + [SessionRow(id, st.sessions[id])];
    assert more[|rows|] == SessionRow(id, st.sessions[id]);
    assert forall i :: 0 <= i < |rows| ==> more[i] == rows[i];
    assert forall r :: r in rows ==> r in more;
  }

  /** Every session row, once. */
  ghost predicate RowsOf(rows: seq<SessionRow>, st: Store) {
    && (forall i :: 0 <= i < |rows| ==> rows[i].id in st.sessions && rows[i].session == st.sessions[rows[i].id])
    && (forall id :: id in st.sessions ==> SessionRow(id, st.sessions[id]) in rows)
    && (forall i, j :: 0 <= i < j < |rows| ==> rows[i].id != rows[j].id)
  }

  ghost predicate Grouped(byTarget: map<string, seq<SessionRow>>, rows: seq<SessionRow>) {
    && (forall t :: t in byTarget ==> byTarget[t] != [])
    && (forall t, j :: t in byTarget && 0 <= j < |byTarget[t]| ==>
          byTarget[t][j] in rows && byTarget[t][j].session.kind.Direct? && byTarget[t][j].session.target == t)
    && (forall t, i, j :: t in byTarget && 0 <= i < j < |byTarget[t]| ==> byTarget[t][i].id != byTarget[t][j].id)
    && (forall r :: r in rows && r.session.kind.Direct? ==> r.session.target in byTarget && r in byTarget[r.session.target])
  }

  function AddToGroup(byTarget: map<string, seq<SessionRow>>, row: SessionRow): map<string, seq<SessionRow>> {
    if !row.session.kind.Direct? then byTarget else
      var existing := if row.session.target in byTarget then byTarget[row.session.target] else [];
      byTarget[row.session.target := existing + [row]]
  }

  lemma GroupOneMore(byTarget: map<string, seq<SessionRow>>, rows: seq<SessionRow>, row: SessionRow)
    requires Grouped(byTarget, rows)
    requires forall r :: r in rows ==> r.id != row.id
    ensures Grouped(AddToGroup(byTarget, row), rows + [row])
  {
    var after := AddToGroup(byTarget, row);
    var t := row.session.target;
    if row.session.kind.Direct? {
      forall r | r in rows + [row] && r.session.kind.Direct?
        ensures r.session.target in after && r in after[r.session.target]
      {
        if r != row {
          assert r in byTarget[r.session.target];
        } else {
          assert after[t][|after[t]| - 1] == row;
        }
      }
    }
  }

  lemma GroupsAreTargets(st: Store, rows: seq<SessionRow>, byTarget: map<string, seq<SessionRow>>)
    requires RowsOf(rows, st) && Grouped(byTarget, rows)
    ensures byTarget.Keys == DirectTargets(st)
  {
    forall t | t in byTarget
      ensures t in DirectTargets(st)
    {
      var r := byTarget[t][0];
      assert r in rows;
    }
    forall id | id in st.sessions && st.sessions[id].kind.Direct?
      ensures st.sessions[id].target in byTarget
    {
      assert SessionRow(id, st.sessions[id]) in rows;
    }
  }

  lemma ConsolidatedIdsWellFormed(before: Store, after: Store, targets: set<string>)
    requires DirectIdsWellFormed(before) && Consolidated(before, after, targets)
    ensures DirectIdsWellFormed(after)
  {
  }

  lemma FinishTarget(before: Store, st: Store, after: Store, finished: set<string>, target: string)
    requires DirectIdsWellFormed(before)
    requires Consolidated(before, st, finished) && Consolidated(st, after, {target})
    requires target !in finished && target in DirectTargets(before) && finished <= DirectTargets(before)
    ensures Consolidated(before, after, finished + {target}) && DirectIdsWellFormed(after)
  {
    ConsolidateOneMore(before, st, after, finished, target);
    ConsolidatedIdsWellFormed(before, after, finished + {target});
  }

  lemma ConsolidateNone(st: Store)
    ensures Consolidated(st, st, {})
  {
  }

  /** A target not yet consolidated still has exactly the sessions it had at the start. */
  lemma TargetStillToDo(before: Store, st: Store, finished: set<string>, target: string,
                        rows: seq<SessionRow>, byTarget: map<string, seq<SessionRow>>)
    requires Consolidated(before, st, finished) && target !in finished
    requires RowsOf(rows, before) && Grouped(byTarget, rows) && target in byTarget
    ensures forall i :: 0 <= i < |byTarget[target]| ==>
              && IsDirectOf(st, byTarget[target][i].id, target)
              && byTarget[target][i].session == st.sessions[byTarget[target][i].id]
    ensures forall id :: IsDirectOf(st, id, target) ==> SessionRow(id, st.sessions[id]) in byTarget[target]
  {
  }
}
