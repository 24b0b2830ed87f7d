/**
 Private groups as one member's store holds them: the member table, the cached count of active
 members and the version string (src/main/services/private-group-service.ts). Signature checks
 arrive as their outcome, and MD5 is an uninterpreted function.
 */
module PrivateGroups {
  import opened Wrappers
  import opened Sequences
  import opened GroupMembers
  import opened GroupVersion

  datatype Group = Group(name: string, count: int, joined: bool, signature: string, version: string)

  datatype State = State(members: Table, groups: map<string, Group>)

  datatype Event =
    | Create(groupId: string, name: string, owner: Member, signature: string)
    | InviteeAccept(payload: Member, valid: bool)
    | MemberQuit(groupId: string, invitee: string, valid: bool)
    | KickOut(groupId: string, me: string, target: string)
    | MemberResponse(groupId: string, entries: seq<WireMember>)
    | GetMembers(groupId: string)
    | LocalQuit(groupId: string, me: string)

  // --- Active rows ---

  function GroupKeys(t: Table, groupId: string): set<MemberKey> {
    set k | k in t && k.groupId == groupId
  }

  function ActiveKeys(t: Table, groupId: string): set<MemberKey> {
    set k | k in t && k.groupId == groupId && t[k].permission > NONE
  }

  function ActiveCount(t: Table, groupId: string): nat {
    |ActiveKeys(t, groupId)|
  }

  function IdentityAt(t: Table, k: MemberKey): Identity
    requires k in t
  {
    Identity(t[k].permission, k.invitee)
  }

  /** Some arrangement of the identities at these keys; the version does not depend on which. */
  ghost function Arrangement(t: Table, keys: set<MemberKey>): (ms: seq<Identity>)
    requires forall k :: k in keys ==> k in t
  {
    if keys == {} then [] else
      var k :| k in keys;
      Arrangement(t, keys - {k}) + [IdentityAt(t, k)]
  }

  ghost function ActiveVersion(md5: string -> string, commits: Option<nat>, signature: string,
                               t: Table, groupId: string): string
  {
    GenGroupVersion(md5, commits, signature, Arrangement(t, ActiveKeys(t, groupId)))
  }

  // --- Steps ---

  function Recounted(s: State, groupId: string): State {
    if groupId !in s.groups then s
    else s.(groups := s.groups[groupId := s.groups[groupId].(count := ActiveCount(s.members, groupId))])
  }

  predicate IsOwner(s: State, groupId: string, me: string) {
    var key := MemberKey(groupId, me);
    key in s.members && s.members[key].permission == OWNER
  }

  ghost function Step(md5: string -> string, s: State, e: Event): State {
    match e
    case Create(groupId, name, owner, signature) =>
      var version := GenGroupVersion(md5, Some(1), signature, [Identity(owner.permission, owner.invitee)]);
      State(Upsert(s.members, owner), s.groups[groupId := Group(name, 1, true, signature, version)])
    case InviteeAccept(payload, valid) =>
      if !valid then s else
        var groupId := payload.groupId;
        var next := Recounted(s.(members := Upsert(s.members, payload.(permission := NORMAL))), groupId);
        if groupId !in s.groups then next else
          var g := s.groups[groupId];
          var version := ActiveVersion(md5, NextCommit(g.version), g.signature, next.members, groupId);
          next.(groups := next.groups[groupId := next.groups[groupId].(version := version)])
    case MemberQuit(groupId, invitee, valid) =>
      if !valid then s
      else Recounted(s.(members := UpdatePermission(s.members, MemberKey(groupId, invitee), QUIT)), groupId)
    case KickOut(groupId, me, target) =>
      if !IsOwner(s, groupId, me) then s
      else Recounted(s.(members := UpdatePermission(s.members, MemberKey(groupId, target), BLACK)), groupId)
    case MemberResponse(groupId, entries) =>
      if groupId !in s.groups then s
      else Recounted(s.(members := MergeAll(s.members, NormalizeAll(entries))), groupId)
    case GetMembers(groupId) => Recounted(s, groupId)
    case LocalQuit(groupId, me) =>
      if groupId !in s.groups then s else
        State(UpdatePermission(s.members, MemberKey(groupId, me), QUIT),
              s.groups[groupId := s.groups[groupId].(joined := false)])
  }

  /** A group is created under a new random id, by its owner as its first member. */
  predicate Enabled(s: State, e: Event) {
    e.Create? ==>
      && e.groupId !in s.groups && GroupKeys(s.members, e.groupId) == {}
      && e.owner.groupId == e.groupId && e.owner.permission == OWNER
  }

  ghost predicate EnabledRun(md5: string -> string, s: State, events: seq<Event>)
    decreases |events|
  {
    events == [] || (Enabled(s, events[0]) && EnabledRun(md5, Step(md5, s, events[0]), events[1..]))
  }

  ghost function Run(md5: string -> string, s: State, events: seq<Event>): State
    decreases |events|
  {
    if events == [] then s else Run(md5, Step(md5, s, events[0]), events[1..])
  }

  // --- The stored count ---

  ghost predicate InSync(s: State, groupId: string) {
    groupId in s.groups ==> s.groups[groupId].count == ActiveCount(s.members, groupId)
  }

  predicate NamesGroup(entries: seq<Member>, groupId: string) {
    exists i :: 0 <= i < |entries| && !Skipped(entries[i]) && entries[i].groupId == groupId
  }

  /** Events that touch this group's rows only where they also recount it. */
  predicate Recounts(e: Event, groupId: string) {
    match e
    case MemberResponse(g, entries) => g == groupId || !NamesGroup(NormalizeAll(entries), groupId)
    case LocalQuit(g, _) => g != groupId
    case _ => true
  }

  lemma OtherGroupUntouched(t: Table, after: Table, groupId: string)
    requires forall k: MemberKey :: k.groupId == groupId ==> Row(after, k) == Row(t, k)
    ensures ActiveKeys(after, groupId) == ActiveKeys(t, groupId)
  {
  }

  lemma MergeLeavesGroup(t: Table, ms: seq<Member>, groupId: string)
    requires !NamesGroup(ms, groupId)
    ensures ActiveKeys(MergeAll(t, ms), groupId) == ActiveKeys(t, groupId)
  {
  }

  lemma CreatedCount(s: State, groupId: string, owner: Member)
    requires GroupKeys(s.members, groupId) == {} && owner.groupId == groupId && owner.permission == OWNER
    ensures ActiveCount(Upsert(s.members, owner), groupId) == 1
  {
    assert forall k :: k in s.members && k.groupId == groupId ==> k in GroupKeys(s.members, groupId);
    assert ActiveKeys(Upsert(s.members, owner), groupId) == {KeyOf(owner)};
  }

  lemma StepKeepsInSync(md5: string -> string, s: State, e: Event, groupId: string)
    requires InSync(s, groupId) && Enabled(s, e) && Recounts(e, groupId)
    ensures InSync(Step(md5, s, e), groupId)
  {
    match e
    case Create(g, _, owner, _) =>
      if g == groupId {
        CreatedCount(s, g, owner);
      } else {
        OtherGroupUntouched(s.members, Upsert(s.members, owner), groupId);
      }
    case MemberResponse(g, entries) =>
      if g != groupId {
        MergeLeavesGroup(s.members, NormalizeAll(entries), groupId);
      }
    case InviteeAccept(payload, _) =>
      if payload.groupId != groupId {
        OtherGroupUntouched(s.members, Upsert(s.members, payload.(permission := NORMAL)), groupId);
      }
    case MemberQuit(g, invitee, _) =>
      if g != groupId {
        OtherGroupUntouched(s.members, UpdatePermission(s.members, MemberKey(g, invitee), QUIT), groupId);
      }
    case KickOut(g, _, target) =>
      if g != groupId {
        OtherGroupUntouched(s.members, UpdatePermission(s.members, MemberKey(g, target), BLACK), groupId);
      }
    case LocalQuit(g, me) =>
      OtherGroupUntouched(s.members, UpdatePermission(s.members, MemberKey(g, me), QUIT), groupId);
    case GetMembers(_) =>
  }

  ghost predicate AllRecount(events: seq<Event>, groupId: string) {
    forall i :: 0 <= i < |events| ==> Recounts(events[i], groupId)
  }

  /** Over every run, repeats and unknown members included, the stored count is the number of active rows. */
  lemma {:induction false} CountStaysInSync(md5: string -> string, s: State, events: seq<Event>, groupId: string)
    requires InSync(s, groupId) && EnabledRun(md5, s, events) && AllRecount(events, groupId)
    ensures InSync(Run(md5, s, events), groupId)
    decreases |events|
  {
    if events != [] {
      assert Recounts(events[0], groupId);
      StepKeepsInSync(md5, s, events[0], groupId);
      CountStaysInSync(md5, Step(md5, s, events[0]), events[1..], groupId);
    }
  }

  /** Whatever happened before, reading the member list puts the count right. */
  lemma GetMembersRepairs(md5: string -> string, s: State, groupId: string)
    ensures InSync(Step(md5, s, GetMembers(groupId)), groupId)
  {
  }

  /** Leaving a group oneself does not recount: the count goes wrong exactly when one's own row was active. */
  lemma LocalQuitDriftsIff(md5: string -> string, s: State, groupId: string, me: string)
    requires groupId in s.groups && InSync(s, groupId)
    ensures InSync(Step(md5, s, LocalQuit(groupId, me)), groupId)
       <==> MemberKey(groupId, me) !in ActiveKeys(s.members, groupId)
  {
    QuitLeavesActive(s.members, groupId, me);
    var active, key := ActiveKeys(s.members, groupId), MemberKey(groupId, me);
    assert key !in active ==> active - {key} == active;
    assert key in active ==> |active - {key}| == |active| - 1;
  }

  lemma QuitLeavesActive(t: Table, groupId: string, me: string)
    ensures ActiveKeys(UpdatePermission(t, MemberKey(groupId, me), QUIT), groupId)
         == ActiveKeys(t, groupId) - {MemberKey(groupId, me)}
  {
  }

  /**
   A response for another group recounts only that group. It leaves this group's number of active rows
   alone in every store if and only if none of its valid entries names this group.
   */
  lemma ForeignEntriesIff(ms: seq<Member>, groupId: string)
    ensures (forall t: Table :: ActiveCount(MergeAll(t, ms), groupId) == ActiveCount(t, groupId))
       <==> !NamesGroup(ms, groupId)
  {
    if NamesGroup(ms, groupId) {
      var i :| 0 <= i < |ms| && !Skipped(ms[i]) && ms[i].groupId == groupId;
      var t := FlippedStore(ms, KeyOf(ms[i]));
      assert ActiveCount(MergeAll(t, ms), groupId) != ActiveCount(t, groupId);
    } else {
      forall t: Table
        ensures ActiveCount(MergeAll(t, ms), groupId) == ActiveCount(t, groupId)
      {
        MergeLeavesGroup(t, ms, groupId);
      }
    }
  }

  /** A store in which the list changes the activity of exactly one row. */
  lemma FlippedStore(ms: seq<Member>, key: MemberKey) returns (t: Table)
    requires Listed(ms, key)
    ensures ActiveCount(MergeAll(t, ms), key.groupId) != ActiveCount(t, key.groupId)
  {
    var settled := MergeAll(map[], ms);
    MergeSettlesPermissions(map[], ms, key);
    var flipped := if settled[key].permission > NONE then NONE else NORMAL;
    t := settled[key := settled[key].(permission := flipped)];
    var after := MergeAll(t, ms);
    forall k
      ensures k in after <==> k in settled
      ensures k in after ==> after[k].permission == settled[k].permission
    {
      MergeSettlesPermissions(map[], ms, k);
      MergeSettlesPermissions(t, ms, k);
      assert Row(t, k) == if k == key then Some(t[key]) else Row(settled, k);
    }
    assert ActiveKeys(after, key.groupId) == ActiveKeys(settled, key.groupId);
    assert ActiveKeys(t, key.groupId)
        == if flipped > NONE then ActiveKeys(settled, key.groupId) + {key} else ActiveKeys(settled, key.groupId) - {key};
  }

  // --- The version ---

  function Counts(e: Event, groupId: string): nat {
    if e.InviteeAccept? && e.valid && e.payload.groupId == groupId then 1 else 0
  }

  function Accepts(events: seq<Event>, groupId: string): nat {
    if events == [] then 0 else Counts(events[0], groupId) + Accepts(events[1..], groupId)
  }

  ghost predicate AtCommit(s: State, groupId: string, n: nat) {
    groupId in s.groups && HasCommit(s.groups[groupId].version, n)
  }

  lemma StepKeepsCommit(md5: string -> string, s: State, e: Event, groupId: string, n: nat)
    requires AtCommit(s, groupId, n) && Enabled(s, e)
    ensures AtCommit(Step(md5, s, e), groupId, n + Counts(e, groupId))
  {
    if e.InviteeAccept? && e.valid && e.payload.groupId == groupId {
      CommitFollows(s.groups[groupId].version, n);
      var members := Upsert(s.members, e.payload.(permission := NORMAL));
      GeneratedHasCommit(md5, n + 1, s.groups[groupId].signature, Arrangement(members, ActiveKeys(members, groupId)));
    }
  }

  /** Printing and re-parsing the commit number loses nothing: `n` accepts add exactly `n` to it. */
  lemma {:induction false} CommitCountsAccepts(md5: string -> string, s: State, events: seq<Event>, groupId: string, n: nat)
    requires AtCommit(s, groupId, n) && EnabledRun(md5, s, events)
    ensures AtCommit(Run(md5, s, events), groupId, n + Accepts(events, groupId))
    decreases |events|
  {
    if events != [] {
      var next, counted := Step(md5, s, events[0]), n + Counts(events[0], groupId);
      StepKeepsCommit(md5, s, events[0], groupId, n);
      CommitCountsAccepts(md5, next, events[1..], groupId, counted);
      assert counted + Accepts(events[1..], groupId) == n + Accepts(events, groupId);
    }
  }

  /** From `createGroup` on: the count is right throughout, and after `n` accepts the commit is `n + 1`. */
  lemma FromCreation(md5: string -> string, s: State, groupId: string, name: string, owner: Member,
                     signature: string, events: seq<Event>)
    requires var create := Create(groupId, name, owner, signature);
             && Enabled(s, create) && EnabledRun(md5, Step(md5, s, create), events)
             && AllRecount(events, groupId)
    ensures var t := Run(md5, Step(md5, s, Create(groupId, name, owner, signature)), events);
            InSync(t, groupId) && AtCommit(t, groupId, 1 + Accepts(events, groupId))
  {
    var create := Create(groupId, name, owner, signature);
    var created := Step(md5, s, create);
    StepKeepsInSync(md5, s, create, groupId);
    CountStaysInSync(md5, created, events, groupId);
    var members := [Identity(owner.permission, owner.invitee)];
    GeneratedHasCommit(md5, 1, signature, members);
    CommitCountsAccepts(md5, created, events, groupId, 1);
  }

  /** Creating a group starts it in step, with its owner as only active member, and disturbs no other group. */
  lemma CreationInSync(md5: string -> string, s: State, e: Event)
    requires e.Create? && Enabled(s, e)
    ensures var t := Step(md5, s, e);
            && InSync(t, e.groupId) && ActiveCount(t.members, e.groupId) == 1 && AtCommit(t, e.groupId, 1)
            && forall g :: InSync(s, g) ==> InSync(t, g)
  {
    CreatedCount(s, e.groupId, e.owner);
    GeneratedHasCommit(md5, 1, e.signature, [Identity(e.owner.permission, e.owner.invitee)]);
    forall g | InSync(s, g)
      ensures InSync(Step(md5, s, e), g)
    {
      StepKeepsInSync(md5, s, e, g);
    }
  }

  // --- Reading rows out in order ---

  lemma {:induction false} ArrangementWithout(t: Table, keys: set<MemberKey>, k: MemberKey)
    requires k in keys && forall j :: j in keys ==> j in t
    ensures multiset(Arrangement(t, keys)) == multiset(Arrangement(t, keys - {k})) + multiset{IdentityAt(t, k)}
    decreases keys
  {
    var first :| first in keys && Arrangement(t, keys) == Arrangement(t, keys - {first}) + [IdentityAt(t, first)];
    if first != k {
      ArrangementWithout(t, keys - {first}, k);
      ArrangementWithout(t, keys - {k}, first);
      assert keys - {first} - {k} == keys - {k} - {first};
    }
  }

  lemma {:induction false} SomeKeyIsHighest(t: Table, keys: set<MemberKey>)
    requires keys != {} && forall j :: j in keys ==> j in t
    ensures exists k :: k in keys && Highest(t, keys, k)
    decreases keys
  {
    var j :| j in keys;
    if keys == {j} {
      assert Highest(t, keys, j);
    } else {
      SomeKeyIsHighest(t, keys - {j});
      var k :| k in keys - {j} && Highest(t, keys - {j}, k);
      assert Highest(t, keys, if t[j].permission > t[k].permission then j else k);
    }
  }

  predicate Highest(t: Table, keys: set<MemberKey>, k: MemberKey)
    requires k in t
  {
    forall j :: j in keys && j in t ==> t[j].permission <= t[k].permission
  }

  function Identities(ms: seq<Member>): seq<Identity> {
    Map((m: Member) => Identity(m.permission, m.invitee), ms)
  }

  /** The rows at these keys, each once, in order of falling permission. */
  ghost predicate Enumerates(ms: seq<Member>, t: Table, keys: set<MemberKey>) {
    && |ms| == |keys|
    && (forall i :: 0 <= i < |ms| ==> KeyOf(ms[i]) in keys && Find(t, KeyOf(ms[i])) == Some(ms[i]))
    && (forall i, j :: 0 <= i < j < |ms| ==> KeyOf(ms[i]) != KeyOf(ms[j]) && ms[i].permission >= ms[j].permission)
    && (forall k :: k in keys ==> k in t)
    && multiset(Identities(ms)) == multiset(Arrangement(t, keys))
  }

  /** No row still to come has a higher permission than one already listed. */
  ghost predicate NoneHigher(t: Table, todo: set<MemberKey>, ms: seq<Member>) {
    forall k, i :: k in todo && k in t && 0 <= i < |ms| ==> t[k].permission <= ms[i].permission
  }

  lemma EnumerateOneMore(ms: seq<Member>, t: Table, keys: set<MemberKey>, todo: set<MemberKey>, k: MemberKey)
    requires Enumerates(ms, t, keys) && k !in keys && k in t
    requires NoneHigher(t, todo, ms) && k in todo && Highest(t, todo, k)
    ensures Enumerates(ms + [FromRow(k, t[k])], t, keys + {k})
    ensures NoneHigher(t, todo - {k}, ms + [FromRow(k, t[k])])
  {
    var m := FromRow(k, t[k]);
    ArrangementWithout(t, keys + {k}, k);
    assert keys + {k} - {k} == keys;
    assert (ms + [m])[..|ms|] == ms;
    assert Identities(ms + [m]) == Identities(ms) + [IdentityAt(t, k)];
  }

  ghost predicate Selecting(ms: seq<Member>, t: Table, keys: set<MemberKey>, todo: set<MemberKey>) {
    Enumerates(ms, t, keys - todo) && NoneHigher(t, todo, ms)
  }

  lemma EnumerateNone(ms: seq<Member>, t: Table, keys: set<MemberKey>)
    requires |ms| == 0
    ensures Selecting(ms, t, keys, keys)
  {
    assert keys - keys == {};
  }

  lemma SelectOneMore(ms: seq<Member>, t: Table, keys: set<MemberKey>, todo: set<MemberKey>, k: MemberKey)
    requires Selecting(ms, t, keys, todo) && todo <= keys
    requires k in todo && k in t && Highest(t, todo, k)
    ensures Selecting(ms + [FromRow(k, t[k])], t, keys, todo - {k})
  {
    EnumerateOneMore(ms, t, keys - todo, todo, k);
    assert keys - (todo - {k}) == keys - todo + {k};
  }

  predicate HasRow(ms: seq<Member>, k: MemberKey) {
    exists i :: 0 <= i < |ms| && KeyOf(ms[i]) == k
  }

  lemma HasRowAppend(ms: seq<Member>, m: Member, k: MemberKey)
    ensures HasRow(ms + [m], k) <==> HasRow(ms, k) || KeyOf(m) == k
  {
    var more := ms + [m];
    assert more[|ms|] == m;
    if HasRow(ms, k) {
      var i :| 0 <= i < |ms| && KeyOf(ms[i]) == k;
      assert KeyOf(more[i]) == k;
    }
  }

  /** Listing as many distinct rows as there are keys leaves none out. */
  lemma {:induction false} NoneLeftOut(ms: seq<Member>, keys: set<MemberKey>, k: MemberKey)
    requires |ms| == |keys| && forall i :: 0 <= i < |ms| ==> KeyOf(ms[i]) in keys
    requires forall i, j :: 0 <= i < j < |ms| ==> KeyOf(ms[i]) != KeyOf(ms[j])
    ensures HasRow(ms, k) <==> k in keys
  {
    if ms != [] {
      var front, last := ms[..|ms| - 1], ms[|ms| - 1];
      NoneLeftOut(front, keys - {KeyOf(last)}, k);
      HasRowAppend(front, last, k);
      assert ms == front + [last];
    }
  }

  /** The addresses in these rows, mine left out. */
  function Others(ms: seq<Member>, me: string): seq<string> {
    if ms == [] then [] else
      var last := ms[|ms| - 1].invitee;
      Others(ms[..|ms| - 1], me) + if last != me then [last] else []
  }

  /** These are the active members other than me, each once. */
  ghost predicate Recipients(dests: seq<string>, t: Table, groupId: string, me: string) {
    && (forall a :: a in dests <==> a != me && MemberKey(groupId, a) in ActiveKeys(t, groupId))
    && (forall i, j :: 0 <= i < j < |dests| ==> dests[i] != dests[j])
  }

  lemma {:induction false} OthersOfGroup(ms: seq<Member>, groupId: string, me: string)
    requires forall i :: 0 <= i < |ms| ==> ms[i].groupId == groupId
    requires forall i, j :: 0 <= i < j < |ms| ==> KeyOf(ms[i]) != KeyOf(ms[j])
    ensures forall a :: a in Others(ms, me) <==> a != me && HasRow(ms, MemberKey(groupId, a))
    ensures forall i, j :: 0 <= i < j < |Others(ms, me)| ==> Others(ms, me)[i] != Others(ms, me)[j]
  {
    if ms != [] {
      var front, last := ms[..|ms| - 1], ms[|ms| - 1];
      OthersOfGroup(front, groupId, me);
      assert ms == front + [last];
      forall a: string
        ensures HasRow(ms, MemberKey(groupId, a)) <==> HasRow(front, MemberKey(groupId, a)) || last.invitee == a
      {
        HasRowAppend(front, last, MemberKey(groupId, a));
      }
      assert !HasRow(front, KeyOf(last)) by {
        assert forall i :: 0 <= i < |front| ==> KeyOf(ms[i]) != KeyOf(ms[|ms| - 1]);
      }
    }
  }

  lemma OthersAreRecipients(ms: seq<Member>, t: Table, groupId: string, me: string)
    requires Enumerates(ms, t, ActiveKeys(t, groupId))
    ensures Recipients(Others(ms, me), t, groupId, me)
    ensures |Others(ms, me)| == 0 <==> ActiveKeys(t, groupId) <= {MemberKey(groupId, me)}
  {
    var dests := Others(ms, me);
    OthersOfGroup(ms, groupId, me);
    forall a: string
      ensures a in dests <==> a != me && MemberKey(groupId, a) in ActiveKeys(t, groupId)
    {
      NoneLeftOut(ms, ActiveKeys(t, groupId), MemberKey(groupId, a));
    }
    if |dests| > 0 {
      assert dests[0] in dests;
    } else {
      assert forall k :: k in ActiveKeys(t, groupId) ==> k == MemberKey(groupId, k.invitee) && k.invitee !in dests;
    }
  }

  function CountActive(ms: seq<Member>): nat {
    if ms == [] then 0 else CountActive(ms[..|ms| - 1]) + if ms[|ms| - 1].permission > NONE then 1 else 0
  }

  function ActiveAmong(t: Table, keys: set<MemberKey>): set<MemberKey> {
    set k | k in keys && k in t && t[k].permission > NONE
  }

  lemma {:induction false} CountListed(ms: seq<Member>, t: Table, keys: set<MemberKey>)
    requires |ms| == |keys|
    requires forall i :: 0 <= i < |ms| ==> KeyOf(ms[i]) in keys && Find(t, KeyOf(ms[i])) == Some(ms[i])
    requires forall i, j :: 0 <= i < j < |ms| ==> KeyOf(ms[i]) != KeyOf(ms[j])
    ensures CountActive(ms) == |ActiveAmong(t, keys)|
  {
    if ms == [] {
      assert ActiveAmong(t, keys) == {};
    } else {
      var last := ms[|ms| - 1];
      var k := KeyOf(last);
      CountListed(ms[..|ms| - 1], t, keys - {k});
      assert ActiveAmong(t, keys)
          == if last.permission > NONE then ActiveAmong(t, keys - {k}) + {k} else ActiveAmong(t, keys - {k});
    }
  }

  /** One row, if it is there, has this permission and is no longer active; all others are as they were. */
  ghost predicate MarksRow(before: Table, after: Table, key: MemberKey, permission: int) {
    && after.Keys == before.Keys
    && (key in after ==> after[key] == before[key].(permission := permission) && key !in ActiveKeys(after, key.groupId))
    && (forall k :: k in after && k != key ==> after[k] == before[k])
  }

  /** This member is stored whole, as an active one, and all other rows are as they were. */
  ghost predicate StoresRow(before: Table, after: Table, m: Member) {
    && Find(after, KeyOf(m)) == Some(m) && KeyOf(m) in ActiveKeys(after, m.groupId)
    && (forall k :: k != KeyOf(m) ==> Row(after, k) == Row(before, k))
  }

  lemma UpsertStoresRow(t: Table, m: Member)
    requires m.permission > NONE
    ensures StoresRow(t, Upsert(t, m), m)
  {
  }

  lemma AcceptTouchesOneGroup(md5: string -> string, s: State, payload: Member)
    ensures Step(md5, s, InviteeAccept(payload, true)).groups - {payload.groupId} == s.groups - {payload.groupId}
  {
  }

  lemma AcceptCommits(md5: string -> string, s: State, payload: Member)
    ensures forall n: nat :: AtCommit(s, payload.groupId, n) ==>
              AtCommit(Step(md5, s, InviteeAccept(payload, true)), payload.groupId, n + 1)
  {
    forall n: nat | AtCommit(s, payload.groupId, n)
      ensures AtCommit(Step(md5, s, InviteeAccept(payload, true)), payload.groupId, n + 1)
    {
      StepKeepsCommit(md5, s, InviteeAccept(payload, true), payload.groupId, n);
    }
  }

  /** The groups with one stored count changed, if that group is there. */
  function WithCount(groups: map<string, Group>, groupId: string, count: nat): (after: map<string, Group>)
    ensures after.Keys == groups.Keys
    ensures forall g :: g in after && g != groupId ==> after[g] == groups[g]
    ensures groupId in after ==> after[groupId] == groups[groupId].(count := count)
  {
    if groupId in groups then groups[groupId := groups[groupId].(count := count)] else groups
  }

  /**
   What a received list does to the table: each member listed ends with the permission of its last valid entry,
   a member's only entry is stored whole when it brings news, and every other row stays as it was.
   */
  ghost predicate Merged(before: Table, after: Table, ms: seq<Member>) {
    && (forall k :: Listed(ms, k) ==> k in after && after[k].permission == LastPermission(ms, k))
    && (forall i :: 0 <= i < |ms| && IsSole(ms, i) && BringsNews(before, ms[i]) ==> Find(after, KeyOf(ms[i])) == Some(ms[i]))
    && (forall k :: !Listed(ms, k) || (k in before && Agreeing(ms, k, before[k].permission)) ==> Row(after, k) == Row(before, k))
  }

  /** The member is unknown, or is known with another permission. */
  predicate BringsNews(t: Table, m: Member) {
    KeyOf(m) !in t || t[KeyOf(m)].permission != m.permission
  }

  lemma MergeIsMerged(t: Table, ms: seq<Member>)
    ensures Merged(t, MergeAll(t, ms), ms)
  {
    forall k
      ensures Listed(ms, k) ==> k in MergeAll(t, ms) && MergeAll(t, ms)[k].permission == LastPermission(ms, k)
      ensures !Listed(ms, k) || (k in t && Agreeing(ms, k, t[k].permission)) ==> Row(MergeAll(t, ms), k) == Row(t, k)
    {
      MergeSettlesPermissions(t, ms, k);
      if k in t && Agreeing(ms, k, t[k].permission) {
        MergeKeepsAgreeingRow(t, ms, k);
      }
    }
    forall i | 0 <= i < |ms| && IsSole(ms, i) && BringsNews(t, ms[i])
      ensures Find(MergeAll(t, ms), KeyOf(ms[i])) == Some(ms[i])
    {
      MergeStoresNews(t, ms, i);
    }
  }

  /** A member response on its way. */
  datatype Sync = Sync(dests: seq<string>, membersData: seq<WireMember>)

  class PrivateGroupService {
    const md5: string -> string
    var members: Table
    var groups: map<string, Group>

    function View(): State
      reads this
    {
      State(members, groups)
    }

    constructor (md5: string -> string)
      ensures View() == State(map[], map[]) && this.md5 == md5
    {
      this.md5 := md5;
      members, groups := map[], map[];
    }

    /** A query over the member table, ordered by permission. */
    method SelectRows(keys: set<MemberKey>) returns (ms: seq<Member>)
      requires forall k :: k in keys ==> k in members
      ensures Enumerates(ms, members, keys)
    {
      ms := [];
      var todo := keys;
      EnumerateNone(ms, members, keys);
      while todo != {}
        invariant todo <= keys && Selecting(ms, members, keys, todo)
        decreases todo
      {
        var k := NextKey(todo);
        SelectOneMore(ms, members, keys, todo, k);
        todo := todo - {k};
        ms := ms + [FromRow(k, members[k])];
      }
      assert keys - todo == keys;
    }

    /** Any of the keys that come first by permission: the query leaves ties open. */
    method NextKey(keys: set<MemberKey>) returns (k: MemberKey)
      requires keys != {} && forall j :: j in keys ==> j in members
      ensures k in keys && Highest(members, keys, k)
    {
      SomeKeyIsHighest(members, keys);
      k :| k in keys && Highest(members, keys, k);
    }

    method FindActiveMembers(groupId: string) returns (ms: seq<Member>)
      ensures Enumerates(ms, members, ActiveKeys(members, groupId))
    {
      ms := SelectRows(ActiveKeys(members, groupId));
    }

    /** Recount: `setCount(groupId, findActiveMembers(groupId).length)`. */
    method SetCountFromActive(groupId: string) returns (active: seq<Member>)
      modifies this`groups
      ensures View() == Recounted(old(View()), groupId)
      ensures groups == if groupId in old(groups) then old(groups)[groupId := old(groups)[groupId].(count := |active|)]
                        else old(groups)
      ensures Enumerates(active, members, ActiveKeys(members, groupId))
    {
      active := FindActiveMembers(groupId);
      if groupId in groups {
        groups := groups[groupId := groups[groupId].(count := |active|)];
      }
    }

    method CreateGroup(groupId: string, name: string, owner: Member, signature: string)
      requires Enabled(View(), Create(groupId, name, owner, signature))
      modifies this
      ensures View() == Step(md5, old(View()), Create(groupId, name, owner, signature))
      ensures Find(members, MemberKey(groupId, owner.invitee)) == Some(owner)
      ensures forall k :: k != MemberKey(groupId, owner.invitee) ==> Row(members, k) == Row(old(members), k)
      ensures groupId in groups && groups - {groupId} == old(groups)
      ensures groups[groupId].name == name && groups[groupId].joined && groups[groupId].signature == signature
      ensures InSync(View(), groupId) && ActiveCount(members, groupId) == 1 && AtCommit(View(), groupId, 1)
      ensures forall g :: InSync(old(View()), g) ==> InSync(View(), g)
    {
      CreationInSync(md5, View(), Create(groupId, name, owner, signature));
      var version := GenGroupVersion(md5, Some(1), signature, [Identity(owner.permission, owner.invitee)]);
      groups := groups[groupId := Group(name, 1, true, signature, version)];
      members := Upsert(members, owner);
    }

    /** `onInviteeAccept`; `active` are the members that the new version covers. */
    method OnInviteeAccept(payload: Member, valid: bool) returns (ghost active: seq<Member>)
      modifies this
      ensures View() == Step(md5, old(View()), InviteeAccept(payload, valid))
      ensures !valid ==> View() == old(View())
      ensures valid ==> StoresRow(old(members), members, payload.(permission := NORMAL))
      ensures groups - {payload.groupId} == old(groups) - {payload.groupId}
      ensures valid ==> Enumerates(active, members, ActiveKeys(members, payload.groupId))
      ensures valid && payload.groupId in groups ==>
                && payload.groupId in old(groups)
                && groups[payload.groupId].count == |active|
                && groups[payload.groupId].version == GenGroupVersion(md5, NextCommit(old(groups)[payload.groupId].version),
                                                                      groups[payload.groupId].signature, Identities(active))
      ensures forall n: nat :: valid && AtCommit(old(View()), payload.groupId, n) ==>
                AtCommit(View(), payload.groupId, n + 1)
    {
      active := [];
      if valid {
        ghost var before := View();
        active := StoreAccepted(payload);
        AcceptCommits(md5, before, payload);
        AcceptTouchesOneGroup(md5, before, payload);
      }
    }

    method StoreAccepted(payload: Member) returns (ghost active: seq<Member>)
      modifies this
      ensures View() == Step(md5, old(View()), InviteeAccept(payload, true))
      ensures StoresRow(old(members), members, payload.(permission := NORMAL))
      ensures Enumerates(active, members, ActiveKeys(members, payload.groupId))
      ensures payload.groupId in groups ==>
                && payload.groupId in old(groups)
                && groups[payload.groupId].count == |active|
                && groups[payload.groupId].version == GenGroupVersion(md5, NextCommit(old(groups)[payload.groupId].version),
                                                                      groups[payload.groupId].signature, Identities(active))
    {
      var groupId := payload.groupId;
      UpsertStoresRow(members, payload.(permission := NORMAL));
      members := Upsert(members, payload.(permission := NORMAL));
      var listed := SetCountFromActive(groupId);
      active := listed;
      if groupId in groups {
        RenewVersion(groupId, listed);
      }
    }

    /** `setVersion` with the next commit number and the members just read. */
    method RenewVersion(groupId: string, active: seq<Member>)
      requires groupId in groups && Enumerates(active, members, ActiveKeys(members, groupId))
      modifies this`groups
      ensures groups == old(groups)[groupId := old(groups)[groupId].(version :=
                GenGroupVersion(md5, NextCommit(old(groups)[groupId].version), old(groups)[groupId].signature,
                                Identities(active)))]
      ensures groups[groupId].version
              == ActiveVersion(md5, NextCommit(old(groups)[groupId].version), groups[groupId].signature, members, groupId)
    {
      var g := groups[groupId];
      var version := GenGroupVersion(md5, NextCommit(g.version), g.signature, Identities(active));
      VersionIsCanonical(md5, NextCommit(g.version), g.signature, Identities(active),
                         Arrangement(members, ActiveKeys(members, groupId)));
      groups := groups[groupId := g.(version := version)];
    }

    method OnMemberQuit(groupId: string, invitee: string, valid: bool)
      modifies this
      ensures View() == Step(md5, old(View()), MemberQuit(groupId, invitee, valid))
      ensures !valid ==> View() == old(View())
      ensures valid ==> MarksRow(old(members), members, MemberKey(groupId, invitee), QUIT)
      ensures valid ==> groups == WithCount(old(groups), groupId, ActiveCount(members, groupId))
    {
      if valid {
        members := UpdatePermission(members, MemberKey(groupId, invitee), QUIT);
        var _ := SetCountFromActive(groupId);
      }
    }

    /** `kickOut`; only the owner may, and the remaining members are then sent the whole list. */
    method KickOutMember(groupId: string, me: string, target: string)
      returns (kicked: bool, sent: Option<Sync>)
      modifies this
      ensures View() == Step(md5, old(View()), KickOut(groupId, me, target))
      ensures kicked <==>
                MemberKey(groupId, me) in old(members) && old(members)[MemberKey(groupId, me)].permission == OWNER
      ensures !kicked ==> View() == old(View()) && sent.None?
      ensures kicked ==> MarksRow(old(members), members, MemberKey(groupId, target), BLACK)
      ensures kicked ==> groups == WithCount(old(groups), groupId, ActiveCount(members, groupId))
      ensures sent.Some? ==> target !in sent.value.dests
      ensures sent.Some? ==>
                && Recipients(sent.value.dests, members, groupId, me)
                && Enumerates(NormalizeAll(sent.value.membersData), members, GroupKeys(members, groupId))
      ensures kicked && sent.None? ==> ActiveKeys(members, groupId) <= {MemberKey(groupId, me)}
    {
      if !IsOwner(View(), groupId, me) {
        return false, None;
      }
      members := UpdatePermission(members, MemberKey(groupId, target), BLACK);
      var _ := SetCountFromActive(groupId);
      sent := SyncMembersToAll(groupId, me);
      return true, sent;
    }

    /** `syncMembersToAll`: every row goes to every other active member, and nothing is sent when there is none. */
    method SyncMembersToAll(groupId: string, me: string) returns (sent: Option<Sync>)
      ensures sent.None? <==> ActiveKeys(members, groupId) <= {MemberKey(groupId, me)}
      ensures sent.Some? ==>
                && Recipients(sent.value.dests, members, groupId, me)
                && Enumerates(NormalizeAll(sent.value.membersData), members, GroupKeys(members, groupId))
    {
      var dests := OtherActiveMembers(groupId, me);
      if |dests| == 0 {
        return None;
      }
      var wire := MembersData(groupId);
      return Some(Sync(dests, wire));
    }

    method OtherActiveMembers(groupId: string, me: string) returns (dests: seq<string>)
      ensures Recipients(dests, members, groupId, me)
      ensures |dests| == 0 <==> ActiveKeys(members, groupId) <= {MemberKey(groupId, me)}
    {
      var active := FindActiveMembers(groupId);
      dests := [];
      for i := 0 to |active|
        invariant dests == Others(active[..i], me)
      {
        assert active[..i + 1][..i] == active[..i];
        if active[i].invitee != me {
          dests := dests + [active[i].invitee];
        }
      }
      assert active[..|active|] == active;
      OthersAreRecipients(active, members, groupId, me);
    }

    /** `onMemberRequest`: an active member of the group is sent all its rows, anyone else nothing. */
    method OnMemberRequest(groupId: string, src: string) returns (reply: Option<seq<WireMember>>)
      ensures reply.Some? <==> groupId != "" && MemberKey(groupId, src) in ActiveKeys(members, groupId)
      ensures reply.Some? ==> Enumerates(NormalizeAll(reply.value), members, GroupKeys(members, groupId))
    {
      var member := Find(members, MemberKey(groupId, src));
      if groupId == "" || member.None? || member.value.permission <= NONE {
        return None;
      }
      var wire := MembersData(groupId);
      return Some(wire);
    }

    /** The `membersData` of a member response: every row of the group. */
    method MembersData(groupId: string) returns (wire: seq<WireMember>)
      ensures Enumerates(NormalizeAll(wire), members, GroupKeys(members, groupId))
      ensures forall i :: 0 <= i < |wire| ==> wire[i] == ToSnakeCase(Normalize(wire[i]))
    {
      var rows := SelectRows(GroupKeys(members, groupId));
      wire := [];
      for i := 0 to |rows|
        invariant |wire| == i && forall j :: 0 <= j < i ==> wire[j] == ToSnakeCase(rows[j])
      {
        wire := wire + [ToSnakeCase(rows[i])];
      }
      assert NormalizeAll(wire) == rows;
    }

    method OnMemberResponse(groupId: string, entries: seq<WireMember>)
      modifies this
      ensures View() == Step(md5, old(View()), MemberResponse(groupId, entries))
      ensures groupId !in old(groups) ==> View() == old(View())
      ensures groupId in old(groups) ==> Merged(old(members), members, NormalizeAll(entries))
      ensures groupId in old(groups) ==> groups == WithCount(old(groups), groupId, ActiveCount(members, groupId))
    {
      if groupId !in groups {
        return;
      }
      MergeEntries(entries);
      MergeIsMerged(old(members), NormalizeAll(entries));
      var _ := SetCountFromActive(groupId);
    }

    /** Stores the entries that are new or carry another permission, one after another. */
    method MergeEntries(entries: seq<WireMember>)
      modifies this`members
      ensures members == MergeAll(old(members), NormalizeAll(entries))
    {
      ghost var ms := NormalizeAll(entries);
      for i := 0 to |entries|
        invariant members == MergeAll(old(members), ms[..i])
      {
        var member := Normalize(entries[i]);
        assert ms[..i + 1][..i] == ms[..i];
        MergeEntry(member);
      }
      assert ms[..|entries|] == ms;
    }

    method MergeEntry(member: Member)
      modifies this`members
      ensures members == MergeOne(old(members), member)
    {
      if member.invitee != "" && member.groupId != "" {
        var existing := Find(members, KeyOf(member));
        if existing.None? || member.permission != existing.value.permission {
          members := Upsert(members, member);
        }
      }
    }

    /** `getMembers`: lists every row, and repairs the stored count where it differs. */
    method ListMembers(groupId: string) returns (rows: seq<Member>)
      modifies this`groups
      ensures View() == Step(md5, old(View()), GetMembers(groupId))
      ensures groups == WithCount(old(groups), groupId, ActiveCount(members, groupId))
      ensures Enumerates(rows, members, GroupKeys(members, groupId))
    {
      rows := SelectRows(GroupKeys(members, groupId));
      var activeCount := 0;
      for i := 0 to |rows|
        invariant activeCount == CountActive(rows[..i])
      {
        assert rows[..i + 1][..i] == rows[..i];
        if rows[i].permission > NONE {
          activeCount := activeCount + 1;
        }
      }
      assert rows[..|rows|] == rows;
      CountListed(rows, members, GroupKeys(members, groupId));
      assert ActiveAmong(members, GroupKeys(members, groupId)) == ActiveKeys(members, groupId);
      if groupId in groups && groups[groupId].count != activeCount {
        groups := groups[groupId := groups[groupId].(count := activeCount)];
      }
    }

    method Quit(groupId: string, me: string) returns (found: bool)
      modifies this
      ensures View() == Step(md5, old(View()), LocalQuit(groupId, me))
      ensures found <==> groupId in old(groups)
      ensures found ==> MarksRow(old(members), members, MemberKey(groupId, me), QUIT)
      ensures found ==> groups == old(groups)[groupId := old(groups)[groupId].(joined := false)]
      ensures !found ==> View() == old(View())
    {
      found := groupId in groups;
      if found {
        members := UpdatePermission(members, MemberKey(groupId, me), QUIT);
        groups := groups[groupId := groups[groupId].(joined := false)];
      }
    }
  }
}
