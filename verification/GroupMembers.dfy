/**
 The replicated member table of private groups: its rows
 (src/main/db/repositories/private-group-member-repository.ts), the wire form of a member, and the
 rule that merges a received member list (src/main/services/private-group-service.ts).
 */
module GroupMembers {
  import opened Wrappers

  const BLACK := -20
  const QUIT := -10
  const NONE := 0
  const NORMAL := 10
  const OWNER := 30

  datatype Member = Member(
    groupId: string,
    permission: int,
    expiresAt: int,
    inviter: string,
    invitee: string,
    inviterRawData: string,
    inviteeRawData: string,
    inviterSignature: string,
    inviteeSignature: string)

  // --- Rows: the primary key is (group, invitee); empty texts and zero times are stored as NULL ---

  datatype MemberKey = MemberKey(groupId: string, invitee: string)

  datatype MemberRow = MemberRow(
    permission: int,
    expiresAt: Option<int>,
    inviter: Option<string>,
    inviterRawData: Option<string>,
    inviteeRawData: Option<string>,
    inviterSignature: Option<string>,
    inviteeSignature: Option<string>)

  type Table = map<MemberKey, MemberRow>

  function KeyOf(m: Member): MemberKey {
    MemberKey(m.groupId, m.invitee)
  }

  function TextOrNull(s: string): Option<string> {
    if s == "" then None else Some(s)
  }

  function TextOf(o: Option<string>): string {
    if o.Some? then o.value else ""
  }

  function ToRow(m: Member): MemberRow {
    MemberRow(m.permission, if m.expiresAt == 0 then None else Some(m.expiresAt), TextOrNull(m.inviter),
              TextOrNull(m.inviterRawData), TextOrNull(m.inviteeRawData),
              TextOrNull(m.inviterSignature), TextOrNull(m.inviteeSignature))
  }

  function FromRow(key: MemberKey, row: MemberRow): Member {
    Member(key.groupId, row.permission, if row.expiresAt.Some? then row.expiresAt.value else 0,
           TextOf(row.inviter), key.invitee, TextOf(row.inviterRawData), TextOf(row.inviteeRawData),
           TextOf(row.inviterSignature), TextOf(row.inviteeSignature))
  }

  function Row(t: Table, key: MemberKey): Option<MemberRow> {
    if key in t then Some(t[key]) else None
  }

  function Find(t: Table, key: MemberKey): Option<Member> {
    if key in t then Some(FromRow(key, t[key])) else None
  }

  function Upsert(t: Table, m: Member): (after: Table)
    ensures Find(after, KeyOf(m)) == Some(m)
    ensures forall k :: k != KeyOf(m) ==> Row(after, k) == Row(t, k)
  {
    t[KeyOf(m) := ToRow(m)]
  }

  function UpdatePermission(t: Table, key: MemberKey, permission: int): Table {
    if key in t then t[key := t[key].(permission := permission)] else t
  }

  // --- The wire: some clients write camelCase names, others snake_case ---

  datatype WireMember = WireMember(
    groupId: Option<string>, group_id: Option<string>,
    permission: Option<int>,
    expiresAt: Option<int>, expires_at: Option<int>,
    inviter: Option<string>,
    invitee: Option<string>,
    inviterRawData: Option<string>, inviter_raw_data: Option<string>,
    inviteeRawData: Option<string>, invitee_raw_data: Option<string>,
    inviterSignature: Option<string>, inviter_signature: Option<string>,
    inviteeSignature: Option<string>, invitee_signature: Option<string>)

  /** `a || b || ""`: the first text that is present and not empty. */
  function FirstText(a: Option<string>, b: Option<string>): string {
    if TextOf(a) != "" then TextOf(a) else TextOf(b)
  }

  /** `a ?? b ?? 0`: the first number that is present. */
  function FirstNumber(a: Option<int>, b: Option<int>): int {
    if a.Some? then a.value else if b.Some? then b.value else 0
  }

  function Normalize(w: WireMember): Member {
    Member(FirstText(w.groupId, w.group_id),
           if w.permission.Some? then w.permission.value else NONE,
           FirstNumber(w.expiresAt, w.expires_at),
           TextOf(w.inviter),
           TextOf(w.invitee),
           FirstText(w.inviterRawData, w.inviter_raw_data),
           FirstText(w.inviteeRawData, w.invitee_raw_data),
           FirstText(w.inviterSignature, w.inviter_signature),
           FirstText(w.inviteeSignature, w.invitee_signature))
  }

  function ToSnakeCase(m: Member): (w: WireMember)
    ensures Normalize(w) == m
  {
    WireMember(None, Some(m.groupId), Some(m.permission), None, Some(m.expiresAt), Some(m.inviter), Some(m.invitee),
               None, Some(m.inviterRawData), None, Some(m.inviteeRawData),
               None, Some(m.inviterSignature), None, Some(m.inviteeSignature))
  }

  /** camelCase names are read too, and win over whatever stands under the snake_case ones. */
  lemma CamelCaseIsRead(m: Member, w: WireMember)
    requires w.groupId == Some(m.groupId) && w.permission == Some(m.permission) && w.expiresAt == Some(m.expiresAt)
    requires w.inviter == Some(m.inviter) && w.invitee == Some(m.invitee)
    requires w.inviterRawData == Some(m.inviterRawData) && w.inviteeRawData == Some(m.inviteeRawData)
    requires w.inviterSignature == Some(m.inviterSignature) && w.inviteeSignature == Some(m.inviteeSignature)
    requires m.groupId == "" ==> TextOf(w.group_id) == ""
    requires m.inviterRawData == "" ==> TextOf(w.inviter_raw_data) == ""
    requires m.inviteeRawData == "" ==> TextOf(w.invitee_raw_data) == ""
    requires m.inviterSignature == "" ==> TextOf(w.inviter_signature) == ""
    requires m.inviteeSignature == "" ==> TextOf(w.invitee_signature) == ""
    ensures Normalize(w) == m
  {
  }

  /** An entry without a permission, time or text gets none of them, and makes nobody an active member. */
  lemma MissingFieldsAreEmpty(w: WireMember)
    ensures w.permission.None? ==> Normalize(w).permission == 0
    ensures w.expiresAt.None? && w.expires_at.None? ==> Normalize(w).expiresAt == 0
    ensures w.invitee.None? ==> Normalize(w).invitee == ""
    ensures w.groupId.None? && w.group_id.None? ==> Normalize(w).groupId == ""
  {
  }

  function NormalizeAll(ws: seq<WireMember>): (ms: seq<Member>)
    ensures |ms| == |ws| && forall i :: 0 <= i < |ws| ==> ms[i] == Normalize(ws[i])
  {
    seq(|ws|, i requires 0 <= i < |ws| => Normalize(ws[i]))
  }

  // --- The merge rule ---

  predicate Skipped(m: Member) {
    m.invitee == "" || m.groupId == ""
  }

  /** One entry: it replaces the row unless the row already has its permission. */
  function MergeOne(t: Table, m: Member): Table {
    if Skipped(m) then t
    else if KeyOf(m) in t && t[KeyOf(m)].permission == m.permission then t
    else Upsert(t, m)
  }

  function MergeAll(t: Table, ms: seq<Member>): Table {
    if ms == [] then t else MergeOne(MergeAll(t, ms[..|ms| - 1]), ms[|ms| - 1])
  }

  predicate Names(m: Member, key: MemberKey) {
    !Skipped(m) && KeyOf(m) == key
  }

  predicate Listed(ms: seq<Member>, key: MemberKey) {
    exists i :: 0 <= i < |ms| && Names(ms[i], key)
  }

  /** The permission in the last valid entry for this member. */
  function LastPermission(ms: seq<Member>, key: MemberKey): int
    requires Listed(ms, key)
  {
    var last := ms[|ms| - 1];
    if Names(last, key) then last.permission else LastPermission(ms[..|ms| - 1], key)
  }

  /** What a list does to one row, seen on its own. */
  function RowAfter(row: Option<MemberRow>, ms: seq<Member>, key: MemberKey): Option<MemberRow> {
    if ms == [] then row else
      var before := RowAfter(row, ms[..|ms| - 1], key);
      var m := ms[|ms| - 1];
      if Names(m, key) && (before.None? || before.value.permission != m.permission) then Some(ToRow(m)) else before
  }

  /** Rows do not influence one another: merging a list acts on each key separately. */
  lemma {:induction false} MergeActsPerKey(t: Table, ms: seq<Member>, key: MemberKey)
    ensures Row(MergeAll(t, ms), key) == RowAfter(Row(t, key), ms, key)
  {
    if ms != [] {
      MergeActsPerKey(t, ms[..|ms| - 1], key);
    }
  }

  lemma {:induction false} RowAfterPermission(row: Option<MemberRow>, ms: seq<Member>, key: MemberKey)
    ensures Listed(ms, key) ==>
              RowAfter(row, ms, key).Some? && RowAfter(row, ms, key).value.permission == LastPermission(ms, key)
    ensures !Listed(ms, key) ==> RowAfter(row, ms, key) == row
  {
    if ms != [] {
      var front := ms[..|ms| - 1];
      RowAfterPermission(row, front, key);
      assert forall i :: 0 <= i < |front| ==> front[i] == ms[i];
      if Listed(front, key) {
        var i :| 0 <= i < |front| && Names(front[i], key);
        assert Names(ms[i], key);
      }
    }
  }

  /** Each listed member ends with the permission of its last valid entry; every other row is untouched. */
  lemma MergeSettlesPermissions(t: Table, ms: seq<Member>, key: MemberKey)
    ensures Listed(ms, key) ==> key in MergeAll(t, ms) && MergeAll(t, ms)[key].permission == LastPermission(ms, key)
    ensures !Listed(ms, key) ==> Row(MergeAll(t, ms), key) == Row(t, key)
  {
    MergeActsPerKey(t, ms, key);
    RowAfterPermission(Row(t, key), ms, key);
  }

  /** No other entry of the list is for the same member. */
  predicate IsSole(ms: seq<Member>, i: nat)
    requires i < |ms|
  {
    !Skipped(ms[i]) && forall j :: 0 <= j < |ms| && j != i ==> !Names(ms[j], KeyOf(ms[i]))
  }

  /** A member's only entry is stored whole when it is new or carries another permission. */
  lemma MergeStoresNews(t: Table, ms: seq<Member>, i: nat)
    requires i < |ms| && IsSole(ms, i)
    requires KeyOf(ms[i]) in t ==> t[KeyOf(ms[i])].permission != ms[i].permission
    ensures Find(MergeAll(t, ms), KeyOf(ms[i])) == Some(ms[i])
  {
    var key := KeyOf(ms[i]);
    MergeActsPerKey(t, ms, key);
    SoleEntryIsStored(Row(t, key), ms, key, i);
  }

  /** Entries that carry the permission already stored change nothing else about the row either. */
  lemma MergeKeepsAgreeingRow(t: Table, ms: seq<Member>, key: MemberKey)
    requires key in t && Agreeing(ms, key, t[key].permission)
    ensures Row(MergeAll(t, ms), key) == Row(t, key)
  {
    MergeActsPerKey(t, ms, key);
    AgreeingListKeepsRow(Row(t, key), ms, key);
  }

  // --- Merging the same list twice ---

  /** All entries for this member carry the same permission. */
  predicate Agreeing(ms: seq<Member>, key: MemberKey, permission: int) {
    forall i :: 0 <= i < |ms| && Names(ms[i], key) ==> ms[i].permission == permission
  }

  lemma {:induction false} AgreeingListKeepsRow(row: Option<MemberRow>, ms: seq<Member>, key: MemberKey)
    requires row.Some? && Agreeing(ms, key, row.value.permission)
    ensures RowAfter(row, ms, key) == row
  {
    if ms != [] {
      AgreeingListKeepsRow(row, ms[..|ms| - 1], key);
    }
  }

  /** When entries for a member disagree, the row it had before no longer matters. */
  lemma {:induction false} DisagreeingListForgetsRow(row: Option<MemberRow>, other: Option<MemberRow>,
                                                     ms: seq<Member>, key: MemberKey)
    requires Listed(ms, key) && !Agreeing(ms, key, LastPermission(ms, key))
    ensures RowAfter(row, ms, key) == RowAfter(other, ms, key)
  {
    var front, m := ms[..|ms| - 1], ms[|ms| - 1];
    assert forall i :: 0 <= i < |front| ==> front[i] == ms[i];
    var j :| 0 <= j < |ms| && Names(ms[j], key) && ms[j].permission != LastPermission(ms, key);
    assert j < |front| && Names(front[j], key);
    if Agreeing(front, key, LastPermission(front, key)) {
      RowAfterPermission(row, front, key);
      RowAfterPermission(other, front, key);
      assert Names(m, key) && LastPermission(front, key) == front[j].permission;
    } else {
      DisagreeingListForgetsRow(row, other, front, key);
    }
  }

  lemma RowAfterTwice(row: Option<MemberRow>, ms: seq<Member>, key: MemberKey)
    ensures RowAfter(RowAfter(row, ms, key), ms, key) == RowAfter(row, ms, key)
  {
    var once := RowAfter(row, ms, key);
    RowAfterPermission(row, ms, key);
    RowAfterPermission(once, ms, key);
    if Listed(ms, key) {
      if Agreeing(ms, key, LastPermission(ms, key)) {
        AgreeingListKeepsRow(once, ms, key);
      } else {
        DisagreeingListForgetsRow(row, once, ms, key);
      }
    }
  }

  /** Applying the same response twice is the same as once, for lists with any duplicates and conflicts. */
  lemma MergeIsIdempotent(t: Table, ms: seq<Member>)
    ensures MergeAll(MergeAll(t, ms), ms) == MergeAll(t, ms)
  {
    var once := MergeAll(t, ms);
    var twice := MergeAll(once, ms);
    forall key
      ensures Row(twice, key) == Row(once, key)
    {
      MergeActsPerKey(t, ms, key);
      MergeActsPerKey(once, ms, key);
      RowAfterTwice(Row(t, key), ms, key);
    }
    SameRows(twice, once);
  }

  lemma SameRows(a: Table, b: Table)
    requires forall key :: Row(a, key) == Row(b, key)
    ensures a == b
  {
    forall key
      ensures key in a <==> key in b
      ensures key in a ==> a[key] == b[key]
    {
      assert Row(a, key) == Row(b, key);
    }
  }

  // --- Full synchronisation ---

  /** `ms` lists exactly the members of one group in a table, each once, in whatever order. */
  ghost predicate Lists(ms: seq<Member>, t: Table, groupId: string) {
    && (forall i :: 0 <= i < |ms| ==> ms[i].groupId == groupId && Find(t, KeyOf(ms[i])) == Some(ms[i]))
    && (forall i, j :: 0 <= i < j < |ms| ==> ms[i].invitee != ms[j].invitee)
    && (forall key :: key in t && key.groupId == groupId ==> exists i :: 0 <= i < |ms| && KeyOf(ms[i]) == key)
  }

  lemma {:induction false} SoleEntryIsStored(row: Option<MemberRow>, ms: seq<Member>, key: MemberKey, i: nat)
    requires i < |ms| && Names(ms[i], key) && (row.None? || row.value.permission != ms[i].permission)
    requires forall j :: 0 <= j < |ms| && j != i ==> !Names(ms[j], key)
    ensures RowAfter(row, ms, key) == Some(ToRow(ms[i]))
  {
    var front := ms[..|ms| - 1];
    if i == |ms| - 1 {
      RowAfterPermission(row, front, key);
    } else {
      SoleEntryIsStored(row, front, key, i);
    }
  }

  lemma ListedInGroup(ms: seq<Member>, t: Table, groupId: string, key: MemberKey)
    requires Lists(ms, t, groupId)
    ensures Listed(ms, key) ==> key.groupId == groupId && key.invitee != "" && key in t
  {
  }

  lemma ListedRowIsStored(ms: seq<Member>, t: Table, groupId: string, key: MemberKey)
    requires Lists(ms, t, groupId) && groupId != ""
    requires key in t && key.groupId == groupId && key.invitee != ""
    ensures var row := RowAfter(None, ms, key);
            row.Some? && FromRow(key, row.value) == FromRow(key, t[key])
  {
    var i :| 0 <= i < |ms| && KeyOf(ms[i]) == key;
    forall j | 0 <= j < |ms| && j != i
      ensures !Names(ms[j], key)
    {
      assert ms[j].invitee != ms[i].invitee;
    }
    SoleEntryIsStored(None, ms, key, i);
  }

  /**
   Sending the whole member list of a group, through the snake_case wire form, to a table without rows
   of that group reproduces the sender's rows there and touches nothing else. Rows with an empty
   invitee are the only ones that do not travel.
   */
  lemma FullSyncReproduces(sender: Table, receiver: Table, groupId: string, listing: seq<Member>, wire: seq<WireMember>)
    requires groupId != "" && Lists(listing, sender, groupId)
    requires forall key :: key in receiver ==> key.groupId != groupId
    requires |wire| == |listing| && forall i :: 0 <= i < |wire| ==> wire[i] == ToSnakeCase(listing[i])
    ensures var after := MergeAll(receiver, NormalizeAll(wire));
            forall key :: Find(after, key) ==
              if key.groupId != groupId then Find(receiver, key)
              else if key.invitee == "" then None
              else Find(sender, key)
  {
    assert NormalizeAll(wire) == listing;
    forall key
      ensures Find(MergeAll(receiver, listing), key) ==
        if key.groupId != groupId then Find(receiver, key) else if key.invitee == "" then None else Find(sender, key)
    {
      MergeActsPerKey(receiver, listing, key);
      assert Row(MergeAll(receiver, listing), key) == RowAfter(Row(receiver, key), listing, key);
      if key.groupId == groupId && key.invitee != "" && key in sender {
        ListedRowIsStored(listing, sender, groupId, key);
      } else {
        ListedInGroup(listing, sender, groupId, key);
        RowAfterPermission(Row(receiver, key), listing, key);
      }
    }
  }

  /** So the receiver ends with exactly the sender's rows if and only if no row has an empty invitee. */
  lemma FullSyncExactIff(sender: Table, receiver: Table, groupId: string, listing: seq<Member>, wire: seq<WireMember>)
    requires groupId != "" && Lists(listing, sender, groupId)
    requires forall key :: key in receiver ==> key.groupId != groupId
    requires |wire| == |listing| && forall i :: 0 <= i < |wire| ==> wire[i] == ToSnakeCase(listing[i])
    ensures (forall invitee :: Find(MergeAll(receiver, NormalizeAll(wire)), MemberKey(groupId, invitee))
                            == Find(sender, MemberKey(groupId, invitee)))
       <==> MemberKey(groupId, "") !in sender
  {
    FullSyncReproduces(sender, receiver, groupId, listing, wire);
  }
}
