# A verified model of D-Chat's state machines

D-Chat is a desktop messenger built on NKN, with a Go sidecar that carries calls over TUNA relays. This
project models the parts of it that keep state under concurrency, replication or loss, and proves what they
promise: over every run, every interleaving and every input.

Each component has a specification (abstract state, a `Step` for each locked region, handler or statement, and
`Run` for whole histories), theorems about that specification, and, where the source updates fields in place, a
class whose methods follow the source branch by branch and are proved to make exactly one `Step`.

| file | component |
|---|---|
| `RelayClient.dfy` | relay connection bookkeeping: sessions, handler counts, address counts, pins, the relay address cache |
| `UdpSession.dfy` | the UDP session: bounded receive queue, byte accounting, the two address maps |
| `GroupMembers.dfy`, `PrivateGroups.dfy`, `GroupVersion.dfy` | private groups: the merge rule, the cached count, the version string |
| `ChatSessions.dfy` | merging of legacy chat sessions over a cascading foreign key, and session lookup |
| `BurnAfterRead.dfy`, `BurnOptions.dfy` | deduplication, burn-after-read, and the last-write-wins burn setting |
| `VoiceCalls.dfy` | the call state machine |
| `SidecarChannel.dfy`, `SidecarSessions.dfy` | the text channel to the sidecar and its request table; the sidecar's session table |
| `MediaFrames.dfy`, `MessageFraming.dfy` | the two binary wire formats, their readers and the bounded send queue |
| `AudioCapture.dfy`, `VideoGate.dfy`, `JitterPlayback.dfy` | media loops: capture framing, the decoder gate, playback scheduling |
| `NodeChoice.dfy` | weighted choice and ordering of relay nodes |
| `Utf8.dfy` | decoding a buffer of the sidecar's output |
| `Bytes.dfy`, `Decimal.dfy`, `Sequences.dfy`, `Wrappers.dfy` | shared values and lemmas |

`dafny verify dfyconfig.toml` checks the whole project. Environment choices (whether a write fails, what the
clock shows, which row a query without an order returns, in which order a map is walked) are parameters or
events, so the theorems hold for all of them. MD5 is an arbitrary function from text to text.

## Where the code and its promise part ways

Some properties one would expect turn out not to hold. For each there is a lemma with an input that breaks the
property, and, where the property is the code's own promise, the exact condition under which it holds.

- Looking up a chat session moves messages to `direct:T` before that session row exists, although its comment
  says the messages are kept. The foreign key refuses that exactly when the canonical row is missing and the
  session found has messages (`ChatSessions.ChatService.GetOrCreateSession`,
  `ChatSessions.LegacySessionBlocksLookup`). The merge at start-up removes the cause
  (`ChatSessions.ConsolidationMakesLookupSafe`).
- After a decoder error the video gate is meant to recover on the next key frame. It does so if and only if the
  `reset` inside the error handler worked; otherwise a replacement decoder is created but "recovering" stays
  set, and every delta frame is dropped until some later reset works (`VideoGate.RecoversOnNextKeyframeIff`,
  `VideoGate.StuckUntilReset`).
- Leaving a group oneself does not recount: the stored count goes wrong exactly when one's own row was active
  (`PrivateGroups.LocalQuitDriftsIff`). A member response for one group can also carry entries that name
  another, which is then not recounted (`PrivateGroups.ForeignEntriesIff`). Reading the member list repairs both.
- Group versions are canonical, but keys are joined without a separator. Versions tell groups apart when no
  member's address is a proper prefix of another's (`GroupVersion.HashInputTellsMembersApart`); without that two
  groups can share one (`GroupVersion.VersionsCanCoincide`).
- A registered UDP session can be refused after another session took over its address and closed. All registered
  sessions are answered exactly as long as no session whose address is shared is closed
  (`UdpSession.StaysAnsweredIff`, `UdpSession.AlwaysAnsweredIff`).
- A sidecar that fails to start, or missing caller addresses, end whichever call is active by then. They end only
  their own call if and only if no other is active (`VoiceCalls.FailureEndsOnlyItsOwnIff`).
- Each buffer of the sidecar's output is decoded on its own. That goes unnoticed, whatever follows, if and only if
  the buffer does not end inside a character (`Utf8.CutIsInvisibleIff`).
- A session report without an id connects a call that a later accept then moves back; a step keeps the call
  coherent if and only if every session it links has an id (`VoiceCalls.StepCoherentIff`,
  `VoiceCalls.MissingIdMovesBack`).
- Media payloads of 65535 bytes or more wrap the 16-bit length and are misread (`MediaFrames.ReadBackIff`).
- Member rows with an empty invitee do not travel in a full synchronisation (`GroupMembers.FullSyncExactIff`).
- Burn settings made at the same time say different things depending on which arrives first: the order of
  arrival is irrelevant if and only if the newest updates agree (`BurnOptions.OrderIrrelevantIff`).
- A burned message stays hidden, through every redelivery, if and only if its session is never deleted
  (`BurnAfterRead.AlwaysHiddenIff`, `BurnAfterRead.StaysHiddenIff`).

## Model

| member | source | states |
|---|---|---|
| RelayClient.StepKeepsWellFormed | dchat-tuna/nkn-tuna-session/client.go:461-481 | no locked region retires a key twice, reopens a retired one, or drops a pin |
| RelayClient.RetiredAtMostOnce | dchat-tuna/nkn-tuna-session/client.go:464-467 | over every run a retired key never opens again, so neither an exit nor the sweep can retire it again, and no session vanishes without being retired |
| RelayClient.PinnedNeverDrains | dchat-tuna/nkn-tuna-session/client.go:1094-1112 | an address pinned from outside is in use after every run, however many handlers come and go |
| RelayClient.SurvivorsCloseNothing | dchat-tuna/nkn-tuna-session/client.go:837-848 | a handler that outlives the sweep of its session closes nothing when it leaves |
| RelayClient.EnterKeepsSessions | dchat-tuna/nkn-tuna-session/client.go:811 | counting a handler in keeps each session's count equal to its live handlers |
| RelayClient.ExitKeepsSessions | dchat-tuna/nkn-tuna-session/client.go:825-843 | counting a handler out keeps it, the count is zero exactly for the last handler of an open session, and never positive for a retired key |
| RelayClient.EnterKeepsAddresses | dchat-tuna/nkn-tuna-session/client.go:813-820 | after an entry each address count is live handlers plus pin, also when the remote had no entry |
| RelayClient.ExitKeepsAddresses | dchat-tuna/nkn-tuna-session/client.go:828-835 | the decrement never meets a missing map or goes below zero, and an entry is dropped exactly when nothing holds the address |
| RelayClient.TunaSessionClient.AcceptSession | dchat-tuna/nkn-tuna-session/client.go:461-481 | a connection is attached exactly when its session is open, or its key was never retired and a session could be created; a session is new exactly when it was not open before, and no other opens |
| RelayClient.TunaSessionClient.DialSession | dchat-tuna/nkn-tuna-session/client.go:623-625 | dialling under a fresh id opens that key, touches no other, and keeps all accounts |
| RelayClient.TunaSessionClient.EnterHandler | dchat-tuna/nkn-tuna-session/client.go:804-821 | exactly when its session is open a handler joins the live ones, counted in all three maps |
| RelayClient.TunaSessionClient.ExitHandler | dchat-tuna/nkn-tuna-session/client.go:823-849 | a handler closes its session, and retires its key, exactly when the session is open and no other handler of it is live; the cached answer goes exactly when nothing holds the address |
| RelayClient.TunaSessionClient.LeaveAddress | dchat-tuna/nkn-tuna-session/client.go:828-835 | leaving an address forgets the cached answer for its remote exactly when neither a handler nor a pin is left on it |
| RelayClient.TunaSessionClient.RemoveClosedSessions | dchat-tuna/nkn-tuna-session/client.go:878-890 | one sweep retires exactly the open sessions that report themselves closed, in whatever order the map is walked |
| RelayClient.TunaSessionClient.SetCachedPubAddrs | dchat-tuna/nkn-tuna-session/client.go:1097-1112 | the answer is cached, and exactly the listed addresses with host and port that no handler and no pin held are pinned |
| RelayClient.HostPortIsInjective | dchat-tuna/nkn-tuna-session/client.go:1106 | the text used as a map key tells addresses apart |
| RelayClient.TunaSessionClient.CacheFetchedPubAddrs | dchat-tuna/nkn-tuna-session/client.go:316-329 | a fetched answer is kept exactly when it is not a closed notice and a usable address comes before any null entry; the fault of meeting a null entry first changes nothing |
| RelayClient.TunaSessionClient.GetCachedPubAddrs | dchat-tuna/nkn-tuna-session/client.go:1069-1092 | the cache answers exactly when every listed address is live or pinned |
| RelayClient.TunaSessionClient.IsSessClosed | dchat-tuna/nkn-tuna-session/client.go:1053-1063 | an open key answers for its session, any other key is closed exactly when it was retired |
| UdpSession.ReceiveAccounting | dchat-tuna/nkn-tuna-session/udpsession.go:183-194 | in every interleaving the counter is the bytes queued plus the bytes taken and not yet subtracted, within the budget; the queue stays within its capacity; readers get a subsequence of the arrivals in order |
| UdpSession.NothingDropped | dchat-tuna/nkn-tuna-session/udpsession.go:252-259 | as long as every datagram received meets room in budget and queue, all that was received is read or queued, in order |
| UdpSession.DeliveryPositions | dchat-tuna/nkn-tuna-session/udpsession.go:183-194 | the positions of the delivered datagrams among the arrivals, strictly growing |
| UdpSession.StepKeepsAccounted | dchat-tuna/nkn-tuna-session/udpsession.go:250-261 | an arrival, a take or a late subtraction keeps the byte account and the delivery order |
| UdpSession.MapsStayCoherent | dchat-tuna/nkn-tuna-session/udpsession.go:459-470 | over every run each address entry points to a registered session at that address, also when sessions share or reuse one |
| UdpSession.OnlyRegisteredSources | dchat-tuna/nkn-tuna-session/udpsession.go:240-250 | user data is accepted only encrypted and from the address of a registered session |
| UdpSession.ReceivedIff | dchat-tuna/nkn-tuna-session/udpsession.go:234-256 | data counts as received, with the session of its source, exactly when it is encrypted and comes from a registered address, or from the dialer's peer |
| UdpSession.StaysAnsweredIff | dchat-tuna/nkn-tuna-session/udpsession.go:459-470 | a step leaves every registered session answered if and only if it does not close one whose address another registered session shares |
| UdpSession.AlwaysAnsweredIff | dchat-tuna/nkn-tuna-session/udpsession.go:459-470 | over every run all registered sessions are answered at every moment if and only if no session with a shared address is ever closed |
| UdpSession.RegisteredYetRefused | dchat-tuna/nkn-tuna-session/udpsession.go:555-558 | an input for the failing side: after an address is taken over and the second session closes, the first is registered yet refused |
| UdpSession.ReplyReturnsToSource | dchat-tuna/nkn-tuna-session/udpsession.go:479-505 | a reply to the address a reader was given goes to the datagram's source as long as that session stays open |
| UdpSession.RegistrationStays | dchat-tuna/nkn-tuna-session/udpsession.go:551-557 | a session's registered address never changes while the session stays open |
| UdpSession.UdpSession.ReceiveUser | dchat-tuna/nkn-tuna-session/udpsession.go:234-264 | a datagram is queued, and its bytes counted, exactly when it is encrypted, comes from a registered address or the dialer's peer, leaves the budget unreached and finds a free place; a dialer without a peer faults exactly on encrypted data |
| UdpSession.UdpSession.Lookup | dchat-tuna/nkn-tuna-session/udpsession.go:240-248 | the source of a datagram is known exactly when it belongs to a session, and then the session address is the one the datagram is received with; a missing peer is a fault |
| UdpSession.UdpSession.TakeDatagram | dchat-tuna/nkn-tuna-session/udpsession.go:183-185 | a reader gets the oldest queued datagram, cut to its buffer, while its bytes stay counted |
| UdpSession.UdpSession.SettleDatagram | dchat-tuna/nkn-tuna-session/udpsession.go:187-189 | the later subtraction takes off the whole datagram's bytes, whatever happened in between |
| UdpSession.UdpSession.HandleSessionId | dchat-tuna/nkn-tuna-session/udpsession.go:543-559 | only a listener registers a session, once, and both maps get the entry |
| UdpSession.UdpSession.HandleCloseMessage | dchat-tuna/nkn-tuna-session/udpsession.go:561-564 | a close message ends the session registered at its source and no other |
| UdpSession.UdpSession.HandleConnClosed | dchat-tuna/nkn-tuna-session/udpsession.go:459-476 | a closed connection removes its session from both maps, or drops the dialer's peer |
| UdpSession.UdpSession.Close | dchat-tuna/nkn-tuna-session/udpsession.go:398-424 | closing forgets every session of a listener, or the dialer's peer |
| UdpSession.UdpSession.GetUdpAddr | dchat-tuna/nkn-tuna-session/udpsession.go:479-505 | a dialer replies to its peer, a listener only to sessions still registered, at their registered address |
| UdpSession.PeerStaysMissing | dchat-tuna/nkn-tuna-session/udpsession.go:417 | a dropped peer never comes back, so the fault of a closed dialer lasts over every run |
| GroupMembers.ToSnakeCase | src/main/services/private-group-service.ts:1448-1460 | normalising the snake_case form gives the member back |
| GroupMembers.CamelCaseIsRead | src/main/services/private-group-service.ts:1303-1313 | camelCase names are read too and win over snake_case ones |
| GroupMembers.MissingFieldsAreEmpty | src/main/services/private-group-service.ts:1303-1313 | an entry without a permission makes nobody an active member, and one without invitee or group is skipped |
| GroupMembers.MergeActsPerKey | src/main/services/private-group-service.ts:1301-1319 | merging a list treats each member's row separately |
| GroupMembers.MergeSettlesPermissions | src/main/services/private-group-service.ts:1314-1318 | each listed member ends with the permission of its last valid entry; rows not listed are unchanged |
| GroupMembers.MergeStoresNews | src/main/services/private-group-service.ts:1315-1318 | a member's only entry is stored whole when the member is new or known with another permission |
| GroupMembers.MergeKeepsAgreeingRow | src/main/services/private-group-service.ts:1316 | entries that carry the stored permission leave the whole row as it was |
| GroupMembers.MergeIsIdempotent | src/main/services/private-group-service.ts:1284-1319 | applying the same response twice equals once, with any duplicates and conflicting entries |
| GroupMembers.FullSyncReproduces | src/main/services/private-group-service.ts:1222-1246 | a full member list sent to a table without that group reproduces the sender's rows and touches nothing else |
| GroupMembers.FullSyncExactIff | src/main/services/private-group-service.ts:1314 | the receiver ends with exactly the sender's rows if and only if no row of the group has an empty invitee |
| GroupVersion.SortedIsUnique | src/main/crypto/ed25519-signature.ts:106-108 | two sorted arrangements of the same keys are equal |
| GroupVersion.VersionIsCanonical | src/main/crypto/ed25519-signature.ts:100-113 | the version is the same for any order of the same members |
| GroupVersion.AnySortWillDo | src/main/crypto/ed25519-signature.ts:108-110 | whatever sorted permutation the sort returns, the hashed text is the same |
| GroupVersion.HashInputTellsMembersApart | src/main/crypto/ed25519-signature.ts:106-110 | among addresses none of which is a proper prefix of another, with any permissions, the hashed text is the same if and only if the members are |
| GroupVersion.VersionTellsMembersApart | src/main/crypto/ed25519-signature.ts:111-112 | with a hash that does not collide on the two texts, the same holds of the versions |
| GroupVersion.JoinedKeysSplit | src/main/crypto/ed25519-signature.ts:107-110 | joined keys of such members can be taken apart in one way only |
| GroupVersion.OneLengthIsPrefixFree | src/main/crypto/ed25519-signature.ts:107 | addresses of one length satisfy the condition |
| GroupVersion.VersionsCanCoincide | src/main/crypto/ed25519-signature.ts:107-110 | an input outside it: two different groups, one address continuing another, with the same version |
| GroupVersion.CommitFollows | src/main/services/private-group-service.ts:552 | parsing a printed version recovers its commit number, so the next one is one more |
| GroupVersion.OddVersions | src/main/services/private-group-service.ts:552 | a version without a commit number counts as the first, and one that starts with something else has no next |
| PrivateGroups.CountStaysInSync | src/main/services/private-group-service.ts:744-749 | over every run of accepts, quits, kicks, responses and reads, repeats and unknown members included, the stored count is the number of active rows |
| PrivateGroups.GetMembersRepairs | src/main/services/private-group-service.ts:1399-1411 | reading the member list puts the count right, whatever happened before |
| PrivateGroups.LocalQuitDriftsIff | src/main/services/private-group-service.ts:656-690 | leaving oneself keeps the count right if and only if one's own row was not active |
| PrivateGroups.ForeignEntriesIff | src/main/services/private-group-service.ts:1321-1323 | a response leaves another group's number of active rows alone in every store if and only if no valid entry names that group |
| PrivateGroups.CommitCountsAccepts | src/main/services/private-group-service.ts:546-557 | over every run the printed and re-parsed commit number grows by exactly the number of accepts for that group |
| PrivateGroups.FromCreation | src/main/services/private-group-service.ts:136-153 | from creation on the count is right, and after n accepts the commit number is n + 1 |
| PrivateGroups.PrivateGroupService.SelectRows | src/main/db/repositories/private-group-member-repository.ts:78-83 | the query lists each matching row once, in order of falling permission, with ties in any order |
| PrivateGroups.PrivateGroupService.SetCountFromActive | src/main/services/private-group-service.ts:747-749 | the stored count becomes the number of active rows, and no other group changes |
| PrivateGroups.PrivateGroupService.CreateGroup | src/main/services/private-group-service.ts:136-153 | a new group starts with one active row, the count in step and commit 1, and every other group that was in step stays so |
| PrivateGroups.PrivateGroupService.OnInviteeAccept | src/main/services/private-group-service.ts:525-557 | a valid accept stores the payload whole as a normal, active member, leaves every other row and group alone, makes the count that of the active members, and gives their version under the next commit; an invalid one changes nothing |
| PrivateGroups.PrivateGroupService.OnMemberQuit | src/main/services/private-group-service.ts:738-749 | a valid quit leaves the member inactive and every other row as it was, and stores the number of active rows; an unknown member adds none, and an invalid quit changes nothing |
| PrivateGroups.PrivateGroupService.KickOutMember | src/main/services/private-group-service.ts:791-809 | only the owner kicks; the one kicked is no longer active, every other row is as it was, the number of active rows is stored, and the whole list goes to every other active member |
| PrivateGroups.PrivateGroupService.SyncMembersToAll | src/main/services/private-group-service.ts:1222-1246 | every row, in wire form that normalises back, goes to every other active member once, and nothing is sent exactly when there is none |
| PrivateGroups.PrivateGroupService.MembersData | src/main/services/private-group-service.ts:1240 | the data sent normalises to exactly the group's rows, each once |
| PrivateGroups.PrivateGroupService.OnMemberRequest | src/main/services/private-group-service.ts:1259-1281 | an active member of the group is sent all its rows, anyone else nothing |
| PrivateGroups.PrivateGroupService.OnMemberResponse | src/main/services/private-group-service.ts:1295-1323 | for a known group each member listed ends with the permission of its last valid entry, an only entry with news is stored whole, every other row stays, and the number of active rows is stored; for an unknown group nothing changes |
| PrivateGroups.PrivateGroupService.ListMembers | src/main/services/private-group-service.ts:1399-1414 | all rows are listed and the count is repaired where it differs |
| PrivateGroups.PrivateGroupService.Quit | src/main/services/private-group-service.ts:656-661 | leaving makes one's own row inactive and the group not joined, and nothing else; it fails for an unknown group |
| ChatSessions.ConsolidateOneMore | src/main/services/chat-service.ts:82-102 | consolidating some targets and then one more consolidates them all |
| ChatSessions.ConsolidatedMeans | src/main/services/chat-service.ts:82-102 | row by row: where each message ends up, which sessions are left, and that a new direct:T row is an unmuted copy of a session of T that none is more recent than |
| ChatSessions.ConsolidationLosesNothing | src/main/db/migrations/001-initial-schema.ts:39 | despite cascading deletes no message is lost or changed beyond its session, and every foreign key holds |
| ChatSessions.OneSessionPerTarget | src/main/services/chat-service.ts:83-95 | each direct target ends with the single session direct:T, which holds exactly the messages of its sessions |
| ChatSessions.OtherSessionsUntouched | src/main/services/chat-service.ts:74-80 | topic and group sessions and their messages stay as they were |
| ChatSessions.RerunChangesNothing | src/main/services/chat-service.ts:85-87 | a second consolidation is a no-op |
| ChatSessions.ConsolidationMakesLookupSafe | src/main/services/chat-service.ts:1308-1319 | after consolidation the session lookup is never refused by the foreign key |
| ChatSessions.LegacySessionBlocksLookup | src/main/services/chat-service.ts:1312-1317 | one legacy session with one message makes the lookup fail |
| ChatSessions.ChatService.UpdateSessionId | src/main/db/repositories/message-repository.ts:106-110 | moving messages succeeds exactly when the target row exists or there is nothing to move; it loses no message, leaves none behind and keeps every foreign key |
| ChatSessions.ChatService.DeleteById | src/main/db/migrations/001-initial-schema.ts:39 | deleting a session takes all its messages along and no others, and breaks no foreign key |
| ChatSessions.ChatService.Upsert | src/main/db/repositories/session-repository.ts:39-62 | a repeated insert keeps kind, target, mute and creation time, every foreign key, and the form of direct ids |
| ChatSessions.ChatService.FindAll | src/main/db/repositories/session-repository.ts:64-69 | every session row is listed once, the most recently used first, ties in any order |
| ChatSessions.ChatService.Latest | src/main/services/chat-service.ts:91-93 | the row copied to the canonical id is the first of the most recently used ones |
| ChatSessions.ChatService.GroupByTarget | src/main/services/chat-service.ts:72-80 | every direct session lands in the group of its target, once, and no other session does |
| ChatSessions.ChatService.ConsolidateTarget | src/main/services/chat-service.ts:83-101 | one target is consolidated and no statement fails on the foreign key |
| ChatSessions.ChatService.ConsolidateLegacySessions | src/main/services/chat-service.ts:69-106 | no statement ever fails; every message ends in direct:T of its session's target with its text, the sessions left are the topics, the groups and one direct:T per target, and a new one copies the most recent |
| ChatSessions.ChatService.GetOrCreateSession | src/main/services/chat-service.ts:1301-1339 | the lookup is refused, with nothing changed, if and only if direct:T is missing and the session found has messages; otherwise direct:T exists afterwards, as the blank row if it is new, and no message was touched |
| BurnAfterRead.HiddenExactlyWhenTickedDue | src/main/services/chat-service.ts:148-160 | over every run that spares its own session a stored message keeps its row unchanged and is hidden exactly when some tick came at or after its time |
| BurnAfterRead.FirstDeliveryWins | src/main/services/chat-service.ts:782-785 | the first delivery decides the row; redeliveries with any burn time change nothing |
| BurnAfterRead.HiddenAfterItsTime | src/main/services/chat-service.ts:812-816 | from its first delivery on a message is hidden if and only if some later tick comes its burn time in seconds after it, or later |
| BurnAfterRead.NothingDueStaysVisible | src/main/db/repositories/message-repository.ts:177-184 | after a tick nothing visible is due |
| BurnAfterRead.AnnouncesOnlyNew | src/main/services/chat-service.ts:154-160 | a tick announces only messages never announced before |
| BurnAfterRead.AnnouncedExactlyWhenHidden | src/main/services/chat-service.ts:154-160 | over every run an id is announced burned exactly when its message is hidden |
| BurnAfterRead.StaysHiddenIff | src/main/db/migrations/001-initial-schema.ts:39 | a burned message stays hidden through a session deletion and a redelivery if and only if it was another session |
| BurnAfterRead.AlwaysHiddenIff | src/main/services/chat-service.ts:782-785 | over every run a burned message is hidden at every moment if and only if its session is never deleted |
| BurnAfterRead.MessageStore.HandleIncoming | src/main/services/chat-service.ts:782-845 | a message is stored exactly when its id is new, visible, and due 1000 ms after now for each second of its burn time, or never |
| BurnAfterRead.MessageStore.BurnTick | src/main/services/chat-service.ts:150-166 | one tick hides exactly the messages with delete_at at or before it, changes nothing else about any, pushes each newly hidden one once, and blanks the previews of exactly their sessions |
| BurnOptions.NewestWins | src/main/services/chat-service.ts:937-941 | after any sequence of updates the setting is the newest one that counts, or the old one |
| BurnOptions.ArrivalOrderIrrelevant | src/main/services/chat-service.ts:819-826 | when the newest updates agree the outcome does not depend on arrival order or duplicates |
| BurnOptions.OrderIrrelevantIff | src/main/services/chat-service.ts:937-941 | all arrangements of a list of updates lead to one setting if and only if its counting updates with the greatest time carry one setting |
| BurnOptions.DistinctTimesAgree | src/main/services/chat-service.ts:937-941 | updates with distinct times satisfy that condition |
| BurnOptions.SwapMattersIff | src/main/services/chat-service.ts:822 | two updates fail to commute exactly when both count, have equal times and say different things |
| BurnOptions.ContactBook.SyncFromMessage | src/main/services/chat-service.ts:818-827 | only the sender's existing contact changes, and only to a newer setting |
| BurnOptions.ContactBook.HandleContactOptions | src/main/services/chat-service.ts:934-941 | only the sender's existing contact changes, and an update that is not newer is ignored |
| VoiceCalls.StepCoherentIff | src/main/services/voice-call-service.ts:586-594 | a step keeps "has a session id", "is connected" and "has started" equivalent if and only if a session it links has an id |
| VoiceCalls.StepInOrderIff | src/main/services/voice-call-service.ts:584-598 | no event takes back what was shown, and an event keeps the call coherent and its states in order if and only if a session it links has an id |
| VoiceCalls.StepKeepsOrdered | src/main/services/voice-call-service.ts:522-534 | no step shows a call going back, and nothing is shown of an activation after its end |
| VoiceCalls.CallsMoveForward | src/main/services/voice-call-service.ts:448-462 | over every run, whichever of remote accept, incoming session and dial result comes first, calls stay coherent and are never shown moving back |
| VoiceCalls.MissingIdMovesBack | src/main/services/voice-call-service.ts:588 | a session reported without an id breaks the order |
| VoiceCalls.FailureEndsOnlyItsOwnIff | src/main/services/voice-call-service.ts:234-238 | a failed sidecar start, or missing caller addresses, ends its own call and no other if and only if no other call is active by then |
| VoiceCalls.LateFailureEndsNextCall | src/main/services/voice-call-service.ts:317-320 | an input for the failing side: hang up, call again, and the old failure ends the new call |
| VoiceCalls.VoiceCallService.BeginCall | src/main/services/voice-call-service.ts:212-227 | unless a call is active, a new activation with this id and address is shown ringing |
| VoiceCalls.VoiceCallService.HandleIncomingInvite | src/main/services/voice-call-service.ts:424-446 | an invite during a call is declined, otherwise it is remembered as the incoming call |
| VoiceCalls.VoiceCallService.AcceptIncoming | src/main/services/voice-call-service.ts:265-321 | only the matching incoming call is accepted; a new activation with its id and address is shown connecting, and dialled if the caller's addresses came |
| VoiceCalls.VoiceCallService.HandleRemoteAccept | src/main/services/voice-call-service.ts:448-462 | the matching call goes on, connected if it was and otherwise connecting, and is shown so; a signal for another call changes nothing |
| VoiceCalls.VoiceCallService.HandleRemoteEnd | src/main/services/voice-call-service.ts:512-520 | the matching call is shown ended and gone, its session is hung up exactly when it was connected, and a signal for another call changes nothing |
| VoiceCalls.VoiceCallService.OnDialSucceeded | src/main/services/voice-call-service.ts:476-481 | a dial result is shown as connected on its own call only, and leaves the service in order exactly when it brings an id |
| VoiceCalls.VoiceCallService.OnIncomingSession | src/main/services/voice-call-service.ts:584-604 | a session is rejected exactly when the call is already connected, and linking one leaves the service in order exactly when it has an id |
| SidecarChannel.SplitResumes | src/main/services/voice-call-service.ts:145-146 | splitting can stop anywhere, also between CR and LF, and go on from the unfinished tail |
| SidecarChannel.SplitMeans | src/main/services/voice-call-service.ts:145 | the pieces have no line ends, and joined with LF they are the text with each CR LF made LF |
| SidecarChannel.PiecesAreUnique | src/main/services/voice-call-service.ts:145 | no other list of pieces without line ends joins to that text |
| SidecarChannel.TrimMeans | src/main/services/voice-call-service.ts:148-149 | trimming takes all blanks off both ends and nothing else |
| SidecarChannel.ChunkingIsInvisible | src/main/services/voice-call-service.ts:143-152 | however the decoded stream is cut into chunks, what is dispatched is one split of the whole |
| SidecarChannel.BuffersAreInvisible | src/main/services/voice-call-service.ts:143-152 | over bytes: buffers that each end between characters dispatch one split of the decoded stream |
| Utf8.CutIsInvisibleIff | src/main/services/voice-call-service.ts:144 | decoding buffers on their own reads the same, whatever follows, if and only if the cut is not inside a character |
| Utf8.ChunksDecodeTogether | src/main/services/voice-call-service.ts:144 | buffers that each end between characters decode to the text of the whole |
| Utf8.DecodeEncoded | src/main/services/voice-call-service.ts:144 | every text is decoded back from its UTF-8 encoding, which ends between characters |
| Utf8.CutAccent | src/main/services/voice-call-service.ts:144 | an input for the failing side: an accented letter cut in two becomes two replacement characters |
| SidecarChannel.WrittenSplitsBack | src/main/services/voice-call-service.ts:145 | messages written one a line are the lines read back, with nothing left over |
| SidecarChannel.MessagesArriveIntact | src/main/services/voice-call-service.ts:143-152 | what the sidecar writes, one message a line, is exactly what is handled, in order, for every chunking |
| SidecarChannel.MessagesArriveInBuffers | src/main/services/voice-call-service.ts:143-152 | the same over bytes, for buffers cut between characters |
| SidecarChannel.LineReader.OnData | src/main/services/voice-call-service.ts:143-152 | one buffer, decoded on its own, dispatches exactly the messages it completes and keeps the rest |
| SidecarChannel.LineReader.HandleLines | src/main/services/voice-call-service.ts:147-151 | each complete line is handled trimmed and in order, blank ones not at all |
| SidecarChannel.DispatchOne | src/main/services/voice-call-service.ts:147-150 | a line is one message, trimmed, or none when it is blank |
| SidecarChannel.SettledAtMostOnce | src/main/services/voice-call-service.ts:639-678 | over every run of replies, timeouts and failed writes the issued ids are pending or settled, never both, and no outcome ever changes |
| SidecarChannel.ReplySettlesItsRequest | src/main/services/voice-call-service.ts:563-573 | a reply settles a request exactly when that request is pending, and no other |
| SidecarChannel.Correlator.SendCommand | src/main/services/voice-call-service.ts:639-678 | every request gets a new id; a written one stays pending and unsettled, and one not writable, or whose write throws, fails at once |
| SidecarChannel.Correlator.HandleReply | src/main/services/voice-call-service.ts:563-573 | a message counts as a reply exactly when its id is pending; it then settles that request, as rejected or resolved, and no other |
| SidecarChannel.Correlator.OnTimeout | src/main/services/voice-call-service.ts:656-661 | a timeout settles a request only while it is pending |
| SidecarSessions.AnnouncedExactlyOnce | dchat-tuna/main.go:667-687 | over every run each registered session is open or announced closed, never both, and announced only once, however many parties close it |
| SidecarSessions.FirstReasonStays | dchat-tuna/main.go:668-671 | the first reason for closing a session is the one reported, and the session never comes back |
| SidecarSessions.SessionTable.Add | dchat-tuna/main.go:249-254 | a new session is entered under an id of its own |
| SidecarSessions.SessionTable.CloseSession | dchat-tuna/main.go:661-687 | closing an open session removes it and announces it with this reason; anything else is ignored |
| SidecarSessions.SessionTable.Shutdown | dchat-tuna/main.go:551-556 | shutdown leaves no session open, announces exactly those still open, as shutdown, and so every session ever registered is announced closed |
| MediaFrames.BuildFrame | dchat-tuna/main.go:336-342 | the buffer filled byte by byte is the frame's encoding |
| MediaFrames.ReadFrame | dchat-tuna/main.go:597-657 | one turn of the reader consumes exactly one frame, or stops: cleanly at the end, for a header cut in half, or for a body shorter than announced |
| MediaFrames.ReadLoop | dchat-tuna/main.go:588-659 | the loop reports exactly the events of the stream, or, when the session is closed meanwhile, those of the frames read so far |
| MediaFrames.ParseResumes | dchat-tuna/main.go:597-620 | a stream read to a clean end goes on with whatever bytes follow |
| MediaFrames.ParseOfPrefix | dchat-tuna/main.go:616-620 | cutting a stream anywhere, also inside a frame, only loses events at the end |
| MediaFrames.ReadOneFrame | dchat-tuna/main.go:377-383 | a frame with at most 65534 payload bytes is read back with type and payload intact, and a ping yields no event |
| MediaFrames.ReadLegacyFrame | dchat-tuna/main.go:649-656 | a frame without a known type byte is taken whole as audio |
| MediaFrames.OversizeIsMisread | dchat-tuna/main.go:338-340 | from 65535 payload bytes on the length wraps, and whatever follows, the frame is not read back |
| MediaFrames.ReadBackIff | dchat-tuna/main.go:588-657 | a sequence of frames is read back exactly, with nothing left over, if and only if every payload fits |
| MediaFrames.RunKeepsOrder | dchat-tuna/main.go:392-429 | over every run the writer takes an in-order subsequence of the frames offered, and the wire holds a prefix of their encodings |
| MediaFrames.DeliveredIsSubsequenceOfSent | dchat-tuna/main.go:345-350 | with drops by a full queue, closed sessions and writes that fail half-way, the reader reports an in-order subsequence of the media sent, at every moment |
| MediaFrames.NothingDropped | dchat-tuna/main.go:345-350 | while no sender meets a full queue or a closed session, every frame offered is queued or taken, in order |
| MediaFrames.EverythingArrives | dchat-tuna/main.go:402-409 | without refusals and with the queue drained, everything sent arrives |
| MediaFrames.MediaSession.SendMedia | dchat-tuna/main.go:323-350 | a frame is queued exactly when its session exists and the queue has room; the sender never waits |
| MediaFrames.MediaSession.SendPing | dchat-tuna/main.go:260-266 | the ping after dialling takes a place in the same queue |
| MediaFrames.MediaSession.WriteNext | dchat-tuna/main.go:402-421 | the writer puts the oldest frame on the wire, and stops for good after a failed write |
| MediaFrames.MediaSession.StopWriting | dchat-tuna/main.go:399-401 | a closed session puts nothing more on the wire |
| MessageFraming.LengthSurvives | dchat-tuna/nkn-tuna-session/message.go:108-109 | the four bytes hold the length modulo 2^32 |
| MessageFraming.ReadsExactlyTheEncoded | dchat-tuna/nkn-tuna-session/message.go:132-154 | reading succeeds exactly on streams that start with the encoding of a message within the limit |
| MessageFraming.ReadErrorsMean | dchat-tuna/nkn-tuna-session/message.go:137-151 | exactly when reading fails with an end of stream, a stream broken off, or a message over the limit |
| MessageFraming.ReadBackIff | dchat-tuna/nkn-tuna-session/message.go:104-154 | a sequence of messages is read back exactly, and then the stream ends cleanly, if and only if each is within the reader's limit |
| MessageFraming.Connection.WriteMessage | dchat-tuna/nkn-tuna-session/message.go:104-130 | a write puts the whole encoding on the connection, and a failed one a proper prefix of it |
| MessageFraming.Connection.ReadMessage | dchat-tuna/nkn-tuna-session/message.go:132-154 | a read returns what the stream's start decodes to and consumes exactly that |
| AudioCapture.FramesByPosition | src/renderer/workers/audio-processor.worklet.ts:43-50 | frame k holds samples 960 k to 960 k + 959, and less than a frame is held back |
| AudioCapture.FramingIsUnique | src/renderer/hooks/use-voice-audio.ts:183-202 | the frames depend on the samples alone, not on the blocks they came in |
| AudioCapture.AudioCaptureProcessor.Process | src/renderer/workers/audio-processor.worklet.ts:26-54 | after every block the posted frames and the buffered rest are all samples heard, the position is below 960, and frames posted earlier are unaltered |
| AudioCapture.AudioCaptureProcessor.Copy | src/renderer/workers/audio-processor.worklet.ts:35-41 | each turn takes at least one sample and appends exactly those it takes |
| VideoGate.StepKeepsConsistent | src/renderer/hooks/use-video.ts:259-326 | every frame, error and throw keeps the gates, the counters and the decoder's history consistent |
| VideoGate.DeltaFollowsKey | src/renderer/hooks/use-video.ts:274-291 | over every run of errors, throws and re-creations, a delta chunk given to the decoder follows a key chunk given since its last creation or reset |
| VideoGate.FramesAccountedFor | src/renderer/hooks/use-video.ts:259-325 | over every run each frame received was decoded or dropped, the decoded ones are those in the decoder's history, and time is counted for all |
| VideoGate.ChunkTimes | src/renderer/hooks/use-video.ts:293-297 | every chunk given to the decoder carries its place among the frames received, times the frame duration |
| VideoGate.ChunksInOrder | src/renderer/hooks/use-video.ts:293-301 | chunks reach the decoder in the order of their frames, each at most once |
| VideoGate.StuckUntilReset | src/renderer/hooks/use-video.ts:304-324 | while "recovering" is set no delta frame is decoded, through key frames and re-creations, until a reset works |
| VideoGate.RecoversOnNextKeyframeIff | src/renderer/hooks/use-video.ts:195-207 | recovery on the next key frame happens if and only if the reset in the error handler worked |
| VideoGate.HealthyRunDecodesAll | src/renderer/hooks/use-video.ts:299-303 | past the first key frame and without trouble nothing is dropped |
| VideoGate.VideoReceiver.OnVideoData | src/renderer/hooks/use-video.ts:261-326 | a frame reaches the decoder exactly when it is a key frame or follows one outside recovery, the decoder is configured and the decode does not throw, with the time of its place; what a failure leaves behind is stated case by case |
| VideoGate.VideoReceiver.Decode | src/renderer/hooks/use-video.ts:299-324 | a frame offered is decoded, or dropped once with the decoder created anew or repaired |
| VideoGate.VideoReceiver.OnDecoderError | src/renderer/hooks/use-video.ts:195-207 | an error closes the gates, and reopens delta decoding only with a reset that works |
| VideoGate.ReadFrames | src/renderer/hooks/use-video.ts:224-252 | of the frames handed to the encoder the 1st, 16th, 31st and so on are key frames, and every capture is handed over or counted dropped |
| JitterPlayback.StartsAreSpaced | src/renderer/hooks/use-voice-audio.ts:50-57 | whatever the clock does, no frame starts in the past, and frames start at least one frame apart |
| JitterPlayback.WaitIsBounded | src/renderer/hooks/use-voice-audio.ts:51-55 | on a clock that does not run backwards a frame waits no longer than the frames before it take, plus the lookahead |
| JitterPlayback.GaplessIff | src/renderer/hooks/use-voice-audio.ts:35-36 | playback is gapless if and only if every frame is scheduled no later than its seamless start |
| JitterPlayback.Player.DrainBuffer | src/renderer/hooks/use-voice-audio.ts:36-59 | draining schedules each queued frame once, in order, and leaves none; without an open context it does nothing |
| JitterPlayback.Player.Schedule | src/renderer/hooks/use-voice-audio.ts:42-57 | the oldest queued frame is started at its time, and the next play time is one frame later |
| JitterPlayback.Player.PlayAudioFrame | src/renderer/hooks/use-voice-audio.ts:62-82 | nothing plays before the third frame, from then on every frame accepted has been scheduled, and frames without an open context are dropped |
| NodeChoice.Weight | dchat-tuna/nkn-tuna-session/node.go:30-32 | every measured node has a positive weight, so none is excluded |
| NodeChoice.WeightGrows | dchat-tuna/nkn-tuna-session/node.go:30-32 | more bandwidth or less delay never lowers the weight |
| NodeChoice.TwiceAsGoodSixteenfold | dchat-tuna/nkn-tuna-session/node.go:30-32 | doubling the ratio of bandwidth to delay, each counted from one, makes a node sixteen times as likely |
| NodeChoice.HitIsUnique | dchat-tuna/nkn-tuna-session/node.go:46 | a point of the weight line belongs to one node only |
| NodeChoice.ShareOfDraws | dchat-tuna/nkn-tuna-session/node.go:45-46 | a node is picked exactly on a range of draws as long as its share of the total weight |
| NodeChoice.Search | dchat-tuna/nkn-tuna-session/node.go:46 | the search finds the first cumulative weight above the point |
| NodeChoice.FillCdf | dchat-tuna/nkn-tuna-session/node.go:39-43 | the array holds the cumulative weights, strictly increasing |
| NodeChoice.WeightedRandomChoice | dchat-tuna/nkn-tuna-session/node.go:34-47 | the choice is the node whose stretch of the weight line the draw hits, without wrapping around, and -1 for no nodes |
| NodeChoice.FrontedKeepsOthers | dchat-tuna/nkn-tuna-session/node.go:52-54 | moving one node to the front loses none and keeps the others by weight |
| NodeChoice.MoveToFront | dchat-tuna/nkn-tuna-session/node.go:52-54 | the swaps move the chosen element to the front and leave the others in their order |
| NodeChoice.SortMeasuredNodes | dchat-tuna/nkn-tuna-session/node.go:49-55 | for every outcome of sort and draw: a permutation with the drawn node first and the others in non-increasing weight |

## Left out

- RelayClient.TunaSessionClient.AcceptSession: retired keys are kept for good; the source forgets them after five minutes, after which an accept could open such a key again.
- RelayClient.TunaSessionClient.RemoveClosedSessions: the connections of a swept session (`sessionConns`) and the closing of the session object are not part of the model.
- UdpSession.UdpSession.HandleSessionId: the source reads a map outside the lock there; the model takes each branch as one step.
- UdpSession.UdpSession.ReceiveUser: a fault of a dialer without a peer is reported and changes nothing; the end of the whole process is not modelled. Reconnects from a new port, codecs and the TCP side connections are left out.
- GroupVersion.HashInputTellsMembersApart: prefix-freeness is sufficient, not necessary; when one address does continue another, a collision also needs the continuation to read like further keys, and that exact set of lists is not described.
- PrivateGroups.CountStaysInSync: option responses, accepting an invitation and receiving one are not among the events; they set or change values without recounting.
- PrivateGroups.CommitCountsAccepts: commit numbers are unbounded, the source's are exact up to 2^53; the accept of a version whose commit does not parse is carried as "NaN" but not followed further.
- GroupVersion.NextCommit: `parseInt` on signs, blanks or a hexadecimal prefix is not modelled, since no generated version has them.
- ChatSessions.ChatService.Upsert: timestamps of update are left out.
- ChatSessions.ConsolidationMakesLookupSafe: stated for addresses that no topic or group session uses as its target; for others the refusal condition of the lookup applies as it stands.
- VoiceCalls.CallsMoveForward: the retry loop of a dial is a success or an exhaustion that may come at any time; call ids of distinct calls need not differ.
- MediaFrames.DeliveredIsSubsequenceOfSent: base64 and JSON around the frames, write deadlines and the log are left out; frames are the decoded bytes.
- BurnAfterRead.AnnouncedExactlyWhenHidden: for runs that delete no session; after a deletion a redelivered message can burn, and be announced, again.
- VideoGate.DeltaFollowsKey: whether a decode succeeds, and whether a decoder can be created or reset, is any choice of the environment; the contents of chunks are left out.
- JitterPlayback.StartsAreSpaced: times are real numbers, so rounding of 20 ms steps is not modelled; the same holds for weights and draws in NodeChoice.
- NodeChoice.SortMeasuredNodes: the library sort enters as any order by weight it may return.
- Sockets, NKN, TUNA and ncp libraries, IPFS, media codecs, Electron, React components and IPC registration: foreign code or input and output.
- Signatures, encryption and hashing: only their outcome, or an arbitrary function, enters.
- Protobuf and JSON text, and SQL beyond the statements used.
- Ordering of message status updates: the sender's own update after its await can follow a receipt.
- Settings, wallet, profile and migration stores: only easy claims.
