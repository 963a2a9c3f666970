# Verified model of a collaborative document workspace

The program keeps a workspace of text documents that several people and agents edit at once.
Every document is a replicated data type stored as checkpoints and a log of updates; a root
document maps documents to paths. A server relays updates to subscribers in rooms, and a browser
client mirrors documents into an editor and the workspace into its own state. This project models
the parts of it that are hard to get right and proves what they are for.

| module | what it models |
|---|---|
| `ReverseWindow`, `ReverseWindowStore` | deletion with a timed undo: the decisions of the two commands, and the store that carries them out on tables, log, heads and cache |
| `ReverseWindowSafety`, `ReverseWindowAcceptance` | what one command guarantees, and exactly when it is accepted |
| `ReverseWindowRuns`, `ReverseWindowClosed` | what any run with outside edits, and a run without them, guarantee |
| `ReverseWindowHeads`, `ReverseWindowOrigin` | the state vectors stored with the heads, and whose windows a request can restore |
| `ReverseWindowExample`, `HiddenFileExample` | a small workspace that meets all the hypotheses, and one in which an undo is blocked |
| `ReplicaLog`, `RootSemantics` | rebuilding documents from checkpoint and log; the root document as commands read and write it |
| `VarUint`, `YProto`, `StateVectors` | the wire codec and the comparison of content frontiers |
| `Rooms`, `RoomRuns`, `RoomMembers`, `Awareness` | rooms with bounded subscriber queues, every interleaving of their steps, and what rooms remember of their clients |
| `TextMirror`, `SharedText`, `DocumentSurface`, `MinimalReplace` | changes and deltas, the shared text with its surrogate pairs, the editor kept equal to it, and the smallest replacement between two texts |
| `SubscriberHook`, `SubscriberEdits`, `SubscriberSteps` | overlapping reads and optimistic edits across scope switches, who is shown, and which steps can come next |
| `RootNamespace`, `RootNamespaceRuns`, `RootAgreement` | the client's editor of the root document, over any sequence of operations, and where client and server read the same in it |
| `DocumentFolders`, `TiedFolders`, `DocumentTree`, `FreePath`, `Paths` | folder list with names that tie, document tree, free names, and the path functions under them |
| `ShellCommand`, `PercentEncoding`, `Routes`, `WorkspaceReducer`, `WorkspaceLedger` | the printed install command read back by a POSIX shell, routes printed and parsed, workspace events folded and what the result must show |

Each loop and each object that changes in place is a method proved against a function of its
inputs or its old state; what the program promises is then proved about those functions, over all
inputs or all runs.

## Hypotheses

- `ReplicaLog.Lawful` is all that is assumed of the replicated data type: applying a document's
  whole state to a new replica gives the document, applying the update of a flag write writes that
  flag, and iterating the entries visits all their keys. `ReverseWindowExample` gives a type that
  satisfies them.
- The canonical UUID parser is a parameter; `CanonicalIds`, used for closed runs only, says its
  results carry no white space.
- The request fingerprint is the normalised request with its version: the program hashes a JSON
  text of it, so distinct requests are taken to have distinct fingerprints.
- That a daemon, scope and tombstone operation name at most one window is not a hypothesis: the
  table's unique constraint (backend/internal/notty/store_postgres.go:159-235) is part of the
  model, and the invariant follows.
- An outside step of a run may change log, checkpoints, heads, sequence and cache, and with them
  the root document, in any way that keeps the log rebuildable; it leaves the windows alone. Only
  `EveryRunKeepsHeads` asks more of it: that it stores with a head the vector of its document, and
  that memory holds what the rows hold.
- The locale's comparison of two segments is any weak order in which nothing comes before the empty
  text: different segments may tie. The folder sort yields any permutation without a later folder
  strictly before an earlier one; where names tie, the program's comparator is not a consistent
  one, so that ECMAScript leaves the order to the implementation. The sort of a tree level is any
  permutation. Lower-casing is any map from characters to texts that keeps digits.
- Mirrored texts are sequences of UTF-16 code units. Of the editor it is used that it reads "\r\n"
  and "\r" as a newline, and reports changes with something kept between any two. Of the shared
  text it is used that splitting it right after the first half of a surrogate pair replaces the
  units on both sides by U+FFFD. All other texts are sequences of Unicode scalar values.
- The clock is an argument.

## Where the code falls short of what one would expect

- Normalising a path is not idempotent, on the server (`RootSemantics.NormalizeTwice`) or on the
  client (`RootNamespace.NormalizeTwice`): cleaning can uncover white space that trimming had not
  seen. It is idempotent on a path exactly when the result has no white space at its ends. On the
  server, entries at the other paths are out of reach of every delete and restore
  (`CommandReach`); on the client, they are listed under another path or none (`ShownAsGiven`).
- The check that keeps document paths within the workspace lets ".." itself through, and no other path
  outside (`LeavesExactlyWhen`, `ParentIsAccepted`); the commands' own check refuses it.
- The scan for other entries on a path compares keys after trimming, so an entry under a padded
  copy of the excluded key is not seen (`FreePathIsExclusive`, `PaddedTwinSlipsThrough`).
- A file whose path has a part that begins with a dot is accepted by the client and cannot be read
  by the server's commands; while the root holds one, deleted or not, no deletion can be undone
  (`HiddenFileBlocksRestores`, with a workspace in `HiddenFileStopsUndo`). Otherwise both read the same (`BothSeeTheFile`).
- The client gives a document a second entry when ids are used that differ in outer white space
  (`SecondEntryExactlyWhen`).
- The folder list is no pre-order when two different sibling names tie in the locale's comparison
  and one of the folders has something inside (`PreOrderExactlyWhen`, `TiedNamesAreMixed`).
- Editor and shared text part when a remote edit, or the text opened, has a carriage return
  (`DocumentSurface.RemoteEdit`, `ReturnsShiftTheEditor`), and when an edit starts or ends in the
  middle of a surrogate pair (`NothingLostExactlyWhen`). The smallest replacement can do the
  latter (`ReplacesExactlyWhen`, `SharedHalfIsLost`).
- The varuint decoder accepts redundant zero groups and drops the upper bits of a tenth byte;
  `CanonicalExactlyWhen` says which accepted bytes are canonical.
- A mutate callback kept from an earlier scope replaces the current scope's busy markers
  (`StaleMutateDropsBusy`, `StaleCallbackLosesMarker`).
- A write refused by the table burns an update id, since the sequence is not rolled back; tables
  and cache are (`OpenBurnsExactlyWhen`, `ConsumeBurnsExactlyWhen`, with an input for each).
- Redelivering a new activity changes the list unless it is already full of that activity.
- A route with a blank slug, document id or invite token is not read back; one with a blank slug
  and document id is read as the home of a workspace called "d" (`Routes.DocumentPath`).

## Model

| member | source | states |
|---|---|---|
| `ReverseWindowStore.Store.OpenOrReplaceReverseWindow` | backend/internal/notty/reverse_window.go:171-311 | run on the tables, the sequence and the in-memory cache, an open has exactly the effect and the answer of `OpenStep`: normalise or refuse, compare-and-swap on the generation, tombstone, log row, root head, window row, cache |
| `ReverseWindowStore.Store.OpenOrReplace` | backend/internal/notty/reverse_window.go:180-311 | the transaction after normalisation, statement by statement: replay from the stored row, the generation check, the tombstone, the write, each early exit leaving the tables and cache as they were |
| `ReverseWindowStore.Store.ConsumeReverseWindow` | backend/internal/notty/reverse_window.go:313-457 | the same for a restore: identity lookup, replay, conflict, deadline, frontier, entry and path checks, then the write |
| `ReverseWindowStore.Store.Consume` | backend/internal/notty/reverse_window.go:333-412 | the checks of a restore in their order, up to the entry to be restored |
| `ReverseWindowStore.Store.RestoreEntry` | backend/internal/notty/reverse_window.go:383-457 | finding the entry, scanning for other claims on its path, clearing the flag and storing the result |
| `ReverseWindowStore.Store.WriteFlagAndRow` | backend/internal/notty/reverse_window.go:242-309 | either the log row, the root head, the window row and the cache all change together, or only the sequence has moved |
| `ReverseWindowStore.Store.PersistReverseWindowRootUpdate` | backend/internal/notty/reverse_window.go:798-842 | a log row under a fresh id, and the root head moved by a compare-and-swap on the head read before |
| `ReverseWindowStore.Store.RecordReverseWindowRootHead` | backend/internal/notty/reverse_window.go:844-852 | the cached head moves unless it is absent or already newer |
| `ReverseWindowStore.Store.LoadReverseWindowByIdentity` | backend/internal/notty/reverse_window.go:650-673 | the row returned is the one the identity names, or none exists |
| `ReverseWindowStore.Store.ReadDocumentReverseGeneration` | backend/internal/notty/reverse_window.go:135-169 | the current generation, 0 without a window, or the error of a missing document or generation; nothing changes |
| `ReverseWindowSafety.CommitOrNothing` | backend/internal/notty/reverse_window.go:798-842 | a write commits row, log and head together or burns one update id and leaves everything else |
| `ReverseWindowSafety.CommittedKeepsLog` | backend/internal/notty/reverse_window.go:798-842 | after a committed write the log is still ascending below strictly larger heads, and the root head has grown |
| `ReverseWindowSafety.CommittedRebuilds` | backend/internal/notty/reverse_window.go:735-842 | after a committed write the root rebuilds to the updated document, every other document to what it was |
| `ReverseWindowSafety.CommittedFlip` | backend/internal/notty/root_semantics.go:75-115 | a committed write changes one entry's flag in the rebuilt, decoded namespace and nothing else |
| `ReverseWindowSafety.OpenEffect` | backend/internal/notty/reverse_window.go:171-311 | for every request and state: an accepted open has the next generation, a deadline five minutes on, one more log row whose update takes the old root to the new, and exactly one entry tombstoned; every other outcome leaves tables and cache unchanged; the invariants survive |
| `ReverseWindowSafety.ConsumeEffect` | backend/internal/notty/reverse_window.go:313-457 | for every request and state: an accepted restore happened before openedAt plus five minutes, with content dominating the required vector for every client, on an unconsumed matching window; it changes the restore columns only, makes exactly one entry active and leaves its path exclusive (up to padded twins of its key); every other outcome leaves tables and cache unchanged |
| `ReverseWindowSafety.RestoredPathIsExclusive` | backend/internal/notty/root_semantics.go:117-153 | the scan made before the write still speaks for the root after it |
| `ReverseWindowSafety.RestoreUndoesOpen` | backend/internal/notty/reverse_window.go:171-457 | an accepted open directly followed by its own accepted restore gives back the decoded namespace |
| `ReverseWindowAcceptance.WritesExactlyWhen` | backend/internal/notty/root_semantics.go:26-115 | finding an entry and finding it again to write it both succeed exactly when it decodes, belongs to the document, lies on the path, has the other flag, and its path has no white space at its ends |
| `ReverseWindowAcceptance.CommitsExactlyWhen` | backend/internal/notty/store_postgres.go:159-235 | a write commits exactly when the row meets the table's checks, references and unique constraints |
| `ReverseWindowAcceptance.OpenAcceptedExactlyWhen` | backend/internal/notty/reverse_window.go:171-311 | an open is accepted if and only if its request is well-formed, the generation is the expected one, no window carries its operation, the row is storable and the entry is an active one within reach |
| `ReverseWindowAcceptance.ConsumeAcceptedExactlyWhen` | backend/internal/notty/reverse_window.go:313-457 | a restore is accepted if and only if its request is well-formed and some window has its identity and generation, is unconsumed and unexpired, its content dominates the required vector, its entry is a tombstone within reach, its path is free and its operation unused |
| `ReverseWindowAcceptance.OpenBurnsExactlyWhen` | backend/internal/notty/reverse_window.go:171-311 | an open leaves the whole state as it was exactly when some check before its first write fails; refused after that, it has used up one update id and nothing else |
| `ReverseWindowAcceptance.ConsumeBurnsExactlyWhen` | backend/internal/notty/reverse_window.go:313-457 | the same of a restore |
| `ReverseWindowAcceptance.UndoIsAvailable` | backend/internal/notty/reverse_window.go:171-457 | directly after an accepted open, its own restore within five minutes, with a covered vector and a new operation, is accepted exactly when the path is free |
| `ReverseWindowAcceptance.OpenAnswersExactlyWhen` | backend/internal/notty/reverse_window.go:193-221 | when an open answers with a replay, a mismatch or a generation conflict, and with which values, in both directions |
| `ReverseWindowAcceptance.ConsumeAnswersExactlyWhen` | backend/internal/notty/reverse_window.go:329-355 | when a restore answers with a replay or "expired", in both directions |
| `ReverseWindowAcceptance.OpenErrorsExactlyWhen` | backend/internal/notty/reverse_window.go:171-311 | why an open of a normalised request fails, error by error and in both directions: another root, a missing document, no active entry named, one out of reach, a row the table refuses; nothing else is ever answered |
| `ReverseWindowAcceptance.ConsumeErrorsExactlyWhen` | backend/internal/notty/reverse_window.go:333-457 | the same for a restore: identity, deadline, frontier, entry, claimed path, unreadable entry, refused row |
| `ReverseWindowExample.HypothesesAreMet` | backend/internal/notty/reverse_window.go:171-457 | one small workspace meets every hypothesis of the theorems here, and in its run an open and its restore are both accepted |
| `ReverseWindowExample.TheoremsApply` | backend/internal/notty/reverse_window.go:171-457 | after the two steps of that workspace its namespace is back, and both commands are answered from the stored results long past the deadline |
| `ReverseWindowExample.RefusedOpenBurnsAnId` | backend/internal/notty/store_postgres.go:197-203 | an open whose operation another window carries is refused by the table and has used up an id |
| `ReverseWindowExample.RefusedRestoreBurnsAnId` | backend/internal/notty/store_postgres.go:204-210 | so has a restore whose operation restored another window |
| `ReverseWindowRuns.StepKeepsInvariants` | backend/internal/notty/store_postgres.go:159-235 | every step, outside edits included, keeps the table invariants (unique identities among them) |
| `ReverseWindowRuns.EveryRunFollows` | backend/internal/notty/reverse_window.go:196-457 | in every run with arbitrary outside edits between the commands, a document's window moves only by the next generation replacing it or by its own single restore |
| `ReverseWindowRuns.StampsIncrease` | backend/internal/notty/reverse_window.go:413-444 | acceptances and restores of a document strictly increase in the order (generation, restored): no generation is accepted or restored twice, none is restored after a newer one |
| `ReverseWindowRuns.GenerationsRunInOrder` | backend/internal/notty/reverse_window.go:196-221 | generations run n + 1, n + 2, … without gaps, one per acceptance, and no request is accepted twice |
| `ReverseWindowRuns.RestoreFollowsItsOpen` | backend/internal/notty/reverse_window.go:333-351 | what is restored is always the most recently accepted window, with nothing about the document in between |
| `ReverseWindowClosed.FlipKeepsSole` | backend/internal/notty/root_semantics.go:75-115 | flipping a flag keeps a document's sole entry sole and moves only the flipped one |
| `ReverseWindowClosed.OpenKeepsInStep` | backend/internal/notty/reverse_window.go:209-311 | an open keeps the entry deleted exactly while its window is pending, and is not accepted for a document whose window is |
| `ReverseWindowClosed.ConsumeKeepsInStep` | backend/internal/notty/reverse_window.go:349-456 | so does a restore |
| `ReverseWindowClosed.ClosedSystem` | backend/internal/notty/reverse_window.go:209-456 | when only commands touch a document's single root entry: opens and restores strictly alternate, the entry is deleted exactly while the current window is unconsumed, the generation counts the accepted opens, and restores are as many or one fewer |
| `ReverseWindowClosed.RetriedOpen` | backend/internal/notty/reverse_window.go:199-221 | while its window is current, a retried open gets the result stored at its first acceptance at any later time and after any steps, and changes nothing |
| `ReverseWindowClosed.RetriedRestore` | backend/internal/notty/reverse_window.go:340-355 | likewise a retried restore, whatever content frontier the retry carries |
| `ReverseWindowHeads.OpenMovesHead` | backend/internal/notty/reverse_window.go:798-852 | after an accepted open the root's head row, and the copy in memory if there was one, hold the new id, the state vector of the root as it rebuilds from then on and the time; no other head, timestamp or copy has moved |
| `ReverseWindowHeads.ConsumeMovesHead` | backend/internal/notty/reverse_window.go:798-852 | the same after an accepted restore |
| `ReverseWindowHeads.EveryRunKeepsHeads` | backend/internal/notty/reverse_window.go:735-852 | in every run whose outside steps store a document's vector with its head: every head row carries the vector its document rebuilds to, and every copy in memory is the stored head and timestamp |
| `ReverseWindowOrigin.OriginExactlyWhen` | backend/internal/notty/reverse_window.go:523-559 | a request has an origin exactly when its texts name a daemon and either "primary" or one of the daemon's agents, and then it is the canonical daemon with "primary" or "agent:" and the canonical agent |
| `ReverseWindowOrigin.OriginsTellSpeakers` | backend/internal/notty/reverse_window.go:523-551 | two requests share an origin exactly when daemon, kind and agent are the same |
| `ReverseWindowOrigin.OpenExactlyWhen` | backend/internal/notty/reverse_window.go:459-493 | what a normalised open takes from the request's texts, and that anything else is refused |
| `ReverseWindowOrigin.ConsumeExactlyWhen` | backend/internal/notty/reverse_window.go:495-521 | the same for a restore, which must not reuse the operation it undoes |
| `ReverseWindowOrigin.RestoresAreTheOpenersOwn` | backend/internal/notty/reverse_window.go:313-457 | in every run: each restore of a document undoes the last open accepted before it, comes from the same speaker, names the same operation and the generation that open was given, and comes less than 300,000,000 microseconds after it |
| `ReverseWindowOrigin.StrangersAreRefused` | backend/internal/notty/reverse_window.go:650-724 | a restore by another speaker under the operation of a window just opened is answered with an identity mismatch, whatever else it says |
| `ReplicaLog.RestoreDocument` | backend/internal/notty/reverse_window.go:735-795 | the loop over checkpoint and rows computes `Rebuild` |
| `ReplicaLog.RebuildIsReplay` | backend/internal/notty/reverse_window.go:735-795 | rebuilding from the newest checkpoint at or below the head plus the later rows equals replaying the whole log to that head |
| `ReplicaLog.NewestIsLatest` | backend/internal/notty/reverse_window.go:735-742 | the checkpoint taken is the document's latest at or below the head |
| `ReplicaLog.ReplayAfterAppend` | backend/internal/notty/reverse_window.go:798-842 | an appended row adds its update on top of its own document and changes no other |
| `ReplicaLog.FaithfulAfterAppend` | backend/internal/notty/reverse_window.go:798-842 | checkpoints stay right when rows are appended past them |
| `RootSemantics.NormalizedIsVisible` | backend/internal/notty/root_semantics.go:226-238 | a normalised command path is relative, clean, without hidden segments or backslashes, and no longer than the trimmed text |
| `RootSemantics.NormalizesExactlyWhen` | backend/internal/notty/root_semantics.go:226-238 | which paths commands accept, in one step: the trimmed text is relative, and its cleaned parts are there and none begins with a dot; the result is those parts joined |
| `RootSemantics.DocumentPathExactlyWhen` | backend/internal/notty/store.go:2277-2290 | which document paths are accepted, in one step: relative ones whose cleaned parts are there and do not lead through the parent of the workspace |
| `RootSemantics.LeavesExactlyWhen` | backend/internal/notty/store.go:2277-2290 | an accepted path has a ".." in it exactly when it is just ".." |
| `RootSemantics.ParentIsAccepted` | backend/internal/notty/store.go:2277-2290 | that one is accepted, although the check means to keep paths within the workspace; the commands refuse it |
| `RootSemantics.NormalizeTwice` | backend/internal/notty/root_semantics.go:226-238 | normalising again changes nothing exactly when the first result has no white space at its ends |
| `RootSemantics.NormalizeIsNotIdempotent` | backend/internal/notty/root_semantics.go:226-238 | a concrete path on which it does change: "a /" |
| `RootSemantics.DecodesExactlyWhen` | backend/internal/notty/root_semantics.go:170-224 | what an entry's fields must say to be read, and what is read from them, in both directions |
| `RootSemantics.WriteTarget` | backend/internal/notty/root_semantics.go:26-115 | a write goes to the entry the lookup found, and really changes its flag |
| `RootSemantics.WriteFlipsOneEntry` | backend/internal/notty/root_semantics.go:75-115 | writing the flag changes that one entry's flag in the decoded namespace and nothing else |
| `RootSemantics.ClearUndoesSet` | backend/internal/notty/root_semantics.go:75-115 | setting then clearing the flag gives back the decoded namespace |
| `RootSemantics.CommandReach` | backend/internal/notty/root_semantics.go:26-115 | some request can delete or restore an entry exactly when its decoded path has no white space at its ends |
| `RootSemantics.RootPathClaimedByOtherActiveEntry` | backend/internal/notty/root_semantics.go:117-153 | the loop over the entries computes `PathClaimed`, errors included |
| `RootSemantics.ClaimScanMeaning` | backend/internal/notty/root_semantics.go:117-153 | "free" means every entry looked at decodes and none is active on the path; "claimed" means one is |
| `RootSemantics.FreePathIsExclusive` | backend/internal/notty/root_semantics.go:133-139 | a path found free is held by no other entry exactly when no padded copy of the excluded key is active on it |
| `RootSemantics.PaddedTwinSlipsThrough` | backend/internal/notty/root_semantics.go:133-139 | two concrete entries where such a copy is |
| `Paths.CleanRules` | backend/internal/notty/store.go:2277-2290 | lexical cleaning, between any parts: empty parts and "." vanish, and so does a part together with the ".." after it |
| `Paths.CleanEnds` | backend/internal/notty/store.go:2277-2290 | what those rules leave: plain parts, after the ".." to spare if these are kept, and after none otherwise |
| `RootAgreement.ServerKeepsExactlyWhen` | backend/internal/notty/root_semantics.go:226-238 | of a path that the client keeps as it is, the server's commands keep exactly those without a part that begins with a dot |
| `RootAgreement.SpacesDiffer` | backend/internal/notty/root_semantics.go:226-238 | the white space that server and client trim differs in exactly two characters |
| `RootAgreement.BothSeeTheFile` | frontend/src/rootNamespace.ts:73-166 | after an upsert or tombstone by the client, client and server read the same document, path and flag from the entry, unless a part of the path begins with a dot: then the server cannot read it |
| `RootAgreement.UnreadableEntryBlocksRestores` | backend/internal/notty/root_semantics.go:117-153 | while the root holds an entry that does not decode, no restore of any document is accepted |
| `RootAgreement.HiddenFileBlocksRestores` | backend/internal/notty/root_semantics.go:117-238 | so one file the client has written under a path with a dotted part, deleted or not, blocks every restore |
| `RootAgreement.HiddenPathIsAccepted` | frontend/src/rootNamespace.ts:73-86 | the client accepts such a path: ".env" |
| `HiddenFileExample.HiddenFileStopsUndo` | backend/internal/notty/root_semantics.go:117-238 | a workspace with such a file in which a deletion is accepted and no request can restore it |
| `Rooms.DeliveredOrClosed` | backend/internal/notty/server_documents.go:127-151 | a sync frame ends up last in an open subscriber's queue, or the subscriber is closed; which of the two is decided by queue, payload and flag |
| `Rooms.DocumentWebsocketConn.TrySendDocument` | backend/internal/notty/server_documents.go:139-151 | never blocks: queues the frame, or refuses for a closed, full or empty case; a closed but not full queue may do either |
| `Rooms.DocumentWebsocketConn.Close` | backend/internal/notty/server_documents.go:118-125 | closing is idempotent and keeps what is queued |
| `Rooms.DocumentRoom.Add` | backend/internal/notty/rooms.go:123-130 | the subscriber joins, all others stay |
| `Rooms.DocumentRoom.Remove` | backend/internal/notty/rooms.go:132-139 | the subscriber leaves, all others stay |
| `Rooms.DocumentRoom.BroadcastSyncUpdate` | backend/internal/notty/rooms.go:156-167 | in whatever order the set is walked, every subscriber but the skipped one gets the delivery, exactly once |
| `Rooms.DocumentRoom.BroadcastDocumentBestEffort` | backend/internal/notty/rooms.go:145-154 | the same without closing anybody |
| `Rooms.DocumentRoom.ApplyAwareness` | backend/internal/notty/rooms.go:179-195 | in whatever order the update is walked the room ends up with `Merged`; listed, once each, are exactly the clients that were unknown, came with a larger clock, or departed at an equal one |
| `Awareness.MergeByClocks` | backend/internal/notty/rooms.go:183-192 | client by client: a larger clock is always taken over, a smaller one never, an equal one only as a departure; a departure taken over removes the client; clients not mentioned stay |
| `Awareness.HeldIsNewest` | backend/internal/notty/rooms.go:179-195 | over any sequence of updates: a held state was brought by one of them, and every later mention was older or repeated its clock without departing |
| `Awareness.UnknownExactlyWhen` | backend/internal/notty/rooms.go:179-195 | a client is unknown exactly when it was never mentioned, or its last mention was a departure whose clock reached what was held |
| `Awareness.ClocksNeverGoBack` | backend/internal/notty/rooms.go:179-195 | while a client stays known its clock never goes back |
| `RoomRuns.TaggedIsUntagged` | backend/internal/notty/server_documents.go:127-151 | the connections of the run model behave as the connection itself |
| `RoomRuns.StepKeepsInv` | backend/internal/notty/rooms.go:123-167 | every interleaved step (join, leave, one delivery of a broadcast, dequeue, close, direct frames) keeps the delivery invariant in every room |
| `RoomRuns.NoGaps` | backend/internal/notty/rooms.go:156-167 | in every run, an open member has been handed exactly the updates others broadcast since it joined, once each and in broadcast order |
| `RoomRuns.ByOthersMeaning` | backend/internal/notty/rooms.go:156-167 | what "the updates of others" are, number by number |
| `RoomRuns.ClosedStaysClosed` | backend/internal/notty/server_documents.go:118-125 | closing is for good |
| `RoomMembers.LogIsBroadcasts` | backend/internal/notty/rooms.go:156-167 | a room's log is the sync broadcasts that the steps began there, in order |
| `RoomMembers.MembersJoined` | backend/internal/notty/rooms.go:123-139 | a connection is a member exactly when some step joined it and none since took it out, and its number counts the broadcasts begun before that step |
| `RoomMembers.NoGapsSinceJoining` | backend/internal/notty/rooms.go:123-167 | told from the steps alone: a connection that joined at step i and is open has been handed exactly the broadcasts others began in the room after step i, once each, in order, each with its payload |
| `RoomMembers.BlockingSendDelivers` | backend/internal/notty/server_documents.go:127-137 | a blocking send ends with the frame last in the queue or at a closed connection |
| `RoomMembers.QueuesAreBounded` | backend/internal/notty/server_documents.go:90-151 | in every run no queue holds more than 64 frames |
| `RoomMembers.BroadcastsFinish` | backend/internal/notty/rooms.go:156-167 | from every state that keeps the invariant, a broadcast under way can reach the subscribers left and finish |
| `RoomMembers.QueuesDrain` | backend/internal/notty/server_documents.go:118-151 | what a connection has queued can always be written out, all of it and in order |
| `RoomMembers.DeliveryHappens` | backend/internal/notty/rooms.go:123-167 | a run from a starting server in which two connections join, one broadcasts and the other, still open, has the frame |
| `TextMirror.SimultaneousIsBackToFront` | frontend/src/DocumentSurface.tsx:413-429 | simultaneous edits equal the same edits made one by one from the back, the independent reading of CodeMirror's changes |
| `SharedText.ReplayChange` | frontend/src/DocumentSurface.tsx:416-427 | one change replayed at its running offset continues the replay of those before it, cut pairs included |
| `SharedText.ApplyCodeMirrorChangesToYText` | frontend/src/DocumentSurface.tsx:413-429 | replaying any number of reported changes with a running offset makes them all at once, on the old text with every surrogate pair cut that they cut |
| `SharedText.NothingLostExactlyWhen` | frontend/src/DocumentSurface.tsx:413-429 | the replay makes the reported changes and nothing else exactly when none of them starts or ends in the middle of a surrogate pair |
| `SharedText.HighBits` | frontend/src/DocumentSurface.tsx:413-429 | which units begin a pair: those whose six upper bits are 110110 |
| `TextMirror.YTextDeltaToCodeMirrorChanges` | frontend/src/DocumentSurface.tsx:431-447 | the loop with the running index computes `DeltaChanges` |
| `TextMirror.DeltaChangesMeanTheDelta` | frontend/src/DocumentSurface.tsx:431-447 | those changes are sorted, within the text, and do together what the delta does |
| `DocumentSurface.DocumentSurface.Dispatch` | frontend/src/DocumentSurface.tsx:229-232 | a dispatch changes the editor, line breaks in the inserted text read as newlines, and notifies the listener once |
| `DocumentSurface.DocumentSurface.UpdateListener` | frontend/src/DocumentSurface.tsx:229-232 | only edits not marked remote are replayed into the shared text |
| `DocumentSurface.DocumentSurface.Observer` | frontend/src/DocumentSurface.tsx:256-268 | only deltas of other origins are shown in the editor, as the changes built from them with line breaks read as newlines |
| `DocumentSurface.DocumentSurface.LocalEdit` | frontend/src/DocumentSurface.tsx:229-268 | one transaction and no echo; both buffers are equal afterwards exactly when the edit leaves the surrogate pairs around it whole |
| `DocumentSurface.DocumentSurface.RemoteEdit` | frontend/src/DocumentSurface.tsx:229-268 | at most one dispatch, no transaction; both buffers are equal afterwards exactly when the delta brings in no carriage return |
| `DocumentSurface.DocumentSurface.constructor` | frontend/src/DocumentSurface.tsx:208-211 | the editor opens on the text with its line breaks read as newlines, and is in step exactly when that text has no carriage return |
| `DocumentSurface.DocumentSurface.Replay` | frontend/src/DocumentSurface.tsx:229-268 | any interleaving of local and remote edits that harm nothing leaves both buffers with the text the edits mean |
| `DocumentSurface.LinesExactlyWhen` | frontend/src/DocumentSurface.tsx:208-211 | reading line breaks changes a text exactly when it has a carriage return |
| `DocumentSurface.LineBreaks` | frontend/src/DocumentSurface.tsx:208-211 | a carriage return is read as a newline, together with the newline after it if there is one |
| `DocumentSurface.ReturnsShiftTheEditor` | frontend/src/DocumentSurface.tsx:256-268 | a remote line break of two units after which the next delta reaches past the end of the editor |
| `MinimalReplace.ComputeReplace` | frontend/src/logic.ts:420-432 | the operation turns the old text into the new one, and no single replacement that does deletes or inserts fewer characters |
| `MinimalReplace.NoSmallerReplace` | frontend/src/logic.ts:420-432 | why: any other replacement reaches at least as far on both sides |
| `MinimalReplace.ApplyReplaceToYText` | frontend/src/logic.ts:434-442 | delete then insert makes the replacement on the shared text with the pairs cut that its ends cut |
| `MinimalReplace.ReplacesExactlyWhen` | frontend/src/logic.ts:434-442 | so the result is the replaced text exactly when neither end is in the middle of a surrogate pair |
| `MinimalReplace.SharedHalfIsLost` | frontend/src/logic.ts:420-442 | two characters with a common first half, for which it is not |
| `VarUint.EncodeVarUint` | internal/ycrdt/state_vector.go:44-55 | the loop writes `Encode`, seven bits at a time |
| `VarUint.Reader.ReadVarUint` | internal/ycrdt/state_vector.go:57-79 | the cursor loop computes `DecodeVarUint` and advances past what it read |
| `VarUint.Reader.ReadFull` | internal/yproto/yproto.go:64-74 | reads exactly the bytes asked for, or reports how the input ended |
| `VarUint.DecodeInvertsEncode` | internal/yproto/yproto.go:26-58 | every uint64 decodes back to itself, following bytes stay unread, never an overflow |
| `VarUint.EncodingLength` | internal/yproto/yproto.go:26-37 | an encoding has at most n bytes exactly when the value has at most 7n bits |
| `VarUint.EncodeAtMostTenBytes` | internal/yproto/yproto.go:26-37 | a uint64 takes one to ten bytes |
| `VarUint.DecodedValueFits` | internal/yproto/yproto.go:39-58 | whatever bytes arrive, a decoded value fits 64 bits |
| `VarUint.DecodeReadsAPrefix` | internal/yproto/yproto.go:39-58 | decoding depends only on the bytes it consumes |
| `VarUint.CanonicalExactlyWhen` | internal/yproto/yproto.go:26-58 | for all accepted bytes: those read are what the encoder produces exactly when there is one or the last is not zero, and a tenth is at most 1 |
| `VarUint.DecoderAcceptsNonCanonical` | internal/yproto/yproto.go:39-58 | three inputs: a redundant zero group is accepted, the upper bits of a tenth byte are dropped, an eleventh byte is an overflow |
| `VarUint.EncodedThreeHundred` | internal/yproto/yproto.go:26-37 | the order of the groups: 300 is AC 02 |
| `YProto.ReadVarBytes` | internal/yproto/yproto.go:64-74 | the cursor reads what `DecodeVarBytes` says |
| `YProto.VarBytesRoundTrip` | internal/yproto/yproto.go:60-86 | length-prefixed bytes come back, following bytes stay unread |
| `YProto.VarBytesReadAPrefix` | internal/yproto/yproto.go:64-86 | decoding them depends only on the bytes consumed |
| `YProto.DocumentRoundTrip` | internal/yproto/yproto.go:88-119 | an envelope decodes to its parts exactly when both are non-empty and nothing follows; otherwise to which error |
| `YProto.DocumentRejectsTrailing` | internal/yproto/yproto.go:93-119 | an accepted envelope is refused as soon as bytes follow it |
| `YProto.SyncRoundTrip` | internal/yproto/yproto.go:121-157 | the three sync messages come back with type and data, following bytes stay unread |
| `YProto.FirstBytes` | internal/yproto/yproto.go:9-18 | the numbers on the wire: 42 for envelopes, 0 and then 0, 1 or 2 for sync messages, and the length byte of short contents |
| `YProto.OtherTypesAreRefused` | internal/yproto/yproto.go:93-157 | any other message type or kind of sync message is refused |
| `YProto.EntryBytes` | internal/yproto/yproto.go:159-168 | the order on the wire: client, clock, length, state |
| `YProto.SignedClockRoundTrip` | internal/yproto/yproto.go:159-195 | a clock travels as its residue modulo 2^64 and comes back with its sign |
| `YProto.BuildAwarenessUpdate` | internal/yproto/yproto.go:159-168 | the loop over the clients writes the byte 1, the count and `EncodeAwarenessEntries` |
| `YProto.ReadAwarenessUpdate` | internal/yproto/yproto.go:170-195 | the loop over the entries computes `DecodeAwarenessUpdate` |
| `YProto.AwarenessRoundTrip` | internal/yproto/yproto.go:159-195 | an update decodes to the sender's map restricted to the listed clients (absent ones as zero values), signs of clocks included |
| `StateVectors.DominatesPointwise` | backend/internal/notty/reverse_window.go:726-733 | the loop's condition is the pointwise order of clocks over all clients, missing ones reading as 0 |
| `StateVectors.StateVectorDominates` | backend/internal/notty/reverse_window.go:726-733 | the early-exit loop decides it |
| `StateVectors.ReadStateVectorV1` | internal/ycrdt/state_vector.go:20-42 | the cursor loop computes `DecodeStateVectorV1`, trailing bytes refused |
| `StateVectors.StateVectorRoundTrip` | internal/ycrdt/state_vector.go:20-42 | a count and its pairs decode to the vector they list, and are refused as soon as anything follows |
| `StateVectors.VectorSurvivesTheWire` | internal/ycrdt/state_vector.go:20-42 | however its pairs are ordered, an encoded vector decodes to itself |
| `StateVectors.OnePairBytes` | internal/ycrdt/state_vector.go:20-42 | the order on the wire: count, client, clock |
| `StateVectors.EndsUnexpectedly` | internal/ycrdt/state_vector.go:57-66 | input that ends too early, at whatever point, is reported as unexpected |
| `RootNamespace.NormalizeRootPath` | frontend/src/rootNamespace.ts:23-41 | the loop pushing and popping parts computes `Normalize` |
| `RootNamespace.NormalizedIsNormal` | frontend/src/rootNamespace.ts:23-41 | the result has no empty, "." or ".." part and no backslash, and is no longer than the trimmed text |
| `RootNamespace.NormalizeTwice` | frontend/src/rootNamespace.ts:23-41 | a second pass changes nothing exactly when the first left no white space at the ends |
| `RootNamespace.RootDocument.FindEntryMap` | frontend/src/rootNamespace.ts:182-197 | the direct entry, else the first one in iteration order that names the document |
| `RootNamespace.FirstHoldingIsFirst` | frontend/src/rootNamespace.ts:182-197 | an entry that names the document with none before it that does is the one found |
| `RootNamespace.RootDocument.UpsertRootFileEntry` | frontend/src/rootNamespace.ts:73-86 | the four fields written under the document's id, or nothing for a blank id or path |
| `RootNamespace.RootDocument.MoveRootFileEntry` | frontend/src/rootNamespace.ts:88-101 | the same on the entry found for the document, wherever it is |
| `RootNamespace.RootDocument.TombstoneRootFileEntry` | frontend/src/rootNamespace.ts:103-115 | the found entry's flag is set; nothing is created |
| `RootNamespace.RootDocument.DecodeRootEntries` | frontend/src/rootNamespace.ts:42-59 | the loop decodes every readable entry, in iteration order |
| `RootNamespace.DecodesExactlyWhen` | frontend/src/rootNamespace.ts:117-166 | what an entry's fields must say to be listed, and what is read from them, in both directions |
| `RootNamespaceRuns.ProjectedExactly` | frontend/src/rootNamespace.ts:61-150 | after any sequence of operations a document whose own id is always written alike is listed under a path exactly when its last effective upsert or move left that path and no tombstone followed |
| `RootNamespaceRuns.ShownAsGiven` | frontend/src/rootNamespace.ts:23-150 | the path listed is the normalised path given exactly when that has no white space at its ends |
| `RootNamespaceRuns.AcceptedButInvisible` | frontend/src/rootNamespace.ts:73-86 | a path that is accepted and never listed: "./ /." |
| `RootNamespaceRuns.RunOneEntryPerDocument` | frontend/src/rootNamespace.ts:73-197 | ids that never differ only in outer white space get at most one entry each |
| `RootNamespaceRuns.SecondEntryExactlyWhen` | frontend/src/rootNamespace.ts:73-197 | for all ids: a second entry appears exactly when an operation adds an entry blindly beside a key that differs only in outer white space |
| `RootNamespaceRuns.PaddedIdGetsSecondEntry` | frontend/src/rootNamespace.ts:73-86 | two upserts, of " a" and "a", where it does |
| `SubscriberHook.FreshIsCurrent` | frontend/src/App.tsx:1505-1520 | in every run, the code's comparison of two numbers and two keys holds exactly when no read was started since and the scope is in view |
| `SubscriberHook.ReadLandsExactlyWhenCurrent` | frontend/src/App.tsx:1505-1521 | in every run, the answer to a read started at step j shows its ids and clears the scope's error, or sets it, exactly while no other read was started since and its scope is in view; otherwise ids, errors and busy markers stay |
| `SubscriberHook.ShownIdsBelongToTheScope` | frontend/src/App.tsx:1486-1525 | in every run, ids that are shown are the response some step brought to a read that an earlier step started for that very scope, with exactly the edits made in that scope since on top, and no read started later has ever landed |
| `SubscriberEdits.EditPicks` | frontend/src/App.tsx:1536-1540 | an optimistic edit place by place: subscribing keeps the first occurrence of every id and of the agent after them, unsubscribing keeps every place but the agent's |
| `SubscriberEdits.EditMembers` | frontend/src/App.tsx:1536-1540 | after an edit the agent is in the list exactly if it subscribed, everybody else exactly if they were before; subscribing leaves no id twice |
| `SubscriberEdits.SubscribeAppends` | frontend/src/App.tsx:1536-1540 | on a list without repetitions subscribing appends the agent unless it is there |
| `SubscriberEdits.ShownExactlyWhen` | frontend/src/App.tsx:1481-1545 | in every run in which ids are shown: an agent is among them exactly if its last edit in this scope since the newest landed read subscribed it, or there was none and that read's response had it |
| `SubscriberSteps.NextExactlyWhen` | frontend/src/App.tsx:1502-1569 | the steps a run can take next, told from the steps before: scopes can always be switched and reloaded, each read is answered once, each mutation is answered once and ends once the reload it started, if any, is answered |
| `SubscriberSteps.BusyExactlyWhen` | frontend/src/App.tsx:1526-1566 | in every run: an agent is shown as busy in a scope exactly since a mutation of it began there, with none of its mutations there ended and none of another scope begun in the meantime |
| `SubscriberSteps.ErrorAfter` | frontend/src/App.tsx:1546-1553 | of a mutation only a failure is told, and only while its scope is in view; it takes the place of any other scope's error |
| `SubscriberHook.OnlyTwoWriters` | frontend/src/App.tsx:1505-1544 | ids change only by the newest read of the scope in view or by an edit of the scope they belong to |
| `SubscriberHook.LateSettlingTouchesNothing` | frontend/src/App.tsx:1505-1566 | a read or mutation of a scope left behind changes no other scope's ids, error, busy markers or pending reads |
| `SubscriberHook.SettlingKeepsOtherIds` | frontend/src/App.tsx:1546-1566 | a settling mutation of the scope in view leaves other scopes' ids and busy markers alone |
| `SubscriberHook.StaleMutateDropsBusy` | frontend/src/App.tsx:1528-1538 | a mutate callback of an old scope keeps the current busy markers exactly when it does nothing or none were there |
| `SubscriberHook.StaleCallbackLosesMarker` | frontend/src/App.tsx:1528-1538 | a reachable run of three steps in which the marker of the scope in view is lost |
| `DocumentFolders.CollectFolders` | frontend/src/App.tsx:4097-4111 | before sorting: the root and every ancestor folder of every document, exactly once each |
| `DocumentFolders.HoldsExactlyWhen` | frontend/src/App.tsx:4097-4111 | which folders there are, told from the parts of the paths, and how path, name and depth of each read |
| `DocumentFolders.FolderListIsPreOrder` | frontend/src/App.tsx:4097-4126 | if no folder with something inside it ties with a sibling: however the sort arranges the list under its comparator, the root comes first, then every ancestor folder of every document exactly once, in a pre-order where everything inside a folder follows it as one block |
| `DocumentFolders.PreOrderExactlyWhen` | frontend/src/App.tsx:4097-4126 | for any locale comparison that is a weak order: every arrangement the sort may produce is a pre-order exactly when no folder with something inside it ties with a sibling, and none with the root |
| `TiedFolders.TiedNamesAreMixed` | frontend/src/App.tsx:4097-4126 | two canonically equivalent names, and a folder list that mixes their contents |
| `DocumentFolders.FoldersAreInPreOrder` | frontend/src/App.tsx:4097-4126 | position by position, for separated siblings: in the sorted list a folder comes before everything inside it, its inside is one block, and the root is first |
| `DocumentFolders.FoldersAreListedOnce` | frontend/src/App.tsx:4097-4126 | every ancestor folder is in any rearrangement of the list at one place only |
| `DocumentTree.BuildUnsorted` | frontend/src/App.tsx:254-280 | the loop over the documents builds `Build` |
| `DocumentTree.InsertAddsOneLeaf` | frontend/src/App.tsx:258-279 | inserting a document adds one leaf below exactly its folders and moves no other |
| `DocumentTree.IndexYieldsChild` | frontend/src/App.tsx:256-273 | an index of all folders by path holds, for the path of a segment under the current folder, exactly the child that searching the children finds, or neither finds one |
| `DocumentTree.BuildPlacesEveryDocument` | frontend/src/App.tsx:254-280 | before sorting, the leaves are the documents, each under the folders of its path |
| `DocumentTree.SortKeepsLeaves` | frontend/src/App.tsx:233-249 | sorting every level keeps all leaves in place below their folders and makes every file count right |
| `DocumentTree.TreeHoldsEveryDocumentOnce` | frontend/src/App.tsx:233-282 | in the finished tree every document is at exactly one leaf; folders and name of the leaf are the parts of its path, or the title stands for a blank one; every file count is the number of files below |
| `ShellCommand.QuotedWordRoundTrip` | frontend/src/logic.ts:32-40 | read by a POSIX shell, a quoted value is one word equal to the value, for every string |
| `ShellCommand.QuoteReadsBack` | frontend/src/logic.ts:32-40 | the same inside a longer line, whatever follows |
| `ShellCommand.LexPipeLine` | frontend/src/logic.ts:290-291 | the first line is the download, a pipe and the shell that reads it |
| `ShellCommand.InstallCommandReadsBack` | frontend/src/logic.ts:270-297 | the printed command splits into exactly the intended words, each argument equal to its value, for every input |
| `ShellCommand.Addresses` | frontend/src/logic.ts:277-278 | the backend address is the trimmed one without slashes at its end; the static one likewise, or "/daemons" below the backend if none or a blank one is given |
| `ShellCommand.BareExactlyWhen` | frontend/src/logic.ts:32-40 | a value is printed bare exactly if it is not empty and has only letters, digits and ten listed characters; otherwise it is in single quotes |
| `PercentEncoding.Utf8RoundTrip` | frontend/src/routes.ts:76-112 | UTF-8 decoding undoes encoding, for every string |
| `PercentEncoding.ComponentRoundTrip` | frontend/src/routes.ts:148-154 | decoding a path segment undoes encoding it, for every string |
| `PercentEncoding.EncodedIsInert` | frontend/src/routes.ts:76-112 | encoded text holds no slash, question mark, hash, ampersand, equals or plus sign |
| `PercentEncoding.FormRoundTrip` | frontend/src/routes.ts:21-50 | a query value written with percent-encoding is read back, for every string |
| `PercentEncoding.EncodedTexts` | frontend/src/routes.ts:76-112 | characters of one to four bytes as they are printed |
| `PercentEncoding.KeptExactlyWhen` | frontend/src/routes.ts:76-112 | a character is printed as itself exactly if it is a letter, a digit or one of nine others |
| `PercentEncoding.HexLetters` | frontend/src/routes.ts:148-154 | hexadecimal digits are read in either case, and nothing else is one |
| `PercentEncoding.PlusIsBlank` | frontend/src/routes.ts:21-50 | a plus sign in a query is read as a blank |
| `Routes.NormalizeBare` | frontend/src/routes.ts:140-146 | a path without marks and trailing slash is its own normal form |
| `Routes.ParseWithParam` | frontend/src/routes.ts:21-50 | a printed query parameter reaches the parser unchanged |
| `Routes.DocumentPath` | frontend/src/routes.ts:94-103 | what a printed document path is read as, blank slugs and ids included |
| `Routes.RouteRoundTrip` | frontend/src/routes.ts:21-112 | parsing a printed route gives it back exactly when no part of its path is blank; query values may be anything |
| `Routes.PrintedPaths` | frontend/src/routes.ts:76-112 | the printed texts themselves |
| `FreePath.UniqueDocumentPath` | frontend/src/App.tsx:182-201 | the loop returns the path if free, else the first free candidate from 2 to 9,999, else the one with the clock |
| `FreePath.CandidatesDiffer` | frontend/src/App.tsx:191-199 | different suffixes give different candidates, ignoring case |
| `FreePath.FewOthersLeaveAFreePath` | frontend/src/App.tsx:182-201 | with fewer than 9,998 documents other than the current one the chosen path is occupied by none of them ignoring case, and it is the given one exactly when that was free |
| `FreePath.CandidateStays` | frontend/src/App.tsx:125-146 | every candidate lies in the folder of the given path and has its extension |
| `FreePath.SplitName` | frontend/src/App.tsx:133-144 | a name splits before its last dot when something is on both sides |
| `FreePath.WholeName` | frontend/src/App.tsx:133-144 | any other name counts as a Markdown file's, and "" and ".md" as untitled |
| `FreePath.CandidateInserts` | frontend/src/App.tsx:194-196 | the candidate for folders, stem and extension is the same with a dash and the number after the stem |
| `FreePath.DigitsRead` | frontend/src/App.tsx:194-200 | the number is written in decimal without leading zeros |
| `WorkspaceReducer.UpsertById` | frontend/src/logic.ts:1176-1189 | the pass with the seen set computes `Upsert`: every item with the id replaced in place, appended if there was none |
| `WorkspaceLedger.ReduceIsRecord` | frontend/src/logic.ts:1005-1084 | one event keeps state and reference in agreement: every field reads what the reference tells of it, every list read by id is its last-write map, and every thread reads its journal |
| `WorkspaceLedger.RunIsRecord` | frontend/src/logic.ts:1005-1084 | so over any list of events: fields, users, daemons, agents, runs, agent events and presences as last given, and each thread with the messages it was last sent with and, after them in order, the first post under every other id |
| `WorkspaceLedger.PostReads` | frontend/src/logic.ts:1052-1063 | posting a message to a journal and adding it to the thread agree: kept are the posts with a new id, in order, and the newest of them dates the thread |
| `WorkspaceLedger.MessageArrives` | frontend/src/logic.ts:1052-1063 | afterwards the thread has the message: at its end, with the thread's date, if it had none under that id, and as before otherwise; all other threads and fields stay |
| `WorkspaceLedger.InfoIsTold` | frontend/src/logic.ts:1005-1048 | field by field: a snapshot gives the fields it has, an update of this workspace all but user, daemon and role with a blank runtime by default, a deletion blanks them |
| `WorkspaceLedger.PresencesAreKeyed` | frontend/src/logic.ts:998-1003 | presences sent as rows are keyed by actor, the last row counting; keyed ones are taken as they are, missing ones are none |
| `WorkspaceLedger.ByIdIsLast` | frontend/src/logic.ts:1176-1189 | reading a list by id gives the last item under each id in it |
| `WorkspaceReducer.RunTidy` | frontend/src/logic.ts:1005-1084 | with snapshots and threads that repeat nothing, no list ever repeats an id and no thread a message |
| `WorkspaceLedger.DistinctListIsMap` | frontend/src/logic.ts:1176-1189 | a list without repeated ids holds exactly the items of its map |
| `WorkspaceLedger.RunShowsNewest` | frontend/src/logic.ts:1025-1029 | the activities shown are the newest part of all since the last snapshot, and all of them unless there are 50 or more |
| `WorkspaceReducer.Redelivery` | frontend/src/logic.ts:1005-1084 | delivering an event again changes nothing, except a new activity, where it changes nothing exactly when the list is already 50 copies of it |

## Left out

- HTTP and websocket handlers, ping and write loops, logging, email, configuration and start-up.
- The replicated data type itself and the editor component: only the laws named above are used.
- SQL: the tables are values of the model; locks and transactions appear as one atomic command each, with commit or no effect. Workspace deletion and its cascades are not modelled.
- Store methods that change documents for other reasons: they are outside steps of a run.
- Actor columns and timestamps of update rows, and the JSON texts of "loc" and of fingerprints: modelled as the structured values they hold.
- A document frame or byte string whose length prefix is too large to allocate for: the model reports the short input as the error that reading it would give.
- The in-process `DocumentConn` of rooms.go (variable buffer, nil channel): the websocket connection with its buffer of 64, the room's subscriber in production, is modelled instead.
- Awareness convergence: a removed client loses its stored clock, so no order-independence is claimed.
- That broadcast order is the order of the log: it depends on store methods outside the model.
- SharedText.ApplyCodeMirrorChangesToYText: the shared text is one run of units; that a boundary between two of the library's items splits no pair is not captured.
- Several transactions in one editor update, inserts that are not strings, and what the editor does with a delta that reaches past its end.
- DocumentTree.BuildUnsorted: folders are values inserted recursively, so that the index holds the very objects of the tree, mutated in place, is not captured; `IndexYieldsChild` shows that an index of the tree's folders finds what the search finds.
- SubscriberHook.ShownIdsBelongToTheScope: the hook is a transition system over its refs and state, so React's own batching and rendering are not captured.
- RootNamespace.RootDocument.DecodeRootEntries: the final locale sort is not modelled; entries are in iteration order, and titles are not part of the projection. An absent entries map reads as an empty one.
- RootAgreement.BothSeeTheFile: stated for ids and normalised paths without white space at their ends; at others client and server trim different characters (`SpacesDiffer`) and may read different paths. Entries under a parent are not written by this client.
- FreePath.UniqueDocumentPath: lower-casing is per character, so the context-dependent final sigma is not covered.
- PercentEncoding.ComponentRoundTrip: strings are sequences of Unicode scalar values, so lone surrogates, on which the program throws, are not representable.
- The PowerShell commands, the reinstall and uninstall commands, and shell syntax beyond words, quotes, pipes and line continuation: the reader gives up on it.
- The home and last-document redirects of routes.ts: single lookups.
- Authentication, roles, onboarding, status labels, geometry and styling.
