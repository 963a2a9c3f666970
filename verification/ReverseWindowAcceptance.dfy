/** Exactly when the two commands are accepted, and that an opened window can be restored. */
module ReverseWindowAcceptance {
  import opened Results
  import opened VarUint
  import opened StateVectors
  import opened Paths
  import opened RootSemantics
  import opened ReplicaLog
  import opened ReverseWindow
  import opened ReverseWindowSafety

  // ---- finding and writing the entry ----

  /** The request names an entry that decodes, belongs to the document, lies on the path, has the
      flag the command means to change, and is within reach of commands. */
  ghost predicate Targets(root: Root, entryId: string, documentId: string, path: string, deleted: bool) {
    var found := EntryAt(root, TrimSpace(entryId));
    TrimSpace(entryId) != "" && TrimSpace(documentId) != "" && found.Some?
    && found.value.contentDocumentId == TrimSpace(documentId)
    && NormalizeCommandPath(path) == Some(found.value.desiredPath)
    && found.value.deleted == deleted
    && Trimmed(found.value.desiredPath, GoSpace)
  }

  predicate Writes(root: Root, entryId: string, documentId: string, path: string, deleted: bool) {
    var entry := EntryForCommand(root, entryId, documentId, path);
    entry.Some? && entry.value.deleted != deleted && SetFileDeleted(root, entry.value, deleted).Write?
  }

  /** Looking the entry up and looking it up again to write it both succeed exactly for targets. */
  lemma WritesExactlyWhen(root: Root, entryId: string, documentId: string, path: string, deleted: bool)
    ensures Writes(root, entryId, documentId, path, deleted) <==> Targets(root, entryId, documentId, path, !deleted)
  {
    hide NormalizeCommandPath, Trimmed;
    TrimProperties(entryId, GoSpace);
    TrimProperties(TrimSpace(entryId), GoSpace);
    TrimProperties(documentId, GoSpace);
    TrimProperties(TrimSpace(documentId), GoSpace);
    if NormalizeCommandPath(path).Some? { NormalizeTwice(path); }
    LookupIsTrimmed(root, entryId, documentId, path);
  }

  lemma LookupIsTrimmed(root: Root, entryId: string, documentId: string, path: string)
    ensures var entry := EntryForCommand(root, entryId, documentId, path);
            entry.Some? ==> entry.value.entryId == TrimSpace(TrimSpace(entryId)) && entry == EntryAt(root, TrimSpace(entryId))
  {
    hide NormalizeCommandPath, TrimSpace;
  }

  // ---- opening ----

  /** Every check made before the first write passes. */
  ghost predicate OpenReached<Doc(!new), Upd(!new)>(c: Crdt<Doc, Upd>, db: Db<Upd>, req: OpenCommand) {
    var d := req.contentDocumentId;
    && Present(db, db.rootId)
    && (d in db.windows ==> db.windows[d].rootDocumentId == db.rootId && !HasIdentity(db.windows[d], req.origin, req.operationId))
    && req.expectedGeneration == CurrentGeneration(db, d) && d in db.documents
    && Targets(RootOf(c, db), req.entryId, d, req.desiredPath, false)
  }

  /** The table takes the new row: another document's window has not used the operation. */
  ghost predicate OpenStorable<Upd>(db: Db<Upd>, req: OpenCommand) {
    req.expectedGeneration != 0x7FFF_FFFF_FFFF_FFFF && req.origin.daemonId in db.daemons
    && forall e | e in db.windows && e != req.contentDocumentId ::
         !(db.windows[e].origin == req.origin && db.windows[e].tombstoneOperation == req.operationId)
  }

  ghost predicate OpenAllowed<Doc(!new), Upd(!new)>(c: Crdt<Doc, Upd>, db: Db<Upd>, req: OpenCommand) {
    OpenReached(c, db, req) && OpenStorable(db, req)
  }

  /** The row, the constraints on which are all that can still refuse a write. */
  lemma CommitsExactlyWhen<Doc(!new), Upd(!new)>(
    c: Crdt<Doc, Upd>, s: State<Upd>, doc: Doc, id: string, value: string, row: Window, now: int)
    requires s.db.rootId in s.db.heads
    ensures Commit(c, s, doc, id, value, row, now).1.None? <==>
            row.generation > 0 && row.reverseUntil > row.openedAt && row.origin.daemonId in s.db.daemons
            && row.documentId in s.db.documents && IdentityFree(s.db.windows, row)
            && (row.restore.Some? ==> forall d | d in s.db.windows && d != row.documentId ::
                  !RestoredBy(s.db.windows[d], row.origin, row.restore.value.operation))
  {
    hide HasIdentity, RestoredBy, RecordHead;
  }

  lemma DecidesOpenExactlyWhen<Doc(!new), Upd(!new)>(c: Crdt<Doc, Upd>, db: Db<Upd>, req: OpenCommand)
    requires WindowsWellFormed(db)
    ensures DecideOpen(c, db, req).Proceed? <==> OpenReached(c, db, req)
  {
    hide Targets, Rebuild, EntryForCommand, SetFileDeleted, HasIdentity, UniqueIdentity;
    if req.contentDocumentId in db.windows { assert WindowWellFormed(req.contentDocumentId, db.windows[req.contentDocumentId]); }
    if db.rootId in db.heads {
      WritesExactlyWhen(RootOf(c, db), req.entryId, req.contentDocumentId, req.desiredPath, true);
    }
  }

  /** An open is accepted exactly when its request is well-formed and the state allows it. */
  lemma OpenAcceptedExactlyWhen<Doc(!new), Upd(!new)>(c: Crdt<Doc, Upd>, uuid: UuidParser, s: State<Upd>, request: OpenRequest, now: int)
    requires WellFormed(c, s)
    ensures OpenStep(c, uuid, s, request, now).1.OpenAccepted? <==>
            NormalizeOpen(uuid, request).Some? && OpenAllowed(c, s.db, NormalizeOpen(uuid, request).value)
  {
    hide LogWellFormed, WindowsWellFormed, DecideOpen, Commit, NormalizeOpen, Targets, RootOf;
    if NormalizeOpen(uuid, request).Some? {
      var req := NormalizeOpen(uuid, request).value;
      NormalizedGeneration(uuid, request);
      DecidesOpenExactlyWhen(c, s.db, req);
      match DecideOpen(c, s.db, req) {
        case Settled(outcome) => SettledOpenIsNotAccepted(c, s.db, req);
        case Proceed(doc, id, value) =>
          CommitsExactlyWhen(c, s, doc, id, value, NewWindow(s.db, req, s.sequence + 1, now), now);
      }
    }
  }

  lemma NormalizedGeneration(uuid: UuidParser, request: OpenRequest)
    ensures NormalizeOpen(uuid, request).Some? ==> NormalizeOpen(uuid, request).value.expectedGeneration >= 0
  {
    hide NormalizeCommandPath, NormalizeOrigin, TrimSpace;
  }

  // ---- restoring ----

  /** The root document that restores and opens look at. */
  ghost function RootDoc<Doc, Upd>(c: Crdt<Doc, Upd>, db: Db<Upd>): Doc
    requires db.rootId in db.heads
  {
    RebuildDoc(c, db, db.rootId)
  }

  /** Every check made before the first write passes. */
  ghost predicate RestoreReached<Doc(!new), Upd(!new)>(c: Crdt<Doc, Upd>, db: Db<Upd>, d: string, req: ConsumeCommand, now: int) {
    && Present(db, db.rootId) && d in db.windows && Present(db, d)
    && var w := db.windows[d];
    && w.origin == req.origin && w.tombstoneOperation == req.tombstoneOperationId && w.generation == req.generation
    && w.restore.None? && w.rootDocumentId == db.rootId
    && now < w.openedAt + REVERSE_WINDOW_DURATION
    && |req.contentStateVector| > 0 && DecodeStateVectorV1(req.contentStateVector).Ok?
    && (forall client: nat :: Clock(c.vector(RebuildDoc(c, db, d)), client)
                           >= Clock(DecodeStateVectorV1(req.contentStateVector).value, client))
    && Targets(RootOf(c, db), w.entryId, d, w.desiredPath, true)
    && PathClaimed(RootOf(c, db), c.keys(RootDoc(c, db)), w.entryId, w.desiredPath) == Some(false)
  }

  /** The table takes the changed row: no other window was restored by the operation. */
  ghost predicate RestoreStorable<Upd>(db: Db<Upd>, d: string, req: ConsumeCommand) {
    req.origin.daemonId in db.daemons
    && forall e | e in db.windows && e != d ::
         !(db.windows[e].origin == req.origin && db.windows[e].restore.Some?
           && db.windows[e].restore.value.operation == req.restoreOperationId)
  }

  ghost predicate RestoreGuard<Doc(!new), Upd(!new)>(c: Crdt<Doc, Upd>, db: Db<Upd>, d: string, req: ConsumeCommand, now: int) {
    RestoreReached(c, db, d, req, now) && RestoreStorable(db, d, req)
  }

  lemma DecidesRestoreExactlyWhen<Doc(!new), Upd(!new)>(c: Crdt<Doc, Upd>, db: Db<Upd>, w: Window)
    requires db.rootId in db.heads
    ensures DecideRestore(c, db, w).Proceed? <==>
            Targets(RootOf(c, db), w.entryId, w.documentId, w.desiredPath, true)
            && PathClaimed(RootOf(c, db), c.keys(RootDoc(c, db)), w.entryId, w.desiredPath) == Some(false)
  {
    hide Targets, Rebuild, EntryForCommand, SetFileDeleted, PathClaimed;
    WritesExactlyWhen(RootOf(c, db), w.entryId, w.documentId, w.desiredPath, false);
  }

  lemma DecidesConsumeExactlyWhen<Doc(!new), Upd(!new)>(c: Crdt<Doc, Upd>, db: Db<Upd>, d: string, req: ConsumeCommand, now: int)
    requires WindowsWellFormed(db) && d in db.windows
    ensures DecideConsume(c, db, Some(d), req, now).Proceed? <==>
            Present(db, db.rootId) && Present(db, d)
            && var w := db.windows[d];
            HasIdentity(w, req.origin, req.tombstoneOperationId) && w.generation == req.generation
            && w.restore.None? && w.rootDocumentId == db.rootId && now < w.openedAt + REVERSE_WINDOW_DURATION
            && |req.contentStateVector| > 0 && DecodeStateVectorV1(req.contentStateVector).Ok?
            && Dominates(c.vector(RebuildDoc(c, db, d)), DecodeStateVectorV1(req.contentStateVector).value)
            && DecideRestore(c, db, w).Proceed?
  {
    hide Rebuild, DecideRestore, HasIdentity, DecodeStateVectorV1, Dominates, UniqueIdentity;
    assert WindowWellFormed(d, db.windows[d]);
  }

  /** A restore is accepted exactly when its request is well-formed, names a window, and the state
      allows that window to be restored. */
  lemma ConsumeAcceptedExactlyWhen<Doc(!new), Upd(!new)>(c: Crdt<Doc, Upd>, uuid: UuidParser, s: State<Upd>, request: ConsumeRequest, now: int)
    requires WellFormed(c, s)
    ensures ConsumeStep(c, uuid, s, request, now).1.ConsumeAccepted? <==>
            NormalizeConsume(uuid, request).Some?
            && var req := NormalizeConsume(uuid, request).value;
            exists d :: d in s.db.windows && RestoreGuard(c, s.db, d, req, now)
  {
    hide LogWellFormed, WindowsWellFormed, ConsumeNormalized, NormalizeConsume, RestoreReached, RestoreStorable;
    if NormalizeConsume(uuid, request).Some? {
      var req := NormalizeConsume(uuid, request).value;
      var named := WindowNamed(s.db, req.origin, req.tombstoneOperationId);
      forall d | d in s.db.windows && RestoreGuard(c, s.db, d, req, now) ensures named == Some(d) {
        GuardNames(c, s.db, d, req, now);
      }
      if named.Some? {
        RestoresExactlyWhen(c, s, named.value, req, now);
      } else {
        UnnamedIsRefused(c, s, req, now);
      }
    }
  }

  lemma GuardNames<Doc(!new), Upd(!new)>(c: Crdt<Doc, Upd>, db: Db<Upd>, d: string, req: ConsumeCommand, now: int)
    requires WindowsWellFormed(db) && RestoreReached(c, db, d, req, now)
    ensures WindowNamed(db, req.origin, req.tombstoneOperationId) == Some(d)
  {
    hide Targets, PathClaimed, DecodeStateVectorV1, Rebuild, Clock;
    assert HasIdentity(db.windows[d], req.origin, req.tombstoneOperationId);
  }

  lemma UnnamedIsRefused<Doc(!new), Upd(!new)>(c: Crdt<Doc, Upd>, s: State<Upd>, req: ConsumeCommand, now: int)
    ensures !ConsumeNormalized(c, s, None, req, now).1.ConsumeAccepted?
  {
    hide Rebuild, DecodeStateVectorV1, Dominates, DecideRestore;
  }

  lemma ReachesRestoreExactlyWhen<Doc(!new), Upd(!new)>(c: Crdt<Doc, Upd>, db: Db<Upd>, d: string, req: ConsumeCommand, now: int)
    requires WindowsWellFormed(db) && d in db.windows
    ensures DecideConsume(c, db, Some(d), req, now).Proceed? <==> RestoreReached(c, db, d, req, now)
  {
    hide DecideConsume, Targets, RootOf, PathClaimed, DecodeStateVectorV1, Rebuild, Dominates, Clock, DecideRestore;
    assert WindowWellFormed(d, db.windows[d]);
    DecidesConsumeExactlyWhen(c, db, d, req, now);
    if db.rootId in db.heads {
      DecidesRestoreExactlyWhen(c, db, db.windows[d]);
      if d in db.heads && DecodeStateVectorV1(req.contentStateVector).Ok? {
        DominatesPointwise(c.vector(RebuildDoc(c, db, d)), DecodeStateVectorV1(req.contentStateVector).value);
      }
    }
  }

  lemma RestoresExactlyWhen<Doc(!new), Upd(!new)>(c: Crdt<Doc, Upd>, s: State<Upd>, d: string, req: ConsumeCommand, now: int)
    requires WellFormed(c, s) && d in s.db.windows
    ensures ConsumeNormalized(c, s, Some(d), req, now).1.ConsumeAccepted? <==> RestoreGuard(c, s.db, d, req, now)
  {
    hide LogWellFormed, DecideConsume, Commit, Targets, RootOf, PathClaimed, DecodeStateVectorV1, Rebuild, Clock;
    var w := s.db.windows[d];
    assert WindowWellFormed(d, w);
    ReachesRestoreExactlyWhen(c, s.db, d, req, now);
    match DecideConsume(c, s.db, Some(d), req, now) {
      case Settled(outcome) => SettledConsumeIsNotAccepted(c, s.db, Some(d), req, now);
      case Proceed(doc, id, value) =>
        CommitsExactlyWhen(c, s, doc, id, value, RestoredWindow(w, req, s.sequence + 1, now), now);
    }
  }

  // ---- what a refused command leaves behind ----

  /** An open leaves the whole state as it was exactly when it does not get to its first write;
      one refused after that has used up an update id, and nothing else. */
  lemma OpenBurnsExactlyWhen<Doc(!new), Upd(!new)>(c: Crdt<Doc, Upd>, uuid: UuidParser, s: State<Upd>, request: OpenRequest, now: int)
    requires WellFormed(c, s)
    ensures var (after, outcome) := OpenStep(c, uuid, s, request, now);
            var reached := NormalizeOpen(uuid, request).Some? && OpenReached(c, s.db, NormalizeOpen(uuid, request).value);
            && (after == s <==> !reached)
            && (reached && !outcome.OpenAccepted? ==> after == s.(sequence := s.sequence + 1))
  {
    hide LogWellFormed, WindowsWellFormed, DecideOpen, Commit, NormalizeOpen, OpenReached, NewWindow;
    if NormalizeOpen(uuid, request).Some? {
      var req := NormalizeOpen(uuid, request).value;
      DecidesOpenExactlyWhen(c, s.db, req);
      match DecideOpen(c, s.db, req) {
        case Settled(outcome) => SettledOpenIsNotAccepted(c, s.db, req);
        case Proceed(doc, id, value) =>
          WellFormedHasRoot(c, s);
          CommitOrNothing(c, s, doc, id, value, NewWindow(s.db, req, s.sequence + 1, now), now);
      }
    }
  }

  lemma WellFormedHasRoot<Doc(!new), Upd(!new)>(c: Crdt<Doc, Upd>, s: State<Upd>)
    requires WellFormed(c, s)
    ensures s.db.rootId in s.db.heads
  {
  }

  /** The same of a restore. */
  lemma ConsumeBurnsExactlyWhen<Doc(!new), Upd(!new)>(c: Crdt<Doc, Upd>, uuid: UuidParser, s: State<Upd>, request: ConsumeRequest, now: int)
    requires WellFormed(c, s)
    ensures var (after, outcome) := ConsumeStep(c, uuid, s, request, now);
            var reached := NormalizeConsume(uuid, request).Some?
                           && exists d :: d in s.db.windows && RestoreReached(c, s.db, d, NormalizeConsume(uuid, request).value, now);
            && (after == s <==> !reached)
            && (reached && !outcome.ConsumeAccepted? ==> after == s.(sequence := s.sequence + 1))
  {
    hide LogWellFormed, WindowsWellFormed, ConsumeNormalized, NormalizeConsume, RestoreReached;
    if NormalizeConsume(uuid, request).Some? {
      var req := NormalizeConsume(uuid, request).value;
      var named := WindowNamed(s.db, req.origin, req.tombstoneOperationId);
      forall d | d in s.db.windows && RestoreReached(c, s.db, d, req, now) ensures named == Some(d) {
        GuardNames(c, s.db, d, req, now);
      }
      if named.Some? {
        NamedBurnsExactlyWhen(c, s, named.value, req, now);
      } else {
        UnnamedChangesNothing(c, s, req, now);
      }
    }
  }

  lemma NamedBurnsExactlyWhen<Doc(!new), Upd(!new)>(c: Crdt<Doc, Upd>, s: State<Upd>, d: string, req: ConsumeCommand, now: int)
    requires WellFormed(c, s) && d in s.db.windows
    ensures var (after, outcome) := ConsumeNormalized(c, s, Some(d), req, now);
            && (after == s <==> !RestoreReached(c, s.db, d, req, now))
            && (RestoreReached(c, s.db, d, req, now) && !outcome.ConsumeAccepted? ==> after == s.(sequence := s.sequence + 1))
  {
    hide LogWellFormed, WindowsWellFormed, DecideConsume, Commit, RestoreReached, RestoredWindow;
    ReachesRestoreExactlyWhen(c, s.db, d, req, now);
    match DecideConsume(c, s.db, Some(d), req, now) {
      case Settled(outcome) => SettledConsumeIsNotAccepted(c, s.db, Some(d), req, now);
      case Proceed(doc, id, value) =>
        WellFormedHasRoot(c, s);
        CommitOrNothing(c, s, doc, id, value, RestoredWindow(s.db.windows[d], req, s.sequence + 1, now), now);
    }
  }

  lemma UnnamedChangesNothing<Doc(!new), Upd(!new)>(c: Crdt<Doc, Upd>, s: State<Upd>, req: ConsumeCommand, now: int)
    ensures ConsumeNormalized(c, s, None, req, now).0 == s
  {
    hide Rebuild, DecodeStateVectorV1, Dominates, DecideRestore;
  }

  // ---- an opened window can be restored ----

  lemma OpenKeepsDaemons<Doc(!new), Upd(!new)>(c: Crdt<Doc, Upd>, uuid: UuidParser, s: State<Upd>, request: OpenRequest, now: int)
    requires WellFormed(c, s)
    ensures var after := OpenStep(c, uuid, s, request, now).0;
            after.db.daemons == s.db.daemons && s.db.documents.Keys <= after.db.documents.Keys
  {
    hide DecideOpen, NormalizeOpen, Admissible, RecordHead, LogWellFormed, WindowsWellFormed, Rebuild;
    if NormalizeOpen(uuid, request).Some? {
      DecidesOpenExactlyWhen(c, s.db, NormalizeOpen(uuid, request).value);
    }
  }

  lemma TombstoneIsTarget(root: Root, after: Root, entryId: string, documentId: string, path: string)
    requires Targets(root, entryId, documentId, path, false)
    requires after == WithDeleted(root, TrimSpace(entryId), "true")
    ensures Targets(after, entryId, documentId, path, true)
  {
    hide NormalizeCommandPath, Trimmed, TrimSpace, RootSemantics.Decode;
    WriteFlipsOneEntry(root, TrimSpace(entryId), true);
    assert EntryAt(after, TrimSpace(entryId)) == Namespace(after)[TrimSpace(entryId)];
  }

  /** The undo works: directly after an accepted open, its own restore within the five minutes, with
      a required vector that the content covers and an operation id not used before, is accepted
      exactly when no other active entry is found on the path. */
  lemma UndoIsAvailable<Doc(!new), Upd(!new)>(
    c: Crdt<Doc, Upd>, uuid: UuidParser, s: State<Upd>, open: OpenRequest, openedAt: int, consume: ConsumeRequest, later: int)
    requires Lawful(c) && WellFormed(c, s) && OpenStep(c, uuid, s, open, openedAt).1.OpenAccepted?
    requires NormalizeOpen(uuid, open).Some? && NormalizeConsume(uuid, consume).Some?
    requires var between, req, undo := OpenStep(c, uuid, s, open, openedAt).0, NormalizeOpen(uuid, open).value, NormalizeConsume(uuid, consume).value;
             OwnUndo(c, between.db, req, undo, OpenStep(c, uuid, s, open, openedAt).1.generation)
             && later < openedAt + REVERSE_WINDOW_DURATION
    ensures var between, req := OpenStep(c, uuid, s, open, openedAt).0, NormalizeOpen(uuid, open).value;
            between.db.rootId in between.db.heads
            && (ConsumeStep(c, uuid, between, consume, later).1.ConsumeAccepted? <==>
                PathClaimed(RootOf(c, between.db), c.keys(RootDoc(c, between.db)), req.entryId, req.desiredPath) == Some(false))
  {
    hide LogWellFormed, Targets, PathClaimed, OpenStep, ConsumeStep, NormalizeOpen, NormalizeConsume, Rebuild, WithDeleted, Namespace,
         EntryAt, DecodeStateVectorV1, Clock, RestoredBy, RootDoc;
    var between := OpenStep(c, uuid, s, open, openedAt).0;
    var req, undo := NormalizeOpen(uuid, open).value, NormalizeConsume(uuid, consume).value;
    var d := req.contentDocumentId;
    OpenEffect(c, uuid, s, open, openedAt);
    OpenAcceptedExactlyWhen(c, uuid, s, open, openedAt);
    OpenKeepsDaemons(c, uuid, s, open, openedAt);
    assert WindowWellFormed(d, between.db.windows[d]);
    TombstoneIsTarget(RootOf(c, s.db), RootOf(c, between.db), req.entryId, d, req.desiredPath);
    ConsumeAcceptedExactlyWhen(c, uuid, between, consume, later);
    assert HasIdentity(between.db.windows[d], undo.origin, undo.tombstoneOperationId);
    assert RestoreGuard(c, between.db, d, undo, later) <==>
           PathClaimed(RootOf(c, between.db), c.keys(RootDoc(c, between.db)), req.entryId, req.desiredPath) == Some(false);
    forall e | e in between.db.windows && RestoreGuard(c, between.db, e, undo, later) ensures e == d {
      assert HasIdentity(between.db.windows[e], between.db.windows[d].origin, between.db.windows[d].tombstoneOperation);
    }
  }

  /** A restore of that very window, whose frontier the content has reached. */
  ghost predicate OwnUndo<Doc(!new), Upd(!new)>(c: Crdt<Doc, Upd>, db: Db<Upd>, req: OpenCommand, undo: ConsumeCommand, generation: int) {
    var d := req.contentDocumentId;
    undo.origin == req.origin && undo.tombstoneOperationId == req.operationId && undo.generation == generation && d in db.heads
    && |undo.contentStateVector| > 0 && DecodeStateVectorV1(undo.contentStateVector).Ok?
    && (forall client: nat :: Clock(c.vector(RebuildDoc(c, db, d)), client)
                           >= Clock(DecodeStateVectorV1(undo.contentStateVector).value, client))
    && (forall e | e in db.windows && e != d ::
          !(db.windows[e].origin == undo.origin && db.windows[e].restore.Some?
            && db.windows[e].restore.value.operation == undo.restoreOperationId))
  }

  // ---- the other answers ----

  /** A replay answers exactly the command that opened the current window, a mismatch exactly a
      different command under the same operation, a conflict exactly a wrong generation. */
  lemma OpenAnswersExactlyWhen<Doc(!new), Upd(!new)>(c: Crdt<Doc, Upd>, s: State<Upd>, req: OpenCommand, now: int)
    requires WellFormed(c, s)
    requires req.contentDocumentId in s.db.windows ==> s.db.windows[req.contentDocumentId].rootDocumentId == s.db.rootId
    ensures var d, answer := req.contentDocumentId, OpenNormalized(c, s, req, now).1;
            var current := if d in s.db.windows then Some(s.db.windows[d]) else None;
            var same := current.Some? && HasIdentity(current.value, req.origin, req.operationId);
            && (answer.OpenReplayed? <==> current.Some? && current.value.fingerprint == Fingerprint(1, req))
            && (answer.OpenReplayed? ==> answer == ReplayOf(current.value))
            && (answer.OperationMismatch? <==> same && current.value.fingerprint != Fingerprint(1, req))
            && (answer.GenerationConflict? <==> !same && req.expectedGeneration != CurrentGeneration(s.db, d))
            && (answer.GenerationConflict? ==> answer.current == CurrentGeneration(s.db, d))
  {
    hide DecideTombstone, Commit, UniqueIdentity;
    if req.contentDocumentId in s.db.windows { assert WindowWellFormed(req.contentDocumentId, s.db.windows[req.contentDocumentId]); }
    TombstoneAnswers(c, s.db, req);
  }

  lemma TombstoneAnswers<Doc(!new), Upd(!new)>(c: Crdt<Doc, Upd>, db: Db<Upd>, req: OpenCommand)
    requires db.rootId in db.heads
    ensures DecideTombstone(c, db, req).Settled? ==> DecideTombstone(c, db, req).outcome.OpenFailed?
  {
    hide EntryForCommand, SetFileDeleted, Rebuild;
  }

  /** A replay answers exactly a restore by the operation that consumed the window; a pending
      window answers "expired" exactly from its deadline on. */
  lemma ConsumeAnswersExactlyWhen<Doc(!new), Upd(!new)>(c: Crdt<Doc, Upd>, s: State<Upd>, d: string, req: ConsumeCommand, now: int)
    requires WellFormed(c, s) && d in s.db.windows && s.db.windows[d].rootDocumentId == s.db.rootId
    ensures var w, answer := s.db.windows[d], ConsumeNormalized(c, s, Some(d), req, now).1;
            var matches := HasIdentity(w, req.origin, req.tombstoneOperationId) && w.generation == req.generation;
            && (answer.ConsumeReplayed? <==> matches && w.restore.Some? && w.restore.value.operation == req.restoreOperationId)
            && (answer.ConsumeReplayed? ==>
                  answer == ConsumeReplayed(w.generation, w.restore.value.at, w.restore.value.updateId, s.db.rootId))
            && (answer == ConsumeFailed(Expired) <==> matches && w.restore.None? && now >= w.openedAt + REVERSE_WINDOW_DURATION)
  {
    hide DecideRestore, Commit, UniqueIdentity, Dominates, DecodeStateVectorV1, Rebuild;
    assert WindowWellFormed(d, s.db.windows[d]);
    RestoreAnswers(c, s.db, s.db.windows[d]);
    forall doc, id, value, row | Commit(c, s, doc, id, value, row, now).1.Some?
      ensures Commit(c, s, doc, id, value, row, now).1.value in {HeadChanged, ConstraintViolation}
    {
      CommitErrors(c, s, doc, id, value, row, now);
    }
  }

  lemma CommitErrors<Doc(!new), Upd(!new)>(
    c: Crdt<Doc, Upd>, s: State<Upd>, doc: Doc, id: string, value: string, row: Window, now: int)
    requires s.db.rootId in s.db.heads && Commit(c, s, doc, id, value, row, now).1.Some?
    ensures Commit(c, s, doc, id, value, row, now).1.value in {HeadChanged, ConstraintViolation}
  {
    hide Admissible, RecordHead;
  }

  lemma RestoreAnswers<Doc(!new), Upd(!new)>(c: Crdt<Doc, Upd>, db: Db<Upd>, w: Window)
    requires db.rootId in db.heads
    ensures var decision := DecideRestore(c, db, w);
            decision.Settled? ==> decision.outcome.ConsumeFailed? && decision.outcome.error != Expired
  {
    hide EntryForCommand, SetFileDeleted, Rebuild, PathClaimed;
  }

  // ---- what a refusal says ----

  /** The request names an entry that decodes, belongs to the document and lies on the path. */
  ghost predicate Finds(root: Root, entryId: string, documentId: string, path: string) {
    var found := EntryAt(root, TrimSpace(entryId));
    TrimSpace(entryId) != "" && TrimSpace(documentId) != "" && found.Some?
    && found.value.contentDocumentId == TrimSpace(documentId)
    && NormalizeCommandPath(path) == Some(found.value.desiredPath)
  }

  lemma FindsExactlyWhen(root: Root, entryId: string, documentId: string, path: string)
    ensures Finds(root, entryId, documentId, path) <==> EntryForCommand(root, entryId, documentId, path).Some?
    ensures Finds(root, entryId, documentId, path) ==>
              EntryForCommand(root, entryId, documentId, path) == EntryAt(root, TrimSpace(entryId))
  {
    hide NormalizeCommandPath, Trim;
  }

  /** Looking the found entry up again cannot find its flag set. */
  lemma FlagDiffers(root: Root, entryId: string, documentId: string, path: string, deleted: bool)
    requires Finds(root, entryId, documentId, path) && EntryAt(root, TrimSpace(entryId)).value.deleted != deleted
    ensures !SetFileDeleted(root, EntryAt(root, TrimSpace(entryId)).value, deleted).AlreadySet?
  {
    hide NormalizeCommandPath;
    TrimProperties(entryId, GoSpace);
    TrimProperties(TrimSpace(entryId), GoSpace);
  }

  lemma TombstoneAnswersExactlyWhen<Doc(!new), Upd(!new)>(c: Crdt<Doc, Upd>, db: Db<Upd>, req: OpenCommand)
    requires db.rootId in db.heads
    ensures var root, decision := RootOf(c, db), DecideTombstone(c, db, req);
            var active := Finds(root, req.entryId, req.contentDocumentId, req.desiredPath)
                          && !EntryAt(root, TrimSpace(req.entryId)).value.deleted;
            && (decision.Proceed? <==> Targets(root, req.entryId, req.contentDocumentId, req.desiredPath, false))
            && (decision.Settled? ==> decision.outcome == OpenFailed(if active then MalformedRoot else RootMismatch))
  {
    hide NormalizeCommandPath, Rebuild, EntryAt, EntryForCommand, SetFileDeleted, Targets, Finds, TrimSpace;
    var root := RootOf(c, db);
    WritesExactlyWhen(root, req.entryId, req.contentDocumentId, req.desiredPath, true);
    FindsExactlyWhen(root, req.entryId, req.contentDocumentId, req.desiredPath);
    if Finds(root, req.entryId, req.contentDocumentId, req.desiredPath) && !EntryAt(root, TrimSpace(req.entryId)).value.deleted {
      FlagDiffers(root, req.entryId, req.contentDocumentId, req.desiredPath, true);
    }
  }

  /** Why an open of a normalised request fails: the root is another one, the document is missing, no
      active entry is named, the named one is out of reach, or the table refuses the row.  Nothing else
      is ever answered. */
  lemma OpenErrorsExactlyWhen<Doc(!new), Upd(!new)>(c: Crdt<Doc, Upd>, s: State<Upd>, req: OpenCommand, now: int)
    requires WellFormed(c, s) && req.expectedGeneration >= 0
    ensures s.db.rootId in s.db.heads
    ensures var d, root, answer := req.contentDocumentId, RootOf(c, s.db), OpenNormalized(c, s, req, now).1;
            var moved := d in s.db.windows && s.db.windows[d].rootDocumentId != s.db.rootId;
            var own := d in s.db.windows && s.db.windows[d].origin == req.origin && s.db.windows[d].tombstoneOperation == req.operationId;
            var asked := !moved && !own && req.expectedGeneration == CurrentGeneration(s.db, d);
            var active := Finds(root, req.entryId, d, req.desiredPath) && !EntryAt(root, TrimSpace(req.entryId)).value.deleted;
            && (answer == OpenFailed(RootChanged) <==> moved)
            && (answer == OpenFailed(NotFound) <==> asked && d !in s.db.documents)
            && (answer == OpenFailed(RootMismatch) <==> asked && d in s.db.documents && !active)
            && (answer == OpenFailed(MalformedRoot) <==>
                  asked && d in s.db.documents && active && !Targets(root, req.entryId, d, req.desiredPath, false))
            && (answer == OpenFailed(ConstraintViolation) <==> OpenReached(c, s.db, req) && !OpenStorable(s.db, req))
            && (answer.OpenFailed? ==> answer.error in {RootChanged, NotFound, RootMismatch, MalformedRoot, ConstraintViolation})
  {
    hide LogWellFormed, WindowsWellFormed, DecideOpen, Commit, Targets, Finds, RootOf, EntryAt, Rebuild, TrimSpace;
    OpenDecisions(c, s, req);
    DecidesOpenExactlyWhen(c, s.db, req);
    match DecideOpen(c, s.db, req) {
      case Settled(outcome) =>
      case Proceed(doc, id, value) =>
        var row := NewWindow(s.db, req, s.sequence + 1, now);
        CommitsExactlyWhen(c, s, doc, id, value, row, now);
        if Commit(c, s, doc, id, value, row, now).1.Some? { CommitRefuses(c, s, doc, id, value, row, now); }
    }
  }

  /** A write read its own head, so only the constraints can refuse it. */
  lemma CommitRefuses<Doc(!new), Upd(!new)>(
    c: Crdt<Doc, Upd>, s: State<Upd>, doc: Doc, id: string, value: string, row: Window, now: int)
    requires s.db.rootId in s.db.heads && Commit(c, s, doc, id, value, row, now).1.Some?
    ensures Commit(c, s, doc, id, value, row, now).1 == Some(ConstraintViolation)
  {
    hide Admissible, RecordHead;
  }

  lemma OpenDecisions<Doc(!new), Upd(!new)>(c: Crdt<Doc, Upd>, s: State<Upd>, req: OpenCommand)
    requires WellFormed(c, s)
    ensures Present(s.db, s.db.rootId)
    ensures var d, root, decision := req.contentDocumentId, RootOf(c, s.db), DecideOpen(c, s.db, req);
            var moved := d in s.db.windows && s.db.windows[d].rootDocumentId != s.db.rootId;
            var own := d in s.db.windows && s.db.windows[d].origin == req.origin && s.db.windows[d].tombstoneOperation == req.operationId;
            var asked := !moved && !own && req.expectedGeneration == CurrentGeneration(s.db, d);
            var active := Finds(root, req.entryId, d, req.desiredPath) && !EntryAt(root, TrimSpace(req.entryId)).value.deleted;
            if moved then decision == Settled(OpenFailed(RootChanged))
            else if !asked then decision.Settled? && !decision.outcome.OpenFailed?
            else if d !in s.db.documents then decision == Settled(OpenFailed(NotFound))
            else if !active then decision == Settled(OpenFailed(RootMismatch))
            else if !Targets(root, req.entryId, d, req.desiredPath, false) then decision == Settled(OpenFailed(MalformedRoot))
            else decision.Proceed?
  {
    hide Targets, Finds, RootOf, EntryAt, Rebuild, TrimSpace, DecideTombstone, UniqueIdentity, Replay;
    if req.contentDocumentId in s.db.windows { assert WindowWellFormed(req.contentDocumentId, s.db.windows[req.contentDocumentId]); }
    TombstoneAnswersExactlyWhen(c, s.db, req);
    TargetsAreActive(RootOf(c, s.db), req.entryId, req.contentDocumentId, req.desiredPath, false);
  }

  lemma TargetsAreActive(root: Root, entryId: string, documentId: string, path: string, deleted: bool)
    ensures Targets(root, entryId, documentId, path, deleted) ==>
              Finds(root, entryId, documentId, path) && EntryAt(root, TrimSpace(entryId)).value.deleted == deleted
  {
    hide NormalizeCommandPath, TrimSpace, EntryAt, Trimmed;
  }

  lemma RestoreAnswersExactlyWhen<Doc(!new), Upd(!new)>(c: Crdt<Doc, Upd>, db: Db<Upd>, w: Window)
    requires db.rootId in db.heads
    ensures var root, decision := RootOf(c, db), DecideRestore(c, db, w);
            var claimed := PathClaimed(root, c.keys(RootDoc(c, db)), w.entryId, w.desiredPath);
            var deleted := Finds(root, w.entryId, w.documentId, w.desiredPath) && EntryAt(root, TrimSpace(w.entryId)).value.deleted;
            decision.Settled? ==>
              decision.outcome == ConsumeFailed(if !deleted then RootMismatch
                                                else if claimed == Some(true) then PathIsClaimed
                                                else MalformedRoot)
  {
    hide NormalizeCommandPath, Rebuild, EntryAt, EntryForCommand, SetFileDeleted, Targets, Finds, TrimSpace, PathClaimed;
    var root := RootOf(c, db);
    WritesExactlyWhen(root, w.entryId, w.documentId, w.desiredPath, false);
    FindsExactlyWhen(root, w.entryId, w.documentId, w.desiredPath);
    if Finds(root, w.entryId, w.documentId, w.desiredPath) && EntryAt(root, TrimSpace(w.entryId)).value.deleted {
      FlagDiffers(root, w.entryId, w.documentId, w.desiredPath, false);
    }
  }

  /** The content has reached the frontier that the request requires. */
  ghost predicate Reaches<Doc(!new), Upd(!new)>(c: Crdt<Doc, Upd>, db: Db<Upd>, d: string, frontier: seq<byte>)
    requires d in db.heads
  {
    |frontier| > 0 && DecodeStateVectorV1(frontier).Ok?
    && Dominates(c.vector(RebuildDoc(c, db, d)), DecodeStateVectorV1(frontier).value)
  }

  /** The restore names this window, which has not been consumed by anything else. */
  predicate Names(w: Window, rootId: string, req: ConsumeCommand) {
    w.rootDocumentId == rootId && w.origin == req.origin && w.tombstoneOperation == req.tombstoneOperationId
    && w.generation == req.generation
  }

  /** The flag of the entry that a window names, if there is one. */
  ghost function FlagFound(root: Root, w: Window): Option<bool> {
    if Finds(root, w.entryId, w.documentId, w.desiredPath) then Some(EntryAt(root, TrimSpace(w.entryId)).value.deleted) else None
  }

  ghost function Claim<Doc(!new), Upd(!new)>(c: Crdt<Doc, Upd>, db: Db<Upd>, w: Window): Option<bool>
    requires db.rootId in db.heads
  {
    PathClaimed(RootOf(c, db), c.keys(RootDoc(c, db)), w.entryId, w.desiredPath)
  }

  ghost predicate Timely(w: Window, now: int) {
    w.restore.None? && now < w.openedAt + REVERSE_WINDOW_DURATION
  }

  /** The restore of a window is decided by the root. */
  ghost predicate RootDecides<Doc(!new), Upd(!new)>(c: Crdt<Doc, Upd>, db: Db<Upd>, d: string, req: ConsumeCommand, now: int)
    requires d in db.windows
  {
    Names(db.windows[d], db.rootId, req) && Timely(db.windows[d], now) && d in db.heads && Reaches(c, db, d, req.contentStateVector)
  }

  /** Why a restore of a stored window fails: the window is not the one that the request names, or was
      restored by another operation, or its document is gone; the deadline has passed; the content has
      not reached the frontier; no deleted entry is named; another active entry is on the path; some
      entry is unreadable or out of reach; or the table refuses the row. */
  lemma ConsumeErrorsExactlyWhen<Doc(!new), Upd(!new)>(c: Crdt<Doc, Upd>, s: State<Upd>, d: string, req: ConsumeCommand, now: int)
    requires WellFormed(c, s) && d in s.db.windows
    ensures s.db.rootId in s.db.heads
    ensures var w, root, answer := s.db.windows[d], RootOf(c, s.db), ConsumeNormalized(c, s, Some(d), req, now).1;
            var asked := Names(w, s.db.rootId, req) && Timely(w, now);
            var decodes := |req.contentStateVector| > 0 && DecodeStateVectorV1(req.contentStateVector).Ok?;
            var decided, flag, claim := RootDecides(c, s.db, d, req, now), FlagFound(root, w), Claim(c, s.db, w);
            && (answer == ConsumeFailed(IdentityMismatch) <==>
                  !Names(w, s.db.rootId, req) || (w.restore.Some? && w.restore.value.operation != req.restoreOperationId)
                  || (asked && decodes && d !in s.db.heads))
            && (answer == ConsumeFailed(Expired) <==> Names(w, s.db.rootId, req) && w.restore.None? && !asked)
            && (answer == ConsumeFailed(FrontierNotReached) <==> asked && !decided && (decodes ==> d in s.db.heads))
            && (answer == ConsumeFailed(RootMismatch) <==> decided && flag != Some(true))
            && (answer == ConsumeFailed(PathIsClaimed) <==> decided && flag == Some(true) && claim == Some(true))
            && (answer == ConsumeFailed(MalformedRoot) <==>
                  decided && flag == Some(true) && claim != Some(true)
                  && (claim.None? || !Targets(root, w.entryId, d, w.desiredPath, true)))
            && (answer == ConsumeFailed(ConstraintViolation) <==> RestoreReached(c, s.db, d, req, now) && !RestoreStorable(s.db, d, req))
            && (answer.ConsumeFailed? ==>
                  answer.error in {IdentityMismatch, Expired, FrontierNotReached, RootMismatch, PathIsClaimed, MalformedRoot, ConstraintViolation})
  {
    hide LogWellFormed, WindowsWellFormed, DecideConsume, Commit, Targets, FlagFound, RootOf, Claim, RebuildDoc,
         Reaches, RestoreReached, DecodeStateVectorV1, RestoreStorable;
    ConsumeDecisions(c, s, d, req, now);
    ReachesFrontier(c, s.db, d, req.contentStateVector);
    RestoresExactlyWhen(c, s, d, req, now);
    match DecideConsume(c, s.db, Some(d), req, now) {
      case Settled(outcome) =>
      case Proceed(doc, id, value) =>
        var row := RestoredWindow(s.db.windows[d], req, s.sequence + 1, now);
        if Commit(c, s, doc, id, value, row, now).1.Some? { CommitRefuses(c, s, doc, id, value, row, now); }
    }
  }

  lemma ReachesFrontier<Doc(!new), Upd(!new)>(c: Crdt<Doc, Upd>, db: Db<Upd>, d: string, frontier: seq<byte>)
    ensures d in db.heads && Reaches(c, db, d, frontier) ==> |frontier| > 0 && DecodeStateVectorV1(frontier).Ok?
  {
    hide DecodeStateVectorV1, Dominates, Rebuild;
  }

  lemma ConsumeDecisions<Doc(!new), Upd(!new)>(c: Crdt<Doc, Upd>, s: State<Upd>, d: string, req: ConsumeCommand, now: int)
    requires WellFormed(c, s) && d in s.db.windows
    ensures Present(s.db, s.db.rootId)
    ensures DecideConsume(c, s.db, Some(d), req, now).Proceed? <==> RestoreReached(c, s.db, d, req, now)
    ensures var w, root, decision := s.db.windows[d], RootOf(c, s.db), DecideConsume(c, s.db, Some(d), req, now);
            var decodes := |req.contentStateVector| > 0 && DecodeStateVectorV1(req.contentStateVector).Ok?;
            var flag, claim := FlagFound(root, w), Claim(c, s.db, w);
            if !Names(w, s.db.rootId, req) then decision == Settled(ConsumeFailed(IdentityMismatch))
            else if w.restore.Some? then
              if w.restore.value.operation == req.restoreOperationId then decision.Settled? && decision.outcome.ConsumeReplayed?
              else decision == Settled(ConsumeFailed(IdentityMismatch))
            else if !Timely(w, now) then decision == Settled(ConsumeFailed(Expired))
            else if !decodes then decision == Settled(ConsumeFailed(FrontierNotReached))
            else if d !in s.db.heads then decision == Settled(ConsumeFailed(IdentityMismatch))
            else if !Reaches(c, s.db, d, req.contentStateVector) then decision == Settled(ConsumeFailed(FrontierNotReached))
            else if flag != Some(true) then decision == Settled(ConsumeFailed(RootMismatch))
            else if claim == Some(true) then decision == Settled(ConsumeFailed(PathIsClaimed))
            else if claim.None? || !Targets(root, w.entryId, d, w.desiredPath, true) then decision == Settled(ConsumeFailed(MalformedRoot))
            else decision.Proceed?
  {
    hide Targets, Finds, RootOf, EntryAt, Rebuild, TrimSpace, PathClaimed, DecideRestore, UniqueIdentity, Replay, DecodeStateVectorV1,
         Dominates, RestoreReached, Faithful, Ascending;
    var w := s.db.windows[d];
    assert WindowWellFormed(d, w);
    ReachesRestoreExactlyWhen(c, s.db, d, req, now);
    RestoreAnswersExactlyWhen(c, s.db, w);
    DecidesRestoreExactlyWhen(c, s.db, w);
    TargetsAreActive(RootOf(c, s.db), w.entryId, d, w.desiredPath, true);
    EitherWay(Claim(c, s.db, w));
  }

  lemma EitherWay(answer: Option<bool>)
    ensures answer in {None, Some(true), Some(false)}
  {
    match answer
    case None =>
    case Some(true) =>
    case Some(false) =>
  }
}
