/** What one reverse-window command guarantees: it commits everything or changes nothing, the
    log keeps rebuilding to the state the command computed, and exactly one flag flips. */
module ReverseWindowSafety {
  import opened Results
  import opened StateVectors
  import opened RootSemantics
  import opened ReplicaLog
  import opened ReverseWindow

  // ---- what the tables keep ----

  ghost predicate LogWellFormed<Doc(!new), Upd(!new)>(c: Crdt<Doc, Upd>, s: State<Upd>) {
    && Ascending(s.db.updates)
    && (forall i | 0 <= i < |s.db.updates| ::
          s.db.updates[i].documentId in s.db.heads
          && s.db.updates[i].id <= s.db.heads[s.db.updates[i].documentId].updateId)
    && (forall d | d in s.db.heads :: 0 <= s.db.heads[d].updateId <= s.sequence)
    && (forall i | 0 <= i < |s.db.checkpoints| :: s.db.checkpoints[i].updateId <= s.sequence)
    && Faithful(c, s.db.checkpoints, s.db.updates)
    && s.sequence >= 0
    && s.db.rootId in s.db.heads
    && s.db.heads.Keys <= s.db.documents.Keys
  }

  ghost predicate WindowWellFormed(d: string, w: Window) {
    && w.documentId == d
    && w.generation > 0
    && w.reverseUntil == w.openedAt + REVERSE_WINDOW_DURATION
    && w.fingerprint.version == 1
    && w.fingerprint.command.origin == w.origin
    && w.fingerprint.command.operationId == w.tombstoneOperation
    && w.fingerprint.command.contentDocumentId == d
    && w.fingerprint.command.expectedGeneration + 1 == w.generation
    && w.fingerprint.command.entryId == w.entryId
    && w.fingerprint.command.desiredPath == w.desiredPath
  }

  ghost predicate WindowsWellFormed<Upd>(db: Db<Upd>) {
    && (forall d | d in db.windows :: WindowWellFormed(d, db.windows[d]))
    && UniqueIdentity(db)
  }

  ghost predicate WellFormed<Doc(!new), Upd(!new)>(c: Crdt<Doc, Upd>, s: State<Upd>) {
    LogWellFormed(c, s) && WindowsWellFormed(s.db)
  }

  ghost function RootOf<Doc, Upd>(c: Crdt<Doc, Upd>, db: Db<Upd>): Root
    requires db.rootId in db.heads
  {
    c.root(RebuildDoc(c, db, db.rootId))
  }

  // ---- the writing half ----

  /** What a committed write has done to the tables. */
  ghost predicate Committed<Upd>(s: State<Upd>, after: State<Upd>, row: Window, update: Upd) {
    && row.generation > 0 && IdentityFree(s.db.windows, row)
    && after.db.windows == s.db.windows[row.documentId := row]
    && after.db.updates == s.db.updates + [UpdateRow(s.sequence + 1, s.db.rootId, update)]
    && after.db.checkpoints == s.db.checkpoints
    && s.db.rootId in s.db.heads && after.db.heads.Keys == s.db.heads.Keys
    && after.db.documents.Keys == s.db.documents.Keys && after.db.daemons == s.db.daemons
    && after.db.heads[s.db.rootId].updateId == s.sequence + 1
    && (forall d | d in s.db.heads && d != s.db.rootId :: after.db.heads[d] == s.db.heads[d])
    && after.sequence == s.sequence + 1
    && after.db.rootId == s.db.rootId
  }

  /** A write either commits, or only burns an update id. */
  lemma CommitOrNothing<Doc(!new), Upd(!new)>(
    c: Crdt<Doc, Upd>, s: State<Upd>, doc: Doc, id: string, value: string, row: Window, now: int)
    requires s.db.rootId in s.db.heads
    ensures var (after, error) := Commit(c, s, doc, id, value, row, now);
            if error.Some? then after == s.(sequence := s.sequence + 1)
            else Committed(s, after, row, c.writeFlag(doc, id, value))
  {
  }

  lemma AscendingAppends<Upd>(rows: seq<UpdateRow<Upd>>, row: UpdateRow<Upd>)
    requires Ascending(rows) && row.id > 0 && forall i | 0 <= i < |rows| :: rows[i].id < row.id
    ensures Ascending(rows + [row])
  {
  }

  /** A committed write leaves the log in order under a strictly larger root head. */
  lemma CommittedKeepsLog<Doc(!new), Upd(!new)>(c: Crdt<Doc, Upd>, s: State<Upd>, after: State<Upd>, row: Window, update: Upd)
    requires LogWellFormed(c, s) && Committed(s, after, row, update)
    ensures LogWellFormed(c, after)
    ensures after.db.heads[s.db.rootId].updateId > s.db.heads[s.db.rootId].updateId
  {
    hide Replay;
    var newRow := UpdateRow(s.sequence + 1, s.db.rootId, update);
    AscendingAppends(s.db.updates, newRow);
    FaithfulAfterAppend(c, s.db.checkpoints, s.db.updates, newRow);
  }

  /** After a committed write the root rebuilds to the updated document, and every other
      document rebuilds to what it was. */
  lemma CommittedRebuilds<Doc(!new), Upd(!new)>(
    c: Crdt<Doc, Upd>, s: State<Upd>, after: State<Upd>, row: Window, update: Upd, d: string)
    requires Lawful(c) && LogWellFormed(c, s) && Committed(s, after, row, update) && d in s.db.heads
    ensures RebuildDoc(c, after.db, d) ==
            if d == s.db.rootId then c.apply(RebuildDoc(c, s.db, d), update) else RebuildDoc(c, s.db, d)
  {
    var newRow := UpdateRow(s.sequence + 1, s.db.rootId, update);
    var head := s.db.heads[d].updateId;
    CommittedKeepsLog(c, s, after, row, update);
    RebuildIsReplay(c, s.db.checkpoints, s.db.updates, d, head);
    RebuildIsReplay(c, after.db.checkpoints, after.db.updates, d, after.db.heads[d].updateId);
    ReplayAfterAppend(c, s.db.updates, newRow, d, head);
  }

  /** The write a command proceeds to is a flag flip of the entry it looked up. */
  ghost predicate Flips<Doc, Upd>(c: Crdt<Doc, Upd>, db: Db<Upd>, doc: Doc, id: string, documentId: string, path: string, deleted: bool)
    requires db.rootId in db.heads
  {
    && doc == RebuildDoc(c, db, db.rootId)
    && HasEntry(c.root(doc), id)
    && EntryAt(c.root(doc), id).Some?
    && EntryAt(c.root(doc), id).value.deleted != deleted
    && EntryAt(c.root(doc), id).value.contentDocumentId == TrimSpace(documentId)
    && Some(EntryAt(c.root(doc), id).value.desiredPath) == NormalizeCommandPath(path)
  }

  lemma TombstoneFlips<Doc, Upd>(c: Crdt<Doc, Upd>, db: Db<Upd>, req: OpenCommand)
    requires db.rootId in db.heads && DecideTombstone(c, db, req).Proceed?
    ensures var p := DecideTombstone(c, db, req);
            p.id == TrimSpace(req.entryId) && p.value == "true"
            && Flips(c, db, p.doc, p.id, req.contentDocumentId, req.desiredPath, true)
  {
    hide NormalizeCommandPath, Rebuild;
    var root := RootOf(c, db);
    var entry := EntryForCommand(root, req.entryId, req.contentDocumentId, req.desiredPath).value;
    WriteTarget(root, req.entryId, req.contentDocumentId, req.desiredPath, entry, true);
  }

  lemma RestoreFlips<Doc, Upd>(c: Crdt<Doc, Upd>, db: Db<Upd>, window: Window)
    requires db.rootId in db.heads && DecideRestore(c, db, window).Proceed?
    ensures var p := DecideRestore(c, db, window);
            p.id == TrimSpace(window.entryId) && p.value == "false"
            && Flips(c, db, p.doc, p.id, window.documentId, window.desiredPath, false)
            && PathClaimed(c.root(p.doc), c.keys(p.doc), window.entryId, window.desiredPath) == Some(false)
  {
    hide NormalizeCommandPath, Rebuild;
    var root := RootOf(c, db);
    var entry := EntryForCommand(root, window.entryId, window.documentId, window.desiredPath).value;
    WriteTarget(root, window.entryId, window.documentId, window.desiredPath, entry, false);
  }

  /** A committed flip changes that one entry's flag in the rebuilt namespace, nothing else. */
  lemma CommittedFlip<Doc(!new), Upd(!new)>(
    c: Crdt<Doc, Upd>, s: State<Upd>, after: State<Upd>, row: Window, doc: Doc, id: string,
    documentId: string, path: string, deleted: bool)
    requires Lawful(c) && LogWellFormed(c, s)
    requires Flips(c, s.db, doc, id, documentId, path, deleted)
    requires Committed(s, after, row, c.writeFlag(doc, id, FlagText(deleted)))
    ensures RootOf(c, after.db) == WithDeleted(RootOf(c, s.db), id, FlagText(deleted))
    ensures Namespace(RootOf(c, after.db)) ==
            Namespace(RootOf(c, s.db))[id := Some(EntryAt(RootOf(c, s.db), id).value.(deleted := deleted))]
  {
    hide NormalizeCommandPath, Rebuild, Decode;
    CommittedRebuilds(c, s, after, row, c.writeFlag(doc, id, FlagText(deleted)), s.db.rootId);
    WriteFlipsOneEntry(c.root(doc), id, deleted);
  }

  // ---- opening ----

  /** A fresh acceptance of an open: the next generation, a five-minute deadline, one tombstone. */
  ghost predicate OpenedBy<Doc(!new), Upd(!new)>(
    c: Crdt<Doc, Upd>, s: State<Upd>, after: State<Upd>, req: OpenCommand, now: int, outcome: OpenOutcome<Upd>)
    requires s.db.rootId in s.db.heads
  {
    var d, id := req.contentDocumentId, TrimSpace(req.entryId);
    && d in after.db.windows && outcome.OpenAccepted?
    && var w := after.db.windows[d];
    && after.db.windows == s.db.windows[d := w]
    && outcome == OpenAccepted(w.generation, w.openedAt, w.reverseUntil, w.tombstoneUpdateId, w.rootDocumentId, outcome.rootUpdate)
    && after.db.updates == s.db.updates + [UpdateRow(w.tombstoneUpdateId, s.db.rootId, outcome.rootUpdate)]
    && w.generation == CurrentGeneration(s.db, d) + 1 == req.expectedGeneration + 1
    && w.openedAt == now && w.reverseUntil == now + REVERSE_WINDOW_DURATION && w.restore.None?
    && w.fingerprint == Fingerprint(1, req)
    && w.rootDocumentId == s.db.rootId == after.db.rootId && w.tombstoneUpdateId == s.sequence + 1
    && after.db.heads.Keys == s.db.heads.Keys
    && after.db.heads[s.db.rootId].updateId == w.tombstoneUpdateId > s.db.heads[s.db.rootId].updateId
    && RebuildDoc(c, after.db, s.db.rootId) == c.apply(RebuildDoc(c, s.db, s.db.rootId), outcome.rootUpdate)
    && EntryAt(RootOf(c, s.db), id).Some? && !EntryAt(RootOf(c, s.db), id).value.deleted
    && EntryAt(RootOf(c, s.db), id).value.contentDocumentId == TrimSpace(d)
    && RootOf(c, after.db) == WithDeleted(RootOf(c, s.db), id, "true")
    && Namespace(RootOf(c, after.db)) ==
         Namespace(RootOf(c, s.db))[id := Some(EntryAt(RootOf(c, s.db), id).value.(deleted := true))]
  }

  lemma WindowsAfterCommit<Upd>(s: State<Upd>, after: State<Upd>, row: Window, update: Upd)
    requires WindowsWellFormed(s.db) && Committed(s, after, row, update)
    requires WindowWellFormed(row.documentId, row)
    ensures WindowsWellFormed(after.db)
  {
  }

  /** Opening a window, on every input: either it is freshly accepted with all its effects, or
      the tables and the cache are untouched.  The invariants survive either way. */
  lemma OpenEffect<Doc(!new), Upd(!new)>(c: Crdt<Doc, Upd>, uuid: UuidParser, s: State<Upd>, request: OpenRequest, now: int)
    requires Lawful(c) && WellFormed(c, s)
    ensures var (after, outcome) := OpenStep(c, uuid, s, request, now);
            && WellFormed(c, after)
            && (outcome.OpenAccepted? ==> NormalizeOpen(uuid, request).Some?
                                          && OpenedBy(c, s, after, NormalizeOpen(uuid, request).value, now, outcome))
            && (!outcome.OpenAccepted? ==> after.db == s.db && after.cache == s.cache)
  {
    hide NormalizeOpen, DecideTombstone, Rebuild, Commit, LogWellFormed, Replay, WithDeleted, Namespace, EntryAt;
    if NormalizeOpen(uuid, request).Some? {
      var req := NormalizeOpen(uuid, request).value;
      match DecideOpen(c, s.db, req) {
        case Settled(outcome) => SettledOpenIsNotAccepted(c, s.db, req);
        case Proceed(doc, id, value) => OpenCommits(c, s, req, now);
      }
    }
  }

  lemma SettledOpenIsNotAccepted<Doc, Upd>(c: Crdt<Doc, Upd>, db: Db<Upd>, req: OpenCommand)
    ensures DecideOpen(c, db, req).Settled? ==> !DecideOpen(c, db, req).outcome.OpenAccepted?
  {
    hide EntryForCommand, SetFileDeleted, Rebuild;
  }

  lemma OpenCommits<Doc(!new), Upd(!new)>(c: Crdt<Doc, Upd>, s: State<Upd>, req: OpenCommand, now: int)
    requires Lawful(c) && WellFormed(c, s) && DecideOpen(c, s.db, req).Proceed?
    ensures var (after, outcome) := OpenNormalized(c, s, req, now);
            && WellFormed(c, after)
            && (outcome.OpenAccepted? ==> OpenedBy(c, s, after, req, now, outcome))
            && (!outcome.OpenAccepted? ==> after.db == s.db && after.cache == s.cache)
  {
    hide DecideTombstone, Rebuild, Commit, Replay, WithDeleted, Namespace, EntryAt, Flips;
    var p := DecideOpen(c, s.db, req);
    assert p == DecideTombstone(c, s.db, req);
    TombstoneFlips(c, s.db, req);
    var row := NewWindow(s.db, req, s.sequence + 1, now);
    CommitOrNothing(c, s, p.doc, p.id, p.value, row, now);
    var (after, error) := Commit(c, s, p.doc, p.id, p.value, row, now);
    if error.None? {
      OpenCommitted(c, s, after, req, p.doc, p.id, row, now);
    }
  }

  lemma OpenCommitted<Doc(!new), Upd(!new)>(
    c: Crdt<Doc, Upd>, s: State<Upd>, after: State<Upd>, req: OpenCommand, doc: Doc, id: string, row: Window, now: int)
    requires Lawful(c) && WellFormed(c, s) && DecideOpen(c, s.db, req) == Proceed(doc, id, "true")
    requires id == TrimSpace(req.entryId) && Flips(c, s.db, doc, id, req.contentDocumentId, req.desiredPath, true)
    requires row == NewWindow(s.db, req, s.sequence + 1, now) && Committed(s, after, row, c.writeFlag(doc, id, "true"))
    ensures WellFormed(c, after)
    ensures OpenedBy(c, s, after, req, now,
              OpenAccepted(row.generation, row.openedAt, row.reverseUntil, row.tombstoneUpdateId, row.rootDocumentId, c.writeFlag(doc, id, "true")))
  {
    hide DecideTombstone, Rebuild, Replay, WithDeleted, Namespace, EntryAt, LogWellFormed, NormalizeCommandPath;
    var update := c.writeFlag(doc, id, "true");
    CommittedKeepsLog(c, s, after, row, update);
    CommittedRebuilds(c, s, after, row, update, s.db.rootId);
    CommittedFlip(c, s, after, row, doc, id, req.contentDocumentId, req.desiredPath, true);
    assert row.generation == CurrentGeneration(s.db, req.contentDocumentId) + 1;
    WindowsAfterCommit(s, after, row, update);
  }

  // ---- consuming ----

  /** What lets a restore through, judged on the state before it. */
  ghost predicate RestoreAllowed<Doc(!new), Upd(!new)>(
    c: Crdt<Doc, Upd>, db: Db<Upd>, d: string, req: ConsumeCommand, now: int)
    requires db.rootId in db.heads
  {
    && d in db.windows && d in db.heads
    && var w := db.windows[d];
    && w.origin == req.origin && w.tombstoneOperation == req.tombstoneOperationId && w.generation == req.generation
    && w.restore.None? && w.rootDocumentId == db.rootId
    && now < w.openedAt + REVERSE_WINDOW_DURATION
    && DecodeStateVectorV1(req.contentStateVector).Ok?
    && (forall client: nat :: Clock(c.vector(RebuildDoc(c, db, d)), client)
                           >= Clock(DecodeStateVectorV1(req.contentStateVector).value, client))
    && EntryAt(RootOf(c, db), TrimSpace(w.entryId)).Some?
    && EntryAt(RootOf(c, db), TrimSpace(w.entryId)).value.deleted
    && EntryAt(RootOf(c, db), TrimSpace(w.entryId)).value.contentDocumentId == TrimSpace(d)
  }

  /** A fresh acceptance of a restore: the row keeps everything but its restore columns, and one
      entry becomes active again. */
  ghost predicate RestoredAt<Doc(!new), Upd(!new)>(
    c: Crdt<Doc, Upd>, s: State<Upd>, after: State<Upd>, d: string, req: ConsumeCommand, now: int, outcome: ConsumeOutcome<Upd>)
    requires s.db.rootId in s.db.heads
  {
    && d in s.db.windows && outcome.ConsumeAccepted?
    && var w, id := s.db.windows[d], TrimSpace(s.db.windows[d].entryId);
    && after.db.windows == s.db.windows[d := w.(restore := Some(Restore(req.restoreOperationId, s.sequence + 1, now)))]
    && outcome == ConsumeAccepted(w.generation, now, s.sequence + 1, s.db.rootId, outcome.rootUpdate)
    && after.db.updates == s.db.updates + [UpdateRow(s.sequence + 1, s.db.rootId, outcome.rootUpdate)]
    && after.db.rootId == s.db.rootId
    && after.db.heads.Keys == s.db.heads.Keys
    && after.db.heads[s.db.rootId].updateId == s.sequence + 1 > s.db.heads[s.db.rootId].updateId
    && RebuildDoc(c, after.db, s.db.rootId) == c.apply(RebuildDoc(c, s.db, s.db.rootId), outcome.rootUpdate)
    && EntryAt(RootOf(c, s.db), id).Some?
    && RootOf(c, after.db) == WithDeleted(RootOf(c, s.db), id, "false")
    && Namespace(RootOf(c, after.db)) ==
         Namespace(RootOf(c, s.db))[id := Some(EntryAt(RootOf(c, s.db), id).value.(deleted := false))]
    && PathExclusive(RootOf(c, after.db), id)
  }

  /** The entry is the only active one on its path, but for entries under a padded copy of its key. */
  ghost predicate PathExclusive(root: Root, id: string) {
    EntryAt(root, id).Some?
    && forall k | k != id && TrimSpace(k) != id :: !ActiveOn(root, k, EntryAt(root, id).value.desiredPath)
  }

  /** Consuming a window, on every input: either it is freshly accepted, and then every guard
      held and all its effects are there, or the tables and the cache are untouched. */
  lemma ConsumeEffect<Doc(!new), Upd(!new)>(c: Crdt<Doc, Upd>, uuid: UuidParser, s: State<Upd>, request: ConsumeRequest, now: int)
    requires Lawful(c) && WellFormed(c, s)
    ensures var (after, outcome) := ConsumeStep(c, uuid, s, request, now);
            && WellFormed(c, after)
            && (outcome.ConsumeAccepted? ==>
                  NormalizeConsume(uuid, request).Some?
                  && var req := NormalizeConsume(uuid, request).value;
                  var named := WindowNamed(s.db, req.origin, req.tombstoneOperationId);
                  named.Some?
                  && RestoreAllowed(c, s.db, named.value, req, now)
                  && RestoredAt(c, s, after, named.value, req, now, outcome))
            && (!outcome.ConsumeAccepted? ==> after.db == s.db && after.cache == s.cache)
  {
    hide NormalizeConsume, DecideRestore, Rebuild, Commit, LogWellFormed, Replay, WithDeleted, Namespace, EntryAt,
         RestoreAllowed, RestoredAt, DecodeStateVectorV1, Dominates;
    if NormalizeConsume(uuid, request).Some? {
      var req := NormalizeConsume(uuid, request).value;
      var named := WindowNamed(s.db, req.origin, req.tombstoneOperationId);
      match DecideConsume(c, s.db, named, req, now) {
        case Settled(outcome) => SettledConsumeIsNotAccepted(c, s.db, named, req, now);
        case Proceed(doc, id, value) => ConsumeCommits(c, s, named.value, req, now);
      }
    }
  }

  lemma SettledConsumeIsNotAccepted<Doc, Upd>(c: Crdt<Doc, Upd>, db: Db<Upd>, named: Option<string>, req: ConsumeCommand, now: int)
    requires named.Some? ==> named.value in db.windows
    ensures var decision := DecideConsume(c, db, named, req, now);
            decision.Settled? ==> !decision.outcome.ConsumeAccepted?
  {
    hide EntryForCommand, SetFileDeleted, Rebuild, PathClaimed, DecodeStateVectorV1, Dominates;
  }

  lemma ConsumeGuards<Doc(!new), Upd(!new)>(c: Crdt<Doc, Upd>, db: Db<Upd>, d: string, req: ConsumeCommand, now: int)
    requires d in db.windows && WindowsWellFormed(db) && DecideConsume(c, db, Some(d), req, now).Proceed?
    ensures db.rootId in db.heads
    ensures DecideConsume(c, db, Some(d), req, now) == DecideRestore(c, db, db.windows[d])
    ensures RestoreAllowed(c, db, d, req, now)
  {
    hide Rebuild, PathClaimed, DecodeStateVectorV1, Dominates, EntryAt, NormalizeCommandPath, HasEntry, EntryForCommand, SetFileDeleted;
    var w := db.windows[d];
    assert WindowWellFormed(d, w);
    assert DecideConsume(c, db, Some(d), req, now) == DecideRestore(c, db, w);
    RestoreFlips(c, db, w);
    DominatesPointwise(c.vector(RebuildDoc(c, db, d)), DecodeStateVectorV1(req.contentStateVector).value);
  }

  lemma ConsumeCommits<Doc(!new), Upd(!new)>(c: Crdt<Doc, Upd>, s: State<Upd>, d: string, req: ConsumeCommand, now: int)
    requires Lawful(c) && WellFormed(c, s) && d in s.db.windows && DecideConsume(c, s.db, Some(d), req, now).Proceed?
    ensures var (after, outcome) := ConsumeNormalized(c, s, Some(d), req, now);
            && WellFormed(c, after)
            && (outcome.ConsumeAccepted? ==>
                  RestoreAllowed(c, s.db, d, req, now) && RestoredAt(c, s, after, d, req, now, outcome))
            && (!outcome.ConsumeAccepted? ==> after.db == s.db && after.cache == s.cache)
  {
    hide DecideConsume, DecideRestore, Rebuild, Commit, Replay, WithDeleted, Namespace, EntryAt, Flips, LogWellFormed,
         DecodeStateVectorV1, PathClaimed, RestoredAt;
    ConsumeGuards(c, s.db, d, req, now);
    var p := DecideConsume(c, s.db, Some(d), req, now);
    RestoreFlips(c, s.db, s.db.windows[d]);
    var row := RestoredWindow(s.db.windows[d], req, s.sequence + 1, now);
    assert WindowWellFormed(d, s.db.windows[d]);
    CommitOrNothing(c, s, p.doc, p.id, p.value, row, now);
    var (after, error) := Commit(c, s, p.doc, p.id, p.value, row, now);
    if error.None? {
      ConsumeCommitted(c, s, after, d, req, p.doc, p.id, row, now);
    } else {
      BurntIdKeepsInvariants(c, s);
    }
  }

  lemma BurntIdKeepsInvariants<Doc(!new), Upd(!new)>(c: Crdt<Doc, Upd>, s: State<Upd>)
    requires LogWellFormed(c, s)
    ensures LogWellFormed(c, s.(sequence := s.sequence + 1))
  {
  }

  lemma ConsumeCommitted<Doc(!new), Upd(!new)>(
    c: Crdt<Doc, Upd>, s: State<Upd>, after: State<Upd>, d: string, req: ConsumeCommand, doc: Doc, id: string, row: Window, now: int)
    requires Lawful(c) && WellFormed(c, s) && d in s.db.windows && RestoreAllowed(c, s.db, d, req, now)
    requires var w := s.db.windows[d];
             id == TrimSpace(w.entryId) && Flips(c, s.db, doc, id, w.documentId, w.desiredPath, false)
             && PathClaimed(c.root(doc), c.keys(doc), w.entryId, w.desiredPath) == Some(false)
             && row == RestoredWindow(w, req, s.sequence + 1, now)
    requires Committed(s, after, row, c.writeFlag(doc, id, "false"))
    ensures WellFormed(c, after)
    ensures RestoredAt(c, s, after, d, req, now,
              ConsumeAccepted(req.generation, now, s.sequence + 1, s.db.rootId, c.writeFlag(doc, id, "false")))
  {
    hide Rebuild, Replay, WithDeleted, Namespace, EntryAt, LogWellFormed, NormalizeCommandPath, PathClaimed,
         DecodeStateVectorV1, PathExclusive;
    var w, update := s.db.windows[d], c.writeFlag(doc, id, "false");
    assert WindowWellFormed(d, w);
    CommittedKeepsLog(c, s, after, row, update);
    CommittedRebuilds(c, s, after, row, update, s.db.rootId);
    CommittedFlip(c, s, after, row, doc, id, w.documentId, w.desiredPath, false);
    WindowsAfterCommit(s, after, row, update);
    RestoredPathIsExclusive(c.root(doc), c.keys(doc), w.entryId, w.desiredPath);
  }

  /** The path scan before the write still speaks for the root after it. */
  lemma RestoredPathIsExclusive(root: Root, keys: seq<string>, entryId: string, path: string)
    requires var id := TrimSpace(entryId);
             HasEntry(root, id) && EntryAt(root, id).Some? && Some(EntryAt(root, id).value.desiredPath) == NormalizeCommandPath(path)
    requires root.Some? ==> KeysOf(root.value, keys)
    requires PathClaimed(root, keys, entryId, path) == Some(false)
    ensures PathExclusive(WithDeleted(root, TrimSpace(entryId), "false"), TrimSpace(entryId))
  {
    hide NormalizeCommandPath;
    var id := TrimSpace(entryId);
    var after := WithDeleted(root, id, "false");
    ClaimScanMeaning(root.value, keys, id, NormalizeCommandPath(path).value);
    assert EntryAt(after, id).value.desiredPath == EntryAt(root, id).value.desiredPath;
    forall k | k != id && TrimSpace(k) != id
      ensures !ActiveOn(after, k, EntryAt(root, id).value.desiredPath)
    {
      assert EntryAt(after, k) == EntryAt(root, k);
    }
  }

  // ---- undo ----

  lemma NamedWindow<Upd>(db: Db<Upd>, d: string)
    requires WindowsWellFormed(db) && d in db.windows
    ensures WindowNamed(db, db.windows[d].origin, db.windows[d].tombstoneOperation) == Some(d)
  {
  }

  lemma UndoOfEffects<Doc(!new), Upd(!new)>(
    c: Crdt<Doc, Upd>, s: State<Upd>, between: State<Upd>, after: State<Upd>, open: OpenCommand, openedAt: int,
    first: OpenOutcome<Upd>, consume: ConsumeCommand, consumedAt: int, second: ConsumeOutcome<Upd>)
    requires s.db.rootId in s.db.heads && between.db.rootId in between.db.heads
    requires OpenedBy(c, s, between, open, openedAt, first)
    requires RestoredAt(c, between, after, open.contentDocumentId, consume, consumedAt, second)
    requires between.db.windows[open.contentDocumentId].entryId == open.entryId
    ensures after.db.rootId in after.db.heads && Namespace(RootOf(c, after.db)) == Namespace(RootOf(c, s.db))
  {
    hide Rebuild, EntryAt, Namespace, WithDeleted, PathExclusive;
    assert HasEntry(RootOf(c, s.db), TrimSpace(open.entryId)) by { EntryNeedsMap(RootOf(c, s.db), TrimSpace(open.entryId)); }
    ClearUndoesSet(RootOf(c, s.db), TrimSpace(open.entryId));
  }

  lemma EntryNeedsMap(root: Root, id: string)
    ensures EntryAt(root, id).Some? ==> HasEntry(root, id)
  {
  }

  /** An open whose own restore follows directly gives back the namespace it started from. */
  lemma RestoreUndoesOpen<Doc(!new), Upd(!new)>(
    c: Crdt<Doc, Upd>, uuid: UuidParser, s: State<Upd>, open: OpenRequest, openedAt: int, consume: ConsumeRequest, consumedAt: int)
    requires Lawful(c) && WellFormed(c, s)
    requires OpenStep(c, uuid, s, open, openedAt).1.OpenAccepted?
    requires ConsumeStep(c, uuid, OpenStep(c, uuid, s, open, openedAt).0, consume, consumedAt).1.ConsumeAccepted?
    requires NormalizeOpen(uuid, open).Some? && NormalizeConsume(uuid, consume).Some?
    requires NormalizeConsume(uuid, consume).value.origin == NormalizeOpen(uuid, open).value.origin
    requires NormalizeConsume(uuid, consume).value.tombstoneOperationId == NormalizeOpen(uuid, open).value.operationId
    ensures var between := OpenStep(c, uuid, s, open, openedAt).0;
            var after := ConsumeStep(c, uuid, between, consume, consumedAt).0;
            after.db.rootId in after.db.heads
            && Namespace(RootOf(c, after.db)) == Namespace(RootOf(c, s.db))
  {
    hide NormalizeOpen, NormalizeConsume, Rebuild, EntryAt, Namespace, WithDeleted, OpenStep, ConsumeStep;
    OpenEffect(c, uuid, s, open, openedAt);
    var between := OpenStep(c, uuid, s, open, openedAt).0;
    var req := NormalizeOpen(uuid, open).value;
    NamedWindow(between.db, req.contentDocumentId);
    ConsumeEffect(c, uuid, between, consume, consumedAt);
    var after := ConsumeStep(c, uuid, between, consume, consumedAt);
    UndoOfEffects(c, s, between, after.0, req, openedAt, OpenStep(c, uuid, s, open, openedAt).1,
                  NormalizeConsume(uuid, consume).value, consumedAt, after.1);
  }
}
