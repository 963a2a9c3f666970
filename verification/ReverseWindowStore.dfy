/** The workspace store's two reverse-window commands, statement by statement.  The database is
    a value: a transaction works on a copy and commits by replacing it. */
module ReverseWindowStore {
  import opened Results
  import opened StateVectors
  import opened RootSemantics
  import opened ReplicaLog
  import opened ReverseWindow

  class Store<Doc(!new), Upd(!new)> {
    const crdt: Crdt<Doc, Upd>
    const uuid: UuidParser
    var db: Db<Upd>
    var sequence: int
    var cache: map<string, CachedHead>

    constructor (crdt: Crdt<Doc, Upd>, uuid: UuidParser, initial: State<Upd>)
      ensures this.crdt == crdt && this.uuid == uuid && Contents() == initial
    {
      this.crdt, this.uuid := crdt, uuid;
      this.db, this.sequence, this.cache := initial.db, initial.sequence, initial.cache;
    }

    ghost function Contents(): State<Upd>
      reads this
    {
      State(db, sequence, cache)
    }

    /** Runs inside a transaction: takes the next update id, which a rollback will not return. */
    method PersistReverseWindowRootUpdate(tx: Db<Upd>, readHead: int, doc: Doc, update: Upd, now: int)
      returns (updateId: int, r: Option<Db<Upd>>)
      modifies this`sequence
      ensures updateId == sequence == old(sequence) + 1
      ensures r == PersistRootUpdate(crdt, tx, updateId, readHead, doc, update, now)
    {
      sequence := sequence + 1;
      updateId := sequence;
      var updates := tx.updates + [UpdateRow(updateId, tx.rootId, update)];
      if tx.rootId !in tx.heads || tx.heads[tx.rootId].updateId != readHead {
        return updateId, None;
      }
      var heads := tx.heads[tx.rootId := Head(updateId, crdt.vector(doc))];
      r := Some(tx.(updates := updates, heads := heads, documents := Touched(tx.documents, tx.rootId, now)));
    }

    method RecordReverseWindowRootHead(documentId: string, updateId: int, vector: StateVector, now: int)
      modifies this`cache
      ensures cache == RecordHead(old(cache), documentId, updateId, vector, now)
    {
      if documentId !in cache || cache[documentId].updateId > updateId {
        return;
      }
      cache := cache[documentId := CachedHead(updateId, vector, now)];
    }

    /** The writing half shared by both commands. */
    method WriteFlagAndRow(doc: Doc, id: string, value: string, row: Window, now: int) returns (error: Option<Error>, update: Upd)
      requires db.rootId in db.heads
      modifies this
      ensures (Contents(), error) == Commit(crdt, old(Contents()), doc, id, value, row, now)
      ensures update == crdt.writeFlag(doc, id, value)
    {
      update := crdt.writeFlag(doc, id, value);
      var after := crdt.apply(doc, update);
      var updateId, written := PersistReverseWindowRootUpdate(db, db.heads[db.rootId].updateId, after, update, now);
      if written.None? {
        return Some(HeadChanged), update;
      }
      var tx := written.value;
      if !Admissible(tx, row) {
        return Some(ConstraintViolation), update;
      }
      tx := tx.(windows := tx.windows[row.documentId := row]);
      db := tx;
      RecordReverseWindowRootHead(db.rootId, updateId, crdt.vector(after), now);
      error := None;
    }

    method OpenOrReplaceReverseWindow(request: OpenRequest, now: int) returns (outcome: OpenOutcome<Upd>)
      modifies this
      ensures (Contents(), outcome) == OpenStep(crdt, uuid, old(Contents()), request, now)
    {
      var normalized := NormalizeOpen(uuid, request);
      if normalized.None? {
        return OpenFailed(InvalidRequest);
      }
      outcome := OpenOrReplace(normalized.value, now);
    }

    method OpenOrReplace(req: OpenCommand, now: int) returns (outcome: OpenOutcome<Upd>)
      modifies this
      ensures (Contents(), outcome) == OpenNormalized(crdt, old(Contents()), req, now)
    {
      hide EntryForCommand, SetFileDeleted, Rebuild, Commit;
      if !Present(db, db.rootId) {
        return OpenFailed(NotFound);
      }
      var currentGeneration := 0;
      if req.contentDocumentId in db.windows {
        var current := db.windows[req.contentDocumentId];
        if current.rootDocumentId != db.rootId {
          return OpenFailed(RootChanged);
        }
        if HasIdentity(current, req.origin, req.operationId) {
          if current.fingerprint != Fingerprint(1, req) {
            return OperationMismatch;
          }
          if current.generation <= 0 {
            return OpenFailed(NoGeneration);
          }
          return ReplayOf(current);
        }
        currentGeneration := current.generation;
        if currentGeneration <= 0 {
          return OpenFailed(NoGeneration);
        }
      }
      if req.expectedGeneration != currentGeneration {
        return GenerationConflict(currentGeneration);
      }
      if req.contentDocumentId !in db.documents {
        return OpenFailed(NotFound);
      }
      var doc := RestoreDocument(crdt, db.checkpoints, db.updates, db.rootId, db.heads[db.rootId].updateId);
      var entry := EntryForCommand(crdt.root(doc), req.entryId, req.contentDocumentId, req.desiredPath);
      if entry.None? || entry.value.deleted {
        return OpenFailed(RootMismatch);
      }
      var edit := SetFileDeleted(crdt.root(doc), entry.value, true);
      if edit.Refused? {
        return OpenFailed(MalformedRoot);
      }
      if edit.AlreadySet? {
        return OpenFailed(MutationNotApplied);
      }
      var row := Window(req.contentDocumentId, db.rootId, req.entryId, req.desiredPath, req.origin,
                        NextGeneration(currentGeneration), req.operationId, Fingerprint(1, req),
                        sequence + 1, now, now + REVERSE_WINDOW_DURATION, None);
      var error, update := WriteFlagAndRow(doc, edit.id, edit.value, row, now);
      if error.Some? {
        return OpenFailed(error.value);
      }
      outcome := OpenAccepted(row.generation, row.openedAt, row.reverseUntil, row.tombstoneUpdateId, row.rootDocumentId, update);
    }

    method LoadReverseWindowByIdentity(origin: Origin, operation: string) returns (named: Option<string>)
      requires UniqueIdentity(db)
      ensures named == WindowNamed(db, origin, operation)
    {
      var left := db.windows.Keys;
      while left != {}
        invariant left <= db.windows.Keys
        invariant forall d | d in db.windows && d !in left :: !HasIdentity(db.windows[d], origin, operation)
        decreases left
      {
        var d :| d in left;
        if HasIdentity(db.windows[d], origin, operation) {
          return Some(d);
        }
        left := left - {d};
      }
      return None;
    }

    method ConsumeReverseWindow(request: ConsumeRequest, now: int) returns (outcome: ConsumeOutcome<Upd>)
      requires UniqueIdentity(db)
      modifies this
      ensures (Contents(), outcome) == ConsumeStep(crdt, uuid, old(Contents()), request, now)
    {
      var normalized := NormalizeConsume(uuid, request);
      if normalized.None? {
        return ConsumeFailed(InvalidRequest);
      }
      var req := normalized.value;
      var named := LoadReverseWindowByIdentity(req.origin, req.tombstoneOperationId);
      outcome := Consume(named, req, now);
    }

    method Consume(named: Option<string>, req: ConsumeCommand, now: int) returns (outcome: ConsumeOutcome<Upd>)
      requires named.Some? ==> named.value in db.windows
      modifies this
      ensures (Contents(), outcome) == ConsumeNormalized(crdt, old(Contents()), named, req, now)
    {
      hide EntryForCommand, SetFileDeleted, PathClaimed, Rebuild, Commit, DecodeStateVectorV1, Dominates;
      if !Present(db, db.rootId) {
        return ConsumeFailed(NotFound);
      }
      if named.None? || db.windows[named.value].rootDocumentId != db.rootId {
        return ConsumeFailed(IdentityMismatch);
      }
      var window := db.windows[named.value];
      var matches := HasIdentity(window, req.origin, req.tombstoneOperationId) && window.generation == req.generation;
      if window.restore.Some? && matches && window.restore.value.operation == req.restoreOperationId {
        return ConsumeReplayed(window.generation, window.restore.value.at, window.restore.value.updateId, db.rootId);
      }
      if window.restore.Some? || !matches {
        return ConsumeFailed(IdentityMismatch);
      }
      if now >= window.reverseUntil {
        return ConsumeFailed(Expired);
      }
      if |req.contentStateVector| == 0 {
        return ConsumeFailed(FrontierNotReached);
      }
      var required := ReadStateVectorV1(req.contentStateVector);
      if required.Err? {
        return ConsumeFailed(FrontierNotReached);
      }
      if !Present(db, window.documentId) {
        return ConsumeFailed(IdentityMismatch);
      }
      var content := RestoreDocument(crdt, db.checkpoints, db.updates, window.documentId, db.heads[window.documentId].updateId);
      var reached := StateVectorDominates(crdt.vector(content), required.value);
      if !reached {
        return ConsumeFailed(FrontierNotReached);
      }
      outcome := RestoreEntry(window, named.value, req, now);
    }

    method RestoreEntry(window: Window, documentId: string, req: ConsumeCommand, now: int) returns (outcome: ConsumeOutcome<Upd>)
      requires documentId in db.windows && db.windows[documentId] == window && db.rootId in db.heads
      modifies this
      ensures match DecideRestore(crdt, old(db), window)
              case Settled(answer) => Contents() == old(Contents()) && outcome == answer
              case Proceed(doc, id, value) =>
                var row := RestoredWindow(window, req, old(sequence) + 1, now);
                var (after, error) := Commit(crdt, old(Contents()), doc, id, value, row, now);
                Contents() == after
                && outcome == if error.Some? then ConsumeFailed(error.value)
                              else ConsumeAccepted(req.generation, now, old(sequence) + 1, old(db).rootId, crdt.writeFlag(doc, id, value))
    {
      hide EntryForCommand, SetFileDeleted, PathClaimed, Rebuild, Commit;
      var doc := RestoreDocument(crdt, db.checkpoints, db.updates, db.rootId, db.heads[db.rootId].updateId);
      var root := crdt.root(doc);
      var entry := EntryForCommand(root, window.entryId, window.documentId, window.desiredPath);
      if entry.None? || !entry.value.deleted {
        return ConsumeFailed(RootMismatch);
      }
      var claimed := RootPathClaimedByOtherActiveEntry(root, crdt.keys(doc), window.entryId, window.desiredPath);
      if claimed.None? {
        return ConsumeFailed(MalformedRoot);
      }
      if claimed.value {
        return ConsumeFailed(PathIsClaimed);
      }
      var edit := SetFileDeleted(root, entry.value, false);
      if edit.Refused? {
        return ConsumeFailed(MalformedRoot);
      }
      if edit.AlreadySet? {
        return ConsumeFailed(MutationNotApplied);
      }
      var rootId, updateId := db.rootId, sequence + 1;
      var row := window.(restore := Some(Restore(req.restoreOperationId, updateId, now)));
      var error, update := WriteFlagAndRow(doc, edit.id, edit.value, row, now);
      if error.Some? {
        return ConsumeFailed(error.value);
      }
      outcome := ConsumeAccepted(req.generation, now, updateId, rootId, update);
    }

    /** The generation a client should expect: 0 for a document never deleted. */
    method ReadDocumentReverseGeneration(documentId: string) returns (r: Result<int, Error>)
      ensures r == match uuid(TrimSpace(documentId))
                   case None => Err(InvalidRequest)
                   case Some(id) =>
                     if id !in db.documents then Err(NotFound)
                     else if id in db.windows && db.windows[id].generation <= 0 && db.windows[id].generation != 0 then Err(NoGeneration)
                     else Ok(CurrentGeneration(db, id))
    {
      var parsed := uuid(TrimSpace(documentId));
      if parsed.None? {
        return Err(InvalidRequest);
      }
      if parsed.value !in db.documents {
        return Err(NotFound);
      }
      if parsed.value !in db.windows || db.windows[parsed.value].generation == 0 {
        return Ok(0);
      }
      if db.windows[parsed.value].generation <= 0 {
        return Err(NoGeneration);
      }
      return Ok(db.windows[parsed.value].generation);
    }
  }
}
