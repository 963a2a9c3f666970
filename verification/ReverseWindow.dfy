/** Reverse windows: deleting a file with a timed undo.  Opening a window tombstones the root
    entry, consuming it restores the entry; both are database transactions. */
module ReverseWindow {
  import opened Results
  import opened VarUint
  import opened StateVectors
  import opened RootSemantics
  import opened ReplicaLog

  /** Times are in microseconds, the precision to which the server truncates its clock. */
  const REVERSE_WINDOW_DURATION := 5 * 60 * 1_000_000

  const MAX_INT64 := 0x7FFF_FFFF_FFFF_FFFF
  const MIN_INT64 := -0x8000_0000_0000_0000

  datatype Error = InvalidRequest | NotFound | RootChanged | NoGeneration | RootMismatch | MalformedRoot
                 | MutationNotApplied | HeadChanged | ConstraintViolation | IdentityMismatch | Expired
                 | FrontierNotReached | PathIsClaimed

  // ---- requests ----

  /** The foreign UUID parser, as a canonicalising partial function. */
  type UuidParser = string -> Option<string>

  datatype Origin = Origin(daemonId: string, scope: string)

  datatype OpenRequest = OpenRequest(
    originDaemonId: string, originScope: string, operationId: string, expectedGeneration: int,
    entryId: string, contentDocumentId: string, expectedDesiredPath: string)

  datatype OpenCommand = OpenCommand(
    origin: Origin, operationId: string, expectedGeneration: int,
    entryId: string, contentDocumentId: string, desiredPath: string)

  /** The payload that is hashed: two requests have the same fingerprint when they agree here. */
  datatype Fingerprint = Fingerprint(version: int, command: OpenCommand)

  datatype ConsumeRequest = ConsumeRequest(
    originDaemonId: string, originScope: string, tombstoneOperationId: string, restoreOperationId: string,
    generation: int, contentStateVector: seq<byte>)

  datatype ConsumeCommand = ConsumeCommand(
    origin: Origin, tombstoneOperationId: string, restoreOperationId: string,
    generation: int, contentStateVector: seq<byte>)

  function NormalizeOrigin(uuid: UuidParser, daemonId: string, scope: string): Option<Origin> {
    var trimmed := TrimSpace(scope);
    match uuid(TrimSpace(daemonId))
    case None => None
    case Some(daemon) =>
      if trimmed == "primary" then Some(Origin(daemon, "primary"))
      else if !("agent:" <= trimmed) then None
      else match uuid(TrimSpace(trimmed[6..]))
        case None => None
        case Some(agent) => Some(Origin(daemon, "agent:" + agent))
  }

  function NormalizeOpen(uuid: UuidParser, r: OpenRequest): Option<OpenCommand> {
    var origin := NormalizeOrigin(uuid, r.originDaemonId, r.originScope);
    var operation := uuid(TrimSpace(r.operationId));
    var content := uuid(TrimSpace(r.contentDocumentId));
    var path := NormalizeCommandPath(r.expectedDesiredPath);
    if origin.None? || operation.None? || r.expectedGeneration < 0 || TrimSpace(r.entryId) == ""
       || content.None? || path.None? then None
    else Some(OpenCommand(origin.value, operation.value, r.expectedGeneration, TrimSpace(r.entryId), content.value, path.value))
  }

  function NormalizeConsume(uuid: UuidParser, r: ConsumeRequest): Option<ConsumeCommand> {
    var origin := NormalizeOrigin(uuid, r.originDaemonId, r.originScope);
    var tombstone := uuid(TrimSpace(r.tombstoneOperationId));
    var restore := uuid(TrimSpace(r.restoreOperationId));
    if origin.None? || tombstone.None? || restore.None? || tombstone == restore || r.generation <= 0 then None
    else Some(ConsumeCommand(origin.value, tombstone.value, restore.value, r.generation, r.contentStateVector))
  }

  // ---- the store ----

  /** The three restore columns are null together or set together. */
  datatype Restore = Restore(operation: string, updateId: int, at: int)

  /** A row of document_reverse_windows.  A null generation reads as 0. */
  datatype Window = Window(
    documentId: string, rootDocumentId: string, entryId: string, desiredPath: string, origin: Origin,
    generation: int, tombstoneOperation: string, fingerprint: Fingerprint, tombstoneUpdateId: int,
    openedAt: int, reverseUntil: int, restore: Option<Restore>)

  datatype Head = Head(updateId: int, vector: StateVector)

  /** The workspace's tables.  Windows are keyed by document, documents carry updated_at. */
  datatype Db<Upd> = Db(
    rootId: string, daemons: set<string>, documents: map<string, int>, heads: map<string, Head>,
    updates: seq<UpdateRow<Upd>>, checkpoints: seq<Checkpoint<Upd>>, windows: map<string, Window>)

  /** The server's in-memory copy of a document's head. */
  datatype CachedHead = CachedHead(updateId: int, vector: StateVector, updatedAt: int)

  /** `sequence` is the last update id handed out; a rollback does not take ids back. */
  datatype State<Upd> = State(db: Db<Upd>, sequence: int, cache: map<string, CachedHead>)

  datatype OpenOutcome<Upd> =
    | OpenAccepted(generation: int, openedAt: int, reverseUntil: int, tombstoneUpdateId: int, rootDocumentId: string, rootUpdate: Upd)
    | OpenReplayed(generation: int, openedAt: int, reverseUntil: int, tombstoneUpdateId: int, rootDocumentId: string)
    | OperationMismatch
    | GenerationConflict(current: int)
    | OpenFailed(error: Error)

  datatype ConsumeOutcome<Upd> =
    | ConsumeAccepted(generation: int, consumedAt: int, restoreUpdateId: int, rootDocumentId: string, rootUpdate: Upd)
    | ConsumeReplayed(generation: int, consumedAt: int, restoreUpdateId: int, rootDocumentId: string)
    | ConsumeFailed(error: Error)

  function RebuildDoc<Doc, Upd>(c: Crdt<Doc, Upd>, db: Db<Upd>, documentId: string): Doc
    requires documentId in db.heads
  {
    Rebuild(c, db.checkpoints, db.updates, documentId, db.heads[documentId].updateId)
  }

  /** Writing a root update: a log row under the next id, the head moved to it under a
      comparison with the head that was read, and the document's timestamp. */
  function PersistRootUpdate<Doc, Upd>(
    c: Crdt<Doc, Upd>, db: Db<Upd>, id: int, readHead: int, doc: Doc, update: Upd, now: int): Option<Db<Upd>>
  {
    if db.rootId !in db.heads || db.heads[db.rootId].updateId != readHead then None
    else Some(db.(
      updates := db.updates + [UpdateRow(id, db.rootId, update)],
      heads := db.heads[db.rootId := Head(id, c.vector(doc))],
      documents := Touched(db.documents, db.rootId, now)))
  }

  /** Setting updated_at; an update statement adds no row. */
  function Touched(documents: map<string, int>, documentId: string, now: int): map<string, int> {
    if documentId in documents then documents[documentId := now] else documents
  }

  /** A document and its head, the two rows that a lookup joins. */
  predicate Present<Upd>(db: Db<Upd>, documentId: string) {
    documentId in db.documents && documentId in db.heads
  }

  function RecordHead(cache: map<string, CachedHead>, documentId: string, updateId: int, vector: StateVector, now: int): map<string, CachedHead> {
    if documentId !in cache || cache[documentId].updateId > updateId then cache
    else cache[documentId := CachedHead(updateId, vector, now)]
  }

  predicate HasIdentity(window: Window, origin: Origin, operation: string) {
    window.origin == origin && window.tombstoneOperation == operation
  }

  predicate RestoredBy(window: Window, origin: Origin, operation: string) {
    window.origin == origin && window.restore.Some? && window.restore.value.operation == operation
  }

  /** No other document's row has the identity of this one. */
  predicate IdentityFree(windows: map<string, Window>, row: Window) {
    forall d | d in windows && d != row.documentId :: !HasIdentity(windows[d], row.origin, row.tombstoneOperation)
  }

  /** The table's unique and check constraints, for the row about to be stored. */
  predicate Admissible<Upd>(db: Db<Upd>, row: Window) {
    && row.generation > 0
    && row.reverseUntil > row.openedAt
    && row.origin.daemonId in db.daemons
    && row.documentId in db.documents
    && IdentityFree(db.windows, row)
    && (row.restore.Some? ==>
          forall d | d in db.windows && d != row.documentId :: !RestoredBy(db.windows[d], row.origin, row.restore.value.operation))
  }

  /** Adding one to an int64. */
  function NextGeneration(generation: int): int {
    if generation == MAX_INT64 then MIN_INT64 else generation + 1
  }

  // ---- opening ----

  function ReplayOf<Upd>(row: Window): OpenOutcome<Upd> {
    OpenReplayed(row.generation, row.openedAt, row.reverseUntil, row.tombstoneUpdateId, row.rootDocumentId)
  }

  /** Everything decided before the first write: a final answer, or the flag to write. */
  datatype Decision<Doc, +Outcome> = Settled(outcome: Outcome) | Proceed(doc: Doc, id: string, value: string)

  function CurrentGeneration<Upd>(db: Db<Upd>, documentId: string): int {
    if documentId in db.windows then db.windows[documentId].generation else 0
  }

  function DecideOpen<Doc, Upd>(c: Crdt<Doc, Upd>, db: Db<Upd>, req: OpenCommand): Decision<Doc, OpenOutcome<Upd>> {
    var present := req.contentDocumentId in db.windows;
    if !Present(db, db.rootId) then Settled(OpenFailed(NotFound))
    else if present && db.windows[req.contentDocumentId].rootDocumentId != db.rootId then Settled(OpenFailed(RootChanged))
    else if present && HasIdentity(db.windows[req.contentDocumentId], req.origin, req.operationId) then
      var current := db.windows[req.contentDocumentId];
      if current.fingerprint != Fingerprint(1, req) then Settled(OperationMismatch)
      else if current.generation <= 0 then Settled(OpenFailed(NoGeneration))
      else Settled(ReplayOf(current))
    else if present && db.windows[req.contentDocumentId].generation <= 0 then Settled(OpenFailed(NoGeneration))
    else if req.expectedGeneration != CurrentGeneration(db, req.contentDocumentId) then
      Settled(GenerationConflict(CurrentGeneration(db, req.contentDocumentId)))
    else if req.contentDocumentId !in db.documents then Settled(OpenFailed(NotFound))
    else DecideTombstone(c, db, req)
  }

  function DecideTombstone<Doc, Upd>(c: Crdt<Doc, Upd>, db: Db<Upd>, req: OpenCommand): Decision<Doc, OpenOutcome<Upd>>
    requires db.rootId in db.heads
  {
    var doc := RebuildDoc(c, db, db.rootId);
    match EntryForCommand(c.root(doc), req.entryId, req.contentDocumentId, req.desiredPath)
    case None => Settled(OpenFailed(RootMismatch))
    case Some(entry) =>
      if entry.deleted then Settled(OpenFailed(RootMismatch))
      else match SetFileDeleted(c.root(doc), entry, true)
        case Refused => Settled(OpenFailed(MalformedRoot))
        case AlreadySet => Settled(OpenFailed(MutationNotApplied))
        case Write(id, value) => Proceed(doc, id, value)
  }

  function NewWindow<Upd>(db: Db<Upd>, req: OpenCommand, updateId: int, now: int): Window {
    Window(req.contentDocumentId, db.rootId, req.entryId, req.desiredPath, req.origin,
           NextGeneration(CurrentGeneration(db, req.contentDocumentId)), req.operationId, Fingerprint(1, req),
           updateId, now, now + REVERSE_WINDOW_DURATION, None)
  }

  /** The writing half of a command: the state after it, and whether it committed. */
  function Commit<Doc, Upd>(
    c: Crdt<Doc, Upd>, s: State<Upd>, doc: Doc, id: string, value: string, row: Window, now: int): (State<Upd>, Option<Error>)
    requires s.db.rootId in s.db.heads
  {
    var updateId := s.sequence + 1;
    var update := c.writeFlag(doc, id, value);
    var after := c.apply(doc, update);
    var burnt := s.(sequence := updateId);
    match PersistRootUpdate(c, s.db, updateId, s.db.heads[s.db.rootId].updateId, after, update, now)
    case None => (burnt, Some(HeadChanged))
    case Some(db) =>
      if !Admissible(db, row) then (burnt, Some(ConstraintViolation))
      else (State(db.(windows := db.windows[row.documentId := row]), updateId,
                  RecordHead(s.cache, s.db.rootId, updateId, c.vector(after), now)), None)
  }

  function OpenNormalized<Doc, Upd>(c: Crdt<Doc, Upd>, s: State<Upd>, req: OpenCommand, now: int): (State<Upd>, OpenOutcome<Upd>) {
    match DecideOpen(c, s.db, req)
    case Settled(outcome) => (s, outcome)
    case Proceed(doc, id, value) =>
      var row := NewWindow(s.db, req, s.sequence + 1, now);
      var (after, error) := Commit(c, s, doc, id, value, row, now);
      if error.Some? then (after, OpenFailed(error.value))
      else (after, OpenAccepted(row.generation, row.openedAt, row.reverseUntil, row.tombstoneUpdateId,
                                row.rootDocumentId, c.writeFlag(doc, id, value)))
  }

  function OpenStep<Doc, Upd>(c: Crdt<Doc, Upd>, uuid: UuidParser, s: State<Upd>, request: OpenRequest, now: int)
    : (State<Upd>, OpenOutcome<Upd>)
  {
    match NormalizeOpen(uuid, request)
    case None => (s, OpenFailed(InvalidRequest))
    case Some(req) => OpenNormalized(c, s, req, now)
  }

  // ---- consuming ----

  /** The row a consume request names.  The unique constraint leaves at most one. */
  ghost function WindowNamed<Upd>(db: Db<Upd>, origin: Origin, operation: string): Option<string> {
    if d :| d in db.windows && HasIdentity(db.windows[d], origin, operation) then Some(d) else None
  }

  ghost predicate UniqueIdentity<Upd>(db: Db<Upd>) {
    forall d, e | d in db.windows && e in db.windows
                  && HasIdentity(db.windows[e], db.windows[d].origin, db.windows[d].tombstoneOperation) :: d == e
  }

  function DecideConsume<Doc, Upd>(c: Crdt<Doc, Upd>, db: Db<Upd>, named: Option<string>, req: ConsumeCommand, now: int)
    : Decision<Doc, ConsumeOutcome<Upd>>
    requires named.Some? ==> named.value in db.windows
  {
    if !Present(db, db.rootId) then Settled(ConsumeFailed(NotFound))
    else if named.None? || db.windows[named.value].rootDocumentId != db.rootId then Settled(ConsumeFailed(IdentityMismatch))
    else
      var window := db.windows[named.value];
      var matches := HasIdentity(window, req.origin, req.tombstoneOperationId) && window.generation == req.generation;
      if matches && window.restore.Some? && window.restore.value.operation == req.restoreOperationId then
        Settled(ConsumeReplayed(window.generation, window.restore.value.at, window.restore.value.updateId, db.rootId))
      else if window.restore.Some? || !matches then Settled(ConsumeFailed(IdentityMismatch))
      else if now >= window.reverseUntil then Settled(ConsumeFailed(Expired))
      else if |req.contentStateVector| == 0 then Settled(ConsumeFailed(FrontierNotReached))
      else match DecodeStateVectorV1(req.contentStateVector)
        case Err(_) => Settled(ConsumeFailed(FrontierNotReached))
        case Ok(required) =>
          if !Present(db, window.documentId) then Settled(ConsumeFailed(IdentityMismatch))
          else if !Dominates(c.vector(RebuildDoc(c, db, window.documentId)), required) then
            Settled(ConsumeFailed(FrontierNotReached))
          else DecideRestore(c, db, window)
  }

  function DecideRestore<Doc, Upd>(c: Crdt<Doc, Upd>, db: Db<Upd>, window: Window): Decision<Doc, ConsumeOutcome<Upd>>
    requires db.rootId in db.heads
  {
    var doc := RebuildDoc(c, db, db.rootId);
    match EntryForCommand(c.root(doc), window.entryId, window.documentId, window.desiredPath)
    case None => Settled(ConsumeFailed(RootMismatch))
    case Some(entry) =>
      if !entry.deleted then Settled(ConsumeFailed(RootMismatch))
      else match PathClaimed(c.root(doc), c.keys(doc), window.entryId, window.desiredPath)
        case None => Settled(ConsumeFailed(MalformedRoot))
        case Some(true) => Settled(ConsumeFailed(PathIsClaimed))
        case Some(false) =>
          match SetFileDeleted(c.root(doc), entry, false)
          case Refused => Settled(ConsumeFailed(MalformedRoot))
          case AlreadySet => Settled(ConsumeFailed(MutationNotApplied))
          case Write(id, value) => Proceed(doc, id, value)
  }

  function RestoredWindow(window: Window, req: ConsumeCommand, updateId: int, now: int): Window {
    window.(restore := Some(Restore(req.restoreOperationId, updateId, now)))
  }

  function ConsumeNormalized<Doc, Upd>(c: Crdt<Doc, Upd>, s: State<Upd>, named: Option<string>, req: ConsumeCommand, now: int)
    : (State<Upd>, ConsumeOutcome<Upd>)
    requires named.Some? ==> named.value in s.db.windows
  {
    match DecideConsume(c, s.db, named, req, now)
    case Settled(outcome) => (s, outcome)
    case Proceed(doc, id, value) =>
      var row := RestoredWindow(s.db.windows[named.value], req, s.sequence + 1, now);
      var (after, error) := Commit(c, s, doc, id, value, row, now);
      if error.Some? then (after, ConsumeFailed(error.value))
      else (after, ConsumeAccepted(req.generation, now, s.sequence + 1, s.db.rootId, c.writeFlag(doc, id, value)))
  }

  ghost function ConsumeStep<Doc, Upd>(c: Crdt<Doc, Upd>, uuid: UuidParser, s: State<Upd>, request: ConsumeRequest, now: int)
    : (State<Upd>, ConsumeOutcome<Upd>)
  {
    match NormalizeConsume(uuid, request)
    case None => (s, ConsumeFailed(InvalidRequest))
    case Some(req) => ConsumeNormalized(c, s, WindowNamed(s.db, req.origin, req.tombstoneOperationId), req, now)
  }
}
