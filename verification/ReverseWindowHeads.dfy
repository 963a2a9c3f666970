/** The state vectors kept beside the documents: on their head rows, and in the server's memory. */
module ReverseWindowHeads {
  import opened Results
  import opened StateVectors
  import opened RootSemantics
  import opened ReplicaLog
  import opened ReverseWindow
  import opened ReverseWindowSafety
  import opened ReverseWindowRuns

  /** Every head row carries the state vector of its document as it rebuilds. */
  ghost predicate VectorsHold<Doc(!new), Upd(!new)>(c: Crdt<Doc, Upd>, db: Db<Upd>) {
    forall d | d in db.heads :: db.heads[d].vector == c.vector(RebuildDoc(c, db, d))
  }

  /** What the server's memory holds of a document is its stored head and timestamp. */
  ghost predicate CacheHolds<Upd>(s: State<Upd>) {
    forall d | d in s.cache :: Present(s.db, d)
      && s.cache[d] == CachedHead(s.db.heads[d].updateId, s.db.heads[d].vector, s.db.documents[d])
  }

  /** Only the root's head and timestamp have moved, and the copy in memory with them: it never
      appears, and it never goes back to an older head. */
  ghost predicate HeadMoved<Upd>(s: State<Upd>, after: State<Upd>, updateId: int, vector: StateVector, now: int) {
    var root := s.db.rootId;
    && after.db.heads == s.db.heads[root := Head(updateId, vector)]
    && after.db.documents == s.db.documents[root := now]
    && after.cache.Keys == s.cache.Keys
    && (forall d | d in s.cache && d != root :: after.cache[d] == s.cache[d])
    && (root in s.cache ==>
          after.cache[root] == if s.cache[root].updateId <= updateId then CachedHead(updateId, vector, now) else s.cache[root])
  }

  lemma CommitMovesHead<Doc(!new), Upd(!new)>(
    c: Crdt<Doc, Upd>, s: State<Upd>, doc: Doc, id: string, value: string, row: Window, now: int)
    requires Present(s.db, s.db.rootId)
    ensures var (after, error) := Commit(c, s, doc, id, value, row, now);
            error.None? ==> HeadMoved(s, after, s.sequence + 1, c.vector(c.apply(doc, c.writeFlag(doc, id, value))), now)
  {
    hide Admissible;
  }

  /** A committed write stores, with the root's new head and in memory, the state vector of the root
      as it rebuilds from then on; the other documents rebuild as before. */
  lemma CommitStoresVector<Doc(!new), Upd(!new)>(
    c: Crdt<Doc, Upd>, s: State<Upd>, after: State<Upd>, doc: Doc, id: string, value: string, row: Window, now: int)
    requires Lawful(c) && LogWellFormed(c, s) && doc == RebuildDoc(c, s.db, s.db.rootId)
    requires Commit(c, s, doc, id, value, row, now) == (after, None)
    ensures after.db.heads.Keys == s.db.heads.Keys && after.db.rootId == s.db.rootId
    ensures HeadMoved(s, after, s.sequence + 1, c.vector(RebuildDoc(c, after.db, s.db.rootId)), now)
    ensures forall d | d in s.db.heads && d != s.db.rootId :: RebuildDoc(c, after.db, d) == RebuildDoc(c, s.db, d)
  {
    hide Commit, RebuildDoc, HeadMoved;
    CommitMovesHead(c, s, doc, id, value, row, now);
    CommitOrNothing(c, s, doc, id, value, row, now);
    forall d | d in s.db.heads ensures
      RebuildDoc(c, after.db, d) == if d == s.db.rootId then c.apply(doc, c.writeFlag(doc, id, value)) else RebuildDoc(c, s.db, d)
    {
      CommittedRebuilds(c, s, after, row, c.writeFlag(doc, id, value), d);
    }
  }

  /** The write behind an accepted open. */
  lemma OpenIsCommit<Doc(!new), Upd(!new)>(c: Crdt<Doc, Upd>, uuid: UuidParser, s: State<Upd>, request: OpenRequest, now: int)
    returns (doc: Doc, id: string, value: string, row: Window)
    requires OpenStep(c, uuid, s, request, now).1.OpenAccepted?
    ensures Present(s.db, s.db.rootId) && doc == RebuildDoc(c, s.db, s.db.rootId)
    ensures var (after, outcome) := OpenStep(c, uuid, s, request, now);
            Commit(c, s, doc, id, value, row, now) == (after, None) && outcome.tombstoneUpdateId == s.sequence + 1
  {
    hide NormalizeOpen, Commit, DecideTombstone, Rebuild, Flips;
    var req := NormalizeOpen(uuid, request).value;
    SettledOpenIsNotAccepted(c, s.db, req);
    assert DecideOpen(c, s.db, req) == DecideTombstone(c, s.db, req);
    var p := DecideTombstone(c, s.db, req);
    TombstoneReads(c, s.db, req);
    doc, id, value, row := p.doc, p.id, p.value, NewWindow(s.db, req, s.sequence + 1, now);
  }

  lemma TombstoneReads<Doc, Upd>(c: Crdt<Doc, Upd>, db: Db<Upd>, req: OpenCommand)
    requires db.rootId in db.heads && DecideTombstone(c, db, req).Proceed?
    ensures DecideTombstone(c, db, req).doc == RebuildDoc(c, db, db.rootId)
  {
    hide EntryForCommand, SetFileDeleted, Rebuild;
  }

  /** The write behind an accepted restore. */
  lemma ConsumeIsCommit<Doc(!new), Upd(!new)>(c: Crdt<Doc, Upd>, uuid: UuidParser, s: State<Upd>, request: ConsumeRequest, now: int)
    returns (doc: Doc, id: string, value: string, row: Window)
    requires ConsumeStep(c, uuid, s, request, now).1.ConsumeAccepted?
    ensures Present(s.db, s.db.rootId) && doc == RebuildDoc(c, s.db, s.db.rootId)
    ensures var (after, outcome) := ConsumeStep(c, uuid, s, request, now);
            Commit(c, s, doc, id, value, row, now) == (after, None) && outcome.restoreUpdateId == s.sequence + 1
  {
    hide NormalizeConsume, Commit, DecideRestore, Rebuild, WindowNamed, DecodeStateVectorV1, Dominates;
    var req := NormalizeConsume(uuid, request).value;
    var named := WindowNamed(s.db, req.origin, req.tombstoneOperationId);
    NamedIsStored(s.db, req.origin, req.tombstoneOperationId);
    SettledConsumeIsNotAccepted(c, s.db, named, req, now);
    var w := s.db.windows[named.value];
    assert DecideConsume(c, s.db, named, req, now) == DecideRestore(c, s.db, w);
    var p := DecideRestore(c, s.db, w);
    RestoreReads(c, s.db, w);
    doc, id, value, row := p.doc, p.id, p.value, RestoredWindow(w, req, s.sequence + 1, now);
  }

  lemma NamedIsStored<Upd>(db: Db<Upd>, origin: Origin, operation: string)
    ensures WindowNamed(db, origin, operation).Some? ==> WindowNamed(db, origin, operation).value in db.windows
  {
  }

  lemma RestoreReads<Doc, Upd>(c: Crdt<Doc, Upd>, db: Db<Upd>, window: Window)
    requires db.rootId in db.heads && DecideRestore(c, db, window).Proceed?
    ensures DecideRestore(c, db, window).doc == RebuildDoc(c, db, db.rootId)
  {
    hide EntryForCommand, SetFileDeleted, Rebuild, PathClaimed;
  }

  /** After an accepted open, the root's stored head, in its row and in memory, has the update's id
      and the state vector of the root as it rebuilds from then on. */
  lemma OpenMovesHead<Doc(!new), Upd(!new)>(c: Crdt<Doc, Upd>, uuid: UuidParser, s: State<Upd>, request: OpenRequest, now: int)
    requires Lawful(c) && WellFormed(c, s) && OpenStep(c, uuid, s, request, now).1.OpenAccepted?
    ensures var (after, outcome) := OpenStep(c, uuid, s, request, now);
            s.db.rootId in after.db.heads
            && HeadMoved(s, after, outcome.tombstoneUpdateId, c.vector(RebuildDoc(c, after.db, s.db.rootId)), now)
  {
    hide OpenStep, Rebuild, Commit, LogWellFormed, WindowsWellFormed, HeadMoved;
    var doc, id, value, row := OpenIsCommit(c, uuid, s, request, now);
    CommitStoresVector(c, s, OpenStep(c, uuid, s, request, now).0, doc, id, value, row, now);
  }

  /** So it is after an accepted restore. */
  lemma ConsumeMovesHead<Doc(!new), Upd(!new)>(c: Crdt<Doc, Upd>, uuid: UuidParser, s: State<Upd>, request: ConsumeRequest, now: int)
    requires Lawful(c) && WellFormed(c, s) && ConsumeStep(c, uuid, s, request, now).1.ConsumeAccepted?
    ensures var (after, outcome) := ConsumeStep(c, uuid, s, request, now);
            s.db.rootId in after.db.heads
            && HeadMoved(s, after, outcome.restoreUpdateId, c.vector(RebuildDoc(c, after.db, s.db.rootId)), now)
  {
    hide ConsumeStep, Rebuild, Commit, LogWellFormed, WindowsWellFormed, HeadMoved;
    var doc, id, value, row := ConsumeIsCommit(c, uuid, s, request, now);
    CommitStoresVector(c, s, ConsumeStep(c, uuid, s, request, now).0, doc, id, value, row, now);
  }

  // ---- over runs ----

  ghost predicate HeadsHold<Doc(!new), Upd(!new)>(c: Crdt<Doc, Upd>, s: State<Upd>) {
    VectorsHold(c, s.db) && CacheHolds(s)
  }

  lemma CommitKeepsHeads<Doc(!new), Upd(!new)>(
    c: Crdt<Doc, Upd>, s: State<Upd>, after: State<Upd>, doc: Doc, id: string, value: string, row: Window, now: int)
    requires Lawful(c) && LogWellFormed(c, s) && HeadsHold(c, s) && doc == RebuildDoc(c, s.db, s.db.rootId)
    requires Commit(c, s, doc, id, value, row, now) == (after, None)
    ensures HeadsHold(c, after)
  {
    hide Commit, RebuildDoc, Replay, Faithful;
    CommitStoresVector(c, s, after, doc, id, value, row, now);
  }

  /** Outside steps may move any head, as long as they store its vector with it. */
  ghost predicate TellsHeads<Doc(!new), Upd(!new)>(c: Crdt<Doc, Upd>, step: Step<Upd>) {
    step.Outside? ==> HeadsHold(c, step.after)
  }

  lemma StepKeepsHeads<Doc(!new), Upd(!new)>(c: Crdt<Doc, Upd>, uuid: UuidParser, s: State<Upd>, step: Step<Upd>)
    requires Lawful(c) && WellFormed(c, s) && HeadsHold(c, s) && TellsHeads(c, step)
    ensures HeadsHold(c, Target(c, uuid, s, step))
  {
    hide OpenStep, ConsumeStep, LogWellFormed, WindowsWellFormed, Commit, Rebuild, HeadsHold, OpenedBy, RestoredAt, RestoreAllowed,
         NormalizeOpen, NormalizeConsume;
    match step
    case Open(request, now) =>
      OpenEffect(c, uuid, s, request, now);
      var (after, outcome) := OpenStep(c, uuid, s, request, now);
      if outcome.OpenAccepted? {
        var doc, id, value, row := OpenIsCommit(c, uuid, s, request, now);
        CommitKeepsHeads(c, s, after, doc, id, value, row, now);
      } else {
        SameHeads(c, s, after);
      }
    case Consume(request, now) =>
      ConsumeEffect(c, uuid, s, request, now);
      var (after, outcome) := ConsumeStep(c, uuid, s, request, now);
      if outcome.ConsumeAccepted? {
        var doc, id, value, row := ConsumeIsCommit(c, uuid, s, request, now);
        CommitKeepsHeads(c, s, after, doc, id, value, row, now);
      } else {
        SameHeads(c, s, after);
      }
    case Outside(_) =>
  }

  lemma SameHeads<Doc(!new), Upd(!new)>(c: Crdt<Doc, Upd>, s: State<Upd>, after: State<Upd>)
    requires HeadsHold(c, s) && after.db == s.db && after.cache == s.cache
    ensures HeadsHold(c, after)
  {
    hide Rebuild;
  }

  /** In every run every head row carries the state vector its document rebuilds to, and the
      server's memory agrees with the rows. */
  lemma {:induction false} EveryRunKeepsHeads<Doc(!new), Upd(!new)>(c: Crdt<Doc, Upd>, uuid: UuidParser, s: State<Upd>, steps: seq<Step<Upd>>)
    requires Lawful(c) && WellFormed(c, s) && HeadsHold(c, s) && IsRun(c, uuid, s, steps)
    requires forall i | 0 <= i < |steps| :: TellsHeads(c, steps[i])
    ensures HeadsHold(c, Final(c, uuid, s, steps))
    decreases |steps|
  {
    hide Target, Allowed, WellFormed, HeadsHold, TellsHeads;
    if |steps| > 0 {
      assert TellsHeads(c, steps[0]);
      StepKeepsHeads(c, uuid, s, steps[0]);
      StepKeepsInvariants(c, uuid, s, steps[0]);
      EveryRunKeepsHeads(c, uuid, Target(c, uuid, s, steps[0]), steps[1..]);
    }
  }
}
