/** Who a command speaks for, read off the texts of its request, and what that decides: a window is
    restored only on behalf of whoever opened it. */
module ReverseWindowOrigin {
  import opened Results
  import opened StateVectors
  import opened RootSemantics
  import opened ReplicaLog
  import opened ReverseWindow
  import opened ReverseWindowSafety
  import opened ReverseWindowRuns

  // ---- the texts of a request ----

  /** A daemon speaks for itself or for one of its agents. */
  datatype Speaker = Primary(daemon: string) | Agent(daemon: string, agent: string)

  ghost predicate Speaks(uuid: UuidParser, daemonId: string, scope: string, who: Speaker) {
    uuid(TrimSpace(daemonId)) == Some(who.daemon)
    && match who
       case Primary(_) => TrimSpace(scope) == "primary"
       case Agent(_, agent) => exists id :: TrimSpace(scope) == "agent:" + id && uuid(TrimSpace(id)) == Some(agent)
  }

  /** The stored form of a speaker. */
  ghost predicate Stores(origin: Origin, who: Speaker) {
    origin.daemonId == who.daemon && origin.scope == if who.Primary? then "primary" else "agent:" + who.agent
  }

  lemma StoresApart(a: Origin, who: Speaker, b: Origin, other: Speaker)
    requires Stores(a, who) && Stores(b, other)
    ensures a == b <==> who == other
  {
    if who.Agent? && other.Agent? && a.scope == b.scope {
      assert a.scope[6..] == who.agent && b.scope[6..] == other.agent;
    } else if a.scope == b.scope {
      assert "primary"[0] != "agent:"[0];
    }
  }

  /** A request has an origin exactly when it speaks for somebody, and then the origin is that
      speaker's stored form. */
  lemma OriginExactlyWhen(uuid: UuidParser, daemonId: string, scope: string, origin: Origin)
    ensures NormalizeOrigin(uuid, daemonId, scope) == Some(origin) <==>
            exists who :: Speaks(uuid, daemonId, scope, who) && Stores(origin, who)
  {
    hide TrimSpace;
    var trimmed := TrimSpace(scope);
    if who :| Speaks(uuid, daemonId, scope, who) && Stores(origin, who) {
      if who.Agent? {
        var id :| trimmed == "agent:" + id && uuid(TrimSpace(id)) == Some(who.agent);
        assert trimmed[6..] == id;
        assert "primary"[0] != trimmed[0];
      }
    }
    if NormalizeOrigin(uuid, daemonId, scope) == Some(origin) {
      var daemon := uuid(TrimSpace(daemonId)).value;
      if trimmed == "primary" {
        assert Speaks(uuid, daemonId, scope, Primary(daemon)) && Stores(origin, Primary(daemon));
      } else {
        assert trimmed == "agent:" + trimmed[6..];
        var agent := uuid(TrimSpace(trimmed[6..])).value;
        assert Speaks(uuid, daemonId, scope, Agent(daemon, agent)) && Stores(origin, Agent(daemon, agent));
      }
    }
  }

  /** Requests share an origin exactly when they speak for the same daemon in its own right, or for
      the same agent of the same daemon. */
  lemma OriginsTellSpeakers(uuid: UuidParser, daemonId: string, scope: string, who: Speaker,
                            otherDaemonId: string, otherScope: string, other: Speaker)
    requires Speaks(uuid, daemonId, scope, who) && Speaks(uuid, otherDaemonId, otherScope, other)
    ensures NormalizeOrigin(uuid, daemonId, scope).Some?
    ensures NormalizeOrigin(uuid, daemonId, scope) == NormalizeOrigin(uuid, otherDaemonId, otherScope) <==> who == other
  {
    hide NormalizeOrigin, Speaks;
    var a := Origin(who.daemon, if who.Primary? then "primary" else "agent:" + who.agent);
    var b := Origin(other.daemon, if other.Primary? then "primary" else "agent:" + other.agent);
    assert Stores(a, who) && Stores(b, other);
    OriginExactlyWhen(uuid, daemonId, scope, a);
    OriginExactlyWhen(uuid, otherDaemonId, otherScope, b);
    StoresApart(a, who, b, other);
  }

  /** What an open command takes from the request: canonical ids, the trimmed entry, the normalised
      path; anything else is refused. */
  lemma OpenExactlyWhen(uuid: UuidParser, r: OpenRequest, command: OpenCommand)
    ensures NormalizeOpen(uuid, r) == Some(command) <==>
            && NormalizeOrigin(uuid, r.originDaemonId, r.originScope) == Some(command.origin)
            && uuid(TrimSpace(r.operationId)) == Some(command.operationId)
            && uuid(TrimSpace(r.contentDocumentId)) == Some(command.contentDocumentId)
            && command.expectedGeneration == r.expectedGeneration >= 0
            && command.entryId == TrimSpace(r.entryId) != ""
            && NormalizeCommandPath(r.expectedDesiredPath) == Some(command.desiredPath)
  {
    hide NormalizeOrigin, TrimSpace, NormalizeCommandPath;
  }

  /** The same for a restore, which must not reuse the operation it undoes. */
  lemma ConsumeExactlyWhen(uuid: UuidParser, r: ConsumeRequest, command: ConsumeCommand)
    ensures NormalizeConsume(uuid, r) == Some(command) <==>
            && NormalizeOrigin(uuid, r.originDaemonId, r.originScope) == Some(command.origin)
            && uuid(TrimSpace(r.tombstoneOperationId)) == Some(command.tombstoneOperationId)
            && uuid(TrimSpace(r.restoreOperationId)) == Some(command.restoreOperationId)
            && command.tombstoneOperationId != command.restoreOperationId
            && command.generation == r.generation > 0
            && command.contentStateVector == r.contentStateVector
  {
    hide NormalizeOrigin, TrimSpace;
  }

  // ---- events and the requests behind them ----

  /** What an event says about the request that caused it. */
  ghost predicate Caused<Upd>(uuid: UuidParser, step: Step<Upd>, e: Event) {
    match e
    case Quiet => true
    case Accepted(d, w) =>
      step.Open? && NormalizeOpen(uuid, step.request).Some?
      && var req := NormalizeOpen(uuid, step.request).value;
      d == req.contentDocumentId && w.fingerprint == Fingerprint(1, req) && w.origin == req.origin
      && w.tombstoneOperation == req.operationId && w.generation == req.expectedGeneration + 1
      && w.openedAt == step.openedAt && w.restore.None?
    case Restored(d, w) =>
      step.Consume? && NormalizeConsume(uuid, step.consume).Some?
      && var req := NormalizeConsume(uuid, step.consume).value;
      w.origin == req.origin && w.tombstoneOperation == req.tombstoneOperationId && w.generation == req.generation
      && w.restore.Some? && w.restore.value.operation == req.restoreOperationId && w.restore.value.at == step.consumedAt
      && step.consumedAt < w.openedAt + REVERSE_WINDOW_DURATION
  }

  lemma StepCaused<Doc(!new), Upd(!new)>(c: Crdt<Doc, Upd>, uuid: UuidParser, s: State<Upd>, step: Step<Upd>)
    requires Lawful(c) && WellFormed(c, s)
    ensures Caused(uuid, step, EventOf(c, uuid, s, step))
  {
    hide OpenStep, ConsumeStep, NormalizeOpen, NormalizeConsume, LogWellFormed, RebuildDoc, Namespace, EntryAt, WithDeleted,
         DecodeStateVectorV1, PathExclusive, WindowNamed;
    match step
    case Open(request, now) => OpenEffect(c, uuid, s, request, now);
    case Consume(request, now) => ConsumeEffect(c, uuid, s, request, now);
    case Outside(_) =>
  }

  lemma {:induction false} EventCaused<Doc(!new), Upd(!new)>(c: Crdt<Doc, Upd>, uuid: UuidParser, s: State<Upd>, steps: seq<Step<Upd>>, i: nat)
    requires Lawful(c) && WellFormed(c, s) && IsRun(c, uuid, s, steps) && i < |steps|
    ensures Caused(uuid, steps[i], Events(c, uuid, s, steps)[i])
    decreases |steps|
  {
    hide Target, EventOf, Allowed, WellFormed, Caused;
    var events, next := Events(c, uuid, s, steps), Target(c, uuid, s, steps[0]);
    StepKeepsInvariants(c, uuid, s, steps[0]);
    assert events[0] == EventOf(c, uuid, s, steps[0]) && events[1..] == Events(c, uuid, next, steps[1..]);
    if i == 0 {
      StepCaused(c, uuid, s, steps[0]);
    } else {
      EventCaused(c, uuid, next, steps[1..], i - 1);
      assert events[i] == events[1..][i - 1];
    }
  }

  // ---- whose windows are restored ----

  /** The restore comes from whoever opened the window, names that very operation and the generation
      it was given, and comes less than five minutes later. */
  ghost predicate UndoesOwn<Upd>(uuid: UuidParser, open: Step<Upd>, undo: Step<Upd>, d: string) {
    open.Open? && undo.Consume?
    && (exists who :: Speaks(uuid, open.request.originDaemonId, open.request.originScope, who)
                      && Speaks(uuid, undo.consume.originDaemonId, undo.consume.originScope, who))
    && uuid(TrimSpace(open.request.contentDocumentId)) == Some(d)
    && uuid(TrimSpace(open.request.operationId)).Some?
    && uuid(TrimSpace(undo.consume.tombstoneOperationId)) == uuid(TrimSpace(open.request.operationId))
    && uuid(TrimSpace(undo.consume.restoreOperationId)) !in {None, uuid(TrimSpace(open.request.operationId))}
    && undo.consume.generation == open.request.expectedGeneration + 1
    && undo.consumedAt < open.openedAt + 300_000_000
  }

  lemma SameOriginSameSpeaker(uuid: UuidParser, daemonId: string, scope: string, otherDaemonId: string, otherScope: string)
    requires NormalizeOrigin(uuid, daemonId, scope).Some?
    requires NormalizeOrigin(uuid, daemonId, scope) == NormalizeOrigin(uuid, otherDaemonId, otherScope)
    ensures exists who :: Speaks(uuid, daemonId, scope, who) && Speaks(uuid, otherDaemonId, otherScope, who)
  {
    hide NormalizeOrigin, Speaks;
    var origin := NormalizeOrigin(uuid, daemonId, scope).value;
    OriginExactlyWhen(uuid, daemonId, scope, origin);
    OriginExactlyWhen(uuid, otherDaemonId, otherScope, origin);
    var who :| Speaks(uuid, daemonId, scope, who) && Stores(origin, who);
    var other :| Speaks(uuid, otherDaemonId, otherScope, other) && Stores(origin, other);
    StoresApart(origin, who, origin, other);
  }

  lemma CausesAgree<Upd>(uuid: UuidParser, open: Step<Upd>, undo: Step<Upd>, accepted: Event, restored: Event, d: string)
    requires accepted.Accepted? && accepted.documentId == d && Caused(uuid, open, accepted)
    requires restored.Restored? && Caused(uuid, undo, restored)
    requires restored.window == accepted.window.(restore := restored.window.restore)
    ensures UndoesOwn(uuid, open, undo, d)
  {
    hide NormalizeOpen, NormalizeConsume, NormalizeOrigin, TrimSpace, Speaks;
    OpenExactlyWhen(uuid, open.request, NormalizeOpen(uuid, open.request).value);
    ConsumeExactlyWhen(uuid, undo.consume, NormalizeConsume(uuid, undo.consume).value);
    SameOriginSameSpeaker(uuid, open.request.originDaemonId, open.request.originScope,
                          undo.consume.originDaemonId, undo.consume.originScope);
  }

  /** In every run, whatever other steps are between: each restore of a document that started
      without a window undoes its opener's own open, the last one accepted before it. */
  lemma RestoresAreTheOpenersOwn<Doc(!new), Upd(!new)>(
    c: Crdt<Doc, Upd>, uuid: UuidParser, s: State<Upd>, steps: seq<Step<Upd>>, d: string, j: nat)
    requires Lawful(c) && WellFormed(c, s) && IsRun(c, uuid, s, steps) && d !in s.db.windows && j < |steps|
    requires Events(c, uuid, s, steps)[j].Restored? && Events(c, uuid, s, steps)[j].documentId == d
    ensures exists i :: 0 <= i < j && Events(c, uuid, s, steps)[i].Accepted? && UndoesOwn(uuid, steps[i], steps[j], d)
                        && forall k | i < k < j :: !About(Events(c, uuid, s, steps)[k], d)
  {
    hide Events, IsRun, WellFormed, Caused, Follows, UndoesOwn, Final;
    var events := Events(c, uuid, s, steps);
    EveryRunFollows(c, uuid, s, steps, d);
    RestoreFollowsItsOpen(RowOf(s.db, d), events, d, RowOf(Final(c, uuid, s, steps).db, d), j);
    var i :| 0 <= i < j && events[i].Accepted? && events[i].documentId == d
             && events[j].window == events[i].window.(restore := events[j].window.restore)
             && forall k | i < k < j :: !About(events[k], d);
    EventCaused(c, uuid, s, steps, i);
    EventCaused(c, uuid, s, steps, j);
    CausesAgree(uuid, steps[i], steps[j], events[i], events[j], d);
  }

  lemma RootIsPresent<Doc(!new), Upd(!new)>(c: Crdt<Doc, Upd>, s: State<Upd>)
    requires WellFormed(c, s)
    ensures Present(s.db, s.db.rootId)
  {
  }

  /** A request on behalf of somebody else is told that there is no such window. */
  lemma StrangersAreRefused<Doc(!new), Upd(!new)>(
    c: Crdt<Doc, Upd>, uuid: UuidParser, s: State<Upd>, open: OpenRequest, openedAt: int, who: Speaker,
    undo: ConsumeRequest, now: int, other: Speaker)
    requires Lawful(c) && WellFormed(c, s) && OpenStep(c, uuid, s, open, openedAt).1.OpenAccepted?
    requires Speaks(uuid, open.originDaemonId, open.originScope, who)
    requires Speaks(uuid, undo.originDaemonId, undo.originScope, other) && who != other && NormalizeConsume(uuid, undo).Some?
    requires forall d | d in s.db.windows ::
               !HasIdentity(s.db.windows[d], NormalizeConsume(uuid, undo).value.origin, NormalizeConsume(uuid, undo).value.tombstoneOperationId)
    ensures var after := OpenStep(c, uuid, s, open, openedAt).0;
            ConsumeStep(c, uuid, after, undo, now) == (after, ConsumeFailed(IdentityMismatch))
  {
    hide OpenStep, NormalizeOpen, NormalizeConsume, NormalizeOrigin, Speaks, LogWellFormed, RebuildDoc, Namespace, EntryAt, WithDeleted,
         DecodeStateVectorV1, Dominates, DecideRestore;
    OpenEffect(c, uuid, s, open, openedAt);
    var after, req, stranger := OpenStep(c, uuid, s, open, openedAt).0, NormalizeOpen(uuid, open).value, NormalizeConsume(uuid, undo).value;
    OpenExactlyWhen(uuid, open, req);
    ConsumeExactlyWhen(uuid, undo, stranger);
    OriginsTellSpeakers(uuid, open.originDaemonId, open.originScope, who, undo.originDaemonId, undo.originScope, other);
    RootIsPresent(c, after);
    assert WindowWellFormed(req.contentDocumentId, after.db.windows[req.contentDocumentId]);
    assert WindowNamed(after.db, stranger.origin, stranger.tombstoneOperationId).None?;
  }
}
