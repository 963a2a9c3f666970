/** Reverse windows in a closed system, where a document's root entry is touched by commands
    only, and the answers that retried commands get. */
module ReverseWindowClosed {
  import opened Results
  import opened StateVectors
  import opened RootSemantics
  import opened ReplicaLog
  import opened ReverseWindow
  import opened ReverseWindowSafety
  import opened ReverseWindowRuns

  /** `key` holds the document's only root entry. */
  ghost predicate SoleEntry(root: Root, key: string, d: string) {
    && EntryAt(root, key).Some? && EntryAt(root, key).value.contentDocumentId == d
    && forall k | EntryAt(root, k).Some? && EntryAt(root, k).value.contentDocumentId == d :: k == key
  }

  /** Outside steps that leave the document's entry as it is and make no other one. */
  ghost predicate LeavesEntry<Doc(!new), Upd(!new)>(c: Crdt<Doc, Upd>, s: State<Upd>, step: Step<Upd>, key: string, d: string)
    requires s.db.rootId in s.db.heads
  {
    step.Outside? && step.after.db.rootId in step.after.db.heads ==>
      SoleEntry(RootOf(c, step.after.db), key, d)
      && EntryAt(RootOf(c, step.after.db), key) == EntryAt(RootOf(c, s.db), key)
  }

  /** Canonical UUIDs carry no white space. */
  ghost predicate CanonicalIds(uuid: UuidParser) {
    forall text | uuid(text).Some? :: TrimSpace(uuid(text).value) == uuid(text).value
  }

  predicate Pending(row: Option<Window>) {
    row.Some? && row.value.restore.None?
  }

  /** The entry is deleted exactly while the current window waits to be consumed. */
  ghost predicate InStep<Doc(!new), Upd(!new)>(c: Crdt<Doc, Upd>, s: State<Upd>, key: string, d: string) {
    && s.db.rootId in s.db.heads
    && SoleEntry(RootOf(c, s.db), key, d)
    && (EntryAt(RootOf(c, s.db), key).value.deleted <==> Pending(RowOf(s.db, d)))
    && (forall k | k in s.db.windows :: TrimSpace(k) == k)
  }

  /** Flipping an entry's flag keeps sole entries sole, and moves only its own flag. */
  lemma FlipKeepsSole(root: Root, after: Root, id: string, deleted: bool, key: string, d: string)
    requires SoleEntry(root, key, d) && EntryAt(root, id).Some?
    requires after == WithDeleted(root, id, FlagText(deleted))
    ensures SoleEntry(after, key, d)
    ensures EntryAt(after, key).value.deleted == if id == key then deleted else EntryAt(root, key).value.deleted
    ensures EntryAt(root, id).value.contentDocumentId == d <==> id == key
  {
    hide Decode;
    WriteFlipsOneEntry(root, id, deleted);
    forall k
      ensures EntryAt(after, k) == if k == id then Some(EntryAt(root, id).value.(deleted := deleted)) else EntryAt(root, k)
    {
      if HasEntry(after, k) {
        assert k in Namespace(after);
      }
    }
  }

  lemma OpenKeepsInStep<Doc(!new), Upd(!new)>(
    c: Crdt<Doc, Upd>, uuid: UuidParser, s: State<Upd>, request: OpenRequest, now: int, key: string, d: string)
    requires Lawful(c) && WellFormed(c, s) && CanonicalIds(uuid) && InStep(c, s, key, d)
    ensures InStep(c, OpenStep(c, uuid, s, request, now).0, key, d)
    ensures OpenStep(c, uuid, s, request, now).1.OpenAccepted? ==>
              NormalizeOpen(uuid, request).value.contentDocumentId == d ==> !Pending(RowOf(s.db, d))
  {
    hide OpenStep, Rebuild, EntryAt, Namespace, WithDeleted, LogWellFormed, SoleEntry;
    OpenEffect(c, uuid, s, request, now);
    var (after, outcome) := OpenStep(c, uuid, s, request, now);
    if outcome.OpenAccepted? {
      var req := NormalizeOpen(uuid, request).value;
      FlipKeepsSole(RootOf(c, s.db), RootOf(c, after.db), TrimSpace(req.entryId), true, key, d);
      assert TrimSpace(req.contentDocumentId) == req.contentDocumentId;
    }
  }

  lemma ConsumeKeepsInStep<Doc(!new), Upd(!new)>(
    c: Crdt<Doc, Upd>, uuid: UuidParser, s: State<Upd>, request: ConsumeRequest, now: int, key: string, d: string)
    requires Lawful(c) && WellFormed(c, s) && InStep(c, s, key, d)
    ensures InStep(c, ConsumeStep(c, uuid, s, request, now).0, key, d)
  {
    hide ConsumeStep, NormalizeConsume, Rebuild, EntryAt, Namespace, WithDeleted, LogWellFormed, SoleEntry, DecodeStateVectorV1, PathExclusive;
    ConsumeEffect(c, uuid, s, request, now);
    var (after, outcome) := ConsumeStep(c, uuid, s, request, now);
    if outcome.ConsumeAccepted? {
      var req := NormalizeConsume(uuid, request).value;
      var named := WindowNamed(s.db, req.origin, req.tombstoneOperationId).value;
      FlipKeepsSole(RootOf(c, s.db), RootOf(c, after.db), TrimSpace(s.db.windows[named].entryId), false, key, d);
    }
  }

  /** A run whose outside steps leave the document's entry alone. */
  ghost predicate ClosedRun<Doc(!new), Upd(!new)>(
    c: Crdt<Doc, Upd>, uuid: UuidParser, s: State<Upd>, steps: seq<Step<Upd>>, key: string, d: string)
    decreases |steps|
  {
    |steps| == 0
    || (s.db.rootId in s.db.heads && Allowed(c, s, steps[0]) && LeavesEntry(c, s, steps[0], key, d)
        && ClosedRun(c, uuid, Target(c, uuid, s, steps[0]), steps[1..], key, d))
  }

  lemma {:induction false} ClosedRunIsRun<Doc(!new), Upd(!new)>(
    c: Crdt<Doc, Upd>, uuid: UuidParser, s: State<Upd>, steps: seq<Step<Upd>>, key: string, d: string)
    requires ClosedRun(c, uuid, s, steps, key, d)
    ensures IsRun(c, uuid, s, steps)
    decreases |steps|
  {
    hide Target, Allowed, LeavesEntry;
    if |steps| > 0 { ClosedRunIsRun(c, uuid, Target(c, uuid, s, steps[0]), steps[1..], key, d); }
  }

  lemma StepKeepsInStep<Doc(!new), Upd(!new)>(
    c: Crdt<Doc, Upd>, uuid: UuidParser, s: State<Upd>, step: Step<Upd>, key: string, d: string)
    requires Lawful(c) && WellFormed(c, s) && CanonicalIds(uuid) && InStep(c, s, key, d)
    requires Allowed(c, s, step) && LeavesEntry(c, s, step, key, d)
    ensures InStep(c, Target(c, uuid, s, step), key, d)
    ensures var e := EventOf(c, uuid, s, step);
            e.Accepted? && e.documentId == d ==> !Pending(RowOf(s.db, d))
  {
    hide OpenStep, ConsumeStep, Rebuild, EntryAt, SoleEntry, NormalizeOpen, NormalizeConsume;
    match step
    case Open(request, now) => OpenKeepsInStep(c, uuid, s, request, now, key, d);
    case Consume(request, now) => ConsumeKeepsInStep(c, uuid, s, request, now, key, d);
    case Outside(_) =>
  }

  /** Opens and restores of one document taking strict turns. */
  predicate Alternates(pending: bool, events: seq<Event>, d: string)
    decreases |events|
  {
    if |events| == 0 then true
    else if !About(events[0], d) then Alternates(pending, events[1..], d)
    else pending == events[0].Restored? && Alternates(!pending, events[1..], d)
  }

  function CountRestored(events: seq<Event>, d: string): nat {
    if |events| == 0 then 0 else (if events[0].Restored? && events[0].documentId == d then 1 else 0) + CountRestored(events[1..], d)
  }

  lemma {:induction false} AlternationBalances(pending: bool, events: seq<Event>, d: string, lastPending: bool, row: Option<Window>, last: Option<Window>)
    requires Alternates(pending, events, d) && Follows(row, events, d, last)
    requires pending == Pending(row) && lastPending == Pending(last)
    ensures CountAccepted(events, d) + (if pending then 1 else 0) == CountRestored(events, d) + (if lastPending then 1 else 0)
    decreases |events|
  {
    if |events| > 0 {
      var next :| Moves(row, events[0], d, next) && Follows(next, events[1..], d, last);
      AlternationBalances(Pending(next), events[1..], d, lastPending, next, last);
    }
  }

  lemma {:induction false} ClosedRunAlternates<Doc(!new), Upd(!new)>(
    c: Crdt<Doc, Upd>, uuid: UuidParser, s: State<Upd>, steps: seq<Step<Upd>>, key: string, d: string)
    requires Lawful(c) && WellFormed(c, s) && CanonicalIds(uuid) && InStep(c, s, key, d)
    requires ClosedRun(c, uuid, s, steps, key, d) && IsRun(c, uuid, s, steps)
    ensures InStep(c, Final(c, uuid, s, steps), key, d)
    ensures Alternates(Pending(RowOf(s.db, d)), Events(c, uuid, s, steps), d)
    decreases |steps|
  {
    hide Target, EventOf, Allowed, WellFormed, LeavesEntry, InStep;
    if |steps| > 0 {
      var next, events := Target(c, uuid, s, steps[0]), Events(c, uuid, s, steps);
      StepKeepsInvariants(c, uuid, s, steps[0]);
      StepMoves(c, uuid, s, steps[0], d);
      StepKeepsInStep(c, uuid, s, steps[0], key, d);
      ClosedRunAlternates(c, uuid, next, steps[1..], key, d);
      assert events[0] == EventOf(c, uuid, s, steps[0]) && events[1..] == Events(c, uuid, next, steps[1..]);
    }
  }

  /** Closed system.  When only commands touch a document's single root entry, opens and
      restores strictly alternate; the entry is deleted exactly while the current window is
      unconsumed; the generation is the number of accepted opens, and the number of accepted
      restores is the generation or one less. */
  lemma ClosedSystem<Doc(!new), Upd(!new)>(
    c: Crdt<Doc, Upd>, uuid: UuidParser, s: State<Upd>, steps: seq<Step<Upd>>, key: string, d: string)
    requires Lawful(c) && WellFormed(c, s) && CanonicalIds(uuid) && InStep(c, s, key, d)
    requires d !in s.db.windows && ClosedRun(c, uuid, s, steps, key, d)
    ensures (ClosedRunIsRun(c, uuid, s, steps, key, d);
            var events, final := Events(c, uuid, s, steps), Final(c, uuid, s, steps);
            && final.db.rootId in final.db.heads
            && Alternates(false, events, d)
            && CurrentGeneration(final.db, d) == CountAccepted(events, d)
            && EntryAt(RootOf(c, final.db), key).Some?
            && (EntryAt(RootOf(c, final.db), key).value.deleted <==> d in final.db.windows && final.db.windows[d].restore.None?)
            && CountRestored(events, d) ==
               CurrentGeneration(final.db, d) - (if EntryAt(RootOf(c, final.db), key).value.deleted then 1 else 0))
  {
    hide Events, Final, WellFormed, IsRun, ClosedRun, Alternates, CountAccepted, CountRestored, Follows, EntryAt, RootOf;
    ClosedRunIsRun(c, uuid, s, steps, key, d);
    var events, row, last := Events(c, uuid, s, steps), RowOf(s.db, d), RowOf(Final(c, uuid, s, steps).db, d);
    ClosedRunAlternates(c, uuid, s, steps, key, d);
    EveryRunFollows(c, uuid, s, steps, d);
    GenerationsCount(row, events, d, last);
    AlternationBalances(false, events, d, Pending(last), row, last);
  }

  // ---- retries ----

  lemma {:induction false} RootStays<Doc(!new), Upd(!new)>(c: Crdt<Doc, Upd>, uuid: UuidParser, s: State<Upd>, steps: seq<Step<Upd>>)
    requires Lawful(c) && WellFormed(c, s) && IsRun(c, uuid, s, steps)
    ensures var final := Final(c, uuid, s, steps);
            final.db.rootId == s.db.rootId && Present(final.db, final.db.rootId)
    decreases |steps|
  {
    hide OpenStep, ConsumeStep, NormalizeOpen, NormalizeConsume, RestoreAllowed, Namespace, RebuildDoc, WithDeleted, EntryAt, Faithful;
    if |steps| > 0 {
      StepKeepsInvariants(c, uuid, s, steps[0]);
      match steps[0] {
        case Open(request, now) => OpenEffect(c, uuid, s, request, now);
        case Consume(request, now) => ConsumeEffect(c, uuid, s, request, now);
        case Outside(_) =>
      }
      RootStays(c, uuid, Target(c, uuid, s, steps[0]), steps[1..]);
    }
  }

  /** Until the next acceptance, a window changes in its restore columns only, and once. */
  lemma {:induction false} WindowStays(row: Option<Window>, events: seq<Event>, d: string, last: Option<Window>)
    requires Follows(row, events, d, last) && row.Some? && CountAccepted(events, d) == 0
    ensures last.Some? && last.value == row.value.(restore := last.value.restore)
    ensures row.value.restore.Some? ==> last == row
    decreases |events|
  {
    if |events| > 0 {
      var next :| Moves(row, events[0], d, next) && Follows(next, events[1..], d, last);
      WindowStays(next, events[1..], d, last);
    }
  }

  /** While its window is still the current one, a retried open gets exactly the result stored
      at its first acceptance, at any later time (also past the deadline, also after the window
      was consumed), and changes nothing. */
  lemma RetriedOpen<Doc(!new), Upd(!new)>(
    c: Crdt<Doc, Upd>, uuid: UuidParser, s: State<Upd>, request: OpenRequest, now: int, steps: seq<Step<Upd>>, later: int)
    requires Lawful(c) && WellFormed(c, s) && OpenStep(c, uuid, s, request, now).1.OpenAccepted?
    requires WellFormed(c, OpenStep(c, uuid, s, request, now).0) && IsRun(c, uuid, OpenStep(c, uuid, s, request, now).0, steps)
    requires NormalizeOpen(uuid, request).Some?
    requires CountAccepted(Events(c, uuid, OpenStep(c, uuid, s, request, now).0, steps), NormalizeOpen(uuid, request).value.contentDocumentId) == 0
    ensures var (opened0, first) := OpenStep(c, uuid, s, request, now);
            var final := Final(c, uuid, opened0, steps);
            OpenStep(c, uuid, final, request, later) ==
            (final, OpenReplayed(first.generation, first.openedAt, first.reverseUntil, first.tombstoneUpdateId, first.rootDocumentId))
  {
    hide NormalizeOpen, OpenNormalized, Events, Final, IsRun, LogWellFormed, Follows, CountAccepted, EntryAt, Namespace, RebuildDoc, WithDeleted;
    var after := OpenStep(c, uuid, s, request, now).0;
    var req := NormalizeOpen(uuid, request).value;
    var d := req.contentDocumentId;
    var final := Final(c, uuid, after, steps);
    OpenEffect(c, uuid, s, request, now);
    EveryRunFollows(c, uuid, after, steps, d);
    WindowStays(RowOf(after.db, d), Events(c, uuid, after, steps), d, RowOf(final.db, d));
    RootStays(c, uuid, after, steps);
    CurrentOpenReplays(c, final, req, later);
  }

  lemma CurrentOpenReplays<Doc(!new), Upd(!new)>(c: Crdt<Doc, Upd>, s: State<Upd>, req: OpenCommand, now: int)
    requires Present(s.db, s.db.rootId) && req.contentDocumentId in s.db.windows
    requires var w := s.db.windows[req.contentDocumentId];
             WindowWellFormed(req.contentDocumentId, w) && w.rootDocumentId == s.db.rootId && w.fingerprint == Fingerprint(1, req)
    ensures OpenNormalized(c, s, req, now) == (s, ReplayOf(s.db.windows[req.contentDocumentId]))
  {
  }

  lemma ConsumedWindowStays<Doc(!new), Upd(!new)>(c: Crdt<Doc, Upd>, uuid: UuidParser, s: State<Upd>, steps: seq<Step<Upd>>, d: string)
    requires Lawful(c) && WellFormed(c, s) && IsRun(c, uuid, s, steps)
    requires d in s.db.windows && s.db.windows[d].restore.Some? && CountAccepted(Events(c, uuid, s, steps), d) == 0
    ensures var final := Final(c, uuid, s, steps);
            d in final.db.windows && final.db.windows[d] == s.db.windows[d]
            && WindowNamed(final.db, s.db.windows[d].origin, s.db.windows[d].tombstoneOperation) == Some(d)
            && final.db.rootId == s.db.rootId && Present(final.db, final.db.rootId)
  {
    hide Events, Final, IsRun, LogWellFormed, Follows, CountAccepted, WindowNamed;
    EveryRunFollows(c, uuid, s, steps, d);
    WindowStays(RowOf(s.db, d), Events(c, uuid, s, steps), d, RowOf(Final(c, uuid, s, steps).db, d));
    RootStays(c, uuid, s, steps);
    NamedWindow(Final(c, uuid, s, steps).db, d);
  }

  /** Likewise a retried restore of the document `d`, whatever content frontier the retry carries. */
  lemma RetriedRestore<Doc(!new), Upd(!new)>(
    c: Crdt<Doc, Upd>, uuid: UuidParser, s: State<Upd>, request: ConsumeRequest, now: int, d: string, steps: seq<Step<Upd>>,
    retry: ConsumeRequest, later: int)
    requires Lawful(c) && WellFormed(c, s) && ConsumeStep(c, uuid, s, request, now).1.ConsumeAccepted?
    requires NormalizeConsume(uuid, request).Some?
    requires WindowNamed(s.db, NormalizeConsume(uuid, request).value.origin, NormalizeConsume(uuid, request).value.tombstoneOperationId) == Some(d)
    requires WellFormed(c, ConsumeStep(c, uuid, s, request, now).0) && IsRun(c, uuid, ConsumeStep(c, uuid, s, request, now).0, steps)
    requires CountAccepted(Events(c, uuid, ConsumeStep(c, uuid, s, request, now).0, steps), d) == 0
    requires retry == request.(contentStateVector := retry.contentStateVector)
    ensures var (restored0, first) := ConsumeStep(c, uuid, s, request, now);
            var final := Final(c, uuid, restored0, steps);
            ConsumeStep(c, uuid, final, retry, later) ==
            (final, ConsumeReplayed(first.generation, first.consumedAt, first.restoreUpdateId, first.rootDocumentId))
  {
    hide ConsumeNormalized, Events, Final, IsRun, WellFormed, LogWellFormed, CountAccepted, EntryAt, Namespace, RebuildDoc, WithDeleted,
         DecodeStateVectorV1, WindowNamed;
    var (after, first) := ConsumeStep(c, uuid, s, request, now);
    var req := NormalizeConsume(uuid, request).value;
    ConsumeEffect(c, uuid, s, request, now);
    ConsumedWindowStays(c, uuid, after, steps, d);
    CurrentRestoreReplays(c, Final(c, uuid, after, steps), d, NormalizeConsume(uuid, retry).value, later);
  }

  lemma CurrentRestoreReplays<Doc(!new), Upd(!new)>(c: Crdt<Doc, Upd>, s: State<Upd>, d: string, req: ConsumeCommand, now: int)
    requires Present(s.db, s.db.rootId) && d in s.db.windows
    requires var w := s.db.windows[d];
             w.rootDocumentId == s.db.rootId && HasIdentity(w, req.origin, req.tombstoneOperationId) && w.generation == req.generation
             && w.restore.Some? && w.restore.value.operation == req.restoreOperationId
    ensures var restore := s.db.windows[d].restore.value;
            ConsumeNormalized(c, s, Some(d), req, now) == (s, ConsumeReplayed(req.generation, restore.at, restore.updateId, s.db.rootId))
  {
  }
}
