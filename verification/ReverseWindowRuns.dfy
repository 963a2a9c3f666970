/** Reverse windows over whole runs: commands of any number of clients, interleaved with
    arbitrary other edits of the workspace. */
module ReverseWindowRuns {
  import opened Results
  import opened StateVectors
  import opened RootSemantics
  import opened ReplicaLog
  import opened ReverseWindow
  import opened ReverseWindowSafety

  /** One atomic step.  An outside step is whatever else the server does to the workspace:
      root and content updates, checkpoints, new documents. */
  datatype Step<Upd> =
    | Open(request: OpenRequest, openedAt: int)
    | Consume(consume: ConsumeRequest, consumedAt: int)
    | Outside(after: State<Upd>)

  /** What a step did to the windows; refused commands and replays are quiet. */
  datatype Event = Accepted(documentId: string, window: Window) | Restored(documentId: string, window: Window) | Quiet

  /** Outside steps leave the windows alone and keep the log rebuildable. */
  ghost predicate Allowed<Doc(!new), Upd(!new)>(c: Crdt<Doc, Upd>, s: State<Upd>, step: Step<Upd>) {
    step.Outside? ==>
      LogWellFormed(c, step.after) && step.after.db.windows == s.db.windows && step.after.db.rootId == s.db.rootId
  }

  ghost function Target<Doc(!new), Upd(!new)>(c: Crdt<Doc, Upd>, uuid: UuidParser, s: State<Upd>, step: Step<Upd>): State<Upd> {
    match step
    case Open(request, now) => OpenStep(c, uuid, s, request, now).0
    case Consume(request, now) => ConsumeStep(c, uuid, s, request, now).0
    case Outside(after) => after
  }

  ghost function EventOf<Doc(!new), Upd(!new)>(c: Crdt<Doc, Upd>, uuid: UuidParser, s: State<Upd>, step: Step<Upd>): Event
    requires Lawful(c) && WellFormed(c, s)
  {
    match step
    case Open(request, now) =>
      OpenEffect(c, uuid, s, request, now);
      var (after, outcome) := OpenStep(c, uuid, s, request, now);
      if outcome.OpenAccepted? then
        var d := NormalizeOpen(uuid, request).value.contentDocumentId;
        Accepted(d, after.db.windows[d])
      else Quiet
    case Consume(request, now) =>
      ConsumeEffect(c, uuid, s, request, now);
      var (after, outcome) := ConsumeStep(c, uuid, s, request, now);
      if outcome.ConsumeAccepted? then
        var req := NormalizeConsume(uuid, request).value;
        var d := WindowNamed(s.db, req.origin, req.tombstoneOperationId).value;
        Restored(d, after.db.windows[d])
      else Quiet
    case Outside(_) => Quiet
  }

  lemma StepKeepsInvariants<Doc(!new), Upd(!new)>(c: Crdt<Doc, Upd>, uuid: UuidParser, s: State<Upd>, step: Step<Upd>)
    requires Lawful(c) && WellFormed(c, s) && Allowed(c, s, step)
    ensures WellFormed(c, Target(c, uuid, s, step))
  {
    hide OpenStep, ConsumeStep, LogWellFormed, OpenedBy, RestoredAt, RestoreAllowed;
    match step
    case Open(request, now) => OpenEffect(c, uuid, s, request, now);
    case Consume(request, now) => ConsumeEffect(c, uuid, s, request, now);
    case Outside(_) =>
  }

  /** A run: every step allowed in the state it is taken from. */
  ghost predicate IsRun<Doc(!new), Upd(!new)>(c: Crdt<Doc, Upd>, uuid: UuidParser, s: State<Upd>, steps: seq<Step<Upd>>)
    decreases |steps|
  {
    |steps| == 0 || (Allowed(c, s, steps[0]) && IsRun(c, uuid, Target(c, uuid, s, steps[0]), steps[1..]))
  }

  ghost function Final<Doc(!new), Upd(!new)>(c: Crdt<Doc, Upd>, uuid: UuidParser, s: State<Upd>, steps: seq<Step<Upd>>): State<Upd>
    decreases |steps|
  {
    if |steps| == 0 then s else Final(c, uuid, Target(c, uuid, s, steps[0]), steps[1..])
  }

  ghost function Events<Doc(!new), Upd(!new)>(c: Crdt<Doc, Upd>, uuid: UuidParser, s: State<Upd>, steps: seq<Step<Upd>>): (events: seq<Event>)
    requires Lawful(c) && WellFormed(c, s) && IsRun(c, uuid, s, steps)
    ensures |events| == |steps|
    decreases |steps|
  {
    if |steps| == 0 then []
    else
      StepKeepsInvariants(c, uuid, s, steps[0]);
      [EventOf(c, uuid, s, steps[0])] + Events(c, uuid, Target(c, uuid, s, steps[0]), steps[1..])
  }

  // ---- one document's history ----

  ghost function RowOf<Upd>(db: Db<Upd>, d: string): Option<Window> {
    if d in db.windows then Some(db.windows[d]) else None
  }

  function GenerationOf(row: Option<Window>): int {
    if row.Some? then row.value.generation else 0
  }

  /** How one event moves a document's current window: an acceptance replaces it by the next
      generation, a restore consumes the current one once and changes nothing else about it. */
  ghost predicate Moves(row: Option<Window>, e: Event, d: string, next: Option<Window>) {
    match e
    case Accepted(other, w) =>
      if other != d then next == row
      else next == Some(w) && w.generation == GenerationOf(row) + 1 && w.restore.None?
           && w.fingerprint.command.expectedGeneration == GenerationOf(row)
    case Restored(other, w) =>
      if other != d then next == row
      else next == Some(w) && row.Some? && row.value.restore.None? && w.restore.Some?
           && w == row.value.(restore := w.restore)
    case Quiet => next == row
  }

  lemma StepMoves<Doc(!new), Upd(!new)>(c: Crdt<Doc, Upd>, uuid: UuidParser, s: State<Upd>, step: Step<Upd>, d: string)
    requires Lawful(c) && WellFormed(c, s) && Allowed(c, s, step)
    ensures Moves(RowOf(s.db, d), EventOf(c, uuid, s, step), d, RowOf(Target(c, uuid, s, step).db, d))
  {
    hide OpenStep, ConsumeStep, LogWellFormed, DecodeStateVectorV1, Namespace, RebuildDoc, WithDeleted, EntryAt, NormalizeOpen, NormalizeConsume, PathExclusive;
    match step
    case Open(request, now) => OpenEffect(c, uuid, s, request, now);
    case Consume(request, now) => ConsumeEffect(c, uuid, s, request, now);
    case Outside(_) =>
  }

  /** Following a document's window through a sequence of events. */
  ghost predicate Follows(row: Option<Window>, events: seq<Event>, d: string, last: Option<Window>)
    decreases |events|
  {
    if |events| == 0 then last == row
    else exists next :: Moves(row, events[0], d, next) && Follows(next, events[1..], d, last)
  }

  /** In every run, whatever else happens in the workspace, each document's window moves only in
      this way, and ends up in the table. */
  lemma {:induction false} EveryRunFollows<Doc(!new), Upd(!new)>(
    c: Crdt<Doc, Upd>, uuid: UuidParser, s: State<Upd>, steps: seq<Step<Upd>>, d: string)
    requires Lawful(c) && WellFormed(c, s) && IsRun(c, uuid, s, steps)
    ensures WellFormed(c, Final(c, uuid, s, steps))
    ensures Follows(RowOf(s.db, d), Events(c, uuid, s, steps), d, RowOf(Final(c, uuid, s, steps).db, d))
    decreases |steps|
  {
    hide Target, EventOf, Allowed, WellFormed, Moves;
    if |steps| > 0 {
      StepKeepsInvariants(c, uuid, s, steps[0]);
      StepMoves(c, uuid, s, steps[0], d);
      var next := Target(c, uuid, s, steps[0]);
      EveryRunFollows(c, uuid, next, steps[1..], d);
      var events := Events(c, uuid, s, steps);
      assert events[0] == EventOf(c, uuid, s, steps[0]) && events[1..] == Events(c, uuid, next, steps[1..]);
    }
  }

  // ---- generations ----

  predicate About(e: Event, d: string) {
    !e.Quiet? && e.documentId == d
  }

  /** Acceptances and restores on one scale: generation g is accepted at 2g and restored at 2g+1. */
  function Stamp(e: Event): int
    requires !e.Quiet?
  {
    if e.Accepted? then 2 * e.window.generation else 2 * e.window.generation + 1
  }

  function RowStamp(row: Option<Window>): int {
    if row.None? then 1 else if row.value.restore.None? then 2 * row.value.generation else 2 * row.value.generation + 1
  }

  function CountAccepted(events: seq<Event>, d: string): nat {
    if |events| == 0 then 0 else (if events[0].Accepted? && events[0].documentId == d then 1 else 0) + CountAccepted(events[1..], d)
  }

  lemma {:induction false} StampsAbove(row: Option<Window>, events: seq<Event>, d: string, last: Option<Window>, i: nat)
    requires Follows(row, events, d, last) && i < |events| && About(events[i], d)
    requires row.Some? ==> row.value.generation > 0
    ensures Stamp(events[i]) > RowStamp(row)
    decreases |events|
  {
    var next :| Moves(row, events[0], d, next) && Follows(next, events[1..], d, last);
    if i > 0 {
      assert events[1..][i - 1] == events[i];
      StampsAbove(next, events[1..], d, last, i - 1);
    }
  }

  /** Along any history the stamps strictly increase: no generation is accepted twice, none is
      restored twice, and none is restored once a newer one has been accepted. */
  lemma {:induction false} StampsIncrease(row: Option<Window>, events: seq<Event>, d: string, last: Option<Window>, i: nat, j: nat)
    requires Follows(row, events, d, last) && i < j < |events| && About(events[i], d) && About(events[j], d)
    requires row.Some? ==> row.value.generation > 0
    ensures Stamp(events[i]) < Stamp(events[j])
    decreases |events|
  {
    var next :| Moves(row, events[0], d, next) && Follows(next, events[1..], d, last);
    assert events[1..][j - 1] == events[j];
    if i == 0 {
      StampsAbove(next, events[1..], d, last, j - 1);
    } else {
      assert events[1..][i - 1] == events[i];
      StampsIncrease(next, events[1..], d, last, i - 1, j - 1);
    }
  }

  lemma {:induction false} GenerationsCount(row: Option<Window>, events: seq<Event>, d: string, last: Option<Window>)
    requires Follows(row, events, d, last)
    ensures GenerationOf(last) == GenerationOf(row) + CountAccepted(events, d)
    decreases |events|
  {
    if |events| > 0 {
      var next :| Moves(row, events[0], d, next) && Follows(next, events[1..], d, last);
      GenerationsCount(next, events[1..], d, last);
    }
  }

  lemma {:induction false} AcceptedAt(row: Option<Window>, events: seq<Event>, d: string, last: Option<Window>, i: nat)
    requires Follows(row, events, d, last) && i < |events| && events[i].Accepted? && events[i].documentId == d
    ensures events[i].window.generation == GenerationOf(row) + CountAccepted(events[..i + 1], d)
    ensures events[i].window.fingerprint.command.expectedGeneration + 1 == events[i].window.generation
    decreases |events|
  {
    var next :| Moves(row, events[0], d, next) && Follows(next, events[1..], d, last);
    assert events[..i + 1][1..] == events[1..][..i];
    if i == 0 {
      assert CountAccepted(events[1..][..0], d) == 0;
    } else {
      assert events[1..][i - 1] == events[i];
      AcceptedAt(next, events[1..], d, last, i - 1);
    }
  }

  /** Open system.  With arbitrary outside edits interleaved, a document that starts without a
      window gets the generations 1, 2, 3, ... in order and without gaps, one for each accepted
      open; no request is accepted twice; every generation is restored at most once, and only
      while it is the newest. */
  lemma GenerationsRunInOrder<Doc(!new), Upd(!new)>(
    c: Crdt<Doc, Upd>, uuid: UuidParser, s: State<Upd>, steps: seq<Step<Upd>>, d: string)
    requires Lawful(c) && WellFormed(c, s) && IsRun(c, uuid, s, steps)
    ensures var events := Events(c, uuid, s, steps);
            && CurrentGeneration(Final(c, uuid, s, steps).db, d) == CurrentGeneration(s.db, d) + CountAccepted(events, d)
            && (forall i | 0 <= i < |events| && events[i].Accepted? && events[i].documentId == d ::
                  events[i].window.generation == CurrentGeneration(s.db, d) + CountAccepted(events[..i + 1], d))
            && (forall i, j | 0 <= i < j < |events| && About(events[i], d) && About(events[j], d) ::
                  Stamp(events[i]) < Stamp(events[j]))
            && (forall i, j | 0 <= i < j < |events| && About(events[i], d) && About(events[j], d)
                              && events[i].Accepted? && events[j].Accepted? ::
                  events[i].window.fingerprint != events[j].window.fingerprint)
  {
    hide Events, Final, IsRun, LogWellFormed, Moves, CountAccepted, Follows;
    var events, row, last := Events(c, uuid, s, steps), RowOf(s.db, d), RowOf(Final(c, uuid, s, steps).db, d);
    EveryRunFollows(c, uuid, s, steps, d);
    GenerationsCount(row, events, d, last);
    assert row.Some? ==> WindowWellFormed(d, row.value);
    forall i | 0 <= i < |events| && events[i].Accepted? && events[i].documentId == d
      ensures events[i].window.generation == GenerationOf(row) + CountAccepted(events[..i + 1], d)
      ensures events[i].window.fingerprint.command.expectedGeneration + 1 == events[i].window.generation
    {
      AcceptedAt(row, events, d, last, i);
    }
    forall i, j | 0 <= i < j < |events| && About(events[i], d) && About(events[j], d)
      ensures Stamp(events[i]) < Stamp(events[j])
    {
      StampsIncrease(row, events, d, last, i, j);
    }
  }

  /** A restore at any point of a run that began without a window restores exactly the most
      recently accepted one: an acceptance precedes it, with nothing about the document between. */
  lemma {:induction false} RestoreFollowsItsOpen(row: Option<Window>, events: seq<Event>, d: string, last: Option<Window>, j: nat)
    requires Follows(row, events, d, last) && j < |events| && events[j].Restored? && events[j].documentId == d
    ensures (row.Some? && row.value.restore.None? && events[j].window == row.value.(restore := events[j].window.restore)
             && forall k | 0 <= k < j :: !About(events[k], d))
            || exists i :: 0 <= i < j && events[i].Accepted? && events[i].documentId == d
                           && events[j].window == events[i].window.(restore := events[j].window.restore)
                           && forall k | i < k < j :: !About(events[k], d)
    decreases |events|
  {
    var next :| Moves(row, events[0], d, next) && Follows(next, events[1..], d, last);
    if j > 0 {
      var rest := events[1..];
      assert rest[j - 1] == events[j];
      RestoreFollowsItsOpen(next, rest, d, last, j - 1);
      if i :| 0 <= i < j - 1 && rest[i].Accepted? && rest[i].documentId == d
              && rest[j - 1].window == rest[i].window.(restore := rest[j - 1].window.restore)
              && forall k | i < k < j - 1 :: !About(rest[k], d) {
        assert events[i + 1] == rest[i];
        forall k | i + 1 < k < j
          ensures !About(events[k], d)
        {
          assert events[k] == rest[k - 1];
        }
      } else {
        forall k | 0 < k < j
          ensures !About(events[k], d)
        {
          assert events[k] == rest[k - 1];
        }
        if About(events[0], d) {
          assert events[0].Accepted? && next == Some(events[0].window);
        }
      }
    }
  }
}
