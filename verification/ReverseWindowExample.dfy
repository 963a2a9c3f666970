/** A small workspace that meets all the hypotheses of the theorems about reverse windows: a
    replicated type that satisfies the laws, a well-formed state, and an open and its restore that
    are both accepted. */
module ReverseWindowExample {
  import opened Results
  import opened VarUint
  import opened StateVectors
  import opened Paths
  import opened RootSemantics
  import opened ReplicaLog
  import opened ReverseWindow
  import opened ReverseWindowSafety
  import opened ReverseWindowRuns
  import opened ReverseWindowClosed
  import opened ReverseWindowAcceptance
  import opened ReverseWindowHeads

  // ---- a replicated type ----

  datatype Replica = Replica(root: Root)

  /** An update carries a whole replica, or one flag write. */
  datatype Update = Whole(replica: Replica) | SetFlag(id: string, value: string)

  function ApplyUpdate(replica: Replica, update: Update): Replica {
    match update
    case Whole(other) => other
    case SetFlag(id, value) => if HasEntry(replica.root, id) then Replica(WithDeleted(replica.root, id, value)) else replica
  }

  ghost function Listed(keys: set<string>): (list: seq<string>)
    ensures forall key :: key in list <==> key in keys
  {
    if keys == {} then []
    else
      var key :| key in keys;
      [key] + Listed(keys - {key})
  }

  ghost function KeysListed(root: Root): seq<string> {
    if root.Some? then Listed(root.value.Keys) else []
  }

  ghost function Replicas(): Crdt<Replica, Update> {
    Crdt(Replica(None), ApplyUpdate, replica => Whole(replica), (replica: Replica) => map[], (replica: Replica) => replica.root,
         (replica: Replica) => KeysListed(replica.root), (replica: Replica, id, value) => SetFlag(id, value))
  }

  lemma ReplicasAreLawful()
    ensures Lawful(Replicas())
  {
    hide WithDeleted, Listed;
  }

  // ---- a workspace with one document ----

  const ENTRIES: Root := Some(map["e" := EntryMap(TWIN_FIELDS)])

  const TOMBSTONED: Root := Some(map["e" := EntryMap(TWIN_FIELDS.(deleted := Some("true")))])

  const START: State<Update> := State(
    Db("root", {"m"}, map["root" := 0, "doc" := 0], map["root" := Head(1, map[]), "doc" := Head(0, map[])],
       [UpdateRow(1, "root", Whole(Replica(ENTRIES)))], [], map[]), 1, map[])

  lemma StartIsWellFormed()
    ensures WellFormed(Replicas(), START) && RootOf(Replicas(), START.db) == ENTRIES
  {
    var rows := START.db.updates;
    assert rows[1..] == [];
    assert SelectRows(rows, "root", 0, 1) == [Whole(Replica(ENTRIES))] + SelectRows([], "root", 0, 1);
    assert SelectRows(rows, "root", 0, 1) == [Whole(Replica(ENTRIES))];
    OneUpdate(Whole(Replica(ENTRIES)));
    assert RebuildDoc(Replicas(), START.db, "root") == Replica(ENTRIES);
  }

  lemma OneUpdate(update: Update)
    ensures ApplyAll(Replicas(), Replicas().blank, [update]) == ApplyUpdate(Replica(None), update)
  {
    assert [update][1..] == [];
  }

  lemma EntryDecodes()
    ensures EntryAt(ENTRIES, "e") == Some(FileEntry("e", "doc", "x", false)) && SoleEntry(ENTRIES, "e", "doc")
  {
    hide NormalizeCommandPath, TrimmedOr, LocPath, Flag;
    TwinKeys();
    PlainNameIsStable();
    TwinFields();
  }

  // ---- its commands ----

  function TrimmedOnly(text: string): Option<string> {
    if TrimSpace(text) == text then Some(text) else None
  }

  ghost function Parser(): UuidParser {
    TrimmedOnly
  }

  const OPEN := OpenRequest("m", "primary", "o", 0, "e", "doc", "x")
  const UNDO := ConsumeRequest("m", "primary", "o", "r", 1, [0])

  lemma TrimmedNames()
    ensures TrimSpace("m") == "m" && TrimSpace("primary") == "primary" && TrimSpace("o") == "o" && TrimSpace("r") == "r"
    ensures TrimSpace("e") == "e" && TrimSpace("doc") == "doc"
  {
    TrimProperties("m", GoSpace);
    TrimProperties("primary", GoSpace);
    TrimProperties("o", GoSpace);
    TrimProperties("r", GoSpace);
    TrimProperties("e", GoSpace);
    TrimProperties("doc", GoSpace);
  }

  lemma CommandsNormalize()
    ensures NormalizeOpen(Parser(), OPEN) == Some(OpenCommand(Origin("m", "primary"), "o", 0, "e", "doc", "x"))
    ensures NormalizeConsume(Parser(), UNDO) == Some(ConsumeCommand(Origin("m", "primary"), "o", "r", 1, [0]))
  {
    hide TrimSpace, NormalizeCommandPath;
    TrimmedNames();
    PlainNameIsStable();
  }

  lemma OpenIsAccepted()
    ensures OpenStep(Replicas(), Parser(), START, OPEN, 0).1.OpenAccepted?
  {
    hide TrimSpace, NormalizeCommandPath, EntryAt, RootOf, NormalizeOpen, OpenStep, WellFormed;
    CommandsNormalize();
    StartIsWellFormed();
    EntryDecodes();
    TrimmedNames();
    PlainNameIsStable();
    OpenAcceptedExactlyWhen(Replicas(), Parser(), START, OPEN, 0);
  }

  ghost function Opened(): State<Update> {
    OpenStep(Replicas(), Parser(), START, OPEN, 0).0
  }

  /** What the example's open leaves behind. */
  lemma OpenedState()
    ensures WellFormed(Replicas(), Opened()) && Opened().db.windows.Keys == {"doc"}
    ensures "doc" in Opened().db.heads && Opened().db.rootId in Opened().db.heads
    ensures RootOf(Replicas(), Opened().db) == TOMBSTONED
    ensures var outcome := OpenStep(Replicas(), Parser(), START, OPEN, 0).1;
            outcome.OpenAccepted? && outcome.generation == 1
  {
    hide LogWellFormed, WindowsWellFormed, OpenStep, NormalizeOpen, RootOf, EntryAt, Namespace, TrimSpace, Rebuild;
    ReplicasAreLawful();
    StartIsWellFormed();
    CommandsNormalize();
    OpenIsAccepted();
    TrimmedNames();
    OpenEffect(Replicas(), Parser(), START, OPEN, 0);
    assert WithDeleted(ENTRIES, "e", "true").value == TOMBSTONED.value;
  }

  lemma PathIsFree(keys: seq<string>)
    ensures PathClaimed(TOMBSTONED, keys, "e", "x") == Some(false)
  {
    hide NormalizeCommandPath, TrimSpace, RootSemantics.Decode;
    TrimmedNames();
    PlainNameIsStable();
    ClaimScanMeaning(TOMBSTONED.value, keys, "e", "x");
  }

  lemma EmptyVectorDecodes()
    ensures DecodeStateVectorV1([0]) == Ok(map[])
  {
    StateVectorRoundTrip([], []);
    assert Encode(0) + EncodePairs([]) + [] == [0];
  }

  lemma UndoIsAccepted()
    ensures ConsumeStep(Replicas(), Parser(), Opened(), UNDO, 1).1.ConsumeAccepted?
  {
    hide LogWellFormed, WindowsWellFormed, OpenStep, ConsumeStep, NormalizeOpen, NormalizeConsume, RootOf, PathClaimed,
         DecodeStateVectorV1, RebuildDoc, TrimSpace, KeysListed;
    ReplicasAreLawful();
    StartIsWellFormed();
    CommandsNormalize();
    OpenIsAccepted();
    OpenedState();
    EmptyVectorDecodes();
    PathIsFree(Replicas().keys(RootDoc(Replicas(), Opened().db)));
    UndoIsAvailable(Replicas(), Parser(), START, OPEN, 0, UNDO, 1);
  }

  /** The hypotheses of the closed-system theorem hold of the example, and in its run of two steps
      the open and the restore are both accepted. */
  lemma HypothesesAreMet()
    ensures Lawful(Replicas()) && WellFormed(Replicas(), START) && CanonicalIds(Parser())
    ensures InStep(Replicas(), START, "e", "doc") && "doc" !in START.db.windows && HeadsHold(Replicas(), START)
    ensures ClosedRun(Replicas(), Parser(), START, [Open(OPEN, 0), Consume(UNDO, 1)], "e", "doc")
    ensures OpenStep(Replicas(), Parser(), START, OPEN, 0).1.OpenAccepted?
    ensures ConsumeStep(Replicas(), Parser(), Opened(), UNDO, 1).1.ConsumeAccepted?
  {
    hide LogWellFormed, WindowsWellFormed, OpenStep, ConsumeStep, RootOf, EntryAt, TrimSpace, WithDeleted;
    ReplicasAreLawful();
    StartIsWellFormed();
    EntryDecodes();
    OpenIsAccepted();
    OpenedState();
    UndoIsAccepted();
    var steps: seq<Step<Update>> := [Open(OPEN, 0), Consume(UNDO, 1)];
    var rest := steps[1..];
    assert rest == [Consume(UNDO, 1)] && rest[1..] == [];
    assert Target(Replicas(), Parser(), START, steps[0]) == Opened();
    assert ClosedRun(Replicas(), Parser(), Opened(), rest, "e", "doc");
  }

  ghost function Restored(): State<Update> {
    ConsumeStep(Replicas(), Parser(), Opened(), UNDO, 1).0
  }

  /** So the theorems speak about it: the namespace comes back, and both commands can be retried. */
  lemma TheoremsApply()
    ensures Restored().db.rootId in Restored().db.heads
    ensures Namespace(RootOf(Replicas(), Restored().db)) == Namespace(ENTRIES)
    ensures OpenStep(Replicas(), Parser(), Opened(), OPEN, 1_000_000_000).1.OpenReplayed?
    ensures ConsumeStep(Replicas(), Parser(), Restored(), UNDO, 1_000_000_000).1.ConsumeReplayed?
  {
    hide LogWellFormed, WindowsWellFormed, OpenStep, ConsumeStep, RootOf, EntryAt, TrimSpace, WithDeleted, NormalizeOpen,
         NormalizeConsume, Namespace, WindowNamed, Lawful;
    HypothesesAreMet();
    StartIsWellFormed();
    CommandsNormalize();
    OpenedState();
    RestoreUndoesOpen(Replicas(), Parser(), START, OPEN, 0, UNDO, 1);
    RetriedOpen(Replicas(), Parser(), START, OPEN, 0, [], 1_000_000_000);
    ConsumeEffect(Replicas(), Parser(), Opened(), UNDO, 1);
    assert WindowNamed(Opened().db, Origin("m", "primary"), "o") == Some("doc");
    RetriedRestore(Replicas(), Parser(), Opened(), UNDO, 1, "doc", [], UNDO, 1_000_000_000);
  }

  // ---- refused after the first write ----

  /** A consumed window of another document, with the operations it used. */
  function OtherWindow(tombstone: string, restore: string): Window {
    Window("other", "root", "f", "y", Origin("m", "primary"), 1, tombstone,
           Fingerprint(1, OpenCommand(Origin("m", "primary"), tombstone, 0, "f", "other", "y")), 1, 0,
           REVERSE_WINDOW_DURATION, Some(Restore(restore, 1, 0)))
  }

  ghost function With(s: State<Update>, other: Window): State<Update> {
    s.(db := s.db.(windows := s.db.windows["other" := other]))
  }

  /** Another window in the table changes nothing but the table of windows. */
  lemma WithIsWellFormed(s: State<Update>, tombstone: string, restore: string)
    requires WellFormed(Replicas(), s) && "other" !in s.db.windows
    requires forall d | d in s.db.windows :: !HasIdentity(s.db.windows[d], Origin("m", "primary"), tombstone)
    ensures WellFormed(Replicas(), With(s, OtherWindow(tombstone, restore)))
    ensures s.db.rootId in s.db.heads
    ensures RootOf(Replicas(), With(s, OtherWindow(tombstone, restore)).db) == RootOf(Replicas(), s.db)
  {
    hide Replicas, Rebuild;
  }

  ghost function OpenedByCommand(): OpenCommand {
    OpenCommand(Origin("m", "primary"), "o", 0, "e", "doc", "x")
  }

  lemma CrowdedIsReached()
    ensures WellFormed(Replicas(), With(START, OtherWindow("o", "q")))
    ensures OpenReached(Replicas(), With(START, OtherWindow("o", "q")).db, OpenedByCommand())
    ensures !OpenStorable(With(START, OtherWindow("o", "q")).db, OpenedByCommand())
  {
    hide TrimSpace, NormalizeCommandPath, EntryAt, RootOf, LogWellFormed, Rebuild;
    StartIsWellFormed();
    WithIsWellFormed(START, "o", "q");
    EntryDecodes();
    TrimmedNames();
    PlainNameIsStable();
    assert HasIdentity(With(START, OtherWindow("o", "q")).db.windows["other"], Origin("m", "primary"), "o");
  }

  /** An open whose operation another document's window already carries passes every check, is
      refused by the table, and has used up an update id. */
  lemma RefusedOpenBurnsAnId()
    ensures var s := With(START, OtherWindow("o", "q"));
            var (after, outcome) := OpenStep(Replicas(), Parser(), s, OPEN, 0);
            !outcome.OpenAccepted? && after == s.(sequence := s.sequence + 1)
  {
    hide OpenReached, OpenStorable, NormalizeOpen, OpenStep, WellFormed, With, Replicas;
    CommandsNormalize();
    CrowdedIsReached();
    var s := With(START, OtherWindow("o", "q"));
    OpenAcceptedExactlyWhen(Replicas(), Parser(), s, OPEN, 0);
    OpenBurnsExactlyWhen(Replicas(), Parser(), s, OPEN, 0);
  }

  ghost function Undo(): ConsumeCommand {
    ConsumeCommand(Origin("m", "primary"), "o", "r", 1, [0])
  }

  lemma UndoIsReached()
    ensures RestoreReached(Replicas(), Opened().db, "doc", Undo(), 1)
  {
    hide RestoreReached, RestoreStorable, NormalizeConsume, ConsumeStep, WellFormed, Opened, Replicas;
    CommandsNormalize();
    OpenedState();
    UndoIsAccepted();
    ConsumeAcceptedExactlyWhen(Replicas(), Parser(), Opened(), UNDO, 1);
  }

  /** Reaching the write of a restore does not depend on other documents' windows. */
  lemma OthersDoNotMatter(s: State<Update>, other: Window)
    requires s.db.rootId in s.db.heads && RestoreReached(Replicas(), s.db, "doc", Undo(), 1)
    ensures RestoreReached(Replicas(), With(s, other).db, "doc", Undo(), 1) && "doc" in With(s, other).db.windows
  {
    hide Targets, PathClaimed, Rebuild, DecodeStateVectorV1, Replicas;
    assert RootOf(Replicas(), With(s, other).db) == RootOf(Replicas(), s.db);
  }

  lemma ReusedIsReached()
    ensures WellFormed(Replicas(), With(Opened(), OtherWindow("p", "r")))
    ensures RestoreReached(Replicas(), With(Opened(), OtherWindow("p", "r")).db, "doc", Undo(), 1)
    ensures !RestoreStorable(With(Opened(), OtherWindow("p", "r")).db, "doc", Undo())
    ensures "doc" in With(Opened(), OtherWindow("p", "r")).db.windows
  {
    hide Opened, RestoreReached, LogWellFormed, RootOf, Replicas;
    OpenedState();
    UndoIsReached();
    OpenedWindow();
    WithIsWellFormed(Opened(), "p", "r");
    OthersDoNotMatter(Opened(), OtherWindow("p", "r"));
    assert RestoredBy(With(Opened(), OtherWindow("p", "r")).db.windows["other"], Origin("m", "primary"), "r");
  }

  lemma OpenedWindow()
    ensures forall d | d in Opened().db.windows :: !HasIdentity(Opened().db.windows[d], Origin("m", "primary"), "p")
  {
    hide Opened, Replicas, RestoreReached;
    OpenedState();
    UndoIsReached();
    UndoNames(Opened().db);
  }

  lemma UndoNames(db: Db<Update>)
    requires RestoreReached(Replicas(), db, "doc", Undo(), 1)
    ensures "doc" in db.windows && db.windows["doc"].tombstoneOperation == "o"
  {
    hide Targets, PathClaimed, Rebuild, DecodeStateVectorV1, Replicas;
  }

  /** So has a restore whose operation restored another document before. */
  lemma RefusedRestoreBurnsAnId()
    ensures var s := With(Opened(), OtherWindow("p", "r"));
            var (after, outcome) := ConsumeStep(Replicas(), Parser(), s, UNDO, 1);
            !outcome.ConsumeAccepted? && after == s.(sequence := s.sequence + 1)
  {
    hide RestoreReached, RestoreStorable, NormalizeConsume, ConsumeStep, WellFormed, With, Opened, Replicas;
    CommandsNormalize();
    ReusedIsReached();
    var s := With(Opened(), OtherWindow("p", "r"));
    OnlyOneReached(s);
    ConsumeAcceptedExactlyWhen(Replicas(), Parser(), s, UNDO, 1);
    ConsumeBurnsExactlyWhen(Replicas(), Parser(), s, UNDO, 1);
    assert RestoreReached(Replicas(), s.db, "doc", NormalizeConsume(Parser(), UNDO).value, 1);
  }

  lemma OnlyOneReached(s: State<Update>)
    requires WellFormed(Replicas(), s) && RestoreReached(Replicas(), s.db, "doc", Undo(), 1)
    ensures forall d | d in s.db.windows && RestoreGuard(Replicas(), s.db, d, Undo(), 1) :: d == "doc"
  {
    hide Replicas, RestoreReached;
    GuardNames(Replicas(), s.db, "doc", Undo(), 1);
    forall d | d in s.db.windows && RestoreGuard(Replicas(), s.db, d, Undo(), 1) ensures d == "doc" {
      GuardNames(Replicas(), s.db, d, Undo(), 1);
    }
  }
}
