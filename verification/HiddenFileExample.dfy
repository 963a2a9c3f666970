/** A workspace in which a deletion is accepted and cannot be undone, because of another file. */
module HiddenFileExample {
  import opened Results
  import opened Paths
  import opened RootSemantics
  import opened ReplicaLog
  import opened ReverseWindow
  import opened ReverseWindowSafety
  import opened ReverseWindowAcceptance
  import opened ReverseWindowExample
  import opened RootAgreement

  /** The file at "x" as in the other example, and one that the client has put at ".env". */
  const TWO_FILES: Root := Some(map["e" := EntryMap(TWIN_FIELDS), "h" := EntryMap(Stored(Written("h", ".env", false)))])

  const TWO_START: State<Update> := State(
    Db("root", {"m"}, map["root" := 0, "doc" := 0], map["root" := Head(1, map[]), "doc" := Head(0, map[])],
       [UpdateRow(1, "root", Whole(Replica(TWO_FILES)))], [], map[]), 1, map[])

  lemma TwoStartIsWellFormed()
    ensures WellFormed(Replicas(), TWO_START) && RootOf(Replicas(), TWO_START.db) == TWO_FILES
  {
    hide Stored, Written;
    var rows := TWO_START.db.updates;
    assert rows[1..] == [];
    assert SelectRows(rows, "root", 0, 1) == [Whole(Replica(TWO_FILES))] + SelectRows([], "root", 0, 1);
    assert SelectRows(rows, "root", 0, 1) == [Whole(Replica(TWO_FILES))];
    OneUpdate(Whole(Replica(TWO_FILES)));
    assert RebuildDoc(Replicas(), TWO_START.db, "root") == Replica(TWO_FILES);
  }

  lemma HiddenIsUnreadable(root: Root)
    requires HasEntry(root, "h") && root.value["h"] == EntryMap(Stored(Written("h", ".env", false)))
    ensures TrimSpace("h") == "h" && EntryAt(root, "h").None?
  {
    hide Decode, Trim, Hidden, Split;
    HiddenPathIsAccepted();
    DottedName();
    TrimProperties("h", JsSpace);
    TrimProperties("h", GoSpace);
    ServerReads("h", ".env", false);
  }

  lemma TwoOpenIsAccepted()
    ensures OpenStep(Replicas(), Parser(), TWO_START, OPEN, 0).1.OpenAccepted?
  {
    hide TrimSpace, NormalizeCommandPath, Decode, RootOf, NormalizeOpen, OpenStep, WellFormed;
    CommandsNormalize();
    TwoStartIsWellFormed();
    EntryDecodes();
    TrimmedNames();
    PlainNameIsStable();
    assert EntryAt(TWO_FILES, "e") == EntryAt(ENTRIES, "e");
    OpenAcceptedExactlyWhen(Replicas(), Parser(), TWO_START, OPEN, 0);
  }

  /** Deleting "x" is accepted; no request can restore it. */
  lemma HiddenFileStopsUndo(undo: ConsumeRequest, now: int)
    ensures OpenStep(Replicas(), Parser(), TWO_START, OPEN, 0).1.OpenAccepted?
    ensures !ConsumeStep(Replicas(), Parser(), OpenStep(Replicas(), Parser(), TWO_START, OPEN, 0).0, undo, now).1.ConsumeAccepted?
  {
    hide LogWellFormed, WindowsWellFormed, OpenStep, ConsumeStep, NormalizeOpen, RootOf, EntryAt, Namespace, TrimSpace, Rebuild, Stored, Written;
    ReplicasAreLawful();
    TwoStartIsWellFormed();
    TwoOpenIsAccepted();
    CommandsNormalize();
    TrimmedNames();
    OpenEffect(Replicas(), Parser(), TWO_START, OPEN, 0);
    var after := OpenStep(Replicas(), Parser(), TWO_START, OPEN, 0).0;
    assert RootOf(Replicas(), after.db) == WithDeleted(TWO_FILES, "e", "true");
    HiddenIsUnreadable(RootOf(Replicas(), after.db));
    UnreadableEntryBlocksRestores(Replicas(), Parser(), after, undo, now, "h");
  }
}
