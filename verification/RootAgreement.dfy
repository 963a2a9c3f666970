/** The root document is written by the client and read by the server's commands: when the two see
    the same file in an entry, and what an entry does that the server cannot read. */
module RootAgreement {
  import opened Results
  import opened Paths
  import opened ReplicaLog
  import opened ReverseWindow
  import opened ReverseWindowSafety
  import opened ReverseWindowAcceptance
  import Client = RootNamespace
  import Server = RootSemantics

  // ---- one entry, read on both sides ----

  /** The entry as it is stored, as the server's decoder finds it. */
  function Stored(entry: Client.Entry): Server.Fields {
    Server.Fields(Some(entry.kind), Some(entry.contentDocumentId), Server.At(entry.loc.parentId, entry.loc.name), Some(entry.deleted))
  }

  /** The two languages' white space differs in two characters. */
  lemma SpacesDiffer(c: char)
    ensures Server.GoSpace(c) != JsSpace(c) <==> c == '\U{0085}' || c == '\U{FEFF}'
  {
  }

  predicate TrimmedForBoth(s: string) {
    Trimmed(s, JsSpace) && Trimmed(s, Server.GoSpace)
  }

  lemma BothTrims(s: string)
    requires TrimmedForBoth(s)
    ensures Client.StringValue(s) == s && Server.TrimSpace(s) == s
  {
    hide Trim;
    TrimProperties(s, JsSpace);
    TrimProperties(s, Server.GoSpace);
  }

  /** Of a path that the client keeps as it is, the server keeps exactly those without a part that
      begins with a dot. */
  lemma ServerKeepsExactlyWhen(path: string)
    requires path != "" && Client.Normal(path) && TrimmedForBoth(path)
    ensures Server.NormalizeCommandPath(path) == if Server.Hidden(Split(path)) then None else Some(path)
  {
    hide Split, Server.NormalizeDocumentPath;
    BothTrims(path);
    SlashesFree(path);
    NormalIsClean(path);
  }

  lemma NormalIsClean(path: string)
    requires path != "" && Client.Normal(path) && Trimmed(path, Server.GoSpace)
    ensures Server.NormalizeDocumentPath(path) == Some(path)
  {
    var parts := Split(path);
    TrimProperties(path, Server.GoSpace);
    JoinSplit(path);
    CleanKeepsPlain(parts, [], true);
    assert [] + parts == parts;
    assert Plain(parts[0]);
    Server.FirstPart(path);
    assert !("../" <= path) by { if "../" <= path { UpFirst(path); } }
  }

  lemma UpFirst(path: string)
    requires "../" <= path
    ensures Split(path)[0] == ".."
  {
    assert path == ".." + "/" + path[3..];
    SplitAtSlash("..", path[3..]);
  }

  /** An entry the client has written for a document: its key, the path, and whether it was deleted. */
  function Written(id: string, path: string, deleted: bool): Client.Entry {
    Client.Entry("file", id, Client.Loc("", path), if deleted then "true" else "false")
  }

  lemma ClientReads(id: string, path: string, deleted: bool)
    requires id != "" && TrimmedForBoth(id) && Client.Normal(path) && TrimmedForBoth(path)
    ensures Client.DecodeEntry(id, Client.EntryMap(Written(id, path, deleted))) == Some(Client.FileEntry(id, id, path, deleted))
  {
    hide Trim, Client.Normalize;
    BothTrims(id);
    TrimProperties("file", JsSpace);
    TrimProperties("true", JsSpace);
    TrimProperties("false", JsSpace);
    Client.NormalIsStable(path);
    Client.NormalIsStable("");
  }

  lemma ServerReads(id: string, path: string, deleted: bool)
    requires id != "" && TrimmedForBoth(id) && path != "" && Client.Normal(path) && TrimmedForBoth(path)
    ensures Server.Decode(id, Stored(Written(id, path, deleted))) ==
            if Server.Hidden(Split(path)) then None else Some(Server.FileEntry(id, id, path, deleted))
  {
    hide Trim, Server.NormalizeCommandPath, Server.Hidden;
    BothTrims(id);
    BothTrims(path);
    TrimProperties("file", Server.GoSpace);
    TrimProperties("true", Server.GoSpace);
    TrimProperties("false", Server.GoSpace);
    TrimProperties("", Server.GoSpace);
    ServerKeepsExactlyWhen(path);
  }

  /** After an upsert or a tombstone of a document whose id and path have no white space at their ends,
      the client lists the file as it was meant, and the server sees the same file, unless a part of
      the path begins with a dot: then its commands cannot read the entry at all. */
  lemma BothSeeTheFile(root: Client.Root, id: string, path: string, deleted: bool)
    requires id != "" && TrimmedForBoth(id) && Client.Normalize(path) != "" && TrimmedForBoth(Client.Normalize(path))
    ensures var upserted, shown := Client.Apply(root, Client.Upsert(id, path)), Client.Normalize(path);
            var after := if deleted then Client.Apply(upserted, Client.Tombstone(id)) else upserted;
            && id in after.entries && after.entries[id].EntryMap?
            && Client.DecodeEntry(id, after.entries[id]) == Some(Client.FileEntry(id, id, shown, deleted))
            && Server.Decode(id, Stored(after.entries[id].entry)) ==
               if Server.Hidden(Split(shown)) then None else Some(Server.FileEntry(id, id, shown, deleted))
  {
    hide Trim, Client.Normalize, Server.Decode, Client.DecodeEntry, Server.Hidden;
    var shown := Client.Normalize(path);
    BothTrims(id);
    Client.NormalizedIsNormal(path);
    Client.NormalIsStable(shown);
    ClientReads(id, shown, deleted);
    ServerReads(id, shown, deleted);
    assert Client.Put(root, id, id, shown).entries[id] == Client.EntryMap(Written(id, shown, false));
  }

  // ---- an entry the server cannot read ----

  /** While the root holds an entry that does not decode, no restore of any document is accepted. */
  lemma UnreadableEntryBlocksRestores<Doc(!new), Upd(!new)>(
    c: Crdt<Doc, Upd>, uuid: UuidParser, s: State<Upd>, request: ConsumeRequest, now: int, key: string)
    requires Lawful(c) && WellFormed(c, s) && s.db.rootId in s.db.heads
    requires Server.TrimSpace(key) == key && Server.HasEntry(RootOf(c, s.db), key) && Server.EntryAt(RootOf(c, s.db), key).None?
    ensures !ConsumeStep(c, uuid, s, request, now).1.ConsumeAccepted?
  {
    hide ConsumeStep, NormalizeConsume, LogWellFormed, WindowsWellFormed, RestoreReached, RestoreStorable, RebuildDoc, Server.Decode;
    ConsumeAcceptedExactlyWhen(c, uuid, s, request, now);
    if ConsumeStep(c, uuid, s, request, now).1.ConsumeAccepted? {
      var req := NormalizeConsume(uuid, request).value;
      var d :| d in s.db.windows && RestoreGuard(c, s.db, d, req, now);
      ReachedScans(c, s.db, d, req, now, key);
    }
  }

  lemma ReachedScans<Doc(!new), Upd(!new)>(c: Crdt<Doc, Upd>, db: Db<Upd>, d: string, req: ConsumeCommand, now: int, key: string)
    requires Lawful(c) && db.rootId in db.heads && RestoreReached(c, db, d, req, now)
    requires Server.TrimSpace(key) == key && Server.HasEntry(RootOf(c, db), key)
    ensures Server.EntryAt(RootOf(c, db), key).Some?
  {
    hide Server.Decode, Server.TrimSpace, Server.NormalizeCommandPath, RebuildDoc, Trimmed;
    var w, root, keys := db.windows[d], RootOf(c, db), c.keys(RootDoc(c, db));
    Server.ClaimScanMeaning(root.value, keys, Server.TrimSpace(w.entryId), Server.NormalizeCommandPath(w.desiredPath).value);
    assert key in keys;
  }

  /** So one file whose path has a part that begins with a dot, listed or already deleted by the
      client, keeps every deletion in the workspace from being undone. */
  lemma HiddenFileBlocksRestores<Doc(!new), Upd(!new)>(
    c: Crdt<Doc, Upd>, uuid: UuidParser, s: State<Upd>, request: ConsumeRequest, now: int, id: string, path: string, deleted: bool)
    requires Lawful(c) && WellFormed(c, s) && s.db.rootId in s.db.heads
    requires id != "" && TrimmedForBoth(id) && path != "" && Client.Normal(path) && TrimmedForBoth(path) && Server.Hidden(Split(path))
    requires RootOf(c, s.db).Some? && id in RootOf(c, s.db).value
             && RootOf(c, s.db).value[id] == Server.EntryMap(Stored(Written(id, path, deleted)))
    ensures !ConsumeStep(c, uuid, s, request, now).1.ConsumeAccepted?
  {
    hide ConsumeStep, WellFormed, RebuildDoc, Server.Decode, Trim, Server.Hidden;
    BothTrims(id);
    ServerReads(id, path, deleted);
    UnreadableEntryBlocksRestores(c, uuid, s, request, now, id);
  }

  lemma DottedName()
    ensures Client.Normal(".env") && TrimmedForBoth(".env") && Server.Hidden(Split(".env"))
  {
    SplitPlain(".env");
    assert "." <= [".env"][0];
  }

  /** The client accepts such paths. */
  lemma HiddenPathIsAccepted()
    ensures Client.Effective(Client.Upsert("d", ".env")) && Client.Normalize(".env") == ".env"
    ensures TrimmedForBoth("d") && TrimmedForBoth(".env") && Server.Hidden(Split(".env"))
  {
    hide Client.Normal, Client.Normalize, Server.Hidden, Split, Trim;
    DottedName();
    TrimProperties("d", JsSpace);
    Client.NormalIsStable(".env");
  }
}
