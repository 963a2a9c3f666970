/** The root document as a namespace: file entries under their ids, decoded for commands. */
module RootSemantics {
  import opened Results
  import opened Paths

  // ---- path normalisation ----

  /** White space as the server's string trimming sees it. */
  function GoSpace(c: char): bool {
    var n := c as int;
    9 <= n <= 13 || n == 32 || n == 0x85 || n == 0xA0 || n == 0x1680 || 0x2000 <= n <= 0x200A
    || n == 0x2028 || n == 0x2029 || n == 0x202F || n == 0x205F || n == 0x3000
  }

  function TrimSpace(s: string): string {
    Trim(s, GoSpace)
  }

  /** Lexical path cleaning on a slash-separated file system. */
  function Clean(path: string): string {
    if |path| > 0 && path[0] == '/' then "/" + Join(CleanParts(Split(path), [], false))
    else
      var parts := CleanParts(Split(path), [], true);
      if |parts| == 0 then "." else Join(parts)
  }

  function NormalizeDocumentPath(value: string): Option<string> {
    var trimmed := TrimSpace(value);
    if trimmed == "" then None
    else
      var cleaned := Clean(trimmed);
      if cleaned == "." || "../" <= cleaned || HasInnerUp(Split(cleaned)) then None
      else if "/" <= cleaned then None
      else Some(cleaned)
  }

  /** The text "/../" occurs between two of the parts. */
  predicate HasInnerUp(parts: seq<string>) {
    exists i :: 0 < i < |parts| - 1 && parts[i] == ".."
  }

  predicate Hidden(parts: seq<string>) {
    exists i :: 0 <= i < |parts| && "." <= parts[i]
  }

  function NormalizeCommandPath(path: string): Option<string> {
    match NormalizeDocumentPath(Slashes(TrimSpace(path)))
    case None => None
    case Some(normalized) => if Hidden(Split(normalized)) then None else Some(normalized)
  }

  /** A path the commands can name: clean relative parts, none of them hidden. */
  ghost predicate Visible(path: string) {
    var parts := Split(path);
    AllPlain(parts) && !Hidden(parts) && '\\' !in path
  }

  /** Every normalised path is visible, and no longer than the text it came from. */
  lemma NormalizedIsVisible(path: string)
    requires NormalizeCommandPath(path).Some?
    ensures Visible(NormalizeCommandPath(path).value)
    ensures |NormalizeCommandPath(path).value| <= |TrimSpace(path)|
  {
    var slashed := Slashes(TrimSpace(path));
    var trimmed := TrimSpace(slashed);
    var parts := CleanParts(Split(trimmed), [], true);
    var normalized := NormalizeCommandPath(path).value;
    assert trimmed[0] == '/' ==> "/" <= normalized;
    assert normalized == Join(parts) && |parts| > 0;
    SplitIsSlashFree(trimmed);
    CleanResult(Split(trimmed), [], true);
    SplitJoin(parts);
    assert "." <= "..";
    assert forall i | 0 <= i < |parts| :: !("." <= parts[i]);
    CleanShrinks(Split(trimmed), [], true);
    JoinWeight(parts);
    JoinWeight(Split(trimmed));
    JoinSplit(trimmed);
    TrimProperties(slashed, GoSpace);
    NoBackslash(slashed, trimmed, parts);
  }

  lemma NoBackslash(slashed: string, trimmed: string, parts: seq<string>)
    requires '\\' !in slashed && trimmed == TrimSpace(slashed)
    requires parts == CleanParts(Split(trimmed), [], true)
    ensures '\\' !in Join(parts)
  {
    if '\\' in Join(parts) {
      JoinCharacters(parts, '\\');
      var i :| 0 <= i < |parts| && '\\' in parts[i];
      CleanIntroducesNothing(Split(trimmed), [], true);
      assert parts[i] in Split(trimmed);
      JoinContains(Split(trimmed), parts[i], '\\');
      JoinSplit(trimmed);
      TrimCharacters(slashed, GoSpace, '\\');
    }
  }

  /** A visible path without outer white space normalises to itself. */
  lemma VisibleIsStable(path: string)
    requires Visible(path) && Trimmed(path, GoSpace)
    ensures NormalizeCommandPath(path) == Some(path)
  {
    var parts := Split(path);
    TrimProperties(path, GoSpace);
    SlashesFree(path);
    JoinSplit(path);
    CleanKeepsPlain(parts, [], true);
    assert [] + parts == parts;
    assert Plain(parts[0]);
    assert path != "";
    assert path[0] != '/' && path[0] != '.' by {
      assert Plain(parts[0]) && !("." <= parts[0]);
      FirstPart(path);
    }
    assert forall i | 0 < i < |parts| - 1 :: Plain(parts[i]);
  }

  lemma FirstPart(path: string)
    requires path != "" && Split(path)[0] != ""
    ensures path[0] == Split(path)[0][0] && path[0] != '/'
  {
  }

  /** Which paths the commands accept, in one step: the trimmed text is relative and its cleaned parts
      are there and not hidden.  (The checks for leaving the workspace add nothing to the last one.) */
  lemma NormalizesExactlyWhen(path: string)
    ensures var text := TrimSpace(Slashes(TrimSpace(path)));
            var parts := CleanParts(Split(text), [], true);
            NormalizeCommandPath(path) ==
            if text == "" || text[0] == '/' || parts == [] || Hidden(parts) then None else Some(Join(parts))
  {
    hide Slashes, TrimSpace, Split, CleanParts;
    var text := TrimSpace(Slashes(TrimSpace(path)));
    if text != "" {
      SplitIsSlashFree(text);
      var rooted, relative := CleanParts(Split(text), [], false), CleanParts(Split(text), [], true);
      CleanResult(Split(text), [], true);
      if text[0] == '/' {
        assert "/" <= Clean(text);
      } else if relative != [] {
        SplitJoin(relative);
        JoinedStarts(relative);
      }
    }
  }

  lemma UpPrefix(parts: seq<string>)
    requires |parts| > 0 && SlashFree(parts)
    ensures "../" <= Join(parts) <==> |parts| > 1 && parts[0] == ".."
  {
    if "../" <= Join(parts) { StartsUp(parts); }
  }

  lemma StartsUp(parts: seq<string>)
    requires |parts| > 0 && SlashFree(parts) && "../" <= Join(parts)
    ensures |parts| > 1 && parts[0] == ".."
  {
    hide Join, Split;
    SplitJoin(parts);
    var rest := Join(parts)[3..];
    assert Join(parts) == ".." + "/" + rest;
    SplitAtSlash("..", rest);
  }

  /** Which paths of documents are accepted, in one step: relative ones whose cleaned parts are there
      and do not lead out of the workspace and on. */
  lemma DocumentPathExactlyWhen(value: string)
    ensures var text := TrimSpace(value);
            var parts := CleanParts(Split(text), [], true);
            NormalizeDocumentPath(value) ==
            if text == "" || text[0] == '/' || parts == [] || (|parts| > 1 && parts[0] == "..") then None else Some(Join(parts))
  {
    hide TrimSpace, Split, CleanParts;
    var text := TrimSpace(value);
    if text != "" {
      SplitIsSlashFree(text);
      var relative := CleanParts(Split(text), [], true);
      CleanResult(Split(text), [], true);
      CleanUpsFirst(Split(text), [], true);
      if text[0] == '/' {
        assert "/" <= Clean(text);
      } else if relative != [] {
        SplitJoin(relative);
        JoinedStarts(relative);
        UpPrefix(relative);
        JoinedIsNotDot(relative);
      }
    }
  }

  lemma JoinedIsNotDot(parts: seq<string>)
    requires |parts| > 0 && SlashFree(parts) && "." !in parts
    ensures Join(parts) != "."
  {
    SplitJoin(parts);
    SplitPlain(".");
  }

  /** An accepted path has a ".." in it exactly when it is just that: the parent of the workspace is
      the one path outside it that is accepted. */
  lemma LeavesExactlyWhen(value: string)
    requires NormalizeDocumentPath(value).Some?
    ensures var path := NormalizeDocumentPath(value).value;
            ".." in Split(path) <==> path == ".."
  {
    hide TrimSpace, CleanParts;
    DocumentPathExactlyWhen(value);
    var text := TrimSpace(value);
    var parts := CleanParts(Split(text), [], true);
    SplitIsSlashFree(text);
    CleanResult(Split(text), [], true);
    CleanUpsFirst(Split(text), [], true);
    SplitJoin(parts);
    SplitPlain("..");
    if ".." in parts {
      var j :| 0 <= j < |parts| && parts[j] == "..";
      assert parts[0] == "..";
      assert parts == [".."];
    }
  }

  lemma ParentIsAccepted()
    ensures NormalizeDocumentPath("..") == Some("..") && NormalizeCommandPath("..") == None
  {
    hide NormalizeDocumentPath;
    TrimProperties("..", GoSpace);
    SplitPlain("..");
    assert CleanParts([".."], [], true) == CleanParts([], [".."], true) == [".."] by { assert [".."][1..] == []; }
    DocumentPathExactlyWhen("..");
    assert Slashes("..") == "..";
    assert "." <= [".."][0];
  }

  lemma JoinedStarts(parts: seq<string>)
    requires |parts| > 0 && SlashFree(parts) && "" !in parts
    ensures Join(parts) != "" && Join(parts)[0] == parts[0][0] != '/'
    ensures "../" <= Join(parts) || Join(parts) == "." ==> "." <= parts[0]
  {
    assert parts[0] in parts;
    assert parts[0] != "";
  }

  /** Normalising a normalised path again changes nothing exactly when it carries no white
      space at its ends; otherwise the second pass never gives the same path. */
  lemma NormalizeTwice(path: string)
    requires NormalizeCommandPath(path).Some?
    ensures var once := NormalizeCommandPath(path).value;
            NormalizeCommandPath(once) == Some(once) <==> Trimmed(once, GoSpace)
  {
    var once := NormalizeCommandPath(path).value;
    NormalizedIsVisible(path);
    if Trimmed(once, GoSpace) {
      VisibleIsStable(once);
    } else {
      TrimProperties(once, GoSpace);
      if NormalizeCommandPath(once).Some? { NormalizedIsVisible(once); }
    }
  }

  /** Cleaning can uncover white space that trimming had not seen. */
  lemma NormalizeIsNotIdempotent()
    ensures NormalizeCommandPath("a /") == Some("a ") && NormalizeCommandPath("a ") == Some("a")
  {
    assert TrimSpace("a /") == "a /" by { TrimProperties("a /", GoSpace); }
    assert Slashes("a /") == "a /";
    SplitAtSlash("a ", "");
    assert "a " + "/" + "" == "a /";
    assert Split("a /") == ["a ", ""];
    assert ["a ", ""][1..] == [""];
    assert CleanParts(["a ", ""], [], true) == CleanParts([""], ["a "], true);
    SplitPlain("a ");
    assert TrimSpace("a ") == "a" by {
      assert TrimLeft("a ", GoSpace) == "a ";
      assert "a "[..1] == "a";
      assert TrimRight("a", GoSpace) == "a";
    }
    assert Slashes("a") == "a";
    assert TrimSpace("a") == "a" by { TrimProperties("a", GoSpace); }
    SplitPlain("a");
    assert CleanParts(["a"], [], true) == ["a"];
  }

  // ---- entries ----

  /** The "loc" field: absent or blank, not parseable, or a parent and a name. */
  datatype Loc = NoLoc | Unreadable | At(parentId: string, name: string)

  datatype Fields = Fields(kind: Option<string>, contentDocumentId: Option<string>, loc: Loc, deleted: Option<string>)

  /** A value in the entries map: a nested map, or something else. */
  datatype Item = EntryMap(fields: Fields) | Scalar

  /** The root document's "entriesById" map, if it has one. */
  type Root = Option<map<string, Item>>

  datatype FileEntry = FileEntry(entryId: string, contentDocumentId: string, desiredPath: string, deleted: bool)

  function EqualFoldTrue(s: string): bool {
    |s| == 4 && s[0] in "tT" && s[1] in "rR" && s[2] in "uU" && s[3] in "eE"
  }

  function TrimmedOr(value: Option<string>, default: string): string {
    match value
    case None => default
    case Some(text) => if TrimSpace(text) == "" then default else TrimSpace(text)
  }

  function LocPath(loc: Loc): Option<string> {
    match loc
    case At(parentId, name) =>
      var parent := TrimSpace(parentId);
      Some(if parent != "" then parent + "/" + TrimSpace(name) else TrimSpace(name))
    case _ => None
  }

  function Flag(deleted: Option<string>): bool {
    deleted.Some? && EqualFoldTrue(TrimSpace(deleted.value))
  }

  /** None stands for any of the decoding errors. */
  function Decode(entryId: string, fields: Fields): Option<FileEntry> {
    if TrimmedOr(fields.kind, "file") != "file" then None
    else if TrimmedOr(fields.contentDocumentId, "") == "" then None
    else match LocPath(fields.loc)
      case None => None
      case Some(text) =>
        match NormalizeCommandPath(text)
        case None => None
        case Some(path) =>
          Some(FileEntry(TrimSpace(entryId), TrimmedOr(fields.contentDocumentId, ""), path, Flag(fields.deleted)))
  }

  /** What an entry's fields must say to be read, and what is read from them. */
  lemma DecodesExactlyWhen(entryId: string, fields: Fields, entry: FileEntry)
    ensures Decode(entryId, fields) == Some(entry) <==>
            && (fields.kind.None? || TrimSpace(fields.kind.value) == "" || TrimSpace(fields.kind.value) == "file")
            && entry.entryId == TrimSpace(entryId)
            && fields.contentDocumentId.Some? && entry.contentDocumentId == TrimSpace(fields.contentDocumentId.value) != ""
            && fields.loc.At?
            && (var parent, name := TrimSpace(fields.loc.parentId), TrimSpace(fields.loc.name);
                NormalizeCommandPath(if parent == "" then name else parent + "/" + name) == Some(entry.desiredPath))
            && (entry.deleted <==> fields.deleted.Some? && LowerAscii(TrimSpace(fields.deleted.value)) == "true")
  {
    hide TrimSpace, NormalizeCommandPath;
    if fields.deleted.Some? { FoldsToTrue(TrimSpace(fields.deleted.value)); }
  }

  function LowerAscii(s: string): string {
    seq(|s|, i requires 0 <= i < |s| => if 'A' <= s[i] <= 'Z' then (s[i] as int + 32) as char else s[i])
  }

  lemma FoldsToTrue(s: string)
    ensures EqualFoldTrue(s) <==> LowerAscii(s) == "true"
  {
    if LowerAscii(s) == "true" {
      assert |s| == 4;
      assert LowerAscii(s)[0] == 't' && LowerAscii(s)[1] == 'r' && LowerAscii(s)[2] == 'u' && LowerAscii(s)[3] == 'e';
    }
  }

  predicate HasEntry(root: Root, id: string) {
    root.Some? && id in root.value && root.value[id].EntryMap?
  }

  /** The decoded entry stored under a key. */
  function EntryAt(root: Root, id: string): Option<FileEntry> {
    if HasEntry(root, id) then Decode(id, root.value[id].fields) else None
  }

  /** Looking an entry up by id, content document and path, as every command does. */
  function EntryForCommand(root: Root, entryId: string, contentDocumentId: string, expectedPath: string): Option<FileEntry> {
    var id := TrimSpace(entryId);
    var content := TrimSpace(contentDocumentId);
    if id == "" || content == "" || NormalizeCommandPath(expectedPath).None? then None
    else match EntryAt(root, id)
      case None => None
      case Some(entry) =>
        if entry.contentDocumentId == content && Some(entry.desiredPath) == NormalizeCommandPath(expectedPath)
        then Some(entry) else None
  }

  function WithDeleted(root: Root, id: string, value: string): Root
    requires HasEntry(root, id)
  {
    var fields := root.value[id].fields;
    Some(root.value[id := EntryMap(fields.(deleted := Some(value)))])
  }

  function FlagText(deleted: bool): string {
    if deleted then "true" else "false"
  }

  /** Whether setting an entry's flag fails, does nothing, or writes the given text. */
  datatype FlagEdit = Refused | AlreadySet | Write(id: string, value: string)

  function SetFileDeleted(root: Root, expected: FileEntry, deleted: bool): FlagEdit {
    match EntryForCommand(root, expected.entryId, expected.contentDocumentId, expected.desiredPath)
    case None => Refused
    case Some(current) =>
      if current.deleted == deleted then AlreadySet else Write(current.entryId, FlagText(deleted))
  }

  /** A write goes to the very entry the command looked up, and really changes its flag. */
  lemma WriteTarget(root: Root, entryId: string, content: string, path: string, entry: FileEntry, deleted: bool)
    requires EntryForCommand(root, entryId, content, path) == Some(entry)
    requires SetFileDeleted(root, entry, deleted).Write?
    ensures SetFileDeleted(root, entry, deleted) == Write(TrimSpace(entryId), FlagText(deleted))
    ensures HasEntry(root, TrimSpace(entryId)) && EntryAt(root, TrimSpace(entryId)) == Some(entry)
    ensures entry.deleted != deleted && entry.contentDocumentId == TrimSpace(content)
  {
    hide NormalizeCommandPath;
    TrimProperties(entryId, GoSpace);
    TrimProperties(TrimSpace(entryId), GoSpace);
    assert entry.entryId == TrimSpace(TrimSpace(entryId));
  }

  /** The namespace a reader sees. */
  ghost function Namespace(root: Root): map<string, Option<FileEntry>> {
    if root.None? then map[]
    else map id | id in root.value && root.value[id].EntryMap? :: EntryAt(root, id)
  }

  lemma FlagTextReadsBack(deleted: bool)
    ensures Flag(Some(FlagText(deleted))) == deleted
  {
    TrimProperties("true", GoSpace);
    TrimProperties("false", GoSpace);
  }

  /** Writing the flag changes that one entry's flag and nothing else in the namespace. */
  lemma WriteFlipsOneEntry(root: Root, id: string, deleted: bool)
    requires HasEntry(root, id) && EntryAt(root, id).Some?
    ensures var after := WithDeleted(root, id, FlagText(deleted));
            HasEntry(after, id)
            && Namespace(after) == Namespace(root)[id := Some(EntryAt(root, id).value.(deleted := deleted))]
  {
    hide NormalizeCommandPath, LocPath, TrimmedOr, Flag, FlagText;
    FlagTextReadsBack(deleted);
    var after := WithDeleted(root, id, FlagText(deleted));
    assert EntryAt(after, id) == Some(EntryAt(root, id).value.(deleted := deleted));
    forall other | HasEntry(root, other) && other != id
      ensures EntryAt(after, other) == EntryAt(root, other)
    {
    }
  }

  /** Setting the flag and clearing it again gives back the namespace, although the stored
      text may differ from what was there before. */
  lemma ClearUndoesSet(root: Root, id: string)
    requires HasEntry(root, id) && EntryAt(root, id).Some? && !EntryAt(root, id).value.deleted
    ensures HasEntry(WithDeleted(root, id, "true"), id)
    ensures Namespace(WithDeleted(WithDeleted(root, id, "true"), id, "false")) == Namespace(root)
  {
    hide Decode;
    var set1 := WithDeleted(root, id, "true");
    WriteFlipsOneEntry(root, id, true);
    assert EntryAt(set1, id) == Namespace(set1)[id];
    WriteFlipsOneEntry(set1, id, false);
    assert Namespace(root)[id] == EntryAt(root, id);
  }

  /** A command can reach an entry exactly when the entry's own path survives normalisation:
      one with white space left at its ends is out of reach of every request. */
  lemma CommandReach(root: Root, id: string, content: string)
    requires TrimSpace(id) == id != "" && TrimSpace(content) == content
    requires EntryAt(root, id).Some? && EntryAt(root, id).value.contentDocumentId == content
    ensures (exists path, deleted :: EntryForCommand(root, id, content, path).Some?
                            && !SetFileDeleted(root, EntryForCommand(root, id, content, path).value, deleted).Refused?)
            <==> Trimmed(EntryAt(root, id).value.desiredPath, GoSpace)
  {
    var entry := EntryAt(root, id).value;
    var text := LocPath(root.value[id].fields.loc).value;
    NormalizeTwice(text);
    TrimProperties(content, GoSpace);
    if Trimmed(entry.desiredPath, GoSpace) {
      assert EntryForCommand(root, id, content, entry.desiredPath) == Some(entry);
      assert !SetFileDeleted(root, entry, true).Refused?;
    }
  }

  // ---- path claims ----

  /** The scan over the other entries: the first malformed entry is an error (None), the first
      active one on the path answers true. */
  function ClaimScan(items: map<string, Item>, keys: seq<string>, excluded: string, path: string): Option<bool>
  {
    if |keys| == 0 then Some(false)
    else if TrimSpace(keys[0]) == excluded || keys[0] !in items || items[keys[0]].Scalar? then ClaimScan(items, keys[1..], excluded, path)
    else match Decode(keys[0], items[keys[0]].fields)
      case None => None
      case Some(entry) =>
        if !entry.deleted && entry.desiredPath == path then Some(true)
        else ClaimScan(items, keys[1..], excluded, path)
  }

  function PathClaimed(root: Root, keys: seq<string>, excludedEntryId: string, desiredPath: string): Option<bool>
  {
    match NormalizeCommandPath(desiredPath)
    case None => None
    case Some(path) =>
      if root.None? then Some(false) else ClaimScan(root.value, keys, TrimSpace(excludedEntryId), path)
  }

  method RootPathClaimedByOtherActiveEntry(root: Root, keys: seq<string>, excludedEntryId: string, desiredPath: string)
    returns (r: Option<bool>)
    ensures r == PathClaimed(root, keys, excludedEntryId, desiredPath)
  {
    var normalized := NormalizeCommandPath(desiredPath);
    if normalized.None? {
      return None;
    }
    if root.None? {
      return Some(false);
    }
    var excluded := TrimSpace(excludedEntryId);
    var i := 0;
    while i < |keys|
      invariant i <= |keys|
      invariant ClaimScan(root.value, keys[i..], excluded, normalized.value)
             == PathClaimed(root, keys, excludedEntryId, desiredPath)
    {
      var key := keys[i];
      if TrimSpace(key) != excluded && HasEntry(root, key) {
        var entry := Decode(key, root.value[key].fields);
        if entry.None? {
          return None;
        }
        if !entry.value.deleted && entry.value.desiredPath == normalized.value {
          return Some(true);
        }
      }
      i := i + 1;
    }
    return Some(false);
  }

  /** An entry that holds a path against others. */
  predicate ActiveOn(root: Root, id: string, path: string) {
    EntryAt(root, id).Some? && !EntryAt(root, id).value.deleted && EntryAt(root, id).value.desiredPath == path
  }

  /** The scan answers "free" exactly when every entry it looks at decodes and none of them is
      active on the path; "claimed" means it found one that is. */
  lemma {:induction false} ClaimScanMeaning(items: map<string, Item>, keys: seq<string>, excluded: string, path: string)
    ensures ClaimScan(items, keys, excluded, path) == Some(false) <==>
            forall k | k in keys && TrimSpace(k) != excluded && HasEntry(Some(items), k) ::
              EntryAt(Some(items), k).Some? && !ActiveOn(Some(items), k, path)
    ensures ClaimScan(items, keys, excluded, path) == Some(true) ==>
            exists k :: k in keys && TrimSpace(k) != excluded && ActiveOn(Some(items), k, path)
    decreases |keys|
  {
    if |keys| > 0 {
      ClaimScanMeaning(items, keys[1..], excluded, path);
      assert forall k :: k in keys <==> k == keys[0] || k in keys[1..];
    }
  }

  /** When the scan lets a restore through, the path has no other active entry, except one
      whose key differs from the restored entry's only by outer white space: the exclusion
      compares trimmed keys.  So the path is exclusive exactly when there is no such twin. */
  lemma FreePathIsExclusive(root: Root, keys: seq<string>, id: string, path: string)
    requires root.Some? && (forall k :: k in keys <==> k in root.value)
    requires TrimSpace(id) == id && PathClaimed(root, keys, id, path) == Some(false)
    ensures var normalized := NormalizeCommandPath(path).value;
            (forall k | k != id :: !ActiveOn(root, k, normalized)) <==>
            (forall k | k != id && TrimSpace(k) == id :: !ActiveOn(root, k, normalized))
  {
    var normalized := NormalizeCommandPath(path).value;
    ClaimScanMeaning(root.value, keys, id, normalized);
  }

  const TWIN_FIELDS := Fields(None, Some("doc"), At("", "x"), None)

  const TWINS: map<string, Item> :=
    map["e" := EntryMap(TWIN_FIELDS.(deleted := Some("true"))), "e " := EntryMap(TWIN_FIELDS)]

  lemma TwinKeys()
    ensures TrimSpace("e") == "e" == TrimSpace("e ")
  {
    TrimProperties("e", GoSpace);
    assert TrimLeft("e ", GoSpace) == "e " && "e "[..1] == "e" && TrimRight("e", GoSpace) == "e";
  }

  lemma PlainNameIsStable()
    ensures NormalizeCommandPath("x") == Some("x")
  {
    SplitPlain("x");
    assert AllPlain(["x"]) && !Hidden(["x"]);
    VisibleIsStable("x");
  }

  lemma TwinDecodes()
    ensures Decode("e ", TWIN_FIELDS) == Some(FileEntry("e", "doc", "x", false))
  {
    hide NormalizeCommandPath, TrimmedOr, LocPath, Flag;
    TwinKeys();
    PlainNameIsStable();
    TwinFields();
  }

  lemma TwinFields()
    ensures TrimmedOr(TWIN_FIELDS.kind, "file") == "file" && TrimmedOr(TWIN_FIELDS.contentDocumentId, "") == "doc"
    ensures LocPath(TWIN_FIELDS.loc) == Some("x") && !Flag(TWIN_FIELDS.deleted)
  {
    TrimProperties("x", GoSpace);
    TrimProperties("", GoSpace);
    TrimProperties("doc", GoSpace);
  }

  /** Such a twin can be active on the very path being restored. */
  lemma PaddedTwinSlipsThrough()
    ensures PathClaimed(Some(TWINS), ["e", "e "], "e", "x") == Some(false) && ActiveOn(Some(TWINS), "e ", "x")
  {
    hide NormalizeCommandPath, TrimSpace, Decode;
    TwinKeys();
    PlainNameIsStable();
    TwinDecodes();
    assert ["e", "e "][1..] == ["e "];
    assert ClaimScan(TWINS, ["e "], "e", "x") == Some(false);
  }
}
