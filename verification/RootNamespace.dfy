/** The client's editor of the root document: entries written under their ids, read back as
    documents with normalised paths. */
module RootNamespace {
  import opened Results
  import opened Paths

  // ---- path normalisation ----

  function StringValue(value: string): string {
    Trim(value, JsSpace)
  }

  function Normalize(value: string): string {
    Join(CleanParts(Split(Slashes(StringValue(value))), [], false))
  }

  method NormalizeRootPath(value: string) returns (path: string)
    ensures path == Normalize(value)
  {
    var trimmed := Slashes(StringValue(value));
    if trimmed == "" { return ""; }
    var parts: seq<string> := [];
    var split := Split(trimmed);
    SplitIsSlashFree(trimmed);
    var i := 0;
    while i < |split|
      invariant 0 <= i <= |split|
      invariant StackOf(parts, false)
      invariant CleanParts(split[i..], parts, false) == CleanParts(split, [], false)
    {
      var part := split[i];
      assert split[i..][0] == part && split[i..][1..] == split[i + 1..];
      i := i + 1;
      if part == "" || part == "." { continue; }
      if part == ".." {
        if |parts| > 0 { parts := parts[..|parts| - 1]; }
        continue;
      }
      parts := parts + [part];
    }
    path := Join(parts);
  }

  /** No part is empty, "." or "..", and no backslash occurs; "" is the path with no parts. */
  ghost predicate Normal(path: string) {
    path == "" || (AllPlain(Split(path)) && '\\' !in path)
  }

  lemma NormalizedIsNormal(value: string)
    ensures Normal(Normalize(value)) && |Normalize(value)| <= |StringValue(value)|
  {
    var slashed := Slashes(StringValue(value));
    var parts := CleanParts(Split(slashed), [], false);
    SplitIsSlashFree(slashed);
    CleanResult(Split(slashed), [], false);
    CleanShrinks(Split(slashed), [], false);
    JoinWeight(parts);
    JoinWeight(Split(slashed));
    JoinSplit(slashed);
    if |parts| > 0 { SplitJoin(parts); }
    NoBackslash(slashed, parts);
  }

  lemma NoBackslash(slashed: string, parts: seq<string>)
    requires '\\' !in slashed && parts == CleanParts(Split(slashed), [], false)
    ensures '\\' !in Join(parts)
  {
    if '\\' in Join(parts) {
      JoinCharacters(parts, '\\');
      var i :| 0 <= i < |parts| && '\\' in parts[i];
      CleanIntroducesNothing(Split(slashed), [], false);
      assert parts[i] in Split(slashed);
      JoinContains(Split(slashed), parts[i], '\\');
      JoinSplit(slashed);
    }
  }

  lemma NormalIsStable(path: string)
    requires Normal(path) && Trimmed(path, JsSpace)
    ensures Normalize(path) == path
  {
    TrimProperties(path, JsSpace);
    SlashesFree(path);
    if path != "" {
      JoinSplit(path);
      CleanKeepsPlain(Split(path), [], false);
      assert [] + Split(path) == Split(path);
    }
  }

  /** A second pass changes nothing exactly when the first left no white space at the ends. */
  lemma NormalizeTwice(value: string)
    ensures Normalize(Normalize(value)) == Normalize(value) <==> Trimmed(Normalize(value), JsSpace)
  {
    hide Normalize;
    var once := Normalize(value);
    NormalizedIsNormal(value);
    if Trimmed(once, JsSpace) {
      NormalIsStable(once);
    } else {
      TrimProperties(once, JsSpace);
      NormalizedIsNormal(once);
    }
  }

  // ---- entries ----

  /** The "loc" field after parsing; an absent, blank or unreadable one reads as two blanks. */
  datatype Loc = Loc(parentId: string, name: string)

  /** A field that is absent or not a string reads as "". */
  datatype Entry = Entry(kind: string, contentDocumentId: string, loc: Loc, deleted: string)

  datatype Item = EntryMap(entry: Entry) | Scalar

  /** The entries map with the order in which it is iterated. */
  datatype Root = Root(order: seq<string>, entries: map<string, Item>)

  ghost predicate WellFormed(root: Root) {
    && (forall i, j | 0 <= i < j < |root.order| :: root.order[i] != root.order[j])
    && (forall key :: key in root.order <==> key in root.entries)
  }

  predicate Holds(item: Item, documentId: string) {
    item.EntryMap? && StringValue(item.entry.contentDocumentId) == documentId
  }

  /** The first entry, in iteration order, of the document. */
  function FirstHolding(order: seq<string>, entries: map<string, Item>, documentId: string): Option<string> {
    if |order| == 0 then None
    else if order[0] in entries && Holds(entries[order[0]], documentId) then Some(order[0])
    else FirstHolding(order[1..], entries, documentId)
  }

  function Find(root: Root, documentId: string): Option<string> {
    if documentId in root.entries && root.entries[documentId].EntryMap? then Some(documentId)
    else FirstHolding(root.order, root.entries, documentId)
  }

  function Put(root: Root, key: string, documentId: string, normalized: string): Root {
    Root(if key in root.entries then root.order else root.order + [key],
         root.entries[key := EntryMap(Entry("file", documentId, Loc("", Normalize(normalized)), "false"))])
  }

  datatype Op = Upsert(id: string, path: string) | Move(id: string, path: string) | Tombstone(id: string)

  /** The guard of each operation. */
  predicate Effective(op: Op) {
    StringValue(op.id) != "" && (op.Tombstone? || Normalize(op.path) != "")
  }

  function Apply(root: Root, op: Op): Root {
    if !Effective(op) then root
    else match op
      case Upsert(id, path) => Put(root, id, id, Normalize(path))
      case Move(id, path) =>
        var found := Find(root, id);
        Put(root, if found.Some? then found.value else id, id, Normalize(path))
      case Tombstone(id) =>
        var found := Find(root, id);
        if found.Some? && found.value in root.entries && root.entries[found.value].EntryMap?
        then root.(entries := root.entries[found.value := EntryMap(root.entries[found.value].entry.(deleted := "true"))])
        else root
  }

  lemma {:induction false} FirstHoldingMeaning(order: seq<string>, entries: map<string, Item>, documentId: string)
    ensures var found := FirstHolding(order, entries, documentId);
            if found.Some? then found.value in order && found.value in entries && Holds(entries[found.value], documentId)
            else forall key | key in order && key in entries :: !Holds(entries[key], documentId)
  {
    if |order| > 0 { FirstHoldingMeaning(order[1..], entries, documentId); }
  }

  /** It is the first one: an entry of the document with none of the document before it. */
  lemma {:induction false} FirstHoldingIsFirst(order: seq<string>, entries: map<string, Item>, documentId: string, i: nat)
    requires i < |order| && order[i] in entries && Holds(entries[order[i]], documentId)
    requires forall j | 0 <= j < i && order[j] in entries :: !Holds(entries[order[j]], documentId)
    ensures FirstHolding(order, entries, documentId) == Some(order[i])
  {
    if i > 0 {
      assert forall j | 0 <= j < i - 1 :: order[1..][j] == order[j + 1];
      FirstHoldingIsFirst(order[1..], entries, documentId, i - 1);
    }
  }

  /** Writing all four fields forgets what creating the entry left there. */
  lemma PutAfterCreate(before: Root, after: Root, key: string, documentId: string, normalized: string)
    requires key in after.entries
    requires after.order == if key in before.entries then before.order else before.order + [key]
    requires after.entries == before.entries[key := after.entries[key]]
    ensures Put(after, key, documentId, normalized) == Put(before, key, documentId, normalized)
  {
    hide Normalize;
  }

  class RootDocument {
    var order: seq<string>
    var entries: map<string, Item>

    ghost predicate Valid()
      reads this
    {
      WellFormed(Contents())
    }

    function Contents(): Root
      reads this
    {
      Root(order, entries)
    }

    constructor ()
      ensures Valid() && Contents() == Root([], map[])
    {
      order, entries := [], map[];
    }

    method GetOrCreateEntryMap(key: string)
      requires Valid()
      modifies this
      ensures Valid() && key in entries && entries[key].EntryMap?
      ensures old(key in entries && entries[key].EntryMap?) ==> Contents() == old(Contents())
      ensures order == old(if key in entries then order else order + [key])
      ensures entries == old(entries)[key := entries[key]]
    {
      if key in entries && entries[key].EntryMap? { return; }
      if key !in entries { order := order + [key]; }
      entries := entries[key := EntryMap(Entry("", "", Loc("", ""), ""))];
    }

    method FindEntryMap(documentId: string) returns (found: Option<string>)
      requires Valid()
      ensures found == Find(Contents(), documentId)
    {
      if documentId in entries && entries[documentId].EntryMap? { return Some(documentId); }
      found := None;
      for i := 0 to |order|
        invariant FirstHolding(order, entries, documentId) ==
                  if found.Some? then found else FirstHolding(order[i..], entries, documentId)
      {
        assert order[i..][0] == order[i] && order[i..][1..] == order[i + 1..];
        if found.None? && Holds(entries[order[i]], documentId) { found := Some(order[i]); }
      }
    }

    method SetFields(key: string, documentId: string, normalized: string)
      requires Valid() && key in entries && entries[key].EntryMap?
      modifies this`entries
      ensures Valid() && Contents() == Put(old(Contents()), key, documentId, normalized)
    {
      hide Normalize;
      var name := NormalizeRootPath(normalized);
      entries := entries[key := EntryMap(entries[key].entry.(kind := "file"))];
      entries := entries[key := EntryMap(entries[key].entry.(contentDocumentId := documentId))];
      entries := entries[key := EntryMap(entries[key].entry.(loc := Loc("", name)))];
      entries := entries[key := EntryMap(entries[key].entry.(deleted := "false"))];
      assert entries == old(entries)[key := EntryMap(Entry("file", documentId, Loc("", name), "false"))];
    }

    method UpsertRootFileEntry(documentId: string, path: string)
      requires Valid()
      modifies this
      ensures Valid() && Contents() == Apply(old(Contents()), Upsert(documentId, path))
    {
      hide Normalize, StringValue, WellFormed, Put;
      var normalizedPath := NormalizeRootPath(path);
      if StringValue(documentId) == "" || normalizedPath == "" { return; }
      GetOrCreateEntryMap(documentId);
      PutAfterCreate(old(Contents()), Contents(), documentId, documentId, normalizedPath);
      SetFields(documentId, documentId, normalizedPath);
    }

    method MoveRootFileEntry(documentId: string, path: string)
      requires Valid()
      modifies this
      ensures Valid() && Contents() == Apply(old(Contents()), Move(documentId, path))
    {
      hide Normalize, StringValue, WellFormed, Put;
      var normalizedPath := NormalizeRootPath(path);
      if StringValue(documentId) == "" || normalizedPath == "" { return; }
      var found := FindEntryMap(documentId);
      FirstHoldingMeaning(order, entries, documentId);
      var key := if found.Some? then found.value else documentId;
      if found.None? {
        GetOrCreateEntryMap(documentId);
        PutAfterCreate(old(Contents()), Contents(), documentId, documentId, normalizedPath);
      }
      SetFields(key, documentId, normalizedPath);
    }

    method TombstoneRootFileEntry(documentId: string)
      requires Valid()
      modifies this
      ensures Valid() && Contents() == Apply(old(Contents()), Tombstone(documentId))
    {
      if StringValue(documentId) == "" { return; }
      var found := FindEntryMap(documentId);
      FirstHoldingMeaning(order, entries, documentId);
      if found.None? { return; }
      entries := entries[found.value := EntryMap(entries[found.value].entry.(deleted := "true"))];
    }

    method DecodeRootEntries() returns (result: seq<FileEntry>)
      requires Valid()
      ensures result == Decode(Contents())
    {
      hide DecodeEntry;
      result := [];
      for i := 0 to |order|
        invariant result == DecodeKeys(order[..i], entries)
      {
        assert order[..i + 1][..i] == order[..i];
        var entry := DecodeEntry(order[i], entries[order[i]]);
        if entry.Some? { result := result + [entry.value]; }
      }
      assert order[..|order|] == order;
    }
  }

  // ---- reading ----

  datatype FileEntry = FileEntry(entryId: string, contentDocumentId: string, path: string, deleted: bool)

  function Lower(c: char): char {
    if 'A' <= c <= 'Z' then c - 'A' + 'a' else c
  }

  predicate IsTrue(value: string) {
    |value| == 4 && Lower(value[0]) == 't' && Lower(value[1]) == 'r' && Lower(value[2]) == 'u' && Lower(value[3]) == 'e'
  }

  function LocPath(loc: Loc): string {
    var parentId, name := Normalize(loc.parentId), Normalize(loc.name);
    if parentId != "" then Normalize(parentId + "/" + name) else Normalize(name)
  }

  function DecodeEntry(key: string, item: Item): Option<FileEntry> {
    if item.Scalar? then None
    else
      var entry := item.entry;
      var kind, id := StringValue(entry.kind), StringValue(entry.contentDocumentId);
      if kind != "" && kind != "file" then None
      else if id == "" then None
      else Some(FileEntry(key, id, LocPath(entry.loc), IsTrue(StringValue(entry.deleted))))
  }

  /** What an entry's fields must say to be listed, and what is read from them. */
  lemma DecodesExactlyWhen(key: string, item: Item, entry: FileEntry)
    ensures DecodeEntry(key, item) == Some(entry) <==>
            && item.EntryMap?
            && (StringValue(item.entry.kind) == "" || StringValue(item.entry.kind) == "file")
            && entry.entryId == key
            && entry.contentDocumentId == StringValue(item.entry.contentDocumentId) != ""
            && (var parent, name := Normalize(item.entry.loc.parentId), Normalize(item.entry.loc.name);
                entry.path == Normalize(if parent == "" then name else parent + "/" + name))
            && (entry.deleted <==> LowerAscii(StringValue(item.entry.deleted)) == "true")
  {
    hide StringValue, Normalize;
    if item.EntryMap? { FoldsToTrue(StringValue(item.entry.deleted)); }
  }

  function LowerAscii(s: string): string {
    seq(|s|, i requires 0 <= i < |s| => if 'A' <= s[i] <= 'Z' then (s[i] as int + 32) as char else s[i])
  }

  lemma FoldsToTrue(s: string)
    ensures IsTrue(s) <==> LowerAscii(s) == "true"
  {
    if LowerAscii(s) == "true" {
      assert |s| == 4;
      assert LowerAscii(s)[0] == 't' && LowerAscii(s)[1] == 'r' && LowerAscii(s)[2] == 'u' && LowerAscii(s)[3] == 'e';
    }
  }

  function DecodeKeys(order: seq<string>, entries: map<string, Item>): seq<FileEntry> {
    if |order| == 0 then []
    else
      var before, key := DecodeKeys(order[..|order| - 1], entries), order[|order| - 1];
      if key !in entries then before
      else
        var entry := DecodeEntry(key, entries[key]);
        if entry.Some? then before + [entry.value] else before
  }

  function Decode(root: Root): seq<FileEntry> {
    DecodeKeys(root.order, root.entries)
  }

  /** The document is listed under that path. */
  ghost predicate Projected(root: Root, id: string, path: string) {
    exists entry :: entry in Decode(root) && !entry.deleted && entry.path != "" && entry.path == path
                    && entry.contentDocumentId == id
  }

  ghost predicate OnePerDocument(entries: seq<FileEntry>) {
    forall i, j | 0 <= i < j < |entries| :: entries[i].contentDocumentId != entries[j].contentDocumentId
  }
}
