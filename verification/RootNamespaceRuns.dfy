/** What any sequence of upserts, moves and tombstones leaves in an empty root document. */
module RootNamespaceRuns {
  import opened Results
  import opened Paths
  import opened RootNamespace

  function Run(ops: seq<Op>): Root {
    if |ops| == 0 then Root([], map[]) else Apply(Run(ops[..|ops| - 1]), ops[|ops| - 1])
  }

  // ---- the reference: one record per document ----

  datatype Record = Record(path: string, deleted: bool)

  /** The document's last effective upsert or move, and whether a tombstone followed. */
  function LastRecord(ops: seq<Op>, id: string): Option<Record> {
    if |ops| == 0 then None
    else
      var before, op := LastRecord(ops[..|ops| - 1], id), ops[|ops| - 1];
      if op.id != id || !Effective(op) then before
      else if op.Tombstone? then if before.Some? then Some(before.value.(deleted := true)) else None
      else Some(Record(Normalize(op.path), false))
  }

  /** Ids that differ only in outer white space are not used side by side. */
  ghost predicate Consistent(ops: seq<Op>) {
    forall i, j | 0 <= i < |ops| && 0 <= j < |ops| :: StringValue(ops[i].id) == StringValue(ops[j].id) ==> ops[i].id == ops[j].id
  }

  function EntryOf(id: string, record: Record): Item {
    EntryMap(Entry("file", id, Loc("", Normalize(record.path)), if record.deleted then "true" else "false"))
  }

  ghost predicate Mentioned(ops: seq<Op>, id: string) {
    StringValue(id) != "" && exists i :: 0 <= i < |ops| && ops[i].id == id
  }

  ghost predicate MirrorsAt(root: Root, ops: seq<Op>, id: string) {
    if id in root.entries
    then Mentioned(ops, id) && LastRecord(ops, id).Some? && root.entries[id] == EntryOf(id, LastRecord(ops, id).value)
    else LastRecord(ops, id).None?
  }

  /** No other key differs from the id only in outer white space. */
  ghost predicate OwnKey(root: Root, id: string) {
    forall key | key in root.entries && StringValue(key) == StringValue(id) :: key == id
  }

  /** The search for the document never lands on an entry of another key. */
  lemma FindIsDirect(root: Root, id: string)
    requires KeysName(root) && OwnKey(root, id)
    ensures Find(root, id) == if id in root.entries then Some(id) else None
  {
    hide Normalize, StringValue;
    FirstHoldingMeaning(root.order, root.entries, id);
    var found := FirstHolding(root.order, root.entries, id);
    if id !in root.entries && found.Some? {
      SameValue(root.entries[found.value].entry.contentDocumentId, id);
    }
  }

  lemma SameValue(key: string, id: string)
    requires StringValue(key) == id
    ensures StringValue(key) == StringValue(id)
  {
    TrimProperties(key, JsSpace);
    TrimProperties(id, JsSpace);
  }

  lemma MentionedLater(ops: seq<Op>, op: Op, id: string)
    requires Mentioned(ops, id) || (id == op.id && StringValue(id) != "")
    ensures Mentioned(ops + [op], id)
  {
    hide StringValue;
    var all := ops + [op];
    if Mentioned(ops, id) {
      var i :| 0 <= i < |ops| && ops[i].id == id;
      assert all[i].id == id;
    } else {
      assert all[|ops|].id == id;
    }
  }

  lemma MirrorsStepAt(root: Root, ops: seq<Op>, op: Op, id: string)
    requires MirrorsAt(root, ops, id)
    requires Find(root, op.id) == if op.id in root.entries then Some(op.id) else None
    ensures MirrorsAt(Apply(root, op), ops + [op], id)
  {
    hide Normalize, StringValue, Find, Mentioned;
    var all := ops + [op];
    assert all[..|all| - 1] == ops && all[|ops|] == op;
    if id in root.entries || (id == op.id && Effective(op)) { MentionedLater(ops, op, id); }
  }

  /** An operation on another document leaves this one's entry alone. */
  lemma OtherKeepsEntry(root: Root, op: Op, id: string)
    requires KeysName(root) && StringValue(op.id) != StringValue(id)
    ensures var after := Apply(root, op);
            (id in after.entries <==> id in root.entries) && (id in root.entries ==> after.entries[id] == root.entries[id])
  {
    hide Normalize, StringValue;
    FirstHoldingMeaning(root.order, root.entries, op.id);
    var found := Find(root, op.id);
    if found.Some? && found.value != op.id { SameValue(root.entries[found.value].entry.contentDocumentId, op.id); }
  }

  lemma KeysAfter(root: Root, op: Op)
    requires WellFormed(root)
    ensures forall key | key in Apply(root, op).entries :: key in root.entries || (key == op.id && StringValue(key) != "")
  {
    hide Normalize, StringValue;
    FirstHoldingMeaning(root.order, root.entries, op.id);
  }

  /** This document's ids are all written alike. */
  ghost predicate WrittenAlike(ops: seq<Op>, id: string) {
    forall i | 0 <= i < |ops| && StringValue(ops[i].id) == StringValue(id) :: ops[i].id == id
  }

  lemma {:induction false} RunMirrors(ops: seq<Op>, id: string)
    requires WrittenAlike(ops, id)
    ensures KeysName(Run(ops)) && MirrorsAt(Run(ops), ops, id) && OwnKey(Run(ops), id)
  {
    if |ops| > 0 {
      hide Apply, LastRecord, KeysName, Mentioned, StringValue;
      var before, op := ops[..|ops| - 1], ops[|ops| - 1];
      assert before + [op] == ops;
      RunMirrors(before, id);
      KeysNameStep(Run(before), op);
      KeysNamed(Run(before));
      KeysAfter(Run(before), op);
      MirrorsOneMore(Run(before), before, op, id);
    } else {
      hide StringValue;
    }
  }

  lemma KeysNamed(root: Root)
    requires KeysName(root)
    ensures WellFormed(root)
  {
  }

  lemma MirrorsOneMore(root: Root, ops: seq<Op>, op: Op, id: string)
    requires KeysName(root) && MirrorsAt(root, ops, id) && OwnKey(root, id)
    requires StringValue(op.id) == StringValue(id) ==> op.id == id
    ensures MirrorsAt(Apply(root, op), ops + [op], id)
  {
    hide StringValue, Apply, KeysName, LastRecord, Find;
    if op.id == id {
      FindIsDirect(root, id);
      MirrorsStepAt(root, ops, op, id);
    } else {
      OtherKeepsEntry(root, op, id);
      OtherKeepsRecord(ops, op, id);
      if id in root.entries { MentionedLater(ops, op, id); }
    }
  }

  lemma OtherKeepsRecord(ops: seq<Op>, op: Op, id: string)
    requires op.id != id
    ensures LastRecord(ops + [op], id) == LastRecord(ops, id)
  {
    hide Normalize, StringValue;
    assert (ops + [op])[..|ops|] == ops;
  }

  // ---- what is projected ----

  /** Reading an entry normalises its path twice more. */
  function ShownPath(path: string): string {
    Normalize(Normalize(Normalize(path)))
  }

  lemma DecodeRecord(id: string, record: Record)
    requires StringValue(id) != ""
    ensures DecodeEntry(id, EntryOf(id, record)) == Some(FileEntry(id, StringValue(id), ShownPath(record.path), record.deleted))
  {
    hide Normalize;
    TrimProperties("file", JsSpace);
    TrimProperties("true", JsSpace);
    TrimProperties("false", JsSpace);
    NormalizeEmpty();
  }

  lemma NormalizeEmpty()
    ensures Normalize("") == ""
  {
    assert Slashes("") == "";
    assert Split("") == [""];
  }

  lemma {:induction false} DecodedEntries(order: seq<string>, entries: map<string, Item>, entry: FileEntry)
    ensures entry in DecodeKeys(order, entries) <==>
            exists key :: key in order && key in entries && DecodeEntry(key, entries[key]) == Some(entry)
  {
    if |order| > 0 {
      hide DecodeEntry;
      var before, key := order[..|order| - 1], order[|order| - 1];
      DecodedEntries(before, entries, entry);
      assert forall k :: k in order <==> k in before || k == key;
    }
  }

  /** After any sequence of operations a document is listed under a path exactly when its last
      effective upsert or move left that path and no tombstone followed.  Nothing is asked of the
      ids of other documents. */
  lemma ProjectedExactly(ops: seq<Op>, id: string, path: string)
    requires StringValue(id) != "" && WrittenAlike(ops, id)
    ensures Projected(Run(ops), StringValue(id), path) <==>
            var record := LastRecord(ops, id);
            record.Some? && !record.value.deleted && path != "" && ShownPath(record.value.path) == path
  {
    hide DecodeEntry, Normalize, StringValue, ShownPath, NamesKey;
    RunMirrors(ops, id);
    var root := Run(ops);
    var record := LastRecord(ops, id);
    if record.Some? {
      DecodeRecord(id, record.value);
      DecodedEntries(root.order, root.entries, FileEntry(id, StringValue(id), path, false));
    }
    if Projected(root, StringValue(id), path) {
      var entry :| entry in Decode(root) && !entry.deleted && entry.path != "" && entry.path == path
                   && entry.contentDocumentId == StringValue(id);
      DecodedEntries(root.order, root.entries, entry);
      var key :| key in root.order && key in root.entries && DecodeEntry(key, root.entries[key]) == Some(entry);
      NamesKeyDecodes(key, root.entries[key]);
    }
  }

  /** The path given is the path shown, exactly when normalising it leaves no white space at
      its ends. */
  lemma ShownAsGiven(path: string)
    ensures ShownPath(Normalize(path)) == Normalize(path) <==> Trimmed(Normalize(path), JsSpace)
  {
    hide Normalize;
    var n0 := Normalize(path);
    var n1 := Normalize(n0);
    var n2 := Normalize(n1);
    NormalizeTwice(path);
    NormalizedIsNormal(n0);
    NormalizedIsNormal(n1);
    NormalizedIsNormal(n2);
    TrimProperties(n0, JsSpace);
    TrimProperties(n1, JsSpace);
    TrimProperties(n2, JsSpace);
  }

  /** An accepted path that is never shown: the document is listed under no path at all. */
  lemma AcceptedButInvisible()
    ensures Effective(Upsert("d", "./ /.")) && Normalize("./ /.") == " " && ShownPath(" ") == ""
  {
    hide StringValue, Slashes;
    SplitDots();
    assert [".", " ", "."][1..] == [" ", "."] && [" ", "."][1..] == ["."];
    assert CleanParts(["."], [" "], false) == [" "];
    assert CleanParts([" ", "."], [], false) == [" "];
    BlankNormalizes();
  }

  lemma SplitDots()
    ensures StringValue("d") == "d" && Split(Slashes(StringValue("./ /."))) == [".", " ", "."]
  {
    var path := "./ /.";
    TrimProperties("d", JsSpace);
    TrimProperties(path, JsSpace);
    SlashesFree(path);
    assert path == "." + "/" + " /." && " /." == " " + "/" + ".";
    SplitAtSlash(".", " /.");
    SplitAtSlash(" ", ".");
    SplitPlain(".");
  }

  lemma BlankNormalizes()
    ensures Normalize(" ") == "" && ShownPath(" ") == ""
  {
    assert TrimLeft(" ", JsSpace) == "" by { assert " "[1..] == ""; }
    assert StringValue(" ") == StringValue("");
    NormalizeEmpty();
  }

  // ---- one entry per document ----

  ghost predicate NamesKey(key: string, item: Item) {
    item.EntryMap? && item.entry.kind == "file" && StringValue(key) != ""
    && StringValue(item.entry.contentDocumentId) == StringValue(key)
  }

  lemma NamesKeyDecodes(key: string, item: Item)
    requires NamesKey(key, item)
    ensures DecodeEntry(key, item).Some? && DecodeEntry(key, item).value.contentDocumentId == StringValue(key)
  {
    hide Normalize;
    TrimProperties("file", JsSpace);
  }

  /** Every entry's document is its key without outer white space. */
  ghost predicate KeysName(root: Root) {
    && WellFormed(root)
    && forall key :: key in root.entries ==> NamesKey(key, root.entries[key])
  }

  lemma KeysNameStep(root: Root, op: Op)
    requires KeysName(root)
    ensures KeysName(Apply(root, op))
  {
    hide Normalize, StringValue;
    FirstHoldingMeaning(root.order, root.entries, op.id);
    var found := Find(root, op.id);
    if found.Some? && found.value != op.id { SameValue(root.entries[found.value].entry.contentDocumentId, op.id); }
  }

  lemma {:induction false} RunKeysName(ops: seq<Op>)
    ensures KeysName(Run(ops))
  {
    if |ops| > 0 {
      RunKeysName(ops[..|ops| - 1]);
      KeysNameStep(Run(ops[..|ops| - 1]), ops[|ops| - 1]);
    }
  }

  ghost predicate NamesInOrder(decoded: seq<FileEntry>, order: seq<string>) {
    |decoded| == |order| && forall i | 0 <= i < |order| :: decoded[i].contentDocumentId == StringValue(order[i])
  }

  lemma NamesInOrderSnoc(decoded: seq<FileEntry>, entry: FileEntry, order: seq<string>, key: string)
    requires NamesInOrder(decoded, order) && entry.contentDocumentId == StringValue(key)
    ensures NamesInOrder(decoded + [entry], order + [key])
  {
    hide StringValue;
  }

  lemma DecodeNamesOneMore(before: seq<string>, key: string, entries: map<string, Item>)
    requires NamesInOrder(DecodeKeys(before, entries), before) && key in entries && NamesKey(key, entries[key])
    ensures NamesInOrder(DecodeKeys(before + [key], entries), before + [key])
  {
    hide DecodeEntry, NamesKey, StringValue, NamesInOrder;
    var order := before + [key];
    assert order[..|order| - 1] == before && order[|order| - 1] == key;
    NamesKeyDecodes(key, entries[key]);
    NamesInOrderSnoc(DecodeKeys(before, entries), DecodeEntry(key, entries[key]).value, before, key);
  }

  ghost predicate NamesKeys(order: seq<string>, entries: map<string, Item>) {
    forall i | 0 <= i < |order| :: order[i] in entries && NamesKey(order[i], entries[order[i]])
  }

  lemma NamesKeysPrefix(order: seq<string>, entries: map<string, Item>)
    requires |order| > 0 && NamesKeys(order, entries)
    ensures NamesKeys(order[..|order| - 1], entries)
    ensures order[|order| - 1] in entries && NamesKey(order[|order| - 1], entries[order[|order| - 1]])
  {
    hide NamesKey;
  }

  lemma {:induction false} DecodeNamesKeys(order: seq<string>, entries: map<string, Item>)
    requires NamesKeys(order, entries)
    ensures NamesInOrder(DecodeKeys(order, entries), order)
  {
    hide NamesKey, NamesKeys, StringValue;
    if |order| > 0 {
      hide DecodeKeys, NamesInOrder;
      NamesKeysPrefix(order, entries);
      DecodeNamesKeys(order[..|order| - 1], entries);
      DecodeNamesOneMore(order[..|order| - 1], order[|order| - 1], entries);
      assert order[..|order| - 1] + [order[|order| - 1]] == order;
    }
  }

  lemma OneEntryMeaning(root: Root)
    requires KeysName(root)
    ensures OnePerDocument(Decode(root)) <==>
            forall a, b :: a in root.entries && b in root.entries && StringValue(a) == StringValue(b) ==> a == b
  {
    hide StringValue, DecodeKeys;
    DecodeNamesKeys(root.order, root.entries);
    var decoded := Decode(root);
    if OnePerDocument(decoded) {
      forall a, b | a in root.entries && b in root.entries && StringValue(a) == StringValue(b) ensures a == b {
        var i :| 0 <= i < |root.order| && root.order[i] == a;
        var j :| 0 <= j < |root.order| && root.order[j] == b;
        assert decoded[i].contentDocumentId == decoded[j].contentDocumentId;
      }
    }
  }

  /** The operation adds an entry: upserts look only under their own key, and a move's search
      cannot match an id that carries outer white space. */
  ghost predicate AddsBlindly(root: Root, op: Op) {
    Effective(op) && op.id !in root.entries && (op.Upsert? || (op.Move? && StringValue(op.id) != op.id))
  }

  /** A document gets a second entry exactly when an operation adds one blindly beside an entry
      whose key differs only in outer white space. */
  lemma SecondEntryExactlyWhen(root: Root, op: Op)
    requires KeysName(root) && OnePerDocument(Decode(root))
    ensures OnePerDocument(Decode(Apply(root, op))) <==>
            !(AddsBlindly(root, op) && exists key :: key in root.entries && StringValue(key) == StringValue(op.id))
  {
    hide Normalize, StringValue, Decode;
    KeysNameStep(root, op);
    OneEntryMeaning(root);
    OneEntryMeaning(Apply(root, op));
    FirstHoldingMeaning(root.order, root.entries, op.id);
    var next := Apply(root, op);
    if op.id in next.entries && op.id !in root.entries {
      assert forall key :: key in next.entries <==> key in root.entries || key == op.id;
    } else {
      assert forall key :: key in next.entries <==> key in root.entries;
    }
  }

  lemma {:induction false} KeysMentioned(ops: seq<Op>, key: string)
    requires key in Run(ops).entries
    ensures Mentioned(ops, key)
  {
    if |ops| > 0 {
      hide Apply, StringValue;
      var before, op := ops[..|ops| - 1], ops[|ops| - 1];
      assert before + [op] == ops;
      RunKeysName(before);
      KeysAfter(Run(before), op);
      if key in Run(before).entries { KeysMentioned(before, key); }
      MentionedLater(before, op, key);
    }
  }

  /** In particular consistent ids, such as ids without outer white space, never get one. */
  lemma RunOneEntryPerDocument(ops: seq<Op>)
    requires Consistent(ops)
    ensures OnePerDocument(Decode(Run(ops)))
  {
    hide StringValue, Normalize, LastRecord, Decode, NamesKey, Run;
    RunKeysName(ops);
    OneEntryMeaning(Run(ops));
    var root := Run(ops);
    forall a, b | a in root.entries && b in root.entries && StringValue(a) == StringValue(b) ensures a == b {
      KeysMentioned(ops, a);
      KeysMentioned(ops, b);
      var i :| 0 <= i < |ops| && ops[i].id == a;
      var j :| 0 <= j < |ops| && ops[j].id == b;
    }
  }

  lemma PaddedIdGetsSecondEntry()
    ensures var first := Apply(Root([], map[]), Upsert(" a", "p"));
            OnePerDocument(Decode(first)) && !OnePerDocument(Decode(Apply(first, Upsert("a", "p"))))
  {
    hide Decode, Normalize, StringValue;
    var empty := Root([], map[]);
    var first := Apply(empty, Upsert(" a", "p"));
    PaddedId();
    assert KeysName(empty);
    OneEntryMeaning(empty);
    SecondEntryExactlyWhen(empty, Upsert(" a", "p"));
    assert first.entries.Keys == {" a"};
    KeysNameStep(empty, Upsert(" a", "p"));
    SecondEntryExactlyWhen(first, Upsert("a", "p"));
    assert " a" in first.entries;
  }

  lemma PaddedId()
    ensures StringValue(" a") == StringValue("a") == "a" && Normalize("p") == "p"
  {
    TrimProperties("a", JsSpace);
    assert TrimLeft(" a", JsSpace) == TrimLeft("a", JsSpace) by { assert " a"[1..] == "a"; }
    SplitPlain("p");
    NormalIsStable("p");
  }
}
