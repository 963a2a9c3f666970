/** Documents as they are stored: an update log shared by all documents, checkpoints of single
    documents, and the rebuilding of a document up to its head. */
module ReplicaLog {
  import opened Results
  import opened RootSemantics
  import opened StateVectors

  /** What the program uses of the CRDT library: replicas of type `Doc`, updates of type `Upd`. */
  datatype Crdt<!Doc, !Upd> = Crdt(
    blank: Doc,                                  // a new replica
    apply: (Doc, Upd) -> Doc,                    // applying an update
    snapshot: Doc -> Upd,                        // the whole state as one update
    vector: Doc -> StateVector,                  // its state vector
    root: Doc -> Root,                           // the "entriesById" map of a root document
    keys: Doc -> seq<string>,                    // that map's keys in iteration order
    writeFlag: (Doc, string, string) -> Upd)     // the update that sets an entry's "deleted" text

  /** The contracts relied on: a snapshot rebuilds its replica, iteration lists the map's keys,
      and writing the flag has the effect of writing the flag. */
  ghost predicate Lawful<Doc(!new), Upd>(c: Crdt<Doc, Upd>) {
    && (forall d: Doc :: c.apply(c.blank, c.snapshot(d)) == d)
    && (forall d: Doc :: c.root(d).Some? ==> KeysOf(c.root(d).value, c.keys(d)))
    && (forall d: Doc, id: string, value: string | HasEntry(c.root(d), id) ::
          c.root(c.apply(d, c.writeFlag(d, id, value))) == WithDeleted(c.root(d), id, value))
  }

  ghost predicate KeysOf(items: map<string, Item>, keys: seq<string>) {
    forall k :: k in keys <==> k in items
  }

  datatype UpdateRow<Upd> = UpdateRow(id: int, documentId: string, update: Upd)

  /** A checkpoint row; its state column may be empty. */
  datatype Checkpoint<Upd> = Checkpoint(documentId: string, updateId: int, state: Option<Upd>)

  ghost predicate Ascending<Upd>(rows: seq<UpdateRow<Upd>>) {
    (forall i, j | 0 <= i < j < |rows| :: rows[i].id < rows[j].id)
    && forall i | 0 <= i < |rows| :: rows[i].id > 0
  }

  /** The update column of a document's rows with after < id <= upto, in id order. */
  function SelectRows<Upd>(rows: seq<UpdateRow<Upd>>, documentId: string, after: int, upto: int): seq<Upd> {
    if |rows| == 0 then []
    else
      var rest := SelectRows(rows[1..], documentId, after, upto);
      if rows[0].documentId == documentId && after < rows[0].id <= upto then [rows[0].update] + rest else rest
  }

  function ApplyAll<Doc, Upd>(c: Crdt<Doc, Upd>, doc: Doc, updates: seq<Upd>): Doc {
    if |updates| == 0 then doc else ApplyAll(c, c.apply(doc, updates[0]), updates[1..])
  }

  /** The newest checkpoint of a document at or below an update id. */
  function Newest<Upd>(checkpoints: seq<Checkpoint<Upd>>, documentId: string, upto: int): Option<Checkpoint<Upd>> {
    if |checkpoints| == 0 then None
    else
      var rest := Newest(checkpoints[1..], documentId, upto);
      var first := checkpoints[0];
      if first.documentId == documentId && first.updateId <= upto
         && (rest.None? || rest.value.updateId <= first.updateId) then Some(first) else rest
  }

  function Rebuild<Doc, Upd>(
    c: Crdt<Doc, Upd>, checkpoints: seq<Checkpoint<Upd>>, rows: seq<UpdateRow<Upd>>, documentId: string, head: int): Doc
  {
    match Newest(checkpoints, documentId, head)
    case Some(Checkpoint(_, updateId, Some(state))) =>
      ApplyAll(c, c.apply(c.blank, state), SelectRows(rows, documentId, updateId, head))
    case _ => ApplyAll(c, c.blank, SelectRows(rows, documentId, 0, head))
  }

  /** The reference: the whole log applied from the start. */
  function Replay<Doc, Upd>(c: Crdt<Doc, Upd>, rows: seq<UpdateRow<Upd>>, documentId: string, head: int): Doc {
    ApplyAll(c, c.blank, SelectRows(rows, documentId, 0, head))
  }

  /** The server's rebuilding loop. */
  method RestoreDocument<Doc, Upd>(
    c: Crdt<Doc, Upd>, checkpoints: seq<Checkpoint<Upd>>, rows: seq<UpdateRow<Upd>>, documentId: string, head: int)
    returns (doc: Doc)
    ensures doc == Rebuild(c, checkpoints, rows, documentId, head)
  {
    doc := c.blank;
    var appliedThrough := 0;
    var checkpoint := Newest(checkpoints, documentId, head);
    if checkpoint.Some? && checkpoint.value.state.Some? {
      doc := c.apply(doc, checkpoint.value.state.value);
      appliedThrough := checkpoint.value.updateId;
    }
    var updates := SelectRows(rows, documentId, appliedThrough, head);
    ghost var target := ApplyAll(c, doc, updates);
    for i := 0 to |updates|
      invariant ApplyAll(c, doc, updates[i..]) == target
    {
      assert updates[i..][1..] == updates[i + 1..];
      doc := c.apply(doc, updates[i]);
    }
  }

  // ---- rebuilding is replaying ----

  /** Every non-empty checkpoint is the snapshot of its document replayed to its update id. */
  ghost predicate Faithful<Doc(!new), Upd(!new)>(
    c: Crdt<Doc, Upd>, checkpoints: seq<Checkpoint<Upd>>, rows: seq<UpdateRow<Upd>>)
  {
    forall i | 0 <= i < |checkpoints| && checkpoints[i].state.Some? ::
      checkpoints[i].updateId >= 0
      && checkpoints[i].state.value == c.snapshot(Replay(c, rows, checkpoints[i].documentId, checkpoints[i].updateId))
  }

  lemma {:induction false} NewestIsStored<Upd>(checkpoints: seq<Checkpoint<Upd>>, documentId: string, upto: int)
    ensures var newest := Newest(checkpoints, documentId, upto);
            newest.None? || (newest.value.documentId == documentId && newest.value.updateId <= upto
                             && exists i :: 0 <= i < |checkpoints| && checkpoints[i] == newest.value)
  {
    if |checkpoints| > 0 {
      NewestIsStored(checkpoints[1..], documentId, upto);
      var newest := Newest(checkpoints, documentId, upto);
      if newest.Some? && newest == Newest(checkpoints[1..], documentId, upto) {
        var i :| 0 <= i < |checkpoints[1..]| && checkpoints[1..][i] == newest.value;
        assert checkpoints[i + 1] == newest.value;
      } else if newest.Some? {
        assert checkpoints[0] == newest.value;
      }
    }
  }

  /** It is the newest: no other checkpoint of the document up to there is later. */
  lemma {:induction false} NewestIsLatest<Upd>(checkpoints: seq<Checkpoint<Upd>>, documentId: string, upto: int)
    ensures forall checkpoint | checkpoint in checkpoints && checkpoint.documentId == documentId && checkpoint.updateId <= upto ::
              var newest := Newest(checkpoints, documentId, upto);
              newest.Some? && checkpoint.updateId <= newest.value.updateId
  {
    if |checkpoints| > 0 {
      NewestIsLatest(checkpoints[1..], documentId, upto);
      assert forall checkpoint | checkpoint in checkpoints :: checkpoint == checkpoints[0] || checkpoint in checkpoints[1..];
    }
  }

  lemma {:induction false} SelectNothing<Upd>(rows: seq<UpdateRow<Upd>>, documentId: string, after: int, upto: int)
    requires forall i | 0 <= i < |rows| && rows[i].documentId == documentId :: !(after < rows[i].id <= upto)
    ensures SelectRows(rows, documentId, after, upto) == []
  {
    if |rows| > 0 { SelectNothing(rows[1..], documentId, after, upto); }
  }

  lemma {:induction false} SelectSplits<Upd>(rows: seq<UpdateRow<Upd>>, documentId: string, after: int, mid: int, upto: int)
    requires Ascending(rows) && after <= mid <= upto
    ensures SelectRows(rows, documentId, after, upto) ==
            SelectRows(rows, documentId, after, mid) + SelectRows(rows, documentId, mid, upto)
  {
    if |rows| > 0 {
      SelectSplits(rows[1..], documentId, after, mid, upto);
      if rows[0].id > mid {
        SelectNothing(rows, documentId, after, mid);
        SelectNothing(rows[1..], documentId, after, mid);
      }
    }
  }

  lemma {:induction false} ApplyAllConcat<Doc, Upd>(c: Crdt<Doc, Upd>, doc: Doc, first: seq<Upd>, second: seq<Upd>)
    ensures ApplyAll(c, doc, first + second) == ApplyAll(c, ApplyAll(c, doc, first), second)
    decreases |first|
  {
    if |first| == 0 {
      assert first + second == second;
    } else {
      assert (first + second)[1..] == first[1..] + second;
      ApplyAllConcat(c, c.apply(doc, first[0]), first[1..], second);
    }
  }

  /** Rebuilding from the newest checkpoint and the rows after it gives the replay of the whole
      log, for every document and every head. */
  lemma RebuildIsReplay<Doc(!new), Upd(!new)>(
    c: Crdt<Doc, Upd>, checkpoints: seq<Checkpoint<Upd>>, rows: seq<UpdateRow<Upd>>, documentId: string, head: int)
    requires Lawful(c) && Ascending(rows) && Faithful(c, checkpoints, rows)
    ensures Rebuild(c, checkpoints, rows, documentId, head) == Replay(c, rows, documentId, head)
  {
    NewestIsStored(checkpoints, documentId, head);
    match Newest(checkpoints, documentId, head)
    case Some(Checkpoint(_, updateId, Some(state))) =>
      var i :| 0 <= i < |checkpoints| && checkpoints[i] == Checkpoint(documentId, updateId, Some(state));
      SelectSplits(rows, documentId, 0, updateId, head);
      ApplyAllConcat(c, c.blank, SelectRows(rows, documentId, 0, updateId), SelectRows(rows, documentId, updateId, head));
    case _ =>
  }

  // ---- appending a row ----

  lemma {:induction false} SelectAfterAppend<Upd>(
    rows: seq<UpdateRow<Upd>>, row: UpdateRow<Upd>, documentId: string, after: int, upto: int)
    ensures SelectRows(rows + [row], documentId, after, upto) ==
            SelectRows(rows, documentId, after, upto) +
            (if row.documentId == documentId && after < row.id <= upto then [row.update] else [])
  {
    if |rows| == 0 {
      assert rows + [row] == [row];
    } else {
      assert (rows + [row])[1..] == rows[1..] + [row];
      SelectAfterAppend(rows[1..], row, documentId, after, upto);
    }
  }

  /** Past the last row of a document there is nothing more to select. */
  lemma SelectPastTheEnd<Upd>(rows: seq<UpdateRow<Upd>>, documentId: string, head: int, upto: int)
    requires Ascending(rows) && 0 <= head <= upto
    requires forall i | 0 <= i < |rows| && rows[i].documentId == documentId :: rows[i].id <= head
    ensures SelectRows(rows, documentId, 0, upto) == SelectRows(rows, documentId, 0, head)
  {
    SelectSplits(rows, documentId, 0, head, upto);
    SelectNothing(rows, documentId, head, upto);
  }

  /** Appending a row to a document's log applies its update on top of the document as it was
      at the head, and changes no document below the new id. */
  lemma ReplayAfterAppend<Doc, Upd>(
    c: Crdt<Doc, Upd>, rows: seq<UpdateRow<Upd>>, row: UpdateRow<Upd>, documentId: string, head: int)
    requires Ascending(rows) && 0 <= head < row.id
    requires forall i | 0 <= i < |rows| && rows[i].documentId == documentId :: rows[i].id <= head
    ensures documentId == row.documentId ==>
              Replay(c, rows + [row], documentId, row.id) == c.apply(Replay(c, rows, documentId, head), row.update)
    ensures forall upto | upto < row.id :: Replay(c, rows + [row], documentId, upto) == Replay(c, rows, documentId, upto)
    ensures documentId != row.documentId ==>
              forall upto :: Replay(c, rows + [row], documentId, upto) == Replay(c, rows, documentId, upto)
  {
    SelectAfterAppend(rows, row, documentId, 0, row.id);
    SelectPastTheEnd(rows, documentId, head, row.id);
    if documentId == row.documentId {
      ApplyAllConcat(c, c.blank, SelectRows(rows, documentId, 0, head), [row.update]);
      assert ApplyAll(c, Replay(c, rows, documentId, head), [row.update]) == c.apply(Replay(c, rows, documentId, head), row.update);
    }
    forall upto: int { SelectAfterAppend(rows, row, documentId, 0, upto); }
    assert forall upto :: SelectRows(rows, documentId, 0, upto) + [] == SelectRows(rows, documentId, 0, upto);
  }

  lemma FaithfulAfterAppend<Doc(!new), Upd(!new)>(
    c: Crdt<Doc, Upd>, checkpoints: seq<Checkpoint<Upd>>, rows: seq<UpdateRow<Upd>>, row: UpdateRow<Upd>)
    requires Ascending(rows) && Faithful(c, checkpoints, rows)
    requires forall i | 0 <= i < |checkpoints| :: checkpoints[i].updateId < row.id
    ensures Faithful(c, checkpoints, rows + [row])
  {
    forall i | 0 <= i < |checkpoints| && checkpoints[i].state.Some?
      ensures Replay(c, rows + [row], checkpoints[i].documentId, checkpoints[i].updateId)
           == Replay(c, rows, checkpoints[i].documentId, checkpoints[i].updateId)
    {
      SelectAfterAppend(rows, row, checkpoints[i].documentId, 0, checkpoints[i].updateId);
      var selected := SelectRows(rows, checkpoints[i].documentId, 0, checkpoints[i].updateId);
      assert selected + [] == selected;
    }
  }
}
