/** The document surface: the editor's buffer and the shared text kept equal by two listeners. */
module DocumentSurface {
  import opened TextMirror
  import opened SharedText

  // ---- line breaks ----

  const RETURN: Unit := 13
  const NEWLINE: Unit := 10

  /** The editor keeps lines, so it reads every kind of line break as one newline. */
  function Lines(text: Text): Text {
    if |text| == 0 then []
    else if text[0] != RETURN then [text[0]] + Lines(text[1..])
    else [NEWLINE] + Lines(if |text| > 1 && text[1] == NEWLINE then text[2..] else text[1..])
  }

  function LinesOf(change: Change): Change {
    change.(insert := Lines(change.insert))
  }

  function AllLines(changes: seq<Change>): (r: seq<Change>)
    ensures |r| == |changes| && forall i | 0 <= i < |changes| :: r[i] == LinesOf(changes[i])
  {
    seq(|changes|, i requires 0 <= i < |changes| => LinesOf(changes[i]))
  }

  lemma {:induction false} LinesHaveNoReturn(text: Text)
    ensures RETURN !in Lines(text) && (Lines(text) == [] <==> text == [])
    decreases |text|
  {
    if |text| > 0 {
      LinesHaveNoReturn(if text[0] != RETURN then text[1..] else if |text| > 1 && text[1] == NEWLINE then text[2..] else text[1..]);
    }
  }

  /** Text without carriage returns is taken as it is, and no other text is. */
  lemma {:induction false} LinesExactlyWhen(text: Text)
    ensures Lines(text) == text <==> RETURN !in text
  {
    if RETURN in text {
      LinesHaveNoReturn(text);
    } else if |text| > 0 {
      LinesExactlyWhen(text[1..]);
      assert text == [text[0]] + text[1..];
    }
  }

  /** A carriage return is read as a newline, one that is followed by a newline together with it. */
  lemma {:induction false} LineBreaks(before: Text, after: Text)
    requires 13 !in before
    ensures Lines(before + [13, 10] + after) == before + [10] + Lines(after)
    ensures after == [] || after[0] != 10 ==> Lines(before + [13] + after) == before + [10] + Lines(after)
  {
    var pair, alone := before + [13, 10] + after, before + [13] + after;
    if |before| == 0 {
      assert pair[2..] == after && alone[1..] == after;
    } else {
      assert pair[1..] == before[1..] + [13, 10] + after && alone[1..] == before[1..] + [13] + after;
      LineBreaks(before[1..], after);
      assert before == [before[0]] + before[1..];
    }
  }

  lemma AllLinesFit(changes: seq<Change>, length: nat)
    ensures Sorted(changes, length) <==> Sorted(AllLines(changes), length)
    ensures Apart(changes, length) <==> Apart(AllLines(changes), length)
  {
    var r := AllLines(changes);
    assert forall i | 0 <= i < |changes| :: r[i].from == changes[i].from && r[i].to == changes[i].to;
  }

  /** Changes that bring in no carriage returns. */
  ghost predicate NoReturns(changes: seq<Change>) {
    forall i | 0 <= i < |changes| :: RETURN !in changes[i].insert
  }

  lemma AllLinesHaveNoReturn(changes: seq<Change>)
    ensures NoReturns(AllLines(changes))
    ensures NoReturns(changes) ==> AllLines(changes) == changes
  {
    hide Lines;
    forall i: nat | i < |changes| ensures RETURN !in AllLines(changes)[i].insert
                                  && (RETURN !in changes[i].insert ==> AllLines(changes)[i] == changes[i]) {
      LinesHaveNoReturn(changes[i].insert);
      LinesExactlyWhen(changes[i].insert);
    }
  }

  lemma {:induction false} MadeReturns(text: Text, changes: seq<Change>)
    requires Sorted(changes, |text|) && RETURN !in text
    ensures RETURN in Made(text, changes) <==> !NoReturns(changes)
    decreases |changes|
  {
    if |changes| > 0 {
      var before, last := changes[..|changes| - 1], changes[|changes| - 1];
      MadeReturns(text, before);
      assert NoReturns(changes) <==> NoReturns(before) && RETURN !in last.insert;
      assert RETURN !in text[End(before)..last.from];
    }
  }

  /** A text without carriage returns gets some exactly from changes that bring them. */
  lemma SimultaneousReturns(text: Text, changes: seq<Change>)
    requires Sorted(changes, |text|) && RETURN !in text
    ensures RETURN in Simultaneous(text, changes) <==> !NoReturns(changes)
  {
    MadeReturns(text, changes);
    assert RETURN !in text[End(changes)..];
  }

  /** A delta that brings in no carriage returns. */
  ghost predicate PlainInserts(delta: seq<Part>) {
    forall i | 0 <= i < |delta| && delta[i].Insert? :: RETURN !in delta[i].text
  }

  lemma {:induction false} DeltaReturns(delta: seq<Part>)
    ensures NoReturns(DeltaChanges(delta)) <==> PlainInserts(delta)
  {
    if |delta| > 0 {
      var n := |delta| - 1;
      DeltaReturns(delta[..n]);
      PartReturns(DeltaChanges(delta[..n]), delta[n], Reach(delta[..n]));
      assert delta == delta[..n] + [delta[n]];
    }
  }

  lemma PartReturns(changes: seq<Change>, part: Part, index: nat)
    ensures NoReturns(changes + PartChanges(part, index)) <==> NoReturns(changes) && (part.Insert? ==> RETURN !in part.text)
  {
    var more := changes + PartChanges(part, index);
    assert forall i | 0 <= i < |changes| :: more[i] == changes[i];
    if PartChanges(part, index) != [] {
      assert more[|changes|] == PartChanges(part, index)[0];
    } else {
      assert more == changes;
    }
  }

  // ---- a run of edits ----

  datatype Edit = Local(changes: seq<Change>) | Remote(delta: seq<Part>)

  /** The edit lies within the text, a local one leaves surrogate pairs whole, and a remote one
      brings in no carriage return. */
  ghost predicate Harmless(text: Text, edit: Edit) {
    match edit
    case Local(changes) => Apart(changes, |text|) && AllKeepPairs(text, AllLines(changes))
    case Remote(delta) => Reach(delta) <= |text| && PlainInserts(delta)
  }

  ghost function Edited(text: Text, edit: Edit): Text
    requires Harmless(text, edit)
  {
    match edit
    case Local(changes) =>
      AllLinesFit(changes, |text|);
      Simultaneous(text, AllLines(changes))
    case Remote(delta) => Meaning(text, delta)
  }

  ghost predicate AllHarmless(text: Text, edits: seq<Edit>)
    decreases |edits|
  {
    |edits| == 0 || (Harmless(text, edits[0]) && AllHarmless(Edited(text, edits[0]), edits[1..]))
  }

  /** The edits' own meanings, one after the other. */
  ghost function AllEdited(text: Text, edits: seq<Edit>): Text
    requires AllHarmless(text, edits)
    decreases |edits|
  {
    if |edits| == 0 then text else AllEdited(Edited(text, edits[0]), edits[1..])
  }

  /** Two units of a line break are one in the editor; what the next delta retains is not there. */
  lemma ReturnsShiftTheEditor()
    ensures var delta := [Insert([RETURN, NEWLINE])];
            Meaning([], delta) == [RETURN, NEWLINE] && Sorted(AllLines(DeltaChanges(delta)), 0)
            && Simultaneous([], AllLines(DeltaChanges(delta))) == [NEWLINE]
            && !PlainInserts(delta) && Reach([Retain(2)]) > |Simultaneous([], AllLines(DeltaChanges(delta)))|
  {
    hide Lines, DeltaChanges, Meaning, Simultaneous, AllLines;
    var insert: Text := [RETURN, NEWLINE];
    var delta := [Insert(insert)];
    assert delta[0].Insert? && RETURN in insert;
    InsertAsChange(insert);
    LinesOfReturn();
    var changes := AllLines([Change(0, 0, insert)]);
    assert changes[0] == LinesOf(Change(0, 0, insert));
    assert changes == [Change(0, 0, [NEWLINE])];
    InsertIntoNothing(insert);
    InsertMade([NEWLINE]);
    RetainReaches(2);
  }

  lemma RetainReaches(n: nat)
    ensures Reach([Retain(n)]) == n
  {
    assert [Retain(n)][..0] == [];
  }

  lemma LinesOfReturn()
    ensures Lines([RETURN, NEWLINE]) == [NEWLINE]
  {
    var insert: Text := [RETURN, NEWLINE];
    assert insert[2..] == [];
  }

  lemma InsertAsChange(text: Text)
    requires |text| > 0
    ensures DeltaChanges([Insert(text)]) == [Change(0, 0, text)]
  {
    var delta := [Insert(text)];
    assert delta[..0] == [];
    assert DeltaChanges(delta) == DeltaChanges([]) + PartChanges(Insert(text), 0);
  }

  lemma InsertIntoNothing(text: Text)
    ensures Reach([Insert(text)]) == 0 && Meaning([], [Insert(text)]) == text
  {
    var delta := [Insert(text)];
    var none: Text := [];
    assert delta[..0] == [];
    assert Produced(none, delta) == Produced(none, []) + text;
    assert none + text == text && text + none[0..] == text;
  }

  lemma InsertMade(text: Text)
    ensures Simultaneous([], [Change(0, 0, text)]) == text
  {
    var changes := [Change(0, 0, text)];
    var none: Text := [];
    assert changes[..0] == [];
    assert Made(none, changes) == Made(none, []) + none[0..0] + text;
    assert none + none[0..0] + text == text && text + none[0..] == text;
  }

  // ---- the two listeners ----

  /** The surface, with counters of how often each side was edited. */
  class DocumentSurface {
    var editor: Text
    const ytext: YText
    ghost var dispatches: nat
    ghost var transactions: nat

    constructor (ytext: YText)
      ensures this.ytext == ytext && Valid() && dispatches == transactions == 0
      ensures editor == Lines(ytext.content) && (InSync() <==> RETURN !in ytext.content)
    {
      LinesHaveNoReturn(ytext.content);
      LinesExactlyWhen(ytext.content);
      this.editor, this.ytext := Lines(ytext.content), ytext;
      this.dispatches, this.transactions := 0, 0;
    }

    ghost predicate Valid()
      reads this
    {
      RETURN !in editor
    }

    ghost predicate InSync()
      reads this, ytext
    {
      editor == ytext.content
    }

    /** The editor takes a transaction and tells its update listener. */
    method Dispatch(changes: seq<Change>, remote: bool)
      requires Valid() && Sorted(changes, |editor|) && (!remote ==> InSync() && Apart(changes, |editor|))
      modifies this, ytext
      ensures Valid() && Sorted(AllLines(changes), |old(editor)|) && editor == Simultaneous(old(editor), AllLines(changes))
      ensures |old(ytext.content)| == |old(editor)| || remote
      ensures ytext.content == if remote then old(ytext.content)
                               else Simultaneous(Damaged(old(ytext.content), AllLines(changes)), AllLines(changes))
      ensures dispatches == old(dispatches) + 1
      ensures transactions == old(transactions) + (if remote || |changes| == 0 then 0 else 1)
      decreases if remote then 2 else 5
    {
      AllLinesFit(changes, |editor|);
      AllLinesHaveNoReturn(changes);
      SimultaneousReturns(editor, AllLines(changes));
      var taken := AllLines(changes);
      editor := Simultaneous(editor, taken);
      dispatches := dispatches + 1;
      UpdateListener(taken, remote);
    }

    /** Local edits are replayed into the shared text; remote ones came from there. */
    method UpdateListener(changes: seq<Change>, remote: bool)
      requires !remote ==> Apart(changes, |ytext.content|)
      modifies this, ytext
      ensures editor == old(editor) && dispatches == old(dispatches)
      ensures ytext.content == if remote then old(ytext.content) else Simultaneous(Damaged(old(ytext.content), changes), changes)
      ensures transactions == old(transactions) + (if remote || |changes| == 0 then 0 else 1)
      decreases if remote then 1 else 4
    {
      if |changes| > 0 && !remote {
        ApplyCodeMirrorChangesToYText(ytext, changes);
        transactions := transactions + 1;
        Observer([], true);
      }
    }

    /** Remote deltas are shown in the editor; local ones came from there. */
    method Observer(delta: seq<Part>, localOrigin: bool)
      requires !localOrigin ==> Valid() && Reach(delta) <= |editor|
      modifies this, ytext
      ensures ytext.content == old(ytext.content) && transactions == old(transactions)
      ensures localOrigin ==> editor == old(editor)
      ensures !localOrigin ==> Valid() && Sorted(AllLines(DeltaChanges(delta)), |old(editor)|)
                               && editor == Simultaneous(old(editor), AllLines(DeltaChanges(delta)))
      ensures dispatches == old(dispatches) + (if localOrigin || DeltaChanges(delta) == [] then 0 else 1)
      decreases if localOrigin then 0 else 3
    {
      if !localOrigin {
        var changes := YTextDeltaToCodeMirrorChanges(delta);
        DeltaChangesMeanTheDelta(editor, delta);
        AllLinesFit(changes, |editor|);
        if |changes| > 0 {
          Dispatch(changes, true);
        }
      }
    }

    /** The user edits: one transaction, no echo, and both buffers get the change exactly when it
        leaves the surrogate pairs around it whole. */
    method LocalEdit(changes: seq<Change>)
      requires Valid() && InSync() && Apart(changes, |editor|)
      modifies this, ytext
      ensures Valid() && Sorted(AllLines(changes), |old(editor)|) && editor == Simultaneous(old(editor), AllLines(changes))
      ensures InSync() <==> AllKeepPairs(old(editor), AllLines(changes))
      ensures dispatches == old(dispatches) + 1
      ensures transactions == old(transactions) + (if |changes| == 0 then 0 else 1)
    {
      hide AllKeepPairs, Damaged;
      AllLinesFit(changes, |editor|);
      NothingLostExactlyWhen(editor, AllLines(changes));
      Dispatch(changes, false);
    }

    /** Somebody else's edit arrives: at most one dispatch, no echo, and both buffers get the delta
        exactly when it brings in no carriage return. */
    method RemoteEdit(delta: seq<Part>)
      requires Valid() && InSync() && Reach(delta) <= |ytext.content|
      modifies this, ytext
      ensures Valid() && ytext.content == Meaning(old(ytext.content), delta)
      ensures InSync() <==> PlainInserts(delta)
      ensures transactions == old(transactions)
      ensures dispatches <= old(dispatches) + 1
    {
      hide Meaning, AllLines, NoReturns, PlainInserts;
      DeltaReturns(delta);
      ghost var text := editor;
      DeltaChangesMeanTheDelta(text, delta);
      SimultaneousReturns(text, DeltaChanges(delta));
      AllLinesHaveNoReturn(DeltaChanges(delta));
      ytext.content := Meaning(ytext.content, delta);
      Observer(delta, false);
    }

    /** Any interleaving of harmless local and remote edits leaves both buffers with the text that
        the edits mean. */
    method Replay(edits: seq<Edit>)
      requires Valid() && InSync() && AllHarmless(editor, edits)
      modifies this, ytext
      ensures Valid() && InSync() && editor == AllEdited(old(editor), edits)
    {
      hide Harmless, Edited;
      for i := 0 to |edits|
        invariant Valid() && InSync() && AllHarmless(editor, edits[i..])
        invariant AllEdited(editor, edits[i..]) == AllEdited(old(editor), edits)
      {
        assert edits[i..][0] == edits[i] && edits[i..][1..] == edits[i + 1..];
        TakeEdit(edits[i]);
      }
    }

    method TakeEdit(edit: Edit)
      requires Valid() && InSync() && Harmless(editor, edit)
      modifies this, ytext
      ensures Valid() && InSync() && editor == Edited(old(editor), edit)
    {
      match edit
      case Local(changes) => LocalEdit(changes);
      case Remote(delta) => RemoteEdit(delta);
    }
  }
}
