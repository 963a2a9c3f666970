/** Changes and deltas of texts.  The editor reports simultaneous changes in old coordinates, the
    shared text's deltas walk over the old text. */
module TextMirror {
  /** A UTF-16 code unit; positions and lengths count these. */
  newtype Unit = u: int | 0 <= u < 0x1_0000

  type Text = seq<Unit>

  /** One of a set of simultaneous changes: from..to of the old text becomes `insert`. */
  datatype Change = Change(from: nat, to: nat, insert: Text)

  /** Changes as the editor lists them: in order, apart, within the text. */
  ghost predicate Sorted(changes: seq<Change>, length: nat) {
    && (forall i | 0 <= i < |changes| :: changes[i].from <= changes[i].to <= length)
    && (forall i, j | 0 <= i < j < |changes| :: changes[i].to <= changes[j].from)
  }

  /** Where the last change ends in the old text. */
  function End(changes: seq<Change>): nat {
    if |changes| == 0 then 0 else changes[|changes| - 1].to
  }

  /** The new text up to where the last change ends, all changes made at once. */
  function Made(text: Text, changes: seq<Change>): Text
    requires Sorted(changes, |text|)
  {
    if |changes| == 0 then []
    else
      var before, last := changes[..|changes| - 1], changes[|changes| - 1];
      Made(text, before) + text[End(before)..last.from] + last.insert
  }

  function Simultaneous(text: Text, changes: seq<Change>): Text
    requires Sorted(changes, |text|)
  {
    Made(text, changes) + text[End(changes)..]
  }

  function Replace(text: Text, change: Change): Text
    requires change.from <= change.to <= |text|
  {
    text[..change.from] + change.insert + text[change.to..]
  }

  /** The same changes made one after the other from the back, where old coordinates stay valid. */
  function BackToFront(text: Text, changes: seq<Change>): Text
    requires Sorted(changes, |text|)
    decreases |changes|
  {
    if |changes| == 0 then text
    else
      var last := changes[|changes| - 1];
      var replaced := Replace(text, last);
      BackToFront(replaced, changes[..|changes| - 1])
  }

  /** Making changes at once is making them one at a time from the back. */
  lemma {:induction false} BackToFrontAgrees(text: Text, changed: Text, changes: seq<Change>)
    requires Sorted(changes, |text|) && End(changes) <= |changed| && changed[..End(changes)] == text[..End(changes)]
    ensures BackToFront(changed, changes) == Made(text, changes) + changed[End(changes)..]
    decreases |changes|
  {
    if |changes| > 0 {
      var before, last := changes[..|changes| - 1], changes[|changes| - 1];
      var replaced := Replace(changed, last);
      assert changed[..last.from] == text[..last.to][..last.from] == text[..last.from];
      assert End(before) <= last.from;
      assert replaced[..End(before)] == changed[..last.from][..End(before)] == text[..End(before)];
      BackToFrontAgrees(text, replaced, before);
      assert replaced[End(before)..] == text[End(before)..last.from] + last.insert + changed[last.to..];
    }
  }

  lemma SimultaneousIsBackToFront(text: Text, changes: seq<Change>)
    requires Sorted(changes, |text|)
    ensures Simultaneous(text, changes) == BackToFront(text, changes)
  {
    BackToFrontAgrees(text, text, changes);
  }

  // ---- shared text deltas ----

  /** A delta walks over the old text. */
  datatype Part = Retain(count: nat) | Insert(text: Text) | Delete(length: nat)

  function Walked(part: Part): nat {
    match part
    case Retain(n) => n
    case Insert(_) => 0
    case Delete(n) => n
  }

  /** How far into the old text a delta reaches. */
  function Reach(delta: seq<Part>): nat {
    if |delta| == 0 then 0 else Reach(delta[..|delta| - 1]) + Walked(delta[|delta| - 1])
  }

  function PartText(text: Text, part: Part, index: nat): Text
    requires index + Walked(part) <= |text|
  {
    match part
    case Retain(n) => text[index..index + n]
    case Insert(s) => s
    case Delete(_) => []
  }

  /** The new text a delta has produced by the end of its walk. */
  function Produced(text: Text, delta: seq<Part>): Text
    requires Reach(delta) <= |text|
  {
    if |delta| == 0 then []
    else
      var before := delta[..|delta| - 1];
      Produced(text, before) + PartText(text, delta[|delta| - 1], Reach(before))
  }

  /** What a delta does to a text; past its walk the text stays. */
  function Meaning(text: Text, delta: seq<Part>): Text
    requires Reach(delta) <= |text|
  {
    Produced(text, delta) + text[Reach(delta)..]
  }

  /** The changes of one part at a position of the old text. */
  function PartChanges(part: Part, index: nat): seq<Change> {
    match part
    case Retain(_) => []
    case Insert(s) => if |s| > 0 then [Change(index, index, s)] else []
    case Delete(n) => if n > 0 then [Change(index, index + n, [])] else []
  }

  function DeltaChanges(delta: seq<Part>): seq<Change> {
    if |delta| == 0 then []
    else
      var before := delta[..|delta| - 1];
      DeltaChanges(before) + PartChanges(delta[|delta| - 1], Reach(before))
  }

  method YTextDeltaToCodeMirrorChanges(delta: seq<Part>) returns (changes: seq<Change>)
    ensures changes == DeltaChanges(delta)
  {
    changes := [];
    var index: nat := 0;
    for i := 0 to |delta|
      invariant changes == DeltaChanges(delta[..i]) && index == Reach(delta[..i])
    {
      var part := delta[i];
      assert delta[..i + 1][..i] == delta[..i];
      if part.Retain? && part.count > 0 {
        index := index + part.count;
      }
      if part.Insert? && |part.text| > 0 {
        changes := changes + [Change(index, index, part.text)];
      }
      if part.Delete? && part.length > 0 {
        changes := changes + [Change(index, index + part.length, [])];
        index := index + part.length;
      }
    }
    assert delta[..|delta|] == delta;
  }

  /** The changes built from a delta are well placed in the old text, and making them at once
      produces what the delta produces. */
  lemma {:induction false} DeltaChangesProduce(text: Text, delta: seq<Part>)
    requires Reach(delta) <= |text|
    ensures Sorted(DeltaChanges(delta), |text|) && End(DeltaChanges(delta)) <= Reach(delta)
    ensures Made(text, DeltaChanges(delta)) + text[End(DeltaChanges(delta))..Reach(delta)] == Produced(text, delta)
    decreases |delta|
  {
    if |delta| > 0 {
      var before, part := delta[..|delta| - 1], delta[|delta| - 1];
      DeltaChangesProduce(text, before);
      AddPart(text, DeltaChanges(before), part, Reach(before));
    }
  }

  lemma AddPart(text: Text, changes: seq<Change>, part: Part, index: nat)
    requires Sorted(changes, |text|) && End(changes) <= index && index + Walked(part) <= |text|
    ensures var more := changes + PartChanges(part, index);
            Sorted(more, |text|) && End(more) <= index + Walked(part)
            && Made(text, more) + text[End(more)..index + Walked(part)] ==
               Made(text, changes) + text[End(changes)..index] + PartText(text, part, index)
  {
    hide Made, Sorted;
    var next := index + Walked(part);
    if |PartChanges(part, index)| == 0 {
      assert changes + PartChanges(part, index) == changes;
      ExtendSlice(Made(text, changes), text, End(changes), index, next);
      assert PartText(text, part, index) == text[index..next];
    } else {
      var change := PartChanges(part, index)[0];
      assert PartChanges(part, index) == [change] && change.from == index && change.to == next;
      AddChange(text, changes, change);
      EmptySlice(Made(text, changes + [change]), text, next);
      assert PartText(text, part, index) == change.insert;
    }
  }

  lemma ExtendSlice(made: Text, text: Text, a: nat, b: nat, c: nat)
    requires a <= b <= c <= |text|
    ensures made + text[a..c] == made + text[a..b] + text[b..c]
  {
  }

  lemma TailSlice(made: Text, text: Text, a: nat, b: nat)
    requires a <= b <= |text|
    ensures made + text[a..] == made + text[a..b] + text[b..]
  {
  }

  lemma EmptySlice(made: Text, text: Text, a: nat)
    requires a <= |text|
    ensures made + text[a..a] == made
  {
  }

  lemma AddChange(text: Text, changes: seq<Change>, change: Change)
    requires Sorted(changes, |text|) && End(changes) <= change.from <= change.to <= |text|
    ensures var more := changes + [change];
            Sorted(more, |text|) && End(more) == change.to
            && Made(text, more) == Made(text, changes) + text[End(changes)..change.from] + change.insert
  {
    EndIsLast(changes);
    assert (changes + [change])[..|changes|] == changes;
  }

  lemma EndIsLast(changes: seq<Change>)
    requires forall i, j | 0 <= i < j < |changes| :: changes[i].to <= changes[j].from
    requires forall i | 0 <= i < |changes| :: changes[i].from <= changes[i].to
    ensures forall i | 0 <= i < |changes| :: changes[i].to <= End(changes)
  {
  }

  /** Dispatching the changes built from a delta does to the editor what the delta does. */
  lemma DeltaChangesMeanTheDelta(text: Text, delta: seq<Part>)
    requires Reach(delta) <= |text|
    ensures Sorted(DeltaChanges(delta), |text|)
    ensures Simultaneous(text, DeltaChanges(delta)) == Meaning(text, delta)
  {
    hide Made, Produced;
    DeltaChangesProduce(text, delta);
    TailSlice(Made(text, DeltaChanges(delta)), text, End(DeltaChanges(delta)), Reach(delta));
  }
}
