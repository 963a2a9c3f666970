/** The shared text, edited one operation at a time, and the replay of simultaneous changes on it. */
module SharedText {
  import opened TextMirror

  // ---- cutting surrogate pairs ----

  const REPLACEMENT: Unit := 0xFFFD

  /** The first half of a surrogate pair. */
  predicate High(u: Unit) {
    0xD800 <= u <= 0xDBFF
  }

  /** The units whose six upper bits are 110110. */
  lemma HighBits(u: Unit)
    ensures High(u) <==> u as int / 0x400 == 0x36
  {
  }

  /** The text is about to be split here, right after the first half of a pair. */
  predicate Cuts(text: Text, index: nat) {
    0 < index < |text| && High(text[index - 1])
  }

  /** The library keeps no halves: splitting its text there replaces the units on both sides. */
  function Cut(text: Text, index: nat): (r: Text)
    ensures |r| == |text|
  {
    if Cuts(text, index) then text[index - 1 := REPLACEMENT][index := REPLACEMENT] else text
  }

  /** What editing around a change does to the text outside it. */
  function CutAround(text: Text, change: Change): (r: Text)
    ensures |r| == |text|
  {
    if change.from < change.to then Cut(Cut(text, change.from), change.to)
    else if |change.insert| > 0 then Cut(text, change.from)
    else text
  }

  class YText {
    var content: Text

    constructor (content: Text)
      ensures this.content == content
    {
      this.content := content;
    }

    method Delete(index: nat, length: nat)
      requires index + length <= |content| && length > 0
      modifies this
      ensures var cut := Cut(Cut(old(content), index), index + length);
              content == cut[..index] + cut[index + length..]
    {
      var cut := Cut(Cut(content, index), index + length);
      content := cut[..index] + cut[index + length..];
    }

    method Insert(index: nat, text: Text)
      requires index <= |content| && |text| > 0
      modifies this
      ensures var cut := Cut(old(content), index);
              content == cut[..index] + text + cut[index..]
    {
      var cut := Cut(content, index);
      content := cut[..index] + text + cut[index..];
    }
  }

  // ---- replaying changes ----

  /** Changes as the editor reports them: touching ones are merged, so something is kept between. */
  ghost predicate Apart(changes: seq<Change>, length: nat) {
    Sorted(changes, length) && forall i, j | 0 <= i < j < |changes| :: changes[i].to < changes[j].from
  }

  /** Deleting and inserting at a position, the pairs at both ends cut. */
  method ApplyChange(ytext: YText, from: nat, deleteLength: nat, insert: Text)
    requires from + deleteLength <= |ytext.content|
    modifies ytext
    ensures var cut := CutAround(old(ytext.content), Change(from, from + deleteLength, insert));
            ytext.content == cut[..from] + insert + cut[from + deleteLength..]
  {
    ghost var cut := CutAround(ytext.content, Change(from, from + deleteLength, insert));
    if deleteLength > 0 {
      ytext.Delete(from, deleteLength);
      AfterDelete(cut, from, deleteLength, ytext.content);
    }
    if |insert| > 0 {
      ytext.Insert(from, insert);
    }
  }

  /** Where the library has just split its text it splits no more. */
  lemma AfterDelete(cut: Text, from: nat, length: nat, content: Text)
    requires from + length <= |cut| && content == cut[..from] + cut[from + length..]
    requires 0 < from < |cut| ==> !High(cut[from - 1])
    ensures Cut(content, from) == content && content[..from] == cut[..from] && content[from..] == cut[from + length..]
  {
  }

  /** The old text with every pair cut that the changes cut. */
  function Damaged(text: Text, changes: seq<Change>): (r: Text)
    ensures |r| == |text|
  {
    if |changes| == 0 then text
    else CutAround(Damaged(text, changes[..|changes| - 1]), changes[|changes| - 1])
  }

  lemma SamePrefix(text: Text, other: Text, n: nat, a: nat, b: nat)
    requires a <= b <= n <= |text| == |other| && text[..n] == other[..n]
    ensures text[..a] == other[..a] && text[a..b] == other[a..b]
  {
    assert text[..n][..a] == text[..a] && other[..n][..a] == other[..a];
    assert text[..n][a..b] == text[a..b] && other[..n][a..b] == other[a..b];
  }

  lemma {:induction false} MadeFromPrefix(text: Text, other: Text, changes: seq<Change>)
    requires Sorted(changes, |text|) && |text| == |other| && text[..End(changes)] == other[..End(changes)]
    ensures Made(text, changes) == Made(other, changes)
    decreases |changes|
  {
    if |changes| > 0 {
      hide Made;
      var before, last := changes[..|changes| - 1], changes[|changes| - 1];
      MadeOneMore(text, changes);
      MadeOneMore(other, changes);
      SamePrefix(text, other, last.to, End(before), last.from);
      MadeFromPrefix(text, other, before);
    }
  }

  /** Where the replay stands: behind what is made, the rest of the damaged old text. */
  ghost predicate Replayed(content: Text, text: Text, changes: seq<Change>, offset: int)
    requires Sorted(changes, |text|)
  {
    var damaged := Damaged(text, changes);
    content == Made(damaged, changes) + damaged[End(changes)..] && |Made(damaged, changes)| == End(changes) + offset
  }

  /** Cutting ahead of what is made leaves that alone. */
  lemma CutAhead(made: Text, text: Text, pos: nat, change: Change)
    requires pos <= change.from <= change.to <= |text| && (pos < change.from || (pos == 0 && |made| == 0))
    ensures var shift := |made| - pos;
            var moved := Change(change.from + shift, change.to + shift, change.insert);
            var content := made + text[pos..];
            CutAround(content, moved) == made + CutAround(text, change)[pos..]
    ensures CutAround(text, change)[..pos] == text[..pos]
  {
    hide Cut, Cuts;
    CutOneAhead(made, text, pos, change.from);
    CutOneAhead(made, Cut(text, change.from), pos, change.to);
  }

  lemma CutOneAhead(made: Text, text: Text, pos: nat, index: nat)
    requires pos <= index <= |text| && (pos < index || (pos == 0 && |made| == 0))
    ensures Cut(made + text[pos..], index - pos + |made|) == made + Cut(text, index)[pos..]
    ensures Cut(text, index)[..pos] == text[..pos]
  {
    var content, at := made + text[pos..], index - pos + |made|;
    if 0 < index { assert content[at - 1] == text[index - 1]; }
    assert |content| - at == |text| - index;
  }

  /** One step of the replay. */
  method ReplayChange(ytext: YText, change: Change, offset: int, ghost text: Text, ghost before: seq<Change>)
    requires Apart(before + [change], |text|) && Sorted(before, |text|) && Replayed(ytext.content, text, before, offset)
    modifies ytext
    ensures Sorted(before + [change], |text|)
    ensures Replayed(ytext.content, text, before + [change], offset + |change.insert| - (change.to - change.from))
  {
    hide CutAround, Replayed, Apart, Sorted;
    ghost var content := ytext.content;
    ReplayedAfter(content, text, before, change, offset);
    ApplyChange(ytext, change.from + offset, change.to - change.from, change.insert);
  }

  /** The change made at its shifted place continues the replay. */
  lemma ReplayedAfter(content: Text, text: Text, before: seq<Change>, change: Change, offset: int)
    requires Apart(before + [change], |text|) && Sorted(before, |text|) && Replayed(content, text, before, offset)
    ensures change.from <= change.to && change.from + offset >= 0 && change.to + offset <= |content|
    ensures Sorted(before + [change], |text|)
    ensures var from, to: nat := change.from + offset, change.to + offset;
            var cut := CutAround(content, Change(from, to, change.insert));
            Replayed(cut[..from] + change.insert + cut[to..], text, before + [change], offset + |change.insert| - (change.to - change.from))
  {
    hide CutAround, Sorted, Damaged, Apart;
    var damaged, made, pos := Damaged(text, before), Made(Damaged(text, before), before), End(before);
    LastIsApart(before, change, |text|);
    CutAhead(made, damaged, pos, change);
    ReplayedStep(text, before, change);
    ShiftedChange(made, CutAround(damaged, change), pos, change);
  }

  lemma ShiftedChange(made: Text, cut: Text, pos: nat, change: Change)
    requires pos <= change.from <= change.to <= |cut|
    ensures var all, from, to := made + cut[pos..], change.from - pos + |made|, change.to - pos + |made|;
            all[..from] + change.insert + all[to..] == made + cut[pos..change.from] + change.insert + cut[change.to..]
  {
    var all, from, to := made + cut[pos..], change.from - pos + |made|, change.to - pos + |made|;
    assert all[..from] == made + cut[pos..change.from];
    assert all[to..] == cut[change.to..];
  }

  lemma LastIsApart(before: seq<Change>, change: Change, length: nat)
    requires Apart(before + [change], length)
    ensures change.from <= change.to <= length && End(before) <= change.from && Sorted(before, length)
    ensures |before| > 0 ==> End(before) < change.from
    ensures |before| == 0 ==> End(before) == 0
  {
    var all := before + [change];
    assert all[|before|] == change;
    assert forall i | 0 <= i < |before| :: all[i] == before[i];
  }

  lemma ReplayedStep(text: Text, before: seq<Change>, change: Change)
    requires Apart(before + [change], |text|) && Sorted(before, |text|)
    ensures var damaged, all := Damaged(text, before), before + [change];
            var cut := CutAround(damaged, change);
            Sorted(all, |text|) && Damaged(text, all) == cut && End(all) == change.to
            && End(before) <= change.from <= change.to <= |text|
            && Made(cut, all) == Made(damaged, before) + cut[End(before)..change.from] + change.insert
  {
    hide CutAround;
    var damaged, all := Damaged(text, before), before + [change];
    assert all[..|before|] == before;
    LastIsApart(before, change, |text|);
    CutAhead(Made(damaged, before), damaged, End(before), change);
    MadeFromPrefix(damaged, CutAround(damaged, change), before);
  }

  /** Replaying the reported changes one by one with a running offset makes them all at once, on the
      old text with every pair cut that they cut. */
  method ApplyCodeMirrorChangesToYText(ytext: YText, changes: seq<Change>)
    requires Apart(changes, |ytext.content|)
    modifies ytext
    ensures ytext.content == Simultaneous(Damaged(old(ytext.content), changes), changes)
  {
    hide Apart, Replayed, Damaged, Made;
    ghost var text := ytext.content;
    var offset := 0;
    ReplayStart(text);
    for i := 0 to |changes|
      invariant Sorted(changes[..i], |text|) && Replayed(ytext.content, text, changes[..i], offset)
    {
      var change := changes[i];
      assert changes[..i + 1] == changes[..i] + [change];
      PrefixIsApart(changes, i + 1, |text|);
      ReplayChange(ytext, change, offset, text, changes[..i]);
      offset := offset + |change.insert| - (change.to - change.from);
    }
    assert changes[..|changes|] == changes;
    ReplayEnd(ytext.content, text, changes, offset);
  }

  lemma ReplayStart(text: Text)
    ensures Replayed(text, text, [], 0)
  {
  }

  lemma ReplayEnd(content: Text, text: Text, changes: seq<Change>, offset: int)
    requires Sorted(changes, |text|) && Replayed(content, text, changes, offset)
    ensures content == Simultaneous(Damaged(text, changes), changes)
  {
  }

  lemma PrefixIsApart(changes: seq<Change>, n: nat, length: nat)
    requires Apart(changes, length) && n <= |changes|
    ensures Apart(changes[..n], length)
  {
  }

  // ---- exactly when nothing is lost ----

  /** The change leaves the units around it whole. */
  predicate KeepsPairs(text: Text, change: Change) {
    && ((change.from < change.to || |change.insert| > 0) ==> !Cuts(text, change.from))
    && (change.from < change.to && Cuts(text, change.to) ==> text[change.to] == REPLACEMENT)
  }

  ghost predicate AllKeepPairs(text: Text, changes: seq<Change>) {
    forall i | 0 <= i < |changes| :: KeepsPairs(text, changes[i])
  }

  /** A position of the old text that no change deletes. */
  ghost predicate Kept(changes: seq<Change>, p: nat) {
    forall i | 0 <= i < |changes| :: !(changes[i].from <= p < changes[i].to)
  }

  lemma {:induction false} MadeDiffers(text: Text, other: Text, changes: seq<Change>, p: nat)
    requires Sorted(changes, |text|) && |text| == |other| && p < End(changes) && Kept(changes, p) && text[p] != other[p]
    ensures |Made(text, changes)| == |Made(other, changes)| && Made(text, changes) != Made(other, changes)
    decreases |changes|
  {
    var before, last := changes[..|changes| - 1], changes[|changes| - 1];
    MadeLength(text, other, before);
    assert p < last.from;
    if p < End(before) {
      MadeDiffers(text, other, before, p);
    } else {
      assert text[End(before)..last.from][p - End(before)] != other[End(before)..last.from][p - End(before)];
    }
    DifferentParts(Made(text, before), Made(other, before), text[End(before)..last.from], other[End(before)..last.from], last.insert);
  }

  lemma DifferentParts(a: Text, b: Text, c: Text, d: Text, tail: Text)
    requires |a| == |b| && |c| == |d| && (a != b || c != d)
    ensures |a + c + tail| == |b + d + tail| && a + c + tail != b + d + tail
  {
    var one, two := a + c + tail, b + d + tail;
    assert one[..|a|] == a && two[..|a|] == b;
    assert one[|a|..|a| + |c|] == c && two[|a|..|a| + |c|] == d;
  }

  lemma {:induction false} MadeLength(text: Text, other: Text, changes: seq<Change>)
    requires Sorted(changes, |text|) && |text| == |other|
    ensures |Made(text, changes)| == |Made(other, changes)|
    decreases |changes|
  {
    if |changes| > 0 { MadeLength(text, other, changes[..|changes| - 1]); }
  }

  lemma EndFits(changes: seq<Change>, length: nat)
    requires Sorted(changes, length)
    ensures End(changes) <= length
  {
  }

  /** Texts that differ at a kept position come out different. */
  lemma KeptDifference(text: Text, other: Text, changes: seq<Change>, p: nat)
    requires Sorted(changes, |text|) && |text| == |other| && p < |text| && Kept(changes, p) && text[p] != other[p]
    ensures Simultaneous(text, changes) != Simultaneous(other, changes)
  {
    hide Sorted, Made, Kept;
    MadeLength(text, other, changes);
    EndFits(changes, |text|);
    if p < End(changes) {
      MadeDiffers(text, other, changes, p);
    } else {
      assert text[End(changes)..][p - End(changes)] != other[End(changes)..][p - End(changes)];
    }
    DifferentParts(Made(text, changes), Made(other, changes), text[End(changes)..], other[End(changes)..], []);
    assert Simultaneous(text, changes) + [] == Simultaneous(text, changes);
    assert Simultaneous(other, changes) + [] == Simultaneous(other, changes);
  }

  /** Texts that agree at all kept positions come out equal. */
  lemma {:induction false} MadeAgrees(text: Text, other: Text, changes: seq<Change>)
    requires Sorted(changes, |text|) && |text| == |other|
    requires forall p: nat | p < End(changes) && Kept(changes, p) :: text[p] == other[p]
    ensures Made(text, changes) == Made(other, changes)
    decreases |changes|
  {
    if |changes| > 0 {
      hide Made;
      var before, last := changes[..|changes| - 1], changes[|changes| - 1];
      forall p: nat | p < last.from && (p >= End(before) || Kept(before, p)) ensures text[p] == other[p] {
        KeptBefore(changes, |text|, p);
      }
      MadeAgrees(text, other, before);
      assert text[End(before)..last.from] == other[End(before)..last.from];
      MadeOneMore(text, changes);
      MadeOneMore(other, changes);
    }
  }

  lemma MadeOneMore(text: Text, changes: seq<Change>)
    requires Sorted(changes, |text|) && |changes| > 0
    ensures var before, last := changes[..|changes| - 1], changes[|changes| - 1];
            End(before) <= last.from <= last.to <= |text|
            && Made(text, changes) == Made(text, before) + text[End(before)..last.from] + last.insert
  {
  }

  lemma KeptBefore(changes: seq<Change>, length: nat, p: nat)
    requires Sorted(changes, length) && |changes| > 0 && p < changes[|changes| - 1].from
    requires p >= End(changes[..|changes| - 1]) || Kept(changes[..|changes| - 1], p)
    ensures Kept(changes, p) && p < End(changes)
  {
    EndIsLast(changes[..|changes| - 1]);
  }

  /** A kept position at or before the last change's end where a half was lost. */
  ghost predicate Lost(text: Text, damaged: Text, changes: seq<Change>, p: nat) {
    p < |text| == |damaged| && p <= End(changes) && Kept(changes, p) && damaged[p] == REPLACEMENT != text[p]
  }

  /** Nothing outside the changes was lost. */
  ghost predicate Whole(text: Text, damaged: Text, changes: seq<Change>) {
    |text| == |damaged| && forall p: nat | p < |text| && Kept(changes, p) :: damaged[p] == text[p]
  }

  /** One more change that keeps pairs, after changes that lost nothing. */
  lemma StaysWhole(text: Text, damaged: Text, before: seq<Change>, change: Change)
    requires Apart(before + [change], |text|) && Whole(text, damaged, before)
    ensures KeepsPairs(text, change) ==> Whole(text, CutAround(damaged, change), before + [change])
    ensures !KeepsPairs(text, change) ==> exists p: nat :: Lost(text, CutAround(damaged, change), before + [change], p)
  {
    hide Kept;
    LastIsApart(before, change, |text|);
    forall p: nat | End(before) <= p < |text|
      ensures damaged[p] == text[p] && (p < change.from || p >= change.to ==> Kept(before + [change], p))
    {
      KeptOutside(before, change, |text|, p);
    }
    assert Cuts(damaged, change.from) == Cuts(text, change.from);
    assert change.from < change.to ==> Cuts(damaged, change.to) == Cuts(text, change.to);
    if KeepsPairs(text, change) {
      forall p: nat | p < |text| && Kept(before + [change], p) ensures CutAround(damaged, change)[p] == text[p] {
        KeptMeans(before, change, p);
      }
    } else if (change.from < change.to || |change.insert| > 0) && Cuts(text, change.from) {
      assert Lost(text, CutAround(damaged, change), before + [change], change.from - 1);
    } else {
      assert Lost(text, CutAround(damaged, change), before + [change], change.to);
    }
  }

  lemma KeptOutside(before: seq<Change>, change: Change, length: nat, p: nat)
    requires Apart(before + [change], length) && End(before) <= p < length
    ensures Kept(before, p) && (p < change.from || p >= change.to ==> Kept(before + [change], p))
  {
    LastIsApart(before, change, length);
    EndIsLast(before);
  }

  lemma KeptMeans(before: seq<Change>, change: Change, p: nat)
    requires Kept(before + [change], p)
    ensures Kept(before, p) && (p < change.from || p >= change.to)
  {
    var all := before + [change];
    assert all[|before|] == change && forall i | 0 <= i < |before| :: all[i] == before[i];
  }

  lemma StaysLost(text: Text, damaged: Text, before: seq<Change>, change: Change, p: nat)
    requires Apart(before + [change], |text|) && |before| > 0 && Lost(text, damaged, before, p)
    ensures Lost(text, CutAround(damaged, change), before + [change], p)
  {
    LastIsApart(before, change, |text|);
    var all := before + [change];
    assert forall i | 0 <= i < |all| :: all[i] == if i < |before| then before[i] else change;
  }

  lemma {:induction false} DamageIsLoss(text: Text, changes: seq<Change>)
    requires Apart(changes, |text|)
    ensures AllKeepPairs(text, changes) ==> Whole(text, Damaged(text, changes), changes)
    ensures !AllKeepPairs(text, changes) ==> exists p: nat :: Lost(text, Damaged(text, changes), changes, p)
    decreases |changes|
  {
    if |changes| > 0 {
      hide Apart, Whole, Lost, CutAround, KeepsPairs, Damaged;
      var n := |changes| - 1;
      var before, last := changes[..n], changes[n];
      var damaged := Damaged(text, before);
      assert before + [last] == changes;
      PrefixIsApart(changes, n, |text|);
      DamageIsLoss(text, before);
      DamagedSnoc(text, before, last);
      if AllKeepPairs(text, before) {
        StaysWhole(text, damaged, before, last);
      } else {
        var p: nat :| Lost(text, damaged, before, p);
        StaysLost(text, damaged, before, last, p);
        var i :| 0 <= i < |before| && !KeepsPairs(text, before[i]);
        assert changes[i] == before[i];
      }
    }
  }

  lemma DamagedSnoc(text: Text, before: seq<Change>, change: Change)
    ensures Damaged(text, before + [change]) == CutAround(Damaged(text, before), change)
  {
    hide CutAround;
    assert (before + [change])[..|before|] == before;
  }

  /** The replay makes the reported changes, and nothing else, exactly when none of them ends or
      starts in the middle of a surrogate pair. */
  lemma NothingLostExactlyWhen(text: Text, changes: seq<Change>)
    requires Apart(changes, |text|)
    ensures Simultaneous(Damaged(text, changes), changes) == Simultaneous(text, changes) <==> AllKeepPairs(text, changes)
  {
    hide Made, Damaged, AllKeepPairs, Kept;
    DamageIsLoss(text, changes);
    var damaged := Damaged(text, changes);
    if AllKeepPairs(text, changes) {
      EndFits(changes, |text|);
      MadeAgrees(damaged, text, changes);
      TailAgrees(text, damaged, changes);
    } else {
      var p: nat :| Lost(text, damaged, changes, p);
      KeptDifference(damaged, text, changes, p);
    }
  }

  lemma TailAgrees(text: Text, damaged: Text, changes: seq<Change>)
    requires Sorted(changes, |text|) && Whole(text, damaged, changes)
    ensures End(changes) <= |text| && damaged[End(changes)..] == text[End(changes)..]
  {
    EndIsLast(changes);
  }
}
