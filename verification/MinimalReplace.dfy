/** The smallest single replacement that turns one text into another. */
module MinimalReplace {
  import opened TextMirror
  import opened SharedText

  /** computeReplace trims the common prefix, then the common suffix of what is left. */
  method ComputeReplace(before: Text, after: Text) returns (op: Change)
    ensures op.from <= op.to <= |before| && Replace(before, op) == after
    ensures forall other: Change | other.from <= other.to <= |before| && Replace(before, other) == after ::
              other.to - other.from >= op.to - op.from && |other.insert| >= |op.insert|
    ensures forall i | 0 <= i < op.from :: i < |after| && before[i] == after[i]
    ensures op.from == |before| || op.from == |after| || before[op.from] != after[op.from]
  {
    var start := 0;
    while start < |before| && start < |after| && before[start] == after[start]
      invariant start <= |before| && start <= |after| && before[..start] == after[..start]
    {
      start := start + 1;
    }
    var beforeEnd, afterEnd := |before|, |after|;
    while beforeEnd > start && afterEnd > start && before[beforeEnd - 1] == after[afterEnd - 1]
      invariant start <= beforeEnd <= |before| && start <= afterEnd <= |after|
      invariant |before| - beforeEnd == |after| - afterEnd && before[beforeEnd..] == after[afterEnd..]
    {
      beforeEnd, afterEnd := beforeEnd - 1, afterEnd - 1;
    }
    op := Change(start, beforeEnd, after[start..afterEnd]);
    forall other: Change | other.from <= other.to <= |before| && Replace(before, other) == after
      ensures other.to - other.from >= op.to - op.from && |other.insert| >= |op.insert|
    {
      NoSmallerReplace(before, after, op, afterEnd, other);
    }
  }

  /** Any replacement with the same effect reaches at least as far on both sides. */
  lemma NoSmallerReplace(before: Text, after: Text, op: Change, afterEnd: nat, other: Change)
    requires op.from <= op.to <= |before| && op.from <= afterEnd <= |after|
    requires op.insert == after[op.from..afterEnd] && |before| - op.to == |after| - afterEnd
    requires op.from == |before| || op.from == |after| || before[op.from] != after[op.from]
    requires op.to == op.from || afterEnd == op.from || before[op.to - 1] != after[afterEnd - 1]
    requires other.from <= other.to <= |before| && Replace(before, other) == after
    ensures other.to - other.from >= op.to - op.from && |other.insert| >= |op.insert|
  {
    OutsideStays(before, after, other);
  }

  /** A replacement keeps everything outside its range, the tail shifted. */
  lemma OutsideStays(before: Text, after: Text, op: Change)
    requires op.from <= op.to <= |before| && Replace(before, op) == after
    ensures |after| == |before| - (op.to - op.from) + |op.insert|
    ensures forall i | 0 <= i < op.from :: i < |after| && after[i] == before[i]
    ensures forall i | op.to <= i < |before| ::
              0 <= i + |after| - |before| < |after| && after[i + |after| - |before|] == before[i]
  {
  }

  // ---- on the shared text ----

  /** The operation on the shared text: the replacement, on the old text with every pair cut that
      its ends cut. */
  method ApplyReplaceToYText(ytext: YText, op: Change)
    requires op.from <= op.to <= |ytext.content|
    modifies ytext
    ensures ytext.content == Replace(CutAround(old(ytext.content), op), op)
  {
    var deleteLength := op.to - op.from;
    ghost var cut := CutAround(ytext.content, op);
    if deleteLength > 0 {
      ytext.Delete(op.from, deleteLength);
      AfterDelete(cut, op.from, deleteLength, ytext.content);
    }
    if |op.insert| > 0 {
      ytext.Insert(op.from, op.insert);
    }
  }

  /** It makes the replacement exactly when neither end is in the middle of a surrogate pair. */
  lemma ReplacesExactlyWhen(text: Text, op: Change)
    requires op.from <= op.to <= |text|
    ensures Replace(CutAround(text, op), op) == Replace(text, op) <==> KeepsPairs(text, op)
  {
    hide CutAround;
    var cut := CutAround(text, op);
    if KeepsPairs(text, op) {
      WholeOutside(text, op);
      ReplaceSame(text, cut, op);
    } else {
      var p := LostOutside(text, op);
      ReplaceDiffers(text, cut, op, p);
    }
  }

  lemma WholeOutside(text: Text, op: Change)
    requires op.from <= op.to <= |text| && KeepsPairs(text, op)
    ensures forall p | 0 <= p < |text| && (p < op.from || p >= op.to) :: CutAround(text, op)[p] == text[p]
  {
  }

  lemma LostOutside(text: Text, op: Change) returns (p: nat)
    requires op.from <= op.to <= |text| && !KeepsPairs(text, op)
    ensures p < |text| && (p < op.from || p >= op.to) && CutAround(text, op)[p] != text[p]
  {
    p := if Cuts(text, op.from) && (op.from < op.to || |op.insert| > 0) then op.from - 1 else op.to;
  }

  lemma ReplaceSame(text: Text, other: Text, op: Change)
    requires op.from <= op.to <= |text| == |other|
    requires forall p | 0 <= p < |text| && (p < op.from || p >= op.to) :: other[p] == text[p]
    ensures Replace(other, op) == Replace(text, op)
  {
    assert other[..op.from] == text[..op.from] && other[op.to..] == text[op.to..];
  }

  lemma ReplaceDiffers(text: Text, other: Text, op: Change, p: nat)
    requires op.from <= op.to <= |text| == |other| && p < |text| && (p < op.from || p >= op.to) && other[p] != text[p]
    ensures Replace(other, op) != Replace(text, op)
  {
    var q := if p < op.from then p else p - op.to + op.from + |op.insert|;
    assert Replace(other, op)[q] == other[p] && Replace(text, op)[q] == text[p];
  }

  /** Two faces that share their first half: the smallest replacement starts between the halves, and
      the shared text ends up with neither face. */
  lemma SharedHalfIsLost()
    ensures var before: Text, after: Text := [0xD83D, 0xDE00], [0xD83D, 0xDE01];
            var op := Change(1, 2, [0xDE01]);
            Replace(before, op) == after && !KeepsPairs(before, op)
            && Replace(CutAround(before, op), op) == [REPLACEMENT, 0xDE01]
  {
  }
}
