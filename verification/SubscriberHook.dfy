/** The document-subscribers hook: state tagged with the scope (workspace and document) it
    belongs to, written by reads and mutations that settle at any later time.  One step is the
    code that runs between two awaits. */
module SubscriberHook {
  import opened Results

  /** The empty key stands for "no document". */
  type Key = string

  /** An optimistic edit of the shown ids. */
  datatype Edit = Edit(agent: string, subscribe: bool)

  datatype Tagged<T> = Tagged(key: Key, value: T)

  datatype Read = Read(key: Key, seqNo: nat)

  /** A mutation is waiting for the server, or for the reload it started (if it started one). */
  datatype Stage = Calling | Reloading(seqNo: Option<nat>)

  datatype Mutation = Mutation(key: Key, agent: string, stage: Stage)

  /** The hook's state and refs, with the reads and mutations that are under way. */
  datatype Hook = Hook(
    scope: Key, result: Option<Tagged<seq<string>>>, error: Tagged<string>, busy: Tagged<set<string>>,
    readSeq: nat, pending: set<Read>, mutations: map<nat, Mutation>)

  datatype Step =
    | Switch(key: Key)                                              // a render under another scope
    | Reload(key: Key)                                              // reload() captured under `key`
    | ReadDone(read: Read, response: Option<seq<string>>, message: string)  // None: the request failed
    | Mutate(id: nat, key: Key, edit: Edit, seenBusy: bool)         // mutate() captured under `key`
    | Settled(id: nat, failure: Option<string>)                     // the server answered
    | Done(id: nat)                                                 // its reload came back

  // ---- what is shown ----

  function Shown(h: Hook): Option<seq<string>> {
    if h.result.Some? && h.result.value.key == h.scope then Some(h.result.value.value) else None
  }

  function ErrorOf(h: Hook, key: Key): string {
    if h.error.key == key then h.error.value else ""
  }

  function BusyOf(h: Hook, key: Key): set<string> {
    if h.busy.key == key then h.busy.value else {}
  }

  // ---- the steps ----

  function Without(ids: seq<string>, agent: string): seq<string> {
    if |ids| == 0 then []
    else if ids[0] == agent then Without(ids[1..], agent)
    else [ids[0]] + Without(ids[1..], agent)
  }

  /** Keeping the first occurrence of each id. */
  function Distinct(ids: seq<string>, seen: set<string>): seq<string> {
    if |ids| == 0 then []
    else if ids[0] in seen then Distinct(ids[1..], seen)
    else [ids[0]] + Distinct(ids[1..], seen + {ids[0]})
  }

  function Edited(ids: seq<string>, edit: Edit): seq<string> {
    if edit.subscribe then Distinct(ids + [edit.agent], {}) else Without(ids, edit.agent)
  }

  function AllEdited(ids: seq<string>, edits: seq<Edit>): seq<string> {
    if |edits| == 0 then ids else Edited(AllEdited(ids, edits[..|edits| - 1]), edits[|edits| - 1])
  }

  function StartRead(h: Hook, key: Key): (Hook, Option<nat>) {
    if key == "" || key != h.scope then (h, None)
    else
      var seqNo := h.readSeq + 1;
      (h.(readSeq := seqNo, pending := h.pending + {Read(key, seqNo)}), Some(seqNo))
  }

  predicate Fresh(h: Hook, read: Read) {
    h.readSeq == read.seqNo && read.key == h.scope
  }

  predicate Enabled(h: Hook, step: Step) {
    match step
    case Switch(_) => true
    case Reload(_) => true
    case ReadDone(read, _, _) => read in h.pending
    case Mutate(id, _, _, _) => id !in h.mutations
    case Settled(id, _) => id in h.mutations && h.mutations[id].stage.Calling?
    case Done(id) =>
      id in h.mutations && h.mutations[id].stage.Reloading?
      && (h.mutations[id].stage.seqNo.Some? ==> Read(h.mutations[id].key, h.mutations[id].stage.seqNo.value) !in h.pending)
  }

  function Next(h: Hook, step: Step): Hook
    requires Enabled(h, step)
  {
    match step
    case Switch(key) => h.(scope := key)
    case Reload(key) => StartRead(h, key).0
    case ReadDone(read, response, message) =>
      var back := h.(pending := h.pending - {read});
      if !Fresh(h, read) then back
      else if response.Some? then
        back.(result := Some(Tagged(read.key, response.value)),
              error := if h.error.key == read.key && h.error.value != "" then Tagged(read.key, "") else h.error)
      else back.(error := Tagged(read.key, message))
    case Mutate(id, key, edit, seenBusy) =>
      if key == "" || seenBusy then h
      else h.(
        busy := Tagged(key, (if h.busy.key == key then h.busy.value else {}) + {edit.agent}),
        result := if h.result.Some? && h.result.value.key == key then
                    Some(Tagged(key, Edited(h.result.value.value, edit)))
                  else h.result,
        mutations := h.mutations[id := Mutation(key, edit.agent, Calling)])
    case Settled(id, failure) =>
      var m := h.mutations[id];
      var told := if failure.Some? && h.scope == m.key then h.(error := Tagged(m.key, failure.value)) else h;
      var (after, seqNo) := StartRead(told, m.key);
      after.(mutations := after.mutations[id := m.(stage := Reloading(seqNo))])
    case Done(id) =>
      var m := h.mutations[id];
      h.(mutations := h.mutations - {id},
         busy := if h.busy.key == m.key && m.agent in h.busy.value then Tagged(m.key, h.busy.value - {m.agent}) else h.busy)
  }

  // ---- runs ----

  /** The hook as it is first rendered, under any scope. */
  predicate Initial(h: Hook) {
    h.result.None? && h.readSeq == 0 && h.pending == {} && h.mutations == map[]
  }

  ghost predicate IsRun(h: Hook, steps: seq<Step>)
    decreases |steps|, 0
  {
    |steps| == 0
    || (IsRun(h, steps[..|steps| - 1]) && Enabled(Final(h, steps[..|steps| - 1]), steps[|steps| - 1]))
  }

  ghost function Final(h: Hook, steps: seq<Step>): Hook
    requires IsRun(h, steps)
    decreases |steps|, 1
  {
    if |steps| == 0 then h else Next(Final(h, steps[..|steps| - 1]), steps[|steps| - 1])
  }

  lemma {:induction false} PrefixIsRun(h: Hook, steps: seq<Step>, i: nat)
    requires IsRun(h, steps) && i <= |steps|
    ensures IsRun(h, steps[..i])
    decreases |steps|
  {
    if i < |steps| {
      PrefixIsRun(h, steps[..|steps| - 1], i);
      assert steps[..|steps| - 1][..i] == steps[..i];
    } else {
      assert steps[..i] == steps;
    }
  }

  /** The hook before the step at an index. */
  ghost function At(h: Hook, steps: seq<Step>, i: nat): Hook
    requires IsRun(h, steps) && i <= |steps|
  {
    PrefixIsRun(h, steps, i);
    Final(h, steps[..i])
  }

  lemma AtNext(h: Hook, steps: seq<Step>, i: nat)
    requires IsRun(h, steps) && i < |steps|
    ensures Enabled(At(h, steps, i), steps[i]) && At(h, steps, i + 1) == Next(At(h, steps, i), steps[i])
  {
    hide Enabled, Next;
    PrefixIsRun(h, steps, i + 1);
    assert steps[..i + 1][..i] == steps[..i];
  }

  lemma AtPrefix(h: Hook, steps: seq<Step>, n: nat, i: nat)
    requires IsRun(h, steps) && i <= n <= |steps|
    ensures IsRun(h, steps[..n]) && At(h, steps[..n], i) == At(h, steps, i)
  {
    PrefixIsRun(h, steps, n);
    assert steps[..n][..i] == steps[..i];
  }

  lemma AtEnds(h: Hook, steps: seq<Step>)
    requires IsRun(h, steps)
    ensures At(h, steps, |steps|) == Final(h, steps) && At(h, steps, 0) == h
  {
    assert steps[..|steps|] == steps && steps[..0] == [];
  }

  /** The read that a step starts: a reload of the scope in view, by itself or once a mutation of
      that scope has settled. */
  function Starts(h: Hook, step: Step): Option<Read>
    requires Enabled(h, step)
  {
    match step
    case Reload(key) => ReadOf(h, key)
    case Settled(id, _) => ReadOf(h, h.mutations[id].key)
    case _ => None
  }

  function ReadOf(h: Hook, key: Key): Option<Read> {
    if key != "" && key == h.scope then Some(Read(key, h.readSeq + 1)) else None
  }

  ghost function Started(h: Hook, steps: seq<Step>, i: nat): Option<Read>
    requires IsRun(h, steps) && i < |steps|
  {
    AtNext(h, steps, i);
    Starts(At(h, steps, i), steps[i])
  }

  /** The read started by step j is, before step i, still the newest started, and its scope is the
      one in view. */
  ghost predicate Current(h: Hook, steps: seq<Step>, j: nat, i: nat)
    requires IsRun(h, steps) && i < |steps|
  {
    j < i && Started(h, steps, j).Some? && At(h, steps, i).scope == Started(h, steps, j).value.key
    && forall k: nat | j < k < i :: Started(h, steps, k).None?
  }

  /** Step i brings the response to the read that step j started, while it is current. */
  ghost predicate Lands(h: Hook, steps: seq<Step>, j: nat, i: nat)
    requires IsRun(h, steps)
  {
    i < |steps| && steps[i].ReadDone? && steps[i].response.Some? && Current(h, steps, j, i)
    && Started(h, steps, j) == Some(steps[i].read)
  }

  // ---- when a read lands ----

  ghost predicate ReadsNumbered(h: Hook) {
    forall read | read in h.pending :: read.seqNo <= h.readSeq
  }

  lemma StepNumbers(h: Hook, step: Step)
    requires Enabled(h, step) && ReadsNumbered(h)
    ensures ReadsNumbered(Next(h, step))
    ensures Next(h, step).readSeq == h.readSeq + if Starts(h, step).Some? then 1 else 0
    ensures Starts(h, step).Some? ==> Starts(h, step).value.seqNo == h.readSeq + 1
    ensures forall read | read in Next(h, step).pending :: read in h.pending || Starts(h, step) == Some(read)
  {
    hide Edited;
  }

  lemma {:induction false} AtNumbered(h: Hook, steps: seq<Step>, i: nat)
    requires Initial(h) && IsRun(h, steps) && i <= |steps|
    ensures ReadsNumbered(At(h, steps, i))
    decreases i
  {
    if i == 0 {
      AtEnds(h, steps);
    } else {
      hide At, Next, Enabled, ReadsNumbered;
      AtNumbered(h, steps, i - 1);
      AtNext(h, steps, i - 1);
      StepNumbers(At(h, steps, i - 1), steps[i - 1]);
    }
  }

  /** The counter moves exactly at the starts. */
  lemma {:induction false} CounterGrows(h: Hook, steps: seq<Step>, j: nat, i: nat)
    requires Initial(h) && IsRun(h, steps) && j <= i <= |steps|
    ensures At(h, steps, j).readSeq <= At(h, steps, i).readSeq
    ensures At(h, steps, j).readSeq == At(h, steps, i).readSeq <==> forall k: nat | j <= k < i :: Started(h, steps, k).None?
    decreases i
  {
    if j < i {
      hide At, Next, Enabled, ReadsNumbered, Starts;
      CounterGrows(h, steps, j, i - 1);
      AtNumbered(h, steps, i - 1);
      AtNext(h, steps, i - 1);
      StepNumbers(At(h, steps, i - 1), steps[i - 1]);
      assert (forall k: nat | j <= k < i :: Started(h, steps, k).None?)
        <==> (forall k: nat | j <= k < i - 1 :: Started(h, steps, k).None?) && Started(h, steps, i - 1).None?;
    }
  }

  /** The code's test, two numbers and two keys, says just that. */
  lemma FreshIsCurrent(h: Hook, steps: seq<Step>, j: nat, i: nat)
    requires Initial(h) && IsRun(h, steps) && i < |steps| && j < |steps|
    requires steps[i].ReadDone? && Started(h, steps, j) == Some(steps[i].read)
    ensures j < i
    ensures Fresh(At(h, steps, i), steps[i].read) <==> Current(h, steps, j, i)
  {
    hide At, Next, Starts;
    var read := steps[i].read;
    AtNext(h, steps, i);
    AtNumbered(h, steps, i);
    AtNumbered(h, steps, j);
    AtNext(h, steps, j);
    StepNumbers(At(h, steps, j), steps[j]);
    assert read in At(h, steps, i).pending;
    if i <= j { CounterGrows(h, steps, i, j); }
    CounterGrows(h, steps, j + 1, i);
  }

  /** What the answer to a read does, in every run: while the read is current, its ids are shown and
      the scope's error is cleared, or its failure becomes the scope's error; once another read was
      started after it, or its scope is out of view, nothing changes for any scope. */
  lemma ReadLandsExactlyWhenCurrent(h: Hook, steps: seq<Step>, j: nat, i: nat)
    requires Initial(h) && IsRun(h, steps) && i < |steps| && j < |steps|
    requires steps[i].ReadDone? && Started(h, steps, j) == Some(steps[i].read)
    ensures j < i
    ensures var before, after, answer := At(h, steps, i), At(h, steps, i + 1), steps[i].response;
            if !Current(h, steps, j, i) then
              after.result == before.result && after.error == before.error && after.busy == before.busy && Shown(after) == Shown(before)
            else if answer.Some? then Shown(after) == answer && ErrorOf(after, after.scope) == ""
            else Shown(after) == Shown(before) && ErrorOf(after, after.scope) == steps[i].message
  {
    hide At, Current, Starts, Started;
    FreshIsCurrent(h, steps, j, i);
    AtNext(h, steps, i);
  }

  // ---- where the ids shown come from ----

  /** The optimistic edits of a scope made from an index on. */
  function EditsSince(steps: seq<Step>, from: nat, key: Key): seq<Edit> {
    if |steps| <= from then []
    else
      var before, step := EditsSince(steps[..|steps| - 1], from, key), steps[|steps| - 1];
      if step.Mutate? && step.key == key != "" && !step.seenBusy then before + [step.edit] else before
  }

  /** Step i landed the ids stored now, and no read started later ever landed. */
  ghost predicate Source(h: Hook, steps: seq<Step>, j: nat, i: nat)
    requires IsRun(h, steps)
  {
    && Lands(h, steps, j, i)
    && Final(h, steps).result ==
       Some(Tagged(steps[i].read.key, AllEdited(steps[i].response.value, EditsSince(steps, i + 1, steps[i].read.key))))
    && forall j': nat, i': nat | Lands(h, steps, j', i') :: j' <= j
  }

  /** Every read under way was started, and the stored ids have a source. */
  ghost predicate Traced(h: Hook, steps: seq<Step>)
    requires IsRun(h, steps)
  {
    && (forall read | read in Final(h, steps).pending :: exists j: nat :: j < |steps| && Started(h, steps, j) == Some(read))
    && (if Final(h, steps).result.Some? then exists j: nat, i: nat :: Source(h, steps, j, i) else forall j: nat, i: nat :: !Lands(h, steps, j, i))
  }

  lemma LandsInPrefix(h: Hook, steps: seq<Step>, n: nat, j: nat, i: nat)
    requires i < n <= |steps| && IsRun(h, steps) && IsRun(h, steps[..n])
    ensures Lands(h, steps[..n], j, i) <==> Lands(h, steps, j, i)
  {
    hide At, Starts, Next, Enabled;
    AtPrefix(h, steps, n, i);
    forall k: nat | k <= i ensures Started(h, steps[..n], k) == Started(h, steps, k) { StartedInPrefix(h, steps, n, k); }
  }

  lemma StartedInPrefix(h: Hook, steps: seq<Step>, n: nat, k: nat)
    requires k < n <= |steps| && IsRun(h, steps) && IsRun(h, steps[..n])
    ensures Started(h, steps[..n], k) == Started(h, steps, k)
  {
    hide Starts, Next, Enabled;
    AtPrefix(h, steps, n, k);
    AtNext(h, steps, k);
    AtNext(h, steps[..n], k);
  }

  lemma EditsEmpty(steps: seq<Step>, key: Key)
    ensures EditsSince(steps, |steps|, key) == []
  {
  }

  lemma EditedOnceMore(ids: seq<string>, edits: seq<Edit>, edit: Edit)
    ensures AllEdited(ids, edits + [edit]) == Edited(AllEdited(ids, edits), edit)
  {
    assert (edits + [edit])[..|edits|] == edits;
  }

  /** A step that lands no read keeps the source, with the scope's own edit on top. */
  lemma SourceStays(h: Hook, steps: seq<Step>, n: nat, j: nat, i: nat)
    requires n == |steps| - 1 && IsRun(h, steps) && Source(h, steps[..n], j, i)
    requires forall j': nat :: !Lands(h, steps, j', n)
    requires Final(h, steps).result == Rewritten(Final(h, steps[..n]).result, steps[n])
    ensures Source(h, steps, j, i) && Final(h, steps).result.Some?
  {
    hide At, Starts, Next, Enabled, Edited, AllEdited, Final, Lands;
    LandsBefore(h, steps[..n], j, i);
    LandsInPrefix(h, steps, n, j, i);
    assert steps[..n][i] == steps[i];
    var key, response := steps[i].read.key, steps[i].response.value;
    var edits := EditsSince(steps[..n], i + 1, key);
    if steps[n].Mutate? && steps[n].key == key != "" && !steps[n].seenBusy {
      EditedOnceMore(response, edits, steps[n].edit);
    }
    forall j': nat, i': nat | Lands(h, steps, j', i') ensures j' <= j {
      LandsBefore(h, steps, j', i');
      assert i' != n;
      LandsInPrefix(h, steps, n, j', i');
    }
  }

  lemma LandsBefore(h: Hook, steps: seq<Step>, j: nat, i: nat)
    requires IsRun(h, steps) && Lands(h, steps, j, i)
    ensures j < i < |steps| && steps[i].ReadDone? && steps[i].response.Some? && Started(h, steps, j).Some?
  {
    hide At, Starts, Next, Enabled;
  }

  lemma LandsAlone(h: Hook, steps: seq<Step>, j: nat, i: nat, k: nat)
    requires IsRun(h, steps) && Lands(h, steps, j, i) && k < i && Started(h, steps, k).Some?
    ensures k <= j
  {
    hide At, Starts, Next, Enabled, Started;
  }

  /** The stored ids after a step that lands no read. */
  function Rewritten(result: Option<Tagged<seq<string>>>, step: Step): Option<Tagged<seq<string>>> {
    if step.Mutate? && step.key != "" && !step.seenBusy && result.Some? && result.value.key == step.key
    then Some(Tagged(step.key, Edited(result.value.value, step.edit))) else result
  }

  lemma StepRewrites(h: Hook, step: Step)
    requires Enabled(h, step)
    ensures !(step.ReadDone? && step.response.Some? && Fresh(h, step.read)) ==> Next(h, step).result == Rewritten(h.result, step)
    ensures step.ReadDone? && step.response.Some? && Fresh(h, step.read) ==>
              Next(h, step).result == Some(Tagged(step.read.key, step.response.value))
  {
    hide Edited;
  }

  /** A landing read is the newest source. */
  lemma LandingIsSource(h: Hook, steps: seq<Step>, j: nat)
    requires |steps| > 0 && IsRun(h, steps) && Lands(h, steps, j, |steps| - 1)
    requires Final(h, steps).result == Some(Tagged(steps[|steps| - 1].read.key, steps[|steps| - 1].response.value))
    ensures Source(h, steps, j, |steps| - 1) && Final(h, steps).result.Some?
  {
    hide At, Starts, Next, Enabled, Final;
    var n := |steps| - 1;
    EditsEmpty(steps, steps[n].read.key);
    assert AllEdited(steps[n].response.value, []) == steps[n].response.value;
    forall j': nat, i': nat | Lands(h, steps, j', i') ensures j' <= j {
      LandsBefore(h, steps, j', i');
      LandsAlone(h, steps, j, n, j');
    }
  }

  lemma PendingStarted(h: Hook, steps: seq<Step>, read: Read)
    requires Initial(h) && |steps| > 0 && IsRun(h, steps) && Traced(h, steps[..|steps| - 1])
    requires read in Final(h, steps).pending
    ensures exists j: nat :: j < |steps| && Started(h, steps, j) == Some(read)
  {
    hide At, Starts, Next, Enabled, Final, ReadsNumbered, Source, Lands;
    var n := |steps| - 1;
    AtEnds(h, steps);
    AtEnds(h, steps[..n]);
    AtPrefix(h, steps, n, n);
    AtNext(h, steps, n);
    AtNumbered(h, steps, n);
    StepNumbers(At(h, steps, n), steps[n]);
    if read in Final(h, steps[..n]).pending {
      var j: nat :| j < n && Started(h, steps[..n], j) == Some(read);
      StartedInPrefix(h, steps, n, j);
    } else {
      assert Started(h, steps, n) == Some(read);
    }
  }

  lemma {:induction false} RunIsTraced(h: Hook, steps: seq<Step>)
    requires Initial(h) && IsRun(h, steps)
    ensures Traced(h, steps)
    decreases |steps|
  {
    if |steps| > 0 {
      hide At, Starts, Next, Enabled, Final, ReadsNumbered, Source, Rewritten, Fresh, Lands, Current;
      var n := |steps| - 1;
      RunIsTraced(h, steps[..n]);
      forall read | read in Final(h, steps).pending ensures exists j: nat :: j < |steps| && Started(h, steps, j) == Some(read) {
        PendingStarted(h, steps, read);
      }
      LastStepIsTraced(h, steps);
    }
  }

  lemma LastStepIsTraced(h: Hook, steps: seq<Step>)
    requires Initial(h) && |steps| > 0 && IsRun(h, steps) && Traced(h, steps[..|steps| - 1])
    ensures if Final(h, steps).result.Some? then exists j: nat, i: nat :: Source(h, steps, j, i)
            else forall j: nat, i: nat :: !Lands(h, steps, j, i)
  {
    hide At, Starts, Next, Enabled, Final, ReadsNumbered, Source, Rewritten, Fresh, Lands;
    var n := |steps| - 1;
    var before, step := Final(h, steps[..n]), steps[n];
    AtEnds(h, steps);
    AtEnds(h, steps[..n]);
    AtPrefix(h, steps, n, n);
    AtNext(h, steps, n);
    StepRewrites(before, step);
    if step.ReadDone? && step.response.Some? && Fresh(before, step.read) {
      var j := ReadStart(h, steps, n);
      FreshIsCurrent(h, steps, j, n);
      CurrentLands(h, steps, j, n);
      LandingIsSource(h, steps, j);
    } else {
      forall j: nat ensures !Lands(h, steps, j, n) { NotFreshNotLanding(h, steps, j, n); }
      if before.result.Some? {
        var j: nat, i: nat :| Source(h, steps[..n], j, i);
        SourceStays(h, steps, n, j, i);
      } else {
        forall j: nat, i: nat ensures !Lands(h, steps, j, i) {
          if Lands(h, steps, j, i) {
            LandsBefore(h, steps, j, i);
            LandsInPrefix(h, steps, n, j, i);
          }
        }
        RewrittenNone(step);
      }
    }
  }

  lemma RewrittenNone(step: Step)
    ensures Rewritten(None, step) == None
  {
  }

  lemma CurrentLands(h: Hook, steps: seq<Step>, j: nat, i: nat)
    requires IsRun(h, steps) && i < |steps| && steps[i].ReadDone? && steps[i].response.Some?
    requires Current(h, steps, j, i) && Started(h, steps, j) == Some(steps[i].read)
    ensures Lands(h, steps, j, i)
  {
    hide Current, Started;
  }

  lemma NotFreshNotLanding(h: Hook, steps: seq<Step>, j: nat, i: nat)
    requires Initial(h) && IsRun(h, steps) && i < |steps|
    requires !(steps[i].ReadDone? && steps[i].response.Some? && Fresh(At(h, steps, i), steps[i].read))
    ensures !Lands(h, steps, j, i)
  {
    hide At, Started, Fresh;
    if Lands(h, steps, j, i) { FreshIsCurrent(h, steps, j, i); }
  }

  /** A read that is answered was started before. */
  lemma ReadStart(h: Hook, steps: seq<Step>, n: nat) returns (j: nat)
    requires Initial(h) && n == |steps| - 1 && IsRun(h, steps) && Traced(h, steps[..n]) && steps[n].ReadDone?
    ensures j < n && Started(h, steps, j) == Some(steps[n].read)
  {
    hide At, Starts, Next, Final, Source, Lands;
    AtEnds(h, steps[..n]);
    AtPrefix(h, steps, n, n);
    AtNext(h, steps, n);
    j :| j < n && Started(h, steps[..n], j) == Some(steps[n].read);
    StartedInPrefix(h, steps, n, j);
  }

  /** In every interleaving of scope switches, overlapping reads and mutations: if ids are shown,
      then some step i brought the response to a read that step j had started for this very scope
      and that was still current; what is shown is that response with exactly the edits on top that
      were made in this scope since; and no read started after step j has ever landed. */
  lemma ShownIdsBelongToTheScope(h: Hook, steps: seq<Step>)
    requires Initial(h) && IsRun(h, steps) && Shown(Final(h, steps)).Some?
    ensures exists j: nat, i: nat ::
              && Lands(h, steps, j, i)
              && steps[i].read.key == Final(h, steps).scope
              && Shown(Final(h, steps)) == Some(AllEdited(steps[i].response.value, EditsSince(steps, i + 1, Final(h, steps).scope)))
              && forall j': nat, i': nat | Lands(h, steps, j', i') :: j' <= j
  {
    hide At, Starts, Next, Enabled, Final, Lands, AllEdited;
    RunIsTraced(h, steps);
    var j: nat, i: nat :| Source(h, steps, j, i);
    LandsBefore(h, steps, j, i);
  }

  /** Ids change only when a read lands or an edit of their own scope is made. */
  lemma OnlyTwoWriters(h: Hook, step: Step)
    requires Enabled(h, step) && Next(h, step).result != h.result
    ensures (step.ReadDone? && step.response.Some? && Fresh(h, step.read)
             && Next(h, step).result == Some(Tagged(h.scope, step.response.value)))
            || (step.Mutate? && h.result.Some? && h.result.value.key == step.key
                && Next(h, step).result == Some(Tagged(step.key, Edited(h.result.value.value, step.edit))))
  {
    hide Edited;
  }

  // ---- late settling ----

  /** The scope a settling step was started under. */
  function ScopeOf(h: Hook, step: Step): Key
    requires Enabled(h, step) && (step.ReadDone? || step.Settled? || step.Done?)
  {
    match step
    case ReadDone(read, _, _) => read.key
    case Settled(id, _) => h.mutations[id].key
    case Done(id) => h.mutations[id].key
  }

  /** Whatever settles after its scope has been left changes nothing of any other scope: not
      its ids, not its error, not its busy markers, and not its pending reads, which can still
      land.  Of its own scope it can only clear its own busy marker. */
  lemma LateSettlingTouchesNothing(h: Hook, step: Step, other: Key)
    requires Enabled(h, step) && (step.ReadDone? || step.Settled? || step.Done?)
    requires ScopeOf(h, step) != h.scope && other != ScopeOf(h, step)
    ensures var after := Next(h, step);
            && after.scope == h.scope && after.result == h.result && after.error == h.error && after.readSeq == h.readSeq
            && BusyOf(after, other) == BusyOf(h, other)
            && (forall read: Read | read.key == other :: read in after.pending <==> read in h.pending)
            && (forall read: Read | read.key == other :: Fresh(after, read) <==> Fresh(h, read))
            && BusyOf(after, ScopeOf(h, step)) >= BusyOf(h, ScopeOf(h, step)) - (if step.Done? then {h.mutations[step.id].agent} else {})
  {
  }

  /** A settling mutation of the scope in view leaves the ids and busy markers of every other
      scope alone too; only the single error slot is shared. */
  lemma SettlingKeepsOtherIds(h: Hook, step: Step, other: Key)
    requires Enabled(h, step) && (step.Settled? || step.Done?) && other != ScopeOf(h, step)
    ensures var after := Next(h, step);
            after.result == h.result && BusyOf(after, other) == BusyOf(h, other)
            && (forall read: Read | read.key == other :: read in after.pending <==> read in h.pending)
  {
  }

  /** Starting a mutation is not as careful: through a callback captured under a scope that has
      been left it drops the busy markers of the scope in view.  It keeps them exactly when it
      does nothing, or none were there. */
  lemma StaleMutateDropsBusy(h: Hook, step: Step)
    requires Enabled(h, step) && step.Mutate? && step.key != h.scope
    ensures BusyOf(Next(h, step), h.scope) == BusyOf(h, h.scope) <==>
            step.key == "" || step.seenBusy || BusyOf(h, h.scope) == {}
  {
    hide Edited;
  }

  // ---- a run in which markers are lost ----

  function FirstRender(): Hook {
    Hook("a", None, Tagged("", ""), Tagged("", {}), 0, {}, map[])
  }

  /** In b a mutation is under way when a callback kept from a is used. */
  function StaleCallback(): seq<Step> {
    [Switch("b"), Mutate(1, "b", Edit("x", true), false), Mutate(2, "a", Edit("y", true), false)]
  }

  /** A reachable run in which the scope in view loses its busy marker. */
  lemma StaleCallbackLosesMarker()
    ensures Initial(FirstRender()) && IsRun(FirstRender(), StaleCallback())
    ensures BusyOf(At(FirstRender(), StaleCallback(), 2), "b") == {"x"}
    ensures BusyOf(At(FirstRender(), StaleCallback(), 3), "b") == {}
    ensures At(FirstRender(), StaleCallback(), 3).scope == "b"
  {
    var h, steps := FirstRender(), StaleCallback();
    OneMoreStep(h, [], steps[0]);
    OneMoreStep(h, [steps[0]], steps[1]);
    OneMoreStep(h, [steps[0], steps[1]], steps[2]);
    assert steps[..2] == [steps[0], steps[1]] && steps[..3] == steps == [steps[0], steps[1]] + [steps[2]];
  }

  lemma OneMoreStep(h: Hook, steps: seq<Step>, step: Step)
    requires IsRun(h, steps) && Enabled(Final(h, steps), step)
    ensures IsRun(h, steps + [step]) && Final(h, steps + [step]) == Next(Final(h, steps), step)
  {
    hide Next, Enabled;
    assert (steps + [step])[..|steps|] == steps;
  }
}
