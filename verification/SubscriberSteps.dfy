/** Which steps a run of the hook can take next: nothing is left out of the interleavings. */
module SubscriberSteps {
  import opened Results
  import opened SubscriberHook

  /** Step j started the read, and no answer has come since. */
  ghost predicate Unanswered(h: Hook, steps: seq<Step>, read: Read, j: nat)
    requires IsRun(h, steps)
  {
    j < |steps| && Started(h, steps, j) == Some(read)
    && forall i | j < i < |steps| :: !(steps[i].ReadDone? && steps[i].read == read)
  }

  /** A read can be answered exactly while it is unanswered. */
  lemma {:induction false} AnswerExactlyWhen(h: Hook, steps: seq<Step>, read: Read)
    requires Initial(h) && IsRun(h, steps)
    ensures read in Final(h, steps).pending <==> exists j: nat :: Unanswered(h, steps, read, j)
  {
    if |steps| == 0 {
    } else {
      hide Next, Enabled, Starts, Unanswered, Final, At, Started;
      var n := |steps| - 1;
      AnswerExactlyWhen(h, steps[..n], read);
      LastPending(h, steps, read);
      UnansweredOneMore(h, steps, read, n);
      UnansweredIsEarlier(h, steps[..n], read);
      UnansweredIsEarlier(h, steps, read);
      forall j: nat | j < n
        ensures Unanswered(h, steps, read, j) <==> Unanswered(h, steps[..n], read, j) && !(steps[n].ReadDone? && steps[n].read == read)
      {
        UnansweredOneMore(h, steps, read, j);
      }
      if read in Final(h, steps).pending && Started(h, steps, n) != Some(read) {
        var j: nat :| Unanswered(h, steps[..n], read, j);
        assert Unanswered(h, steps, read, j);
      }
    }
  }

  lemma UnansweredIsEarlier(h: Hook, steps: seq<Step>, read: Read)
    requires IsRun(h, steps)
    ensures forall j: nat | Unanswered(h, steps, read, j) :: j < |steps|
  {
    hide Started;
  }

  lemma LastPending(h: Hook, steps: seq<Step>, read: Read)
    requires |steps| > 0 && IsRun(h, steps)
    ensures var n := |steps| - 1;
            read in Final(h, steps).pending <==>
            Started(h, steps, n) == Some(read) || (read in Final(h, steps[..n]).pending && !(steps[n].ReadDone? && steps[n].read == read))
  {
    var n := |steps| - 1;
    AtEnds(h, steps);
    AtEnds(h, steps[..n]);
    AtPrefix(h, steps, n, n);
    AtNext(h, steps, n);
    PendingAfter(At(h, steps, n), steps[n], read);
  }

  lemma PendingAfter(h: Hook, step: Step, read: Read)
    requires Enabled(h, step)
    ensures read in Next(h, step).pending <==>
            Starts(h, step) == Some(read) || (read in h.pending && !(step.ReadDone? && step.read == read))
  {
    hide Edited;
  }

  lemma UnansweredOneMore(h: Hook, steps: seq<Step>, read: Read, j: nat)
    requires |steps| > 0 && IsRun(h, steps)
    ensures var n := |steps| - 1;
            if j < n then Unanswered(h, steps, read, j) <==> Unanswered(h, steps[..n], read, j) && !(steps[n].ReadDone? && steps[n].read == read)
            else Unanswered(h, steps, read, j) <==> j == n && Started(h, steps, n) == Some(read)
  {
    hide Started;
    var n := |steps| - 1;
    if j < n { StartedInPrefix(h, steps, n, j); }
  }

  // ---- mutations ----

  /** Step j began the mutation, and it has not come to its end since. */
  ghost predicate UnderWay(steps: seq<Step>, id: nat, j: nat) {
    j < |steps| && steps[j].Mutate? && steps[j].id == id && steps[j].key != "" && !steps[j].seenBusy
    && forall i | j < i < |steps| :: steps[i] != Done(id)
  }

  /** The server has answered the mutation begun at step j. */
  ghost predicate AnsweredSince(steps: seq<Step>, id: nat, j: nat) {
    exists k :: j < k < |steps| && steps[k].Settled? && steps[k].id == id
  }

  ghost predicate Tracked(h: Hook, steps: seq<Step>, id: nat)
    requires IsRun(h, steps)
  {
    var mutations := Final(h, steps).mutations;
    && (id in mutations <==> exists j: nat :: UnderWay(steps, id, j))
    && (forall j: nat | UnderWay(steps, id, j) :: id in mutations && mutations[id].key == steps[j].key
                                                  && mutations[id].agent == steps[j].edit.agent
                                                  && (mutations[id].stage.Calling? <==> !AnsweredSince(steps, id, j)))
  }

  /** A mutation is under way exactly from the step that began it to its end, and waits for the server
      exactly until it has answered. */
  lemma {:induction false} MutationsTracked(h: Hook, steps: seq<Step>, id: nat)
    requires Initial(h) && IsRun(h, steps)
    ensures Tracked(h, steps, id)
  {
    if |steps| > 0 {
      hide Next, Enabled, Starts, Final, Tracked;
      MutationsTracked(h, steps[..|steps| - 1], id);
      StepTracked(h, steps, id);
    }
  }

  lemma StepTracked(h: Hook, steps: seq<Step>, id: nat)
    requires |steps| > 0 && IsRun(h, steps) && Tracked(h, steps[..|steps| - 1], id)
    ensures Tracked(h, steps, id)
  {
    hide UnderWay, AnsweredSince, IsRun, Next, Enabled;
    var n := |steps| - 1;
    var init, last := steps[..n], steps[n];
    FinalStep(h, steps);
    MutationsAfter(Final(h, init), last, id);
    forall j: nat
      ensures UnderWay(steps, id, j) <==> (UnderWay(init, id, j) && last != Done(id)) || (j == n && Begins(last, id))
      ensures j < n ==> (AnsweredSince(steps, id, j) <==> AnsweredSince(init, id, j) || (last.Settled? && last.id == id))
      ensures j == n ==> !AnsweredSince(steps, id, j)
      ensures UnderWay(init, id, j) ==> j < n && init[j] == steps[j]
    {
      OneMore(steps, id, j);
    }
  }

  predicate Begins(step: Step, id: nat) {
    step.Mutate? && step.id == id && step.key != "" && !step.seenBusy
  }

  lemma FinalStep(h: Hook, steps: seq<Step>)
    requires |steps| > 0 && IsRun(h, steps)
    ensures IsRun(h, steps[..|steps| - 1]) && Enabled(Final(h, steps[..|steps| - 1]), steps[|steps| - 1])
    ensures Final(h, steps) == Next(Final(h, steps[..|steps| - 1]), steps[|steps| - 1])
  {
  }

  lemma OneMore(steps: seq<Step>, id: nat, j: nat)
    requires |steps| > 0
    ensures var n := |steps| - 1;
            var init, last := steps[..n], steps[n];
            && (UnderWay(steps, id, j) <==> (UnderWay(init, id, j) && last != Done(id)) || (j == n && Begins(last, id)))
            && (j < n ==> (AnsweredSince(steps, id, j) <==> AnsweredSince(init, id, j) || (last.Settled? && last.id == id)))
            && (j == n ==> !AnsweredSince(steps, id, j))
            && (UnderWay(init, id, j) ==> j < n && init[j] == steps[j])
  {
    var init := steps[..|steps| - 1];
    if AnsweredSince(init, id, j) {
      var k :| j < k < |init| && init[k].Settled? && init[k].id == id;
      assert steps[k].Settled? && steps[k].id == id;
    }
  }

  lemma MutationsAfter(h: Hook, step: Step, id: nat)
    requires Enabled(h, step)
    ensures var after := Next(h, step).mutations;
            && (id in after <==> (id in h.mutations && step != Done(id)) || Begins(step, id))
            && (Begins(step, id) ==> id !in h.mutations && after[id] == Mutation(step.key, step.edit.agent, Calling))
            && (id in h.mutations && step != Done(id) ==>
                  after[id].key == h.mutations[id].key && after[id].agent == h.mutations[id].agent
                  && (after[id].stage.Calling? <==> h.mutations[id].stage.Calling? && !(step.Settled? && step.id == id)))
  {
    hide Edited;
  }

  // ---- the end of a mutation ----

  function SeqNo(read: Option<Read>): Option<nat> {
    if read.Some? then Some(read.value.seqNo) else None
  }

  ghost predicate SettledAt(steps: seq<Step>, id: nat, j: nat, k: nat) {
    UnderWay(steps, id, j) && j < k < |steps| && steps[k].Settled? && steps[k].id == id
  }

  /** An answered mutation waits for the read that its answer has started, if it has started one. */
  ghost predicate Reloads(h: Hook, steps: seq<Step>, id: nat)
    requires IsRun(h, steps)
  {
    forall j: nat, k: nat | SettledAt(steps, id, j, k) ::
      id in Final(h, steps).mutations && Final(h, steps).mutations[id].stage == Reloading(SeqNo(Started(h, steps, k)))
  }

  lemma {:induction false} RunReloads(h: Hook, steps: seq<Step>, id: nat)
    requires Initial(h) && IsRun(h, steps)
    ensures Reloads(h, steps, id)
  {
    if |steps| > 0 {
      hide Next, Enabled, Starts, Started, Final, SettledAt, UnderWay, AnsweredSince;
      var n := |steps| - 1;
      var init, last := steps[..n], steps[n];
      RunReloads(h, init, id);
      MutationsTracked(h, init, id);
      MutationsTracked(h, steps, id);
      FinalStep(h, steps);
      AtEnds(h, init);
      AtPrefix(h, steps, n, n);
      StartedLast(h, steps);
      if id in Final(h, init).mutations && last != Done(id) { StageAfter(Final(h, init), last, id); }
      forall j: nat, k: nat | SettledAt(steps, id, j, k)
        ensures id in Final(h, steps).mutations && Final(h, steps).mutations[id].stage == Reloading(SeqNo(Started(h, steps, k)))
      {
        SettledBefore(steps, id, j, k);
        if k < n { StartedInPrefix(h, steps, n, k); }
      }
    }
  }

  lemma StartedLast(h: Hook, steps: seq<Step>)
    requires |steps| > 0 && IsRun(h, steps)
    ensures IsRun(h, steps[..|steps| - 1]) && Enabled(Final(h, steps[..|steps| - 1]), steps[|steps| - 1])
    ensures Started(h, steps, |steps| - 1) == Starts(Final(h, steps[..|steps| - 1]), steps[|steps| - 1])
  {
    AtEnds(h, steps[..|steps| - 1]);
    AtPrefix(h, steps, |steps| - 1, |steps| - 1);
    AtNext(h, steps, |steps| - 1);
  }

  lemma SettledBefore(steps: seq<Step>, id: nat, j: nat, k: nat)
    requires SettledAt(steps, id, j, k)
    ensures |steps| > 0 && k < |steps| && UnderWay(steps, id, j)
    ensures var n := |steps| - 1;
            && steps[n] != Done(id) && UnderWay(steps[..n], id, j)
            && (k < n ==> SettledAt(steps[..n], id, j, k) && AnsweredSince(steps[..n], id, j))
            && (k == n ==> steps[n].Settled? && steps[n].id == id)
  {
    var init := steps[..|steps| - 1];
    if k < |init| { assert init[k].Settled? && init[k].id == id; }
  }

  lemma StageAfter(h: Hook, step: Step, id: nat)
    requires Enabled(h, step) && id in h.mutations && step != Done(id)
    ensures id in Next(h, step).mutations
    ensures Next(h, step).mutations[id].stage ==
            if step.Settled? && step.id == id then Reloading(SeqNo(Starts(h, step))) else h.mutations[id].stage
    ensures step.Settled? && step.id == id ==> h.mutations[id].stage.Calling?
  {
    hide Edited;
  }

  /** The read, if there is one, has been answered. */
  ghost predicate Answered(h: Hook, steps: seq<Step>, read: Option<Read>)
    requires IsRun(h, steps)
  {
    read.Some? ==> forall j: nat :: !Unanswered(h, steps, read.value, j)
  }

  lemma DoneExactlyWhen(h: Hook, steps: seq<Step>, id: nat)
    requires Initial(h) && IsRun(h, steps)
    ensures Enabled(Final(h, steps), Done(id)) <==>
            exists j: nat, k: nat :: SettledAt(steps, id, j, k) && Answered(h, steps, Started(h, steps, k))
  {
    hide Next, Final, Started, UnderWay, Unanswered, IsRun;
    MutationsTracked(h, steps, id);
    RunReloads(h, steps, id);
    forall j: nat, k: nat | SettledAt(steps, id, j, k)
      ensures Enabled(Final(h, steps), Done(id)) <==> Answered(h, steps, Started(h, steps, k))
    {
      AnsweredIsSince(steps, id, j, k);
      StartedKey(h, steps, id, j, k);
      if Started(h, steps, k).Some? { AnswerExactlyWhen(h, steps, Started(h, steps, k).value); }
    }
    if Enabled(Final(h, steps), Done(id)) {
      var j: nat :| UnderWay(steps, id, j);
      var k :| j < k < |steps| && steps[k].Settled? && steps[k].id == id;
      assert SettledAt(steps, id, j, k);
    }
  }

  lemma AnsweredIsSince(steps: seq<Step>, id: nat, j: nat, k: nat)
    requires SettledAt(steps, id, j, k)
    ensures AnsweredSince(steps, id, j) && UnderWay(steps, id, j)
  {
  }

  /** The read started by an answer is one of the mutation's own scope. */
  lemma StartedKey(h: Hook, steps: seq<Step>, id: nat, j: nat, k: nat)
    requires Initial(h) && IsRun(h, steps) && SettledAt(steps, id, j, k)
    ensures k < |steps| && j < |steps| && steps[j].Mutate?
    ensures Started(h, steps, k).Some? ==> Started(h, steps, k).value.key == steps[j].key
  {
    hide Next, Final, IsRun;
    PrefixIsRun(h, steps, k);
    AtNext(h, steps, k);
    assert UnderWay(steps[..k], id, j) by { assert forall i | j < i < k :: steps[..k][i] == steps[i]; }
    MutationsTracked(h, steps[..k], id);
  }

  /** What can happen next in a run: the scope can always be switched and reloaded, a mutation can
      begin under any number not in use, a read can be answered while it is unanswered, the server can
      answer a mutation once, and the mutation ends once the read started by that answer, if any, has
      been answered too. */
  lemma NextExactlyWhen(h: Hook, steps: seq<Step>, step: Step)
    requires Initial(h) && IsRun(h, steps)
    ensures Enabled(Final(h, steps), step) <==>
            match step
            case Switch(_) => true
            case Reload(_) => true
            case ReadDone(read, _, _) => exists j: nat :: Unanswered(h, steps, read, j)
            case Mutate(id, _, _, _) => forall j: nat :: !UnderWay(steps, id, j)
            case Settled(id, _) => exists j: nat :: UnderWay(steps, id, j) && !AnsweredSince(steps, id, j)
            case Done(id) => exists j: nat, k: nat :: SettledAt(steps, id, j, k) && Answered(h, steps, Started(h, steps, k))
  {
    hide Unanswered, UnderWay, AnsweredSince, Next, Final, IsRun, SettledAt, Answered, Started;
    match step
    case ReadDone(read, _, _) => AnswerExactlyWhen(h, steps, read);
    case Mutate(id, _, _, _) => MutationsTracked(h, steps, id);
    case Settled(id, _) => MutationsTracked(h, steps, id);
    case Done(id) => DoneExactlyWhen(h, steps, id);
    case _ =>
  }

  // ---- busy markers and errors ----

  /** The step marks an agent of a scope as busy. */
  ghost predicate Marks(step: Step, key: Key, agent: string) {
    step.Mutate? && step.key == key != "" && !step.seenBusy && step.edit.agent == agent
  }

  /** Step i takes the mark away: a mutation of the same agent in the same scope ends, or one of another
      scope begins. */
  ghost predicate Unmarks(h: Hook, steps: seq<Step>, i: nat, key: Key, agent: string)
    requires IsRun(h, steps)
  {
    i < |steps|
    && match steps[i]
       case Mutate(_, other, _, seenBusy) => other != "" && !seenBusy && other != key
       case Done(id) => id in At(h, steps, i).mutations && At(h, steps, i).mutations[id].key == key
                        && At(h, steps, i).mutations[id].agent == agent
       case _ => false
  }

  ghost predicate Marked(h: Hook, steps: seq<Step>, key: Key, agent: string, j: nat)
    requires IsRun(h, steps)
  {
    j < |steps| && Marks(steps[j], key, agent) && forall i: nat | j < i < |steps| :: !Unmarks(h, steps, i, key, agent)
  }

  /** An agent is shown as busy in a scope exactly since some mutation of it there, with none of its
      mutations there ended and none of another scope begun in the meantime. */
  lemma {:induction false} BusyExactlyWhen(h: Hook, steps: seq<Step>, key: Key, agent: string)
    requires IsRun(h, steps) && h.busy.value == {}
    ensures agent in BusyOf(Final(h, steps), key) <==> exists j: nat :: Marked(h, steps, key, agent, j)
  {
    if |steps| > 0 {
      hide Next, Enabled, Final, At, BusyOf, Marked, Unmarks, Marks;
      var n := |steps| - 1;
      FinalStep(h, steps);
      BusyExactlyWhen(h, steps[..n], key, agent);
      LastBusy(h, steps, key, agent);
      forall j: nat
        ensures Marked(h, steps, key, agent, j) <==>
                (Marked(h, steps[..n], key, agent, j) && !Unmarks(h, steps, n, key, agent)) || (j == n && Marks(steps[n], key, agent))
      {
        MarkedOneMore(h, steps, key, agent, j);
      }
      if agent in BusyOf(Final(h, steps), key) && !Marks(steps[n], key, agent) {
        var j: nat :| Marked(h, steps[..n], key, agent, j);
        assert Marked(h, steps, key, agent, j);
      }
      if Marks(steps[n], key, agent) { assert Marked(h, steps, key, agent, n); }
    }
  }

  lemma LastBusy(h: Hook, steps: seq<Step>, key: Key, agent: string)
    requires |steps| > 0 && IsRun(h, steps) && IsRun(h, steps[..|steps| - 1])
    ensures var n := |steps| - 1;
            agent in BusyOf(Final(h, steps), key) <==>
            Marks(steps[n], key, agent) || (agent in BusyOf(Final(h, steps[..n]), key) && !Unmarks(h, steps, n, key, agent))
  {
    hide Next, Enabled, Final;
    var n := |steps| - 1;
    AtEnds(h, steps[..n]);
    AtPrefix(h, steps, n, n);
    FinalStep(h, steps);
    BusyAfter(Final(h, steps[..n]), steps[n], key, agent);
  }

  lemma BusyAfter(h: Hook, step: Step, key: Key, agent: string)
    requires Enabled(h, step)
    ensures agent in BusyOf(Next(h, step), key) <==>
            Marks(step, key, agent)
            || (agent in BusyOf(h, key)
                && match step
                   case Mutate(_, other, _, seenBusy) => other == "" || seenBusy || other == key
                   case Done(id) => !(h.mutations[id].key == key && h.mutations[id].agent == agent)
                   case _ => true)
  {
    hide Edited;
  }

  lemma MarkedOneMore(h: Hook, steps: seq<Step>, key: Key, agent: string, j: nat)
    requires |steps| > 0 && IsRun(h, steps) && IsRun(h, steps[..|steps| - 1])
    ensures var n := |steps| - 1;
            Marked(h, steps, key, agent, j) <==>
            (Marked(h, steps[..n], key, agent, j) && !Unmarks(h, steps, n, key, agent)) || (j == n && Marks(steps[n], key, agent))
  {
    hide At;
    var n := |steps| - 1;
    forall i: nat | i < n ensures Unmarks(h, steps[..n], i, key, agent) <==> Unmarks(h, steps, i, key, agent) {
      AtPrefix(h, steps, n, i);
    }
  }

  /** What a scope's error reads after a step.  Of a mutation only a failure is told, and only while its
      scope is in view; it takes the place of any other scope's error. */
  lemma ErrorAfter(h: Hook, step: Step)
    requires Enabled(h, step) && !step.ReadDone?
    ensures step.Settled? && step.failure.Some? && h.mutations[step.id].key == h.scope ==>
              ErrorOf(Next(h, step), h.scope) == step.failure.value
              && forall other | other != h.scope :: ErrorOf(Next(h, step), other) == ""
    ensures !(step.Settled? && step.failure.Some? && h.mutations[step.id].key == h.scope) ==>
              forall key :: ErrorOf(Next(h, step), key) == ErrorOf(h, key)
  {
    hide Edited;
  }
}
