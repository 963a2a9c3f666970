/** What the optimistic edits do to the shown ids, and which agents are shown in a run. */
module SubscriberEdits {
  import opened Results
  import opened SubscriberHook

  // ---- one edit ----

  /** `after` is what stands at the given places of `ids`, in order. */
  ghost predicate Picked(ids: seq<string>, after: seq<string>, places: seq<nat>) {
    && |places| == |after|
    && (forall i, j | 0 <= i < j < |places| :: places[i] < places[j])
    && (forall i | 0 <= i < |places| :: places[i] < |ids| && after[i] == ids[places[i]])
  }

  lemma OneFurther(ids: seq<string>, after: seq<string>, places: seq<nat>, kept: bool) returns (further: seq<nat>)
    requires |ids| > 0 && Picked(ids[1..], after, places)
    ensures Picked(ids, (if kept then [ids[0]] else []) + after, further)
    ensures 0 in further <==> kept
    ensures forall p: nat :: p + 1 in further <==> p in places
  {
    var moved: seq<nat> := seq(|places|, i requires 0 <= i < |places| => places[i] + 1);
    forall p: nat ensures p + 1 in moved <==> p in places {
      if p in places { var i :| 0 <= i < |places| && places[i] == p; assert moved[i] == p + 1; }
    }
    further := (if kept then [0] else []) + moved;
    assert 0 !in moved;
  }

  /** Taking an agent out keeps exactly the other ids, where they stood relative to each other. */
  lemma {:induction false} WithoutPicks(ids: seq<string>, agent: string) returns (places: seq<nat>)
    ensures Picked(ids, Without(ids, agent), places)
    ensures forall p: nat | p < |ids| :: p in places <==> ids[p] != agent
  {
    if |ids| == 0 {
      places := [];
    } else {
      var rest := WithoutPicks(ids[1..], agent);
      places := OneFurther(ids, Without(ids[1..], agent), rest, ids[0] != agent);
      assert [] + Without(ids[1..], agent) == Without(ids[1..], agent);
      assert forall p: nat | 0 < p < |ids| :: ids[p] == ids[1..][p - 1];
      assert forall p: nat | 0 < p < |ids| :: p in places <==> p - 1 in rest;
    }
  }

  /** Keeping first occurrences keeps each id once, at its first place. */
  lemma {:induction false} DistinctPicks(ids: seq<string>, seen: set<string>) returns (places: seq<nat>)
    ensures Picked(ids, Distinct(ids, seen), places)
    ensures forall p: nat | p < |ids| :: p in places <==> ids[p] !in seen && ids[p] !in ids[..p]
  {
    if |ids| == 0 {
      places := [];
    } else {
      var kept := ids[0] !in seen;
      var rest := DistinctPicks(ids[1..], seen + {ids[0]});
      assert ids[0] in seen ==> seen + {ids[0]} == seen;
      places := OneFurther(ids, Distinct(ids[1..], seen + {ids[0]}), rest, kept);
      assert [] + Distinct(ids[1..], seen) == Distinct(ids[1..], seen);
      forall p: nat | 0 < p < |ids|
        ensures p in places <==> ids[p] !in seen && ids[p] !in ids[..p]
      {
        assert p in places <==> p - 1 in rest;
        assert ids[p] == ids[1..][p - 1] && ids[..p] == [ids[0]] + ids[1..][..p - 1];
      }
    }
  }

  /** An edit, place by place.  Subscribing keeps the first occurrence of every id and of the agent
      after them; unsubscribing keeps every place but the agent's. */
  lemma EditPicks(ids: seq<string>, edit: Edit) returns (places: seq<nat>)
    ensures var all := if edit.subscribe then ids + [edit.agent] else ids;
            && Picked(all, Edited(ids, edit), places)
            && forall p: nat | p < |all| :: p in places <==> if edit.subscribe then all[p] !in all[..p] else all[p] != edit.agent
  {
    if edit.subscribe {
      places := DistinctPicks(ids + [edit.agent], {});
    } else {
      places := WithoutPicks(ids, edit.agent);
    }
  }

  ghost predicate Once(ids: seq<string>) {
    forall i, j | 0 <= i < j < |ids| :: ids[i] != ids[j]
  }

  lemma {:induction false} FirstOf(ids: seq<string>, id: string) returns (p: nat)
    requires id in ids
    ensures p < |ids| && ids[p] == id && id !in ids[..p]
    decreases |ids|
  {
    p :| p < |ids| && ids[p] == id;
    if id in ids[..p] {
      p := FirstOf(ids[..p], id);
      assert ids[..|ids|][..p] == ids[..p];
    }
  }

  /** Who is in the list after an edit: the agent exactly if it subscribed, everybody else exactly if
      they were before.  Subscribing leaves no id twice. */
  lemma EditMembers(ids: seq<string>, edit: Edit, id: string)
    ensures id in Edited(ids, edit) <==> if id == edit.agent then edit.subscribe else id in ids
    ensures edit.subscribe ==> Once(Edited(ids, edit))
  {
    hide Edited;
    var after, all := Edited(ids, edit), if edit.subscribe then ids + [edit.agent] else ids;
    var places := EditPicks(ids, edit);
    if id in after {
      var i :| 0 <= i < |after| && after[i] == id;
      assert places[i] in places;
    }
    if id in all && (edit.subscribe || id != edit.agent) {
      var p := FirstOf(all, id);
      assert p in places;
    }
    if edit.subscribe {
      forall i, j | 0 <= i < j < |after| ensures after[i] != after[j] {
        assert places[j] in places && all[places[i]] in all[..places[j]];
      }
    }
  }

  lemma {:induction false} OnceStays(ids: seq<string>, seen: set<string>)
    requires Once(ids) && forall id | id in ids :: id !in seen
    ensures Distinct(ids, seen) == ids
  {
    if |ids| > 0 {
      assert forall i | 0 <= i < |ids| - 1 :: ids[1..][i] == ids[i + 1];
      OnceStays(ids[1..], seen + {ids[0]});
    }
  }

  lemma {:induction false} LastTwice(ids: seq<string>, id: string, seen: set<string>)
    requires id in ids || id in seen
    ensures Distinct(ids + [id], seen) == Distinct(ids, seen)
  {
    if |ids| == 0 {
      assert [] + [id] == [id] && [id][1..] == [];
    } else {
      assert (ids + [id])[1..] == ids[1..] + [id];
      LastTwice(ids[1..], id, if ids[0] in seen then seen else seen + {ids[0]});
    }
  }

  /** On a list without repetitions, subscribing appends the agent unless it is there. */
  lemma SubscribeAppends(ids: seq<string>, agent: string)
    requires Once(ids)
    ensures Edited(ids, Edit(agent, true)) == if agent in ids then ids else ids + [agent]
  {
    if agent in ids {
      LastTwice(ids, agent, {});
      OnceStays(ids, {});
    } else {
      OnceStays(ids + [agent], {});
    }
  }

  // ---- runs ----

  /** The step is an edit of this agent that this scope made. */
  ghost predicate Edits(step: Step, key: Key, agent: string) {
    step.Mutate? && step.key == key != "" && !step.seenBusy && step.edit.agent == agent
  }

  /** The last edit of an agent from an index on. */
  ghost predicate LastEdit(steps: seq<Step>, from: nat, key: Key, agent: string, k: nat) {
    from <= k < |steps| && Edits(steps[k], key, agent) && forall l | k < l < |steps| :: !Edits(steps[l], key, agent)
  }

  ghost predicate NoEdit(steps: seq<Step>, from: nat, key: Key, agent: string) {
    forall l | from <= l < |steps| :: !Edits(steps[l], key, agent)
  }

  lemma {:induction false} EditedSince(steps: seq<Step>, from: nat, key: Key, ids: seq<string>, agent: string)
    ensures agent in AllEdited(ids, EditsSince(steps, from, key)) <==>
            (agent in ids && NoEdit(steps, from, key, agent))
            || exists k: nat :: LastEdit(steps, from, key, agent, k) && steps[k].edit.subscribe
  {
    if |steps| <= from {
      assert EditsSince(steps, from, key) == [];
    } else {
      var n := |steps| - 1;
      EditedSince(steps[..n], from, key, ids, agent);
      EditedBy(steps, from, key, ids, agent);
      if Edits(steps[n], key, agent) {
        assert LastEdit(steps, from, key, agent, n);
        assert forall k: nat | LastEdit(steps, from, key, agent, k) :: k == n;
      } else {
        assert forall k: nat :: LastEdit(steps, from, key, agent, k) <==> LastEdit(steps[..n], from, key, agent, k);
      }
    }
  }

  lemma EditedBy(steps: seq<Step>, from: nat, key: Key, ids: seq<string>, agent: string)
    requires from < |steps|
    ensures var n := |steps| - 1;
            agent in AllEdited(ids, EditsSince(steps, from, key)) <==>
            if Edits(steps[n], key, agent) then steps[n].edit.subscribe
            else agent in AllEdited(ids, EditsSince(steps[..n], from, key))
  {
    hide Edited;
    var n := |steps| - 1;
    var edits := EditsSince(steps[..n], from, key);
    if steps[n].Mutate? && steps[n].key == key != "" && !steps[n].seenBusy {
      EditedOnceMore(ids, edits, steps[n].edit);
      EditMembers(AllEdited(ids, edits), steps[n].edit, agent);
    }
  }

  /** Which agents are shown, in every interleaving of scope switches, overlapping reads and mutations:
      there is the newest read of the scope in view that has landed, and an agent is shown exactly if
      its last edit in this scope since then subscribed it, or there was none and the response had it. */
  lemma ShownExactlyWhen(h: Hook, steps: seq<Step>)
    requires Initial(h) && IsRun(h, steps) && Shown(Final(h, steps)).Some?
    ensures exists j: nat, i: nat ::
              && Lands(h, steps, j, i) && steps[i].read.key == Final(h, steps).scope
              && (forall j': nat, i': nat | Lands(h, steps, j', i') :: j' <= j)
              && forall agent :: agent in Shown(Final(h, steps)).value <==>
                   (agent in steps[i].response.value && NoEdit(steps, i + 1, Final(h, steps).scope, agent))
                   || exists k: nat :: LastEdit(steps, i + 1, Final(h, steps).scope, agent, k) && steps[k].edit.subscribe
  {
    hide At, Starts, Next, Enabled, Final, Current, AllEdited, NoEdit, EditsSince;
    ShownIdsBelongToTheScope(h, steps);
    var key := Final(h, steps).scope;
    var j: nat, i: nat :| Lands(h, steps, j, i) && steps[i].read.key == key
      && Shown(Final(h, steps)) == Some(AllEdited(steps[i].response.value, EditsSince(steps, i + 1, key)))
      && forall j': nat, i': nat | Lands(h, steps, j', i') :: j' <= j;
    forall agent
      ensures agent in Shown(Final(h, steps)).value <==>
              (agent in steps[i].response.value && NoEdit(steps, i + 1, key, agent))
              || exists k: nat :: LastEdit(steps, i + 1, key, agent, k) && steps[k].edit.subscribe
    {
      EditedSince(steps, i + 1, key, steps[i].response.value, agent);
    }
  }
}
