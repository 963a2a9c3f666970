/** Awareness: what a room remembers of its clients' cursors and names, merged by their clocks. */
module Awareness {
  import opened VarUint

  datatype Presence = Presence(clock: int, state: seq<byte>)

  type Known = map<nat, Presence>

  /** The four bytes of the JSON text null: a client announcing that it left. */
  const NULL_STATE: seq<byte> := [110, 117, 108, 108]

  predicate Departs(next: Presence) {
    next.state == NULL_STATE
  }

  /** Whether a client's new state replaces what the room holds for it. */
  predicate Supersedes(held: Known, client: nat, next: Presence) {
    client !in held || held[client].clock < next.clock || (held[client].clock == next.clock && Departs(next))
  }

  /** What is held after an update has been merged. */
  function Merged(held: Known, update: Known): Known {
    map client | client in held.Keys + update.Keys
                 && !(client in update && Supersedes(held, client, update[client]) && Departs(update[client]))
      :: if client in update && Supersedes(held, client, update[client]) then update[client] else held[client]
  }

  // ---- one merge, by clocks ----

  /** A state with a larger clock is always taken over and one with a smaller clock never is; with an
      equal clock only a departure counts.  A departure taken over removes the client. */
  lemma MergeByClocks(held: Known, update: Known, client: nat)
    ensures var after, spelled := Merged(held, update), ['n' as int, 'u' as int, 'l' as int, 'l' as int];
            && (client !in update ==> (client in after <==> client in held))
            && (client !in update && client in held ==> after[client] == held[client])
            && (client in update ==>
                  var next := update[client];
                  if client !in held || next.clock > held[client].clock then
                    if next.state == spelled then client !in after else client in after && after[client] == next
                  else if next.clock < held[client].clock then client in after && after[client] == held[client]
                  else if next.state == spelled then client !in after
                  else client in after && after[client] == held[client])
  {
  }

  // ---- a room's whole history ----

  /** What an empty room holds after the updates. */
  function MergeAll(updates: seq<Known>): Known {
    if |updates| == 0 then map[] else Merged(MergeAll(updates[..|updates| - 1]), updates[|updates| - 1])
  }

  /** The held state of a client was brought by one of the updates, and every later mention of the
      client is older, or repeats its clock without departing. */
  ghost predicate Newest(updates: seq<Known>, client: nat, held: Presence, i: nat) {
    && i < |updates| && client in updates[i] && updates[i][client] == held && held.state != NULL_STATE
    && forall k | i < k < |updates| && client in updates[k] ::
         updates[k][client].clock < held.clock
         || (updates[k][client].clock == held.clock && updates[k][client].state != NULL_STATE)
  }

  lemma {:induction false} HeldIsNewest(updates: seq<Known>, client: nat)
    requires client in MergeAll(updates)
    ensures exists i: nat :: Newest(updates, client, MergeAll(updates)[client], i)
  {
    var n := |updates| - 1;
    var before, update := MergeAll(updates[..n]), updates[n];
    MergeByClocks(before, update, client);
    if client in update && Supersedes(before, client, update[client]) {
      assert Newest(updates, client, update[client], n);
    } else {
      HeldIsNewest(updates[..n], client);
      var i: nat :| Newest(updates[..n], client, before[client], i);
      assert Newest(updates, client, before[client], i);
    }
  }

  /** The last update that mentions a client. */
  ghost predicate LastMention(updates: seq<Known>, client: nat, i: nat) {
    i < |updates| && client in updates[i] && forall k | i < k < |updates| :: client !in updates[k]
  }

  /** A client is unknown exactly when no update has mentioned it, or the last one to do so was its
      departure, with a clock that reached what was held. */
  lemma {:induction false} UnknownExactlyWhen(updates: seq<Known>, client: nat)
    ensures client !in MergeAll(updates) <==>
            (forall k | 0 <= k < |updates| :: client !in updates[k])
            || exists i: nat :: LastMention(updates, client, i) && Departed(updates, client, i)
  {
    if |updates| > 0 {
      hide Departed, Merged, Supersedes;
      var n := |updates| - 1;
      MergeByClocks(MergeAll(updates[..n]), updates[n], client);
      if client in updates[n] {
        DepartsNow(updates, client);
        assert LastMention(updates, client, n);
        assert forall i: nat | LastMention(updates, client, i) :: i == n;
      } else {
        UnknownExactlyWhen(updates[..n], client);
        forall i: nat ensures LastMention(updates, client, i) <==> LastMention(updates[..n], client, i)
                      ensures i < n ==> (Departed(updates[..n], client, i) <==> Departed(updates, client, i)) {
          if i < n { DepartedBefore(updates, client, n, i); }
        }
        assert (forall k | 0 <= k < |updates| :: client !in updates[k]) <==> forall k | 0 <= k < n :: client !in updates[..n][k];
      }
    }
  }

  /** The update announces the client's departure with a clock that reaches what is held. */
  ghost predicate Departed(updates: seq<Known>, client: nat, i: nat) {
    i < |updates| && client in updates[i] && updates[i][client].state == NULL_STATE
    && (client in MergeAll(updates[..i]) ==> MergeAll(updates[..i])[client].clock <= updates[i][client].clock)
  }

  lemma DepartsNow(updates: seq<Known>, client: nat)
    requires |updates| > 0 && client in updates[|updates| - 1]
    ensures Departed(updates, client, |updates| - 1) <==> client !in MergeAll(updates)
  {
    MergeByClocks(MergeAll(updates[..|updates| - 1]), updates[|updates| - 1], client);
  }

  lemma DepartedBefore(updates: seq<Known>, client: nat, n: nat, i: nat)
    requires i < n <= |updates|
    ensures Departed(updates[..n], client, i) <==> Departed(updates, client, i)
  {
    assert updates[..n][..i] == updates[..i] && updates[..n][i] == updates[i];
  }

  /** As long as a client stays known its clock never goes back. */
  lemma {:induction false} ClocksNeverGoBack(updates: seq<Known>, client: nat, i: nat)
    requires i <= |updates| && forall k | i <= k <= |updates| :: client in MergeAll(updates[..k])
    ensures client in MergeAll(updates) && MergeAll(updates[..i])[client].clock <= MergeAll(updates)[client].clock
    decreases |updates|
  {
    assert updates[..|updates|] == updates;
    if i < |updates| {
      var n := |updates| - 1;
      forall k | i <= k <= n ensures updates[..n][..k] == updates[..k] && client in MergeAll(updates[..n][..k]) {
        assert client in MergeAll(updates[..k]);
      }
      ClocksNeverGoBack(updates[..n], client, i);
      assert updates[..n][..i] == updates[..i];
      MergeByClocks(MergeAll(updates[..n]), updates[n], client);
    }
  }
}
