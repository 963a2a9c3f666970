/** What the client's workspace state must show after any list of events, told without lists: the
    last value of every field, the last item under every id, and all messages of every thread. */
module WorkspaceLedger {
  import opened Results
  import opened WorkspaceReducer

  // ---- the reference ----

  /** A thread as it was last sent, and every message announced for it since. */
  datatype Journal = Journal(base: Thread, posts: seq<Message>)

  datatype Ledger = Ledger(info: Info, users: map<string, Item>, daemons: map<string, Item>, agents: map<string, Item>,
                           agentRuns: map<string, Item>, threads: map<string, Journal>, agentEvents: map<string, Item>,
                           presences: map<string, Presence>)

  function ById<D>(items: seq<Entity<D>>): map<string, Entity<D>> {
    if |items| == 0 then map[] else ById(items[..|items| - 1])[items[|items| - 1].id := items[|items| - 1]]
  }

  function Started(threads: map<string, Thread>): map<string, Journal> {
    map id | id in threads :: Journal(threads[id], [])
  }

  const FIELDS := {WorkspaceId, RootDocumentId, CurrentUserId, CurrentDaemonId, Role, Name, Slug, DefaultRuntime, UpdatedAt}

  /** Whether an event that names a workspace, or none, is about the one in view. */
  predicate Concerns(info: Info, workspaceId: Option<string>) {
    workspaceId in {None, Some(""), Get(info, WorkspaceId)}
  }

  /** What a field reads after an event, field by field. */
  function Told(info: Info, event: Event, field: Field): Option<string> {
    match event
    case SnapshotTaken(s) => if Get(s.info, field).Some? then Get(s.info, field) else Get(info, field)
    case WorkspaceUpdated(changes) =>
      if !Concerns(info, Get(changes, WorkspaceId)) || field in {CurrentUserId, CurrentDaemonId, Role} then Get(info, field)
      else if Get(changes, field).Some? then Get(changes, field)
      else if field == DefaultRuntime then Some("")
      else Get(info, field)
    case WorkspaceDeleted(id) => if Concerns(info, id) then Blank(field) else Get(info, field)
    case _ => Get(info, field)
  }

  /** A state without a workspace. */
  function Blank(field: Field): Option<string> {
    if field in {CurrentUserId, CurrentDaemonId, DefaultRuntime, UpdatedAt} then None else Some("")
  }

  const BLANK := Ledger(map field | field in FIELDS && Blank(field).Some? :: Blank(field).value,
                        map[], map[], map[], map[], map[], map[], map[])

  /** All fields after an event. */
  function TellAll(info: Info, event: Event): Info {
    map field | field in FIELDS && Told(info, event, field).Some? :: Told(info, event, field).value
  }

  function Record(ledger: Ledger, event: Event): Ledger {
    Written(ledger, event).(info := TellAll(ledger.info, event))
  }

  /** The keyed writes of an event. */
  function Written(ledger: Ledger, event: Event): Ledger {
    match event
    case SnapshotTaken(s) =>
      Ledger(s.info, ById(Or(s.users, [])), ById(Or(s.daemons, [])), ById(Or(s.agents, [])), ById(Or(s.agentRuns, [])),
             Started(ById(Or(s.threads, []))), ById(Or(s.agentEvents, [])), PresencesById(s.presences))
    case WorkspaceDeleted(id) => if Concerns(ledger.info, id) then BLANK else ledger
    case ThreadChanged(thread) => ledger.(threads := ledger.threads[thread.id := Journal(thread, [])])
    case MessageCreated(message) =>
      if message.threadId !in ledger.threads then ledger
      else
        var journal := ledger.threads[message.threadId];
        ledger.(threads := ledger.threads[message.threadId := journal.(posts := journal.posts + [message])])
    case DaemonChanged(daemon) => ledger.(daemons := ledger.daemons[daemon.id := daemon])
    case AgentChanged(agent) => ledger.(agents := ledger.agents[agent.id := agent])
    case AgentDeleted(agent) => ledger.(agents := ledger.agents - {agent.id})
    case RunChanged(run) => ledger.(agentRuns := ledger.agentRuns[run.id := run])
    case AgentEventChanged(agentEvent) => ledger.(agentEvents := ledger.agentEvents[agentEvent.id := agentEvent])
    case PresenceUpdated(presence) => ledger.(presences := ledger.presences[presence.actorId := presence])
    case _ => ledger
  }

  function RecordAll(events: seq<Event>): Ledger {
    if |events| == 0 then BLANK else Record(RecordAll(events[..|events| - 1]), events[|events| - 1])
  }

  // ---- reading a journal ----

  /** A post is shown if the thread was not sent with its id, and no earlier post had it. */
  ghost predicate Shows(journal: Journal, p: nat)
    requires p < |journal.posts|
  {
    !HasMessage(journal.base.data.messages, journal.posts[p].id)
    && forall q: nat | q < p :: journal.posts[q].id != journal.posts[p].id
  }

  /** The thread has the messages it was sent with and after them, in order, the posts at the given
      places, which are those that show; the newest of these dates the thread. */
  ghost predicate ReadsAt(journal: Journal, thread: Thread, places: seq<nat>) {
    var base, posts := journal.base, journal.posts;
    && thread.id == base.id && thread.data.rest == base.data.rest
    && base.data.messages <= thread.data.messages && |thread.data.messages| == |base.data.messages| + |places|
    && (forall i, j | 0 <= i < j < |places| :: places[i] < places[j])
    && (forall i | 0 <= i < |places| :: places[i] < |posts| && thread.data.messages[|base.data.messages| + i] == posts[places[i]])
    && (forall p: nat | p < |posts| :: p in places <==> Shows(journal, p))
    && thread.data.updatedAt == if |places| == 0 then base.data.updatedAt else posts[places[|places| - 1]].createdAt
  }

  ghost predicate Reads(journal: Journal, thread: Thread) {
    exists places :: ReadsAt(journal, thread, places)
  }

  lemma {:induction false} FirstPost(posts: seq<Message>, id: string, p: nat) returns (first: nat)
    requires p < |posts| && posts[p].id == id
    ensures first <= p && posts[first].id == id && forall q: nat | q < first :: posts[q].id != id
    decreases p
  {
    if q: nat :| q < p && posts[q].id == id {
      first := FirstPost(posts, id, q);
    } else {
      first := p;
    }
  }

  /** A thread has a message under an id exactly if it was sent with one or one was posted. */
  lemma MessagesOf(journal: Journal, thread: Thread, places: seq<nat>, id: string)
    requires ReadsAt(journal, thread, places)
    ensures HasMessage(thread.data.messages, id) <==>
            HasMessage(journal.base.data.messages, id) || exists p: nat :: p < |journal.posts| && journal.posts[p].id == id
  {
    var base, all := journal.base.data.messages, thread.data.messages;
    if HasMessage(all, id) {
      var i :| 0 <= i < |all| && all[i].id == id;
      if i < |base| { assert base[i].id == id; } else { assert journal.posts[places[i - |base|]].id == id; }
    }
    if HasMessage(base, id) {
      var i :| 0 <= i < |base| && base[i].id == id;
      assert all[i].id == id;
    } else if p: nat :| p < |journal.posts| && journal.posts[p].id == id {
      var first := FirstPost(journal.posts, id, p);
      assert Shows(journal, first);
      assert first in places;
      var k :| 0 <= k < |places| && places[k] == first;
      assert all[|base| + k].id == id;
    }
  }

  lemma PostReads(journal: Journal, thread: Thread, message: Message)
    requires Reads(journal, thread) && message.threadId == thread.id
    ensures Reads(journal.(posts := journal.posts + [message]), AddMessage(thread, message))
  {
    var n := |journal.posts|;
    var posted := journal.(posts := journal.posts + [message]);
    var places :| ReadsAt(journal, thread, places);
    MessagesOf(journal, thread, places, message.id);
    forall p: nat | p < n ensures Shows(posted, p) <==> Shows(journal, p) {
      assert forall q: nat | q <= p :: posted.posts[q] == journal.posts[q];
    }
    assert HasMessage(thread.data.messages, message.id) <==> !Shows(posted, n) by {
      assert posted.posts[n] == message && forall q: nat | q < n :: posted.posts[q] == journal.posts[q];
    }
    PlacesAfter(journal, posted, thread, message, places);
  }

  lemma PlacesAfter(journal: Journal, posted: Journal, thread: Thread, message: Message, places: seq<nat>)
    requires ReadsAt(journal, thread, places) && message.threadId == thread.id
    requires posted == journal.(posts := journal.posts + [message])
    requires forall p: nat | p < |journal.posts| :: Shows(posted, p) <==> Shows(journal, p)
    requires HasMessage(thread.data.messages, message.id) <==> !Shows(posted, |journal.posts|)
    ensures Reads(posted, AddMessage(thread, message))
  {
    hide Shows, HasMessage;
    var n := |journal.posts|;
    if HasMessage(thread.data.messages, message.id) {
      assert n !in places;
      assert ReadsAt(posted, thread, places);
    } else {
      var longer := places + [n];
      assert forall p: nat :: p in longer <==> p in places || p == n;
      assert ReadsAt(posted, AddMessage(thread, message), longer);
    }
  }

  // ---- the state agrees with the reference ----

  ghost predicate ThreadsAgree(threads: map<string, Thread>, journals: map<string, Journal>) {
    threads.Keys == journals.Keys && forall id | id in threads :: Reads(journals[id], threads[id])
  }

  ghost predicate Agrees(state: State, ledger: Ledger) {
    && state.info == ledger.info
    && ById(state.users) == ledger.users && ById(state.daemons) == ledger.daemons && ById(state.agents) == ledger.agents
    && ById(state.agentRuns) == ledger.agentRuns && ById(state.agentEvents) == ledger.agentEvents
    && state.presences == ledger.presences
    && ThreadsAgree(ById(state.threads), ledger.threads)
  }

  /** Reading a list by id gives, for each id in it, the last item under it. */
  lemma {:induction false} ByIdIsLast<D(!new)>(items: seq<Entity<D>>, id: string)
    ensures id in ById(items) <==> HasId(items, id)
    ensures id in ById(items) ==>
              exists i :: 0 <= i < |items| && items[i] == ById(items)[id] && items[i].id == id
                          && forall j | i < j < |items| :: items[j].id != id
  {
    if |items| > 0 {
      var n := |items| - 1;
      ByIdIsLast(items[..n], id);
      HasIdSnoc(items[..n], items[n], id);
      assert items[..n] + [items[n]] == items;
      if id == items[n].id {
        assert items[n] == ById(items)[id];
      } else if id in ById(items) {
        var i :| 0 <= i < n && items[..n][i] == ById(items[..n])[id] && items[..n][i].id == id
                 && forall j | i < j < n :: items[..n][j].id != id;
        assert items[i] == ById(items)[id];
      }
    }
  }

  lemma ByIdSnoc<D>(items: seq<Entity<D>>, item: Entity<D>)
    ensures ById(items + [item]) == ById(items)[item.id := item]
  {
    assert (items + [item])[..|items|] == items;
  }

  ghost predicate ReplacesById<D>(items: seq<Entity<D>>, next: Entity<D>) {
    ById(ReplaceById(items, next)) == if HasId(items, next.id) then ById(items)[next.id := next] else ById(items)
  }

  lemma ReplaceSnoc<D>(before: seq<Entity<D>>, last: Entity<D>, next: Entity<D>)
    ensures ReplaceById(before + [last], next) == ReplaceById(before, next) + [if last.id == next.id then next else last]
  {
    assert (before + [last])[..|before|] == before;
  }

  lemma ByIdReplaceSnoc<D>(before: seq<Entity<D>>, last: Entity<D>, next: Entity<D>)
    requires ReplacesById(before, next)
    ensures ReplacesById(before + [last], next)
  {
    hide HasId, ById, ReplaceById;
    ReplaceSnoc(before, last, next);
    ByIdSnoc(before, last);
    ByIdSnoc(ReplaceById(before, next), if last.id == next.id then next else last);
    HasIdSnoc(before, last, next.id);
  }

  lemma {:induction false} ByIdReplace<D>(items: seq<Entity<D>>, next: Entity<D>)
    ensures ReplacesById(items, next)
  {
    if |items| > 0 {
      hide ReplacesById;
      ByIdReplace(items[..|items| - 1], next);
      ByIdReplaceSnoc(items[..|items| - 1], items[|items| - 1], next);
      assert items[..|items| - 1] + [items[|items| - 1]] == items;
    }
  }

  lemma ByIdUpsert<D>(items: seq<Entity<D>>, next: Entity<D>)
    ensures ById(Upsert(items, next)) == ById(items)[next.id := next]
  {
    ByIdReplace(items, next);
    if !HasId(items, next.id) {
      var all := Upsert(items, next);
      assert all[..|all| - 1] == ReplaceById(items, next);
    } else {
      assert Upsert(items, next) == ReplaceById(items, next);
    }
  }

  lemma {:induction false} ByIdWithout<D>(items: seq<Entity<D>>, id: string)
    ensures ById(Without(items, id)) == ById(items) - {id}
  {
    if |items| > 0 {
      var before, last := items[..|items| - 1], items[|items| - 1];
      ByIdWithout(before, id);
      var kept := Without(items, id);
      if last.id != id {
        assert kept[..|kept| - 1] == Without(before, id);
      } else {
        assert kept == Without(before, id);
      }
    }
  }

  lemma {:induction false} ByIdAddMessages(threads: seq<Thread>, message: Message)
    ensures var before, after := ById(threads), ById(AddMessages(threads, message));
            after.Keys == before.Keys && forall id | id in before :: before[id].id == id && after[id] == AddMessage(before[id], message)
  {
    if |threads| > 0 {
      hide AddMessage;
      var before, last := threads[..|threads| - 1], threads[|threads| - 1];
      ByIdAddMessages(before, message);
      AddedIsSame(last, message);
      var all := AddMessages(threads, message);
      assert all[..|all| - 1] == AddMessages(before, message);
    }
  }

  lemma AddedIsSame(thread: Thread, message: Message)
    ensures AddMessage(thread, message).id == thread.id
    ensures thread.id != message.threadId ==> AddMessage(thread, message) == thread
  {
  }

  lemma MessageAgrees(threads: seq<Thread>, journals: map<string, Journal>, message: Message)
    requires ThreadsAgree(ById(threads), journals)
    ensures var t := message.threadId;
            ThreadsAgree(ById(AddMessages(threads, message)),
                         if t in journals then journals[t := journals[t].(posts := journals[t].posts + [message])] else journals)
  {
    hide Reads, AddMessage, AddMessages, ById;
    ByIdAddMessages(threads, message);
    var before := ById(threads);
    forall id | id in before && id != message.threadId ensures AddMessage(before[id], message) == before[id] {
      AddedIsSame(before[id], message);
    }
    if message.threadId in journals { PostReads(journals[message.threadId], before[message.threadId], message); }
  }

  lemma SentReads(thread: Thread)
    ensures Reads(Journal(thread, []), thread)
  {
    assert ReadsAt(Journal(thread, []), thread, []);
  }

  lemma SentAgree(threads: map<string, Thread>)
    ensures ThreadsAgree(threads, Started(threads))
  {
    hide Reads;
    forall id | id in threads ensures Reads(Started(threads)[id], threads[id]) { SentReads(threads[id]); }
  }

  lemma ThreadAgrees(threads: seq<Thread>, journals: map<string, Journal>, thread: Thread)
    requires ThreadsAgree(ById(threads), journals)
    ensures ThreadsAgree(ById(Upsert(threads, thread)), journals[thread.id := Journal(thread, [])])
  {
    hide Reads, ById, Upsert;
    ByIdUpsert(threads, thread);
    SentReads(thread);
  }

  /** One event does to the state's fields what it tells of each. */
  lemma InfoIsTold(state: State, event: Event, field: Field)
    ensures Get(Reduce(state, event).info, field) == Told(state.info, event, field)
  {
    hide Upsert, Without, AddMessages, PresencesById, Take50, Update, UPDATABLE;
    if event.WorkspaceUpdated? && Concerns(state.info, Get(event.changes, WorkspaceId)) {
      UpdateIsTold(state.info, event.changes, field);
    }
  }

  lemma UpdateIsTold(info: Info, changes: Info, field: Field)
    requires Concerns(info, Get(changes, WorkspaceId))
    ensures Get(Update(info, changes), field) == Told(info, WorkspaceUpdated(changes), field)
  {
  }

  lemma InfoAgrees(state: State, event: Event)
    ensures Reduce(state, event).info == TellAll(state.info, event)
  {
    hide Reduce, Told, FIELDS;
    var after, told := Reduce(state, event).info, TellAll(state.info, event);
    AllFields();
    forall field: Field ensures field in after <==> field in told
                        ensures field in after ==> after[field] == told[field] {
      InfoIsTold(state, event, field);
    }
  }

  lemma AllFields()
    ensures forall field: Field :: field in FIELDS
  {
    forall field: Field ensures field in FIELDS {
      match field
      case WorkspaceId => case RootDocumentId => case CurrentUserId => case CurrentDaemonId => case Role =>
      case Name => case Slug => case DefaultRuntime => case UpdatedAt =>
    }
  }

  /** One event does to the lists, read by id, what it does to the reference. */
  lemma ReduceIsRecord(state: State, ledger: Ledger, event: Event)
    requires Agrees(state, ledger)
    ensures Agrees(Reduce(state, event), Record(ledger, event))
  {
    hide ById, Upsert, Without, AddMessages, PresencesById, Update, Take50, ThreadsAgree, TellAll, Started, BLANK, EMPTY;
    InfoAgrees(state, event);
    match event
    case SnapshotTaken(s) => SentAgree(ById(Or(s.threads, [])));
    case ThreadChanged(thread) => ThreadAgrees(state.threads, ledger.threads, thread);
    case MessageCreated(message) => MessageAgrees(state.threads, ledger.threads, message);
    case DaemonChanged(daemon) => ByIdUpsert(state.daemons, daemon);
    case AgentChanged(agent) => ByIdUpsert(state.agents, agent);
    case AgentDeleted(agent) => ByIdWithout(state.agents, agent.id);
    case RunChanged(run) => ByIdUpsert(state.agentRuns, run);
    case AgentEventChanged(agentEvent) => ByIdUpsert(state.agentEvents, agentEvent);
    case WorkspaceDeleted(_) => EmptyAgrees();
    case _ =>
  }

  lemma EmptyAgrees()
    ensures Agrees(EMPTY, BLANK)
  {
  }

  /** Over any list of events the state agrees with the reference. */
  lemma {:induction false} RunIsRecord(events: seq<Event>)
    ensures Agrees(Run(events), RecordAll(events))
  {
    if |events| == 0 {
      EmptyAgrees();
    } else {
      hide Reduce, Record, Agrees;
      RunIsRecord(events[..|events| - 1]);
      ReduceIsRecord(Run(events[..|events| - 1]), RecordAll(events[..|events| - 1]), events[|events| - 1]);
    }
  }

  /** A list without repeated ids holds exactly the items of its map. */
  lemma {:induction false} DistinctListIsMap<D(!new)>(items: seq<Entity<D>>, item: Entity<D>)
    requires Distinct(items)
    ensures item in items <==> item.id in ById(items) && ById(items)[item.id] == item
  {
    if |items| > 0 {
      var before, last := items[..|items| - 1], items[|items| - 1];
      DistinctListIsMap(before, item);
      assert item in items <==> item in before || item == last;
      ByIdIsLast(before, last.id);
      assert item in before ==> exists i :: 0 <= i < |items| - 1 && items[i] == item;
    }
  }

  // ---- single events, in the state's own terms ----

  /** A message arrives: its thread has it afterwards; if it had none under that id, the message goes
      to the end and dates the thread, otherwise the thread stays.  Nothing else changes. */
  lemma MessageArrives(state: State, message: Message)
    ensures var after := Reduce(state, MessageCreated(message));
            && after == state.(threads := after.threads) && |after.threads| == |state.threads|
            && forall i | 0 <= i < |state.threads| ::
                 var before, now := state.threads[i], after.threads[i];
                 if before.id != message.threadId || exists k :: 0 <= k < |before.data.messages| && before.data.messages[k].id == message.id
                 then now == before
                 else now == Entity(before.id, ThreadData(before.data.messages + [message], message.createdAt, before.data.rest))
  {
    hide AddMessages;
    AddMessagesAt(state.threads, message);
  }

  /** Presences sent as rows are keyed by actor, the last row of an actor counting; sent keyed they are
      taken as they are. */
  lemma PresencesAreKeyed(presences: Presences, actor: string)
    ensures presences.Missing? ==> PresencesById(presences) == map[]
    ensures presences.Keyed? ==> PresencesById(presences) == presences.byActor
    ensures presences.Rows? ==>
              (actor in PresencesById(presences) <==> exists i :: 0 <= i < |presences.rows| && presences.rows[i].actorId == actor)
    ensures presences.Rows? && actor in PresencesById(presences) ==> LastRow(presences.rows, PresencesById(presences)[actor], actor)
  {
    if presences.Rows? { RowsAreKeyed(presences.rows, actor); }
  }

  ghost predicate LastRow(rows: seq<Presence>, row: Presence, actor: string) {
    exists i :: 0 <= i < |rows| && rows[i] == row && row.actorId == actor && forall j | i < j < |rows| :: rows[j].actorId != actor
  }

  lemma {:induction false} RowsAreKeyed(rows: seq<Presence>, actor: string)
    ensures actor in ByActor(rows) <==> exists i :: 0 <= i < |rows| && rows[i].actorId == actor
    ensures actor in ByActor(rows) ==> LastRow(rows, ByActor(rows)[actor], actor)
  {
    if |rows| > 0 {
      var n := |rows| - 1;
      RowsAreKeyed(rows[..n], actor);
      if rows[n].actorId != actor && actor in ByActor(rows) {
        var i :| 0 <= i < n && rows[..n][i] == ByActor(rows)[actor] && rows[..n][i].actorId == actor
                 && forall j | i < j < n :: rows[..n][j].actorId != actor;
        assert rows[i] == ByActor(rows)[actor];
      }
    }
  }

  // ---- activities ----

  /** All activities since the last snapshot or deletion, newest first, on top of the snapshot's. */
  function History(events: seq<Event>): seq<Activity> {
    if |events| == 0 then []
    else
      var before, event := History(events[..|events| - 1]), events[|events| - 1];
      match event
      case SnapshotTaken(s) => Or(s.activities, [])
      case ActivityCreated(activity) => [activity] + before
      case WorkspaceDeleted(id) =>
        if Concerns(RecordAll(events[..|events| - 1]).info, id) then [] else before
      case _ => before
  }

  /** The list shown is the newest part of the history; it is all of it unless it has 50 or more. */
  ghost predicate NewestOf(shown: seq<Activity>, history: seq<Activity>) {
    shown <= history && (shown == history || |shown| >= 50)
  }

  lemma PushNewest(shown: seq<Activity>, history: seq<Activity>, activity: Activity)
    requires NewestOf(shown, history)
    ensures NewestOf(Take50([activity] + shown), [activity] + history)
  {
  }

  lemma ReduceNewest(state: State, event: Event, events: seq<Event>)
    requires NewestOf(Or(state.activities, []), History(events)) && state.info == RecordAll(events).info
    ensures NewestOf(Or(Reduce(state, event).activities, []), History(events + [event]))
  {
    hide Take50, Upsert, Without, AddMessages, PresencesById, Update, Record;
    var all := events + [event];
    assert all[..|all| - 1] == events && all[|events|] == event;
    if event.ActivityCreated? { PushNewest(Or(state.activities, []), History(events), event.activity); }
  }

  /** Over any list of events. */
  lemma {:induction false} RunShowsNewest(events: seq<Event>)
    ensures NewestOf(Or(Run(events).activities, []), History(events))
  {
    if |events| > 0 {
      hide Reduce, NewestOf, Record;
      var before := events[..|events| - 1];
      RunShowsNewest(before);
      RunIsRecord(before);
      ReduceNewest(Run(before), events[|events| - 1], before);
      assert before + [events[|events| - 1]] == events;
    }
  }
}
