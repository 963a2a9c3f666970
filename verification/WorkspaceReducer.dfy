/** The client's workspace state, folded from the events the server sends. */
module WorkspaceReducer {
  import opened Results

  /** An item of a list, told apart by its id; the payload stands for its other fields. */
  datatype Entity<D> = Entity(id: string, data: D)

  type Item = Entity<string>

  datatype Message = Message(id: string, threadId: string, createdAt: string, body: string)

  datatype ThreadData = ThreadData(messages: seq<Message>, updatedAt: string, rest: string)

  type Thread = Entity<ThreadData>

  datatype Presence = Presence(actorId: string, status: string)

  datatype Activity = Activity(id: string, text: string)

  /** The workspace's own fields.  One that was never given is absent. */
  datatype Field = WorkspaceId | RootDocumentId | CurrentUserId | CurrentDaemonId | Role | Name | Slug | DefaultRuntime | UpdatedAt

  type Info = map<Field, string>

  datatype State = State(info: Info, users: seq<Item>, daemons: seq<Item>, agents: seq<Item>, agentRuns: seq<Item>,
                         threads: seq<Thread>, agentEvents: seq<Item>, presences: map<string, Presence>,
                         activities: Option<seq<Activity>>)

  // ---- events ----

  /** Rows as the server sends them, or a map already keyed by actor, or nothing. */
  datatype Presences = Rows(rows: seq<Presence>) | Keyed(byActor: map<string, Presence>) | Missing

  datatype Snapshot = Snapshot(info: Info, users: Option<seq<Item>>, daemons: Option<seq<Item>>, agents: Option<seq<Item>>,
                               agentRuns: Option<seq<Item>>, threads: Option<seq<Thread>>, agentEvents: Option<seq<Item>>,
                               presences: Presences, activities: Option<seq<Activity>>)

  datatype Event =
    | SnapshotTaken(snapshot: Snapshot)
    | ActivityCreated(activity: Activity)
    | WorkspaceUpdated(changes: Info)
    | WorkspaceDeleted(workspaceId: Option<string>)
    | ThreadChanged(thread: Thread)
    | MessageCreated(message: Message)
    | DaemonChanged(daemon: Item)
    | AgentChanged(agent: Item)
    | AgentDeleted(agent: Item)
    | RunChanged(run: Item)
    | AgentEventChanged(agentEvent: Item)
    | PresenceUpdated(presence: Presence)
    | Unknown

  // ---- the reducer ----

  function Or<T>(value: Option<T>, default: T): T {
    if value.Some? then value.value else default
  }

  function ReplaceById<D>(items: seq<Entity<D>>, next: Entity<D>): seq<Entity<D>> {
    if |items| == 0 then []
    else ReplaceById(items[..|items| - 1], next) + [if items[|items| - 1].id == next.id then next else items[|items| - 1]]
  }

  predicate HasId<D(==)>(items: seq<Entity<D>>, id: string) {
    exists i :: 0 <= i < |items| && items[i].id == id
  }

  function Upsert<D(==)>(items: seq<Entity<D>>, next: Entity<D>): seq<Entity<D>> {
    ReplaceById(items, next) + if HasId(items, next.id) then [] else [next]
  }

  method UpsertById<D(==)>(items: seq<Entity<D>>, next: Entity<D>) returns (result: seq<Entity<D>>)
    ensures result == Upsert(items, next)
  {
    var seen: set<string> := {};
    result := [];
    for i := 0 to |items|
      invariant result == ReplaceById(items[..i], next)
      invariant next.id in seen <==> HasId(items[..i], next.id)
    {
      var item := items[i];
      assert items[..i + 1][..i] == items[..i];
      HasIdGrows(items, i, next.id);
      if item.id != next.id {
        result := result + [item];
      } else {
        seen := seen + {item.id};
        result := result + [next];
      }
    }
    assert items[..|items|] == items;
    if next.id !in seen { result := result + [next]; }
  }

  lemma HasIdGrows<D>(items: seq<Entity<D>>, i: nat, id: string)
    requires i < |items|
    ensures HasId(items[..i + 1], id) <==> HasId(items[..i], id) || items[i].id == id
  {
    if HasId(items[..i], id) {
      var k :| 0 <= k < i && items[..i][k].id == id;
      assert items[..i + 1][k].id == id;
    }
    if items[i].id == id { assert items[..i + 1][i].id == id; }
    if HasId(items[..i + 1], id) && items[i].id != id {
      var k :| 0 <= k < i + 1 && items[..i + 1][k].id == id;
      assert items[..i][k].id == id;
    }
  }

  lemma HasIdSnoc<D>(before: seq<Entity<D>>, last: Entity<D>, id: string)
    ensures HasId(before + [last], id) <==> HasId(before, id) || last.id == id
  {
    hide HasId;
    var items := before + [last];
    HasIdGrows(items, |before|, id);
    assert items[..|before|] == before && items[..|before| + 1] == items;
  }

  function Without<D>(items: seq<Entity<D>>, id: string): seq<Entity<D>> {
    if |items| == 0 then []
    else Without(items[..|items| - 1], id) + if items[|items| - 1].id != id then [items[|items| - 1]] else []
  }

  predicate HasMessage(messages: seq<Message>, id: string) {
    exists i :: 0 <= i < |messages| && messages[i].id == id
  }

  function AddMessage(thread: Thread, message: Message): Thread {
    if thread.id == message.threadId && !HasMessage(thread.data.messages, message.id)
    then Entity(thread.id, ThreadData(thread.data.messages + [message], message.createdAt, thread.data.rest))
    else thread
  }

  function AddMessages(threads: seq<Thread>, message: Message): seq<Thread> {
    if |threads| == 0 then []
    else AddMessages(threads[..|threads| - 1], message) + [AddMessage(threads[|threads| - 1], message)]
  }

  function ByActor(rows: seq<Presence>): map<string, Presence> {
    if |rows| == 0 then map[] else ByActor(rows[..|rows| - 1])[rows[|rows| - 1].actorId := rows[|rows| - 1]]
  }

  function PresencesById(presences: Presences): map<string, Presence> {
    match presences
    case Rows(rows) => ByActor(rows)
    case Keyed(byActor) => byActor
    case Missing => map[]
  }

  function Get(info: Info, field: Field): Option<string> {
    if field in info then Some(info[field]) else None
  }

  /** The fields a workspace event may carry.  The runtime falls back to blank. */
  const UPDATABLE := {WorkspaceId, RootDocumentId, Name, Slug, UpdatedAt}

  function Update(info: Info, changes: Info): Info {
    info + (map field | field in changes && field in UPDATABLE :: changes[field])
      + map[DefaultRuntime := Or(Get(changes, DefaultRuntime), "")]
  }

  function Take50(activities: seq<Activity>): seq<Activity> {
    if |activities| <= 50 then activities else activities[..50]
  }

  const EMPTY := State(map[WorkspaceId := "", RootDocumentId := "", Role := "", Name := "", Slug := ""], [], [], [], [], [], [], map[], None)

  function Reduce(state: State, event: Event): State {
    match event
    case SnapshotTaken(s) =>
      State(state.info + s.info, Or(s.users, []), Or(s.daemons, []), Or(s.agents, []), Or(s.agentRuns, []),
            Or(s.threads, []), Or(s.agentEvents, []), PresencesById(s.presences), Some(Or(s.activities, [])))
    case ActivityCreated(activity) => state.(activities := Some(Take50([activity] + Or(state.activities, []))))
    case WorkspaceUpdated(changes) =>
      if Or(Get(changes, WorkspaceId), "") != "" && Get(changes, WorkspaceId) != Get(state.info, WorkspaceId) then state
      else state.(info := Update(state.info, changes))
    case WorkspaceDeleted(id) => if Or(id, "") == "" || id == Get(state.info, WorkspaceId) then EMPTY else state
    case ThreadChanged(thread) => state.(threads := Upsert(state.threads, thread))
    case MessageCreated(message) => state.(threads := AddMessages(state.threads, message))
    case DaemonChanged(daemon) => state.(daemons := Upsert(state.daemons, daemon))
    case AgentChanged(agent) => state.(agents := Upsert(state.agents, agent))
    case AgentDeleted(agent) => state.(agents := Without(state.agents, agent.id))
    case RunChanged(run) => state.(agentRuns := Upsert(state.agentRuns, run))
    case AgentEventChanged(agentEvent) => state.(agentEvents := Upsert(state.agentEvents, agentEvent))
    case PresenceUpdated(presence) => state.(presences := state.presences[presence.actorId := presence])
    case Unknown => state
  }

  function Run(events: seq<Event>): State {
    if |events| == 0 then EMPTY else Reduce(Run(events[..|events| - 1]), events[|events| - 1])
  }

  // ---- one item per id ----

  ghost predicate Distinct<D(!new)>(items: seq<Entity<D>>) {
    forall i, j | 0 <= i < j < |items| :: items[i].id != items[j].id
  }

  ghost predicate Once(messages: seq<Message>) {
    forall i, j | 0 <= i < j < |messages| :: messages[i].id != messages[j].id
  }

  ghost predicate AllOnce(threads: seq<Thread>) {
    forall i | 0 <= i < |threads| :: Once(threads[i].data.messages)
  }

  ghost predicate Tidy(state: State) {
    Distinct(state.daemons) && Distinct(state.agents) && Distinct(state.agentRuns) && Distinct(state.threads)
    && Distinct(state.agentEvents) && AllOnce(state.threads)
  }

  /** Snapshots repeat no id, and no thread arrives with a message twice. */
  ghost predicate TidyEvent(event: Event) {
    match event
    case SnapshotTaken(s) =>
      Distinct(Or(s.daemons, [])) && Distinct(Or(s.agents, [])) && Distinct(Or(s.agentRuns, [])) && Distinct(Or(s.threads, []))
      && Distinct(Or(s.agentEvents, [])) && AllOnce(Or(s.threads, []))
    case ThreadChanged(thread) => Once(thread.data.messages)
    case _ => true
  }

  lemma {:induction false} ReplaceAt<D>(items: seq<Entity<D>>, next: Entity<D>)
    ensures |ReplaceById(items, next)| == |items|
    ensures forall i | 0 <= i < |items| :: ReplaceById(items, next)[i] == if items[i].id == next.id then next else items[i]
  {
    if |items| > 0 { ReplaceAt(items[..|items| - 1], next); }
  }

  lemma UpsertDistinct<D(!new)>(items: seq<Entity<D>>, next: Entity<D>)
    requires Distinct(items)
    ensures Distinct(Upsert(items, next))
  {
    ReplaceAt(items, next);
  }

  lemma {:induction false} WithoutFrom<D(!new)>(items: seq<Entity<D>>, id: string)
    ensures forall item | item in Without(items, id) :: item in items
    ensures Distinct(items) ==> Distinct(Without(items, id))
  {
    if |items| > 0 {
      var before, last := items[..|items| - 1], items[|items| - 1];
      WithoutFrom(before, id);
      if Distinct(items) {
        forall item | item in Without(before, id) ensures item.id != last.id {
          assert item in before;
          var i :| 0 <= i < |items| - 1 && before[i] == item;
          assert items[i].id != last.id;
        }
      }
    }
  }

  lemma {:induction false} AddMessagesAt(threads: seq<Thread>, message: Message)
    ensures |AddMessages(threads, message)| == |threads|
    ensures forall i | 0 <= i < |threads| :: AddMessages(threads, message)[i] == AddMessage(threads[i], message)
  {
    if |threads| > 0 {
      hide AddMessage;
      AddMessagesAt(threads[..|threads| - 1], message);
    }
  }

  lemma AddMessageOnce(thread: Thread, message: Message)
    requires Once(thread.data.messages)
    ensures Once(AddMessage(thread, message).data.messages) && AddMessage(thread, message).id == thread.id
  {
  }

  lemma ReduceTidy(state: State, event: Event)
    requires Tidy(state) && TidyEvent(event)
    ensures Tidy(Reduce(state, event))
  {
    hide Distinct, Once, Upsert, Without, AddMessages, AddMessage, PresencesById, ReplaceById;
    match event
    case ThreadChanged(thread) =>
      UpsertDistinct(state.threads, thread);
      UpsertAllOnce(state.threads, thread);
    case MessageCreated(message) => AddMessagesTidy(state.threads, message);
    case DaemonChanged(daemon) => UpsertDistinct(state.daemons, daemon);
    case AgentChanged(agent) => UpsertDistinct(state.agents, agent);
    case AgentDeleted(agent) => WithoutFrom(state.agents, agent.id);
    case RunChanged(run) => UpsertDistinct(state.agentRuns, run);
    case AgentEventChanged(agentEvent) => UpsertDistinct(state.agentEvents, agentEvent);
    case WorkspaceDeleted(_) => EmptyTidy();
    case _ =>
  }

  lemma EmptyTidy()
    ensures Tidy(EMPTY)
  {
  }

  lemma UpsertAllOnce(threads: seq<Thread>, thread: Thread)
    requires AllOnce(threads) && Once(thread.data.messages)
    ensures AllOnce(Upsert(threads, thread))
  {
    hide Once, HasId;
    ReplaceAt(threads, thread);
  }

  lemma AddMessagesTidy(threads: seq<Thread>, message: Message)
    requires Distinct(threads) && AllOnce(threads)
    ensures Distinct(AddMessages(threads, message)) && AllOnce(AddMessages(threads, message))
  {
    hide Once, AddMessage, AddMessages;
    AddMessagesAt(threads, message);
    forall i | 0 <= i < |threads|
      ensures AddMessage(threads[i], message).id == threads[i].id && Once(AddMessage(threads[i], message).data.messages)
    {
      AddMessageOnce(threads[i], message);
    }
  }

  /** No list ever repeats an id, and no thread a message. */
  lemma {:induction false} RunTidy(events: seq<Event>)
    requires forall i | 0 <= i < |events| :: TidyEvent(events[i])
    ensures Tidy(Run(events))
  {
    if |events| == 0 {
      EmptyTidy();
    } else {
      hide Reduce, TidyEvent, Tidy;
      RunTidy(events[..|events| - 1]);
      ReduceTidy(Run(events[..|events| - 1]), events[|events| - 1]);
    }
  }

  // ---- redelivery ----

  lemma UpsertTwice<D>(items: seq<Entity<D>>, next: Entity<D>)
    ensures Upsert(Upsert(items, next), next) == Upsert(items, next)
  {
    var once := Upsert(items, next);
    ReplaceAt(items, next);
    ReplaceAt(once, next);
    if HasId(items, next.id) {
      var i :| 0 <= i < |items| && items[i].id == next.id;
      assert once[i].id == next.id;
    } else {
      assert once[|items|].id == next.id;
    }
    assert HasId(once, next.id);
  }

  lemma {:induction false} WithoutTwice<D>(items: seq<Entity<D>>, id: string)
    ensures Without(Without(items, id), id) == Without(items, id)
  {
    if |items| > 0 {
      var before, last := items[..|items| - 1], items[|items| - 1];
      WithoutTwice(before, id);
      var kept := Without(items, id);
      if last.id != id {
        assert kept[..|kept| - 1] == Without(before, id);
      } else {
        assert kept == Without(before, id);
      }
    }
  }

  lemma AddMessageTwice(thread: Thread, message: Message)
    ensures AddMessage(AddMessage(thread, message), message) == AddMessage(thread, message)
  {
    var once := AddMessage(thread, message);
    if once != thread { assert once.data.messages[|thread.data.messages|].id == message.id; }
  }

  lemma AddMessagesTwice(threads: seq<Thread>, message: Message)
    ensures AddMessages(AddMessages(threads, message), message) == AddMessages(threads, message)
  {
    hide AddMessage, AddMessages;
    AddMessagesAt(threads, message);
    AddMessagesAt(AddMessages(threads, message), message);
    forall i | 0 <= i < |threads|
      ensures AddMessage(AddMessage(threads[i], message), message) == AddMessage(threads[i], message)
    {
      AddMessageTwice(threads[i], message);
    }
  }

  lemma UpdateTwice(info: Info, changes: Info)
    ensures Update(Update(info, changes), changes) == Update(info, changes)
  {
  }

  /** The list is already full of that activity, so the copy pushed out is like the one pushed in. */
  ghost predicate FullOf(activities: seq<Activity>, activity: Activity) {
    |activities| == 50 && forall i | 0 <= i < 50 :: activities[i] == activity
  }

  lemma PushTwice(activities: seq<Activity>, activity: Activity)
    ensures var once := Take50([activity] + activities);
            Take50([activity] + once) == once <==> FullOf(once, activity)
  {
    var once := Take50([activity] + activities);
    var twice := Take50([activity] + once);
    if twice == once {
      assert |once| == 50;
      ShiftedIsConstant(once, activity, 50);
    }
  }

  lemma {:induction false} ShiftedIsConstant(once: seq<Activity>, activity: Activity, n: nat)
    requires n <= |once| == 50 && ([activity] + once)[..50] == once
    ensures forall i | 0 <= i < n :: once[i] == activity
  {
    if n > 0 {
      ShiftedIsConstant(once, activity, n - 1);
      assert once[n - 1] == ([activity] + once)[..50][n - 1] == ([activity] + once)[n - 1];
    }
  }

  /** Delivering an event a second time changes nothing, except for a new activity, where it
      changes nothing exactly when the list is already full of it. */
  lemma Redelivery(state: State, event: Event)
    ensures var once := Reduce(state, event);
            Reduce(once, event) == once <==>
            (event.ActivityCreated? ==> FullOf(Or(once.activities, []), event.activity))
  {
    hide Upsert, Without, AddMessages, PresencesById, Update, Take50, FullOf;
    match event
    case ActivityCreated(activity) => PushTwice(Or(state.activities, []), activity);
    case WorkspaceUpdated(changes) => UpdateAgain(state, changes);
    case ThreadChanged(thread) => UpsertTwice(state.threads, thread);
    case MessageCreated(message) => AddMessagesTwice(state.threads, message);
    case DaemonChanged(daemon) => UpsertTwice(state.daemons, daemon);
    case AgentChanged(agent) => UpsertTwice(state.agents, agent);
    case AgentDeleted(agent) => WithoutTwice(state.agents, agent.id);
    case RunChanged(run) => UpsertTwice(state.agentRuns, run);
    case AgentEventChanged(agentEvent) => UpsertTwice(state.agentEvents, agentEvent);
    case _ =>
  }

  lemma UpdateAgain(state: State, changes: Info)
    ensures var event := WorkspaceUpdated(changes);
            Reduce(Reduce(state, event), event) == Reduce(state, event)
  {
    UpdateTwice(state.info, changes);
  }
}
