/** Who is in a room and what was broadcast there, told from the steps of a run alone. */
module RoomMembers {
  import opened Results
  import opened Rooms
  import opened RoomRuns

  /** The sync broadcasts that the steps begin in a room. */
  function Broadcasts(steps: seq<Step>, r: RoomId): seq<Broadcast> {
    if |steps| == 0 then []
    else
      var last := steps[|steps| - 1];
      Broadcasts(steps[..|steps| - 1], r) + if last.BeginSync? && last.room == r then [last.broadcast] else []
  }

  /** Step i made a connection the member it is now: it joined then, has not left since, and had left
      after every earlier joining. */
  ghost predicate JoinedAt(steps: seq<Step>, r: RoomId, c: ConnId, i: nat) {
    && i < |steps| && steps[i] == Join(r, c)
    && (forall k | i < k < |steps| :: steps[k] != Leave(r, c))
    && (forall k | 0 <= k < i && steps[k] == Join(r, c) :: exists l :: k < l < i && steps[l] == Leave(r, c))
  }

  lemma {:induction false} RunEndsWith(s: State, steps: seq<Step>, last: State) returns (before: State)
    requires |steps| > 0 && IsRun(s, steps, last)
    ensures IsRun(s, steps[..|steps| - 1], before)
    ensures Enabled(before, steps[|steps| - 1]) && last == Next(before, steps[|steps| - 1])
    decreases |steps|
  {
    hide Next, Enabled;
    if |steps| == 1 {
      before := s;
      assert steps[1..] == [] && steps[..0] == [];
    } else {
      before := RunEndsWith(Next(s, steps[0]), steps[1..], last);
      var init := steps[..|steps| - 1];
      assert steps[1..][..|steps| - 2] == init[1..] && init[0] == steps[0];
    }
  }

  /** The log of a room is what was broadcast there. */
  lemma {:induction false} LogIsBroadcasts(s: State, steps: seq<Step>, last: State, r: RoomId)
    requires Initial(s) && IsRun(s, steps, last)
    ensures last.rooms.Keys == s.rooms.Keys && (r in last.rooms ==> last.rooms[r].log == Broadcasts(steps, r))
    decreases |steps|
  {
    if |steps| > 0 {
      hide Next, Enabled;
      var before := RunEndsWith(s, steps, last);
      LogIsBroadcasts(s, steps[..|steps| - 1], before, r);
      StepLogs(before, steps[|steps| - 1], r);
    }
  }

  lemma StepLogs(s: State, step: Step, r: RoomId)
    requires Enabled(s, step)
    ensures Next(s, step).rooms.Keys == s.rooms.Keys
    ensures r in s.rooms ==>
              Next(s, step).rooms[r].log == s.rooms[r].log + if step.BeginSync? && step.room == r then [step.broadcast] else []
  {
    hide DeliverTagged, TrySendTagged, Others;
  }

  lemma LeavingEnds(steps: seq<Step>, r: RoomId, c: ConnId, i: nat)
    requires |steps| > 0 && steps[|steps| - 1] == Leave(r, c)
    ensures !JoinedAt(steps, r, c, i)
  {
  }

  /** Only joining when not a member makes a member. */
  lemma JoiningStarts(steps: seq<Step>, r: RoomId, c: ConnId, i: nat)
    requires |steps| > 0 && steps[|steps| - 1] != Leave(r, c)
    ensures i < |steps| - 1 ==> (JoinedAt(steps, r, c, i) <==> JoinedAt(steps[..|steps| - 1], r, c, i))
    ensures steps[|steps| - 1] != Join(r, c) ==> !JoinedAt(steps, r, c, |steps| - 1)
    ensures JoinedAt(steps, r, c, |steps| - 1) ==> !JoinedAt(steps[..|steps| - 1], r, c, i)
  {
    var init := steps[..|steps| - 1];
    assert forall k | 0 <= k < |init| :: init[k] == steps[k];
    if i < |init| && steps[i] == Join(r, c) {
      forall k | 0 <= k < i && steps[k] == Join(r, c)
        ensures (exists l :: k < l < i && steps[l] == Leave(r, c)) <==> exists l :: k < l < i && init[l] == Leave(r, c)
      {
        if l :| k < l < i && steps[l] == Leave(r, c) { assert init[l] == Leave(r, c); }
      }
    }
  }

  /** After every joining up to now the connection left again, so joining now starts afresh. */
  lemma {:induction false} NobodyJoined(steps: seq<Step>, r: RoomId, c: ConnId, k: nat)
    requires k < |steps| && steps[k] == Join(r, c) && forall i: nat :: !JoinedAt(steps, r, c, i)
    ensures exists l :: k < l < |steps| && steps[l] == Leave(r, c)
    decreases k
  {
    if forall l | k < l < |steps| :: steps[l] != Leave(r, c) {
      assert !JoinedAt(steps, r, c, k);
      var earlier :| 0 <= earlier < k && steps[earlier] == Join(r, c) && forall l | earlier < l < k :: steps[l] != Leave(r, c);
      NobodyJoined(steps, r, c, earlier);
    }
  }

  /** A connection is a member of a room exactly when some step made it one, and the number kept with
      it counts the broadcasts begun before that step. */
  lemma {:induction false} MembersJoined(s: State, steps: seq<Step>, last: State, r: RoomId, c: ConnId)
    requires Initial(s) && IsRun(s, steps, last) && r in last.rooms
    ensures c in last.rooms[r].members <==> exists i: nat :: JoinedAt(steps, r, c, i)
    ensures forall i: nat | JoinedAt(steps, r, c, i) :: c in last.rooms[r].members && last.rooms[r].members[c] == |Broadcasts(steps[..i], r)|
    decreases |steps|
  {
    hide JoinedAt;
    if |steps| == 0 {
      NoSteps(r, c);
    } else {
      var n := |steps| - 1;
      var before := RunEndsWith(s, steps, last);
      LogIsBroadcasts(s, steps, last, r);
      LogIsBroadcasts(s, steps[..n], before, r);
      MembersJoined(s, steps[..n], before, r, c);
      LastStep(steps, before, last, r, c);
    }
  }

  lemma NoSteps(r: RoomId, c: ConnId)
    ensures forall i: nat :: !JoinedAt([], r, c, i)
  {
  }

  lemma LastStep(steps: seq<Step>, before: State, last: State, r: RoomId, c: ConnId)
    requires |steps| > 0 && Enabled(before, steps[|steps| - 1]) && last == Next(before, steps[|steps| - 1])
    requires r in before.rooms && r in last.rooms && before.rooms[r].log == Broadcasts(steps[..|steps| - 1], r)
    requires var init := steps[..|steps| - 1];
             && (c in before.rooms[r].members <==> exists i: nat :: JoinedAt(init, r, c, i))
             && (forall i: nat | JoinedAt(init, r, c, i) ::
                   c in before.rooms[r].members && before.rooms[r].members[c] == |Broadcasts(init[..i], r)|)
    ensures c in last.rooms[r].members <==> exists i: nat :: JoinedAt(steps, r, c, i)
    ensures forall i: nat | JoinedAt(steps, r, c, i) :: c in last.rooms[r].members && last.rooms[r].members[c] == |Broadcasts(steps[..i], r)|
  {
    hide JoinedAt, Broadcasts, DeliverTagged, TrySendTagged;
    var n, step := |steps| - 1, steps[|steps| - 1];
    var init := steps[..n];
    Bounds(steps, r, c);
    Bounds(init, r, c);
    forall i: nat | i <= n ensures init[..i] == steps[..i] {}
    if step == Leave(r, c) {
      forall i: nat ensures !JoinedAt(steps, r, c, i) { LeavingEnds(steps, r, c, i); }
    } else {
      forall i: nat
        ensures i < n ==> (JoinedAt(steps, r, c, i) <==> JoinedAt(init, r, c, i))
        ensures step != Join(r, c) ==> !JoinedAt(steps, r, c, n)
        ensures JoinedAt(steps, r, c, n) ==> !JoinedAt(init, r, c, i)
      {
        JoiningStarts(steps, r, c, i);
      }
      if step == Join(r, c) && c !in before.rooms[r].members { JoinsNow(steps, init, r, c); }
    }
  }

  lemma Bounds(steps: seq<Step>, r: RoomId, c: ConnId)
    ensures forall i: nat | JoinedAt(steps, r, c, i) :: i < |steps|
  {
  }

  lemma JoinsNow(steps: seq<Step>, init: seq<Step>, r: RoomId, c: ConnId)
    requires |steps| > 0 && steps[|steps| - 1] == Join(r, c) && init == steps[..|steps| - 1]
    requires forall i: nat :: !JoinedAt(init, r, c, i)
    ensures JoinedAt(steps, r, c, |steps| - 1)
  {
    forall k: nat | k < |init| && steps[k] == Join(r, c)
      ensures exists l :: k < l < |init| && steps[l] == Leave(r, c)
    {
      NobodyJoined(init, r, c, k);
      var l :| k < l < |init| && init[l] == Leave(r, c);
      assert steps[l] == Leave(r, c);
    }
  }

  /** No gaps, told from the steps: whenever a room is not in the middle of a broadcast, a connection
      that joined it at step i and is still open has been handed exactly the sync broadcasts that
      others began in the room after step i, once each and in order. */
  lemma NoGapsSinceJoining(s: State, steps: seq<Step>, last: State, r: RoomId, c: ConnId, i: nat)
    requires Initial(s) && IsRun(s, steps, last) && r in last.rooms && last.rooms[r].activity.Idle?
    requires JoinedAt(steps, r, c, i)
    ensures var all, since := Broadcasts(steps, r), |Broadcasts(steps[..i], r)|;
            c in last.conns
            && (!last.conns[c].done ==> Handed(last.conns[c].History(), r, since) == ByOthers(all, since, |all|, c))
            && forall k | 0 <= k < |last.conns[c].History()| && last.conns[c].History()[k].tag.Sync?
                          && last.conns[c].History()[k].tag.room == r ::
                 var sent := last.conns[c].History()[k];
                 sent.tag.index < |all| && all[sent.tag.index].frame == sent.frame
  {
    hide Handed, ByOthers, Broadcasts, JoinedAt;
    MembersJoined(s, steps, last, r, c);
    LogIsBroadcasts(s, steps, last, r);
    NoGaps(s, steps, last, r, c);
    assert forall k | 0 <= k < |last.conns[c].History()| && last.conns[c].History()[k].tag.Sync? :: TagOk(last, last.conns[c].History()[k]);
  }

  // ---- queues ----

  /** A blocking send of a frame with content ends with the frame at the end of the queue, or at a
      closed connection. */
  lemma BlockingSendDelivers(s: State, c: ConnId, frame: Frame, pick: bool)
    requires Enabled(s, BlockingSendTo(c, frame, pick)) && |frame.payload| > 0
    ensures var after := Next(s, BlockingSendTo(c, frame, pick)).conns[c];
            after.done || after == s.conns[c].(queued := s.conns[c].queued + [Sent(frame, Other)])
  {
  }

  lemma StepKeepsBound(s: State, step: Step, c: ConnId)
    requires Enabled(s, step) && c in s.conns && |s.conns[c].queued| <= 64
    ensures c in Next(s, step).conns && |Next(s, step).conns[c].queued| <= 64
  {
    hide Others;
  }

  /** In every run no queue ever holds more than the 64 frames it has room for. */
  lemma {:induction false} QueuesAreBounded(s: State, steps: seq<Step>, last: State, c: ConnId)
    requires c in s.conns && |s.conns[c].queued| <= 64 && IsRun(s, steps, last)
    ensures c in last.conns && |last.conns[c].queued| <= 64
    decreases |steps|
  {
    hide Next, Enabled;
    if |steps| > 0 {
      StepKeepsBound(s, steps[0], c);
      QueuesAreBounded(Next(s, steps[0]), steps[1..], last, c);
    }
  }

  // ---- nothing gets stuck ----

  lemma {:induction false} RunsJoin(s: State, first: seq<Step>, middle: State, second: seq<Step>, last: State)
    requires IsRun(s, first, middle) && IsRun(middle, second, last)
    ensures IsRun(s, first + second, last)
    decreases |first|
  {
    hide Enabled, Next;
    if |first| == 0 {
      assert first + second == second;
    } else {
      assert (first + second)[1..] == first[1..] + second;
      RunsJoin(Next(s, first[0]), first[1..], middle, second, last);
    }
  }

  lemma OneStep(s: State, step: Step)
    requires Enabled(s, step)
    ensures IsRun(s, [step], Next(s, step))
  {
    hide Enabled, Next;
    assert [step][1..] == [];
  }

  /** A broadcast under way can always reach the subscribers it has not reached yet, and finish. */
  lemma {:induction false} BroadcastsFinish(s: State, r: RoomId) returns (steps: seq<Step>, last: State)
    requires Inv(s) && r in s.rooms
    ensures IsRun(s, steps, last) && r in last.rooms && last.rooms[r].activity.Idle?
    decreases if s.rooms[r].activity.Walking? then |s.rooms[r].activity.pending| + 1 else 0
  {
    hide Handed, ByOthers, UpToDate, TagsOk, DeliverTagged;
    if s.rooms[r].activity.Idle? {
      steps, last := [], s;
    } else {
      assert RoomOk(s, r);
      var pending := s.rooms[r].activity.pending;
      var step := Finish(r);
      if c :| c in pending { step := Deliver(r, c, false); }
      StepKeepsInv(s, step);
      var rest;
      rest, last := BroadcastsFinish(Next(s, step), r);
      OneStep(s, step);
      RunsJoin(s, [step], Next(s, step), rest, last);
      steps := [step] + rest;
    }
  }

  /** What is queued can always be written out, all of it and in order. */
  lemma {:induction false} QueuesDrain(s: State, c: ConnId) returns (steps: seq<Step>, last: State)
    requires c in s.conns
    ensures IsRun(s, steps, last) && c in last.conns
    ensures last.conns[c] == Conn(s.conns[c].History(), [], s.conns[c].done)
    decreases |s.conns[c].queued|
  {
    var conn := s.conns[c];
    if conn.queued == [] {
      steps, last := [], s;
      assert conn.written + [] == conn.written;
    } else {
      var next := Next(s, Write(c));
      var rest;
      rest, last := QueuesDrain(next, c);
      assert conn.queued == [conn.queued[0]] + conn.queued[1..];
      assert next.conns[c].History() == conn.History();
      OneStep(s, Write(c));
      RunsJoin(s, [Write(c)], next, rest, last);
      steps := [Write(c)] + rest;
    }
  }

  // ---- a run with a delivery ----

  const QUIET: map<ConnId, Conn> := map[1 := Conn([], [], false), 2 := Conn([], [], false)]

  /** One room and two connections. */
  function FirstState(): State {
    State(map["r" := Room(map[], [], Idle)], QUIET)
  }

  function InRoom(log: seq<Broadcast>, activity: Activity, conns: map<ConnId, Conn>): State {
    State(map["r" := Room(map[1 := 0, 2 := 0], log, activity)], conns)
  }

  lemma BothJoin() returns (steps: seq<Step>)
    ensures Initial(FirstState()) && IsRun(FirstState(), steps, InRoom([], Idle, QUIET))
  {
    var one := State(map["r" := Room(map[1 := 0], [], Idle)], QUIET);
    OneStep(FirstState(), Join("r", 1));
    MoreSteps(FirstState(), [Join("r", 1)], one, Join("r", 2), InRoom([], Idle, QUIET));
    steps := [Join("r", 1)] + [Join("r", 2)];
  }

  lemma OneBroadcasts(b: Broadcast)
    requires b.skip == Some(1)
    ensures Enabled(InRoom([], Idle, QUIET), BeginSync("r", b))
    ensures Next(InRoom([], Idle, QUIET), BeginSync("r", b)) == InRoom([b], Walking(b.frame, Sync("r", 0), {2}), QUIET)
  {
    var room, next := Room(map[1 := 0, 2 := 0], [], Idle), Room(map[1 := 0, 2 := 0], [b], Walking(b.frame, Sync("r", 0), {2}));
    assert Others(room, b) == {2} && room.log + [b] == [b];
    assert map["r" := room]["r" := next] == map["r" := next];
  }

  lemma TwoIsHanded(b: Broadcast)
    requires |b.frame.payload| > 0
    ensures var s, step := InRoom([b], Walking(b.frame, Sync("r", 0), {2}), QUIET), Deliver("r", 2, false);
            Enabled(s, step)
            && Next(s, step) == InRoom([b], Walking(b.frame, Sync("r", 0), {}), QUIET[2 := Conn([], [Sent(b.frame, Sync("r", 0))], false)])
  {
    var s := InRoom([b], Walking(b.frame, Sync("r", 0), {2}), QUIET);
    var room, sent := s.rooms["r"], Sent(b.frame, Sync("r", 0));
    var next := room.(activity := room.activity.(pending := {}));
    assert room.activity.pending - {2} == {};
    assert map["r" := room]["r" := next] == map["r" := next];
    assert AsQueue(QUIET[2]) == Queue([], false);
    assert DeliverTagged(QUIET[2], sent, false) == Conn([], [sent], false) by { assert [] + [sent] == [sent]; }
  }

  /** Both join, the first one broadcasts, and the second one is handed the frame. */
  lemma DeliveryHappens(frame: Frame) returns (steps: seq<Step>, last: State)
    requires |frame.payload| > 0
    ensures Initial(FirstState()) && IsRun(FirstState(), steps, last)
    ensures "r" in last.rooms && last.rooms["r"].activity.Idle? && last.rooms["r"].members.Keys == {1, 2}
    ensures last.conns == map[1 := Conn([], [], false), 2 := Conn([], [Sent(frame, Sync("r", 0))], false)]
  {
    hide IsRun;
    var b := Broadcast(frame, Some(1));
    var conns := QUIET[2 := Conn([], [Sent(frame, Sync("r", 0))], false)];
    var joined, walking := InRoom([], Idle, QUIET), InRoom([b], Walking(frame, Sync("r", 0), {2}), QUIET);
    var handed := InRoom([b], Walking(frame, Sync("r", 0), {}), conns);
    last := InRoom([b], Idle, conns);
    steps := BothJoin();
    OneBroadcasts(b);
    MoreSteps(FirstState(), steps, joined, BeginSync("r", b), walking);
    steps := steps + [BeginSync("r", b)];
    TwoIsHanded(b);
    MoreSteps(FirstState(), steps, walking, Deliver("r", 2, false), handed);
    steps := steps + [Deliver("r", 2, false)];
    MoreSteps(FirstState(), steps, handed, Finish("r"), last);
    steps := steps + [Finish("r")];
  }

  lemma MoreSteps(s: State, steps: seq<Step>, middle: State, step: Step, last: State)
    requires IsRun(s, steps, middle) && Enabled(middle, step) && Next(middle, step) == last
    ensures IsRun(s, steps + [step], last)
  {
    hide Enabled, Next;
    OneStep(middle, step);
    RunsJoin(s, steps, middle, [step], last);
  }
}
