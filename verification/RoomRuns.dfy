/** Rooms over whole runs.  A broadcast holds its room's lock while it walks the subscribers,
    but everything else goes on between two deliveries: other rooms broadcast to the same
    connections, connections write, close, and are sent to directly. */
module RoomRuns {
  import opened Results
  import opened Rooms

  type RoomId = string
  type ConnId = nat

  /** Where a queued frame came from: a room's sync broadcast number, or anything else. */
  datatype Tag = Sync(room: RoomId, index: nat) | Other

  datatype Sent = Sent(frame: Frame, tag: Tag)

  /** A connection: frames already written out, frames still queued, and whether it is closed. */
  datatype Conn = Conn(written: seq<Sent>, queued: seq<Sent>, done: bool) {
    /** Everything ever handed to the connection, in order. */
    function History(): seq<Sent> {
      written + queued
    }
  }

  datatype Broadcast = Broadcast(frame: Frame, skip: Option<ConnId>)

  /** A broadcast under way, with the subscribers it has not reached yet. */
  datatype Activity = Idle | Walking(frame: Frame, tag: Tag, pending: set<ConnId>)

  /** A room: its subscribers with the number of sync broadcasts that preceded their joining,
      and the sync broadcasts so far. */
  datatype Room = Room(members: map<ConnId, nat>, log: seq<Broadcast>, activity: Activity)

  datatype State = State(rooms: map<RoomId, Room>, conns: map<ConnId, Conn>)

  datatype Step =
    | Join(room: RoomId, conn: ConnId)
    | Leave(room: RoomId, conn: ConnId)
    | BeginSync(room: RoomId, broadcast: Broadcast)
    | BeginBestEffort(room: RoomId, broadcast: Broadcast)
    | Deliver(room: RoomId, conn: ConnId, pickDone: bool)
    | Finish(room: RoomId)
    | TrySendTo(conn: ConnId, frame: Frame, pickDone: bool)
    | BlockingSendTo(conn: ConnId, frame: Frame, pickDone: bool)
    | Write(conn: ConnId)
    | Close(conn: ConnId)

  function AsQueue(conn: Conn): Queue {
    Queue(seq(|conn.queued|, i requires 0 <= i < |conn.queued| => conn.queued[i].frame), conn.done)
  }

  /** The queue operations of a connection, with the frame's origin remembered. */
  function TrySendTagged(conn: Conn, sent: Sent, pickDone: bool): Conn {
    if TrySend(AsQueue(conn), sent.frame, pickDone).1 then conn.(queued := conn.queued + [sent]) else conn
  }

  function DeliverTagged(conn: Conn, sent: Sent, pickDone: bool): Conn {
    if TrySend(AsQueue(conn), sent.frame, pickDone).1 then conn.(queued := conn.queued + [sent])
    else if sent.tag.Sync? then conn.(done := true)
    else conn
  }

  /** The tagged operations are the connection's own ones. */
  lemma TaggedIsUntagged(conn: Conn, sent: Sent, pickDone: bool)
    ensures AsQueue(TrySendTagged(conn, sent, pickDone)) == TrySend(AsQueue(conn), sent.frame, pickDone).0
    ensures sent.tag.Sync? ==> AsQueue(DeliverTagged(conn, sent, pickDone)) == SyncDelivery(AsQueue(conn), sent.frame, pickDone)
    ensures sent.tag.Other? ==> DeliverTagged(conn, sent, pickDone) == TrySendTagged(conn, sent, pickDone)
  {
  }

  predicate Enabled(s: State, step: Step) {
    match step
    case Join(r, c) => r in s.rooms && c in s.conns && s.rooms[r].activity.Idle?
    case Leave(r, c) => r in s.rooms && s.rooms[r].activity.Idle?
    case BeginSync(r, _) => r in s.rooms && s.rooms[r].activity.Idle?
    case BeginBestEffort(r, _) => r in s.rooms && s.rooms[r].activity.Idle?
    case Deliver(r, c, _) => r in s.rooms && c in s.conns && s.rooms[r].activity.Walking? && c in s.rooms[r].activity.pending
    case Finish(r) => r in s.rooms && s.rooms[r].activity.Walking? && s.rooms[r].activity.pending == {}
    case TrySendTo(c, _, _) => c in s.conns
    // A blocking send waits until the connection is closed or has room.
    case BlockingSendTo(c, frame, _) =>
      c in s.conns && (|frame.payload| == 0 || s.conns[c].done || |s.conns[c].queued| < SEND_BUFFER)
    case Write(c) => c in s.conns && |s.conns[c].queued| > 0
    case Close(c) => c in s.conns
  }

  function Others(room: Room, broadcast: Broadcast): set<ConnId> {
    room.members.Keys - (if broadcast.skip.Some? then {broadcast.skip.value} else {})
  }

  function Next(s: State, step: Step): State
    requires Enabled(s, step)
  {
    match step
    case Join(r, c) =>
      var room := s.rooms[r];
      if c in room.members then s else s.(rooms := s.rooms[r := room.(members := room.members[c := |room.log|])])
    case Leave(r, c) => s.(rooms := s.rooms[r := s.rooms[r].(members := s.rooms[r].members - {c})])
    case BeginSync(r, b) =>
      var room := s.rooms[r];
      s.(rooms := s.rooms[r := room.(log := room.log + [b], activity := Walking(b.frame, Sync(r, |room.log|), Others(room, b)))])
    case BeginBestEffort(r, b) =>
      s.(rooms := s.rooms[r := s.rooms[r].(activity := Walking(b.frame, Other, Others(s.rooms[r], b)))])
    case Deliver(r, c, pick) =>
      var room := s.rooms[r];
      var a := room.activity;
      State(s.rooms[r := room.(activity := a.(pending := a.pending - {c}))],
            s.conns[c := DeliverTagged(s.conns[c], Sent(a.frame, a.tag), pick)])
    case Finish(r) => s.(rooms := s.rooms[r := s.rooms[r].(activity := Idle)])
    case TrySendTo(c, frame, pick) => s.(conns := s.conns[c := TrySendTagged(s.conns[c], Sent(frame, Other), pick)])
    case BlockingSendTo(c, frame, pick) => s.(conns := s.conns[c := TrySendTagged(s.conns[c], Sent(frame, Other), pick)])
    case Write(c) =>
      var conn := s.conns[c];
      s.(conns := s.conns[c := conn.(written := conn.written + [conn.queued[0]], queued := conn.queued[1..])])
    case Close(c) => s.(conns := s.conns[c := s.conns[c].(done := true)])
  }

  // ---- the property ----

  /** The numbers of a room's sync broadcasts found in a history, from `since` on, in order. */
  function Handed(history: seq<Sent>, room: RoomId, since: nat): seq<nat> {
    if |history| == 0 then []
    else
      var last := history[|history| - 1];
      Handed(history[..|history| - 1], room, since)
      + (if last.tag.Sync? && last.tag.room == room && last.tag.index >= since then [last.tag.index] else [])
  }

  /** The numbers since <= i < upto of the broadcasts that others made, in order. */
  function ByOthers(log: seq<Broadcast>, since: nat, upto: nat, conn: ConnId): seq<nat>
    requires upto <= |log|
  {
    if upto <= since then []
    else ByOthers(log, since, upto - 1, conn) + (if log[upto - 1].skip == Some(conn) then [] else [upto - 1])
  }

  /** How much of a room's log a subscriber must have been handed by now. */
  function Due(room: Room, conn: ConnId): nat
    requires |room.log| > 0 || room.activity.Idle? || room.activity.tag.Other?
  {
    if room.activity.Walking? && room.activity.tag.Sync? && conn in room.activity.pending then |room.log| - 1 else |room.log|
  }

  ghost predicate RoomOk(s: State, r: RoomId)
    requires r in s.rooms
  {
    var room := s.rooms[r];
    && (forall c | c in room.members :: c in s.conns && room.members[c] <= |room.log|)
    && (room.activity.Walking? ==>
          room.activity.pending <= room.members.Keys
          && (room.activity.tag.Sync? ==>
                |room.log| > 0 && room.activity.tag == Sync(r, |room.log| - 1)
                && room.activity.frame == room.log[|room.log| - 1].frame
                && forall c | c in room.activity.pending ::
                     room.log[|room.log| - 1].skip != Some(c) && room.members[c] < |room.log|))
  }

  /** Queued and written sync frames carry the payload of the broadcast they are tagged with. */
  ghost predicate TagsOk(s: State, c: ConnId)
    requires c in s.conns
  {
    forall i | 0 <= i < |s.conns[c].History()| && s.conns[c].History()[i].tag.Sync? ::
      TagOk(s, s.conns[c].History()[i])
  }

  ghost predicate TagOk(s: State, sent: Sent)
    requires sent.tag.Sync?
  {
    sent.tag.room in s.rooms && sent.tag.index < |s.rooms[sent.tag.room].log|
    && s.rooms[sent.tag.room].log[sent.tag.index].frame == sent.frame
  }

  /** An open subscriber has been handed exactly what it was due. */
  ghost predicate UpToDate(s: State, r: RoomId, c: ConnId)
    requires r in s.rooms && RoomOk(s, r) && c in s.rooms[r].members
  {
    s.conns[c].done
    || Handed(s.conns[c].History(), r, s.rooms[r].members[c])
       == ByOthers(s.rooms[r].log, s.rooms[r].members[c], Due(s.rooms[r], c), c)
  }

  ghost predicate Inv(s: State) {
    && (forall r | r in s.rooms :: RoomOk(s, r))
    && (forall c | c in s.conns :: TagsOk(s, c))
    && (forall r, c | r in s.rooms && c in s.rooms[r].members :: UpToDate(s, r, c))
  }

  lemma HandedSnoc(history: seq<Sent>, sent: Sent, room: RoomId, since: nat)
    ensures Handed(history + [sent], room, since) ==
            Handed(history, room, since)
            + (if sent.tag.Sync? && sent.tag.room == room && sent.tag.index >= since then [sent.tag.index] else [])
  {
    assert (history + [sent])[..|history|] == history;
  }

  lemma {:induction false} HandedNothing(history: seq<Sent>, room: RoomId, since: nat)
    requires forall i | 0 <= i < |history| && history[i].tag.Sync? && history[i].tag.room == room :: history[i].tag.index < since
    ensures Handed(history, room, since) == []
    decreases |history|
  {
    if |history| > 0 { HandedNothing(history[..|history| - 1], room, since); }
  }

  lemma {:induction false} ByOthersPrefix(log: seq<Broadcast>, extra: Broadcast, since: nat, upto: nat, conn: ConnId)
    requires upto <= |log|
    ensures ByOthers(log + [extra], since, upto, conn) == ByOthers(log, since, upto, conn)
    decreases upto
  {
    if upto > since { ByOthersPrefix(log, extra, since, upto - 1, conn); }
  }

  // ---- preservation ----

  /** Changing one connection without touching its history or reopening it disturbs nothing. */
  lemma SameHistoryKeepsInv(s: State, c: ConnId, conn: Conn)
    requires Inv(s) && c in s.conns && conn.History() == s.conns[c].History() && (s.conns[c].done ==> conn.done)
    ensures Inv(s.(conns := s.conns[c := conn]))
  {
    hide Handed, ByOthers;
    var t := s.(conns := s.conns[c := conn]);
    forall d | d in t.conns
      ensures TagsOk(t, d)
    {
      assert TagsOk(s, d);
    }
    forall r, d | r in t.rooms && d in t.rooms[r].members
      ensures UpToDate(t, r, d)
    {
      assert UpToDate(s, r, d);
    }
  }

  lemma OtherFrameKeepsInv(s: State, c: ConnId, frame: Frame)
    requires Inv(s) && c in s.conns
    ensures Inv(s.(conns := s.conns[c := s.conns[c].(queued := s.conns[c].queued + [Sent(frame, Other)])]))
  {
    hide Handed, ByOthers;
    var sent := Sent(frame, Other);
    var conn := s.conns[c].(queued := s.conns[c].queued + [sent]);
    var t := s.(conns := s.conns[c := conn]);
    assert conn.History() == s.conns[c].History() + [sent];
    forall d | d in t.conns
      ensures TagsOk(t, d)
    {
      assert TagsOk(s, d);
    }
    forall r, d | r in t.rooms && d in t.rooms[r].members
      ensures UpToDate(t, r, d)
    {
      assert UpToDate(s, r, d);
      HandedSnoc(s.conns[c].History(), sent, r, t.rooms[r].members[d]);
      assert Handed(s.conns[c].History(), r, t.rooms[r].members[d]) + [] == Handed(s.conns[c].History(), r, t.rooms[r].members[d]);
    }
  }

  lemma DeliveryKeepsInv(s: State, r: RoomId, c: ConnId, pick: bool)
    requires Inv(s) && Enabled(s, Deliver(r, c, pick)) && s.rooms[r].activity.tag.Sync?
    ensures Inv(Next(s, Deliver(r, c, pick)))
  {
    hide Handed, ByOthers, UpToDate;
    var room := s.rooms[r];
    var sent := Sent(room.activity.frame, room.activity.tag);
    var conn := DeliverTagged(s.conns[c], sent, pick);
    var t := Next(s, Deliver(r, c, pick));
    assert RoomOk(s, r);
    assert conn.History() == s.conns[c].History() || conn.History() == s.conns[c].History() + [sent];
    assert TagOk(s, sent);
    forall d | d in t.conns
      ensures TagsOk(t, d)
    {
      assert TagsOk(s, d);
    }
    forall q | q in t.rooms
      ensures RoomOk(t, q)
    {
      assert RoomOk(s, q);
    }
    forall q, d | q in t.rooms && d in t.rooms[q].members
      ensures UpToDate(t, q, d)
    {
      assert RoomOk(s, q) && UpToDate(s, q, d);
      DeliveryKeepsUpToDate(s, r, c, pick, q, d);
    }
  }

  lemma DeliveryKeepsUpToDate(s: State, r: RoomId, c: ConnId, pick: bool, q: RoomId, d: ConnId)
    requires Enabled(s, Deliver(r, c, pick)) && s.rooms[r].activity.tag.Sync? && RoomOk(s, r)
    requires q in s.rooms && RoomOk(s, q) && d in s.rooms[q].members && UpToDate(s, q, d)
    requires RoomOk(Next(s, Deliver(r, c, pick)), q)
    ensures UpToDate(Next(s, Deliver(r, c, pick)), q, d)
  {
    hide Handed, ByOthers, TrySend;
    var room := s.rooms[r];
    var sent := Sent(room.activity.frame, room.activity.tag);
    if d == c {
      var conn, since := s.conns[c], s.rooms[q].members[c];
      if TrySend(AsQueue(conn), sent.frame, pick).1 {
        assert DeliverTagged(conn, sent, pick).History() == conn.History() + [sent];
        HandedSnoc(conn.History(), sent, q, since);
        if q == r {
          NewestDue(room, c);
        } else {
          assert Handed(conn.History(), q, since) + [] == Handed(conn.History(), q, since);
        }
      }
    }
  }

  lemma NewestDue(room: Room, c: ConnId)
    requires |room.log| > 0 && c in room.members && room.members[c] < |room.log| && room.log[|room.log| - 1].skip != Some(c)
    ensures ByOthers(room.log, room.members[c], |room.log|, c) ==
            ByOthers(room.log, room.members[c], |room.log| - 1, c) + [|room.log| - 1]
  {
  }

  lemma BestEffortKeepsInv(s: State, r: RoomId, c: ConnId, pick: bool)
    requires Inv(s) && Enabled(s, Deliver(r, c, pick)) && s.rooms[r].activity.tag.Other?
    ensures Inv(Next(s, Deliver(r, c, pick)))
  {
    var room := s.rooms[r];
    var a := room.activity;
    var conn := DeliverTagged(s.conns[c], Sent(a.frame, a.tag), pick);
    var mid := s.(conns := s.conns[c := conn]);
    if conn == s.conns[c] {
      SameHistoryKeepsInv(s, c, conn);
    } else {
      OtherFrameKeepsInv(s, c, a.frame);
    }
    ActivityKeepsInv(mid, r, a.(pending := a.pending - {c}));
  }

  /** Changing only a room's activity, away from or between non-sync ones. */
  lemma ActivityKeepsInv(s: State, r: RoomId, activity: Activity)
    requires Inv(s) && r in s.rooms
    requires s.rooms[r].activity.Walking? && s.rooms[r].activity.tag.Sync? ==> s.rooms[r].activity.pending == {}
    requires activity.Walking? ==> activity.tag.Other? && activity.pending <= s.rooms[r].members.Keys
    ensures Inv(s.(rooms := s.rooms[r := s.rooms[r].(activity := activity)]))
  {
    hide Handed, ByOthers;
    var t := s.(rooms := s.rooms[r := s.rooms[r].(activity := activity)]);
    forall q | q in t.rooms
      ensures RoomOk(t, q)
    {
      assert RoomOk(s, q);
    }
    forall c | c in t.conns
      ensures TagsOk(t, c)
    {
      assert TagsOk(s, c);
    }
    forall q, c | q in t.rooms && c in t.rooms[q].members
      ensures UpToDate(t, q, c)
    {
      assert UpToDate(s, q, c);
    }
  }

  lemma BeginSyncKeepsInv(s: State, r: RoomId, b: Broadcast)
    requires Inv(s) && Enabled(s, BeginSync(r, b))
    ensures Inv(Next(s, BeginSync(r, b)))
  {
    hide Handed, ByOthers;
    var t := Next(s, BeginSync(r, b));
    var log := s.rooms[r].log;
    assert RoomOk(s, r);
    forall q | q in t.rooms
      ensures RoomOk(t, q)
    {
      assert RoomOk(s, q);
    }
    forall c | c in t.conns
      ensures TagsOk(t, c)
    {
      assert TagsOk(s, c);
    }
    forall q, c | q in t.rooms && c in t.rooms[q].members
      ensures UpToDate(t, q, c)
    {
      assert UpToDate(s, q, c);
      if q == r {
        ByOthersPrefix(log, b, t.rooms[r].members[c], |log|, c);
        if b.skip == Some(c) {
          OwnBroadcastIsNotDue(log, b, t.rooms[r].members[c], c);
        }
      }
    }
  }

  lemma OwnBroadcastIsNotDue(log: seq<Broadcast>, b: Broadcast, since: nat, c: ConnId)
    requires b.skip == Some(c) && since <= |log|
    ensures ByOthers(log + [b], since, |log| + 1, c) == ByOthers(log + [b], since, |log|, c)
  {
  }

  lemma JoinKeepsInv(s: State, r: RoomId, c: ConnId)
    requires Inv(s) && Enabled(s, Join(r, c))
    ensures Inv(Next(s, Join(r, c)))
  {
    hide Handed, ByOthers;
    var t := Next(s, Join(r, c));
    forall q | q in t.rooms
      ensures RoomOk(t, q)
    {
      assert RoomOk(s, q);
    }
    forall d | d in t.conns
      ensures TagsOk(t, d)
    {
      assert TagsOk(s, d);
    }
    forall q, d | q in t.rooms && d in t.rooms[q].members
      ensures UpToDate(t, q, d)
    {
      if q == r && d == c && c !in s.rooms[r].members {
        NewcomerIsUpToDate(s, t, r, c);
      } else {
        assert UpToDate(s, q, d);
      }
    }
  }

  lemma NewcomerIsUpToDate(s: State, t: State, r: RoomId, c: ConnId)
    requires r in s.rooms && c in s.conns && TagsOk(s, c)
    requires r in t.rooms && RoomOk(t, r) && t.conns == s.conns && t.rooms[r].log == s.rooms[r].log && t.rooms[r].activity.Idle?
    requires c in t.rooms[r].members && t.rooms[r].members[c] == |s.rooms[r].log|
    ensures UpToDate(t, r, c)
  {
    forall i | 0 <= i < |s.conns[c].History()| && s.conns[c].History()[i].tag.Sync? && s.conns[c].History()[i].tag.room == r
      ensures s.conns[c].History()[i].tag.index < |s.rooms[r].log|
    {
      assert TagOk(s, s.conns[c].History()[i]);
    }
    HandedNothing(s.conns[c].History(), r, |s.rooms[r].log|);
  }

  lemma LeaveKeepsInv(s: State, r: RoomId, c: ConnId)
    requires Inv(s) && Enabled(s, Leave(r, c))
    ensures Inv(Next(s, Leave(r, c)))
  {
    hide Handed, ByOthers;
    var t := Next(s, Leave(r, c));
    forall q | q in t.rooms
      ensures RoomOk(t, q)
    {
      assert RoomOk(s, q);
    }
    forall d | d in t.conns
      ensures TagsOk(t, d)
    {
      assert TagsOk(s, d);
    }
    forall q, d | q in t.rooms && d in t.rooms[q].members
      ensures UpToDate(t, q, d)
    {
      assert UpToDate(s, q, d);
    }
  }

  lemma StepKeepsInv(s: State, step: Step)
    requires Inv(s) && Enabled(s, step)
    ensures Inv(Next(s, step))
  {
    hide Inv;
    match step
    case Join(r, c) => JoinKeepsInv(s, r, c);
    case Leave(r, c) => LeaveKeepsInv(s, r, c);
    case BeginSync(r, b) => BeginSyncKeepsInv(s, r, b);
    case BeginBestEffort(r, b) => ActivityKeepsInv(s, r, Walking(b.frame, Other, Others(s.rooms[r], b)));
    case Deliver(r, c, pick) =>
      if s.rooms[r].activity.tag.Sync? { DeliveryKeepsInv(s, r, c, pick); } else { BestEffortKeepsInv(s, r, c, pick); }
    case Finish(r) => ActivityKeepsInv(s, r, Idle);
    case TrySendTo(c, frame, pick) => DirectSendKeepsInv(s, c, frame, pick);
    case BlockingSendTo(c, frame, pick) => DirectSendKeepsInv(s, c, frame, pick);
    case Write(c) =>
      var conn := s.conns[c];
      assert conn.queued == [conn.queued[0]] + conn.queued[1..];
      SameHistoryKeepsInv(s, c, conn.(written := conn.written + [conn.queued[0]], queued := conn.queued[1..]));
    case Close(c) => SameHistoryKeepsInv(s, c, s.conns[c].(done := true));
  }

  lemma DirectSendKeepsInv(s: State, c: ConnId, frame: Frame, pick: bool)
    requires Inv(s) && c in s.conns
    ensures Inv(s.(conns := s.conns[c := TrySendTagged(s.conns[c], Sent(frame, Other), pick)]))
  {
    hide Inv;
    if TrySendTagged(s.conns[c], Sent(frame, Other), pick) == s.conns[c] {
      SameHistoryKeepsInv(s, c, s.conns[c]);
    } else {
      OtherFrameKeepsInv(s, c, frame);
    }
  }

  /** A server as it starts: rooms without subscribers, connections without traffic. */
  predicate Initial(s: State) {
    && (forall r | r in s.rooms :: s.rooms[r] == Room(map[], [], Idle))
    && (forall c | c in s.conns :: s.conns[c] == Conn([], [], false))
  }

  ghost predicate IsRun(s: State, steps: seq<Step>, last: State)
    decreases |steps|
  {
    if |steps| == 0 then last == s else Enabled(s, steps[0]) && IsRun(Next(s, steps[0]), steps[1..], last)
  }

  lemma {:induction false} RunKeepsInv(s: State, steps: seq<Step>, last: State)
    requires Inv(s) && IsRun(s, steps, last)
    ensures Inv(last)
    decreases |steps|
  {
    hide Inv, Next;
    if |steps| > 0 {
      StepKeepsInv(s, steps[0]);
      RunKeepsInv(Next(s, steps[0]), steps[1..], last);
    }
  }

  /** No gaps.  In every run, whenever a room is not in the middle of a broadcast, a subscriber
      that is still open has been handed every sync update that others broadcast since it
      joined, once each and in broadcast order, each with its payload.  So one that misses an
      update has been closed. */
  lemma NoGaps(s: State, steps: seq<Step>, last: State, r: RoomId, c: ConnId)
    requires Initial(s) && IsRun(s, steps, last)
    requires r in last.rooms && c in last.rooms[r].members && last.rooms[r].activity.Idle?
    ensures c in last.conns && last.rooms[r].members[c] <= |last.rooms[r].log|
    ensures !last.conns[c].done ==>
              Handed(last.conns[c].History(), r, last.rooms[r].members[c])
              == ByOthers(last.rooms[r].log, last.rooms[r].members[c], |last.rooms[r].log|, c)
    ensures forall i | 0 <= i < |last.conns[c].History()| && last.conns[c].History()[i].tag.Sync? ::
              TagOk(last, last.conns[c].History()[i])
  {
    hide Handed, ByOthers;
    assert Inv(s);
    RunKeepsInv(s, steps, last);
    assert RoomOk(last, r) && UpToDate(last, r, c) && TagsOk(last, c);
  }

  lemma {:induction false} ByOthersMembers(log: seq<Broadcast>, since: nat, upto: nat, conn: ConnId, n: nat)
    requires upto <= |log|
    ensures n in ByOthers(log, since, upto, conn) <==> since <= n < upto && log[n].skip != Some(conn)
    decreases upto
  {
    if upto > since {
      ByOthersMembers(log, since, upto - 1, conn, n);
      var before := ByOthers(log, since, upto - 1, conn);
      assert forall last: nat :: n in before + [last] <==> n in before || n == last;
    }
  }

  lemma {:induction false} ByOthersIncrease(log: seq<Broadcast>, since: nat, upto: nat, conn: ConnId, i: nat, j: nat)
    requires upto <= |log| && i < j < |ByOthers(log, since, upto, conn)|
    ensures ByOthers(log, since, upto, conn)[i] < ByOthers(log, since, upto, conn)[j]
    decreases upto
  {
    var before := ByOthers(log, since, upto - 1, conn);
    if j < |before| {
      ByOthersIncrease(log, since, upto - 1, conn, i, j);
    } else {
      ByOthersMembers(log, since, upto - 1, conn, before[i]);
    }
  }

  /** What being handed "by others" means, number by number: strictly increasing, and exactly
      the later broadcasts whose sender was somebody else. */
  lemma ByOthersMeaning(log: seq<Broadcast>, since: nat, upto: nat, conn: ConnId)
    requires upto <= |log|
    ensures var numbers := ByOthers(log, since, upto, conn);
            && (forall i, j | 0 <= i < j < |numbers| :: numbers[i] < numbers[j])
            && (forall n: nat :: n in numbers <==> since <= n < upto && log[n].skip != Some(conn))
  {
    hide ByOthers;
    forall i: nat, j: nat | i < j < |ByOthers(log, since, upto, conn)|
      ensures ByOthers(log, since, upto, conn)[i] < ByOthers(log, since, upto, conn)[j]
    {
      ByOthersIncrease(log, since, upto, conn, i, j);
    }
    forall n: nat ensures n in ByOthers(log, since, upto, conn) <==> since <= n < upto && log[n].skip != Some(conn) {
      ByOthersMembers(log, since, upto, conn, n);
    }
  }

  /** Closing is for good. */
  lemma {:induction false} ClosedStaysClosed(s: State, steps: seq<Step>, last: State, c: ConnId)
    requires IsRun(s, steps, last) && c in s.conns && s.conns[c].done
    ensures c in last.conns && last.conns[c].done
    decreases |steps|
  {
    if |steps| > 0 {
      ClosedStaysClosed(Next(s, steps[0]), steps[1..], last, c);
    }
  }
}
