/** Document rooms and their subscribers: bounded queues filled without blocking. */
module Rooms {
  import opened VarUint
  import opened Awareness

  /** The buffer of a websocket connection's send channel. */
  const SEND_BUFFER := 64

  datatype Frame = Frame(documentId: string, payload: seq<byte>)

  /** A connection as a value: frames waiting to be written, and whether it was closed. */
  datatype Queue = Queue(send: seq<Frame>, done: bool)

  /** The non-blocking send.  Both channel operations of the select may be ready at once, when
      the connection is closed and has room; the runtime then picks one, here by `pickDone`. */
  function TrySend(queue: Queue, frame: Frame, pickDone: bool): (Queue, bool) {
    if |frame.payload| == 0 then (queue, false)
    else if queue.done && (pickDone || |queue.send| >= SEND_BUFFER) then (queue, false)
    else if |queue.send| < SEND_BUFFER then (queue.(send := queue.send + [frame]), true)
    else (queue, false)
  }

  /** A sync update that cannot be enqueued closes the subscriber. */
  function SyncDelivery(queue: Queue, frame: Frame, pickDone: bool): Queue {
    var (after, sent) := TrySend(queue, frame, pickDone);
    if sent then after else after.(done := true)
  }

  /** A subscriber that is open afterwards has the frame at the end of its queue. */
  lemma DeliveredOrClosed(queue: Queue, frame: Frame, pickDone: bool)
    ensures var after := SyncDelivery(queue, frame, pickDone);
            (queue.done ==> after.done)
            && (!after.done <==> !queue.done && |frame.payload| > 0 && |queue.send| < 64)
            && (!after.done ==> after.send == queue.send + [frame])
            && (|queue.send| <= 64 ==> |after.send| <= 64)
  {
  }

  class DocumentWebsocketConn {
    var send: seq<Frame>
    var done: bool

    constructor ()
      ensures AsQueue() == Queue([], false)
    {
      send, done := [], false;
    }

    function AsQueue(): Queue
      reads this
    {
      Queue(send, done)
    }

    method Close()
      modifies this
      ensures AsQueue() == old(AsQueue()).(done := true)
    {
      done := true;
    }

    method TrySendDocument(documentId: string, payload: seq<byte>, pickDone: bool) returns (sent: bool)
      modifies this
      ensures (AsQueue(), sent) == TrySend(old(AsQueue()), Frame(documentId, payload), pickDone)
    {
      if |payload| == 0 {
        return false;
      }
      if done && (pickDone || |send| >= SEND_BUFFER) {
        return false;
      }
      if |send| < SEND_BUFFER {
        send := send + [Frame(documentId, payload)];
        return true;
      }
      return false;
    }
  }

  class DocumentRoom {
    var conns: set<DocumentWebsocketConn>
    var awareness: Known

    constructor ()
      ensures conns == {} && awareness == map[]
    {
      conns, awareness := {}, map[];
    }

    method Add(conn: DocumentWebsocketConn)
      modifies this`conns
      ensures conns == old(conns) + {conn}
    {
      conns := conns + {conn};
    }

    method Remove(conn: DocumentWebsocketConn)
      modifies this`conns
      ensures conns == old(conns) - {conn}
    {
      conns := conns - {conn};
    }

    /** Hands a frame to everybody but `skip`, in whatever order the set is walked. */
    method BroadcastSyncUpdate(documentId: string, payload: seq<byte>, skip: DocumentWebsocketConn?,
                               pickDone: map<DocumentWebsocketConn, bool>)
      requires conns <= pickDone.Keys
      modifies conns
      ensures forall conn | conn in conns ::
                conn.AsQueue() == if conn == skip then old(conn.AsQueue())
                                  else SyncDelivery(old(conn.AsQueue()), Frame(documentId, payload), pickDone[conn])
    {
      var left := conns;
      while left != {}
        invariant left <= conns
        invariant forall conn | conn in conns ::
                    conn.AsQueue() == if conn in left || conn == skip then old(conn.AsQueue())
                                      else SyncDelivery(old(conn.AsQueue()), Frame(documentId, payload), pickDone[conn])
        decreases left
      {
        var conn :| conn in left;
        left := left - {conn};
        if conn != skip {
          var sent := conn.TrySendDocument(documentId, payload, pickDone[conn]);
          if !sent {
            conn.Close();
          }
        }
      }
    }

    /** Hands out a frame that may be lost: nobody is closed over it. */
    method BroadcastDocumentBestEffort(documentId: string, payload: seq<byte>, skip: DocumentWebsocketConn?,
                                       pickDone: map<DocumentWebsocketConn, bool>)
      requires conns <= pickDone.Keys
      modifies conns
      ensures forall conn | conn in conns ::
                conn.AsQueue() == if conn == skip then old(conn.AsQueue())
                                  else TrySend(old(conn.AsQueue()), Frame(documentId, payload), pickDone[conn]).0
    {
      var left := conns;
      while left != {}
        invariant left <= conns
        invariant forall conn | conn in conns ::
                    conn.AsQueue() == if conn in left || conn == skip then old(conn.AsQueue())
                                      else TrySend(old(conn.AsQueue()), Frame(documentId, payload), pickDone[conn]).0
        decreases left
      {
        var conn :| conn in left;
        left := left - {conn};
        if conn != skip {
          var sent := conn.TrySendDocument(documentId, payload, pickDone[conn]);
        }
      }
    }

    /** Merges an awareness update; the answer lists each client whose state was taken over. */
    method ApplyAwareness(update: Known) returns (changed: seq<nat>)
      modifies this`awareness
      ensures awareness == Merged(old(awareness), update)
      ensures forall client | client in update && client !in old(awareness) :: client in changed
      ensures forall client | client in update && client in old(awareness) ::
                var held, next := old(awareness)[client], update[client];
                client in changed <==> next.clock > held.clock || (next.clock == held.clock && next.state == NULL_STATE)
      ensures forall client | client in changed :: client in update
      ensures forall i, j | 0 <= i < j < |changed| :: changed[i] != changed[j]
    {
      changed := [];
      var left := update.Keys;
      while left != {}
        invariant left <= update.Keys
        invariant forall client :: client in changed <==>
                    client in update && client !in left && Supersedes(old(awareness), client, update[client])
        invariant forall client :: client in awareness <==>
                    if client in changed then !Departs(update[client]) else client in old(awareness)
        invariant forall client | client in awareness ::
                    awareness[client] == if client in changed then update[client] else old(awareness)[client]
        invariant forall i, j | 0 <= i < j < |changed| :: changed[i] != changed[j]
        decreases left
      {
        var client :| client in left;
        left := left - {client};
        var next := update[client];
        if Supersedes(awareness, client, next) {
          if Departs(next) {
            awareness := awareness - {client};
          } else {
            awareness := awareness[client := next];
          }
          changed := changed + [client];
        }
      }
    }
  }
}
