/** The service: its connections, and the timers that report failed sends. */
module TcpServices {
  import opened Bytes
  import opened Options
  import opened Sequences
  import opened TcpMachine

  // ---------- Timers of sockets ----------

  /** The two maps are each other's inverse, and hold exactly the timers running. */
  ghost predicate Paired(timerOf: map<int, int>, socketOf: map<int, int>, running: set<int>)
  {
    && (forall s {:trigger timerOf[s]} :: s in timerOf ==> timerOf[s] in socketOf && socketOf[timerOf[s]] == s)
    && (forall t {:trigger socketOf[t]} :: t in socketOf ==> socketOf[t] in timerOf && timerOf[socketOf[t]] == t)
    && socketOf.Keys == running
  }

  lemma PairAdded(timerOf: map<int, int>, socketOf: map<int, int>, running: set<int>, s: int, t: int)
    requires Paired(timerOf, socketOf, running) && s !in timerOf && t !in running
    ensures Paired(timerOf[s := t], socketOf[t := s], running + {t})
  {
  }

  lemma PairRemoved(timerOf: map<int, int>, socketOf: map<int, int>, running: set<int>, s: int)
    requires Paired(timerOf, socketOf, running) && s in timerOf
    ensures Paired(timerOf - {s}, socketOf - {timerOf[s]}, running - {timerOf[s]})
  {
  }

  class TcpConnection {
    var status: Status
    var interest: Interest
    var error: int
    var buffer: seq<Byte>
    var callback: Option<nat>
    ghost var sent: seq<Byte>
    ghost var accepted: seq<seq<Byte>>
    ghost var refused: Option<seq<Byte>>
    ghost var completed: seq<Completion>

    ghost function View(): (c: Conn)
      reads this
    {
      Conn(status, interest, error, buffer, callback, sent, accepted, refused, completed)
    }

    constructor (connected: bool)
      ensures View() == if connected then Established() else Opening()
    {
      status := if connected then Connected else Connecting;
      interest := if connected then NoInterest else AwaitConnect;
      error, buffer, callback := 0, [], None;
      sent, accepted, refused, completed := [], [], None, [];
    }

    method SetError(errno: int)
      modifies this`status, this`error
      ensures View() == TcpMachine.SetError(old(View()), errno)
    {
      status := PendingError;
      error := errno;
    }

    method CallBack(cb: Option<nat>)
      modifies this`completed
      ensures View() == Complete(old(View()), cb)
    {
      if cb.Some? {
        completed := completed + [Completion(cb.value, |sent|, |Joined(accepted)|)];
      }
    }

    /** Sends a message, now or later; failed says that the error is still to be reported. */
    method Send(message: seq<Byte>, cb: Option<nat>, result: SendResult, max: nat) returns (ok: bool, failed: bool)
      requires Taken(result) <= |message|
      modifies this
      ensures (View(), ok) == TcpMachine.Send(old(View()), message, cb, result, max)
      ensures ok <==> old(status) == Connected && old(Accepts(View(), message, result, max))
      ensures failed <==> old(status) == Connected && !ok
    {
      if status != Connected {
        return false, false;
      }
      if |buffer| == 0 {
        var remain := |message|;
        var took := 0;
        match result {
          case SendFailed(errno) =>
            SetError(errno);
            refused := Some(message);
            return false, true;
          case WouldBlock =>
          case Sent(n) =>
            took := n;
            remain := remain - n;
        }
        sent := sent + message[..took];
        if remain > 0 {
          if max > 0 && remain + |buffer| > max {
            SetError(ENOBUFS);
            refused := Some(message);
            return false, true;
          }
          assert buffer + message[took..] == message[took..];
          buffer := buffer + message[took..];
          callback := cb;
          interest := AwaitWrite;
          accepted := accepted + [message];
        } else {
          accepted := accepted + [message];
          CallBack(cb);
        }
      } else {
        if max > 0 && |message| + |buffer| > max {
          SetError(ENOBUFS);
          refused := Some(message);
          return false, true;
        }
        buffer := buffer + message;
        callback := cb;
        accepted := accepted + [message];
      }
      return true, false;
    }

    /** The write callback of a socket with bytes buffered. */
    method OnWritable(result: SendResult) returns (failed: bool)
      requires Taken(result) <= |buffer|
      modifies this
      ensures View() == Writable(old(View()), result)
      ensures failed == result.SendFailed?
    {
      match result {
        case SendFailed(errno) =>
          SetError(errno);
          return true;
        case WouldBlock =>
        case Sent(n) =>
          sent, buffer := sent + buffer[..n], buffer[n..];
          if |buffer| == 0 {
            interest := NoInterest;
            var cb := callback;
            callback := None;
            CallBack(cb);
          }
      }
      failed := false;
    }

    /** Connecting has ended, well or with an error. */
    method OnConnectEnded(errno: int)
      modifies this`status, this`error, this`interest
      ensures View() == ConnectDone(old(View()), errno)
    {
      if errno != 0 {
        SetError(errno);
      } else {
        interest := NoInterest;
        status := Connected;
      }
    }

    /** The read callback of a socket, once what there was has been read. */
    method OnReadable(result: ReadResult)
      modifies this`status, this`error
      ensures View() == Readable(old(View()), result)
    {
      match result {
        case NothingYet =>
        case ReadFailed(errno) =>
          SetError(errno);
        case EndOfStream =>
          status := PeerClosed;
      }
    }
  }

  class TcpService {
    const maxBuffered: nat
    var sockets: set<int>
    var connections: map<int, TcpConnection>
    var contexts: map<int, int>
    var timerOf: map<int, int>
    var socketOf: map<int, int>
    var running: set<int>
    var nextTimer: int
    var reported: seq<(int, int)>
    var hungUp: seq<int>
    ghost var told: set<int>

    ghost predicate Distinct()
      reads this
    {
      forall a, b {:trigger connections[a], connections[b]} ::
        a in connections && b in connections && a != b ==> connections[a] != connections[b]
    }

    /** A failed message is reported by a running timer or has been; never both. */
    ghost predicate ReportOk(id: int)
      reads this, connections.Values
      requires id in connections
    {
      && Inv(connections[id].View())
      && (connections[id].refused.Some? <==> id in told || (id in timerOf && connections[id].interest != AwaitConnect))
      && (id in told ==> id !in timerOf)
    }

    ghost predicate TimersOk()
      reads this
    {
      && Paired(timerOf, socketOf, running)
      && timerOf.Keys <= sockets && connections.Keys <= sockets && contexts.Keys <= sockets
      && told <= connections.Keys
      && (forall t :: t in running ==> t < nextTimer)
    }

    ghost predicate Valid()
      reads this, connections.Values
    {
      && Distinct()
      && TimersOk()
      && (forall id {:trigger ReportOk(id)} :: id in connections ==> ReportOk(id))
    }

    constructor (maxBuffered: nat)
      ensures Valid() && sockets == {} && connections == map[] && contexts == map[]
    {
      this.maxBuffered := maxBuffered;
      sockets, connections, contexts := {}, map[], map[];
      timerOf, socketOf, running := map[], map[], {};
      nextTimer, reported, hungUp, told := 0, [], [], {};
    }

    /** Starts a one-shot timer for a socket. An earlier timer of the socket is no longer
        its timer, though it runs on: only without one the maps stay each other's inverse. */
    method AddSocketTimer(id: int)
      modifies this`timerOf, this`socketOf, this`running, this`nextTimer
      ensures timerOf == old(timerOf)[id := old(nextTimer)] && socketOf == old(socketOf)[old(nextTimer) := id]
      ensures running == old(running) + {old(nextTimer)} && nextTimer == old(nextTimer) + 1
      ensures old(TimersOk()) && id in sockets ==> (TimersOk() <==> id !in old(timerOf))
    {
      if TimersOk() && id in sockets && id !in timerOf {
        PairAdded(timerOf, socketOf, running, id, nextTimer);
      }
      ghost var was, earlier := TimersOk(), timerOf;
      timerOf := timerOf[id := nextTimer];
      socketOf := socketOf[nextTimer := id];
      running := running + {nextTimer};
      nextTimer := nextTimer + 1;
      if was && id in earlier {
        assert socketOf[earlier[id]] == id && timerOf[id] != earlier[id];
      }
    }

    method RemoveSocketTimer(id: int)
      requires TimersOk()
      modifies this`timerOf, this`socketOf, this`running
      ensures TimersOk()
      ensures timerOf == old(timerOf) - {id}
    {
      if id !in timerOf {
        return;
      }
      PairRemoved(timerOf, socketOf, running, id);
      var timer := timerOf[id];
      timerOf := timerOf - {id};
      socketOf := socketOf - {timer};
      running := running - {timer};
    }

    // ---------- Sending ----------

    method SendOn(id: int, message: seq<Byte>, cb: Option<nat>, result: SendResult) returns (ok: bool)
      requires Valid() && id in connections && Taken(result) <= |message|
      modifies this`timerOf, this`socketOf, this`running, this`nextTimer, connections[id]
      ensures Valid()
      ensures (connections[id].View(), ok) == Send(old(connections[id].View()), message, cb, result, maxBuffered)
      ensures ok <==> old(connections[id].status) == Connected
                      && Accepts(old(connections[id].View()), message, result, maxBuffered)
      ensures forall k :: k in connections && k != id ==> connections[k].View() == old(connections[k].View())
      ensures timerOf == if !ok && old(connections[id].status) == Connected
                         then old(timerOf)[id := old(nextTimer)] else old(timerOf)
    {
      ghost var c := connections[id].View();
      assert ReportOk(id);
      EventKeepsInv(c, SendCalled(message, cb, result), maxBuffered);
      var failed;
      ok, failed := connections[id].Send(message, cb, result, maxBuffered);
      if failed {
        AddSocketTimer(id);
      }
      RefusedOnlyNow(c, message, cb, result);
      forall k | k in connections
        ensures ReportOk(k)
      {
        assert old(ReportOk(k));
        assert k != id ==> connections[k].View() == old(connections[k].View());
      }
    }

    /** A send that is refused is the first, and the only one to be reported. */
    lemma RefusedOnlyNow(c: Conn, message: seq<Byte>, cb: Option<nat>, result: SendResult)
      requires Inv(c) && Taken(result) <= |message|
      ensures var (r, ok) := Send(c, message, cb, result, maxBuffered);
              r.refused == (if !ok && c.status == Connected then Some(message) else c.refused)
              && (c.status == Connected ==> c.refused == None)
              && (r.interest == AwaitConnect <==> c.interest == AwaitConnect)
    {
    }

    method SendMessage(id: int, message: seq<Byte>, cb: Option<nat>, result: SendResult) returns (ok: bool)
      requires Valid() && Taken(result) <= |message|
      modifies this`timerOf, this`socketOf, this`running, this`nextTimer, connections.Values
      ensures Valid()
      ensures id !in connections ==> !ok
      ensures id in connections ==>
                (connections[id].View(), ok) == Send(old(connections[id].View()), message, cb, result, maxBuffered)
                && (ok <==> old(connections[id].status) == Connected
                            && Accepts(old(connections[id].View()), message, result, maxBuffered))
      ensures forall k :: k in connections && k != id ==> connections[k].View() == old(connections[k].View())
      ensures timerOf == if !ok && id in connections && old(connections[id].status) == Connected
                         then old(timerOf)[id := old(nextTimer)] else old(timerOf)
    {
      if id !in connections {
        return false;
      }
      ok := SendOn(id, message, cb, result);
    }

    /** An order in which the map of connections may be walked. */
    ghost predicate IsWalk(order: seq<int>)
      reads this
    {
      && (forall i :: 0 <= i < |order| ==> order[i] in connections)
      && (forall id :: id in connections ==> id in order)
      && (forall i, j :: 0 <= i < j < |order| ==> order[i] != order[j])
    }

    /** Every connection is given the message once; nobody is called back. */
    method BroadcastMessage(message: seq<Byte>, order: seq<int>, results: seq<SendResult>)
      requires Valid() && IsWalk(order) && |results| == |order|
      requires forall k {:trigger results[k]} :: 0 <= k < |order| ==> Taken(results[k]) <= |message|
      modifies this`timerOf, this`socketOf, this`running, this`nextTimer, connections.Values
      ensures Valid()
      ensures forall k {:trigger order[k]} :: 0 <= k < |order| ==>
                (var was := old(connections[order[k]].View());
                 connections[order[k]].View() == Send(was, message, None, results[k], maxBuffered).0)
    {
      for i := 0 to |order|
        invariant Valid()
        invariant forall k {:trigger order[k]} :: i <= k < |order| ==>
                    connections[order[k]].View() == old(connections[order[k]].View())
        invariant forall k {:trigger order[k]} :: 0 <= k < i ==>
                    (var was := old(connections[order[k]].View());
                     connections[order[k]].View() == Send(was, message, None, results[k], maxBuffered).0)
      {
        var id := order[i];
        assert forall k {:trigger order[k]} :: 0 <= k < |order| && k != i ==> order[k] != id;
        var ok := SendOn(id, message, None, results[i]);
      }
    }

    // ---------- What the event loop calls ----------

    method OnSocketWrite(id: int, result: SendResult)
      requires Valid()
      requires id in connections ==> connections[id].interest == AwaitWrite && Taken(result) <= |connections[id].buffer|
      modifies this`reported, connections.Values
      ensures Valid()
      ensures id in connections ==> connections[id].View() == Writable(old(connections[id].View()), result)
      ensures forall k :: k in connections && k != id ==> connections[k].View() == old(connections[k].View())
      ensures reported == old(reported)
                + (if id in connections && result.SendFailed? then [(id, result.errno)] else [])
    {
      if id !in connections {
        return;
      }
      assert ReportOk(id);
      EventKeepsInv(connections[id].View(), SocketWritable(result), maxBuffered);
      var failed := connections[id].OnWritable(result);
      if failed {
        reported := reported + [(id, connections[id].error)];
      }
      forall k | k in connections
        ensures ReportOk(k)
      {
        assert old(ReportOk(k));
      }
    }

    /** The timer of a failed send runs out: the error is told, once. */
    method OnSendMessageError(timer: int)
      requires Valid()
      requires timer in socketOf ==>
                 socketOf[timer] in connections && connections[socketOf[timer]].interest != AwaitConnect
      modifies this`timerOf, this`socketOf, this`running, this`reported, this`told
      ensures Valid()
      ensures timer !in old(socketOf) ==> reported == old(reported)
      ensures timer in old(socketOf) ==>
                var id := old(socketOf)[timer];
                id in connections && connections[id].refused.Some? && id !in old(told)
                && told == old(told) + {id} && timerOf == old(timerOf) - {id}
                && reported == old(reported) + [(id, connections[id].error)]
    {
      if timer !in socketOf {
        return;
      }
      var id := socketOf[timer];
      assert ReportOk(id);
      PairRemoved(timerOf, socketOf, running, id);
      socketOf := socketOf - {timer};
      running := running - {timer};
      timerOf := timerOf - {id};
      reported := reported + [(id, connections[id].error)];
      told := told + {id};
      forall k | k in connections
        ensures ReportOk(k)
      {
        assert old(ReportOk(k));
      }
    }

    /** The socket is forgotten, with its timer, its connection and its context, and with
        whatever was still to be told. */
    method CloseSocket(id: int)
      requires Valid()
      modifies this`sockets, this`connections, this`contexts, this`timerOf, this`socketOf, this`running, this`told
      ensures Valid()
      ensures sockets == old(sockets) - {id} && contexts == old(contexts) - {id}
      ensures connections == old(connections) - {id} && timerOf == old(timerOf) - {id}
      ensures forall k :: k in connections ==> connections[k].View() == old(connections[k].View())
    {
      RemoveSocketTimer(id);
      connections := connections - {id};
      sockets := sockets - {id};
      contexts := contexts - {id};
      told := told - {id};
      forall k | k in connections
        ensures ReportOk(k)
      {
        assert old(ReportOk(k));
      }
    }

    /** A socket that is there gets a context in place of the one it had. */
    method SetContext(id: int, context: int) returns (ok: bool)
      requires Valid()
      modifies this`contexts
      ensures Valid()
      ensures ok <==> id in sockets
      ensures contexts == if ok then old(contexts)[id := context] else old(contexts)
    {
      if id !in sockets {
        return false;
      }
      if id in contexts {
        if contexts[id] == context {
          return true;
        }
        contexts := contexts - {id};
      }
      contexts := contexts[id := context];
      ok := true;
      forall k | k in connections
        ensures ReportOk(k)
      {
        assert old(ReportOk(k));
      }
    }

    /** A listening socket is there without a connection. */
    method BuildListenSocket(id: int) returns (ok: bool)
      requires Valid()
      modifies this`sockets
      ensures Valid()
      ensures ok <==> id !in old(sockets)
      ensures sockets == old(sockets) + {id}
    {
      if id in sockets {
        return false;
      }
      sockets := sockets + {id};
      ok := true;
      forall k | k in connections
        ensures ReportOk(k)
      {
        assert old(ReportOk(k));
      }
    }

    /** A socket whose connection is there at once, or (with a timer, if a limit is
        set) still to be made. */
    method BuildConnection(id: int, connected: bool, timeout: int) returns (ok: bool)
      requires Valid()
      modifies this`sockets, this`connections, this`timerOf, this`socketOf, this`running, this`nextTimer
      ensures Valid()
      ensures ok <==> id !in old(sockets)
      ensures !ok ==> sockets == old(sockets) && connections == old(connections) && timerOf == old(timerOf)
      ensures ok ==> sockets == old(sockets) + {id} && id in connections && fresh(connections[id]) && connections - {id} == old(connections)
                     && connections[id].View() == (if connected then Established() else Opening())
                     && (id in timerOf <==> !connected && timeout > 0)
      ensures forall k :: k in old(connections) ==> connections[k].View() == old(connections[k].View())
    {
      if id in sockets {
        return false;
      }
      if id in connections {
        return false;
      }
      StartInv();
      var connection := new TcpConnection(connected);
      sockets := sockets + {id};
      connections := connections[id := connection];
      if !connected && timeout > 0 {
        AddSocketTimer(id);
      }
      forall k | k in connections
        ensures ReportOk(k)
      {
        if k != id {
          assert old(ReportOk(k));
        }
      }
      ok := true;
    }

    /** An attempt to connect ends: its timer stops, and it is connected or in error. */
    method OnAsyncConnectSocketWrite(id: int, errno: int)
      requires Valid()
      requires id in connections ==> connections[id].interest == AwaitConnect
      modifies this`timerOf, this`socketOf, this`running, this`reported, connections.Values
      ensures Valid()
      ensures timerOf == old(timerOf) - {id}
      ensures id in connections ==> connections[id].View() == ConnectDone(old(connections[id].View()), errno)
      ensures reported == old(reported) + (if id in connections && errno != 0 then [(id, errno)] else [])
      ensures forall k :: k in connections && k != id ==> connections[k].View() == old(connections[k].View())
    {
      RemoveSocketTimer(id);
      if id in connections {
        assert old(ReportOk(id));
        EventKeepsInv(connections[id].View(), ConnectEnded(errno), maxBuffered);
        connections[id].OnConnectEnded(errno);
        reported := reported + if errno != 0 then [(id, errno)] else [];
      }
      forall k | k in connections
        ensures ReportOk(k)
      {
        assert old(ReportOk(k));
        assert k != id ==> connections[k].View() == old(connections[k].View());
      }
    }

    /** The limit on connecting runs out: the connection is in error, the timer spent. */
    method OnAsyncConnectTimeout(timer: int)
      requires Valid()
      requires timer in socketOf ==>
                 socketOf[timer] in connections && connections[socketOf[timer]].interest == AwaitConnect
      modifies this`timerOf, this`socketOf, this`running, this`reported, connections.Values
      ensures Valid()
      ensures timer !in old(socketOf) ==> reported == old(reported)
      ensures timer in old(socketOf) ==>
                var id := old(socketOf)[timer];
                id in connections && timerOf == old(timerOf) - {id}
                && connections[id].View() == SetError(old(connections[id].View()), ETIMEDOUT)
                && reported == old(reported) + [(id, ETIMEDOUT)]
      ensures forall k :: k in connections && (timer in old(socketOf) ==> k != old(socketOf)[timer]) ==>
                connections[k].View() == old(connections[k].View())
    {
      if timer !in socketOf {
        return;
      }
      var id := socketOf[timer];
      assert ReportOk(id);
      PairRemoved(timerOf, socketOf, running, id);
      EventKeepsInv(connections[id].View(), ConnectTimeout, maxBuffered);
      socketOf := socketOf - {timer};
      running := running - {timer};
      timerOf := timerOf - {id};
      connections[id].SetError(ETIMEDOUT);
      reported := reported + [(id, connections[id].error)];
      forall k | k in connections
        ensures ReportOk(k)
      {
        assert old(ReportOk(k));
        assert k != id ==> connections[k].View() == old(connections[k].View());
      }
    }

    /** The read callback, once what there was has been read: the peer may have closed,
        or reading failed. */
    method OnSocketRead(id: int, result: ReadResult)
      requires Valid()
      requires id in connections ==> connections[id].interest != AwaitConnect
      modifies this`reported, this`hungUp, connections.Values
      ensures Valid()
      ensures id in connections ==> connections[id].View() == Readable(old(connections[id].View()), result)
      ensures forall k :: k in connections && k != id ==> connections[k].View() == old(connections[k].View())
      ensures reported == old(reported) + (if id in connections && result.ReadFailed? then [(id, result.errno)] else [])
      ensures hungUp == old(hungUp) + (if id in connections && result.EndOfStream? then [id] else [])
    {
      if id !in connections {
        return;
      }
      assert ReportOk(id);
      EventKeepsInv(connections[id].View(), SocketReadable(result), maxBuffered);
      connections[id].OnReadable(result);
      reported := reported + if result.ReadFailed? then [(id, result.errno)] else [];
      hungUp := hungUp + if result.EndOfStream? then [id] else [];
      ReadingRefusesNothing(old(connections[id].View()), result);
      forall k | k in connections
        ensures ReportOk(k)
      {
        assert old(ReportOk(k));
        assert k != id ==> connections[k].View() == old(connections[k].View());
      }
    }

    lemma ReadingRefusesNothing(c: Conn, result: ReadResult)
      ensures Readable(c, result).refused == c.refused && Readable(c, result).interest == c.interest
    {
    }

    /** The error callback of a socket, whatever it is doing. */
    method OnSocketError(id: int, errno: int)
      requires Valid()
      modifies this`reported, connections.Values
      ensures Valid()
      ensures id in connections ==> connections[id].View() == SetError(old(connections[id].View()), errno)
      ensures forall k :: k in connections && k != id ==> connections[k].View() == old(connections[k].View())
      ensures reported == old(reported) + (if id in connections then [(id, errno)] else [])
    {
      if id !in connections {
        return;
      }
      assert ReportOk(id);
      EventKeepsInv(connections[id].View(), SocketError(errno), maxBuffered);
      connections[id].SetError(errno);
      reported := reported + [(id, errno)];
      forall k | k in connections
        ensures ReportOk(k)
      {
        assert old(ReportOk(k));
      }
    }
  }
}
