/** The sending side of one TCP connection against an adversarial socket. */
module TcpMachine {
  import opened Bytes
  import opened Options
  import opened Sequences

  datatype Status = Connecting | Connected | PeerClosed | PendingError

  /** Which write callback the socket has: none, the one that ends connecting,
      or the one that sends what is buffered. */
  datatype Interest = NoInterest | AwaitConnect | AwaitWrite

  /** What the system says to a send: part taken, nothing now, or an error. */
  datatype SendResult = Sent(n: nat) | WouldBlock | SendFailed(errno: int)

  datatype ReadResult = NothingYet | EndOfStream | ReadFailed(errno: int)

  /** A send-complete callback called, with how much had been taken and accepted then. */
  datatype Completion = Completion(callback: nat, sent: nat, accepted: nat)

  const ENOBUFS: int := 105
  const ETIMEDOUT: int := 110

  /** sent, accepted, refused and completed record what has happened: the bytes the
      socket took, the messages taken on, the message that failed, the callbacks. */
  datatype Conn = Conn(
    status: Status,
    interest: Interest,
    error: int,
    buffer: seq<Byte>,
    callback: Option<nat>,
    sent: seq<Byte>,
    accepted: seq<seq<Byte>>,
    refused: Option<seq<Byte>>,
    completed: seq<Completion>
  )

  function Established(): (c: Conn) { Conn(Connected, NoInterest, 0, [], None, [], [], None, []) }

  function Opening(): (c: Conn) { Conn(Connecting, AwaitConnect, 0, [], None, [], [], None, []) }

  function Complete(c: Conn, callback: Option<nat>): (r: Conn)
  {
    if callback.None? then c
    else c.(completed := c.completed + [Completion(callback.value, |c.sent|, |Joined(c.accepted)|)])
  }

  function SetError(c: Conn, errno: int): (r: Conn) { c.(status := PendingError, error := errno) }

  function Refuse(c: Conn, errno: int, message: seq<Byte>): (r: Conn)
  {
    SetError(c, errno).(refused := Some(message))
  }

  predicate Fits(size: nat, max: nat) { max == 0 || size <= max }

  function Taken(result: SendResult): (n: nat) { if result.Sent? then result.n else 0 }

  /** The message handed to the socket at once, nothing being buffered. */
  function SendDirect(c: Conn, message: seq<Byte>, callback: Option<nat>, result: SendResult, max: nat): (r: (Conn, bool))
    requires Taken(result) <= |message|
  {
    if result.SendFailed? then (Refuse(c, result.errno, message), false)
    else
      var n := Taken(result);
      var took := c.(sent := c.sent + message[..n]);
      if n == |message| then
        (Complete(took.(accepted := c.accepted + [message]), callback), true)
      else if !Fits(|message| - n, max) then (Refuse(took, ENOBUFS, message), false)
      else
        (took.(buffer := message[n..], callback := callback, interest := AwaitWrite,
               accepted := c.accepted + [message]), true)
  }

  function SendBehind(c: Conn, message: seq<Byte>, callback: Option<nat>, max: nat): (r: (Conn, bool))
  {
    if !Fits(|message| + |c.buffer|, max) then (Refuse(c, ENOBUFS, message), false)
    else
      (c.(buffer := c.buffer + message, callback := callback, accepted := c.accepted + [message]), true)
  }

  function Send(c: Conn, message: seq<Byte>, callback: Option<nat>, result: SendResult, max: nat): (r: (Conn, bool))
    requires Taken(result) <= |message|
  {
    if c.status != Connected then (c, false)
    else if c.buffer == [] then SendDirect(c, message, callback, result, max)
    else SendBehind(c, message, callback, max)
  }

  function Writable(c: Conn, result: SendResult): (r: Conn)
    requires Taken(result) <= |c.buffer|
  {
    match result
    case SendFailed(errno) => SetError(c, errno)
    case WouldBlock => c
    case Sent(n) =>
      var took := c.(sent := c.sent + c.buffer[..n], buffer := c.buffer[n..]);
      if n < |c.buffer| then took
      else Complete(took.(interest := NoInterest, callback := None), c.callback)
  }

  function Readable(c: Conn, result: ReadResult): (r: Conn)
  {
    match result
    case NothingYet => c
    case EndOfStream => c.(status := PeerClosed)
    case ReadFailed(errno) => SetError(c, errno)
  }

  function ConnectDone(c: Conn, errno: int): (r: Conn)
  {
    if errno != 0 then SetError(c, errno) else c.(status := Connected, interest := NoInterest)
  }

  // ---------- Runs ----------

  datatype Event =
    | SendCalled(message: seq<Byte>, callback: Option<nat>, sendResult: SendResult)
    | SocketWritable(sendResult: SendResult)
    | SocketReadable(readResult: ReadResult)
    | SocketError(errno: int)
    | ConnectEnded(errno: int)
    | ConnectTimeout

  /** What the event loop can do: it calls the write callback there is, and a send
      takes no more than it was given. */
  predicate Enabled(c: Conn, e: Event)
  {
    match e
    case SendCalled(message, callback, result) => Taken(result) <= |message|
    case SocketWritable(result) => c.interest == AwaitWrite && Taken(result) <= |c.buffer|
    case SocketReadable(result) => c.interest != AwaitConnect
    case SocketError(errno) => true
    case ConnectEnded(errno) => c.interest == AwaitConnect
    case ConnectTimeout => c.interest == AwaitConnect
  }

  function Apply(c: Conn, e: Event, max: nat): (r: Conn)
    requires Enabled(c, e)
  {
    match e
    case SendCalled(message, callback, result) => Send(c, message, callback, result, max).0
    case SocketWritable(result) => Writable(c, result)
    case SocketReadable(result) => Readable(c, result)
    case SocketError(errno) => SetError(c, errno)
    case ConnectEnded(errno) => ConnectDone(c, errno)
    case ConnectTimeout => SetError(c, ETIMEDOUT)
  }

  predicate IsPrefix(a: seq<Byte>, b: seq<Byte>) { |a| <= |b| && b[..|a|] == a }

  /** Nothing taken on is lost, doubled or reordered; stray bytes can only be the
      start of the one message that failed, with nothing behind them. */
  predicate Conserved(c: Conn)
  {
    var all := c.sent + c.buffer;
    var accepted := Joined(c.accepted);
    IsPrefix(accepted, all)
    && (|all| > |accepted| ==>
          c.refused.Some? && c.buffer == [] && IsPrefix(all[|accepted|..], c.refused.value))
  }

  predicate CompletionsAreTrue(c: Conn)
  {
    forall i :: 0 <= i < |c.completed| ==> c.completed[i].sent == c.completed[i].accepted
  }

  predicate Inv(c: Conn)
  {
    && Conserved(c)
    && CompletionsAreTrue(c)
    && (c.interest == AwaitConnect ==>
          c.status in {Connecting, PendingError} && c.buffer == [] && c.accepted == [] && c.refused.None?)
    && (c.interest != AwaitConnect ==> c.status != Connecting && (c.interest == AwaitWrite <==> c.buffer != []))
    && (c.buffer == [] ==> c.callback.None?)
    && (c.status == Connected ==> c.refused.None?)
  }

  lemma StartInv()
    ensures Inv(Established()) && Inv(Opening())
  {
  }

  /** Without a failed message, taken and buffered together are what was accepted. */
  lemma ConservedExactly(c: Conn)
    requires Conserved(c) && c.refused.None?
    ensures c.sent + c.buffer == Joined(c.accepted)
  {
    assert (c.sent + c.buffer)[..|c.sent + c.buffer|] == c.sent + c.buffer;
  }

  lemma ConservedFrom(c: Conn, stray: seq<Byte>)
    requires c.sent + c.buffer == Joined(c.accepted) + stray
    requires stray != [] ==> c.refused.Some? && c.buffer == [] && IsPrefix(stray, c.refused.value)
    ensures Conserved(c)
  {
    var all := c.sent + c.buffer;
    assert all[|Joined(c.accepted)|..] == stray;
  }

  lemma SendDirectKeeps(c: Conn, message: seq<Byte>, callback: Option<nat>, result: SendResult, max: nat)
    requires Inv(c) && c.status == Connected && c.buffer == [] && Taken(result) <= |message|
    ensures Inv(SendDirect(c, message, callback, result, max).0)
  {
    var n := Taken(result);
    var r := SendDirect(c, message, callback, result, max).0;
    ConservedExactly(c);
    assert c.sent == Joined(c.accepted);
    PartsTaken(c, message, n);
    if result.SendFailed? {
      ConservedFrom(r, []);
    } else if n < |message| && !Fits(|message| - n, max) {
      ConservedFrom(r, message[..n]);
    } else {
      ConservedFrom(r, []);
    }
  }

  /** What was sent, and the parts of a message behind it. */
  lemma PartsTaken(c: Conn, message: seq<Byte>, n: nat)
    requires c.sent == Joined(c.accepted) && c.buffer == [] && n <= |message|
    ensures c.sent + c.buffer == Joined(c.accepted) + []
    ensures c.sent + message[..n] + c.buffer == Joined(c.accepted) + message[..n]
    ensures c.sent + message[..n] + message[n..] == Joined(c.accepted + [message]) + []
    ensures n == |message| ==> c.sent + message[..n] + c.buffer == Joined(c.accepted + [message]) + []
  {
    JoinedAppend(c.accepted, message);
    assert message[..n] + message[n..] == message;
    Associative(c.sent, message[..n], message[n..]);
  }

  lemma SendBehindKeeps(c: Conn, message: seq<Byte>, callback: Option<nat>, max: nat)
    requires Inv(c) && c.status == Connected && c.buffer != []
    ensures Inv(SendBehind(c, message, callback, max).0)
  {
    var r := SendBehind(c, message, callback, max).0;
    ConservedExactly(c);
    JoinedAppend(c.accepted, message);
    assert c.sent + (c.buffer + message) == c.sent + c.buffer + message;
    assert r.sent + r.buffer == Joined(r.accepted) + [];
    ConservedFrom(r, []);
  }

  lemma WritableKeeps(c: Conn, result: SendResult)
    requires Inv(c) && c.interest == AwaitWrite && Taken(result) <= |c.buffer|
    ensures Inv(Writable(c, result))
  {
    var r := Writable(c, result);
    if result.Sent? {
      assert c.sent + c.buffer[..result.n] + c.buffer[result.n..] == c.sent + c.buffer;
      assert r.sent + r.buffer == c.sent + c.buffer;
      var accepted := Joined(c.accepted);
      assert |c.sent + c.buffer| == |accepted|;
    }
  }

  lemma EventKeepsInv(c: Conn, e: Event, max: nat)
    requires Inv(c) && Enabled(c, e)
    ensures Inv(Apply(c, e, max))
  {
    match e {
      case SendCalled(message, callback, result) =>
        if c.status == Connected {
          if c.buffer == [] {
            SendDirectKeeps(c, message, callback, result, max);
          } else {
            SendBehindKeeps(c, message, callback, max);
          }
        }
      case SocketWritable(result) => WritableKeeps(c, result);
      case _ =>
    }
  }

  predicate IsRun(c: Conn, events: seq<Event>, max: nat)
    decreases |events|
  {
    events == [] || (Enabled(c, events[0]) && IsRun(Apply(c, events[0], max), events[1..], max))
  }

  function After(c: Conn, events: seq<Event>, max: nat): (r: Conn)
    requires IsRun(c, events, max)
    decreases |events|
  {
    if events == [] then c else After(Apply(c, events[0], max), events[1..], max)
  }

  /** For every interleaving and every way the socket takes bytes. */
  lemma {:induction false} EveryRunKeepsInv(c: Conn, events: seq<Event>, max: nat)
    requires Inv(c) && IsRun(c, events, max)
    ensures Inv(After(c, events, max))
    decreases |events|
  {
    if events != [] {
      EventKeepsInv(c, events[0], max);
      EveryRunKeepsInv(Apply(c, events[0], max), events[1..], max);
    }
  }

  lemma EventAfterFailure(c: Conn, e: Event, max: nat)
    requires Inv(c) && Enabled(c, e) && c.status != Connected && c.interest != AwaitConnect
    ensures var r := Apply(c, e, max);
            r.status != Connected && r.interest != AwaitConnect && r.accepted == c.accepted && r.refused == c.refused
            && r.sent + r.buffer == c.sent + c.buffer
  {
    if e.SocketWritable? && e.sendResult.Sent? {
      var n := e.sendResult.n;
      Associative(c.sent, c.buffer[..n], c.buffer[n..]);
      assert c.buffer[..n] + c.buffer[n..] == c.buffer;
    }
  }

  /** Once an established connection is no longer connected, no message is accepted
      and none is recorded as failed: what the socket may still take is fixed. */
  lemma {:induction false} FailureIsFinal(c: Conn, events: seq<Event>, max: nat)
    requires Inv(c) && IsRun(c, events, max)
    requires c.status != Connected && c.interest != AwaitConnect
    ensures var r := After(c, events, max);
            r.status != Connected && r.accepted == c.accepted && r.refused == c.refused
            && r.sent + r.buffer == c.sent + c.buffer
    decreases |events|
  {
    if events != [] {
      var d := Apply(c, events[0], max);
      EventKeepsInv(c, events[0], max);
      EventAfterFailure(c, events[0], max);
      FailureIsFinal(d, events[1..], max);
    }
  }

  /** While connecting, whatever its status, an attempt can still end in a connection. */
  lemma AttemptCanSucceed(c: Conn, max: nat)
    requires c.interest == AwaitConnect
    ensures IsRun(c, [ConnectEnded(0)], max) && After(c, [ConnectEnded(0)], max).status == Connected
  {
    assert [ConnectEnded(0)][1..] == [];
    assert IsRun(ConnectDone(c, 0), [], max);
  }

  /** A connection that is not connected never gets connected, over any run, exactly
      if it is not still being made. */
  lemma NeverConnectedAgain(c: Conn, max: nat)
    requires Inv(c) && c.status != Connected
    ensures (forall events :: IsRun(c, events, max) ==> After(c, events, max).status != Connected)
       <==> c.interest != AwaitConnect
  {
    if c.interest == AwaitConnect {
      AttemptCanSucceed(c, max);
    } else {
      forall events | IsRun(c, events, max)
        ensures After(c, events, max).status != Connected
      {
        FailureIsFinal(c, events, max);
      }
    }
  }

  // ---------- What is accepted, and what becomes of it ----------

  /** The bytes of a message that the socket takes when it is sent: it is asked only while
      nothing is buffered. */
  function TakenAtOnce(c: Conn, result: SendResult): (n: nat)
  {
    if c.buffer == [] then Taken(result) else 0
  }

  /** A connected socket accepts a message unless it fails at once, or what would then be
      buffered exceeds the limit. With nothing left to buffer the limit does not matter. */
  predicate Accepts(c: Conn, message: seq<Byte>, result: SendResult, max: nat)
    requires Taken(result) <= |message|
  {
    if c.buffer != [] then max == 0 || |c.buffer| + |message| <= max
    else !result.SendFailed? && (max == 0 || Taken(result) == |message| || |message| - Taken(result) <= max)
  }

  lemma SendIsAcceptedOrFails(c: Conn, message: seq<Byte>, callback: Option<nat>, result: SendResult, max: nat)
    requires Inv(c) && c.status == Connected && Taken(result) <= |message|
    ensures var (r, ok) := Send(c, message, callback, result, max);
            (ok <==> Accepts(c, message, result, max))
            && |r.sent| == |c.sent| + TakenAtOnce(c, result)
            && (ok ==> r.sent + r.buffer == c.sent + c.buffer + message)
            && r.accepted == c.accepted + (if ok then [message] else [])
            && r.status == (if ok then Connected else PendingError)
            && r.refused == (if ok then None else Some(message))
            && r.error == (if ok then c.error else if c.buffer == [] && result.SendFailed? then result.errno else ENOBUFS)
    ensures var (r, ok) := Send(c, message, callback, result, max);
            (c.buffer != [] ==> r.buffer == c.buffer + (if ok then message else []))
            && (c.buffer == [] ==> r.buffer == if ok then message[Taken(result)..] else [])
  {
    var n := TakenAtOnce(c, result);
    if c.buffer == [] {
      Associative(c.sent, message[..n], message[n..]);
      assert message[..n] + message[n..] == message;
      assert c.sent + [] == c.sent && c.sent + message[..n] + [] == c.sent + message[..n];
    } else {
      Associative(c.sent, c.buffer, message);
    }
  }

  /** The callback of an accepted message is called at once if nothing is left to buffer,
      and waits for the buffer to empty otherwise. */
  lemma SendKeepsItsCallback(c: Conn, message: seq<Byte>, callback: Option<nat>, result: SendResult, max: nat)
    requires Inv(c) && c.status == Connected && Taken(result) <= |message| && Accepts(c, message, result, max)
    ensures var r := Send(c, message, callback, result, max).0;
            if r.buffer != [] then r.completed == c.completed && r.callback == callback && r.interest == AwaitWrite
            else r.callback == None && r.interest == NoInterest
                 && |r.completed| == |c.completed| + (if callback.Some? then 1 else 0)
                 && (callback.Some? ==> r.completed[|c.completed|].callback == callback.value)
  {
  }

  /** A write callback hands over exactly the bytes the socket takes, from the front. */
  lemma WriteHandsOver(c: Conn, result: SendResult)
    requires Inv(c) && c.interest == AwaitWrite && Taken(result) <= |c.buffer|
    ensures var r := Writable(c, result);
            r.sent + r.buffer == c.sent + c.buffer && |r.sent| == |c.sent| + Taken(result)
            && r.accepted == c.accepted && r.refused == c.refused
            && r.status == (if result.SendFailed? then PendingError else c.status)
            && (result.SendFailed? ==> r.error == result.errno)
            && (r.buffer != [] ==> r.completed == c.completed && r.callback == c.callback)
  {
    if result.Sent? {
      assert c.buffer[..result.n] + c.buffer[result.n..] == c.buffer;
      Associative(c.sent, c.buffer[..result.n], c.buffer[result.n..]);
    }
  }

  /** How many bytes the socket takes over a run. */
  function SocketTook(c: Conn, events: seq<Event>, max: nat): (n: nat)
    requires IsRun(c, events, max)
    decreases |events|
  {
    if events == [] then 0
    else
      var n :=
        match events[0]
        case SendCalled(message, callback, result) => if c.status == Connected then TakenAtOnce(c, result) else 0
        case SocketWritable(result) => Taken(result)
        case _ => 0;
      n + SocketTook(Apply(c, events[0], max), events[1..], max)
  }

  /** Over every run the bytes recorded as sent are as many as the socket took. Which they
      are, EveryRunKeepsInv tells. */
  lemma {:induction false} EveryByteTakenIsSent(c: Conn, events: seq<Event>, max: nat)
    requires Inv(c) && IsRun(c, events, max)
    ensures |After(c, events, max).sent| == |c.sent| + SocketTook(c, events, max)
    decreases |events|
  {
    if events != [] {
      var e := events[0];
      EventKeepsInv(c, e, max);
      if e.SendCalled? && c.status == Connected {
        SendIsAcceptedOrFails(c, e.message, e.callback, e.sendResult, max);
      } else if e.SocketWritable? {
        WriteHandsOver(c, e.sendResult);
      }
      EveryByteTakenIsSent(Apply(c, e, max), events[1..], max);
    }
  }

  /** Nothing goes wrong: no error and no end of the stream. */
  predicate Undisturbed(e: Event)
  {
    match e
    case SendCalled(message, callback, result) => !result.SendFailed?
    case SocketWritable(result) => !result.SendFailed?
    case SocketReadable(result) => result == NothingYet
    case _ => false
  }

  function Messages(events: seq<Event>): (ms: seq<seq<Byte>>)
  {
    if events == [] then []
    else (if events[0].SendCalled? then [events[0].message] else []) + Messages(events[1..])
  }

  /** Without a limit and without errors, every message is accepted over every run; the
      bytes taken by the socket and the bytes buffered are the messages joined. */
  lemma {:induction false} EverythingIsAccepted(c: Conn, events: seq<Event>)
    requires Inv(c) && c.status == Connected && IsRun(c, events, 0)
    requires forall i {:trigger events[i]} :: 0 <= i < |events| ==> Undisturbed(events[i])
    ensures var r := After(c, events, 0);
            r.status == Connected && r.accepted == c.accepted + Messages(events)
            && r.sent + r.buffer == Joined(r.accepted)
    decreases |events|
  {
    if events == [] {
      ConservedExactly(c);
      assert c.accepted + [] == c.accepted;
    } else {
      var e := events[0];
      var d := Apply(c, e, 0);
      assert Undisturbed(events[0]);
      EventKeepsInv(c, e, 0);
      if e.SendCalled? {
        SendIsAcceptedOrFails(c, e.message, e.callback, e.sendResult, 0);
      } else if e.SocketWritable? {
        WriteHandsOver(c, e.sendResult);
      }
      assert d.accepted == c.accepted + (if e.SendCalled? then [e.message] else []);
      EverythingIsAccepted(d, events[1..]);
      Associative(c.accepted, if e.SendCalled? then [e.message] else [], Messages(events[1..]));
    }
  }

  // ---------- What goes wrong ----------

  datatype Trouble = PeerGone | Fault(errno: int)

  /** What an event does to an established connection, if anything. */
  function TroubleIn(c: Conn, e: Event, max: nat): (t: Option<Trouble>)
    requires Enabled(c, e)
  {
    match e
    case SendCalled(message, callback, result) =>
      if c.status != Connected || Accepts(c, message, result, max) then None
      else if c.buffer == [] && result.SendFailed? then Some(Fault(result.errno))
      else Some(Fault(ENOBUFS))
    case SocketWritable(result) => if result.SendFailed? then Some(Fault(result.errno)) else None
    case SocketReadable(result) =>
      if result == NothingYet then None else if result == EndOfStream then Some(PeerGone) else Some(Fault(result.errno))
    case SocketError(errno) => Some(Fault(errno))
    case _ => None
  }

  function LastTrouble(c: Conn, events: seq<Event>, max: nat): (t: Option<Trouble>)
    requires IsRun(c, events, max)
    decreases |events|
  {
    if events == [] then None
    else
      var later := LastTrouble(Apply(c, events[0], max), events[1..], max);
      if later.Some? then later else TroubleIn(c, events[0], max)
  }

  lemma TroubleShows(c: Conn, e: Event, max: nat)
    requires Inv(c) && c.interest != AwaitConnect && Enabled(c, e)
    ensures var r := Apply(c, e, max);
            r.interest != AwaitConnect
            && match TroubleIn(c, e, max)
               case None => r.status == c.status && r.error == c.error
               case Some(PeerGone) => r.status == PeerClosed && r.error == c.error
               case Some(Fault(errno)) => r.status == PendingError && r.error == errno
  {
    if e.SendCalled? && c.status == Connected {
      SendIsAcceptedOrFails(c, e.message, e.callback, e.sendResult, max);
    }
  }

  /** The status of an established connection tells the last thing that went wrong, over
      every run: nothing, the end of the stream, or the error with that number. */
  lemma {:induction false} StatusTellsLastTrouble(c: Conn, events: seq<Event>, max: nat)
    requires Inv(c) && c.interest != AwaitConnect && IsRun(c, events, max)
    ensures var r := After(c, events, max);
            match LastTrouble(c, events, max)
            case None => r.status == c.status && r.error == c.error
            case Some(PeerGone) => r.status == PeerClosed
            case Some(Fault(errno)) => r.status == PendingError && r.error == errno
    decreases |events|
  {
    if events != [] {
      TroubleShows(c, events[0], max);
      EventKeepsInv(c, events[0], max);
      StatusTellsLastTrouble(Apply(c, events[0], max), events[1..], max);
    }
  }

  /** An attempt ends in a connection or in the error told; running out of time is an error, too. */
  lemma AttemptEnds(c: Conn, errno: int, max: nat)
    requires Inv(c) && c.interest == AwaitConnect
    ensures var r := Apply(c, ConnectEnded(errno), max);
            && (errno == 0 ==> r == Established().(error := c.error, sent := c.sent, completed := c.completed))
            && (errno != 0 ==> r == c.(status := PendingError, error := errno))
    ensures Apply(c, ConnectTimeout, max) == c.(status := PendingError, error := 110)
  {
  }

  /** A socket that takes everything ends the waiting at once: the buffer empties,
      interest goes, and the pending callback is called with everything sent. */
  lemma FullWriteCompletes(c: Conn)
    requires Inv(c) && c.interest == AwaitWrite
    ensures var r := Writable(c, Sent(|c.buffer|));
            r.buffer == [] && r.interest == NoInterest && r.callback == None
            && r.sent == c.sent + c.buffer && IsPrefix(Joined(r.accepted), r.sent)
            && r.completed == c.completed
                 + (if c.callback.Some? then [Completion(c.callback.value, |r.sent|, |Joined(r.accepted)|)] else [])
  {
    WritableKeeps(c, Sent(|c.buffer|));
    assert c.sent + c.buffer[..|c.buffer|] == c.sent + c.buffer;
  }

  /** A message the socket takes whole is complete at once: nothing is buffered, no
      interest is taken, and its own callback is called. */
  lemma DirectSendCompletes(c: Conn, message: seq<Byte>, callback: Option<nat>, max: nat)
    requires Inv(c) && c.status == Connected && c.buffer == []
    ensures var (r, ok) := Send(c, message, callback, Sent(|message|), max);
            ok && r.sent == c.sent + message && r.buffer == [] && r.interest == NoInterest
            && |r.completed| == |c.completed| + (if callback.Some? then 1 else 0)
            && (callback.Some? ==> r.completed[|c.completed|].callback == callback.value)
  {
    assert message[..|message|] == message;
  }

  /** So an attempt that has timed out is not over. */
  lemma TimeoutIsNotFinal(c: Conn, max: nat)
    requires c.interest == AwaitConnect
    ensures IsRun(c, [ConnectTimeout, ConnectEnded(0)], max)
    ensures Apply(c, ConnectTimeout, max).status == PendingError
    ensures After(c, [ConnectTimeout, ConnectEnded(0)], max).status == Connected
  {
    assert [ConnectTimeout, ConnectEnded(0)][1..] == [ConnectEnded(0)];
    AttemptCanSucceed(Apply(c, ConnectTimeout, max), max);
  }
}
