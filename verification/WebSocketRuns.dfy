/** What holds over whole runs of a WebSocket connection. */
module WebSocketRuns {
  import opened Bytes
  import opened Sequences
  import opened WebSocketFrames
  import opened WebSocketMachine

  datatype Event = Message(payload: seq<Byte>) | PingHeard | PongHeard | PeerGone | Fault

  /** The caller's loop: receive until more data is needed, retrieving each
      message as it becomes ready. */
  function Drain(e: Endpoint, s: seq<Byte>): (r: (Endpoint, seq<Byte>, seq<Event>))
    decreases |s|
  {
    if e.status != Connected then (e, s, [])
    else
      var (e', rest, code) := RecvMessage(e, s);
      match code
      case WaitingMoreData => (e', rest, [])
      case Error => (e', rest, [Fault])
      case PeerClosed => (e', rest, [PeerGone])
      case PingFrame => var (x, t, more) := Drain(e', rest); (x, t, [PingHeard] + more)
      case PongFrame => var (x, t, more) := Drain(e', rest); (x, t, [PongHeard] + more)
      case MessageReady =>
        var (e'', _, payload) := Retrieve(e');
        var (x, t, more) := Drain(e'', rest);
        (x, t, [Message(payload)] + more)
  }

  // ---------- The same, one frame at a time ----------

  /** One frame and what the caller does about it: the new state and the events. */
  function Take(e: Endpoint, f: Frame): (r: (Endpoint, seq<Event>))
  {
    var (e', outcome) := Process(Absorb(e, f), f.fin, f.opcode);
    match outcome
    case Failed => (e'.(status := PendingError), [Fault])
    case NotYet => (e', [])
    case Special(code) => (e', if code == PingFrame then [PingHeard] else [PongHeard])
    case Again =>
      if e'.status == Finished then (Retrieve(e').0, [Message(e'.message)])
      else if e'.status == Closed then (e', [PeerGone])
      else (e', [])
  }

  function DrainFrames(e: Endpoint, s: seq<Byte>): (r: (Endpoint, seq<Byte>, seq<Event>))
    decreases |s|
  {
    if e.status != Connected then (e, s, [])
    else
      match ParseFrame(s, e.isClient, Room(e))
      case NeedMore => (e, s, [])
      case Malformed => (e.(status := PendingError), s, [Fault])
      case Got(f, size) =>
        var (e', now) := Take(e, f);
        var (x, t, later) := DrainFrames(e', s[size..]);
        (x, t, now + later)
  }

  lemma FrameStep(e: Endpoint, s: seq<Byte>)
    requires e.status == Connected && ParseFrame(s, e.isClient, Room(e)).Got?
    ensures var p := ParseFrame(s, e.isClient, Room(e));
            var (e', now) := Take(e, p.frame);
            var (x, t, later) := DrainFrames(e', s[p.size..]);
            DrainFrames(e, s) == (x, t, now + later)
  {
  }

  /** Receiving until something happens and then going on is frame after frame. */
  lemma {:induction false} DrainIsFrameByFrame(e: Endpoint, s: seq<Byte>)
    ensures Drain(e, s) == DrainFrames(e, s)
    decreases |s|
  {
    if e.status == Connected {
      var p := ParseFrame(s, e.isClient, Room(e));
      if p.Got? {
        var rest := s[p.size..];
        var (e', now) := Take(e, p.frame);
        FrameStep(e, s);
        DrainIsFrameByFrame(e', rest);
        var (x, outcome) := Process(Absorb(e, p.frame), p.frame.fin, p.frame.opcode);
        if outcome == Again && x.status != Finished && x.status != Closed {
          assert RecvMessage(e, s) == RecvMessage(e', rest) && now == [];
          TakeKeepsGoing(e, p.frame);
          assert Drain(e, s) == Drain(e', rest);
          assert now + DrainFrames(e', rest).2 == DrainFrames(e', rest).2;
        } else if outcome == Failed || x.status == Closed {
          assert now + [] == now;
        }
      }
    }
  }

  /** Only a message, a close frame or a failure changes the status. */
  lemma TakeKeepsGoing(e: Endpoint, f: Frame)
    requires e.status == Connected
    ensures Process(Absorb(e, f), f.fin, f.opcode).0.status in {Connected, Finished, Closed}
  {
  }

  // ---------- Segmentation ----------

  /** Draining after each of two segments is draining once after both. */
  lemma {:induction false} TwoSegments(e: Endpoint, a: seq<Byte>, b: seq<Byte>)
    ensures var (e1, rest, first) := DrainFrames(e, a);
            var (e2, left, second) := DrainFrames(e1, rest + b);
            DrainFrames(e, a + b) == (e2, left, first + second)
    decreases |a|
  {
    var p := ParseFrame(a, e.isClient, Room(e));
    var (e1, rest, first) := DrainFrames(e, a);
    var (e2, left, second) := DrainFrames(e1, rest + b);
    if e.status == Connected && p.Got? {
      ParseIsStable(a, b, e.isClient, Room(e));
      FrameStep(e, a);
      FrameStep(e, a + b);
      assert (a + b)[p.size..] == a[p.size..] + b;
      var (e', now) := Take(e, p.frame);
      TwoSegments(e', a[p.size..], b);
      Associative(now, DrainFrames(e', a[p.size..]).2, second);
    } else if e.status == Connected && p == Malformed {
      ParseIsStable(a, b, e.isClient, Room(e));
      assert first + second == [Fault];
    } else {
      assert first + second == second;
    }
  }

  /** Bytes arriving segment by segment behind what is already buffered,
      drained after each. */
  function DrainSegments(e: Endpoint, buffered: seq<Byte>, segments: seq<seq<Byte>>): (r: (Endpoint, seq<Byte>, seq<Event>))
    decreases |segments|
  {
    if segments == [] then (e, buffered, [])
    else
      var (e1, rest, first) := Drain(e, buffered + segments[0]);
      var (e2, left, later) := DrainSegments(e1, rest, segments[1..]);
      (e2, left, first + later)
  }

  /** Only the byte stream matters, not how it is cut. */
  lemma {:induction false} SegmentationIsInvisible(e: Endpoint, segments: seq<seq<Byte>>)
    ensures DrainSegments(e, [], segments) == Drain(e, Joined(segments))
  {
    if segments != [] {
      assert [] + segments[0] == segments[0];
      DrainRest(e, segments[0], segments[1..]);
      DrainIsFrameByFrame(e, Joined(segments));
    } else {
      assert ParseFrame([], e.isClient, Room(e)) == NeedMore;
    }
  }

  lemma {:induction false} DrainRest(e: Endpoint, s: seq<Byte>, segments: seq<seq<Byte>>)
    ensures var (e1, rest, first) := Drain(e, s);
            var (e2, left, later) := DrainSegments(e1, rest, segments);
            (e2, left, first + later) == DrainFrames(e, s + Joined(segments))
    decreases |segments|
  {
    DrainIsFrameByFrame(e, s);
    var (e1, rest, first) := DrainFrames(e, s);
    TwoSegments(e, s, Joined(segments));
    if segments == [] {
      DrainedIsDrained(e, s);
      assert rest + [] == rest;
    } else {
      DrainRest(e1, rest + segments[0], segments[1..]);
      assert rest + segments[0] + Joined(segments[1..]) == rest + Joined(segments);
    }
  }

  /** What draining leaves holds nothing to be drained. */
  lemma {:induction false} DrainedIsDrained(e: Endpoint, s: seq<Byte>)
    ensures var (e1, rest, first) := DrainFrames(e, s);
            DrainFrames(e1, rest) == (e1, rest, [])
    decreases |s|
  {
    if e.status == Connected {
      var p := ParseFrame(s, e.isClient, Room(e));
      if p.Got? {
        DrainedIsDrained(Take(e, p.frame).0, s[p.size..]);
      }
    }
  }

  // ---------- Asking for a message ----------

  /** Asking for a message is granted exactly when one is finished; then it is handed over
      and a second call is refused. A refused call keeps everything, also the fragments
      read so far. */
  lemma RetrieveOnce(e: Endpoint)
    ensures Retrieve(e).1 <==> e.status == Finished
    ensures !Retrieve(e).1 ==> Retrieve(e).0 == e && Retrieve(e).2 == []
    ensures Retrieve(e).1 ==> Retrieve(e).2 == e.message
    ensures Retrieve(e).1 ==> Retrieve(e).0 == e.(status := Connected, message := [])
    ensures !Retrieve(Retrieve(e).0).1
  {
  }

  /** What was heard, told to a caller who asks for a message after every call. */
  function Heard(code: RetCode, granted: bool, payload: seq<Byte>): (events: seq<Event>)
  {
    (match code
     case Error => [Fault]
     case PeerClosed => [PeerGone]
     case PingFrame => [PingHeard]
     case PongFrame => [PongHeard]
     case _ => [])
    + if granted then [Message(payload)] else []
  }

  /** The loop of a caller who asks for a message after every call, whatever it returned. */
  function PolledDrain(e: Endpoint, s: seq<Byte>): (r: (Endpoint, seq<Byte>, seq<Event>))
    decreases |s|
  {
    if e.status != Connected then (e, s, [])
    else
      var (e', rest, code) := RecvMessage(e, s);
      var (e'', granted, payload) := Retrieve(e');
      var now := Heard(code, granted, payload);
      if code == WaitingMoreData || code == Error || code == PeerClosed then (e'', rest, now)
      else
        var (x, t, more) := PolledDrain(e'', rest);
        (x, t, now + more)
  }

  lemma HeardIs(code: RetCode, payload: seq<Byte>)
    ensures code == MessageReady ==> Heard(code, true, payload) == [Message(payload)]
    ensures Heard(code, false, payload) ==
            match code
            case Error => [Fault]
            case PeerClosed => [PeerGone]
            case PingFrame => [PingHeard]
            case PongFrame => [PongHeard]
            case _ => []
  {
  }

  lemma {:induction false} ReadyIsFinished(e: Endpoint, s: seq<Byte>)
    requires e.status == Connected
    ensures RecvMessage(e, s).2 == MessageReady <==> RecvMessage(e, s).0.status == Finished
    decreases |s|
  {
    var (e', rest, outcome) := ReadFrame(e, s);
    if outcome == Again && e'.status == Connected {
      ReadyIsFinished(e', rest);
    }
  }

  /** Asking too early does no harm: polling tells the same events and leaves the same
      endpoint as asking only when a message is ready. */
  lemma {:induction false} PollingIsHarmless(e: Endpoint, s: seq<Byte>)
    ensures PolledDrain(e, s) == Drain(e, s)
    decreases |s|
  {
    if e.status == Connected {
      var (e', rest, code) := RecvMessage(e, s);
      ReadyIsFinished(e, s);
      RetrieveOnce(e');
      HeardIs(code, Retrieve(e').2);
      if code != WaitingMoreData && code != Error && code != PeerClosed {
        PollingIsHarmless(Retrieve(e').0, rest);
      }
    }
  }
}
