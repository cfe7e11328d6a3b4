/** What the peers of a WebSocket connection can rely on. */
module WebSocketTheory {
  import opened Bytes
  import opened Sequences
  import opened WebSocketFrames
  import opened WebSocketMachine
  import opened WebSocketRuns

  // ---------- Fragments ----------

  /** A frame that does not fit what came before, sections 5.2 and 5.4 of RFC 6455:
      a continuation of nothing, a second beginning, or an end with a reserved opcode. */
  predicate Refused(lastOp: int, f: Frame)
  {
    if f.opcode == 0 then lastOp == -1 || (f.fin && lastOp != 0x1 && lastOp != 0x2)
    else if IsControl(f.opcode) then f.opcode > 0xa
    else lastOp != -1 || (f.fin && f.opcode != 0x1 && f.opcode != 0x2)
  }

  /** The frames a drain takes without refusing them. */
  function FramesTaken(e: Endpoint, s: seq<Byte>): (fs: seq<Frame>)
    decreases |s|
  {
    if e.status != Connected then []
    else
      match ParseFrame(s, e.isClient, Room(e))
      case NeedMore => []
      case Malformed => []
      case Got(f, size) =>
        var (e', now) := Take(e, f);
        if now == [Fault] then [] else [f] + FramesTaken(e', s[size..])
  }

  function DataFrames(fs: seq<Frame>): (ds: seq<Frame>)
  {
    if fs == [] then []
    else if IsControl(fs[0].opcode) then DataFrames(fs[1..])
    else [fs[0]] + DataFrames(fs[1..])
  }

  /** Messages as section 5.4 has them: payloads joined up to each final frame. */
  function Assembled(ds: seq<Frame>, pending: seq<Byte>): (ms: seq<seq<Byte>>)
  {
    if ds == [] then []
    else if ds[0].fin then [pending + ds[0].payload] + Assembled(ds[1..], [])
    else Assembled(ds[1..], pending + ds[0].payload)
  }

  /** What is left over of the payloads behind the last final frame. */
  function Unfinished(ds: seq<Frame>, pending: seq<Byte>): (m: seq<Byte>)
  {
    if ds == [] then pending
    else Unfinished(ds[1..], if ds[0].fin then [] else pending + ds[0].payload)
  }

  function Messages(events: seq<Event>): (ms: seq<seq<Byte>>)
  {
    if events == [] then []
    else (if events[0].Message? then [events[0].payload] else []) + Messages(events[1..])
  }

  lemma {:induction false} MessagesJoin(a: seq<Event>, b: seq<Event>)
    ensures Messages(a + b) == Messages(a) + Messages(b)
  {
    if a == [] {
      assert a + b == b;
    } else {
      assert (a + b)[1..] == a[1..] + b;
      MessagesJoin(a[1..], b);
    }
  }

  /** One frame: refused exactly when it does not fit, and otherwise its effect
      on the message under way. */
  lemma TakeEffect(e: Endpoint, f: Frame)
    requires e.status == Connected && -1 <= e.lastOp < 0x8
    requires IsControl(f.opcode) ==> f.fin
    ensures var (e', now) := Take(e, f);
            (now == [Fault] <==> Refused(e.lastOp, f))
            && (Refused(e.lastOp, f) ==> e'.status == PendingError)
            && (!Refused(e.lastOp, f) ==>
                 if f.opcode == 0x8 then
                   now == [PeerGone] && e'.status == Closed && e'.message == []
                 else if IsControl(f.opcode) then
                   now == [if f.opcode == 0x9 then PingHeard else PongHeard]
                   && e'.status == Connected && e'.message == e.message && e'.lastOp == e.lastOp
                 else if f.fin then
                   now == [Message(e.message + f.payload)]
                   && e'.status == Connected && e'.message == [] && e'.lastOp == -1
                 else
                   now == [] && e'.status == Connected && e'.message == e.message + f.payload
                   && e'.lastOp == (if f.opcode == 0 then e.lastOp else f.opcode))
  {
  }

  /** A failure leaves all bytes unread exactly if they begin with no frame at all. A frame
      that is refused is consumed, and its payload is in the buffer of its kind. */
  lemma FailureConsumes(e: Endpoint, s: seq<Byte>)
    requires e.status == Connected && -1 <= e.lastOp < 0x8 && ReadFrame(e, s).2 == Failed
    ensures var p := ParseFrame(s, e.isClient, Room(e));
            var (e', rest, _) := ReadFrame(e, s);
            (rest == s <==> p == Malformed)
            && (rest != s ==>
                  p.Got? && rest == s[p.size..] && Refused(e.lastOp, p.frame)
                  && e'.message == Absorb(e, p.frame).message && e'.control == Absorb(e, p.frame).control)
  {
    var p := ParseFrame(s, e.isClient, Room(e));
    if p.Got? {
      ParsedParts(s, e.isClient, Room(e));
      TakeEffect(e, p.frame);
      assert |ReadFrame(e, s).1| < |s|;
    }
  }

  /** Such a frame: a continuation of nothing, sent to a fresh client. */
  lemma RefusedFrameStays(maxSize: nat, random: nat -> Byte, suffix: seq<Byte>)
    requires maxSize >= 1
    ensures var (e, rest, outcome) := ReadFrame(Start(true, maxSize, random), [0x80, 0x1, 0x7] + suffix);
            outcome == Failed && rest == suffix && e.message == [0x7]
  {
    var s := [0x80, 0x1, 0x7] + suffix;
    assert s[2..3] == [0x7] && s[3..] == suffix;
    assert [] + [0x7] == [0x7];
  }

  /** Whatever control frames come in between, the messages delivered are the data
      payloads joined between final frames, and the message under way is the rest. */
  lemma {:induction false} MessagesAreAssembled(e: Endpoint, s: seq<Byte>)
    requires e.status == Connected && -1 <= e.lastOp < 0x8
    ensures var (e', rest, events) := DrainFrames(e, s);
            var ds := DataFrames(FramesTaken(e, s));
            Messages(events) == Assembled(ds, e.message)
            && (e'.status == Connected ==> e'.message == Unfinished(ds, e.message))
    decreases |s|
  {
    var p := ParseFrame(s, e.isClient, Room(e));
    if p.Got? {
      ParsedParts(s, e.isClient, Room(e));
      TakeEffect(e, p.frame);
      FrameStep(e, s);
      var (e', now) := Take(e, p.frame);
      var rest := s[p.size..];
      MessagesJoin(now, DrainFrames(e', rest).2);
      assert Messages(now) == if now != [] && now[0].Message? then [now[0].payload] else [];
      if e'.status == Connected {
        MessagesAreAssembled(e', rest);
        assert FramesTaken(e, s)[0] == p.frame && FramesTaken(e, s)[1..] == FramesTaken(e', rest);
      } else if now != [Fault] {
        assert FramesTaken(e, s) == [p.frame];
      }
    }
  }

  // ---------- Every run of one end ----------

  datatype Call =
    | Receive(bytes: seq<Byte>)
    | RetrieveMessage
    | Send(payload: seq<Byte>)
    | Ping
    | Close

  function Obey(e: Endpoint, call: Call): (r: Endpoint)
  {
    match call
    case Receive(bytes) => RecvMessage(e, bytes).0
    case RetrieveMessage => Retrieve(e).0
    case Send(payload) => SendMessage(e, payload)
    case Ping => SendPing(e)
    case Close => SendClose(e)
  }

  function Run(e: Endpoint, calls: seq<Call>): (r: Endpoint)
    decreases |calls|
  {
    if calls == [] then e else Run(Obey(e, calls[0]), calls[1..])
  }

  predicate IsCloseFrame(code: seq<Byte>) { |code| > 0 && code[0] == 0x88 }

  /** At most one close frame, and nothing after it. */
  predicate CloseIsLast(e: Endpoint)
  {
    forall i :: 0 <= i < |e.output| ==> (IsCloseFrame(e.output[i]) <==> e.closeSent && i == |e.output| - 1)
  }

  predicate Inv(e: Endpoint)
  {
    && |e.message| <= e.maxSize
    && (e.lastOp == -1 || 0 < e.lastOp < 0x8)
    && (e.status == Connected ==> e.control == [])
    && (e.status == Connected && e.lastOp == -1 ==> e.message == [])
    && (e.status == Finished ==> e.lastOp == -1 && e.control == [])
    && (e.closeSent ==> e.output != [])
    && CloseIsLast(e)
  }

  lemma StartInv(isClient: bool, maxSize: nat, random: nat -> Byte)
    ensures Inv(Start(isClient, maxSize, random))
  {
  }

  lemma SendingKeepsInv(e: Endpoint, opcode: nat, payload: seq<Byte>)
    requires Inv(e) && opcode < 0x10 && opcode != 0x8
    ensures Inv(SendKeyed(e, opcode, payload))
  {
    if MaySend(e) {
      var r := SendKeyed(e, opcode, payload);
      assert forall i :: 0 <= i < |e.output| ==> r.output[i] == e.output[i];
    }
  }

  lemma ClosingKeepsInv(e: Endpoint)
    requires Inv(e)
    ensures Inv(SendClose(e)) && Inv(SendPing(e))
  {
    assert forall i :: 0 <= i < |e.output| ==>
        SendClose(e).output[i] == e.output[i] && SendPing(e).output[i] == e.output[i];
  }

  /** One frame read, before a failure is turned into the error status. */
  lemma ReadingKeepsInv(e: Endpoint, f: Frame)
    requires Inv(e) && e.status == Connected && Acceptable(f, Room(e))
    ensures var (e', outcome) := Process(Absorb(e, f), f.fin, f.opcode);
            if outcome == Failed then Inv(e'.(status := PendingError)) else Inv(e')
  {
    var a := Absorb(e, f);
    if f.opcode == 0x8 {
      assert CloseIsLast(a);
      ClosingKeepsInv(a.(control := [], message := []));
      assert SendClose(a).output == SendClose(a.(control := [], message := [])).output;
    } else if f.opcode == 0x9 {
      SendingKeepsInv(a.(control := []), 0xa, a.control);
      assert SendPong(a).output == SendKeyed(a.(control := []), 0xa, a.control).output;
    }
  }

  lemma {:induction false} ReceivingKeepsInv(e: Endpoint, s: seq<Byte>)
    requires Inv(e)
    ensures Inv(RecvMessage(e, s).0)
    decreases |s|
  {
    if e.status == Connected {
      var p := ParseFrame(s, e.isClient, Room(e));
      if p.Got? {
        AcceptedIsEncoded(s, e.isClient, Room(e));
        ReadingKeepsInv(e, p.frame);
        var (e', rest, outcome) := ReadFrame(e, s);
        if outcome == Again {
          ReceivingKeepsInv(e', rest);
        }
      }
    }
  }

  /** Over every run: the message under way is empty between messages and within
      the limit, and the close frame, if any, is the last thing sent. */
  lemma {:induction false} EveryRunKeepsInv(e: Endpoint, calls: seq<Call>)
    requires Inv(e)
    ensures Inv(Run(e, calls))
    decreases |calls|
  {
    if calls != [] {
      match calls[0] {
        case Receive(bytes) => ReceivingKeepsInv(e, bytes);
        case RetrieveMessage =>
        case Send(payload) => SendingKeepsInv(e, 0x2, payload);
        case Ping => ClosingKeepsInv(e);
        case Close => ClosingKeepsInv(e);
      }
      EveryRunKeepsInv(Obey(e, calls[0]), calls[1..]);
    }
  }

  /** Nothing leads out of the closed and the error status, or changes anything there. */
  lemma {:induction false} EndsAreAbsorbing(e: Endpoint, calls: seq<Call>)
    requires e.status == Closed || e.status == PendingError
    ensures Run(e, calls) == e
    decreases |calls|
  {
    if calls != [] {
      assert Obey(e, calls[0]) == e;
      EndsAreAbsorbing(e, calls[1..]);
    }
  }

  // ---------- From one end to the other ----------

  /** A data frame over the limit, or of a length with its top bit set, is refused
      as soon as its length is known. */
  lemma TooLongIsMalformed(payload: seq<Byte>, isClient: bool, key: seq<Byte>, suffix: seq<Byte>, room: int)
    requires |key| == 4 && |payload| < 0x1_0000_0000_0000_0000
    requires |payload| > room || |payload| >= 0x8000_0000_0000_0000
    ensures ParseFrame(EncodeFrame(Frame(true, 0x2, payload), isClient, key) + suffix, !isClient, room) == Malformed
  {
    var f := Frame(true, 0x2, payload);
    var n := |payload|;
    var flag := if isClient then 0x80 else 0;
    var field := LengthField(n, flag);
    var s := EncodeFrame(f, isClient, key) + suffix;
    Regrouped([0x82], field, Body(f, isClient, key), suffix);
    assert s[0] == 0x82;
    if n < 0x8000_0000_0000_0000 {
      LengthRoundTrip(0x82, n, flag, Body(f, isClient, key) + suffix, false);
    } else {
      TopBitIsMalformed(0x82, n, flag, Body(f, isClient, key) + suffix);
    }
  }

  /** A message sent is the message received, and what follows it stays unread,
      exactly if it fits the receiver's limit and the receiver is between messages. */
  lemma MessageRoundTrip(sender: Endpoint, payload: seq<Byte>, e: Endpoint, suffix: seq<Byte>)
    requires MaySend(sender) && |payload| < 0x1_0000_0000_0000_0000
    requires e.status == Connected && e.isClient == !sender.isClient && Inv(e)
    ensures SendMessage(sender, payload).output[..|sender.output|] == sender.output
    ensures |SendMessage(sender, payload).output| == |sender.output| + 1
    ensures var code := SendMessage(sender, payload).output[|sender.output|];
            var r := RecvMessage(e, code + suffix);
            if e.lastOp == -1 && |payload| <= e.maxSize && |payload| < 0x8000_0000_0000_0000
            then r == (e.(status := Finished, message := payload), suffix, MessageReady)
            else r.2 == Error && r.0.status == PendingError
  {
    var f := Frame(true, 0x2, payload);
    var key := NextKey(sender.random, sender.drawn);
    var code := EncodeFrame(f, sender.isClient, key);
    if Acceptable(f, Room(e)) {
      FrameRoundTrip(f, sender.isClient, key, suffix, Room(e));
      assert (code + suffix)[|code|..] == suffix;
      assert e.lastOp == -1 ==> e.message + payload == payload;
    } else {
      TooLongIsMalformed(payload, sender.isClient, key, suffix, Room(e));
    }
  }

  /** A frame this library sends: whole, and of one of four kinds. */
  predicate Plain(f: Frame)
  {
    f.fin && f.opcode in {0x2, 0x8, 0x9, 0xa} && Acceptable(f, |f.payload|)
  }

  /** A block of output that is exactly one such frame. */
  predicate IsFrame(code: seq<Byte>, isClient: bool)
  {
    var p := ParseFrame(code, !isClient, |code|);
    p.Got? && p.size == |code| && Plain(p.frame)
  }

  function FrameIn(code: seq<Byte>, isClient: bool): (f: Frame)
    requires IsFrame(code, isClient)
    ensures Plain(f)
  {
    ParseFrame(code, !isClient, |code|).frame
  }

  lemma EncodedIsFrame(f: Frame, isClient: bool, key: seq<Byte>)
    requires Plain(f) && |key| == 4
    ensures IsFrame(EncodeFrame(f, isClient, key), isClient)
    ensures FrameIn(EncodeFrame(f, isClient, key), isClient) == f
  {
    var code := EncodeFrame(f, isClient, key);
    FrameRoundTrip(f, isClient, key, [], |code|);
    assert code + [] == code;
  }

  /** A ping is answered with its own payload and a close frame with a close frame,
      unless one was sent before; nothing else is answered. */
  lemma RepliesAreSent(e: Endpoint, f: Frame)
    requires Inv(e) && e.status == Connected && Acceptable(f, Room(e)) && !Refused(e.lastOp, f)
    ensures var output := Take(e, f).0.output;
            if e.closeSent || (f.opcode != 0x8 && f.opcode != 0x9) then output == e.output
            else
              |output| == |e.output| + 1 && output[..|e.output|] == e.output
              && IsFrame(output[|e.output|], e.isClient)
              && FrameIn(output[|e.output|], e.isClient)
                 == (if f.opcode == 0x8 then Frame(true, 0x8, []) else Frame(true, 0xa, f.payload))
  {
    EncodedIsFrame(Frame(true, 0x8, []), e.isClient, NoKey);
    if f.opcode == 0x9 {
      assert e.control + f.payload == f.payload;
      EncodedIsFrame(Frame(true, 0xa, f.payload), e.isClient, NextKey(e.random, e.drawn));
    }
  }

  /** An endpoint that may send puts out exactly the frame it is asked for. */
  lemma CallsAreSent(e: Endpoint, call: Call)
    requires MaySend(e) && (call.Send? || call.Ping? || call.Close?)
    requires call.Send? ==> |call.payload| < 0x8000_0000_0000_0000
    ensures var r := Obey(e, call);
            |r.output| == |e.output| + 1 && r.output[..|e.output|] == e.output
            && IsFrame(r.output[|e.output|], e.isClient)
            && FrameIn(r.output[|e.output|], e.isClient)
               == (if call.Send? then Frame(true, 0x2, call.payload)
                   else Frame(true, if call.Ping? then 0x9 else 0x8, []))
            && r.closeSent == call.Close?
  {
    EncodedIsFrame(Frame(true, 0x8, []), e.isClient, NoKey);
    EncodedIsFrame(Frame(true, 0x9, []), e.isClient, NoKey);
    if call.Send? {
      EncodedIsFrame(Frame(true, 0x2, call.payload), e.isClient, NextKey(e.random, e.drawn));
    }
  }

  predicate OutputIsFrames(e: Endpoint)
  {
    forall i :: 0 <= i < |e.output| ==> IsFrame(e.output[i], e.isClient)
  }

  lemma SendingFrames(e: Endpoint, opcode: nat, payload: seq<Byte>)
    requires OutputIsFrames(e) && Plain(Frame(true, opcode, payload))
    ensures OutputIsFrames(SendKeyed(e, opcode, payload))
    ensures opcode == 0x8 ==> OutputIsFrames(SendClose(e)) && OutputIsFrames(SendPing(e))
  {
    EncodedIsFrame(Frame(true, opcode, payload), e.isClient, NextKey(e.random, e.drawn));
    EncodedIsFrame(Frame(true, 0x8, []), e.isClient, NoKey);
    EncodedIsFrame(Frame(true, 0x9, []), e.isClient, NoKey);
  }

  lemma ReadingFrames(e: Endpoint, f: Frame)
    requires Inv(e) && OutputIsFrames(e) && e.status == Connected && Acceptable(f, Room(e))
    ensures OutputIsFrames(Process(Absorb(e, f), f.fin, f.opcode).0)
  {
    var a := Absorb(e, f);
    if f.opcode == 0x8 {
      SendingFrames(a, 0x8, []);
    } else if f.opcode == 0x9 {
      SendingFrames(a, 0xa, a.control);
    }
  }

  lemma {:induction false} ReceivingFrames(e: Endpoint, s: seq<Byte>)
    requires Inv(e) && OutputIsFrames(e)
    ensures OutputIsFrames(RecvMessage(e, s).0)
    decreases |s|
  {
    if e.status == Connected {
      var p := ParseFrame(s, e.isClient, Room(e));
      if p.Got? {
        AcceptedIsEncoded(s, e.isClient, Room(e));
        ReadingKeepsInv(e, p.frame);
        ReadingFrames(e, p.frame);
        var (e', rest, outcome) := ReadFrame(e, s);
        if outcome == Again {
          ReceivingFrames(e', rest);
        }
      }
    }
  }

  /** Whatever an end is made to do, every block it puts out is one whole frame
      that the other role can read. */
  lemma {:induction false} EveryRunSendsFrames(e: Endpoint, calls: seq<Call>)
    requires Inv(e) && OutputIsFrames(e)
    requires forall i :: 0 <= i < |calls| && calls[i].Send? ==> |calls[i].payload| < 0x8000_0000_0000_0000
    ensures OutputIsFrames(Run(e, calls))
    decreases |calls|
  {
    if calls != [] {
      match calls[0] {
        case Receive(bytes) => ReceivingFrames(e, bytes);
        case RetrieveMessage =>
        case Send(payload) => SendingFrames(e, 0x2, payload);
        case Ping => SendingFrames(e, 0x8, []);
        case Close => SendingFrames(e, 0x8, []);
      }
      EveryRunKeepsInv(e, calls[..1]);
      assert Run(e, calls[..1]) == Obey(e, calls[0]);
      EveryRunSendsFrames(Obey(e, calls[0]), calls[1..]);
    }
  }

  /** What a peer is told by such blocks: everything up to a close frame. */
  function Told(output: seq<seq<Byte>>, isClient: bool): (events: seq<Event>)
    requires forall i :: 0 <= i < |output| ==> IsFrame(output[i], isClient)
  {
    if output == [] then []
    else
      var f := FrameIn(output[0], isClient);
      if f.opcode == 0x8 then [PeerGone]
      else
        [if f.opcode == 0x2 then Message(f.payload) else if f.opcode == 0x9 then PingHeard else PongHeard]
        + Told(output[1..], isClient)
  }

  lemma RoomIsEnough(code: seq<Byte>, suffix: seq<Byte>, isClient: bool, room: int)
    requires IsFrame(code, isClient) && |FrameIn(code, isClient).payload| <= room
    ensures ParseFrame(code + suffix, !isClient, room) == Got(FrameIn(code, isClient), |code|)
  {
    AcceptedIsEncoded(code, !isClient, |code|);
    var f := FrameIn(code, isClient);
    assert code[..|code|] == code;
    FrameRoundTrip(f, isClient, KeyIn(code), suffix, room);
  }

  lemma TakePlain(e: Endpoint, f: Frame)
    requires e.status == Connected && Inv(e) && e.lastOp == -1
    requires Plain(f) && Acceptable(f, Room(e))
    ensures var (e', now) := Take(e, f);
            now == [if f.opcode == 0x8 then PeerGone else if f.opcode == 0x2 then Message(f.payload)
                    else if f.opcode == 0x9 then PingHeard else PongHeard]
            && (if f.opcode == 0x8 then e'.status == Closed
                else e'.status == Connected && Inv(e') && e'.lastOp == -1
                     && e'.isClient == e.isClient && e'.maxSize == e.maxSize)
  {
    TakeEffect(e, f);
    assert e.message + f.payload == f.payload;
    if f.opcode != 0x8 {
      TakeKeepsRole(e, f);
    }
  }

  /** A peer between messages that drains such output hears all of it, in order. */
  lemma {:induction false} PeerHearsAll(output: seq<seq<Byte>>, e: Endpoint)
    requires e.status == Connected && Inv(e) && e.lastOp == -1
    requires forall i :: 0 <= i < |output| ==>
               IsFrame(output[i], !e.isClient) && |FrameIn(output[i], !e.isClient).payload| <= e.maxSize
    ensures DrainFrames(e, Joined(output)).2 == Told(output, !e.isClient)
    decreases |output|
  {
    if output != [] {
      var f := FrameIn(output[0], !e.isClient);
      var rest := Joined(output[1..]);
      RoomIsEnough(output[0], rest, !e.isClient, Room(e));
      assert Joined(output)[|output[0]|..] == rest;
      FrameStep(e, Joined(output));
      TakePlain(e, f);
      var e' := Take(e, f).0;
      if f.opcode != 0x8 {
        PeerHearsAll(output[1..], e');
      }
    } else {
      assert ParseFrame([], e.isClient, Room(e)) == NeedMore;
    }
  }

  lemma TakeKeepsRole(e: Endpoint, f: Frame)
    requires e.status == Connected && Inv(e) && Acceptable(f, Room(e))
    requires Take(e, f).0.status == Connected
    ensures Inv(Take(e, f).0) && Take(e, f).0.isClient == e.isClient && Take(e, f).0.maxSize == e.maxSize
  {
    ReadingKeepsInv(e, f);
  }

  /** Two fresh ends of opposite roles: over any run of the one, the other is told
      exactly what was sent, however the bytes are cut. */
  lemma Conversation(isClient: bool, max: nat, random: nat -> Byte, calls: seq<Call>,
                     peerMax: nat, peerRandom: nat -> Byte, segments: seq<seq<Byte>>)
    requires forall i :: 0 <= i < |calls| && calls[i].Send? ==> |calls[i].payload| < 0x8000_0000_0000_0000
    requires Joined(segments) == Joined(Run(Start(isClient, max, random), calls).output)
    ensures OutputIsFrames(Run(Start(isClient, max, random), calls))
    ensures Run(Start(isClient, max, random), calls).isClient == isClient
    ensures var output := Run(Start(isClient, max, random), calls).output;
            (forall i :: 0 <= i < |output| ==> |FrameIn(output[i], isClient).payload| <= peerMax)
            ==> DrainSegments(Start(!isClient, peerMax, peerRandom), [], segments).2 == Told(output, isClient)
  {
    var e := Start(isClient, max, random);
    EveryRunSendsFrames(e, calls);
    RunKeepsRole(e, calls);
    var output := Run(e, calls).output;
    var peer := Start(!isClient, peerMax, peerRandom);
    SegmentationIsInvisible(peer, segments);
    DrainIsFrameByFrame(peer, Joined(output));
    if forall i :: 0 <= i < |output| ==> |FrameIn(output[i], isClient).payload| <= peerMax {
      PeerHearsAll(output, peer);
    }
  }

  lemma {:induction false} RunKeepsRole(e: Endpoint, calls: seq<Call>)
    ensures Run(e, calls).isClient == e.isClient
    decreases |calls|
  {
    if calls != [] {
      if calls[0].Receive? {
        ReceivingKeepsRole(e, calls[0].bytes);
      }
      RunKeepsRole(Obey(e, calls[0]), calls[1..]);
    }
  }

  lemma {:induction false} ReceivingKeepsRole(e: Endpoint, s: seq<Byte>)
    ensures RecvMessage(e, s).0.isClient == e.isClient
    decreases |s|
  {
    if e.status == Connected {
      var (e', rest, outcome) := ReadFrame(e, s);
      if outcome == Again {
        ReceivingKeepsRole(e', rest);
      }
    }
  }
}
