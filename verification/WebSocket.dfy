/** The WebSocket protocol object: the same machine, working in place on buffers. */
module WebSockets {
  import opened Bytes
  import opened Sequences
  import opened DynamicBuffers
  import opened WebSocketFrames
  import opened M = WebSocketMachine
  import T = WebSocketTheory

  /** Masks, in place, the first n bytes that lie behind the contents. */
  method MaskAhead(target: DynamicBuffer, n: nat, key: seq<Byte>)
    requires target.Valid() && n <= |target.Ahead()| && |key| == 4
    modifies target.buffer
    ensures target.Contents() == old(target.Contents())
    ensures target.Ahead()[..n] == Masked(old(target.Ahead()[..n]), key)
  {
    ghost var was := target.Ahead();
    var i := 0;
    while i < n
      invariant 0 <= i <= n
      invariant target.Contents() == old(target.Contents())
      invariant forall k :: 0 <= k < i ==> target.Ahead()[k] == Xor(was[k], key[k % 4])
      invariant forall k :: i <= k < n ==> target.Ahead()[k] == was[k]
    {
      target.buffer[target.writeIndex + i] := Xor(target.buffer[target.writeIndex + i], key[i % 4]);
      i := i + 1;
    }
  }

  /** Adds a payload to a buffer, masked where there is a key. */
  method AddPayload(target: DynamicBuffer, payload: seq<Byte>, masked: bool, key: seq<Byte>)
    requires target.Valid() && |key| == 4
    modifies target`buffer, target`readIndex, target`writeIndex, target.buffer
    ensures target.Valid()
    ensures target.buffer == old(target.buffer) || fresh(target.buffer)
    ensures target.Contents() == old(target.Contents()) + (if masked then Masked(payload, key) else payload)
  {
    target.ReserveWritableBytes(|payload|);
    target.PlaceBytes(payload);
    if masked {
      MaskAhead(target, |payload|, key);
    }
    target.Write(|payload|);
  }

  /** Adds the length field of a frame to a buffer. */
  method WriteLength(frame: DynamicBuffer, size: nat, flag: nat)
    requires frame.Valid() && (flag == 0 || flag == 0x80)
    modifies frame`buffer, frame`readIndex, frame`writeIndex, frame.buffer
    ensures frame.Valid()
    ensures frame.buffer == old(frame.buffer) || fresh(frame.buffer)
    ensures frame.Contents() == old(frame.Contents()) + LengthField(size, flag)
  {
    ghost var was := frame.Contents();
    if size < 126 {
      frame.WriteInt8(flag + size);
    } else if size <= 65535 {
      frame.WriteInt8(flag + 126);
      frame.WriteInt16(size, false);
      Associative(was, [flag + 126], ToBigEndian(size, 2));
    } else {
      frame.WriteInt8(flag + 127);
      frame.WriteInt64(size, false);
      Associative(was, [flag + 127], ToBigEndian(size, 8));
    }
  }

  /** The constant blocks sent for an empty control frame. */
  lemma EmptyFrame(opcode: nat, isClient: bool)
    requires opcode < 0x10
    ensures EncodeFrame(Frame(true, opcode, []), isClient, NoKey)
         == if isClient then [0x80 + opcode, 0x80, 0, 0, 0, 0] else [0x80 + opcode, 0]
  {
    assert Masked([], NoKey) == [];
  }

  /** The length field of the frame at the front of a buffer. */
  method ReadLength(buffer: DynamicBuffer, control: bool) returns (r: Length)
    requires buffer.Valid() && |buffer.Contents()| >= 2
    ensures r == ParseLength(buffer.Contents(), control)
  {
    var short := buffer.At(1) % 0x80;
    if control && short >= 126 {
      return LengthMalformed;
    }
    if short == 126 {
      var ok, length := buffer.PeekInt16(2, false);
      if !ok {
        return LengthNeedsMore;
      }
      if length < 126 {
        return LengthMalformed;
      }
      return LengthOf(length, 4);
    } else if short == 127 {
      var ok, length := buffer.PeekInt64(2, false);
      if !ok {
        return LengthNeedsMore;
      }
      if length <= 0xffff {
        return LengthMalformed;
      }
      if length >= 0x8000_0000_0000_0000 {
        return LengthMalformed;
      }
      return LengthOf(length, 10);
    }
    return LengthOf(short, 2);
  }

  class WebSocketProtocol {
    const isClient: bool
    const random: nat -> Byte
    const maxSize: nat
    var status: Status
    var closeSent: bool
    var lastOp: int
    var retCode: RetCode
    var message: DynamicBuffer
    var control: DynamicBuffer
    var drawn: nat
    var output: seq<seq<Byte>>

    ghost predicate Apart()
      reads this, message, control
    {
      && message != control
      && message.buffer != control.buffer
      && message.Valid()
      && control.Valid()
    }

    ghost function View(): (e: Endpoint)
      requires Apart()
      reads this, message, control, message.buffer, control.buffer
    {
      Endpoint(isClient, status, closeSent, lastOp, message.Contents(), control.Contents(),
               maxSize, random, drawn, output)
    }

    ghost predicate Valid()
      reads this, message, control, message.buffer, control.buffer
    {
      Apart() && T.Inv(View())
    }

    /** A buffer of the caller's, sharing nothing with this object. */
    ghost predicate Foreign(buffer: DynamicBuffer)
      reads this, message, control, buffer
    {
      && buffer.Valid()
      && buffer != message && buffer != control
      && buffer.buffer != message.buffer && buffer.buffer != control.buffer
    }

    constructor (isClient: bool, maxSize: nat, random: nat -> Byte)
      ensures Valid() && fresh(message) && fresh(control) && fresh(message.buffer) && fresh(control.buffer)
      ensures View() == Start(isClient, maxSize, random)
    {
      this.isClient := isClient;
      this.random := random;
      this.maxSize := maxSize;
      status := Connected;
      closeSent := false;
      lastOp := -1;
      retCode := Error;
      drawn := 0;
      output := [];
      var m := new DynamicBuffer(1024, 1024);
      var c := new DynamicBuffer(1024, 1024);
      message := m;
      control := c;
    }

    // ---------- Sending ----------

    method DrawKey() returns (key: seq<Byte>)
      modifies this`drawn
      ensures drawn == old(drawn) + 4
      ensures key == NextKey(random, old(drawn))
    {
      key := [];
      for i := 0 to 4
        invariant drawn == old(drawn) + i
        invariant key == NextKey(random, old(drawn))[..i]
      {
        key := key + [random(drawn)];
        drawn := drawn + 1;
      }
    }

    /** Everything in front of the payload: first byte, length, mask key. */
    method BuildHead(size: nat) returns (frame: DynamicBuffer, key: seq<Byte>)
      modifies this`drawn
      ensures fresh(frame) && fresh(frame.buffer) && frame.Valid()
      ensures drawn == if isClient then old(drawn) + 4 else old(drawn)
      ensures key == if isClient then NextKey(random, old(drawn)) else NoKey
      ensures frame.Contents()
           == [0x82] + LengthField(size, if isClient then 0x80 else 0) + (if isClient then key else [])
    {
      frame := new DynamicBuffer(1024, 1024);
      frame.WriteInt8(0x82);
      assert frame.Contents() == [0x82];
      WriteLength(frame, size, if isClient then 0x80 else 0);
      key := NoKey;
      if isClient {
        key := DrawKey();
        frame.WriteBytes(key);
      }
    }

    /** A message frame, built in a buffer of its own. */
    method BuildMessage(payload: seq<Byte>) returns (frame: DynamicBuffer)
      modifies this`drawn
      ensures fresh(frame) && fresh(frame.buffer) && frame.Valid()
      ensures drawn == if isClient then old(drawn) + 4 else old(drawn)
      ensures frame.Contents() == EncodeFrame(Frame(true, 0x2, payload), isClient, NextKey(random, old(drawn)))
    {
      var key;
      frame, key := BuildHead(|payload|);
      MessageParts(payload, isClient, key, frame.Contents());
      AddPayload(frame, payload, isClient, key);
    }

    static lemma MessageParts(payload: seq<Byte>, isClient: bool, key: seq<Byte>, head: seq<Byte>)
      requires |key| == 4
      requires head == [0x82] + LengthField(|payload|, if isClient then 0x80 else 0) + (if isClient then key else [])
      ensures head + (if isClient then Masked(payload, key) else payload)
           == EncodeFrame(Frame(true, 0x2, payload), isClient, key)
    {
      var field := LengthField(|payload|, if isClient then 0x80 else 0);
      if isClient {
        Associative([0x82] + field, key, Masked(payload, key));
      }
    }

    method SendMessage(payload: seq<Byte>)
      requires Valid()
      modifies this`drawn, this`output
      ensures Valid()
      ensures View() == M.SendMessage(old(View()), payload)
    {
      T.SendingKeepsInv(View(), 0x2, payload);
      if status != Connected {
        return;
      }
      if closeSent {
        return;
      }
      var frame := BuildMessage(payload);
      output := output + [frame.buffer[frame.readIndex..frame.writeIndex]];
    }

    method SendCloseFrame()
      requires Apart()
      modifies this`closeSent, this`output
      ensures Apart() && View() == M.SendClose(old(View()))
      ensures old(Valid()) ==> Valid()
    {
      EmptyFrame(0x8, isClient);
      if T.Inv(View()) {
        T.ClosingKeepsInv(View());
      }
      if status != Connected {
        return;
      }
      if closeSent {
        return;
      }
      closeSent := true;
      output := output + [if isClient then [0x88, 0x80, 0, 0, 0, 0] else [0x88, 0]];
    }

    method SendPingFrame()
      requires Valid()
      modifies this`output
      ensures Valid() && View() == M.SendPing(old(View()))
    {
      T.ClosingKeepsInv(View());
      EmptyFrame(0x9, isClient);
      if status != Connected {
        return;
      }
      if closeSent {
        return;
      }
      output := output + [if isClient then [0x89, 0x80, 0, 0, 0, 0] else [0x89, 0]];
    }

    /** Answers a ping with its own payload, from a block of fixed size. */
    method SendPongFrame()
      requires Apart() && |control.Contents()| < 126
      modifies this`drawn, this`output
      ensures Apart() && View() == M.SendPong(old(View()))
    {
      if status != Connected {
        return;
      }
      if closeSent {
        return;
      }
      var frame;
      if isClient {
        frame := PongOfClient();
      } else {
        frame := PongOfServer();
      }
      output := output + [frame];
    }

    method PongOfClient() returns (code: seq<Byte>)
      requires Apart() && |control.Contents()| < 126
      modifies this`drawn
      ensures drawn == old(drawn) + 4
      ensures code == EncodeFrame(Frame(true, 0xa, control.Contents()), true, NextKey(random, old(drawn)))
    {
      var n := control.ReadableBytes();
      var key := DrawKey();
      var frame := new Byte[256];
      frame[0], frame[1] := 0x8a, 0x80 + n;
      frame[2], frame[3], frame[4], frame[5] := key[0], key[1], key[2], key[3];
      forall i | 0 <= i < n {
        frame[6 + i] := control.buffer[control.readIndex + i];
      }
      assert frame[..6] == [0x8a, 0x80 + n] + key;
      MaskPong(frame, control.Contents(), key, n);
      code := frame[..n + 6];
      assert code == frame[..6] + frame[6..6 + n];
      assert code == [0x8a] + [0x80 + n] + (key + frame[6..6 + n]);
    }

    method PongOfServer() returns (code: seq<Byte>)
      requires Apart() && |control.Contents()| < 126
      ensures code == EncodeFrame(Frame(true, 0xa, control.Contents()), false, NextKey(random, drawn))
    {
      var n := control.ReadableBytes();
      var frame := new Byte[128];
      frame[0], frame[1] := 0x8a, n;
      forall i | 0 <= i < n {
        frame[2 + i] := control.buffer[control.readIndex + i];
      }
      assert frame[..n + 2] == [0x8a] + [n] + control.Contents();
      code := frame[..n + 2];
    }

    method MaskPong(frame: array<Byte>, ghost payload: seq<Byte>, key: seq<Byte>, n: nat)
      requires |key| == 4 && n == |payload| && n + 6 <= frame.Length
      requires frame[6..6 + n] == payload
      modifies frame
      ensures frame[6..6 + n] == Masked(payload, key)
      ensures frame[..6] == old(frame[..6])
    {
      var i := 0;
      while i < n
        invariant 0 <= i <= n
        invariant frame[..6] == old(frame[..6])
        invariant forall k :: 0 <= k < i ==> frame[6 + k] == Xor(payload[k], key[k % 4])
        invariant forall k :: i <= k < n ==> frame[6 + k] == payload[k]
      {
        frame[6 + i] := Xor(frame[6 + i], key[i % 4]);
        i := i + 1;
      }
    }

    // ---------- Receiving ----------

    /** What the returned number of a status handler says, with the code it left behind. */
    ghost predicate Says(ret: int, outcome: Outcome)
      reads this`retCode
    {
      match outcome
      case NotYet => ret == 0
      case Failed => ret == -1
      case Again => ret == 1
      case Special(code) => ret == 2 && retCode == code
    }

    /** What a frame does once its payload lies in the buffer for its kind. */
    method ProcessFrame(fin: bool, opcode: nat) returns (ret: int)
      requires Apart() && |control.Contents()| < 126
      modifies this`status, this`closeSent, this`lastOp, this`retCode, this`drawn, this`output, message, control
      ensures Apart() && message.buffer == old(message.buffer) && control.buffer == old(control.buffer)
      ensures View() == Process(old(View()), fin, opcode).0
      ensures Says(ret, Process(old(View()), fin, opcode).1)
    {
      if !fin {
        if opcode != 0 {
          if lastOp != -1 {
            return -1;
          }
          lastOp := opcode;
        } else {
          if lastOp == -1 {
            return -1;
          }
        }
        return 1;
      }
      var kind := opcode;
      if opcode == 0 {
        if lastOp == -1 {
          return -1;
        }
        kind := lastOp;
        lastOp := -1;
      } else {
        if !IsControl(opcode) {
          if lastOp != -1 {
            return -1;
          }
        }
      }
      ret := FinishFrame(kind);
    }

    method FinishFrame(opcode: int) returns (ret: int)
      requires Apart() && |control.Contents()| < 126
      modifies this`status, this`closeSent, this`retCode, this`drawn, this`output, message, control
      ensures Apart() && message.buffer == old(message.buffer) && control.buffer == old(control.buffer)
      ensures View() == Finish(old(View()), opcode).0
      ensures Says(ret, Finish(old(View()), opcode).1)
    {
      if opcode == 0x1 || opcode == 0x2 {
        status := Finished;
        return 1;
      } else if opcode == 0x8 {
        SendCloseFrame();
        status := Closed;
        control.Clear();
        message.Clear();
        return 1;
      } else if opcode == 0x9 {
        SendPongFrame();
        control.Clear();
        retCode := PingFrame;
        return 2;
      } else if opcode == 0xa {
        control.Clear();
        retCode := PongFrame;
        return 2;
      } else {
        return -1;
      }
    }

    /** Where the payload of a frame lies whose length is known, and under which key. */
    method FindPayload(buffer: DynamicBuffer, fin: bool, opcode: nat, length: nat, header: nat)
      returns (ret: int, p: nat, masked: bool, key: seq<Byte>, payload: seq<Byte>)
      requires buffer.Valid() && 2 <= header <= |buffer.Contents()|
      ensures |key| == 4
      ensures match ParsePayload(buffer.Contents(), fin, opcode, length, header, isClient)
              case NeedMore => ret == 0
              case Malformed => ret == -1
              case Got(f, size) =>
                ret == 1 && p == size
                && f == Frame(fin, opcode, if masked then Masked(payload, key) else payload)
    {
      p, payload := header, [];
      ret, masked, key := FindKey(buffer, header);
      if ret == 1 {
        p := if masked then header + 4 else header;
        ret, payload := FindBody(buffer, p, length);
        p := p + length;
      }
    }

    /** A payload of known place and length, if it is all there. */
    method FindBody(buffer: DynamicBuffer, p: nat, length: nat) returns (ret: int, payload: seq<Byte>)
      requires buffer.Valid() && p <= |buffer.Contents()|
      ensures ret == if |buffer.Contents()| < p + length then 0 else 1
      ensures ret == 1 ==> payload == buffer.Contents()[p..p + length]
    {
      ret, payload := 1, [];
      if length > 0 {
        if buffer.ReadableBytes() - p < length {
          ret := 0;
          return;
        }
        payload := buffer.Slice(p, p + length);
      }
    }

    /** Whether there is a mask key where the length ends, as the role demands. */
    method FindKey(buffer: DynamicBuffer, header: nat) returns (ret: int, masked: bool, key: seq<Byte>)
      requires buffer.Valid() && 2 <= header <= |buffer.Contents()|
      ensures |key| == 4
      ensures masked == (buffer.Contents()[1] >= 0x80)
      ensures ret == if masked == isClient then -1
                     else if masked && |buffer.Contents()| < header + 4 then 0 else 1
      ensures ret == 1 && masked ==> key == buffer.Contents()[header..header + 4]
    {
      ret, masked, key := 1, buffer.At(1) >= 0x80, NoKey;
      if masked {
        if isClient {
          ret := -1;
          return;
        }
        if buffer.ReadableBytes() - header < 4 {
          ret := 0;
          return;
        }
        key := buffer.Slice(header, header + 4);
      } else {
        if !isClient {
          ret := -1;
          return;
        }
      }
    }

    /** Adds a payload to the buffer for frames of its kind. */
    method StorePayload(fin: bool, opcode: nat, payload: seq<Byte>, masked: bool, key: seq<Byte>)
      requires Apart() && |key| == 4
      modifies message, control, message.buffer, control.buffer
      ensures Apart()
      ensures message.buffer == old(message.buffer) || fresh(message.buffer)
      ensures control.buffer == old(control.buffer) || fresh(control.buffer)
      ensures View() == Absorb(old(View()), Frame(fin, opcode, if masked then Masked(payload, key) else payload))
    {
      if IsControl(opcode) {
        AddPayload(control, payload, masked, key);
      } else {
        AddPayload(message, payload, masked, key);
      }
    }

    /** Moves a payload that is all there from one buffer to the other. */
    method TakePayload(buffer: DynamicBuffer, fin: bool, opcode: nat, length: nat, header: nat) returns (ret: int)
      requires Apart() && Foreign(buffer) && 2 <= header <= |buffer.Contents()|
      modifies message, control, message.buffer, control.buffer, buffer`readIndex, buffer`writeIndex
      ensures Apart() && Foreign(buffer) && buffer.buffer == old(buffer.buffer)
      ensures message.buffer == old(message.buffer) || fresh(message.buffer)
      ensures control.buffer == old(control.buffer) || fresh(control.buffer)
      ensures match ParsePayload(old(buffer.Contents()), fin, opcode, length, header, isClient)
              case NeedMore => ret == 0 && View() == old(View()) && buffer.Contents() == old(buffer.Contents())
              case Malformed => ret == -1 && View() == old(View()) && buffer.Contents() == old(buffer.Contents())
              case Got(f, size) => ret == 1 && View() == Absorb(old(View()), f)
                                   && buffer.Contents() == old(buffer.Contents())[size..]
    {
      var p, masked, key, payload;
      ret, p, masked, key, payload := FindPayload(buffer, fin, opcode, length, header);
      if ret == 1 {
        StorePayload(fin, opcode, payload, masked, key);
        buffer.Read(p);
      }
    }

    /** One frame from the front of the buffer, if it is all there. */
    method ReadFrame(buffer: DynamicBuffer) returns (ret: int)
      requires Valid() && Foreign(buffer) && status == Connected
      modifies this`status, this`closeSent, this`lastOp, this`retCode, this`drawn, this`output
      modifies message, control, message.buffer, control.buffer, buffer`readIndex, buffer`writeIndex
      ensures Apart() && Foreign(buffer) && buffer.buffer == old(buffer.buffer)
      ensures message.buffer == old(message.buffer) || fresh(message.buffer)
      ensures control.buffer == old(control.buffer) || fresh(control.buffer)
      ensures var (e, rest, outcome) := M.ReadFrame(old(View()), old(buffer.Contents()));
              View() == e && buffer.Contents() == rest && Says(ret, outcome)
    {
      var fin, opcode;
      ret, fin, opcode := TakeFrame(buffer);
      if ret == 1 {
        ret := ProcessFrame(fin, opcode);
      }
    }

    /** The part of reading a frame that comes before acting on it. */
    method TakeFrame(buffer: DynamicBuffer) returns (ret: int, fin: bool, opcode: nat)
      requires Apart() && control.Contents() == [] && Foreign(buffer)
      modifies message, control, message.buffer, control.buffer, buffer`readIndex, buffer`writeIndex
      ensures Apart() && Foreign(buffer) && buffer.buffer == old(buffer.buffer)
      ensures message.buffer == old(message.buffer) || fresh(message.buffer)
      ensures control.buffer == old(control.buffer) || fresh(control.buffer)
      ensures |control.Contents()| < 126
      ensures match ParseFrame(old(buffer.Contents()), isClient, Room(old(View())))
              case NeedMore => ret == 0 && View() == old(View()) && buffer.Contents() == old(buffer.Contents())
              case Malformed => ret == -1 && View() == old(View()) && buffer.Contents() == old(buffer.Contents())
              case Got(f, size) => ret == 1 && fin == f.fin && opcode == f.opcode
                                   && View() == Absorb(old(View()), f)
                                   && buffer.Contents() == old(buffer.Contents())[size..]
    {
      var header, length;
      ret, fin, opcode, length, header := ReadHeader(buffer);
      if ret == 1 {
        ret := TakePayload(buffer, fin, opcode, length, header);
      }
    }

    /** The first bytes of a frame, up to its length, and the checks made on them. */
    method ReadHeader(buffer: DynamicBuffer) returns (ret: int, fin: bool, opcode: nat, length: nat, header: nat)
      requires Apart() && buffer.Valid()
      ensures ret == 0 || ret == -1 || ret == 1
      ensures var p := ParseFrame(buffer.Contents(), isClient, Room(View()));
              if ret == 0 then p == NeedMore
              else if ret == -1 then p == Malformed
              else 2 <= header <= |buffer.Contents()|
                   && (IsControl(opcode) ==> length < 126)
                   && p == ParsePayload(buffer.Contents(), fin, opcode, length, header, isClient)
    {
      ret, fin, opcode, length, header := 0, false, 0, 0, 2;
      if buffer.ReadableBytes() < 2 {
        return;
      }
      var first := buffer.At(0);
      if first / 0x10 % 8 != 0 {
        ret := -1;
        return;
      }
      fin, opcode := first >= 0x80, first % 0x10;
      var isControl := IsControl(opcode);
      if isControl && !fin {
        ret := -1;
        return;
      }
      var l := ReadLength(buffer, isControl);
      match l {
        case LengthNeedsMore => return;
        case LengthMalformed =>
          ret := -1;
          return;
        case LengthOf(n, h) =>
          length, header := n, h;
      }
      if !isControl && message.ReadableBytes() + length > maxSize {
        ret := -1;
        return;
      }
      ret := 1;
    }

    // ---------- The calls of the user ----------

    /** Reads frames until there is something to tell, or more bytes are needed. */
    method RecvMessage(buffer: DynamicBuffer) returns (code: RetCode)
      requires Valid() && Foreign(buffer)
      modifies this`status, this`closeSent, this`lastOp, this`retCode, this`drawn, this`output
      modifies message, control, message.buffer, control.buffer, buffer`readIndex, buffer`writeIndex
      ensures Valid() && Foreign(buffer) && buffer.buffer == old(buffer.buffer)
      ensures message.buffer == old(message.buffer) || fresh(message.buffer)
      ensures control.buffer == old(control.buffer) || fresh(control.buffer)
      ensures (View(), buffer.Contents(), code) == M.RecvMessage(old(View()), old(buffer.Contents()))
    {
      ghost var target := M.RecvMessage(View(), buffer.Contents());
      var done := false;
      code := Error;
      while !done
        invariant Valid() && Foreign(buffer) && buffer.buffer == old(buffer.buffer)
        invariant message.buffer == old(message.buffer) || fresh(message.buffer)
        invariant control.buffer == old(control.buffer) || fresh(control.buffer)
        invariant target == if done then (View(), buffer.Contents(), code)
                            else M.RecvMessage(View(), buffer.Contents())
        decreases !done, |buffer.Contents()|
      {
        done, code := HandleOne(buffer);
      }
    }

    /** One round of the receiving loop; done when there is something to tell. */
    method HandleOne(buffer: DynamicBuffer) returns (done: bool, code: RetCode)
      requires Valid() && Foreign(buffer)
      modifies this`status, this`closeSent, this`lastOp, this`retCode, this`drawn, this`output
      modifies message, control, message.buffer, control.buffer, buffer`readIndex, buffer`writeIndex
      ensures Valid() && Foreign(buffer) && buffer.buffer == old(buffer.buffer)
      ensures message.buffer == old(message.buffer) || fresh(message.buffer)
      ensures control.buffer == old(control.buffer) || fresh(control.buffer)
      ensures done ==> (View(), buffer.Contents(), code) == M.RecvMessage(old(View()), old(buffer.Contents()))
      ensures !done ==> M.RecvMessage(View(), buffer.Contents()) == M.RecvMessage(old(View()), old(buffer.Contents()))
                        && |buffer.Contents()| < old(|buffer.Contents()|)
    {
      if status != Connected {
        return true, Error;
      }
      ReadingOneKeepsInv(View(), buffer.Contents());
      var ret := ReadFrame(buffer);
      if ret == 0 {
        return true, WaitingMoreData;
      } else if ret == -1 {
        status := PendingError;
        return true, Error;
      } else if ret == 2 {
        return true, retCode;
      }
      if status == Finished {
        return true, MessageReady;
      } else if status == Closed {
        return true, PeerClosed;
      }
      return false, Error;
    }

    static lemma ReadingOneKeepsInv(e: Endpoint, s: seq<Byte>)
      requires T.Inv(e) && e.status == Connected
      ensures var (e', rest, outcome) := M.ReadFrame(e, s);
              if outcome == Failed then T.Inv(e'.(status := PendingError)) else T.Inv(e')
    {
      var p := ParseFrame(s, e.isClient, Room(e));
      if p.Got? {
        AcceptedIsEncoded(s, e.isClient, Room(e));
        T.ReadingKeepsInv(e, p.frame);
      }
    }

    /** Hands the finished message over by exchanging buffers. */
    method RetrieveMessage(target: DynamicBuffer) returns (ok: bool)
      requires Valid() && Foreign(target)
      modifies this`status, message, target
      ensures Valid() && Foreign(target)
      ensures message == old(message) && control == old(control)
      ensures var (e, done, payload) := Retrieve(old(View()));
              View() == e && ok == done
              && target.Contents() == if done then payload else old(target.Contents())
      ensures {message.buffer, target.buffer} == old({message.buffer, target.buffer})
    {
      if status != Finished {
        return false;
      }
      target.Swap(message);
      message.Clear();
      status := Connected;
      ok := true;
    }
  }
}
