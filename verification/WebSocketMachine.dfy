/** One end of an established WebSocket connection, as a value. */
module WebSocketMachine {
  import opened Bytes
  import opened WebSocketFrames

  datatype Status = Connected | Finished | Closed | PendingError

  datatype RetCode = Error | WaitingMoreData | MessageReady | PeerClosed | PingFrame | PongFrame

  /** What reading one frame amounts to. */
  datatype Outcome = NotYet | Failed | Again | Special(code: RetCode)

  /** random stands for the generator of mask bytes, drawn for how many it has given;
      output holds the blocks passed to the output callback. */
  datatype Endpoint = Endpoint(
    isClient: bool,
    status: Status,
    closeSent: bool,
    lastOp: int,
    message: seq<Byte>,
    control: seq<Byte>,
    maxSize: nat,
    random: nat -> Byte,
    drawn: nat,
    output: seq<seq<Byte>>
  )

  function Start(isClient: bool, maxSize: nat, random: nat -> Byte): (e: Endpoint)
  {
    Endpoint(isClient, Connected, false, -1, [], [], maxSize, random, 0, [])
  }

  // ---------- Sending ----------

  predicate MaySend(e: Endpoint) { e.status == Connected && !e.closeSent }

  function NextKey(random: nat -> Byte, drawn: nat): (key: seq<Byte>)
    ensures |key| == 4
  {
    [random(drawn), random(drawn + 1), random(drawn + 2), random(drawn + 3)]
  }

  const NoKey: seq<Byte> := [0, 0, 0, 0]

  /** A frame under a key drawn for it; a server draws none. */
  function SendKeyed(e: Endpoint, opcode: nat, payload: seq<Byte>): (r: Endpoint)
    requires opcode < 0x10
  {
    if !MaySend(e) then e
    else
      var code := EncodeFrame(Frame(true, opcode, payload), e.isClient, NextKey(e.random, e.drawn));
      e.(output := e.output + [code], drawn := if e.isClient then e.drawn + 4 else e.drawn)
  }

  function SendMessage(e: Endpoint, payload: seq<Byte>): (r: Endpoint)
  {
    SendKeyed(e, 0x2, payload)
  }

  function SendPong(e: Endpoint): (r: Endpoint)
  {
    SendKeyed(e, 0xa, e.control)
  }

  function SendPing(e: Endpoint): (r: Endpoint)
  {
    if !MaySend(e) then e
    else e.(output := e.output + [EncodeFrame(Frame(true, 0x9, []), e.isClient, NoKey)])
  }

  function SendClose(e: Endpoint): (r: Endpoint)
  {
    if !MaySend(e) then e
    else e.(output := e.output + [EncodeFrame(Frame(true, 0x8, []), e.isClient, NoKey)], closeSent := true)
  }

  // ---------- Receiving ----------

  function Room(e: Endpoint): (n: int) { e.maxSize - |e.message| }

  function Absorb(e: Endpoint, f: Frame): (r: Endpoint)
  {
    if IsControl(f.opcode) then e.(control := e.control + f.payload)
    else e.(message := e.message + f.payload)
  }

  /** A frame whose payload has been taken in. */
  function Process(e: Endpoint, fin: bool, opcode: nat): (r: (Endpoint, Outcome))
    ensures r.1 != NotYet && (r.1.Special? ==> r.1.code == PingFrame || r.1.code == PongFrame)
    ensures r.0.isClient == e.isClient && r.0.maxSize == e.maxSize
  {
    if !fin then
      if opcode != 0 then
        if e.lastOp != -1 then (e, Failed) else (e.(lastOp := opcode), Again)
      else
        if e.lastOp == -1 then (e, Failed) else (e, Again)
    else if opcode == 0 then
      if e.lastOp == -1 then (e, Failed) else Finish(e.(lastOp := -1), e.lastOp)
    else if !IsControl(opcode) && e.lastOp != -1 then (e, Failed)
    else Finish(e, opcode)
  }

  function Finish(e: Endpoint, opcode: int): (r: (Endpoint, Outcome))
    ensures r.1 != NotYet && (r.1.Special? ==> r.1.code == PingFrame || r.1.code == PongFrame)
    ensures r.0.isClient == e.isClient && r.0.maxSize == e.maxSize
  {
    if opcode == 0x1 || opcode == 0x2 then
      (e.(status := Finished), Again)
    else if opcode == 0x8 then
      (SendClose(e).(status := Closed, control := [], message := []), Again)
    else if opcode == 0x9 then
      (SendPong(e).(control := []), Special(PingFrame))
    else if opcode == 0xa then
      (e.(control := []), Special(PongFrame))
    else
      (e, Failed)
  }

  function ReadFrame(e: Endpoint, s: seq<Byte>): (r: (Endpoint, seq<Byte>, Outcome))
    ensures |r.1| <= |s|
    ensures r.2.Again? || r.2.Special? ==> |r.1| + 2 <= |s|
    ensures r.0.isClient == e.isClient && r.0.maxSize == e.maxSize
    ensures r.2.NotYet? ==> r.0 == e && r.1 == s
    ensures r.2.Failed? ==>
              var p := ParseFrame(s, e.isClient, Room(e));
              if p.Malformed? then r.0 == e && r.1 == s
              else p.Got? && r.1 == s[p.size..]
                   && r.0.message == Absorb(e, p.frame).message && r.0.control == Absorb(e, p.frame).control
  {
    match ParseFrame(s, e.isClient, Room(e))
    case NeedMore => (e, s, NotYet)
    case Malformed => (e, s, Failed)
    case Got(f, size) =>
      var (e', outcome) := Process(Absorb(e, f), f.fin, f.opcode);
      (e', s[size..], outcome)
  }

  function RecvMessage(e: Endpoint, s: seq<Byte>): (r: (Endpoint, seq<Byte>, RetCode))
    ensures |r.1| <= |s|
    ensures r.2 != WaitingMoreData && r.2 != Error ==> |r.1| + 2 <= |s|
    decreases |s|
  {
    if e.status != Connected then (e, s, Error)
    else
      var (e', rest, outcome) := ReadFrame(e, s);
      match outcome
      case NotYet => (e', rest, WaitingMoreData)
      case Failed => (e'.(status := PendingError), rest, Error)
      case Special(code) => (e', rest, code)
      case Again =>
        if e'.status == Finished then (e', rest, MessageReady)
        else if e'.status == Closed then (e', rest, PeerClosed)
        else RecvMessage(e', rest)
  }

  /** The message handed out when one is ready, and whether one was. */
  function Retrieve(e: Endpoint): (r: (Endpoint, bool, seq<Byte>))
  {
    if e.status != Finished then (e, false, [])
    else (e.(message := [], status := Connected), true, e.message)
  }
}
