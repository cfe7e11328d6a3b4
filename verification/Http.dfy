/** The HTTP protocol object and the message writer, on buffers. */
module HttpProtocols {
  import opened Options
  import opened Arithmetic
  import opened DynamicBuffers
  import opened Sequences
  import opened HttpText
  import opened M = HttpMachine

  // ---------- Writing ----------

  /** Prints behind the contents of a buffer as snprintf does: what fits, one place
      less than there is, and a zero byte. The result is the length of the text. */
  method Print(buffer: DynamicBuffer, text: Text) returns (count: nat)
    requires buffer.Valid()
    modifies buffer.buffer
    ensures count == |text|
    ensures buffer.Contents() == old(buffer.Contents())
    ensures |text| < |buffer.Ahead()| ==> buffer.Ahead()[..|text|] == text
  {
    count := |text|;
    var room := buffer.WritableBytes();
    if room == 0 {
      return;
    }
    var shown := if |text| < room then |text| else room - 1;
    buffer.PlaceBytes(text[..shown]);
    ghost var placed := buffer.Ahead()[..shown];
    buffer.buffer[buffer.writeIndex + shown] := 0;
    assert buffer.Ahead()[..shown] == placed;
  }

  /** Prints a text for which room is made first, and takes it in. */
  method Append(buffer: DynamicBuffer, room: nat, text: Text)
    requires buffer.Valid() && |text| + 28 <= room
    modifies buffer`buffer, buffer`readIndex, buffer`writeIndex, buffer.buffer
    ensures buffer.Valid()
    ensures buffer.buffer == old(buffer.buffer) || fresh(buffer.buffer)
    ensures buffer.Contents() == old(buffer.Contents()) + text
    ensures |buffer.Ahead()| >= 28
  {
    buffer.ReserveWritableBytes(room);
    var count := Print(buffer, text);
    if count > 0 {
      buffer.Write(count);
    }
  }

  lemma {:induction false} CStrIsShorter(s: Text)
    ensures |CStr(s)| <= |s|
  {
    if s != [] && s[0] != 0 {
      CStrIsShorter(s[1..]);
    }
  }

  lemma {:induction false} NumeralSize(n: nat, digits: nat, bound: nat)
    requires digits >= 1 && n < bound && bound == PowerOfTen(digits)
    ensures |Numeral(n)| <= digits
    decreases digits
  {
    if n >= 10 {
      NumeralSize(n / 10, digits - 1, PowerOfTen(digits - 1));
    }
  }

  function PowerOfTen(k: nat): (p: nat)
    ensures p >= 1
  {
    if k == 0 then 1 else 10 * PowerOfTen(k - 1)
  }

  lemma StartLineSize(m: Message)
    requires m.start.Response? ==> IsInt32(m.start.code)
    ensures |StartLineText(m)| <= 21 + (if m.start.Request? then |m.start.uri| else |m.start.reason|)
  {
    match m.start {
      case Request(verb, uri) => CStrIsShorter(uri);
      case Response(code, reason) =>
        CStrIsShorter(reason);
        NumeralSize(if code >= 0 then code else -code, 10, PowerOfTen(10));
    }
  }

  /** Writes a message behind the contents; no text is ever cut short. */
  method WriteMessage(m: Message, buffer: DynamicBuffer)
    requires buffer.Valid() && (m.start.Response? ==> IsInt32(m.start.code))
    modifies buffer`buffer, buffer`readIndex, buffer`writeIndex, buffer.buffer
    ensures buffer.Valid()
    ensures buffer.buffer == old(buffer.buffer) || fresh(buffer.buffer)
    ensures buffer.Contents() == old(buffer.Contents()) + Written(m)
  {
    ghost var was := buffer.Contents();
    StartLineSize(m);
    Append(buffer, 64 + (if m.start.Request? then |m.start.uri| else |m.start.reason|), StartLineText(m) + CrLf());
    WriteHeaders(m.headers, buffer);
    buffer.ReserveWritableBytes(2);
    var count := Print(buffer, CrLf());
    buffer.Write(2);
    buffer.WriteBytes(m.body);
    Regrouped(was, StartLineText(m) + CrLf(), HeaderText(m.headers), m.body);
  }

  lemma Regrouped(was: Text, a: Text, b: Text, c: Text)
    ensures was + a + b + CrLf() + c == was + (a + b + CrLf() + c)
  {
  }

  method WriteHeaders(h: seq<Field>, buffer: DynamicBuffer)
    requires buffer.Valid() && |buffer.Ahead()| >= 28
    modifies buffer`buffer, buffer`readIndex, buffer`writeIndex, buffer.buffer
    ensures buffer.Valid() && |buffer.Ahead()| >= 28
    ensures buffer.buffer == old(buffer.buffer) || fresh(buffer.buffer)
    ensures buffer.Contents() == old(buffer.Contents()) + HeaderText(h)
  {
    ghost var was := buffer.Contents();
    assert was + HeaderText(h[0..]) == was + HeaderText(h) by {
      assert h[0..] == h;
    }
    for i := 0 to |h|
      invariant buffer.Valid() && |buffer.Ahead()| >= 28
      invariant buffer.buffer == old(buffer.buffer) || fresh(buffer.buffer)
      invariant buffer.Contents() + HeaderText(h[i..]) == was + HeaderText(h)
    {
      CStrIsShorter(h[i].key);
      CStrIsShorter(h[i].value);
      HeaderTextNext(buffer.Contents(), h, i);
      Append(buffer, 32 + |h[i].key| + |h[i].value|, FieldText(h[i]) + CrLf());
    }
    assert h[|h|..] == [];
    assert buffer.Contents() + [] == buffer.Contents();
  }

  lemma HeaderTextNext(done: Text, h: seq<Field>, i: nat)
    requires i < |h|
    ensures done + HeaderText(h[i..]) == done + (FieldText(h[i]) + CrLf()) + HeaderText(h[i + 1..])
  {
    assert h[i..][1..] == h[i + 1..];
    Associative(done, FieldText(h[i]) + CrLf(), HeaderText(h[i + 1..]));
  }

  // ---------- Reading ----------

  class HttpProtocol {
    const startMax: nat
    const headerMax: nat
    const bodyMax: nat
    var status: Status
    var message: Option<Message>

    ghost function View(): (p: Parser)
      reads this
    {
      Parser(status, message, startMax, headerMax, bodyMax)
    }

    /** The limits are those the setters let pass. */
    constructor (startMax: nat, headerMax: nat, bodyMax: nat)
      requires startMax >= 2 && headerMax >= 4
      ensures View() == Parser(ReadingStartLine, None, startMax, headerMax, bodyMax) && Sane(View())
    {
      this.startMax, this.headerMax, this.bodyMax := startMax, headerMax, bodyMax;
      status, message := ReadingStartLine, None;
    }

    method Reset()
      requires Sane(View())
      modifies this
      ensures View() == Parser(ReadingStartLine, None, startMax, headerMax, bodyMax) && Sane(View())
    {
      message := None;
      status := ReadingStartLine;
    }

    method ReadStartLine(buffer: DynamicBuffer) returns (outcome: Outcome)
      requires Sane(View()) && buffer.Valid()
      modifies this, buffer`readIndex, buffer`writeIndex
      ensures buffer.Valid()
      ensures (View(), buffer.Contents(), outcome) == M.ReadStartLine(old(View()), old(buffer.Contents()))
    {
      var s := buffer.Slice(0, buffer.ReadableBytes());
      var end := Find(s, CrLf());
      if end.None? {
        if buffer.ReadableBytes() > startMax {
          return Wrong;
        }
        return More;
      }
      if end.value > startMax - 2 {
        return Wrong;
      }
      var line := ParseStartLine(s[..end.value]);
      if line.None? {
        return Wrong;
      }
      buffer.Read(end.value + 2);
      message := Some(Message(line.value.0, line.value.1, [], []));
      status := ReadingHeader;
      outcome := Done;
    }

    /** Puts the fields of some lines into the message, up to a line that is none. */
    method AddHeaders(lines: seq<Text>) returns (ok: bool)
      requires message.Some?
      modifies this`message
      ensures message.Some? && ok == ParseHeaders(lines, old(message.value.headers)).1
      ensures message.value == old(message.value).(headers := ParseHeaders(lines, old(message.value.headers)).0)
    {
      ghost var target := ParseHeaders(lines, message.value.headers);
      assert lines[0..] == lines;
      for i := 0 to |lines|
        invariant message.Some?
        invariant message.value == old(message.value).(headers := message.value.headers)
        invariant ParseHeaders(lines[i..], message.value.headers) == target
      {
        assert lines[i..][0] == lines[i] && lines[i..][1..] == lines[i + 1..];
        var colon := Find(lines[i], [Colon]);
        if colon.None? {
          return false;
        }
        var key, value := Trim(lines[i][..colon.value]), Trim(CStr(lines[i][colon.value + 1..]));
        message := Some(message.value.(headers := SetHeader(message.value.headers, key, value)));
      }
      ok := true;
    }

    method ReadHeader(buffer: DynamicBuffer) returns (outcome: Outcome)
      requires Sane(View()) && message.Some? && buffer.Valid()
      modifies this, buffer`readIndex, buffer`writeIndex
      ensures buffer.Valid()
      ensures (View(), buffer.Contents(), outcome) == M.ReadHeader(old(View()), old(buffer.Contents()))
    {
      if buffer.ReadableBytes() < 2 {
        return More;
      }
      var s := buffer.Slice(0, buffer.ReadableBytes());
      if s[..2] == CrLf() {
        buffer.Read(2);
        status := Finished;
        return Done;
      }
      var end := Find(s, CrLf() + CrLf());
      if end.None? {
        if buffer.ReadableBytes() > headerMax {
          return Wrong;
        }
        return More;
      }
      if end.value > headerMax - 4 {
        return Wrong;
      }
      outcome := TakeFields(buffer, s, end.value);
    }

    /** Fields whose end has been found become part of the message. */
    method TakeFields(buffer: DynamicBuffer, s: Text, end: nat) returns (outcome: Outcome)
      requires Sane(View()) && message.Some? && buffer.Valid()
      requires s == buffer.Contents() && end + 4 <= |s|
      modifies this, buffer`readIndex, buffer`writeIndex
      ensures buffer.Valid()
      ensures var (h, ok) := ParseHeaders(Split(s[..end], CrLf(), 0), old(message.value.headers));
              var p := old(View()).(message := Some(old(message.value).(headers := h)));
              (View(), buffer.Contents(), outcome)
              == if ok then (p.(status := ReadingBody), s[end + 4..], Done) else (p, s, Wrong)
    {
      var ok := AddHeaders(Split(s[..end], CrLf(), 0));
      if !ok {
        return Wrong;
      }
      buffer.Read(end + 4);
      status := ReadingBody;
      outcome := Done;
    }

    method ReadBody(buffer: DynamicBuffer) returns (outcome: Outcome)
      requires Sane(View()) && message.Some? && buffer.Valid()
      modifies this, buffer`readIndex, buffer`writeIndex
      ensures buffer.Valid()
      ensures (View(), buffer.Contents(), outcome) == M.ReadBody(old(View()), old(buffer.Contents()))
    {
      var length := GetHeader(message.value.headers, ContentLength());
      if length.Some? {
        var n := Atoi(CStr(length.value));
        if n > 0 {
          if n > bodyMax {
            return Wrong;
          }
          if buffer.ReadableBytes() < n {
            return More;
          }
          message := Some(message.value.(body := buffer.Slice(0, n)));
          buffer.Read(n);
          status := Finished;
          return Done;
        } else if n == 0 {
          status := Finished;
          return Done;
        } else {
          return Wrong;
        }
      }
      var encoding := GetHeader(message.value.headers, TransferEncoding());
      if encoding.Some? && Find(Lowered(encoding.value), ChunkedWord()).Some? {
        return Chunked;
      }
      outcome := Wrong;
    }

    /** Handler after handler, until the message is there or more is needed. */
    method RecvMessage(buffer: DynamicBuffer) returns (code: RetCode)
      requires Sane(View()) && buffer.Valid()
      modifies this, buffer`readIndex, buffer`writeIndex
      ensures buffer.Valid()
      ensures (View(), buffer.Contents(), code) == M.RecvMessage(old(View()), old(buffer.Contents()))
    {
      ghost var target := M.RecvMessage(View(), buffer.Contents());
      while true
        invariant Sane(View()) && buffer.Valid() && buffer.buffer == old(buffer.buffer)
        invariant M.RecvMessage(View(), buffer.Contents()) == target
        decreases Left(View())
      {
        var outcome;
        match status {
          case ReadingStartLine => outcome := ReadStartLine(buffer);
          case ReadingHeader => outcome := ReadHeader(buffer);
          case ReadingBody => outcome := ReadBody(buffer);
          case _ => return Error;
        }
        match outcome {
          case More => return WaitingMoreData;
          case Wrong =>
            status := PendingError;
            return Error;
          case Chunked => return LeftToChunks;
          case Done =>
        }
        if status == Finished {
          return MessageReady;
        }
      }
    }

    /** Hands out a finished message of the kind asked for, and starts afresh. */
    method Retrieve(request: bool) returns (m: Option<Message>)
      requires Sane(View())
      modifies this
      ensures Sane(View())
      ensures old(status) == Finished && old(message).value.start.Request? == request ==>
                m == old(message) && View() == Parser(ReadingStartLine, None, startMax, headerMax, bodyMax)
      ensures !(old(status) == Finished && old(message).value.start.Request? == request) ==>
                m == None && View() == old(View())
    {
      if status != Finished {
        return None;
      }
      if message.value.start.Request? != request {
        return None;
      }
      m := message;
      Reset();
    }
  }
}
