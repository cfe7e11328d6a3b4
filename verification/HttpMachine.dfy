/** Reading one HTTP message, handler by handler, and what a message looks like
    when it is written. Chunked bodies are beyond this model. */
module HttpMachine {
  import opened Options
  import opened Sequences
  import opened HttpText

  datatype Version = UnknownVersion | Http10 | Http11

  datatype Method = UnknownMethod | Get | Post

  datatype StartLine = Request(verb: Method, uri: Text) | Response(code: int, reason: Text)

  datatype Message = Message(version: Version, start: StartLine, headers: seq<Field>, body: Text)

  datatype Status = ReadingStartLine | ReadingHeader | ReadingBody | Finished | PendingError

  datatype RetCode = Error | WaitingMoreData | MessageReady | LeftToChunks

  /** What a handler says: more bytes needed, wrong, done, or a chunked body ahead. */
  datatype Outcome = More | Wrong | Done | Chunked

  datatype Parser = Parser(status: Status, message: Option<Message>, startMax: nat, headerMax: nat, bodyMax: nat)

  predicate SameLimits(p: Parser, q: Parser)
  {
    q.startMax == p.startMax && q.headerMax == p.headerMax && q.bodyMax == p.bodyMax
  }

  // ---------- Words of the protocol ----------

  function Http(): (t: Text) { [72, 84, 84, 80] }
  function ContentLength(): (t: Text) { [67, 111, 110, 116, 101, 110, 116, 45, 76, 101, 110, 103, 116, 104] }
  function TransferEncoding(): (t: Text)
  {
    [84, 114, 97, 110, 115, 102, 101, 114, 45, 69, 110, 99, 111, 100, 105, 110, 103]
  }
  function ChunkedWord(): (t: Text) { [99, 104, 117, 110, 107, 101, 100] }

  function VersionText(v: Version): (t: Text)
  {
    match v
    case Http11 => Http() + [47, 49, 46, 49]
    case Http10 => Http() + [47, 49, 46, 48]
    case UnknownVersion => UnknownWord()
  }

  function UnknownWord(): (t: Text) { [85, 78, 75, 78, 79, 87, 78] }

  function MethodText(m: Method): (t: Text)
  {
    match m
    case Get => [71, 69, 84]
    case Post => [80, 79, 83, 84]
    case UnknownMethod => UnknownWord()
  }

  function VersionOf(t: Text): (v: Version)
  {
    if t == VersionText(Http11) then Http11
    else if t == VersionText(Http10) then Http10
    else UnknownVersion
  }

  function MethodOf(t: Text): (m: Method)
  {
    if t == MethodText(Get) then Get
    else if t == MethodText(Post) then Post
    else UnknownMethod
  }

  function Lowered(t: Text): (l: Text) { seq(|t|, i requires 0 <= i < |t| => Lower(t[i])) }

  // ---------- Reading ----------

  /** What the start line says, if it says anything sensible. */
  function ParseStartLine(line: Text): (r: Option<(Version, StartLine)>)
  {
    var parts := Split(line, [Space], 3);
    if |parts| != 3 then None
    else if |parts[0]| >= 4 && parts[0][..4] == Http() then
      var version, code := VersionOf(parts[0]), Atoi(CStr(parts[1]));
      if version == UnknownVersion || code <= 0 then None
      else Some((version, Response(code, parts[2])))
    else
      var verb, version := MethodOf(parts[0]), VersionOf(parts[2]);
      if verb == UnknownMethod || version == UnknownVersion then None
      else Some((version, Request(verb, parts[1])))
  }

  function ReadStartLine(p: Parser, s: Text): (r: (Parser, Text, Outcome))
    ensures |r.1| <= |s| && SameLimits(p, r.0)
    ensures r.2 == Done ==> r.0.status == ReadingHeader && r.0.message.Some? && |r.1| + 2 <= |s|
    ensures r.2 == More ==> r.0 == p && r.1 == s
  {
    var end := Find(s, CrLf());
    if end.None? then (p, s, if |s| > p.startMax then Wrong else More)
    else if end.value > p.startMax - 2 then (p, s, Wrong)
    else
      var line := ParseStartLine(s[..end.value]);
      if line.None? then (p, s, Wrong)
      else
        (p.(status := ReadingHeader, message := Some(Message(line.value.0, line.value.1, [], []))),
         s[end.value + 2..], Done)
  }

  /** The fields of some lines put into a message one after the other, and whether
      all lines were fields. */
  function ParseHeaders(lines: seq<Text>, h: seq<Field>): (r: (seq<Field>, bool))
    decreases |lines|
  {
    if lines == [] then (h, true)
    else
      var colon := Find(lines[0], [Colon]);
      if colon.None? then (h, false)
      else
        var key, value := lines[0][..colon.value], CStr(lines[0][colon.value + 1..]);
        ParseHeaders(lines[1..], SetHeader(h, Trim(key), Trim(value)))
  }

  function ReadHeader(p: Parser, s: Text): (r: (Parser, Text, Outcome))
    requires p.message.Some?
    ensures |r.1| <= |s| && r.0.message.Some? && SameLimits(p, r.0)
    ensures r.2 == Done ==> r.0.status == Finished || r.0.status == ReadingBody
    ensures r.2 == More ==> r.0 == p && r.1 == s
  {
    if |s| < 2 then (p, s, More)
    else if s[..2] == CrLf() then (p.(status := Finished), s[2..], Done)
    else
      var end := Find(s, CrLf() + CrLf());
      if end.None? then (p, s, if |s| > p.headerMax then Wrong else More)
      else if end.value > p.headerMax - 4 then (p, s, Wrong)
      else
        var (h, ok) := ParseHeaders(Split(s[..end.value], CrLf(), 0), p.message.value.headers);
        var q := p.(message := Some(p.message.value.(headers := h)));
        if !ok then (q, s, Wrong) else (q.(status := ReadingBody), s[end.value + 4..], Done)
  }

  function ReadBody(p: Parser, s: Text): (r: (Parser, Text, Outcome))
    requires p.message.Some?
    ensures |r.1| <= |s| && r.0.message.Some? && SameLimits(p, r.0)
    ensures r.2 == Done ==> r.0.status == Finished
    ensures r.2 == More ==> r.0 == p && r.1 == s
  {
    var length := GetHeader(p.message.value.headers, ContentLength());
    if length.Some? then
      var n := Atoi(CStr(length.value));
      if n > 0 then
        if n > p.bodyMax then (p, s, Wrong)
        else if |s| < n then (p, s, More)
        else (p.(message := Some(p.message.value.(body := s[..n])), status := Finished), s[n..], Done)
      else if n == 0 then (p.(status := Finished), s, Done)
      else (p, s, Wrong)
    else
      var encoding := GetHeader(p.message.value.headers, TransferEncoding());
      if encoding.Some? && Find(Lowered(encoding.value), ChunkedWord()).Some? then (p, s, Chunked)
      else (p, s, Wrong)
  }

  predicate Sane(p: Parser)
  {
    && (p.status == ReadingHeader || p.status == ReadingBody || p.status == Finished ==> p.message.Some?)
    && p.startMax >= 2 && p.headerMax >= 4
  }

  /** The handler of the status there is. */
  function Handle(p: Parser, s: Text): (r: (Parser, Text, Outcome))
    requires Sane(p) && p.status in {ReadingStartLine, ReadingHeader, ReadingBody}
    ensures |r.1| <= |s| && SameLimits(p, r.0)
    ensures r.2 == Done ==> Sane(r.0) && Left(r.0) < Left(p) && (p.status == ReadingStartLine ==> |r.1| + 2 <= |s|)
    ensures r.2 == More ==> r.0 == p && r.1 == s
  {
    if p.status == ReadingStartLine then ReadStartLine(p, s)
    else if p.status == ReadingHeader then ReadHeader(p, s)
    else ReadBody(p, s)
  }

  /** How many handlers are still to come. */
  function Left(p: Parser): (n: nat)
  {
    match p.status
    case ReadingStartLine => 3
    case ReadingHeader => 2
    case ReadingBody => 1
    case _ => 0
  }

  function RecvMessage(p: Parser, s: Text): (r: (Parser, Text, RetCode))
    requires Sane(p)
    ensures |r.1| <= |s| && SameLimits(p, r.0)
    ensures r.2 == MessageReady ==> Sane(r.0) && r.0.status == Finished
    ensures r.2 == MessageReady && p.status == ReadingStartLine ==> |r.1| + 2 <= |s|
    ensures r.2 == WaitingMoreData ==> Sane(r.0) && r.0.status in {ReadingStartLine, ReadingHeader, ReadingBody}
    decreases Left(p)
  {
    if p.status == Finished || p.status == PendingError then (p, s, Error)
    else
      var (q, rest, outcome) := Handle(p, s);
      match outcome
      case More => (q, rest, WaitingMoreData)
      case Wrong => (q.(status := PendingError), rest, Error)
      case Chunked => (q, rest, LeftToChunks)
      case Done => if q.status == Finished then (q, rest, MessageReady) else RecvMessage(q, rest)
  }

  // ---------- More bytes behind ----------

  lemma StartLineIsStable(p: Parser, s: Text, t: Text)
    requires p.startMax >= 2 && ReadStartLine(p, s).2 != More
    ensures var (q, rest, outcome) := ReadStartLine(p, s);
            ReadStartLine(p, s + t) == (q, rest + t, outcome)
  {
    FindIsStable(s, t, CrLf());
    var end := Find(s, CrLf());
    if end.Some? {
      assert (s + t)[..end.value] == s[..end.value];
      assert (s + t)[end.value + 2..] == s[end.value + 2..] + t;
    }
  }

  lemma HeaderIsStable(p: Parser, s: Text, t: Text)
    requires p.message.Some? && p.headerMax >= 4 && ReadHeader(p, s).2 != More
    ensures var (q, rest, outcome) := ReadHeader(p, s);
            ReadHeader(p, s + t) == (q, rest + t, outcome)
  {
    assert (s + t)[..2] == s[..2] && (s + t)[2..] == s[2..] + t;
    FindIsStable(s, t, CrLf() + CrLf());
    var end := Find(s, CrLf() + CrLf());
    if end.Some? {
      assert (s + t)[..end.value] == s[..end.value];
      assert (s + t)[end.value + 4..] == s[end.value + 4..] + t;
    }
  }

  lemma BodyIsStable(p: Parser, s: Text, t: Text)
    requires p.message.Some? && ReadBody(p, s).2 != More
    ensures var (q, rest, outcome) := ReadBody(p, s);
            ReadBody(p, s + t) == (q, rest + t, outcome)
  {
    var length := GetHeader(p.message.value.headers, ContentLength());
    if length.Some? && 0 < Atoi(CStr(length.value)) <= |s| {
      var n := Atoi(CStr(length.value));
      assert (s + t)[..n] == s[..n] && (s + t)[n..] == s[n..] + t;
    }
  }

  lemma HandleIsStable(p: Parser, s: Text, t: Text)
    requires Sane(p) && p.status in {ReadingStartLine, ReadingHeader, ReadingBody} && Handle(p, s).2 != More
    ensures var (q, rest, outcome) := Handle(p, s);
            Handle(p, s + t) == (q, rest + t, outcome)
  {
    if p.status == ReadingStartLine {
      StartLineIsStable(p, s, t);
    } else if p.status == ReadingHeader {
      HeaderIsStable(p, s, t);
    } else {
      BodyIsStable(p, s, t);
    }
  }

  /** Receiving in two steps is receiving at once, for every input, right or wrong. */
  lemma {:induction false} TwoSegments(p: Parser, s: Text, t: Text)
    requires Sane(p)
    ensures var (q, rest, code) := RecvMessage(p, s);
            RecvMessage(p, s + t) == if code == WaitingMoreData then RecvMessage(q, rest + t) else (q, rest + t, code)
    decreases Left(p)
  {
    if p.status in {ReadingStartLine, ReadingHeader, ReadingBody} {
      var (q, rest, outcome) := Handle(p, s);
      if outcome != More {
        HandleIsStable(p, s, t);
        if outcome == Done && q.status != Finished {
          TwoSegments(q, rest, t);
        }
      }
    }
  }

  /** Segments arriving one after the other, each put behind what is buffered,
      until there is something to tell; the rest just arrives. */
  function RecvSegments(p: Parser, buffered: Text, segments: seq<Text>): (r: (Parser, Text, RetCode))
    requires Sane(p)
    decreases |segments|
  {
    var (q, rest, code) := RecvMessage(p, buffered);
    if code != WaitingMoreData || segments == [] then (q, rest + Joined(segments), code)
    else RecvSegments(q, rest + segments[0], segments[1..])
  }

  /** Only the byte stream matters, not how it is cut. */
  lemma {:induction false} SegmentationIsInvisible(p: Parser, buffered: Text, segments: seq<Text>)
    requires Sane(p)
    ensures RecvSegments(p, buffered, segments) == RecvMessage(p, buffered + Joined(segments))
    decreases |segments|
  {
    var (q, rest, code) := RecvMessage(p, buffered);
    if segments == [] {
      assert rest + Joined(segments) == rest;
      assert buffered + Joined(segments) == buffered;
    } else {
      TwoSegments(p, buffered, Joined(segments));
      if code == WaitingMoreData {
        SegmentationIsInvisible(q, rest + segments[0], segments[1..]);
        Associative(rest, segments[0], Joined(segments[1..]));
      }
    }
  }

  // ---------- Writing ----------

  function StartLineText(m: Message): (t: Text)
  {
    match m.start
    case Request(verb, uri) => MethodText(verb) + [Space] + CStr(uri) + [Space] + VersionText(m.version)
    case Response(code, reason) => VersionText(m.version) + [Space] + Decimal(code) + [Space] + CStr(reason)
  }

  function FieldText(f: Field): (t: Text) { CStr(f.key) + [Colon, Space] + CStr(f.value) }

  function HeaderText(h: seq<Field>): (t: Text)
  {
    if h == [] then [] else FieldText(h[0]) + CrLf() + HeaderText(h[1..])
  }

  function Written(m: Message): (t: Text)
  {
    StartLineText(m) + CrLf() + HeaderText(m.headers) + CrLf() + m.body
  }
}
