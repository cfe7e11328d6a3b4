/** The HTTP writer and reader undo each other. */
module HttpTheory {
  import opened Options
  import opened Arithmetic
  import opened Sequences
  import opened HttpText
  import opened HttpMachine

  /** Text that can stand inside a line: no carriage return, no zero byte. */
  predicate Plain(t: Text) { Lacks(t, CR) && Lacks(t, 0) }

  predicate FieldOk(f: Field)
  {
    Plain(f.key) && Lacks(f.key, Colon) && Trimmed(f.key) && Plain(f.value) && Trimmed(f.value)
  }

  predicate StartOk(m: Message)
  {
    m.version != UnknownVersion
    && match m.start
       case Request(verb, uri) => verb != UnknownMethod && Plain(uri) && Lacks(uri, Space)
       case Response(code, reason) => 0 < code < 0x8000_0000 && Plain(reason)
  }

  predicate HeadersOk(h: seq<Field>) { Ordered(h) && forall i :: 0 <= i < |h| ==> FieldOk(h[i]) }

  /** Without fields there is no body; otherwise the fields tell its length. */
  predicate BodyOk(m: Message)
  {
    if m.headers == [] then m.body == []
    else
      var length := GetHeader(m.headers, ContentLength());
      length.Some? && Atoi(CStr(length.value)) == |m.body|
  }

  /** A length told in decimal is taken for what saturation and narrowing leave of it; so
      the true length is taken for itself exactly below 2^31. */
  lemma LengthTold(m: Message, n: nat)
    requires m.headers != [] && GetHeader(m.headers, ContentLength()) == Some(Decimal(n))
    ensures BodyOk(m) <==> NarrowToInt(Saturated(n)) == |m.body|
    ensures n == |m.body| ==> (BodyOk(m) <==> |m.body| < 0x8000_0000)
    ensures n == 0x1_0000_0000 && m.body == [] ==> BodyOk(m)
  {
    DecimalAsLength(n, |m.body|);
  }

  lemma DecimalAsLength(n: nat, size: nat)
    ensures Atoi(CStr(Decimal(n))) == NarrowToInt(Saturated(n))
    ensures n == size ==> (NarrowToInt(Saturated(n)) == size <==> size < 0x8000_0000)
    ensures NarrowToInt(Saturated(0x1_0000_0000)) == 0
  {
    DecimalIsPlain(n);
    CStrOfText(Decimal(n));
    AtoiOfDecimal(n);
  }

  /** The start line and the fields are sound and within the limits. */
  predicate HeadOk(m: Message, p: Parser)
  {
    && StartOk(m) && HeadersOk(m.headers)
    && |StartLineText(m)| + 2 <= p.startMax && |HeaderText(m.headers)| + 2 <= p.headerMax
  }

  // ---------- The start line ----------

  lemma WordsAreDistinct(v: Version, verb: Method)
    ensures Lacks(VersionText(v), CR) && Lacks(VersionText(v), Space)
    ensures Lacks(MethodText(verb), CR) && Lacks(MethodText(verb), Space)
    ensures v != UnknownVersion ==> VersionOf(VersionText(v)) == v && VersionText(v)[..4] == Http()
    ensures verb != UnknownMethod ==> MethodOf(MethodText(verb)) == verb && MethodText(verb)[0] != Http()[0]
  {
    assert VersionText(Http11)[7] != VersionText(Http10)[7];
    assert |MethodText(Get)| == 3 && |MethodText(Post)| == 4;
  }

  lemma ThreeParts(a: Text, b: Text, c: Text)
    requires Lacks(a, Space) && Lacks(b, Space)
    ensures Split(a + [Space] + b + [Space] + c, [Space], 3) == [a, b, c]
  {
    var s := a + [Space] + b + [Space] + c;
    assert s == a + [Space] + (b + [Space] + c);
    SplitFront(a, [Space], b + [Space] + c, 3);
    SplitFront(b, [Space], c, 2);
    assert Split(c, [Space], 1) == [c];
  }

  lemma DecimalIsPlain(n: nat)
    ensures Lacks(Decimal(n), Space) && Lacks(Decimal(n), CR) && Lacks(Decimal(n), 0)
  {
    assert forall i :: 0 <= i < |Numeral(n)| ==> IsDigit(Numeral(n)[i]);
  }

  lemma RequestLineRoundTrip(version: Version, verb: Method, uri: Text)
    requires version != UnknownVersion && verb != UnknownMethod && Plain(uri) && Lacks(uri, Space)
    ensures var line := MethodText(verb) + [Space] + uri + [Space] + VersionText(version);
            ParseStartLine(line) == Some((version, Request(verb, uri))) && Lacks(line, CR)
  {
    WordsAreDistinct(version, verb);
    ThreeParts(MethodText(verb), uri, VersionText(version));
  }

  lemma StatusLineRoundTrip(version: Version, code: int, reason: Text)
    requires version != UnknownVersion && 0 < code < 0x8000_0000 && Plain(reason)
    ensures var line := VersionText(version) + [Space] + Decimal(code) + [Space] + reason;
            ParseStartLine(line) == Some((version, Response(code, reason))) && Lacks(line, CR)
  {
    WordsAreDistinct(version, Get);
    DecimalIsPlain(code);
    CStrOfText(Decimal(code));
    AtoiOfDecimal(code);
    ThreeParts(VersionText(version), Decimal(code), reason);
  }

  lemma StartLineRoundTrip(m: Message)
    requires StartOk(m)
    ensures ParseStartLine(StartLineText(m)) == Some((m.version, m.start))
    ensures Lacks(StartLineText(m), CR)
  {
    match m.start {
      case Request(verb, uri) =>
        CStrOfText(uri);
        RequestLineRoundTrip(m.version, verb, uri);
      case Response(code, reason) =>
        CStrOfText(reason);
        StatusLineRoundTrip(m.version, code, reason);
    }
  }

  // ---------- The fields ----------

  function Lines(h: seq<Field>): (lines: seq<Text>)
    ensures |lines| == |h|
  {
    if h == [] then [] else [FieldText(h[0])] + Lines(h[1..])
  }

  /** The fields' lines with line ends between them only. */
  function Block(h: seq<Field>): (t: Text)
    requires h != []
    decreases |h|
  {
    if |h| == 1 then FieldText(h[0]) else FieldText(h[0]) + CrLf() + Block(h[1..])
  }

  lemma {:induction false} HeaderTextIsBlock(h: seq<Field>)
    requires h != []
    ensures HeaderText(h) == Block(h) + CrLf()
    decreases |h|
  {
    if |h| == 1 {
      assert HeaderText(h[1..]) == [];
      assert FieldText(h[0]) + CrLf() + [] == FieldText(h[0]) + CrLf();
    } else {
      HeaderTextIsBlock(h[1..]);
      Associative(FieldText(h[0]) + CrLf(), Block(h[1..]), CrLf());
    }
  }

  lemma FieldTextIsPlain(f: Field)
    requires FieldOk(f)
    ensures FieldText(f) == f.key + [Colon] + ([Space] + f.value)
    ensures Lacks(FieldText(f), CR) && FieldText(f) != []
  {
    CStrOfText(f.key);
    CStrOfText(f.value);
  }

  /** Nothing of k begins in a: it is found in s only. */
  lemma {:induction false} FindShifted(a: Text, s: Text, k: Text)
    requires k != [] && Find(s, k).Some?
    requires forall j: nat :: j < |a| ==> !OccursAt(a + s, k, j)
    ensures Find(a + s, k) == Some(|a| + Find(s, k).value)
    decreases |a|
  {
    if a == [] {
      assert a + s == s;
    } else {
      assert (a + s)[1..] == a[1..] + s;
      forall j: nat | j < |a[1..]|
        ensures !OccursAt(a[1..] + s, k, j)
      {
        OccursFurther(a + s, k, j);
        assert !OccursAt(a + s, k, j + 1);
      }
      FindShifted(a[1..], s, k);
      assert !OccursAt(a + s, k, 0);
    }
  }

  /** The blank line is found behind the last field and not before. */
  lemma {:induction false} BlankLineFound(h: seq<Field>, b: Text)
    requires h != [] && forall i :: 0 <= i < |h| ==> FieldOk(h[i])
    ensures Find(Block(h) + (CrLf() + CrLf()) + b, CrLf() + CrLf()) == Some(|Block(h)|)
    decreases |h|
  {
    var k := CrLf() + CrLf();
    FieldTextIsPlain(h[0]);
    if |h| == 1 {
      FindBehind(Block(h), k, b);
    } else {
      BlankLineFound(h[1..], b);
      var line := FieldText(h[0]);
      var s := Block(h[1..]) + k + b;
      FieldTextIsPlain(h[1]);
      assert Block(h[1..])[0] == FieldText(h[1])[0];
      NoBlankLineHere(line, s);
      FindShifted(line + CrLf(), s, k);
      InParts(line, CrLf(), Block(h[1..]), k, b);
    }
  }

  lemma InParts(a: Text, b: Text, c: Text, d: Text, e: Text)
    ensures a + b + c + d + e == a + b + (c + d + e)
  {
  }

  lemma NoBlankLineHere(line: Text, s: Text)
    requires Lacks(line, CR) && s != [] && s[0] != CR
    ensures forall j: nat :: j < |line + CrLf()| ==> !OccursAt(line + CrLf() + s, CrLf() + CrLf(), j)
  {
    var t := line + CrLf() + s;
    forall j: nat | j < |line + CrLf()|
      ensures !OccursAt(t, CrLf() + CrLf(), j)
    {
      StartsAlike(t, CrLf() + CrLf(), j);
      if j == |line| {
        assert t[|line| + 2] == s[0];
        if |t| >= j + 4 {
          assert t[j..j + 4][2] == t[j + 2];
        }
      }
    }
  }

  lemma {:induction false} SplitIntoLines(h: seq<Field>)
    requires h != [] && forall i :: 0 <= i < |h| ==> FieldOk(h[i])
    ensures Split(Block(h), CrLf(), 0) == Lines(h)
    decreases |h|
  {
    FieldTextIsPlain(h[0]);
    if |h| == 1 {
      NotFound(FieldText(h[0]), CrLf());
      assert Lines(h[1..]) == [];
    } else {
      SplitIntoLines(h[1..]);
      SplitFront(FieldText(h[0]), CrLf(), Block(h[1..]), 0);
    }
  }

  lemma FieldRoundTrip(f: Field)
    requires FieldOk(f)
    ensures Find(FieldText(f), [Colon]) == Some(|f.key|)
    ensures Trim(FieldText(f)[..|f.key|]) == f.key
    ensures Trim(CStr(FieldText(f)[|f.key| + 1..])) == f.value
  {
    FieldTextIsPlain(f);
    FindBehind(f.key, [Colon], [Space] + f.value);
    assert FieldText(f)[..|f.key|] == f.key;
    assert FieldText(f)[|f.key| + 1..] == [Space] + f.value;
    CStrOfText([Space] + f.value);
    TrimOfTrimmed(f.key);
    TrimOfTrimmed(f.value);
  }

  lemma {:induction false} FieldsRoundTrip(done: seq<Field>, h: seq<Field>)
    requires HeadersOk(done + h)
    ensures ParseHeaders(Lines(h), done) == (done + h, true)
    decreases |h|
  {
    if h == [] {
      assert done + h == done;
    } else {
      var f := h[0];
      assert f == (done + h)[|done|];
      FieldRoundTrip(f);
      forall i | 0 <= i < |done|
        ensures Before(done[i].key, f.key)
      {
        assert (done + h)[i] == done[i];
      }
      SetAtEnd(done, f.key, f.value);
      assert done + [f] + h[1..] == done + h;
      assert Lines(h)[1..] == Lines(h[1..]);
      FieldsRoundTrip(done + [f], h[1..]);
    }
  }

  // ---------- The whole message ----------

  lemma StartLineIsRead(m: Message, p: Parser, rest: Text)
    requires StartOk(m) && p.status == ReadingStartLine && |StartLineText(m)| + 2 <= p.startMax
    ensures ReadStartLine(p, StartLineText(m) + CrLf() + rest)
         == (p.(status := ReadingHeader, message := Some(Message(m.version, m.start, [], []))), rest, Done)
  {
    var line := StartLineText(m);
    StartLineRoundTrip(m);
    FindBehind(line, CrLf(), rest);
    var s := line + CrLf() + rest;
    assert s[..|line|] == line && s[|line| + 2..] == rest;
  }

  lemma HeadersAreRead(h: seq<Field>, p: Parser, rest: Text)
    requires h != [] && HeadersOk(h) && |HeaderText(h)| + 2 <= p.headerMax
    requires p.message.Some? && p.message.value.headers == []
    ensures ReadHeader(p, HeaderText(h) + CrLf() + rest)
         == (p.(status := ReadingBody, message := Some(p.message.value.(headers := h))), rest, Done)
  {
    HeaderTextIsBlock(h);
    BlankLineFound(h, rest);
    SplitIntoLines(h);
    assert [] + h == h;
    FieldsRoundTrip([], h);
    BlockBegins(h);
    BlockInFront(Block(h), rest);
  }

  lemma BlockBegins(h: seq<Field>)
    requires h != [] && FieldOk(h[0])
    ensures Block(h) != [] && Block(h)[0] != CR
  {
    FieldTextIsPlain(h[0]);
    assert Block(h)[0] == FieldText(h[0])[0];
  }

  lemma BlockInFront(block: Text, rest: Text)
    requires block != [] && block[0] != CR
    ensures var s := block + CrLf() + CrLf() + rest;
            s == block + (CrLf() + CrLf()) + rest
            && |s| >= 2 && s[..2] != CrLf() && s[..|block|] == block && s[|block| + 4..] == rest
  {
    var s := block + CrLf() + CrLf() + rest;
    assert s[..2][0] == block[0];
  }

  /** The body is read exactly if the fields tell its length and it is not too long. */
  lemma BodyIsRead(m: Message, p: Parser, rest: Text)
    requires m.headers != [] && p.message == Some(m.(body := [])) && p.status == ReadingBody
    ensures BodyOk(m) && |m.body| <= p.bodyMax
       <==> ReadBody(p, m.body + rest) == (p.(status := Finished, message := Some(m)), rest, Done)
    ensures var r := ReadBody(p, m.body + rest);
            r.2 == Done && r.0.message == Some(m) ==> BodyOk(m) && |m.body| <= p.bodyMax
  {
    var s := m.body + rest;
    assert s[..|m.body|] == m.body && s[|m.body|..] == rest;
    assert m.body == [] ==> m.(body := []) == m && s == rest;
    var r := ReadBody(p, s);
    if r == (p.(status := Finished, message := Some(m)), rest, Done) {
      assert |r.1| == |rest|;
      var length := GetHeader(m.headers, ContentLength());
      assert length.Some? && Atoi(CStr(length.value)) >= 0;
    }
  }

  function Fresh(startMax: nat, headerMax: nat, bodyMax: nat): (p: Parser)
  {
    Parser(ReadingStartLine, None, startMax, headerMax, bodyMax)
  }

  /** Without fields the message ends with its head. */
  lemma EmptyHeadEnds(q: Parser, rest: Text)
    requires Sane(q) && q.status == ReadingHeader && q.message.Some? && q.message.value.headers == []
    ensures RecvMessage(q, CrLf() + rest) == (q.(status := Finished), rest, MessageReady)
  {
    var s := CrLf() + rest;
    assert s[..2] == CrLf() && s[2..] == rest;
  }

  /** What is written is read as the same message and what follows stays unread,
      exactly if the body's length is told as the reader expects it. */
  lemma MessageRoundTrip(m: Message, p: Parser, suffix: Text)
    requires HeadOk(m, p) && Sane(p)
    requires p == Fresh(p.startMax, p.headerMax, p.bodyMax)
    ensures BodyOk(m) && (m.headers != [] ==> |m.body| <= p.bodyMax)
       <==> RecvMessage(p, Written(m) + suffix)
            == (p.(status := Finished, message := Some(m)), suffix, MessageReady)
    ensures var r := RecvMessage(p, Written(m) + suffix);
            r.2 == MessageReady && r.0.message == Some(m) ==> BodyOk(m) && (m.headers != [] ==> |m.body| <= p.bodyMax)
  {
    var afterHead := m.body + suffix;
    var afterStart := HeaderText(m.headers) + CrLf() + afterHead;
    Regrouped(StartLineText(m) + CrLf(), HeaderText(m.headers), m.body, suffix);
    StartLineIsRead(m, p, afterStart);
    RecvGoesOn(p, Written(m) + suffix);
    var q := p.(status := ReadingHeader, message := Some(Message(m.version, m.start, [], [])));
    if m.headers == [] {
      assert afterStart == CrLf() + afterHead;
      EmptyHeadEnds(q, afterHead);
      assert afterHead == suffix ==> |m.body| == 0;
    } else {
      HeadersAreRead(m.headers, q, afterHead);
      RecvGoesOn(q, afterStart);
      BodyIsRead(m, q.(status := ReadingBody, message := Some(m.(body := []))), suffix);
    }
  }

  /** Fields that tell neither a length nor chunks: written, but refused. */
  lemma NoLengthIsRefused(m: Message, p: Parser, suffix: Text)
    requires HeadOk(m, p) && Sane(p) && p == Fresh(p.startMax, p.headerMax, p.bodyMax)
    requires m.headers != []
    requires GetHeader(m.headers, ContentLength()).None? && GetHeader(m.headers, TransferEncoding()).None?
    ensures RecvMessage(p, Written(m) + suffix).2 == Error
  {
    var afterHead := m.body + suffix;
    var afterStart := HeaderText(m.headers) + CrLf() + afterHead;
    Regrouped(StartLineText(m) + CrLf(), HeaderText(m.headers), m.body, suffix);
    StartLineIsRead(m, p, afterStart);
    RecvGoesOn(p, Written(m) + suffix);
    var q := p.(status := ReadingHeader, message := Some(Message(m.version, m.start, [], [])));
    HeadersAreRead(m.headers, q, afterHead);
    RecvGoesOn(q, afterStart);
  }

  /** Such a message: GET / with the one field H: v. */
  lemma SomeMessageIsRefused(p: Parser, suffix: Text)
    requires p == Fresh(64, 64, 64)
    ensures var m := Message(Http11, Request(Get, [47]), [Field([72], [118])], []);
            HeadOk(m, p) && RecvMessage(p, Written(m) + suffix).2 == Error
  {
    var m := Message(Http11, Request(Get, [47]), [Field([72], [118])], []);
    assert Before(ContentLength(), [72]);
    assert Before([72], TransferEncoding());
    assert m.headers[1..] == [];
    CStrOfText([47]);
    CStrOfText([72]);
    CStrOfText([118]);
    NoLengthIsRefused(m, p, suffix);
  }

  lemma RecvGoesOn(p: Parser, s: Text)
    requires Sane(p) && p.status in {ReadingStartLine, ReadingHeader, ReadingBody}
    ensures var (q, rest, outcome) := Handle(p, s);
            outcome == Done && q.status != Finished ==> RecvMessage(p, s) == RecvMessage(q, rest)
  {
  }

  lemma Regrouped(a: Text, b: Text, c: Text, d: Text)
    ensures a + b + CrLf() + c + d == a + (b + CrLf() + (c + d))
  {
  }

  /** The same over every way of cutting the bytes up. */
  lemma AnySegmentation(m: Message, p: Parser, suffix: Text, segments: seq<Text>)
    requires HeadOk(m, p) && Sane(p) && BodyOk(m) && |m.body| <= p.bodyMax
    requires p == Fresh(p.startMax, p.headerMax, p.bodyMax)
    requires Joined(segments) == Written(m) + suffix
    ensures RecvSegments(p, [], segments) == (p.(status := Finished, message := Some(m)), suffix, MessageReady)
  {
    MessageRoundTrip(m, p, suffix);
    SegmentationIsInvisible(p, [], segments);
    assert [] + Joined(segments) == Joined(segments);
  }
}
