/** What the HTTP codec reads and writes, told without its own words and tables: the words as
    string literals, cases, blanks and digits, the limits, and whole messages as text. */
module HttpLaws {
  import opened Options
  import opened Arithmetic
  import opened Bytes
  import opened Sequences
  import opened AsciiText
  import opened HttpText
  import opened HttpMachine
  import opened HttpTheory

  // ---------- Words ----------

  lemma WordsOfTheProtocol()
    ensures MethodText(Get) == Ascii("GET") && MethodText(Post) == Ascii("POST")
    ensures VersionText(Http10) == Ascii("HTTP/1.0") && VersionText(Http11) == Ascii("HTTP/1.1")
    ensures ContentLength() == Ascii("Content-Length") && TransferEncoding() == Ascii("Transfer-Encoding")
    ensures ChunkedWord() == Ascii("chunked")
    ensures CrLf() == Ascii("\r\n") && [Space] == Ascii(" ") && [Colon] == Ascii(":")
  {
    hide ContentLength, TransferEncoding;
    FieldNames();
  }

  lemma FieldNames()
    ensures ContentLength() == Ascii("Content-Length") && TransferEncoding() == Ascii("Transfer-Encoding")
  {
  }

  // ---------- Keys ----------

  /** Lowering takes each capital letter to its small one and nothing else anywhere. */
  lemma LoweringIsTheLatinOne(c: Byte, i: nat)
    requires i < 26
    ensures Lower("ABCDEFGHIJKLMNOPQRSTUVWXYZ"[i] as int) == "abcdefghijklmnopqrstuvwxyz"[i] as int
    ensures !('A' as int <= c <= 'Z' as int) ==> Lower(c) == c
  {
    Capital(i);
    Small(i);
  }

  lemma Capital(i: nat)
    requires i < 26
    ensures "ABCDEFGHIJKLMNOPQRSTUVWXYZ"[i] as int == 65 + i
  {
  }

  lemma Small(i: nat)
    requires i < 26
    ensures "abcdefghijklmnopqrstuvwxyz"[i] as int == 97 + i
  {
  }

  /** Two keys are the same exactly if they are equal but for case. */
  lemma {:induction false} SameKeyIgnoresCase(a: Text, b: Text)
    ensures SameKey(a, b) <==> Lowered(a) == Lowered(b)
    decreases |a|
  {
    if a != [] && b != [] {
      LoweredFront(a);
      LoweredFront(b);
      SameKeyIgnoresCase(a[1..], b[1..]);
      if Lowered(a) == Lowered(b) {
        assert Lowered(a)[0] == Lowered(b)[0] && Lowered(a)[1..] == Lowered(b)[1..];
        assert Lowered(a)[1..] == Lowered(a[1..]) && Lowered(b)[1..] == Lowered(b[1..]);
      }
    } else {
      assert |Lowered(a)| == |a| && |Lowered(b)| == |b|;
    }
  }

  lemma LoweredFront(a: Text)
    requires a != []
    ensures Lowered(a) == [Lower(a[0])] + Lowered(a[1..])
  {
  }

  /** A field is found under every spelling of its key. */
  lemma {:induction false} AnySpellingIsFound(h: seq<Field>, key: Text, other: Text)
    requires Lowered(key) == Lowered(other)
    ensures GetHeader(h, key) == GetHeader(h, other)
    decreases |h|
  {
    if h != [] {
      SameKeyIgnoresCase(key, other);
      SameKeyOrder(key, other, h[0].key);
      AnySpellingIsFound(h[1..], key, other);
    }
  }

  // ---------- Blanks ----------

  predicate AllBlank(s: Text) { forall i :: 0 <= i < |s| ==> s[i] == ' ' as int || s[i] == '\t' as int }

  /** Trimming takes blanks and tabs off both ends, all of them and nothing else. */
  lemma {:induction false} TrimTakesBlanks(a: Text, t: Text, b: Text)
    requires AllBlank(a) && AllBlank(b)
    requires t != [] && !AllBlank([t[0]]) && !AllBlank([t[|t| - 1]])
    ensures Trim(a + t + b) == t
    decreases |a|
  {
    if a == [] {
      assert a + t + b == t + b;
      assert [t[0]][0] == t[0];
      TrimRightTakesBlanks(t, b);
    } else {
      assert (a + t + b)[1..] == a[1..] + t + b;
      assert (a + t + b)[0] == a[0];
      TrimTakesBlanks(a[1..], t, b);
    }
  }

  lemma {:induction false} TrimRightTakesBlanks(t: Text, b: Text)
    requires AllBlank(b) && t != [] && !AllBlank([t[|t| - 1]])
    ensures TrimRight(t + b) == t
    decreases |b|
  {
    if b == [] {
      assert t + b == t;
      assert [t[|t| - 1]][0] == t[|t| - 1];
    } else {
      var last := |b| - 1;
      assert (t + b)[..|t + b| - 1] == t + b[..last];
      assert (t + b)[|t + b| - 1] == b[last];
      TrimRightTakesBlanks(t, b[..last]);
    }
  }

  // ---------- Digits ----------

  function Pow10(n: nat): (p: nat)
    ensures p > 0
  {
    if n == 0 then 1 else 10 * Pow10(n - 1)
  }

  /** A numeral's digits are those of the number in base 10, counted from the last. */
  lemma {:induction false} NumeralIsBaseTen(n: nat, i: nat)
    requires i < |Numeral(n)|
    ensures Numeral(n)[|Numeral(n)| - 1 - i] == "0123456789"[n / Pow10(i) % 10] as int
    decreases i
  {
    if i == 0 {
      assert n / Pow10(0) == n;
    } else {
      NumeralIsBaseTen(n / 10, i - 1);
      DivTen(n, Pow10(i - 1));
    }
  }

  lemma DivTen(n: nat, p: nat)
    requires p > 0
    ensures n / 10 / p == n / (10 * p)
  {
    var q, r := n / 10 / p, n / 10 % p;
    assert n / 10 == p * q + r;
    assert n == 10 * (p * q) + (10 * r + n % 10);
    assert 10 * (p * q) == (10 * p) * q;
    DivMod(n, q, 10 * r + n % 10, 10 * p);
  }

  /** And there are no more of them than the number has. */
  lemma {:induction false} NumeralIsShort(n: nat)
    requires n > 0
    ensures Numeral(n)[0] != '0' as int
  {
    if n >= 10 {
      NumeralIsShort(n / 10);
    }
  }

  predicate WhiteSpace(c: Byte) { c == ' ' as int || '\t' as int <= c <= '\r' as int }

  predicate AllSpace(s: Text) { forall i :: 0 <= i < |s| ==> WhiteSpace(s[i]) }

  predicate StartsWithDigit(s: Text) { s != [] && '0' as int <= s[0] <= '9' as int }

  lemma {:induction false} DigitsBeforeRest(a: Text, rest: Text, v: nat)
    requires (forall i :: 0 <= i < |a| ==> IsDigit(a[i])) && !StartsWithDigit(rest)
    ensures Digits(a + rest, v) == Digits(a, v)
    decreases |a|
  {
    if a == [] {
      assert a + rest == rest;
    } else {
      assert (a + rest)[1..] == a[1..] + rest;
      DigitsBeforeRest(a[1..], rest, 10 * v + (a[0] - 48));
    }
  }

  lemma {:induction false} SpaceIsSkipped(a: Text, s: Text)
    requires AllSpace(a) && s != [] && !WhiteSpace(s[0])
    ensures SkipSpace(a + s) == s
    decreases |a|
  {
    if a == [] {
      assert a + s == s;
    } else {
      assert (a + s)[1..] == a[1..] + s;
      SpaceIsSkipped(a[1..], s);
    }
  }

  /** A number is read behind any white space, with or without a sign, up to the first byte
      that is no digit. */
  lemma NumberIsRead(a: Text, n: nat, rest: Text)
    requires AllSpace(a) && !StartsWithDigit(rest)
    ensures Leading(a + (Numeral(n) + rest)) == n
    ensures Leading(a + (Ascii("+") + (Numeral(n) + rest))) == n
    ensures Leading(a + (Ascii("-") + (Numeral(n) + rest))) == 0 - n
  {
    var s := Numeral(n) + rest;
    NumeralValue(n);
    DigitsBeforeRest(Numeral(n), rest, 0);
    assert IsDigit(s[0]) by { assert s[0] == Numeral(n)[0]; }
    SpaceIsSkipped(a, s);
    SpaceIsSkipped(a, Ascii("+") + s);
    SpaceIsSkipped(a, Ascii("-") + s);
    assert (Ascii("+") + s)[1..] == s && (Ascii("-") + s)[1..] == s;
  }

  /** Text that begins with no number counts as zero. */
  lemma NoNumberIsZero(s: Text)
    requires !StartsWithDigit(s)
    requires s == [] || !(WhiteSpace(s[0]) || s[0] == '+' as int || s[0] == '-' as int)
    ensures Atoi(s) == 0
  {
  }

  // ---------- Start lines ----------

  lemma SplitInThree(s: Text)
    requires |Split(s, [Space], 3)| == 3
    ensures var p := Split(s, [Space], 3);
            s == p[0] + [Space] + p[1] + [Space] + p[2] && Lacks(p[0], Space) && Lacks(p[1], Space)
  {
    hide Split, Find;
    SplitOff(s, 3);
    var r := s[Find(s, [Space]).value + 1..];
    SplitOff(r, 2);
    SplitNoMore(r[Find(r, [Space]).value + 1..]);
    ThreeRegrouped(s[..Find(s, [Space]).value], r[..Find(r, [Space]).value], r[Find(r, [Space]).value + 1..]);
  }

  lemma SplitNoMore(s: Text)
    ensures Split(s, [Space], 1) == [s]
  {
  }

  lemma ThreeRegrouped(a: Text, b: Text, c: Text)
    ensures a + [Space] + (b + [Space] + c) == a + [Space] + b + [Space] + c
    ensures [a] + ([b] + [c]) == [a, b, c]
  {
  }

  lemma OneByteOccurs(s: Text, c: Byte, j: nat)
    requires j < |s|
    ensures OccursAt(s, [c], j) <==> s[j] == c
  {
    assert s[j..j + 1] == [s[j]];
  }

  /** The first part and what is behind it. */
  lemma SplitOff(s: Text, limit: nat)
    requires limit > 1
    ensures var next := Find(s, [Space]);
            if next.None? then Split(s, [Space], limit) == [s]
            else
              && Split(s, [Space], limit) == [s[..next.value]] + Split(s[next.value + 1..], [Space], limit - 1)
              && s == s[..next.value] + [Space] + s[next.value + 1..] && Lacks(s[..next.value], Space)
  {
    var next := Find(s, [Space]);
    if next.Some? {
      FindIsFirst(s, [Space], next.value);
      assert s[next.value] == s[next.value..next.value + 1][0] == Space;
      forall j | 0 <= j < next.value
        ensures s[j] != Space
      {
        OneByteOccurs(s, Space, j);
      }
    }
  }

  /** Only printed request lines are taken for requests, and only lines made of a version,
      a number and a reason for responses. */
  lemma AcceptedStartLine(line: Text)
    requires ParseStartLine(line).Some?
    ensures var (version, start) := ParseStartLine(line).value;
            version != UnknownVersion
            && match start
               case Request(verb, uri) =>
                 verb != UnknownMethod && Lacks(uri, Space)
                 && line == MethodText(verb) + [Space] + uri + [Space] + VersionText(version)
               case Response(code, reason) =>
                 exists t ::
                   Lacks(t, Space) && code == Atoi(CStr(t)) > 0
                   && line == VersionText(version) + [Space] + t + [Space] + reason
  {
    SplitInThree(line);
    var p := Split(line, [Space], 3);
    VersionsAreWords(p[0]);
    VersionsAreWords(p[2]);
    assert Lacks(p[1], Space);
  }

  lemma VersionsAreWords(t: Text)
    ensures VersionOf(t) != UnknownVersion ==> t == VersionText(VersionOf(t))
    ensures MethodOf(t) != UnknownMethod ==> t == MethodText(MethodOf(t))
  {
  }

  // ---------- Limits ----------

  /** The start line and the fields are not too long; without fields their limit does not count. */
  predicate Fits(m: Message, p: Parser)
  {
    && |StartLineText(m)| + 2 <= p.startMax
    && (m.headers != [] ==> |HeaderText(m.headers)| + 2 <= p.headerMax && |m.body| <= p.bodyMax)
  }

  /** A start line over its limit is refused, whatever follows. */
  lemma LongStartLineIsRefused(m: Message, p: Parser, rest: Text)
    requires StartOk(m) && Sane(p) && p.status == ReadingStartLine
    requires |StartLineText(m)| + 2 > p.startMax
    ensures RecvMessage(p, StartLineText(m) + CrLf() + rest).2 == Error
  {
    StartLineRoundTrip(m);
    FindBehind(StartLineText(m), CrLf(), rest);
  }

  /** And so is one that does not end in time. */
  lemma EndlessStartLineIsRefused(s: Text, p: Parser)
    requires Lacks(s, CR) && Sane(p) && p.status == ReadingStartLine
    ensures RecvMessage(p, s).2 == if |s| > p.startMax then Error else WaitingMoreData
  {
    NotFound(s, CrLf());
  }

  lemma LongFieldsAreRefused(h: seq<Field>, p: Parser, rest: Text)
    requires h != [] && HeadersOk(h) && Sane(p) && p.status == ReadingHeader
    requires |HeaderText(h)| + 2 > p.headerMax
    ensures RecvMessage(p, HeaderText(h) + CrLf() + rest).2 == Error
  {
    HeaderTextIsBlock(h);
    BlankLineFound(h, rest);
    BlockBegins(h);
    BlockInFront(Block(h), rest);
  }

  /** A message with a sound head comes through exactly if it fits and the fields tell its
      length; if its head does not fit it is refused. */
  lemma ExactlyWhatComesThrough(m: Message, p: Parser, suffix: Text)
    requires StartOk(m) && HeadersOk(m.headers) && Sane(p)
    requires p == Fresh(p.startMax, p.headerMax, p.bodyMax)
    ensures Fits(m, p) && BodyOk(m)
       <==> RecvMessage(p, Written(m) + suffix)
            == (p.(status := Finished, message := Some(m)), suffix, MessageReady)
    ensures |StartLineText(m)| + 2 > p.startMax || (m.headers != [] && |HeaderText(m.headers)| + 2 > p.headerMax)
            ==> RecvMessage(p, Written(m) + suffix).2 == Error
  {
    var afterHead := m.body + suffix;
    var afterStart := HeaderText(m.headers) + CrLf() + afterHead;
    Regrouped(StartLineText(m) + CrLf(), HeaderText(m.headers), m.body, suffix);
    if |StartLineText(m)| + 2 > p.startMax {
      LongStartLineIsRefused(m, p, afterStart);
    } else if m.headers != [] && |HeaderText(m.headers)| + 2 > p.headerMax {
      StartLineIsRead(m, p, afterStart);
      RecvGoesOn(p, Written(m) + suffix);
      LongFieldsAreRefused(m.headers, AfterStart(m, p), afterHead);
    } else if m.headers != [] {
      MessageRoundTrip(m, p, suffix);
    } else {
      StartLineIsRead(m, p, afterStart);
      RecvGoesOn(p, Written(m) + suffix);
      assert afterStart == CrLf() + afterHead;
      EmptyHeadEnds(AfterStart(m, p), afterHead);
      assert afterHead == suffix ==> |m.body| == 0;
    }
  }

  function AfterStart(m: Message, p: Parser): (q: Parser)
  {
    p.(status := ReadingHeader, message := Some(Message(m.version, m.start, [], [])))
  }

  // ---------- Without a length ----------

  /** The fields say that the body is chunked. */
  ghost predicate SaysChunked(h: seq<Field>)
  {
    var encoding := GetHeader(h, Ascii("transfer-encoding"));
    encoding.Some? && exists i: nat :: OccursAt(Lowered(encoding.value), Ascii("chunked"), i)
  }

  lemma BodyWithoutLength(q: Parser, h: seq<Field>, s: Text)
    requires q.message.Some? && q.message.value.headers == h
    requires GetHeader(h, Ascii("content-length")).None?
    ensures ReadBody(q, s) == (q, s, if SaysChunked(h) then Chunked else Wrong)
  {
    SmallSpelling();
    AnySpellingIsFound(h, ContentLength(), Ascii("content-length"));
    AnySpellingIsFound(h, TransferEncoding(), Ascii("transfer-encoding"));
    WordsOfTheProtocol();
    var encoding := GetHeader(h, TransferEncoding());
    if encoding.Some? {
      Occurs(Lowered(encoding.value), ChunkedWord());
    }
  }

  /** A message that tells no length is refused, unless it says that its body is chunked. */
  lemma NoLengthTold(m: Message, p: Parser, suffix: Text)
    requires HeadOk(m, p) && Sane(p) && p == Fresh(p.startMax, p.headerMax, p.bodyMax)
    requires m.headers != [] && GetHeader(m.headers, Ascii("content-length")).None?
    ensures RecvMessage(p, Written(m) + suffix).2 == if SaysChunked(m.headers) then LeftToChunks else Error
  {
    hide SaysChunked, GetHeader, ReadBody, Ascii;
    var afterHead := m.body + suffix;
    var afterStart := HeaderText(m.headers) + CrLf() + afterHead;
    Regrouped(StartLineText(m) + CrLf(), HeaderText(m.headers), m.body, suffix);
    StartLineIsRead(m, p, afterStart);
    RecvGoesOn(p, Written(m) + suffix);
    HeadersAreRead(m.headers, AfterStart(m, p), afterHead);
    RecvGoesOn(AfterStart(m, p), afterStart);
    var q := p.(status := ReadingBody, message := Some(Message(m.version, m.start, m.headers, [])));
    BodyWithoutLength(q, m.headers, afterHead);
  }

  lemma SmallSpelling()
    ensures Lowered(ContentLength()) == Lowered(Ascii("content-length"))
    ensures Lowered(TransferEncoding()) == Lowered(Ascii("transfer-encoding"))
  {
  }

  lemma Occurs(s: Text, k: Text)
    requires k != []
    ensures Find(s, k).Some? <==> exists i: nat :: OccursAt(s, k, i)
  {
    if Find(s, k).Some? {
      FindIsFirst(s, k, Find(s, k).value);
      assert OccursAt(s, k, Find(s, k).value);
    } else {
      forall i: nat
        ensures !OccursAt(s, k, i)
      {
        FindNone(s, k, i);
      }
    }
  }

  // ---------- Messages as text ----------

  function VersionString(v: Version): (s: string)
  {
    match v
    case Http10 => "HTTP/1.0"
    case Http11 => "HTTP/1.1"
    case UnknownVersion => "UNKNOWN"
  }

  function StartText(m: Message): (t: Text)
  {
    match m.start
    case Request(verb, uri) =>
      Ascii(if verb == Get then "GET " else "POST ") + uri + Ascii(" " + VersionString(m.version) + "\r\n")
    case Response(code, reason) =>
      Ascii(VersionString(m.version) + " ") + Decimal(code) + Ascii(" ") + reason + Ascii("\r\n")
  }

  function FieldsText(h: seq<Field>): (t: Text)
  {
    if h == [] then [] else h[0].key + Ascii(": ") + h[0].value + Ascii("\r\n") + FieldsText(h[1..])
  }

  lemma AsciiJoined(a: string, b: string)
    ensures Ascii(a + b) == Ascii(a) + Ascii(b)
  {
  }

  lemma VersionAsText(v: Version)
    ensures Ascii(VersionString(v)) == VersionText(v)
  {
  }

  lemma MethodAsText(verb: Method)
    ensures verb == Get ==> Ascii("GET ") == MethodText(verb) + [Space]
    ensures verb == Post ==> Ascii("POST ") == MethodText(verb) + [Space]
  {
  }

  lemma Separators()
    ensures Ascii(" ") == [Space] && Ascii("\r\n") == CrLf() && Ascii(": ") == [Colon, Space]
  {
  }

  lemma StartAsText(m: Message)
    requires StartOk(m)
    ensures StartLineText(m) + CrLf() == StartText(m)
  {
    hide VersionText, VersionString, MethodText, CrLf;
    Separators();
    VersionAsText(m.version);
    match m.start {
      case Request(verb, uri) =>
        CStrOfText(uri);
        MethodAsText(verb);
        AsciiJoined(" ", VersionString(m.version));
        AsciiJoined(" " + VersionString(m.version), "\r\n");
        RequestRegrouped(MethodText(verb) + [Space], uri, [Space], VersionText(m.version), CrLf());
      case Response(code, reason) =>
        CStrOfText(reason);
        AsciiJoined(VersionString(m.version), " ");
    }
  }

  lemma RequestRegrouped(a: Text, b: Text, c: Text, d: Text, e: Text)
    ensures a + b + c + d + e == a + b + (c + d + e)
  {
  }

  lemma {:induction false} FieldsAsText(h: seq<Field>)
    requires forall i :: 0 <= i < |h| ==> FieldOk(h[i])
    ensures HeaderText(h) == FieldsText(h)
    decreases |h|
  {
    if h != [] {
      hide CrLf;
      Separators();
      CStrOfText(h[0].key);
      CStrOfText(h[0].value);
      FieldsAsText(h[1..]);
    }
  }

  /** A message in the form of sections 3, 4.1 and 5 of RFC 7230: start line, one line for each
      field, a blank line, the body. */
  lemma WrittenAsText(m: Message)
    requires StartOk(m) && HeadersOk(m.headers)
    ensures Written(m) == StartText(m) + FieldsText(m.headers) + Ascii("\r\n") + m.body
  {
    hide CrLf;
    Separators();
    StartAsText(m);
    FieldsAsText(m.headers);
  }
}
