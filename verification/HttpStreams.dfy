/** Message after message: what a caller gets who retrieves each as it becomes ready. */
module HttpStreams {
  import opened Sequences
  import opened HttpText
  import opened HttpMachine
  import opened HttpTheory

  /** The parser once its message has been retrieved. */
  function Emptied(p: Parser): (q: Parser) { Fresh(p.startMax, p.headerMax, p.bodyMax) }

  /** Receiving and retrieving until nothing more comes: the messages, and why it ended. */
  function Drain(p: Parser, s: Text): (r: (Parser, Text, seq<Message>, RetCode))
    requires Sane(p)
    ensures r.3 == WaitingMoreData ==> Sane(r.0)
    decreases |s| + (if p.status == ReadingStartLine then 0 else 1)
  {
    var (q, rest, code) := RecvMessage(p, s);
    if code != MessageReady then (q, rest, [], code)
    else
      var (x, t, more, last) := Drain(Emptied(q), rest);
      (x, t, [q.message.value] + more, last)
  }

  /** Draining after each of two segments is draining once after both. */
  lemma {:induction false} DrainInTwo(p: Parser, a: Text, b: Text)
    requires Sane(p)
    ensures var (q, rest, first, code) := Drain(p, a);
            if code != WaitingMoreData then Drain(p, a + b) == (q, rest + b, first, code)
            else
              var (x, t, later, last) := Drain(q, rest + b);
              Drain(p, a + b) == (x, t, first + later, last)
    decreases |a| + (if p.status == ReadingStartLine then 0 else 1)
  {
    var (q, rest, code) := RecvMessage(p, a);
    TwoSegments(p, a, b);
    if code == MessageReady {
      DrainInTwo(Emptied(q), rest, b);
      var (x, t, more, last) := Drain(Emptied(q), rest);
      if last == WaitingMoreData {
        Associative([q.message.value], more, Drain(x, t + b).2);
      }
    } else if code == WaitingMoreData {
      assert [] + Drain(q, rest + b).2 == Drain(q, rest + b).2;
    }
  }

  /** Segments arriving one after the other, drained after each. */
  function DrainSegments(p: Parser, buffered: Text, segments: seq<Text>): (r: (Parser, Text, seq<Message>, RetCode))
    requires Sane(p)
    decreases |segments|
  {
    var (q, rest, first, code) := Drain(p, buffered);
    if code != WaitingMoreData || segments == [] then (q, rest + Joined(segments), first, code)
    else
      var (x, t, later, last) := DrainSegments(q, rest + segments[0], segments[1..]);
      (x, t, first + later, last)
  }

  lemma {:induction false} SegmentationIsInvisible(p: Parser, buffered: Text, segments: seq<Text>)
    requires Sane(p)
    ensures DrainSegments(p, buffered, segments) == Drain(p, buffered + Joined(segments))
    decreases |segments|
  {
    var (q, rest, first, code) := Drain(p, buffered);
    if segments == [] {
      assert rest + Joined(segments) == rest;
      assert buffered + Joined(segments) == buffered;
    } else {
      DrainInTwo(p, buffered, Joined(segments));
      if code == WaitingMoreData {
        SegmentationIsInvisible(q, rest + segments[0], segments[1..]);
        Associative(rest, segments[0], Joined(segments[1..]));
      }
    }
  }

  // ---------- Written messages ----------

  function Stream(ms: seq<Message>): (s: Text)
  {
    if ms == [] then [] else Written(ms[0]) + Stream(ms[1..])
  }

  /** What MessageRoundTrip asks of a message and a reader. */
  predicate ComesThrough(m: Message, p: Parser)
    requires HeadOk(m, p)
  {
    BodyOk(m) && (m.headers != [] ==> |m.body| <= p.bodyMax)
  }

  /** The heads of all messages are sound and within the reader's limits. */
  predicate HeadsOk(ms: seq<Message>, p: Parser)
  {
    forall i {:trigger ms[i]} :: 0 <= i < |ms| ==> HeadOk(ms[i], p)
  }

  predicate AllComeThrough(ms: seq<Message>, p: Parser)
    requires HeadsOk(ms, p)
  {
    forall i {:trigger ms[i]} :: 0 <= i < |ms| ==> ComesThrough(ms[i], p)
  }

  lemma FirstAndOthers(ms: seq<Message>, p: Parser)
    requires HeadsOk(ms, p) && ms != []
    ensures HeadsOk(ms[1..], p)
    ensures AllComeThrough(ms, p) <==> ComesThrough(ms[0], p) && AllComeThrough(ms[1..], p)
  {
    if ComesThrough(ms[0], p) && AllComeThrough(ms[1..], p) {
      forall i | 0 <= i < |ms|
        ensures ComesThrough(ms[i], p)
      {
        assert i > 0 ==> ms[i] == ms[1..][i - 1];
      }
    }
    assert forall i {:trigger ms[1..][i]} :: 0 <= i < |ms| - 1 ==> ms[1..][i] == ms[i + 1];
  }

  /** The first message is given exactly if it comes through, and then the reader goes on
      behind it. */
  lemma FirstMessage(m: Message, p: Parser, behind: Text)
    requires Sane(p) && p == Emptied(p) && HeadOk(m, p)
    ensures var (x, t, more, last) := Drain(p, behind);
            var r := Drain(p, Written(m) + behind);
            if ComesThrough(m, p) then r == (x, t, [m] + more, last) else !([m] <= r.2)
  {
    MessageRoundTrip(m, p, behind);
    var s := Written(m) + behind;
    if RecvMessage(p, s).2 == MessageReady {
      ReadyThenMore(p, s);
      var q := RecvMessage(p, s).0;
      Prefixes([m], Drain(p, s).2);
      assert Drain(p, s).2[0] == q.message.value;
    }
  }

  lemma ReadyThenMore(p: Parser, s: Text)
    requires Sane(p) && RecvMessage(p, s).2 == MessageReady
    ensures var (q, rest, code) := RecvMessage(p, s);
            var (x, t, more, last) := Drain(Emptied(q), rest);
            Drain(p, s) == (x, t, [q.message.value] + more, last)
  {
  }

  /** All written messages are read one after the other exactly if each comes through; then
      the reader goes on with what follows. */
  lemma {:induction false} StreamRoundTrip(ms: seq<Message>, p: Parser, suffix: Text)
    requires Sane(p) && p == Emptied(p) && HeadsOk(ms, p)
    ensures var (x, t, more, last) := Drain(p, suffix);
            var r := Drain(p, Stream(ms) + suffix);
            if AllComeThrough(ms, p) then r == (x, t, ms + more, last) else !(ms <= r.2)
    decreases |ms|
  {
    if ms == [] {
      assert Stream(ms) + suffix == suffix;
      assert ms + Drain(p, suffix).2 == Drain(p, suffix).2;
    } else {
      FirstAndOthers(ms, p);
      Associative(Written(ms[0]), Stream(ms[1..]), suffix);
      FirstMessage(ms[0], p, Stream(ms[1..]) + suffix);
      StreamRoundTrip(ms[1..], p, suffix);
      FrontAndRest(ms, Drain(p, suffix).2);
      Prefixes(ms, Drain(p, Stream(ms) + suffix).2);
    }
  }

  lemma FrontAndRest<A>(s: seq<A>, more: seq<A>)
    requires s != []
    ensures [s[0]] + (s[1..] + more) == s + more
  {
  }

  /** A prefix begins as the whole does, and so does what is behind its first element. */
  lemma Prefixes<A>(s: seq<A>, t: seq<A>)
    requires s != []
    ensures s <= t <==> t != [] && t[0] == s[0] && s[1..] <= t[1..]
    ensures [s[0]] <= t <==> t != [] && t[0] == s[0]
    ensures forall u: seq<A> :: t == [s[0]] + u ==> t[1..] == u
  {
    if t != [] && t[0] == s[0] && s[1..] <= t[1..] {
      assert s == [s[0]] + s[1..] && t == [t[0]] + t[1..];
    }
    if s <= t {
      assert s[1..] == t[1..][..|s| - 1];
    }
  }

  /** However the bytes of written messages are cut into segments: the reader gives exactly
      those messages, in their order, and waits for more, exactly if each comes through. */
  lemma StreamOverSegments(ms: seq<Message>, p: Parser, segments: seq<Text>)
    requires Sane(p) && p == Emptied(p) && HeadsOk(ms, p)
    requires Joined(segments) == Stream(ms)
    ensures DrainSegments(p, [], segments) == (p, [], ms, WaitingMoreData) <==> AllComeThrough(ms, p)
  {
    SegmentationIsInvisible(p, [], segments);
    StreamAlone(ms, p);
    assert [] + Joined(segments) == Stream(ms);
  }

  lemma StreamAlone(ms: seq<Message>, p: Parser)
    requires Sane(p) && p == Emptied(p) && HeadsOk(ms, p)
    ensures Drain(p, Stream(ms)) == (p, [], ms, WaitingMoreData) <==> AllComeThrough(ms, p)
  {
    StreamRoundTrip(ms, p, []);
    NothingBehind(Stream(ms));
    NothingBehind(ms);
    if AllComeThrough(ms, p) {
      NothingToDrain(p);
    }
  }

  lemma NothingBehind<A>(s: seq<A>)
    ensures s + [] == s && s <= s
  {
  }

  lemma NothingToDrain(p: Parser)
    requires Sane(p) && p == Emptied(p)
    ensures Drain(p, []) == (p, [], [], WaitingMoreData)
  {
    assert Find([], CrLf()).None?;
  }
}
