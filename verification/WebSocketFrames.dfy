/** The bytes of one WebSocket frame, sections 5.2 and 5.3 of RFC 6455. */
module WebSocketFrames {
  import opened Bytes

  /** A frame with its payload unmasked. */
  datatype Frame = Frame(fin: bool, opcode: nat, payload: seq<Byte>)

  datatype Parsed = NeedMore | Malformed | Got(frame: Frame, size: nat)

  datatype Length = LengthNeedsMore | LengthMalformed | LengthOf(value: nat, header: nat)

  predicate IsControl(opcode: nat) { opcode >= 0x8 }

  function Masked(payload: seq<Byte>, key: seq<Byte>): (r: seq<Byte>)
    requires |key| == 4
    ensures |r| == |payload|
    ensures forall i :: 0 <= i < |r| ==> r[i] == Xor(payload[i], key[i % 4])
  {
    seq(|payload|, i requires 0 <= i < |payload| => Xor(payload[i], key[i % 4]))
  }

  lemma MaskedTwice(payload: seq<Byte>, key: seq<Byte>)
    requires |key| == 4
    ensures Masked(Masked(payload, key), key) == payload
  {
    forall i | 0 <= i < |payload|
      ensures Masked(Masked(payload, key), key)[i] == payload[i]
    {
      XorTwice(payload[i], key[i % 4]);
    }
  }

  // ---------- Decoding ----------

  /** The payload length and where the length field ends, from at least two bytes. */
  function ParseLength(s: seq<Byte>, control: bool): (r: Length)
    requires |s| >= 2
    ensures r.LengthOf? ==> 2 <= r.header <= |s| && r.header <= 10
  {
    var short := s[1] % 0x80;
    if control && short >= 126 then LengthMalformed
    else if short == 126 then
      if |s| < 4 then LengthNeedsMore
      else
        var value := FromBigEndian(s[2..4]);
        if value < 126 then LengthMalformed else LengthOf(value, 4)
    else if short == 127 then
      if |s| < 10 then LengthNeedsMore
      else
        var value := FromBigEndian(s[2..10]);
        if value <= 0xffff || value >= 0x8000_0000_0000_0000 then LengthMalformed
        else LengthOf(value, 10)
    else LengthOf(short, 2)
  }

  /** One frame from the front of s, read by a client or a server that has room
      for that many more bytes of message. */
  function ParseFrame(s: seq<Byte>, isClient: bool, room: int): (r: Parsed)
    ensures r.Got? ==> 2 <= r.size <= |s|
  {
    if |s| < 2 then NeedMore
    else if s[0] / 0x10 % 8 != 0 then Malformed
    else
      var fin, opcode := s[0] >= 0x80, s[0] % 0x10;
      if IsControl(opcode) && !fin then Malformed
      else
        match ParseLength(s, IsControl(opcode))
        case LengthNeedsMore => NeedMore
        case LengthMalformed => Malformed
        case LengthOf(length, header) =>
          if !IsControl(opcode) && length > room then Malformed
          else ParsePayload(s, fin, opcode, length, header, isClient)
  }

  /** The rest of a frame whose length field ends at header. */
  function ParsePayload(s: seq<Byte>, fin: bool, opcode: nat, length: nat, header: nat, isClient: bool): (r: Parsed)
    requires 2 <= header <= |s|
    ensures r.Got? ==> header <= r.size <= |s|
                       && r.frame.fin == fin && r.frame.opcode == opcode && |r.frame.payload| == length
  {
    if s[1] >= 0x80 then
      if isClient then Malformed
      else if |s| < header + 4 then NeedMore
      else if |s| < header + 4 + length then NeedMore
      else
        var key := s[header..header + 4];
        var body := s[header + 4..header + 4 + length];
        Got(Frame(fin, opcode, Masked(body, key)), header + 4 + length)
    else
      if !isClient then Malformed
      else if |s| < header + length then NeedMore
      else Got(Frame(fin, opcode, s[header..header + length]), header + length)
  }

  lemma LengthIsStable(a: seq<Byte>, b: seq<Byte>, control: bool)
    requires |a| >= 2 && ParseLength(a, control) != LengthNeedsMore
    ensures ParseLength(a + b, control) == ParseLength(a, control)
  {
    assert |a| >= 4 ==> (a + b)[2..4] == a[2..4];
    assert |a| >= 10 ==> (a + b)[2..10] == a[2..10];
  }

  lemma PayloadIsStable(a: seq<Byte>, b: seq<Byte>, fin: bool, opcode: nat, length: nat, header: nat, isClient: bool)
    requires 2 <= header <= |a|
    requires ParsePayload(a, fin, opcode, length, header, isClient) != NeedMore
    ensures ParsePayload(a + b, fin, opcode, length, header, isClient)
         == ParsePayload(a, fin, opcode, length, header, isClient)
  {
    var s, k := a + b, header;
    if |a| >= k + 4 + length {
      assert s[k..k + 4] == a[k..k + 4];
      assert s[k + 4..k + 4 + length] == a[k + 4..k + 4 + length];
    }
    if |a| >= k + length {
      assert s[k..k + length] == a[k..k + length];
    }
  }

  /** A verdict on a prefix is the verdict on the whole: only "need more" can change. */
  lemma ParseIsStable(a: seq<Byte>, b: seq<Byte>, isClient: bool, room: int)
    requires ParseFrame(a, isClient, room) != NeedMore
    ensures ParseFrame(a + b, isClient, room) == ParseFrame(a, isClient, room)
  {
    var fin, opcode := a[0] >= 0x80, a[0] % 0x10;
    var length := ParseLength(a, IsControl(opcode));
    if length != LengthNeedsMore {
      LengthIsStable(a, b, IsControl(opcode));
      if length.LengthOf? && ParsePayload(a, fin, opcode, length.value, length.header, isClient) != NeedMore {
        PayloadIsStable(a, b, fin, opcode, length.value, length.header, isClient);
      }
    }
  }

  // ---------- Encoding ----------

  /** The length field: its first byte carries the mask flag. */
  function LengthField(n: nat, flag: nat): (s: seq<Byte>)
    requires flag == 0 || flag == 0x80
  {
    if n < 126 then [flag + n]
    else if n <= 65535 then [flag + 126] + ToBigEndian(n, 2)
    else [flag + 127] + ToBigEndian(n, 8)
  }

  /** A frame as a client (which masks, with that key) or a server sends it. */
  function EncodeFrame(f: Frame, isClient: bool, key: seq<Byte>): (s: seq<Byte>)
    requires f.opcode < 0x10 && |key| == 4
  {
    [(if f.fin then 0x80 else 0) + f.opcode]
    + LengthField(|f.payload|, if isClient then 0x80 else 0)
    + Body(f, isClient, key)
  }

  /** What follows the length field. */
  function Body(f: Frame, isClient: bool, key: seq<Byte>): (s: seq<Byte>)
    requires |key| == 4
  {
    if isClient then key + Masked(f.payload, key) else f.payload
  }

  /** What the decoder can take: control frames are whole and short, the others fit. */
  predicate Acceptable(f: Frame, room: int)
  {
    f.opcode < 0x10
    && (if IsControl(f.opcode) then f.fin && |f.payload| < 126
        else |f.payload| <= room && |f.payload| < 0x8000_0000_0000_0000)
  }

  lemma LengthRoundTrip(first: Byte, n: nat, flag: nat, rest: seq<Byte>, control: bool)
    requires flag == 0 || flag == 0x80
    requires n < 0x8000_0000_0000_0000 && (control ==> n < 126)
    ensures ParseLength([first] + LengthField(n, flag) + rest, control)
         == LengthOf(n, 1 + |LengthField(n, flag)|)
  {
    var field := LengthField(n, flag);
    var s := [first] + field + rest;
    assert s[1] == field[0];
    WordRoundTrip(n);
    if 126 <= n <= 65535 {
      Behind(first, field[0], ToBigEndian(n, 2), rest);
      TwoByteLength(s, n, flag);
    } else if n > 65535 {
      Behind(first, field[0], ToBigEndian(n, 8), rest);
      EightByteLength(s, n, flag);
    }
  }

  lemma TwoByteLength(s: seq<Byte>, n: nat, flag: nat)
    requires (flag == 0 || flag == 0x80) && n >= 126
    requires |s| >= 4 && s[1] == flag + 126 && FromBigEndian(s[2..4]) == n
    ensures ParseLength(s, false) == LengthOf(n, 4)
  {
  }

  lemma EightByteLength(s: seq<Byte>, n: nat, flag: nat)
    requires (flag == 0 || flag == 0x80) && 65535 < n < 0x8000_0000_0000_0000
    requires |s| >= 10 && s[1] == flag + 127 && FromBigEndian(s[2..10]) == n
    ensures ParseLength(s, false) == LengthOf(n, 10)
  {
  }

  lemma Behind(first: Byte, second: Byte, number: seq<Byte>, rest: seq<Byte>)
    ensures var s := [first] + ([second] + number) + rest;
            |s| >= 2 + |number| && s[2..2 + |number|] == number
  {
  }

  lemma TopBitIsMalformed(first: Byte, n: nat, flag: nat, rest: seq<Byte>)
    requires flag == 0 || flag == 0x80
    requires 0x8000_0000_0000_0000 <= n < 0x1_0000_0000_0000_0000
    ensures ParseLength([first] + LengthField(n, flag) + rest, false) == LengthMalformed
  {
    var s := [first] + LengthField(n, flag) + rest;
    WordRoundTrip(n);
    assert s[1] == LengthField(n, flag)[0];
    assert s[2..10] == ToBigEndian(n, 8);
  }

  lemma Middle(a: seq<Byte>, b: seq<Byte>, c: seq<Byte>)
    ensures (a + b + c)[|a|..|a| + |b|] == b
  {
  }

  /** A server sends its payload as it is. */
  lemma ServerPayload(head: seq<Byte>, f: Frame, suffix: seq<Byte>)
    requires |head| >= 2 && head[1] < 0x80
    ensures ParsePayload(head + f.payload + suffix, f.fin, f.opcode, |f.payload|, |head|, true)
         == Got(f, |head + f.payload|)
  {
    var s := head + f.payload + suffix;
    assert s[1] == head[1];
    Middle(head, f.payload, suffix);
  }

  /** A client masks its payload, and what is behind the key is unmasked with it. */
  lemma ClientPayload(head: seq<Byte>, f: Frame, key: seq<Byte>, suffix: seq<Byte>)
    requires |head| >= 2 && |key| == 4 && head[1] >= 0x80
    ensures ParsePayload(head + (key + Masked(f.payload, key)) + suffix, f.fin, f.opcode, |f.payload|, |head|, false)
         == Got(f, |head + (key + Masked(f.payload, key))|)
  {
    var masked := Masked(f.payload, key);
    var s := head + (key + masked) + suffix;
    assert s[1] == head[1];
    KeyedParts(head, key, masked, suffix);
    MaskedTwice(f.payload, key);
  }

  lemma KeyedParts(head: seq<Byte>, key: seq<Byte>, masked: seq<Byte>, suffix: seq<Byte>)
    ensures var s := head + (key + masked) + suffix;
            var at := |head| + |key|;
            |s| >= at + |masked| && s[|head|..at] == key && s[at..at + |masked|] == masked
  {
  }

  lemma PayloadRoundTrip(head: seq<Byte>, f: Frame, isClient: bool, key: seq<Byte>, suffix: seq<Byte>)
    requires |head| >= 2 && |key| == 4 && (isClient <==> head[1] >= 0x80)
    ensures ParsePayload(head + Body(f, isClient, key) + suffix, f.fin, f.opcode, |f.payload|, |head|, !isClient)
         == Got(f, |head + Body(f, isClient, key)|)
  {
    if isClient {
      ClientPayload(head, f, key, suffix);
    } else {
      ServerPayload(head, f, suffix);
    }
  }

  /** Where the length field is in order and within bounds, the payload decides. */
  lemma ParseGoesOn(s: seq<Byte>, f: Frame, header: nat, isClient: bool, room: int)
    requires |s| >= 2 && Acceptable(f, room)
    requires s[0] == (if f.fin then 0x80 else 0) + f.opcode
    requires ParseLength(s, IsControl(f.opcode)) == LengthOf(|f.payload|, header)
    ensures ParseFrame(s, isClient, room) == ParsePayload(s, f.fin, f.opcode, |f.payload|, header, isClient)
  {
  }

  /** What one role encodes the other decodes, leaving exactly what follows. */
  lemma FrameRoundTrip(f: Frame, isClient: bool, key: seq<Byte>, suffix: seq<Byte>, room: int)
    requires |key| == 4 && Acceptable(f, room)
    ensures ParseFrame(EncodeFrame(f, isClient, key) + suffix, !isClient, room)
         == Got(f, |EncodeFrame(f, isClient, key)|)
  {
    var first := (if f.fin then 0x80 else 0) + f.opcode;
    var flag := if isClient then 0x80 else 0;
    var field := LengthField(|f.payload|, flag);
    var body := Body(f, isClient, key);
    var s := EncodeFrame(f, isClient, key) + suffix;
    Regrouped([first], field, body, suffix);
    LengthRoundTrip(first, |f.payload|, flag, body + suffix, IsControl(f.opcode));
    ParseGoesOn(s, f, 1 + |field|, !isClient, room);
    var head := [first] + field;
    assert head[1] == field[0];
    PayloadRoundTrip(head, f, isClient, key, suffix);
    assert s == head + body + suffix;
    assert |head + body| == |EncodeFrame(f, isClient, key)|;
  }

  lemma Regrouped(a: seq<Byte>, b: seq<Byte>, c: seq<Byte>, d: seq<Byte>)
    ensures a + b + c + d == a + b + (c + d)
  {
  }

  /** No proper prefix of a frame is taken for a frame or for an error. */
  lemma PrefixNeedsMore(f: Frame, isClient: bool, key: seq<Byte>, cut: nat, room: int)
    requires |key| == 4 && Acceptable(f, room)
    requires cut < |EncodeFrame(f, isClient, key)|
    ensures ParseFrame(EncodeFrame(f, isClient, key)[..cut], !isClient, room) == NeedMore
  {
    var code := EncodeFrame(f, isClient, key);
    FrameRoundTrip(f, isClient, key, [], room);
    assert code + [] == code;
    NoVerdictEarly(code, cut, !isClient, room);
  }

  lemma NoVerdictEarly(s: seq<Byte>, cut: nat, isClient: bool, room: int)
    requires ParseFrame(s, isClient, room).Got? && cut < ParseFrame(s, isClient, room).size
    ensures ParseFrame(s[..cut], isClient, room) == NeedMore
  {
    assert s[..cut] + s[cut..] == s;
    if ParseFrame(s[..cut], isClient, room) != NeedMore {
      ParseIsStable(s[..cut], s[cut..], isClient, room);
    }
  }

  /** The mask key inside an encoded frame, four zero bytes where there is none. */
  function KeyIn(s: seq<Byte>): (key: seq<Byte>)
    ensures |key| == 4
  {
    if |s| >= 2 && ParseLength(s, false).LengthOf? && s[1] >= 0x80
       && |s| >= ParseLength(s, false).header + 4
    then var k := ParseLength(s, false).header; s[k..k + 4]
    else [0, 0, 0, 0]
  }

  lemma LengthIsCanonical(s: seq<Byte>, control: bool)
    requires |s| >= 2 && ParseLength(s, control).LengthOf?
    ensures s[1..ParseLength(s, control).header]
         == LengthField(ParseLength(s, control).value, if s[1] >= 0x80 then 0x80 else 0)
    ensures ParseLength(s, control).value < 0x8000_0000_0000_0000
    ensures control ==> ParseLength(s, control).value < 126
  {
    var short := s[1] % 0x80;
    if short == 126 {
      PairBound(s[2..4]);
      BytesRoundTrip(s[2..4]);
      assert s[1..4] == [s[1]] + s[2..4];
    } else if short == 127 {
      BytesRoundTrip(s[2..10]);
      assert s[1..10] == [s[1]] + s[2..10];
    }
  }

  /** The decoder accepts encodings only: minimal lengths, the right masking,
      no reserved bits. */
  lemma AcceptedIsEncoded(s: seq<Byte>, isClient: bool, room: int)
    requires ParseFrame(s, isClient, room).Got?
    ensures var g := ParseFrame(s, isClient, room);
            Acceptable(g.frame, room)
            && s[..g.size] == EncodeFrame(g.frame, !isClient, KeyIn(s))
  {
    var g := ParseFrame(s, isClient, room);
    var length := ParseLength(s, IsControl(g.frame.opcode));
    ParsedParts(s, isClient, room);
    LengthIsCanonical(s, IsControl(g.frame.opcode));
    KeyIsThere(s, g.frame.fin, g.frame.opcode, isClient);
    PayloadIsCanonical(s, g.frame.fin, g.frame.opcode, length.value, length.header, isClient, KeyIn(s));
    EncodedInParts(s, g.frame, !isClient, KeyIn(s), length.header, g.size);
  }

  /** A client's frame has its key behind the length. */
  lemma KeyIsThere(s: seq<Byte>, fin: bool, opcode: nat, isClient: bool)
    requires |s| >= 2 && ParseLength(s, false).LengthOf?
    requires var length := ParseLength(s, false);
             ParsePayload(s, fin, opcode, length.value, length.header, isClient).Got?
    ensures var k := ParseLength(s, false).header;
            isClient || (k + 4 <= |s| && KeyIn(s) == s[k..k + 4])
  {
  }

  lemma EncodedInParts(s: seq<Byte>, f: Frame, isClient: bool, key: seq<Byte>, header: nat, size: nat)
    requires |key| == 4 && f.opcode < 0x10 && 1 <= header <= size <= |s|
    requires s[0] == (if f.fin then 0x80 else 0) + f.opcode
    requires s[1..header] == LengthField(|f.payload|, if isClient then 0x80 else 0)
    requires s[header..size] == Body(f, isClient, key)
    ensures s[..size] == EncodeFrame(f, isClient, key)
  {
    Thirds(s, header, size);
  }

  lemma ParsedParts(s: seq<Byte>, isClient: bool, room: int)
    requires ParseFrame(s, isClient, room).Got?
    ensures var g := ParseFrame(s, isClient, room);
            var length := ParseLength(s, IsControl(g.frame.opcode));
            s[0] == (if g.frame.fin then 0x80 else 0) + g.frame.opcode
            && (IsControl(g.frame.opcode) ==> g.frame.fin)
            && length.LengthOf? && length == ParseLength(s, false)
            && (!IsControl(g.frame.opcode) ==> length.value <= room)
            && g == ParsePayload(s, g.frame.fin, g.frame.opcode, length.value, length.header, isClient)
  {
  }

  lemma Thirds(s: seq<Byte>, i: nat, j: nat)
    requires 1 <= i <= j <= |s|
    ensures s[..j] == [s[0]] + s[1..i] + s[i..j]
  {
  }

  lemma PayloadIsCanonical(s: seq<Byte>, fin: bool, opcode: nat, length: nat, header: nat, isClient: bool, key: seq<Byte>)
    requires 2 <= header <= |s| && |key| == 4
    requires ParsePayload(s, fin, opcode, length, header, isClient).Got?
    requires isClient || key == s[header..header + 4]
    ensures var g := ParsePayload(s, fin, opcode, length, header, isClient);
            g.frame.fin == fin && g.frame.opcode == opcode && |g.frame.payload| == length
            && (isClient <==> s[1] < 0x80)
            && g.size >= header
            && s[header..g.size] == if isClient then g.frame.payload else key + Masked(g.frame.payload, key)
  {
    if !isClient {
      var body := s[header + 4..header + 4 + length];
      MaskedTwice(body, key);
      assert s[header..header + 4 + length] == key + body;
    }
  }
}
