/** Base64, sections 3.5 and 4 of RFC 4648: strict both ways. */
module Base64 {
  import opened Arithmetic
  import opened Bytes
  import opened Options
  import opened Sequences

  type Sextet = v: int | 0 <= v < 64

  const Pad: Byte := 61

  /** The alphabet: A-Z, a-z, 0-9, plus and slash. */
  function Letter(v: Sextet): (c: Byte)
  {
    if v < 26 then 65 + v
    else if v < 52 then 97 + (v - 26)
    else if v < 62 then 48 + (v - 52)
    else if v == 62 then 43 else 47
  }

  function Value(c: Byte): (v: Option<Sextet>)
  {
    if 65 <= c <= 90 then Some(c - 65)
    else if 97 <= c <= 122 then Some(26 + (c - 97))
    else if 48 <= c <= 57 then Some(52 + (c - 48))
    else if c == 43 then Some(62)
    else if c == 47 then Some(63)
    else None
  }

  lemma AlphabetIsOneToOne(v: Sextet, c: Byte)
    ensures Value(Letter(v)) == Some(v) && Letter(v) != Pad
    ensures Value(c) == Some(v) ==> Letter(v) == c
  {
  }

  // ---------- Encoding ----------

  /** Four letters for up to three bytes. */
  function EncodeGroup(g: seq<Byte>): (s: seq<Byte>)
    requires 1 <= |g| <= 3
    ensures |s| == 4
  {
    var b0, b1, b2 := g[0], if |g| > 1 then g[1] else 0, if |g| > 2 then g[2] else 0;
    [Letter(b0 / 4),
     Letter((b0 % 4) * 16 + b1 / 16),
     if |g| > 1 then Letter((b1 % 16) * 4 + b2 / 64) else Pad,
     if |g| > 2 then Letter(b2 % 64) else Pad]
  }

  function Encode(x: seq<Byte>): (s: seq<Byte>)
    ensures |s| == 4 * ((|x| + 2) / 3)
  {
    if x == [] then []
    else
      var n := if |x| >= 3 then 3 else |x|;
      EncodeGroup(x[..n]) + Encode(x[n..])
  }

  // ---------- Decoding ----------

  /** The values of the letters in front of the padding, which must go on to the end. */
  function Sextets(s: seq<Byte>): (v: Option<seq<Sextet>>)
    ensures v.Some? ==> |v.value| <= |s|
  {
    if s == [] then Some([])
    else if s[0] == Pad then (if AllPad(s) then Some([]) else None)
    else
      var first, rest := Value(s[0]), Sextets(s[1..]);
      if first.None? || rest.None? then None else Some([first.value] + rest.value)
  }

  predicate AllPad(s: seq<Byte>) { forall i :: 0 <= i < |s| ==> s[i] == Pad }

  /** One to three bytes for four letters, only the last group being padded, and no
      bit of the last letter lost. */
  function DecodeGroup(s: seq<Byte>, last: bool): (g: Option<seq<Byte>>)
    requires |s| == 4
    ensures g.Some? ==> 1 <= |g.value| <= 3
  {
    var v := Sextets(s);
    if v.None? then None
    else if |v.value| < 4 && !last then None
    else if |v.value| < 2 then None
    else FromSextets(v.value)
  }

  function FromSextets(v: seq<Sextet>): (g: Option<seq<Byte>>)
    requires 2 <= |v| <= 4
    ensures g.Some? ==> |g.value| == |v| - 1
  {
    if |v| == 2 && v[1] % 16 != 0 then None
    else if |v| == 3 && v[2] % 4 != 0 then None
    else
      Some([High(v[0], v[1])]
           + (if |v| > 2 then [Middle(v[1], v[2])] else [])
           + (if |v| > 3 then [Low(v[2], v[3])] else []))
  }

  /** The three bytes of four values, two at a time. */
  function High(a: nat, b: nat): (c: Byte)
    requires a < 64 && b < 64
  {
    a * 4 + b / 16
  }

  function Middle(a: nat, b: nat): (c: Byte)
    requires a < 64 && b < 64
  {
    a % 16 * 16 + b / 4
  }

  function Low(a: nat, b: nat): (c: Byte)
    requires a < 64 && b < 64
  {
    a % 4 * 64 + b
  }

  function Decode(s: seq<Byte>): (x: Option<seq<Byte>>)
  {
    if s == [] then Some([])
    else if |s| < 4 then None
    else
      var g, rest := DecodeGroup(s[..4], |s| == 4), Decode(s[4..]);
      if g.None? || rest.None? then None else Some(g.value + rest.value)
  }

  // ---------- Each undoes the other ----------

  lemma SextetsOfLetters(a: Sextet, b: Sextet, t: seq<Byte>, v: seq<Sextet>)
    requires Sextets(t) == Some(v)
    ensures Sextets([Letter(a), Letter(b)] + t) == Some([a, b] + v)
  {
    AlphabetIsOneToOne(a, 0);
    AlphabetIsOneToOne(b, 0);
    var s := [Letter(a), Letter(b)] + t;
    assert s[1..] == [Letter(b)] + t;
    assert s[1..][1..] == t;
    assert [a] + ([b] + v) == [a, b] + v;
  }

  lemma SextetsOfTwo(a: Sextet, b: Sextet)
    ensures Sextets([Letter(a), Letter(b)]) == Some([a, b])
    ensures Sextets([Letter(a), Pad]) == Some([a])
  {
    AlphabetIsOneToOne(a, 0);
    AlphabetIsOneToOne(b, 0);
    assert [Letter(a), Letter(b)][1..] == [Letter(b)] && [Letter(b)][1..] == [];
    assert [Letter(a), Pad][1..] == [Pad];
    assert Sextets([Letter(b)]) == Some([b]) by {
      assert [b] + [] == [b];
    }
    assert [a] + [b] == [a, b];
    assert [a] + [] == [a];
  }

  lemma PaddingIsEmpty(s: seq<Byte>)
    requires AllPad(s)
    ensures Sextets(s) == Some([])
  {
  }

  lemma OneByteCode(g: seq<Byte>)
    requires |g| == 1
    ensures var code := EncodeGroup(g);
            code == [Letter(g[0] / 4), Letter((g[0] % 4) * 16)] + code[2..] && AllPad(code[2..])
  {
  }

  lemma OneByte(b0: nat, code: seq<Byte>)
    requires b0 < 256 && |code| == 4 && AllPad(code[2..])
    requires code == [Letter(b0 / 4), Letter((b0 % 4) * 16)] + code[2..]
    ensures DecodeGroup(code, true) == Some([b0])
  {
    LettersAndPadding(b0 / 4, (b0 % 4) * 16, code[2..]);
    FromTwo(b0 / 4, (b0 % 4) * 16);
  }

  lemma LettersAndPadding(a: Sextet, b: Sextet, t: seq<Byte>)
    requires AllPad(t)
    ensures Sextets([Letter(a), Letter(b)] + t) == Some([a, b])
  {
    PaddingIsEmpty(t);
    SextetsOfLetters(a, b, t, []);
    assert [a, b] + [] == [a, b];
  }

  lemma FromTwo(a: Sextet, b: Sextet)
    requires b % 16 == 0
    ensures FromSextets([a, b]) == Some([High(a, b)])
  {
    assert [High(a, b)] + [] + [] == [High(a, b)];
  }

  lemma TwoBytesCode(g: seq<Byte>)
    requires |g| == 2
    ensures EncodeGroup(g)
         == [Letter(g[0] / 4), Letter((g[0] % 4) * 16 + g[1] / 16)] + [Letter((g[1] % 16) * 4), Pad]
  {
  }

  lemma TwoBytes(b0: nat, b1: nat)
    requires b0 < 256 && b1 < 256
    ensures DecodeGroup([Letter(b0 / 4), Letter((b0 % 4) * 16 + b1 / 16)] + [Letter((b1 % 16) * 4), Pad], true)
         == Some([b0, b1])
  {
    var s0: Sextet, s1: Sextet, s2: Sextet := b0 / 4, (b0 % 4) * 16 + b1 / 16, (b1 % 16) * 4;
    BitsForth(b0, b1, 0);
    SextetsOfTwo(s2, 0);
    SextetsOfLetters(s0, s1, [Letter(s2), Pad], [s2]);
    assert [s0, s1] + [s2] == [s0, s1, s2];
    FromThree(s0, s1, s2);
  }

  lemma FromThree(a: Sextet, b: Sextet, c: Sextet)
    requires c % 4 == 0
    ensures FromSextets([a, b, c]) == Some([High(a, b), Middle(b, c)])
  {
    assert [High(a, b)] + [Middle(b, c)] + [] == [High(a, b), Middle(b, c)];
  }

  lemma ThreeBytesCode(g: seq<Byte>)
    requires |g| == 3
    ensures EncodeGroup(g)
         == [Letter(g[0] / 4), Letter((g[0] % 4) * 16 + g[1] / 16)]
            + [Letter((g[1] % 16) * 4 + g[2] / 64), Letter(g[2] % 64)]
  {
  }

  lemma ThreeBytes(b0: nat, b1: nat, b2: nat, last: bool)
    requires b0 < 256 && b1 < 256 && b2 < 256
    ensures DecodeGroup([Letter(b0 / 4), Letter((b0 % 4) * 16 + b1 / 16)]
                        + [Letter((b1 % 16) * 4 + b2 / 64), Letter(b2 % 64)], last)
         == Some([b0, b1, b2])
  {
    var s0: Sextet, s1: Sextet := b0 / 4, (b0 % 4) * 16 + b1 / 16;
    var s2: Sextet, s3: Sextet := (b1 % 16) * 4 + b2 / 64, b2 % 64;
    BitsForth(b0, b1, b2);
    SextetsOfTwo(s2, s3);
    SextetsOfLetters(s0, s1, [Letter(s2), Letter(s3)], [s2, s3]);
    assert [s0, s1] + [s2, s3] == [s0, s1, s2, s3];
    FromFour(s0, s1, s2, s3);
  }

  lemma FromFour(a: Sextet, b: Sextet, c: Sextet, d: Sextet)
    ensures FromSextets([a, b, c, d]) == Some([High(a, b), Middle(b, c), Low(c, d)])
  {
    assert [High(a, b)] + [Middle(b, c)] + [Low(c, d)] == [High(a, b), Middle(b, c), Low(c, d)];
  }

  lemma GroupRoundTrip(g: seq<Byte>, last: bool)
    requires 1 <= |g| <= 3 && (|g| < 3 ==> last)
    ensures DecodeGroup(EncodeGroup(g), last) == Some(g)
  {
    if |g| == 1 {
      assert g == [g[0]];
      OneByteCode(g);
      OneByte(g[0], EncodeGroup(g));
    } else if |g| == 2 {
      assert g == [g[0], g[1]];
      TwoBytesCode(g);
      TwoBytes(g[0], g[1]);
    } else {
      assert g == [g[0], g[1], g[2]];
      ThreeBytesCode(g);
      ThreeBytes(g[0], g[1], g[2], last);
    }
  }

  lemma DecodeFront(a: seq<Byte>, b: seq<Byte>, g: seq<Byte>, rest: seq<Byte>)
    requires |a| == 4 && DecodeGroup(a, b == []) == Some(g) && Decode(b) == Some(rest)
    ensures Decode(a + b) == Some(g + rest)
  {
    assert (a + b)[..4] == a && (a + b)[4..] == b;
  }

  lemma OneMoreGroup(g: seq<Byte>, code: seq<Byte>, rest: seq<Byte>)
    requires 1 <= |g| <= 3 && (|g| < 3 ==> code == []) && Decode(code) == Some(rest)
    ensures Decode(EncodeGroup(g) + code) == Some(g + rest)
  {
    GroupRoundTrip(g, code == []);
    DecodeFront(EncodeGroup(g), code, g, rest);
  }

  /** What is encoded is decoded to itself. */
  lemma {:induction false} DecodeUndoesEncode(x: seq<Byte>)
    ensures Decode(Encode(x)) == Some(x)
  {
    if |x| >= 3 {
      DecodeUndoesEncode(x[3..]);
      OneMoreGroup(x[..3], Encode(x[3..]), x[3..]);
      assert x[..3] + x[3..] == x;
    } else if x != [] {
      assert x[..|x|] == x && x[|x|..] == [];
      OneMoreGroup(x, [], []);
      assert x + [] == x;
    }
  }

  /** Letters, then padding. */
  function Spelled(v: seq<Sextet>, n: nat): (s: seq<Byte>)
    requires |v| <= n
    ensures |s| == n
  {
    seq(n, i requires 0 <= i < n => if i < |v| then Letter(v[i]) else Pad)
  }

  lemma {:induction false} SextetsAreSpelled(s: seq<Byte>)
    requires Sextets(s).Some?
    ensures s == Spelled(Sextets(s).value, |s|)
  {
    if s != [] && s[0] != Pad {
      SextetsAreSpelled(s[1..]);
      var v := Sextets(s).value;
      AlphabetIsOneToOne(v[0], s[0]);
      assert s == [s[0]] + s[1..];
      assert v[1..] == Sextets(s[1..]).value;
    }
  }

  lemma FourAreCanonical(a: Sextet, b: Sextet, c: Sextet, d: Sextet)
    ensures EncodeGroup([High(a, b), Middle(b, c), Low(c, d)]) == [Letter(a), Letter(b), Letter(c), Letter(d)]
    ensures c % 4 == 0 ==> EncodeGroup([High(a, b), Middle(b, c)]) == [Letter(a), Letter(b), Letter(c), Pad]
    ensures b % 16 == 0 ==> EncodeGroup([High(a, b)]) == [Letter(a), Letter(b), Pad, Pad]
  {
    BitsBack(a, b, c, d);
    ThreeBytesCode([High(a, b), Middle(b, c), Low(c, d)]);
    TwoBytesCode([High(a, b), Middle(b, c)]);
  }

  lemma GroupIsCanonical(s: seq<Byte>, last: bool)
    requires |s| == 4 && DecodeGroup(s, last).Some?
    ensures var g := DecodeGroup(s, last).value;
            1 <= |g| <= 3 && (|g| < 3 ==> last) && EncodeGroup(g) == s
  {
    SextetsAreSpelled(s);
    SpelledIsCanonical(Sextets(s).value, s);
  }

  lemma SpelledIsCanonical(v: seq<Sextet>, s: seq<Byte>)
    requires 2 <= |v| <= 4 && s == Spelled(v, 4) && FromSextets(v).Some?
    ensures EncodeGroup(FromSextets(v).value) == s
  {
    if |v| == 4 {
      FourAreCanonical(v[0], v[1], v[2], v[3]);
      FromFour(v[0], v[1], v[2], v[3]);
      assert v == [v[0], v[1], v[2], v[3]];
    } else if |v| == 3 {
      FourAreCanonical(v[0], v[1], v[2], 0);
      FromThree(v[0], v[1], v[2]);
      assert v == [v[0], v[1], v[2]];
    } else {
      FourAreCanonical(v[0], v[1], 0, 0);
      FromTwo(v[0], v[1]);
      assert v == [v[0], v[1]];
    }
  }

  lemma BitsBack(a: nat, b: nat, c: nat, d: nat)
    requires a < 64 && b < 64 && c < 64 && d < 64
    ensures High(a, b) / 4 == a && High(a, b) % 4 * 16 + Middle(b, c) / 16 == b
    ensures Middle(b, c) % 16 * 4 + Low(c, d) / 64 == c && Low(c, d) % 64 == d
    ensures b % 16 == 0 ==> High(a, b) % 4 * 16 == b
    ensures c % 4 == 0 ==> Middle(b, c) % 16 * 4 == c
  {
  }

  lemma BitsForth(b0: nat, b1: nat, b2: nat)
    requires b0 < 256 && b1 < 256 && b2 < 256
    ensures var s1, s2 := b0 % 4 * 16 + b1 / 16, b1 % 16 * 4 + b2 / 64;
            s1 < 64 && s2 < 64 && High(b0 / 4, s1) == b0 && Middle(s1, s2) == b1 && Low(s2, b2 % 64) == b2
  {
  }

  /** And only encodings are accepted: the strict checks leave one spelling each. */
  lemma {:induction false} EncodeUndoesDecode(s: seq<Byte>)
    requires Decode(s).Some?
    ensures Encode(Decode(s).value) == s
  {
    if s != [] {
      GroupIsCanonical(s[..4], |s| == 4);
      EncodeUndoesDecode(s[4..]);
      var g, rest := DecodeGroup(s[..4], |s| == 4).value, Decode(s[4..]).value;
      assert s == s[..4] + s[4..];
      if |s| == 4 {
        assert g + rest == g;
        assert g[..|g|] == g && g[|g|..] == [];
      } else {
        assert (g + rest)[..3] == g && (g + rest)[3..] == rest;
      }
    }
  }

  // ---------- On buffers ----------

  /** Encodes into a buffer; -1 if it is too small, otherwise the number of letters as an int. */
  method Base64Encode(input: seq<Byte>, out: array<Byte>) returns (count: int)
    modifies out
    ensures count == if |Encode(input)| <= out.Length then NarrowToInt(|Encode(input)|) else -1
    ensures var n := |Encode(input)|;
            n <= out.Length ==> out[..n] == Encode(input) && out[n..] == old(out[n..])
  {
    var at, o := 0, 0;
    assert input[0..] == input;
    ghost var done: seq<Byte> := [];
    while at < |input|
      invariant 0 <= at <= |input| && 0 <= o <= out.Length
      invariant done == out[..o] && done + Encode(input[at..]) == Encode(input)
      invariant forall k :: o <= k < out.Length ==> out[k] == old(out[k])
    {
      var n := if |input| - at >= 3 then 3 else |input| - at;
      EncodeNext(done, input, at, n);
      if out.Length - o < 4 {
        return -1;
      }
      var group := EncodeGroup(input[at..at + n]);
      PlaceGroup(group, out, o);
      done := done + group;
      at, o := at + n, o + 4;
    }
    NothingLeft(done, input[at..]);
    count := NarrowToInt(o);
  }

  lemma NothingLeft(done: seq<Byte>, rest: seq<Byte>)
    requires rest == []
    ensures done + Encode(rest) == done && Decode(rest) == Some([]) && After(done, Decode(rest)) == Some(done)
  {
  }

  lemma EncodeNext(done: seq<Byte>, input: seq<Byte>, at: nat, n: nat)
    requires at < |input| && n == if |input| - at >= 3 then 3 else |input| - at
    ensures done + Encode(input[at..]) == done + EncodeGroup(input[at..at + n]) + Encode(input[at + n..])
    ensures |Encode(input[at..])| == 4 + |Encode(input[at + n..])|
  {
    var x := input[at..];
    Slices(input, at, n);
    Associative(done, EncodeGroup(x[..n]), Encode(x[n..]));
  }

  lemma Slices(s: seq<Byte>, at: nat, n: nat)
    requires at + n <= |s|
    ensures s[at..][..n] == s[at..at + n] && s[at..][n..] == s[at + n..]
  {
  }

  method PlaceGroup(group: seq<Byte>, out: array<Byte>, at: nat)
    requires at + |group| <= out.Length
    modifies out
    ensures out[..at + |group|] == old(out[..at]) + group
    ensures forall k :: at + |group| <= k < out.Length ==> out[k] == old(out[k])
  {
    for i := 0 to |group|
      invariant out[..at + i] == old(out[..at]) + group[..i]
      invariant forall k :: at + |group| <= k < out.Length ==> out[k] == old(out[k])
    {
      out[at + i] := group[i];
    }
  }

  /** The values of the letters of one group, letter by letter. */
  method ReadGroup(s: seq<Byte>) returns (v: Option<seq<Sextet>>)
    requires |s| == 4
    ensures v == Sextets(s)
  {
    var values: seq<Sextet> := [];
    var i := 0;
    assert s[0..] == s;
    BehindNothing(Sextets(s), values);
    while i < 4
      invariant 0 <= i <= 4
      invariant Sextets(s) == Behind(values, Sextets(s[i..]))
    {
      if s[i] == Pad {
        for j := i + 1 to 4
          invariant AllPad(s[i..j])
        {
          if s[j] != Pad {
            assert s[i..][j - i] == s[j];
            assert !AllPad(s[i..]);
            return None;
          }
          assert s[i..j + 1] == s[i..j] + [Pad];
        }
        assert s[i..4] == s[i..];
        BehindNothing(Some([]), values);
        return Some(values);
      }
      var value := Value(s[i]);
      assert s[i..][1..] == s[i + 1..];
      if value.None? {
        return None;
      }
      BehindNext(values, value.value, Sextets(s[i + 1..]));
      values := values + [value.value];
      i := i + 1;
    }
    assert s[4..] == [];
    BehindNothing(Some([]), values);
    v := Some(values);
  }

  function Behind(a: seq<Sextet>, b: Option<seq<Sextet>>): (r: Option<seq<Sextet>>)
  {
    if b.None? then None else Some(a + b.value)
  }

  lemma BehindNothing(b: Option<seq<Sextet>>, a: seq<Sextet>)
    ensures Behind([], b) == b && Behind(a, Some([])) == Some(a)
  {
    assert a + [] == a;
    assert b.Some? ==> [] + b.value == b.value;
  }

  lemma BehindNext(a: seq<Sextet>, v: Sextet, b: Option<seq<Sextet>>)
    ensures Behind(a, if b.None? then None else Some([v] + b.value)) == Behind(a + [v], b)
  {
    if b.Some? {
      assert a + ([v] + b.value) == a + [v] + b.value;
    }
  }

  /** Decodes into a buffer; -1 if the text is not an encoding or the buffer too small, otherwise
      the number of bytes as an int. */
  method Base64Decode(input: seq<Byte>, out: array<Byte>) returns (count: int)
    modifies out
    ensures var x := Decode(input);
            if x.Some? && |x.value| <= out.Length
            then count == NarrowToInt(|x.value|)
                 && out[..|x.value|] == x.value && out[|x.value|..] == old(out[|x.value|..])
            else count == -1
  {
    var at, o := 0, 0;
    assert input[0..] == input;
    assert Decode(input).Some? ==> [] + Decode(input).value == Decode(input).value;
    ghost var done: seq<Byte> := [];
    while at < |input|
      invariant 0 <= at <= |input| && 0 <= o <= out.Length
      invariant done == out[..o]
      invariant Decode(input) == After(done, Decode(input[at..]))
      invariant forall k :: o <= k < out.Length ==> out[k] == old(out[k])
    {
      if |input| - at < 4 {
        return -1;
      }
      DecodeNext(done, input, at);
      var bytes := ReadBytes(input[at..at + 4], |input| - at == 4);
      if bytes.None? {
        return -1;
      }
      if out.Length - o < |bytes.value| {
        return -1;
      }
      PlaceGroup(bytes.value, out, o);
      done := done + bytes.value;
      at, o := at + 4, o + |bytes.value|;
    }
    NothingLeft(done, input[at..]);
    count := NarrowToInt(o);
  }

  /** The bytes of one group, with all that can be wrong with it. */
  method ReadBytes(group: seq<Byte>, last: bool) returns (bytes: Option<seq<Byte>>)
    requires |group| == 4
    ensures bytes == DecodeGroup(group, last)
  {
    var v := ReadGroup(group);
    if v.None? {
      return None;
    }
    if |v.value| < 4 && !last {
      return None;
    }
    if |v.value| < 2 {
      return None;
    }
    bytes := FromSextets(v.value);
  }

  lemma DecodeNext(done: seq<Byte>, input: seq<Byte>, at: nat)
    requires at + 4 <= |input|
    ensures var g := DecodeGroup(input[at..at + 4], |input| - at == 4);
            After(done, Decode(input[at..])) ==
              if g.None? then None else After(done + g.value, Decode(input[at + 4..]))
  {
    Slices(input, at, 4);
    var g := DecodeGroup(input[at..at + 4], |input| - at == 4);
    if g.Some? {
      AfterNext(done, g.value, Decode(input[at + 4..]));
    }
  }

  ghost function After(a: seq<Byte>, b: Option<seq<Byte>>): (r: Option<seq<Byte>>)
  {
    if b.None? then None else Some(a + b.value)
  }

  lemma AfterNext(a: seq<Byte>, g: seq<Byte>, b: Option<seq<Byte>>)
    ensures After(a, if b.None? then None else Some(g + b.value)) == After(a + g, b)
  {
    if b.Some? {
      assert a + (g + b.value) == a + g + b.value;
    }
  }

  /** What a caller is handed of n bytes whose number comes back as an int. */
  function Handed(x: seq<Byte>): (r: seq<Byte>)
    ensures r <= x
    ensures r == x <==> |x| < 0x8000_0000
  {
    if NarrowToInt(|x|) <= 0 then [] else x[..NarrowToInt(|x|)]
  }

  /** The buffer made for it always holds the encoding; it is handed out whole below 2^31 letters. */
  method EncodeString(s: seq<Byte>) returns (r: seq<Byte>)
    ensures r <= Encode(s)
    ensures r == Encode(s) <==> |Encode(s)| < 0x8000_0000
    ensures r == Handed(Encode(s))
  {
    if s == [] {
      return [];
    }
    var output := new Byte[(|s| + 2) / 3 * 4];
    var count := Base64Encode(s, output);
    r := if count <= 0 then [] else output[..count];
    assert output[..|Encode(s)|] == Encode(s);
  }

  /** And always holds what is decoded; a text that is no encoding gives nothing. */
  method DecodeString(s: seq<Byte>) returns (r: seq<Byte>)
    ensures Decode(s).None? ==> r == []
    ensures Decode(s).Some? ==> (r == Decode(s).value <==> |Decode(s).value| < 0x8000_0000)
    ensures Decode(s).Some? ==> r == Handed(Decode(s).value)
  {
    if s == [] {
      return [];
    }
    if Decode(s).Some? {
      DecodedSize(s);
    }
    if |s| % 4 != 0 {
      return [];
    }
    var output := new Byte[|s| / 4 * 3];
    var count := Base64Decode(s, output);
    r := if count <= 0 then [] else output[..count];
    assert Decode(s).Some? ==> output[..|Decode(s).value|] == Decode(s).value;
  }

  lemma {:induction false} DecodedSize(s: seq<Byte>)
    requires Decode(s).Some?
    ensures |s| % 4 == 0 && 4 * |Decode(s).value| <= 3 * |s|
  {
    if s != [] {
      DecodedInParts(s);
      DecodedSize(s[4..]);
    }
  }

  lemma DecodedInParts(s: seq<Byte>)
    requires Decode(s).Some? && s != []
    ensures |s| == 4 + |s[4..]| && Decode(s[4..]).Some?
    ensures |Decode(s).value| <= 3 + |Decode(s[4..]).value|
  {
  }
}
