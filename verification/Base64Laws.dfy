/** What Base64 says, independently of how it is computed: the alphabet as RFC 4648 prints
    it, and groups of bytes as numbers in base 64. */
module Base64Laws {
  import opened Arithmetic
  import opened Bytes
  import opened AsciiText
  import opened Base64

  /** Table 1 of RFC 4648. */
  lemma LettersAreTheAlphabet(v: Sextet)
    ensures Letter(v) == ("ABCDEFGHIJKLMNOPQRSTUVWXYZ" + "abcdefghijklmnopqrstuvwxyz" + "0123456789+/")[v] as int
    ensures Pad == '=' as int
  {
    hide Letter;
    if v < 26 {
      CapitalLetters(v);
    } else if v < 52 {
      SmallLetters(v - 26);
    } else {
      DigitsAndSigns(v - 52);
    }
  }

  lemma CapitalLetters(v: nat)
    requires v < 26
    ensures Letter(v) == "ABCDEFGHIJKLMNOPQRSTUVWXYZ"[v] as int
  {
  }

  lemma DigitsAndSigns(v: nat)
    requires v < 12
    ensures Letter(52 + v) == "0123456789+/"[v] as int
  {
  }

  lemma SmallLetters(v: nat)
    requires v < 26
    ensures Letter(26 + v) == "abcdefghijklmnopqrstuvwxyz"[v] as int
  {
  }

  /** The number that up to three bytes are in base 256, the missing ones being zero. */
  function Number(g: seq<Byte>): (n: nat)
    requires |g| <= 3
  {
    var a: nat, b: nat, c: nat := if |g| > 0 then g[0] else 0, if |g| > 1 then g[1] else 0, if |g| > 2 then g[2] else 0;
    a * 0x1_0000 + b * 0x100 + c
  }

  /** Its digits in base 64, the highest first. */
  function Digit(n: nat, i: nat): (d: Sextet)
    requires i < 4
  {
    if i == 0 then n / 64 / 64 / 64 % 64
    else if i == 1 then n / 64 / 64 % 64
    else if i == 2 then n / 64 % 64
    else n % 64
  }

  lemma DigitsOfThree(a: nat, b: nat, c: nat)
    requires a < 256 && b < 256 && c < 256
    ensures var n := a * 0x1_0000 + b * 0x100 + c;
            && Digit(n, 0) == a / 4 && Digit(n, 1) == a % 4 * 16 + b / 16
            && Digit(n, 2) == b % 16 * 4 + c / 64 && Digit(n, 3) == c % 64
  {
    var n := a * 0x1_0000 + b * 0x100 + c;
    DivMod(n, a * 0x400 + b * 4 + c / 64, c % 64, 64);
    DivMod(a * 0x400 + b * 4 + c / 64, a * 16 + b / 16, b % 16 * 4 + c / 64, 64);
    DivMod(a * 16 + b / 16, a / 4, a % 4 * 16 + b / 16, 64);
  }

  lemma GroupIsNumber(g: seq<Byte>, i: nat)
    requires 1 <= |g| <= 3 && i < 4
    ensures EncodeGroup(g)[i] == if i <= |g| then Letter(Digit(Number(g), i)) else Pad
  {
    DigitsOfThree(g[0], if |g| > 1 then g[1] else 0, if |g| > 2 then g[2] else 0);
  }

  /** The bytes that the i-th letter is about. */
  function Group(x: seq<Byte>, i: nat): (g: seq<Byte>)
    requires i < 4 * ((|x| + 2) / 3)
    ensures 1 <= |g| <= 3
  {
    var from := i / 4 * 3;
    if from + 3 <= |x| then x[from..from + 3] else x[from..]
  }

  lemma FirstGroup(x: seq<Byte>, i: nat)
    requires i < 4 && x != []
    ensures Group(x, i) == x[..if |x| >= 3 then 3 else |x|]
  {
  }

  lemma LaterGroup(x: seq<Byte>, i: nat)
    requires 4 <= i < 4 * ((|x| + 2) / 3)
    ensures |x| > 3 && Group(x, i) == Group(x[3..], i - 4)
  {
    assert i / 4 * 3 == (i - 4) / 4 * 3 + 3;
  }

  /** Every letter of an encoding: a digit of the three bytes it is about, or padding
      where there is no byte. */
  lemma {:induction false} EncodeIsBase64(x: seq<Byte>, i: nat)
    requires i < |Encode(x)|
    ensures Encode(x)[i] ==
            var g := Group(x, i);
            if i % 4 <= |g| then Letter(Digit(Number(g), i % 4)) else Pad
    decreases |x|
  {
    hide Letter, Digit, Number, EncodeGroup, Group;
    var n := if |x| >= 3 then 3 else |x|;
    if i < 4 {
      GroupIsNumber(x[..n], i);
      FirstGroup(x, i);
    } else {
      EncodeIsBase64(x[n..], i - 4);
      LaterGroup(x, i);
    }
  }

  /** The test vectors of section 10 of RFC 4648. */
  lemma PublishedVectors()
    ensures Encode(Ascii("")) == Ascii("")
    ensures Encode(Ascii("f")) == Ascii("Zg==")
    ensures Encode(Ascii("fo")) == Ascii("Zm8=")
    ensures Encode(Ascii("foo")) == Ascii("Zm9v")
    ensures Encode(Ascii("foob")) == Ascii("Zm9vYg==")
    ensures Encode(Ascii("fooba")) == Ascii("Zm9vYmE=")
    ensures Encode(Ascii("foobar")) == Ascii("Zm9vYmFy")
  {
    hide Encode, Ascii;
    Vectors();
    MoreVectors();
    Halves();
    TwoGroups(Ascii("foo"), Ascii("b"), Ascii("Zm9v"), Ascii("Yg=="));
    TwoGroups(Ascii("foo"), Ascii("ba"), Ascii("Zm9v"), Ascii("YmE="));
    TwoGroups(Ascii("foo"), Ascii("bar"), Ascii("Zm9v"), Ascii("YmFy"));
  }

  lemma Halves()
    ensures Ascii("foob") == Ascii("foo") + Ascii("b") && Ascii("Zm9vYg==") == Ascii("Zm9v") + Ascii("Yg==")
    ensures Ascii("fooba") == Ascii("foo") + Ascii("ba") && Ascii("Zm9vYmE=") == Ascii("Zm9v") + Ascii("YmE=")
    ensures Ascii("foobar") == Ascii("foo") + Ascii("bar") && Ascii("Zm9vYmFy") == Ascii("Zm9v") + Ascii("YmFy")
  {
  }

  lemma Vectors()
    ensures Encode(Ascii("")) == Ascii("") && Encode(Ascii("f")) == Ascii("Zg==")
    ensures Encode(Ascii("fo")) == Ascii("Zm8=") && Encode(Ascii("foo")) == Ascii("Zm9v")
  {
    OneGroup(Ascii("f"), Ascii("Zg=="));
    OneGroup(Ascii("fo"), Ascii("Zm8="));
    OneGroup(Ascii("foo"), Ascii("Zm9v"));
  }

  lemma MoreVectors()
    ensures Encode(Ascii("b")) == Ascii("Yg==")
    ensures Encode(Ascii("ba")) == Ascii("YmE=") && Encode(Ascii("bar")) == Ascii("YmFy")
  {
    hide Encode;
    OneGroup(Ascii("b"), Ascii("Yg=="));
    OneGroup(Ascii("ba"), Ascii("YmE="));
    OneGroup(Ascii("bar"), Ascii("YmFy"));
  }

  lemma OneGroup(g: seq<Byte>, s: seq<Byte>)
    requires 1 <= |g| <= 3 && |s| == 4
    requires EncodeGroup(g) == s
    ensures Encode(g) == s
  {
    assert g[..|g|] == g;
    assert s + [] == s;
  }

  lemma TwoGroups(g: seq<Byte>, h: seq<Byte>, s: seq<Byte>, t: seq<Byte>)
    requires |g| == 3 && Encode(g) == s && Encode(h) == t
    ensures Encode(g + h) == s + t
  {
    assert (g + h)[..3] == g && (g + h)[3..] == h;
    assert g[..3] == g && g[3..] == [];
    assert EncodeGroup(g) + [] == EncodeGroup(g);
  }
}
