/** The example frames of section 5.7 of RFC 6455. */
module WebSocketExamples {
  import opened Arithmetic
  import opened Bytes
  import opened AsciiText
  import opened WebSocketFrames

  function ExampleKey(): (key: seq<Byte>) { [0x37, 0xfa, 0x21, 0x3d] }

  function NoKey(): (key: seq<Byte>) { [0, 0, 0, 0] }

  /** Unmasked: a whole text message, the same in two fragments, and a ping. */
  lemma UnmaskedHello()
    ensures EncodeFrame(Frame(true, 0x1, Ascii("Hello")), false, NoKey()) == [0x81, 0x05, 0x48, 0x65, 0x6c, 0x6c, 0x6f]
    ensures EncodeFrame(Frame(false, 0x1, Ascii("Hel")), false, NoKey()) == [0x01, 0x03, 0x48, 0x65, 0x6c]
    ensures EncodeFrame(Frame(true, 0x0, Ascii("lo")), false, NoKey()) == [0x80, 0x02, 0x6c, 0x6f]
    ensures EncodeFrame(Frame(true, 0x9, Ascii("Hello")), false, NoKey()) == [0x89, 0x05, 0x48, 0x65, 0x6c, 0x6c, 0x6f]
  {
  }

  function Differ(a: nat, b: nat): (d: nat) { if a % 2 == b % 2 then 0 else 1 }

  lemma OneBit(a: nat, b: nat, n: nat)
    ensures XorBits(a, b, n + 1) == Differ(a, b) + 2 * XorBits(a / 2, b / 2, n)
  {
  }

  /** The exclusive or of two bytes, bit by bit. */
  lemma XorByBits(a: Byte, b: Byte)
    ensures Xor(a, b) ==
              Differ(a, b) + 2 * Differ(a / 2, b / 2) + 4 * Differ(a / 4, b / 4) + 8 * Differ(a / 8, b / 8)
              + 16 * Differ(a / 16, b / 16) + 32 * Differ(a / 32, b / 32) + 64 * Differ(a / 64, b / 64)
              + 128 * Differ(a / 128, b / 128)
  {
    hide Differ, XorBits;
    OneBit(a, b, 7);
    OneBit(a / 2, b / 2, 6);
    OneBit(a / 4, b / 4, 5);
    OneBit(a / 8, b / 8, 4);
    OneBit(a / 16, b / 16, 3);
    OneBit(a / 32, b / 32, 2);
    OneBit(a / 64, b / 64, 1);
    OneBit(a / 128, b / 128, 0);
    NoBits(a / 256, b / 256);
    Quarters(a);
    Quarters(b);
  }

  lemma NoBits(a: nat, b: nat)
    ensures XorBits(a, b, 0) == 0
  {
  }

  lemma Quarters(a: nat)
    ensures a / 2 / 2 == a / 4 && a / 4 / 2 == a / 8 && a / 8 / 2 == a / 16 && a / 16 / 2 == a / 32
    ensures a / 32 / 2 == a / 64 && a / 64 / 2 == a / 128 && a / 128 / 2 == a / 256
  {
  }

  /** Masked: the text message, and the pong that answers the ping. */
  lemma MaskedHello()
    ensures EncodeFrame(Frame(true, 0x1, Ascii("Hello")), true, ExampleKey())
         == [0x81, 0x85, 0x37, 0xfa, 0x21, 0x3d, 0x7f, 0x9f, 0x4d, 0x51, 0x58]
    ensures EncodeFrame(Frame(true, 0xa, Ascii("Hello")), true, ExampleKey())
         == [0x8a, 0x85, 0x37, 0xfa, 0x21, 0x3d, 0x7f, 0x9f, 0x4d, 0x51, 0x58]
  {
    MaskedBytes();
  }

  lemma FiveBytes()
    ensures Xor(0x48, 0x37) == 0x7f && Xor(0x65, 0xfa) == 0x9f && Xor(0x6c, 0x21) == 0x4d
    ensures Xor(0x6c, 0x3d) == 0x51 && Xor(0x6f, 0x37) == 0x58
  {
    hide Xor, XorBits;
    XorByBits(0x48, 0x37);
    XorByBits(0x65, 0xfa);
    XorByBits(0x6c, 0x21);
    XorByBits(0x6c, 0x3d);
    XorByBits(0x6f, 0x37);
  }

  lemma MaskedBytes()
    ensures Masked(Ascii("Hello"), ExampleKey()) == [0x7f, 0x9f, 0x4d, 0x51, 0x58]
  {
    hide Xor, XorBits;
    FiveBytes();
    assert Ascii("Hello") == [0x48, 0x65, 0x6c, 0x6c, 0x6f];
  }

  /** Binary messages of 256 bytes and of 64 KiB: the longer length fields. */
  lemma LongMessages(payload: seq<Byte>)
    ensures |payload| == 256 ==>
              EncodeFrame(Frame(true, 0x2, payload), false, NoKey()) == [0x82, 0x7e, 0x01, 0x00] + payload
    ensures |payload| == 65536 ==>
              EncodeFrame(Frame(true, 0x2, payload), false, NoKey()) == [0x82, 0x7f, 0, 0, 0, 0, 0, 1, 0, 0] + payload
  {
    if |payload| == 256 {
      NumberBytes(256);
    } else if |payload| == 65536 {
      NumberBytes(65536);
    }
  }

  lemma NumberBytes(n: nat)
    ensures n == 256 ==> ToBigEndian(n, 2) == [1, 0]
    ensures n == 65536 ==> ToBigEndian(n, 8) == [0, 0, 0, 0, 0, 1, 0, 0]
  {
    ZerosInFront(0, 5);
    if n == 256 {
      LowestByte(n, 1);
      LowestByte(1, 0);
    } else if n == 65536 {
      LowestByte(n, 7);
      LowestByte(256, 6);
      LowestByte(1, 5);
    }
  }

  lemma LowestByte(n: nat, k: nat)
    ensures ToBigEndian(n, k + 1) == ToBigEndian(n / 256, k) + [n % 256]
  {
  }

  lemma {:induction false} ZerosInFront(v: nat, n: nat)
    requires v == 0
    ensures |ToBigEndian(v, n)| == n && forall i :: 0 <= i < n ==> ToBigEndian(v, n)[i] == 0
    decreases n
  {
    if n > 0 {
      ZerosInFront(v / 256, n - 1);
    }
  }
}
