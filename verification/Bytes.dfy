/** Bytes as numbers below 256, and what the codecs do with them. */
module Bytes {
  import opened Arithmetic

  type Byte = b: int | 0 <= b < 256

  /** Exclusive or of the lowest n bits of two numbers. */
  function XorBits(a: nat, b: nat, n: nat): (r: nat)
    decreases n, a
  {
    if n == 0 then 0
    else (if a % 2 == b % 2 then 0 else 1) + 2 * XorBits(a / 2, b / 2, n - 1)
  }

  lemma {:induction false} XorBitsBound(a: nat, b: nat, n: nat)
    ensures XorBits(a, b, n) < Pow2(n)
  {
    if n > 0 {
      XorBitsBound(a / 2, b / 2, n - 1);
    }
  }

  /** Exclusive or with the same key twice gives back the value. */
  lemma {:induction false} XorBitsTwice(a: nat, k: nat, n: nat)
    requires a < Pow2(n)
    ensures XorBits(XorBits(a, k, n), k, n) == a
  {
    if n > 0 {
      XorBitsTwice(a / 2, k / 2, n - 1);
      var x := XorBits(a, k, n);
      assert x / 2 == XorBits(a / 2, k / 2, n - 1);
    }
  }

  function Xor(a: Byte, b: Byte): (r: Byte)
  {
    XorBitsBound(a, b, 8);
    assert Pow2(8) == 256 by { assert Pow2(4) == 16; }
    XorBits(a, b, 8)
  }

  lemma XorTwice(a: Byte, k: Byte)
    ensures Xor(Xor(a, k), k) == a
  {
    assert Pow2(8) == 256 by { assert Pow2(4) == 16; }
    XorBitsTwice(a, k, 8);
  }

  // ---------- Numbers in bytes ----------

  /** The number that bytes stand for, most significant byte first. */
  function FromBigEndian(s: seq<Byte>): (v: nat)
  {
    if s == [] then 0 else 256 * FromBigEndian(s[..|s| - 1]) + s[|s| - 1]
  }

  /** n bytes for the lowest 8 n bits of v, most significant byte first. */
  function ToBigEndian(v: nat, n: nat): (s: seq<Byte>)
    ensures |s| == n
    decreases n, v
  {
    if n == 0 then [] else ToBigEndian(v / 256, n - 1) + [v % 256]
  }

  /** The number that bytes stand for, least significant byte first. */
  function FromLittleEndian(s: seq<Byte>): (v: nat)
  {
    if s == [] then 0 else s[0] + 256 * FromLittleEndian(s[1..])
  }

  /** n bytes for the lowest 8 n bits of v, least significant byte first. */
  function ToLittleEndian(v: nat, n: nat): (s: seq<Byte>)
    ensures |s| == n
    decreases n, v
  {
    if n == 0 then [] else [v % 256] + ToLittleEndian(v / 256, n - 1)
  }

  lemma {:induction false} EndianRoundTrip(v: nat, n: nat)
    requires v < Pow2(8 * n)
    ensures FromBigEndian(ToBigEndian(v, n)) == v
  {
    if n > 0 {
      assert Pow2(8 * n) == 256 * Pow2(8 * (n - 1)) by {
        Pow2Plus8(8 * (n - 1));
      }
      EndianRoundTrip(v / 256, n - 1);
      var s := ToBigEndian(v, n);
      assert s[..n - 1] == ToBigEndian(v / 256, n - 1);
    }
  }

  lemma Pow2Plus8(n: nat)
    ensures Pow2(n + 8) == 256 * Pow2(n)
  {
    assert Pow2(n + 2) == 4 * Pow2(n);
    assert Pow2(n + 4) == 4 * Pow2(n + 2);
    assert Pow2(n + 6) == 4 * Pow2(n + 4);
  }

  lemma WordSizes()
    ensures Pow2(8) == 0x100 && Pow2(16) == 0x1_0000
    ensures Pow2(32) == 0x1_0000_0000 && Pow2(64) == 0x1_0000_0000_0000_0000
  {
    assert Pow2(0) == 1;
    Pow2Plus8(0);
    Pow2Plus8(8);
    Pow2Plus8(16);
    Pow2Plus8(24);
    Pow2Plus8(32);
    Pow2Plus8(40);
    Pow2Plus8(48);
    Pow2Plus8(56);
  }

  lemma {:induction false} FromBigEndianBound(s: seq<Byte>)
    ensures FromBigEndian(s) < Pow2(8 * |s|)
  {
    if s != [] {
      FromBigEndianBound(s[..|s| - 1]);
      Pow2Plus8(8 * (|s| - 1));
    }
  }

  lemma {:induction false} BytesRoundTrip(s: seq<Byte>)
    ensures ToBigEndian(FromBigEndian(s), |s|) == s
  {
    if s != [] {
      BytesRoundTrip(s[..|s| - 1]);
    }
  }

  function FourBytes(b0: nat, b1: nat, b2: nat, b3: nat): (v: nat)
  {
    b0 * 0x100_0000 + b1 * 0x1_0000 + b2 * 0x100 + b3
  }

  /** The first byte counts most. */
  lemma BigEndianOfFour(s: seq<Byte>)
    requires |s| == 4
    ensures FromBigEndian(s) == FourBytes(s[0], s[1], s[2], s[3])
  {
    var a, b, c := s[..3], s[..2], s[..1];
    assert a[..2] == b && b[..1] == c && c[..0] == [];
    assert FromBigEndian(c) == s[0];
    assert FromBigEndian(b) == 256 * FromBigEndian(c) + s[1];
    assert FromBigEndian(a) == 256 * FromBigEndian(b) + s[2];
  }

  /** The two orders are each other's mirror image. */
  lemma {:induction false} OrdersMirror(v: nat, n: nat, i: nat)
    requires i < n
    ensures ToLittleEndian(v, n)[i] == ToBigEndian(v, n)[n - 1 - i]
  {
    if i > 0 {
      OrdersMirror(v / 256, n - 1, i - 1);
    }
  }

  lemma {:induction false} LittleEndianRoundTrip(v: nat, n: nat)
    requires v < Pow2(8 * n)
    ensures FromLittleEndian(ToLittleEndian(v, n)) == v
  {
    if n > 0 {
      Pow2Plus8(8 * (n - 1));
      LittleEndianRoundTrip(v / 256, n - 1);
    }
  }

  lemma WordRoundTrip(n: nat)
    ensures n <= 65535 ==> FromBigEndian(ToBigEndian(n, 2)) == n
    ensures n < 0x1_0000_0000_0000_0000 ==> FromBigEndian(ToBigEndian(n, 8)) == n
  {
    WordSizes();
    if n <= 65535 {
      EndianRoundTrip(n, 2);
    }
    if n < 0x1_0000_0000_0000_0000 {
      EndianRoundTrip(n, 8);
    }
  }

  lemma PairBound(s: seq<Byte>)
    requires |s| == 2
    ensures FromBigEndian(s) <= 65535
  {
    WordSizes();
    FromBigEndianBound(s);
  }
}
