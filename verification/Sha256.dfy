/** The hash object: fed piece by piece, one block of work space. */
module Sha256s {
  import opened Bytes
  import opened Arithmetic
  import opened Words
  import opened Sequences
  import opened Blocks
  import opened Sha256Spec

  // ---------- Four bytes put together ----------

  /** Or adds up what has no bit in common: b lies below the lowest bit of c 2^k. */
  lemma {:induction false} OrIsSum(c: nat, b: nat, k: nat, n: nat)
    requires k <= n && c < Pow2(n - k) && b < Pow2(k)
    ensures OrBits(c * Pow2(k), b, n) == c * Pow2(k) + b
    decreases n
  {
    if k > 0 {
      var p := Pow2(k - 1);
      assert c * Pow2(k) == 2 * (c * p) by { Regrouped(c, p); }
      OrIsSum(c, b / 2, k - 1, n - 1);
    } else if n > 0 {
      OrIsSum(c / 2, 0, 0, n - 1);
    }
  }

  lemma Regrouped(c: nat, p: nat)
    ensures c * (2 * p) == 2 * (c * p)
  {
  }

  lemma PowersUsed()
    ensures Pow2(8) == 0x100 && Pow2(16) == 0x1_0000 && Pow2(24) == 0x100_0000 && Pow2(32) == 0x1_0000_0000
  {
    WordSizes();
    Pow2Plus8(16);
  }

  lemma OrBelow8(c: nat, b: nat)
    requires c < 0x100_0000 && b < 0x100
    ensures Or32(c * 0x100, b) == c * 0x100 + b
  {
    PowersUsed();
    OrIsSum(c, b, 8, 32);
  }

  lemma OrBelow16(c: nat, b: nat)
    requires c < 0x1_0000 && b < 0x1_0000
    ensures Or32(c * 0x1_0000, b) == c * 0x1_0000 + b
  {
    PowersUsed();
    OrIsSum(c, b, 16, 32);
  }

  lemma OrBelow24(c: nat, b: nat)
    requires c < 0x100 && b < 0x100_0000
    ensures Or32(c * 0x100_0000, b) == c * 0x100_0000 + b
  {
    PowersUsed();
    OrIsSum(c, b, 24, 32);
  }

  lemma ByteShifted(b: Byte, k: nat, p: nat)
    requires Pow2(k) == p && b * p < 0x1_0000_0000
    ensures ShiftLeft(b, k) == b * p
  {
    ShiftsAreScaling(b, k);
    SmallRemainder(b * p);
  }

  lemma SmallRemainder(x: nat)
    requires x < 0x1_0000_0000
    ensures x % 0x1_0000_0000 == x
  {
  }

  function Assembled(b0: Byte, b1: Byte, b2: Byte, b3: Byte): (w: Word)
  {
    Or32(Or32(Or32(ShiftLeft(b0, 24), ShiftLeft(b1, 16)), ShiftLeft(b2, 8)), b3)
  }

  lemma AssembledIsSum(b0: nat, b1: nat, b2: nat, b3: nat)
    requires b0 < 256 && b1 < 256 && b2 < 256 && b3 < 256
    ensures Assembled(b0, b1, b2, b3) == ((b0 * 0x100 + b1) * 0x100 + b2) * 0x100 + b3
  {
    PowersUsed();
    ByteShifted(b0, 24, 0x100_0000);
    ByteShifted(b1, 16, 0x1_0000);
    ByteShifted(b2, 8, 0x100);
    OrBelow24(b0, b1 * 0x1_0000);
    OrBelow16(b0 * 0x100 + b1, b2 * 0x100);
    OrBelow8((b0 * 0x100 + b1) * 0x100 + b2, b3);
    var first: Word := b0 * 0x100_0000 + b1 * 0x1_0000;
    assert Or32(ShiftLeft(b0, 24), ShiftLeft(b1, 16)) == first == (b0 * 0x100 + b1) * 0x1_0000;
    var second: Word := first + b2 * 0x100;
    assert Or32(first, ShiftLeft(b2, 8)) == second == ((b0 * 0x100 + b1) * 0x100 + b2) * 0x100;
  }

  /** Shifted into place and joined bit by bit, four bytes are their big-endian number. */
  lemma AssembledIsBigEndian(s: seq<Byte>)
    requires |s| == 4
    ensures Assembled(s[0], s[1], s[2], s[3]) == FromBigEndian(s)
  {
    var b0: nat, b1: nat, b2: nat, b3: nat := s[0], s[1], s[2], s[3];
    AssembledIsSum(b0, b1, b2, b3);
    var a, b, c := s[..3], s[..2], s[..1];
    assert a[..2] == b && b[..1] == c && c[..0] == [];
    assert FromBigEndian(c) == b0;
    assert FromBigEndian(b) == 256 * FromBigEndian(c) + b1;
    assert FromBigEndian(a) == 256 * FromBigEndian(b) + b2;
  }

  class Sha256 {
    const hash: array<Word>
    const workBlock: array<Byte>
    var messageSize: nat
    ghost var data: seq<Byte>

    /** data is all that has been fed since the last reset. */
    ghost predicate Valid()
      reads this, hash, workBlock
    {
      && hash.Length == 8
      && workBlock.Length == 64
      && messageSize == |data| % 0x1_0000_0000_0000_0000
      && Holds(data)
    }

    /** The full blocks of fed are in the hash, the rest is in the work block. */
    ghost predicate Holds(fed: seq<Byte>)
      requires hash.Length == 8 && workBlock.Length == 64
      reads hash, workBlock
    {
      && hash[..] == Folded(Compress, H0, Whole(fed))
      && workBlock[..|Rest(fed)|] == Rest(fed)
    }

    constructor ()
      ensures Valid() && fresh(hash) && fresh(workBlock) && data == []
    {
      hash := new Word[8];
      workBlock := new Byte[64];
      new;
      Reset();
    }

    method Reset()
      requires hash.Length == 8 && workBlock.Length == 64
      modifies this`messageSize, this`data, hash
      ensures Valid() && data == []
    {
      hash[0], hash[1], hash[2], hash[3] := 0x6a09_e667, 0xbb67_ae85, 0x3c6e_f372, 0xa54f_f53a;
      hash[4], hash[5], hash[6], hash[7] := 0x510e_527f, 0x9b05_688c, 0x1f83_d9ab, 0x5be0_cd19;
      assert hash[..] == H0;
      messageSize := 0;
      data := [];
    }

    // ---------- One block ----------

    /** The message schedule, filled in from the front. */
    method Schedule(block: Block) returns (w: array<Word>)
      ensures fresh(w) && w.Length == 64
      ensures forall i {:trigger w[i]} :: 0 <= i < 64 ==> w[i] == W(block, i)
    {
      w := new Word[64];
      var i := 0;
      while i < 16
        invariant 0 <= i <= 16
        invariant forall k {:trigger w[k]} :: 0 <= k < i ==> w[k] == W(block, k)
      {
        AssembledIsBigEndian(block[4 * i..4 * i + 4]);
        w[i] := Assembled(block[4 * i], block[4 * i + 1], block[4 * i + 2], block[4 * i + 3]);
        i := i + 1;
      }
      while i < 64
        invariant 16 <= i <= 64
        invariant forall k {:trigger w[k]} :: 0 <= k < i ==> w[k] == W(block, k)
      {
        w[i] := Add32(Add32(Add32(SmallSigma1(w[i - 2]), w[i - 7]), SmallSigma0(w[i - 15])), w[i - 16]);
        i := i + 1;
      }
    }

    method ProcessBlock(block: Block)
      requires hash.Length == 8
      modifies hash
      ensures hash[..] == Compress(old(hash[..]), block)
    {
      ghost var first := Working(hash[0], hash[1], hash[2], hash[3], hash[4], hash[5], hash[6], hash[7]);
      var w := Schedule(block);
      var a, b, c, d := hash[0], hash[1], hash[2], hash[3];
      var e, f, g, h := hash[4], hash[5], hash[6], hash[7];
      for i := 0 to 64
        invariant Working(a, b, c, d, e, f, g, h) == BeforeRound(first, block, i)
      {
        var t1 := Add32(Add32(Add32(Add32(h, BigSigma1(e)), Ch(e, f, g)), K(i)), w[i]);
        var t2 := Add32(BigSigma0(a), Maj(a, b, c));
        h := g;
        g := f;
        f := e;
        e := Add32(d, t1);
        d := c;
        c := b;
        b := a;
        a := Add32(t1, t2);
      }
      hash[0], hash[1] := Add32(hash[0], a), Add32(hash[1], b);
      hash[2], hash[3] := Add32(hash[2], c), Add32(hash[3], d);
      hash[4], hash[5] := Add32(hash[4], e), Add32(hash[5], f);
      hash[6], hash[7] := Add32(hash[6], g), Add32(hash[7], h);
    }

    // ---------- Feeding ----------

    /** Copies bytes into the work block. */
    method Fill(from: nat, bytes: seq<Byte>)
      requires workBlock.Length == 64 && from + |bytes| <= 64
      modifies workBlock
      ensures workBlock[..from + |bytes|] == old(workBlock[..from]) + bytes
    {
      for i := 0 to |bytes|
        invariant workBlock[..from + i] == old(workBlock[..from]) + bytes[..i]
      {
        workBlock[from + i] := bytes[i];
      }
    }

    /** One more block behind those that are in the hash. */
    method ProcessNext(ghost done: seq<Byte>, block: Block)
      requires hash.Length == 8 && |done| % 64 == 0
      requires hash[..] == Folded(Compress, H0, done)
      modifies hash
      ensures |done + block| % 64 == 0
      ensures hash[..] == Folded(Compress, H0, done + block)
    {
      FoldedNext(Compress, H0, done, block);
      ProcessBlock(block);
    }

    /** Fills up the work block that was begun, and processes it if it gets full. */
    method FillUp(ghost fed: seq<Byte>, filled: nat, bytes: seq<Byte>) returns (full: bool)
      requires hash.Length == 8 && workBlock.Length == 64 && Holds(fed)
      requires filled == |Rest(fed)| > 0
      modifies hash, workBlock
      ensures full <==> |bytes| >= 64 - filled
      ensures !full ==> Holds(fed + bytes)
      ensures full ==> |fed + bytes[..64 - filled]| % 64 == 0
                       && hash[..] == Folded(Compress, H0, fed + bytes[..64 - filled])
    {
      var left := 64 - filled;
      if |bytes| < left {
        Fill(filled, bytes);
        SplitAt(Whole(fed), Rest(fed) + bytes);
        assert Whole(fed) + (Rest(fed) + bytes) == fed + bytes;
        return false;
      }
      Fill(filled, bytes[..left]);
      var block: Block := workBlock[..];
      assert Whole(fed) + block == fed + bytes[..left];
      ProcessNext(Whole(fed), block);
      full := true;
    }

    /** Processes the full blocks of bytes from a place on, and keeps the rest. */
    method ProcessWhole(ghost fed: seq<Byte>, bytes: seq<Byte>, start: nat)
      requires hash.Length == 8 && workBlock.Length == 64
      requires start <= |bytes| && |fed + bytes[..start]| % 64 == 0
      requires hash[..] == Folded(Compress, H0, fed + bytes[..start])
      modifies hash, workBlock
      ensures Holds(fed + bytes)
    {
      var at := start;
      ghost var done := fed + bytes[..at];
      while |bytes| - at >= 64
        invariant start <= at <= |bytes|
        invariant done == fed + bytes[..at] && |done| % 64 == 0
        invariant hash[..] == Folded(Compress, H0, done)
      {
        ProcessNext(done, bytes[at..at + 64]);
        TakeMore(fed, bytes, at);
        done := done + bytes[at..at + 64];
        at := at + 64;
      }
      KeepRest(done, bytes[at..]);
      TakeAll(fed, bytes, at);
    }

    static lemma TakeAll(fed: seq<Byte>, bytes: seq<Byte>, at: nat)
      requires at <= |bytes|
      ensures fed + bytes[..at] + bytes[at..] == fed + bytes
    {
    }

    static lemma TakeMore(fed: seq<Byte>, bytes: seq<Byte>, at: nat)
      requires at + 64 <= |bytes|
      ensures fed + bytes[..at] + bytes[at..at + 64] == fed + bytes[..at + 64]
    {
    }

    method KeepRest(ghost done: seq<Byte>, rest: seq<Byte>)
      requires hash.Length == 8 && workBlock.Length == 64 && |done| % 64 == 0 && |rest| < 64
      requires hash[..] == Folded(Compress, H0, done)
      modifies workBlock
      ensures Holds(done + rest)
    {
      SplitAt(done, rest);
      Fill(0, rest);
    }

    /** Feeding piece by piece is feeding at once: all that counts is the data. */
    method Update(bytes: seq<Byte>)
      requires Valid()
      modifies this`messageSize, this`data, hash, workBlock
      ensures Valid() && data == old(data) + bytes
    {
      ghost var fed := data;
      SizeMod(|fed|, |bytes|);
      var filled := messageSize % 64;
      messageSize := (messageSize + |bytes|) % 0x1_0000_0000_0000_0000;
      data := data + bytes;
      Absorb(fed, filled, bytes);
    }

    method Absorb(ghost fed: seq<Byte>, filled: nat, bytes: seq<Byte>)
      requires hash.Length == 8 && workBlock.Length == 64 && Holds(fed) && filled == |Rest(fed)|
      modifies hash, workBlock
      ensures Holds(fed + bytes)
    {
      var at := 0;
      if filled > 0 {
        var full := FillUp(fed, filled, bytes);
        if !full {
          return;
        }
        at := 64 - filled;
      } else {
        assert Whole(fed) == fed + bytes[..0];
      }
      ProcessWhole(fed, bytes, at);
    }

    static lemma SizeMod(n: nat, k: nat)
      ensures (n % 0x1_0000_0000_0000_0000) % 64 == n % 64
      ensures (n % 0x1_0000_0000_0000_0000 + k) % 0x1_0000_0000_0000_0000 == (n + k) % 0x1_0000_0000_0000_0000
    {
      var q, r := n / 0x1_0000_0000_0000_0000, n % 0x1_0000_0000_0000_0000;
      DivMod(n, 0x400_0000_0000_0000 * q + r / 64, r % 64, 64);
      DivMod(n + k, q + (r + k) / 0x1_0000_0000_0000_0000, (r + k) % 0x1_0000_0000_0000_0000,
             0x1_0000_0000_0000_0000);
    }

    // ---------- The digest ----------

    /** Pads what was fed and gives the hash of it; the object is then used up. */
    method Digest() returns (out: seq<Byte>)
      requires Valid()
      modifies this`messageSize, this`data, hash, workBlock
      ensures Valid() && data == Padded(old(data))
      ensures out == Sha256Of(old(data))
    {
      Pad();
      WholePadding(old(data));
      out := Emit();
    }

    method Emit() returns (out: seq<Byte>)
      requires hash.Length == 8
      ensures out == HashBytes(hash[..])
    {
      out := [];
      for i := 0 to 8
        invariant out == HashBytes(hash[..i])
      {
        out := out + ToBigEndian(hash[i], 4);
        assert hash[..i + 1][..i] == hash[..i];
      }
      assert hash[..8] == hash[..];
    }

    static lemma WholePadding(m: seq<Byte>)
      ensures Whole(Padded(m)) == Padded(m)
    {
      PaddingIsLeast(m, 0);
    }

    method Pad()
      requires Valid()
      modifies this`messageSize, this`data, hash, workBlock
      ensures Valid() && data == Padded(old(data))
    {
      ghost var m := data;
      SizeMod(|m|, 0);
      BitSize(|m|);
      var length := ToBigEndian((messageSize * 8) % 0x1_0000_0000_0000_0000, 8);
      var filled := messageSize % 64;
      ZerosNeeded(|m|);
      if filled > 55 {
        Update([0x80] + Zeros(64 - filled + 56 - 1));
      } else {
        Update([0x80] + Zeros(56 - filled - 1));
      }
      assert data == m + [0x80] + Zeros(ZeroCount(|m|));
      Update(length);
    }

    static lemma ZerosNeeded(n: nat)
      ensures ZeroCount(n) == if n % 64 > 55 then 64 - n % 64 + 56 - 1 else 56 - n % 64 - 1
    {
    }

    static lemma BitSize(n: nat)
      ensures (n % 0x1_0000_0000_0000_0000 * 8) % 0x1_0000_0000_0000_0000 == (8 * n) % 0x1_0000_0000_0000_0000
    {
      var q, r := n / 0x1_0000_0000_0000_0000, n % 0x1_0000_0000_0000_0000;
      DivMod(8 * n, 8 * q + 8 * r / 0x1_0000_0000_0000_0000, 8 * r % 0x1_0000_0000_0000_0000,
             0x1_0000_0000_0000_0000);
    }
  }

  /** One call for a whole message. */
  method Sha256Binary(m: seq<Byte>) returns (out: seq<Byte>)
    ensures out == Sha256Of(m)
  {
    var ctx := new Sha256();
    ctx.Update(m);
    assert ctx.data == m;
    out := ctx.Digest();
  }

  /** However a message is cut, its parts fed one after the other give its hash. */
  method Sha256InParts(parts: seq<seq<Byte>>) returns (out: seq<Byte>)
    ensures out == Sha256Of(Joined(parts))
  {
    var ctx := new Sha256();
    assert parts[0..] == parts;
    for i := 0 to |parts|
      invariant ctx.Valid() && fresh(ctx) && fresh(ctx.hash) && fresh(ctx.workBlock)
      invariant ctx.data + Joined(parts[i..]) == Joined(parts)
    {
      assert parts[i..][1..] == parts[i + 1..];
      Associative(ctx.data, parts[i], Joined(parts[i + 1..]));
      ctx.Update(parts[i]);
    }
    assert ctx.data == Joined(parts);
    out := ctx.Digest();
  }
}
