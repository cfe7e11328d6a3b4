/** The secure hash algorithm SHA-256, as FIPS 180-4 defines it. */
module Sha256Spec {
  import opened Bytes
  import opened Words
  import opened Primes
  import Blocks

  type Hash = h: seq<Word> | |h| == 8 witness [0, 0, 0, 0, 0, 0, 0, 0]

  type Block = Blocks.Block

  // ---------- Constants, sections 4.2.2 and 5.3.3 ----------

  function K(t: nat): (k: Word)
    requires t < 64
  {
    match t
    case 0 => 0x428a_2f98 case 1 => 0x7137_4491 case 2 => 0xb5c0_fbcf case 3 => 0xe9b5_dba5
    case 4 => 0x3956_c25b case 5 => 0x59f1_11f1 case 6 => 0x923f_82a4 case 7 => 0xab1c_5ed5
    case 8 => 0xd807_aa98 case 9 => 0x1283_5b01 case 10 => 0x2431_85be case 11 => 0x550c_7dc3
    case 12 => 0x72be_5d74 case 13 => 0x80de_b1fe case 14 => 0x9bdc_06a7 case 15 => 0xc19b_f174
    case 16 => 0xe49b_69c1 case 17 => 0xefbe_4786 case 18 => 0x0fc1_9dc6 case 19 => 0x240c_a1cc
    case 20 => 0x2de9_2c6f case 21 => 0x4a74_84aa case 22 => 0x5cb0_a9dc case 23 => 0x76f9_88da
    case 24 => 0x983e_5152 case 25 => 0xa831_c66d case 26 => 0xb003_27c8 case 27 => 0xbf59_7fc7
    case 28 => 0xc6e0_0bf3 case 29 => 0xd5a7_9147 case 30 => 0x06ca_6351 case 31 => 0x1429_2967
    case 32 => 0x27b7_0a85 case 33 => 0x2e1b_2138 case 34 => 0x4d2c_6dfc case 35 => 0x5338_0d13
    case 36 => 0x650a_7354 case 37 => 0x766a_0abb case 38 => 0x81c2_c92e case 39 => 0x9272_2c85
    case 40 => 0xa2bf_e8a1 case 41 => 0xa81a_664b case 42 => 0xc24b_8b70 case 43 => 0xc76c_51a3
    case 44 => 0xd192_e819 case 45 => 0xd699_0624 case 46 => 0xf40e_3585 case 47 => 0x106a_a070
    case 48 => 0x19a4_c116 case 49 => 0x1e37_6c08 case 50 => 0x2748_774c case 51 => 0x34b0_bcb5
    case 52 => 0x391c_0cb3 case 53 => 0x4ed8_aa4a case 54 => 0x5b9c_ca4f case 55 => 0x682e_6ff3
    case 56 => 0x748f_82ee case 57 => 0x78a5_636f case 58 => 0x84c8_7814 case 59 => 0x8cc7_0208
    case 60 => 0x90be_fffa case 61 => 0xa450_6ceb case 62 => 0xbef9_a3f7 case _ => 0xc671_78f2
  }

  const H0: Hash := [
    0x6a09_e667, 0xbb67_ae85, 0x3c6e_f372, 0xa54f_f53a, 0x510e_527f, 0x9b05_688c, 0x1f83_d9ab, 0x5be0_cd19
  ]

  /** x, scaled by 2^32, is the n-th root of p cut off after 32 binary places. */
  predicate IsCubeRoot(x: nat, p: nat) {
    x * x * x <= p * 0x1_0000_0000_0000_0000_0000_0000
    && p * 0x1_0000_0000_0000_0000_0000_0000 < (x + 1) * (x + 1) * (x + 1)
  }

  predicate IsSquareRoot(x: nat, p: nat) {
    x * x <= p * 0x1_0000_0000_0000_0000 && p * 0x1_0000_0000_0000_0000 < (x + 1) * (x + 1)
  }

  /** whole and the 32 binary places w make up the cube root of p. */
  predicate CubeRootIs(p: nat, whole: nat, w: nat) { IsCubeRoot(whole * 0x1_0000_0000 + w, p) }

  predicate SquareRootIs(p: nat, whole: nat, w: nat) { IsSquareRoot(whole * 0x1_0000_0000 + w, p) }

  /** Each round constant is the fractional part of the cube root of a prime. */
  ghost predicate RoundConstantOk(t: nat)
    requires t < 64
  {
    exists whole: nat :: CubeRootIs(Prime(t), whole, K(t))
  }

  ghost predicate FirstHashOk(i: nat)
    requires i < 8
  {
    exists whole: nat :: SquareRootIs(Prime(i), whole, H0[i])
  }

  lemma RootFound(t: nat, p: nat, whole: nat, k: Word)
    requires t < 64 && Prime(t) == p && K(t) == k && CubeRootIs(p, whole, k)
    ensures RoundConstantOk(t)
  {
  }

  lemma RoundConstantsFrom0(t: nat)
    requires 0 <= t < 8
    ensures RoundConstantOk(t)
  {
    match t
    case 0 => RootFound(0, 2, 1, 0x428a_2f98);
    case 1 => RootFound(1, 3, 1, 0x7137_4491);
    case 2 => RootFound(2, 5, 1, 0xb5c0_fbcf);
    case 3 => RootFound(3, 7, 1, 0xe9b5_dba5);
    case 4 => RootFound(4, 11, 2, 0x3956_c25b);
    case 5 => RootFound(5, 13, 2, 0x59f1_11f1);
    case 6 => RootFound(6, 17, 2, 0x923f_82a4);
    case _ => RootFound(7, 19, 2, 0xab1c_5ed5);
  }

  lemma RoundConstantsFrom8(t: nat)
    requires 8 <= t < 16
    ensures RoundConstantOk(t)
  {
    match t
    case 8 => RootFound(8, 23, 2, 0xd807_aa98);
    case 9 => RootFound(9, 29, 3, 0x1283_5b01);
    case 10 => RootFound(10, 31, 3, 0x2431_85be);
    case 11 => RootFound(11, 37, 3, 0x550c_7dc3);
    case 12 => RootFound(12, 41, 3, 0x72be_5d74);
    case 13 => RootFound(13, 43, 3, 0x80de_b1fe);
    case 14 => RootFound(14, 47, 3, 0x9bdc_06a7);
    case _ => RootFound(15, 53, 3, 0xc19b_f174);
  }

  lemma RoundConstantsFrom16(t: nat)
    requires 16 <= t < 24
    ensures RoundConstantOk(t)
  {
    match t
    case 16 => RootFound(16, 59, 3, 0xe49b_69c1);
    case 17 => RootFound(17, 61, 3, 0xefbe_4786);
    case 18 => RootFound(18, 67, 4, 0x0fc1_9dc6);
    case 19 => RootFound(19, 71, 4, 0x240c_a1cc);
    case 20 => RootFound(20, 73, 4, 0x2de9_2c6f);
    case 21 => RootFound(21, 79, 4, 0x4a74_84aa);
    case 22 => RootFound(22, 83, 4, 0x5cb0_a9dc);
    case _ => RootFound(23, 89, 4, 0x76f9_88da);
  }

  lemma RoundConstantsFrom24(t: nat)
    requires 24 <= t < 32
    ensures RoundConstantOk(t)
  {
    match t
    case 24 => RootFound(24, 97, 4, 0x983e_5152);
    case 25 => RootFound(25, 101, 4, 0xa831_c66d);
    case 26 => RootFound(26, 103, 4, 0xb003_27c8);
    case 27 => RootFound(27, 107, 4, 0xbf59_7fc7);
    case 28 => RootFound(28, 109, 4, 0xc6e0_0bf3);
    case 29 => RootFound(29, 113, 4, 0xd5a7_9147);
    case 30 => RootFound(30, 127, 5, 0x06ca_6351);
    case _ => RootFound(31, 131, 5, 0x1429_2967);
  }

  lemma RoundConstantsFrom32(t: nat)
    requires 32 <= t < 40
    ensures RoundConstantOk(t)
  {
    match t
    case 32 => RootFound(32, 137, 5, 0x27b7_0a85);
    case 33 => RootFound(33, 139, 5, 0x2e1b_2138);
    case 34 => RootFound(34, 149, 5, 0x4d2c_6dfc);
    case 35 => RootFound(35, 151, 5, 0x5338_0d13);
    case 36 => RootFound(36, 157, 5, 0x650a_7354);
    case 37 => RootFound(37, 163, 5, 0x766a_0abb);
    case 38 => RootFound(38, 167, 5, 0x81c2_c92e);
    case _ => RootFound(39, 173, 5, 0x9272_2c85);
  }

  lemma RoundConstantsFrom40(t: nat)
    requires 40 <= t < 48
    ensures RoundConstantOk(t)
  {
    match t
    case 40 => RootFound(40, 179, 5, 0xa2bf_e8a1);
    case 41 => RootFound(41, 181, 5, 0xa81a_664b);
    case 42 => RootFound(42, 191, 5, 0xc24b_8b70);
    case 43 => RootFound(43, 193, 5, 0xc76c_51a3);
    case 44 => RootFound(44, 197, 5, 0xd192_e819);
    case 45 => RootFound(45, 199, 5, 0xd699_0624);
    case 46 => RootFound(46, 211, 5, 0xf40e_3585);
    case _ => RootFound(47, 223, 6, 0x106a_a070);
  }

  lemma RoundConstantsFrom48(t: nat)
    requires 48 <= t < 56
    ensures RoundConstantOk(t)
  {
    match t
    case 48 => RootFound(48, 227, 6, 0x19a4_c116);
    case 49 => RootFound(49, 229, 6, 0x1e37_6c08);
    case 50 => RootFound(50, 233, 6, 0x2748_774c);
    case 51 => RootFound(51, 239, 6, 0x34b0_bcb5);
    case 52 => RootFound(52, 241, 6, 0x391c_0cb3);
    case 53 => RootFound(53, 251, 6, 0x4ed8_aa4a);
    case 54 => RootFound(54, 257, 6, 0x5b9c_ca4f);
    case _ => RootFound(55, 263, 6, 0x682e_6ff3);
  }

  lemma RoundConstantsFrom56(t: nat)
    requires 56 <= t < 64
    ensures RoundConstantOk(t)
  {
    match t
    case 56 => RootFound(56, 269, 6, 0x748f_82ee);
    case 57 => RootFound(57, 271, 6, 0x78a5_636f);
    case 58 => RootFound(58, 277, 6, 0x84c8_7814);
    case 59 => RootFound(59, 281, 6, 0x8cc7_0208);
    case 60 => RootFound(60, 283, 6, 0x90be_fffa);
    case 61 => RootFound(61, 293, 6, 0xa450_6ceb);
    case 62 => RootFound(62, 307, 6, 0xbef9_a3f7);
    case _ => RootFound(63, 311, 6, 0xc671_78f2);
  }

  lemma RoundConstantsAreRoots(t: nat)
    requires t < 64
    ensures RoundConstantOk(t)
  {
    if t < 8 {
      RoundConstantsFrom0(t);
    } else if t < 16 {
      RoundConstantsFrom8(t);
    } else if t < 24 {
      RoundConstantsFrom16(t);
    } else if t < 32 {
      RoundConstantsFrom24(t);
    } else if t < 40 {
      RoundConstantsFrom32(t);
    } else if t < 48 {
      RoundConstantsFrom40(t);
    } else if t < 56 {
      RoundConstantsFrom48(t);
    } else {
      RoundConstantsFrom56(t);
    }
  }

  lemma FirstHashIsRoots(i: nat)
    requires i < 8
    ensures FirstHashOk(i)
  {
    assert SquareRootIs(Prime(0), 1, 0x6a09_e667) && H0[0] == 0x6a09_e667;
    assert SquareRootIs(Prime(1), 1, 0xbb67_ae85) && H0[1] == 0xbb67_ae85;
    assert SquareRootIs(Prime(2), 2, 0x3c6e_f372) && H0[2] == 0x3c6e_f372;
    assert SquareRootIs(Prime(3), 2, 0xa54f_f53a) && H0[3] == 0xa54f_f53a;
    assert SquareRootIs(Prime(4), 3, 0x510e_527f) && H0[4] == 0x510e_527f;
    assert SquareRootIs(Prime(5), 3, 0x9b05_688c) && H0[5] == 0x9b05_688c;
    assert SquareRootIs(Prime(6), 4, 0x1f83_d9ab) && H0[6] == 0x1f83_d9ab;
    assert SquareRootIs(Prime(7), 4, 0x5be0_cd19) && H0[7] == 0x5be0_cd19;
  }

  // ---------- Functions, section 4.1.2 ----------

  function RotateRight(x: Word, n: nat): (r: Word)
    requires n <= 32
  {
    Or32(ShiftRight(x, n), ShiftLeft(x, 32 - n))
  }

  function Ch(x: Word, y: Word, z: Word): (r: Word) { Xor32(And32(x, y), And32(Not32(x), z)) }

  function Maj(x: Word, y: Word, z: Word): (r: Word)
  {
    Xor32(Xor32(And32(x, y), And32(x, z)), And32(y, z))
  }

  function BigSigma0(x: Word): (r: Word)
  {
    Xor32(Xor32(RotateRight(x, 2), RotateRight(x, 13)), RotateRight(x, 22))
  }

  function BigSigma1(x: Word): (r: Word)
  {
    Xor32(Xor32(RotateRight(x, 6), RotateRight(x, 11)), RotateRight(x, 25))
  }

  function SmallSigma0(x: Word): (r: Word)
  {
    Xor32(Xor32(RotateRight(x, 7), RotateRight(x, 18)), ShiftRight(x, 3))
  }

  function SmallSigma1(x: Word): (r: Word)
  {
    Xor32(Xor32(RotateRight(x, 17), RotateRight(x, 19)), ShiftRight(x, 10))
  }

  // ---------- One block, section 6.2.2 ----------

  /** The message schedule. */
  function W(block: Block, t: nat): (w: Word)
  {
    if t < 16 then
      FourBytesBound(block[4 * t..4 * t + 4]);
      FromBigEndian(block[4 * t..4 * t + 4])
    else
      Add32(Add32(Add32(SmallSigma1(W(block, t - 2)), W(block, t - 7)), SmallSigma0(W(block, t - 15))), W(block, t - 16))
  }

  lemma FourBytesBound(s: seq<Byte>)
    requires |s| == 4
    ensures FromBigEndian(s) < WordCount
  {
    WordSizes();
    FromBigEndianBound(s);
  }

  /** The eight working variables. */
  datatype Working = Working(a: Word, b: Word, c: Word, d: Word, e: Word, f: Word, g: Word, h: Word)

  function T1(v: Working, k: Word, w: Word): (r: Word)
  {
    Add32(Add32(Add32(Add32(v.h, BigSigma1(v.e)), Ch(v.e, v.f, v.g)), k), w)
  }

  function T2(v: Working): (r: Word) { Add32(BigSigma0(v.a), Maj(v.a, v.b, v.c)) }

  function Round(v: Working, k: Word, w: Word): (r: Working)
  {
    Working(Add32(T1(v, k, w), T2(v)), v.a, v.b, v.c, Add32(v.d, T1(v, k, w)), v.e, v.f, v.g)
  }

  /** The working variables before round t and after it. */
  function BeforeRound(v: Working, block: Block, t: nat): (r: Working)
    requires t <= 64
    decreases t, 0, block
  {
    if t == 0 then v else AfterRound(v, block, t - 1)
  }

  function AfterRound(v: Working, block: Block, t: nat): (r: Working)
    requires t < 64
    decreases t, 1, block
  {
    Round(BeforeRound(v, block, t), K(t), W(block, t))
  }

  function Compress(h: Hash, block: Block): (r: Hash)
  {
    var v := BeforeRound(Working(h[0], h[1], h[2], h[3], h[4], h[5], h[6], h[7]), block, 64);
    [Add32(h[0], v.a), Add32(h[1], v.b), Add32(h[2], v.c), Add32(h[3], v.d),
     Add32(h[4], v.e), Add32(h[5], v.f), Add32(h[6], v.g), Add32(h[7], v.h)]
  }

  // ---------- A whole message, sections 5.1.1 and 6.2 ----------

  function Zeros(n: nat): (s: seq<Byte>)
    ensures |s| == n
  {
    seq(n, i => 0)
  }

  /** How many zero bytes stand between the first padding byte and the length. */
  function ZeroCount(size: nat): (z: nat) { (55 - size) % 64 }

  function Padded(m: seq<Byte>): (s: seq<Byte>)
  {
    m + [0x80] + Zeros(ZeroCount(|m|)) + ToBigEndian((8 * |m|) % 0x1_0000_0000_0000_0000, 8)
  }

  /** The padding fills the last block, with the fewest zeros that do. */
  lemma PaddingIsLeast(m: seq<Byte>, z: nat)
    ensures |Padded(m)| % 64 == 0
    ensures (|m| + 1 + z) % 64 == 56 ==> ZeroCount(|m|) <= z
  {
    var n, c := |m|, ZeroCount(|m|);
    assert |Padded(m)| == n + 1 + c + 8;
    ZerosFill(n);
    if (n + 1 + z) % 64 == 56 && z < c {
      ZerosAreLeast(n, z);
    }
  }

  lemma ZerosFill(n: nat)
    ensures (n + 1 + ZeroCount(n) + 8) % 64 == 0
  {
    var q := (55 - n) / 64;
    assert n + 1 + ZeroCount(n) + 8 == 64 * (1 - q);
  }

  lemma ZerosAreLeast(n: nat, z: nat)
    requires (n + 1 + z) % 64 == 56
    ensures ZeroCount(n) <= z
  {
    var k := (n + 1 + z) / 64;
    assert 55 - n == z - 64 * k;
  }

  function HashBytes(h: seq<Word>): (s: seq<Byte>)
    ensures |s| == 4 * |h|
  {
    if h == [] then [] else HashBytes(h[..|h| - 1]) + ToBigEndian(h[|h| - 1], 4)
  }

  function Sha256Of(m: seq<Byte>): (s: seq<Byte>)
    ensures |s| == 32
  {
    HashBytes(Blocks.Folded(Compress, H0, Padded(m)))
  }
}
