/** The example of FIPS 180-4 with one block: the message "abc". */
module Sha256Example {
  import opened Arithmetic
  import opened Bytes
  import opened Words
  import opened MachineWords
  import Machine = Sha256Machine
  import Blocks
  import opened Sha256Spec

  function Abc(): (m: seq<Byte>) { [0x61, 0x62, 0x63] }

  /** The message with its padding: one block. */
  function AbcBlock(): (b: Block) { Abc() + [0x80] + Zeros(52) + [0, 0, 0, 0, 0, 0, 0, 24] }

  lemma PaddedAbc()
    ensures Padded(Abc()) == AbcBlock()
  {
    assert ZeroCount(3) == 52;
    LengthOfAbc(24);
  }

  lemma LengthOfAbc(n: nat)
    requires n == 24
    ensures ToBigEndian(n, 8) == [0, 0, 0, 0, 0, 0, 0, 24]
  {
    ZerosInFront(0, 7);
    assert ToBigEndian(n, 8) == ToBigEndian(0, 7) + [24];
  }

  lemma {:induction false} ZerosInFront(v: nat, n: nat)
    requires v == 0
    ensures ToBigEndian(v, n) == Zeros(n)
    decreases n
  {
    if n > 0 {
      ZerosInFront(v / 256, n - 1);
    }
  }

  // ---------- The message schedule ----------

  /** The t-th word of the schedule, as the machine has it. */
  ghost predicate WordIs(b: Block, t: nat, w: bv32) { W(b, t) == Value(w) }

  lemma BlockWord(b: Block, t: nat, s: seq<Byte>, w: bv32)
    requires t < 16 && |s| == 4 && b[4 * t..4 * t + 4] == s
    requires BitSum(w) == FourBytes(s[0], s[1], s[2], s[3])
    ensures WordIs(b, t, w)
  {
    BigEndianOfFour(s);
    ValueIsBitSum(w);
  }

  lemma Expand(b: Block, t: nat, w2: bv32, w7: bv32, w15: bv32, w16: bv32, w: bv32)
    requires t >= 16 && WordIs(b, t - 2, w2) && WordIs(b, t - 7, w7) && WordIs(b, t - 15, w15) && WordIs(b, t - 16, w16)
    requires Machine.Expanded(w2, w7, w15, w16) == w
    ensures WordIs(b, t, w)
  {
    Machine.ExpandedIsMachine(b, t, w2, w7, w15, w16);
  }

  lemma FirstWord(b: Block)
    requires b == AbcBlock()
    ensures WordIs(b, 0, 0x6162_6380)
  {
    hide WordIs;
    assert b[0..4] == [0x61, 0x62, 0x63, 0x80];
    BlockWord(b, 0, b[0..4], 0x6162_6380);
  }

  lemma LastWord(b: Block)
    requires b == AbcBlock()
    ensures WordIs(b, 15, 0x18)
  {
    hide WordIs;
    assert b[60..64] == [0, 0, 0, 24];
    BlockWord(b, 15, b[60..64], 0x18);
  }

  lemma ZeroWord(b: Block, t: nat)
    requires b == AbcBlock() && 1 <= t < 15
    ensures WordIs(b, t, 0)
  {
    hide WordIs, BitSum;
    ZeroBytes(b, t);
    SumOfNothing();
    BlockWord(b, t, [0, 0, 0, 0], 0);
  }

  lemma SumOfNothing()
    ensures BitSum(0) == 0
  {
  }

  lemma ZeroBytes(b: Block, t: nat)
    requires b == AbcBlock() && 1 <= t < 15
    ensures b[4 * t..4 * t + 4] == [0, 0, 0, 0]
  {
    var s := b[4 * t..4 * t + 4];
    assert s[0] == b[4 * t] && s[1] == b[4 * t + 1] && s[2] == b[4 * t + 2] && s[3] == b[4 * t + 3];
  }

  lemma Scheduled0(b: Block)
    requires b == AbcBlock()
    ensures WordIs(b, 0, 0x6162_6380) && WordIs(b, 15, 0x18)
    ensures forall t :: 1 <= t < 15 ==> WordIs(b, t, 0)
  {
    hide WordIs;
    FirstWord(b);
    LastWord(b);
    forall t | 1 <= t < 15
      ensures WordIs(b, t, 0)
    {
      ZeroWord(b, t);
    }
  }

  lemma Scheduled16(b: Block)
    requires b == AbcBlock()
    ensures WordIs(b, 16, 0x6162_6380) && WordIs(b, 17, 0x000f_0000) && WordIs(b, 18, 0x7da8_6405) && WordIs(b, 19, 0x6000_03c6)
    ensures WordIs(b, 20, 0x3e9d_7b78) && WordIs(b, 21, 0x0183_fc00) && WordIs(b, 22, 0x12dc_bfdb) && WordIs(b, 23, 0xe2e2_c38e)
  {
    hide WordIs;
    Scheduled0(b);
    Expand(b, 16, 0x0000_0000, 0x0000_0000, 0x0000_0000, 0x6162_6380, 0x6162_6380);
    Expand(b, 17, 0x0000_0018, 0x0000_0000, 0x0000_0000, 0x0000_0000, 0x000f_0000);
    Expand(b, 18, 0x6162_6380, 0x0000_0000, 0x0000_0000, 0x0000_0000, 0x7da8_6405);
    Expand(b, 19, 0x000f_0000, 0x0000_0000, 0x0000_0000, 0x0000_0000, 0x6000_03c6);
    Expand(b, 20, 0x7da8_6405, 0x0000_0000, 0x0000_0000, 0x0000_0000, 0x3e9d_7b78);
    Expand(b, 21, 0x6000_03c6, 0x0000_0000, 0x0000_0000, 0x0000_0000, 0x0183_fc00);
    Expand(b, 22, 0x3e9d_7b78, 0x0000_0018, 0x0000_0000, 0x0000_0000, 0x12dc_bfdb);
    Expand(b, 23, 0x0183_fc00, 0x6162_6380, 0x0000_0000, 0x0000_0000, 0xe2e2_c38e);
  }

  lemma Scheduled24(b: Block)
    requires b == AbcBlock()
    ensures WordIs(b, 24, 0xc821_5c1a) && WordIs(b, 25, 0xb736_79a2) && WordIs(b, 26, 0xe5bc_3909) && WordIs(b, 27, 0x3266_3c5b)
    ensures WordIs(b, 28, 0x9d20_9d67) && WordIs(b, 29, 0xec87_26cb) && WordIs(b, 30, 0x7021_38a4) && WordIs(b, 31, 0xd3b7_973b)
  {
    hide WordIs;
    Scheduled0(b);
    Scheduled16(b);
    Expand(b, 24, 0x12dc_bfdb, 0x000f_0000, 0x0000_0000, 0x0000_0000, 0xc821_5c1a);
    Expand(b, 25, 0xe2e2_c38e, 0x7da8_6405, 0x0000_0000, 0x0000_0000, 0xb736_79a2);
    Expand(b, 26, 0xc821_5c1a, 0x6000_03c6, 0x0000_0000, 0x0000_0000, 0xe5bc_3909);
    Expand(b, 27, 0xb736_79a2, 0x3e9d_7b78, 0x0000_0000, 0x0000_0000, 0x3266_3c5b);
    Expand(b, 28, 0xe5bc_3909, 0x0183_fc00, 0x0000_0000, 0x0000_0000, 0x9d20_9d67);
    Expand(b, 29, 0x3266_3c5b, 0x12dc_bfdb, 0x0000_0000, 0x0000_0000, 0xec87_26cb);
    Expand(b, 30, 0x9d20_9d67, 0xe2e2_c38e, 0x0000_0018, 0x0000_0000, 0x7021_38a4);
    Expand(b, 31, 0xec87_26cb, 0xc821_5c1a, 0x6162_6380, 0x0000_0018, 0xd3b7_973b);
  }

  lemma Scheduled32(b: Block)
    requires b == AbcBlock()
    ensures WordIs(b, 32, 0x93f5_997f) && WordIs(b, 33, 0x3b68_ba73) && WordIs(b, 34, 0xaff4_ffc1) && WordIs(b, 35, 0xf10a_5c62)
    ensures WordIs(b, 36, 0x0a8b_3996) && WordIs(b, 37, 0x72af_830a) && WordIs(b, 38, 0x9409_e33e) && WordIs(b, 39, 0x2464_1522)
  {
    hide WordIs;
    Scheduled16(b);
    Scheduled24(b);
    Expand(b, 32, 0x7021_38a4, 0xb736_79a2, 0x000f_0000, 0x6162_6380, 0x93f5_997f);
    Expand(b, 33, 0xd3b7_973b, 0xe5bc_3909, 0x7da8_6405, 0x000f_0000, 0x3b68_ba73);
    Expand(b, 34, 0x93f5_997f, 0x3266_3c5b, 0x6000_03c6, 0x7da8_6405, 0xaff4_ffc1);
    Expand(b, 35, 0x3b68_ba73, 0x9d20_9d67, 0x3e9d_7b78, 0x6000_03c6, 0xf10a_5c62);
    Expand(b, 36, 0xaff4_ffc1, 0xec87_26cb, 0x0183_fc00, 0x3e9d_7b78, 0x0a8b_3996);
    Expand(b, 37, 0xf10a_5c62, 0x7021_38a4, 0x12dc_bfdb, 0x0183_fc00, 0x72af_830a);
    Expand(b, 38, 0x0a8b_3996, 0xd3b7_973b, 0xe2e2_c38e, 0x12dc_bfdb, 0x9409_e33e);
    Expand(b, 39, 0x72af_830a, 0x93f5_997f, 0xc821_5c1a, 0xe2e2_c38e, 0x2464_1522);
  }

  lemma Scheduled40(b: Block)
    requires b == AbcBlock()
    ensures WordIs(b, 40, 0x9f47_bf94) && WordIs(b, 41, 0xf0a6_4f5a) && WordIs(b, 42, 0x3e24_6a79) && WordIs(b, 43, 0x2733_3ba3)
    ensures WordIs(b, 44, 0x0c47_63f2) && WordIs(b, 45, 0x840a_bf27) && WordIs(b, 46, 0x7a29_0d5d) && WordIs(b, 47, 0x065c_43da)
  {
    hide WordIs;
    Scheduled24(b);
    Scheduled32(b);
    Expand(b, 40, 0x9409_e33e, 0x3b68_ba73, 0xb736_79a2, 0xc821_5c1a, 0x9f47_bf94);
    Expand(b, 41, 0x2464_1522, 0xaff4_ffc1, 0xe5bc_3909, 0xb736_79a2, 0xf0a6_4f5a);
    Expand(b, 42, 0x9f47_bf94, 0xf10a_5c62, 0x3266_3c5b, 0xe5bc_3909, 0x3e24_6a79);
    Expand(b, 43, 0xf0a6_4f5a, 0x0a8b_3996, 0x9d20_9d67, 0x3266_3c5b, 0x2733_3ba3);
    Expand(b, 44, 0x3e24_6a79, 0x72af_830a, 0xec87_26cb, 0x9d20_9d67, 0x0c47_63f2);
    Expand(b, 45, 0x2733_3ba3, 0x9409_e33e, 0x7021_38a4, 0xec87_26cb, 0x840a_bf27);
    Expand(b, 46, 0x0c47_63f2, 0x2464_1522, 0xd3b7_973b, 0x7021_38a4, 0x7a29_0d5d);
    Expand(b, 47, 0x840a_bf27, 0x9f47_bf94, 0x93f5_997f, 0xd3b7_973b, 0x065c_43da);
  }

  lemma Scheduled48(b: Block)
    requires b == AbcBlock()
    ensures WordIs(b, 48, 0xfb3e_89cb) && WordIs(b, 49, 0xcc76_17db) && WordIs(b, 50, 0xb9e6_6c34) && WordIs(b, 51, 0xa999_3667)
    ensures WordIs(b, 52, 0x84ba_dedd) && WordIs(b, 53, 0xc214_62bc) && WordIs(b, 54, 0x1487_472c) && WordIs(b, 55, 0xb20f_7a99)
  {
    hide WordIs;
    Scheduled32(b);
    Scheduled40(b);
    Expand(b, 48, 0x7a29_0d5d, 0xf0a6_4f5a, 0x3b68_ba73, 0x93f5_997f, 0xfb3e_89cb);
    Expand(b, 49, 0x065c_43da, 0x3e24_6a79, 0xaff4_ffc1, 0x3b68_ba73, 0xcc76_17db);
    Expand(b, 50, 0xfb3e_89cb, 0x2733_3ba3, 0xf10a_5c62, 0xaff4_ffc1, 0xb9e6_6c34);
    Expand(b, 51, 0xcc76_17db, 0x0c47_63f2, 0x0a8b_3996, 0xf10a_5c62, 0xa999_3667);
    Expand(b, 52, 0xb9e6_6c34, 0x840a_bf27, 0x72af_830a, 0x0a8b_3996, 0x84ba_dedd);
    Expand(b, 53, 0xa999_3667, 0x7a29_0d5d, 0x9409_e33e, 0x72af_830a, 0xc214_62bc);
    Expand(b, 54, 0x84ba_dedd, 0x065c_43da, 0x2464_1522, 0x9409_e33e, 0x1487_472c);
    Expand(b, 55, 0xc214_62bc, 0xfb3e_89cb, 0x9f47_bf94, 0x2464_1522, 0xb20f_7a99);
  }

  lemma Scheduled56(b: Block)
    requires b == AbcBlock()
    ensures WordIs(b, 56, 0xef57_b9cd) && WordIs(b, 57, 0xebe6_b238) && WordIs(b, 58, 0x9fe3_095e) && WordIs(b, 59, 0x78bc_8d4b)
    ensures WordIs(b, 60, 0xa43f_cf15) && WordIs(b, 61, 0x668b_2ff8) && WordIs(b, 62, 0xeeab_a2cc) && WordIs(b, 63, 0x12b1_edeb)
  {
    hide WordIs;
    Scheduled40(b);
    Scheduled48(b);
    Expand(b, 56, 0x1487_472c, 0xcc76_17db, 0xf0a6_4f5a, 0x9f47_bf94, 0xef57_b9cd);
    Expand(b, 57, 0xb20f_7a99, 0xb9e6_6c34, 0x3e24_6a79, 0xf0a6_4f5a, 0xebe6_b238);
    Expand(b, 58, 0xef57_b9cd, 0xa999_3667, 0x2733_3ba3, 0x3e24_6a79, 0x9fe3_095e);
    Expand(b, 59, 0xebe6_b238, 0x84ba_dedd, 0x0c47_63f2, 0x2733_3ba3, 0x78bc_8d4b);
    Expand(b, 60, 0x9fe3_095e, 0xc214_62bc, 0x840a_bf27, 0x0c47_63f2, 0xa43f_cf15);
    Expand(b, 61, 0x78bc_8d4b, 0x1487_472c, 0x7a29_0d5d, 0x840a_bf27, 0x668b_2ff8);
    Expand(b, 62, 0xa43f_cf15, 0xb20f_7a99, 0x065c_43da, 0x7a29_0d5d, 0xeeab_a2cc);
    Expand(b, 63, 0x668b_2ff8, 0xef57_b9cd, 0xfb3e_89cb, 0x065c_43da, 0x12b1_edeb);
  }

  // ---------- The rounds ----------

  /** The working variables before round t, as the machine has them. */
  ghost predicate Before(b: Block, t: nat, a: bv32, b1: bv32, c: bv32, d: bv32, e: bv32, f: bv32, g: bv32, h: bv32)
    requires t <= 64
  {
    BeforeRound(Working(H0[0], H0[1], H0[2], H0[3], H0[4], H0[5], H0[6], H0[7]), b, t)
    == Machine.Valued(a, b1, c, d, e, f, g, h)
  }

  /** One round, with a and e for the two new words. */
  lemma Turn(block: Block, t: nat, b: bv32, c: bv32, d: bv32, d': bv32, f: bv32, g: bv32, h: bv32, h': bv32,
             k: bv32, w: bv32, a: bv32, e: bv32)
    requires t < 64 && Before(block, t, b, c, d, d', f, g, h, h') && WordIs(block, t, w) && BitSum(k) == K(t)
    requires Plus(Machine.T1(f, g, h, h', k, w), Machine.T2(b, c, d)) == a
    requires Plus(d', Machine.T1(f, g, h, h', k, w)) == e
    ensures Before(block, t + 1, a, b, c, d, e, f, g, h)
  {
    ValueIsBitSum(k);
    Machine.RoundIsMachine(b, c, d, d', f, g, h, h', k, w);
  }

  lemma FirstHash(b: Block)
    ensures Before(b, 0, 0x6a09_e667, 0xbb67_ae85, 0x3c6e_f372, 0xa54f_f53a,
                   0x510e_527f, 0x9b05_688c, 0x1f83_d9ab, 0x5be0_cd19)
  {
    ValueIsBitSum(0x6a09_e667);
    ValueIsBitSum(0xbb67_ae85);
    ValueIsBitSum(0x3c6e_f372);
    ValueIsBitSum(0xa54f_f53a);
    ValueIsBitSum(0x510e_527f);
    ValueIsBitSum(0x9b05_688c);
    ValueIsBitSum(0x1f83_d9ab);
    ValueIsBitSum(0x5be0_cd19);
  }

  lemma Rounds0(block: Block)
    requires block == AbcBlock()
    ensures Before(block, 8, 0x85a0_7b5f, 0xe503_0380, 0x2b42_09f5, 0x0440_9a6a,
                   0x0c65_7a79, 0x9b27_a401, 0x7142_60ad, 0x43ad_a245)
  {
    hide WordIs, Before;
    FirstHash(block);
    Scheduled0(block);
    Turn(block, 0, 0x6a09_e667, 0xbb67_ae85, 0x3c6e_f372, 0xa54f_f53a, 0x510e_527f, 0x9b05_688c, 0x1f83_d9ab, 0x5be0_cd19,
         0x428a_2f98, 0x6162_6380, 0x5d6a_ebcd, 0xfa2a_4622);
    Turn(block, 1, 0x5d6a_ebcd, 0x6a09_e667, 0xbb67_ae85, 0x3c6e_f372, 0xfa2a_4622, 0x510e_527f, 0x9b05_688c, 0x1f83_d9ab,
         0x7137_4491, 0x0000_0000, 0x5a6a_d9ad, 0x78ce_7989);
    Turn(block, 2, 0x5a6a_d9ad, 0x5d6a_ebcd, 0x6a09_e667, 0xbb67_ae85, 0x78ce_7989, 0xfa2a_4622, 0x510e_527f, 0x9b05_688c,
         0xb5c0_fbcf, 0x0000_0000, 0xc8c3_47a7, 0xf929_39eb);
    Turn(block, 3, 0xc8c3_47a7, 0x5a6a_d9ad, 0x5d6a_ebcd, 0x6a09_e667, 0xf929_39eb, 0x78ce_7989, 0xfa2a_4622, 0x510e_527f,
         0xe9b5_dba5, 0x0000_0000, 0xd550_f666, 0x24e0_0850);
    Turn(block, 4, 0xd550_f666, 0xc8c3_47a7, 0x5a6a_d9ad, 0x5d6a_ebcd, 0x24e0_0850, 0xf929_39eb, 0x78ce_7989, 0xfa2a_4622,
         0x3956_c25b, 0x0000_0000, 0x0440_9a6a, 0x43ad_a245);
    Turn(block, 5, 0x0440_9a6a, 0xd550_f666, 0xc8c3_47a7, 0x5a6a_d9ad, 0x43ad_a245, 0x24e0_0850, 0xf929_39eb, 0x78ce_7989,
         0x59f1_11f1, 0x0000_0000, 0x2b42_09f5, 0x7142_60ad);
    Turn(block, 6, 0x2b42_09f5, 0x0440_9a6a, 0xd550_f666, 0xc8c3_47a7, 0x7142_60ad, 0x43ad_a245, 0x24e0_0850, 0xf929_39eb,
         0x923f_82a4, 0x0000_0000, 0xe503_0380, 0x9b27_a401);
    Turn(block, 7, 0xe503_0380, 0x2b42_09f5, 0x0440_9a6a, 0xd550_f666, 0x9b27_a401, 0x7142_60ad, 0x43ad_a245, 0x24e0_0850,
         0xab1c_5ed5, 0x0000_0000, 0x85a0_7b5f, 0x0c65_7a79);
  }

  lemma Rounds8(block: Block)
    requires block == AbcBlock()
    ensures Before(block, 16, 0xb0fa_238e, 0xc064_5fde, 0xd932_eb16, 0x8791_2990,
                   0x0759_0dcd, 0x0b92_f20c, 0x745a_48de, 0x1e57_8218)
  {
    hide WordIs, Before;
    Rounds0(block);
    Scheduled0(block);
    Turn(block, 8, 0x85a0_7b5f, 0xe503_0380, 0x2b42_09f5, 0x0440_9a6a, 0x0c65_7a79, 0x9b27_a401, 0x7142_60ad, 0x43ad_a245,
         0xd807_aa98, 0x0000_0000, 0x8e04_ecb9, 0x32ca_2d8c);
    Turn(block, 9, 0x8e04_ecb9, 0x85a0_7b5f, 0xe503_0380, 0x2b42_09f5, 0x32ca_2d8c, 0x0c65_7a79, 0x9b27_a401, 0x7142_60ad,
         0x1283_5b01, 0x0000_0000, 0x8c87_346b, 0x1cc9_2596);
    Turn(block, 10, 0x8c87_346b, 0x8e04_ecb9, 0x85a0_7b5f, 0xe503_0380, 0x1cc9_2596, 0x32ca_2d8c, 0x0c65_7a79, 0x9b27_a401,
         0x2431_85be, 0x0000_0000, 0x4798_a3f4, 0x436b_23e8);
    Turn(block, 11, 0x4798_a3f4, 0x8c87_346b, 0x8e04_ecb9, 0x85a0_7b5f, 0x436b_23e8, 0x1cc9_2596, 0x32ca_2d8c, 0x0c65_7a79,
         0x550c_7dc3, 0x0000_0000, 0xf71f_c5a9, 0x816f_d6e9);
    Turn(block, 12, 0xf71f_c5a9, 0x4798_a3f4, 0x8c87_346b, 0x8e04_ecb9, 0x816f_d6e9, 0x436b_23e8, 0x1cc9_2596, 0x32ca_2d8c,
         0x72be_5d74, 0x0000_0000, 0x8791_2990, 0x1e57_8218);
    Turn(block, 13, 0x8791_2990, 0xf71f_c5a9, 0x4798_a3f4, 0x8c87_346b, 0x1e57_8218, 0x816f_d6e9, 0x436b_23e8, 0x1cc9_2596,
         0x80de_b1fe, 0x0000_0000, 0xd932_eb16, 0x745a_48de);
    Turn(block, 14, 0xd932_eb16, 0x8791_2990, 0xf71f_c5a9, 0x4798_a3f4, 0x745a_48de, 0x1e57_8218, 0x816f_d6e9, 0x436b_23e8,
         0x9bdc_06a7, 0x0000_0000, 0xc064_5fde, 0x0b92_f20c);
    Turn(block, 15, 0xc064_5fde, 0xd932_eb16, 0x8791_2990, 0xf71f_c5a9, 0x0b92_f20c, 0x745a_48de, 0x1e57_8218, 0x816f_d6e9,
         0xc19b_f174, 0x0000_0018, 0xb0fa_238e, 0x0759_0dcd);
  }

  lemma Rounds16(block: Block)
    requires block == AbcBlock()
    ensures Before(block, 24, 0xc5d5_3d8d, 0xa7a3_623f, 0xc260_6d6d, 0x9dc6_8b63,
                   0xaa47_c347, 0x49f5_114a, 0xe125_7970, 0x8ada_8930)
  {
    hide WordIs, Before;
    Rounds8(block);
    Scheduled16(block);
    Turn(block, 16, 0xb0fa_238e, 0xc064_5fde, 0xd932_eb16, 0x8791_2990, 0x0759_0dcd, 0x0b92_f20c, 0x745a_48de, 0x1e57_8218,
         0xe49b_69c1, 0x6162_6380, 0x21da_9a9b, 0x8034_229c);
    Turn(block, 17, 0x21da_9a9b, 0xb0fa_238e, 0xc064_5fde, 0xd932_eb16, 0x8034_229c, 0x0759_0dcd, 0x0b92_f20c, 0x745a_48de,
         0xefbe_4786, 0x000f_0000, 0xc2fb_d9d1, 0x846e_e454);
    Turn(block, 18, 0xc2fb_d9d1, 0x21da_9a9b, 0xb0fa_238e, 0xc064_5fde, 0x846e_e454, 0x8034_229c, 0x0759_0dcd, 0x0b92_f20c,
         0x0fc1_9dc6, 0x7da8_6405, 0xfe77_7bbf, 0xcc89_9961);
    Turn(block, 19, 0xfe77_7bbf, 0xc2fb_d9d1, 0x21da_9a9b, 0xb0fa_238e, 0xcc89_9961, 0x846e_e454, 0x8034_229c, 0x0759_0dcd,
         0x240c_a1cc, 0x6000_03c6, 0xe1f2_0c33, 0xb063_8179);
    Turn(block, 20, 0xe1f2_0c33, 0xfe77_7bbf, 0xc2fb_d9d1, 0x21da_9a9b, 0xb063_8179, 0xcc89_9961, 0x846e_e454, 0x8034_229c,
         0x2de9_2c6f, 0x3e9d_7b78, 0x9dc6_8b63, 0x8ada_8930);
    Turn(block, 21, 0x9dc6_8b63, 0xe1f2_0c33, 0xfe77_7bbf, 0xc2fb_d9d1, 0x8ada_8930, 0xb063_8179, 0xcc89_9961, 0x846e_e454,
         0x4a74_84aa, 0x0183_fc00, 0xc260_6d6d, 0xe125_7970);
    Turn(block, 22, 0xc260_6d6d, 0x9dc6_8b63, 0xe1f2_0c33, 0xfe77_7bbf, 0xe125_7970, 0x8ada_8930, 0xb063_8179, 0xcc89_9961,
         0x5cb0_a9dc, 0x12dc_bfdb, 0xa7a3_623f, 0x49f5_114a);
    Turn(block, 23, 0xa7a3_623f, 0xc260_6d6d, 0x9dc6_8b63, 0xe1f2_0c33, 0x49f5_114a, 0xe125_7970, 0x8ada_8930, 0xb063_8179,
         0x76f9_88da, 0xe2e2_c38e, 0xc5d5_3d8d, 0xaa47_c347);
  }

  lemma Rounds24(block: Block)
    requires block == AbcBlock()
    ensures Before(block, 32, 0x73b3_3bf5, 0xea99_2a22, 0xa006_0b30, 0x3634_82c9,
                   0xba59_1112, 0x0109_ab3a, 0xade7_9437, 0x6112_a3b7)
  {
    hide WordIs, Before;
    Rounds16(block);
    Scheduled24(block);
    Turn(block, 24, 0xc5d5_3d8d, 0xa7a3_623f, 0xc260_6d6d, 0x9dc6_8b63, 0xaa47_c347, 0x49f5_114a, 0xe125_7970, 0x8ada_8930,
         0x983e_5152, 0xc821_5c1a, 0x1c2c_2838, 0x2823_ef91);
    Turn(block, 25, 0x1c2c_2838, 0xc5d5_3d8d, 0xa7a3_623f, 0xc260_6d6d, 0x2823_ef91, 0xaa47_c347, 0x49f5_114a, 0xe125_7970,
         0xa831_c66d, 0xb736_79a2, 0xcde8_037d, 0x1438_3d8e);
    Turn(block, 26, 0xcde8_037d, 0x1c2c_2838, 0xc5d5_3d8d, 0xa7a3_623f, 0x1438_3d8e, 0x2823_ef91, 0xaa47_c347, 0x49f5_114a,
         0xb003_27c8, 0xe5bc_3909, 0xb62e_c4bc, 0xc74c_6516);
    Turn(block, 27, 0xb62e_c4bc, 0xcde8_037d, 0x1c2c_2838, 0xc5d5_3d8d, 0xc74c_6516, 0x1438_3d8e, 0x2823_ef91, 0xaa47_c347,
         0xbf59_7fc7, 0x3266_3c5b, 0x77d3_7528, 0xedff_bff8);
    Turn(block, 28, 0x77d3_7528, 0xb62e_c4bc, 0xcde8_037d, 0x1c2c_2838, 0xedff_bff8, 0xc74c_6516, 0x1438_3d8e, 0x2823_ef91,
         0xc6e0_0bf3, 0x9d20_9d67, 0x3634_82c9, 0x6112_a3b7);
    Turn(block, 29, 0x3634_82c9, 0x77d3_7528, 0xb62e_c4bc, 0xcde8_037d, 0x6112_a3b7, 0xedff_bff8, 0xc74c_6516, 0x1438_3d8e,
         0xd5a7_9147, 0xec87_26cb, 0xa006_0b30, 0xade7_9437);
    Turn(block, 30, 0xa006_0b30, 0x3634_82c9, 0x77d3_7528, 0xb62e_c4bc, 0xade7_9437, 0x6112_a3b7, 0xedff_bff8, 0xc74c_6516,
         0x06ca_6351, 0x7021_38a4, 0xea99_2a22, 0x0109_ab3a);
    Turn(block, 31, 0xea99_2a22, 0xa006_0b30, 0x3634_82c9, 0x77d3_7528, 0x0109_ab3a, 0xade7_9437, 0x6112_a3b7, 0xedff_bff8,
         0x1429_2967, 0xd3b7_973b, 0x73b3_3bf5, 0xba59_1112);
  }

  lemma Rounds32(block: Block)
    requires block == AbcBlock()
    ensures Before(block, 40, 0x79ea_687a, 0x6dc5_7a8a, 0x34df_1604, 0x41a6_5cb1,
                   0x1efb_c0a0, 0xf078_1bc8, 0xa507_a53d, 0x0772_a26b)
  {
    hide WordIs, Before;
    Rounds24(block);
    Scheduled32(block);
    Turn(block, 32, 0x73b3_3bf5, 0xea99_2a22, 0xa006_0b30, 0x3634_82c9, 0xba59_1112, 0x0109_ab3a, 0xade7_9437, 0x6112_a3b7,
         0x27b7_0a85, 0x93f5_997f, 0x98e1_2507, 0x9cd9_f5f6);
    Turn(block, 33, 0x98e1_2507, 0x73b3_3bf5, 0xea99_2a22, 0xa006_0b30, 0x9cd9_f5f6, 0xba59_1112, 0x0109_ab3a, 0xade7_9437,
         0x2e1b_2138, 0x3b68_ba73, 0xfe60_4df5, 0x5924_9dd3);
    Turn(block, 34, 0xfe60_4df5, 0x98e1_2507, 0x73b3_3bf5, 0xea99_2a22, 0x5924_9dd3, 0x9cd9_f5f6, 0xba59_1112, 0x0109_ab3a,
         0x4d2c_6dfc, 0xaff4_ffc1, 0xa9a7_738c, 0x085f_3833);
    Turn(block, 35, 0xa9a7_738c, 0xfe60_4df5, 0x98e1_2507, 0x73b3_3bf5, 0x085f_3833, 0x5924_9dd3, 0x9cd9_f5f6, 0xba59_1112,
         0x5338_0d13, 0xf10a_5c62, 0x65a0_cfe4, 0xf4b0_02d6);
    Turn(block, 36, 0x65a0_cfe4, 0xa9a7_738c, 0xfe60_4df5, 0x98e1_2507, 0xf4b0_02d6, 0x085f_3833, 0x5924_9dd3, 0x9cd9_f5f6,
         0x650a_7354, 0x0a8b_3996, 0x41a6_5cb1, 0x0772_a26b);
    Turn(block, 37, 0x41a6_5cb1, 0x65a0_cfe4, 0xa9a7_738c, 0xfe60_4df5, 0x0772_a26b, 0xf4b0_02d6, 0x085f_3833, 0x5924_9dd3,
         0x766a_0abb, 0x72af_830a, 0x34df_1604, 0xa507_a53d);
    Turn(block, 38, 0x34df_1604, 0x41a6_5cb1, 0x65a0_cfe4, 0xa9a7_738c, 0xa507_a53d, 0x0772_a26b, 0xf4b0_02d6, 0x085f_3833,
         0x81c2_c92e, 0x9409_e33e, 0x6dc5_7a8a, 0xf078_1bc8);
    Turn(block, 39, 0x6dc5_7a8a, 0x34df_1604, 0x41a6_5cb1, 0x65a0_cfe4, 0xf078_1bc8, 0xa507_a53d, 0x0772_a26b, 0xf4b0_02d6,
         0x9272_2c85, 0x2464_1522, 0x79ea_687a, 0x1efb_c0a0);
  }

  lemma Rounds40(block: Block)
    requires block == AbcBlock()
    ensures Before(block, 44, 0x9d4b_af93, 0x17aa_0dfe, 0xdf46_652f, 0xd667_0766,
                   0xfda2_4c2e, 0xdecd_4715, 0x838b_2711, 0x2635_2d63)
  {
    hide WordIs, Before;
    Rounds32(block);
    Scheduled40(block);
    Turn(block, 40, 0x79ea_687a, 0x6dc5_7a8a, 0x34df_1604, 0x41a6_5cb1, 0x1efb_c0a0, 0xf078_1bc8, 0xa507_a53d, 0x0772_a26b,
         0xa2bf_e8a1, 0x9f47_bf94, 0xd667_0766, 0x2635_2d63);
    Turn(block, 41, 0xd667_0766, 0x79ea_687a, 0x6dc5_7a8a, 0x34df_1604, 0x2635_2d63, 0x1efb_c0a0, 0xf078_1bc8, 0xa507_a53d,
         0xa81a_664b, 0xf0a6_4f5a, 0xdf46_652f, 0x838b_2711);
    Turn(block, 42, 0xdf46_652f, 0xd667_0766, 0x79ea_687a, 0x6dc5_7a8a, 0x838b_2711, 0x2635_2d63, 0x1efb_c0a0, 0xf078_1bc8,
         0xc24b_8b70, 0x3e24_6a79, 0x17aa_0dfe, 0xdecd_4715);
    Turn(block, 43, 0x17aa_0dfe, 0xdf46_652f, 0xd667_0766, 0x79ea_687a, 0xdecd_4715, 0x838b_2711, 0x2635_2d63, 0x1efb_c0a0,
         0xc76c_51a3, 0x2733_3ba3, 0x9d4b_af93, 0xfda2_4c2e);
  }

  lemma Rounds44(block: Block)
    requires block == AbcBlock()
    ensures Before(block, 48, 0x4172_328d, 0xa14c_14b0, 0x72ab_4b91, 0x2662_8815,
                   0xfecf_0bc6, 0xd57b_94a9, 0xb775_5da1, 0xa80f_11f0)
  {
    hide WordIs, Before;
    Rounds40(block);
    Scheduled40(block);
    Turn(block, 44, 0x9d4b_af93, 0x17aa_0dfe, 0xdf46_652f, 0xd667_0766, 0xfda2_4c2e, 0xdecd_4715, 0x838b_2711, 0x2635_2d63,
         0xd192_e819, 0x0c47_63f2, 0x2662_8815, 0xa80f_11f0);
    Turn(block, 45, 0x2662_8815, 0x9d4b_af93, 0x17aa_0dfe, 0xdf46_652f, 0xa80f_11f0, 0xfda2_4c2e, 0xdecd_4715, 0x838b_2711,
         0xd699_0624, 0x840a_bf27, 0x72ab_4b91, 0xb775_5da1);
    Turn(block, 46, 0x72ab_4b91, 0x2662_8815, 0x9d4b_af93, 0x17aa_0dfe, 0xb775_5da1, 0xa80f_11f0, 0xfda2_4c2e, 0xdecd_4715,
         0xf40e_3585, 0x7a29_0d5d, 0xa14c_14b0, 0xd57b_94a9);
    Turn(block, 47, 0xa14c_14b0, 0x72ab_4b91, 0x2662_8815, 0x9d4b_af93, 0xd57b_94a9, 0xb775_5da1, 0xa80f_11f0, 0xfda2_4c2e,
         0x106a_a070, 0x065c_43da, 0x4172_328d, 0xfecf_0bc6);
  }

  lemma Rounds48(block: Block)
    requires block == AbcBlock()
    ensures Before(block, 52, 0x886e_7a22, 0x7a05_08a1, 0xf11b_faa8, 0x0575_7ceb,
                   0x4923_1c1e, 0x52f1_ccf7, 0x6e5c_390c, 0xbd71_4038)
  {
    hide WordIs, Before;
    Rounds44(block);
    Scheduled48(block);
    Turn(block, 48, 0x4172_328d, 0xa14c_14b0, 0x72ab_4b91, 0x2662_8815, 0xfecf_0bc6, 0xd57b_94a9, 0xb775_5da1, 0xa80f_11f0,
         0x19a4_c116, 0xfb3e_89cb, 0x0575_7ceb, 0xbd71_4038);
    Turn(block, 49, 0x0575_7ceb, 0x4172_328d, 0xa14c_14b0, 0x72ab_4b91, 0xbd71_4038, 0xfecf_0bc6, 0xd57b_94a9, 0xb775_5da1,
         0x1e37_6c08, 0xcc76_17db, 0xf11b_faa8, 0x6e5c_390c);
    Turn(block, 50, 0xf11b_faa8, 0x0575_7ceb, 0x4172_328d, 0xa14c_14b0, 0x6e5c_390c, 0xbd71_4038, 0xfecf_0bc6, 0xd57b_94a9,
         0x2748_774c, 0xb9e6_6c34, 0x7a05_08a1, 0x52f1_ccf7);
    Turn(block, 51, 0x7a05_08a1, 0xf11b_faa8, 0x0575_7ceb, 0x4172_328d, 0x52f1_ccf7, 0x6e5c_390c, 0xbd71_4038, 0xfecf_0bc6,
         0x34b0_bcb5, 0xa999_3667, 0x886e_7a22, 0x4923_1c1e);
  }

  lemma Rounds52(block: Block)
    requires block == AbcBlock()
    ensures Before(block, 56, 0x38cc_9913, 0x3ec4_5cdb, 0xf570_2fdb, 0x101f_d28f,
                   0x54cb_266b, 0xe50e_1b4f, 0x9f47_87c3, 0x529e_7d00)
  {
    hide WordIs, Before;
    Rounds48(block);
    Scheduled48(block);
    Turn(block, 52, 0x886e_7a22, 0x7a05_08a1, 0xf11b_faa8, 0x0575_7ceb, 0x4923_1c1e, 0x52f1_ccf7, 0x6e5c_390c, 0xbd71_4038,
         0x391c_0cb3, 0x84ba_dedd, 0x101f_d28f, 0x529e_7d00);
    Turn(block, 53, 0x101f_d28f, 0x886e_7a22, 0x7a05_08a1, 0xf11b_faa8, 0x529e_7d00, 0x4923_1c1e, 0x52f1_ccf7, 0x6e5c_390c,
         0x4ed8_aa4a, 0xc214_62bc, 0xf570_2fdb, 0x9f47_87c3);
    Turn(block, 54, 0xf570_2fdb, 0x101f_d28f, 0x886e_7a22, 0x7a05_08a1, 0x9f47_87c3, 0x529e_7d00, 0x4923_1c1e, 0x52f1_ccf7,
         0x5b9c_ca4f, 0x1487_472c, 0x3ec4_5cdb, 0xe50e_1b4f);
    Turn(block, 55, 0x3ec4_5cdb, 0xf570_2fdb, 0x101f_d28f, 0x886e_7a22, 0xe50e_1b4f, 0x9f47_87c3, 0x529e_7d00, 0x4923_1c1e,
         0x682e_6ff3, 0xb20f_7a99, 0x38cc_9913, 0x54cb_266b);
  }

  lemma Rounds56(block: Block)
    requires block == AbcBlock()
    ensures Before(block, 60, 0xb6ae_8fff, 0xffb7_0472, 0xc062_d46f, 0xfcd1_887b,
                   0xb21b_ad3d, 0x6d83_bfc6, 0x7e44_008e, 0x9b5e_906c)
  {
    hide WordIs, Before;
    Rounds52(block);
    Scheduled56(block);
    Turn(block, 56, 0x38cc_9913, 0x3ec4_5cdb, 0xf570_2fdb, 0x101f_d28f, 0x54cb_266b, 0xe50e_1b4f, 0x9f47_87c3, 0x529e_7d00,
         0x748f_82ee, 0xef57_b9cd, 0xfcd1_887b, 0x9b5e_906c);
    Turn(block, 57, 0xfcd1_887b, 0x38cc_9913, 0x3ec4_5cdb, 0xf570_2fdb, 0x9b5e_906c, 0x54cb_266b, 0xe50e_1b4f, 0x9f47_87c3,
         0x78a5_636f, 0xebe6_b238, 0xc062_d46f, 0x7e44_008e);
    Turn(block, 58, 0xc062_d46f, 0xfcd1_887b, 0x38cc_9913, 0x3ec4_5cdb, 0x7e44_008e, 0x9b5e_906c, 0x54cb_266b, 0xe50e_1b4f,
         0x84c8_7814, 0x9fe3_095e, 0xffb7_0472, 0x6d83_bfc6);
    Turn(block, 59, 0xffb7_0472, 0xc062_d46f, 0xfcd1_887b, 0x38cc_9913, 0x6d83_bfc6, 0x7e44_008e, 0x9b5e_906c, 0x54cb_266b,
         0x8cc7_0208, 0x78bc_8d4b, 0xb6ae_8fff, 0xb21b_ad3d);
  }

  lemma Rounds60(block: Block)
    requires block == AbcBlock()
    ensures Before(block, 64, 0x506e_3058, 0xd39a_2165, 0x04d2_4d6c, 0xb85e_2ce9,
                   0x5ef5_0f24, 0xfb12_1210, 0x948d_25b6, 0x961f_4894)
  {
    hide WordIs, Before;
    Rounds56(block);
    Scheduled56(block);
    Turn(block, 60, 0xb6ae_8fff, 0xffb7_0472, 0xc062_d46f, 0xfcd1_887b, 0xb21b_ad3d, 0x6d83_bfc6, 0x7e44_008e, 0x9b5e_906c,
         0x90be_fffa, 0xa43f_cf15, 0xb85e_2ce9, 0x961f_4894);
    Turn(block, 61, 0xb85e_2ce9, 0xb6ae_8fff, 0xffb7_0472, 0xc062_d46f, 0x961f_4894, 0xb21b_ad3d, 0x6d83_bfc6, 0x7e44_008e,
         0xa450_6ceb, 0x668b_2ff8, 0x04d2_4d6c, 0x948d_25b6);
    Turn(block, 62, 0x04d2_4d6c, 0xb85e_2ce9, 0xb6ae_8fff, 0xffb7_0472, 0x948d_25b6, 0x961f_4894, 0xb21b_ad3d, 0x6d83_bfc6,
         0xbef9_a3f7, 0xeeab_a2cc, 0xd39a_2165, 0xfb12_1210);
    Turn(block, 63, 0xd39a_2165, 0x04d2_4d6c, 0xb85e_2ce9, 0xb6ae_8fff, 0xfb12_1210, 0x948d_25b6, 0x961f_4894, 0xb21b_ad3d,
         0xc671_78f2, 0x12b1_edeb, 0x506e_3058, 0x5ef5_0f24);
  }

  // ---------- The digest ----------

  /** A word of the result from one of the hash value x and a working variable y. */
  lemma Final(x: bv32, y: bv32, z: bv32, bytes: seq<Byte>)
    requires Plus(x, y) == z && |bytes| == 4
    requires BitSum(z) == FourBytes(bytes[0], bytes[1], bytes[2], bytes[3])
    ensures ToBigEndian(Add32(Value(x), Value(y)), 4) == bytes
  {
    AddIsMachine(x, y);
    ValueIsBitSum(z);
    BigEndianOfFour(bytes);
    BytesRoundTrip(bytes);
  }

  lemma HashOfEight(h: Hash)
    ensures HashBytes(h) == ToBigEndian(h[0], 4) + ToBigEndian(h[1], 4) + ToBigEndian(h[2], 4) + ToBigEndian(h[3], 4)
                            + ToBigEndian(h[4], 4) + ToBigEndian(h[5], 4) + ToBigEndian(h[6], 4) + ToBigEndian(h[7], 4)
  {
    var h7, h6, h5, h4, h3, h2, h1 := h[..7], h[..6], h[..5], h[..4], h[..3], h[..2], h[..1];
    assert h7[..6] == h6 && h6[..5] == h5 && h5[..4] == h4 && h4[..3] == h3 && h3[..2] == h2 && h2[..1] == h1;
    assert h1[..0] == [];
    assert HashBytes(h1) == ToBigEndian(h[0], 4);
    assert HashBytes(h2) == HashBytes(h1) + ToBigEndian(h[1], 4);
    assert HashBytes(h3) == HashBytes(h2) + ToBigEndian(h[2], 4);
    assert HashBytes(h4) == HashBytes(h3) + ToBigEndian(h[3], 4);
    assert HashBytes(h5) == HashBytes(h4) + ToBigEndian(h[4], 4);
    assert HashBytes(h6) == HashBytes(h5) + ToBigEndian(h[5], 4);
    assert HashBytes(h7) == HashBytes(h6) + ToBigEndian(h[6], 4);
  }

  lemma OneBlock(block: Block)
    ensures Blocks.Folded(Compress, H0, block) == Compress(H0, block)
  {
    assert block[..64] == block && block[64..] == [];
  }

  /** What one block makes of the first hash value, from the last working variables. */
  lemma Compressed(b: Block, a: bv32, b1: bv32, c: bv32, d: bv32, e: bv32, f: bv32, g: bv32, h: bv32)
    requires Before(b, 64, a, b1, c, d, e, f, g, h)
    ensures Compress(H0, b) == [Add32(H0[0], Value(a)), Add32(H0[1], Value(b1)), Add32(H0[2], Value(c)),
                                Add32(H0[3], Value(d)), Add32(H0[4], Value(e)), Add32(H0[5], Value(f)),
                                Add32(H0[6], Value(g)), Add32(H0[7], Value(h))]
  {
  }

  lemma FirstHashValues()
    ensures H0[0] == Value(0x6a09_e667)
    ensures H0[1] == Value(0xbb67_ae85)
    ensures H0[2] == Value(0x3c6e_f372)
    ensures H0[3] == Value(0xa54f_f53a)
    ensures H0[4] == Value(0x510e_527f)
    ensures H0[5] == Value(0x9b05_688c)
    ensures H0[6] == Value(0x1f83_d9ab)
    ensures H0[7] == Value(0x5be0_cd19)
  {
    hide Value;
    ValueIsBitSum(0x6a09_e667);
    ValueIsBitSum(0xbb67_ae85);
    ValueIsBitSum(0x3c6e_f372);
    ValueIsBitSum(0xa54f_f53a);
    ValueIsBitSum(0x510e_527f);
    ValueIsBitSum(0x9b05_688c);
    ValueIsBitSum(0x1f83_d9ab);
    ValueIsBitSum(0x5be0_cd19);
  }

  /** The digest of "abc". */
  function AbcDigest(): (s: seq<Byte>)
  {
    [0xba, 0x78, 0x16, 0xbf] + [0x8f, 0x01, 0xcf, 0xea] +
    [0x41, 0x41, 0x40, 0xde] + [0x5d, 0xae, 0x22, 0x23] +
    [0xb0, 0x03, 0x61, 0xa3] + [0x96, 0x17, 0x7a, 0x9c] +
    [0xb4, 0x10, 0xff, 0x61] + [0xf2, 0x00, 0x15, 0xad]
  }

  /** The words of the digest from the last working variables. */
  lemma DigestWords()
    ensures ToBigEndian(Add32(H0[0], Value(0x506e_3058)), 4) == [0xba, 0x78, 0x16, 0xbf]
    ensures ToBigEndian(Add32(H0[1], Value(0xd39a_2165)), 4) == [0x8f, 0x01, 0xcf, 0xea]
    ensures ToBigEndian(Add32(H0[2], Value(0x04d2_4d6c)), 4) == [0x41, 0x41, 0x40, 0xde]
    ensures ToBigEndian(Add32(H0[3], Value(0xb85e_2ce9)), 4) == [0x5d, 0xae, 0x22, 0x23]
    ensures ToBigEndian(Add32(H0[4], Value(0x5ef5_0f24)), 4) == [0xb0, 0x03, 0x61, 0xa3]
    ensures ToBigEndian(Add32(H0[5], Value(0xfb12_1210)), 4) == [0x96, 0x17, 0x7a, 0x9c]
    ensures ToBigEndian(Add32(H0[6], Value(0x948d_25b6)), 4) == [0xb4, 0x10, 0xff, 0x61]
    ensures ToBigEndian(Add32(H0[7], Value(0x961f_4894)), 4) == [0xf2, 0x00, 0x15, 0xad]
  {
    hide Value, Add32, ToBigEndian;
    FirstHashValues();
    Final(0x6a09_e667, 0x506e_3058, 0xba78_16bf, [0xba, 0x78, 0x16, 0xbf]);
    Final(0xbb67_ae85, 0xd39a_2165, 0x8f01_cfea, [0x8f, 0x01, 0xcf, 0xea]);
    Final(0x3c6e_f372, 0x04d2_4d6c, 0x4141_40de, [0x41, 0x41, 0x40, 0xde]);
    Final(0xa54f_f53a, 0xb85e_2ce9, 0x5dae_2223, [0x5d, 0xae, 0x22, 0x23]);
    Final(0x510e_527f, 0x5ef5_0f24, 0xb003_61a3, [0xb0, 0x03, 0x61, 0xa3]);
    Final(0x9b05_688c, 0xfb12_1210, 0x9617_7a9c, [0x96, 0x17, 0x7a, 0x9c]);
    Final(0x1f83_d9ab, 0x948d_25b6, 0xb410_ff61, [0xb4, 0x10, 0xff, 0x61]);
    Final(0x5be0_cd19, 0x961f_4894, 0xf200_15ad, [0xf2, 0x00, 0x15, 0xad]);
  }

  lemma DigestOfBlock(block: Block)
    requires block == AbcBlock()
    ensures Sha256Of(Abc()) == AbcDigest()
  {
    hide WordIs, Before, Value, Add32, ToBigEndian, HashBytes, Compress;
    PaddedAbc();
    OneBlock(block);
    Rounds60(block);
    Compressed(block, 0x506e_3058, 0xd39a_2165, 0x04d2_4d6c, 0xb85e_2ce9,
               0x5ef5_0f24, 0xfb12_1210, 0x948d_25b6, 0x961f_4894);
    DigestWords();
    HashOfEight(Compress(H0, block));
  }

  /** The published digest: ba7816bf 8f01cfea 414140de 5dae2223 b00361a3 96177a9c b410ff61 f20015ad. */
  lemma DigestOfAbc()
    ensures Sha256Of([0x61, 0x62, 0x63]) == AbcDigest()
  {
    DigestOfBlock(AbcBlock());
  }
}
