/** The published outputs of the generator: for the usual seed, and for the key of its
    authors' example. */
module Mt19937Example {
  import opened Words
  import opened MachineWords
  import Machine = Mt19937Machine
  import opened MersenneTwister
  import opened KeySeeding

  // ---------- Counting places ----------

  lemma CountIs(n: Word, d: bv32)
    requires BitSum(d) == n
    ensures Counted(n) == d
  {
    Machine.Constant(d, n);
    ValueAndCounted(d, 0);
  }

  lemma CountOn(i: nat, c: bv32, n: Word, d: bv32)
    requires Counted(i) == c && BitSum(d) == n
    ensures Counted(i + n) == Plus(c, d)
  {
    hide Plus, Counted, BitSum;
    CountIs(n, d);
    CountedPlus(i, n);
  }

  lemma SmallSums()
    ensures BitSum(1) == 1 && BitSum(2) == 2 && BitSum(3) == 3 && BitSum(4) == 4 && BitSum(8) == 8 && BitSum(12) == 12 && BitSum(16) == 16 && BitSum(20) == 20 && BitSum(40) == 40
  {
  }

  /** From place i, which the machine counts as c. */
  lemma Counts(i: nat, c: bv32)
    requires Counted(i) == c
    ensures Counted(i + 1) == Plus(c, 1)
    ensures Counted(i + 2) == Plus(c, 2)
    ensures Counted(i + 3) == Plus(c, 3)
    ensures Counted(i + 4) == Plus(c, 4)
    ensures Counted(i + 8) == Plus(c, 8)
    ensures Counted(i + 12) == Plus(c, 12)
    ensures Counted(i + 16) == Plus(c, 16)
    ensures Counted(i + 20) == Plus(c, 20)
    ensures Counted(i + 40) == Plus(c, 40)
  {
    hide Counted, Plus, BitSum;
    SmallSums();
    CountOn(i, c, 1, 1);
    CountOn(i, c, 2, 2);
    CountOn(i, c, 3, 3);
    CountOn(i, c, 4, 4);
    CountOn(i, c, 8, 8);
    CountOn(i, c, 12, 12);
    CountOn(i, c, 16, 16);
    CountOn(i, c, 20, 20);
    CountOn(i, c, 40, 40);
  }

  // ---------- Seeding with one word, several places at a time ----------

  /** The word behind word c, which is s; then four, twenty and sixty places on. */
  function Seed1(s: bv32, c: bv32): (r: bv32) { Machine.Seed(s, Plus(c, 1)) }

  function Seed4(s: bv32, c: bv32): (r: bv32)
  {
    var s1 := Seed1(s, c);
    var s2 := Seed1(s1, Plus(c, 1));
    var s3 := Seed1(s2, Plus(c, 2));
    Seed1(s3, Plus(c, 3))
  }

  function Seed20(s: bv32, c: bv32): (r: bv32)
  {
    var s1 := Seed4(s, c);
    var s2 := Seed4(s1, Plus(c, 4));
    var s3 := Seed4(s2, Plus(c, 8));
    var s4 := Seed4(s3, Plus(c, 12));
    Seed4(s4, Plus(c, 16))
  }

  function Seed60(s: bv32, c: bv32): (r: bv32)
  {
    var s1 := Seed20(s, c);
    var s2 := Seed20(s1, Plus(c, 20));
    Seed20(s2, Plus(c, 40))
  }

  /** The machine has s in place i. */
  ghost predicate SeedIs(s0: Word, i: nat, s: bv32) { i < N && SeedAt(s0, i) == Value(s) }

  lemma SeedOn1(s0: Word, i: nat, s: bv32, c: bv32)
    requires SeedIs(s0, i, s) && Counted(i) == c && i + 1 < N
    ensures SeedIs(s0, i + 1, Seed1(s, c))
  {
    hide Plus, Counted, Value, BitSum, Machine.Seed;
    SmallSums();
    CountOn(i, c, 1, 1);
    ValueAndCounted(0, i + 1);
    Machine.SeedIsMachine(s, i + 1, Plus(c, 1));
  }

  lemma SeedOn4(s0: Word, i: nat, s: bv32, c: bv32)
    requires SeedIs(s0, i, s) && Counted(i) == c && i + 4 < N
    ensures SeedIs(s0, i + 4, Seed4(s, c))
  {
    hide SeedIs, Seed1, Counted, Plus;
    Counts(i, c);
    SeedOn1(s0, i, s, c);
    var s1 := Seed1(s, c);
    SeedOn1(s0, i + 1, s1, Plus(c, 1));
    var s2 := Seed1(s1, Plus(c, 1));
    SeedOn1(s0, i + 2, s2, Plus(c, 2));
    var s3 := Seed1(s2, Plus(c, 2));
    SeedOn1(s0, i + 3, s3, Plus(c, 3));
  }

  lemma SeedOn20(s0: Word, i: nat, s: bv32, c: bv32)
    requires SeedIs(s0, i, s) && Counted(i) == c && i + 20 < N
    ensures SeedIs(s0, i + 20, Seed20(s, c))
  {
    hide SeedIs, Seed4, Counted, Plus;
    Counts(i, c);
    SeedOn4(s0, i, s, c);
    var s1 := Seed4(s, c);
    SeedOn4(s0, i + 4, s1, Plus(c, 4));
    var s2 := Seed4(s1, Plus(c, 4));
    SeedOn4(s0, i + 8, s2, Plus(c, 8));
    var s3 := Seed4(s2, Plus(c, 8));
    SeedOn4(s0, i + 12, s3, Plus(c, 12));
    var s4 := Seed4(s3, Plus(c, 12));
    SeedOn4(s0, i + 16, s4, Plus(c, 16));
  }

  lemma SeedOn60(s0: Word, i: nat, s: bv32, c: bv32)
    requires SeedIs(s0, i, s) && Counted(i) == c && i + 60 < N
    ensures SeedIs(s0, i + 60, Seed60(s, c))
  {
    hide SeedIs, Seed20, Counted, Plus;
    Counts(i, c);
    SeedOn20(s0, i, s, c);
    var s1 := Seed20(s, c);
    SeedOn20(s0, i + 20, s1, Plus(c, 20));
    var s2 := Seed20(s1, Plus(c, 20));
    SeedOn20(s0, i + 40, s2, Plus(c, 40));
  }

  // ---------- The seed 5489 ----------

  lemma SeedsTo2()
    ensures SeedIs(5489, 0, 0x1571) && SeedIs(5489, 1, 0x4d98_ee96) && SeedIs(5489, 2, 0xaf25_f095)
  {
    Machine.Constant(0x1571, 5489);
    hide SeedIs;
    CountIs(0, 0x0);
    assert Seed1(0x1571, 0x0) == 0x4d98_ee96;
    SeedOn1(5489, 0, 0x1571, 0x0);
    CountIs(1, 0x1);
    assert Seed1(0x4d98_ee96, 0x1) == 0xaf25_f095;
    SeedOn1(5489, 1, 0x4d98_ee96, 0x1);
  }

  lemma SeedsTo60()
    requires SeedIs(5489, 0, 0x1571)
    ensures SeedIs(5489, 60, 0x4fd2_12fc)
  {
    hide SeedIs;
    CountIs(0, 0x0);
    assert Seed60(0x1571, 0x0) == 0x4fd2_12fc;
    SeedOn60(5489, 0, 0x1571, 0x0);
  }

  lemma SeedsTo120()
    requires SeedIs(5489, 60, 0x4fd2_12fc)
    ensures SeedIs(5489, 120, 0x952c_e170)
  {
    hide SeedIs;
    CountIs(60, 0x3c);
    assert Seed60(0x4fd2_12fc, 0x3c) == 0x952c_e170;
    SeedOn60(5489, 60, 0x4fd2_12fc, 0x3c);
  }

  lemma SeedsTo180()
    requires SeedIs(5489, 120, 0x952c_e170)
    ensures SeedIs(5489, 180, 0x8323_8235)
  {
    hide SeedIs;
    CountIs(120, 0x78);
    assert Seed60(0x952c_e170, 0x78) == 0x8323_8235;
    SeedOn60(5489, 120, 0x952c_e170, 0x78);
  }

  lemma SeedsTo240()
    requires SeedIs(5489, 180, 0x8323_8235)
    ensures SeedIs(5489, 240, 0x640a_6776)
  {
    hide SeedIs;
    CountIs(180, 0xb4);
    assert Seed60(0x8323_8235, 0xb4) == 0x640a_6776;
    SeedOn60(5489, 180, 0x8323_8235, 0xb4);
  }

  lemma SeedsTo300()
    requires SeedIs(5489, 240, 0x640a_6776)
    ensures SeedIs(5489, 300, 0x193f_f56c)
  {
    hide SeedIs;
    CountIs(240, 0xf0);
    assert Seed60(0x640a_6776, 0xf0) == 0x193f_f56c;
    SeedOn60(5489, 240, 0x640a_6776, 0xf0);
  }

  lemma SeedsTo360()
    requires SeedIs(5489, 300, 0x193f_f56c)
    ensures SeedIs(5489, 360, 0xfc9e_03a5)
  {
    hide SeedIs;
    CountIs(300, 0x12c);
    assert Seed60(0x193f_f56c, 0x12c) == 0xfc9e_03a5;
    SeedOn60(5489, 300, 0x193f_f56c, 0x12c);
  }

  lemma SeedsTo398()
    requires SeedIs(5489, 360, 0xfc9e_03a5)
    ensures SeedIs(5489, 397, 0xbdc6_8d6c) && SeedIs(5489, 398, 0x6707_abf4)
  {
    hide SeedIs;
    CountIs(360, 0x168);
    assert Seed20(0xfc9e_03a5, 0x168) == 0x3752_c73d;
    SeedOn20(5489, 360, 0xfc9e_03a5, 0x168);
    CountIs(380, 0x17c);
    assert Seed4(0x3752_c73d, 0x17c) == 0xab8c_4fde;
    SeedOn4(5489, 380, 0x3752_c73d, 0x17c);
    CountIs(384, 0x180);
    assert Seed4(0xab8c_4fde, 0x180) == 0x20ec_81d6;
    SeedOn4(5489, 384, 0xab8c_4fde, 0x180);
    CountIs(388, 0x184);
    assert Seed4(0x20ec_81d6, 0x184) == 0x9b48_54bb;
    SeedOn4(5489, 388, 0x20ec_81d6, 0x184);
    CountIs(392, 0x188);
    assert Seed4(0x9b48_54bb, 0x188) == 0x5641_0df2;
    SeedOn4(5489, 392, 0x9b48_54bb, 0x188);
    CountIs(396, 0x18c);
    assert Seed1(0x5641_0df2, 0x18c) == 0xbdc6_8d6c;
    SeedOn1(5489, 396, 0x5641_0df2, 0x18c);
    CountIs(397, 0x18d);
    assert Seed1(0xbdc6_8d6c, 0x18d) == 0x6707_abf4;
    SeedOn1(5489, 397, 0xbdc6_8d6c, 0x18d);
  }

  lemma SomeSeeds()
    ensures SeedIs(5489, 0, 0x1571) && SeedIs(5489, 1, 0x4d98_ee96) && SeedIs(5489, 2, 0xaf25_f095)
    ensures SeedIs(5489, 397, 0xbdc6_8d6c) && SeedIs(5489, 398, 0x6707_abf4)
  {
    hide SeedIs;
    SeedsTo2();
    SeedsTo60();
    SeedsTo120();
    SeedsTo180();
    SeedsTo240();
    SeedsTo300();
    SeedsTo360();
    SeedsTo398();
  }

  // ---------- The first numbers ----------

  /** The number handed out for three words of the sequence, on the machine. */
  lemma OutputIs(init: seq<Word>, n: nat, u: bv32, l: bv32, m: bv32, out: bv32, v: Word)
    requires |init| == N && n + 397 < N
    requires init[n] == Value(u) && init[n + 1] == Value(l) && init[n + 397] == Value(m)
    requires Machine.Temper(Xor(m, Machine.Twist(u, l))) == out && BitSum(out) == v
    ensures Output(init, n) == v
  {
    hide Machine.Temper, Machine.Twist, Temper, Twist, BitSum;
    Recurrence(init, n);
    Machine.TwistIsMachine(u, l);
    XorIsMachine(m, Machine.Twist(u, l));
    Machine.TemperIsMachine(Xor(m, Machine.Twist(u, l)));
    Machine.Constant(out, v);
  }

  /** The first two numbers after seeding with 5489, as published. */
  lemma OutputsOfUsualSeed()
    ensures Output(Seeded(5489), 0) == 3499211612
    ensures Output(Seeded(5489), 1) == 581869302
  {
    hide SeedAt, Output, Value;
    SomeSeeds();
    var init := Seeded(5489);
    OutputIs(init, 0, 0x1571, 0x4d98_ee96, 0xbdc6_8d6c, 0xd091_bb5c, 3499211612);
    OutputIs(init, 1, 0x4d98_ee96, 0xaf25_f095, 0x6707_abf4, 0x22ae_9ef6, 581869302);
  }

  // ---------- The key 0x123, 0x234, 0x345, 0x456 ----------

  function AuthorsKey(): (k: seq<Word>) { [0x123, 0x234, 0x345, 0x456] }

  lemma KeyValues()
    ensures Value(0x123) == 0x123 && Value(0x234) == 0x234 && Value(0x345) == 0x345 && Value(0x456) == 0x456
    ensures Value(0) == 0 && Value(1) == 1 && Value(2) == 2 && Value(3) == 3
  {
    Machine.Constant(0x123, 0x123);
    Machine.Constant(0x234, 0x234);
    Machine.Constant(0x345, 0x345);
    Machine.Constant(0x456, 0x456);
    Machine.Constant(0, 0);
    Machine.Constant(1, 1);
    Machine.Constant(2, 2);
    Machine.Constant(3, 3);
  }

  /** Both passes at once: in place i the machine has s, then k and in the end r, if the
      second pass starts with the word it should. */
  ghost predicate KeyIs(i: nat, s: bv32, k: bv32, r: bv32)
  {
    && 1 <= i < N && SeedAt(KeySeed, i) == Value(s) && MixedAt(AuthorsKey(), i) == Value(k)
    && (MixedAgain(AuthorsKey()) == Value(0x5377_a327) ==> RemixedAt(AuthorsKey(), i) == Value(r))
  }

  lemma KeyOn1(i: nat, s: bv32, k: bv32, r: bv32, c: bv32, e: bv32, j: nat, w: bv32, d: bv32)
    requires KeyIs(i, s, k, r) && Counted(i) == c && Counted(i + 1) == e && i + 1 < N
    requires j == i % 4 && Value(d) == j && Value(w) == AuthorsKey()[j]
    ensures var s1 := Seed1(s, c);
            var k1 := Machine.Key(s1, k, w, d);
            KeyIs(i + 1, s1, k1, Machine.Remix(k1, r, e))
  {
    hide Plus, Counted, Value, BitSum, Machine.Seed, Machine.Key, Machine.Remix, SeedAt, MixedAt, RemixedAt, MixedAgain;
    var s1 := Seed1(s, c);
    var k1 := Machine.Key(s1, k, w, d);
    SeedNext(KeySeed, i, s, c);
    MixedNext(AuthorsKey(), i);
    Machine.KeyIsMachine(s1, k, w, j, d);
    RemixedFurther(AuthorsKey(), i);
    Machine.RemixIsMachine(k1, r, i + 1, e);
  }

  lemma SeedNext(s0: Word, i: nat, s: bv32, c: bv32)
    requires i + 1 < N && SeedAt(s0, i) == Value(s) && Counted(i) == c
    ensures SeedAt(s0, i + 1) == Value(Seed1(s, c)) && Value(Counted(i + 1)) == i + 1
  {
    hide Plus, Counted, Value, BitSum, Machine.Seed;
    SmallSums();
    CountOn(i, c, 1, 1);
    ValueAndCounted(0, i + 1);
    SeedOn1(s0, i, s, c);
  }

  // The steps of both passes, from a place where the second word of the key comes next.

  function Key4(s: bv32, k: bv32, c: bv32): (r: bv32)
  {
    var s1 := Seed1(s, c);
    var k1 := Machine.Key(s1, k, 0x234, 1);
    var s2 := Seed1(s1, Plus(c, 1));
    var k2 := Machine.Key(s2, k1, 0x345, 2);
    var s3 := Seed1(s2, Plus(c, 2));
    var k3 := Machine.Key(s3, k2, 0x456, 3);
    var s4 := Seed1(s3, Plus(c, 3));
    Machine.Key(s4, k3, 0x123, 0)
  }

  function Remix4(s: bv32, k: bv32, r: bv32, c: bv32): (o: bv32)
  {
    var s1 := Seed1(s, c);
    var k1 := Machine.Key(s1, k, 0x234, 1);
    var r1 := Machine.Remix(k1, r, Plus(c, 1));
    var s2 := Seed1(s1, Plus(c, 1));
    var k2 := Machine.Key(s2, k1, 0x345, 2);
    var r2 := Machine.Remix(k2, r1, Plus(c, 2));
    var s3 := Seed1(s2, Plus(c, 2));
    var k3 := Machine.Key(s3, k2, 0x456, 3);
    var r3 := Machine.Remix(k3, r2, Plus(c, 3));
    var s4 := Seed1(s3, Plus(c, 3));
    var k4 := Machine.Key(s4, k3, 0x123, 0);
    Machine.Remix(k4, r3, Plus(c, 4))
  }

  function Key20(s: bv32, k: bv32, c: bv32): (r: bv32)
  {
    var s1 := Seed4(s, c);
    var k1 := Key4(s, k, c);
    var s2 := Seed4(s1, Plus(c, 4));
    var k2 := Key4(s1, k1, Plus(c, 4));
    var s3 := Seed4(s2, Plus(c, 8));
    var k3 := Key4(s2, k2, Plus(c, 8));
    var s4 := Seed4(s3, Plus(c, 12));
    var k4 := Key4(s3, k3, Plus(c, 12));
    Key4(s4, k4, Plus(c, 16))
  }

  function Remix20(s: bv32, k: bv32, r: bv32, c: bv32): (o: bv32)
  {
    var s1 := Seed4(s, c);
    var k1 := Key4(s, k, c);
    var r1 := Remix4(s, k, r, c);
    var s2 := Seed4(s1, Plus(c, 4));
    var k2 := Key4(s1, k1, Plus(c, 4));
    var r2 := Remix4(s1, k1, r1, Plus(c, 4));
    var s3 := Seed4(s2, Plus(c, 8));
    var k3 := Key4(s2, k2, Plus(c, 8));
    var r3 := Remix4(s2, k2, r2, Plus(c, 8));
    var s4 := Seed4(s3, Plus(c, 12));
    var k4 := Key4(s3, k3, Plus(c, 12));
    var r4 := Remix4(s3, k3, r3, Plus(c, 12));
    Remix4(s4, k4, r4, Plus(c, 16))
  }

  lemma KeyOn4(i: nat, s: bv32, k: bv32, r: bv32, c: bv32)
    requires KeyIs(i, s, k, r) && Counted(i) == c && i + 4 < N && i % 4 == 1
    ensures KeyIs(i + 4, Seed4(s, c), Key4(s, k, c), Remix4(s, k, r, c))
  {
    hide KeyIs, Seed1, Machine.Key, Machine.Remix, Counted, Plus, Value;
    KeyValues();
    Counts(i, c);
    KeyOn1(i, s, k, r, c, Plus(c, 1), 1, 0x234, 1);
    var s1 := Seed1(s, c);
    var k1 := Machine.Key(s1, k, 0x234, 1);
    var r1 := Machine.Remix(k1, r, Plus(c, 1));
    KeyOn1(i + 1, s1, k1, r1, Plus(c, 1), Plus(c, 2), 2, 0x345, 2);
    var s2 := Seed1(s1, Plus(c, 1));
    var k2 := Machine.Key(s2, k1, 0x345, 2);
    var r2 := Machine.Remix(k2, r1, Plus(c, 2));
    KeyOn1(i + 2, s2, k2, r2, Plus(c, 2), Plus(c, 3), 3, 0x456, 3);
    var s3 := Seed1(s2, Plus(c, 2));
    var k3 := Machine.Key(s3, k2, 0x456, 3);
    var r3 := Machine.Remix(k3, r2, Plus(c, 3));
    KeyOn1(i + 3, s3, k3, r3, Plus(c, 3), Plus(c, 4), 0, 0x123, 0);
  }

  lemma KeyOn20(i: nat, s: bv32, k: bv32, r: bv32, c: bv32)
    requires KeyIs(i, s, k, r) && Counted(i) == c && i + 20 < N && i % 4 == 1
    ensures KeyIs(i + 20, Seed20(s, c), Key20(s, k, c), Remix20(s, k, r, c))
  {
    hide KeyIs, Seed4, Key4, Remix4, Counted, Plus;
    Counts(i, c);
    KeyOn4(i, s, k, r, c);
    var s1 := Seed4(s, c);
    var k1 := Key4(s, k, c);
    var r1 := Remix4(s, k, r, c);
    KeyOn4(i + 4, s1, k1, r1, Plus(c, 4));
    var s2 := Seed4(s1, Plus(c, 4));
    var k2 := Key4(s1, k1, Plus(c, 4));
    var r2 := Remix4(s1, k1, r1, Plus(c, 4));
    KeyOn4(i + 8, s2, k2, r2, Plus(c, 8));
    var s3 := Seed4(s2, Plus(c, 8));
    var k3 := Key4(s2, k2, Plus(c, 8));
    var r3 := Remix4(s2, k2, r2, Plus(c, 8));
    KeyOn4(i + 12, s3, k3, r3, Plus(c, 12));
    var s4 := Seed4(s3, Plus(c, 12));
    var k4 := Key4(s3, k3, Plus(c, 12));
    var r4 := Remix4(s3, k3, r3, Plus(c, 12));
    KeyOn4(i + 16, s4, k4, r4, Plus(c, 16));
  }

  lemma FirstSeeds()
    ensures SeedAt(KeySeed, 0) == Value(0x012b_d6aa) && SeedAt(KeySeed, 1) == Value(0x82d2_ab13)
  {
    Machine.Constant(0x012b_d6aa, 19650218);
    hide SeedAt;
    CountIs(0, 0);
    assert Seed1(0x012b_d6aa, 0) == 0x82d2_ab13;
    SeedNext(KeySeed, 0, 0x012b_d6aa, 0);
  }

  lemma KeysTo1()
    ensures KeyIs(1, 0x82d2_ab13, 0xff89_0ad4, 0x5377_a327)
  {
    hide SeedAt, Value;
    FirstSeeds();
    KeyValues();
    assert Machine.Key(0x82d2_ab13, 0x012b_d6aa, 0x123, 0) == 0xff89_0ad4;
    Machine.KeyIsMachine(0x82d2_ab13, 0x012b_d6aa, 0x123, 0, 0);
    MixedNext(AuthorsKey(), 0);
    RemixedFirst(AuthorsKey());
  }

  lemma KeysTo21()
    requires KeyIs(1, 0x82d2_ab13, 0xff89_0ad4, 0x5377_a327)
    ensures KeyIs(21, 0x8f13_7150, 0x51da_b651, 0x28e0_6f91)
  {
    hide KeyIs;
    CountIs(1, 0x1);
    assert Seed20(0x82d2_ab13, 0x1) == 0x8f13_7150;
    assert Key20(0x82d2_ab13, 0xff89_0ad4, 0x1) == 0x51da_b651;
    assert Remix20(0x82d2_ab13, 0xff89_0ad4, 0x5377_a327, 0x1) == 0x28e0_6f91;
    KeyOn20(1, 0x82d2_ab13, 0xff89_0ad4, 0x5377_a327, 0x1);
  }

  lemma KeysTo41()
    requires KeyIs(21, 0x8f13_7150, 0x51da_b651, 0x28e0_6f91)
    ensures KeyIs(41, 0x7c7d_a620, 0x6824_27fe, 0x7957_a4ea)
  {
    hide KeyIs;
    CountIs(21, 0x15);
    assert Seed20(0x8f13_7150, 0x15) == 0x7c7d_a620;
    assert Key20(0x8f13_7150, 0x51da_b651, 0x15) == 0x6824_27fe;
    assert Remix20(0x8f13_7150, 0x51da_b651, 0x28e0_6f91, 0x15) == 0x7957_a4ea;
    KeyOn20(21, 0x8f13_7150, 0x51da_b651, 0x28e0_6f91, 0x15);
  }

  lemma KeysTo61()
    requires KeyIs(41, 0x7c7d_a620, 0x6824_27fe, 0x7957_a4ea)
    ensures KeyIs(61, 0xa292_2037, 0x5e5c_27d8, 0x54e7_a753)
  {
    hide KeyIs;
    CountIs(41, 0x29);
    assert Seed20(0x7c7d_a620, 0x29) == 0xa292_2037;
    assert Key20(0x7c7d_a620, 0x6824_27fe, 0x29) == 0x5e5c_27d8;
    assert Remix20(0x7c7d_a620, 0x6824_27fe, 0x7957_a4ea, 0x29) == 0x54e7_a753;
    KeyOn20(41, 0x7c7d_a620, 0x6824_27fe, 0x7957_a4ea, 0x29);
  }

  lemma KeysTo81()
    requires KeyIs(61, 0xa292_2037, 0x5e5c_27d8, 0x54e7_a753)
    ensures KeyIs(81, 0xa96d_5611, 0x92d8_486d, 0x21a3_8380)
  {
    hide KeyIs;
    CountIs(61, 0x3d);
    assert Seed20(0xa292_2037, 0x3d) == 0xa96d_5611;
    assert Key20(0xa292_2037, 0x5e5c_27d8, 0x3d) == 0x92d8_486d;
    assert Remix20(0xa292_2037, 0x5e5c_27d8, 0x54e7_a753, 0x3d) == 0x21a3_8380;
    KeyOn20(61, 0xa292_2037, 0x5e5c_27d8, 0x54e7_a753, 0x3d);
  }

  lemma KeysTo101()
    requires KeyIs(81, 0xa96d_5611, 0x92d8_486d, 0x21a3_8380)
    ensures KeyIs(101, 0x5963_b407, 0x4dc2_22f6, 0xa829_f785)
  {
    hide KeyIs;
    CountIs(81, 0x51);
    assert Seed20(0xa96d_5611, 0x51) == 0x5963_b407;
    assert Key20(0xa96d_5611, 0x92d8_486d, 0x51) == 0x4dc2_22f6;
    assert Remix20(0xa96d_5611, 0x92d8_486d, 0x21a3_8380, 0x51) == 0xa829_f785;
    KeyOn20(81, 0xa96d_5611, 0x92d8_486d, 0x21a3_8380, 0x51);
  }

  lemma KeysTo121()
    requires KeyIs(101, 0x5963_b407, 0x4dc2_22f6, 0xa829_f785)
    ensures KeyIs(121, 0xaed1_d16b, 0x5840_1d3b, 0xaf7d_19e1)
  {
    hide KeyIs;
    CountIs(101, 0x65);
    assert Seed20(0x5963_b407, 0x65) == 0xaed1_d16b;
    assert Key20(0x5963_b407, 0x4dc2_22f6, 0x65) == 0x5840_1d3b;
    assert Remix20(0x5963_b407, 0x4dc2_22f6, 0xa829_f785, 0x65) == 0xaf7d_19e1;
    KeyOn20(101, 0x5963_b407, 0x4dc2_22f6, 0xa829_f785, 0x65);
  }

  lemma KeysTo141()
    requires KeyIs(121, 0xaed1_d16b, 0x5840_1d3b, 0xaf7d_19e1)
    ensures KeyIs(141, 0xc693_d5cb, 0x951d_735f, 0x8145_c4a0)
  {
    hide KeyIs;
    CountIs(121, 0x79);
    assert Seed20(0xaed1_d16b, 0x79) == 0xc693_d5cb;
    assert Key20(0xaed1_d16b, 0x5840_1d3b, 0x79) == 0x951d_735f;
    assert Remix20(0xaed1_d16b, 0x5840_1d3b, 0xaf7d_19e1, 0x79) == 0x8145_c4a0;
    KeyOn20(121, 0xaed1_d16b, 0x5840_1d3b, 0xaf7d_19e1, 0x79);
  }

  lemma KeysTo161()
    requires KeyIs(141, 0xc693_d5cb, 0x951d_735f, 0x8145_c4a0)
    ensures KeyIs(161, 0xa136_d820, 0x6139_b10f, 0xb1bc_ec8b)
  {
    hide KeyIs;
    CountIs(141, 0x8d);
    assert Seed20(0xc693_d5cb, 0x8d) == 0xa136_d820;
    assert Key20(0xc693_d5cb, 0x951d_735f, 0x8d) == 0x6139_b10f;
    assert Remix20(0xc693_d5cb, 0x951d_735f, 0x8145_c4a0, 0x8d) == 0xb1bc_ec8b;
    KeyOn20(141, 0xc693_d5cb, 0x951d_735f, 0x8145_c4a0, 0x8d);
  }

  lemma KeysTo181()
    requires KeyIs(161, 0xa136_d820, 0x6139_b10f, 0xb1bc_ec8b)
    ensures KeyIs(181, 0xdb79_cac7, 0xac07_f8e7, 0x286d_c061)
  {
    hide KeyIs;
    CountIs(161, 0xa1);
    assert Seed20(0xa136_d820, 0xa1) == 0xdb79_cac7;
    assert Key20(0xa136_d820, 0x6139_b10f, 0xa1) == 0xac07_f8e7;
    assert Remix20(0xa136_d820, 0x6139_b10f, 0xb1bc_ec8b, 0xa1) == 0x286d_c061;
    KeyOn20(161, 0xa136_d820, 0x6139_b10f, 0xb1bc_ec8b, 0xa1);
  }

  lemma KeysTo201()
    requires KeyIs(181, 0xdb79_cac7, 0xac07_f8e7, 0x286d_c061)
    ensures KeyIs(201, 0xb758_2b41, 0xa01a_d2c9, 0x8161_10f0)
  {
    hide KeyIs;
    CountIs(181, 0xb5);
    assert Seed20(0xdb79_cac7, 0xb5) == 0xb758_2b41;
    assert Key20(0xdb79_cac7, 0xac07_f8e7, 0xb5) == 0xa01a_d2c9;
    assert Remix20(0xdb79_cac7, 0xac07_f8e7, 0x286d_c061, 0xb5) == 0x8161_10f0;
    KeyOn20(181, 0xdb79_cac7, 0xac07_f8e7, 0x286d_c061, 0xb5);
  }

  lemma KeysTo221()
    requires KeyIs(201, 0xb758_2b41, 0xa01a_d2c9, 0x8161_10f0)
    ensures KeyIs(221, 0x77bb_0673, 0x8fcf_0ffd, 0x6406_1817)
  {
    hide KeyIs;
    CountIs(201, 0xc9);
    assert Seed20(0xb758_2b41, 0xc9) == 0x77bb_0673;
    assert Key20(0xb758_2b41, 0xa01a_d2c9, 0xc9) == 0x8fcf_0ffd;
    assert Remix20(0xb758_2b41, 0xa01a_d2c9, 0x8161_10f0, 0xc9) == 0x6406_1817;
    KeyOn20(201, 0xb758_2b41, 0xa01a_d2c9, 0x8161_10f0, 0xc9);
  }

  lemma KeysTo241()
    requires KeyIs(221, 0x77bb_0673, 0x8fcf_0ffd, 0x6406_1817)
    ensures KeyIs(241, 0x991a_9e89, 0x975d_b47f, 0xe0e2_4bb2)
  {
    hide KeyIs;
    CountIs(221, 0xdd);
    assert Seed20(0x77bb_0673, 0xdd) == 0x991a_9e89;
    assert Key20(0x77bb_0673, 0x8fcf_0ffd, 0xdd) == 0x975d_b47f;
    assert Remix20(0x77bb_0673, 0x8fcf_0ffd, 0x6406_1817, 0xdd) == 0xe0e2_4bb2;
    KeyOn20(221, 0x77bb_0673, 0x8fcf_0ffd, 0x6406_1817, 0xdd);
  }

  lemma KeysTo261()
    requires KeyIs(241, 0x991a_9e89, 0x975d_b47f, 0xe0e2_4bb2)
    ensures KeyIs(261, 0xc0ae_bbc6, 0xea8a_771e, 0xaf89_0a89)
  {
    hide KeyIs;
    CountIs(241, 0xf1);
    assert Seed20(0x991a_9e89, 0xf1) == 0xc0ae_bbc6;
    assert Key20(0x991a_9e89, 0x975d_b47f, 0xf1) == 0xea8a_771e;
    assert Remix20(0x991a_9e89, 0x975d_b47f, 0xe0e2_4bb2, 0xf1) == 0xaf89_0a89;
    KeyOn20(241, 0x991a_9e89, 0x975d_b47f, 0xe0e2_4bb2, 0xf1);
  }

  lemma KeysTo281()
    requires KeyIs(261, 0xc0ae_bbc6, 0xea8a_771e, 0xaf89_0a89)
    ensures KeyIs(281, 0x5a80_8289, 0xdfb9_1e21, 0x349c_ad7a)
  {
    hide KeyIs;
    CountIs(261, 0x105);
    assert Seed20(0xc0ae_bbc6, 0x105) == 0x5a80_8289;
    assert Key20(0xc0ae_bbc6, 0xea8a_771e, 0x105) == 0xdfb9_1e21;
    assert Remix20(0xc0ae_bbc6, 0xea8a_771e, 0xaf89_0a89, 0x105) == 0x349c_ad7a;
    KeyOn20(261, 0xc0ae_bbc6, 0xea8a_771e, 0xaf89_0a89, 0x105);
  }

  lemma KeysTo301()
    requires KeyIs(281, 0x5a80_8289, 0xdfb9_1e21, 0x349c_ad7a)
    ensures KeyIs(301, 0xc11d_b839, 0xf95f_c79f, 0xb6c3_7a84)
  {
    hide KeyIs;
    CountIs(281, 0x119);
    assert Seed20(0x5a80_8289, 0x119) == 0xc11d_b839;
    assert Key20(0x5a80_8289, 0xdfb9_1e21, 0x119) == 0xf95f_c79f;
    assert Remix20(0x5a80_8289, 0xdfb9_1e21, 0x349c_ad7a, 0x119) == 0xb6c3_7a84;
    KeyOn20(281, 0x5a80_8289, 0xdfb9_1e21, 0x349c_ad7a, 0x119);
  }

  lemma KeysTo321()
    requires KeyIs(301, 0xc11d_b839, 0xf95f_c79f, 0xb6c3_7a84)
    ensures KeyIs(321, 0xf39c_cdf4, 0xd442_6b3b, 0x0565_e1e5)
  {
    hide KeyIs;
    CountIs(301, 0x12d);
    assert Seed20(0xc11d_b839, 0x12d) == 0xf39c_cdf4;
    assert Key20(0xc11d_b839, 0xf95f_c79f, 0x12d) == 0xd442_6b3b;
    assert Remix20(0xc11d_b839, 0xf95f_c79f, 0xb6c3_7a84, 0x12d) == 0x0565_e1e5;
    KeyOn20(301, 0xc11d_b839, 0xf95f_c79f, 0xb6c3_7a84, 0x12d);
  }

  lemma KeysTo341()
    requires KeyIs(321, 0xf39c_cdf4, 0xd442_6b3b, 0x0565_e1e5)
    ensures KeyIs(341, 0xd48b_75c1, 0x4fc7_9c7d, 0xf83d_ace6)
  {
    hide KeyIs;
    CountIs(321, 0x141);
    assert Seed20(0xf39c_cdf4, 0x141) == 0xd48b_75c1;
    assert Key20(0xf39c_cdf4, 0xd442_6b3b, 0x141) == 0x4fc7_9c7d;
    assert Remix20(0xf39c_cdf4, 0xd442_6b3b, 0x0565_e1e5, 0x141) == 0xf83d_ace6;
    KeyOn20(321, 0xf39c_cdf4, 0xd442_6b3b, 0x0565_e1e5, 0x141);
  }

  lemma KeysTo361()
    requires KeyIs(341, 0xd48b_75c1, 0x4fc7_9c7d, 0xf83d_ace6)
    ensures KeyIs(361, 0xfaa4_bb3d, 0x4d75_3e76, 0xff8f_6fec)
  {
    hide KeyIs;
    CountIs(341, 0x155);
    assert Seed20(0xd48b_75c1, 0x155) == 0xfaa4_bb3d;
    assert Key20(0xd48b_75c1, 0x4fc7_9c7d, 0x155) == 0x4d75_3e76;
    assert Remix20(0xd48b_75c1, 0x4fc7_9c7d, 0xf83d_ace6, 0x155) == 0xff8f_6fec;
    KeyOn20(341, 0xd48b_75c1, 0x4fc7_9c7d, 0xf83d_ace6, 0x155);
  }

  lemma KeysTo381()
    requires KeyIs(361, 0xfaa4_bb3d, 0x4d75_3e76, 0xff8f_6fec)
    ensures KeyIs(381, 0x7295_a81e, 0x0389_3083, 0xdd18_32e4)
  {
    hide KeyIs;
    CountIs(361, 0x169);
    assert Seed20(0xfaa4_bb3d, 0x169) == 0x7295_a81e;
    assert Key20(0xfaa4_bb3d, 0x4d75_3e76, 0x169) == 0x0389_3083;
    assert Remix20(0xfaa4_bb3d, 0x4d75_3e76, 0xff8f_6fec, 0x169) == 0xdd18_32e4;
    KeyOn20(361, 0xfaa4_bb3d, 0x4d75_3e76, 0xff8f_6fec, 0x169);
  }

  lemma KeysTo397()
    requires KeyIs(381, 0x7295_a81e, 0x0389_3083, 0xdd18_32e4)
    ensures KeyIs(397, 0x5325_02b3, 0xc044_82ac, 0xc91f_59e1)
  {
    hide KeyIs;
    CountIs(381, 0x17d);
    assert Seed4(0x7295_a81e, 0x17d) == 0x79b7_c310;
    assert Key4(0x7295_a81e, 0x0389_3083, 0x17d) == 0xf94b_9608;
    assert Remix4(0x7295_a81e, 0x0389_3083, 0xdd18_32e4, 0x17d) == 0x845a_7e86;
    KeyOn4(381, 0x7295_a81e, 0x0389_3083, 0xdd18_32e4, 0x17d);
    CountIs(385, 0x181);
    assert Seed4(0x79b7_c310, 0x181) == 0xd9b8_0c2c;
    assert Key4(0x79b7_c310, 0xf94b_9608, 0x181) == 0xfb19_64a9;
    assert Remix4(0x79b7_c310, 0xf94b_9608, 0x845a_7e86, 0x181) == 0xe92a_b61d;
    KeyOn4(385, 0x79b7_c310, 0xf94b_9608, 0x845a_7e86, 0x181);
    CountIs(389, 0x185);
    assert Seed4(0xd9b8_0c2c, 0x185) == 0xd927_4f38;
    assert Key4(0xd9b8_0c2c, 0xfb19_64a9, 0x185) == 0x5965_8c24;
    assert Remix4(0xd9b8_0c2c, 0xfb19_64a9, 0xe92a_b61d, 0x185) == 0x3143_ccf4;
    KeyOn4(389, 0xd9b8_0c2c, 0xfb19_64a9, 0xe92a_b61d, 0x185);
    CountIs(393, 0x189);
    assert Seed4(0xd927_4f38, 0x189) == 0x5325_02b3;
    assert Key4(0xd927_4f38, 0x5965_8c24, 0x189) == 0xc044_82ac;
    assert Remix4(0xd927_4f38, 0x5965_8c24, 0x3143_ccf4, 0x189) == 0xc91f_59e1;
    KeyOn4(393, 0xd927_4f38, 0x5965_8c24, 0x3143_ccf4, 0x189);
  }

  lemma KeysTo417()
    requires KeyIs(397, 0x5325_02b3, 0xc044_82ac, 0xc91f_59e1)
    ensures KeyIs(417, 0x5078_b9ad, 0x5f66_6872, 0xf1f9_2ff6)
  {
    hide KeyIs;
    CountIs(397, 0x18d);
    assert Seed20(0x5325_02b3, 0x18d) == 0x5078_b9ad;
    assert Key20(0x5325_02b3, 0xc044_82ac, 0x18d) == 0x5f66_6872;
    assert Remix20(0x5325_02b3, 0xc044_82ac, 0xc91f_59e1, 0x18d) == 0xf1f9_2ff6;
    KeyOn20(397, 0x5325_02b3, 0xc044_82ac, 0xc91f_59e1, 0x18d);
  }

  lemma KeysTo437()
    requires KeyIs(417, 0x5078_b9ad, 0x5f66_6872, 0xf1f9_2ff6)
    ensures KeyIs(437, 0x2e3a_01c0, 0x7941_c00e, 0x374b_6363)
  {
    hide KeyIs;
    CountIs(417, 0x1a1);
    assert Seed20(0x5078_b9ad, 0x1a1) == 0x2e3a_01c0;
    assert Key20(0x5078_b9ad, 0x5f66_6872, 0x1a1) == 0x7941_c00e;
    assert Remix20(0x5078_b9ad, 0x5f66_6872, 0xf1f9_2ff6, 0x1a1) == 0x374b_6363;
    KeyOn20(417, 0x5078_b9ad, 0x5f66_6872, 0xf1f9_2ff6, 0x1a1);
  }

  lemma KeysTo457()
    requires KeyIs(437, 0x2e3a_01c0, 0x7941_c00e, 0x374b_6363)
    ensures KeyIs(457, 0xe559_b4d3, 0x21f8_e5ba, 0xa4d3_008d)
  {
    hide KeyIs;
    CountIs(437, 0x1b5);
    assert Seed20(0x2e3a_01c0, 0x1b5) == 0xe559_b4d3;
    assert Key20(0x2e3a_01c0, 0x7941_c00e, 0x1b5) == 0x21f8_e5ba;
    assert Remix20(0x2e3a_01c0, 0x7941_c00e, 0x374b_6363, 0x1b5) == 0xa4d3_008d;
    KeyOn20(437, 0x2e3a_01c0, 0x7941_c00e, 0x374b_6363, 0x1b5);
  }

  lemma KeysTo477()
    requires KeyIs(457, 0xe559_b4d3, 0x21f8_e5ba, 0xa4d3_008d)
    ensures KeyIs(477, 0xb096_86d6, 0x60cd_e27c, 0xddc2_097f)
  {
    hide KeyIs;
    CountIs(457, 0x1c9);
    assert Seed20(0xe559_b4d3, 0x1c9) == 0xb096_86d6;
    assert Key20(0xe559_b4d3, 0x21f8_e5ba, 0x1c9) == 0x60cd_e27c;
    assert Remix20(0xe559_b4d3, 0x21f8_e5ba, 0xa4d3_008d, 0x1c9) == 0xddc2_097f;
    KeyOn20(457, 0xe559_b4d3, 0x21f8_e5ba, 0xa4d3_008d, 0x1c9);
  }

  lemma KeysTo497()
    requires KeyIs(477, 0xb096_86d6, 0x60cd_e27c, 0xddc2_097f)
    ensures KeyIs(497, 0xbfe3_debe, 0x9b0b_cafe, 0x12df_4dfd)
  {
    hide KeyIs;
    CountIs(477, 0x1dd);
    assert Seed20(0xb096_86d6, 0x1dd) == 0xbfe3_debe;
    assert Key20(0xb096_86d6, 0x60cd_e27c, 0x1dd) == 0x9b0b_cafe;
    assert Remix20(0xb096_86d6, 0x60cd_e27c, 0xddc2_097f, 0x1dd) == 0x12df_4dfd;
    KeyOn20(477, 0xb096_86d6, 0x60cd_e27c, 0xddc2_097f, 0x1dd);
  }

  lemma KeysTo517()
    requires KeyIs(497, 0xbfe3_debe, 0x9b0b_cafe, 0x12df_4dfd)
    ensures KeyIs(517, 0xa182_0312, 0x469a_8936, 0xa757_ee6f)
  {
    hide KeyIs;
    CountIs(497, 0x1f1);
    assert Seed20(0xbfe3_debe, 0x1f1) == 0xa182_0312;
    assert Key20(0xbfe3_debe, 0x9b0b_cafe, 0x1f1) == 0x469a_8936;
    assert Remix20(0xbfe3_debe, 0x9b0b_cafe, 0x12df_4dfd, 0x1f1) == 0xa757_ee6f;
    KeyOn20(497, 0xbfe3_debe, 0x9b0b_cafe, 0x12df_4dfd, 0x1f1);
  }

  lemma KeysTo537()
    requires KeyIs(517, 0xa182_0312, 0x469a_8936, 0xa757_ee6f)
    ensures KeyIs(537, 0xcd5a_d12c, 0x0b15_f273, 0x6c43_492f)
  {
    hide KeyIs;
    CountIs(517, 0x205);
    assert Seed20(0xa182_0312, 0x205) == 0xcd5a_d12c;
    assert Key20(0xa182_0312, 0x469a_8936, 0x205) == 0x0b15_f273;
    assert Remix20(0xa182_0312, 0x469a_8936, 0xa757_ee6f, 0x205) == 0x6c43_492f;
    KeyOn20(517, 0xa182_0312, 0x469a_8936, 0xa757_ee6f, 0x205);
  }

  lemma KeysTo557()
    requires KeyIs(537, 0xcd5a_d12c, 0x0b15_f273, 0x6c43_492f)
    ensures KeyIs(557, 0x885a_e636, 0xb057_e782, 0xc3cf_7130)
  {
    hide KeyIs;
    CountIs(537, 0x219);
    assert Seed20(0xcd5a_d12c, 0x219) == 0x885a_e636;
    assert Key20(0xcd5a_d12c, 0x0b15_f273, 0x219) == 0xb057_e782;
    assert Remix20(0xcd5a_d12c, 0x0b15_f273, 0x6c43_492f, 0x219) == 0xc3cf_7130;
    KeyOn20(537, 0xcd5a_d12c, 0x0b15_f273, 0x6c43_492f, 0x219);
  }

  lemma KeysTo577()
    requires KeyIs(557, 0x885a_e636, 0xb057_e782, 0xc3cf_7130)
    ensures KeyIs(577, 0xffce_7024, 0x504a_e8aa, 0x7d22_a760)
  {
    hide KeyIs;
    CountIs(557, 0x22d);
    assert Seed20(0x885a_e636, 0x22d) == 0xffce_7024;
    assert Key20(0x885a_e636, 0xb057_e782, 0x22d) == 0x504a_e8aa;
    assert Remix20(0x885a_e636, 0xb057_e782, 0xc3cf_7130, 0x22d) == 0x7d22_a760;
    KeyOn20(557, 0x885a_e636, 0xb057_e782, 0xc3cf_7130, 0x22d);
  }

  lemma KeysTo597()
    requires KeyIs(577, 0xffce_7024, 0x504a_e8aa, 0x7d22_a760)
    ensures KeyIs(597, 0x7c03_5bff, 0xe25f_d2b7, 0xb21a_cc70)
  {
    hide KeyIs;
    CountIs(577, 0x241);
    assert Seed20(0xffce_7024, 0x241) == 0x7c03_5bff;
    assert Key20(0xffce_7024, 0x504a_e8aa, 0x241) == 0xe25f_d2b7;
    assert Remix20(0xffce_7024, 0x504a_e8aa, 0x7d22_a760, 0x241) == 0xb21a_cc70;
    KeyOn20(577, 0xffce_7024, 0x504a_e8aa, 0x7d22_a760, 0x241);
  }

  lemma KeysTo617()
    requires KeyIs(597, 0x7c03_5bff, 0xe25f_d2b7, 0xb21a_cc70)
    ensures KeyIs(617, 0x92db_daf3, 0x111e_5904, 0x5a15_71a7)
  {
    hide KeyIs;
    CountIs(597, 0x255);
    assert Seed20(0x7c03_5bff, 0x255) == 0x92db_daf3;
    assert Key20(0x7c03_5bff, 0xe25f_d2b7, 0x255) == 0x111e_5904;
    assert Remix20(0x7c03_5bff, 0xe25f_d2b7, 0xb21a_cc70, 0x255) == 0x5a15_71a7;
    KeyOn20(597, 0x7c03_5bff, 0xe25f_d2b7, 0xb21a_cc70, 0x255);
  }

  lemma KeysTo621()
    requires KeyIs(617, 0x92db_daf3, 0x111e_5904, 0x5a15_71a7)
    ensures KeyIs(621, 0xb94b_6eea, 0x9729_80ae, 0x27d8_3050)
  {
    hide KeyIs;
    CountIs(617, 0x269);
    assert Seed4(0x92db_daf3, 0x269) == 0xb94b_6eea;
    assert Key4(0x92db_daf3, 0x111e_5904, 0x269) == 0x9729_80ae;
    assert Remix4(0x92db_daf3, 0x111e_5904, 0x5a15_71a7, 0x269) == 0x27d8_3050;
    KeyOn4(617, 0x92db_daf3, 0x111e_5904, 0x5a15_71a7, 0x269);
  }

  lemma KeysTo623()
    requires KeyIs(621, 0xb94b_6eea, 0x9729_80ae, 0x27d8_3050)
    ensures KeyIs(623, 0xad29_49e2, 0x0590_e802, 0x049e_d813)
  {
    hide KeyIs;
    KeyValues();
    CountIs(621, 0x26d);
    CountIs(622, 0x26e);
    assert Seed1(0xb94b_6eea, 0x26d) == 0x6174_ebf6;
    assert Machine.Key(0x6174_ebf6, 0x9729_80ae, 0x234, 1) == 0xa658_fd7f;
    assert Machine.Remix(0xa658_fd7f, 0x27d8_3050, 0x26e) == 0x605e_8081;
    KeyOn1(621, 0xb94b_6eea, 0x9729_80ae, 0x27d8_3050, 0x26d, 0x26e, 1, 0x234, 1);
    CountIs(622, 0x26e);
    CountIs(623, 0x26f);
    assert Seed1(0x6174_ebf6, 0x26e) == 0xad29_49e2;
    assert Machine.Key(0xad29_49e2, 0xa658_fd7f, 0x345, 2) == 0x0590_e802;
    assert Machine.Remix(0x0590_e802, 0x605e_8081, 0x26f) == 0x049e_d813;
    KeyOn1(622, 0x6174_ebf6, 0xa658_fd7f, 0x605e_8081, 0x26e, 0x26f, 2, 0x345, 2);
  }

  lemma SomeKeys()
    ensures KeyIs(1, 0x82d2_ab13, 0xff89_0ad4, 0x5377_a327)
    ensures KeyIs(397, 0x5325_02b3, 0xc044_82ac, 0xc91f_59e1)
    ensures KeyIs(623, 0xad29_49e2, 0x0590_e802, 0x049e_d813)
  {
    hide KeyIs;
    KeysTo1();
    KeysTo21();
    KeysTo41();
    KeysTo61();
    KeysTo81();
    KeysTo101();
    KeysTo121();
    KeysTo141();
    KeysTo161();
    KeysTo181();
    KeysTo201();
    KeysTo221();
    KeysTo241();
    KeysTo261();
    KeysTo281();
    KeysTo301();
    KeysTo321();
    KeysTo341();
    KeysTo361();
    KeysTo381();
    KeysTo397();
    KeysTo417();
    KeysTo437();
    KeysTo457();
    KeysTo477();
    KeysTo497();
    KeysTo517();
    KeysTo537();
    KeysTo557();
    KeysTo577();
    KeysTo597();
    KeysTo617();
    KeysTo621();
    KeysTo623();
  }

  /** The first pass ends as supposed. */
  lemma SecondPassStarts()
    ensures MixedAgain(AuthorsKey()) == Value(0x5377_a327)
  {
    hide SeedAt, MixedAt, RemixedAt, Value;
    SomeKeys();
    KeyValues();
    assert Machine.Key(0xff89_0ad4, 0x0590_e802, 0x456, 3) == 0x5377_a327;
    Machine.KeyIsMachine(0xff89_0ad4, 0x0590_e802, 0x456, 3, 3);
  }

  lemma SecondPassEnds()
    ensures RemixWord(MixedAgain(AuthorsKey()), RemixedAt(AuthorsKey(), 623), 1) == Value(0x6cf2_3357)
    ensures RemixedAt(AuthorsKey(), 397) == Value(0xc91f_59e1)
  {
    hide SeedAt, MixedAt, MixedAgain, RemixedAt, Value, RemixWord;
    SecondPassStarts();
    SomeKeys();
    KeyValues();
    assert Machine.Remix(0x5377_a327, 0x049e_d813, 1) == 0x6cf2_3357;
    Machine.RemixIsMachine(0x5377_a327, 0x049e_d813, 1, 1);
  }

  /** The first number after seeding with the key of the authors' example, as published. */
  lemma OutputOfAuthorsKey()
    ensures Output(KeySeeded(AuthorsKey()), 0) == 1067595299
  {
    hide Output, Value, KeySeeded, MixedAgain, RemixedAt, RemixWord;
    var init := KeySeeded(AuthorsKey());
    SecondPassEnds();
    KeySeededAt(AuthorsKey(), 0);
    KeySeededAt(AuthorsKey(), 1);
    KeySeededAt(AuthorsKey(), 397);
    Machine.Masks();
    OutputIs(init, 0, 0x8000_0000, 0x6cf2_3357, 0xc91f_59e1, 0x3fa2_3623, 1067595299);
  }
}
