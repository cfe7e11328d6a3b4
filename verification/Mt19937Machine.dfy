/** The steps of MT19937 on machine words. */
module Mt19937Machine {
  import opened Words
  import opened WordBits
  import opened MachineWords
  import Generator = MersenneTwister

  // ---------- Constants ----------

  lemma Constant(k: bv32, v: Word)
    requires BitSum(k) == v
    ensures Value(k) == v
  {
    ValueIsBitSum(k);
  }

  lemma SeedFactor()
    ensures Value(0x6c07_8965) == 1812433253
  {
    Constant(0x6c07_8965, 1812433253);
  }

  lemma KeyFactor()
    ensures Value(0x0019_660d) == 1664525
  {
    Constant(0x0019_660d, 1664525);
  }

  lemma RemixFactor()
    ensures Value(0x5d58_8b65) == 1566083941
  {
    Constant(0x5d58_8b65, 1566083941);
  }

  // ---------- Seeding ----------

  function Stir(x: bv32): (r: bv32) { x ^ (x >> 30) }

  lemma StirIsMachine(x: bv32)
    ensures Generator.Stir(Value(x)) == Value(Stir(x))
  {
    ShiftsAreMachine(x, 30);
    RightIsFarShift(x);
    XorIsMachine(x, x >> 30);
  }

  /** The word behind the last, in place i. */
  function Seed(last: bv32, i: bv32): (r: bv32) { Plus(Times(0x6c07_8965, last ^ (last >> 30)), i) }

  lemma SeedIsMachine(last: bv32, i: nat, c: bv32)
    requires i < Generator.N && Value(c) == i
    ensures Generator.SeedWord(Value(last), i) == Value(Seed(last, c))
  {
    hide Plus, Times;
    StirIsMachine(last);
    SeedFactor();
    MulIsMachine(0x6c07_8965, Stir(last));
    AddIsMachine(Times(0x6c07_8965, Stir(last)), c);
  }

  function Key(x: bv32, last: bv32, key: bv32, j: bv32): (r: bv32)
  {
    Plus(Plus(x ^ Times(last ^ (last >> 30), 0x0019_660d), key), j)
  }

  lemma KeyIsMachine(x: bv32, last: bv32, key: bv32, j: nat, d: bv32)
    requires j <= 0x7fff_ffff && Value(d) == j
    ensures Generator.KeyWord(Value(x), Value(last), Value(key), j) == Value(Key(x, last, key, d))
  {
    hide Plus, Times;
    StirIsMachine(last);
    KeyFactor();
    var m := Times(Stir(last), 0x0019_660d);
    MulIsMachine(Stir(last), 0x0019_660d);
    XorIsMachine(x, m);
    AddIsMachine(Xor(x, m), key);
    AddIsMachine(Plus(Xor(x, m), key), d);
  }

  function Remix(x: bv32, last: bv32, i: bv32): (r: bv32)
  {
    Minus(x ^ Times(last ^ (last >> 30), 0x5d58_8b65), i)
  }

  lemma RemixIsMachine(x: bv32, last: bv32, i: nat, c: bv32)
    requires i < Generator.N && Value(c) == i
    ensures Generator.RemixWord(Value(x), Value(last), i) == Value(Remix(x, last, c))
  {
    hide Minus, Times;
    StirIsMachine(last);
    RemixFactor();
    var m := Times(Stir(last), 0x5d58_8b65);
    MulIsMachine(Stir(last), 0x5d58_8b65);
    XorIsMachine(x, m);
    SubIsMachine(Xor(x, m), c);
  }

  // ---------- The recurrence ----------

  function Joined(u: bv32, l: bv32): (r: bv32) { Or(And(u, 0x8000_0000), And(l, 0x7fff_ffff)) }

  function Twist(u: bv32, l: bv32): (r: bv32)
  {
    Xor(Joined(u, l) >> 1, if And(Joined(u, l), 1) == 1 then 0x9908_b0df else 0)
  }

  lemma Masks()
    ensures Value(0x8000_0000) == 0x8000_0000 && Value(0x7fff_ffff) == 0x7fff_ffff
    ensures Value(0) == 0 && Value(1) == 1 && Value(0x9908_b0df) == 0x9908_b0df
  {
    Constant(0x8000_0000, 0x8000_0000);
    Constant(0x7fff_ffff, 0x7fff_ffff);
    Constant(0, 0);
    Constant(1, 1);
    Constant(0x9908_b0df, 0x9908_b0df);
  }

  /** Different machine words have different values. */
  lemma SameValue(x: bv32, y: bv32)
    ensures Value(x) == Value(y) ==> x == y
  {
    ValueAndCounted(x, 0);
    ValueAndCounted(y, 0);
  }

  lemma JoinedIsMachine(u: bv32, l: bv32)
    ensures Or32(And32(Value(u), 0x8000_0000), And32(Value(l), 0x7fff_ffff)) == Value(Joined(u, l))
  {
    Masks();
    AndIsMachine(u, 0x8000_0000);
    AndIsMachine(l, 0x7fff_ffff);
    OrIsMachine(And(u, 0x8000_0000), And(l, 0x7fff_ffff));
  }

  lemma TwistIsMachine(u: bv32, l: bv32)
    ensures Generator.Twist(Value(u), Value(l)) == Value(Twist(u, l))
  {
    var y := Joined(u, l);
    Masks();
    JoinedIsMachine(u, l);
    ShiftsAreMachine(y, 1);
    RightIsShift(y);
    AndIsMachine(y, 1);
    SameValue(And(y, 1), 1);
    XorIsMachine(y >> 1, if And(y, 1) == 1 then 0x9908_b0df else 0);
  }

  // ---------- Tempering ----------

  function Mixed11(x: bv32): (r: bv32) { Xor(x, x >> 11) }

  function Mixed7(x: bv32): (r: bv32) { Xor(x, And(x << 7, 0x9d2c_5680)) }

  function Mixed15(x: bv32): (r: bv32) { Xor(x, And(x << 15, 0xefc6_0000)) }

  function Mixed18(x: bv32): (r: bv32) { Xor(x, x >> 18) }

  function Temper(x: bv32): (r: bv32) { Mixed18(Mixed15(Mixed7(Mixed11(x)))) }

  lemma Mixed11IsMachine(x: bv32)
    ensures MixRight(Value(x), 11) == Value(Mixed11(x))
  {
    RightIsShift(x);
    ShiftsAreMachine(x, 11);
    XorIsMachine(x, x >> 11);
  }

  lemma Mixed18IsMachine(x: bv32)
    ensures MixRight(Value(x), 18) == Value(Mixed18(x))
  {
    RightIsShift(x);
    ShiftsAreMachine(x, 18);
    XorIsMachine(x, x >> 18);
  }

  lemma TemperMasks()
    ensures Value(0x9d2c_5680) == 0x9d2c_5680 && Value(0xefc6_0000) == 0xefc6_0000
  {
    Constant(0x9d2c_5680, 0x9d2c_5680);
    Constant(0xefc6_0000, 0xefc6_0000);
  }

  lemma Mixed7IsMachine(x: bv32)
    ensures MixLeft(Value(x), 7, 0x9d2c_5680) == Value(Mixed7(x))
  {
    TemperMasks();
    LeftIsShift(x);
    ShiftsAreMachine(x, 7);
    AndIsMachine(x << 7, 0x9d2c_5680);
    XorIsMachine(x, And(x << 7, 0x9d2c_5680));
  }

  lemma Mixed15IsMachine(x: bv32)
    ensures MixLeft(Value(x), 15, 0xefc6_0000) == Value(Mixed15(x))
  {
    TemperMasks();
    LeftIsShift(x);
    ShiftsAreMachine(x, 15);
    AndIsMachine(x << 15, 0xefc6_0000);
    XorIsMachine(x, And(x << 15, 0xefc6_0000));
  }

  lemma TemperIsMachine(x: bv32)
    ensures Generator.Temper(Value(x)) == Value(Temper(x))
  {
    hide Mixed11, Mixed7, Mixed15, Mixed18, Value;
    Mixed11IsMachine(x);
    Mixed7IsMachine(Mixed11(x));
    Mixed15IsMachine(Mixed7(Mixed11(x)));
    Mixed18IsMachine(Mixed15(Mixed7(Mixed11(x))));
  }
}
