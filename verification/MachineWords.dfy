/** Words as numbers against words as a machine has them, 32 bits wide: every operation
    on the one is the machine's operation on the other. */
module MachineWords {
  import opened Bytes
  import opened Arithmetic
  import opened Words

  // ---------- The machine's operations ----------

  function Next(x: bv32): (r: bv32) { x + 1 }
  function Plus(x: bv32, y: bv32): (r: bv32) { x + y }
  function Times(x: bv32, y: bv32): (r: bv32) { x * y }
  function Xor(x: bv32, y: bv32): (r: bv32) { x ^ y }
  function And(x: bv32, y: bv32): (r: bv32) { x & y }
  function Or(x: bv32, y: bv32): (r: bv32) { x | y }
  function Half(x: bv32): (r: bv32) { x >> 1 }
  function Low(x: bv32): (b: bool) { x & 1 == 1 }

  /** Twice x, and one if b; the highest bit is lost. */
  function Twice(x: bv32, b: bool): (r: bv32) { if b then x + x + 1 else x + x }

  lemma NextIs(x: bv32) ensures Next(x) == x + 1 {}
  lemma PlusIs(x: bv32, y: bv32) ensures Plus(x, y) == x + y {}
  lemma TimesIs(x: bv32, y: bv32) ensures Times(x, y) == x * y {}
  lemma TwiceIs(x: bv32, b: bool) ensures Twice(x, b) == if b then x + x + 1 else x + x {}

  lemma PlusNext(x: bv32, y: bv32)
    ensures Plus(x, Next(y)) == Next(Plus(x, y))
  {
    NextIs(y);
    PlusIs(x, y);
    PlusIs(x, y + 1);
    NextIs(x + y);
  }

  lemma TimesNext(x: bv32, y: bv32)
    ensures Times(x, Next(y)) == Plus(Times(x, y), x)
  {
    NextIs(y);
    TimesIs(x, y);
    TimesIs(x, y + 1);
    PlusIs(x * y, x);
  }

  lemma WithZero(x: bv32)
    ensures Plus(x, 0) == x && Times(x, 0) == 0
  {
  }

  lemma TwiceIsPlus(x: bv32, b: bool)
    ensures Twice(x, b) == if b then Next(Plus(x, x)) else Plus(x, x)
  {
    PlusIs(x, x);
    NextIs(x + x);
    TwiceIs(x, b);
  }

  lemma TwoHalves(x: bv32)
    ensures x == Twice(Half(x), Low(x))
  {
  }

  lemma HalfOfTwice(x: bv32, b: bool)
    ensures Low(Twice(x, b)) == b
    ensures x & 0x8000_0000 == 0 ==> Half(Twice(x, b)) == x
  {
  }

  lemma HalfOfXor(x: bv32, y: bv32)
    ensures Half(Xor(x, y)) == Xor(Half(x), Half(y)) && Low(Xor(x, y)) == (Low(x) != Low(y))
  {
  }

  lemma HalfOfAnd(x: bv32, y: bv32)
    ensures Half(And(x, y)) == And(Half(x), Half(y)) && Low(And(x, y)) == (Low(x) && Low(y))
  {
  }

  lemma HalfOfOr(x: bv32, y: bv32)
    ensures Half(Or(x, y)) == Or(Half(x), Half(y)) && Low(Or(x, y)) == (Low(x) || Low(y))
  {
  }

  // ---------- From numbers to machine words: by counting ----------

  /** The machine word reached by counting to n. */
  function Counted(n: nat): (x: bv32)
  {
    if n == 0 then 0 else Next(Counted(n - 1))
  }

  lemma {:induction false} CountedPlus(m: nat, n: nat)
    ensures Counted(m + n) == Plus(Counted(m), Counted(n))
    decreases n
  {
    if n == 0 {
      WithZero(Counted(m));
    } else {
      CountedPlus(m, n - 1);
      PlusNext(Counted(m), Counted(n - 1));
    }
  }

  lemma {:induction false} CountedTimes(m: nat, n: nat)
    ensures Counted(m * n) == Times(Counted(m), Counted(n))
    decreases n
  {
    if n == 0 {
      WithZero(Counted(m));
    } else {
      CountedTimes(m, n - 1);
      CountedPlus(m * (n - 1), m);
      assert m * (n - 1) + m == m * n;
      TimesNext(Counted(m), Counted(n - 1));
    }
  }

  lemma CountedTwice(h: nat, b: bool)
    ensures Counted(2 * h + if b then 1 else 0) == Twice(Counted(h), b)
  {
    CountedPlus(h, h);
    TwiceIsPlus(Counted(h), b);
    assert h + h == 2 * h;
  }

  // ---------- And back ----------

  /** The number that the lowest n bits stand for. */
  function Number(x: bv32, n: nat): (r: nat)
    decreases n, x
  {
    if n == 0 then 0 else (if Low(x) then 1 else 0) + 2 * Number(Half(x), n - 1)
  }

  lemma {:induction false} NumberBound(x: bv32, n: nat)
    ensures Number(x, n) < Pow2(n)
    decreases n
  {
    if n > 0 {
      NumberBound(Half(x), n - 1);
    }
  }

  /** The number a machine word stands for. */
  function Value(x: bv32): (w: Word)
  {
    WordRange();
    NumberBound(x, 32);
    Number(x, 32)
  }

  /** Only the lowest n bits may be ones. */
  predicate Short(x: bv32, n: nat)
    decreases n, x
  {
    if n == 0 then x == 0 else Short(Half(x), n - 1)
  }

  lemma {:induction false} NumberCounted(x: bv32, n: nat)
    requires Short(x, n)
    ensures Counted(Number(x, n)) == x
    decreases n
  {
    if n > 0 {
      NumberCounted(Half(x), n - 1);
      CountedTwice(Number(Half(x), n - 1), Low(x));
      TwoHalves(x);
    }
  }

  lemma NumberInParts(x: bv32, n: nat)
    requires n > 0
    ensures Number(x, n) == (if Low(x) then 1 else 0) + 2 * Number(Half(x), n - 1)
  {
  }

  lemma Halves(a: nat, h: nat, b: bool)
    requires a == (if b then 1 else 0) + 2 * h
    ensures a / 2 == h && (a % 2 == 1 <==> b)
  {
  }

  lemma XorInParts(a: nat, h: nat, b: bool, a': nat, h': nat, b': bool, n: nat)
    requires n > 0 && a == (if b then 1 else 0) + 2 * h && a' == (if b' then 1 else 0) + 2 * h'
    ensures XorBits(a, a', n) == (if b != b' then 1 else 0) + 2 * XorBits(h, h', n - 1)
  {
    Halves(a, h, b);
    Halves(a', h', b');
  }

  lemma AndInParts(a: nat, h: nat, b: bool, a': nat, h': nat, b': bool, n: nat)
    requires n > 0 && a == (if b then 1 else 0) + 2 * h && a' == (if b' then 1 else 0) + 2 * h'
    ensures AndBits(a, a', n) == (if b && b' then 1 else 0) + 2 * AndBits(h, h', n - 1)
  {
    Halves(a, h, b);
    Halves(a', h', b');
  }

  lemma OrInParts(a: nat, h: nat, b: bool, a': nat, h': nat, b': bool, n: nat)
    requires n > 0 && a == (if b then 1 else 0) + 2 * h && a' == (if b' then 1 else 0) + 2 * h'
    ensures OrBits(a, a', n) == (if b || b' then 1 else 0) + 2 * OrBits(h, h', n - 1)
  {
    Halves(a, h, b);
    Halves(a', h', b');
  }

  lemma {:induction false} XorNumbers(x: bv32, y: bv32, n: nat)
    ensures XorBits(Number(x, n), Number(y, n), n) == Number(Xor(x, y), n)
    decreases n
  {
    if n > 0 {
      XorNumbers(Half(x), Half(y), n - 1);
      HalfOfXor(x, y);
      NumberInParts(x, n);
      NumberInParts(y, n);
      NumberInParts(Xor(x, y), n);
      XorInParts(Number(x, n), Number(Half(x), n - 1), Low(x), Number(y, n), Number(Half(y), n - 1), Low(y), n);
    }
  }

  lemma {:induction false} AndNumbers(x: bv32, y: bv32, n: nat)
    ensures AndBits(Number(x, n), Number(y, n), n) == Number(And(x, y), n)
    decreases n
  {
    if n > 0 {
      AndNumbers(Half(x), Half(y), n - 1);
      HalfOfAnd(x, y);
      NumberInParts(x, n);
      NumberInParts(y, n);
      NumberInParts(And(x, y), n);
      AndInParts(Number(x, n), Number(Half(x), n - 1), Low(x), Number(y, n), Number(Half(y), n - 1), Low(y), n);
    }
  }

  lemma {:induction false} OrNumbers(x: bv32, y: bv32, n: nat)
    ensures OrBits(Number(x, n), Number(y, n), n) == Number(Or(x, y), n)
    decreases n
  {
    if n > 0 {
      OrNumbers(Half(x), Half(y), n - 1);
      HalfOfOr(x, y);
      NumberInParts(x, n);
      NumberInParts(y, n);
      NumberInParts(Or(x, y), n);
      OrInParts(Number(x, n), Number(Half(x), n - 1), Low(x), Number(y, n), Number(Half(y), n - 1), Low(y), n);
    }
  }

  lemma ValueIs(x: bv32)
    ensures Value(x) == Number(x, 32)
  {
  }

  lemma BitsOf32(a: Word, b: Word)
    ensures Xor32(a, b) == XorBits(a, b, 32)
    ensures And32(a, b) == AndBits(a, b, 32)
    ensures Or32(a, b) == OrBits(a, b, 32)
  {
  }

  lemma XorIsMachine(x: bv32, y: bv32)
    ensures Xor32(Value(x), Value(y)) == Value(Xor(x, y))
  {
    BitsOf32(Value(x), Value(y));
    ValueIs(x);
    ValueIs(y);
    ValueIs(Xor(x, y));
    XorNumbers(x, y, 32);
  }

  lemma AndIsMachine(x: bv32, y: bv32)
    ensures And32(Value(x), Value(y)) == Value(And(x, y))
  {
    BitsOf32(Value(x), Value(y));
    ValueIs(x);
    ValueIs(y);
    ValueIs(And(x, y));
    AndNumbers(x, y, 32);
  }

  lemma OrIsMachine(x: bv32, y: bv32)
    ensures Or32(Value(x), Value(y)) == Value(Or(x, y))
  {
    BitsOf32(Value(x), Value(y));
    ValueIs(x);
    ValueIs(y);
    ValueIs(Or(x, y));
    OrNumbers(x, y, 32);
  }

  // ---------- Numbers and machine words determine each other ----------

  function EightHalves(x: bv32): (r: bv32) { x >> 8 }

  lemma HalvesAre(x: bv32)
    ensures Half(Half(Half(Half(Half(Half(Half(Half(x)))))))) == EightHalves(x)
  {
  }

  lemma ByteAside(x: bv32, n: nat)
    ensures Short(x, n + 8) == Short(EightHalves(x), n)
  {
    HalvesAre(x);
    var h := Half(x);
    var h2 := Half(h);
    var h3 := Half(h2);
    var h4 := Half(h3);
    var h5 := Half(h4);
    var h6 := Half(h5);
    var h7 := Half(h6);
    assert Short(x, n + 8) == Short(h, n + 7) == Short(h2, n + 6) == Short(h3, n + 5) == Short(h4, n + 4);
    assert Short(h4, n + 4) == Short(h5, n + 3) == Short(h6, n + 2) == Short(h7, n + 1) == Short(Half(h7), n);
  }

  lemma NothingAboveFour(x: bv32)
    ensures EightHalves(EightHalves(EightHalves(EightHalves(x)))) == 0
    ensures EightHalves(EightHalves(EightHalves(x))) & 0xffff_ff00 == 0
  {
  }

  lemma AllAreShort(x: bv32)
    ensures Short(x, 32)
  {
    NothingAboveFour(x);
    var a := EightHalves(x);
    var b := EightHalves(a);
    var c := EightHalves(b);
    ByteAside(x, 24);
    ByteAside(a, 16);
    ByteAside(b, 8);
    ByteAside(c, 0);
  }

  lemma HalfOfZero()
    ensures Half(0) == 0
  {
  }

  lemma {:induction false} ShortFurther(x: bv32, n: nat)
    requires Short(x, n)
    ensures Short(x, n + 1)
    decreases n
  {
    if n == 0 {
      HalfOfZero();
      assert Short(Half(x), 0);
    } else {
      ShortFurther(Half(x), n - 1);
    }
  }

  lemma {:induction false} ShortUpTo(x: bv32, n: nat, m: nat)
    requires Short(x, n) && n <= m
    ensures Short(x, m)
    decreases m - n
  {
    if n < m {
      ShortFurther(x, n);
      ShortUpTo(x, n + 1, m);
    }
  }

  lemma TopBit(x: bv32)
    ensures var y := EightHalves(EightHalves(EightHalves(x)));
            Half(Half(Half(Half(Half(Half(Half(y))))))) == 0 ==> x & 0x8000_0000 == 0
  {
  }

  lemma ShortHasNoTopBit(x: bv32)
    requires Short(x, 31)
    ensures x & 0x8000_0000 == 0
  {
    var a := EightHalves(x);
    var b := EightHalves(a);
    var c := EightHalves(b);
    ByteAside(x, 23);
    ByteAside(a, 15);
    ByteAside(b, 7);
    var h := Half(c);
    var h2 := Half(h);
    var h3 := Half(h2);
    var h4 := Half(h3);
    var h5 := Half(h4);
    var h6 := Half(h5);
    assert Short(c, 7) == Short(h, 6) == Short(h2, 5) == Short(h3, 4) == Short(h4, 3) == Short(h5, 2);
    assert Short(h5, 2) == Short(h6, 1) == Short(Half(h6), 0);
    TopBit(x);
  }

  lemma {:induction false} CountedBack(k: nat, n: nat)
    requires k < Pow2(n) && n <= 32
    ensures Number(Counted(k), n) == k && Short(Counted(k), n)
    decreases n
  {
    if n > 0 {
      var h, b := k / 2, k % 2 == 1;
      CountedBack(h, n - 1);
      ShortUpTo(Counted(h), n - 1, 31);
      ShortHasNoTopBit(Counted(h));
      HalfOfTwice(Counted(h), b);
      CountedTwice(h, b);
      assert k == 2 * h + if b then 1 else 0;
      NumberInParts(Counted(k), n);
    }
  }

  /** Counting to a word's value gives the machine word, and the machine word of a number
      below 2^32 has that value. */
  lemma ValueAndCounted(x: bv32, k: Word)
    ensures Counted(Value(x)) == x
    ensures Value(Counted(k)) == k
  {
    WordRange();
    AllAreShort(x);
    ValueIs(x);
    NumberCounted(x, 32);
    CountedBack(k, 32);
    ValueIs(Counted(k));
  }

  function ByteUp(x: bv32): (r: bv32) { x << 8 }

  lemma DoubledEightTimes(x: bv32)
    ensures var f := (y: bv32) => Twice(y, false);
            f(f(f(f(f(f(f(f(x)))))))) == ByteUp(x)
  {
  }

  lemma PowerDoubled(n: nat)
    ensures Counted(Pow2(n + 1)) == Twice(Counted(Pow2(n)), false)
  {
    CountedTwice(Pow2(n), false);
  }

  lemma CountedByteUp(n: nat)
    ensures Counted(Pow2(n + 8)) == ByteUp(Counted(Pow2(n)))
  {
    PowerDoubled(n);
    PowerDoubled(n + 1);
    PowerDoubled(n + 2);
    PowerDoubled(n + 3);
    PowerDoubled(n + 4);
    PowerDoubled(n + 5);
    PowerDoubled(n + 6);
    PowerDoubled(n + 7);
    DoubledEightTimes(Counted(Pow2(n)));
  }

  lemma NothingIsLeft(x: bv32)
    ensures ByteUp(ByteUp(ByteUp(ByteUp(x)))) == 0
  {
  }

  /** Counting comes round after 2^32. */
  lemma CountedRound(n: nat)
    ensures Counted(Pow2(n + 32)) == 0
  {
    CountedByteUp(n);
    CountedByteUp(n + 8);
    CountedByteUp(n + 16);
    CountedByteUp(n + 24);
    NothingIsLeft(Counted(Pow2(n)));
  }

  lemma CountedAll(p: nat)
    requires p == WordCount
    ensures Counted(p) == 0
  {
    CountedRound(0);
    WordRange();
  }

  lemma CountedRemainder(k: nat)
    ensures Counted(k) == Counted(k % 0x1_0000_0000)
    ensures Value(Counted(k)) == k % 0x1_0000_0000
  {
    var q, r := k / 0x1_0000_0000, k % 0x1_0000_0000;
    var p := WordCount;
    assert k == q * p + r;
    CountedAll(p);
    CountedTimes(q, p);
    WithZero(Counted(q));
    CountedPlus(r, q * p);
    WithZero(Counted(r));
    assert r + q * p == k;
    ValueAndCounted(0, r);
  }

  // ---------- The model's operations are the machine's ----------

  lemma AddIsMachine(x: bv32, y: bv32)
    ensures Add32(Value(x), Value(y)) == Value(Plus(x, y))
  {
    var k: nat := Value(x) + Value(y);
    ValueAndCounted(x, 0);
    ValueAndCounted(y, 0);
    CountedPlus(Value(x), Value(y));
    CountedRemainder(k);
  }

  function Minus(x: bv32, y: bv32): (r: bv32) { x - y }

  lemma MinusUndone(x: bv32, y: bv32)
    ensures Plus(x - y, y) == x
  {
  }

  lemma SubIsMachine(x: bv32, y: bv32)
    ensures Sub32(Value(x), Value(y)) == Value(Minus(x, y))
  {
    hide Plus;
    MinusUndone(x, y);
    AddIsMachine(x - y, y);
  }

  lemma MulIsMachine(x: bv32, y: bv32)
    ensures Mul32(Value(x), Value(y)) == Value(Times(x, y))
  {
    ValueAndCounted(x, 0);
    ValueAndCounted(y, 0);
    CountedTimes(Value(x), Value(y));
    CountedRemainder(Value(x) * Value(y));
  }

  lemma HalfRange(h: nat)
    requires 2 * h < WordCount
    ensures h < Pow2(31)
  {
    WordRange();
    assert Pow2(32) == 2 * Pow2(31);
  }

  lemma HalfOfCounted(h: nat, b: bool)
    requires 2 * h < WordCount
    ensures Half(Counted(2 * h + if b then 1 else 0)) == Counted(h)
  {
    HalfRange(h);
    CountedBack(h, 31);
    ShortHasNoTopBit(Counted(h));
    HalfOfTwice(Counted(h), b);
    CountedTwice(h, b);
  }

  lemma HalfOfValue(x: bv32, v: nat)
    requires Counted(v) == x && v < WordCount
    ensures Half(x) == Counted(v / 2)
  {
    HalfOfCounted(v / 2, v % 2 == 1);
  }

  lemma HalfIsMachine(x: bv32)
    ensures Value(x) / 2 == Value(Half(x))
  {
    var v := Value(x);
    ValueAndCounted(x, v / 2);
    HalfOfValue(x, v);
  }

  function Double(x: bv32): (r: bv32) { x << 1 }

  lemma DoubleIsPlus(x: bv32)
    ensures Double(x) == Plus(x, x)
  {
  }

  lemma DoubleIsMachine(x: bv32)
    ensures (2 * Value(x)) % 0x1_0000_0000 == Value(Double(x))
  {
    AddIsMachine(x, x);
    DoubleIsPlus(x);
  }

  /** Shifted right by n places, one after the other. */
  function Right(x: bv32, n: nat): (r: bv32)
    decreases n, x
  {
    if n == 0 then x else Right(Half(x), n - 1)
  }

  function Left(x: bv32, n: nat): (r: bv32)
    decreases n, x
  {
    if n == 0 then x else Left(Double(x), n - 1)
  }

  lemma {:induction false} ShiftsAreMachine(x: bv32, n: nat)
    ensures ShiftRight(Value(x), n) == Value(Right(x, n))
    ensures ShiftLeft(Value(x), n) == Value(Left(x, n))
    decreases n
  {
    if n > 0 {
      HalfIsMachine(x);
      DoubleIsMachine(x);
      ShiftsAreMachine(Half(x), n - 1);
      ShiftsAreMachine(Double(x), n - 1);
    }
  }

  lemma {:induction false} OnePlaceMore(x: bv32, n: nat)
    ensures Right(x, n + 1) == Half(Right(x, n))
    ensures Left(x, n + 1) == Double(Left(x, n))
    decreases n
  {
    if n > 0 {
      OnePlaceMore(Half(x), n - 1);
      OnePlaceMore(Double(x), n - 1);
    }
  }

  lemma PlacesRight(x: bv32)
    ensures Half(x >> 0) == x >> 1 && Half(x >> 1) == x >> 2 && Half(x >> 2) == x >> 3 && Half(x >> 3) == x >> 4
    ensures Half(x >> 4) == x >> 5 && Half(x >> 5) == x >> 6 && Half(x >> 6) == x >> 7 && Half(x >> 7) == x >> 8
    ensures Half(x >> 8) == x >> 9 && Half(x >> 9) == x >> 10 && Half(x >> 10) == x >> 11 && Half(x >> 11) == x >> 12
    ensures Half(x >> 12) == x >> 13 && Half(x >> 13) == x >> 14 && Half(x >> 14) == x >> 15 && Half(x >> 15) == x >> 16
    ensures Half(x >> 16) == x >> 17 && Half(x >> 17) == x >> 18 && Half(x >> 18) == x >> 19 && Half(x >> 19) == x >> 20
    ensures Half(x >> 20) == x >> 21 && Half(x >> 21) == x >> 22 && Half(x >> 22) == x >> 23 && Half(x >> 23) == x >> 24
    ensures Half(x >> 24) == x >> 25
  {
  }

  lemma PlacesLeft(x: bv32)
    ensures Double(x << 0) == x << 1 && Double(x << 1) == x << 2 && Double(x << 2) == x << 3 && Double(x << 3) == x << 4
    ensures Double(x << 4) == x << 5 && Double(x << 5) == x << 6 && Double(x << 6) == x << 7 && Double(x << 7) == x << 8
    ensures Double(x << 8) == x << 9 && Double(x << 9) == x << 10 && Double(x << 10) == x << 11 && Double(x << 11) == x << 12
    ensures Double(x << 12) == x << 13 && Double(x << 13) == x << 14 && Double(x << 14) == x << 15 && Double(x << 15) == x << 16
    ensures Double(x << 16) == x << 17 && Double(x << 17) == x << 18 && Double(x << 18) == x << 19 && Double(x << 19) == x << 20
    ensures Double(x << 20) == x << 21 && Double(x << 21) == x << 22 && Double(x << 22) == x << 23 && Double(x << 23) == x << 24
    ensures Double(x << 24) == x << 25 && Double(x << 25) == x << 26 && Double(x << 26) == x << 27 && Double(x << 27) == x << 28
    ensures Double(x << 28) == x << 29 && Double(x << 29) == x << 30
  {
  }

  /** A shift by a fixed number of places is that many shifts by one. */
  lemma RightIsShift(x: bv32)
    ensures Right(x, 1) == x >> 1 && Right(x, 2) == x >> 2 && Right(x, 3) == x >> 3 && Right(x, 4) == x >> 4 && Right(x, 5) == x >> 5
    ensures Right(x, 6) == x >> 6 && Right(x, 7) == x >> 7 && Right(x, 8) == x >> 8 && Right(x, 9) == x >> 9 && Right(x, 10) == x >> 10
    ensures Right(x, 11) == x >> 11 && Right(x, 12) == x >> 12 && Right(x, 13) == x >> 13 && Right(x, 14) == x >> 14 && Right(x, 15) == x >> 15
    ensures Right(x, 16) == x >> 16 && Right(x, 17) == x >> 17 && Right(x, 18) == x >> 18 && Right(x, 19) == x >> 19 && Right(x, 20) == x >> 20
    ensures Right(x, 21) == x >> 21 && Right(x, 22) == x >> 22 && Right(x, 23) == x >> 23 && Right(x, 24) == x >> 24 && Right(x, 25) == x >> 25
  {
    PlacesRight(x);
    OnePlaceMore(x, 0); OnePlaceMore(x, 1); OnePlaceMore(x, 2); OnePlaceMore(x, 3); OnePlaceMore(x, 4);
    OnePlaceMore(x, 5); OnePlaceMore(x, 6); OnePlaceMore(x, 7); OnePlaceMore(x, 8); OnePlaceMore(x, 9);
    OnePlaceMore(x, 10); OnePlaceMore(x, 11); OnePlaceMore(x, 12); OnePlaceMore(x, 13); OnePlaceMore(x, 14);
    OnePlaceMore(x, 15); OnePlaceMore(x, 16); OnePlaceMore(x, 17); OnePlaceMore(x, 18); OnePlaceMore(x, 19);
    OnePlaceMore(x, 20); OnePlaceMore(x, 21); OnePlaceMore(x, 22); OnePlaceMore(x, 23); OnePlaceMore(x, 24);
  }

  lemma RightIsFarShift(x: bv32)
    ensures Right(x, 26) == x >> 26 && Right(x, 27) == x >> 27 && Right(x, 28) == x >> 28
    ensures Right(x, 29) == x >> 29 && Right(x, 30) == x >> 30
  {
    RightIsShift(x);
    PlacesFarRight(x);
    OnePlaceMore(x, 25); OnePlaceMore(x, 26); OnePlaceMore(x, 27); OnePlaceMore(x, 28); OnePlaceMore(x, 29);
  }

  lemma PlacesFarRight(x: bv32)
    ensures Half(x >> 25) == x >> 26 && Half(x >> 26) == x >> 27 && Half(x >> 27) == x >> 28
    ensures Half(x >> 28) == x >> 29 && Half(x >> 29) == x >> 30
  {
  }

  lemma LeftIsShift(x: bv32)
    ensures Left(x, 1) == x << 1 && Left(x, 2) == x << 2 && Left(x, 3) == x << 3 && Left(x, 4) == x << 4 && Left(x, 5) == x << 5
    ensures Left(x, 6) == x << 6 && Left(x, 7) == x << 7 && Left(x, 8) == x << 8 && Left(x, 9) == x << 9 && Left(x, 10) == x << 10
    ensures Left(x, 11) == x << 11 && Left(x, 12) == x << 12 && Left(x, 13) == x << 13 && Left(x, 14) == x << 14 && Left(x, 15) == x << 15
  {
    PlacesLeft(x);
    OnePlaceMore(x, 0); OnePlaceMore(x, 1); OnePlaceMore(x, 2); OnePlaceMore(x, 3); OnePlaceMore(x, 4);
    OnePlaceMore(x, 5); OnePlaceMore(x, 6); OnePlaceMore(x, 7); OnePlaceMore(x, 8); OnePlaceMore(x, 9);
    OnePlaceMore(x, 10); OnePlaceMore(x, 11); OnePlaceMore(x, 12); OnePlaceMore(x, 13); OnePlaceMore(x, 14);
  }

  lemma LeftIsFarShift(x: bv32)
    ensures Left(x, 16) == x << 16 && Left(x, 17) == x << 17 && Left(x, 18) == x << 18 && Left(x, 19) == x << 19 && Left(x, 20) == x << 20
    ensures Left(x, 21) == x << 21 && Left(x, 22) == x << 22 && Left(x, 23) == x << 23 && Left(x, 24) == x << 24 && Left(x, 25) == x << 25
    ensures Left(x, 26) == x << 26 && Left(x, 27) == x << 27 && Left(x, 28) == x << 28 && Left(x, 29) == x << 29 && Left(x, 30) == x << 30
  {
    LeftIsShift(x);
    PlacesLeft(x);
    OnePlaceMore(x, 15); OnePlaceMore(x, 16); OnePlaceMore(x, 17); OnePlaceMore(x, 18); OnePlaceMore(x, 19);
    OnePlaceMore(x, 20); OnePlaceMore(x, 21); OnePlaceMore(x, 22); OnePlaceMore(x, 23); OnePlaceMore(x, 24);
    OnePlaceMore(x, 25); OnePlaceMore(x, 26); OnePlaceMore(x, 27); OnePlaceMore(x, 28); OnePlaceMore(x, 29);
  }

  function Not(x: bv32): (r: bv32) { !x }

  lemma WithComplement(x: bv32)
    ensures Plus(x, Not(x)) == 0xffff_ffff
  {
  }

  lemma NotIsMachine(x: bv32)
    ensures Not32(Value(x)) == Value(Not(x))
  {
    WithComplement(x);
    AddIsMachine(x, Not(x));
    ValueIsBitSum(0xffff_ffff);
    AllOnes();
  }

  lemma AllOnes()
    ensures BitSum(0xffff_ffff) == 0xffff_ffff
  {
  }

  // ---------- The value of a machine word ----------

  /** The lowest eight bits. */
  function LowByte(x: bv32): (n: nat)
  {
    (if x & 0x1 != 0 then 1 else 0) + (if x & 0x2 != 0 then 2 else 0) + (if x & 0x4 != 0 then 4 else 0) + (if x & 0x8 != 0 then 8 else 0) + (if x & 0x10 != 0 then 16 else 0) + (if x & 0x20 != 0 then 32 else 0) + (if x & 0x40 != 0 then 64 else 0) + (if x & 0x80 != 0 then 128 else 0)
  }

  /** The value, bit by bit. */
  function BitSum(x: bv32): (n: nat)
  {
    LowByte(x) + 0x100 * LowByte(x >> 8) + 0x1_0000 * LowByte(x >> 16) + 0x100_0000 * LowByte(x >> 24)
  }

  lemma LowByteHalved(x: bv32)
    ensures LowByte(x) == (if Low(x) then 1 else 0) + 2 * (if Low(Half(x)) then 1 else 0)
      + 4 * (if Low(Half(Half(x))) then 1 else 0) + 8 * (if Low(Half(Half(Half(x)))) then 1 else 0)
      + 16 * (if Low(Half(Half(Half(Half(x))))) then 1 else 0)
      + 32 * (if Low(Half(Half(Half(Half(Half(x)))))) then 1 else 0)
      + 64 * (if Low(Half(Half(Half(Half(Half(Half(x))))))) then 1 else 0)
      + 128 * (if Low(Half(Half(Half(Half(Half(Half(Half(x)))))))) then 1 else 0)
  {
  }

  lemma NumberByByte(x: bv32, n: nat)
    ensures Number(x, n + 8) == LowByte(x) + 0x100 * Number(EightHalves(x), n)
  {
    var h := Half(x);
    var h2 := Half(h);
    var h3 := Half(h2);
    var h4 := Half(h3);
    var h5 := Half(h4);
    var h6 := Half(h5);
    var h7 := Half(h6);
    NumberInParts(x, n + 8);
    NumberInParts(h, n + 7);
    NumberInParts(h2, n + 6);
    NumberInParts(h3, n + 5);
    NumberInParts(h4, n + 4);
    NumberInParts(h5, n + 3);
    NumberInParts(h6, n + 2);
    NumberInParts(h7, n + 1);
    LowByteHalved(x);
    HalvesAre(x);
  }

  lemma BytesOf(x: bv32)
    ensures EightHalves(x) == x >> 8
    ensures EightHalves(EightHalves(x)) == x >> 16
    ensures EightHalves(EightHalves(EightHalves(x))) == x >> 24
  {
  }

  lemma ValueIsBitSum(x: bv32)
    ensures Value(x) == BitSum(x)
  {
    var a := EightHalves(x);
    var b := EightHalves(a);
    var c := EightHalves(b);
    NumberByByte(x, 24);
    NumberByByte(a, 16);
    NumberByByte(b, 8);
    NumberByByte(c, 0);
    BytesOf(x);
    ValueIs(x);
  }
}
