/** 32-bit words and the operations of the C language on them. */
module Words {
  import opened Bytes
  import opened Arithmetic

  type Word = w: int | 0 <= w < 0x1_0000_0000

  const WordCount: nat := 0x1_0000_0000

  lemma WordRange()
    ensures Pow2(32) == WordCount
  {
    WordSizes();
  }

  function AndBits(a: nat, b: nat, n: nat): (r: nat)
    decreases n, a
  {
    if n == 0 then 0
    else (if a % 2 == 1 && b % 2 == 1 then 1 else 0) + 2 * AndBits(a / 2, b / 2, n - 1)
  }

  function OrBits(a: nat, b: nat, n: nat): (r: nat)
    decreases n, a
  {
    if n == 0 then 0
    else (if a % 2 == 1 || b % 2 == 1 then 1 else 0) + 2 * OrBits(a / 2, b / 2, n - 1)
  }

  lemma {:induction false} BitsBound(a: nat, b: nat, n: nat)
    ensures AndBits(a, b, n) < Pow2(n) && OrBits(a, b, n) < Pow2(n)
  {
    if n > 0 {
      BitsBound(a / 2, b / 2, n - 1);
    }
  }

  function Xor32(a: Word, b: Word): (r: Word)
  {
    WordRange();
    XorBitsBound(a, b, 32);
    XorBits(a, b, 32)
  }

  function And32(a: Word, b: Word): (r: Word)
  {
    WordRange();
    BitsBound(a, b, 32);
    AndBits(a, b, 32)
  }

  function Or32(a: Word, b: Word): (r: Word)
  {
    WordRange();
    BitsBound(a, b, 32);
    OrBits(a, b, 32)
  }

  function Not32(a: Word): (r: Word) { WordCount - 1 - a }

  function Add32(a: Word, b: Word): (r: Word)
    ensures r == if a + b < WordCount then a + b else a + b - WordCount
  {
    (a + b) % 0x1_0000_0000
  }

  function Sub32(a: Word, b: Word): (r: Word)
    ensures r == if a >= b then a - b else a - b + WordCount
  {
    (a - b) % 0x1_0000_0000
  }

  function Mul32(a: Word, b: Word): (r: Word) { (a * b) % 0x1_0000_0000 }

  function ShiftRight(a: Word, n: nat): (r: Word)
    decreases n, a
  {
    if n == 0 then a else ShiftRight(a / 2, n - 1)
  }

  function ShiftLeft(a: Word, n: nat): (r: Word)
    decreases n, a
  {
    if n == 0 then a else ShiftLeft((2 * a) % 0x1_0000_0000, n - 1)
  }

  /** The shifts are division and multiplication by a power of two. */
  lemma {:induction false} ShiftsAreScaling(a: Word, n: nat)
    ensures ShiftRight(a, n) == a / Pow2(n)
    ensures ShiftLeft(a, n) == (a * Pow2(n)) % 0x1_0000_0000
    decreases n
  {
    if n > 0 {
      var p := Pow2(n - 1);
      ShiftsAreScaling(a / 2, n - 1);
      ShiftsAreScaling((2 * a) % 0x1_0000_0000, n - 1);
      DivTwice(a, p);
      ModTimes(2 * a, p);
      DoubleTimes(a, p);
    }
  }

  lemma DoubleTimes(a: nat, p: nat)
    ensures (2 * a) * p == a * (2 * p)
  {
  }

  lemma DivTwice(a: nat, p: nat)
    requires p > 0
    ensures a / 2 / p == a / (2 * p)
  {
    var q := a / 2 / p;
    var r := a / 2 % p;
    assert a / 2 == p * q + r;
    var s := 2 * r + a % 2;
    assert a == 2 * (p * q) + s;
    assert 2 * (p * q) == (2 * p) * q;
    DivMod(a, q, s, 2 * p);
  }

  lemma ModTimes(x: nat, p: nat)
    ensures ((x % 0x1_0000_0000) * p) % 0x1_0000_0000 == (x * p) % 0x1_0000_0000
  {
    var q, r := x / 0x1_0000_0000, x % 0x1_0000_0000;
    assert x * p == WordCount * (q * p) + r * p;
    var a, b := (r * p) / 0x1_0000_0000, (r * p) % 0x1_0000_0000;
    assert x * p == WordCount * (q * p + a) + b;
  }
}
