/** Words bit by bit, and mixing steps that lose nothing. */
module WordBits {
  import opened Bytes
  import opened Arithmetic
  import opened Words

  /** Bit i, counted from the lowest. */
  function BitAt(x: nat, i: nat): (b: bool)
    decreases i, x
  {
    if i == 0 then x % 2 == 1 else BitAt(x / 2, i - 1)
  }

  lemma {:induction false} XorBitAt(a: nat, b: nat, n: nat, i: nat)
    requires i < n
    ensures BitAt(XorBits(a, b, n), i) == (BitAt(a, i) != BitAt(b, i))
    decreases i
  {
    var x := XorBits(a, b, n);
    assert x / 2 == XorBits(a / 2, b / 2, n - 1);
    if i > 0 {
      XorBitAt(a / 2, b / 2, n - 1, i - 1);
    }
  }

  lemma {:induction false} AndBitAt(a: nat, b: nat, n: nat, i: nat)
    requires i < n
    ensures BitAt(AndBits(a, b, n), i) == (BitAt(a, i) && BitAt(b, i))
    decreases i
  {
    var x := AndBits(a, b, n);
    assert x / 2 == AndBits(a / 2, b / 2, n - 1);
    if i > 0 {
      AndBitAt(a / 2, b / 2, n - 1, i - 1);
    }
  }

  lemma {:induction false} OrBitAt(a: nat, b: nat, n: nat, i: nat)
    requires i < n
    ensures BitAt(OrBits(a, b, n), i) == (BitAt(a, i) || BitAt(b, i))
    decreases i
  {
    var x := OrBits(a, b, n);
    assert x / 2 == OrBits(a / 2, b / 2, n - 1);
    if i > 0 {
      OrBitAt(a / 2, b / 2, n - 1, i - 1);
    }
  }

  /** A bit is a binary digit. */
  lemma {:induction false} BitIsDigit(x: nat, i: nat)
    ensures BitAt(x, i) <==> x / Pow2(i) % 2 == 1
    decreases i
  {
    if i > 0 {
      BitIsDigit(x / 2, i - 1);
      DivTwice(x, Pow2(i - 1));
    }
  }

  lemma {:induction false} NotBitAt(a: nat, n: nat, i: nat)
    requires i < n && a < Pow2(n)
    ensures BitAt(Pow2(n) - 1 - a, i) == !BitAt(a, i)
    decreases i
  {
    var p := Pow2(n - 1);
    assert (2 * p - 1 - a) / 2 == p - 1 - a / 2 && (2 * p - 1 - a) % 2 == 1 - a % 2;
    if i > 0 {
      NotBitAt(a / 2, n - 1, i - 1);
    }
  }

  lemma {:induction false} RightBitAt(a: Word, n: nat, i: nat)
    ensures BitAt(ShiftRight(a, n), i) == BitAt(a, i + n)
    decreases n
  {
    if n > 0 {
      RightBitAt(a / 2, n - 1, i);
    }
  }

  lemma {:induction false} HighBitAside(x: nat, n: nat, i: nat)
    requires i < n
    ensures BitAt(x + Pow2(n), i) == BitAt(x, i)
    decreases i
  {
    assert (x + Pow2(n)) / 2 == x / 2 + Pow2(n - 1);
    if i > 0 {
      HighBitAside(x / 2, n - 1, i - 1);
    }
  }

  lemma DoubleBitAt(a: Word, i: nat)
    requires i < 32
    ensures BitAt((2 * a) % 0x1_0000_0000, i) == (i >= 1 && BitAt(a, i - 1))
  {
    WordRange();
    if 2 * a >= WordCount {
      HighBitAside(2 * a - WordCount, 32, i);
    }
    assert (2 * a) / 2 == a;
    assert BitAt(2 * a, i) == (i >= 1 && BitAt(a, i - 1));
  }

  lemma {:induction false} LeftBitAt(a: Word, n: nat, i: nat)
    requires i < 32
    ensures BitAt(ShiftLeft(a, n), i) == (i >= n && BitAt(a, i - n))
    decreases n
  {
    if n > 0 {
      LeftBitAt((2 * a) % 0x1_0000_0000, n - 1, i);
      if i >= n - 1 {
        DoubleBitAt(a, i - (n - 1));
      }
    }
  }

  lemma {:induction false} NoHighBit(x: nat, n: nat, i: nat)
    requires x < Pow2(n) && n <= i
    ensures !BitAt(x, i)
    decreases i
  {
    if n > 0 {
      NoHighBit(x / 2, n - 1, i - 1);
    } else if i > 0 {
      NoHighBit(0, 0, i - 1);
    }
  }

  lemma {:induction false} SameBits(x: nat, y: nat, n: nat)
    requires x < Pow2(n) && y < Pow2(n)
    requires forall i: nat {:trigger BitAt(x, i)} :: i < n ==> BitAt(x, i) == BitAt(y, i)
    ensures x == y
    decreases n
  {
    if n > 0 {
      assert BitAt(x, 0) == BitAt(y, 0);
      forall i: nat | i < n - 1
        ensures BitAt(x / 2, i) == BitAt(y / 2, i)
      {
        assert BitAt(x, i + 1) == BitAt(y, i + 1);
      }
      SameBits(x / 2, y / 2, n - 1);
    }
  }

  // ---------- Mixing a word with itself ----------

  function MixRight(x: Word, n: nat): (y: Word) { Xor32(x, ShiftRight(x, n)) }

  function MixLeft(x: Word, n: nat, mask: Word): (y: Word) { Xor32(x, And32(ShiftLeft(x, n), mask)) }

  lemma {:induction false} RightKeepsBit(x: Word, y: Word, n: nat, i: nat)
    requires n > 0 && MixRight(x, n) == MixRight(y, n)
    ensures BitAt(x, i) == BitAt(y, i)
    decreases 32 - i
  {
    WordRange();
    if i >= 32 {
      NoHighBit(x, 32, i);
      NoHighBit(y, 32, i);
    } else {
      RightKeepsBit(x, y, n, i + n);
      RightBitAt(x, n, i);
      RightBitAt(y, n, i);
      XorBitAt(x, ShiftRight(x, n), 32, i);
      XorBitAt(y, ShiftRight(y, n), 32, i);
    }
  }

  lemma {:induction false} LeftKeepsBit(x: Word, y: Word, n: nat, mask: Word, i: nat)
    requires n > 0 && MixLeft(x, n, mask) == MixLeft(y, n, mask) && i < 32
    ensures BitAt(x, i) == BitAt(y, i)
    decreases i
  {
    if i >= n {
      LeftKeepsBit(x, y, n, mask, i - n);
    }
    LeftBitAt(x, n, i);
    LeftBitAt(y, n, i);
    AndBitAt(ShiftLeft(x, n), mask, 32, i);
    AndBitAt(ShiftLeft(y, n), mask, 32, i);
    XorBitAt(x, And32(ShiftLeft(x, n), mask), 32, i);
    XorBitAt(y, And32(ShiftLeft(y, n), mask), 32, i);
  }

  lemma MixRightIsInjective(x: Word, y: Word, n: nat)
    requires n > 0
    ensures MixRight(x, n) == MixRight(y, n) ==> x == y
  {
    WordRange();
    if MixRight(x, n) == MixRight(y, n) {
      forall i: nat | i < 32
        ensures BitAt(x, i) == BitAt(y, i)
      {
        RightKeepsBit(x, y, n, i);
      }
      SameBits(x, y, 32);
    }
  }

  lemma MixLeftIsInjective(x: Word, y: Word, n: nat, mask: Word)
    requires n > 0
    ensures MixLeft(x, n, mask) == MixLeft(y, n, mask) ==> x == y
  {
    WordRange();
    if MixLeft(x, n, mask) == MixLeft(y, n, mask) {
      forall i: nat | i < 32
        ensures BitAt(x, i) == BitAt(y, i)
      {
        LeftKeepsBit(x, y, n, mask, i);
      }
      SameBits(x, y, 32);
    }
  }
}
