/** What the functions of section 4.1.2 of FIPS 180-4 do to each bit. Bit i is the i-th
    from the lowest, and a rotation goes round the word. */
module Sha256Bits {
  import opened Arithmetic
  import opened Words
  import opened WordBits
  import opened Sha256Spec

  lemma XorBit(x: Word, y: Word, i: nat)
    requires i < 32
    ensures BitAt(Xor32(x, y), i) == (BitAt(x, i) != BitAt(y, i))
  {
    XorBitAt(x, y, 32, i);
  }

  lemma AndBit(x: Word, y: Word, i: nat)
    requires i < 32
    ensures BitAt(And32(x, y), i) == (BitAt(x, i) && BitAt(y, i))
  {
    AndBitAt(x, y, 32, i);
  }

  lemma OrBit(x: Word, y: Word, i: nat)
    requires i < 32
    ensures BitAt(Or32(x, y), i) == (BitAt(x, i) || BitAt(y, i))
  {
    OrBitAt(x, y, 32, i);
  }

  lemma NotBit(x: Word, i: nat)
    requires i < 32
    ensures BitAt(Not32(x), i) == !BitAt(x, i)
  {
    WordRange();
    NotBitAt(x, 32, i);
  }

  /** A rotation by n places takes bit i from place i + n. */
  lemma RotatedBit(x: Word, n: nat, i: nat)
    requires i < 32 && n <= 32
    ensures BitAt(RotateRight(x, n), i) == BitAt(x, (i + n) % 32)
  {
    OrBit(ShiftRight(x, n), ShiftLeft(x, 32 - n), i);
    RightBitAt(x, n, i);
    LeftBitAt(x, 32 - n, i);
    if i + n < 32 {
      assert (i + n) % 32 == i + n;
    } else {
      NothingAbove(x, i + n);
      assert (i + n) % 32 == i - (32 - n);
    }
  }

  lemma NothingAbove(x: Word, i: nat)
    requires i >= 32
    ensures !BitAt(x, i)
  {
    WordRange();
    NoHighBit(x, 32, i);
  }

  lemma BigSigma0Bit(x: Word, i: nat)
    requires i < 32
    ensures BitAt(BigSigma0(x), i) == ((BitAt(x, (i + 2) % 32) != BitAt(x, (i + 13) % 32)) != BitAt(x, (i + 22) % 32))
  {
    RotatedBit(x, 2, i);
    RotatedBit(x, 13, i);
    RotatedBit(x, 22, i);
    var third := RotateRight(x, 22);
    XorBit(RotateRight(x, 2), RotateRight(x, 13), i);
    XorBit(Xor32(RotateRight(x, 2), RotateRight(x, 13)), third, i);
  }

  lemma BigSigma1Bit(x: Word, i: nat)
    requires i < 32
    ensures BitAt(BigSigma1(x), i) == ((BitAt(x, (i + 6) % 32) != BitAt(x, (i + 11) % 32)) != BitAt(x, (i + 25) % 32))
  {
    RotatedBit(x, 6, i);
    RotatedBit(x, 11, i);
    RotatedBit(x, 25, i);
    var third := RotateRight(x, 25);
    XorBit(RotateRight(x, 6), RotateRight(x, 11), i);
    XorBit(Xor32(RotateRight(x, 6), RotateRight(x, 11)), third, i);
  }

  lemma SmallSigma0Bit(x: Word, i: nat)
    requires i < 32
    ensures BitAt(SmallSigma0(x), i) == ((BitAt(x, (i + 7) % 32) != BitAt(x, (i + 18) % 32)) != (i + 3 < 32 && BitAt(x, i + 3)))
  {
    RotatedBit(x, 7, i);
    RotatedBit(x, 18, i);
    RightBitAt(x, 3, i);
    if i + 3 >= 32 {
      NothingAbove(x, i + 3);
    }
    var third := ShiftRight(x, 3);
    XorBit(RotateRight(x, 7), RotateRight(x, 18), i);
    XorBit(Xor32(RotateRight(x, 7), RotateRight(x, 18)), third, i);
  }

  lemma SmallSigma1Bit(x: Word, i: nat)
    requires i < 32
    ensures BitAt(SmallSigma1(x), i) == ((BitAt(x, (i + 17) % 32) != BitAt(x, (i + 19) % 32)) != (i + 10 < 32 && BitAt(x, i + 10)))
  {
    RotatedBit(x, 17, i);
    RotatedBit(x, 19, i);
    RightBitAt(x, 10, i);
    if i + 10 >= 32 {
      NothingAbove(x, i + 10);
    }
    var third := ShiftRight(x, 10);
    XorBit(RotateRight(x, 17), RotateRight(x, 19), i);
    XorBit(Xor32(RotateRight(x, 17), RotateRight(x, 19)), third, i);
  }

  /** Where x has a one the bit of y is chosen, elsewhere that of z. */
  lemma ChBit(x: Word, y: Word, z: Word, i: nat)
    requires i < 32
    ensures BitAt(Ch(x, y, z), i) == if BitAt(x, i) then BitAt(y, i) else BitAt(z, i)
  {
    AndBit(x, y, i);
    NotBit(x, i);
    AndBit(Not32(x), z, i);
    XorBit(And32(x, y), And32(Not32(x), z), i);
  }

  /** The bit that at least two of the three words have. */
  lemma MajBit(x: Word, y: Word, z: Word, i: nat)
    requires i < 32
    ensures var b, c, d := BitAt(x, i), BitAt(y, i), BitAt(z, i);
            BitAt(Maj(x, y, z), i) == ((b && c) || (b && d) || (c && d))
  {
    AndBit(x, y, i);
    AndBit(x, z, i);
    AndBit(y, z, i);
    XorBit(And32(x, y), And32(x, z), i);
    XorBit(Xor32(And32(x, y), And32(x, z)), And32(y, z), i);
  }
}
