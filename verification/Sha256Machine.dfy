/** The functions of SHA-256 on machine words. */
module Sha256Machine {
  import opened Words
  import opened MachineWords
  import opened Spec = Sha256Spec

  lemma Turned(x: bv32, n: nat, right: bv32, left: bv32)
    requires n <= 32 && Right(x, n) == right && Left(x, 32 - n) == left
    ensures RotateRight(Value(x), n) == Value(Or(right, left))
  {
    ShiftsAreMachine(x, n);
    ShiftsAreMachine(x, 32 - n);
    OrIsMachine(right, left);
  }

  lemma Joined3(x: bv32, y: bv32, z: bv32)
    ensures Xor32(Xor32(Value(x), Value(y)), Value(z)) == Value(Xor(Xor(x, y), z))
  {
    XorIsMachine(x, y);
    XorIsMachine(Xor(x, y), z);
  }

  function BigSigma0(x: bv32): (r: bv32)
  {
    Xor(Xor(Or(x >> 2, x << 30), Or(x >> 13, x << 19)), Or(x >> 22, x << 10))
  }

  lemma BigSigma0IsMachine(x: bv32)
    ensures Spec.BigSigma0(Value(x)) == Value(BigSigma0(x))
  {
    RightIsShift(x);
    LeftIsShift(x);
    LeftIsFarShift(x);
    Turned(x, 2, x >> 2, x << 30);
    Turned(x, 13, x >> 13, x << 19);
    Turned(x, 22, x >> 22, x << 10);
    Joined3(Or(x >> 2, x << 30), Or(x >> 13, x << 19), Or(x >> 22, x << 10));
  }

  function BigSigma1(x: bv32): (r: bv32)
  {
    Xor(Xor(Or(x >> 6, x << 26), Or(x >> 11, x << 21)), Or(x >> 25, x << 7))
  }

  lemma BigSigma1IsMachine(x: bv32)
    ensures Spec.BigSigma1(Value(x)) == Value(BigSigma1(x))
  {
    RightIsShift(x);
    LeftIsShift(x);
    LeftIsFarShift(x);
    Turned(x, 6, x >> 6, x << 26);
    Turned(x, 11, x >> 11, x << 21);
    Turned(x, 25, x >> 25, x << 7);
    Joined3(Or(x >> 6, x << 26), Or(x >> 11, x << 21), Or(x >> 25, x << 7));
  }

  function SmallSigma0(x: bv32): (r: bv32)
  {
    Xor(Xor(Or(x >> 7, x << 25), Or(x >> 18, x << 14)), x >> 3)
  }

  lemma SmallSigma0IsMachine(x: bv32)
    ensures Spec.SmallSigma0(Value(x)) == Value(SmallSigma0(x))
  {
    RightIsShift(x);
    LeftIsShift(x);
    LeftIsFarShift(x);
    Turned(x, 7, x >> 7, x << 25);
    Turned(x, 18, x >> 18, x << 14);
    ShiftsAreMachine(x, 3);
    Joined3(Or(x >> 7, x << 25), Or(x >> 18, x << 14), x >> 3);
  }

  function SmallSigma1(x: bv32): (r: bv32)
  {
    Xor(Xor(Or(x >> 17, x << 15), Or(x >> 19, x << 13)), x >> 10)
  }

  lemma SmallSigma1IsMachine(x: bv32)
    ensures Spec.SmallSigma1(Value(x)) == Value(SmallSigma1(x))
  {
    RightIsShift(x);
    LeftIsShift(x);
    LeftIsFarShift(x);
    Turned(x, 17, x >> 17, x << 15);
    Turned(x, 19, x >> 19, x << 13);
    ShiftsAreMachine(x, 10);
    Joined3(Or(x >> 17, x << 15), Or(x >> 19, x << 13), x >> 10);
  }

  function Ch(x: bv32, y: bv32, z: bv32): (r: bv32) { Xor(And(x, y), And(Not(x), z)) }

  function Maj(x: bv32, y: bv32, z: bv32): (r: bv32) { Xor(Xor(And(x, y), And(x, z)), And(y, z)) }

  lemma ChIsMachine(x: bv32, y: bv32, z: bv32)
    ensures Spec.Ch(Value(x), Value(y), Value(z)) == Value(Ch(x, y, z))
  {
    AndIsMachine(x, y);
    NotIsMachine(x);
    AndIsMachine(Not(x), z);
    XorIsMachine(And(x, y), And(Not(x), z));
  }

  lemma MajIsMachine(x: bv32, y: bv32, z: bv32)
    ensures Spec.Maj(Value(x), Value(y), Value(z)) == Value(Maj(x, y, z))
  {
    AndIsMachine(x, y);
    AndIsMachine(x, z);
    AndIsMachine(y, z);
    Joined3(And(x, y), And(x, z), And(y, z));
  }

  function T1(e: bv32, f: bv32, g: bv32, h: bv32, k: bv32, w: bv32): (r: bv32)
  {
    Plus(Plus(Plus(Plus(h, BigSigma1(e)), Ch(e, f, g)), k), w)
  }

  function T2(a: bv32, b: bv32, c: bv32): (r: bv32) { Plus(BigSigma0(a), Maj(a, b, c)) }

  lemma T1IsMachine(v: Working, e: bv32, f: bv32, g: bv32, h: bv32, k: bv32, w: bv32)
    requires v.e == Value(e) && v.f == Value(f) && v.g == Value(g) && v.h == Value(h)
    ensures Spec.T1(v, Value(k), Value(w)) == Value(T1(e, f, g, h, k, w))
  {
    BigSigma1IsMachine(e);
    ChIsMachine(e, f, g);
    AddIsMachine(h, BigSigma1(e));
    AddIsMachine(Plus(h, BigSigma1(e)), Ch(e, f, g));
    AddIsMachine(Plus(Plus(h, BigSigma1(e)), Ch(e, f, g)), k);
    AddIsMachine(Plus(Plus(Plus(h, BigSigma1(e)), Ch(e, f, g)), k), w);
  }

  lemma T2IsMachine(v: Working, a: bv32, b: bv32, c: bv32)
    requires v.a == Value(a) && v.b == Value(b) && v.c == Value(c)
    ensures Spec.T2(v) == Value(T2(a, b, c))
  {
    BigSigma0IsMachine(a);
    MajIsMachine(a, b, c);
    AddIsMachine(BigSigma0(a), Maj(a, b, c));
  }

  function Valued(a: bv32, b: bv32, c: bv32, d: bv32, e: bv32, f: bv32, g: bv32, h: bv32): (v: Working)
  {
    Working(Value(a), Value(b), Value(c), Value(d), Value(e), Value(f), Value(g), Value(h))
  }

  /** One round: the first and the fifth word are new, the others move on. */
  lemma RoundIsMachine(a: bv32, b: bv32, c: bv32, d: bv32, e: bv32, f: bv32, g: bv32, h: bv32, k: bv32, w: bv32)
    ensures Round(Valued(a, b, c, d, e, f, g, h), Value(k), Value(w))
         == Valued(Plus(T1(e, f, g, h, k, w), T2(a, b, c)), a, b, c, Plus(d, T1(e, f, g, h, k, w)), e, f, g)
  {
    var v := Valued(a, b, c, d, e, f, g, h);
    T1IsMachine(v, e, f, g, h, k, w);
    T2IsMachine(v, a, b, c);
    AddIsMachine(T1(e, f, g, h, k, w), T2(a, b, c));
    AddIsMachine(d, T1(e, f, g, h, k, w));
  }

  function Expanded(w2: bv32, w7: bv32, w15: bv32, w16: bv32): (w: bv32)
  {
    Plus(Plus(Plus(SmallSigma1(w2), w7), SmallSigma0(w15)), w16)
  }

  /** One word of the message schedule from those before it. */
  lemma ExpandedIsMachine(block: Block, t: nat, w2: bv32, w7: bv32, w15: bv32, w16: bv32)
    requires t >= 16 && W(block, t - 2) == Value(w2) && W(block, t - 7) == Value(w7)
    requires W(block, t - 15) == Value(w15) && W(block, t - 16) == Value(w16)
    ensures W(block, t) == Value(Expanded(w2, w7, w15, w16))
  {
    SmallSigma1IsMachine(w2);
    SmallSigma0IsMachine(w15);
    AddIsMachine(SmallSigma1(w2), w7);
    AddIsMachine(Plus(SmallSigma1(w2), w7), SmallSigma0(w15));
    AddIsMachine(Plus(Plus(SmallSigma1(w2), w7), SmallSigma0(w15)), w16);
  }
}
