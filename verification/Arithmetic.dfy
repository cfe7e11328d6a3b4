/** Division with remainder, powers of two, and the narrowing of integers. */
module Arithmetic {

  lemma MultipleIsFar(d: int, k: int)
    requires d > 0 && k != 0
    ensures if k > 0 then d * k >= d else d * k <= -d
  {
  }

  lemma Distribute(d: int, x: int, y: int)
    ensures d * (x - y) == d * x - d * y
  {
  }

  /** Quotient and remainder are the only ones there are. */
  lemma DivMod(a: int, q: int, r: int, d: int)
    requires d > 0 && 0 <= r < d && a == d * q + r
    ensures a % d == r && a / d == q
  {
    var q' := a / d;
    Distribute(d, q, q');
    if q != q' {
      MultipleIsFar(d, q - q');
    }
  }

  function Pow2(n: nat): (p: nat)
    ensures p >= 1
  {
    if n == 0 then 1 else 2 * Pow2(n - 1)
  }

  lemma {:induction false} Pow2Monotonic(a: nat, b: nat)
    requires a <= b
    ensures Pow2(a) <= Pow2(b)
    decreases b
  {
    if a < b {
      Pow2Monotonic(a, b - 1);
    }
  }

  predicate IsInt32(n: int) { -0x8000_0000 <= n < 0x8000_0000 }

  /** The narrowing of a wider integer to int: its lowest 32 bits. */
  function NarrowToInt(v: int): (r: int)
    ensures IsInt32(v) ==> r == v
    ensures IsInt32(r)
    ensures v >= 0 ==> r <= v
  {
    var u := v % 0x1_0000_0000;
    if u < 0x8000_0000 then u else u - 0x1_0000_0000
  }

  /** Narrowing keeps a number's remainder, and is the only number of an int that does. */
  lemma NarrowedIsCongruent(v: int, w: int)
    requires IsInt32(w)
    ensures NarrowToInt(v) == w <==> (v - w) % 0x1_0000_0000 == 0
  {
  }
}
