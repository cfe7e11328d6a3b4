/** The primes that the constants of SHA-256 are made of. */
module Primes {
  import opened Arithmetic

  /** The first sixty-four primes, which PrimesAreListed proves them to be. */
  function Prime(t: nat): (p: nat)
    requires t < 64
  {
    match t
    case 0 => 2 case 1 => 3 case 2 => 5 case 3 => 7 case 4 => 11 case 5 => 13 case 6 => 17 case 7 => 19
    case 8 => 23 case 9 => 29 case 10 => 31 case 11 => 37 case 12 => 41 case 13 => 43 case 14 => 47 case 15 => 53
    case 16 => 59 case 17 => 61 case 18 => 67 case 19 => 71 case 20 => 73 case 21 => 79 case 22 => 83 case 23 => 89
    case 24 => 97 case 25 => 101 case 26 => 103 case 27 => 107 case 28 => 109 case 29 => 113 case 30 => 127 case 31 => 131
    case 32 => 137 case 33 => 139 case 34 => 149 case 35 => 151 case 36 => 157 case 37 => 163 case 38 => 167 case 39 => 173
    case 40 => 179 case 41 => 181 case 42 => 191 case 43 => 193 case 44 => 197 case 45 => 199 case 46 => 211 case 47 => 223
    case 48 => 227 case 49 => 229 case 50 => 233 case 51 => 239 case 52 => 241 case 53 => 251 case 54 => 257 case 55 => 263
    case 56 => 269 case 57 => 271 case 58 => 277 case 59 => 281 case 60 => 283 case 61 => 293 case 62 => 307 case _ => 311
  }

  predicate Divides(d: nat, n: nat)
    requires d > 0
  {
    n % d == 0
  }

  ghost predicate IsPrime(n: nat)
  {
    n >= 2 && forall d :: 2 <= d < n ==> !Divides(d, n)
  }

  /** What is left when the multiples of the primes up to 17 are crossed out. */
  predicate Sieved(n: nat)
  {
    n >= 2
    && (n == 2 || n % 2 != 0) && (n == 3 || n % 3 != 0) && (n == 5 || n % 5 != 0) && (n == 7 || n % 7 != 0)
    && (n == 11 || n % 11 != 0) && (n == 13 || n % 13 != 0) && (n == 17 || n % 17 != 0)
  }

  /** A number below 18 squared that is no prime has a factor up to 17. */
  lemma SmallFactor(n: nat, d: nat) returns (m: nat)
    requires n < 324 && 2 <= d < n && Divides(d, n)
    ensures 2 <= m <= 17 && m < n && Divides(m, n)
  {
    var e := n / d;
    assert n == d * e && 2 <= e;
    if d <= 17 {
      m := d;
    } else {
      assert e < 18 by {
        if e >= 18 {
          Product(d, e);
        }
      }
      m := e;
      Cofactor(d, e);
    }
  }

  lemma Product(d: nat, e: nat)
    requires d >= 18 && e >= 18
    ensures d * e >= 324
  {
    assert (d - 18) * (e - 18) >= 0;
  }

  lemma Cofactor(d: nat, e: nat)
    requires e > 0
    ensures (d * e) % e == 0
  {
    DivMod(d * e, d, 0, e);
  }

  /** Below 18 squared, the sieve leaves exactly the primes. */
  lemma SieveLeavesPrimes(n: nat)
    requires n < 324
    ensures Sieved(n) <==> IsPrime(n)
  {
    if Sieved(n) {
      forall d | 2 <= d < n
        ensures !Divides(d, n)
      {
        if Divides(d, n) {
          var m := SmallFactor(n, d);
          Crossed(n, m);
        }
      }
    } else if n >= 2 {
      var p := if n % 2 == 0 then 2 else if n % 3 == 0 then 3 else if n % 5 == 0 then 5 else if n % 7 == 0 then 7
               else if n % 11 == 0 then 11 else if n % 13 == 0 then 13 else 17;
      Factor(n, p);
    }
  }

  lemma Factor(n: nat, p: nat)
    requires 2 <= p < n && Divides(p, n)
    ensures !IsPrime(n)
  {
  }

  /** A multiple of a smaller number up to 17 is crossed out. */
  lemma Crossed(n: nat, m: nat)
    requires 2 <= m <= 17 && m < n && Divides(m, n)
    ensures !Sieved(n)
  {
    if
    case m % 2 == 0 => Transitive(n, m, 2);
    case m % 3 == 0 => Transitive(n, m, 3);
    case m % 5 == 0 => Transitive(n, m, 5);
    case m == 7 || m == 11 || m == 13 || m == 17 =>
  }

  lemma Transitive(n: nat, m: nat, p: nat)
    requires m > 0 && p > 0 && n % m == 0 && m % p == 0
    ensures n % p == 0
  {
    var q, r := n / m, m / p;
    assert n == p * r * q == p * (r * q);
    DivMod(n, r * q, 0, p);
  }

  ghost predicate Listed(n: nat)
  {
    exists t: nat :: t < 64 && Prime(t) == n
  }

  /** A number that is left has one of eight remainders by 30. */
  lemma Wheel(n: nat)
    requires Sieved(n) && n > 5
    ensures n % 30 in {1, 7, 11, 13, 17, 19, 23, 29}
  {
    var q, r := n / 30, n % 30;
    assert n == 30 * q + r;
    Remainder(q, r, 2, 15);
    Remainder(q, r, 3, 10);
    Remainder(q, r, 5, 6);
  }

  lemma Remainder(q: nat, r: nat, d: nat, e: nat)
    requires d > 0 && d * e == 30
    ensures (30 * q + r) % d == r % d
  {
    assert 30 * q == d * (e * q);
    DivMod(30 * q + r, e * q + r / d, r % d, d);
  }

  lemma LeftFrom2(n: nat)
    requires 2 <= n < 23 && Sieved(n)
    ensures n in {2, 3, 5, 7, 11, 13, 17, 19}
  {
  }

  lemma ListedFrom2(n: nat)
    requires n in {2, 3, 5, 7, 11, 13, 17, 19}
    ensures Listed(n)
  {
    assert Prime(0) == 2 && Prime(1) == 3 && Prime(2) == 5 && Prime(3) == 7;
    assert Prime(4) == 11 && Prime(5) == 13 && Prime(6) == 17 && Prime(7) == 19;
  }

  lemma LeftFrom23(n: nat)
    requires 23 <= n < 59 && Sieved(n)
    ensures n in {23, 29, 31, 37, 41, 43, 47, 53}
  {
    Wheel(n);
    assert n == 30 * (n / 30) + n % 30;
  }

  lemma ListedFrom23(n: nat)
    requires n in {23, 29, 31, 37, 41, 43, 47, 53}
    ensures Listed(n)
  {
    assert Prime(8) == 23 && Prime(9) == 29 && Prime(10) == 31 && Prime(11) == 37;
    assert Prime(12) == 41 && Prime(13) == 43 && Prime(14) == 47 && Prime(15) == 53;
  }

  lemma LeftFrom59(n: nat)
    requires 59 <= n < 97 && Sieved(n)
    ensures n in {59, 61, 67, 71, 73, 79, 83, 89}
  {
    Wheel(n);
    assert n == 30 * (n / 30) + n % 30;
  }

  lemma ListedFrom59(n: nat)
    requires n in {59, 61, 67, 71, 73, 79, 83, 89}
    ensures Listed(n)
  {
    assert Prime(16) == 59 && Prime(17) == 61 && Prime(18) == 67 && Prime(19) == 71;
    assert Prime(20) == 73 && Prime(21) == 79 && Prime(22) == 83 && Prime(23) == 89;
  }

  lemma LeftFrom97(n: nat)
    requires 97 <= n < 137 && Sieved(n)
    ensures n in {97, 101, 103, 107, 109, 113, 127, 131}
  {
    Wheel(n);
    assert n == 30 * (n / 30) + n % 30;
  }

  lemma ListedFrom97(n: nat)
    requires n in {97, 101, 103, 107, 109, 113, 127, 131}
    ensures Listed(n)
  {
    assert Prime(24) == 97 && Prime(25) == 101 && Prime(26) == 103 && Prime(27) == 107;
    assert Prime(28) == 109 && Prime(29) == 113 && Prime(30) == 127 && Prime(31) == 131;
  }

  lemma LeftFrom137(n: nat)
    requires 137 <= n < 179 && Sieved(n)
    ensures n in {137, 139, 149, 151, 157, 163, 167, 173}
  {
    Wheel(n);
    assert n == 30 * (n / 30) + n % 30;
  }

  lemma ListedFrom137(n: nat)
    requires n in {137, 139, 149, 151, 157, 163, 167, 173}
    ensures Listed(n)
  {
    assert Prime(32) == 137 && Prime(33) == 139 && Prime(34) == 149 && Prime(35) == 151;
    assert Prime(36) == 157 && Prime(37) == 163 && Prime(38) == 167 && Prime(39) == 173;
  }

  lemma LeftFrom179(n: nat)
    requires 179 <= n < 227 && Sieved(n)
    ensures n in {179, 181, 191, 193, 197, 199, 211, 223}
  {
    Wheel(n);
    assert n == 30 * (n / 30) + n % 30;
  }

  lemma ListedFrom179(n: nat)
    requires n in {179, 181, 191, 193, 197, 199, 211, 223}
    ensures Listed(n)
  {
    assert Prime(40) == 179 && Prime(41) == 181 && Prime(42) == 191 && Prime(43) == 193;
    assert Prime(44) == 197 && Prime(45) == 199 && Prime(46) == 211 && Prime(47) == 223;
  }

  lemma LeftFrom227(n: nat)
    requires 227 <= n < 269 && Sieved(n)
    ensures n in {227, 229, 233, 239, 241, 251, 257, 263}
  {
    Wheel(n);
    assert n == 30 * (n / 30) + n % 30;
  }

  lemma ListedFrom227(n: nat)
    requires n in {227, 229, 233, 239, 241, 251, 257, 263}
    ensures Listed(n)
  {
    assert Prime(48) == 227 && Prime(49) == 229 && Prime(50) == 233 && Prime(51) == 239;
    assert Prime(52) == 241 && Prime(53) == 251 && Prime(54) == 257 && Prime(55) == 263;
  }

  lemma LeftFrom269(n: nat)
    requires 269 <= n < 312 && Sieved(n)
    ensures n in {269, 271, 277, 281, 283, 293, 307, 311}
  {
    Wheel(n);
    assert n == 30 * (n / 30) + n % 30;
  }

  lemma ListedFrom269(n: nat)
    requires n in {269, 271, 277, 281, 283, 293, 307, 311}
    ensures Listed(n)
  {
    assert Prime(56) == 269 && Prime(57) == 271 && Prime(58) == 277 && Prime(59) == 281;
    assert Prime(60) == 283 && Prime(61) == 293 && Prime(62) == 307 && Prime(63) == 311;
  }

  lemma LeftIsListed(n: nat)
    requires n <= 311 && Sieved(n)
    ensures Listed(n)
  {
    if n < 23 {
      LeftFrom2(n);
      ListedFrom2(n);
    } else if n < 59 {
      LeftFrom23(n);
      ListedFrom23(n);
    } else if n < 97 {
      LeftFrom59(n);
      ListedFrom59(n);
    } else if n < 137 {
      LeftFrom97(n);
      ListedFrom97(n);
    } else if n < 179 {
      LeftFrom137(n);
      ListedFrom137(n);
    } else if n < 227 {
      LeftFrom179(n);
      ListedFrom179(n);
    } else if n < 269 {
      LeftFrom227(n);
      ListedFrom227(n);
    } else {
      LeftFrom269(n);
      ListedFrom269(n);
    }
  }

  lemma FirstHalfIsLeft(t: nat)
    requires t < 32
    ensures Sieved(Prime(t)) && Prime(t) <= 311
  {
  }

  lemma SecondHalfIsLeft(t: nat)
    requires 32 <= t < 64
    ensures Sieved(Prime(t)) && Prime(t) <= 311
  {
  }

  lemma ListedIsLeft(t: nat)
    requires t < 64
    ensures Sieved(Prime(t)) && Prime(t) <= 311
  {
    if t < 32 {
      FirstHalfIsLeft(t);
    } else {
      SecondHalfIsLeft(t);
    }
  }

  /** Up to 311 the list has exactly the primes. */
  lemma PrimesAreListed(n: nat)
    requires n <= 311
    ensures IsPrime(n) <==> Listed(n)
  {
    SieveLeavesPrimes(n);
    if IsPrime(n) {
      LeftIsListed(n);
      assert Listed(n);
    }
    if t: nat :| t < 64 && Prime(t) == n {
      ListedIsLeft(t);
    }
  }

  /** And it has them in order, each once: Prime(t) is the one with exactly t smaller primes. */
  lemma PrimesAscend(s: nat, t: nat)
    requires s < t < 64
    ensures Prime(s) < Prime(t)
  {
  }
}
