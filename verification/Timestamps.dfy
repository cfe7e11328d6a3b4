/** The time arithmetic of src/brickred/timestamp.cc, on unbounded seconds. */
module Timestamps {

  const NS_PER_MS := 1_000_000
  const NS_PER_SECOND := 1_000_000_000

  /** Division as in C++: the quotient is cut off towards zero. */
  function Quotient(a: int, b: int): int
    requires b > 0
  {
    if a >= 0 then a / b else -((-a) / b)
  }

  /** The remainder that goes with Quotient; it has the sign of the dividend. */
  function Remainder(a: int, b: int): int
    requires b > 0
  {
    a - Quotient(a, b) * b
  }

  datatype Timestamp = Timestamp(second: int, nanosecond: int) {

    predicate Valid() {
      0 <= nanosecond < NS_PER_SECOND
    }

    /** The moment in nanoseconds. */
    function Ns(): int {
      second * NS_PER_SECOND + nanosecond
    }

    /** The moment in whole milliseconds, rounded down. */
    function Ms(): int {
      second * 1000 + nanosecond / NS_PER_MS
    }

    /** operator+= and operator+: any number of milliseconds, also a negative one. */
    function Plus(ms: int): Timestamp {
      var s := second + Quotient(ms, 1000);
      var n := nanosecond + Remainder(ms, 1000) * NS_PER_MS;
      if n >= NS_PER_SECOND then Timestamp(s + 1, n - NS_PER_SECOND)
      else if n < 0 then Timestamp(s - 1, n + NS_PER_SECOND)
      else Timestamp(s, n)
    }

    predicate Less(other: Timestamp) {
      if second != other.second then second < other.second else nanosecond < other.nanosecond
    }

    predicate MillisecondLess(other: Timestamp) {
      if second != other.second then second < other.second
      else nanosecond / NS_PER_MS < other.nanosecond / NS_PER_MS
    }

    function DistanceMillisecond(other: Timestamp): int {
      var (bigger, smaller) := if Less(other) then (other, this) else (this, other);
      (bigger.second - smaller.second) * 1000 + (bigger.nanosecond / NS_PER_MS - smaller.nanosecond / NS_PER_MS)
    }
  }

  /** Adding milliseconds moves the moment by exactly that much, and keeps the nanoseconds normalized. */
  lemma PlusMoves(t: Timestamp, ms: int)
    requires t.Valid()
    ensures t.Plus(ms).Valid()
    ensures t.Plus(ms).Ns() == t.Ns() + ms * NS_PER_MS
    ensures t.Plus(ms).Ms() == t.Ms() + ms
  {
    var r := Remainder(ms, 1000);
    assert -1000 < r < 1000 && ms == Quotient(ms, 1000) * 1000 + r by {
      if ms < 0 {
        assert -ms == (-ms) / 1000 * 1000 + (-ms) % 1000;
      }
    }
    var n := t.nanosecond + r * NS_PER_MS;
    assert n / NS_PER_MS == t.nanosecond / NS_PER_MS + r;
  }

  /** A normalized timestamp is determined by its moment. */
  lemma NsDetermines(a: Timestamp, b: Timestamp)
    requires a.Valid() && b.Valid() && a.Ns() == b.Ns()
    ensures a == b
  {
  }

  /** Delays add up. */
  lemma PlusAddsUp(t: Timestamp, a: int, b: int)
    requires t.Valid()
    ensures t.Plus(a).Plus(b) == t.Plus(a + b)
  {
    PlusMoves(t, a);
    PlusMoves(t.Plus(a), b);
    PlusMoves(t, a + b);
    NsDetermines(t.Plus(a).Plus(b), t.Plus(a + b));
  }

  /** The two comparisons compare moments, in nanoseconds and in milliseconds; the second is the coarser one. */
  lemma LessComparesMoments(a: Timestamp, b: Timestamp)
    requires a.Valid() && b.Valid()
    ensures a.Less(b) <==> a.Ns() < b.Ns()
    ensures a.MillisecondLess(b) <==> a.Ms() < b.Ms()
    ensures a.MillisecondLess(b) ==> a.Less(b)
    ensures a.Ns() <= b.Ns() ==> a.Ms() <= b.Ms()
  {
    assert 0 <= a.nanosecond / NS_PER_MS < 1000 && 0 <= b.nanosecond / NS_PER_MS < 1000;
  }

  /** The distance is that of the rounded moments, whichever comes first. */
  lemma DistanceIsDifference(a: Timestamp, b: Timestamp)
    requires a.Valid() && b.Valid()
    ensures a.DistanceMillisecond(b) == (if a.Ms() <= b.Ms() then b.Ms() - a.Ms() else a.Ms() - b.Ms())
    ensures a.DistanceMillisecond(b) == b.DistanceMillisecond(a)
  {
    LessComparesMoments(a, b);
    LessComparesMoments(b, a);
  }
}
