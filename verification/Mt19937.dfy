/** The generator object, which makes 624 words at a time in place. */
module Mt19937s {
  import opened Words
  import opened MersenneTwister
  import opened BoundedDraws

  /** The array when the first i words of the next block are made:
      they follow the words from i on that are still of the last block. */
  ghost predicate HalfMade(init: seq<Word>, mt: seq<Word>, base: nat, i: nat)
  {
    && |init| == N && |mt| == N && i <= N
    && (forall k {:trigger mt[k]} :: 0 <= k < i ==> mt[k] == X(init, base + N + k))
    && (forall k {:trigger mt[k]} :: i <= k < N ==> mt[k] == X(init, base + k))
  }

  /** One word made from the array as it stands; where the other term lies depends
      on how far the block is made. */
  lemma WordMade(init: seq<Word>, mt: seq<Word>, base: nat, i: nat)
    requires HalfMade(init, mt, base, i) && i < N
    ensures var other := mt[if i < N - M then i + M else i + M - N];
            var next := mt[if i + 1 < N then i + 1 else 0];
            X(init, base + N + i) == Xor32(other, Twist(mt[i], next))
  {
    Recurrence(init, base + i);
    assert base + i + N == base + N + i;
    if i < N - M {
      assert mt[i + M] == X(init, base + (i + M));
      assert mt[i + 1] == X(init, base + (i + 1));
    } else {
      assert mt[i + M - N] == X(init, base + N + (i + M - N));
      if i + 1 < N {
        assert mt[i + 1] == X(init, base + (i + 1));
      } else {
        assert mt[0] == X(init, base + N + 0);
      }
    }
    assert mt[i] == X(init, base + i);
  }

  lemma HalfMadeNext(init: seq<Word>, mt: seq<Word>, base: nat, i: nat, x: Word)
    requires HalfMade(init, mt, base, i) && i < N && x == X(init, base + N + i)
    ensures HalfMade(init, mt[i := x], base, i + 1)
  {
  }

  /** The first output from the k-th on that is not thrown away; one comes within wait. */
  ghost function FirstKept(init: seq<Word>, max: Word, k: nat, wait: nat): (n: nat)
    requires |init| == N && max >= 2
    requires Output(init, k + wait) >= DropThreshold(max)
    ensures k <= n <= k + wait && Output(init, n) >= DropThreshold(max)
    ensures forall i: nat {:trigger Output(init, i)} :: k <= i < n ==> Output(init, i) < DropThreshold(max)
    decreases wait
  {
    if Output(init, k) >= DropThreshold(max) then k else FirstKept(init, max, k + 1, wait - 1)
  }

  class Mt19937 {
    const mt: array<Word>
    var mti: nat
    ghost var init: seq<Word>
    ghost var made: nat

    /** made words of the sequence lie before the block in the array. */
    ghost predicate Valid()
      reads this, mt
    {
      && mt.Length == N
      && mti <= N <= made + mti
      && HalfMade(init, mt[..], made, 0)
    }

    /** How many numbers have been handed out. */
    ghost function Drawn(): (k: nat)
      requires Valid()
      reads this, mt
    {
      made + mti - N
    }

    constructor (s: Word)
      ensures Valid() && fresh(mt)
      ensures init == Seeded(s) && Drawn() == 0
    {
      mt := new Word[N];
      new;
      Seed(s);
    }

    constructor ByKey(key: seq<Word>)
      requires 0 < |key| <= 0x7fff_ffff
      ensures Valid() && fresh(mt)
      ensures init == KeySeeded(key) && Drawn() == 0
    {
      mt := new Word[N];
      new;
      SeedByKey(key);
    }

    method Seed(s: Word)
      requires mt.Length == N
      modifies this, mt
      ensures Valid() && mti == N && mt[..] == init
      ensures init == Seeded(s) && Drawn() == 0
    {
      mt[0] := s;
      mti := 1;
      while mti < N
        invariant 1 <= mti <= N
        invariant forall k {:trigger mt[k]} :: 0 <= k < mti ==> mt[k] == SeedAt(s, k)
      {
        mt[mti] := SeedWord(mt[mti - 1], mti);
        mti := mti + 1;
      }
      init := mt[..];
      made := 0;
    }

    method SeedByKey(key: seq<Word>)
      requires mt.Length == N && 0 < |key| <= 0x7fff_ffff
      modifies this, mt
      ensures Valid()
      ensures init == KeySeeded(key) && Drawn() == 0
    {
      Seed(KeySeed);
      var start := MixKey(key);
      Remix(Rounds(|key|), start);
      ghost var mixed := mt[..];
      mt[0] := 0x8000_0000;
      assert mt[..] == mixed[0 := 0x8000_0000];
      init := mt[..];
      made := 0;
    }

    /** Stores a word; the last place is also carried to the front. */
    method Store(i: nat, x: Word)
      requires mt.Length == N && 1 <= i < N
      modifies mt
      ensures mt[..] == Stored(old(mt[..]), i, x)
    {
      mt[i] := x;
      if i + 1 >= N {
        mt[0] := mt[N - 1];
      }
    }

    method MixKey(key: seq<Word>) returns (i: nat)
      requires mt.Length == N && 0 < |key| <= 0x7fff_ffff
      modifies mt
      ensures mt[..] == KeyMixed(old(mt[..]), key, Rounds(|key|))
      ensures i == Place(Rounds(|key|))
    {
      var j := 0;
      i := 1;
      var k := Rounds(|key|);
      ghost var t := 0;
      while k > 0
        invariant 0 <= k && t + k == Rounds(|key|)
        invariant i == Place(t) && j == t % |key|
        invariant mt[..] == KeyMixed(old(mt[..]), key, t)
      {
        PlaceNext(t);
        ModNext(t, |key|);
        KeyMixedNext(old(mt[..]), key, t);
        Store(i, KeyWord(mt[i], mt[i - 1], key[j], j));
        i := if i + 1 >= N then 1 else i + 1;
        j := if j + 1 >= |key| then 0 else j + 1;
        k, t := k - 1, t + 1;
      }
    }

    method Remix(ghost from: nat, start: nat)
      requires mt.Length == N && start == Place(from)
      modifies mt
      ensures mt[..] == Remixed(old(mt[..]), from, N - 1)
    {
      var i := start;
      var k := N - 1;
      ghost var t, n := 0, from;
      while k > 0
        invariant 0 <= k && t + k == N - 1
        invariant n == from + t && i == Place(n)
        invariant mt[..] == Remixed(old(mt[..]), from, t)
      {
        PlaceNext(n);
        RemixedNext(old(mt[..]), from, t);
        Store(i, RemixWord(mt[i], mt[i - 1], i));
        i := if i + 1 >= N then 1 else i + 1;
        k, t, n := k - 1, t + 1, n + 1;
      }
    }

    /** Makes the i-th word of the next block in its place. */
    method MakeWord(i: nat, other: nat, next: nat)
      requires HalfMade(init, mt[..], made, i) && i < N
      requires other == if i < N - M then i + M else i + M - N
      requires next == if i + 1 < N then i + 1 else 0
      modifies mt
      ensures HalfMade(init, mt[..], made, i + 1)
    {
      WordMade(init, mt[..], made, i);
      ghost var was := mt[..];
      var x := Xor32(mt[other], Twist(mt[i], mt[next]));
      HalfMadeNext(init, was, made, i, x);
      mt[i] := x;
      assert mt[..] == was[i := x];
    }

    /** The next 624 words, each overwriting one of the last. */
    method Regenerate()
      requires Valid() && mti == N
      modifies this, mt
      ensures Valid() && mti == 0 && made == old(made) + N && init == old(init)
    {
      var i := 0;
      while i < N - M
        invariant i <= N - M
        invariant HalfMade(init, mt[..], made, i)
        invariant init == old(init) && made == old(made)
      {
        MakeWord(i, i + M, i + 1);
        i := i + 1;
      }
      while i < N - 1
        invariant N - M <= i <= N - 1
        invariant HalfMade(init, mt[..], made, i)
        invariant init == old(init) && made == old(made)
      {
        MakeWord(i, i + M - N, i + 1);
        i := i + 1;
      }
      MakeWord(N - 1, M - 1, 0);
      mti := 0;
      made := made + N;
    }

    /** The k-th call after seeding hands out the k-th tempered word. */
    method NextInt() returns (y: Word)
      requires Valid()
      modifies this, mt
      ensures Valid() && init == old(init)
      ensures y == Output(init, old(Drawn())) && Drawn() == old(Drawn()) + 1
    {
      if mti >= N {
        Regenerate();
      }
      assert mt[..][mti] == X(init, made + mti);
      y := mt[mti];
      mti := mti + 1;
      y := Xor32(y, ShiftRight(y, 11));
      y := Xor32(y, And32(ShiftLeft(y, 7), 0x9d2c_5680));
      y := Xor32(y, And32(ShiftLeft(y, 15), 0xefc6_0000));
      y := Xor32(y, ShiftRight(y, 18));
    }

    /** A number below max: the first word kept, reduced. */
    method NextIntBelow(max: Word, ghost wait: nat) returns (r: Word)
      requires Valid()
      requires max >= 2 ==> Output(init, Drawn() + wait) >= DropThreshold(max)
      modifies this, mt
      ensures Valid() && init == old(init)
      ensures max <= 1 ==> r == 0 && Drawn() == old(Drawn())
      ensures max >= 2 ==>
                var n := FirstKept(init, max, old(Drawn()), wait);
                r == Output(init, n) % max && r < max && Drawn() == n + 1
    {
      if max <= 1 {
        return 0;
      }
      var drop := DropThreshold(max);
      r := DrawKept(drop, max, wait);
      r := r % max;
    }

    /** Draws until a word is not below the threshold. */
    method DrawKept(drop: Word, ghost max: Word, ghost wait: nat) returns (r: Word)
      requires Valid() && max >= 2 && drop == DropThreshold(max)
      requires Output(init, Drawn() + wait) >= drop
      modifies this, mt
      ensures Valid() && init == old(init)
      ensures var n := FirstKept(init, max, old(Drawn()), wait);
              r == Output(init, n) && Drawn() == n + 1
    {
      ghost var first := FirstKept(init, max, Drawn(), wait);
      r := NextInt();
      while r < drop
        invariant Valid() && init == old(init)
        invariant old(Drawn()) < Drawn() <= first + 1
        invariant r == Output(init, Drawn() - 1)
        decreases first + 1 - Drawn()
      {
        assert Drawn() - 1 != first;
        r := NextInt();
      }
    }

    /** A number from min to max, both included. */
    method NextIntBetween(min: Word, max: Word, ghost wait: nat) returns (r: Word)
      requires Valid()
      requires min < max && max - min < WordCount - 1 ==>
                 Output(init, Drawn() + wait) >= DropThreshold(max - min + 1)
      modifies this, mt
      ensures Valid() && init == old(init)
      ensures min >= max ==> r == min && Drawn() == old(Drawn())
      ensures min < max ==> min <= r <= max
      ensures min < max && max - min == WordCount - 1 ==>
                r == Output(init, old(Drawn())) && Drawn() == old(Drawn()) + 1
      ensures min < max && max - min < WordCount - 1 ==>
                var n := FirstKept(init, max - min + 1, old(Drawn()), wait);
                r == Between(min, max, Output(init, n)) && Drawn() == n + 1
    {
      if min >= max {
        return min;
      }
      var offset := Sub32(max, min);
      if offset == WordCount - 1 {
        r := NextInt();
      } else {
        r := NextIntBelow(offset + 1, wait);
        r := Add32(min, r);
      }
    }
  }
}
