/** Seeding with a key, word by word: what the two mixing passes leave in every place. */
module KeySeeding {
  import opened Words
  import opened MersenneTwister

  /** The i-th word when the first pass has come by. */
  function MixedAt(key: seq<Word>, i: nat): (k: Word)
    requires 0 < |key| <= N && i < N
  {
    if i == 0 then SeedAt(KeySeed, 0)
    else
      var j := (i - 1) % |key|;
      KeyWord(SeedAt(KeySeed, i), MixedAt(key, i - 1), key[j], j)
  }

  /** The first pass ends where it began: word 1 is mixed a second time, behind the last. */
  function MixedAgain(key: seq<Word>): (k: Word)
    requires 0 < |key| <= N
  {
    var j := (N - 1) % |key|;
    KeyWord(MixedAt(key, 1), MixedAt(key, N - 1), key[j], j)
  }

  /** The i-th word when the second pass has come by, which begins behind word 1. */
  function RemixedAt(key: seq<Word>, i: nat): (r: Word)
    requires 0 < |key| <= N && 1 <= i < N
  {
    if i == 1 then MixedAgain(key) else RemixWord(MixedAt(key, i), RemixedAt(key, i - 1), i)
  }

  lemma MixedNext(key: seq<Word>, i: nat)
    requires 0 < |key| <= N && i + 1 < N
    ensures var j := i % |key|;
            MixedAt(key, i + 1) == KeyWord(SeedAt(KeySeed, i + 1), MixedAt(key, i), key[j], j)
  {
  }

  lemma RemixedFirst(key: seq<Word>)
    requires 0 < |key| <= N
    ensures RemixedAt(key, 1) == MixedAgain(key)
  {
  }

  lemma RemixedFurther(key: seq<Word>, i: nat)
    requires 0 < |key| <= N && 1 <= i && i + 1 < N
    ensures RemixedAt(key, i + 1) == RemixWord(MixedAt(key, i + 1), RemixedAt(key, i), i + 1)
  {
  }

  /** Word by word after t steps of the first pass. */
  ghost predicate Passed(key: seq<Word>, t: nat, w: seq<Word>)
    requires 0 < |key| <= N && t < N && |w| == N
  {
    && w[0] == (if t < N - 1 then SeedAt(KeySeed, 0) else MixedAt(key, N - 1))
    && forall p :: 1 <= p < N ==> w[p] == if p <= t then MixedAt(key, p) else SeedAt(KeySeed, p)
  }

  lemma PassedNext(key: seq<Word>, t: nat, w: seq<Word>, k: Word)
    requires 0 < |key| <= N && t + 1 < N && |w| == N && Passed(key, t, w)
    requires MixedAt(key, t + 1) == k
    ensures Passed(key, t + 1, Stored(w, t + 1, k))
  {
    hide SeedAt, MixedAt;
  }

  lemma PassedHere(key: seq<Word>, t: nat, w: seq<Word>)
    requires 0 < |key| <= N && t + 1 < N && |w| == N && Passed(key, t, w)
    ensures w[t + 1] == SeedAt(KeySeed, t + 1) && w[t] == MixedAt(key, t)
  {
    hide SeedAt;
  }

  lemma NothingPassed(key: seq<Word>)
    requires 0 < |key| <= N
    ensures Passed(key, 0, Seeded(KeySeed))
  {
    hide SeedAt, MixedAt;
  }

  lemma {:induction false} MixedWords(key: seq<Word>, t: nat)
    requires 0 < |key| <= N && t < N
    ensures Passed(key, t, KeyMixed(Seeded(KeySeed), key, t))
    decreases t
  {
    hide KeyWord, Place, SeedAt, MixedAt;
    if t == 0 {
      NothingPassed(key);
    } else {
      hide Passed, KeyMixed;
      MixedWords(key, t - 1);
      MixedNext(key, t - 1);
      KeyMixedNext(Seeded(KeySeed), key, t - 1);
      PlaceIs(t - 1, 0);
      var w := KeyMixed(Seeded(KeySeed), key, t - 1);
      PassedHere(key, t - 1, w);
      PassedNext(key, t - 1, w, MixedAt(key, t));
    }
  }

  lemma PlaceIs(t: nat, round: nat)
    requires round * 623 <= t < (round + 1) * 623
    ensures Place(t) == 1 + t - round * 623
  {
  }

  lemma AllMixed(key: seq<Word>)
    requires 0 < |key| <= N
    ensures var w := KeyMixed(Seeded(KeySeed), key, N);
            && w[0] == MixedAt(key, N - 1) && w[1] == MixedAgain(key)
            && forall p :: 2 <= p < N ==> w[p] == MixedAt(key, p)
  {
    hide KeyMixed, KeyWord, SeedAt, Place, MixedAt;
    MixedWords(key, N - 1);
    KeyMixedNext(Seeded(KeySeed), key, N - 1);
    PlaceIs(N - 1, 1);
  }

  lemma {:induction false} RemixedWords(key: seq<Word>, w: seq<Word>, t: nat)
    requires 0 < |key| <= N && t < N - 1
    requires |w| == N && w[1] == MixedAgain(key) && forall p :: 2 <= p < N ==> w[p] == MixedAt(key, p)
    ensures var v := Remixed(w, N, t);
            && (t == N - 2 ==> v[0] == RemixedAt(key, N - 1))
            && forall p :: 1 <= p < N ==> v[p] == if p <= t + 1 then RemixedAt(key, p) else MixedAt(key, p)
    decreases t
  {
    hide RemixWord, SeedAt, Place, MixedAt, MixedAgain, RemixedAt;
    if t == 0 {
      RemixedFirst(key);
    } else {
      RemixedWords(key, w, t - 1);
      RemixedFurther(key, t);
      RemixedNext(w, N, t - 1);
      PlaceIs(N + t - 1, 1);
    }
  }

  /** What is left in every place: word 1 once more, behind the last, and a one bit and
      31 zeros in front. */
  lemma KeySeededAt(key: seq<Word>, i: nat)
    requires 0 < |key| <= N && i < N
    ensures KeySeeded(key)[i] ==
            if i == 0 then 0x8000_0000
            else if i == 1 then RemixWord(MixedAgain(key), RemixedAt(key, N - 1), 1)
            else RemixedAt(key, i)
  {
    hide KeyMixed, Remixed, KeyWord, RemixWord, SeedAt, Place, MixedAt, RemixedAt, MixedAgain;
    var w := KeyMixed(Seeded(KeySeed), key, N);
    AllMixed(key);
    RemixedFirst(key);
    RemixedWords(key, w, N - 2);
    RemixedNext(w, N, N - 2);
    PlaceIs(2 * N - 2, 2);
    assert KeySeeded(key) == Remixed(w, N, N - 1)[0 := 0x8000_0000];
  }

  lemma NoWrap(j: nat, n: nat)
    requires j < n
    ensures j % n == j
  {
  }

  /** The first pass is just long enough to use every word of the key and to come by every
      place, even where the key is longer than the sequence's first words. */
  lemma FirstPassIsLongEnough(n: nat, j: nat, i: nat)
    requires 0 < n && j < n && 1 <= i < N
    ensures exists t :: 0 <= t < Rounds(n) && t % n == j
    ensures exists t :: 0 <= t < Rounds(n) && Place(t) == i
    ensures Rounds(n) == N || Rounds(n) == n
  {
    hide Place;
    NoWrap(j, n);
    assert j < Rounds(n) && j % n == j;
    PlaceIs(i - 1, 0);
    assert i - 1 < Rounds(n) && Place(i - 1) == i;
  }
}
