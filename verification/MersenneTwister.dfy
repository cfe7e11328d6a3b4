/** The MT19937 generator: its sequence, and bounded draws from it. */
module MersenneTwister {

  import opened Words
  import opened Arithmetic
  import opened WordBits

  const N: nat := 624
  const M: nat := 397

  /** What one step makes of the upper bit of u and the lower bits of l. */
  function Twist(u: Word, l: Word): (t: Word)
  {
    var y := Or32(And32(u, 0x8000_0000), And32(l, 0x7fff_ffff));
    Xor32(ShiftRight(y, 1), if And32(y, 0x1) == 1 then 0x9908_b0df else 0)
  }

  function Temper(x: Word): (y: Word)
  {
    MixRight(MixLeft(MixLeft(MixRight(x, 11), 7, 0x9d2c_5680), 15, 0xefc6_0000), 18)
  }

  /** Tempering loses nothing: the words handed out are the words of the sequence,
      renamed one to one. */
  lemma TemperIsInjective(x: Word, y: Word)
    ensures Temper(x) == Temper(y) ==> x == y
  {
    var a, b := MixRight(x, 11), MixRight(y, 11);
    var c, d := MixLeft(a, 7, 0x9d2c_5680), MixLeft(b, 7, 0x9d2c_5680);
    MixRightIsInjective(MixLeft(c, 15, 0xefc6_0000), MixLeft(d, 15, 0xefc6_0000), 18);
    MixLeftIsInjective(c, d, 15, 0xefc6_0000);
    MixLeftIsInjective(a, b, 7, 0x9d2c_5680);
    MixRightIsInjective(x, y, 11);
  }

  /** The sequence the generator is defined by, from its first 624 words. */
  function X(init: seq<Word>, j: nat): (x: Word)
    requires |init| == N
  {
    if j < N then init[j]
    else Xor32(X(init, j - N + M), Twist(X(init, j - N), X(init, j - N + 1)))
  }

  /** The k-th number handed out after seeding. */
  function Output(init: seq<Word>, k: nat): (y: Word)
    requires |init| == N
  {
    Temper(X(init, N + k))
  }

  lemma Recurrence(init: seq<Word>, j: nat)
    requires |init| == N
    ensures X(init, j + N) == Xor32(X(init, j + M), Twist(X(init, j), X(init, j + 1)))
  {
  }

  // ---------- Seeding ----------

  function Stir(x: Word): (y: Word) { Xor32(x, ShiftRight(x, 30)) }

  function SeedWord(last: Word, i: nat): (x: Word)
    requires i < N
  {
    Add32(Mul32(1812433253, Stir(last)), i)
  }

  function KeyWord(x: Word, last: Word, key: Word, j: nat): (y: Word)
    requires j <= 0x7fff_ffff
  {
    Add32(Add32(Xor32(x, Mul32(Stir(last), 1664525)), key), j)
  }

  function RemixWord(x: Word, last: Word, i: nat): (y: Word)
    requires i < N
  {
    Sub32(Xor32(x, Mul32(Stir(last), 1566083941)), i)
  }

  /** The i-th word after seeding with one word. */
  function SeedAt(s: Word, i: nat): (x: Word)
    requires i < N
  {
    if i == 0 then s else SeedWord(SeedAt(s, i - 1), i)
  }

  function Seeded(s: Word): (w: seq<Word>)
    ensures |w| == N
    ensures forall i {:trigger w[i]} :: 0 <= i < N ==> w[i] == SeedAt(s, i)
  {
    seq(N, i requires 0 <= i < N => SeedAt(s, i))
  }

  /** Where the t-th of the mixing steps works: round and round over 1 .. 623. */
  function Place(t: nat): (i: nat)
    ensures 1 <= i < N
  {
    1 + t % 623
  }

  /** A word stored at i; the last word is also put in front for the next round. */
  function Stored(w: seq<Word>, i: nat, x: Word): (r: seq<Word>)
    requires |w| == N && 1 <= i < N
    ensures |r| == N
  {
    var v := w[i := x];
    if i == N - 1 then v[0 := x] else v
  }

  lemma PlaceNext(t: nat)
    ensures Place(t + 1) == if Place(t) + 1 >= N then 1 else Place(t) + 1
  {
    ModNext(t, 623);
  }

  lemma ModNext(t: nat, d: nat)
    requires d > 0
    ensures (t + 1) % d == if t % d + 1 >= d then 0 else t % d + 1
  {
    var q, r := t / d, t % d;
    assert t == d * q + r;
    if r + 1 < d {
      DivMod(t + 1, q, r + 1, d);
    } else {
      assert d * (q + 1) == d * q + d;
      DivMod(t + 1, q + 1, 0, d);
    }
  }

  /** t steps of mixing in a key, which is used over and over. */
  function KeyMixed(w: seq<Word>, key: seq<Word>, t: nat): (r: seq<Word>)
    requires |w| == N && 0 < |key| <= 0x7fff_ffff
    ensures |r| == N
    decreases t, w
  {
    if t == 0 then w
    else
      var v := KeyMixed(w, key, t - 1);
      var i, j := Place(t - 1), (t - 1) % |key|;
      Stored(v, i, KeyWord(v[i], v[i - 1], key[j], j))
  }

  /** t steps of the second mixing, which starts where the first ended. */
  function Remixed(w: seq<Word>, from: nat, t: nat): (r: seq<Word>)
    requires |w| == N
    ensures |r| == N
    decreases t, w
  {
    if t == 0 then w
    else
      var v := Remixed(w, from, t - 1);
      var i := Place(from + t - 1);
      Stored(v, i, RemixWord(v[i], v[i - 1], i))
  }

  lemma KeyMixedNext(w: seq<Word>, key: seq<Word>, t: nat)
    requires |w| == N && 0 < |key| <= 0x7fff_ffff
    ensures var v, i, j := KeyMixed(w, key, t), Place(t), t % |key|;
            KeyMixed(w, key, t + 1) == Stored(v, i, KeyWord(v[i], v[i - 1], key[j], j))
  {
  }

  lemma RemixedNext(w: seq<Word>, from: nat, t: nat)
    requires |w| == N
    ensures var v, i := Remixed(w, from, t), Place(from + t);
            Remixed(w, from, t + 1) == Stored(v, i, RemixWord(v[i], v[i - 1], i))
  {
  }

  function Rounds(keySize: nat): (k: nat) { if N > keySize then N else keySize }

  const KeySeed: Word := 19650218

  function KeySeeded(key: seq<Word>): (w: seq<Word>)
    requires 0 < |key| <= 0x7fff_ffff
    ensures |w| == N && w[0] == 0x8000_0000
  {
    var k := Rounds(|key|);
    Remixed(KeyMixed(Seeded(KeySeed), key, k), k, N - 1)[0 := 0x8000_0000]
  }
}
