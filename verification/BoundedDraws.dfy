/** Numbers below a bound from words below 2^32, by rejection. */
module BoundedDraws {

  import opened Words
  import opened Arithmetic

  /** WordCount below this are thrown away; the subtraction wraps as in 32 bits. */
  function DropThreshold(max: nat): (t: nat)
    requires 2 <= max < WordCount
  {
    Sub32(0, max) % max
  }

  /** The threshold is 2^32 mod max, so what is kept is a whole number of rounds. */
  lemma ThresholdIsRemainder(max: nat)
    requires 2 <= max < WordCount
    ensures DropThreshold(max) == WordCount % max
    ensures WordCount - DropThreshold(max) == max * (WordCount / max)
  {
    assert Sub32(0, max) == WordCount - max;
    var q, r := WordCount / max, WordCount % max;
    assert WordCount == max * q + r;
    assert WordCount - max == max * (q - 1) + r;
    DivMod(WordCount - max, q - 1, r, max);
  }

  /** The words from t on, q rounds of max of them, that give v. */
  function Giving(t: nat, q: nat, max: nat, v: nat): (s: set<nat>)
    requires 0 < max
  {
    set r: nat | t <= r < t + max * q && r % max == v
  }

  /** The one word among max successive ones that gives v. */
  function Pick(a: nat, max: nat, v: nat): (r: nat)
    requires v < max
    ensures a <= r < a + max && r % max == v
  {
    var q, s := a / max, a % max;
    assert a == max * q + s;
    if s <= v then
      DivMod(max * q + v, q, v, max);
      max * q + v
    else
      assert max * (q + 1) == max * q + max;
      DivMod(max * (q + 1) + v, q + 1, v, max);
      max * (q + 1) + v
  }

  lemma PickIsOnly(a: nat, max: nat, v: nat, r: nat)
    requires v < max && a <= r < a + max && r % max == v
    ensures r == Pick(a, max, v)
  {
    var p := Pick(a, max, v);
    var i, j := r / max, p / max;
    assert r == max * i + v;
    assert p == max * j + v;
    Distribute(max, i, j);
    if i != j {
      MultipleIsFar(max, i - j);
    }
  }

  lemma {:induction false} RoundsGiveOneEach(t: nat, q: nat, max: nat, v: nat)
    requires v < max
    ensures |Giving(t, q, max, v)| == q
  {
    if q > 0 {
      RoundsGiveOneEach(t, q - 1, max, v);
      var a := t + max * (q - 1);
      assert max * q == max * (q - 1) + max;
      var p := Pick(a, max, v);
      forall r: nat | a <= r < a + max && r % max == v
        ensures r == p
      {
        PickIsOnly(a, max, v, r);
      }
      assert Giving(t, q, max, v) == Giving(t, q - 1, max, v) + {p};
    } else {
      assert Giving(t, q, max, v) == {};
    }
  }

  /** The words that are kept and give v. */
  function Accepted(max: nat, v: nat): (s: set<nat>)
    requires 2 <= max < WordCount
  {
    set r: nat | DropThreshold(max) <= r < WordCount && r % max == v
  }

  /** Every result below max stands for exactly as many words. */
  lemma DrawsAreUniform(max: nat, v: nat)
    requires 2 <= max < WordCount && v < max
    ensures |Accepted(max, v)| == WordCount / max
  {
    ThresholdIsRemainder(max);
    RoundsGiveOneEach(DropThreshold(max), WordCount / max, max, v);
    assert Accepted(max, v) == Giving(DropThreshold(max), WordCount / max, max, v);
  }

  /** What a kept word gives as a number from min to max. */
  function Between(min: nat, max: nat, word: nat): (n: nat)
    requires min <= max
    ensures min <= n <= max
  {
    min + word % (max - min + 1)
  }

  /** The number above min is the one within the range that the word leaves as remainder. */
  lemma BetweenIsRemainder(min: nat, max: nat, word: nat, n: nat)
    requires min <= n <= max
    ensures Between(min, max, word) == n <==> (word - (n - min)) % (max - min + 1) == 0
  {
    var size, r := max - min + 1, n - min;
    var k := word / size;
    if Between(min, max, word) == n {
      DivMod(word - r, k, 0, size);
    }
    if (word - r) % size == 0 {
      DivMod(word, (word - r) / size, r, size);
    }
  }

  /** The words that are kept and give v as a number from min to max. */
  function AcceptedBetween(min: nat, max: nat, v: nat): (s: set<nat>)
    requires min < max < WordCount && max - min < WordCount - 1
  {
    set r: nat | DropThreshold(max - min + 1) <= r < WordCount && Between(min, max, r) == v
  }

  /** So does every result from min to max. */
  lemma RangeDrawsAreUniform(min: nat, max: nat, v: nat)
    requires min < max < WordCount && max - min < WordCount - 1 && min <= v <= max
    ensures |AcceptedBetween(min, max, v)| == WordCount / (max - min + 1)
  {
    DrawsAreUniform(max - min + 1, v - min);
    assert AcceptedBetween(min, max, v) == Accepted(max - min + 1, v - min);
  }

  /** More than half of all words are kept. */
  lemma MostAreKept(max: nat)
    requires 2 <= max < WordCount
    ensures 2 * (WordCount - DropThreshold(max)) > WordCount
  {
    ThresholdIsRemainder(max);
    var q := WordCount / max;
    assert WordCount == max * q + WordCount % max;
    assert q >= 1;
    assert max * q >= max;
  }
}
