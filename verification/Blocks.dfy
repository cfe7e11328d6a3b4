/** Messages taken block by block, whatever is done with a block. */
module Blocks {
  import opened Bytes

  type Block = b: seq<Byte> | |b| == 64 witness seq(64, i => 0)

  /** The state after all the full blocks of s. */
  function Folded<S>(f: (S, Block) -> S, h: S, s: seq<Byte>): (r: S)
    decreases |s|
  {
    if |s| < 64 then h else Folded(f, f(h, s[..64]), s[64..])
  }

  lemma {:induction false} FoldedInParts<S>(f: (S, Block) -> S, h: S, a: seq<Byte>, b: seq<Byte>)
    requires |a| % 64 == 0
    ensures Folded(f, h, a + b) == Folded(f, Folded(f, h, a), b)
    decreases |a|
  {
    if a == [] {
      assert a + b == b;
    } else {
      assert (a + b)[..64] == a[..64];
      assert (a + b)[64..] == a[64..] + b;
      FoldedInParts(f, f(h, a[..64]), a[64..], b);
    }
  }

  /** One more block. */
  lemma FoldedNext<S>(f: (S, Block) -> S, h: S, a: seq<Byte>, block: Block)
    requires |a| % 64 == 0
    ensures Folded(f, h, a + block) == f(Folded(f, h, a), block)
  {
    FoldedInParts(f, h, a, block);
    assert block[..64] == block;
    assert |block[64..]| < 64;
  }

  /** The part of s in full blocks, and the part behind them. */
  function Whole(s: seq<Byte>): (w: seq<Byte>)
    ensures |w| % 64 == 0
  {
    s[..|s| - |s| % 64]
  }

  function Rest(s: seq<Byte>): (r: seq<Byte>)
    ensures |r| == |s| % 64
    ensures Whole(s) + r == s
  {
    s[|s| - |s| % 64..]
  }

  /** What lies behind the full blocks does not matter yet. */
  lemma RestIsIgnored<S>(f: (S, Block) -> S, h: S, s: seq<Byte>)
    ensures Folded(f, h, s) == Folded(f, h, Whole(s))
  {
    FoldedInParts(f, h, Whole(s), Rest(s));
  }

  lemma SplitAt(a: seq<Byte>, r: seq<Byte>)
    requires |a| % 64 == 0 && |r| < 64
    ensures Whole(a + r) == a && Rest(a + r) == r
  {
  }
}
