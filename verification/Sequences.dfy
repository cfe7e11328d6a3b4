/** Sequences put together. */
module Sequences {

  lemma Associative<A>(a: seq<A>, b: seq<A>, c: seq<A>)
    ensures a + b + c == a + (b + c)
  {
  }

  function Joined<A>(parts: seq<seq<A>>): (s: seq<A>)
  {
    if parts == [] then [] else parts[0] + Joined(parts[1..])
  }

  lemma {:induction false} JoinedAppend<A>(parts: seq<seq<A>>, last: seq<A>)
    ensures Joined(parts + [last]) == Joined(parts) + last
  {
    if parts == [] {
      assert (parts + [last])[1..] == [];
    } else {
      assert (parts + [last])[1..] == parts[1..] + [last];
      JoinedAppend(parts[1..], last);
      Associative(parts[0], Joined(parts[1..]), last);
    }
  }
}
