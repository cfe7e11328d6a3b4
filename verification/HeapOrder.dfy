/** Binary heaps as sequences of keys with 1-based slots: slot 0 is never looked at. */
module HeapOrder {

  /** The key in slot i is not smaller than its parent's. */
  ghost predicate UpOk(keys: seq<int>, i: int)
    requires 2 <= i < |keys|
  {
    keys[i / 2] <= keys[i]
  }

  ghost predicate IsHeap(keys: seq<int>)
  {
    forall i {:trigger UpOk(keys, i)} | 2 <= i < |keys| :: UpOk(keys, i)
  }

  /** The children of cur are not smaller than the parent of cur. */
  ghost predicate SkipOk(keys: seq<int>, cur: int, i: int)
    requires 2 <= cur < |keys| && 2 <= i < |keys|
  {
    i / 2 == cur ==> keys[cur / 2] <= keys[i]
  }

  /** A heap, except that the key in slot cur may be too small for its place. */
  ghost predicate HeapBelow(keys: seq<int>, cur: int)
  {
    && 1 <= cur < |keys|
    && (forall i {:trigger UpOk(keys, i)} | 2 <= i < |keys| && i != cur :: UpOk(keys, i))
    && (2 <= cur ==> forall i {:trigger SkipOk(keys, cur, i)} | 2 <= i < |keys| :: SkipOk(keys, cur, i))
  }

  /** A heap, except that the key in slot cur may be too big for its place. */
  ghost predicate HeapAbove(keys: seq<int>, cur: int)
  {
    && 1 <= cur < |keys|
    && (forall i {:trigger UpOk(keys, i)} | 2 <= i < |keys| && i / 2 != cur :: UpOk(keys, i))
    && (2 <= cur ==> forall i {:trigger SkipOk(keys, cur, i)} | 2 <= i < |keys| :: SkipOk(keys, cur, i))
  }

  function Swapped<X>(s: seq<X>, i: int, j: int): (r: seq<X>)
    requires 0 <= i < |s| && 0 <= j < |s|
    ensures |r| == |s|
  {
    s[i := s[j]][j := s[i]]
  }

  /** A key smaller than its parent moves up; the trouble moves with it. */
  lemma MoveUp(keys: seq<int>, cur: int)
    requires HeapBelow(keys, cur) && 2 <= cur && keys[cur] < keys[cur / 2]
    ensures HeapBelow(Swapped(keys, cur, cur / 2), cur / 2)
  {
    var p := cur / 2;
    var s := Swapped(keys, cur, p);
    forall i | 2 <= i < |s| && i != p ensures UpOk(s, i) {
      assert i != cur ==> UpOk(keys, i);
      assert SkipOk(keys, cur, i);
    }
    if 2 <= p {
      assert UpOk(keys, p);
      forall i | 2 <= i < |s| ensures SkipOk(s, p, i) {
        assert i != cur ==> UpOk(keys, i);
      }
    }
  }

  /** A key bigger than its smaller child moves down; the trouble moves with it. */
  lemma MoveDown(keys: seq<int>, cur: int, child: int)
    requires HeapAbove(keys, cur) && child / 2 == cur && child < |keys| && keys[child] < keys[cur]
    requires child % 2 == 1 ==> keys[child] <= keys[child - 1]
    requires child % 2 == 0 && child + 1 < |keys| ==> keys[child] <= keys[child + 1]
    ensures HeapAbove(Swapped(keys, cur, child), child)
  {
    var s := Swapped(keys, cur, child);
    forall i | 2 <= i < |s| && i / 2 != child ensures UpOk(s, i) {
      assert i / 2 != cur ==> UpOk(keys, i);
      assert i / 2 == cur ==> i == child || i == child - 1 || i == child + 1;
      assert 2 <= cur ==> SkipOk(keys, cur, child);
    }
    forall i | 2 <= i < |s| ensures SkipOk(s, child, i) {
      assert i / 2 != cur ==> UpOk(keys, i);
    }
  }

  /** Once the key in slot cur is not smaller than its parent, or has none, all is well. */
  lemma UpDone(keys: seq<int>, cur: int)
    requires HeapBelow(keys, cur) && (cur == 1 || keys[cur / 2] <= keys[cur])
    ensures IsHeap(keys)
  {
    assert 2 <= cur ==> UpOk(keys, cur);
  }

  /** Once the key in slot cur is not bigger than any child, all is well. */
  lemma DownDone(keys: seq<int>, cur: int)
    requires HeapAbove(keys, cur)
    requires cur * 2 < |keys| ==> keys[cur] <= keys[cur * 2]
    requires cur * 2 + 1 < |keys| ==> keys[cur] <= keys[cur * 2 + 1]
    ensures IsHeap(keys)
  {
    forall i | 2 <= i < |keys| ensures UpOk(keys, i) {
      assert i / 2 != cur ==> UpOk(keys, i);
    }
  }

  /** The key in slot 1 is the smallest one. */
  lemma {:induction false} TopIsLeast(keys: seq<int>, i: int)
    requires IsHeap(keys) && 1 <= i < |keys|
    ensures keys[1] <= keys[i]
    decreases i
  {
    if i >= 2 {
      assert UpOk(keys, i);
      TopIsLeast(keys, i / 2);
    }
  }

  /** A new key at the end may only be too small. */
  lemma AppendedKey(keys: seq<int>, k: int)
    requires IsHeap(keys) && |keys| >= 1
    ensures HeapBelow(keys + [k], |keys|)
  {
    var s := keys + [k];
    forall i | 2 <= i < |s| && i != |keys| ensures UpOk(s, i) {
      assert UpOk(keys, i);
    }
  }

  /** Without its last key a heap is still one. */
  lemma DroppedKey(keys: seq<int>)
    requires IsHeap(keys) && |keys| >= 1
    ensures IsHeap(keys[..|keys| - 1])
  {
    var s := keys[..|keys| - 1];
    forall i | 2 <= i < |s| ensures UpOk(s, i) {
      assert UpOk(keys, i);
    }
  }

  /**
   The last key put in slot cur instead of another one: compared with its new parent it
   is too small, or else it may only be too big.
   */
  lemma ReplacedKey(keys: seq<int>, cur: int)
    requires IsHeap(keys) && 1 <= cur < |keys| - 1
    ensures var s := keys[..|keys| - 1][cur := keys[|keys| - 1]];
      if cur >= 2 && s[cur] < s[cur / 2] then HeapBelow(s, cur) else HeapAbove(s, cur)
  {
    var n := |keys| - 1;
    var s := keys[..n][cur := keys[n]];
    assert 2 <= cur ==> UpOk(keys, cur);
    forall i | 2 <= i < |s| ensures i != cur && i / 2 != cur ==> UpOk(s, i) {
      assert UpOk(keys, i);
    }
    if cur >= 2 {
      forall i | 2 <= i < |s| ensures SkipOk(s, cur, i) {
        assert UpOk(keys, i);
      }
    }
    if cur >= 2 && s[cur] < s[cur / 2] {
      forall i | 2 <= i < |s| && i != cur ensures UpOk(s, i) {
        assert UpOk(keys, i);
      }
    } else if cur >= 2 {
      assert UpOk(s, cur);
    }
  }

  /** The keys without the one at cur, whose place the last one takes. */
  ghost function Without(keys: seq<int>, cur: int): (s: seq<int>)
    requires 1 <= cur < |keys|
  {
    var n := |keys| - 1;
    if cur < n then keys[..n][cur := keys[n]] else keys[..n]
  }

  /** What is left is in order, or has one violation, upwards or downwards. */
  lemma KeyLeft(keys: seq<int>, cur: int)
    requires IsHeap(keys) && 1 <= cur < |keys|
    ensures var s := Without(keys, cur);
      if cur >= |s| then IsHeap(s)
      else if cur >= 2 && s[cur] < s[cur / 2] then HeapBelow(s, cur)
      else HeapAbove(s, cur)
  {
    if cur < |keys| - 1 {
      ReplacedKey(keys, cur);
    } else {
      DroppedKey(keys);
    }
  }
}
