/** Pieces of text as the HTTP codec handles them: searching, splitting, trimming,
    numbers, and header fields in the order of their keys. */
module HttpText {
  import opened Bytes
  import opened Options
  import opened Arithmetic

  type Text = seq<Byte>

  const CR: Byte := 13
  const LF: Byte := 10
  const Space: Byte := 32
  const Colon: Byte := 58

  function CrLf(): (t: Text) { [CR, LF] }

  predicate Lacks(s: Text, c: Byte) { forall i :: 0 <= i < |s| ==> s[i] != c }

  // ---------- Searching ----------

  predicate OccursAt(s: Text, k: Text, i: nat) { i + |k| <= |s| && s[i..i + |k|] == k }

  /** Where k first occurs in s. */
  function Find(s: Text, k: Text): (r: Option<nat>)
    requires k != []
    ensures r.Some? ==> r.value + |k| <= |s|
    decreases |s|
  {
    if |s| < |k| then None
    else if s[..|k|] == k then Some(0)
    else
      var later := Find(s[1..], k);
      if later.None? then None else Some(later.value + 1)
  }

  lemma OccursFurther(s: Text, k: Text, i: nat)
    requires s != []
    ensures OccursAt(s, k, i + 1) <==> OccursAt(s[1..], k, i)
  {
    if i + 1 + |k| <= |s| {
      assert s[1..][i..i + |k|] == s[i + 1..i + 1 + |k|];
    }
  }

  /** It is found exactly where it occurs first. */
  lemma {:induction false} FindIsFirst(s: Text, k: Text, i: nat)
    requires k != []
    ensures Find(s, k) == Some(i) <==> OccursAt(s, k, i) && forall j: nat :: j < i ==> !OccursAt(s, k, j)
    decreases |s|
  {
    if |s| >= |k| {
      if s[..|k|] == k {
        assert OccursAt(s, k, 0);
      } else {
        assert !OccursAt(s, k, 0);
        if i > 0 {
          FindIsFirst(s[1..], k, i - 1);
          OccursFurther(s, k, i - 1);
          forall j: nat | j < i - 1
            ensures OccursAt(s, k, j + 1) <==> OccursAt(s[1..], k, j)
          {
            OccursFurther(s, k, j);
          }
          if Find(s, k) == Some(i) {
            forall j: nat | j < i
              ensures !OccursAt(s, k, j)
            {
              if j > 0 {
                assert !OccursAt(s[1..], k, j - 1);
              }
            }
          }
        }
      }
    }
  }

  lemma {:induction false} FindNone(s: Text, k: Text, i: nat)
    requires k != [] && Find(s, k).None?
    ensures !OccursAt(s, k, i)
    decreases |s|
  {
    if |s| >= |k| && i > 0 {
      OccursFurther(s, k, i - 1);
      FindNone(s[1..], k, i - 1);
    }
  }

  lemma OccursInPrefix(s: Text, t: Text, k: Text, i: nat)
    requires i + |k| <= |s|
    ensures OccursAt(s + t, k, i) <==> OccursAt(s, k, i)
  {
    assert (s + t)[i..i + |k|] == s[i..i + |k|];
  }

  /** More text behind does not change where something was found; what was not found
      can only be found reaching beyond the old end. */
  lemma FindIsStable(s: Text, t: Text, k: Text)
    requires k != []
    ensures Find(s, k).Some? ==> Find(s + t, k) == Find(s, k)
    ensures Find(s, k).None? && Find(s + t, k).Some? ==> Find(s + t, k).value + |k| > |s|
  {
    var f := Find(s, k);
    if f.Some? {
      FindIsFirst(s, k, f.value);
      OccursInPrefix(s, t, k, f.value);
      forall j: nat | j < f.value
        ensures !OccursAt(s + t, k, j)
      {
        OccursInPrefix(s, t, k, j);
      }
      FindIsFirst(s + t, k, f.value);
    } else if Find(s + t, k).Some? {
      var i := Find(s + t, k).value;
      FindIsFirst(s + t, k, i);
      if i + |k| <= |s| {
        OccursInPrefix(s, t, k, i);
        FindNone(s, k, i);
      }
    }
  }

  lemma StartsAlike(s: Text, k: Text, i: nat)
    requires k != []
    ensures OccursAt(s, k, i) ==> s[i] == k[0]
  {
    if OccursAt(s, k, i) {
      assert s[i..i + |k|][0] == s[i];
    }
  }

  /** Text without the first byte of k, then k: it is found behind the text. */
  lemma FindBehind(a: Text, k: Text, b: Text)
    requires k != [] && Lacks(a, k[0])
    ensures Find(a + k + b, k) == Some(|a|)
  {
    var s := a + k + b;
    assert s[|a|..|a| + |k|] == k;
    forall j: nat | j < |a|
      ensures !OccursAt(s, k, j)
    {
      assert s[j] == a[j];
      StartsAlike(s, k, j);
    }
    FindIsFirst(s, k, |a|);
  }

  // ---------- Splitting ----------

  /** The parts of s between separators, at most limit of them unless that is 0. */
  function Split(s: Text, sep: Text, limit: nat): (parts: seq<Text>)
    requires sep != []
    ensures parts != []
    decreases |s|
  {
    if limit == 1 then [s]
    else
      var next := Find(s, sep);
      if next.None? then [s]
      else [s[..next.value]] + Split(s[next.value + |sep|..], sep, if limit == 0 then 0 else limit - 1)
  }

  lemma SplitFront(a: Text, sep: Text, b: Text, limit: nat)
    requires sep != [] && Lacks(a, sep[0]) && limit != 1
    ensures Split(a + sep + b, sep, limit) == [a] + Split(b, sep, if limit == 0 then 0 else limit - 1)
  {
    FindBehind(a, sep, b);
    var s := a + sep + b;
    assert s[..|a|] == a && s[|a| + |sep|..] == b;
  }

  lemma NotFound(a: Text, k: Text)
    requires k != [] && Lacks(a, k[0])
    ensures Find(a, k).None?
  {
    if Find(a, k).Some? {
      FindIsFirst(a, k, Find(a, k).value);
      StartsAlike(a, k, Find(a, k).value);
    }
  }

  // ---------- Trimming ----------

  predicate IsBlank(c: Byte) { c == 32 || c == 9 }

  function TrimLeft(s: Text): (t: Text)
  {
    if s != [] && IsBlank(s[0]) then TrimLeft(s[1..]) else s
  }

  function TrimRight(s: Text): (t: Text)
  {
    if s != [] && IsBlank(s[|s| - 1]) then TrimRight(s[..|s| - 1]) else s
  }

  function Trim(s: Text): (t: Text) { TrimRight(TrimLeft(s)) }

  predicate Trimmed(s: Text) { s == [] || (!IsBlank(s[0]) && !IsBlank(s[|s| - 1])) }

  lemma TrimOfTrimmed(s: Text)
    requires Trimmed(s)
    ensures Trim(s) == s && Trim([Space] + s) == s
  {
    assert ([Space] + s)[1..] == s;
  }

  /** A C string ends at the first zero byte. */
  function CStr(s: Text): (t: Text)
  {
    if s == [] || s[0] == 0 then [] else [s[0]] + CStr(s[1..])
  }

  lemma {:induction false} CStrOfText(s: Text)
    requires Lacks(s, 0)
    ensures CStr(s) == s
  {
    if s != [] {
      CStrOfText(s[1..]);
    }
  }

  // ---------- Numbers ----------

  predicate IsDigit(c: Byte) { 48 <= c <= 57 }

  predicate IsSpaceForNumbers(c: Byte) { c == 32 || 9 <= c <= 13 }

  /** The value of the leading digits, behind v. */
  function Digits(s: Text, v: nat): (n: nat)
    decreases |s|
  {
    if s == [] || !IsDigit(s[0]) then v else Digits(s[1..], 10 * v + (s[0] - 48))
  }

  function SkipSpace(s: Text): (t: Text)
  {
    if s != [] && IsSpaceForNumbers(s[0]) then SkipSpace(s[1..]) else s
  }

  /** The number a text begins with: blanks, a sign, digits, and whatever follows. */
  function Leading(s: Text): (n: int)
  {
    var t := SkipSpace(s);
    if t != [] && t[0] == 45 then 0 - Digits(t[1..], 0)
    else if t != [] && t[0] == 43 then Digits(t[1..], 0)
    else Digits(t, 0)
  }

  /** As atoi of a 64-bit C library reads it: within long by saturation, and then
      narrowed to int. */
  function Atoi(s: Text): (n: int)
    ensures IsInt32(n)
    ensures IsInt32(Leading(s)) ==> n == Leading(s)
  {
    NarrowToInt(Saturated(Leading(s)))
  }

  function Saturated(n: int): (m: int)
  {
    if n >= 0x8000_0000_0000_0000 then 0x7fff_ffff_ffff_ffff
    else if n < -0x8000_0000_0000_0000 then -0x8000_0000_0000_0000
    else n
  }

  function Numeral(n: nat): (s: Text)
    ensures s != [] && forall i :: 0 <= i < |s| ==> IsDigit(s[i])
  {
    if n < 10 then [48 + n] else Numeral(n / 10) + [48 + n % 10]
  }

  function Decimal(n: int): (s: Text)
  {
    if n >= 0 then Numeral(n) else [45] + Numeral(-n)
  }

  lemma {:induction false} DigitsInParts(a: Text, c: Byte, v: nat)
    requires (forall i :: 0 <= i < |a| ==> IsDigit(a[i])) && IsDigit(c)
    ensures Digits(a + [c], v) == 10 * Digits(a, v) + (c - 48)
    decreases |a|
  {
    if a == [] {
      assert [c][1..] == [];
    } else {
      assert (a + [c])[1..] == a[1..] + [c];
      DigitsInParts(a[1..], c, 10 * v + (a[0] - 48));
    }
  }

  lemma {:induction false} NumeralValue(n: nat)
    ensures Digits(Numeral(n), 0) == n
  {
    if n >= 10 {
      NumeralValue(n / 10);
      DigitsInParts(Numeral(n / 10), 48 + n % 10, 0);
    } else {
      assert [48 + n][1..] == [];
    }
  }

  lemma LeadingOfDecimal(n: int)
    ensures Leading(Decimal(n)) == n
  {
    NumeralValue(if n >= 0 then n else -n);
    if n >= 0 {
      assert IsDigit(Numeral(n)[0]);
    } else {
      assert Decimal(n)[1..] == Numeral(-n);
    }
  }

  /** What is printed in decimal is read back exactly if an int holds it, and otherwise
      read as what saturation and narrowing leave. */
  lemma AtoiOfDecimal(n: int)
    ensures Atoi(Decimal(n)) == NarrowToInt(Saturated(n))
    ensures Atoi(Decimal(n)) == n <==> IsInt32(n)
  {
    LeadingOfDecimal(n);
  }

  // ---------- Header fields ----------

  datatype Field = Field(key: Text, value: Text)

  function Lower(c: Byte): (l: Byte) { if 65 <= c <= 90 then c + 32 else c }

  /** The order of keys, which ignores case. */
  predicate Before(a: Text, b: Text)
  {
    if b == [] then false
    else if a == [] then true
    else if Lower(a[0]) != Lower(b[0]) then Lower(a[0]) < Lower(b[0])
    else Before(a[1..], b[1..])
  }

  /** Fields in the order of a map over their keys. */
  predicate Ordered(h: seq<Field>) { forall i, j :: 0 <= i < j < |h| ==> Before(h[i].key, h[j].key) }

  function SetHeader(h: seq<Field>, key: Text, value: Text): (r: seq<Field>)
    decreases |h|
  {
    if h == [] then [Field(key, value)]
    else if Before(h[0].key, key) then [h[0]] + SetHeader(h[1..], key, value)
    else if Before(key, h[0].key) then [Field(key, value)] + h
    else [Field(h[0].key, value)] + h[1..]
  }

  function GetHeader(h: seq<Field>, key: Text): (r: Option<Text>)
    decreases |h|
  {
    if h == [] then None
    else if !Before(h[0].key, key) && !Before(key, h[0].key) then Some(h[0].value)
    else GetHeader(h[1..], key)
  }

  lemma {:induction false} BeforeIsTransitive(a: Text, b: Text, c: Text)
    requires Before(a, b) && Before(b, c)
    ensures Before(a, c) && !Before(c, a)
    decreases |a|
  {
    if a != [] && Lower(a[0]) == Lower(b[0]) == Lower(c[0]) {
      BeforeIsTransitive(a[1..], b[1..], c[1..]);
    }
  }

  lemma {:induction false} SameKeyOrder(a: Text, b: Text, c: Text)
    requires !Before(a, b) && !Before(b, a)
    ensures Before(a, c) == Before(b, c) && Before(c, a) == Before(c, b)
    decreases |a|
  {
    if a != [] && b != [] && c != [] {
      SameKeyOrder(a[1..], b[1..], c[1..]);
    }
  }

  predicate SameKey(a: Text, b: Text) { !Before(a, b) && !Before(b, a) }

  /** Setting a field keeps the order, is what asking for it then gives, and leaves every
      other key with what it had. */
  lemma {:induction false} SetThenGet(h: seq<Field>, key: Text, value: Text, other: Text)
    requires Ordered(h)
    ensures Ordered(SetHeader(h, key, value))
    ensures GetHeader(SetHeader(h, key, value), key) == Some(value)
    ensures !SameKey(other, key) ==> GetHeader(SetHeader(h, key, value), other) == GetHeader(h, other)
    ensures forall i :: 0 <= i < |SetHeader(h, key, value)| ==>
              (exists j :: 0 <= j < |h| && SetHeader(h, key, value)[i].key == h[j].key)
              || SetHeader(h, key, value)[i].key == key
    decreases |h|
  {
    BeforeSelf(key);
    if h != [] {
      var r := SetHeader(h, key, value);
      var first := h[0].key;
      if Before(first, key) {
        SetThenGet(h[1..], key, value, other);
        var t := SetHeader(h[1..], key, value);
        assert r[1..] == t;
        forall j | 0 <= j < |t|
          ensures Before(first, t[j].key)
        {
        }
        assert forall i :: 0 <= i < |h[1..]| ==> h[1..][i] == h[i + 1];
      } else if Before(key, first) {
        assert r[1..] == h;
        forall j | 0 <= j < |h|
          ensures Before(key, h[j].key)
        {
          if j > 0 {
            BeforeIsTransitive(key, first, h[j].key);
          }
        }
      } else {
        assert forall i :: 0 < i < |h| ==> r[i] == h[i];
        assert r[1..] == h[1..];
        SameKeyOrder(first, key, other);
      }
    }
  }

  lemma {:induction false} BeforeSelf(a: Text)
    ensures !Before(a, a)
  {
    if a != [] {
      BeforeSelf(a[1..]);
    }
  }

  /** A key behind all others goes to the end. */
  lemma {:induction false} SetAtEnd(h: seq<Field>, key: Text, value: Text)
    requires forall i :: 0 <= i < |h| ==> Before(h[i].key, key)
    ensures SetHeader(h, key, value) == h + [Field(key, value)]
    decreases |h|
  {
    if h != [] {
      SetAtEnd(h[1..], key, value);
    }
  }
}
