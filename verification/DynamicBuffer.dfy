/** A growing byte buffer, read at the front and written at the back. */
module DynamicBuffers {
  import opened Bytes
  import opened Arithmetic

  function Min(a: nat, b: nat): (m: nat)
    ensures m == a || m == b
    ensures m <= a && m <= b
  {
    if a < b then a else b
  }

  function Decoded(s: seq<Byte>, littleEndian: bool): (v: nat)
  {
    if littleEndian then FromLittleEndian(s) else FromBigEndian(s)
  }

  function Encoded(v: nat, n: nat, littleEndian: bool): (s: seq<Byte>)
    ensures |s| == n
  {
    if littleEndian then ToLittleEndian(v, n) else ToBigEndian(v, n)
  }

  /** What is written as an n-byte integer is read back, in either order. */
  lemma IntegerRoundTrip(v: nat, n: nat, littleEndian: bool)
    requires v < Pow2(8 * n)
    ensures Decoded(Encoded(v, n, littleEndian), littleEndian) == v
  {
    if littleEndian { LittleEndianRoundTrip(v, n); } else { EndianRoundTrip(v, n); }
  }

  lemma Regroup(x: nat, y: nat, z: nat)
    ensures y * (x * z) == x * (y * z)
    ensures y * (z * x) == (y * z) * x
  {
  }

  lemma {:induction false} SplitBigEndian(a: seq<Byte>, b: seq<Byte>)
    ensures FromBigEndian(a + b) == FromBigEndian(a) * Pow2(8 * |b|) + FromBigEndian(b)
  {
    if b == [] {
      assert a + b == a;
    } else {
      var c := b[..|b| - 1];
      assert (a + b)[..|a + b| - 1] == a + c;
      SplitBigEndian(a, c);
      Pow2Plus8(8 * |c|);
      assert FromBigEndian(a + b) == 256 * FromBigEndian(a + c) + b[|b| - 1];
      Regroup(FromBigEndian(a), 256, Pow2(8 * |c|));
    }
  }

  lemma {:induction false} SplitLittleEndian(a: seq<Byte>, b: seq<Byte>)
    ensures FromLittleEndian(a + b) == FromLittleEndian(a) + Pow2(8 * |a|) * FromLittleEndian(b)
  {
    if a == [] {
      assert a + b == b;
    } else {
      assert (a + b)[1..] == a[1..] + b;
      SplitLittleEndian(a[1..], b);
      Pow2Plus8(8 * (|a| - 1));
      Regroup(FromLittleEndian(b), 256, Pow2(8 * (|a| - 1)));
    }
  }

  class DynamicBuffer {
    var buffer: array<Byte>
    var expandSize: nat
    var readIndex: nat
    var writeIndex: nat

    ghost predicate Valid()
      reads this
    {
      expandSize > 0 && readIndex <= writeIndex <= buffer.Length
    }

    /** The bytes written and not yet read. */
    ghost function Contents(): (s: seq<Byte>)
      requires Valid()
      reads this, buffer
    {
      buffer[readIndex..writeIndex]
    }

    /** The bytes lying where the next write goes. */
    ghost function Ahead(): (s: seq<Byte>)
      requires Valid()
      reads this, buffer
    {
      buffer[writeIndex..]
    }

    constructor (initSize: nat, expandSize: nat)
      ensures Valid() && fresh(buffer)
      ensures Contents() == [] && readIndex == 0
      ensures this.expandSize == if expandSize == 0 then 1 else expandSize
      ensures buffer.Length == if initSize == 0 then this.expandSize else initSize
    {
      var expand := if expandSize == 0 then 1 else expandSize;
      this.expandSize := expand;
      this.buffer := new Byte[if initSize == 0 then expand else initSize];
      this.readIndex := 0;
      this.writeIndex := 0;
    }

    method Swap(other: DynamicBuffer)
      requires Valid() && other.Valid()
      modifies this, other
      ensures Valid() && other.Valid()
      ensures buffer == old(other.buffer) && other.buffer == old(buffer)
      ensures Contents() == old(other.Contents()) && other.Contents() == old(Contents())
      ensures expandSize == old(other.expandSize) && other.expandSize == old(expandSize)
      ensures Ahead() == old(other.Ahead()) && other.Ahead() == old(Ahead())
      ensures readIndex == old(other.readIndex) && other.readIndex == old(readIndex)
    {
      buffer, other.buffer := other.buffer, buffer;
      expandSize, other.expandSize := other.expandSize, expandSize;
      readIndex, other.readIndex := other.readIndex, readIndex;
      writeIndex, other.writeIndex := other.writeIndex, writeIndex;
    }

    function DiscardableBytes(): (n: nat)
      reads this
    {
      readIndex
    }

    function ReadableBytes(): (n: nat)
      requires Valid()
      reads this, buffer
      ensures n == |Contents()|
    {
      writeIndex - readIndex
    }

    function WritableBytes(): (n: nat)
      requires Valid()
      reads this, buffer
      ensures n == |Ahead()|
    {
      buffer.Length - writeIndex
    }

    method Clear()
      requires Valid()
      modifies this`readIndex, this`writeIndex
      ensures Valid() && Contents() == []
    {
      readIndex := 0;
      writeIndex := 0;
    }

    /** Drops bytes from the front, at most as many as there are. */
    method Read(size: nat)
      requires Valid()
      modifies this`readIndex, this`writeIndex
      ensures Valid()
      ensures Contents() == old(Contents())[Min(size, |old(Contents())|)..]
    {
      readIndex := readIndex + Min(size, ReadableBytes());
      if readIndex == writeIndex {
        Clear();
      }
    }

    /** Takes in bytes already placed behind the contents. */
    method Write(size: nat)
      requires Valid()
      modifies this`writeIndex
      ensures Valid()
      ensures Contents() == old(Contents()) + old(Ahead())[..Min(size, |old(Ahead())|)]
      ensures Ahead() == old(Ahead())[Min(size, |old(Ahead())|)..]
      ensures writeIndex == old(writeIndex) + Min(size, |old(Ahead())|)
    {
      writeIndex := writeIndex + Min(size, WritableBytes());
    }

    /** Makes room behind the contents, by compaction where that is enough. */
    method ReserveWritableBytes(size: nat)
      requires Valid()
      modifies this`buffer, this`readIndex, this`writeIndex, buffer
      ensures Valid()
      ensures Contents() == old(Contents())
      ensures |Ahead()| >= size
      ensures buffer == old(buffer) || fresh(buffer)
      ensures old(|Ahead()|) >= size ==> Ahead() == old(Ahead())
      ensures old(buffer.Length - |Contents()|) >= size ==> buffer == old(buffer)
      ensures old(buffer.Length - |Contents()|) < size ==>
                (var missing := size - old(buffer.Length - |Contents()|);
                 fresh(buffer) && buffer.Length == old(buffer.Length) + expandSize * (missing / expandSize + 1)
                 && size < buffer.Length - |Contents()| <= size + expandSize)
    {
      if WritableBytes() >= size {
        return;
      }
      var freeBytes := DiscardableBytes() + WritableBytes();
      var readable := ReadableBytes();
      if freeBytes >= size {
        MoveToFront();
      } else {
        Grown(size - freeBytes, expandSize);
        var newSize := buffer.Length + expandSize * ((size - freeBytes) / expandSize + 1);
        var newBuffer := new Byte[newSize];
        CopyContents(newBuffer);
        buffer := newBuffer;
      }
      readIndex := 0;
      writeIndex := readable;
    }

    /** Compaction: the contents move to the start of the same array. */
    method MoveToFront()
      requires Valid()
      modifies buffer
      ensures buffer[..writeIndex - readIndex] == old(Contents())
    {
      ghost var was := Contents();
      var n := writeIndex - readIndex;
      var i := 0;
      while i < n
        invariant 0 <= i <= n
        invariant buffer[..i] == was[..i]
        invariant forall k :: i <= k < n ==> buffer[readIndex + k] == was[k]
      {
        buffer[i] := buffer[readIndex + i];
        i := i + 1;
      }
    }

    method CopyContents(target: array<Byte>)
      requires Valid() && target != buffer && |Contents()| <= target.Length
      modifies target
      ensures target[..|Contents()|] == Contents()
    {
      var n := writeIndex - readIndex;
      var i := 0;
      while i < n
        invariant 0 <= i <= n
        invariant target[..i] == Contents()[..i]
      {
        target[i] := buffer[readIndex + i];
        i := i + 1;
      }
    }

    static lemma Grown(missing: nat, expand: nat)
      requires missing > 0 && expand > 0
      ensures missing < expand * (missing / expand + 1) <= missing + expand
    {
      var q := missing / expand;
      assert missing == expand * q + missing % expand;
      assert expand * (q + 1) == expand * q + expand;
    }

    // ---------- Integers ----------

    function At(offset: nat): (b: Byte)
      requires Valid() && offset < |Contents()|
      reads this, buffer
      ensures b == Contents()[offset]
    {
      buffer[readIndex + offset]
    }

    static lemma SubSlice(s: seq<Byte>, a: nat, b: nat, i: nat, j: nat)
      requires a <= b <= |s| && i <= j <= b - a
      ensures s[a + i..a + j] == s[a..b][i..j]
    {
      assert |s[a + i..a + j]| == |s[a..b][i..j]|;
      forall k | 0 <= k < j - i
        ensures s[a + i..a + j][k] == s[a..b][i..j][k]
      {
      }
    }

    function Slice(from: nat, to: nat): (s: seq<Byte>)
      requires Valid() && from <= to <= |Contents()|
      reads this, buffer
      ensures s == Contents()[from..to]
    {
      SubSlice(buffer[..], readIndex, writeIndex, from, to);
      buffer[readIndex + from..readIndex + to]
    }

    method PeekInt8(offset: nat) returns (ok: bool, v: nat)
      requires Valid()
      ensures ok <==> offset + 1 <= |Contents()|
      ensures ok ==> v == Contents()[offset]
    {
      v := 0;
      ok := ReadableBytes() >= offset + 1;
      if ok {
        v := At(offset);
      }
    }

    method PeekInt16(offset: nat, littleEndian: bool) returns (ok: bool, v: nat)
      requires Valid()
      ensures ok <==> offset + 2 <= |Contents()|
      ensures ok ==> v == Decoded(Contents()[offset..offset + 2], littleEndian)
    {
      v := 0;
      ok := ReadableBytes() >= offset + 2;
      if ok {
        v := PairAt(offset, littleEndian);
      }
    }

    method PeekInt32(offset: nat, littleEndian: bool) returns (ok: bool, v: nat)
      requires Valid()
      ensures ok <==> offset + 4 <= |Contents()|
      ensures ok ==> v == Decoded(Contents()[offset..offset + 4], littleEndian)
    {
      v := 0;
      ok := ReadableBytes() >= offset + 4;
      if ok {
        v := QuadAt(offset, littleEndian);
      }
    }

    method PeekInt64(offset: nat, littleEndian: bool) returns (ok: bool, v: nat)
      requires Valid()
      ensures ok <==> offset + 8 <= |Contents()|
      ensures ok ==> v == Decoded(Contents()[offset..offset + 8], littleEndian)
    {
      v := 0;
      ok := ReadableBytes() >= offset + 8;
      if ok {
        var x, y := QuadAt(offset, littleEndian), QuadAt(offset + 4, littleEndian);
        v := if littleEndian then x + 0x1_0000_0000 * y else 0x1_0000_0000 * x + y;
        assert Contents()[offset..offset + 8] == Contents()[offset..offset + 4] + Contents()[offset + 4..offset + 8];
        HalvesDecoded(Contents()[offset..offset + 4], Contents()[offset + 4..offset + 8]);
      }
    }

    function PairAt(offset: nat, littleEndian: bool): (v: nat)
      requires Valid() && offset + 2 <= |Contents()|
      reads this, buffer
      ensures v == Decoded(Contents()[offset..offset + 2], littleEndian)
    {
      var x, y := At(offset), At(offset + 1);
      var v := if littleEndian then x + 256 * y else 256 * x + y;
      assert Contents()[offset..offset + 2] == [x, y];
      PairDecoded(x, y);
      v
    }

    function QuadAt(offset: nat, littleEndian: bool): (v: nat)
      requires Valid() && offset + 4 <= |Contents()|
      reads this, buffer
      ensures v == Decoded(Contents()[offset..offset + 4], littleEndian)
    {
      var x, y := PairAt(offset, littleEndian), PairAt(offset + 2, littleEndian);
      var v := if littleEndian then x + 65536 * y else 65536 * x + y;
      assert Contents()[offset..offset + 4] == Contents()[offset..offset + 2] + Contents()[offset + 2..offset + 4];
      HalvesDecoded(Contents()[offset..offset + 2], Contents()[offset + 2..offset + 4]);
      v
    }

    static lemma HalvesDecoded(a: seq<Byte>, b: seq<Byte>)
      requires |a| == |b| && (|a| == 2 || |a| == 4)
      ensures FromBigEndian(a + b) == (if |a| == 2 then 65536 else 0x1_0000_0000) * FromBigEndian(a) + FromBigEndian(b)
      ensures FromLittleEndian(a + b) == FromLittleEndian(a) + (if |a| == 2 then 65536 else 0x1_0000_0000) * FromLittleEndian(b)
    {
      SplitBigEndian(a, b);
      SplitLittleEndian(a, b);
      HalfSize(|a|);
    }

    static lemma HalfSize(n: nat)
      requires n == 2 || n == 4
      ensures Pow2(8 * n) == if n == 2 then 65536 else 0x1_0000_0000
    {
      WordSizes();
    }

    static lemma PairDecoded(x: Byte, y: Byte)
      ensures FromBigEndian([x, y]) == 256 * x + y
      ensures FromLittleEndian([x, y]) == x + 256 * y
    {
      assert [x, y][..1] == [x] && [x][..0] == [];
      assert [x, y][1..] == [y] && [y][1..] == [];
      assert FromBigEndian([x]) == x;
      assert FromLittleEndian([y]) == y;
    }

    /** Puts one byte behind the contents. */
    method WriteInt8(v: Byte)
      requires Valid()
      modifies this`buffer, this`readIndex, this`writeIndex, buffer
      ensures Valid()
      ensures buffer == old(buffer) || fresh(buffer)
      ensures Contents() == old(Contents()) + [v]
    {
      ReserveWritableBytes(1);
      buffer[writeIndex] := v;
      Write(1);
    }

    method WriteInt16(v: nat, littleEndian: bool)
      requires Valid()
      modifies this`buffer, this`readIndex, this`writeIndex, buffer
      ensures Valid()
      ensures buffer == old(buffer) || fresh(buffer)
      ensures Contents() == old(Contents()) + Encoded(v, 2, littleEndian)
    {
      ReserveWritableBytes(2);
      PlaceInteger(v, 2, littleEndian);
      Write(2);
    }

    method WriteInt32(v: nat, littleEndian: bool)
      requires Valid()
      modifies this`buffer, this`readIndex, this`writeIndex, buffer
      ensures Valid()
      ensures buffer == old(buffer) || fresh(buffer)
      ensures Contents() == old(Contents()) + Encoded(v, 4, littleEndian)
    {
      ReserveWritableBytes(4);
      PlaceInteger(v, 4, littleEndian);
      Write(4);
    }

    method WriteInt64(v: nat, littleEndian: bool)
      requires Valid()
      modifies this`buffer, this`readIndex, this`writeIndex, buffer
      ensures Valid()
      ensures buffer == old(buffer) || fresh(buffer)
      ensures Contents() == old(Contents()) + Encoded(v, 8, littleEndian)
    {
      ReserveWritableBytes(8);
      PlaceInteger(v, 8, littleEndian);
      Write(8);
    }

    /** The stores of the bytes of one integer, lowest byte first. */
    method PlaceInteger(v: nat, n: nat, littleEndian: bool)
      requires Valid() && n <= |Ahead()|
      modifies buffer
      ensures Contents() == old(Contents())
      ensures Ahead()[..n] == Encoded(v, n, littleEndian)
    {
      ghost var was := Contents();
      var rest, i := v, 0;
      while i < n
        invariant 0 <= i <= n
        invariant rest == Shifted(v, i)
        invariant Contents() == was
        invariant forall k :: 0 <= k < i ==>
                    Ahead()[if littleEndian then k else n - 1 - k] == Shifted(v, k) % 256
      {
        buffer[writeIndex + (if littleEndian then i else n - 1 - i)] := rest % 256;
        ShiftedNext(v, i);
        rest := rest / 256;
        i := i + 1;
      }
      forall k | 0 <= k < n
        ensures Ahead()[..n][k] == Encoded(v, n, littleEndian)[k]
      {
        if littleEndian {
          LittleEndianAt(v, n, k);
        } else {
          LittleEndianAt(v, n, n - 1 - k);
          OrdersMirror(v, n, n - 1 - k);
          assert Ahead()[n - 1 - (n - 1 - k)] == Shifted(v, n - 1 - k) % 256;
        }
      }
    }

    /** v without its lowest i bytes. */
    static function Shifted(v: nat, i: nat): (w: nat)
    {
      if i == 0 then v else Shifted(v / 256, i - 1)
    }

    static lemma {:induction false} ShiftedNext(v: nat, i: nat)
      ensures Shifted(v, i + 1) == Shifted(v, i) / 256
    {
      if i > 0 {
        ShiftedNext(v / 256, i - 1);
      }
    }

    static lemma {:induction false} LittleEndianAt(v: nat, n: nat, k: nat)
      requires k < n
      ensures ToLittleEndian(v, n)[k] == Shifted(v, k) % 256
    {
      if k > 0 {
        LittleEndianAt(v / 256, n - 1, k - 1);
      }
    }

    // ---------- Blocks of bytes ----------

    method ReadBytes(target: array<Byte>, count: nat) returns (taken: nat)
      requires Valid() && target != buffer
      requires Min(count, |Contents()|) <= target.Length
      modifies this`readIndex, this`writeIndex, target
      ensures Valid()
      ensures taken == Min(count, |old(Contents())|)
      ensures target[..taken] == old(Contents())[..taken]
      ensures Contents() == old(Contents())[taken..]
      ensures target[taken..] == old(target[taken..])
    {
      taken := Min(count, ReadableBytes());
      var i := 0;
      while i < taken
        invariant 0 <= i <= taken
        invariant readIndex == old(readIndex) && writeIndex == old(writeIndex)
        invariant target[..i] == Contents()[..i]
        invariant target[i..] == old(target[i..])
      {
        target[i] := buffer[readIndex + i];
        i := i + 1;
      }
      readIndex := readIndex + taken;
      if readIndex == writeIndex {
        Clear();
      }
    }

    method WriteBytes(bytes: seq<Byte>)
      requires Valid()
      modifies this`buffer, this`readIndex, this`writeIndex, buffer
      ensures Valid()
      ensures buffer == old(buffer) || fresh(buffer)
      ensures Contents() == old(Contents()) + bytes
    {
      ReserveWritableBytes(|bytes|);
      PlaceBytes(bytes);
      assert Ahead()[..|bytes|] == bytes;
      Write(|bytes|);
    }

    /** Copies bytes behind the contents without taking them in. */
    method PlaceBytes(bytes: seq<Byte>)
      requires Valid() && |bytes| <= |Ahead()|
      modifies buffer
      ensures Contents() == old(Contents())
      ensures Ahead()[..|bytes|] == bytes
    {
      var i := 0;
      while i < |bytes|
        invariant 0 <= i <= |bytes|
        invariant Contents() == old(Contents())
        invariant Ahead()[..i] == bytes[..i]
      {
        buffer[writeIndex + i] := bytes[i];
        i := i + 1;
      }
    }
  }
}
