/** A regular file as its users see it, a sequence of bytes, and what each change of the blocks means for it. */
module FileBytes {
  import opened Layout
  import opened Extents
  import opened ReadWrite
  import opened FileState

  /** The file's bytes: the content of its blocks up to its size. */
  ghost function Bytes(bs: seq<Block>, size: nat): (f: seq<Byte>)
    requires Ordered(bs)
    ensures |f| == size && forall p :: 0 <= p < size ==> f[p] == Content(bs, p)
  {
    seq(size, p requires 0 <= p => Content(bs, p))
  }

  function Padded(f: seq<Byte>, n: nat): (r: seq<Byte>)
    ensures |r| == (if n < |f| then |f| else n)
    ensures forall p :: 0 <= p < |r| ==> r[p] == if p < |f| then f[p] else 0
  {
    if n <= |f| then f else f + Zeros(n - |f|)
  }

  /** Writing past the end fills the gap with zeros. */
  function WriteAt(f: seq<Byte>, offset: nat, data: seq<Byte>): (r: seq<Byte>)
    ensures |r| == if data == [] || offset + |data| < |f| then |f| else offset + |data|
    ensures forall p {:trigger r[p]} :: 0 <= p < |r| ==>
      r[p] == if offset <= p < offset + |data| then data[p - offset] else if p < |f| then f[p] else 0
  {
    if data == [] then f
    else
      var g := Padded(f, offset + |data|);
      g[..offset] + data + g[offset + |data|..]
  }

  function Resized(f: seq<Byte>, n: nat): (r: seq<Byte>)
    ensures |r| == n && forall p :: 0 <= p < n ==> r[p] == if p < |f| then f[p] else 0
  {
    if n <= |f| then f[..n] else Padded(f, n)
  }

  function Zeroed(f: seq<Byte>, lo: nat, hi: nat): (r: seq<Byte>)
    ensures |r| == |f| && forall p :: 0 <= p < |f| ==> r[p] == if lo <= p < hi then 0 else f[p]
  {
    seq(|f|, p requires 0 <= p < |f| => if lo <= p < hi then 0 else f[p])
  }

  // ---------------------------------------------------------------- laws of the byte sequence

  /** What was written is read back; everything else is as before. */
  lemma ReadBack(f: seq<Byte>, offset: nat, data: seq<Byte>)
    requires data != []
    ensures offset + |data| <= |WriteAt(f, offset, data)|
    ensures WriteAt(f, offset, data)[offset..offset + |data|] == data
    ensures forall p :: 0 <= p < |f| && !(offset <= p < offset + |data|) ==> WriteAt(f, offset, data)[p] == f[p]
    ensures forall p :: |f| <= p < offset ==> WriteAt(f, offset, data)[p] == 0
  {
  }

  /** Writing two adjacent pieces is writing their concatenation: a vectored write is one write. */
  lemma WriteTwice(f: seq<Byte>, offset: nat, a: seq<Byte>, b: seq<Byte>)
    ensures WriteAt(WriteAt(f, offset, a), offset + |a|, b) == WriteAt(f, offset, a + b)
  {
    if a == [] {
      assert a + b == b;
    } else if b == [] {
      assert a + b == a;
    } else {
      var l, r := WriteAt(WriteAt(f, offset, a), offset + |a|, b), WriteAt(f, offset, a + b);
      assert |l| == |r|;
      forall p | 0 <= p < |l|
        ensures l[p] == r[p]
      {
      }
    }
  }

  /** Shrinking a file and growing it back leaves zeros where the tail was. */
  lemma ShrinkAndGrow(f: seq<Byte>, n: nat)
    requires n <= |f|
    ensures Resized(Resized(f, n), |f|) == Zeroed(f, n, |f|)
  {
  }

  // ---------------------------------------------------------------- blocks and bytes

  lemma WrittenBytes(bs0: seq<Block>, bs: seq<Block>, size0: nat, size: nat, offset: nat, data: seq<Byte>)
    requires Written(bs0, bs, offset, data, offset + |data|) && ZeroFrom(bs0, size0)
    requires data != [] && size == if offset + |data| > size0 then offset + |data| else size0
    ensures ZeroFrom(bs, size) && Bytes(bs, size) == WriteAt(Bytes(bs0, size0), offset, data)
  {
    hide Written, Content, WriteAt, Bytes, Ordered, Overlay;
    WrittenContent(bs0, bs, offset, data);
    var f := Bytes(bs0, size0);
    forall p: nat
      ensures size <= p ==> Content(bs, p) == 0
      ensures p < size ==> Bytes(bs, size)[p] == WriteAt(f, offset, data)[p]
    {
      WrittenByte(bs0, bs, size0, offset, data, p);
    }
    assert Bytes(bs, size) == WriteAt(f, offset, data);
  }

  lemma WrittenContent(bs0: seq<Block>, bs: seq<Block>, offset: nat, data: seq<Byte>)
    requires Written(bs0, bs, offset, data, offset + |data|)
    ensures Ordered(bs0) && Ordered(bs) && forall p: nat :: Content(bs, p) == Overlay(bs0, offset, data, p)
  {
    assert data[..|data|] == data;
  }

  lemma WrittenByte(bs0: seq<Block>, bs: seq<Block>, size0: nat, offset: nat, data: seq<Byte>, p: nat)
    requires Ordered(bs0) && Ordered(bs) && Content(bs, p) == Overlay(bs0, offset, data, p) && ZeroFrom(bs0, size0)
    ensures Content(bs, p) ==
      if offset <= p < offset + |data| then data[p - offset] else if p < size0 then Content(bs0, p) else 0
  {
  }

  lemma SameBytes(bs0: seq<Block>, bs: seq<Block>, size0: nat, size: nat)
    requires Ordered(bs0) && Ordered(bs) && ZeroFrom(bs0, size0) && size0 <= size
    requires forall p: nat :: Content(bs, p) == Content(bs0, p)
    ensures ZeroFrom(bs, size) && Bytes(bs, size) == Resized(Bytes(bs0, size0), size)
  {
    var l, r := Bytes(bs, size), Resized(Bytes(bs0, size0), size);
    forall p: nat
      ensures size <= p ==> Content(bs, p) == 0
      ensures p < size ==> l[p] == r[p]
    {
      assert Content(bs, p) == Content(bs0, p);
    }
  }

  lemma PunchedBytes(bs0: seq<Block>, bs: seq<Block>, size: nat, lo: nat, hi: nat)
    requires Ordered(bs0) && Ordered(bs) && ZeroFrom(bs0, size)
    requires forall p: nat :: Content(bs, p) == Punched(bs0, lo, hi, p)
    ensures ZeroFrom(bs, size) && Bytes(bs, size) == Zeroed(Bytes(bs0, size), lo, hi)
  {
    var l, r := Bytes(bs, size), Zeroed(Bytes(bs0, size), lo, hi);
    forall p: nat
      ensures size <= p ==> Content(bs, p) == 0
      ensures p < size ==> l[p] == r[p]
    {
      assert Content(bs, p) == Punched(bs0, lo, hi, p);
    }
  }

  /** Cutting everything from `size` on, in a file of `size0` bytes. */
  lemma CutBytes(bs0: seq<Block>, bs: seq<Block>, size0: nat, size: nat, hi: nat)
    requires Ordered(bs0) && Ordered(bs) && ZeroFrom(bs0, size0) && size0 <= hi
    requires forall p: nat :: Content(bs, p) == Punched(bs0, size, hi, p)
    ensures ZeroFrom(bs, size) && ZeroFrom(bs, size0)
    ensures Bytes(bs, size) == Resized(Bytes(bs0, size0), size)
  {
    var l, r := Bytes(bs, size), Resized(Bytes(bs0, size0), size);
    forall p: nat
      ensures size <= p || size0 <= p ==> Content(bs, p) == 0
      ensures p < size ==> l[p] == r[p]
    {
      assert Content(bs, p) == Punched(bs0, size, hi, p);
    }
  }
}
