/** Vectored reads and writes (write.c, read.c). */
module Vectors {
  import opened Layout
  import opened OffsetMapping
  import opened BlockList
  import opened BlockArray
  import opened BlockSizes
  import opened Extents
  import opened Vinodes
  import opened Data
  import opened ReadWrite
  import opened FileState
  import opened FileBytes
  import opened FileOps
  import opened Pieces

  // ---------------------------------------------------------------- how much of the buffers is taken

  function Plus64(a: nat, b: nat): (r: nat)
    requires a < TWO_64 && b < TWO_64
    ensures r < TWO_64 && (r == a + b || r == a + b - TWO_64)
  {
    (a + b) % TWO_64
  }

  /** The sign of a 64-bit number read as a signed one. */
  predicate Negative(n: nat) {
    n > MAX_OFFSET
  }

  ghost function Concat(iov: seq<seq<Byte>>): seq<Byte> {
    if iov == [] then [] else Concat(iov[..|iov| - 1]) + iov[|iov| - 1]
  }

  lemma ConcatNothing()
    ensures Concat([]) == []
  {
  }

  lemma {:induction false} ConcatPrefix(iov: seq<seq<Byte>>, i: nat)
    requires i <= |iov|
    ensures Concat(iov[..i]) <= Concat(iov)
  {
    if i == |iov| {
      assert iov[..i] == iov;
    } else {
      ConcatPrefix(iov[..|iov| - 1], i);
      assert iov[..|iov| - 1][..i] == iov[..i];
    }
  }

  lemma ConcatNext(iov: seq<seq<Byte>>, i: nat)
    requires i < |iov|
    ensures Concat(iov[..i + 1]) == Concat(iov[..i]) + iov[i]
    ensures Concat(iov[..i + 1]) <= Concat(iov)
  {
    assert iov[..i + 1][..i] == iov[..i];
    ConcatPrefix(iov, i + 1);
  }

  /** The bytes of the buffers before the i-th. */
  ghost function LengthBefore(iov: seq<seq<Byte>>, i: nat): nat
    requires i <= |iov|
  {
    if i == 0 then 0 else LengthBefore(iov, i - 1) + |iov[i - 1]|
  }

  /** Where the bytes of a buffer are. */
  lemma {:induction false} ConcatAt(iov: seq<seq<Byte>>, i: nat, k: nat)
    requires i < |iov| && k < |iov[i]|
    ensures LengthBefore(iov, i) + k < |Concat(iov)| && Concat(iov)[LengthBefore(iov, i) + k] == iov[i][k]
  {
    hide Concat;
    ConcatNext(iov, i);
    ConcatLength(iov, i);
    assert Concat(iov[..i + 1])[LengthBefore(iov, i) + k] == iov[i][k];
  }

  lemma {:induction false} ConcatLength(iov: seq<seq<Byte>>, i: nat)
    requires i <= |iov|
    ensures |Concat(iov[..i])| == LengthBefore(iov, i)
    decreases i
  {
    if i > 0 {
      ConcatLength(iov, i - 1);
      ConcatNext(iov, i - 1);
    } else {
      assert iov[..0] == [];
    }
  }

  ghost predicate Lengths64(iov: seq<seq<Byte>>) {
    forall i :: 0 <= i < |iov| ==> |iov[i]| < TWO_64
  }

  /** A write takes at most as many bytes as a signed number counts and as fit above `offset`. */
  function Accepted(offset: nat, total: nat): (n: nat)
    requires offset < TWO_64
    ensures n <= total && n <= MAX_OFFSET && offset + n < TWO_64
    ensures n == total || n == MAX_OFFSET || offset + n == TWO_64 - 1
  {
    if total <= MAX_OFFSET && offset + total < TWO_64 then total
    else if offset + MAX_OFFSET < TWO_64 then MAX_OFFSET
    else TWO_64 - 1 - offset
  }

  /** The clamping of one buffer when the space needed is summed up. */
  function ClampForSum(offset: nat, sum: nat, length: nat): (r: nat)
    requires offset < TWO_64 && length < TWO_64 && sum <= MAX_OFFSET && offset + sum < TWO_64
    ensures r <= length && r <= MAX_OFFSET - sum && r <= TWO_64 - 1 - offset - sum
    ensures r == length || r == MAX_OFFSET - sum || r == TWO_64 - 1 - offset - sum
  {
    var a := if Negative(length) then MAX_OFFSET else length;
    var b := if Negative(Plus64(sum, a)) then MAX_OFFSET - sum else a;
    if Plus64(offset + sum, b) < offset then TWO_64 - 1 - offset - sum else b
  }

  /** The clamping of one buffer when it is written. */
  function ClampForWrite(off: nat, ret: nat, length: nat): (r: nat)
    requires off < TWO_64 && length < TWO_64 && ret <= MAX_OFFSET
    ensures r <= length && r <= MAX_OFFSET - ret && r <= TWO_64 - 1 - off
    ensures r == length || r == MAX_OFFSET - ret || r == TWO_64 - 1 - off
  {
    var a := if Negative(length) then MAX_OFFSET else length;
    var b := if Negative(Plus64(ret, a)) then MAX_OFFSET - ret else a;
    if Plus64(off, b) < off then TWO_64 - 1 - off else b
  }

  /** The overflow tests of the two loops differ, their effect does not. */
  lemma ClampsAgree(offset: nat, sum: nat, length: nat)
    requires offset < TWO_64 && length < TWO_64 && sum <= MAX_OFFSET && offset + sum < TWO_64
    ensures ClampForSum(offset, sum, length) == ClampForWrite(offset + sum, sum, length)
  {
  }

  /** Buffer after buffer the clamped lengths add up to what is accepted of all of them. */
  lemma ClampsAddUp(offset: nat, ret: nat, length: nat, total: nat)
    requires offset < TWO_64 && length < TWO_64 && ret + length <= total && ret <= Accepted(offset, total)
    ensures var len := ClampForWrite(offset + ret, ret, length);
      && ret + len <= Accepted(offset, total)
      && (len != length ==> ret + len == Accepted(offset, total))
  {
  }

  /** The first loop of pmemfile_pwritev_internal. */
  method SumLengths(offset: nat, iov: seq<seq<Byte>>) returns (sum: nat)
    requires offset < TWO_64 && Lengths64(iov)
    ensures sum == Accepted(offset, |Concat(iov)|)
  {
    sum := 0;
    var i := 0;
    assert iov[..0] == [];
    while i < |iov|
      invariant 0 <= i <= |iov|
      invariant sum == |Concat(iov[..i])| && sum <= MAX_OFFSET && offset + sum < TWO_64
    {
      var len := ClampForSum(offset, sum, |iov[i]|);
      ConcatNext(iov, i);
      sum := sum + len;
      if len != |iov[i]| {
        return;
      }
      i := i + 1;
    }
    assert iov[..i] == iov;
  }

  // ---------------------------------------------------------------- pwritev

  /** Two writes in a row. */
  lemma WriteComposes(bs0: seq<Block>, bs1: seq<Block>, bs2: seq<Block>, offset: nat, data: seq<Byte>, off: nat, piece: seq<Byte>)
    requires Written(bs0, bs1, offset, data, off) && Written(bs1, bs2, off, piece, off + |piece|)
    requires off + |piece| <= offset + |data| && data[off - offset..off - offset + |piece|] == piece
    ensures Written(bs0, bs2, offset, data, off + |piece|)
  {
    hide Content, Ordered;
    assert piece[..|piece|] == piece;
    forall i | 0 <= i < |bs0|
      ensures SameExtent(bs0[i], bs2[i])
    {
      assert SameExtent(bs0[i], bs1[i]) && SameExtent(bs1[i], bs2[i]);
    }
    var upTo := data[..off + |piece| - offset];
    forall p: nat
      ensures Content(bs2, p) == Overlay(bs0, offset, upTo, p)
    {
      assert Content(bs2, p) == Overlay(bs1, off, piece, p);
      if off <= p < off + |piece| {
        assert piece[p - off] == data[off - offset..off - offset + |piece|][p - off];
      }
    }
  }

  lemma StillAllocated(bs0: seq<Block>, bs: seq<Block>, offset: nat, data: seq<Byte>, off: nat, len: nat)
    requires Written(bs0, bs, offset, data, off) && AllAllocated(bs0, offset, offset + |data|) && off + len <= offset + |data|
    ensures AllAllocated(bs, off, off + len)
  {
    forall p: nat | off <= p < off + len
      ensures Allocated(bs, p)
    {
      assert Allocated(bs0, p);
      var i :| 0 <= i < |bs0| && Holds(bs0[i], p);
      assert SameExtent(bs0[i], bs[i]);
    }
  }

  /** vinode_write */
  method WriteBuffer(v: Vinode, offset: nat, hint: Option<Slot>, buf: seq<Byte>) returns (last: Option<Slot>, ghost pieces: seq<Piece>)
    requires v.Consistent() && ValidHint(v, hint) && AllAllocated(v.Blocks(), offset, offset + |buf|)
    modifies v`mem
    ensures v.Consistent() && Written(old(v.Blocks()), v.Blocks(), offset, buf, offset + |buf|) && ValidHint(v, last)
    ensures Consecutive(old(v.Blocks()), offset, buf, pieces)
  {
    hide Linked, Compact, Represents, ValidBlocks, View, Written, AllAllocated, StartAtOrBelow, Consecutive;
    last := hint;
    var block, n := FindClosestBlockWithHint(v, offset, hint);
    StartFacts(v.Blocks(), offset, n);
    block, pieces := WriteRange(v, block, offset, buf, n);
    if block.Some? {
      last := block;
    }
  }

  lemma StartFacts(bs: seq<Block>, off: nat, n: nat)
    requires StartAtOrBelow(bs, off, n)
    ensures n <= |bs|
  {
  }

  /** One more buffer, after the data up to `off`. */
  method WriteNext(v: Vinode, off: nat, hint: Option<Slot>, buf: seq<Byte>, ghost bs0: seq<Block>, ghost offset: nat, ghost data: seq<Byte>,
                   ghost pieces: seq<Piece>)
    returns (last: Option<Slot>, ghost all: seq<Piece>)
    requires v.Consistent() && ValidHint(v, hint) && offset <= off && off + |buf| <= offset + |data|
    requires data[off - offset..off - offset + |buf|] == buf && AllAllocated(bs0, offset, offset + |data|)
    requires Written(bs0, v.Blocks(), offset, data, off) && Consecutive(bs0, offset, data[..off - offset], pieces)
    modifies v`mem
    ensures v.Consistent() && ValidHint(v, last) && Written(bs0, v.Blocks(), offset, data, off + |buf|)
    ensures Consecutive(bs0, offset, data[..off - offset + |buf|], all)
  {
    hide Linked, Compact, Represents, ValidBlocks, View, Written, AllAllocated, Consecutive;
    ghost var bs1 := v.Blocks();
    StillAllocated(bs0, bs1, offset, data, off, |buf|);
    ghost var more;
    last, more := WriteBuffer(v, off, hint, buf);
    WriteComposes(bs0, bs1, v.Blocks(), offset, data, off, buf);
    MorePieces(bs0, bs1, offset, data, off - offset, buf, pieces, more);
    all := pieces + more;
  }

  /** The second loop of pmemfile_pwritev_internal: writes exactly as much as was summed up and allocated, in copies
      that follow each other. */
  method WriteBuffers(v: Vinode, offset: nat, hint: Option<Slot>, iov: seq<seq<Byte>>, ghost data: seq<Byte>)
    returns (ret: nat, last: Option<Slot>, ghost pieces: seq<Piece>)
    requires v.Consistent() && ValidHint(v, hint) && offset < TWO_64 && Lengths64(iov)
    requires data == Concat(iov)[..Accepted(offset, |Concat(iov)|)] && AllAllocated(v.Blocks(), offset, offset + |data|)
    modifies v`mem
    ensures v.Consistent() && ret == |data| && ValidHint(v, last)
    ensures Written(old(v.Blocks()), v.Blocks(), offset, data, offset + |data|)
    ensures Consecutive(old(v.Blocks()), offset, data, pieces)
  {
    hide Linked, Compact, Represents, ValidBlocks, View, Written, AllAllocated, Consecutive, Concat, Accepted, ClampForWrite;
    ghost var bs0 := v.Blocks();
    ret, last, pieces := 0, hint, [];
    ConcatNothing();
    NoPiece(bs0, offset);
    assert data[..0] == [];
    var off, i := offset, 0;
    assert iov[..0] == [];
    WrittenNothing(bs0, v.align, offset, data);
    while i < |iov|
      invariant 0 <= i <= |iov| && v.Consistent() && ValidHint(v, last)
      invariant off == offset + ret && ret == |Concat(iov[..i])| && ret <= |data|
      invariant Written(bs0, v.Blocks(), offset, data, off)
      invariant Consecutive(bs0, offset, data[..ret], pieces)
    {
      var len := ClampForWrite(off, ret, |iov[i]|);
      ConcatNext(iov, i);
      ClampsAddUp(offset, ret, |iov[i]|, |Concat(iov)|);
      if len > 0 {
        PieceOfData(iov, i, data, len);
        last, pieces := WriteNext(v, off, last, iov[i][..len], bs0, offset, data, pieces);
      }
      ret := ret + len;
      off := off + len;
      if len != |iov[i]| {
        assert data[..ret] == data;
        return;
      }
      i := i + 1;
    }
    assert iov[..i] == iov && data[..ret] == data;
  }

  lemma MorePieces(bs0: seq<Block>, bs: seq<Block>, offset: nat, data: seq<Byte>, n: nat, piece: seq<Byte>, ps: seq<Piece>, more: seq<Piece>)
    requires Written(bs0, bs, offset, data, offset + n) && n + |piece| <= |data| && data[n..n + |piece|] == piece
    requires Consecutive(bs0, offset, data[..n], ps) && Consecutive(bs, offset + n, piece, more)
    ensures Consecutive(bs0, offset, data[..n + |piece|], ps + more)
  {
    hide Content, Consecutive;
    ConsecutiveSame(bs0, bs, offset + n, piece, more);
    ConsecutiveBoth(bs0, offset, data[..n], ps, piece, more);
    assert data[..n] + piece == data[..n + |piece|];
  }

  lemma PieceOfData(iov: seq<seq<Byte>>, i: nat, data: seq<Byte>, len: nat)
    requires i < |iov| && len <= |iov[i]| && data <= Concat(iov) && |Concat(iov[..i])| + len <= |data|
    ensures data[|Concat(iov[..i])|..|Concat(iov[..i])| + len] == iov[i][..len]
  {
    hide Concat;
    ConcatNext(iov, i);
    var k, next := |Concat(iov[..i])|, Concat(iov[..i + 1]);
    assert data[k..k + len] == Concat(iov)[k..k + len] == next[k..k + len];
  }

  lemma WrittenNothing(bs: seq<Block>, align: nat, offset: nat, data: seq<Byte>)
    requires ValidBlocks(bs, align)
    ensures Written(bs, bs, offset, data, offset)
  {
  }

  /** Allocating `len` bytes at `offset` meets the gap before the first block whose length the cast loses. */
  ghost predicate WriteLosesGap(bs: seq<Block>, offset: nat, len: nat, align: nat)
    requires align > 0
  {
    len > 0 && CastLosesGap(bs, FloorTo(offset, align), CeilTo(offset + len, align))
  }

  lemma AllocatedHasNoGap(bs: seq<Block>, offset: nat, len: nat, align: nat)
    requires ValidBlocks(bs, align) && AllAllocated(bs, offset, offset + len)
    ensures !WriteLosesGap(bs, offset, len, align)
  {
    hide FloorTo, CeilTo;
    if WriteLosesGap(bs, offset, len, align) {
      assert Allocated(bs, offset);
      assert Multiple(bs[0].offset, align);
      MultipleDifference(bs[0].offset, FloorTo(offset, align), align);
      GapUnallocated(bs, 0, offset);
    }
  }

  /** pmemfile_allocate_space. More space is recorded exactly when some byte was missing, which is what the source
      asserts, one way or the other, depending on whether it expects a change. */
  method AllocateSpace(v: Vinode, c: Config, offset: nat, len: nat, memory: bool) returns (r: Outcome)
    requires Valid(v) && v.blocks != null && c.Valid() && c.Align() == v.align && len > 0 && offset + len <= ALLOC_LIMIT
    modifies v, v.blocks
    ensures r.Done? ==> Valid(v) && v.blocks == old(v.blocks) && v.Consistent() && v.size == old(v.size) && FileOf(v) == old(FileOf(v))
    ensures r.Done? ==> AllAllocated(v.Blocks(), offset, offset + len) && KeptIn(old(v.order), v.order)
    ensures r.Done? ==> (v.allocatedSpace == old(v.allocatedSpace) <==> AllAllocated(old(v.Blocks()), offset, offset + len))
    ensures r.Failed? ==> !memory && Valid(v) && ImageOf(v) == old(ImageOf(v)) && v.order == old(v.order)
    ensures v.align > 0
    ensures r.Done? ==> Fills(c, Outline(old(v.Blocks())), Outline(v.Blocks()), old(v.size), offset, len)
    ensures r.Faulted? ==> WriteLosesGap(old(v.Blocks()), offset, len, v.align)
    ensures r.Done? ==> !WriteLosesGap(old(v.Blocks()), offset, len, v.align)
    ensures v.blocks == null || v.blocks == old(v.blocks)
  {
    hide ValidImage, Valid, Bytes, Ordered, ZeroFrom, Linked, Compact, Represents, ValidBlocks, View, CastLosesGap,
         FilledTo, AllAllocated, KeptIn, FloorTo, CeilTo, Fills, Outline;
    ConfigFacts(c);
    ValidFacts(v);
    ImageIsValid(v);
    ghost var order, free, bs0 := v.order, v.free, v.Blocks();
    Snapshot(v);
    var was := ImageOf(v);
    var a := AllocateMore(v, c, offset, len, memory);
    if a.Took? {
      SameBytes(bs0, v.Blocks(), v.size, v.size);
    }
    r := Finish(v, was, a, v.size, memory, order, free);
  }

  /** Where everything is there already, nothing is added. */
  lemma NothingToFill(c: Config, o: seq<(nat, nat)>, fileSize: nat, offset: nat, size: nat)
    requires c.Align() > 0
    ensures Fills(c, o, o, fileSize, offset, size)
  {
  }

  /** Allocates the space of a write unless all of it is there. */
  method Reserve(v: Vinode, c: Config, offset: nat, len: nat, hint: Option<Slot>, memory: bool) returns (r: Outcome)
    requires Valid(v) && v.blocks != null && c.Valid() && c.Align() == v.align && len > 0 && offset + len <= ALLOC_LIMIT
    requires ValidHint(v, hint)
    modifies v, v.blocks
    ensures r.Done? ==>
      && Valid(v) && v.Consistent() && v.size == old(v.size) && FileOf(v) == old(FileOf(v))
      && AllAllocated(v.Blocks(), offset, offset + len) && ValidHint(v, hint)
    ensures r.Failed? ==> !memory && Valid(v) && ImageOf(v) == old(ImageOf(v)) && v.order == old(v.order)
    ensures v.align > 0
    ensures r.Faulted? ==> WriteLosesGap(old(v.Blocks()), offset, len, v.align)
    ensures r.Done? ==> !WriteLosesGap(old(v.Blocks()), offset, len, v.align)
    ensures r.Done? ==> (v.allocatedSpace == old(v.allocatedSpace) <==> AllAllocated(old(v.Blocks()), offset, offset + len))
    ensures r.Done? ==> Fills(c, Outline(old(v.Blocks())), Outline(v.Blocks()), old(v.size), offset, len)
    ensures v.blocks == null || v.blocks == old(v.blocks)
  {
    hide ValidImage, Valid, Bytes, Linked, Compact, Represents, ValidBlocks, View, WriteLosesGap, AllAllocated, Fills, Outline;
    AlignFacts(c);
    ValidFacts(v);
    NothingToFill(c, Outline(v.Blocks()), v.size, offset, len);
    r := Done(0);
    var there := IsIntervalAllocated(v, offset, len, hint);
    if there {
      AllocatedHasNoGap(v.Blocks(), offset, len, v.align);
    } else {
      r := AllocateSpace(v, c, offset, len, memory);
    }
  }

  /** pmemfile_pwritev_internal: a vectored write is one write of as many of the concatenated bytes as are
      accepted, at the given offset or at the end of the file. An error changes nothing, and comes only from a lack of
      memory. Writes that would end within 3 * 2^32 + 2^14 bytes of the end of the 64-bit range are not covered. */
  method PWriteV(v: Vinode, c: Config, append: bool, position: nat, iov: seq<seq<Byte>>, hint: Option<Slot>, memory: bool)
    returns (r: Outcome, last: Option<Slot>)
    requires Valid(v) && ValidHint(v, hint) && c.Valid() && c.Align() == v.align && position < TWO_64 && Lengths64(iov)
    requires var offset := if append then v.size else position;
      offset + Accepted(offset, |Concat(iov)|) <= ALLOC_LIMIT
    modifies v, v.blocks
    ensures var offset := if append then old(v.size) else position;
      var data := Concat(iov)[..Accepted(offset, |Concat(iov)|)];
      && (r.Done? ==>
            && Valid(v) && r.count == |data| && FileOf(v) == WriteAt(old(FileOf(v)), offset, data)
            && (data != [] ==> v.Consistent() && AllAllocated(v.Blocks(), offset, offset + |data|)))
    ensures v.align > 0
    ensures var offset := if append then old(v.size) else position;
      var n := Accepted(offset, |Concat(iov)|);
      r.Done? ==>
        if n == 0 then Outline(v.Blocks()) == Outline(old(v.Blocks()))
        else Fills(c, Outline(old(v.Blocks())), Outline(v.Blocks()), old(v.size), offset, n)
    ensures var offset := if append then old(v.size) else position;
      var lost := WriteLosesGap(old(v.Blocks()), offset, Accepted(offset, |Concat(iov)|), v.align);
      (r.Faulted? ==> lost) && (r.Done? ==> !lost)
    ensures r.Failed? ==> !memory && Valid(v) && ImageOf(v) == old(ImageOf(v)) && v.order == old(v.order)
    ensures !r.Faulted? ==> ValidHint(v, last)
    ensures v.blocks == null || v.blocks == old(v.blocks) || fresh(v.blocks)
  {
    hide ValidImage, Valid, Bytes, Linked, Compact, Represents, ValidBlocks, View, CastLosesGap, AllAllocated, Concat,
         ZeroFrom, WriteAt, FloorTo, CeilTo, Fills, Outline;
    AlignFacts(c);
    last := hint;
    var ok := Prepare(v, memory);
    if !ok {
      return Failed, last;
    }
    var offset := if append then v.size else position;
    var sum := SumLengths(offset, iov);
    if sum == 0 {
      return Done(0), last;
    }
    r := Reserve(v, c, offset, sum, last, memory);
    if !r.Done? {
      return;
    }
    var ret;
    ret, last := WriteAllocated(v, offset, iov, last);
    r := Done(ret);
  }

  /** Writing once the space is there, and extending the size to the end of the write. */
  method WriteAllocated(v: Vinode, offset: nat, iov: seq<seq<Byte>>, hint: Option<Slot>) returns (ret: nat, last: Option<Slot>)
    requires Valid(v) && v.Consistent() && ValidHint(v, hint) && offset < TWO_64 && Lengths64(iov)
    requires var n := Accepted(offset, |Concat(iov)|);
      n > 0 && offset + n <= ALLOC_LIMIT && AllAllocated(v.Blocks(), offset, offset + n)
    modifies v`mem, v`size
    ensures v.Consistent() && Valid(v) && ValidHint(v, last)
    ensures var data := Concat(iov)[..Accepted(offset, |Concat(iov)|)];
      && ret == |data| && FileOf(v) == WriteAt(old(FileOf(v)), offset, data)
      && AllAllocated(v.Blocks(), offset, offset + |data|) && Outline(v.Blocks()) == Outline(old(v.Blocks()))
  {
    hide ValidImage, Bytes, Linked, Compact, Represents, ValidBlocks, View, AllAllocated, Written, Concat, ZeroFrom, Valid, Consecutive,
         Ordered, WriteAt, Outline;
    ValidFacts(v);
    ghost var bs0, size0, data := v.Blocks(), v.size, Concat(iov)[..Accepted(offset, |Concat(iov)|)];
    ghost var pieces;
    ret, last, pieces := WriteBuffers(v, offset, hint, iov, data);
    WrittenTotal(bs0, v.Blocks(), offset, data);
    WrittenAllocated(bs0, v.Blocks(), offset, data);
    if offset + ret > v.size {
      v.size := offset + ret;
    }
    WrittenBytes(bs0, v.Blocks(), size0, v.size, offset, data);
    ValidAgain(v);
  }

  lemma WrittenTotal(bs0: seq<Block>, bs: seq<Block>, offset: nat, data: seq<Byte>)
    requires Written(bs0, bs, offset, data, offset + |data|)
    ensures Ordered(bs) && TotalSize(bs) == TotalSize(bs0) && Outline(bs) == Outline(bs0)
  {
    assert forall i :: 0 <= i < |bs| ==> SameExtent(bs0[i], bs[i]);
  }

  lemma WrittenAllocated(bs0: seq<Block>, bs: seq<Block>, offset: nat, data: seq<Byte>)
    requires Written(bs0, bs, offset, data, offset + |data|) && AllAllocated(bs0, offset, offset + |data|)
    ensures AllAllocated(bs, offset, offset + |data|)
  {
    forall p: nat | offset <= p < offset + |data|
      ensures Allocated(bs, p)
    {
      assert Allocated(bs0, p);
      var i :| 0 <= i < |bs0| && Holds(bs0[i], p);
      assert SameExtent(bs0[i], bs[i]);
    }
  }

  // ---------------------------------------------------------------- preadv

  /** vinode_read: stops at the end of the file. */
  method ReadBuffer(v: Vinode, offset: nat, hint: Option<Slot>, count: nat) returns (buf: seq<Byte>, last: Option<Slot>)
    requires v.Consistent() && ValidHint(v, hint) && v.size <= ALLOC_LIMIT
    ensures |buf| == (if offset >= v.size then 0 else if v.size - offset < count then v.size - offset else count)
    ensures ReadSoFar(v.Blocks(), offset, buf) && ValidHint(v, last)
  {
    hide Linked, Compact, Represents, AlignedTo, Bounded, View, StartAtOrBelow;
    last := hint;
    if offset >= v.size {
      return [], last;
    }
    var len := if v.size - offset < count then v.size - offset else count;
    var block, n := FindClosestBlockWithHint(v, offset, hint);
    StartFacts(v.Blocks(), offset, n);
    buf, block := ReadRange(v, block, offset, len, n);
    if block.Some? {
      last := block;
    }
  }

  ghost function Sum(lens: seq<nat>): nat {
    if lens == [] then 0 else Sum(lens[..|lens| - 1]) + lens[|lens| - 1]
  }

  /** Every byte comes from a read that began somewhere in the range at or before it. */
  ghost predicate ReadPiecewise(bs: seq<Block>, offset: nat, out: seq<Byte>) {
    Ordered(bs) && forall i :: 0 <= i < |out| ==> IsRead(bs, offset, offset + i, out[i])
  }

  ghost predicate IsRead(bs: seq<Block>, offset: nat, p: nat, b: Byte)
    requires Ordered(bs)
  {
    exists s: nat :: offset <= s <= p && b == ReadByte(bs, s, p)
  }

  lemma ReadNextPiece(bs: seq<Block>, offset: nat, out: seq<Byte>, piece: seq<Byte>)
    requires ReadPiecewise(bs, offset, out) && ReadSoFar(bs, offset + |out|, piece)
    ensures ReadPiecewise(bs, offset, out + piece)
  {
    hide ReadByte, Ordered;
    forall i | 0 <= i < |out + piece|
      ensures IsRead(bs, offset, offset + i, (out + piece)[i])
    {
      if i >= |out| {
        assert piece[i - |out|] == ReadByte(bs, offset + |out|, offset + |out| + (i - |out|));
      } else {
        assert IsRead(bs, offset, offset + i, out[i]);
      }
    }
  }

  /** A read that crosses no hole returns the content. */
  lemma PiecesAreContent(bs: seq<Block>, offset: nat, out: seq<Byte>)
    requires ReadPiecewise(bs, offset, out) && !CrossesHole(bs, offset, |out|)
    ensures forall i :: 0 <= i < |out| ==> out[i] == Content(bs, offset + i)
  {
    forall i | 0 <= i < |out|
      ensures out[i] == Content(bs, offset + i)
    {
      assert IsRead(bs, offset, offset + i, out[i]);
      var s: nat :| offset <= s <= offset + i && out[i] == ReadByte(bs, s, offset + i);
      NoHoleNothingMissed(bs, s, offset + i + 1 - s);
    }
  }

  /** pmemfile_preadv_internal: the buffers receive the bytes of the file from `position` on, as many as they
      hold and the file has, provided the range crosses no hole between blocks. */
  method PReadV(v: Vinode, position: nat, lens: seq<nat>, hint: Option<Slot>) returns (out: seq<Byte>, last: Option<Slot>)
    requires Valid(v) && v.blocks != null && ValidHint(v, hint)
    requires forall i :: 0 <= i < |lens| ==> lens[i] < TWO_64 && (v.size <= MAX_OFFSET || lens[i] <= MAX_OFFSET)
    ensures |out| == ReadCount(position, v.size, Sum(lens))
    ensures v.Consistent() && ReadPiecewise(v.Blocks(), position, out) && ValidHint(v, last)
    ensures !CrossesHole(v.Blocks(), position, |out|) ==> out == FileRange(FileOf(v), position, |out|)
  {
    hide Valid, FileOf, Linked, Compact, Represents, ValidBlocks, View, ReadPiecewise, ReadSoFar, CrossesHole, Ordered, Sum, ReadCount,
         FileRange, Content;
    ValidFacts(v);
    out, last := [], hint;
    var i, offset := 0, position;
    assert lens[..0] == [];
    NothingRead(v.Blocks(), position, v.size);
    while i < |lens|
      invariant 0 <= i <= |lens| && ValidHint(v, last) && offset == position + |out|
      invariant |out| == ReadCount(position, v.size, Sum(lens[..i])) && ReadPiecewise(v.Blocks(), position, out)
    {
      var len := ClampForRead(|out|, lens[i]);
      var piece;
      piece, last := ReadBuffer(v, offset, last, len);
      ReadNextPiece(v.Blocks(), position, out, piece);
      SumNext(lens, i);
      ReadAgain(position, v.size, Sum(lens[..i]), lens[i], Sum(lens), |piece|);
      out := out + piece;
      offset := offset + |piece|;
      if |piece| != len {
        break;
      }
      i := i + 1;
    }
    assert i == |lens| ==> lens[..i] == lens;
    PiecesAreFile(v, position, out);
  }

  function ClampForRead(ret: nat, length: nat): nat
    requires ret < TWO_64 && length < TWO_64
  {
    if Negative(Plus64(ret, length)) && ret <= MAX_OFFSET then MAX_OFFSET - ret else length
  }

  lemma PiecesAreFile(v: Vinode, position: nat, out: seq<Byte>)
    requires Valid(v) && v.blocks != null && v.Consistent() && ReadPiecewise(v.Blocks(), position, out)
    requires |out| > 0 ==> position + |out| <= v.size
    ensures !CrossesHole(v.Blocks(), position, |out|) ==> out == FileRange(FileOf(v), position, |out|)
  {
    hide Valid, FileOf, Linked, Compact, Represents, ValidBlocks, View, ReadPiecewise, CrossesHole, Ordered;
    ValidFacts(v);
    if !CrossesHole(v.Blocks(), position, |out|) {
      PiecesAreContent(v.Blocks(), position, out);
    }
  }

  function ReadCount(position: nat, size: nat, total: nat): (n: nat)
    ensures n <= MAX_OFFSET && (n > 0 ==> position + n <= size)
  {
    var available := if position >= size then 0 else size - position;
    var wanted := if total > MAX_OFFSET then MAX_OFFSET else total;
    if available < wanted then available else wanted
  }

  /** The count after one more buffer, whose length was clamped, and whether that was the last one. */
  lemma ReadAgain(position: nat, size: nat, before: nat, length: nat, total: nat, got: nat)
    requires length < TWO_64 && (size <= MAX_OFFSET || length <= MAX_OFFSET) && before + length <= total
    requires var out := ReadCount(position, size, before);
      var len := ClampForRead(out, length);
      var off := position + out;
      got == (if off >= size then 0 else if size - off < len then size - off else len)
    ensures var out := ReadCount(position, size, before);
      var len := ClampForRead(out, length);
      && out + got == ReadCount(position, size, before + length)
      && (got != len ==> out + got == ReadCount(position, size, total))
  {
  }

  function FileRange(f: seq<Byte>, from: nat, len: nat): seq<Byte> {
    if from + len <= |f| then f[from..from + len] else []
  }

  lemma NothingRead(bs: seq<Block>, offset: nat, size: nat)
    requires Ordered(bs)
    ensures ReadPiecewise(bs, offset, []) && Sum([]) == 0 && ReadCount(offset, size, 0) == 0
  {
  }

  lemma {:induction false} SumPrefix(lens: seq<nat>, i: nat)
    requires i <= |lens|
    ensures Sum(lens[..i]) <= Sum(lens)
  {
    if i == |lens| {
      assert lens[..i] == lens;
    } else {
      SumPrefix(lens[..|lens| - 1], i);
      assert lens[..|lens| - 1][..i] == lens[..i];
    }
  }

  lemma SumNext(lens: seq<nat>, i: nat)
    requires i < |lens|
    ensures Sum(lens[..i + 1]) == Sum(lens[..i]) + lens[i] <= Sum(lens)
  {
    assert lens[..i + 1][..i] == lens[..i];
    SumPrefix(lens, i + 1);
  }
}
