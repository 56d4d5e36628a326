/** Operations on regular files: ftruncate, fallocate, pwritev and preadv (truncate.c, fallocate.c, write.c, read.c). */
module FileOps {
  import opened Layout
  import opened OffsetMapping
  import opened BlockList
  import opened BlockArray
  import opened BlockSizes
  import opened Placement
  import opened Extents
  import opened Vinodes
  import opened Data
  import opened FileState
  import opened FileBytes

  /** How an operation ends. `Failed` is an error return; `Faulted` the failed assertion on the block limit, which ends
      the process where debug checks are on. Where they are off, the code goes on with the table's element before the
      first; that is not modelled. */
  datatype Outcome = Done(count: nat) | Failed | Faulted

  /** The bytes of a valid file. */
  ghost function FileOf(v: Vinode): seq<Byte>
    requires Valid(v)
    reads v`mem, v`chain, v`size, v`allocatedSpace, v`firstFree, v`firstBlock, v`blocks, v`order, v`free, v.blocks
  {
    Bytes(View(v.mem, v.order), v.size)
  }

  lemma ValidFacts(v: Vinode)
    requires Valid(v)
    ensures (forall i :: 0 <= i < |v.order| ==> v.order[i] in v.mem) && Ordered(v.Blocks()) && ZeroFrom(v.Blocks(), v.size)
    ensures v.size <= ALLOC_LIMIT && v.allocatedSpace == TotalSize(v.Blocks()) && FileOf(v) == Bytes(v.Blocks(), v.size)
    ensures v.blocks != null ==> v.Consistent()
  {
  }

  lemma ValidAgain(v: Vinode)
    requires v.Consistent() && v.size <= ALLOC_LIMIT && v.allocatedSpace == TotalSize(v.Blocks())
    requires Ordered(v.Blocks()) && ZeroFrom(v.Blocks(), v.size)
    ensures Valid(v) && FileOf(v) == Bytes(v.Blocks(), v.size)
  {
  }

  lemma ImageIsValid(v: Vinode)
    requires Valid(v)
    ensures ValidImage(ImageOf(v), v.order, v.free, v.align)
    ensures v.firstFree.Some? ==> v.firstFree.value == Slot(Head(v.chain), v.free)
  {
  }

  /** Starts an operation: the block tree exists from here on. */
  method Prepare(v: Vinode, memory: bool) returns (ok: bool)
    requires Valid(v)
    modifies v`firstBlock, v`blocks
    ensures Valid(v) && FileOf(v) == old(FileOf(v)) && (ok ==> v.blocks != null) && (memory ==> ok)
    ensures v.blocks == old(v.blocks) || fresh(v.blocks)
  {
    ok := true;
    if v.blocks == null {
      ok := Rebuild(v, memory);
    }
  }

  /** Ends the transaction: commits the new size and space, or undoes everything if memory has run out. */
  method Finish(v: Vinode, was: Image, a: AllocResult, size: nat, memory: bool, ghost order: seq<Slot>, ghost free: nat) returns (r: Outcome)
    requires a.Took? ==>
      && v.Consistent() && size <= ALLOC_LIMIT && a.space == TotalSize(v.Blocks())
      && Ordered(v.Blocks()) && ZeroFrom(v.Blocks(), size)
    requires ValidImage(was, order, free, v.align)
    requires v.snapshotFree.Some? ==> v.snapshotFree.value == Slot(Head(was.chain), free)
    modifies v
    ensures r.Done? ==> a.Took? && Valid(v) && v.blocks == old(v.blocks) && v.Consistent() && v.order == old(v.order)
    ensures r.Done? ==> v.size == size && v.allocatedSpace == a.space && v.Blocks() == old(v.Blocks()) && FileOf(v) == Bytes(v.Blocks(), size)
    ensures r.Failed? ==> Valid(v) && ImageOf(v) == was && v.order == order && (a.Aborted? || !memory)
    ensures r.Faulted? <==> a.BadLimit?
    ensures v.blocks == null || v.blocks == old(v.blocks)
  {
    hide ValidImage, Bytes, Ordered, ZeroFrom, Linked, Compact, Represents, ValidBlocks, View;
    if a.BadLimit? {
      return Faulted;
    }
    var ok := v.TxAlloc(memory);
    if a.Aborted? || !ok {
      Abort(v, was, order, free);
      return Failed;
    }
    v.size := size;
    v.allocatedSpace := a.space;
    ValidAgain(v);
    r := Done(0);
  }

  // ---------------------------------------------------------------- ftruncate

  /** Growing from `size` to `goal` meets the gap before the first block whose length the cast loses. */
  ghost predicate GrowthLosesGap(bs: seq<Block>, size: nat, goal: nat, align: nat)
    requires align > 0
  {
    size < goal && CastLosesGap(bs, FloorTo(size, align), goal)
  }

  /** The extents that truncating to `size` leaves: those that start below it, and what a growing file needs. */
  ghost predicate Reshaped(c: Config, bs0: seq<Block>, bs: seq<Block>, size0: nat, size: nat)
    requires c.Align() > 0
  {
    var left := Outside(bs0, size, TWO_64 - 1);
    if size <= size0 then Outline(bs) == left else Fills(c, left, Outline(bs), size0, size0, size - size0)
  }

  /** vinode_truncate. With enough memory it fails for no other reason than the lost gap. */
  method Truncate(v: Vinode, c: Config, size: nat, memory: bool) returns (r: Outcome)
    requires Valid(v) && c.Valid() && c.Align() == v.align && size <= MAX_OFFSET
    modifies v, v.blocks
    ensures r.Done? ==> Valid(v) && v.size == size && |FileOf(v)| == size && FileOf(v) == Resized(old(FileOf(v)), size)
    ensures r.Done? ==> forall p :: 0 <= p < size ==> FileOf(v)[p] == if p < old(v.size) then old(FileOf(v))[p] else 0
    ensures r.Done? ==> Reshaped(c, old(v.Blocks()), v.Blocks(), old(v.size), size)
    ensures r.Failed? ==> !memory && Valid(v) && ImageOf(v) == old(ImageOf(v)) && FileOf(v) == old(FileOf(v))
    ensures v.align > 0
    ensures r.Faulted? ==> GrowthLosesGap(old(v.Blocks()), old(v.size), size, v.align)
    ensures r.Done? ==> !GrowthLosesGap(old(v.Blocks()), old(v.size), size, v.align)
    ensures v.blocks == null || v.blocks == old(v.blocks) || fresh(v.blocks)
  {
    hide ValidImage, Valid, Bytes, Ordered, Resized, ZeroFrom, Linked, Compact, Represents, ValidBlocks, View, GrowthLosesGap, Reshaped,
         TotalSize;
    AlignFacts(c);
    ghost var f := FileOf(v);
    FileLength(v);
    var ok := Prepare(v, memory);
    if !ok {
      return Failed;
    }
    ValidFacts(v);
    ImageIsValid(v);
    ghost var order, free := v.order, v.free;
    Snapshot(v);
    var was := ImageOf(v);
    var a := TruncateBlocks(v, c, size, memory);
    r := Finish(v, was, a, size, memory, order, free);
  }

  /** The work inside the transaction; `space` is the new number of allocated bytes. */
  method TruncateBlocks(v: Vinode, c: Config, size: nat, memory: bool) returns (r: AllocResult)
    requires v.Consistent() && c.Valid() && c.Align() == v.align && size <= MAX_OFFSET && v.size <= ALLOC_LIMIT
    requires v.allocatedSpace == TotalSize(v.Blocks()) && Ordered(v.Blocks()) && ZeroFrom(v.Blocks(), v.size)
    modifies v`mem, v`chain, v`firstFree, v`free, v`firstBlock, v`order, v`invalidations, v.blocks
    ensures v.blocks == old(v.blocks) && v.align > 0
    ensures r.BadLimit? <==> GrowthLosesGap(old(v.Blocks()), v.size, size, v.align)
    ensures memory ==> !r.Aborted?
    ensures r.Took? ==>
      && v.Consistent() && Ordered(v.Blocks()) && ZeroFrom(v.Blocks(), size)
      && Bytes(v.Blocks(), size) == Resized(Bytes(old(v.Blocks()), v.size), size)
      && r.space == TotalSize(v.Blocks()) && Reshaped(c, old(v.Blocks()), v.Blocks(), v.size, size)
  {
    hide Bytes, Content, TotalSize, FilledTo, Punched, Resized, ZeroFrom, Linked, Compact, Represents, View,
         CastLosesGap, FloorTo, CeilTo, Requested, Outline, Outside, AllAllocated, Placed;
    AlignFacts(c);
    ghost var bs0 := v.Blocks();
    var space := v.allocatedSpace;
    var freed := RemoveInterval(v, size, TWO_64 - 1 - size);
    space := space - freed;
    ghost var bs1 := v.Blocks();
    CutBytes(bs0, bs1, v.size, size, TWO_64 - 1);
    if v.size < size {
      GapStays(bs0, bs1, FloorTo(v.size, v.align), size, CeilTo(size, v.align), v.align);
      r := AllocateInterval(v, c, v.size, size - v.size, memory);
      if !r.Took? {
        return;
      }
      space := space + r.space;
      FilledBytes(bs1, v.Blocks(), FloorTo(v.size, v.align), CeilTo(v.size + Requested(c, Outline(bs1), v.size, v.size, size - v.size), v.align), size);
    }
    r := Took(space);
  }

  /** Cutting at `size` leaves the gap before the first block if that block starts before `size`, and no block if not. */
  lemma GapStays(bs0: seq<Block>, bs: seq<Block>, lo: nat, size: nat, hi: nat, align: nat)
    requires ValidBlocks(bs0, align) && Outline(bs) == Outside(bs0, size, TWO_64 - 1) && size <= hi
    ensures CastLosesGap(bs, lo, hi) <==> CastLosesGap(bs0, lo, size)
  {
    OutsideToEnd(bs0, size, TWO_64 - 1);
  }

  lemma FilledBytes(bs0: seq<Block>, bs: seq<Block>, lo: nat, hi: nat, size: nat)
    requires FilledTo(bs0, bs, lo, hi) && ZeroFrom(bs0, size)
    ensures Ordered(bs) && Ordered(bs0) && ZeroFrom(bs, size) && Bytes(bs, size) == Bytes(bs0, size)
  {
    SameBytes(bs0, bs, size, size);
  }

  /** An allocation inside a transaction; the result holds the new number of allocated bytes. */
  method AllocateMore(v: Vinode, c: Config, offset: nat, len: nat, memory: bool) returns (r: AllocResult)
    requires v.Consistent() && c.Valid() && c.Align() == v.align && len > 0 && offset + len <= ALLOC_LIMIT
    requires v.allocatedSpace == TotalSize(v.Blocks()) && Ordered(v.Blocks())
    modifies v`mem, v`chain, v`firstFree, v`free, v`firstBlock, v`order, v.blocks
    ensures v.blocks == old(v.blocks) && v.align > 0
    ensures r.BadLimit? <==> CastLosesGap(old(v.Blocks()), FloorTo(offset, v.align), CeilTo(offset + len, v.align))
    ensures memory ==> !r.Aborted?
    ensures r.Took? ==>
      && v.Consistent() && SameContent(old(v.Blocks()), v.Blocks()) && KeptIn(old(v.order), v.order)
      && AllAllocated(v.Blocks(), offset, offset + len) && r.space == TotalSize(v.Blocks())
      && Fills(c, Outline(old(v.Blocks())), Outline(v.Blocks()), v.size, offset, len)
      && (r.space == v.allocatedSpace <==> AllAllocated(old(v.Blocks()), offset, offset + len))
  {
    hide Content, TotalSize, Ordered, Linked, Compact, Represents, View, CastLosesGap, FloorTo, CeilTo, Requested, AllAllocated,
         FilledTo, KeptIn, ValidBlocks, SameContent, Fills, Outline;
    AlignFacts(c);
    ghost var bs0 := v.Blocks();
    r := AllocateInterval(v, c, offset, len, memory);
    if r.Took? {
      FilledRange(bs0, v.Blocks(), FloorTo(offset, v.align), CeilTo(offset + Requested(c, Outline(bs0), v.size, offset, len), v.align), offset, offset + len);
      r := Took(v.allocatedSpace + r.space);
    }
  }

  /** The same byte at every offset. */
  ghost predicate SameContent(bs0: seq<Block>, bs: seq<Block>) {
    Ordered(bs0) && Ordered(bs) && forall p: nat :: Content(bs, p) == Content(bs0, p)
  }

  lemma FilledRange(bs0: seq<Block>, bs: seq<Block>, lo: nat, hi: nat, from: nat, to: nat)
    requires FilledTo(bs0, bs, lo, hi) && lo <= from && to <= hi
    ensures AllAllocated(bs, from, to) && SameContent(bs0, bs)
  {
  }

  // ---------------------------------------------------------------- fallocate

  const KEEP_SIZE: bv32 := 0x01
  const PUNCH_HOLE: bv32 := 0x02
  const COLLAPSE_RANGE: bv32 := 0x08
  const ZERO_RANGE: bv32 := 0x10
  const INSERT_RANGE: bv32 := 0x20

  datatype Errno = EINVAL | EFBIG | EOPNOTSUPP

  /** fallocate_check_arguments: allocation with or without KEEP_SIZE, and punching with it, are all it
      lets through. */
  method FallocateCheckArguments(mode: bv32, offset: int, length: int) returns (error: Option<Errno>)
    requires offset <= MAX_OFFSET && length <= MAX_OFFSET
    ensures error == None <==>
      && offset >= 0 && length > 0 && offset + length <= MAX_OFFSET
      && (mode == 0 || mode == KEEP_SIZE || mode == PUNCH_HOLE | KEEP_SIZE)
  {
    if length <= 0 || offset < 0 {
      return Some(EINVAL);
    }
    if (offset + length) % TWO_64 > MAX_OFFSET {
      return Some(EFBIG);
    }
    if mode & COLLAPSE_RANGE != 0 {
      return Some(EOPNOTSUPP);
    }
    if mode & ZERO_RANGE != 0 {
      return Some(EOPNOTSUPP);
    }
    if mode & INSERT_RANGE != 0 {
      return Some(EOPNOTSUPP);
    }
    if mode & PUNCH_HOLE != 0 {
      if mode != PUNCH_HOLE | KEEP_SIZE {
        return Some(EOPNOTSUPP);
      }
    } else if mode & !KEEP_SIZE != 0 {
      return Some(EINVAL);
    }
    error := None;
  }

  /** vinode_fallocate. Punching zeroes the range; allocating changes no byte, leaves no hole in the range and,
      unless told to keep the size, extends the file to the end of the range. The arguments have passed the
      check above. */
  method Fallocate(v: Vinode, c: Config, punch: bool, keepSize: bool, offset: nat, length: nat, memory: bool) returns (r: Outcome)
    requires Valid(v) && c.Valid() && c.Align() == v.align && (punch ==> keepSize)
    requires length > 0 && offset + length <= MAX_OFFSET
    modifies v, v.blocks
    ensures r.Done? ==> Valid(v) && FileOf(v) == FallocatedFile(old(FileOf(v)), punch, keepSize, offset, length)
    ensures r.Done? ==> v.size == (if punch || keepSize || offset + length < old(v.size) then old(v.size) else offset + length) && |FileOf(v)| == v.size
    ensures r.Done? ==> forall p :: 0 <= p < v.size ==>
      FileOf(v)[p] == if punch && offset <= p < offset + length then 0 else if p < old(v.size) then old(FileOf(v))[p] else 0
    ensures r.Done? && !punch ==> v.Consistent() && AllAllocated(v.Blocks(), offset, offset + length)
    ensures r.Done? ==> Refitted(c, old(v.Blocks()), v.Blocks(), old(v.size), punch, offset, length)
    ensures r.Failed? ==> !memory && Valid(v) && ImageOf(v) == old(ImageOf(v)) && FileOf(v) == old(FileOf(v))
    ensures v.align > 0
    ensures r.Faulted? ==> !punch && CastLosesGap(old(v.Blocks()), FloorTo(offset, v.align), CeilTo(offset + length, v.align))
    ensures r.Done? && !punch ==> !CastLosesGap(old(v.Blocks()), FloorTo(offset, v.align), CeilTo(offset + length, v.align))
    ensures v.blocks == null || v.blocks == old(v.blocks) || fresh(v.blocks)
  {
    hide ValidImage, Valid, Bytes, Ordered, FallocatedFile, ZeroFrom, Linked, Compact, Represents, ValidBlocks, View,
         AllAllocated, CastLosesGap, FloorTo, CeilTo, TotalSize, Multiple, Refitted, Vinode.Consistent;
    ConfigFacts(c);
    ghost var f := FileOf(v);
    FileLength(v);
    var start, len := offset, length;
    if !punch {
      start, len := ExpandToFullPages(c, offset, length);
    }
    ImageIsValid(v);
    ghost var order, free := v.order, v.free;
    Snapshot(v);
    assert Valid(v) && FileOf(v) == f;
    var ok := Prepare(v, memory);
    if !ok {
      return Failed;
    }
    ValidFacts(v);
    ImageIsValid(v);
    FallocatedBytes(f, punch, keepSize, offset, length);
    var was := ImageOf(v);
    var a, size := FallocateBlocks(v, c, punch, keepSize, start, len, offset, length, memory);
    r := Finish(v, was, a, size, memory, order, free);
  }

  /** What fallocate does to the bytes. */
  ghost function FallocatedFile(f: seq<Byte>, punch: bool, keepSize: bool, offset: nat, length: nat): seq<Byte> {
    if punch then Zeroed(f, offset, offset + length)
    else if keepSize then f
    else Padded(f, offset + length)
  }

  /** That, byte by byte. */
  lemma FallocatedBytes(f: seq<Byte>, punch: bool, keepSize: bool, offset: nat, length: nat)
    requires punch ==> keepSize
    ensures var r := FallocatedFile(f, punch, keepSize, offset, length);
      && |r| == (if punch || keepSize || offset + length < |f| then |f| else offset + length)
      && forall p :: 0 <= p < |r| ==> r[p] == if punch && offset <= p < offset + length then 0 else if p < |f| then f[p] else 0
  {
  }

  lemma FileLength(v: Vinode)
    requires Valid(v)
    ensures |FileOf(v)| == v.size
  {
  }

  /** The extents after fallocate: without those inside the hole, or with those that the pages of the range need. */
  ghost predicate Refitted(c: Config, bs0: seq<Block>, bs: seq<Block>, size0: nat, punch: bool, offset: nat, length: nat)
    requires c.Align() > 0 && length > 0
  {
    if punch then Outline(bs) == Outside(bs0, offset, offset + length)
    else
      var start := FloorTo(offset, c.Align());
      Fills(c, Outline(bs0), Outline(bs), size0, start, CeilTo(offset + length, c.Align()) - start)
  }

  /** The work inside the transaction. */
  method FallocateBlocks(v: Vinode, c: Config, punch: bool, keepSize: bool, start: nat, len: nat, offset: nat, length: nat, memory: bool)
    returns (r: AllocResult, size: nat)
    requires v.Consistent() && c.Valid() && c.Align() == v.align && v.size <= ALLOC_LIMIT
    requires 0 < length && offset + length <= MAX_OFFSET
    requires if punch then start == offset && len == length
             else start == FloorTo(offset, v.align) && start + len == CeilTo(offset + length, v.align) && len > 0
    requires v.allocatedSpace == TotalSize(v.Blocks()) && Ordered(v.Blocks()) && ZeroFrom(v.Blocks(), v.size)
    modifies v`mem, v`chain, v`firstFree, v`free, v`firstBlock, v`order, v`invalidations, v.blocks
    ensures v.blocks == old(v.blocks) && v.align > 0
    ensures r.BadLimit? <==> !punch && CastLosesGap(old(v.Blocks()), FloorTo(offset, v.align), CeilTo(offset + length, v.align))
    ensures memory ==> !r.Aborted?
    ensures r.Took? ==>
      && v.Consistent() && Ordered(v.Blocks()) && ZeroFrom(v.Blocks(), size) && size <= ALLOC_LIMIT
      && Bytes(v.Blocks(), size) == FallocatedFile(Bytes(old(v.Blocks()), v.size), punch, keepSize, offset, length)
      && (!punch ==> AllAllocated(v.Blocks(), offset, offset + length))
      && r.space == TotalSize(v.Blocks()) && Refitted(c, old(v.Blocks()), v.Blocks(), v.size, punch, offset, length)
  {
    hide Bytes, Content, TotalSize, Punched, ZeroFrom, Linked, Compact, Represents, View, CastLosesGap, FloorTo,
         CeilTo, Requested, AllAllocated, FilledTo, KeptIn, Outline, Outside, SameContent, ValidBlocks, Ordered, Fills;
    AlignFacts(c);
    ghost var bs0 := v.Blocks();
    size := v.size;
    if punch {
      var freed := RemoveInterval(v, start, len);
      OrderedBlocks(v);
      PunchedBytes(bs0, v.Blocks(), size, start, start + len);
      return Took(v.allocatedSpace - freed), size;
    }
    if !keepSize && size < offset + length {
      size := offset + length;
    }
    r := AllocateRange(v, c, start, len, memory, offset, length, size);
  }

  lemma OrderedBlocks(v: Vinode)
    requires v.Consistent()
    ensures Ordered(v.Blocks())
  {
  }

  /** The allocating half: no byte changes, and past the old size there are zeros. */
  method AllocateRange(v: Vinode, c: Config, start: nat, len: nat, memory: bool, ghost offset: nat, ghost length: nat, ghost size: nat) returns (r: AllocResult)
    requires v.Consistent() && c.Valid() && c.Align() == v.align && v.size <= size
    requires 0 < length && offset + length <= MAX_OFFSET
    requires start == FloorTo(offset, v.align) && start + len == CeilTo(offset + length, v.align) && len > 0
    requires v.allocatedSpace == TotalSize(v.Blocks()) && Ordered(v.Blocks()) && ZeroFrom(v.Blocks(), v.size)
    modifies v`mem, v`chain, v`firstFree, v`free, v`firstBlock, v`order, v.blocks
    ensures v.blocks == old(v.blocks) && v.align > 0
    ensures r.BadLimit? <==> CastLosesGap(old(v.Blocks()), FloorTo(offset, v.align), CeilTo(offset + length, v.align))
    ensures memory ==> !r.Aborted?
    ensures r.Took? ==>
      && v.Consistent() && Ordered(v.Blocks()) && ZeroFrom(v.Blocks(), size)
      && Bytes(v.Blocks(), size) == Resized(Bytes(old(v.Blocks()), v.size), size)
      && AllAllocated(v.Blocks(), offset, offset + length) && r.space == TotalSize(v.Blocks())
      && Fills(c, Outline(old(v.Blocks())), Outline(v.Blocks()), v.size, start, len)
  {
    hide Bytes, TotalSize, ZeroFrom, Linked, Compact, Represents, View, CastLosesGap, FloorTo, CeilTo, AllAllocated, KeptIn, Ordered,
         Content, ValidBlocks, Fills, Outline;
    AlignFacts(c);
    ghost var bs0 := v.Blocks();
    RoundedAlready(start, v.align);
    RoundedAlready(start + len, v.align);
    r := AllocateMore(v, c, start, len, memory);
    if r.Took? {
      FewerAllocated(v.Blocks(), start, start + len, offset, offset + length);
      SameBytes(bs0, v.Blocks(), v.size, size);
    }
  }

  lemma FewerAllocated(bs: seq<Block>, lo: nat, hi: nat, from: nat, to: nat)
    requires AllAllocated(bs, lo, hi) && lo <= from && to <= hi
    ensures AllAllocated(bs, from, to)
  {
  }
}
