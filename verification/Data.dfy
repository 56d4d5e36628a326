/** Allocating, punching, reading and writing the blocks of a file (data.c). */
module Data {
  import opened Layout
  import opened OffsetMapping
  import opened BlockList
  import opened BlockArray
  import opened Extents
  import opened Vinodes
  import opened BlockSizes
  import opened Placement

  // ---------------------------------------------------------------- lookup

  lemma ClosestPosition(mem: Memory, order: seq<Slot>, off: nat, r: Option<Slot>) returns (n: nat)
    requires Linked(mem, order) && Ordered(View(mem, order)) && IsClosest(mem, order, off, r)
    ensures StartAtOrBelow(View(mem, order), off, n) && r == Before(order, n)
  {
    var bs := View(mem, order);
    match r
    case None => n := 0;
    case Some(s) =>
      var i :| 0 <= i < |order| && order[i] == s;
      n := i + 1;
      forall j | 0 <= j < |bs|
        ensures j < n ==> bs[j].offset <= off
        ensures n <= j ==> off < bs[j].offset
      {
        assert j < i ==> bs[j].End() <= bs[i].offset;
        assert i < j ==> bs[i].End() <= bs[j].offset;
      }
  }

  /** find_closest_block; `n` counts the blocks that start at or below `off`. */
  method FindClosestBlock(v: Vinode, off: nat) returns (r: Option<Slot>, ghost n: nat)
    requires v.Consistent()
    ensures StartAtOrBelow(v.Blocks(), off, n) && r == Before(v.order, n)
  {
    ViewIsSorted(v.mem, v.order, v.align);
    assert forall i :: 0 <= i < |v.order| ==> v.Blocks()[i].End() < END_LIMIT;
    r := v.blocks.FindClosest(off, v.mem, v.order);
    n := ClosestPosition(v.mem, v.order, off, r);
  }

  // ---------------------------------------------------------------- vinode_remove_interval

  function ZeroFill(data: seq<Byte>, from: nat, count: nat): (r: seq<Byte>)
    requires from + count <= |data|
    ensures |r| == |data|
    ensures forall i :: 0 <= i < |data| ==> r[i] == if from <= i < from + count then 0 else data[i]
  {
    data[..from] + seq(count, _ => 0) + data[from + count..]
  }

  /** `b` with the bytes of [lo, hi) zeroed; a block that is not initialized needs no zeroing. */
  lemma ZeroedBlock(b: Block, from: nat, count: nat, lo: nat, hi: nat)
    requires |b.data| == b.size && from + count <= b.size
    requires b.offset + from == if lo < b.offset then b.offset else lo
    requires b.offset + from + count == if hi < b.End() then hi else b.End()
    ensures var z := if b.initialized then b.(data := ZeroFill(b.data, from, count)) else b;
      SameExtent(b, z) && forall p: nat :: Holds(z, p) ==> ByteAt(z, p) == if lo <= p < hi then 0 else ByteAt(b, p)
  {
    var z := if b.initialized then b.(data := ZeroFill(b.data, from, count)) else b;
    forall p: nat | Holds(z, p)
      ensures ByteAt(z, p) == if lo <= p < hi then 0 else ByteAt(b, p)
    {
      if b.initialized {
        assert z.data[p - b.offset] == if from <= p - b.offset < from + count then 0 else b.data[p - b.offset];
      }
    }
  }

  lemma PunchedPrefix(bs0: seq<Block>, bs: seq<Block>, n: nat, lo: nat, hi: nat)
    requires PunchedFrom(bs0, bs, n, lo, hi) && 0 < n
    ensures n <= |bs0| && n <= |bs| && bs[n - 1] == bs0[n - 1] && |bs[n - 1].data| == bs[n - 1].size && Ordered(bs)
  {
    PrefixTake(bs0, bs, n);
  }

  /** Zeroes `count` bytes of the block at position `n - 1`, if they were ever written. */
  method ZeroPart(v: Vinode, s: Slot, from: nat, count: nat, ghost n: nat, ghost lo: nat, ghost hi: nat, ghost bs0: seq<Block>)
    requires v.Consistent() && 0 < n <= |v.order| && v.order[n - 1] == s
    requires PunchedFrom(bs0, v.Blocks(), n, lo, hi)
    requires from + count <= v.mem[s].size
    requires var b := v.mem[s]; b.offset + from == if lo < b.offset then b.offset else lo
    requires var b := v.mem[s]; b.offset + from + count == if hi < b.offset + b.size then hi else b.offset + b.size
    modifies v`mem
    ensures v.Consistent() && PunchedFrom(bs0, v.Blocks(), n - 1, lo, hi)
    ensures TotalSize(v.Blocks()) == TotalSize(old(v.Blocks()))
    ensures |v.Blocks()| == |old(v.Blocks())| && SameExtent(old(v.Blocks())[n - 1], v.Blocks()[n - 1])
    ensures v.Blocks() == old(v.Blocks())[n - 1 := v.Blocks()[n - 1]]
  {
    hide Linked, Compact, Represents, ValidBlocks, View, PunchedFrom, Ordered, TotalSize;
    ghost var bs := v.Blocks();
    ghost var b := bs[n - 1];
    PunchedPrefix(bs0, bs, n, lo, hi);
    ZeroedBlock(b, from, count, lo, hi);
    if v.mem[s].initialized {
      v.SetData(s, ZeroFill(v.mem[s].data, from, count), true, n - 1);
    } else {
      assert bs[n - 1 := b] == bs;
    }
    PunchUpdate(bs0, bs, n, lo, hi, if b.initialized then b.(data := ZeroFill(b.data, from, count)) else b);
    UpdateTotal(bs, n - 1, if b.initialized then b.(data := ZeroFill(b.data, from, count)) else b);
  }

  predicate IsBlockContainedByInterval(d: Desc, start: nat, len: nat) {
    d.offset >= start && d.offset + d.size <= start + len
  }

  predicate IsIntervalContainedByBlock(d: Desc, start: nat, len: nat) {
    d.offset < start && d.offset + d.size > start + len
  }

  /** vinode_remove_interval: punches a hole into [offset, offset + len). The content becomes zero there
      and changes nowhere else, exactly the blocks inside it are removed, and `freed` is the space given back. */
  method RemoveInterval(v: Vinode, offset: nat, len: nat) returns (freed: nat)
    requires v.Consistent() && len > 0 && offset + len < TWO_64
    modifies v`mem, v`chain, v`firstFree, v`free, v`firstBlock, v`order, v`invalidations, v.blocks
    ensures v.Consistent() && v.blocks == old(v.blocks)
    ensures forall p: nat :: Content(v.Blocks(), p) == Punched(old(v.Blocks()), offset, offset + len, p)
    ensures Outline(v.Blocks()) == Outside(old(v.Blocks()), offset, offset + len)
    ensures TotalSize(v.Blocks()) + freed == TotalSize(old(v.Blocks()))
    ensures v.invalidations == old(v.invalidations) + 1
  {
    hide Ordered, Content, TotalSize, PunchedFrom, Punched, Linked, Compact, Represents, ValidBlocks, StartAtOrBelow, View,
         LeftFrom, Outline, Outside;
    v.invalidations := v.invalidations + 1;
    ghost var bs0, hi := v.Blocks(), offset + len;
    freed := 0;
    var block, n := FindClosestBlock(v, offset + len - 1);
    ghost var n0 := n;
    PunchBegins(bs0, v.align, n, offset, hi);
    while block.Some? && v.mem[block.value].offset + v.mem[block.value].size > offset
      invariant v.Consistent() && v.blocks == old(v.blocks) && v.invalidations == old(v.invalidations) + 1
      invariant 0 <= n <= n0 && n <= |v.order| && block == Before(v.order, n)
      invariant PunchedFrom(bs0, v.Blocks(), n, offset, hi) && LeftFrom(bs0, v.Blocks(), n, offset, hi)
      invariant TotalSize(v.Blocks()) + freed == TotalSize(bs0)
      decreases n
    {
      var released, stop;
      block, released, stop := PunchBlock(v, block.value, offset, len, n, n0, bs0);
      freed := freed + released;
      n := n - 1;
      if stop {
        break;
      }
    }
    PunchedBoundary(bs0, v.Blocks(), n, offset, hi);
    PunchDone(bs0, v.Blocks(), n, offset, hi);
    PunchLeft(bs0, v.Blocks(), n, offset, hi);
  }

  lemma PunchLeft(bs0: seq<Block>, bs: seq<Block>, n: nat, lo: nat, hi: nat)
    requires PunchedFrom(bs0, bs, n, lo, hi) && LeftFrom(bs0, bs, n, lo, hi) && Boundary(bs0, n) <= lo
    ensures Outline(bs) == Outside(bs0, lo, hi)
  {
    hide Content;
    LeftAll(bs0, bs, n, lo, hi);
  }

  /** One iteration of vinode_remove_interval, on the block at position `n - 1`: deallocates it or zeroes
      a part of it, and moves on to its predecessor unless the whole interval lies inside it. */
  method PunchBlock(v: Vinode, s: Slot, offset: nat, len: nat, ghost n: nat, ghost n0: nat, ghost bs0: seq<Block>)
    returns (next: Option<Slot>, released: nat, stop: bool)
    requires v.Consistent() && 0 < n <= n0 && n <= |v.order| && v.order[n - 1] == s && len > 0
    requires PunchedFrom(bs0, v.Blocks(), n, offset, offset + len) && StartAtOrBelow(bs0, offset + len - 1, n0)
    requires v.mem[s].offset + v.mem[s].size > offset && LeftFrom(bs0, v.Blocks(), n, offset, offset + len)
    modifies v`mem, v`chain, v`firstFree, v`free, v`firstBlock, v`order, v.blocks
    ensures v.Consistent() && v.blocks == old(v.blocks)
    ensures n - 1 <= |v.order| && next == Before(v.order, n - 1)
    ensures PunchedFrom(bs0, v.Blocks(), n - 1, offset, offset + len) && LeftFrom(bs0, v.Blocks(), n - 1, offset, offset + len)
    ensures TotalSize(v.Blocks()) + released == TotalSize(old(v.Blocks()))
    ensures stop ==> Boundary(v.Blocks(), n - 1) <= offset
  {
    hide Ordered, Content, TotalSize, PunchedFrom, Punched, Linked, Compact, ValidBlocks, StartAtOrBelow, Represents,
         View, RemoveAt, Before, Head, First, LeftFrom;
    var d := v.mem[s];
    ghost var bs := v.Blocks();
    released, stop := 0, false;
    PunchedBlock(bs0, v.Blocks(), n, n0, offset, offset + len);
    PrevOf(v.mem, v.order, n - 1);
    next := d.prev;
    if IsBlockContainedByInterval(d, offset, len) {
      released := d.size;
      PunchRemove(bs0, v.Blocks(), n, offset, offset + len);
      RemoveTotal(v.Blocks(), n - 1);
      LeftGone(bs0, bs, n, offset, offset + len);
      next := v.RemoveBlockAt(s, n - 1);
    } else if IsIntervalContainedByBlock(d, offset, len) {
      ZeroPart(v, s, offset - d.offset, len, n, offset, offset + len, bs0);
      LeftKept(bs0, bs, n, offset, offset + len, v.Blocks()[n - 1]);
      PunchedBoundary(bs0, v.Blocks(), n - 1, offset, offset + len);
      stop := true;
    } else if d.offset + d.size > offset + len {
      // the block sticks out at the right edge
      ZeroPart(v, s, 0, offset + len - d.offset, n, offset, offset + len, bs0);
      LeftKept(bs0, bs, n, offset, offset + len, v.Blocks()[n - 1]);
    } else {
      // the block sticks out at the left edge
      ZeroPart(v, s, offset - d.offset, d.size - (offset - d.offset), n, offset, offset + len, bs0);
      LeftKept(bs0, bs, n, offset, offset + len, v.Blocks()[n - 1]);
    }
  }

  lemma PunchBegins(bs: seq<Block>, align: nat, n: nat, lo: nat, hi: nat)
    requires ValidBlocks(bs, align) && lo < hi && StartAtOrBelow(bs, hi - 1, n)
    ensures n <= |bs| && PunchedFrom(bs, bs, n, lo, hi) && LeftFrom(bs, bs, n, lo, hi)
  {
    PunchStart(bs, n, lo, hi);
    hide Content;
    NoneInside(bs, n, lo, hi);
  }

  /** The block about to be treated is still as it was, starts below the end of the hole, and
      everything before it ends before it starts. */
  lemma PunchedBlock(bs0: seq<Block>, bs: seq<Block>, n: nat, n0: nat, lo: nat, hi: nat)
    requires PunchedFrom(bs0, bs, n, lo, hi) && 0 < n <= n0 && lo < hi && StartAtOrBelow(bs0, hi - 1, n0)
    ensures n <= |bs0| && n <= |bs| && bs[n - 1] == bs0[n - 1]
    ensures bs0[n - 1].offset < hi && Boundary(bs0, n - 1) <= bs0[n - 1].offset
  {
    PrefixTake(bs0, bs, n);
  }

  lemma PunchedBoundary(bs0: seq<Block>, bs: seq<Block>, n: nat, lo: nat, hi: nat)
    requires PunchedFrom(bs0, bs, n, lo, hi)
    ensures n <= |bs0| && n <= |bs| && Boundary(bs0, n) == Boundary(bs, n)
  {
    if n > 0 {
      PrefixTake(bs0, bs, n);
    }
  }

  lemma PrevOf(mem: Memory, order: seq<Slot>, i: nat)
    requires Linked(mem, order) && i < |order|
    ensures mem[order[i]].prev == Before(order, i)
  {
    LinksAt(mem, order, i);
  }

  // ---------------------------------------------------------------- vinode_allocate_interval

  /** File offsets are signed 64-bit numbers. */
  const MAX_OFFSET: nat := 0x7fff_ffff_ffff_ffff

  /** Allocation stays this far below the end of the 64-bit range, so that rounding up, overallocating and
      adding the largest block cannot wrap around. */
  const ALLOC_LIMIT: nat := END_LIMIT - 3 * TWO_32

  /** How an allocation ends: the space it took, an aborted transaction, or the failed assertion in
      data_block_info that the limit admits the smallest block. */
  datatype AllocResult = Took(space: nat) | Aborted | BadLimit

  function OverallocateSize(size: nat): (r: nat)
    ensures r >= size && (r == size || r <= 64 * 1024 * 1024)
  {
    if size <= 4096 then 16 * 1024
    else if size <= 64 * 1024 then 256 * 1024
    else if size <= 1024 * 1024 then 4 * 1024 * 1024
    else if size <= 64 * 1024 * 1024 then 64 * 1024 * 1024
    else size
  }

  /** The write ends past the file size and past the last block. */
  ghost predicate Appends(o: seq<(nat, nat)>, fileSize: nat, offset: nat, size: nat) {
    fileSize < offset + size && (o == [] || o[|o| - 1].0 + o[|o| - 1].1 < offset + size)
  }

  method IsAppend(v: Vinode, offset: nat, size: nat) returns (r: bool)
    requires v.Consistent()
    ensures r <==> Appends(Outline(v.Blocks()), v.size, offset, size)
  {
    hide Outline;
    if v.size >= offset + size {
      return false;
    }
    var last, n := FindClosestBlock(v, TWO_64 - 1);
    assert forall i :: 0 <= i < |v.order| ==> v.Blocks()[i].End() < END_LIMIT;
    if last == None {
      return true;
    }
    r := v.mem[last.value].offset + v.mem[last.value].size < offset + size;
  }

  /** One allocating case of vinode_allocate_interval: picks a size of at most `limit`, which must fit in
      front of block `n`, and adds the block at `off`. */
  method AllocateBlockAt(v: Vinode, c: Config, block: Option<Slot>, off: nat, left: nat, limit: nat, memory: bool,
                         ghost n: nat, ghost start: nat, ghost bs0: seq<Block>)
    returns (ok: bool, s: Slot, b: nat)
    requires v.Consistent() && c.Valid() && c.Align() == v.align
    requires n <= |v.order| && block == Before(v.order, n)
    requires FilledUpTo(bs0, v.Blocks(), n, start, off) && !(n > 0 && Holds(v.Blocks()[n - 1], off))
    requires Multiple(off, v.align) && limit >= v.align && off + TWO_32 < END_LIMIT
    requires n < |v.order| ==> off + limit <= v.Blocks()[n].offset
    requires left > 0 && IsLimit(c.Sizes(), Outline(bs0), start, off + left, off, limit)
    requires Placing(c.Sizes(), bs0, v.Blocks(), n, start, off + left)
    modifies v`mem, v`chain, v`firstFree, v`free, v`firstBlock, v`order, v.blocks
    ensures v.blocks == old(v.blocks) && (memory ==> ok)
    ensures ok ==>
      && v.Consistent() && n < |v.order| && Some(s) == Before(v.order, n + 1)
      && FilledUpTo(bs0, v.Blocks(), n + 1, start, off) && Holds(v.Blocks()[n], off)
      && TotalSize(v.Blocks()) == TotalSize(old(v.Blocks())) + b && b > 0
      && KeptIn(old(v.order), v.order) && Placing(c.Sizes(), bs0, v.Blocks(), n + 1, start, off + left)
  {
    hide Linked, Compact, Represents, FilledUpTo, Content, TotalSize, Multiple, Allocated, View, Outline, IsLimit, Chosen, Placing,
         KeptIn, FitsAt, ValidBlocks, Ordered;
    ConfigFacts(c);
    FilledOrder(bs0, v.Blocks(), n, start, off);
    FilledNeighbours(bs0, v.Blocks(), n, start, off);
    b := DataBlockInfo(c.Sizes(), left, limit);
    ghost var bs := v.Blocks();
    PickIsChosen(c.Sizes(), Outline(bs0), start, off, left, limit, b);
    PickFits(bs0, v.Blocks(), v.align, n, start, off, b);
    ok, s := v.AddBlock(block, off, b, memory, n);
    if ok {
      BlockAdded(c.Sizes(), bs0, bs, v.Blocks()[n], n, start, off, off + left, v.align);
      InsertKeeps(old(v.order), n, s);
    }
  }

  lemma PickFits(bs0: seq<Block>, bs: seq<Block>, align: nat, n: nat, start: nat, off: nat, b: nat)
    requires ValidBlocks(bs, align) && FilledUpTo(bs0, bs, n, start, off) && !(n > 0 && Holds(bs[n - 1], off))
    requires Multiple(off, align) && Multiple(b, align) && 0 < b < TWO_32 && off + TWO_32 < END_LIMIT
    requires n < |bs| ==> off + b <= bs[n].offset
    ensures FitsAt(bs, align, n, off, b)
  {
    hide Content, Allocated;
  }

  lemma BlockAdded(sizes: seq<nat>, bs0: seq<Block>, bs: seq<Block>, b: Block, n: nat, start: nat, off: nat, end: nat, align: nat)
    requires FilledUpTo(bs0, bs, n, start, off) && n <= |bs| && ValidBlocks(InsertAt(bs, n, b), align) && b.offset == off && !b.initialized
    requires Placing(sizes, bs0, bs, n, start, end) && Chosen(sizes, Outline(bs0), start, end, (b.offset, b.size))
    ensures var r := InsertAt(bs, n, b);
      && FilledUpTo(bs0, r, n + 1, start, off) && Placing(sizes, bs0, r, n + 1, start, end) && Holds(b, off)
      && TotalSize(r) == TotalSize(bs) + b.size
  {
    hide FilledUpTo, Placing, Chosen, TotalSize, Outline;
    InsertedBlock(bs, n, b, n);
    FillInsert(bs0, bs, n, start, off, b);
    PlacingInsert(sizes, bs0, bs, n, start, end, b);
    InsertTotal(bs, n, b);
  }

  lemma FilledOrder(bs0: seq<Block>, bs: seq<Block>, n: nat, start: nat, off: nat)
    requires FilledUpTo(bs0, bs, n, start, off)
    ensures Ordered(bs0) && Ordered(bs) && start <= off
  {
  }

  lemma FilledNeighbours(bs0: seq<Block>, bs: seq<Block>, n: nat, start: nat, off: nat)
    requires FilledUpTo(bs0, bs, n, start, off)
    ensures n <= |bs| && (n > 0 ==> bs[n - 1].offset <= off) && (n < |bs| ==> off <= bs[n].offset)
    ensures n == 0 ==> bs == bs0 && off == start && (bs != [] ==> start < bs[0].offset)
  {
  }

  /** The size asked of the allocator, after overallocation. */
  ghost function Requested(c: Config, o: seq<(nat, nat)>, fileSize: nat, offset: nat, size: nat): (r: nat)
    ensures r >= size
  {
    if c.Default? && c.overallocate && Appends(o, fileSize, offset, size) then OverallocateSize(size) else size
  }

  /** The hole before the first block is clipped to a multiple of 2^32 bytes, which the 32-bit cast of
      its length turns into zero. */
  ghost predicate CastLosesGap(bs: seq<Block>, lo: nat, hi: nat) {
    bs != [] && lo < bs[0].offset < hi && (bs[0].offset - lo) % TWO_32 == 0
  }

  /** A block exactly 2^32 bytes into an otherwise empty file: allocating from the start to past that block
      fails the assertion. */
  lemma CastLosesThisGap()
    ensures var b := Block(TWO_32, MIN_BLOCK_SIZE, false, seq(MIN_BLOCK_SIZE, _ => 0));
      ValidBlocks([b], MIN_BLOCK_SIZE) && CastLosesGap([b], 0, TWO_32 + MIN_BLOCK_SIZE)
  {
    var b := Block(TWO_32, MIN_BLOCK_SIZE, false, seq(MIN_BLOCK_SIZE, _ => 0));
    assert Ordered([b]) && Bounded([b]) && AlignedTo([b], MIN_BLOCK_SIZE);
  }

  /** Extents `r` are `o` with blocks added for an interval: those that its pages need, overallocation included, chosen
      as `Placed` says. */
  ghost predicate Fills(c: Config, o: seq<(nat, nat)>, r: seq<(nat, nat)>, fileSize: nat, offset: nat, size: nat)
    requires c.Align() > 0
  {
    Placed(c.Sizes(), o, r, FloorTo(offset, c.Align()), CeilTo(offset + Requested(c, o, fileSize, offset, size), c.Align()))
  }

  lemma {:induction false} ExtentsFilled(sizes: seq<nat>, bs0: seq<Block>, bs: seq<Block>, lo: nat, hi: nat)
    requires FilledTo(bs0, bs, lo, hi) && Placed(sizes, Outline(bs0), Outline(bs), lo, hi)
    ensures Filled(sizes, Outline(bs0), Outline(bs), lo, hi)
  {
    hide Placed, Content;
    var o := Outline(bs);
    forall e, f, p: nat | e in o && f in o && Covering(e, p) && Covering(f, p)
      ensures e == f
    {
      var i := OutlineIn(bs, e);
      var j := OutlineIn(bs, f);
    }
    forall e | e in o
      ensures e.1 > 0
    {
      var i := OutlineIn(bs, e);
    }
    forall p: nat | lo <= p < hi
      ensures Covered(o, p)
    {
      assert Allocated(bs, p);
      var i :| 0 <= i < |bs| && Holds(bs[i], p);
      OutlineHas(bs, i);
      assert Covering((bs[i].offset, bs[i].size), p);
    }
  }

  /** What an allocation promises leaves only one set of extents. */
  lemma AllocationIsDetermined(sizes: seq<nat>, bs0: seq<Block>, bs: seq<Block>, cs: seq<Block>, lo: nat, hi: nat)
    requires FilledTo(bs0, bs, lo, hi) && Placed(sizes, Outline(bs0), Outline(bs), lo, hi)
    requires FilledTo(bs0, cs, lo, hi) && Placed(sizes, Outline(bs0), Outline(cs), lo, hi)
    ensures forall e :: e in Outline(bs) <==> e in Outline(cs)
  {
    hide FilledTo, Placed, Filled, Outline;
    ExtentsFilled(sizes, bs0, bs, lo, hi);
    ExtentsFilled(sizes, bs0, cs, lo, hi);
    PlacementIsUnique(sizes, Outline(bs0), Outline(bs), Outline(cs), lo, hi);
  }

  /** vinode_allocate_interval: fills every hole of the rounded interval with blocks that are not
      initialized. The content stays as it was and `space` is exactly what the new blocks take, nothing if and only
      if every byte asked for was there. No block is added that the interval does not need, and none is larger than
      it needs. */
  method AllocateInterval(v: Vinode, c: Config, offset: nat, size: nat, memory: bool) returns (r: AllocResult)
    requires v.Consistent() && c.Valid() && c.Align() == v.align
    requires size > 0 && offset + size <= ALLOC_LIMIT
    modifies v`mem, v`chain, v`firstFree, v`free, v`firstBlock, v`order, v.blocks
    ensures v.blocks == old(v.blocks)
    ensures var lo := FloorTo(offset, v.align);
            var hi := CeilTo(offset + Requested(c, Outline(old(v.Blocks())), v.size, offset, size), v.align);
            && (memory ==> !r.Aborted?)
            && (r.BadLimit? <==> CastLosesGap(old(v.Blocks()), lo, CeilTo(offset + size, v.align)))
            && (r.Took? ==>
                  && v.Consistent()
                  && FilledTo(old(v.Blocks()), v.Blocks(), lo, hi)
                  && TotalSize(v.Blocks()) == TotalSize(old(v.Blocks())) + r.space
                  && KeptIn(old(v.order), v.order)
                  && Fills(c, Outline(old(v.Blocks())), Outline(v.Blocks()), v.size, offset, size)
                  && (r.space == 0 <==> AllAllocated(old(v.Blocks()), offset, offset + size)))
  {
    hide Linked, Compact, Represents, View, FilledTo, TotalSize, Content, Multiple, CastLosesGap, KeptIn, Appends, Placed, Outline,
         OverallocateSize, FloorTo, CeilTo, AlignedTo, Bounded, AllAllocated;
    var request := size;
    if c.Default? && c.overallocate {
      var append := IsAppend(v, offset, size);
      if append {
        request := OverallocateSize(size);
      }
    }
    ConfigFacts(c);
    var start, len := ExpandToFullPages(c, offset, request);
    PagesAllocated(v.Blocks(), c, v.size, offset, size);
    GapWithin(v.Blocks(), c, v.size, offset, size);
    r := AllocateBlocks(v, c, start, len, memory);
  }

  /** What is asked for beyond the interval does not matter to the gap: then all blocks end before it. */
  lemma {:induction false} GapWithin(bs: seq<Block>, c: Config, fileSize: nat, offset: nat, size: nat)
    requires Ordered(bs) && c.Align() > 0
    ensures var lo := FloorTo(offset, c.Align());
      CastLosesGap(bs, lo, CeilTo(offset + Requested(c, Outline(bs), fileSize, offset, size), c.Align()))
      <==> CastLosesGap(bs, lo, CeilTo(offset + size, c.Align()))
  {
    hide FloorTo, CeilTo;
    if bs != [] && Appends(Outline(bs), fileSize, offset, size) {
      assert bs[0].offset <= bs[|bs| - 1].offset;
    }
  }

  /** A block that holds one byte of a page holds the page. */
  lemma SamePage(bs: seq<Block>, align: nat, p: nat, q: nat)
    requires ValidBlocks(bs, align) && Allocated(bs, q) && FloorTo(p, align) == FloorTo(q, align)
    ensures Allocated(bs, p)
  {
    hide FloorTo;
    var i :| 0 <= i < |bs| && Holds(bs[i], q);
    assert Multiple(bs[i].offset, align) && Multiple(bs[i].size, align);
    MultipleSum(bs[i].offset, bs[i].size, align);
    var page := FloorTo(q, align);
    if bs[i].offset > page {
      MultipleDifference(bs[i].offset, page, align);
    }
    MultipleDifference(bs[i].End(), page, align);
    assert Holds(bs[i], p);
  }

  /** The pages of an interval are allocated iff the interval is, and then nothing is asked for beyond it. */
  lemma {:induction false} PagesAllocated(bs: seq<Block>, c: Config, fileSize: nat, offset: nat, size: nat)
    requires c.Valid() && ValidBlocks(bs, c.Align()) && size > 0
    ensures AllAllocated(bs, offset, offset + size) <==>
      AllAllocated(bs, FloorTo(offset, c.Align()), CeilTo(offset + Requested(c, Outline(bs), fileSize, offset, size), c.Align()))
  {
    hide FloorTo, CeilTo, Outline, ValidBlocks, Multiple, OverallocateSize, Appends;
    AlignFacts(c);
    var align := c.Align();
    var hi := CeilTo(offset + Requested(c, Outline(bs), fileSize, offset, size), align);
    if AllAllocated(bs, offset, offset + size) {
      assert Allocated(bs, offset + size - 1);
      BlocksOrdered(bs, align);
      NotAppending(bs, fileSize, offset, size);
      forall p: nat | FloorTo(offset, align) <= p < hi
        ensures Allocated(bs, p)
      {
        var q := NearestIn(p, offset, size, align);
        SamePage(bs, align, p, q);
      }
    }
  }

  lemma BlocksOrdered(bs: seq<Block>, align: nat)
    requires ValidBlocks(bs, align)
    ensures Ordered(bs)
  {
  }

  lemma {:induction false} NotAppending(bs: seq<Block>, fileSize: nat, offset: nat, size: nat)
    requires Ordered(bs) && size > 0 && Allocated(bs, offset + size - 1)
    ensures !Appends(Outline(bs), fileSize, offset, size)
  {
    var i :| 0 <= i < |bs| && Holds(bs[i], offset + size - 1);
    assert i < |bs| - 1 ==> bs[i].End() <= bs[|bs| - 1].offset;
  }

  /** A byte of the interval in the page of `p`. */
  lemma NearestIn(p: nat, offset: nat, size: nat, align: nat) returns (q: nat)
    requires align > 0 && size > 0 && FloorTo(offset, align) <= p < CeilTo(offset + size, align)
    ensures offset <= q < offset + size && FloorTo(q, align) == FloorTo(p, align)
  {
    hide FloorTo, CeilTo, Multiple;
    if p < offset {
      q := offset;
      FloorIs(p, FloorTo(offset, align), align);
    } else if p < offset + size {
      q := p;
    } else {
      q := offset + size - 1;
      MultipleDifference(CeilTo(offset + size, align), FloorTo(p, align), align);
      FloorIs(q, FloorTo(p, align), align);
    }
  }

  /** No descriptor moves or leaves the list. */
  ghost predicate KeptIn(was: seq<Slot>, order: seq<Slot>) {
    forall s :: s in was ==> s in order
  }

  lemma InsertKeeps(order: seq<Slot>, i: nat, s: Slot)
    requires i <= |order|
    ensures KeptIn(order, InsertSlot(order, i, s))
  {
    forall t | t in order
      ensures t in InsertSlot(order, i, s)
    {
      var j :| 0 <= j < |order| && order[j] == t;
      assert InsertSlot(order, i, s)[if j < i then j else j + 1] == t;
    }
  }

  /** Every offset of [lo, hi) is allocated, what was allocated still is, and the content is the same. */
  ghost predicate FilledTo(bs0: seq<Block>, bs: seq<Block>, lo: nat, hi: nat) {
    && Ordered(bs0) && Ordered(bs)
    && (forall p: nat :: lo <= p < hi ==> Allocated(bs, p))
    && (forall p: nat :: Allocated(bs0, p) ==> Allocated(bs, p))
    && (forall p: nat :: Content(bs, p) == Content(bs0, p))
  }

  lemma FillDone(bs0: seq<Block>, bs: seq<Block>, n: nat, start: nat, off: nat, end: nat)
    requires FilledUpTo(bs0, bs, n, start, off) && n > 0 && Holds(bs[n - 1], off) && off <= end <= bs[n - 1].End()
    ensures FilledTo(bs0, bs, start, end)
  {
    FillSkip(bs0, bs, n, start, off, end);
  }

  /** is_offset_in_block */
  predicate IsOffsetInBlock(mem: Memory, block: Option<Slot>, off: nat)
    requires block.Some? ==> block.value in mem
  {
    block.Some? && Covers(mem[block.value], off)
  }

  /** Progress of the loop of vinode_allocate_interval over [start, end). */
  ghost predicate Filling(sizes: seq<nat>, bs0: seq<Block>, bs: seq<Block>, n: nat, start: nat, off: nat, end: nat, space: nat) {
    && Placing(sizes, bs0, bs, n, start, end) && FilledUpTo(bs0, bs, n, start, off) && TotalSize(bs) == TotalSize(bs0) + space
    && (n > 0 ==> !CastLosesGap(bs0, start, end))
    && (if space == 0 then bs == bs0 else !AllAllocated(bs0, start, end))
  }

  lemma FillingBegins(sizes: seq<nat>, bs: seq<Block>, align: nat, n: nat, off: nat, end: nat)
    requires ValidBlocks(bs, align) && StartAtOrBelow(bs, off, n)
    ensures n <= |bs| && Filling(sizes, bs, bs, n, off, off, end, 0)
  {
    PlacingBegins(sizes, bs, n, off, end);
    FillStart(bs, n, off);
  }

  /** `off` moves on inside block `n - 1` or to its end. */
  lemma FillingOn(sizes: seq<nat>, bs0: seq<Block>, bs: seq<Block>, align: nat, n: nat, start: nat, off: nat, left: nat, space: nat)
    requires Filling(sizes, bs0, bs, n, start, off, off + left, space) && n > 0 && Holds(bs[n - 1], off) && bs[n - 1].End() - off < left
    requires ValidBlocks(bs, align) && Multiple(off, align) && Multiple(left, align)
    ensures var next := bs[n - 1].End();
      Filling(sizes, bs0, bs, n, start, next, off + left, space) && Multiple(next, align) && Multiple(off + left - next, align)
  {
    hide Placing;
    EndIsMultiple(bs, align, n - 1, off, left);
    FillSkip(bs0, bs, n, start, off, bs[n - 1].End());
  }

  lemma FillingEnds(sizes: seq<nat>, bs0: seq<Block>, bs: seq<Block>, n: nat, start: nat, off: nat, end: nat, space: nat)
    requires Filling(sizes, bs0, bs, n, start, off, end, space) && n > 0 && Holds(bs[n - 1], off) && off <= end <= bs[n - 1].End()
    ensures FilledTo(bs0, bs, start, end) && TotalSize(bs) == TotalSize(bs0) + space && !CastLosesGap(bs0, start, end)
    ensures space == 0 <==> AllAllocated(bs0, start, end)
    ensures Placed(sizes, Outline(bs0), Outline(bs), start, end)
  {
    hide TotalSize, CastLosesGap, Placed;
    FillDone(bs0, bs, n, start, off, end);
    FilledIsAllocated(bs0, bs, start, end);
  }

  /** The loop of vinode_allocate_interval, on an interval of whole blocks. An iteration that does not
      shrink the interval leaves `off` inside the current block. */
  method AllocateBlocks(v: Vinode, c: Config, start: nat, len: nat, memory: bool) returns (r: AllocResult)
    requires v.Consistent() && c.Valid() && c.Align() == v.align
    requires Multiple(start, v.align) && Multiple(len, v.align) && len > 0 && start + len + TWO_32 < END_LIMIT
    modifies v`mem, v`chain, v`firstFree, v`free, v`firstBlock, v`order, v.blocks
    ensures v.blocks == old(v.blocks)
    ensures r.BadLimit? <==> CastLosesGap(old(v.Blocks()), start, start + len)
    ensures memory ==> !r.Aborted?
    ensures r.Took? ==>
      && v.Consistent()
      && FilledTo(old(v.Blocks()), v.Blocks(), start, start + len)
      && TotalSize(v.Blocks()) == TotalSize(old(v.Blocks())) + r.space
      && KeptIn(old(v.order), v.order)
      && Placed(c.Sizes(), Outline(old(v.Blocks())), Outline(v.Blocks()), start, start + len)
      && (r.space == 0 <==> AllAllocated(old(v.Blocks()), start, start + len))
  {
    hide Linked, Compact, Represents, FilledUpTo, FilledTo, Content, TotalSize, Multiple, ValidBlocks,
         StartAtOrBelow, View, CastLosesGap, Allocated, AllAllocated, Filling, KeptIn, Ordered, Placed, Outline;
    ConfigFacts(c);
    var off, left, space := start, len, 0;
    ghost var bs0, end := v.Blocks(), start + len;
    var block, n := FindClosestBlock(v, start);
    FillingBegins(c.Sizes(), bs0, v.align, n, start, end);
    KeptNothing(v.order);
    while left > 0
      invariant v.Consistent() && v.blocks == old(v.blocks)
      invariant off + left == end && left > 0
      invariant Multiple(off, v.align) && Multiple(left, v.align)
      invariant 0 <= n <= |v.order| && block == Before(v.order, n)
      invariant Filling(c.Sizes(), bs0, v.Blocks(), n, start, off, end, space)
      invariant KeptIn(old(v.order), v.order)
      decreases left, if n > 0 && Holds(v.Blocks()[n - 1], off) then 0 else 1
    {
      LinkedHasNoDuplicates(v.mem, v.order);
      if IsOffsetInBlock(v.mem, block, off) {
        var available := v.mem[block.value].size - (off - v.mem[block.value].offset);
        if available >= left {
          FillingEnds(c.Sizes(), bs0, v.Blocks(), n, start, off, end, space);
          return Took(space);
        }
        FillingOn(c.Sizes(), bs0, v.Blocks(), v.align, n, start, off, left, space);
        off, left := off + available, left - available;
      } else {
        var took, failed;
        ghost var order := v.order;
        block, took, failed := AllocateHole(v, c, block, off, left, memory, n, start, bs0, space);
        if failed.Some? {
          return failed.value;
        }
        KeptTwice(old(v.order), order, v.order);
        space, n := space + took, n + 1;
      }
    }
    r := Took(space);
  }

  lemma KeptNothing(order: seq<Slot>)
    ensures KeptIn(order, order)
  {
  }

  lemma KeptTwice(a: seq<Slot>, b: seq<Slot>, c: seq<Slot>)
    requires KeptIn(a, b) && KeptIn(b, c)
    ensures KeptIn(a, c)
  {
  }

  lemma Missing(bs: seq<Block>, lo: nat, hi: nat, p: nat)
    requires lo <= p < hi && !Allocated(bs, p)
    ensures !AllAllocated(bs, lo, hi)
  {
  }

  lemma FilledIsAllocated(bs0: seq<Block>, bs: seq<Block>, lo: nat, hi: nat)
    requires FilledTo(bs0, bs, lo, hi)
    ensures AllAllocated(bs, lo, hi)
  {
  }

  /** How large a block may be added at `off`, which lies in no block: 0 if a block starts there. Before the first block
      it is too little for any block if and only if the cast loses the gap. */
  method RoomAt(v: Vinode, c: Config, block: Option<Slot>, off: nat, left: nat, ghost n: nat, ghost start: nat, ghost bs0: seq<Block>)
    returns (limit: nat)
    requires v.Consistent() && c.Valid() && c.Align() == v.align
    requires Multiple(off, v.align) && Multiple(left, v.align) && left > 0
    requires n <= |v.order| && block == Before(v.order, n) && !IsOffsetInBlock(v.mem, block, off)
    requires FilledUpTo(bs0, v.Blocks(), n, start, off) && Placing(c.Sizes(), bs0, v.Blocks(), n, start, off + left)
    ensures n < |v.order| ==> off + limit <= v.Blocks()[n].offset
    ensures if n == 0 then limit < v.align <==> CastLosesGap(bs0, start, off + left)
            else limit >= v.align || (limit == 0 && n < |v.order| && v.Blocks()[n].offset == off)
    ensures limit >= v.align ==> IsLimit(c.Sizes(), Outline(bs0), start, off + left, off, limit)
  {
    hide Linked, Compact, Represents, FilledUpTo, Multiple, ValidBlocks, View, Placing, IsLimit, Outline, Ordered, CastLosesGap;
    ConfigFacts(c);
    FilledOrder(bs0, v.Blocks(), n, start, off);
    FilledNeighbours(bs0, v.Blocks(), n, start, off);
    limit := c.MaxBlockSize();
    if block == None {
      if v.firstBlock.Some? {
        // in a hole before the first block
        limit := left;
        var first := v.mem[v.firstBlock.value].offset;
        if off + left > first {
          limit := (first - off) % TWO_32;
        }
        RoomBefore(c, bs0, v.align, off, left, limit);
        return;
      }
    } else {
      NextOf(v.mem, v.order, n - 1);
      if v.mem[block.value].next.Some? {
        // between two blocks
        limit := v.mem[v.mem[block.value].next.value].offset - off;
        if limit > 0 {
          HoleIsMultiple(v.Blocks(), v.align, n, off);
          LimitBetween(c.Sizes(), bs0, v.Blocks(), n, start, off + left, off);
        }
        return;
      }
    }
    SizesWithinMax(c);
    NoGap(bs0, start, off + left);
    LimitAfter(c.Sizes(), bs0, v.Blocks(), start, off + left, off, limit);
  }

  lemma NoGap(bs: seq<Block>, lo: nat, hi: nat)
    ensures bs == [] ==> !CastLosesGap(bs, lo, hi)
  {
  }

  /** The hole before the first block. */
  lemma {:induction false} RoomBefore(c: Config, bs: seq<Block>, align: nat, off: nat, left: nat, limit: nat)
    requires ValidBlocks(bs, align) && bs != [] && off < bs[0].offset && left > 0
    requires Multiple(off, align) && Multiple(left, align) && Multiple(TWO_32, align)
    requires limit == FirstGap(bs[0].offset, off, off + left)
    ensures off + limit <= bs[0].offset && (limit < align <==> CastLosesGap(bs, off, off + left))
    ensures IsLimit(c.Sizes(), Outline(bs), off, off + left, off, limit)
  {
    hide IsLimit, Outline;
    ClippedGap(bs, align, off, left, bs[0].offset - off);
    LimitBefore(c.Sizes(), bs, off, off + left);
  }

  /** The cases in which `off` lies in no block: add one there, or go on to the block that starts there. */
  method AllocateHole(v: Vinode, c: Config, block: Option<Slot>, off: nat, left: nat, memory: bool,
                      ghost n: nat, ghost start: nat, ghost bs0: seq<Block>, ghost space: nat)
    returns (next: Option<Slot>, took: nat, failed: Option<AllocResult>)
    requires v.Consistent() && c.Valid() && c.Align() == v.align
    requires Multiple(off, v.align) && Multiple(left, v.align) && left > 0 && off + left + TWO_32 < END_LIMIT
    requires n <= |v.order| && block == Before(v.order, n) && !IsOffsetInBlock(v.mem, block, off)
    requires Filling(c.Sizes(), bs0, v.Blocks(), n, start, off, off + left, space)
    modifies v`mem, v`chain, v`firstFree, v`free, v`firstBlock, v`order, v.blocks
    ensures v.blocks == old(v.blocks)
    ensures failed.Some? ==> (failed.value.Aborted? && !memory) || failed.value.BadLimit?
    ensures CastLosesGap(bs0, start, off + left) <==> failed == Some(BadLimit)
    ensures failed == None ==>
      && v.Consistent() && n < |v.order| && next == Before(v.order, n + 1)
      && Filling(c.Sizes(), bs0, v.Blocks(), n + 1, start, off, off + left, space + took) && Holds(v.Blocks()[n], off)
      && KeptIn(old(v.order), v.order)
  {
    hide Linked, Compact, Represents, FilledUpTo, Content, TotalSize, Multiple, ValidBlocks, View, Allocated, AllAllocated, Placing,
         IsLimit, Outline, CastLosesGap;
    ConfigFacts(c);
    FilledNeighbours(bs0, v.Blocks(), n, start, off);
    failed := None;
    var limit := RoomAt(v, c, block, off, left, n, start, bs0);
    if block.Some? && limit == 0 {
      NextOf(v.mem, v.order, n - 1);
      FillNext(bs0, v.Blocks(), n, start, off);
      PlacingOn(c.Sizes(), bs0, v.Blocks(), n, start, off + left);
      KeptNothing(v.order);
      return v.mem[block.value].next, 0, None;
    }
    if limit < c.Align() {
      return None, 0, Some(BadLimit);
    }
    StillMissing(bs0, v.Blocks(), n, start, off);
    Missing(bs0, start, off + left, off);
    var ok, s;
    ok, s, took := AllocateBlockAt(v, c, block, off, left, limit, memory, n, start, bs0);
    if !ok {
      return None, 0, Some(Aborted);
    }
    next := Some(s);
  }

  /** Where a block is about to be added there was none at the start. */
  lemma StillMissing(bs0: seq<Block>, bs: seq<Block>, n: nat, start: nat, off: nat)
    requires FilledUpTo(bs0, bs, n, start, off) && !(n > 0 && Holds(bs[n - 1], off)) && (n < |bs| ==> off < bs[n].offset)
    ensures !Allocated(bs0, off) && start <= off
  {
    hide Content;
    assert n > 0 ==> bs[n - 1].End() <= off;
    GapUnallocated(bs, n, off);
  }

  lemma NextOf(mem: Memory, order: seq<Slot>, i: nat)
    requires Linked(mem, order) && i < |order|
    ensures mem[order[i]].next == After(order, i) && (i + 1 < |order| ==> order[i + 1] in mem)
  {
    LinksAt(mem, order, i);
  }

  lemma EndIsMultiple(bs: seq<Block>, align: nat, i: nat, off: nat, left: nat)
    requires ValidBlocks(bs, align) && i < |bs| && Holds(bs[i], off)
    requires Multiple(off, align) && Multiple(left, align) && bs[i].End() - off < left
    ensures Multiple(bs[i].End(), align) && Multiple(left - (bs[i].End() - off), align)
  {
    assert Multiple(bs[i].offset, align) && Multiple(bs[i].size, align);
    MultipleSum(bs[i].offset, bs[i].size, align);
    MultipleDifference(bs[i].End(), off, align);
    MultipleDifference(left, bs[i].End() - off, align);
  }

  lemma HoleIsMultiple(bs: seq<Block>, align: nat, n: nat, off: nat)
    requires ValidBlocks(bs, align) && n < |bs| && off < bs[n].offset && Multiple(off, align)
    ensures bs[n].offset - off >= align
  {
    assert Multiple(bs[n].offset, align);
    MultipleDifference(bs[n].offset, off, align);
  }

  /** The gap before the first block, cut down to 32 bits, admits a block unless it became zero. */
  lemma ClippedGap(bs: seq<Block>, align: nat, off: nat, left: nat, gap: nat)
    requires ValidBlocks(bs, align) && bs != [] && gap == bs[0].offset - off && gap > 0
    requires Multiple(off, align) && Multiple(left, align) && left > 0 && Multiple(TWO_32, align)
    ensures left >= align
    ensures gap % TWO_32 >= align <==> gap % TWO_32 != 0
    ensures gap % TWO_32 <= gap
  {
    MultipleSum(0, 0, align);
    MultipleDifference(left, 0, align);
    assert Multiple(bs[0].offset, align);
    MultipleDifference(bs[0].offset, off, align);
    RemainderIsMultiple(gap, TWO_32, align);
    if gap % TWO_32 != 0 {
      MultipleDifference(gap % TWO_32, 0, align);
    }
  }
}
