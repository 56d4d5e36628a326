/** Copying between user buffers and blocks (the second half of data.c). */
module ReadWrite {
  import opened Layout
  import opened OffsetMapping
  import opened BlockList
  import opened BlockArray
  import opened Extents
  import opened Vinodes
  import opened Data
  import opened Pieces

  // ---------------------------------------------------------------- hints

  /** A block pointer remembered from an earlier call: none, or a block of the file. */
  ghost predicate ValidHint(v: Vinode, hint: Option<Slot>)
    reads v
  {
    hint.Some? ==> hint.value in v.order
  }

  /** A listed block that holds `off` is the closest block to `off`. */
  lemma HolderIsClosest(mem: Memory, order: seq<Slot>, align: nat, s: Slot, off: nat) returns (n: nat)
    requires Linked(mem, order) && ValidBlocks(View(mem, order), align) && s in order && Covers(mem[s], off)
    ensures n > 0 && StartAtOrBelow(View(mem, order), off, n) && Some(s) == Before(order, n)
  {
    var i :| 0 <= i < |order| && order[i] == s;
    n := i + 1;
    var bs := View(mem, order);
    forall j | 0 <= j < |bs|
      ensures j < n ==> bs[j].offset <= off
      ensures n <= j ==> off < bs[j].offset
    {
      assert j < i ==> bs[j].End() <= bs[i].offset;
      assert i < j ==> bs[i].End() <= bs[j].offset;
    }
  }

  /** find_closest_block_with_hint: the hint changes nothing but the time the lookup takes. */
  method FindClosestBlockWithHint(v: Vinode, off: nat, hint: Option<Slot>) returns (r: Option<Slot>, ghost n: nat)
    requires v.Consistent() && ValidHint(v, hint)
    ensures StartAtOrBelow(v.Blocks(), off, n) && r == Before(v.order, n)
  {
    hide Linked, Compact, Represents, ValidBlocks, StartAtOrBelow, View;
    LinkedHasNoDuplicates(v.mem, v.order);
    if IsOffsetInBlock(v.mem, hint, off) {
      n := HolderIsClosest(v.mem, v.order, v.align, hint.value, off);
      return hint, n;
    }
    r, n := FindClosestBlock(v, off);
  }

  /** The lookup is determined by the offset alone. */
  lemma ClosestIsUnique(bs: seq<Block>, off: nat, m: nat, n: nat)
    requires StartAtOrBelow(bs, off, m) && StartAtOrBelow(bs, off, n)
    ensures m == n
  {
    var i := if m < n then m else n;
    assert i < |bs| ==> (i < m <==> bs[i].offset <= off) && (i < n <==> bs[i].offset <= off);
  }

  // ---------------------------------------------------------------- vinode_is_interval_allocated

  /** Progress of the check: [lo, end of block `i`) is allocated. */
  ghost predicate AllocatedThrough(bs: seq<Block>, lo: nat, i: nat) {
    i < |bs| && bs[i].offset <= bs[i].End() && lo < bs[i].End() && AllAllocated(bs, lo, bs[i].End())
  }

  lemma AllocatedBegins(bs: seq<Block>, n: nat, lo: nat)
    requires Ordered(bs) && StartAtOrBelow(bs, lo, n)
    ensures n <= |bs|
    ensures n > 0 && Holds(bs[n - 1], lo) ==> AllocatedThrough(bs, lo, n - 1)
    ensures !(n > 0 && Holds(bs[n - 1], lo)) ==> !Allocated(bs, lo)
  {
    if n > 0 && Holds(bs[n - 1], lo) {
      forall p: nat | lo <= p < bs[n - 1].End()
        ensures Allocated(bs, p)
      {
        assert Holds(bs[n - 1], p);
      }
    } else {
      GapUnallocated(bs, n, lo);
    }
  }

  lemma AllocatedNext(bs: seq<Block>, i: nat, lo: nat)
    requires Ordered(bs) && AllocatedThrough(bs, lo, i)
    ensures i + 1 < |bs| && Holds(bs[i + 1], bs[i].End()) ==> AllocatedThrough(bs, lo, i + 1)
    ensures !(i + 1 < |bs| && Holds(bs[i + 1], bs[i].End())) ==> !Allocated(bs, bs[i].End())
  {
    if i + 1 < |bs| && Holds(bs[i + 1], bs[i].End()) {
      forall p: nat | lo <= p < bs[i + 1].End()
        ensures Allocated(bs, p)
      {
        if p >= bs[i].End() {
          assert Holds(bs[i + 1], p);
        }
      }
    } else {
      assert i + 1 < |bs| ==> bs[i].End() <= bs[i + 1].offset;
      GapUnallocated(bs, i + 1, bs[i].End());
    }
  }

  method IsIntervalAllocated(v: Vinode, offset: nat, size: nat, hint: Option<Slot>) returns (r: bool)
    requires v.Consistent() && size > 0 && ValidHint(v, hint)
    ensures r <==> AllAllocated(v.Blocks(), offset, offset + size)
  {
    hide Linked, Compact, Represents, AlignedTo, Bounded, StartAtOrBelow, View, Allocated, Ordered;
    LinkedHasNoDuplicates(v.mem, v.order);
    var block, n := FindClosestBlockWithHint(v, offset, hint);
    AllocatedBegins(v.Blocks(), n, offset);
    if !IsOffsetInBlock(v.mem, block, offset) {
      return false;
    }
    ghost var i := n - 1;
    var s := block.value;
    var reached := v.mem[s].offset + v.mem[s].size;
    NextOf(v.mem, v.order, i);
    while reached < offset + size && IsOffsetInBlock(v.mem, v.mem[s].next, reached)
      invariant i < |v.order| && v.order[i] == s && s in v.mem
      invariant v.mem[s].next == After(v.order, i)
      invariant reached == v.Blocks()[i].End() && AllocatedThrough(v.Blocks(), offset, i)
      decreases |v.order| - i
    {
      s := v.mem[s].next.value;
      AllocatedNext(v.Blocks(), i, offset);
      i := i + 1;
      NextOf(v.mem, v.order, i);
      reached := v.mem[s].offset + v.mem[s].size;
    }
    AllocatedNext(v.Blocks(), i, offset);
    r := reached >= offset + size;
  }

  // ---------------------------------------------------------------- reading

  /** A read from `start` passes over block `j`: a hole separates it from block `j - 1`, which the same
      read copied from. After copying a block the loop already points at the next one, and when that
      one does not hold the current offset it looks for the hole's end at the block after it. */
  ghost predicate Skipped(bs: seq<Block>, start: nat, j: nat)
    requires j < |bs|
  {
    j > 0 && bs[j - 1].End() < bs[j].offset && start < bs[j - 1].End() && !Skipped(bs, start, j - 1)
  }

  ghost predicate InSkipped(bs: seq<Block>, start: nat, p: nat) {
    exists j :: 0 <= j < |bs| && Holds(bs[j], p) && Skipped(bs, start, j)
  }

  /** The byte a read that begins at `start` returns for offset `p`. */
  ghost function ReadByte(bs: seq<Block>, start: nat, p: nat): Byte
    requires Ordered(bs)
  {
    if InSkipped(bs, start, p) then 0 else Content(bs, p)
  }

  lemma OneHolder(bs: seq<Block>, i: nat, j: nat, p: nat)
    requires Ordered(bs) && i < |bs| && j < |bs| && Holds(bs[i], p) && Holds(bs[j], p)
    ensures i == j
  {
  }

  lemma ReadInBlock(bs: seq<Block>, start: nat, j: nat, p: nat)
    requires Ordered(bs) && j < |bs| && Holds(bs[j], p)
    ensures ReadByte(bs, start, p) == if Skipped(bs, start, j) then 0 else ByteAt(bs[j], p)
  {
    ContentOf(bs, j, p);
    if InSkipped(bs, start, p) {
      var i :| 0 <= i < |bs| && Holds(bs[i], p) && Skipped(bs, start, i);
      OneHolder(bs, i, j, p);
    }
  }

  lemma ReadInGap(bs: seq<Block>, start: nat, m: nat, p: nat)
    requires Ordered(bs) && m <= |bs| && Boundary(bs, m) <= p && (m < |bs| ==> p < bs[m].offset)
    ensures ReadByte(bs, start, p) == 0
  {
    GapUnallocated(bs, m, p);
  }

  /** Where the loop stands at `off` in a read that began at `start`. While `initial`, `block` is the closest
      block at or below `off`, block `m - 1`; later it is block `m`, at or above `off`. */
  ghost predicate ReadingAt(bs: seq<Block>, start: nat, initial: bool, m: nat, off: nat) {
    && Ordered(bs) && m <= |bs|
    && if initial then off == start && StartAtOrBelow(bs, off, m)
       else
         && Boundary(bs, m) <= off
         && (m < |bs| ==> off <= bs[m].offset)
         && (m < |bs| && off == bs[m].offset ==> !Skipped(bs, start, m))
         && (m < |bs| && off < bs[m].offset ==> Skipped(bs, start, m))
  }

  /** `n` bytes of the read are right. */
  ghost predicate ReadSoFar(bs: seq<Block>, start: nat, buf: seq<Byte>) {
    Ordered(bs) && forall i :: 0 <= i < |buf| ==> buf[i] == ReadByte(bs, start, start + i)
  }

  /** The current block holds `off`: copy from it and go on to its successor. */
  lemma ReadCopies(bs: seq<Block>, start: nat, initial: bool, m: nat, off: nat, j: nat, len: nat, buf: seq<Byte>, piece: seq<Byte>)
    requires ReadingAt(bs, start, initial, m, off) && ReadSoFar(bs, start, buf) && off == start + |buf|
    requires j < |bs| && Holds(bs[j], off) && j == (if initial then m - 1 else m)
    requires len <= bs[j].End() - off && |piece| == len
    requires forall i :: 0 <= i < len ==> piece[i] == ByteAt(bs[j], off + i)
    ensures ReadSoFar(bs, start, buf + piece)
    ensures len == bs[j].End() - off ==> ReadingAt(bs, start, false, j + 1, off + len)
  {
    assert initial && j > 0 ==> bs[j - 1].End() <= bs[j].offset;
    assert !Skipped(bs, start, j);
    assert j + 1 < |bs| ==> bs[j].End() <= bs[j + 1].offset;
    forall i | 0 <= i < |buf + piece|
      ensures (buf + piece)[i] == ReadByte(bs, start, start + i)
    {
      if i >= |buf| {
        ReadInBlock(bs, start, j, start + i);
        assert piece[i - |buf|] == ByteAt(bs[j], off + (i - |buf|));
      }
    }
  }

  lemma ZeroByte(bs: seq<Block>, start: nat, initial: bool, m: nat, off: nat, p: nat)
    requires ReadingAt(bs, start, initial, m, off) && off <= p
    requires if initial then !(m > 0 && Holds(bs[m - 1], off)) else !(m < |bs| && Holds(bs[m], off))
    requires initial && m < |bs| ==> p < bs[m].offset
    requires !initial && m + 1 < |bs| ==> p < bs[m + 1].offset
    ensures ReadByte(bs, start, p) == 0
  {
    if initial || m == |bs| || p < bs[m].offset {
      ReadInGap(bs, start, m, p);
    } else if p < bs[m].End() {
      ReadInBlock(bs, start, m, p);
    } else {
      ReadInGap(bs, start, m + 1, p);
    }
  }

  /** The current block does not hold `off`: everything up to block `t`, the one after it, reads as zero. */
  lemma ReadZeroes(bs: seq<Block>, start: nat, initial: bool, m: nat, off: nat, t: nat, len: nat, buf: seq<Byte>)
    requires ReadingAt(bs, start, initial, m, off) && ReadSoFar(bs, start, buf) && off == start + |buf|
    requires if initial then !(m > 0 && Holds(bs[m - 1], off)) else !(m < |bs| && Holds(bs[m], off))
    requires t == if initial then m else if m < |bs| then m + 1 else m
    requires t < |bs| ==> len <= bs[t].offset - off
    ensures ReadSoFar(bs, start, buf + Zeros(len))
  {
    hide Ordered, ReadByte;
    forall i {:trigger (buf + Zeros(len))[i]} | 0 <= i < |buf + Zeros(len)|
      ensures (buf + Zeros(len))[i] == ReadByte(bs, start, start + i)
    {
      if i >= |buf| {
        ZeroByte(bs, start, initial, m, off, start + i);
      }
    }
  }

  /** After a hole the loop stands at the start of the block that ends it. */
  lemma ReadLands(bs: seq<Block>, start: nat, initial: bool, m: nat, off: nat, t: nat)
    requires ReadingAt(bs, start, initial, m, off)
    requires if initial then !(m > 0 && Holds(bs[m - 1], off)) else !(m < |bs| && Holds(bs[m], off))
    requires t == (if initial then m else if m < |bs| then m + 1 else m) && t < |bs|
    ensures off <= bs[t].offset && ReadingAt(bs, start, false, t, bs[t].offset)
  {
    assert t > 0 ==> bs[t - 1].End() <= bs[t].offset;
  }

  // ---------------------------------------------------------------- the read loop

  /** iterate_on_file_range in the direction of reading. */
  method ReadRange(v: Vinode, starting: Option<Slot>, offset: nat, len: nat, ghost n: nat)
    returns (buf: seq<Byte>, last: Option<Slot>)
    requires v.Consistent() && n <= |v.order| && starting == Before(v.order, n)
    requires StartAtOrBelow(v.Blocks(), offset, n) && offset + len < TWO_64
    ensures |buf| == len && ReadSoFar(v.Blocks(), offset, buf)
    ensures ValidHint(v, last)
  {
    hide Linked, Compact, Represents, AlignedTo, Bounded, StartAtOrBelow, View, ReadingAt, ReadSoFar, Ordered;
    LinkedHasNoDuplicates(v.mem, v.order);
    ghost var bs := v.Blocks();
    var block := starting;
    last := starting;
    buf := [];
    var off, left := offset, len;
    ghost var m: nat, initial := n, true;
    ReadBegins(bs, v.align, offset, n);
    while left > 0
      invariant off + left == offset + len && off == offset + |buf|
      invariant 0 <= left
      invariant left > 0 ==> m <= |v.order| && block == if initial then Before(v.order, m) else After(v.order, m - 1)
      invariant left > 0 ==> ReadingAt(bs, offset, initial, m, off)
      invariant ReadSoFar(bs, offset, buf)
      invariant ValidHint(v, last)
    {
      var piece;
      if !IsOffsetInBlock(v.mem, block, off) {
        block, piece := ReadHole(v, block, off, left, offset, initial, m, buf);
        m := if initial then m else if m < |v.order| then m + 1 else m;
      } else {
        last := block;
        piece := ReadBlock(v, block.value, off, left, offset, initial, m, buf);
        block := v.mem[block.value].next;
        NextOf(v.mem, v.order, if initial then m - 1 else m);
        m := if initial then m else m + 1;
      }
      initial := false;
      buf := buf + piece;
      off, left := off + |piece|, left - |piece|;
    }
  }

  /** The offset lies in a hole: zeros up to the following block, or for all that is left. */
  method ReadHole(v: Vinode, block: Option<Slot>, off: nat, left: nat,
                  ghost start: nat, ghost initial: bool, ghost m: nat, ghost buf: seq<Byte>)
    returns (current: Option<Slot>, piece: seq<Byte>)
    requires v.Consistent() && m <= |v.order| && off + left < TWO_64 && left > 0
    requires block == if initial then Before(v.order, m) else After(v.order, m - 1)
    requires ReadingAt(v.Blocks(), start, initial, m, off) && ReadSoFar(v.Blocks(), start, buf) && off == start + |buf|
    requires block.Some? ==> block.value in v.mem && !Covers(v.mem[block.value], off)
    ensures 0 < |piece| <= left
    ensures ReadSoFar(v.Blocks(), start, buf + piece)
    ensures |piece| < left ==>
      && var t := if initial then m else if m < |v.order| then m + 1 else m;
      && t < |v.order| && current == Some(v.order[t]) && ReadingAt(v.Blocks(), start, false, t, off + |piece|)
  {
    hide Linked, Compact, Represents, ValidBlocks, View, ReadSoFar, ReadingAt, Ordered;
    ghost var bs := v.Blocks();
    ghost var t := if initial then m else if m < |v.order| then m + 1 else m;
    LinkedHasNoDuplicates(v.mem, v.order);
    HoleFacts(bs, v.align, start, initial, m, off);
    var next := v.firstBlock;
    if block.Some? {
      NextOf(v.mem, v.order, if initial then m - 1 else m);
      next := v.mem[block.value].next;
    }
    var count := left;
    current := block;
    if next.Some? {
      var holeEnd := Minus64(v.mem[next.value].offset, off);
      assert t == |bs| ==> !initial && next == First(v.order);
      if holeEnd < count {
        count := holeEnd;
      }
      current := next;
    }
    piece := Zeros(count);
    ReadZeroes(bs, start, initial, m, off, t, count, buf);
    if count < left {
      ReadLands(bs, start, initial, m, off, t);
    }
  }

  /** Subtraction of 64-bit unsigned numbers, which wraps around. */
  function Minus64(a: nat, b: nat): (r: nat)
    requires a < TWO_64 && b < TWO_64
    ensures r < TWO_64 && (b + r) % TWO_64 == a
  {
    if b <= a then a - b else a + TWO_64 - b
  }

  /** Past a hole comes block `t`; past the last block the loop is sent back to the first one. */
  lemma HoleFacts(bs: seq<Block>, align: nat, start: nat, initial: bool, m: nat, off: nat)
    requires ValidBlocks(bs, align) && ReadingAt(bs, start, initial, m, off)
    requires if initial then !(m > 0 && Holds(bs[m - 1], off)) else !(m < |bs| && Holds(bs[m], off))
    ensures var t := if initial then m else if m < |bs| then m + 1 else m;
      && (t < |bs| ==> off < bs[t].offset < TWO_64)
      && (!initial && 0 < m == |bs| ==> bs[0].offset < off)
  {
    if !initial && 0 < m == |bs| {
      assert m > 1 ==> bs[0].End() <= bs[m - 1].offset;
    }
  }

  /** The block holds the offset: copy from it, or read zeros if it is not initialized. */
  method ReadBlock(v: Vinode, s: Slot, off: nat, left: nat,
                   ghost start: nat, ghost initial: bool, ghost m: nat, ghost buf: seq<Byte>)
    returns (piece: seq<Byte>)
    requires v.Consistent() && m <= |v.order| && left > 0
    requires Some(s) == if initial then Before(v.order, m) else After(v.order, m - 1)
    requires ReadingAt(v.Blocks(), start, initial, m, off) && ReadSoFar(v.Blocks(), start, buf) && off == start + |buf|
    requires s in v.mem && Covers(v.mem[s], off)
    ensures 0 < |piece| <= left
    ensures ReadSoFar(v.Blocks(), start, buf + piece)
    ensures |piece| < left ==> ReadingAt(v.Blocks(), start, false, if initial then m else m + 1, off + |piece|)
  {
    hide Linked, Compact, Represents, AlignedTo, Bounded, View, ReadSoFar, ReadingAt, Skipped;
    ghost var j := if initial then m - 1 else m;
    ghost var b := v.Blocks()[j];
    var d := v.mem[s];
    var inStart := off - d.offset;
    var inLen := d.size - inStart;
    if left < inLen {
      inLen := left;
    }
    piece := if d.initialized then d.data[inStart..inStart + inLen] else Zeros(inLen);
    ReadCopies(v.Blocks(), start, initial, m, off, j, inLen, buf, piece);
  }

  lemma ReadBegins(bs: seq<Block>, align: nat, off: nat, n: nat)
    requires ValidBlocks(bs, align) && StartAtOrBelow(bs, off, n)
    ensures ReadingAt(bs, off, true, n, off) && ReadSoFar(bs, off, [])
  {
  }

  // ---------------------------------------------------------------- what a read returns

  /** A read of [start, start + len) returns the content of the file. */
  ghost predicate ReadsContent(bs: seq<Block>, start: nat, len: nat) {
    Ordered(bs) && forall p: nat :: start <= p < start + len ==> ReadByte(bs, start, p) == Content(bs, p)
  }

  /** The range reaches from a block across a hole into another block. */
  ghost predicate CrossesHole(bs: seq<Block>, start: nat, len: nat) {
    exists j :: 0 < j < |bs| && start < bs[j - 1].End() < bs[j].offset < start + len
  }

  /** Every byte of the range in a block the read passes over is zero. */
  ghost predicate MissesOnlyZeros(bs: seq<Block>, start: nat, len: nat)
    requires Ordered(bs)
  {
    forall j, p: nat {:trigger Skipped(bs, start, j), ByteAt(bs[j], p)} ::
      0 <= j < |bs| && Skipped(bs, start, j) && start <= p < start + len && Holds(bs[j], p) ==> ByteAt(bs[j], p) == 0
  }

  /** What a read returns is the content, for this file, iff the bytes it passes over are zero. */
  lemma ReadsContentIff(bs: seq<Block>, start: nat, len: nat)
    requires Ordered(bs)
    ensures ReadsContent(bs, start, len) <==> MissesOnlyZeros(bs, start, len)
  {
    forall j, p: nat | 0 <= j < |bs| && start <= p < start + len && Holds(bs[j], p)
      ensures ReadByte(bs, start, p) == (if Skipped(bs, start, j) then 0 else ByteAt(bs[j], p))
      ensures Content(bs, p) == ByteAt(bs[j], p)
    {
      ReadInBlock(bs, start, j, p);
      ContentOf(bs, j, p);
    }
    forall j, p: nat | ReadsContent(bs, start, len) && 0 <= j < |bs| && Skipped(bs, start, j) && start <= p < start + len && Holds(bs[j], p)
      ensures ByteAt(bs[j], p) == 0
    {
      assert ReadByte(bs, start, p) == Content(bs, p);
    }
    forall p: nat | MissesOnlyZeros(bs, start, len) && start <= p < start + len
      ensures ReadByte(bs, start, p) == Content(bs, p)
    {
      if Allocated(bs, p) {
        var j :| 0 <= j < |bs| && Holds(bs[j], p);
        assert ReadByte(bs, start, p) == if Skipped(bs, start, j) then 0 else ByteAt(bs[j], p);
      }
    }
  }

  lemma {:induction false} FirstHoleIsMissed(bs: seq<Block>, start: nat, j: nat) returns (i: nat)
    requires Ordered(bs) && 0 < j < |bs| && start < bs[j - 1].End() < bs[j].offset
    ensures 0 < i <= j && Skipped(bs, start, i) && start < bs[i].offset <= bs[j].offset
  {
    if Skipped(bs, start, j - 1) {
      i := FirstHoleIsMissed(bs, start, j - 1);
      assert bs[j - 1].End() <= bs[j].offset;
    } else {
      i := j;
    }
  }

  lemma {:induction false} SkippedByExtents(bs: seq<Block>, cs: seq<Block>, start: nat, j: nat)
    requires SameExtents(bs, cs) && j < |bs|
    ensures Skipped(bs, start, j) <==> Skipped(cs, start, j)
  {
    if j > 0 {
      SkippedByExtents(bs, cs, start, j - 1);
    }
  }

  lemma NoHoleNothingMissed(bs: seq<Block>, start: nat, len: nat)
    requires Ordered(bs) && !CrossesHole(bs, start, len)
    ensures ReadsContent(bs, start, len)
  {
    ReadsContentIff(bs, start, len);
  }

  /** The blocks with ones in block `i`. */
  lemma OnesIn(bs: seq<Block>, i: nat) returns (cs: seq<Block>)
    requires Ordered(bs) && i < |bs|
    ensures Ordered(cs) && SameExtents(bs, cs)
    ensures cs[i].size > 0 && |cs[i].data| == cs[i].size && cs[i].offset == bs[i].offset && ByteAt(cs[i], cs[i].offset) != 0
  {
    var ones := seq(bs[i].size, _ => 1 as Byte);
    assert ones[0] == 1;
    var b := bs[i].(initialized := true, data := ones);
    UpdateKeepsOrder(bs, i, b);
    cs := bs[i := b];
  }

  /** Fill the missed block with ones and the read no longer returns the content. */
  lemma HoleLosesData(bs: seq<Block>, start: nat, len: nat) returns (cs: seq<Block>)
    requires Ordered(bs) && CrossesHole(bs, start, len)
    ensures Ordered(cs) && SameExtents(bs, cs) && !ReadsContent(cs, start, len)
  {
    hide Ordered, Skipped, ReadsContent, SameExtents, ByteAt;
    var j :| 0 < j < |bs| && start < bs[j - 1].End() < bs[j].offset < start + len;
    var i := FirstHoleIsMissed(bs, start, j);
    cs := OnesIn(bs, i);
    SameCount(bs, cs);
    SkippedByExtents(bs, cs, start, i);
    LosesByte(cs, start, len, i);
  }

  lemma SameCount(bs: seq<Block>, cs: seq<Block>)
    requires SameExtents(bs, cs)
    ensures |bs| == |cs|
  {
  }

  lemma LosesByte(bs: seq<Block>, start: nat, len: nat, i: nat)
    requires Ordered(bs) && i < |bs| && Skipped(bs, start, i) && start <= bs[i].offset < start + len
    requires bs[i].size > 0 && |bs[i].data| == bs[i].size && ByteAt(bs[i], bs[i].offset) != 0
    ensures !ReadsContent(bs, start, len)
  {
    hide Skipped;
    ReadInBlock(bs, start, i, bs[i].offset);
    ContentOf(bs, i, bs[i].offset);
  }

  /** For blocks laid out like these, reading the range returns the content whatever it is iff the
      range does not cross a hole between two blocks. */
  lemma ReadsEveryContentIff(bs: seq<Block>, start: nat, len: nat)
    requires Ordered(bs)
    ensures (forall cs: seq<Block> :: Ordered(cs) && SameExtents(bs, cs) ==> ReadsContent(cs, start, len)) <==> !CrossesHole(bs, start, len)
  {
    if CrossesHole(bs, start, len) {
      var cs := HoleLosesData(bs, start, len);
    } else {
      forall cs: seq<Block> | Ordered(cs) && SameExtents(bs, cs)
        ensures ReadsContent(cs, start, len)
      {
        assert forall j :: 0 <= j < |bs| ==> SameExtent(bs[j], cs[j]);
        NoHoleNothingMissed(cs, start, len);
      }
    }
  }

  /** Two written blocks with a hole between them: a read that covers both returns zeros for the second. */
  lemma MissedBlock()
    ensures var one := seq(MIN_BLOCK_SIZE, _ => 1 as Byte);
      var bs := [Block(0, MIN_BLOCK_SIZE, true, one), Block(2 * MIN_BLOCK_SIZE, MIN_BLOCK_SIZE, true, one)];
      Ordered(bs) && Content(bs, 2 * MIN_BLOCK_SIZE) == 1 && ReadByte(bs, 0, 2 * MIN_BLOCK_SIZE) == 0
  {
    var one := seq(MIN_BLOCK_SIZE, _ => 1 as Byte);
    var bs := [Block(0, MIN_BLOCK_SIZE, true, one), Block(2 * MIN_BLOCK_SIZE, MIN_BLOCK_SIZE, true, one)];
    ReadInBlock(bs, 0, 1, 2 * MIN_BLOCK_SIZE);
    ContentOf(bs, 1, 2 * MIN_BLOCK_SIZE);
  }

  /** A range with every byte allocated crosses no hole. */
  lemma AllocatedCrossesNoHole(bs: seq<Block>, start: nat, len: nat)
    requires Ordered(bs) && AllAllocated(bs, start, start + len)
    ensures !CrossesHole(bs, start, len)
  {
    if CrossesHole(bs, start, len) {
      var j :| 0 < j < |bs| && start < bs[j - 1].End() < bs[j].offset < start + len;
      assert Allocated(bs, bs[j - 1].End());
      GapUnallocated(bs, j, bs[j - 1].End());
    }
  }

  /** So does one whose allocated part is one contiguous run, whatever lies before and after it. */
  lemma OneRunCrossesNoHole(bs: seq<Block>, start: nat, len: nat, lo: nat, hi: nat)
    requires Ordered(bs) && forall p: nat :: start <= p < start + len ==> (Allocated(bs, p) <==> lo <= p < hi)
    ensures !CrossesHole(bs, start, len)
  {
    if CrossesHole(bs, start, len) {
      var j :| 0 < j < |bs| && start < bs[j - 1].End() < bs[j].offset < start + len;
      assert Holds(bs[j - 1], bs[j - 1].End() - 1) && Holds(bs[j], bs[j].offset);
      assert Allocated(bs, bs[j - 1].End() - 1) && Allocated(bs, bs[j].offset);
      GapUnallocated(bs, j, bs[j - 1].End());
    }
  }

  // ---------------------------------------------------------------- writing

  /** The content with `buf` written at `offset`. */
  ghost function Overlay(bs: seq<Block>, offset: nat, buf: seq<Byte>, p: nat): Byte
    requires Ordered(bs)
  {
    if offset <= p < offset + |buf| then buf[p - offset] else Content(bs, p)
  }

  function Overwrite(data: seq<Byte>, from: nat, piece: seq<Byte>): (r: seq<Byte>)
    requires from + |piece| <= |data|
    ensures |r| == |data|
    ensures forall i :: 0 <= i < |data| ==> r[i] == if from <= i < from + |piece| then piece[i - from] else data[i]
  {
    data[..from] + piece + data[from + |piece|..]
  }

  lemma DataLength(v: Vinode, i: nat)
    requires v.Consistent() && i < |v.order|
    ensures v.order[i] in v.mem && v.mem[v.order[i]].size == |v.mem[v.order[i]].data|
  {
    assert |v.Blocks()[i].data| == v.Blocks()[i].size;
  }

  /** The data of a block after a write into it. */
  method WrittenData(was: seq<Byte>, initialized: bool, from: nat, piece: seq<Byte>) returns (data: seq<Byte>)
    requires 0 < |piece| && from + |piece| <= |was|
    ensures |data| == |was|
    ensures forall k :: 0 <= k < |was| ==>
      data[k] == if from <= k < from + |piece| then piece[k - from] else if initialized then was[k] else 0
  {
    hide ZeroFill, Overwrite;
    data := was;
    if !initialized {
      if from != 0 {
        data := ZeroFill(data, 0, from);
      }
      var rest := |was| - (from + |piece|);
      if rest != 0 {
        data := ZeroFill(data, from + |piece|, rest);
      }
    }
    data := Overwrite(data, from, piece);
  }

  /** write_block_range: a block written for the first time is zeroed around the new data. */
  method WriteBlockRange(v: Vinode, s: Slot, from: nat, piece: seq<Byte>, ghost i: nat)
    requires v.Consistent() && i < |v.order| && v.order[i] == s
    requires s in v.mem && 0 < |piece| && from + |piece| <= v.mem[s].size
    modifies v`mem
    ensures v.Consistent() && |v.Blocks()| == |old(v.Blocks())|
    ensures var b := old(v.Blocks())[i]; var c := v.Blocks()[i];
      && v.Blocks() == old(v.Blocks())[i := c]
      && SameExtent(b, c) && c.initialized && |b.data| == b.size
      && forall p: nat :: Holds(c, p) ==>
           ByteAt(c, p) == if b.offset + from <= p < b.offset + from + |piece| then piece[p - b.offset - from] else ByteAt(b, p)
  {
    hide Linked, Compact, Represents, ValidBlocks;
    DataLength(v, i);
    var data := WrittenData(v.mem[s].data, v.mem[s].initialized, from, piece);
    hide View;
    v.SetData(s, data, true, i);
  }

  /** Progress of a write: everything below `off` is done. */
  ghost predicate Written(bs0: seq<Block>, bs: seq<Block>, offset: nat, buf: seq<Byte>, off: nat) {
    && Ordered(bs0) && Ordered(bs) && SameExtents(bs0, bs) && offset <= off <= offset + |buf|
    && TotalSize(bs) == TotalSize(bs0)
    && forall p: nat :: Content(bs, p) == Overlay(bs0, offset, buf[..off - offset], p)
  }

  lemma WriteStep(bs0: seq<Block>, bs: seq<Block>, offset: nat, buf: seq<Byte>, off: nat, i: nat, c: Block, len: nat)
    requires Written(bs0, bs, offset, buf, off) && off + len <= offset + |buf|
    requires i < |bs| && Holds(bs[i], off) && off + len <= bs[i].End() && SameExtent(bs[i], c)
    requires forall p: nat :: Holds(c, p) ==> ByteAt(c, p) == if off <= p < off + len then buf[p - offset] else ByteAt(bs[i], p)
    ensures Written(bs0, bs[i := c], offset, buf, off + len)
  {
    var cs := bs[i := c];
    UpdateKeepsOrder(bs, i, c);
    UpdateTotal(bs, i, c);
    forall p: nat
      ensures Content(cs, p) == Overlay(bs0, offset, buf[..off + len - offset], p)
    {
      UpdateContent(bs, i, c, p);
      if Holds(c, p) {
        ContentOf(bs, i, p);
      }
    }
  }

  /** In a fully allocated range the next byte lies in the next block. */
  lemma NextBlockHolds(bs: seq<Block>, i: nat)
    requires Ordered(bs) && i < |bs| && Allocated(bs, bs[i].End())
    ensures i + 1 < |bs| && Holds(bs[i + 1], bs[i].End())
  {
    assert i + 1 < |bs| ==> bs[i].End() <= bs[i + 1].offset;
    if !(i + 1 < |bs| && Holds(bs[i + 1], bs[i].End())) {
      GapUnallocated(bs, i + 1, bs[i].End());
    }
  }

  /** iterate_on_file_range in the direction of writing: every block it meets is there already, and the
      file's content becomes the old one with `buf` laid over it. */
  method WriteRange(v: Vinode, starting: Option<Slot>, offset: nat, buf: seq<Byte>, ghost n: nat)
    returns (last: Option<Slot>, ghost pieces: seq<Piece>)
    requires v.Consistent() && n <= |v.order| && starting == Before(v.order, n) && StartAtOrBelow(v.Blocks(), offset, n)
    requires AllAllocated(v.Blocks(), offset, offset + |buf|)
    modifies v`mem
    ensures v.Consistent() && Written(old(v.Blocks()), v.Blocks(), offset, buf, offset + |buf|)
    ensures ValidHint(v, last) && Consecutive(old(v.Blocks()), offset, buf, pieces)
  {
    hide Linked, Compact, Represents, ValidBlocks, View, Written, Ordered, AllAllocated, Consecutive, InBlock;
    LinkedHasNoDuplicates(v.mem, v.order);
    ghost var bs0 := v.Blocks();
    var block := starting;
    last, pieces := starting, [];
    NoPiece(bs0, offset);
    assert buf[..0] == [];
    var off, left := offset, |buf|;
    ghost var m := n - 1;
    WriteBegins(bs0, v.align, offset, buf, n);
    while left > 0
      invariant v.Consistent() && off + left == offset + |buf| && 0 <= left
      invariant left > 0 ==> 0 <= m < |v.order| && block == Some(v.order[m]) && v.order[m] in v.mem && Covers(v.mem[v.order[m]], off)
      invariant Written(bs0, v.Blocks(), offset, buf, off) && offset <= off
      invariant ValidHint(v, last) && Consecutive(bs0, offset, buf[..off - offset], pieces)
      decreases left
    {
      var len := WriteBlock(v, block.value, offset, buf, off, left, bs0, m);
      ghost var piece := NextPiece(bs0, offset, buf, off, len, pieces, m);
      pieces := pieces + [piece];
      last := block;
      block := v.mem[block.value].next;
      NextOf(v.mem, v.order, m);
      off, left, m := off + len, left - len, m + 1;
    }
    assert buf[..off - offset] == buf;
  }

  lemma NoPiece(bs: seq<Block>, off: nat)
    ensures Consecutive(bs, off, [], [])
  {
  }

  /** The copy that one pass of the loop makes. */
  lemma NextPiece(bs: seq<Block>, offset: nat, buf: seq<Byte>, off: nat, len: nat, pieces: seq<Piece>, m: nat) returns (p: Piece)
    requires m < |bs| && bs[m].offset <= off && off + len <= bs[m].End() && 0 < len && offset <= off && off + len <= offset + |buf|
    requires Consecutive(bs, offset, buf[..off - offset], pieces)
    ensures Consecutive(bs, offset, buf[..off + len - offset], pieces + [p])
  {
    p := Piece(m, off - bs[m].offset, buf[off - offset..off + len - offset]);
    ConsecutiveNext(bs, offset, buf[..off - offset], pieces, p);
    assert buf[..off - offset] + p.bytes == buf[..off + len - offset];
  }

  /** One pass of the loop: writes to the end of the block or of the buffer. */
  method WriteBlock(v: Vinode, s: Slot, offset: nat, buf: seq<Byte>, off: nat, left: nat, ghost bs0: seq<Block>, ghost m: nat)
    returns (len: nat)
    requires v.Consistent() && m < |v.order| && v.order[m] == s && s in v.mem && Covers(v.mem[s], off)
    requires Written(bs0, v.Blocks(), offset, buf, off) && offset <= off && off + left == offset + |buf| && left > 0
    requires AllAllocated(bs0, offset, offset + |buf|)
    modifies v`mem
    ensures v.Consistent() && 0 < len <= left && s in v.mem
    ensures Written(bs0, v.Blocks(), offset, buf, off + len)
    ensures m < |bs0| && bs0[m].offset <= off && off + len <= bs0[m].End()
    ensures len < left ==> m + 1 < |v.order| && v.order[m + 1] in v.mem && Covers(v.mem[v.order[m + 1]], off + len)
  {
    hide Linked, Compact, Represents, ValidBlocks, Written, Ordered, AllAllocated;
    ghost var bs := v.Blocks();
    var d := v.mem[s];
    var from := off - d.offset;
    len := d.size - from;
    if left < len {
      len := left;
    }
    WriteBlockRange(v, s, from, buf[off - offset..off - offset + len], m);
    ghost var c := v.Blocks()[m];
    WrittenExtent(bs0, bs, offset, buf, off, m);
    WriteStep(bs0, bs, offset, buf, off, m, c, len);
    if len < left {
      WriteGoesOn(bs0, v.Blocks(), offset, buf, off + len, m);
    }
  }

  lemma WrittenExtent(bs0: seq<Block>, bs: seq<Block>, offset: nat, buf: seq<Byte>, off: nat, m: nat)
    requires Written(bs0, bs, offset, buf, off) && m < |bs|
    ensures m < |bs0| && bs0[m].offset == bs[m].offset && bs0[m].size == bs[m].size
  {
    assert SameExtent(bs0[m], bs[m]);
  }

  lemma WriteBegins(bs: seq<Block>, align: nat, offset: nat, buf: seq<Byte>, n: nat)
    requires ValidBlocks(bs, align) && StartAtOrBelow(bs, offset, n) && AllAllocated(bs, offset, offset + |buf|)
    ensures Written(bs, bs, offset, buf, offset)
    ensures |buf| > 0 ==> n > 0 && Holds(bs[n - 1], offset)
  {
    if |buf| > 0 && !(n > 0 && Holds(bs[n - 1], offset)) {
      assert Allocated(bs, offset);
      AllocatedBegins(bs, n, offset);
    }
  }

  lemma WriteGoesOn(bs0: seq<Block>, bs: seq<Block>, offset: nat, buf: seq<Byte>, off: nat, m: nat)
    requires Written(bs0, bs, offset, buf, off) && off < offset + |buf| && m < |bs| && off == bs[m].End()
    requires AllAllocated(bs0, offset, offset + |buf|)
    ensures m + 1 < |bs| && Holds(bs[m + 1], off)
  {
    assert Allocated(bs0, off);
    var i :| 0 <= i < |bs0| && Holds(bs0[i], off);
    assert SameExtent(bs0[i], bs[i]);
    NextBlockHolds(bs, m);
  }
}
