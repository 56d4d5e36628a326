/** What a file's blocks mean: the content function and the abstract effect of each change to the blocks. */
module Extents {
  import opened Layout

  /** A block without its place in memory. Bytes of a block that is not initialized read as zero. */
  datatype Block = Block(offset: nat, size: nat, initialized: bool, data: seq<Byte>) {
    function End(): nat { offset + size }
  }

  predicate Holds(b: Block, p: nat) {
    b.offset <= p < b.End()
  }

  /** Blocks as every operation leaves them: non-empty, increasing and disjoint. */
  ghost predicate Ordered(bs: seq<Block>) {
    && (forall i :: 0 <= i < |bs| ==> bs[i].size > 0 && |bs[i].data| == bs[i].size)
    && (forall i, j :: 0 <= i < j < |bs| ==> bs[i].End() <= bs[j].offset)
  }

  /** Block boundaries fall on multiples of the file's block alignment. */
  ghost predicate AlignedTo(bs: seq<Block>, align: nat)
    requires align > 0
  {
    forall i :: 0 <= i < |bs| ==> Multiple(bs[i].offset, align) && Multiple(bs[i].size, align)
  }

  ghost function ByteAt(b: Block, p: nat): Byte
    requires Holds(b, p) && |b.data| == b.size
  {
    if b.initialized then b.data[p - b.offset] else 0
  }

  ghost predicate Allocated(bs: seq<Block>, p: nat) {
    exists i :: 0 <= i < |bs| && Holds(bs[i], p)
  }

  /** The byte of the initialized block holding `p`, and zero where there is none. */
  ghost function Content(bs: seq<Block>, p: nat): Byte
    requires forall i :: 0 <= i < |bs| ==> |bs[i].data| == bs[i].size
  {
    if Allocated(bs, p) then
      var i :| 0 <= i < |bs| && Holds(bs[i], p);
      ByteAt(bs[i], p)
    else 0
  }

  ghost function TotalSize(bs: seq<Block>): nat {
    if bs == [] then 0 else TotalSize(bs[..|bs| - 1]) + bs[|bs| - 1].size
  }

  lemma ContentOf(bs: seq<Block>, i: nat, p: nat)
    requires Ordered(bs) && i < |bs| && Holds(bs[i], p)
    ensures Content(bs, p) == ByteAt(bs[i], p)
  {
    var j :| 0 <= j < |bs| && Holds(bs[j], p) && Content(bs, p) == ByteAt(bs[j], p);
    if i < j {
      assert bs[i].End() <= bs[j].offset;
    } else if j < i {
      assert bs[j].End() <= bs[i].offset;
    }
  }

  lemma {:induction false} TotalSizeConcat(a: seq<Block>, b: seq<Block>)
    ensures TotalSize(a + b) == TotalSize(a) + TotalSize(b)
  {
    if b == [] {
      assert a + b == a;
    } else {
      TotalSizeConcat(a, b[..|b| - 1]);
      assert (a + b)[..|a + b| - 1] == a + b[..|b| - 1];
    }
  }

  // ---------------------------------------------------------------- adding a block

  ghost function InsertAt(bs: seq<Block>, i: nat, b: Block): seq<Block>
    requires i <= |bs|
  {
    bs[..i] + [b] + bs[i..]
  }

  lemma InsertKeepsOrder(bs: seq<Block>, i: nat, b: Block)
    requires Ordered(bs) && i <= |bs|
    requires b.size > 0 && |b.data| == b.size
    requires i > 0 ==> bs[i - 1].End() <= b.offset
    requires i < |bs| ==> b.End() <= bs[i].offset
    ensures Ordered(InsertAt(bs, i, b))
  {
    var r := InsertAt(bs, i, b);
    assert forall j :: 0 <= j < |r| ==> r[j] == if j < i then bs[j] else if j == i then b else bs[j - 1];
    forall j, k | 0 <= j < k < |r|
      ensures r[j].End() <= r[k].offset
    {
      if j < i - 1 && k == i {
        assert bs[j].End() <= bs[i - 1].offset;
      } else if j == i && k > i + 1 {
        assert bs[i].End() <= bs[k - 1].offset;
      }
    }
  }

  lemma InsertAllocates(bs: seq<Block>, i: nat, b: Block, p: nat)
    requires i <= |bs|
    ensures Allocated(InsertAt(bs, i, b), p) <==> Holds(b, p) || Allocated(bs, p)
  {
    var r := InsertAt(bs, i, b);
    if Allocated(r, p) && !Holds(b, p) {
      var j :| 0 <= j < |r| && Holds(r[j], p);
      assert r[j] == bs[if j < i then j else j - 1];
    }
    if Allocated(bs, p) {
      var j :| 0 <= j < |bs| && Holds(bs[j], p);
      assert r[if j < i then j else j + 1] == bs[j];
    }
    assert r[i] == b;
  }

  /** A new block that is not initialized adds nothing to the content. */
  lemma InsertKeepsContent(bs: seq<Block>, i: nat, b: Block, p: nat)
    requires Ordered(bs) && i <= |bs| && Ordered(InsertAt(bs, i, b))
    requires !b.initialized
    ensures Content(InsertAt(bs, i, b), p) == Content(bs, p)
  {
    var r := InsertAt(bs, i, b);
    assert r[i] == b && RemoveAt(r, i) == bs;
    RemoveContent(r, i, p);
    if Holds(b, p) {
      ContentOf(r, i, p);
    }
  }

  lemma InsertTotal(bs: seq<Block>, i: nat, b: Block)
    requires i <= |bs|
    ensures TotalSize(InsertAt(bs, i, b)) == TotalSize(bs) + b.size
  {
    TotalSizeConcat(bs[..i] + [b], bs[i..]);
    TotalSizeConcat(bs[..i], [b]);
    TotalSizeConcat(bs[..i], bs[i..]);
    assert bs[..i] + bs[i..] == bs;
    assert [b][..0] == [];
  }

  // ---------------------------------------------------------------- removing a block

  ghost function RemoveAt(bs: seq<Block>, i: nat): seq<Block>
    requires i < |bs|
  {
    bs[..i] + bs[i + 1..]
  }

  lemma RemoveKeepsOrder(bs: seq<Block>, i: nat)
    requires Ordered(bs) && i < |bs|
    ensures Ordered(RemoveAt(bs, i))
  {
    var r := RemoveAt(bs, i);
    assert forall j :: 0 <= j < |r| ==> r[j] == if j < i then bs[j] else bs[j + 1];
  }

  lemma OthersStay(bs: seq<Block>, i: nat, k: nat, p: nat)
    requires i < |bs| && k < |bs| && k != i && Holds(bs[k], p)
    ensures Allocated(RemoveAt(bs, i), p)
  {
    assert RemoveAt(bs, i)[if k < i then k else k - 1] == bs[k];
  }

  lemma RemoveContent(bs: seq<Block>, i: nat, p: nat)
    requires Ordered(bs) && i < |bs|
    requires Ordered(RemoveAt(bs, i))
    ensures Content(RemoveAt(bs, i), p) == if Holds(bs[i], p) then 0 else Content(bs, p)
  {
    var r := RemoveAt(bs, i);
    if Allocated(r, p) {
      var j :| 0 <= j < |r| && Holds(r[j], p);
      var k := if j < i then j else j + 1;
      assert r[j] == bs[k];
      ContentOf(r, j, p);
      ContentOf(bs, k, p);
      assert (k < i ==> bs[k].End() <= bs[i].offset) && (i < k ==> bs[i].End() <= bs[k].offset);
    } else if Allocated(bs, p) && !Holds(bs[i], p) {
      var k :| 0 <= k < |bs| && Holds(bs[k], p);
      OthersStay(bs, i, k, p);
    }
  }

  lemma RemoveTotal(bs: seq<Block>, i: nat)
    requires i < |bs|
    ensures TotalSize(RemoveAt(bs, i)) + bs[i].size == TotalSize(bs)
  {
    hide TotalSize;
    var a, b, c := bs[..i], [bs[i]], bs[i + 1..];
    assert bs == a + (b + c);
    TotalSizeConcat(a, b + c);
    TotalSizeConcat(b, c);
    TotalSizeConcat(a, c);
    TotalSizeOne(bs[i]);
  }

  lemma TotalSizeOne(b: Block)
    ensures TotalSize([b]) == b.size
  {
    assert [b][..0] == [];
  }

  // ---------------------------------------------------------------- changing the bytes of a block

  ghost predicate SameExtent(b: Block, c: Block) {
    b.offset == c.offset && b.size == c.size && |c.data| == c.size
  }

  lemma UpdateKeepsOrder(bs: seq<Block>, i: nat, b: Block)
    requires Ordered(bs) && i < |bs| && SameExtent(bs[i], b)
    ensures Ordered(bs[i := b])
    ensures forall p: nat :: Allocated(bs[i := b], p) <==> Allocated(bs, p)
  {
    forall p: nat
      ensures Allocated(bs[i := b], p) <==> Allocated(bs, p)
    {
      if Allocated(bs, p) {
        var j :| 0 <= j < |bs| && Holds(bs[j], p);
        assert Holds(bs[i := b][j], p);
      }
    }
  }

  lemma UpdateContent(bs: seq<Block>, i: nat, b: Block, p: nat)
    requires Ordered(bs) && i < |bs| && SameExtent(bs[i], b)
    requires Ordered(bs[i := b])
    ensures Content(bs[i := b], p) == if Holds(b, p) then ByteAt(b, p) else Content(bs, p)
  {
    var r := bs[i := b];
    if Holds(b, p) {
      ContentOf(r, i, p);
    } else {
      assert RemoveAt(r, i) == RemoveAt(bs, i);
      RemoveKeepsOrder(bs, i);
      RemoveContent(bs, i, p);
      RemoveContent(r, i, p);
    }
  }

  lemma UpdateTotal(bs: seq<Block>, i: nat, b: Block)
    requires i < |bs| && b.size == bs[i].size
    ensures TotalSize(bs[i := b]) == TotalSize(bs)
  {
    RemoveTotal(bs, i);
    RemoveTotal(bs[i := b], i);
    assert RemoveAt(bs[i := b], i) == RemoveAt(bs, i);
  }

  // ---------------------------------------------------------------- punching a hole

  /** Exactly the first `n` blocks start at or below `off`. */
  ghost predicate StartAtOrBelow(bs: seq<Block>, off: nat, n: nat) {
    && n <= |bs|
    && (forall i :: 0 <= i < n ==> bs[i].offset <= off)
    && (forall i :: n <= i < |bs| ==> off < bs[i].offset)
  }

  /** The content after a hole was punched into [lo, hi). */
  ghost function Punched(bs: seq<Block>, lo: nat, hi: nat, p: nat): Byte
    requires Ordered(bs)
  {
    if lo <= p < hi then 0 else Content(bs, p)
  }

  ghost function Boundary(bs: seq<Block>, n: nat): nat
    requires n <= |bs|
  {
    if n == 0 then 0 else bs[n - 1].End()
  }

  /** Progress of punching: the first `n` blocks are untouched, everything past them is done. */
  ghost predicate PunchedFrom(bs0: seq<Block>, bs: seq<Block>, n: nat, lo: nat, hi: nat) {
    && Ordered(bs0) && Ordered(bs)
    && n <= |bs0| && n <= |bs| && bs[..n] == bs0[..n]
    && forall p: nat :: Content(bs, p) == if p < Boundary(bs0, n) then Content(bs0, p) else Punched(bs0, lo, hi, p)
  }

  lemma PunchStart(bs: seq<Block>, n: nat, lo: nat, hi: nat)
    requires Ordered(bs) && lo < hi && StartAtOrBelow(bs, hi - 1, n)
    ensures PunchedFrom(bs, bs, n, lo, hi)
  {
    forall p: nat | Boundary(bs, n) <= p < hi
      ensures Content(bs, p) == 0
    {
      GapUnallocated(bs, n, p);
    }
  }

  /** Between two consecutive blocks nothing is allocated. */
  lemma GapUnallocated(bs: seq<Block>, n: nat, p: nat)
    requires Ordered(bs) && n <= |bs| && Boundary(bs, n) <= p && (n < |bs| ==> p < bs[n].offset)
    ensures !Allocated(bs, p)
  {
    forall i | 0 <= i < |bs|
      ensures !Holds(bs[i], p)
    {
      assert i < n - 1 ==> bs[i].End() <= bs[n - 1].offset;
      assert i > n ==> bs[n].End() <= bs[i].offset;
    }
  }

  lemma GapIsZero(bs: seq<Block>, n: nat, p: nat)
    requires Ordered(bs) && n <= |bs| && Boundary(bs, n) <= p && (n < |bs| ==> p < bs[n].offset)
    ensures Content(bs, p) == 0
  {
    GapUnallocated(bs, n, p);
  }

  lemma PrefixTake(bs0: seq<Block>, bs: seq<Block>, n: nat)
    requires 0 < n <= |bs0| && n <= |bs| && bs[..n] == bs0[..n]
    ensures bs[n - 1] == bs0[n - 1] && bs[..n - 1] == bs0[..n - 1]
  {
    assert bs[..n][n - 1] == bs0[..n][n - 1];
    assert bs[..n - 1] == bs[..n][..n - 1];
  }

  lemma BoundaryBelow(bs: seq<Block>, i: nat)
    requires Ordered(bs) && i < |bs|
    ensures Boundary(bs, i) <= bs[i].offset <= bs[i].End()
  {
  }

  /** Removing a block that lies inside the hole. */
  lemma PunchRemove(bs0: seq<Block>, bs: seq<Block>, n: nat, lo: nat, hi: nat)
    requires PunchedFrom(bs0, bs, n, lo, hi) && 0 < n && lo <= bs0[n - 1].offset && bs0[n - 1].End() <= hi
    ensures PunchedFrom(bs0, RemoveAt(bs, n - 1), n - 1, lo, hi)
  {
    hide Content;
    PrefixTake(bs0, bs, n);
    RemoveKeepsOrder(bs, n - 1);
    var r := RemoveAt(bs, n - 1);
    assert r[..n - 1] == bs[..n - 1];
    BoundaryBelow(bs0, n - 1);
    forall p: nat
      ensures Content(r, p) == if p < Boundary(bs0, n - 1) then Content(bs0, p) else Punched(bs0, lo, hi, p)
    {
      RemoveContent(bs, n - 1, p);
      if Boundary(bs0, n - 1) <= p < bs0[n - 1].End() && !Holds(bs0[n - 1], p) {
        GapIsZero(bs0, n - 1, p);
      }
    }
  }

  /** Zeroing the part of a block that lies inside the hole. */
  lemma PunchUpdate(bs0: seq<Block>, bs: seq<Block>, n: nat, lo: nat, hi: nat, b: Block)
    requires PunchedFrom(bs0, bs, n, lo, hi) && 0 < n && SameExtent(bs0[n - 1], b)
    requires forall p: nat :: Holds(b, p) ==> ByteAt(b, p) == if lo <= p < hi then 0 else ByteAt(bs0[n - 1], p)
    ensures PunchedFrom(bs0, bs[n - 1 := b], n - 1, lo, hi)
  {
    PrefixTake(bs0, bs, n);
    UpdateKeepsOrder(bs, n - 1, b);
    var r := bs[n - 1 := b];
    assert r[..n - 1] == bs[..n - 1];
    forall p: nat
      ensures Content(r, p) == if p < Boundary(bs0, n - 1) then Content(bs0, p) else Punched(bs0, lo, hi, p)
    {
      UpdateContent(bs, n - 1, b, p);
      assert n > 1 ==> bs0[n - 2].End() <= bs0[n - 1].offset;
      if Holds(b, p) {
        ContentOf(bs0, n - 1, p);
      } else if Boundary(bs0, n - 1) <= p < bs0[n - 1].End() {
        GapUnallocated(bs0, n - 1, p);
      }
    }
  }

  /** Once the blocks left over end at or below the hole, the whole hole is punched. */
  lemma PunchDone(bs0: seq<Block>, bs: seq<Block>, n: nat, lo: nat, hi: nat)
    requires PunchedFrom(bs0, bs, n, lo, hi) && Boundary(bs0, n) <= lo
    ensures forall p: nat :: Content(bs, p) == Punched(bs0, lo, hi, p)
  {
  }

  // ---------------------------------------------------------------- the blocks a hole leaves

  ghost predicate SameExtents(bs: seq<Block>, cs: seq<Block>) {
    |bs| == |cs| && forall i :: 0 <= i < |bs| ==> SameExtent(bs[i], cs[i])
  }

  /** The offsets and sizes of the blocks. */
  ghost function Outline(bs: seq<Block>): (r: seq<(nat, nat)>)
    ensures |r| == |bs| && forall i :: 0 <= i < |bs| ==> r[i] == (bs[i].offset, bs[i].size)
  {
    if bs == [] then [] else [(bs[0].offset, bs[0].size)] + Outline(bs[1..])
  }

  ghost predicate Inside(b: Block, lo: nat, hi: nat) {
    lo <= b.offset && b.End() <= hi
  }

  /** Those of the blocks that do not lie inside [lo, hi). */
  ghost function Outside(bs: seq<Block>, lo: nat, hi: nat): seq<(nat, nat)> {
    if bs == [] then [] else (if Inside(bs[0], lo, hi) then [] else [(bs[0].offset, bs[0].size)]) + Outside(bs[1..], lo, hi)
  }

  /** Progress of punching: from block `n` on only the blocks inside are gone. */
  ghost predicate LeftFrom(bs0: seq<Block>, bs: seq<Block>, n: nat, lo: nat, hi: nat) {
    n <= |bs0| && n <= |bs| && Outline(bs[n..]) == Outside(bs0[n..], lo, hi)
  }

  lemma {:induction false} NoneInside(bs: seq<Block>, n: nat, lo: nat, hi: nat)
    requires n <= |bs| && forall i :: n <= i < |bs| ==> !Inside(bs[i], lo, hi)
    ensures LeftFrom(bs, bs, n, lo, hi)
    decreases |bs| - n
  {
    if n < |bs| {
      NoneInside(bs, n + 1, lo, hi);
      LeftStep(bs, n);
    }
  }

  lemma LeftStep(bs: seq<Block>, n: nat)
    requires n < |bs|
    ensures bs[n..] == [bs[n]] + bs[n + 1..] && bs[n..][1..] == bs[n + 1..]
  {
  }

  lemma LeftGone(bs0: seq<Block>, bs: seq<Block>, n: nat, lo: nat, hi: nat)
    requires LeftFrom(bs0, bs, n, lo, hi) && n > 0 && Inside(bs0[n - 1], lo, hi)
    ensures LeftFrom(bs0, RemoveAt(bs, n - 1), n - 1, lo, hi)
  {
    LeftStep(bs0, n - 1);
    assert RemoveAt(bs, n - 1)[n - 1..] == bs[n..];
  }

  lemma LeftKept(bs0: seq<Block>, bs: seq<Block>, n: nat, lo: nat, hi: nat, b: Block)
    requires LeftFrom(bs0, bs, n, lo, hi) && n > 0 && SameExtent(bs0[n - 1], b) && !Inside(bs0[n - 1], lo, hi)
    ensures LeftFrom(bs0, bs[n - 1 := b], n - 1, lo, hi)
  {
    var r := bs[n - 1 := b];
    LeftStep(bs0, n - 1);
    LeftStep(r, n - 1);
    assert r[n..] == bs[n..];
  }

  lemma {:induction false} LeftAll(bs0: seq<Block>, bs: seq<Block>, n: nat, lo: nat, hi: nat)
    requires LeftFrom(bs0, bs, n, lo, hi) && Ordered(bs0) && bs[..n] == bs0[..n] && Boundary(bs0, n) <= lo
    ensures Outline(bs) == Outside(bs0, lo, hi)
    decreases n
  {
    if n == 0 {
      assert bs[0..] == bs && bs0[0..] == bs0;
    } else {
      PrefixTake(bs0, bs, n);
      assert bs[n - 1 := bs[n - 1]] == bs;
      LeftKept(bs0, bs, n, lo, hi, bs[n - 1]);
      BoundaryBelow(bs0, n - 1);
      assert bs[..n - 1] == bs[..n][..n - 1];
      LeftAll(bs0, bs, n - 1, lo, hi);
    }
  }

  /** A hole to the end of all blocks leaves those that start before it, the first of them included. */
  lemma {:induction false} OutsideToEnd(bs: seq<Block>, lo: nat, hi: nat)
    requires Ordered(bs) && forall i :: 0 <= i < |bs| ==> bs[i].End() <= hi
    ensures Outside(bs, lo, hi) == [] <==> bs == [] || lo <= bs[0].offset
    ensures Outside(bs, lo, hi) != [] ==> Outside(bs, lo, hi)[0].0 == bs[0].offset
  {
    if bs != [] {
      var rest := bs[1..];
      OutsideToEnd(rest, lo, hi);
      assert rest != [] ==> rest[0] == bs[1];
    }
  }

  // ---------------------------------------------------------------- filling holes

  ghost predicate AllAllocated(bs: seq<Block>, lo: nat, hi: nat) {
    forall p: nat :: lo <= p < hi ==> Allocated(bs, p)
  }

  /** Progress of allocating from `start` on: everything before `off` is allocated, nothing became readable
      that was not before, and blocks `n - 1` and `n` are the neighbours of `off`. */
  ghost predicate FilledUpTo(bs0: seq<Block>, bs: seq<Block>, n: nat, start: nat, off: nat) {
    && Ordered(bs0) && Ordered(bs) && n <= |bs| && start <= off
    && (n > 0 ==> bs[n - 1].offset <= off)
    && (n < |bs| ==> off <= bs[n].offset)
    && (n == 0 ==> bs == bs0 && off == start && (bs != [] ==> start < bs[0].offset))
    && (forall p: nat :: start <= p < off ==> Allocated(bs, p))
    && (forall p: nat :: Content(bs, p) == Content(bs0, p))
    && (forall p: nat :: Allocated(bs0, p) ==> Allocated(bs, p))
  }

  lemma FillStart(bs: seq<Block>, n: nat, off: nat)
    requires Ordered(bs) && StartAtOrBelow(bs, off, n)
    ensures FilledUpTo(bs, bs, n, off, off)
  {
  }

  /** `off` lies in a block: skip to its end. */
  lemma FillSkip(bs0: seq<Block>, bs: seq<Block>, n: nat, start: nat, off: nat, off': nat)
    requires FilledUpTo(bs0, bs, n, start, off) && n > 0 && Holds(bs[n - 1], off) && off <= off' <= bs[n - 1].End()
    ensures FilledUpTo(bs0, bs, n, start, off')
  {
    forall p: nat | off <= p < off'
      ensures Allocated(bs, p)
    {
      assert Holds(bs[n - 1], p);
    }
  }

  /** A new block that starts at `off`. */
  lemma FillInsert(bs0: seq<Block>, bs: seq<Block>, n: nat, start: nat, off: nat, b: Block)
    requires FilledUpTo(bs0, bs, n, start, off) && b.offset == off && !b.initialized
    requires Ordered(InsertAt(bs, n, b))
    ensures FilledUpTo(bs0, InsertAt(bs, n, b), n + 1, start, off)
  {
    var r := InsertAt(bs, n, b);
    assert r[n] == b && (n < |bs| ==> r[n + 1] == bs[n]);
    forall p: nat
      ensures Content(r, p) == Content(bs, p)
      ensures Allocated(bs, p) ==> Allocated(r, p)
    {
      InsertKeepsContent(bs, n, b, p);
      InsertAllocates(bs, n, b, p);
    }
  }

  /** The next block starts exactly at `off`. */
  lemma FillNext(bs0: seq<Block>, bs: seq<Block>, n: nat, start: nat, off: nat)
    requires FilledUpTo(bs0, bs, n, start, off) && 0 < n < |bs| && bs[n].offset == off
    ensures FilledUpTo(bs0, bs, n + 1, start, off) && Holds(bs[n], off)
  {
  }

  // ---------------------------------------------------------------- blocks of a descriptor list

  ghost function BlockOf(d: Desc): Block {
    Block(d.offset, d.size, d.initialized, d.data)
  }

  /** The blocks of a list of descriptors, in list order. */
  ghost function View(mem: Memory, order: seq<Slot>): (bs: seq<Block>)
    requires forall i :: 0 <= i < |order| ==> order[i] in mem
    ensures |bs| == |order| && forall i :: 0 <= i < |order| ==> bs[i] == BlockOf(mem[order[i]])
  {
    seq(|order|, i requires 0 <= i < |order| => BlockOf(mem[order[i]]))
  }

  lemma ViewIsSorted(mem: Memory, order: seq<Slot>, align: nat)
    requires align > 0 && align % MIN_BLOCK_SIZE == 0
    requires forall i :: 0 <= i < |order| ==> order[i] in mem
    requires Ordered(View(mem, order)) && AlignedTo(View(mem, order), align)
    ensures Sorted(mem, order)
  {
    var bs := View(mem, order);
    forall i | 0 <= i < |order|
      ensures Aligned(mem[order[i]].size) && Aligned(mem[order[i]].offset)
    {
      assert Multiple(bs[i].offset, align) && Multiple(bs[i].size, align);
      MultipleOfMultiple(bs[i].offset, align);
      MultipleOfMultiple(bs[i].size, align);
    }
    forall i, j | 0 <= i < j < |order|
      ensures mem[order[i]].offset + mem[order[i]].size <= mem[order[j]].offset
    {
      assert bs[i].End() <= bs[j].offset;
    }
  }

  lemma MultipleOfMultiple(n: nat, align: nat)
    requires align > 0 && align % MIN_BLOCK_SIZE == 0 && Multiple(n, align)
    ensures Aligned(n)
  {
    var q, m := n / align, align / MIN_BLOCK_SIZE;
    assert n == align * q && align == MIN_BLOCK_SIZE * m;
    assert n == MIN_BLOCK_SIZE * (m * q);
  }
}
