/** What holds of a file between two operations, how its volatile part is rebuilt, and how an aborted
    transaction is undone. */
module FileState {
  import opened Layout
  import opened OffsetMapping
  import opened BlockList
  import opened BlockArray
  import opened Extents
  import opened Vinodes
  import opened Data

  /** The part of a file that survives the process, and that an aborted transaction leaves unchanged. */
  datatype Image = Image(mem: Memory, chain: seq<nat>, size: nat, allocatedSpace: nat)

  function ImageOf(v: Vinode): Image
    reads v`mem, v`chain, v`size, v`allocatedSpace
  {
    Image(v.mem, v.chain, v.size, v.allocatedSpace)
  }

  ghost predicate ZeroFrom(bs: seq<Block>, size: nat)
    requires Ordered(bs)
  {
    forall p: nat :: size <= p ==> Content(bs, p) == 0
  }

  /** The persistent invariant: one sorted list through compact arrays, the recorded space is the size of all
      blocks, and there is no data past the end of the file. */
  ghost predicate ValidImage(im: Image, order: seq<Slot>, free: nat, align: nat) {
    && Linked(im.mem, order) && Compact(im.mem, im.chain, order, free)
    && (im.chain != [] ==> free > 0)
    && align % MIN_BLOCK_SIZE == 0 && ValidBlocks(View(im.mem, order), align)
    && im.size <= ALLOC_LIMIT
    && im.allocatedSpace == TotalSize(View(im.mem, order))
    && ZeroFrom(View(im.mem, order), im.size)
  }

  /** The volatile state is derived from the persistent one, or absent. */
  ghost predicate Valid(v: Vinode)
    reads v`mem, v`chain, v`size, v`allocatedSpace, v`firstFree, v`firstBlock, v`blocks, v`order, v`free, v.blocks
  {
    && ValidImage(ImageOf(v), v.order, v.free, v.align)
    && (v.firstFree.Some? ==> v.firstFree.value == Slot(Head(v.chain), v.free))
    && (v.blocks != null ==> v.firstBlock == First(v.order) && v.blocks.Maps(v.mem, v.order))
  }

  /** A new file is valid. */
  method NewFile(align: nat) returns (v: Vinode)
    requires align > 0 && align % MIN_BLOCK_SIZE == 0
    ensures fresh(v) && v.align == align && Valid(v) && v.blocks == null && v.size == 0
  {
    v := new Vinode(align);
    assert View(v.mem, v.order) == [];
  }

  /** vinode_snapshot */
  method Snapshot(v: Vinode)
    modifies v`snapshotFree, v`snapshotFirst
    ensures v.snapshotFree == v.firstFree && v.snapshotFirst == v.firstBlock
  {
    v.snapshotFree, v.snapshotFirst := v.firstFree, v.firstBlock;
  }

  /** An aborted transaction: its undo log restores the persistent fields, and vinode_restore_on_abort the
      volatile ones. Whatever the transaction had done, the file is valid again and has its old image. */
  method Abort(v: Vinode, was: Image, ghost order: seq<Slot>, ghost free: nat)
    requires ValidImage(was, order, free, v.align)
    requires v.snapshotFree.Some? ==> v.snapshotFree.value == Slot(Head(was.chain), free)
    modifies v
    ensures Valid(v) && v.blocks == null && ImageOf(v) == was && v.order == order
    ensures v.invalidations == old(v.invalidations)
  {
    v.mem, v.chain, v.size, v.allocatedSpace := was.mem, was.chain, was.size, was.allocatedSpace;
    v.order, v.free := order, free;
    v.firstFree, v.firstBlock := v.snapshotFree, v.snapshotFirst;
    v.blocks := null;
  }

  // ---------------------------------------------------------------- vinode_rebuild_block_tree

  /** Progress of rebuilding: `done` is mapped and has `first` as its block with the least offset. */
  ghost predicate Rebuilt(mem: Memory, order: seq<Slot>, done: seq<Slot>, first: Option<Slot>) {
    && (forall s :: s in done ==> s in order && s in mem)
    && (if done == [] then first == None
        else first.Some? && first.value in done && forall s :: s in done ==> mem[first.value].offset <= mem[s].offset)
  }

  /** `done` holds the used slots of the arrays seen so far and of the first `i` slots of `arr`. */
  ghost predicate SeenUpTo(order: seq<Slot>, done: seq<Slot>, seen: seq<nat>, arr: nat, i: nat) {
    forall s {:trigger s in done} :: s in done <==> s in order && (s.arr in seen || (s.arr == arr && s.idx < i))
  }

  lemma Overlapless(mem: Memory, order: seq<Slot>, align: nat, s: Slot, t: Slot, o: nat)
    requires Linked(mem, order) && ValidBlocks(View(mem, order), align)
    requires s in order && t in order && Covers(mem[s], o) && Covers(mem[t], o)
    ensures s == t
  {
    var i :| 0 <= i < |order| && order[i] == s;
    var j :| 0 <= j < |order| && order[j] == t;
    var bs := View(mem, order);
    assert Holds(bs[i], o) && Holds(bs[j], o);
  }

  lemma SlotFacts(mem: Memory, chain: seq<nat>, order: seq<Slot>, free: nat, align: nat, s: Slot)
    requires Linked(mem, order) && Compact(mem, chain, order, free) && ValidBlocks(View(mem, order), align)
    requires align % MIN_BLOCK_SIZE == 0 && InArrays(chain, s)
    ensures s in mem && (mem[s].size == 0 <==> IsFree(chain, free, s)) && (s in order <==> !IsFree(chain, free, s))
    ensures s in order ==> Aligned(mem[s].offset) && Aligned(mem[s].size) && mem[s].offset + mem[s].size < END_LIMIT
  {
    assert s in mem;
    if s in order {
      var i :| 0 <= i < |order| && order[i] == s;
      ViewIsSorted(mem, order, align);
      assert View(mem, order)[i].End() < END_LIMIT;
      assert !IsFree(chain, free, s);
    } else {
      assert mem[s] == ZERO_DESC;
    }
  }

  /** One array: inserts its blocks into the tree, up to the first free slot. */
  method RebuildArray(v: Vinode, c: OffsetMap, arr: nat, first0: Option<Slot>, ghost seen: seq<nat>, ghost done0: seq<Slot>)
    returns (first: Option<Slot>, ghost done: seq<Slot>)
    requires Linked(v.mem, v.order) && Compact(v.mem, v.chain, v.order, v.free) && ValidBlocks(View(v.mem, v.order), v.align)
    requires v.align % MIN_BLOCK_SIZE == 0 && (arr == 0 || arr in v.chain) && arr !in seen
    requires c.Maps(v.mem, done0) && Rebuilt(v.mem, v.order, done0, first0) && SeenUpTo(v.order, done0, seen, arr, 0)
    modifies c
    ensures c.Maps(v.mem, done) && Rebuilt(v.mem, v.order, done, first)
    ensures forall a: nat :: SeenUpTo(v.order, done, seen + [arr], a, 0)
  {
    hide Linked, Compact, Represents, ValidBlocks, View, LookupIn;
    LinkedHasNoDuplicates(v.mem, v.order);
    first, done := first0, done0;
    var i := 0;
    while i < Capacity(arr)
      invariant 0 <= i <= Capacity(arr)
      invariant c.Maps(v.mem, done) && Rebuilt(v.mem, v.order, done, first) && SeenUpTo(v.order, done, seen, arr, i)
    {
      var s := Slot(arr, i);
      SlotFacts(v.mem, v.chain, v.order, v.free, v.align, s);
      if v.mem[s].size == 0 {
        break;
      }
      InsertRebuilt(v, c, s, done);
      if first == None || v.mem[s].offset < v.mem[first.value].offset {
        first := Some(s);
      }
      done := done + [s];
      i := i + 1;
    }
    RestIsFree(v.mem, v.chain, v.order, v.free, done, seen, arr, i);
  }

  method InsertRebuilt(v: Vinode, c: OffsetMap, s: Slot, ghost done: seq<Slot>)
    requires Linked(v.mem, v.order) && ValidBlocks(View(v.mem, v.order), v.align)
    requires s in v.order && s in v.mem && s !in done && v.mem[s].size > 0
    requires Aligned(v.mem[s].offset) && Aligned(v.mem[s].size) && v.mem[s].offset + v.mem[s].size < END_LIMIT
    requires c.Maps(v.mem, done) && forall t :: t in done ==> t in v.order
    modifies c
    ensures c.Maps(v.mem, done + [s])
  {
    hide Linked, ValidBlocks, View, LookupIn;
    ghost var e, k := c.entry, c.Level();
    var d := v.mem[s];
    forall o: nat | Covers(d, o)
      ensures c.Lookup(o) == None
    {
      if LookupIn(e, k, o).Some? {
        Overlapless(v.mem, v.order, v.align, s, LookupIn(e, k, o).value, o);
      }
    }
    assert forall o: nat :: LookupIn(e, k, o) == c.Lookup(o);
    c.InsertBlock(s, d.offset, d.size);
    assert forall o: nat :: LookupIn(c.entry, c.Level(), o) == c.Lookup(o);
    RepresentsMore(e, k, c.entry, c.Level(), v.mem, v.mem, done, done + [s], s);
  }

  /** Past the first free slot of an array there is no used one. */
  lemma RestIsFree(mem: Memory, chain: seq<nat>, order: seq<Slot>, free: nat, done: seq<Slot>, seen: seq<nat>, arr: nat, i: nat)
    requires Compact(mem, chain, order, free) && SeenUpTo(order, done, seen, arr, i) && i <= Capacity(arr)
    requires forall s :: s in order ==> s in mem
    requires i < Capacity(arr) ==> IsFree(chain, free, Slot(arr, i))
    ensures forall a: nat :: SeenUpTo(order, done, seen + [arr], a, 0)
  {
    forall s: Slot | s in order && s.arr == arr
      ensures s.idx < i
    {
      assert s in mem;
      assert InArrays(chain, s) && !IsFree(chain, free, s);
    }
  }

  /** vinode_rebuild_block_tree: walks the arrays, not the list, and arrives at the same first block and at a
      tree of exactly the listed blocks. It fails only for lack of (volatile) memory. */
  method Rebuild(v: Vinode, memory: bool) returns (ok: bool)
    requires Valid(v) && v.blocks == null
    modifies v`firstBlock, v`blocks
    ensures Valid(v) && (ok ==> v.Consistent() && fresh(v.blocks)) && (!ok ==> v.blocks == null)
    ensures memory ==> ok
  {
    ok := v.TxAlloc(memory);
    if !ok {
      return;
    }
    LinkedHasNoDuplicates(v.mem, v.order);
    var c, first := RebuildTree(v);
    v.firstBlock := first;
    v.blocks := c;
  }

  method RebuildTree(v: Vinode) returns (c: OffsetMap, first: Option<Slot>)
    requires Linked(v.mem, v.order) && Compact(v.mem, v.chain, v.order, v.free) && ValidBlocks(View(v.mem, v.order), v.align)
    requires v.align % MIN_BLOCK_SIZE == 0
    ensures fresh(c) && c.Maps(v.mem, v.order) && first == First(v.order)
  {
    hide Linked, Compact, Represents, ValidBlocks, View, LookupIn, Rebuilt, SeenUpTo;
    LinkedHasNoDuplicates(v.mem, v.order);
    c := new OffsetMap();
    ghost var done: seq<Slot> := [];
    EmptyTree(c, v.mem);
    NothingRebuilt(v.mem, v.order);
    ArraysDiffer(v.mem, v.chain, v.order, v.free);
    first, done := RebuildArray(v, c, 0, None, [], done);
    var a := 0;
    assert [0] + v.chain[..a] == [] + [0];
    while a < |v.chain|
      invariant 0 <= a <= |v.chain| && fresh(c)
      invariant c.Maps(v.mem, done) && Rebuilt(v.mem, v.order, done, first)
      invariant forall b: nat :: SeenUpTo(v.order, done, [0] + v.chain[..a], b, 0)
    {
      first, done := RebuildArray(v, c, v.chain[a], first, [0] + v.chain[..a], done);
      assert [0] + v.chain[..a] + [v.chain[a]] == [0] + v.chain[..a + 1];
      a := a + 1;
    }
    assert v.chain[..a] == v.chain;
    AllRebuilt(v.mem, v.chain, v.order, v.free, v.align, done, first);
    RepresentsSame(c.entry, c.Level(), v.mem, v.mem, done, v.order);
  }

  lemma EmptyTree(c: OffsetMap, mem: Memory)
    requires c.Valid() && forall o: nat :: c.Lookup(o) == None
    ensures c.Maps(mem, [])
  {
    assert forall o: nat :: LookupIn(c.entry, c.Level(), o) == c.Lookup(o);
  }

  lemma NothingRebuilt(mem: Memory, order: seq<Slot>)
    ensures Rebuilt(mem, order, [], None) && SeenUpTo(order, [], [], 0, 0)
  {
  }

  lemma ArraysDiffer(mem: Memory, chain: seq<nat>, order: seq<Slot>, free: nat)
    requires Compact(mem, chain, order, free)
    ensures forall a :: 0 <= a < |chain| ==> chain[a] !in [0] + chain[..a]
  {
  }

  lemma AllRebuilt(mem: Memory, chain: seq<nat>, order: seq<Slot>, free: nat, align: nat, done: seq<Slot>, first: Option<Slot>)
    requires Linked(mem, order) && Compact(mem, chain, order, free) && ValidBlocks(View(mem, order), align)
    requires Rebuilt(mem, order, done, first) && SeenUpTo(order, done, [0] + chain, 0, 0)
    ensures (forall s :: s in order <==> s in done) && first == First(order)
  {
    forall s
      ensures s in order <==> s in done
    {
      if s in order {
        assert s in mem;
        assert InArrays(chain, s);
      }
    }
    if order != [] {
      assert order[0] in done;
      var i :| 0 <= i < |order| && order[i] == first.value;
      var bs := View(mem, order);
      assert bs[0].offset == mem[order[0]].offset && bs[i].offset == mem[order[i]].offset;
    }
  }
}
