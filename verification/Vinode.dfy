/** A regular file: its persistent descriptors, the volatile state derived from them, and the
    operations of block_array.c and data.c on both. */
module Vinodes {
  import opened Layout
  import opened OffsetMapping
  import opened BlockList
  import opened BlockArray
  import opened Extents

  /** No block ends above this: the limit asserted when a block enters the tree. */
  const END_LIMIT: nat := TWO_64 - MIN_BLOCK_SIZE

  ghost predicate Bounded(bs: seq<Block>) {
    forall i :: 0 <= i < |bs| ==> bs[i].End() < END_LIMIT
  }

  ghost predicate ValidBlocks(bs: seq<Block>, align: nat) {
    align > 0 && Ordered(bs) && AlignedTo(bs, align) && Bounded(bs)
  }

  ghost predicate SamePayloadOn(mem: Memory, mem': Memory, order: seq<Slot>) {
    forall s :: s in order ==> s in mem && s in mem' && SamePayload(mem[s], mem'[s])
  }

  class Vinode {
    // persistent: descriptor arrays (the chain holds the arrays linked to the inode's own), file
    // size and allocated space
    var mem: Memory
    var chain: seq<nat>
    var size: nat
    var allocatedSpace: nat
    // volatile
    var firstFree: Option<Slot>
    var firstBlock: Option<Slot>
    var blocks: OffsetMap?
    var invalidations: nat
    // what an aborted transaction brings back of the volatile state
    var snapshotFree: Option<Slot>
    var snapshotFirst: Option<Slot>
    // the descriptors in list order, and the index of the first free slot of the head array
    ghost var order: seq<Slot>
    ghost var free: nat

    const align: nat

    /** A vinode of a newly created, empty file. */
    constructor (align: nat)
      requires align > 0 && align % MIN_BLOCK_SIZE == 0
      ensures this.align == align && Stored() && order == [] && chain == [] && free == 0
      ensures size == 0 && allocatedSpace == 0 && blocks == null
    {
      mem := WithArray(map[], 0);
      chain := [];
      size, allocatedSpace, invalidations := 0, 0, 0;
      firstFree, firstBlock, snapshotFree, snapshotFirst := None, None, None, None;
      blocks := null;
      order, free := [], 0;
      this.align := align;
      new;
      EmptyIsCompact();
    }

    /** The descriptors form one list, free slots sit in the tail of the head array, and the cached
        position of the first free slot, once computed, is right. */
    ghost predicate Stored()
      reads this
    {
      && Linked(mem, order)
      && Compact(mem, chain, order, free)
      && (firstFree.Some? ==> firstFree.value == Slot(Head(chain), free))
    }

    ghost predicate Populated()
      reads this
    {
      forall s :: s in order ==> s in mem && mem[s].size > 0
    }

    /** update_first_block_info: computes the position of the first free slot on first use. */
    method UpdateFirstBlockInfo()
      requires Stored() && Populated()
      modifies this`firstFree
      ensures Stored() && firstFree == Some(Slot(Head(chain), free))
    {
      if firstFree.Some? {
        return;
      }
      HeadSlots(mem, chain, order, free);
      var arr, idx := Head(chain), 0;
      while idx < Capacity(arr) && mem[Slot(arr, idx)].size != 0
        invariant 0 <= idx <= free
      {
        idx := idx + 1;
      }
      firstFree := Some(Slot(arr, idx));
    }

    /** The blocks of the file in file order. */
    ghost function Blocks(): seq<Block>
      requires forall i :: 0 <= i < |order| ==> order[i] in mem
      reads this
    {
      View(mem, order)
    }

    /** All representations agree: list, arrays, cached positions and tree. */
    ghost predicate Consistent()
      reads this, blocks
    {
      && Stored()
      && (chain != [] ==> free > 0)
      && align % MIN_BLOCK_SIZE == 0
      && ValidBlocks(View(mem, order), align)
      && firstBlock == First(order)
      && blocks != null && blocks.Maps(mem, order)
    }

    /** A transactional allocation. Without enough `memory` it may fail and abort the transaction. */
    method TxAlloc(memory: bool) returns (ok: bool)
      ensures memory ==> ok
    {
      ok := true;
      if !memory {
        ok := *;
      }
    }

    /** allocate_new_block_array: links a zeroed array in front of the chain. */
    method AllocateNewBlockArray()
      requires Stored() && firstFree == Some(Slot(Head(chain), Capacity(Head(chain))))
      modifies this`mem, this`chain, this`firstFree, this`free
      ensures Stored() && free == 0 && chain != [] && firstFree == Some(Slot(Head(chain), 0))
      ensures chain[1..] == old(chain) && forall s :: s in order ==> mem[s] == old(mem[s])
    {
      var id := FreshArrayId(chain);
      NewArrayKeepsCompact(mem, chain, order, free, id);
      mem := WithArray(mem, id);
      chain := [id] + chain;
      firstFree := Some(Slot(id, 0));
      free := 0;
    }

    /** acquire_new_entry: takes the first free slot, after growing the chain if there is none.
        The slot is not linked yet. */
    method AcquireNewEntry(memory: bool) returns (ok: bool, s: Slot)
      requires Stored() && firstFree == Some(Slot(Head(chain), free))
      modifies this`mem, this`chain, this`firstFree, this`free
      ensures memory ==> ok
      ensures ok ==>
        && Linked(mem, order)
        && 0 < free <= Capacity(Head(chain)) && s == Slot(Head(chain), free - 1) && s in mem && s !in order && mem[s] == ZERO_DESC
        && Compact(mem, chain, order, free - 1)
        && firstFree == Some(Slot(Head(chain), free))
        && forall t :: t in order ==> t in mem && mem[t] == old(mem[t])
    {
      ok := true;
      s := firstFree.value;
      if firstFree.value.idx >= Capacity(firstFree.value.arr) {
        ok := TxAlloc(memory);
        if !ok {
          return;
        }
        AllocateNewBlockArray();
      }
      FreeSlotIsZero(mem, chain, order, free);
      s := firstFree.value;
      firstFree := Some(Slot(s.arr, s.idx + 1));
      free := free + 1;
    }

    /** block_list_insert_after: a new, still empty descriptor linked in after `prev`. */
    method InsertAfter(prev: Option<Slot>, memory: bool, ghost i: nat) returns (ok: bool, s: Slot)
      requires Stored() && Populated() && firstBlock == First(order)
      requires i <= |order| && prev == Before(order, i)
      modifies this`mem, this`chain, this`firstFree, this`free, this`firstBlock, this`order
      ensures memory ==> ok
      ensures ok ==>
        && Stored() && firstBlock == First(order) && free > 0
        && s !in old(order) && order == InsertSlot(old(order), i, s)
        && s in mem && SamePayload(mem[s], ZERO_DESC)
        && SamePayloadOn(old(mem), mem, old(order))
    {
      hide Linked, Compact;
      UpdateFirstBlockInfo();
      ok, s := AcquireNewEntry(memory);
      if !ok {
        return;
      }
      InsertedStore(mem, chain, order, free - 1, i, s);
      LinkIn(prev, s, i);
      order := InsertSlot(order, i, s);
    }

    /** A new block of `size` bytes at `offset`, linked in after `prev`: the statements every
        allocating case of vinode_allocate_interval runs. */
    method AddBlock(prev: Option<Slot>, offset: nat, size: nat, memory: bool, ghost i: nat) returns (ok: bool, s: Slot)
      requires Consistent()
      requires i <= |order| && prev == Before(order, i)
      requires FitsAt(Blocks(), align, i, offset, size)
      modifies this`mem, this`chain, this`firstFree, this`free, this`firstBlock, this`order, blocks
      ensures blocks == old(blocks) && (memory ==> ok)
      ensures ok ==>
        && Consistent() && order == InsertSlot(old(order), i, s)
        && Blocks() == InsertAt(old(Blocks()), i, Blocks()[i])
        && Blocks()[i].offset == offset && Blocks()[i].size == size && !Blocks()[i].initialized
    {
      hide Linked, Compact, Represents, ValidBlocks, SamePayload, FitsAt, LookupIn, WellFormed, View;
      ghost var mem0, was := mem, order;
      BlocksAreUsed(mem, order, align);
      ok, s := InsertAfter(prev, memory, i);
      if !ok {
        return;
      }
      ok := TxAlloc(memory);
      if !ok {
        return;
      }
      var data := NewData(size);
      ghost var mem1, e, k := mem, blocks.entry, blocks.Level();
      mem := mem[s := mem[s].(offset := offset, data := data, size := size, initialized := false)];
      HoleIsUnmapped(e, k, mem0, was, align, i, offset, size);
      blocks.InsertBlock(s, offset, size);
      assert forall o: nat :: LookupIn(blocks.entry, blocks.Level(), o) == blocks.Lookup(o);
      AddedBlock(mem0, was, mem1, mem, chain, order, free, i, s, align);
      AddedToTree(e, k, blocks.entry, blocks.Level(), mem0, mem1, mem, was, order, i, s);
    }

    /** unlink_block */
    method UnlinkBlock(block: Slot, ghost i: nat)
      requires Linked(mem, order) && i < |order| && order[i] == block
      modifies this`mem
      ensures Linked(mem, RemoveSlot(order, i)) && SamePayloads(old(mem), mem)
      ensures mem[block] == old(mem[block]) && forall t :: t in mem && t !in order ==> mem[t] == old(mem[t])
    {
      NeighboursInMemory(mem, order, i);
      UnlinkedIsLinked(mem, order, i);
      UnlinkedFrame(mem, order, i);
      var d := mem[block];
      if d.prev.Some? {
        mem := SetNext(mem, d.prev, d.next);
      }
      if d.next.Some? {
        mem := SetPrev(mem, d.next, d.prev);
      }
    }

    /** relocate_block: the descriptor at `src` moves to `dst`, its neighbours follow. */
    method RelocateBlock(dst: Slot, src: Slot, ghost list: seq<Slot>, ghost j: nat)
      requires Linked(mem, list) && j < |list| && list[j] == src && dst in mem && dst !in list
      modifies this`mem
      ensures Linked(mem, list[j := dst]) && mem.Keys == old(mem.Keys)
      ensures mem[dst] == old(mem[src])
      ensures forall t :: t in mem && t != dst ==> SamePayload(old(mem[t]), mem[t])
      ensures forall t :: t in mem && t != dst && t !in list ==> mem[t] == old(mem[t])
    {
      NeighboursInMemory(mem, list, j);
      MovedIsLinked(mem, list, j, dst);
      MovedFrame(mem, list, j, dst);
      var d := mem[src];
      if d.prev.Some? {
        mem := SetNext(mem, d.prev, Some(dst));
      }
      if d.next.Some? {
        mem := SetPrev(mem, d.next, Some(dst));
      }
      mem := mem[dst := mem[src]];
    }

    /** Fills the freed slot `dst` with the last used descriptor, in the list and in the tree. */
    method MoveLastInto(dst: Slot, src: Slot, ghost list: seq<Slot>, ghost j: nat)
      requires Linked(mem, list) && j < |list| && list[j] == src && dst in mem && dst !in list
      requires blocks != null && blocks.Maps(mem, list) && align % MIN_BLOCK_SIZE == 0 && ValidBlocks(View(mem, list), align)
      modifies this`mem, blocks
      ensures Linked(mem, list[j := dst]) && mem.Keys == old(mem.Keys)
      ensures View(mem, list[j := dst]) == View(old(mem), list)
      ensures forall t :: t in mem && t != dst && t !in list ==> mem[t] == old(mem[t])
      ensures blocks.Maps(mem, list[j := dst])
    {
      hide Linked, ValidBlocks, Represents, LookupIn, SamePayload;
      ghost var mem0, e, k := mem, blocks.entry, blocks.Level();
      LinkedHasNoDuplicates(mem, list);
      BlockExtentInTree(e, k, mem, list, align, j);
      assert forall o: nat :: LookupIn(e, k, o) == blocks.Lookup(o);
      blocks.RemoveBlock(src, mem[src].offset, mem[src].size);
      RelocateBlock(dst, src, list, j);
      MovedView(mem0, mem, list, j, dst);
      ghost var e1, k1 := blocks.entry, blocks.Level();
      assert forall o: nat :: LookupIn(e1, k1, o) == blocks.Lookup(o);
      blocks.InsertBlock(dst, mem[dst].offset, mem[dst].size);
      assert forall o: nat :: LookupIn(blocks.entry, blocks.Level(), o) == blocks.Lookup(o);
      MovedInTree(e, k, blocks.entry, blocks.Level(), mem0, mem, list, j, dst);
    }

    /** remove_first_block_array, when the head array has become empty. */
    method RemoveFirstBlockArray()
      requires Stored() && free == 0 && chain != [] && firstFree.Some?
      modifies this`mem, this`chain, this`firstFree, this`free
      ensures Stored() && free == Capacity(Head(chain)) && firstFree.Some?
      ensures chain == old(chain)[1..] && forall s :: s in order ==> s in mem && mem[s] == old(mem[s])
    {
      DropArrayKeepsCompact(mem, chain, order);
      mem := WithoutArray(mem, chain[0]);
      chain := chain[1..];
      firstFree := Some(Slot(Head(chain), Capacity(Head(chain))));
      free := Capacity(Head(chain));
    }

    /** Clears the last used slot, which no list refers to any more. */
    method ReleaseLast(ghost was: seq<Slot>)
      requires Linked(mem, order) && Compact(mem, chain, was, free)
      requires free > 0 && firstFree == Some(Slot(Head(chain), free))
      requires forall s :: s in order <==> s in was && s != Slot(Head(chain), free - 1)
      modifies this`mem, this`chain, this`firstFree, this`free
      ensures Stored() && firstFree.Some? && (chain != [] ==> free > 0)
      ensures forall s :: s in order ==> s in mem && mem[s] == old(mem[s])
    {
      var last := Slot(firstFree.value.arr, firstFree.value.idx - 1);
      LastUsedIsUsed(mem, chain, was, free);
      ReleaseKeepsCompact(mem, mem[last := ZERO_DESC], chain, was, order, free);
      ZeroedIsLinked(mem, order, last);
      mem := mem[last := ZERO_DESC];
      free := free - 1;
      firstFree := Some(last);
      if firstFree.value.idx == 0 && firstFree.value.arr != 0 {
        RemoveFirstBlockArray();
      }
    }

    /** block_list_remove: takes the block at position `i` off the list and frees its slot, moving the
        last used descriptor into it if it is another one. Returns the predecessor where it is now.
        The tree must not map the block any more. */
    method BlockListRemove(block: Slot, ghost i: nat) returns (prev: Option<Slot>)
      requires Stored() && (chain != [] ==> free > 0) && firstBlock == First(order)
      requires align % MIN_BLOCK_SIZE == 0 && ValidBlocks(Blocks(), align)
      requires i < |order| && order[i] == block
      requires blocks != null && blocks.Maps(mem, RemoveSlot(order, i))
      modifies this`mem, this`chain, this`firstFree, this`free, this`firstBlock, this`order, blocks
      ensures Consistent() && blocks == old(blocks)
      ensures Blocks() == RemoveAt(old(Blocks()), i) && |order| == |old(order)| - 1
      ensures prev == Before(order, i)
    {
      hide Linked, Compact, ValidBlocks, Represents, NoDuplicates, RemoveSlot, RemoveAt, Before, First, View;
      BlocksInList(mem, order, align);
      UpdateFirstBlockInfo();
      UsedSlotsExist(mem, chain, order, free, i);
      ghost var was := order;
      prev := Detach(block, i);
      prev := Refill(block, prev, RemoveSlot(was, i), i);
      ghost var mem1 := mem;
      ReleaseLast(was);
      KeptDescriptors(mem1, mem, order, blocks.entry, blocks.Level());
    }

    /** The second half: moves the last used descriptor into the slot left by `block`. */
    method Refill(block: Slot, before: Option<Slot>, ghost list: seq<Slot>, ghost i: nat) returns (prev: Option<Slot>)
      requires Linked(mem, list) && Compact(mem, chain, order, free) && firstBlock == First(list)
      requires i <= |list| && before == Before(list, i)
      requires block in order && block in mem && block !in list && NoDuplicates(list)
      requires forall s :: s in list <==> s in order && s != block
      requires align % MIN_BLOCK_SIZE == 0 && ValidBlocks(View(mem, list), align)
      requires blocks != null && blocks.Maps(mem, list)
      requires free > 0 && firstFree == Some(Slot(Head(chain), free)) && Slot(Head(chain), free - 1) in order
      modifies this`mem, this`firstBlock, this`order, blocks
      ensures Linked(mem, order) && Compact(mem, chain, old(order), free) && firstBlock == First(order)
      ensures |order| == |list| && prev == Before(order, i)
      ensures forall s :: s in order <==> s in old(order) && s != Slot(Head(chain), free - 1)
      ensures View(mem, order) == View(old(mem), list)
      ensures blocks.Maps(mem, order)
    {
      hide Linked, Compact, ValidBlocks, Represents, NoDuplicates, Before, First, View;
      var moving := Slot(firstFree.value.arr, firstFree.value.idx - 1);
      ghost var was, mem0 := order, mem;
      prev := before;
      if prev == Some(moving) {
        prev := Some(block);
      }
      order := list;
      if moving != block {
        ghost var j := IndexOf(list, moving);
        if firstBlock == Some(moving) {
          firstBlock := Some(block);
        }
        MoveLastInto(block, moving, list, j);
        SameFreeSlots(mem0, mem, chain, was, free);
        ReplacedEnds(list, j, block, i);
        order := list[j := block];
      } else {
        NotInList(list, moving, i);
      }
    }

    /** The first half of block_list_remove: the block leaves the list, not yet its slot. */
    method Detach(block: Slot, ghost i: nat) returns (prev: Option<Slot>)
      requires Linked(mem, order) && Compact(mem, chain, order, free) && firstBlock == First(order)
      requires ValidBlocks(Blocks(), align)
      requires i < |order| && order[i] == block
      requires blocks != null && blocks.Maps(mem, RemoveSlot(order, i))
      modifies this`mem, this`firstBlock
      ensures var list := RemoveSlot(order, i);
        && Linked(mem, list) && Compact(mem, chain, order, free)
        && firstBlock == First(list) && prev == Before(list, i)
        && |list| == |order| - 1 && block in mem && block !in list
        && (forall s :: s in list <==> s in order && s != block)
        && NoDuplicates(list)
        && View(mem, list) == RemoveAt(old(Blocks()), i) && ValidBlocks(View(mem, list), align)
        && blocks.Maps(mem, list)
    {
      hide Compact, ValidBlocks, Represents;
      ghost var mem0 := mem;
      UnlinkNeighbours(mem, order, i);
      UnlinkBlock(block, i);
      UnlinkedState(mem0, mem, order, i, align, blocks.entry, blocks.Level());
      SameFreeSlots(mem0, mem, chain, order, free);
      prev := mem[block].prev;
      if firstBlock == Some(block) {
        firstBlock := mem[block].next;
      }
    }

    /** Takes a block out of the tree; the list still has it. */
    method DropFromTree(s: Slot, ghost i: nat)
      requires Consistent() && i < |order| && order[i] == s
      modifies blocks
      ensures blocks.Maps(mem, RemoveSlot(order, i))
    {
      hide Linked, Compact, ValidBlocks, Represents, LookupIn;
      ghost var e, k := blocks.entry, blocks.Level();
      BlockExtentInTree(e, k, mem, order, align, i);
      UnlinkNeighbours(mem, order, i);
      assert forall o: nat :: LookupIn(e, k, o) == blocks.Lookup(o);
      blocks.RemoveBlock(s, mem[s].offset, mem[s].size);
      assert forall o: nat :: LookupIn(blocks.entry, blocks.Level(), o) == blocks.Lookup(o);
      DroppedFromTree(e, k, blocks.entry, blocks.Level(), mem, order, i);
    }

    /** Takes a block out of the tree and off the list. */
    method RemoveBlockAt(s: Slot, ghost i: nat) returns (prev: Option<Slot>)
      requires Consistent() && i < |order| && order[i] == s
      modifies this`mem, this`chain, this`firstFree, this`free, this`firstBlock, this`order, blocks
      ensures Consistent() && blocks == old(blocks)
      ensures Blocks() == RemoveAt(old(Blocks()), i) && |order| == |old(order)| - 1
      ensures prev == Before(order, i)
    {
      hide Linked, Compact, ValidBlocks, Represents, RemoveSlot, RemoveAt, Before, First;
      DropFromTree(s, i);
      prev := BlockListRemove(s, i);
    }

    /** Replaces the data of a block, and nothing else of it but its INITIALIZED flag. */
    method SetData(s: Slot, data: seq<Byte>, initialized: bool, ghost i: nat)
      requires Consistent() && i < |order| && order[i] == s && |data| == mem[s].size
      modifies this`mem
      ensures Consistent() && Blocks() == old(Blocks())[i := old(Blocks())[i].(data := data, initialized := initialized)]
    {
      hide Compact, ValidBlocks, Represents, View;
      ghost var mem0 := mem;
      mem := mem[s := mem[s].(data := data, initialized := initialized)];
      FilledStore(mem0, mem, chain, order, free, s);
      UpdatedView(mem0, mem, order, i, align);
      RepresentsSame(blocks.entry, blocks.Level(), mem0, mem, order, order);
    }

    /** The contents of newly allocated memory are arbitrary. */
    static method NewData(size: nat) returns (data: seq<Byte>)
      ensures |data| == size
    {
      assert |seq(size, _ => 0 as Byte)| == size;
      data :| |data| == size;
    }

    /** The linking part of block_list_insert_after. */
    method LinkIn(prev: Option<Slot>, s: Slot, ghost i: nat)
      requires Linked(mem, order) && firstBlock == First(order)
      requires s in mem && s !in order && mem[s] == ZERO_DESC
      requires i <= |order| && prev == Before(order, i)
      modifies this`mem, this`firstBlock
      ensures mem == InsertedAt(old(mem), order, i, s) && firstBlock == First(InsertSlot(order, i, s))
    {
      if prev == None {
        if firstBlock.Some? {
          mem := SetNext(mem, Some(s), firstBlock);
          mem := SetPrev(mem, firstBlock, Some(s));
        }
        firstBlock := Some(s);
      } else {
        LinksAt(mem, order, i - 1);
        mem := SetPrev(mem, Some(s), prev);
        mem := SetNext(mem, Some(s), mem[prev.value].next);
        mem := SetNext(mem, prev, Some(s));
        if mem[s].next.Some? {
          mem := SetPrev(mem, mem[s].next, Some(s));
        }
      }
    }
  }

  /** A block may go to position `i`: aligned, and clear of both neighbours. */
  ghost predicate FitsAt(bs: seq<Block>, align: nat, i: nat, offset: nat, size: nat)
    requires align > 0 && i <= |bs|
  {
    && size > 0 && Multiple(offset, align) && Multiple(size, align)
    && (i > 0 ==> bs[i - 1].End() <= offset)
    && (i < |bs| ==> offset + size <= bs[i].offset)
    && offset + size < END_LIMIT
  }

  lemma HoleIsUnmapped(e: Entry, k: nat, mem: Memory, order: seq<Slot>, align: nat, i: nat, offset: nat, size: nat)
    requires WellFormed(e, k) && (forall s :: s in order ==> s in mem) && Represents(e, k, mem, order)
    requires ValidBlocks(View(mem, order), align) && align % MIN_BLOCK_SIZE == 0
    requires i <= |order| && FitsAt(View(mem, order), align, i, offset, size)
    ensures Aligned(offset) && Aligned(size) && size > 0 && offset + size < END_LIMIT
    ensures forall o: nat :: offset <= o < offset + size ==> LookupIn(e, k, o) == None
  {
    MultipleOfMultiple(offset, align);
    MultipleOfMultiple(size, align);
    forall o: nat | offset <= o < offset + size
      ensures LookupIn(e, k, o) == None
    {
      forall j | 0 <= j < |order|
        ensures !Covers(mem[order[j]], o)
      {
        NotInHole(View(mem, order), align, i, offset, size, j, o);
      }
    }
  }

  lemma NotInHole(bs: seq<Block>, align: nat, i: nat, offset: nat, size: nat, j: nat, o: nat)
    requires ValidBlocks(bs, align) && i <= |bs| && FitsAt(bs, align, i, offset, size)
    requires j < |bs| && offset <= o < offset + size
    ensures !Holds(bs[j], o)
  {
    assert j < i - 1 ==> bs[j].End() <= bs[i - 1].offset;
    assert j > i ==> bs[i].End() <= bs[j].offset;
  }

  /** Filling a descriptor in leaves the links and the free slots alone. */
  lemma FilledStore(mem: Memory, mem': Memory, chain: seq<nat>, order: seq<Slot>, free: nat, s: Slot)
    requires Linked(mem, order) && Compact(mem, chain, order, free) && s in order && s in mem
    requires s in mem' && mem' == mem[s := mem'[s]] && mem'[s].prev == mem[s].prev && mem'[s].next == mem[s].next
    ensures Linked(mem', order) && Compact(mem', chain, order, free)
  {
  }

  lemma FilledView(mem: Memory, order: seq<Slot>, mem': Memory, order': seq<Slot>, i: nat, s: Slot)
    requires (forall t :: t in order ==> t in mem) && i <= |order| && order' == InsertSlot(order, i, s)
    requires forall t :: t in order' ==> t in mem'
    requires SamePayloadOn(mem, mem', order) && s in mem'
    ensures View(mem', order') == InsertAt(View(mem, order), i, BlockOf(mem'[s]))
  {
    var bs, r := View(mem, order), View(mem', order');
    forall j | 0 <= j < |order'|
      ensures r[j] == InsertAt(bs, i, BlockOf(mem'[s]))[j]
    {
      if j < i {
        assert order'[j] == order[j] && order[j] in order;
      } else if j > i {
        assert order'[j] == order[j - 1] && order[j - 1] in order;
      }
    }
  }

  lemma InsertKeepsValid(bs: seq<Block>, align: nat, i: nat, b: Block)
    requires ValidBlocks(bs, align) && i <= |bs| && FitsAt(bs, align, i, b.offset, b.size) && |b.data| == b.size
    ensures ValidBlocks(InsertAt(bs, i, b), align)
  {
    InsertKeepsOrder(bs, i, b);
    var r := InsertAt(bs, i, b);
    forall j | 0 <= j < |r|
      ensures Multiple(r[j].offset, align) && Multiple(r[j].size, align) && r[j].End() < END_LIMIT
    {
      assert r[j] == if j < i then bs[j] else if j == i then b else bs[j - 1];
    }
  }

  /** The file after a block was linked in (`linked`) and filled (`mem`). */
  lemma AddedBlock(was: Memory, wasOrder: seq<Slot>, linked: Memory, mem: Memory, chain: seq<nat>, order: seq<Slot>, free: nat,
                   i: nat, s: Slot, align: nat)
    requires (forall t :: t in wasOrder ==> t in was) && i <= |wasOrder| && order == InsertSlot(wasOrder, i, s)
    requires Linked(linked, order) && Compact(linked, chain, order, free) && s in linked && s !in wasOrder
    requires SamePayloadOn(was, linked, wasOrder)
    requires s in mem && mem == linked[s := mem[s]] && mem[s].prev == linked[s].prev && mem[s].next == linked[s].next
    requires ValidBlocks(View(was, wasOrder), align)
    requires FitsAt(View(was, wasOrder), align, i, mem[s].offset, mem[s].size) && |mem[s].data| == mem[s].size
    ensures Linked(mem, order) && Compact(mem, chain, order, free)
    ensures View(mem, order) == InsertAt(View(was, wasOrder), i, BlockOf(mem[s]))
    ensures ValidBlocks(View(mem, order), align)
  {
    InsertedElements(wasOrder, i, s);
    FilledStore(linked, mem, chain, order, free, s);
    FilledView(was, wasOrder, mem, order, i, s);
    InsertKeepsValid(View(was, wasOrder), align, i, BlockOf(mem[s]));
  }

  lemma AddedToTree(e: Entry, k: nat, e': Entry, k': nat, was: Memory, linked: Memory, mem: Memory,
                    wasOrder: seq<Slot>, order: seq<Slot>, i: nat, s: Slot)
    requires WellFormed(e, k) && WellFormed(e', k')
    requires (forall t :: t in wasOrder ==> t in was) && Represents(e, k, was, wasOrder)
    requires i <= |wasOrder| && order == InsertSlot(wasOrder, i, s) && s in mem && s !in wasOrder
    requires SamePayloadOn(was, linked, wasOrder) && mem == linked[s := mem[s]]
    requires forall o: nat :: mem[s].offset <= o < mem[s].offset + mem[s].size ==> LookupIn(e, k, o) == None
    requires forall o: nat :: LookupIn(e', k', o) ==
               if mem[s].offset <= o < mem[s].offset + mem[s].size then Some(s) else LookupIn(e, k, o)
    ensures (forall t :: t in order ==> t in mem) && Represents(e', k', mem, order)
  {
    InsertedElements(wasOrder, i, s);
    RepresentsMore(e, k, e', k', was, mem, wasOrder, order, s);
  }

  /** A listed block is mapped exactly on its own, aligned extent. */
  lemma BlockExtentInTree(e: Entry, k: nat, mem: Memory, order: seq<Slot>, align: nat, j: nat)
    requires WellFormed(e, k) && (forall s :: s in order ==> s in mem) && Represents(e, k, mem, order)
    requires ValidBlocks(View(mem, order), align) && align % MIN_BLOCK_SIZE == 0 && j < |order|
    ensures var d := mem[order[j]];
      && d.size > 0 && Aligned(d.offset) && Aligned(d.size) && d.offset + d.size < END_LIMIT
      && forall o: nat :: LookupIn(e, k, o) == Some(order[j]) <==> d.offset <= o < d.offset + d.size
  {
    var b := View(mem, order)[j];
    assert order[j] in order;
    assert Multiple(b.offset, align) && Multiple(b.size, align) && b.End() < END_LIMIT && b.size > 0;
    MultipleOfMultiple(b.offset, align);
    MultipleOfMultiple(b.size, align);
  }

  lemma MovedView(mem: Memory, mem': Memory, list: seq<Slot>, j: nat, dst: Slot)
    requires (forall s :: s in list ==> s in mem) && j < |list| && dst !in list && NoDuplicates(list)
    requires mem'.Keys == mem.Keys && dst in mem && mem'[dst] == mem[list[j]]
    requires forall t :: t in mem && t != dst ==> SamePayload(mem[t], mem'[t])
    ensures forall s :: s in list[j := dst] ==> s in mem'
    ensures View(mem', list[j := dst]) == View(mem, list)
  {
    var list' := list[j := dst];
    forall q | 0 <= q < |list|
      ensures list'[q] in mem' && BlockOf(mem'[list'[q]]) == BlockOf(mem[list[q]])
    {
      assert list[q] in list;
    }
  }

  lemma MovedInTree(e: Entry, k: nat, e': Entry, k': nat, mem: Memory, mem': Memory, list: seq<Slot>, j: nat, dst: Slot)
    requires WellFormed(e, k) && WellFormed(e', k')
    requires (forall s :: s in list ==> s in mem) && Represents(e, k, mem, list)
    requires j < |list| && dst !in list && NoDuplicates(list)
    requires mem'.Keys == mem.Keys && dst in mem && mem'[dst] == mem[list[j]]
    requires forall t :: t in mem && t != dst ==> SamePayload(mem[t], mem'[t])
    requires forall o: nat :: LookupIn(e', k', o) ==
               if mem'[dst].offset <= o < mem'[dst].offset + mem'[dst].size then Some(dst) else LookupIn(e, k, o)
    ensures (forall s :: s in list[j := dst] ==> s in mem') && Represents(e', k', mem', list[j := dst])
  {
    var list' := list[j := dst];
    ReplacedElements(list, j, dst);
    assert list[j] in list;
    forall o: nat
      ensures LookupIn(e', k', o).Some? ==> LookupIn(e', k', o).value in list' && Covers(mem'[LookupIn(e', k', o).value], o)
    {
      if LookupIn(e', k', o).Some? && !Covers(mem'[dst], o) {
        var t := LookupIn(e, k, o).value;
        assert t in list && Covers(mem[t], o);
        assert t != list[j];
      }
    }
    forall t, o: nat | t in list' && Covers(mem'[t], o)
      ensures LookupIn(e', k', o) == Some(t)
    {
      if t != dst {
        assert t in list && Covers(mem[t], o) && LookupIn(e, k, o) == Some(t);
        assert !Covers(mem[list[j]], o);
      }
    }
  }

  lemma ZeroedIsLinked(mem: Memory, order: seq<Slot>, s: Slot)
    requires Linked(mem, order) && s in mem && s !in order
    ensures Linked(mem[s := ZERO_DESC], order)
  {
  }

  lemma SameFreeSlots(mem: Memory, mem': Memory, chain: seq<nat>, order: seq<Slot>, free: nat)
    requires Compact(mem, chain, order, free) && mem'.Keys == mem.Keys
    requires forall t :: t in mem && t !in order ==> mem'[t] == mem[t]
    ensures Compact(mem', chain, order, free)
  {
  }

  lemma BlocksInList(mem: Memory, order: seq<Slot>, align: nat)
    requires Linked(mem, order) && ValidBlocks(View(mem, order), align)
    ensures NoDuplicates(order) && forall s :: s in order ==> s in mem && mem[s].size > 0
  {
    BlocksAreUsed(mem, order, align);
  }

  lemma ReplacedEnds(list: seq<Slot>, j: nat, dst: Slot, i: nat)
    requires j < |list| && i <= |list| && NoDuplicates(list) && dst !in list
    ensures First(list[j := dst]) == if First(list) == Some(list[j]) then Some(dst) else First(list)
    ensures Before(list[j := dst], i) == if Before(list, i) == Some(list[j]) then Some(dst) else Before(list, i)
    ensures |list[j := dst]| == |list|
    ensures forall t :: t in list[j := dst] <==> t == dst || (t in list && t != list[j])
  {
    ReplacedElements(list, j, dst);
  }

  lemma UpdatedView(mem: Memory, mem': Memory, order: seq<Slot>, i: nat, align: nat)
    requires Linked(mem, order) && i < |order| && ValidBlocks(View(mem, order), align)
    requires mem'.Keys == mem.Keys && mem' == mem[order[i] := mem'[order[i]]]
    requires SameExtent(BlockOf(mem[order[i]]), BlockOf(mem'[order[i]]))
    ensures View(mem', order) == View(mem, order)[i := BlockOf(mem'[order[i]])]
    ensures ValidBlocks(View(mem', order), align)
  {
    assert View(mem', order) == View(mem, order)[i := BlockOf(mem'[order[i]])];
    UpdateKeepsOrder(View(mem, order), i, BlockOf(mem'[order[i]]));
  }

  lemma DroppedFromTree(e: Entry, k: nat, e': Entry, k': nat, mem: Memory, order: seq<Slot>, i: nat)
    requires WellFormed(e, k) && WellFormed(e', k') && i < |order|
    requires (forall s :: s in order ==> s in mem) && Represents(e, k, mem, order)
    requires forall s :: s in RemoveSlot(order, i) <==> s in order && s != order[i]
    requires forall o: nat :: LookupIn(e', k', o) ==
               if mem[order[i]].offset <= o < mem[order[i]].offset + mem[order[i]].size then None else LookupIn(e, k, o)
    ensures Represents(e', k', mem, RemoveSlot(order, i))
  {
    RepresentsLess(e, k, e', k', mem, mem, order, RemoveSlot(order, i), order[i]);
  }

  lemma NotInList(list: seq<Slot>, s: Slot, i: nat)
    requires s !in list && i <= |list|
    ensures Before(list, i) != Some(s)
  {
  }

  lemma KeptDescriptors(mem: Memory, mem': Memory, order: seq<Slot>, e: Entry, k: nat)
    requires forall s :: s in order ==> s in mem && s in mem' && mem'[s] == mem[s]
    requires WellFormed(e, k) && Represents(e, k, mem, order)
    ensures View(mem', order) == View(mem, order) && Represents(e, k, mem', order)
  {
    assert View(mem', order) == View(mem, order);
    RepresentsSame(e, k, mem, mem', order, order);
  }

  /** A file with a block has a used slot in its head array. */
  lemma UsedSlotsExist(mem: Memory, chain: seq<nat>, order: seq<Slot>, free: nat, i: nat)
    requires Linked(mem, order) && Compact(mem, chain, order, free) && (chain != [] ==> free > 0) && i < |order|
    ensures free > 0 && Slot(Head(chain), free - 1) in order && order[i] in mem
  {
    assert order[i] in order;
    assert order[i] in mem && InArrays(chain, order[i]) && !IsFree(chain, free, order[i]);
    LastUsedIsUsed(mem, chain, order, free);
  }

  lemma UnlinkNeighbours(mem: Memory, order: seq<Slot>, i: nat)
    requires Linked(mem, order) && i < |order|
    ensures mem[order[i]].prev == Before(order, i) && mem[order[i]].next == After(order, i)
    ensures First(RemoveSlot(order, i)) == if i == 0 then After(order, 0) else First(order)
    ensures Before(RemoveSlot(order, i), i) == Before(order, i)
    ensures First(order) == Some(order[i]) <==> i == 0
    ensures NoDuplicates(RemoveSlot(order, i)) && order[i] !in RemoveSlot(order, i)
    ensures forall s :: s in RemoveSlot(order, i) <==> s in order && s != order[i]
  {
    LinksAt(mem, order, i);
    RemovedOrder(order, i);
  }

  lemma UnlinkedState(mem: Memory, mem': Memory, order: seq<Slot>, i: nat, align: nat, e: Entry, k: nat)
    requires i < |order| && (forall s :: s in order ==> s in mem) && SamePayloads(mem, mem')
    requires ValidBlocks(View(mem, order), align)
    requires forall s :: s in RemoveSlot(order, i) ==> s in mem
    requires WellFormed(e, k) && Represents(e, k, mem, RemoveSlot(order, i))
    ensures forall s :: s in RemoveSlot(order, i) ==> s in mem'
    ensures View(mem', RemoveSlot(order, i)) == RemoveAt(View(mem, order), i)
    ensures ValidBlocks(View(mem', RemoveSlot(order, i)), align)
    ensures Represents(e, k, mem', RemoveSlot(order, i))
  {
    var list := RemoveSlot(order, i);
    var bs, r := View(mem, order), View(mem', list);
    forall q | 0 <= q < |list|
      ensures r[q] == RemoveAt(bs, i)[q]
    {
      assert list[q] == order[if q < i then q else q + 1];
    }
    assert r == RemoveAt(bs, i);
    RemoveKeepsValid(bs, align, i);
    RepresentsSame(e, k, mem, mem', list, list);
  }

  lemma RemoveKeepsValid(bs: seq<Block>, align: nat, i: nat)
    requires ValidBlocks(bs, align) && i < |bs|
    ensures ValidBlocks(RemoveAt(bs, i), align)
  {
    RemoveKeepsOrder(bs, i);
    var r := RemoveAt(bs, i);
    assert forall j :: 0 <= j < |r| ==> r[j] == bs[if j < i then j else j + 1];
  }

  ghost function IndexOf(list: seq<Slot>, s: Slot): (j: nat)
    requires s in list
    ensures j < |list| && list[j] == s
  {
    var j :| 0 <= j < |list| && list[j] == s;
    j
  }

  lemma BlocksAreUsed(mem: Memory, order: seq<Slot>, align: nat)
    requires forall s :: s in order ==> s in mem
    requires ValidBlocks(View(mem, order), align)
    ensures forall s :: s in order ==> s in mem && mem[s].size > 0
  {
    forall s | s in order
      ensures s in mem && mem[s].size > 0
    {
      var i :| 0 <= i < |order| && order[i] == s;
      assert View(mem, order)[i].size > 0;
    }
  }

  lemma InsertedStore(mem: Memory, chain: seq<nat>, order: seq<Slot>, free: nat, i: nat, s: Slot)
    requires Linked(mem, order) && Compact(mem, chain, order, free) && i <= |order|
    requires free < Capacity(Head(chain)) && s == Slot(Head(chain), free) && s in mem && s !in order && mem[s] == ZERO_DESC
    ensures Linked(InsertedAt(mem, order, i, s), InsertSlot(order, i, s))
    ensures Compact(InsertedAt(mem, order, i, s), chain, InsertSlot(order, i, s), free + 1)
    ensures SamePayloads(mem, InsertedAt(mem, order, i, s))
  {
    InsertedIsLinked(mem, order, i, s);
    InsertedElements(order, i, s);
    InsertedFrame(mem, order, i, s);
    AcquireKeepsCompact(mem, InsertedAt(mem, order, i, s), chain, order, InsertSlot(order, i, s), free);
  }
}
