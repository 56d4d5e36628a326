/** Descriptor arrays of a file: one array inside the inode and a chain of further arrays (block_array.c). */
module BlockArray {
  import opened Layout
  import opened BlockList

  /** Descriptors that fit in the inode: (576 - 32) / 64. */
  const INODE_SLOTS: nat := 8
  /** Descriptors that fit in a 4096-byte metadata block: (4096 - 32) / 64. */
  const CHAINED_SLOTS: nat := 63

  function Capacity(arr: nat): (n: nat)
    ensures n > 0
  {
    if arr == 0 then INODE_SLOTS else CHAINED_SLOTS
  }

  /** The array that may have free slots: the first chained one, or the inode's if none is chained. */
  function Head(chain: seq<nat>): nat {
    if chain == [] then 0 else chain[0]
  }

  predicate InArrays(chain: seq<nat>, s: Slot) {
    (s.arr == 0 || s.arr in chain) && s.idx < Capacity(s.arr)
  }

  /** The free slots: the tail of the head array from index `free` on. */
  predicate IsFree(chain: seq<nat>, free: nat, s: Slot) {
    s.arr == Head(chain) && s.idx >= free
  }

  /** Every slot outside the tail of the head array is used, every slot in it is zeroed. */
  ghost predicate Compact(mem: Memory, chain: seq<nat>, order: seq<Slot>, free: nat) {
    && 0 !in chain
    && NoDuplicates(chain)
    && free <= Capacity(Head(chain))
    && (forall s {:trigger s in mem} :: s in mem <==> InArrays(chain, s))
    && (forall s {:trigger s in order} :: s in mem ==> (s in order <==> !IsFree(chain, free, s)))
    && (forall s {:trigger mem[s]} :: s in mem && s !in order ==> mem[s] == ZERO_DESC)
  }

  /** Taking the first free slot moves the boundary by one. */
  lemma AcquireKeepsCompact(mem: Memory, mem': Memory, chain: seq<nat>, order: seq<Slot>, order': seq<Slot>, free: nat)
    requires Compact(mem, chain, order, free) && free < Capacity(Head(chain))
    requires forall s :: s in order' <==> s in order || s == Slot(Head(chain), free)
    requires mem'.Keys == mem.Keys
    requires forall s :: s in mem && s !in order' ==> mem'[s] == mem[s]
    ensures Compact(mem', chain, order', free + 1)
  {
  }

  lemma FreeSlotIsZero(mem: Memory, chain: seq<nat>, order: seq<Slot>, free: nat)
    requires Compact(mem, chain, order, free) && free < Capacity(Head(chain))
    ensures Slot(Head(chain), free) in mem && Slot(Head(chain), free) !in order && mem[Slot(Head(chain), free)] == ZERO_DESC
  {
    var s := Slot(Head(chain), free);
    assert InArrays(chain, s);
    assert s in mem;
    assert s !in order;
  }

  lemma LastUsedIsUsed(mem: Memory, chain: seq<nat>, order: seq<Slot>, free: nat)
    requires Compact(mem, chain, order, free) && 0 < free
    ensures Slot(Head(chain), free - 1) in mem && Slot(Head(chain), free - 1) in order
  {
    var s := Slot(Head(chain), free - 1);
    assert InArrays(chain, s);
    assert s in mem;
    assert s in order <==> !IsFree(chain, free, s);
  }

  /** The memory with a zeroed array added. */
  function WithArray(mem: Memory, id: nat): (m: Memory) {
    mem + map i | 0 <= i < Capacity(id) :: Slot(id, i) := ZERO_DESC
  }

  lemma EmptyIsCompact()
    ensures Compact(WithArray(map[], 0), [], [], 0)
  {
    var mem := WithArray(map[], 0);
    forall s: Slot
      ensures s in mem <==> InArrays([], s)
    {
      match s
      case Slot(arr, idx) => assert s in mem <==> arr == 0 && idx < Capacity(0);
    }
  }

  lemma NewArrayKeepsCompact(mem: Memory, chain: seq<nat>, order: seq<Slot>, free: nat, id: nat)
    requires Compact(mem, chain, order, free) && free == Capacity(Head(chain))
    requires id != 0 && id !in chain && forall s :: s in order ==> s in mem
    ensures Compact(WithArray(mem, id), [id] + chain, order, 0)
    ensures forall s :: s in order ==> WithArray(mem, id)[s] == mem[s]
  {
    var mem', chain' := WithArray(mem, id), [id] + chain;
    forall s
      ensures s in mem' <==> InArrays(chain', s)
      ensures s in mem' ==> (s in order <==> !IsFree(chain', 0, s))
      ensures s in mem' && s !in order ==> mem'[s] == ZERO_DESC
    {
      if s.arr == id && s.idx < Capacity(id) {
        assert s == Slot(id, s.idx);
      } else {
        assert s in mem' <==> s in mem;
      }
      assert s in mem <==> InArrays(chain, s);
    }
  }

  /** Freeing the last used slot moves the boundary back by one. */
  lemma ReleaseKeepsCompact(mem: Memory, mem': Memory, chain: seq<nat>, order: seq<Slot>, order': seq<Slot>, free: nat)
    requires Compact(mem, chain, order, free) && 0 < free
    requires forall s :: s in order' <==> s in order && s != Slot(Head(chain), free - 1)
    requires mem'.Keys == mem.Keys && Slot(Head(chain), free - 1) in mem' && mem'[Slot(Head(chain), free - 1)] == ZERO_DESC
    requires forall s :: s in mem && s !in order ==> mem'[s] == mem[s]
    ensures Compact(mem', chain, order', free - 1)
  {
    forall s | s in mem'
      ensures s in order' <==> !IsFree(chain, free - 1, s)
    {
      assert s in order <==> !IsFree(chain, free, s);
    }
  }

  function WithoutArray(mem: Memory, id: nat): (m: Memory) {
    map s | s in mem && s.arr != id :: mem[s]
  }

  /** Unlinking an empty head array leaves the next array as a full head. */
  lemma DropArrayKeepsCompact(mem: Memory, chain: seq<nat>, order: seq<Slot>)
    requires Compact(mem, chain, order, 0) && chain != [] && forall s :: s in order ==> s in mem
    ensures Compact(WithoutArray(mem, chain[0]), chain[1..], order, Capacity(Head(chain[1..])))
    ensures forall s :: s in order ==> s in WithoutArray(mem, chain[0]) && WithoutArray(mem, chain[0])[s] == mem[s]
  {
    var mem', chain' := WithoutArray(mem, chain[0]), chain[1..];
    forall s
      ensures s in mem' <==> InArrays(chain', s)
      ensures s in mem' ==> (s in order <==> !IsFree(chain', Capacity(Head(chain')), s))
      ensures s in order ==> s in mem'
    {
      assert s in mem <==> InArrays(chain, s);
      assert s.arr in chain <==> s.arr == chain[0] || s.arr in chain';
      assert s in mem ==> (s in order <==> !IsFree(chain, 0, s));
    }
  }

  /** The used slots of the head array are exactly those before the first free one. */
  lemma HeadSlots(mem: Memory, chain: seq<nat>, order: seq<Slot>, free: nat)
    requires Compact(mem, chain, order, free)
    ensures forall i {:trigger Slot(Head(chain), i)} :: 0 <= i < Capacity(Head(chain)) ==> Slot(Head(chain), i) in mem
    ensures forall i {:trigger Slot(Head(chain), i)} :: 0 <= i < free ==> Slot(Head(chain), i) in order
    ensures free < Capacity(Head(chain)) ==> mem[Slot(Head(chain), free)] == ZERO_DESC
  {
    forall i {:trigger Slot(Head(chain), i)} | 0 <= i < Capacity(Head(chain))
      ensures Slot(Head(chain), i) in mem
      ensures i < free ==> Slot(Head(chain), i) in order
    {
      var s := Slot(Head(chain), i);
      assert InArrays(chain, s);
      assert s in mem ==> (s in order <==> !IsFree(chain, free, s));
    }
    if free < Capacity(Head(chain)) {
      FreeSlotIsZero(mem, chain, order, free);
    }
  }

  method FreshArrayId(chain: seq<nat>) returns (id: nat)
    ensures id != 0 && id !in chain
  {
    id := 1;
    for i := 0 to |chain|
      invariant id > 0 && forall j :: 0 <= j < i ==> chain[j] < id
    {
      if chain[i] >= id {
        id := chain[i] + 1;
      }
    }
  }
}
