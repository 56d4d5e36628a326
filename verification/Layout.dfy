/** Values shared by every module: persistent block descriptors and the pointers to them. */
module Layout {

  datatype Option<+T> = None | Some(value: T)

  /** A byte of file data. */
  type Byte = bv8

  /** The smallest block a file may own; every block offset and size is a multiple of it. */
  const MIN_BLOCK_SIZE: nat := 0x4000

  const TWO_32: nat := 0x1_0000_0000
  const TWO_64: nat := 0x1_0000_0000_0000_0000

  /** Address of a block descriptor: the descriptor array it lives in and its index there.
      Array 0 is the one stored inside the inode. */
  datatype Slot = Slot(arr: nat, idx: nat)

  /** A block descriptor. A free descriptor is all zero, so its size is 0. */
  datatype Desc = Desc(data: seq<Byte>, size: nat, initialized: bool, offset: nat,
                       next: Option<Slot>, prev: Option<Slot>)

  const ZERO_DESC := Desc([], 0, false, 0, None, None)

  /** Descriptor memory: what a slot address points to. */
  type Memory = map<Slot, Desc>

  predicate Covers(d: Desc, off: nat) {
    d.offset <= off < d.offset + d.size
  }

  predicate Aligned(n: nat) {
    n % MIN_BLOCK_SIZE == 0
  }

  predicate Multiple(n: nat, m: nat)
    requires m > 0
  {
    n % m == 0
  }

  /** The slots of `order` hold granule-aligned, non-empty blocks in increasing, non-overlapping order. */
  ghost predicate Sorted(mem: Memory, order: seq<Slot>) {
    && (forall i :: 0 <= i < |order| ==> order[i] in mem)
    && (forall i :: 0 <= i < |order| ==>
          && mem[order[i]].size > 0
          && Aligned(mem[order[i]].size)
          && Aligned(mem[order[i]].offset))
    && (forall i, j :: 0 <= i < j < |order| ==>
          mem[order[i]].offset + mem[order[i]].size <= mem[order[j]].offset)
  }

  ghost function Before(order: seq<Slot>, i: int): Option<Slot>
    requires 0 <= i <= |order|
  {
    if i == 0 then None else Some(order[i - 1])
  }

  ghost function After(order: seq<Slot>, i: int): Option<Slot>
    requires -1 <= i < |order|
  {
    if i == |order| - 1 then None else Some(order[i + 1])
  }

  /** `prev` links of the slots in `order` point to the preceding slot of `order`. */
  ghost predicate PrevLinks(mem: Memory, order: seq<Slot>)
    requires forall i :: 0 <= i < |order| ==> order[i] in mem
  {
    forall i {:trigger Before(order, i)} :: 0 <= i < |order| ==>
      mem[order[i]].prev == Before(order, i)
  }

  /** The block a lookup of `off` must return: the one with the greatest offset not above `off`. */
  ghost predicate IsClosest(mem: Memory, order: seq<Slot>, off: nat, r: Option<Slot>)
    requires forall i :: 0 <= i < |order| ==> order[i] in mem
  {
    match r
    case None => forall i :: 0 <= i < |order| ==> off < mem[order[i]].offset
    case Some(s) =>
      && s in order
      && mem[s].offset <= off
      && forall i :: 0 <= i < |order| && mem[order[i]].offset <= off ==> mem[order[i]].offset <= mem[s].offset
  }

  function Zeros(n: nat): (z: seq<Byte>)
    ensures |z| == n && forall i :: 0 <= i < n ==> z[i] == 0
  {
    seq(n, _ => 0)
  }

  /** A copy into one block. */
  datatype Piece = Piece(block: nat, from: nat, bytes: seq<Byte>) {
    predicate Covers(b: nat, i: nat) {
      b == block && from <= i < from + |bytes|
    }
  }
}
