/** Crash consistency of a write: the block copy of data.c and the two-slot commit of write.c. */
module Crash {
  import opened Layout
  import opened Pmem

  // ---------------------------------------------------------------- the bytes of a block

  ghost predicate IsInitialized(m: Loc -> Word, block: nat) {
    m(FlagAt(block)) == Initialized(true)
  }

  /** The byte a reader finds after recovery: zero unless the block is marked initialized. */
  ghost function Found(m: Loc -> Word, block: nat, i: nat): Byte {
    if IsInitialized(m, block) && m(DataAt(block, i)).Data? then m(DataAt(block, i)).byte else 0
  }

  /** The block's bytes are bytes. */
  ghost predicate HoldsBytes(m: Loc -> Word) {
    forall block, i: nat {:trigger m(DataAt(block, i))} :: m(DataAt(block, i)).Data?
  }

  /** The byte at `i` once the piece is written over `old`. */
  ghost function Laid(p: Piece, b: nat, i: nat, old_: Byte): Byte {
    if p.Covers(b, i) then p.bytes[i - p.from] else old_
  }

  ghost predicate SameInode(m0: Loc -> Word, m: Loc -> Word) {
    forall l: Loc :: l.SlotsAt? || l.TimeAt? || l.SizeAt? ==> m(l) == m0(l)
  }

  /** After a crash to `m`: nothing but this block may differ from `m0`, and each of its bytes is the one found
      before or the one being written, never what was in memory that no one had written. */
  ghost predicate BlockSafe(m0: Loc -> Word, m: Loc -> Word, p: Piece, size: nat) {
    && SameInode(m0, m)
    && (forall b, i: nat :: b != p.block ==> Found(m, b, i) == Found(m0, b, i))
    && (forall i: nat :: i < size ==> Found(m, p.block, i) == Found(m0, p.block, i) || Found(m, p.block, i) == Laid(p, p.block, i, Found(m0, p.block, i)))
    && HoldsBytes(m)
  }

  ghost predicate StateBlockSafe(s: State, m0: Loc -> Word, p: Piece, size: nat) {
    forall m :: CanCrashTo(s, m) ==> BlockSafe(m0, m, p, size)
  }

  ghost predicate AllBlockSafe(history: seq<State>, from: nat, m0: Loc -> Word, p: Piece, size: nat) {
    forall k :: from <= k < |history| ==> StateBlockSafe(history[k], m0, p, size)
  }

  /** The stores of a byte range. */
  function BytesAt(block: nat, from: nat, bytes: seq<Byte>): (news: seq<(Loc, Word)>)
    ensures |news| == |bytes|
    ensures forall i :: 0 <= i < |bytes| ==> news[i] == (DataAt(block, from + i), Data(bytes[i]))
  {
    seq(|bytes|, i requires 0 <= i < |bytes| => (DataAt(block, from + i), Data(bytes[i])))
  }

  /** Memory `m` is `m0` with the bytes stored. */
  ghost predicate Stored(m0: Loc -> Word, m: Loc -> Word, block: nat, from: nat, bytes: seq<Byte>) {
    forall l: Loc :: m(l) == if l.DataAt? && l.block == block && from <= l.index < from + |bytes| then Data(bytes[l.index - from]) else m0(l)
  }

  /** pmemobj_memset_persist or pmemobj_memcpy_persist into a block. */
  method CopyPersist(d: Device, block: nat, from: nat, bytes: seq<Byte>)
    requires d.Quiet()
    modifies d
    ensures d.Quiet() && Stored(old(d.medium), d.medium, block, from, bytes)
    ensures old(d.history) <= d.history && AllWithin(d.history, |old(d.history)|, old(d.medium), set p | p in BytesAt(block, from, bytes))
  {
    ghost var m0 := d.medium;
    var news := BytesAt(block, from, bytes);
    Persist(d, news);
    forall l
      ensures d.medium(l) == if l.DataAt? && l.block == block && from <= l.index < from + |bytes| then Data(bytes[l.index - from]) else m0(l)
    {
      if l.DataAt? && l.block == block && from <= l.index < from + |bytes| {
        assert news[l.index - from] == (l, Data(bytes[l.index - from]));
      }
    }
  }

  ghost predicate SameElsewhere(m0: Loc -> Word, m: Loc -> Word, block: nat) {
    forall l: Loc :: (l.DataAt? && l.block == block) || m(l) == m0(l)
  }

  /** While the block is not marked, storing into it changes nothing a reader finds. */
  lemma UnmarkedStoreSafe(m0: Loc -> Word, m1: Loc -> Word, s: State, p: Piece, size: nat, from: nat, bytes: seq<Byte>)
    requires HoldsBytes(m1) && !IsInitialized(m0, p.block) && !IsInitialized(m1, p.block)
    requires SameElsewhere(m0, m1, p.block)
    requires Within(s, m1, set q | q in BytesAt(p.block, from, bytes))
    ensures StateBlockSafe(s, m0, p, size)
  {
    var news := BytesAt(p.block, from, bytes);
    forall m | CanCrashTo(s, m)
      ensures BlockSafe(m0, m, p, size)
    {
      forall l
        ensures m(l) == m1(l) || (l.DataAt? && l.block == p.block && m(l).Data?)
      {
        assert m(l) == m1(l) || (l, m(l)) in news;
      }
    }
  }

  /** `m` differs from `m0` only in bytes of the piece. */
  ghost predicate PartlyWritten(m0: Loc -> Word, m: Loc -> Word, p: Piece) {
    forall l: Loc :: m(l) == m0(l) || (l.DataAt? && p.Covers(l.block, l.index) && m(l) == Data(p.bytes[l.index - p.from]))
  }

  lemma PartlyWrittenSafe(m0: Loc -> Word, m: Loc -> Word, p: Piece, size: nat)
    requires HoldsBytes(m0) && IsInitialized(m0, p.block) && PartlyWritten(m0, m, p)
    ensures BlockSafe(m0, m, p, size)
  {
    forall b, i: nat
      ensures m(DataAt(b, i)).Data? && IsInitialized(m, b) == IsInitialized(m0, b)
      ensures Found(m, b, i) == Found(m0, b, i) || (b == p.block && Found(m, b, i) == Laid(p, b, i, Found(m0, b, i)))
    {
      assert m(DataAt(b, i)) == m0(DataAt(b, i)) || p.Covers(b, i);
    }
  }

  /** Storing into a marked block: each byte is old or new. */
  lemma MarkedStoreSafe(m0: Loc -> Word, s: State, p: Piece, size: nat)
    requires HoldsBytes(m0) && IsInitialized(m0, p.block)
    requires Within(s, m0, set q | q in BytesAt(p.block, p.from, p.bytes))
    ensures StateBlockSafe(s, m0, p, size)
  {
    hide BlockSafe, HoldsBytes, IsInitialized;
    var news := BytesAt(p.block, p.from, p.bytes);
    forall m | CanCrashTo(s, m)
      ensures BlockSafe(m0, m, p, size)
    {
      assert forall l :: m(l) == m0(l) || (l, m(l)) in news;
      assert PartlyWritten(m0, m, p);
      PartlyWrittenSafe(m0, m, p, size);
    }
  }

  /** Setting the mark once all bytes are on the medium: the block is found as before or all new. */
  lemma MarkSafe(m0: Loc -> Word, m1: Loc -> Word, s: State, p: Piece, size: nat)
    requires HoldsBytes(m1) && !IsInitialized(m0, p.block)
    requires SameElsewhere(m0, m1, p.block)
    requires forall i: nat :: i < size ==> m1(DataAt(p.block, i)) == Data(Laid(p, p.block, i, 0))
    requires Within(s, m1, {(FlagAt(p.block), Initialized(true))})
    ensures StateBlockSafe(s, m0, p, size)
  {
    forall m | CanCrashTo(s, m)
      ensures BlockSafe(m0, m, p, size)
    {
      forall l
        ensures m(l) == m1(l) || (l == FlagAt(p.block) && m(l) == Initialized(true))
      {
        assert m(l) == m1(l) || (l, m(l)) in {(FlagAt(p.block), Initialized(true))};
      }
    }
  }

  /** write_block_range. At every step a crash leaves each byte of the block as it was found or as it is being
      written; at the end the piece is durably in place. */
  method WriteBlockRange(d: Device, p: Piece, size: nat)
    requires d.Quiet() && HoldsBytes(d.medium) && p.bytes != [] && p.from + |p.bytes| <= size
    modifies d
    ensures d.Quiet() && HoldsBytes(d.medium) && IsInitialized(d.medium, p.block)
    ensures old(d.history) <= d.history && AllBlockSafe(d.history, |old(d.history)|, old(d.medium), p, size)
    ensures SameInode(old(d.medium), d.medium)
    ensures forall b, i: nat :: (b != p.block || i < size) ==> Found(d.medium, b, i) == Laid(p, b, i, Found(old(d.medium), b, i))
  {
    if d.cache(FlagAt(p.block)) != Initialized(true) {
      WriteUnmarked(d, p, size);
    } else {
      WriteMarked(d, p, size);
    }
  }

  lemma StoredIsFound(m0: Loc -> Word, m: Loc -> Word, p: Piece)
    requires HoldsBytes(m0) && IsInitialized(m0, p.block) && Stored(m0, m, p.block, p.from, p.bytes)
    ensures HoldsBytes(m) && IsInitialized(m, p.block) && SameInode(m0, m)
    ensures forall b, i: nat :: Found(m, b, i) == Laid(p, b, i, Found(m0, b, i))
  {
    forall b, i: nat
      ensures m(DataAt(b, i)).Data? && IsInitialized(m, b) == IsInitialized(m0, b)
      ensures Found(m, b, i) == Laid(p, b, i, Found(m0, b, i))
    {
    }
  }

  method WriteMarked(d: Device, p: Piece, size: nat)
    requires d.Quiet() && HoldsBytes(d.medium) && p.from + |p.bytes| <= size && IsInitialized(d.medium, p.block)
    modifies d
    ensures d.Quiet() && HoldsBytes(d.medium) && IsInitialized(d.medium, p.block)
    ensures old(d.history) <= d.history && AllBlockSafe(d.history, |old(d.history)|, old(d.medium), p, size)
    ensures SameInode(old(d.medium), d.medium)
    ensures forall b, i: nat :: Found(d.medium, b, i) == Laid(p, b, i, Found(old(d.medium), b, i))
  {
    hide StateBlockSafe, Within, HoldsBytes, Stored, IsInitialized, Found, SameInode;
    ghost var m0, h0 := d.medium, |d.history|;
    CopyPersist(d, p.block, p.from, p.bytes);
    StoredIsFound(m0, d.medium, p);
    forall k | h0 <= k < |d.history|
      ensures StateBlockSafe(d.history[k], m0, p, size)
    {
      MarkedStoreSafe(m0, d.history[k], p, size);
    }
  }

  /** The first write to a block: zeros around the piece, the piece, and only then the mark. */
  method WriteUnmarked(d: Device, p: Piece, size: nat)
    requires d.Quiet() && HoldsBytes(d.medium) && p.bytes != [] && p.from + |p.bytes| <= size && !IsInitialized(d.medium, p.block)
    modifies d
    ensures d.Quiet() && HoldsBytes(d.medium) && IsInitialized(d.medium, p.block)
    ensures old(d.history) <= d.history && AllBlockSafe(d.history, |old(d.history)|, old(d.medium), p, size)
    ensures SameInode(old(d.medium), d.medium)
    ensures forall b, i: nat :: (b != p.block || i < size) ==> Found(d.medium, b, i) == Laid(p, b, i, Found(old(d.medium), b, i))
  {
    hide StateBlockSafe, Within, Found, HoldsBytes, SameInode, SameElsewhere;
    ghost var m0 := d.medium;
    Untouched(m0, p.block);
    var end := p.from + |p.bytes|;
    if p.from != 0 {
      CopyUnmarked(d, p, size, 0, Zeros(p.from), m0);
    }
    if size - end != 0 {
      CopyUnmarked(d, p, size, end, Zeros(size - end), m0);
    }
    CopyUnmarked(d, p, size, p.from, p.bytes, m0);
    ghost var m1, h1 := d.medium, |d.history|;
    assert forall i: nat :: i < size ==> m1(DataAt(p.block, i)) == Data(Laid(p, p.block, i, 0));
    Persist(d, [(FlagAt(p.block), Initialized(true))]);
    MarkedIsFound(m0, m1, d.medium, p, size);
    forall k | h1 <= k < |d.history|
      ensures StateBlockSafe(d.history[k], m0, p, size)
    {
      assert (set q | q in [(FlagAt(p.block), Initialized(true))]) == {(FlagAt(p.block), Initialized(true))};
      MarkSafe(m0, m1, d.history[k], p, size);
    }
  }

  lemma Untouched(m: Loc -> Word, block: nat)
    ensures SameElsewhere(m, m, block)
  {
  }

  lemma MarkedIsFound(m0: Loc -> Word, m1: Loc -> Word, m2: Loc -> Word, p: Piece, size: nat)
    requires HoldsBytes(m1) && !IsInitialized(m0, p.block) && SameElsewhere(m0, m1, p.block)
    requires forall i: nat :: i < size ==> m1(DataAt(p.block, i)) == Data(Laid(p, p.block, i, 0))
    requires m2(FlagAt(p.block)) == Initialized(true)
    requires forall l :: (forall w :: (l, w) !in [(FlagAt(p.block), Initialized(true))]) ==> m2(l) == m1(l)
    ensures HoldsBytes(m2) && IsInitialized(m2, p.block) && SameInode(m0, m2)
    ensures forall b, i: nat :: (b != p.block || i < size) ==> Found(m2, b, i) == Laid(p, b, i, Found(m0, b, i))
  {
    forall l | l != FlagAt(p.block)
      ensures m2(l) == m1(l)
    {
      assert forall w :: (l, w) !in [(FlagAt(p.block), Initialized(true))];
    }
  }

  method CopyUnmarked(d: Device, p: Piece, size: nat, from: nat, bytes: seq<Byte>, ghost m0: Loc -> Word)
    requires d.Quiet() && HoldsBytes(d.medium) && !IsInitialized(m0, p.block)
    requires SameElsewhere(m0, d.medium, p.block)
    modifies d
    ensures d.Quiet() && HoldsBytes(d.medium) && Stored(old(d.medium), d.medium, p.block, from, bytes)
    ensures SameElsewhere(m0, d.medium, p.block)
    ensures old(d.history) <= d.history && AllBlockSafe(d.history, |old(d.history)|, m0, p, size)
  {
    ghost var m1, h1 := d.medium, |d.history|;
    CopyPersist(d, p.block, from, bytes);
    forall k | h1 <= k < |d.history|
      ensures StateBlockSafe(d.history[k], m0, p, size)
    {
      UnmarkedStoreSafe(m0, m1, d.history[k], p, size, from, bytes);
    }
  }
}
