/** A crash during a write, as the bytes of the file see it. */
module FileCrash {
  import opened Layout
  import opened Extents
  import opened FileBytes
  import opened Pmem
  import opened Crash
  import opened Commit
  import opened Pieces

  // ---------------------------------------------------------------- the pieces of a write

  /** Block `b` of the file is block `b` of the device. */
  function SizesOf(bs: seq<Block>): nat -> nat {
    (b: nat) => if b < |bs| then bs[b].size else 0
  }

  /** A piece covers bytes of the range only. */
  lemma {:induction false} CoversWithin(bs: seq<Block>, off: nat, data: seq<Byte>, ps: seq<Piece>, k: nat, b: nat, i: nat)
    requires Consecutive(bs, off, data, ps) && k < |ps| && ps[k].Covers(b, i)
    ensures b < |bs| && i < bs[b].size && off <= bs[b].offset + i < off + |data|
    decreases |ps|
  {
    if k < |ps| - 1 {
      var init := ps[..|ps| - 1];
      CoversWithin(bs, off, data[..|data| - |ps[|ps| - 1].bytes|], init, k, b, i);
    }
  }

  /** The pieces of a write lie inside their blocks and touch no byte twice. */
  lemma {:induction false} ConsecutiveIsProper(bs: seq<Block>, off: nat, data: seq<Byte>, ps: seq<Piece>)
    requires Consecutive(bs, off, data, ps)
    ensures ProperPieces(ps, SizesOf(bs))
    decreases |ps|
  {
    if ps != [] {
      var p, init := ps[|ps| - 1], ps[..|ps| - 1];
      var rest := data[..|data| - |p.bytes|];
      ConsecutiveIsProper(bs, off, rest, init);
      assert forall k :: 0 <= k < |init| ==> init[k] == ps[k];
      forall j, k, b: nat, i: nat | 0 <= j < k < |ps| && ps[j].Covers(b, i)
        ensures !ps[k].Covers(b, i)
      {
        if k < |init| {
          assert init[j].Covers(b, i) && init[k] == ps[k];
        } else {
          CoversWithin(bs, off, rest, init, j, b, i);
        }
      }
    }
  }

  /** Two blocks hold no offset together. */
  lemma OneBlock(bs: seq<Block>, a: nat, b: nat, i: nat, j: nat)
    requires Ordered(bs) && a < |bs| && b < |bs| && i < bs[a].size && j < bs[b].size && bs[a].offset + i == bs[b].offset + j
    ensures a == b
  {
  }

  /** What all pieces together do to a byte. */
  lemma {:induction false} LaidIs(bs: seq<Block>, off: nat, data: seq<Byte>, ps: seq<Piece>, b: nat, i: nat, old_: Byte)
    requires Ordered(bs) && Consecutive(bs, off, data, ps) && b < |bs| && i < bs[b].size
    ensures var p := bs[b].offset + i;
      LaidAll(ps, b, i, old_) == if off <= p < off + |data| then data[p - off] else old_
    decreases |ps|
  {
    if ps != [] {
      var p, init := ps[|ps| - 1], ps[..|ps| - 1];
      var n := |data| - |p.bytes|;
      LaidIs(bs, off, data[..n], init, b, i, old_);
      var at := bs[b].offset + i;
      if off + n <= at < off + |data| {
        OneBlock(bs, p.block, b, at - bs[p.block].offset, i);
        assert p.bytes[at - (off + n)] == data[n..][at - (off + n)];
      }
    }
  }

  // ---------------------------------------------------------------- the file on the medium

  /** The blocks of the file with the bytes that recovery finds in them. */
  ghost function FoundBlocks(m: Loc -> Word, bs: seq<Block>): (r: seq<Block>)
    ensures |r| == |bs|
  {
    seq(|bs|, b requires 0 <= b < |bs| => FoundBlock(m, b, bs[b]))
  }

  ghost function FoundBlock(m: Loc -> Word, b: nat, d: Block): Block {
    Block(d.offset, d.size, true, seq(d.size, i requires 0 <= i => Found(m, b, i)))
  }

  lemma FoundExtents(m: Loc -> Word, bs: seq<Block>)
    requires Ordered(bs)
    ensures SameExtents(bs, FoundBlocks(m, bs)) && Ordered(FoundBlocks(m, bs))
  {
  }

  /** The bytes of the file that recovery finds, up to the size that it finds. */
  ghost function FileAfter(m: Loc -> Word, bs: seq<Block>): seq<Byte>
    requires WellFormed(m) && Ordered(bs) && InodeOf(m).size >= 0
  {
    FoundExtents(m, bs);
    Bytes(FoundBlocks(m, bs), InodeOf(m).size)
  }

  lemma FoundContent(m: Loc -> Word, bs: seq<Block>, b: nat, p: nat)
    requires Ordered(bs) && b < |bs| && Holds(bs[b], p)
    ensures Ordered(FoundBlocks(m, bs)) && Content(FoundBlocks(m, bs), p) == Found(m, b, p - bs[b].offset)
  {
    FoundExtents(m, bs);
    ContentOf(FoundBlocks(m, bs), b, p);
  }

  lemma NothingFound(m: Loc -> Word, bs: seq<Block>, p: nat)
    requires Ordered(bs) && !Allocated(bs, p)
    ensures Ordered(FoundBlocks(m, bs)) && Content(FoundBlocks(m, bs), p) == 0
  {
    FoundExtents(m, bs);
    var cs := FoundBlocks(m, bs);
    forall i | 0 <= i < |cs|
      ensures !Holds(cs[i], p)
    {
      assert SameExtent(bs[i], cs[i]) && !Holds(bs[i], p);
    }
  }

  /** Once all pieces are on the medium, the content is the old one with the data laid over it. */
  lemma AllLaid(m0: Loc -> Word, m: Loc -> Word, bs: seq<Block>, off: nat, data: seq<Byte>, ps: seq<Piece>, p: nat)
    requires Ordered(bs) && Consecutive(bs, off, data, ps) && AllAllocated(bs, off, off + |data|)
    requires DataAfter(m0, m, ps, SizesOf(bs))
    ensures Ordered(FoundBlocks(m, bs)) && Ordered(FoundBlocks(m0, bs))
    ensures Content(FoundBlocks(m, bs), p) == if off <= p < off + |data| then data[p - off] else Content(FoundBlocks(m0, bs), p)
  {
    hide FoundBlocks, Content, Consecutive, LaidAll, Found, Ordered;
    if Allocated(bs, p) {
      var b: nat :| b < |bs| && Holds(bs[b], p);
      FoundContent(m, bs, b, p);
      FoundContent(m0, bs, b, p);
      LaidIs(bs, off, data, ps, b, p - bs[b].offset, Found(m0, b, p - bs[b].offset));
    } else {
      NothingFound(m, bs, p);
      NothingFound(m0, bs, p);
    }
  }

  /** On the way there each byte of the file is the old or the new one. */
  lemma SomeLaid(m0: Loc -> Word, m: Loc -> Word, bs: seq<Block>, off: nat, data: seq<Byte>, ps: seq<Piece>, p: nat)
    requires Ordered(bs) && Consecutive(bs, off, data, ps) && OldOrNew(m0, m, ps, SizesOf(bs))
    ensures Ordered(FoundBlocks(m, bs)) && Ordered(FoundBlocks(m0, bs))
    ensures var c, c0 := Content(FoundBlocks(m, bs), p), Content(FoundBlocks(m0, bs), p);
      c == c0 || (off <= p < off + |data| && c == data[p - off])
  {
    hide FoundBlocks, Content, Consecutive, LaidAll, Found, Ordered;
    if Allocated(bs, p) {
      var b: nat :| b < |bs| && Holds(bs[b], p);
      FoundContent(m, bs, b, p);
      FoundContent(m0, bs, b, p);
      LaidIs(bs, off, data, ps, b, p - bs[b].offset, Found(m0, b, p - bs[b].offset));
    } else {
      NothingFound(m, bs, p);
      NothingFound(m0, bs, p);
    }
  }

  // ---------------------------------------------------------------- crashes

  /** What a crash during the write of `data` at `off` may leave of a file that held `f`: the written file once the size
      is new, and until then the old size, with each byte old or new. */
  ghost predicate FileRecoverable(f: seq<Byte>, g: seq<Byte>, off: nat, data: seq<Byte>) {
    || g == WriteAt(f, off, data)
    || (|g| == |f| && forall p :: 0 <= p < |f| ==> g[p] == f[p] || (off <= p < off + |data| && g[p] == data[p - off]))
  }

  /** The state before the write: bytes past the size are zero. */
  ghost predicate FileOn(m: Loc -> Word, bs: seq<Block>) {
    && WellFormed(m) && Ordered(bs) && InodeOf(m).size >= 0 && Ordered(FoundBlocks(m, bs))
    && forall p: nat {:trigger Content(FoundBlocks(m, bs), p)} :: InodeOf(m).size <= p ==> Content(FoundBlocks(m, bs), p) == 0
  }

  lemma RecoveredFile(m0: Loc -> Word, m: Loc -> Word, bs: seq<Block>, off: nat, data: seq<Byte>, w: Write)
    requires FileOn(m0, bs) && Consecutive(bs, off, data, w.pieces) && AllAllocated(bs, off, off + |data|)
    requires data != [] && w.end == off + |data| && Recoverable(m0, m, w, SizesOf(bs))
    ensures InodeOf(m).size >= 0 && FileRecoverable(FileAfter(m0, bs), FileAfter(m, bs), off, data)
  {
    hide WellFormed, Found, Content, Ordered, Consecutive, AllAllocated, FoundBlocks, DataAfter, OldOrNew, InodeOf;
    FoundExtents(m, bs);
    var f, g := FileAfter(m0, bs), FileAfter(m, bs);
    if InodeOf(m).size != InodeOf(m0).size {
      if w.end > |f| {
        forall p | 0 <= p < |g|
          ensures g[p] == WriteAt(f, off, data)[p]
        {
          AllLaid(m0, m, bs, off, data, w.pieces, p);
        }
        assert g == WriteAt(f, off, data);
      }
    }
    forall p | 0 <= p < |f|
      ensures p < |g| ==> g[p] == f[p] || (off <= p < off + |data| && g[p] == data[p - off])
    {
      SomeLaid(m0, m, bs, off, data, w.pieces, p);
    }
  }

  /** Without a crash the file is the written one. */
  lemma WrittenFile(m0: Loc -> Word, m: Loc -> Word, bs: seq<Block>, off: nat, data: seq<Byte>, w: Write)
    requires FileOn(m0, bs) && Consecutive(bs, off, data, w.pieces) && AllAllocated(bs, off, off + |data|)
    requires data != [] && w.end == off + |data| && WellFormed(m) && InodeOf(m) == Finished(InodeOf(m0), w)
    requires DataAfter(m0, m, w.pieces, SizesOf(bs))
    ensures InodeOf(m).size >= 0 && FileAfter(m, bs) == WriteAt(FileAfter(m0, bs), off, data)
  {
    hide WellFormed, Found, Content, Ordered, Consecutive, AllAllocated, FoundBlocks, DataAfter, InodeOf;
    FoundExtents(m, bs);
    var f, g := FileAfter(m0, bs), FileAfter(m, bs);
    forall p | 0 <= p < |g|
      ensures g[p] == WriteAt(f, off, data)[p]
    {
      AllLaid(m0, m, bs, off, data, w.pieces, p);
    }
  }

  ghost predicate AllFilesRecoverable(history: seq<State>, from: nat, bs: seq<Block>, f: seq<Byte>, off: nat, data: seq<Byte>)
    requires Ordered(bs)
  {
    forall k, m {:trigger CanCrashTo(history[k], m)} :: from <= k < |history| && CanCrashTo(history[k], m) ==>
      WellFormed(m) && InodeOf(m).size >= 0 && FileRecoverable(f, FileAfter(m, bs), off, data)
  }

  /** The commit protocol with the pieces that a vectored write of `data` copies: at its end the file holds the data,
      and a crash at any step leaves the whole of it under the new size, or the old size. */
  method CommitFile(d: Device, w: Write, bs: seq<Block>, ghost off: nat, ghost data: seq<Byte>)
    requires d.Quiet() && FileOn(d.medium, bs) && Consecutive(bs, off, data, w.pieces) && AllAllocated(bs, off, off + |data|)
    requires data != [] && w.end == off + |data|
    modifies d
    ensures d.Quiet() && WellFormed(d.medium) && InodeOf(d.medium).size >= 0
    ensures FileAfter(d.medium, bs) == WriteAt(FileAfter(old(d.medium), bs), off, data)
    ensures old(d.history) <= d.history
    ensures AllFilesRecoverable(d.history, |old(d.history)|, bs, FileAfter(old(d.medium), bs), off, data)
  {
    hide Found, Content, Ordered, Consecutive, AllAllocated, FoundBlocks, DataAfter, OldOrNew, InodeOf, HoldsBytes, FileRecoverable,
         FileAfter, ProperPieces, Finished;
    ghost var m0, h0 := d.medium, |d.history|;
    ConsecutiveIsProper(bs, off, data, w.pieces);
    CommitWrite(d, w, SizesOf(bs));
    WrittenFile(m0, d.medium, bs, off, data, w);
    forall k, m | h0 <= k < |d.history| && CanCrashTo(d.history[k], m)
      ensures WellFormed(m) && InodeOf(m).size >= 0 && FileRecoverable(FileAfter(m0, bs), FileAfter(m, bs), off, data)
    {
      CrashRecovers(d.history, h0, k, m, m0, w, SizesOf(bs));
      RecoveredFile(m0, m, bs, off, data, w);
    }
  }

  lemma CrashRecovers(history: seq<State>, from: nat, k: nat, m: Loc -> Word, m0: Loc -> Word, w: Write, sizes: nat -> nat)
    requires WellFormed(m0) && AllRecoverable(history, from, m0, w, sizes) && from <= k < |history| && CanCrashTo(history[k], m)
    ensures Recoverable(m0, m, w, sizes)
  {
    hide Recoverable, WellFormed;
    assert StateRecoverable(history[k], m0, w, sizes);
  }
}
