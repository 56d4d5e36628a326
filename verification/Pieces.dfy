/** The copies a write makes into the blocks of a file, one after the other. */
module Pieces {
  import opened Layout
  import opened Extents

  /** The pieces hold `data`, in order and without a gap, at the file offsets from `off` on, each inside its block. */
  ghost predicate Consecutive(bs: seq<Block>, off: nat, data: seq<Byte>, ps: seq<Piece>)
    decreases |ps|
  {
    if ps == [] then data == []
    else
      var p := ps[|ps| - 1];
      var n := |data| - |p.bytes|;
      && p.bytes != [] && n >= 0 && InBlock(bs, p, off + n) && data[n..] == p.bytes
      && Consecutive(bs, off, data[..n], ps[..|ps| - 1])
  }

  /** The piece begins at this offset of the file and ends in the same block. */
  ghost predicate InBlock(bs: seq<Block>, p: Piece, off: nat) {
    p.block < |bs| && bs[p.block].offset + p.from == off && p.from + |p.bytes| <= bs[p.block].size
  }

  lemma ConsecutiveNext(bs: seq<Block>, off: nat, data: seq<Byte>, ps: seq<Piece>, p: Piece)
    requires Consecutive(bs, off, data, ps) && p.bytes != [] && InBlock(bs, p, off + |data|)
    ensures Consecutive(bs, off, data + p.bytes, ps + [p])
  {
    assert (ps + [p])[..|ps|] == ps && (data + p.bytes)[..|data|] == data && (data + p.bytes)[|data|..] == p.bytes;
  }

  /** Only the extents of the blocks matter. */
  lemma {:induction false} ConsecutiveSame(bs: seq<Block>, cs: seq<Block>, off: nat, data: seq<Byte>, ps: seq<Piece>)
    requires Consecutive(cs, off, data, ps) && SameExtents(bs, cs)
    ensures Consecutive(bs, off, data, ps)
    decreases |ps|
  {
    if ps != [] {
      var p := ps[|ps| - 1];
      assert SameExtent(bs[p.block], cs[p.block]);
      ConsecutiveSame(bs, cs, off, data[..|data| - |p.bytes|], ps[..|ps| - 1]);
    }
  }

  lemma {:induction false} ConsecutiveBoth(bs: seq<Block>, off: nat, data: seq<Byte>, ps: seq<Piece>, more: seq<Byte>, qs: seq<Piece>)
    requires Consecutive(bs, off, data, ps) && Consecutive(bs, off + |data|, more, qs)
    ensures Consecutive(bs, off, data + more, ps + qs)
    decreases |qs|
  {
    if qs == [] {
      assert ps + qs == ps && data + more == data;
    } else {
      var p, init := qs[|qs| - 1], qs[..|qs| - 1];
      var rest := more[..|more| - |p.bytes|];
      ConsecutiveBoth(bs, off, data, ps, rest, init);
      ConsecutiveNext(bs, off, data + rest, ps + init, p);
      assert ps + qs == ps + init + [p];
      assert data + more == data + rest + p.bytes;
    }
  }
}
