/** Which blocks vinode_allocate_interval adds: the places and sizes it chooses, as a property of the extents before and
    after, without the loop that finds them. An extent is the offset and the size of a block. */
module Placement {
  import opened Layout
  import opened Extents
  import opened BlockSizes

  /** What the code takes for the length of the gap before the first block: the interval, clipped where it reaches that
      block, and then cut to 32 bits. */
  function FirstGap(first: nat, lo: nat, hi: nat): (r: nat)
    requires lo < first && lo <= hi
    ensures r <= first - lo
  {
    if hi > first then (first - lo) % TWO_32 else hi - lo
  }

  /** A block of `x` bytes does not fit at `p`: the next block starts before its end, or it exceeds the first gap. */
  ghost predicate NoRoom(o: seq<(nat, nat)>, lo: nat, hi: nat, p: nat, x: nat) {
    || (exists e :: e in o && p < e.0 < p + x)
    || (o != [] && p == lo < o[0].0 && lo <= hi && x > FirstGap(o[0].0, lo, hi))
  }

  /** A block added to fill [lo, hi): the smallest size that reaches the end, or the largest that there is room for. */
  ghost predicate Chosen(sizes: seq<nat>, o: seq<(nat, nat)>, lo: nat, hi: nat, e: (nat, nat)) {
    && lo <= e.0 < hi && e.1 in sizes && !NoRoom(o, lo, hi, e.0, e.1)
    && (forall x :: x in sizes && e.0 + x >= hi ==> e.1 <= x)
    && (e.0 + e.1 < hi ==> forall x :: x in sizes && x > e.1 ==> NoRoom(o, lo, hi, e.0, x))
  }

  /** No extent is lost, and those added are chosen as above. */
  ghost predicate Placed(sizes: seq<nat>, o: seq<(nat, nat)>, r: seq<(nat, nat)>, lo: nat, hi: nat) {
    && (forall e :: e in o ==> e in r)
    && (forall e :: e in r && e !in o ==> Chosen(sizes, o, lo, hi, e))
  }

  // ---------------------------------------------------------------- the placement is determined

  predicate Covering(e: (nat, nat), p: nat) {
    e.0 <= p < e.0 + e.1
  }

  ghost predicate Disjoint(o: seq<(nat, nat)>) {
    forall e, f, p: nat :: e in o && f in o && Covering(e, p) && Covering(f, p) ==> e == f
  }

  ghost predicate Covered(o: seq<(nat, nat)>, p: nat) {
    exists e :: e in o && Covering(e, p)
  }

  /** The extents after an allocation: disjoint, without a hole in [lo, hi), and placed as the code places them. */
  ghost predicate Filled(sizes: seq<nat>, o: seq<(nat, nat)>, r: seq<(nat, nat)>, lo: nat, hi: nat) {
    && Placed(sizes, o, r, lo, hi) && Disjoint(r)
    && (forall e :: e in r ==> e.1 > 0)
    && (forall p: nat :: lo <= p < hi ==> Covered(r, p))
  }

  /** At one place there is only one choice. */
  lemma {:induction false} OneChoice(sizes: seq<nat>, o: seq<(nat, nat)>, lo: nat, hi: nat, e: (nat, nat), f: (nat, nat))
    requires Chosen(sizes, o, lo, hi, e) && Chosen(sizes, o, lo, hi, f) && e.0 == f.0
    ensures e == f
  {
    hide NoRoom;
  }

  /** What another placement covers the start of an added extent with was added there, too. */
  lemma {:induction false} CoveredByNew(sizes: seq<nat>, o: seq<(nat, nat)>, r: seq<(nat, nat)>, s: seq<(nat, nat)>, lo: nat, hi: nat, e: (nat, nat))
    returns (f: (nat, nat))
    requires Filled(sizes, o, r, lo, hi) && Filled(sizes, o, s, lo, hi) && e in r && e !in o
    ensures f in s && f !in o && Covering(f, e.0) && lo <= f.0 < hi
  {
    hide NoRoom;
    assert Chosen(sizes, o, lo, hi, e) && Covered(s, e.0);
    f :| f in s && Covering(f, e.0);
    assert f in o ==> f in r && f == e by {
      assert Covering(e, e.0);
    }
    assert Chosen(sizes, o, lo, hi, f);
  }

  lemma {:induction false} NewInBoth(sizes: seq<nat>, o: seq<(nat, nat)>, r: seq<(nat, nat)>, s: seq<(nat, nat)>, lo: nat, hi: nat, e: (nat, nat))
    requires Filled(sizes, o, r, lo, hi) && Filled(sizes, o, s, lo, hi) && e in r && e !in o
    ensures e in s
    decreases e.0
  {
    var f := CoveredByNew(sizes, o, r, s, lo, hi, e);
    hide Chosen, NoRoom;
    if f.0 == e.0 {
      OneChoice(sizes, o, lo, hi, e, f);
    } else {
      var g := CoveredByNew(sizes, o, s, r, lo, hi, f);
      NewInBoth(sizes, o, r, s, lo, hi, g);
      assert Covering(f, f.0) && Covering(g, f.0);
      assert g == f;
      assert Covering(e, e.0) && Covering(g, e.0);
    }
  }

  /** The extents before and the interval determine the extents after, whatever loop finds them. */
  lemma {:induction false} PlacementIsUnique(sizes: seq<nat>, o: seq<(nat, nat)>, r: seq<(nat, nat)>, s: seq<(nat, nat)>, lo: nat, hi: nat)
    requires Filled(sizes, o, r, lo, hi) && Filled(sizes, o, s, lo, hi)
    ensures forall e :: e in r <==> e in s
  {
    hide Chosen;
    forall e
      ensures e in r <==> e in s
    {
      if e in r && e !in o {
        NewInBoth(sizes, o, r, s, lo, hi, e);
      }
      if e in s && e !in o {
        NewInBoth(sizes, o, s, r, lo, hi, e);
      }
    }
  }

  /** One byte in an empty file: one block of the smallest size, and nothing else. */
  lemma {:induction false} OneSmallBlock(r: seq<(nat, nat)>)
    requires Filled(Default(false).Sizes(), [], r, 0, MIN_BLOCK_SIZE)
    ensures forall e :: e in r <==> e == (0, MIN_BLOCK_SIZE)
  {
    var s: seq<(nat, nat)> := [(0, MIN_BLOCK_SIZE)];
    forall p: nat | p < MIN_BLOCK_SIZE
      ensures Covered(s, p)
    {
      assert s[0] in s && Covering(s[0], p);
    }
    assert Filled(Default(false).Sizes(), [], s, 0, MIN_BLOCK_SIZE);
    PlacementIsUnique(Default(false).Sizes(), [], r, s, 0, MIN_BLOCK_SIZE);
  }

  // ---------------------------------------------------------------- blocks

  /** Progress of placing: the blocks from `n` on are old ones. */
  ghost predicate Placing(sizes: seq<nat>, bs0: seq<Block>, bs: seq<Block>, n: nat, lo: nat, hi: nat) {
    && Placed(sizes, Outline(bs0), Outline(bs), lo, hi)
    && (forall i :: n <= i < |bs| ==> (bs[i].offset, bs[i].size) in Outline(bs0))
  }

  /** `limit` is the largest size there is room for. */
  ghost predicate IsLimit(sizes: seq<nat>, o: seq<(nat, nat)>, lo: nat, hi: nat, p: nat, limit: nat) {
    forall x :: x in sizes ==> (x > limit <==> NoRoom(o, lo, hi, p, x))
  }

  lemma {:induction false} PlacingBegins(sizes: seq<nat>, bs: seq<Block>, n: nat, lo: nat, hi: nat)
    requires n <= |bs|
    ensures Placing(sizes, bs, bs, n, lo, hi)
  {
    forall i | n <= i < |bs|
      ensures (bs[i].offset, bs[i].size) in Outline(bs)
    {
      assert Outline(bs)[i] == (bs[i].offset, bs[i].size);
    }
  }

  lemma {:induction false} PlacingOn(sizes: seq<nat>, bs0: seq<Block>, bs: seq<Block>, n: nat, lo: nat, hi: nat)
    requires Placing(sizes, bs0, bs, n, lo, hi)
    ensures Placing(sizes, bs0, bs, n + 1, lo, hi)
  {
  }

  /** An extent of the result is that of a block. */
  lemma {:induction false} OutlineIn(bs: seq<Block>, e: (nat, nat)) returns (i: nat)
    requires e in Outline(bs)
    ensures i < |bs| && e == (bs[i].offset, bs[i].size)
  {
    i :| 0 <= i < |bs| && Outline(bs)[i] == e;
  }

  lemma {:induction false} OutlineHas(bs: seq<Block>, i: nat)
    requires i < |bs|
    ensures (bs[i].offset, bs[i].size) in Outline(bs)
  {
    assert Outline(bs)[i] == (bs[i].offset, bs[i].size);
  }

  lemma {:induction false} InsertedBlock(bs: seq<Block>, n: nat, b: Block, i: nat)
    requires n <= |bs| && i <= |bs|
    ensures InsertAt(bs, n, b)[i] == if i < n then bs[i] else if i == n then b else bs[i - 1]
  {
  }

  lemma {:induction false} OutlineAfter(bs: seq<Block>, n: nat, b: Block, i: nat)
    requires n <= |bs| && i <= |bs|
    ensures Outline(InsertAt(bs, n, b))[i] == if i < n then Outline(bs)[i] else if i == n then (b.offset, b.size) else Outline(bs)[i - 1]
  {
    InsertedBlock(bs, n, b, i);
  }

  lemma {:induction false} InsertedOutline(bs: seq<Block>, n: nat, b: Block)
    requires n <= |bs|
    ensures Outline(InsertAt(bs, n, b)) == Outline(bs)[..n] + [(b.offset, b.size)] + Outline(bs)[n..]
  {
    var r, s := Outline(InsertAt(bs, n, b)), Outline(bs)[..n] + [(b.offset, b.size)] + Outline(bs)[n..];
    hide Outline;
    forall i | 0 <= i < |r|
      ensures r[i] == s[i]
    {
      OutlineAfter(bs, n, b, i);
    }
  }

  lemma {:induction false} PlacingInsert(sizes: seq<nat>, bs0: seq<Block>, bs: seq<Block>, n: nat, lo: nat, hi: nat, b: Block)
    requires Placing(sizes, bs0, bs, n, lo, hi) && n <= |bs| && Chosen(sizes, Outline(bs0), lo, hi, (b.offset, b.size))
    ensures Placing(sizes, bs0, InsertAt(bs, n, b), n + 1, lo, hi)
  {
    hide Chosen, Outline;
    var r := InsertAt(bs, n, b);
    InsertedOutline(bs, n, b);
    var o := Outline(bs);
    assert o == o[..n] + o[n..];
    assert forall i :: n < i < |r| ==> r[i] == bs[i - 1];
  }

  /** The size that data_block_info picks. */
  lemma {:induction false} PickIsChosen(sizes: seq<nat>, o: seq<(nat, nat)>, lo: nat, p: nat, left: nat, limit: nat, b: nat)
    requires lo <= p && left > 0 && IsLimit(sizes, o, lo, p + left, p, limit) && b in sizes && b <= limit
    requires b >= left ==> forall x :: x in sizes && x >= left ==> b <= x
    requires b < left ==> forall x :: x in sizes && x <= limit ==> x <= b
    ensures Chosen(sizes, o, lo, p + left, (p, b))
  {
    hide NoRoom;
  }

  // ---------------------------------------------------------------- the limits of the code

  /** Where a block list with neighbours `n - 1` and `n` of `p` leaves room; `p` is in no block. */
  lemma {:induction false} NextIsOld(sizes: seq<nat>, bs0: seq<Block>, bs: seq<Block>, n: nat, lo: nat, hi: nat, p: nat, e: (nat, nat))
    requires Placing(sizes, bs0, bs, n, lo, hi) && Ordered(bs) && n <= |bs| && (n > 0 ==> bs[n - 1].offset <= p)
    requires e in Outline(bs0) && p < e.0
    ensures n < |bs| && bs[n].offset <= e.0
  {
    hide Placed, Outline;
    assert e in Outline(bs) by {
      StaysPlaced(sizes, bs0, bs, lo, hi, e);
    }
    var i := OutlineIn(bs, e);
    assert forall j :: 0 <= j < n - 1 ==> bs[j].End() <= bs[n - 1].offset;
    assert n < i ==> bs[n].End() <= bs[i].offset;
  }

  lemma {:induction false} StaysPlaced(sizes: seq<nat>, bs0: seq<Block>, bs: seq<Block>, lo: nat, hi: nat, e: (nat, nat))
    requires Placed(sizes, Outline(bs0), Outline(bs), lo, hi) && e in Outline(bs0)
    ensures e in Outline(bs)
  {
  }

  /** Behind a block the first gap does not matter. */
  lemma {:induction false} NotFirstGap(sizes: seq<nat>, bs0: seq<Block>, bs: seq<Block>, n: nat, lo: nat, hi: nat, p: nat)
    requires Placing(sizes, bs0, bs, n, lo, hi) && Ordered(bs0) && Ordered(bs) && 0 < n <= |bs|
    requires bs[n - 1].offset <= p && !Holds(bs[n - 1], p) && bs0 != []
    ensures p == lo ==> bs0[0].offset <= lo
  {
    if p == lo {
      var e := (bs[n - 1].offset, bs[n - 1].size);
      OutlineHas(bs, n - 1);
      assert e !in Outline(bs0) ==> Chosen(sizes, Outline(bs0), lo, hi, e);
      if e in Outline(bs0) {
        var i := OutlineIn(bs0, e);
        assert i > 0 ==> bs0[0].End() <= bs0[i].offset;
      }
    }
  }

  lemma {:induction false} LimitBetween(sizes: seq<nat>, bs0: seq<Block>, bs: seq<Block>, n: nat, lo: nat, hi: nat, p: nat)
    requires Placing(sizes, bs0, bs, n, lo, hi) && Ordered(bs0) && Ordered(bs) && 0 < n < |bs|
    requires bs[n - 1].offset <= p < bs[n].offset && !Holds(bs[n - 1], p)
    ensures IsLimit(sizes, Outline(bs0), lo, hi, p, bs[n].offset - p)
  {
    var o, e := Outline(bs0), (bs[n].offset, bs[n].size);
    assert e in o;
    NotFirstGap(sizes, bs0, bs, n, lo, hi, p);
    forall x | x in sizes
      ensures x > bs[n].offset - p <==> NoRoom(o, lo, hi, p, x)
    {
      if f :| f in o && p < f.0 < p + x {
        NextIsOld(sizes, bs0, bs, n, lo, hi, p, f);
      }
    }
  }

  lemma {:induction false} LimitAfter(sizes: seq<nat>, bs0: seq<Block>, bs: seq<Block>, lo: nat, hi: nat, p: nat, limit: nat)
    requires Placing(sizes, bs0, bs, |bs|, lo, hi) && Ordered(bs0) && Ordered(bs)
    requires if bs == [] then bs0 == [] else bs[|bs| - 1].offset <= p && !Holds(bs[|bs| - 1], p)
    requires forall x :: x in sizes ==> x <= limit
    ensures IsLimit(sizes, Outline(bs0), lo, hi, p, limit)
  {
    var o := Outline(bs0);
    if bs0 != [] && bs != [] {
      NotFirstGap(sizes, bs0, bs, |bs|, lo, hi, p);
    }
    forall x | x in sizes
      ensures !NoRoom(o, lo, hi, p, x)
    {
      if f :| f in o && p < f.0 < p + x {
        NextIsOld(sizes, bs0, bs, |bs|, lo, hi, p, f);
      }
    }
  }

  lemma {:induction false} LimitBefore(sizes: seq<nat>, bs: seq<Block>, lo: nat, hi: nat)
    requires Ordered(bs) && bs != [] && lo < bs[0].offset && lo <= hi
    ensures IsLimit(sizes, Outline(bs), lo, hi, lo, FirstGap(bs[0].offset, lo, hi))
  {
    var o := Outline(bs);
    assert o[0].0 == bs[0].offset;
    forall x | x in sizes
      ensures x > FirstGap(bs[0].offset, lo, hi) <==> NoRoom(o, lo, hi, lo, x)
    {
      if f :| f in o && lo < f.0 < lo + x {
        var i := OutlineIn(bs, f);
        assert i > 0 ==> bs[0].End() <= bs[i].offset;
      }
    }
  }
}
