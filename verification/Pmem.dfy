/** Persistent memory behind a cache: stores, flushes and drains as steps, and what a crash may leave. */
module Pmem {
  import opened Layout

  datatype Field = Atime | Ctime | Mtime

  /** The slot selectors of an inode, one bit per double-buffered field, stored as one word. */
  datatype Slots = Slots(atime: bool, ctime: bool, mtime: bool, nlink: bool, size: bool, allocatedSpace: bool, flags: bool)

  /** Places that are written atomically: 8-byte words, and single bytes of block data. */
  datatype Loc =
    | SlotsAt
    | TimeAt(field: Field, slot: bool, nsec: bool)
    | SizeAt(slot: bool)
    | FlagAt(block: nat)
    | DataAt(block: nat, index: nat)

  datatype Word = Number(n: int) | Selectors(slots: Slots) | Initialized(set_: bool) | Data(byte: Byte)

  /** What is on the medium, and the stores since that no drain has yet confirmed. */
  datatype State = State(medium: Loc -> Word, written: set<(Loc, Word)>)

  /** A crash keeps any of the unconfirmed stores, place by place. */
  ghost predicate CanCrashTo(s: State, m: Loc -> Word) {
    forall l :: m(l) == s.medium(l) || (l, m(l)) in s.written
  }

  class Device {
    /** What the program reads. */
    var cache: Loc -> Word
    ghost var medium: Loc -> Word
    ghost var written: set<(Loc, Word)>
    /** Places flushed since they were last stored to. */
    ghost var flushed: set<Loc>
    /** The states after every step so far. */
    ghost var history: seq<State>

    /** Every store is confirmed. */
    ghost predicate Quiet()
      reads this
    {
      written == {} && flushed == {} && forall l :: cache(l) == medium(l)
    }

    ghost function Now(): State
      reads this
    {
      State(medium, written)
    }

    ghost predicate Coherent()
      reads this
    {
      forall l :: cache(l) == medium(l) || (l, cache(l)) in written
    }

    method Store(l: Loc, w: Word)
      requires Coherent()
      modifies this
      ensures Coherent() && medium == old(medium) && written == old(written) + {(l, w)} && flushed == old(flushed) - {l}
      ensures forall k :: cache(k) == if k == l then w else old(cache)(k)
      ensures history == old(history) + [Now()]
    {
      var c := cache;
      cache := k => if k == l then w else c(k);
      written := written + {(l, w)};
      flushed := flushed - {l};
      history := history + [Now()];
    }

    method Flush(ls: set<Loc>)
      requires Coherent()
      modifies this`flushed, this`history
      ensures Coherent() && flushed == old(flushed) + ls && history == old(history) + [Now()]
    {
      flushed := flushed + ls;
      history := history + [Now()];
    }

    method Drain()
      requires Coherent()
      modifies this`medium, this`written, this`flushed, this`history
      ensures Coherent() && flushed == {} && history == old(history) + [Now()]
      ensures forall l :: medium(l) == if l in old(flushed) then cache(l) else old(medium)(l)
      ensures written == set p | p in old(written) && p.0 !in old(flushed)
    {
      ghost var c, m, f := cache, medium, flushed;
      medium := l => if l in f then c(l) else m(l);
      written := set p | p in written && p.0 !in flushed;
      flushed := {};
      history := history + [Now()];
    }
  }

  /** All the stores not yet confirmed are among `news`. */
  ghost predicate Within(s: State, m0: Loc -> Word, news: set<(Loc, Word)>) {
    forall m, l :: CanCrashTo(s, m) ==> m(l) == m0(l) || (l, m(l)) in news
  }

  ghost predicate AllWithin(history: seq<State>, from: nat, m0: Loc -> Word, news: set<(Loc, Word)>) {
    forall k :: from <= k < |history| ==> Within(history[k], m0, news)
  }

  /** Stores `news`, whose places are distinct, then flushes them and drains: at every step a crash leaves
      each place old or new, and at the end all of them are new. */
  method Persist(d: Device, news: seq<(Loc, Word)>)
    requires d.Quiet() && forall i, j :: 0 <= i < j < |news| ==> news[i].0 != news[j].0
    modifies d
    ensures d.Quiet()
    ensures forall l, w :: (l, w) in news ==> d.medium(l) == w
    ensures forall l :: (forall w :: (l, w) !in news) ==> d.medium(l) == old(d.medium)(l)
    ensures old(d.history) <= d.history && AllWithin(d.history, |old(d.history)|, old(d.medium), set p | p in news)
  {
    ghost var m0, h0 := d.medium, |d.history|;
    ghost var all := set p | p in news;
    var i := 0;
    while i < |news|
      invariant 0 <= i <= |news| && d.Coherent() && d.medium == m0 && d.flushed == {}
      invariant d.written == set p | p in news[..i]
      invariant forall j :: 0 <= j < i ==> d.cache(news[j].0) == news[j].1
      invariant forall l :: (forall j :: 0 <= j < i ==> news[j].0 != l) ==> d.cache(l) == m0(l)
      invariant old(d.history) <= d.history && AllWithin(d.history, h0, m0, all)
    {
      d.Store(news[i].0, news[i].1);
      i := i + 1;
    }
    var places := set p | p in news :: p.0;
    d.Flush(places);
    d.Drain();
  }
}
