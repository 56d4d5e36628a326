/** The crash protocol of pmemfile_pwritev_internal: the modification time first, then the data, then the new
    size and times, switched in by one store of the slot selectors. */
module Commit {
  import opened Layout
  import opened Pmem
  import opened Crash

  datatype Time = Time(sec: int, nsec: int)

  /** The fields of an inode as the selectors pick them. */
  datatype Inode = Inode(atime: Time, ctime: Time, mtime: Time, size: int, nlink: bool, allocatedSpace: bool, flags: bool)

  ghost predicate WellFormed(m: Loc -> Word) {
    && m(SlotsAt).Selectors?
    && (forall f, s, n {:trigger m(TimeAt(f, s, n))} :: m(TimeAt(f, s, n)).Number?)
    && (forall s {:trigger m(SizeAt(s))} :: m(SizeAt(s)).Number?)
    && HoldsBytes(m)
  }

  function Selected(slots: Slots, f: Field): bool {
    match f
    case Atime => slots.atime
    case Ctime => slots.ctime
    case Mtime => slots.mtime
  }

  ghost function TimeOf(m: Loc -> Word, f: Field): Time
    requires WellFormed(m)
  {
    var s := Selected(m(SlotsAt).slots, f);
    Time(m(TimeAt(f, s, false)).n, m(TimeAt(f, s, true)).n)
  }

  ghost function InodeOf(m: Loc -> Word): Inode
    requires WellFormed(m)
  {
    var s := m(SlotsAt).slots;
    Inode(TimeOf(m, Atime), TimeOf(m, Ctime), TimeOf(m, Mtime), m(SizeAt(s.size)).n, s.nlink, s.allocatedSpace, s.flags)
  }

  // ---------------------------------------------------------------- switching slots

  /** A place of the inode that the selectors do not pick. */
  predicate Spare(slots: Slots, l: Loc) {
    match l
    case TimeAt(f, s, _) => s != Selected(slots, f)
    case SizeAt(s) => s != slots.size
    case _ => false
  }

  ghost predicate SameData(m0: Loc -> Word, m: Loc -> Word) {
    forall l: Loc :: l.FlagAt? || l.DataAt? ==> m(l) == m0(l)
  }

  /** Writing spare places changes no field. */
  lemma SpareIsUnseen(m0: Loc -> Word, m: Loc -> Word)
    requires WellFormed(m0)
    requires forall l :: m(l) == m0(l) || (Spare(m0(SlotsAt).slots, l) && m(l).Number?)
    ensures WellFormed(m) && InodeOf(m) == InodeOf(m0) && SameData(m0, m)
  {
    assert m(SlotsAt) == m0(SlotsAt);
  }

  /** After a crash in the middle of a switch the fields are the ones before it or the ones after it. */
  ghost predicate Switching(s: State, m0: Loc -> Word, before: Inode, after: Inode) {
    forall m :: CanCrashTo(s, m) ==> WellFormed(m) && SameData(m0, m) && (InodeOf(m) == before || InodeOf(m) == after)
  }

  lemma SpareStage(s: State, m0: Loc -> Word, news: seq<(Loc, Word)>, after: Inode)
    requires WellFormed(m0) && Within(s, m0, set p | p in news)
    requires forall p :: p in news ==> Spare(m0(SlotsAt).slots, p.0) && p.1.Number?
    ensures Switching(s, m0, InodeOf(m0), after)
  {
    hide WellFormed, InodeOf, SameData, Spare;
    forall m | CanCrashTo(s, m)
      ensures WellFormed(m) && SameData(m0, m) && InodeOf(m) == InodeOf(m0)
    {
      assert forall l :: m(l) == m0(l) || (l, m(l)) in news;
      SpareIsUnseen(m0, m);
    }
  }

  lemma SameMemory(m0: Loc -> Word, m: Loc -> Word)
    requires WellFormed(m0) && forall l :: m(l) == m0(l)
    ensures WellFormed(m) && InodeOf(m) == InodeOf(m0) && SameData(m0, m)
  {
  }

  lemma SelectorStage(s: State, m0: Loc -> Word, m1: Loc -> Word, m2: Loc -> Word, slots: Slots)
    requires WellFormed(m1) && WellFormed(m2) && SameData(m0, m1)
    requires Within(s, m1, {(SlotsAt, Selectors(slots))})
    requires forall l :: m2(l) == if l == SlotsAt then Selectors(slots) else m1(l)
    ensures Switching(s, m0, InodeOf(m1), InodeOf(m2))
  {
    hide WellFormed, InodeOf;
    forall m | CanCrashTo(s, m)
      ensures WellFormed(m) && SameData(m0, m) && (InodeOf(m) == InodeOf(m1) || InodeOf(m) == InodeOf(m2))
    {
      assert forall l :: m(l) == m1(l) || (l, m(l)) in {(SlotsAt, Selectors(slots))};
      if m(SlotsAt) == m1(SlotsAt) {
        SameMemory(m1, m);
      } else {
        SameMemory(m2, m);
      }
    }
  }

  ghost predicate AllSwitching(history: seq<State>, from: nat, m0: Loc -> Word, before: Inode, after: Inode) {
    forall k :: from <= k < |history| ==> Switching(history[k], m0, before, after)
  }

  /** Persists new values in spare places and then, with one store, makes them the selected ones. Whenever a
      crash happens, all fields are as before or all are as after. */
  method Switch(d: Device, news: seq<(Loc, Word)>, slots: Slots)
    requires d.Quiet() && WellFormed(d.medium)
    requires forall i, j :: 0 <= i < j < |news| ==> news[i].0 != news[j].0
    requires forall p :: p in news ==> Spare(d.medium(SlotsAt).slots, p.0) && p.1.Number?
    modifies d
    ensures d.Quiet() && WellFormed(d.medium) && SameData(old(d.medium), d.medium) && d.medium(SlotsAt) == Selectors(slots)
    ensures forall l, w :: (l, w) in news ==> d.medium(l) == w
    ensures forall l :: l != SlotsAt && (forall w :: (l, w) !in news) ==> d.medium(l) == old(d.medium)(l)
    ensures old(d.history) <= d.history
    ensures AllSwitching(d.history, |old(d.history)|, old(d.medium), InodeOf(old(d.medium)), InodeOf(d.medium))
  {
    hide InodeOf, Switching, Within;
    ghost var m0, h0 := d.medium, |d.history|;
    Persist(d, news);
    ghost var m1, h1, spare := d.medium, |d.history|, d.history;
    PersistedSpare(m0, m1, news);
    Persist(d, [(SlotsAt, Selectors(slots))]);
    ghost var m2 := d.medium;
    assert forall l :: m2(l) == if l == SlotsAt then Selectors(slots) else m1(l);
    assert WellFormed(m2);
    forall k | h0 <= k < |d.history|
      ensures Switching(d.history[k], m0, InodeOf(m0), InodeOf(m2))
    {
      if k < h1 {
        assert d.history[k] == spare[k];
        SpareStage(d.history[k], m0, news, InodeOf(m2));
      } else {
        assert (set p | p in [(SlotsAt, Selectors(slots))]) == {(SlotsAt, Selectors(slots))};
        SelectorStage(d.history[k], m0, m1, m2, slots);
      }
    }
  }

  lemma PersistedSpare(m0: Loc -> Word, m1: Loc -> Word, news: seq<(Loc, Word)>)
    requires WellFormed(m0)
    requires forall p :: p in news ==> Spare(m0(SlotsAt).slots, p.0) && p.1.Number?
    requires forall l, w :: (l, w) in news ==> m1(l) == w
    requires forall l :: (forall w :: (l, w) !in news) ==> m1(l) == m0(l)
    ensures WellFormed(m1) && InodeOf(m1) == InodeOf(m0) && SameData(m0, m1)
  {
    forall l
      ensures m1(l) == m0(l) || (Spare(m0(SlotsAt).slots, l) && m1(l).Number?)
    {
      if w :| (l, w) in news {
        assert Spare(m0(SlotsAt).slots, (l, w).0) && (l, w).1.Number?;
      }
    }
    SpareIsUnseen(m0, m1);
  }

  // ---------------------------------------------------------------- the data

  /** The byte at `i` of block `b` once all pieces are written. */
  ghost function LaidAll(ps: seq<Piece>, b: nat, i: nat, old_: Byte): Byte {
    if ps == [] then old_ else Laid(ps[|ps| - 1], b, i, LaidAll(ps[..|ps| - 1], b, i, old_))
  }

  /** The pieces of one write touch no byte twice and lie inside their blocks. */
  ghost predicate ProperPieces(ps: seq<Piece>, sizes: nat -> nat) {
    && (forall k :: 0 <= k < |ps| ==> ps[k].bytes != [] && ps[k].from + |ps[k].bytes| <= sizes(ps[k].block))
    && (forall j, k, b: nat, i: nat {:trigger ps[j].Covers(b, i), ps[k].Covers(b, i)} ::
          0 <= j < k < |ps| ==> !(ps[j].Covers(b, i) && ps[k].Covers(b, i)))
  }

  lemma {:induction false} LaidNone(ps: seq<Piece>, b: nat, i: nat, old_: Byte)
    requires forall k :: 0 <= k < |ps| ==> !ps[k].Covers(b, i)
    ensures LaidAll(ps, b, i, old_) == old_
  {
    if ps != [] {
      LaidNone(ps[..|ps| - 1], b, i, old_);
    }
  }

  /** Part way through, each byte is the old or the final one. */
  lemma {:induction false} LaidOldOrNew(ps: seq<Piece>, sizes: nat -> nat, j: nat, b: nat, i: nat, old_: Byte)
    requires ProperPieces(ps, sizes) && j <= |ps|
    ensures LaidAll(ps[..j], b, i, old_) == old_ || LaidAll(ps[..j], b, i, old_) == LaidAll(ps, b, i, old_)
  {
    if j == |ps| {
      assert ps[..j] == ps;
    } else {
      var init, last := ps[..|ps| - 1], ps[|ps| - 1];
      assert ProperPieces(init, sizes) by {
        assert forall k :: 0 <= k < |init| ==> init[k] == ps[k];
      }
      LaidOldOrNew(init, sizes, j, b, i, old_);
      assert init[..j] == ps[..j];
      if last.Covers(b, i) {
        assert forall k :: 0 <= k < j ==> ps[..j][k] == ps[k];
        LaidNone(ps[..j], b, i, old_);
      }
    }
  }

  /** The first `j` pieces are on the medium. */
  ghost predicate DataAfter(m0: Loc -> Word, m: Loc -> Word, ps: seq<Piece>, sizes: nat -> nat) {
    forall b, i: nat :: i < sizes(b) ==> Found(m, b, i) == LaidAll(ps, b, i, Found(m0, b, i))
  }

  /** Each byte of each block is the old or the final one. */
  ghost predicate OldOrNew(m0: Loc -> Word, m: Loc -> Word, ps: seq<Piece>, sizes: nat -> nat) {
    forall b, i: nat :: i < sizes(b) ==>
      Found(m, b, i) == Found(m0, b, i) || Found(m, b, i) == LaidAll(ps, b, i, Found(m0, b, i))
  }

  ghost predicate Copying(s: State, m0: Loc -> Word, ps: seq<Piece>, sizes: nat -> nat) {
    forall m :: CanCrashTo(s, m) ==> HoldsBytes(m) && SameInode(m0, m) && OldOrNew(m0, m, ps, sizes)
  }

  lemma CopyStage(s: State, m0: Loc -> Word, m1: Loc -> Word, ps: seq<Piece>, sizes: nat -> nat, j: nat)
    requires ProperPieces(ps, sizes) && j < |ps| && SameInode(m0, m1) && DataAfter(m0, m1, ps[..j], sizes)
    requires StateBlockSafe(s, m1, ps[j], sizes(ps[j].block))
    ensures Copying(s, m0, ps, sizes)
  {
    hide HoldsBytes, Found;
    forall m | CanCrashTo(s, m)
      ensures HoldsBytes(m) && SameInode(m0, m) && OldOrNew(m0, m, ps, sizes)
    {
      assert BlockSafe(m1, m, ps[j], sizes(ps[j].block));
      forall b, i: nat | i < sizes(b)
        ensures Found(m, b, i) == Found(m0, b, i) || Found(m, b, i) == LaidAll(ps, b, i, Found(m0, b, i))
      {
        CopiedByte(ps, sizes, j, b, i, Found(m0, b, i));
      }
    }
  }

  lemma CopiedByte(ps: seq<Piece>, sizes: nat -> nat, j: nat, b: nat, i: nat, old_: Byte)
    requires ProperPieces(ps, sizes) && j < |ps|
    ensures var before := LaidAll(ps[..j], b, i, old_);
      && (before == old_ || before == LaidAll(ps, b, i, old_))
      && (Laid(ps[j], b, i, before) == old_ || Laid(ps[j], b, i, before) == LaidAll(ps, b, i, old_))
  {
    LaidOldOrNew(ps, sizes, j, b, i, old_);
    LaidOldOrNew(ps, sizes, j + 1, b, i, old_);
    assert ps[..j + 1][..j] == ps[..j];
  }

  lemma CopiedPiece(m0: Loc -> Word, m1: Loc -> Word, m2: Loc -> Word, ps: seq<Piece>, sizes: nat -> nat, j: nat)
    requires j < |ps| && DataAfter(m0, m1, ps[..j], sizes)
    requires forall b, i: nat :: (b != ps[j].block || i < sizes(ps[j].block)) ==> Found(m2, b, i) == Laid(ps[j], b, i, Found(m1, b, i))
    ensures DataAfter(m0, m2, ps[..j + 1], sizes)
  {
    assert ps[..j + 1][..j] == ps[..j];
  }

  ghost predicate AllCopying(history: seq<State>, from: nat, m0: Loc -> Word, ps: seq<Piece>, sizes: nat -> nat) {
    forall k :: from <= k < |history| ==> Copying(history[k], m0, ps, sizes)
  }

  /** The data of a write, piece by piece. */
  method CopyPieces(d: Device, ps: seq<Piece>, sizes: nat -> nat)
    requires d.Quiet() && HoldsBytes(d.medium) && ProperPieces(ps, sizes)
    modifies d
    ensures d.Quiet() && HoldsBytes(d.medium) && SameInode(old(d.medium), d.medium) && DataAfter(old(d.medium), d.medium, ps, sizes)
    ensures old(d.history) <= d.history && AllCopying(d.history, |old(d.history)|, old(d.medium), ps, sizes)
  {
    hide HoldsBytes, Found, Copying, StateBlockSafe, DataAfter;
    ghost var m0, h0 := d.medium, |d.history|;
    NothingCopied(m0, sizes);
    assert ps[..0] == [];
    var j := 0;
    while j < |ps|
      invariant 0 <= j <= |ps| && d.Quiet() && HoldsBytes(d.medium) && SameInode(m0, d.medium)
      invariant DataAfter(m0, d.medium, ps[..j], sizes)
      invariant old(d.history) <= d.history && AllCopying(d.history, h0, m0, ps, sizes)
    {
      ghost var m1, h1, before := d.medium, |d.history|, d.history;
      WriteBlockRange(d, ps[j], sizes(ps[j].block));
      CopiedPiece(m0, m1, d.medium, ps, sizes, j);
      forall k | h0 <= k < |d.history|
        ensures Copying(d.history[k], m0, ps, sizes)
      {
        if k < h1 {
          assert d.history[k] == before[k];
        } else {
          CopyStage(d.history[k], m0, m1, ps, sizes, j);
        }
      }
      j := j + 1;
    }
    assert ps[..j] == ps;
  }

  lemma NothingCopied(m0: Loc -> Word, sizes: nat -> nat)
    ensures DataAfter(m0, m0, [], sizes)
  {
  }

  // ---------------------------------------------------------------- the whole write

  /** A write, as its commit protocol sees it: where its bytes go, where it ends, the clock before and after,
      and the access time to be stored along, if one is due. */
  datatype Write = Write(pieces: seq<Piece>, end: nat, started: Time, finished: Time, atime: Option<Time>)

  /** What recovery may find after a crash during the write. */
  ghost predicate Recoverable(m0: Loc -> Word, m: Loc -> Word, w: Write, sizes: nat -> nat)
    requires WellFormed(m0)
  {
    && WellFormed(m)
    && var was, now := InodeOf(m0), InodeOf(m);
    && (now.mtime == was.mtime || now.mtime == w.started || now.mtime == w.finished)
    && (now.ctime == was.ctime || now.ctime == w.finished)
    && (now.atime == was.atime || Some(now.atime) == w.atime)
    && (now.size == was.size || now.size == w.end > was.size)
    && (now.nlink, now.allocatedSpace, now.flags) == (was.nlink, was.allocatedSpace, was.flags)
    // a new size comes with the new times and with all of the data
    && (now.size != was.size ==>
          now.size == w.end && now.ctime == w.finished && now.mtime == w.finished && DataAfter(m0, m, w.pieces, sizes))
    // every byte is old or new, and none is new before the modification time says so
    && OldOrNew(m0, m, w.pieces, sizes)
    && (now.mtime == w.started || now.mtime == w.finished || DataAfter(m0, m, [], sizes))
  }

  ghost predicate StateRecoverable(s: State, m0: Loc -> Word, w: Write, sizes: nat -> nat)
    requires WellFormed(m0)
  {
    forall m :: CanCrashTo(s, m) ==> Recoverable(m0, m, w, sizes)
  }

  /** The fields after the write. */
  ghost function Finished(was: Inode, w: Write): Inode {
    var grows := w.end > was.size;
    var late := grows || Elapsed(w) >= 1000000;
    was.(mtime := if late then w.finished else w.started,
         atime := if w.atime.Some? && late then w.atime.value else was.atime,
         ctime := if grows then w.finished else was.ctime,
         size := if grows then w.end else was.size)
  }

  function Elapsed(w: Write): int {
    (w.finished.sec - w.started.sec) * 1000000000 + w.finished.nsec - w.started.nsec
  }

  // ---------------------------------------------------------------- its three phases

  /** The fields to be changed by one switch of the selectors. */
  datatype Update = Update(mtime: Option<Time>, atime: Option<Time>, size: Option<int>, ctime: Option<Time>) {
    function TimeFor(f: Field): Option<Time> {
      match f
      case Atime => atime
      case Ctime => ctime
      case Mtime => mtime
    }
  }

  function TimeWords(f: Field, slots: Slots, t: Option<Time>): (news: seq<(Loc, Word)>) {
    if t.None? then []
    else [(TimeAt(f, !Selected(slots, f), false), Number(t.value.sec)), (TimeAt(f, !Selected(slots, f), true), Number(t.value.nsec))]
  }

  function SizeWords(slots: Slots, size: Option<int>): (news: seq<(Loc, Word)>) {
    if size.None? then [] else [(SizeAt(!slots.size), Number(size.value))]
  }

  /** The stores of an update, into the spare slots, in the order of the source. */
  function Words(slots: Slots, u: Update): (news: seq<(Loc, Word)>) {
    TimeWords(Mtime, slots, u.mtime) + TimeWords(Atime, slots, u.atime) + SizeWords(slots, u.size) + TimeWords(Ctime, slots, u.ctime)
  }

  function NewSlots(slots: Slots, u: Update): Slots {
    slots.(mtime := if u.mtime.Some? then !slots.mtime else slots.mtime,
           atime := if u.atime.Some? then !slots.atime else slots.atime,
           size := if u.size.Some? then !slots.size else slots.size,
           ctime := if u.ctime.Some? then !slots.ctime else slots.ctime)
  }

  /** One of the stores of an update. */
  predicate IsUpdate(slots: Slots, u: Update, l: Loc, w: Word) {
    match l
    case TimeAt(f, s, n) =>
      && s != Selected(slots, f) && u.TimeFor(f).Some?
      && w == Number(if n then u.TimeFor(f).value.nsec else u.TimeFor(f).value.sec)
    case SizeAt(s) => s != slots.size && u.size.Some? && w == Number(u.size.value)
    case _ => false
  }

  lemma WordsAre(slots: Slots, u: Update)
    ensures forall l, w :: (l, w) in Words(slots, u) <==> IsUpdate(slots, u, l, w)
  {
    forall l: Loc, w: Word
      ensures (l, w) in Words(slots, u) <==> IsUpdate(slots, u, l, w)
    {
      var a, b, c, e := TimeWords(Mtime, slots, u.mtime), TimeWords(Atime, slots, u.atime), SizeWords(slots, u.size), TimeWords(Ctime, slots, u.ctime);
      assert (l, w) in Words(slots, u) <==> (l, w) in a || (l, w) in b || (l, w) in c || (l, w) in e;
      TimeWordsAre(Mtime, slots, u.mtime, l, w);
      TimeWordsAre(Atime, slots, u.atime, l, w);
      TimeWordsAre(Ctime, slots, u.ctime, l, w);
    }
  }

  lemma TimeWordsAre(f: Field, slots: Slots, t: Option<Time>, l: Loc, w: Word)
    ensures (l, w) in TimeWords(f, slots, t) <==>
      && l.TimeAt? && l.field == f && l.slot != Selected(slots, f) && t.Some?
      && w == Number(if l.nsec then t.value.nsec else t.value.sec)
  {
    if t.Some? {
      var news := TimeWords(f, slots, t);
      assert (l, w) in news <==> (l, w) == news[0] || (l, w) == news[1];
    }
  }

  lemma WordsDistinct(slots: Slots, u: Update)
    ensures forall i, j :: 0 <= i < j < |Words(slots, u)| ==> Words(slots, u)[i].0 != Words(slots, u)[j].0
  {
  }

  ghost function Updated(i: Inode, u: Update): Inode {
    i.(mtime := if u.mtime.Some? then u.mtime.value else i.mtime,
       atime := if u.atime.Some? then u.atime.value else i.atime,
       size := if u.size.Some? then u.size.value else i.size,
       ctime := if u.ctime.Some? then u.ctime.value else i.ctime)
  }

  lemma SelectedAfter(slots: Slots, u: Update, f: Field)
    ensures Selected(NewSlots(slots, u), f) == if u.TimeFor(f).Some? then !Selected(slots, f) else Selected(slots, f)
  {
  }

  lemma UpdatedField(m0: Loc -> Word, m: Loc -> Word, u: Update, f: Field)
    requires WellFormed(m0) && WellFormed(m) && m(SlotsAt).slots == NewSlots(m0(SlotsAt).slots, u)
    requires forall l, w :: IsUpdate(m0(SlotsAt).slots, u, l, w) ==> m(l) == w
    requires forall l :: l != SlotsAt && (forall w :: !IsUpdate(m0(SlotsAt).slots, u, l, w)) ==> m(l) == m0(l)
    ensures TimeOf(m, f) == if u.TimeFor(f).Some? then u.TimeFor(f).value else TimeOf(m0, f)
  {
    hide HoldsBytes, NewSlots;
    var slots := m0(SlotsAt).slots;
    SelectedAfter(slots, u, f);
    if u.TimeFor(f).Some? {
      var t := u.TimeFor(f).value;
      assert IsUpdate(slots, u, TimeAt(f, !Selected(slots, f), false), Number(t.sec));
      assert IsUpdate(slots, u, TimeAt(f, !Selected(slots, f), true), Number(t.nsec));
    }
  }

  /** Changes some fields of the inode at once. */
  method UpdateFields(d: Device, u: Update)
    requires d.Quiet() && WellFormed(d.medium)
    modifies d
    ensures d.Quiet() && WellFormed(d.medium) && SameData(old(d.medium), d.medium)
    ensures InodeOf(d.medium) == Updated(InodeOf(old(d.medium)), u)
    ensures old(d.history) <= d.history
    ensures AllSwitching(d.history, |old(d.history)|, old(d.medium), InodeOf(old(d.medium)), InodeOf(d.medium))
  {
    hide Switching, WellFormed, SameData, TimeOf, Words, IsUpdate;
    ghost var m0 := d.medium;
    SlotsAreSelectors(m0);
    var slots := d.cache(SlotsAt).slots;
    WordsAre(slots, u);
    WordsDistinct(slots, u);
    UpdatesAreSpare(slots, u);
    Switch(d, Words(slots, u), NewSlots(slots, u));
    SlotsAreSelectors(d.medium);
    UpdatedField(m0, d.medium, u, Atime);
    UpdatedField(m0, d.medium, u, Ctime);
    UpdatedField(m0, d.medium, u, Mtime);
    UpdatedSize(m0, d.medium, u);
  }

  lemma SlotsAreSelectors(m: Loc -> Word)
    requires WellFormed(m)
    ensures m(SlotsAt).Selectors?
  {
  }

  lemma UpdatesAreSpare(slots: Slots, u: Update)
    ensures forall l, w :: IsUpdate(slots, u, l, w) ==> Spare(slots, l) && w.Number?
  {
  }

  lemma UpdatedSize(m0: Loc -> Word, m: Loc -> Word, u: Update)
    requires WellFormed(m0) && WellFormed(m) && m(SlotsAt).slots == NewSlots(m0(SlotsAt).slots, u)
    requires forall l, w :: IsUpdate(m0(SlotsAt).slots, u, l, w) ==> m(l) == w
    requires forall l :: l != SlotsAt && (forall w :: !IsUpdate(m0(SlotsAt).slots, u, l, w)) ==> m(l) == m0(l)
    ensures InodeOf(m).size == if u.size.Some? then u.size.value else InodeOf(m0).size
  {
    var slots := m0(SlotsAt).slots;
    if u.size.Some? {
      assert IsUpdate(slots, u, SizeAt(!slots.size), Number(u.size.value));
    }
  }

  // ---------------------------------------------------------------- putting it together

  lemma SameDataFound(m0: Loc -> Word, m: Loc -> Word, b: nat, i: nat)
    requires SameData(m0, m)
    ensures Found(m, b, i) == Found(m0, b, i)
  {
  }

  /** While the start time is being stored. */
  lemma StartStage(s: State, m0: Loc -> Word, w: Write, sizes: nat -> nat)
    requires WellFormed(m0) && Switching(s, m0, InodeOf(m0), InodeOf(m0).(mtime := w.started))
    ensures StateRecoverable(s, m0, w, sizes)
  {
    hide WellFormed, SameData, Found, InodeOf;
    forall m | CanCrashTo(s, m)
      ensures Recoverable(m0, m, w, sizes)
    {
      forall b, i: nat
        ensures Found(m, b, i) == Found(m0, b, i)
      {
        SameDataFound(m0, m, b, i);
      }
      assert DataAfter(m0, m, [], sizes);
    }
  }

  lemma SameInodeFields(m1: Loc -> Word, m: Loc -> Word)
    requires WellFormed(m1) && HoldsBytes(m) && SameInode(m1, m)
    ensures WellFormed(m) && InodeOf(m) == InodeOf(m1)
  {
  }

  /** While the data is being copied. */
  lemma DataStage(s: State, m0: Loc -> Word, m1: Loc -> Word, w: Write, sizes: nat -> nat)
    requires WellFormed(m0) && WellFormed(m1) && SameData(m0, m1) && InodeOf(m1) == InodeOf(m0).(mtime := w.started)
    requires Copying(s, m1, w.pieces, sizes)
    ensures StateRecoverable(s, m0, w, sizes)
  {
    hide WellFormed, SameData, Found, InodeOf, HoldsBytes, SameInode, LaidAll;
    forall m | CanCrashTo(s, m)
      ensures Recoverable(m0, m, w, sizes)
    {
      SameInodeFields(m1, m);
      forall b, i: nat | i < sizes(b)
        ensures Found(m, b, i) == Found(m0, b, i) || Found(m, b, i) == LaidAll(w.pieces, b, i, Found(m0, b, i))
      {
        SameDataFound(m0, m1, b, i);
      }
    }
  }

  /** What the last switch changes. */
  function FinalUpdate(size: int, w: Write): Update {
    var grows := w.end > size;
    var late := grows || Elapsed(w) >= 1000000;
    Update(if late then Some(w.finished) else None,
           if late then w.atime else None,
           if grows then Some(w.end) else None,
           if grows then Some(w.finished) else None)
  }

  /** While the final times and the size are being switched in. */
  lemma FinalStage(s: State, m0: Loc -> Word, m2: Loc -> Word, w: Write, sizes: nat -> nat)
    requires WellFormed(m0) && WellFormed(m2) && InodeOf(m2) == InodeOf(m0).(mtime := w.started)
    requires DataAfter(m0, m2, w.pieces, sizes)
    requires Switching(s, m2, InodeOf(m2), Updated(InodeOf(m2), FinalUpdate(InodeOf(m0).size, w)))
    ensures StateRecoverable(s, m0, w, sizes)
  {
    hide WellFormed, SameData, Found, InodeOf, LaidAll;
    forall m | CanCrashTo(s, m)
      ensures Recoverable(m0, m, w, sizes)
    {
      forall b, i: nat | i < sizes(b)
        ensures Found(m, b, i) == LaidAll(w.pieces, b, i, Found(m0, b, i))
      {
        SameDataFound(m2, m, b, i);
      }
      assert DataAfter(m0, m, w.pieces, sizes);
    }
  }

  ghost predicate AllRecoverable(history: seq<State>, from: nat, m0: Loc -> Word, w: Write, sizes: nat -> nat)
    requires WellFormed(m0)
  {
    forall k :: from <= k < |history| ==> StateRecoverable(history[k], m0, w, sizes)
  }

  /** The protocol of pmemfile_pwritev_internal once the space is allocated. A crash at any step is
      recoverable; without one, the data, the times and the size are all durable at the end. */
  method CommitWrite(d: Device, w: Write, sizes: nat -> nat)
    requires d.Quiet() && WellFormed(d.medium) && ProperPieces(w.pieces, sizes)
    modifies d
    ensures d.Quiet() && WellFormed(d.medium) && InodeOf(d.medium) == Finished(InodeOf(old(d.medium)), w)
    // the size and the change time move together, when the write ends past the old end
    ensures var was, now := InodeOf(old(d.medium)), InodeOf(d.medium);
      if w.end > was.size then now.size == w.end && now.ctime == w.finished else now.size == was.size && now.ctime == was.ctime
    // the modification time is the end of a write that grew the file or took a millisecond, and only then is a
    // pending access time stored
    ensures var was, now := InodeOf(old(d.medium)), InodeOf(d.medium);
      if w.end > was.size || (w.finished.sec - w.started.sec) * 1000000000 + w.finished.nsec - w.started.nsec >= 1000000
      then now.mtime == w.finished && now.atime == (if w.atime.Some? then w.atime.value else was.atime)
      else now.mtime == w.started && now.atime == was.atime
    ensures DataAfter(old(d.medium), d.medium, w.pieces, sizes)
    ensures old(d.history) <= d.history && AllRecoverable(d.history, |old(d.history)|, old(d.medium), w, sizes)
  {
    hide WellFormed, SameData, Found, InodeOf, LaidAll, Switching, Copying, StateRecoverable, SameInode, HoldsBytes;
    ghost var m0, h0 := d.medium, |d.history|;
    FormFacts(m0);
    UpdateFields(d, Update(Some(w.started), None, None, None));
    ghost var m1, h1, atStart := d.medium, |d.history|, d.history;
    FormFacts(m1);
    CopyPieces(d, w.pieces, sizes);
    ghost var m2, h2, copied := d.medium, |d.history|, d.history;
    SameInodeFields(m1, m2);
    CopiedFromStart(m0, m1, m2, w.pieces, sizes);
    FormFacts(m2);
    var slots := d.cache(SlotsAt).slots;
    SizeIsNumber(m2);
    var u := FinalUpdate(d.cache(SizeAt(slots.size)).n, w);
    if u.mtime.Some? || u.size.Some? || u.atime.Some? {
      UpdateFields(d, u);
      DataStays(m0, m2, d.medium, w.pieces, sizes);
    }
    forall k | h0 <= k < |d.history|
      ensures StateRecoverable(d.history[k], m0, w, sizes)
    {
      if k < h1 {
        assert d.history[k] == atStart[k];
        StartStage(d.history[k], m0, w, sizes);
      } else if k < h2 {
        assert d.history[k] == copied[k];
        DataStage(d.history[k], m0, m1, w, sizes);
      } else {
        FinalStage(d.history[k], m0, m2, w, sizes);
      }
    }
  }

  lemma FormFacts(m: Loc -> Word)
    requires WellFormed(m)
    ensures HoldsBytes(m) && m(SlotsAt).Selectors?
  {
  }

  lemma SizeIsNumber(m: Loc -> Word)
    requires WellFormed(m) && m(SlotsAt).Selectors?
    ensures m(SizeAt(m(SlotsAt).slots.size)) == Number(InodeOf(m).size)
  {
  }

  lemma CopiedFromStart(m0: Loc -> Word, m1: Loc -> Word, m2: Loc -> Word, ps: seq<Piece>, sizes: nat -> nat)
    requires SameData(m0, m1) && DataAfter(m1, m2, ps, sizes)
    ensures DataAfter(m0, m2, ps, sizes)
  {
    forall b, i: nat | i < sizes(b)
      ensures Found(m2, b, i) == LaidAll(ps, b, i, Found(m0, b, i))
    {
      SameDataFound(m0, m1, b, i);
    }
  }

  lemma DataStays(m0: Loc -> Word, m2: Loc -> Word, m: Loc -> Word, ps: seq<Piece>, sizes: nat -> nat)
    requires DataAfter(m0, m2, ps, sizes) && SameData(m2, m)
    ensures DataAfter(m0, m, ps, sizes)
  {
    forall b, i: nat | i < sizes(b)
      ensures Found(m, b, i) == LaidAll(ps, b, i, Found(m0, b, i))
    {
      SameDataFound(m2, m, b, i);
    }
  }
}
