/** The 16-way radix tree that maps file offsets to block descriptors (offset_mapping.c). */
module OffsetMapping {
  import opened Layout
  import opened Arith

  const N_CHILDREN_POW: nat := 4
  const N_CHILDREN: nat := 16
  const MIN_BITS: nat := 14

  /** A tree entry: NULL, a leaf pointing at a block, or an internal entry owning a child array. */
  datatype Entry = Empty | Leaf(block: Slot) | Internal(children: seq<Entry>)

  // ---------------------------------------------------------------- ranges

  /** The number of bytes an entry on level `k` maps: 2^(14 + 4k). */
  function Range(k: nat): (r: nat)
    ensures r >= MIN_BLOCK_SIZE && Aligned(r)
  {
    if k == 0 then MIN_BLOCK_SIZE else 16 * Range(k - 1)
  }

  lemma {:induction false} RangeIsPow2(k: nat)
    ensures Pow2(MIN_BITS + N_CHILDREN_POW * k) == Range(k)
  {
    if k == 0 {
      assert Pow2(10) == 1024;
    } else {
      RangeIsPow2(k - 1);
      var n := MIN_BITS + N_CHILDREN_POW * (k - 1);
      assert Pow2(n + 4) == 2 * Pow2(n + 3) == 4 * Pow2(n + 2) == 8 * Pow2(n + 1) == 16 * Pow2(n);
    }
  }

  lemma {:induction false} RangeMonotone(k: nat, l: nat)
    requires k <= l
    ensures Range(k) <= Range(l)
    decreases l
  {
    if k < l {
      RangeMonotone(k, l - 1);
    }
  }

  lemma AlignedSum(a: nat, b: nat)
    requires Aligned(a) && Aligned(b)
    ensures Aligned(a + b)
    ensures a >= b ==> Aligned(a - b)
  {
  }

  lemma {:induction false} AlignedMultiple(i: nat, r: nat)
    requires Aligned(r)
    ensures Aligned(i * r)
  {
    if i > 0 {
      AlignedMultiple(i - 1, r);
      assert i * r == (i - 1) * r + r;
      AlignedSum((i - 1) * r, r);
    } else {
      assert i * r == 0;
    }
  }

  /** Where entry `j` of an array with entries on level `k` starts. */
  ghost function Start(k: nat, j: nat): nat {
    if j == 0 then 0 else Start(k, j - 1) + Range(k)
  }

  lemma {:induction false} StartIsProduct(k: nat, j: nat)
    ensures Start(k, j) == j * Range(k)
  {
    if j > 0 {
      StartIsProduct(k, j - 1);
      assert j * Range(k) == (j - 1) * Range(k) + Range(k);
    }
  }

  lemma {:induction false} StartMonotone(k: nat, i: nat, j: nat)
    requires i <= j
    ensures Start(k, i) <= Start(k, j)
    decreases j
  {
    if i < j {
      StartMonotone(k, i, j - 1);
    }
  }

  // ---------------------------------------------------------------- the abstract map

  predicate IsEmptyArray(c: seq<Entry>) {
    forall i :: 0 <= i < |c| ==> c[i] == Empty
  }

  /** Shape of an entry on level `k`: 16 children one level down, never all of them NULL,
      and no internal entry at granule level. */
  ghost predicate WellFormed(e: Entry, k: nat)
    decreases k, 0
  {
    match e
    case Empty => true
    case Leaf(_) => true
    case Internal(c) => k > 0 && WellFormedArray(c, k - 1) && !IsEmptyArray(c)
  }

  /** A child array whose entries are on level `k`. */
  ghost predicate WellFormedArray(c: seq<Entry>, k: nat)
    decreases k, 1
  {
    |c| == N_CHILDREN && forall i :: 0 <= i < N_CHILDREN ==> WellFormed(c[i], k)
  }

  /** The block an entry on level `k` maps the relative offset `off` to. */
  ghost function At(e: Entry, k: nat, off: nat): Option<Slot>
    requires WellFormed(e, k) && off < Range(k)
    decreases k, 0
  {
    match e
    case Empty => None
    case Leaf(b) => Some(b)
    case Internal(c) => AtArray(c, k - 1, off)
  }

  /** The block a child array with entries on level `k` maps the relative offset `off` to. */
  ghost function AtArray(c: seq<Entry>, k: nat, off: nat): Option<Slot>
    requires WellFormedArray(c, k) && off < N_CHILDREN * Range(k)
    decreases k, 1
  {
    DivBound(off, Range(k), N_CHILDREN);
    At(c[off / Range(k)], k, off % Range(k))
  }

  lemma AtArrayIndex(c: seq<Entry>, k: nat, i: nat, x: nat)
    requires WellFormedArray(c, k) && i < N_CHILDREN && x < Range(k)
    ensures Start(k, i) + x < N_CHILDREN * Range(k)
    ensures AtArray(c, k, Start(k, i) + x) == At(c[i], k, x)
  {
    StartIsProduct(k, i);
    MulMonotone(i + 1, N_CHILDREN, Range(k));
    assert (i + 1) * Range(k) == i * Range(k) + Range(k);
    DivModOf(i, x, Range(k));
  }

  lemma {:induction false} NonEmptyMapsSomething(e: Entry, k: nat) returns (x: nat)
    requires WellFormed(e, k) && e != Empty
    ensures x < Range(k) && At(e, k, x).Some?
    decreases k
  {
    match e
    case Leaf(_) => x := 0;
    case Internal(c) =>
      var i :| 0 <= i < |c| && c[i] != Empty;
      var y := NonEmptyMapsSomething(c[i], k - 1);
      AtArrayIndex(c, k - 1, i, y);
      x := Start(k - 1, i) + y;
  }

  lemma EmptyArrayMapsNothing(c: seq<Entry>, k: nat, off: nat)
    requires WellFormedArray(c, k) && IsEmptyArray(c) && off < N_CHILDREN * Range(k)
    ensures AtArray(c, k, off) == None
  {
    DivBound(off, Range(k), N_CHILDREN);
  }

  // ---------------------------------------------------------------- set_range

  function NoChildren(): (c: seq<Entry>)
    ensures IsEmptyArray(c) && |c| == N_CHILDREN
  {
    seq(N_CHILDREN, _ => Empty)
  }

  /** What `set_range` may overwrite: [lo, hi) maps to `was` throughout, and, when `was` is a block,
      nothing outside [lo, hi) maps to that block. */
  ghost predicate Overwritable(c: seq<Entry>, k: nat, lo: nat, hi: nat, was: Option<Slot>)
    requires WellFormedArray(c, k)
  {
    forall o {:trigger AtArray(c, k, o)} :: 0 <= o < N_CHILDREN * Range(k) ==>
      if lo <= o < hi then AtArray(c, k, o) == was else was == None || AtArray(c, k, o) != was
  }

  ghost predicate OverwritableEntry(e: Entry, k: nat, lo: int, hi: int, was: Option<Slot>)
    requires WellFormed(e, k)
  {
    forall x {:trigger At(e, k, x)} :: 0 <= x < Range(k) ==>
      if lo <= x < hi then At(e, k, x) == was else was == None || At(e, k, x) != was
  }

  /** `e'` maps [lo, hi) to `block` and everything else as `e` does. */
  ghost predicate EntrySet(e: Entry, e': Entry, k: nat, lo: int, hi: int, block: Option<Slot>)
    requires WellFormed(e, k)
  {
    && WellFormed(e', k)
    && forall x {:trigger At(e', k, x)} :: 0 <= x < Range(k) ==>
         At(e', k, x) == if lo <= x < hi then block else At(e, k, x)
  }

  ghost predicate ArraySet(c: seq<Entry>, c': seq<Entry>, k: nat, lo: nat, hi: nat, block: Option<Slot>)
    requires WellFormedArray(c, k)
  {
    && WellFormedArray(c', k)
    && forall o {:trigger AtArray(c', k, o)} :: 0 <= o < N_CHILDREN * Range(k) ==>
         AtArray(c', k, o) == if lo <= o < hi then block else AtArray(c, k, o)
  }

  lemma OverwritableAt(c: seq<Entry>, k: nat, lo: nat, hi: nat, was: Option<Slot>, i: nat)
    requires WellFormedArray(c, k) && Overwritable(c, k, lo, hi, was) && i < N_CHILDREN
    ensures OverwritableEntry(c[i], k, lo - Start(k, i), hi - Start(k, i), was)
  {
    forall x {:trigger At(c[i], k, x)} | 0 <= x < Range(k)
      ensures if lo - Start(k, i) <= x < hi - Start(k, i) then At(c[i], k, x) == was
              else was == None || At(c[i], k, x) != was
    {
      AtArrayIndex(c, k, i, x);
    }
  }

  lemma EntriesSetArraySet(c: seq<Entry>, c': seq<Entry>, k: nat, lo: nat, hi: nat, block: Option<Slot>)
    requires WellFormedArray(c, k) && |c'| == N_CHILDREN
    requires forall i :: 0 <= i < N_CHILDREN ==>
               EntrySet(c[i], c'[i], k, lo - Start(k, i), hi - Start(k, i), block)
    ensures ArraySet(c, c', k, lo, hi, block)
  {
    forall o {:trigger AtArray(c', k, o)} | 0 <= o < N_CHILDREN * Range(k)
      ensures AtArray(c', k, o) == if lo <= o < hi then block else AtArray(c, k, o)
    {
      DivBound(o, Range(k), N_CHILDREN);
      StartIsProduct(k, o / Range(k));
      assert EntrySet(c[o / Range(k)], c'[o / Range(k)], k, lo - Start(k, o / Range(k)), hi - Start(k, o / Range(k)), block);
    }
  }

  /** A partly overwritten entry is never a leaf, so a block descriptor is never taken for a child array. */
  lemma PartialEntryIsNoLeaf(e: Entry, k: nat, lo: int, hi: int, was: Option<Slot>, x: nat, y: nat)
    requires WellFormed(e, k) && OverwritableEntry(e, k, lo, hi, was)
    requires x < Range(k) && lo <= x < hi
    requires y < Range(k) && !(lo <= y < hi)
    ensures !e.Leaf?
    ensures was.Some? ==> e.Internal?
  {
    assert At(e, k, x) == was;
    assert was == None || At(e, k, y) != was;
  }

  lemma ChildrenOverwritable(e: Entry, c: seq<Entry>, k: nat, lo: nat, hi: nat, was: Option<Slot>)
    requires k > 0 && WellFormed(e, k) && OverwritableEntry(e, k, lo, hi, was)
    requires WellFormedArray(c, k - 1)
    requires e == Internal(c) || (e == Empty && IsEmptyArray(c) && was == None)
    ensures Overwritable(c, k - 1, lo, hi, was)
  {
    forall o {:trigger AtArray(c, k - 1, o)} | 0 <= o < N_CHILDREN * Range(k - 1)
      ensures if lo <= o < hi then AtArray(c, k - 1, o) == was else was == None || AtArray(c, k - 1, o) != was
    {
      if e == Empty {
        EmptyArrayMapsNothing(c, k - 1, o);
      }
      assert At(e, k, o) == AtArray(c, k - 1, o);
    }
  }

  /** The entry built around the rewritten children: NULL again if no child is left. */
  lemma ChildrenSet(e: Entry, c: seq<Entry>, c': seq<Entry>, e': Entry, k: nat, lo: nat, hi: nat, block: Option<Slot>)
    requires k > 0 && WellFormed(e, k) && WellFormedArray(c, k - 1)
    requires e == Internal(c) || (e == Empty && IsEmptyArray(c))
    requires lo < hi <= Range(k)
    requires ArraySet(c, c', k - 1, lo, hi, block)
    requires e' == if block == None && IsEmptyArray(c') then Empty else Internal(c')
    ensures EntrySet(e, e', k, lo, hi, block)
  {
    if block.Some? && IsEmptyArray(c') {
      EmptyArrayMapsNothing(c', k - 1, lo);
    }
    forall x {:trigger At(e', k, x)} | 0 <= x < Range(k)
      ensures At(e', k, x) == if lo <= x < hi then block else At(e, k, x)
    {
      assert AtArray(c', k - 1, x) == if lo <= x < hi then block else AtArray(c, k - 1, x);
      if e == Empty {
        EmptyArrayMapsNothing(c, k - 1, x);
      }
      if e' == Empty {
        EmptyArrayMapsNothing(c', k - 1, x);
      }
    }
  }

  lemma UntouchedEntry(c: seq<Entry>, k: nat, j: nat, i: nat, lo: nat, hi: nat, block: Option<Slot>)
    requires WellFormedArray(c, k) && j < N_CHILDREN
    requires lo == hi || (j < i && Start(k, i) <= lo) || (i <= j && hi <= Start(k, i))
    ensures EntrySet(c[j], c[j], k, lo - Start(k, j), hi - Start(k, j), block)
  {
    if j < i {
      StartMonotone(k, j + 1, i);
    } else {
      StartMonotone(k, i, j);
    }
  }

  /** Children of an entry that is about to be partly overwritten, allocated if there are none. */
  function AllocatedChildren(e: Entry): (c: seq<Entry>)
    requires !e.Leaf?
    ensures e.Empty? ==> IsEmptyArray(c) && |c| == N_CHILDREN
    ensures e.Internal? ==> c == e.children
  {
    if e.Empty? then NoChildren() else e.children
  }

  /** Frees a child array in which every entry is NULL. */
  method CheckAndFreeRange(c: seq<Entry>) returns (e: Entry)
    requires |c| == N_CHILDREN
    ensures e == if IsEmptyArray(c) then Empty else Internal(c)
  {
    for i := 0 to N_CHILDREN
      invariant forall j :: 0 <= j < i ==> c[j] == Empty
    {
      if c[i] != Empty {
        return Internal(c);
      }
    }
    return Empty;
  }

  /** Maps [offset, offset + remaining) of a child array to `block`, or to nothing when `block` is None. */
  method SetRange(entries: seq<Entry>, block: Option<Slot>, offset: nat, remaining: nat, range: nat,
                  ghost k: nat, ghost was: Option<Slot>)
    returns (r: seq<Entry>)
    requires range == Range(k) && WellFormedArray(entries, k)
    requires Aligned(offset) && Aligned(remaining) && offset + remaining <= N_CHILDREN * range
    requires Overwritable(entries, k, offset, offset + remaining, was)
    requires was == None || block == None
    ensures ArraySet(entries, r, k, offset, offset + remaining, block)
    decreases k, 2
  {
    r := entries;
    DivStep(offset, range);
    var i: nat := offset / range;
    var off: nat, rem: nat := offset, remaining;
    ghost var hi: nat := offset + remaining;
    AlignedSum(offset, remaining);
    StartIsProduct(k, i);
    StartIsProduct(k, i + 1);
    ProgressStart(entries, k, i, offset, hi, block);
    while rem > 0
      invariant off + rem == hi && offset <= off
      invariant rem > 0 ==> Start(k, i) <= off < Start(k, i + 1)
      invariant rem > 0 ==> off == offset || off == Start(k, i)
      invariant rem == 0 ==> remaining == 0 || hi <= Start(k, i)
      invariant Progress(entries, r, k, i, offset, hi, block)
    {
      var e, step := SetEntry(entries, i, block, offset, hi, off, rem, range, k, was);
      ProgressStep(entries, r, k, i, e, offset, hi, block);
      r := r[i := e];
      off, rem := off + step, rem - step;
      i := i + 1;
    }
    ProgressDone(entries, r, k, i, offset, hi, block);
  }

  /** The entries before `i` have been rewritten, the others have not been touched. */
  ghost predicate Progress(c: seq<Entry>, r: seq<Entry>, k: nat, i: nat, lo: nat, hi: nat, block: Option<Slot>)
    requires WellFormedArray(c, k)
  {
    && |r| == N_CHILDREN
    && (forall j :: i <= j < N_CHILDREN ==> r[j] == c[j])
    && (forall j :: 0 <= j < N_CHILDREN && j < i ==> EntrySet(c[j], r[j], k, lo - Start(k, j), hi - Start(k, j), block))
  }

  lemma ProgressStart(c: seq<Entry>, k: nat, i: nat, lo: nat, hi: nat, block: Option<Slot>)
    requires WellFormedArray(c, k) && Start(k, i) <= lo
    ensures Progress(c, c, k, i, lo, hi, block)
  {
    forall j | 0 <= j < N_CHILDREN && j < i
      ensures EntrySet(c[j], c[j], k, lo - Start(k, j), hi - Start(k, j), block)
    {
      UntouchedEntry(c, k, j, i, lo, hi, block);
    }
  }

  lemma ProgressStep(c: seq<Entry>, r: seq<Entry>, k: nat, i: nat, e: Entry, lo: nat, hi: nat, block: Option<Slot>)
    requires WellFormedArray(c, k) && Progress(c, r, k, i, lo, hi, block) && i < N_CHILDREN
    requires EntrySet(c[i], e, k, lo - Start(k, i), hi - Start(k, i), block)
    ensures Progress(c, r[i := e], k, i + 1, lo, hi, block)
  {
  }

  lemma ProgressDone(c: seq<Entry>, r: seq<Entry>, k: nat, i: nat, lo: nat, hi: nat, block: Option<Slot>)
    requires WellFormedArray(c, k) && Progress(c, r, k, i, lo, hi, block)
    requires lo == hi || hi <= Start(k, i)
    ensures ArraySet(c, r, k, lo, hi, block)
  {
    forall j | 0 <= j < N_CHILDREN
      ensures EntrySet(c[j], r[j], k, lo - Start(k, j), hi - Start(k, j), block)
    {
      if i <= j {
        UntouchedEntry(c, k, j, i, lo, hi, block);
      }
    }
    EntriesSetArraySet(c, r, k, lo, hi, block);
  }

  /** One iteration of `set_range`: rewrites entry `i`, which contains `off`. */
  method SetEntry(entries: seq<Entry>, i: nat, block: Option<Slot>, ghost lo: nat, ghost hi: nat,
                  off: nat, rem: nat, range: nat, ghost k: nat, ghost was: Option<Slot>)
    returns (e: Entry, step: nat)
    requires range == Range(k) && WellFormedArray(entries, k)
    requires lo <= off && off + rem == hi && hi <= N_CHILDREN * range && rem > 0
    requires Aligned(lo) && Aligned(hi)
    requires Start(k, i) <= off < Start(k, i + 1) && (off == lo || off == Start(k, i))
    requires Overwritable(entries, k, lo, hi, was)
    requires was == None || block == None
    ensures i < N_CHILDREN && EntrySet(entries[i], e, k, lo - Start(k, i), hi - Start(k, i), block)
    ensures 0 < step <= rem
    ensures rem > step ==> off + step == Start(k, i + 1)
    ensures rem == step ==> off + step <= Start(k, i + 1)
    decreases k, 1
  {
    EnterEntry(entries, k, i, lo, hi, off, rem, was);
    var sub := off % range;
    step := if rem < range - sub then rem else range - sub;
    if off % range == 0 && rem >= range {
      // the block covers the whole range of the entry
      e := if block.Some? then Leaf(block.value) else Empty;
    } else {
      e := SetPartOfRange(entries[i], block, sub, step, range, k, was);
    }
    LeaveEntry(entries[i], e, k, i, lo, hi, off, rem, sub, step, block);
  }

  /** The case of `set_range` in which the block covers only a part of the entry's range. */
  method SetPartOfRange(e: Entry, block: Option<Slot>, sub: nat, len: nat, range: nat,
                        ghost k: nat, ghost was: Option<Slot>)
    returns (r: Entry)
    requires range == Range(k) && WellFormed(e, k)
    requires Aligned(sub) && Aligned(len) && 0 < len && sub + len <= range && (0 < sub || len < range)
    requires OverwritableEntry(e, k, sub, sub + len, was)
    requires was == None || block == None
    ensures EntrySet(e, r, k, sub, sub + len, block)
    decreases k, 0
  {
    PartialEntryIsNoLeaf(e, k, sub, sub + len, was, sub, if 0 < sub then 0 else range - 1);
    var children := AllocatedChildren(e);
    ghost var before := children;
    ChildrenOverwritable(e, children, k, sub, sub + len, was);
    children := SetRange(children, block, sub, len, range / 16, k - 1, was);
    r := Internal(children);
    if block == None {
      r := CheckAndFreeRange(children);
    }
    ChildrenSet(e, before, children, r, k, sub, sub + len, block);
  }

  /** What holds of entry `i` when the loop of `set_range` reaches it at offset `off`. */
  lemma EnterEntry(c: seq<Entry>, k: nat, i: nat, lo: nat, hi: nat, off: nat, rem: nat, was: Option<Slot>)
    requires WellFormedArray(c, k) && Overwritable(c, k, lo, hi, was)
    requires lo <= off && off + rem == hi && hi <= N_CHILDREN * Range(k) && rem > 0
    requires Aligned(lo) && Aligned(hi)
    requires Start(k, i) <= off < Start(k, i + 1) && (off == lo || off == Start(k, i))
    ensures i < N_CHILDREN
    ensures off % Range(k) == off - Start(k, i)
    ensures var sub := off % Range(k);
            var step := if rem < Range(k) - sub then rem else Range(k) - sub;
            && Aligned(sub) && Aligned(step) && 0 < step && sub + step <= Range(k)
            && OverwritableEntry(c[i], k, sub, sub + step, was)
  {
    var r := Range(k);
    StartIsProduct(k, N_CHILDREN);
    if i >= N_CHILDREN {
      StartMonotone(k, N_CHILDREN, i);
    }
    var sub := off - Start(k, i);
    StartIsProduct(k, i);
    DivModOf(i, sub, r);
    AlignedMultiple(i, r);
    AlignedSum(hi, off);
    AlignedSum(off, Start(k, i));
    AlignedSum(r, sub);
    OverwritableAt(c, k, lo, hi, was, i);
  }

  /** The rewritten entry is right for the whole of [lo, hi), not just for the step taken. */
  lemma LeaveEntry(e: Entry, e': Entry, k: nat, i: nat, lo: nat, hi: nat, off: nat, rem: nat,
                   sub: nat, step: nat, block: Option<Slot>)
    requires WellFormed(e, k) && off + rem == hi && sub == off - Start(k, i)
    requires off == lo || sub == 0
    requires lo <= off && step == (if rem < Range(k) - sub then rem else Range(k) - sub) && sub < Range(k)
    requires EntrySet(e, e', k, sub, sub + step, block)
    ensures EntrySet(e, e', k, lo - Start(k, i), hi - Start(k, i), block)
    ensures rem > step ==> off + step == Start(k, i + 1)
    ensures rem == step ==> off + step <= Start(k, i + 1)
  {
  }

  // ---------------------------------------------------------------- the map object

  /** The whole map: offsets past the range of the root are not mapped. */
  ghost function LookupIn(e: Entry, k: nat, off: nat): Option<Slot>
    requires WellFormed(e, k)
  {
    if off < Range(k) then At(e, k, off) else None
  }

  /** An array whose only used child is the first one maps exactly what that child maps. */
  lemma OnlyFirstChild(c: seq<Entry>, k: nat, off: nat)
    requires WellFormedArray(c, k) && off < N_CHILDREN * Range(k)
    requires forall i :: 1 <= i < N_CHILDREN ==> c[i] == Empty
    ensures AtArray(c, k, off) == LookupIn(c[0], k, off)
  {
    if off < Range(k) {
      AtArrayIndex(c, k, 0, off);
    } else {
      DivBound(off, Range(k), N_CHILDREN);
      assert off / Range(k) != 0;
    }
  }

  lemma NewLevelKeepsMap(e: Entry, c: seq<Entry>, k: nat)
    requires WellFormed(e, k) && e != Empty
    requires c == NoChildren()[0 := e]
    ensures WellFormed(Internal(c), k + 1)
    ensures forall o: nat :: LookupIn(Internal(c), k + 1, o) == LookupIn(e, k, o)
  {
    assert c[0] == e && !IsEmptyArray(c);
    forall o: nat
      ensures LookupIn(Internal(c), k + 1, o) == LookupIn(e, k, o)
    {
      if o < Range(k + 1) {
        OnlyFirstChild(c, k, o);
      }
    }
  }

  lemma HoistKeepsMap(c: seq<Entry>, k: nat)
    requires k > 0 && WellFormedArray(c, k - 1) && WellFormed(Internal(c), k)
    requires forall i :: 1 <= i < N_CHILDREN ==> c[i] == Empty
    ensures forall o: nat :: LookupIn(c[0], k - 1, o) == LookupIn(Internal(c), k, o)
  {
    forall o: nat
      ensures LookupIn(c[0], k - 1, o) == LookupIn(Internal(c), k, o)
    {
      if o < Range(k) {
        OnlyFirstChild(c, k - 1, o);
      }
    }
  }

  // ---------------------------------------------------------------- searching an array of entries

  /** `c`, with entries on level `l`, is the part of the array `root` that starts at `base`. */
  ghost predicate IsPart(c: seq<Entry>, l: nat, base: nat, root: seq<Entry>, k: nat)
    requires WellFormedArray(root, k)
  {
    && WellFormedArray(c, l)
    && base + N_CHILDREN * Range(l) <= N_CHILDREN * Range(k)
    && forall z: nat {:trigger AtArray(c, l, z)} :: z < N_CHILDREN * Range(l) ==>
         AtArray(c, l, z) == AtArray(root, k, base + z)
  }

  lemma ChildIsPart(c: seq<Entry>, l: nat, base: nat, root: seq<Entry>, k: nat, j: nat)
    requires WellFormedArray(root, k) && IsPart(c, l, base, root, k)
    requires j < N_CHILDREN && c[j].Internal?
    ensures l > 0 && IsPart(c[j].children, l - 1, base + Start(l, j), root, k)
    ensures !IsEmptyArray(c[j].children)
  {
    assert WellFormed(c[j], l);
    var start := Start(l, j);
    AtArrayIndex(c, l, j, Range(l) - 1);
    forall z: nat {:trigger AtArray(c[j].children, l - 1, z)} | z < N_CHILDREN * Range(l - 1)
      ensures AtArray(c[j].children, l - 1, z) == AtArray(root, k, base + start + z)
    {
      AtArrayIndex(c, l, j, z);
      assert AtArray(c, l, start + z) == AtArray(root, k, base + (start + z));
    }
  }

  /** [lo, hi) of the array maps to nothing. */
  ghost predicate Unmapped(c: seq<Entry>, k: nat, lo: nat, hi: nat)
    requires WellFormedArray(c, k)
  {
    forall y: nat {:trigger AtArray(c, k, y)} :: lo <= y < hi && y < N_CHILDREN * Range(k) ==> AtArray(c, k, y) == None
  }

  /** A NULL entry of a part maps nothing. */
  lemma EmptyEntryUnmapped(c: seq<Entry>, l: nat, base: nat, root: seq<Entry>, k: nat, j: nat)
    requires WellFormedArray(root, k) && IsPart(c, l, base, root, k)
    requires j < N_CHILDREN && c[j] == Empty
    ensures Unmapped(root, k, base + Start(l, j), base + Start(l, j) + Range(l))
  {
    var start := Start(l, j);
    forall y: nat {:trigger AtArray(root, k, y)} | base + start <= y < base + start + Range(l) && y < N_CHILDREN * Range(k)
      ensures AtArray(root, k, y) == None
    {
      var x := y - base - start;
      AtArrayIndex(c, l, j, x);
      assert AtArray(c, l, start + x) == None;
    }
  }

  /** `edge` is where entry `j` of the part `c` starts. */
  ghost predicate Cursor(c: seq<Entry>, l: nat, base: nat, root: seq<Entry>, k: nat, j: nat, edge: nat)
    requires WellFormedArray(root, k)
  {
    IsPart(c, l, base, root, k) && j <= N_CHILDREN && edge == base + Start(l, j)
  }

  /** What entry `j`, which starts at `edge`, says about the offsets it maps. */
  lemma EntryAtCursor(c: seq<Entry>, l: nat, base: nat, root: seq<Entry>, k: nat, j: nat, edge: nat)
    requires WellFormedArray(root, k) && Cursor(c, l, base, root, k, j, edge) && j < N_CHILDREN
    ensures Cursor(c, l, base, root, k, j + 1, edge + Range(l)) && edge + Range(l) <= N_CHILDREN * Range(k)
    ensures c[j] == Empty ==> Unmapped(root, k, edge, edge + Range(l))
    ensures c[j].Leaf? ==> AtArray(root, k, edge) == AtArray(root, k, edge + Range(l) - 1) == Some(c[j].block)
    ensures c[j].Internal? ==>
      && l > 0
      && !IsEmptyArray(c[j].children)
      && Cursor(c[j].children, l - 1, edge, root, k, 0, edge)
      && Cursor(c[j].children, l - 1, edge, root, k, N_CHILDREN, edge + Range(l))
  {
    AtArrayIndex(c, l, j, Range(l) - 1);
    StartIsProduct(if l > 0 then l - 1 else 0, N_CHILDREN);
    if c[j] == Empty {
      EmptyEntryUnmapped(c, l, base, root, k, j);
    } else if c[j].Leaf? {
      AtArrayIndex(c, l, j, 0);
    } else {
      ChildIsPart(c, l, base, root, k, j);
    }
  }

  lemma CursorAt(c: seq<Entry>, k: nat, j: nat)
    requires WellFormedArray(c, k) && j <= N_CHILDREN
    ensures Cursor(c, k, 0, c, k, j, Start(k, j)) && Start(k, j) <= N_CHILDREN * Range(k)
    ensures Start(k, N_CHILDREN) == N_CHILDREN * Range(k)
  {
    StartIsProduct(k, j);
    StartIsProduct(k, N_CHILDREN);
    MulMonotone(j, N_CHILDREN, Range(k));
  }

  /** The mapped offset closest below entry `idx`, searched from right to left. */
  method ScanLeft(root: seq<Entry>, idx: nat, ghost k: nat) returns (r: Option<Slot>, ghost pos: nat)
    requires WellFormedArray(root, k) && idx <= N_CHILDREN
    ensures r == None ==> Unmapped(root, k, 0, Start(k, idx))
    ensures r.Some? ==>
      && pos < Start(k, idx) <= N_CHILDREN * Range(k)
      && AtArray(root, k, pos) == r
      && Unmapped(root, k, pos + 1, Start(k, idx))
  {
    var children, j: nat := root, idx;
    ghost var top: nat := Start(k, idx);
    ghost var l: nat, base: nat, edge: nat := k, 0, top;
    CursorAt(root, k, idx);
    while j > 0
      invariant Cursor(children, l, base, root, k, j, edge)
      invariant edge <= top && Unmapped(root, k, edge, top)
      invariant (exists x :: 0 <= x < j && children[x] != Empty) || (children == root && l == k && base == 0)
      decreases l, j
    {
      edge := edge - Range(l);
      EntryAtCursor(children, l, base, root, k, j - 1, edge);
      if children[j - 1] == Empty {
        j := j - 1;
      } else if !children[j - 1].Internal? {
        return Some(children[j - 1].block), edge + Range(l) - 1;
      } else {
        children, j, l, base, edge := children[j - 1].children, N_CHILDREN, l - 1, edge, edge + Range(l);
      }
    }
    r, pos := None, 0;
  }

  /** The mapped offset closest at or above entry `idx`, searched from left to right. */
  method ScanRight(root: seq<Entry>, idx: nat, ghost k: nat) returns (r: Option<Slot>, ghost pos: nat)
    requires WellFormedArray(root, k) && idx <= N_CHILDREN
    ensures r == None ==> Unmapped(root, k, Start(k, idx), N_CHILDREN * Range(k))
    ensures r.Some? ==>
      && Start(k, idx) <= pos < N_CHILDREN * Range(k)
      && AtArray(root, k, pos) == r
      && Unmapped(root, k, Start(k, idx), pos)
  {
    var children, j: nat := root, idx;
    ghost var bottom: nat := Start(k, idx);
    ghost var l: nat, base: nat, edge: nat := k, 0, bottom;
    CursorAt(root, k, idx);
    while j < N_CHILDREN
      invariant Cursor(children, l, base, root, k, j, edge)
      invariant bottom <= edge && Unmapped(root, k, bottom, edge)
      invariant (exists x :: j <= x < N_CHILDREN && children[x] != Empty) || (children == root && l == k && base == 0)
      decreases l, N_CHILDREN - j
    {
      EntryAtCursor(children, l, base, root, k, j, edge);
      if children[j] == Empty {
        j, edge := j + 1, edge + Range(l);
      } else if !children[j].Internal? {
        return Some(children[j].block), edge;
      } else {
        children, j, l, base := children[j].children, 0, l - 1, edge;
      }
    }
    r, pos := None, 0;
  }

  // ---------------------------------------------------------------- the tree and the block list

  /** The map sends every offset of a listed block to that block, and nothing else anywhere. */
  ghost predicate Represents(e: Entry, k: nat, mem: Memory, order: seq<Slot>)
    requires WellFormed(e, k)
    requires forall s :: s in order ==> s in mem
  {
    && (forall o: nat :: LookupIn(e, k, o).Some? ==>
          LookupIn(e, k, o).value in order && Covers(mem[LookupIn(e, k, o).value], o))
    && (forall s, o: nat {:trigger s in order, LookupIn(e, k, o)} :: s in order && Covers(mem[s], o) ==>
          LookupIn(e, k, o) == Some(s))
  }

  lemma MapsBlock(e: Entry, k: nat, mem: Memory, order: seq<Slot>, i: nat, o: nat)
    requires WellFormed(e, k) && Sorted(mem, order) && Represents(e, k, mem, order)
    requires i < |order| && Covers(mem[order[i]], o)
    ensures LookupIn(e, k, o) == Some(order[i])
  {
    assert order[i] in order;
  }

  /** Mapping the offsets of one more block. */
  lemma RepresentsMore(e: Entry, k: nat, e': Entry, k': nat, mem: Memory, mem': Memory, order: seq<Slot>, order': seq<Slot>, s: Slot)
    requires WellFormed(e, k) && WellFormed(e', k')
    requires (forall t :: t in order ==> t in mem) && (forall t :: t in order' ==> t in mem')
    requires Represents(e, k, mem, order)
    requires s in mem' && s !in order && forall t :: t in order' <==> t in order || t == s
    requires forall t :: t in order ==> t in mem' && mem'[t].offset == mem[t].offset && mem'[t].size == mem[t].size
    requires forall o: nat :: Covers(mem'[s], o) ==> LookupIn(e, k, o) == None
    requires forall o: nat :: LookupIn(e', k', o) == if Covers(mem'[s], o) then Some(s) else LookupIn(e, k, o)
    ensures Represents(e', k', mem', order')
  {
  }

  /** Unmapping the offsets of one block. */
  lemma RepresentsLess(e: Entry, k: nat, e': Entry, k': nat, mem: Memory, mem': Memory, order: seq<Slot>, order': seq<Slot>, s: Slot)
    requires WellFormed(e, k) && WellFormed(e', k')
    requires (forall t :: t in order ==> t in mem) && (forall t :: t in order' ==> t in mem')
    requires Represents(e, k, mem, order)
    requires s in order && forall t :: t in order' <==> t in order && t != s
    requires forall t :: t in order' ==> mem'[t].offset == mem[t].offset && mem'[t].size == mem[t].size
    requires forall o: nat :: LookupIn(e', k', o) == if Covers(mem[s], o) then None else LookupIn(e, k, o)
    ensures Represents(e', k', mem', order')
  {
  }

  /** Only the extents of the listed blocks matter. */
  lemma RepresentsSame(e: Entry, k: nat, mem: Memory, mem': Memory, order: seq<Slot>, order': seq<Slot>)
    requires WellFormed(e, k)
    requires (forall t :: t in order ==> t in mem) && (forall t :: t in order' ==> t in mem')
    requires Represents(e, k, mem, order)
    requires forall t :: t in order' <==> t in order
    requires forall t :: t in order ==> mem'[t].offset == mem[t].offset && mem'[t].size == mem[t].size
    ensures Represents(e, k, mem', order')
  {
  }

  /** The nearest mapped offset at or below `off` belongs to the closest block. */
  lemma ClosestFromBelow(e: Entry, k: nat, mem: Memory, order: seq<Slot>, off: nat, pos: nat)
    requires WellFormed(e, k) && Sorted(mem, order) && Represents(e, k, mem, order)
    requires pos <= off && LookupIn(e, k, pos).Some?
    requires forall y: nat :: pos < y <= off ==> LookupIn(e, k, y) == None
    ensures IsClosest(mem, order, off, LookupIn(e, k, pos))
  {
    var s := LookupIn(e, k, pos).value;
    var j :| 0 <= j < |order| && order[j] == s;
    forall i | 0 <= i < |order| && mem[order[i]].offset <= off
      ensures mem[order[i]].offset <= mem[s].offset
    {
      if i > j {
        MapsBlock(e, k, mem, order, i, mem[order[i]].offset);
      }
    }
  }

  /** With nothing mapped between `off` and the next mapped offset above it, the closest block is
      the predecessor of the block found there. */
  lemma ClosestFromAbove(e: Entry, k: nat, mem: Memory, order: seq<Slot>, off: nat, pos: nat)
    requires WellFormed(e, k) && Sorted(mem, order) && PrevLinks(mem, order) && Represents(e, k, mem, order)
    requires off < pos && LookupIn(e, k, pos).Some?
    requires forall y: nat :: off <= y < pos ==> LookupIn(e, k, y) == None
    ensures LookupIn(e, k, pos).value in mem
    ensures IsClosest(mem, order, off, mem[LookupIn(e, k, pos).value].prev)
  {
    var s := LookupIn(e, k, pos).value;
    var j :| 0 <= j < |order| && order[j] == s;
    assert mem[order[j]].prev == Before(order, j);
    if mem[s].offset < pos {
      MapsBlock(e, k, mem, order, j, pos - 1);
    }
    if j > 0 {
      var p := mem[order[j - 1]];
      MapsBlock(e, k, mem, order, j - 1, p.offset + p.size - 1);
      assert p.offset <= off;
    }
  }

  /** The child array `c` at `base` shows the map as the whole tree has it. */
  ghost predicate SeesMap(c: seq<Entry>, l: nat, base: nat, e: Entry, k: nat)
    requires WellFormed(e, k)
  {
    && WellFormedArray(c, l)
    && forall y: nat {:trigger AtArray(c, l, y)} :: y < N_CHILDREN * Range(l) ==> AtArray(c, l, y) == LookupIn(e, k, base + y)
  }

  lemma MulSplit(q: nat, i: nat, r: nat)
    ensures (N_CHILDREN * q + i) * r == q * (N_CHILDREN * r) + i * r
  {
    assert (N_CHILDREN * q) * r == q * (N_CHILDREN * r);
  }

  lemma DivideWithin(r: nat, base: nat, q: nat, i: nat, x: nat)
    requires x < r && i < N_CHILDREN && base == q * (N_CHILDREN * r)
    ensures (base + i * r + x) / r == N_CHILDREN * q + i
    ensures (N_CHILDREN * q + i) % N_CHILDREN == i
  {
    MulSplit(q, i, r);
    DivModOf(N_CHILDREN * q + i, x, r);
  }

  /** The child index taken from the bits of an offset is the child whose range holds the offset. */
  lemma IndexFromBits(r: nat, base: nat, q: nat, off: nat) returns (i: nat)
    requires r > 0 && base == q * (N_CHILDREN * r)
    requires base <= off < base + N_CHILDREN * r
    ensures i == (off / r) % N_CHILDREN
    ensures base + i * r == (N_CHILDREN * q + i) * r
    ensures base + i * r <= off < base + i * r + r
  {
    var y := off - base;
    DivBound(y, r, N_CHILDREN);
    i := y / r;
    DivideWithin(r, base, q, i, y % r);
    MulSplit(q, i, r);
  }

  lemma DescendIndex(l: nat, base: nat, q: nat, off: nat, idx: nat)
    requires base == q * Range(l + 1) && base <= off < base + Range(l + 1)
    requires idx == (off / Range(l)) % N_CHILDREN
    ensures idx < N_CHILDREN
    ensures base + Start(l, idx) == (N_CHILDREN * q + idx) * Range(l)
    ensures base + Start(l, idx) <= off < base + Start(l, idx) + Range(l)
  {
    var i := IndexFromBits(Range(l), base, q, off);
    StartIsProduct(l, idx);
  }

  /** One step of the descent towards `off`. */
  lemma Descend(c: seq<Entry>, l: nat, base: nat, q: nat, e: Entry, k: nat, off: nat, idx: nat)
    requires WellFormed(e, k) && SeesMap(c, l, base, e, k)
    requires base == q * Range(l + 1) && base <= off < base + Range(l + 1)
    requires idx == (off / Range(l)) % N_CHILDREN
    ensures idx < N_CHILDREN
    ensures base + Start(l, idx) <= off < base + Start(l, idx) + Range(l)
    ensures base + Start(l, idx) == (N_CHILDREN * q + idx) * Range(l)
    ensures c[idx].Internal? ==> l > 0 && SeesMap(c[idx].children, l - 1, base + Start(l, idx), e, k) && !IsEmptyArray(c[idx].children)
    ensures c[idx].Leaf? ==> LookupIn(e, k, off) == Some(c[idx].block)
  {
    DescendIndex(l, base, q, off, idx);
    SeesEntry(c, l, base, e, k, off, idx);
  }

  lemma PartSeesMap(p: seq<Entry>, m: nat, shift: nat, c: seq<Entry>, l: nat, base: nat, e: Entry, k: nat)
    requires WellFormed(e, k) && SeesMap(c, l, base, e, k) && IsPart(p, m, shift, c, l)
    ensures SeesMap(p, m, base + shift, e, k)
  {
    forall y: nat {:trigger AtArray(p, m, y)} | y < N_CHILDREN * Range(m)
      ensures AtArray(p, m, y) == LookupIn(e, k, base + shift + y)
    {
      assert AtArray(p, m, y) == AtArray(c, l, shift + y);
    }
  }

  lemma SeesEntry(c: seq<Entry>, l: nat, base: nat, e: Entry, k: nat, off: nat, idx: nat)
    requires WellFormed(e, k) && SeesMap(c, l, base, e, k)
    requires idx < N_CHILDREN && base + Start(l, idx) <= off < base + Start(l, idx) + Range(l)
    ensures c[idx].Internal? ==> l > 0 && SeesMap(c[idx].children, l - 1, base + Start(l, idx), e, k) && !IsEmptyArray(c[idx].children)
    ensures c[idx].Leaf? ==> LookupIn(e, k, off) == Some(c[idx].block)
  {
    CursorAt(c, l, idx);
    if c[idx].Leaf? {
      AtArrayIndex(c, l, idx, off - base - Start(l, idx));
    } else if c[idx].Internal? {
      EntryAtCursor(c, l, 0, c, l, idx, Start(l, idx));
      PartSeesMap(c[idx].children, l - 1, Start(l, idx), c, l, base, e, k);
    }
  }

  lemma NotAllUnmapped(c: seq<Entry>, k: nat)
    requires WellFormedArray(c, k) && !IsEmptyArray(c)
    ensures !Unmapped(c, k, 0, N_CHILDREN * Range(k))
  {
    var i :| 0 <= i < |c| && c[i] != Empty;
    var x := NonEmptyMapsSomething(c[i], k);
    AtArrayIndex(c, k, i, x);
    assert AtArray(c, k, Start(k, i) + x).Some?;
  }

  /** Both searches around a NULL entry in a non-empty child array: one of them finds a block, and
      whichever it is determines the closest block. */
  lemma SearchFindsClosest(c: seq<Entry>, l: nat, base: nat, e: Entry, k: nat, mem: Memory, order: seq<Slot>,
                           off: nat, idx: nat, left: Option<Slot>, lpos: nat, right: Option<Slot>, rpos: nat)
    requires WellFormed(e, k) && Sorted(mem, order) && PrevLinks(mem, order) && Represents(e, k, mem, order)
    requires SeesMap(c, l, base, e, k) && !IsEmptyArray(c)
    requires idx < N_CHILDREN && c[idx] == Empty
    requires base + Start(l, idx) <= off < base + Start(l, idx) + Range(l)
    requires left == None ==> Unmapped(c, l, 0, Start(l, idx))
    requires left.Some? ==> lpos < Start(l, idx) <= N_CHILDREN * Range(l) && AtArray(c, l, lpos) == left && Unmapped(c, l, lpos + 1, Start(l, idx))
    requires left == None && right == None ==> Unmapped(c, l, Start(l, idx + 1), N_CHILDREN * Range(l))
    requires left == None && right.Some? ==> Start(l, idx + 1) <= rpos < N_CHILDREN * Range(l) && AtArray(c, l, rpos) == right && Unmapped(c, l, Start(l, idx + 1), rpos)
    ensures left.Some? ==> IsClosest(mem, order, off, left)
    ensures left == None ==> right.Some? && right.value in mem && IsClosest(mem, order, off, mem[right.value].prev)
  {
    CursorAt(c, l, idx);
    EntryAtCursor(c, l, 0, c, l, idx, Start(l, idx));
    if left.Some? {
      forall y: nat | base + lpos < y <= off ensures LookupIn(e, k, y) == None {
        assert AtArray(c, l, y - base) == None;
      }
      ClosestFromBelow(e, k, mem, order, off, base + lpos);
    } else {
      NotAllUnmapped(c, l);
      forall y: nat | off <= y < base + rpos && right.Some? ensures LookupIn(e, k, y) == None {
        assert AtArray(c, l, y - base) == None;
      }
      ClosestFromAbove(e, k, mem, order, off, base + rpos);
    }
  }

  class OffsetMap {
    var entry: Entry
    var rangeLengthBits: nat

    ghost predicate Shape()
      reads this
    {
      && MIN_BITS <= rangeLengthBits <= 66
      && (rangeLengthBits - MIN_BITS) % N_CHILDREN_POW == 0
      && WellFormed(entry, Level())
      && !entry.Leaf?
    }

    /** Between calls the root is NULL exactly when the map has its initial range. */
    ghost predicate Valid()
      reads this
    {
      Shape() && (entry.Empty? <==> rangeLengthBits == MIN_BITS)
    }

    ghost function Level(): nat
      requires MIN_BITS <= rangeLengthBits
      reads this
    {
      (rangeLengthBits - MIN_BITS) / N_CHILDREN_POW
    }

    ghost function Lookup(off: nat): Option<Slot>
      requires Shape()
      reads this
    {
      LookupIn(entry, Level(), off)
    }

    constructor ()
      ensures Valid() && forall o: nat :: Lookup(o) == None
    {
      entry := Empty;
      rangeLengthBits := MIN_BITS;
    }

    method MaxMapOffset() returns (m: nat)
      requires Shape()
      ensures m + MIN_BLOCK_SIZE == if rangeLengthBits < 64 then Range(Level()) else TWO_64
    {
      RangeIsPow2(Level());
      if rangeLengthBits < 64 {
        m := Pow2(rangeLengthBits) - MIN_BLOCK_SIZE;
      } else {
        m := TWO_64 - MIN_BLOCK_SIZE;
      }
    }

    /** Adds a level on top of the tree; no offset changes its block. */
    method AddNewLevel()
      requires Shape() && rangeLengthBits < 64
      modifies this
      ensures Shape() && rangeLengthBits == old(rangeLengthBits) + N_CHILDREN_POW
      ensures forall o: nat :: Lookup(o) == old(Lookup(o))
    {
      ghost var k := Level();
      rangeLengthBits := rangeLengthBits + N_CHILDREN_POW;
      if entry != Empty {
        var newEntries := NoChildren()[0 := entry];
        NewLevelKeepsMap(entry, newEntries, k);
        entry := Internal(newEntries);
      }
    }

    /** Adds as many levels as it takes to cover [0, end). */
    method Grow(end: nat)
      requires Shape() && MIN_BLOCK_SIZE <= end < TWO_64
      modifies this
      ensures Shape() && rangeLengthBits > MIN_BITS && end < Range(Level())
      ensures forall o: nat :: Lookup(o) == old(Lookup(o))
    {
      var m := MaxMapOffset();
      while rangeLengthBits < 64 && m + MIN_BLOCK_SIZE <= end
        invariant Shape()
        invariant m + MIN_BLOCK_SIZE == if rangeLengthBits < 64 then Range(Level()) else TWO_64
        invariant forall o: nat :: Lookup(o) == old(Lookup(o))
        decreases 66 - rangeLengthBits
      {
        AddNewLevel();
        m := MaxMapOffset();
      }
      LevelCoversEnd(Level(), end);
    }

    /** Maps exactly the block's own offsets to it. */
    method InsertBlock(block: Slot, offset: nat, size: nat)
      requires Valid()
      requires size > 0 && Aligned(offset) && Aligned(size)
      requires offset + size < TWO_64 - MIN_BLOCK_SIZE
      requires forall o: nat :: offset <= o < offset + size ==> Lookup(o) == None
      modifies this
      ensures Valid()
      ensures forall o: nat :: Lookup(o) == if offset <= o < offset + size then Some(block) else old(Lookup(o))
    {
      Grow(offset + size);
      ghost var k := Level();
      RangeIsPow2(k - 1);
      var before := AllocatedChildren(entry);
      ghost var e := entry;
      assert forall o: nat :: offset <= o < offset + size ==> LookupIn(e, k, o) == None by {
        assert forall o: nat :: LookupIn(e, k, o) == Lookup(o);
      }
      ChildrenOfRoot(entry, before, k, offset, offset + size, None);
      var after := SetRange(before, Some(block), offset, size, Pow2(rangeLengthBits - N_CHILDREN_POW), k - 1, None);
      entry := Internal(after);
      ChildrenSet(e, before, after, entry, k, offset, offset + size, Some(block));
    }

    /** Unmaps exactly the block's own offsets and lowers the tree as far as it goes. */
    method RemoveBlock(block: Slot, offset: nat, size: nat)
      requires Valid()
      requires size > 0 && Aligned(offset) && Aligned(size)
      requires forall o: nat :: Lookup(o) == Some(block) <==> offset <= o < offset + size
      modifies this
      ensures Valid()
      ensures forall o: nat :: Lookup(o) == if offset <= o < offset + size then None else old(Lookup(o))
    {
      ghost var k := Level();
      ghost var e := entry;
      assert Lookup(offset) == Some(block) && Lookup(offset + size - 1) == Some(block);
      RangeIsPow2(k - 1);
      var before := entry.children;
      assert forall o: nat :: LookupIn(e, k, o) == Lookup(o);
      ChildrenOfRoot(entry, before, k, offset, offset + size, Some(block));
      var after := SetRange(before, None, offset, size, Pow2(rangeLengthBits - N_CHILDREN_POW), k - 1, Some(block));
      entry := CheckAndFreeRange(after);
      ChildrenSet(e, before, after, entry, k, offset, offset + size, None);
      Hoist();
    }

    /** Drops top levels in which only the first child is used; no offset changes its block. */
    method Hoist()
      requires Shape()
      modifies this
      ensures Valid()
      ensures forall o: nat :: Lookup(o) == old(Lookup(o))
    {
      while rangeLengthBits > MIN_BITS
        invariant Shape()
        invariant forall o: nat :: Lookup(o) == old(Lookup(o))
        decreases rangeLengthBits
      {
        if !entry.Internal? {
          rangeLengthBits := MIN_BITS;
        } else {
          var child := entry.children;
          assert WellFormedArray(child, Level() - 1);
          if !child[0].Internal? {
            return;
          }
          for i := 1 to N_CHILDREN
            invariant forall j :: 1 <= j < i ==> child[j] == Empty
          {
            if child[i] != Empty {
              return;
            }
          }
          HoistKeepsMap(child, Level());
          entry := Internal(child[0].children);
          rangeLengthBits := rangeLengthBits - N_CHILDREN_POW;
        }
      }
    }

    ghost predicate Maps(mem: Memory, order: seq<Slot>)
      reads this
    {
      && Valid()
      && (forall s :: s in order ==> s in mem)
      && Represents(entry, Level(), mem, order)
    }

    /** Follows the bits of `off` down to the first entry that is not internal; `children` is the
        array holding that entry, or empty when it is the root. */
    method FindEntry(off: nat) returns (e: Entry, children: seq<Entry>, idx: nat, ghost level: nat, ghost start: nat)
      requires Valid() && off < Range(Level())
      ensures !e.Internal?
      ensures e.Leaf? ==> LookupIn(entry, Level(), off) == Some(e.block)
      ensures children == [] ==> e == entry
      ensures children != [] ==>
                && SeesMap(children, level, start, entry, Level()) && !IsEmptyArray(children)
                && idx < N_CHILDREN && e == children[idx]
                && start + Start(level, idx) <= off < start + Start(level, idx) + Range(level)
    {
      e, children, idx := entry, [], 0;
      var bits := rangeLengthBits;
      ghost var k := Level();
      ghost var base: nat, q: nat := 0, 0;
      level, start := k, 0;
      assert forall y: nat :: y < Range(k) ==> LookupIn(entry, k, y) == At(entry, k, y);
      while e.Internal?
        invariant bits == MIN_BITS + N_CHILDREN_POW * level
        invariant base == q * Range(level) && base <= off < base + Range(level)
        invariant e.Internal? ==> level > 0 && SeesMap(e.children, level - 1, base, entry, k) && !IsEmptyArray(e.children)
        invariant e.Leaf? ==> LookupIn(entry, k, off) == Some(e.block)
        invariant children == [] ==> e == entry
        invariant children != [] ==>
                    && SeesMap(children, level, start, entry, k) && !IsEmptyArray(children)
                    && base == start + Start(level, idx) && idx < N_CHILDREN && e == children[idx]
        decreases level
      {
        children := e.children;
        bits := bits - N_CHILDREN_POW;
        level := level - 1;
        RangeIsPow2(level);
        idx := (off / Pow2(bits)) % N_CHILDREN;
        Descend(children, level, base, q, entry, k, off, idx);
        start, q, base := base, N_CHILDREN * q + idx, base + Start(level, idx);
        e := children[idx];
      }
    }

    /** The block with the greatest offset not above `offset`. */
    method FindClosest(offset: nat, mem: Memory, ghost order: seq<Slot>) returns (r: Option<Slot>)
      requires Maps(mem, order) && Sorted(mem, order) && PrevLinks(mem, order)
      requires forall i :: 0 <= i < |order| ==> mem[order[i]].offset + mem[order[i]].size <= TWO_64
      ensures IsClosest(mem, order, offset, r)
    {
      hide Sorted, IsClosest;
      var off := MaxMapOffset();
      ghost var k := Level();
      EndsWithinRange(entry, k, mem, order);
      LastGranuleInRange(k, off);
      if offset > off {
        ClampKeepsClosest(mem, order, off, offset);
      } else {
        off := offset;
      }
      var e, children, idx, level, start := FindEntry(off);
      if e.Leaf? {
        ClosestFromBelow(entry, k, mem, order, off, off);
        return Some(e.block);
      }
      if children == [] {
        EmptyMapNoBlocks(k, mem, order, off);
        return None;
      }
      var left, lpos := ScanLeft(children, idx, level);
      if left.Some? {
        SearchFindsClosest(children, level, start, entry, k, mem, order, off, idx, left, lpos, None, 0);
        return left;
      }
      // the array is not empty, so this search succeeds
      var right, rpos := ScanRight(children, idx + 1, level);
      SearchFindsClosest(children, level, start, entry, k, mem, order, off, idx, left, lpos, right, rpos);
      r := mem[right.value].prev;
    }
  }

  lemma LastGranuleInRange(k: nat, m: nat)
    requires m + MIN_BLOCK_SIZE == if MIN_BITS + N_CHILDREN_POW * k < 64 then Range(k) else TWO_64
    ensures m < Range(k)
  {
    if MIN_BITS + N_CHILDREN_POW * k >= 64 {
      LevelCoversEnd(k, m);
    }
  }

  lemma EmptyMapNoBlocks(k: nat, mem: Memory, order: seq<Slot>, off: nat)
    requires Sorted(mem, order) && Represents(Empty, k, mem, order)
    ensures order == [] && IsClosest(mem, order, off, None)
  {
    if order != [] {
      MapsBlock(Empty, k, mem, order, 0, mem[order[0]].offset);
    }
  }

  /** Every block ends within the range of the tree. */
  lemma EndsWithinRange(e: Entry, k: nat, mem: Memory, order: seq<Slot>)
    requires WellFormed(e, k) && Sorted(mem, order) && Represents(e, k, mem, order)
    ensures forall i :: 0 <= i < |order| ==> mem[order[i]].offset + mem[order[i]].size <= Range(k)
  {
    forall i | 0 <= i < |order|
      ensures mem[order[i]].offset + mem[order[i]].size <= Range(k)
    {
      MapsBlock(e, k, mem, order, i, mem[order[i]].offset + mem[order[i]].size - 1);
    }
  }

  /** Searching from the last granule of the range instead of from beyond it finds the same block. */
  lemma ClampKeepsClosest(mem: Memory, order: seq<Slot>, m: nat, off: nat)
    requires Sorted(mem, order)
    requires forall i :: 0 <= i < |order| ==> mem[order[i]].offset + mem[order[i]].size <= m + MIN_BLOCK_SIZE
    requires m < off
    ensures forall r :: IsClosest(mem, order, m, r) ==> IsClosest(mem, order, off, r)
  {
  }

  lemma LevelCoversEnd(k: nat, end: nat)
    requires MIN_BLOCK_SIZE <= end < TWO_64
    requires if MIN_BITS + N_CHILDREN_POW * k < 64 then end < Range(k) else true
    ensures k > 0 && end < Range(k)
  {
    if k >= 13 {
      RangeMonotone(13, k);
      assert Range(4) == 0x4000_0000;
      assert Range(8) == 0x4000_0000_0000;
      assert Range(12) == 0x4000_0000_0000_0000;
    }
  }

  lemma ChildrenOfRoot(e: Entry, c: seq<Entry>, k: nat, lo: nat, hi: nat, was: Option<Slot>)
    requires k > 0 && WellFormed(e, k) && !e.Leaf? && c == AllocatedChildren(e)
    requires hi <= Range(k) && (e == Empty ==> was == None)
    requires forall o: nat :: if lo <= o < hi then LookupIn(e, k, o) == was
                         else was == None || LookupIn(e, k, o) != was
    ensures WellFormedArray(c, k - 1) && Overwritable(c, k - 1, lo, hi, was)
  {
    assert OverwritableEntry(e, k, lo, hi, was) by {
      forall x {:trigger At(e, k, x)} | 0 <= x < Range(k)
        ensures if lo <= x < hi then At(e, k, x) == was else was == None || At(e, k, x) != was
      {
        assert LookupIn(e, k, x) == At(e, k, x);
      }
    }
    ChildrenOverwritable(e, c, k, lo, hi, was);
  }
}
