/** Reading a directory (getdents.c): the cursor of a handle, the records, and their reader in the FUSE front end. */
module Getdents {
  import opened Layout

  /** A byte, as a number. */
  type Octet = n: nat | n < 256

  /** Names are between 1 and 255 bytes long and hold no zero byte. */
  datatype Entry = Entry(inode: nat, kind: Octet, name: seq<Octet>)

  ghost predicate ValidEntry(e: Entry) {
    e.inode < TWO_64 && 0 < |e.name| <= 255 && forall i :: 0 <= i < |e.name| ==> e.name[i] != 0
  }

  /** The chain of arrays of a directory; a free slot has no entry. */
  type Chain = seq<seq<Option<Entry>>>

  ghost predicate ValidChain(dir: Chain) {
    && 0 < |dir| < TWO_32 && (forall i :: 0 <= i < |dir| ==> 0 < |dir[i]| < TWO_32)
    && forall i, j :: 0 <= i < |dir| && 0 <= j < |dir[i]| && dir[i][j].Some? ==> ValidEntry(dir[i][j].value)
  }

  // ---------------------------------------------------------------- offsets

  /** An offset: the number of the array above, the slot below bit 32. */
  function Off(i: nat, j: nat): (o: nat) {
    i * TWO_32 + j
  }

  function DirId(o: nat): nat { o / TWO_32 }

  function SlotId(o: nat): nat { o % TWO_32 }

  lemma OffParts(i: nat, j: nat)
    requires j < TWO_32
    ensures DirId(Off(i, j)) == i && SlotId(Off(i, j)) == j
    ensures Off(i, j) == 0 <==> i == 0 && j == 0
  {
  }

  /** get_next_dirent_off */
  function NextOff(dir: Chain, i: nat, j: nat): (o: nat)
    requires i < |dir|
  {
    if j + 1 >= |dir[i]| then Off(i + 1, 0) else Off(i, j + 1)
  }

  // ---------------------------------------------------------------- what is left from a position on

  datatype Rec = Rec(i: nat, j: nat)

  /** The places of the entries from slot `j` of array `i` on, in slot order. */
  ghost function Rest(dir: Chain, i: nat, j: nat): seq<Rec>
    decreases |dir| - i, if i < |dir| && j <= |dir[i]| then |dir[i]| - j + 1 else 0
  {
    if i >= |dir| then []
    else if j >= |dir[i]| then Rest(dir, i + 1, 0)
    else (if dir[i][j].Some? then [Rec(i, j)] else []) + Rest(dir, i, j + 1)
  }

  lemma {:induction false} RestIsLive(dir: Chain, i: nat, j: nat, k: nat)
    requires k < |Rest(dir, i, j)|
    ensures var r := Rest(dir, i, j)[k]; r.i < |dir| && r.j < |dir[r.i]| && dir[r.i][r.j].Some? && (i < r.i || (i == r.i && j <= r.j))
    decreases |dir| - i, if i < |dir| && j <= |dir[i]| then |dir[i]| - j + 1 else 0
  {
    if j >= |dir[i]| {
      RestIsLive(dir, i + 1, 0, k);
    } else if dir[i][j].Some? {
      if k > 0 {
        RestIsLive(dir, i, j + 1, k - 1);
      }
    } else {
      RestIsLive(dir, i, j + 1, k);
    }
  }

  lemma RestDef(dir: Chain, i: nat, j: nat)
    ensures i >= |dir| ==> Rest(dir, i, j) == []
    ensures i < |dir| && j >= |dir[i]| ==> Rest(dir, i, j) == Rest(dir, i + 1, 0)
    ensures i < |dir| && j < |dir[i]| && dir[i][j].None? ==> Rest(dir, i, j) == Rest(dir, i, j + 1)
    ensures i < |dir| && j < |dir[i]| && dir[i][j].Some? ==> Rest(dir, i, j) == [Rec(i, j)] + Rest(dir, i, j + 1)
  {
  }

  /** Slot `r` comes before slot `t`. */
  predicate Earlier(r: Rec, t: Rec) {
    r.i < t.i || (r.i == t.i && r.j < t.j)
  }

  /** Every entry from a position on is in the rest. */
  lemma {:induction false} RestHas(dir: Chain, i: nat, j: nat, r: Rec)
    requires r.i < |dir| && r.j < |dir[r.i]| && dir[r.i][r.j].Some? && !Earlier(r, Rec(i, j))
    ensures r in Rest(dir, i, j)
    decreases |dir| - i, if i < |dir| && j <= |dir[i]| then |dir[i]| - j + 1 else 0
  {
    if j >= |dir[i]| {
      RestHas(dir, i + 1, 0, r);
    } else if r != Rec(i, j) {
      RestHas(dir, i, j + 1, r);
    }
  }

  /** The rest is in slot order and has no slot twice. */
  lemma {:induction false} RestInOrder(dir: Chain, i: nat, j: nat, k: nat, l: nat)
    requires k < l < |Rest(dir, i, j)|
    ensures Earlier(Rest(dir, i, j)[k], Rest(dir, i, j)[l])
    decreases |dir| - i, if i < |dir| && j <= |dir[i]| then |dir[i]| - j + 1 else 0
  {
    if j >= |dir[i]| {
      RestInOrder(dir, i + 1, 0, k, l);
    } else if dir[i][j].None? {
      RestInOrder(dir, i, j + 1, k, l);
    } else if k > 0 {
      RestInOrder(dir, i, j + 1, k - 1, l - 1);
    } else {
      RestIsLive(dir, i, j + 1, l - 1);
    }
  }

  /** From the place of one entry on, the rest is that entry and the ones after it. */
  lemma {:induction false} RestFrom(dir: Chain, i: nat, j: nat, k: nat)
    requires k < |Rest(dir, i, j)|
    ensures var r := Rest(dir, i, j)[k]; Rest(dir, r.i, r.j) == Rest(dir, i, j)[k..] && Rest(dir, r.i, r.j + 1) == Rest(dir, i, j)[k + 1..]
    decreases |dir| - i, if i < |dir| && j <= |dir[i]| then |dir[i]| - j + 1 else 0
  {
    hide Rest;
    RestDef(dir, i, j);
    var all := Rest(dir, i, j);
    if j >= |dir[i]| {
      RestFrom(dir, i + 1, 0, k);
    } else if dir[i][j].None? {
      RestFrom(dir, i, j + 1, k);
    } else {
      var rest := Rest(dir, i, j + 1);
      if k == 0 {
        assert all[0] == Rec(i, j) && all[0..] == all && all[1..] == rest;
      } else {
        RestFrom(dir, i, j + 1, k - 1);
        assert all[k] == rest[k - 1] && all[k..] == rest[k - 1..] && all[k + 1..] == rest[k..];
      }
    }
  }

  // ---------------------------------------------------------------- records

  /** A number in `k` bytes, the lowest first. */
  function Little(n: nat, k: nat): (b: seq<Octet>)
    ensures |b| == k
  {
    if k == 0 then [] else [n % 256] + Little(n / 256, k - 1)
  }

  function Value(b: seq<Octet>): nat {
    if b == [] then 0 else b[0] + 256 * Value(b[1..])
  }

  function Pow256(k: nat): (p: nat)
    ensures p > 0
  {
    if k == 0 then 1 else 256 * Pow256(k - 1)
  }

  lemma {:induction false} LittleValue(n: nat, k: nat)
    requires n < Pow256(k)
    ensures Value(Little(n, k)) == n
  {
    if k > 0 {
      LittleValue(n / 256, k - 1);
      assert Little(n, k)[1..] == Little(n / 256, k - 1);
    }
  }

  lemma Pow256Of8()
    ensures Pow256(2) == 65536 && Pow256(8) == TWO_64
  {
    assert Pow256(4) == 256 * 256 * 256 * 256;
    assert Pow256(6) == 256 * 256 * Pow256(4);
    assert Pow256(8) == 256 * 256 * Pow256(6);
  }

  /** align_dirent_size */
  function Padding(len: nat): (p: nat)
    ensures p < 8 && (len + p) % 8 == 0
  {
    var alignment := 8 - len % 8;
    if alignment == 8 then 0 else alignment
  }

  function Nuls(n: nat): (b: seq<Octet>)
    ensures |b| == n && forall i :: 0 <= i < n ==> b[i] == 0
  {
    seq(n, _ => 0)
  }

  /** Inode and offset, length and type: what comes before the name. */
  const HEADER: nat := 8 + 8 + 2 + 1

  function RecordLength(e: Entry): (n: nat)
    ensures n % 8 == 0 && HEADER + |e.name| + 1 <= n < HEADER + |e.name| + 9
  {
    var slen := HEADER + |e.name| + 1;
    slen + Padding(slen)
  }

  /** fill_dirent64 */
  function Encode(e: Entry, next: nat): (b: seq<Octet>)
    ensures |b| == RecordLength(e)
  {
    var slen := HEADER + |e.name| + 1;
    Little(e.inode, 8) + Little(next, 8) + Little(RecordLength(e), 2) + [e.kind] + e.name + [0] + Nuls(Padding(slen))
  }

  ghost function EncodeAll(dir: Chain, rs: seq<Rec>): seq<Octet>
    requires forall k :: 0 <= k < |rs| ==> rs[k].i < |dir| && rs[k].j < |dir[rs[k].i]| && dir[rs[k].i][rs[k].j].Some?
  {
    if rs == [] then [] else EncodeAll(dir, rs[..|rs| - 1]) + EncodeRec(dir, rs[|rs| - 1])
  }

  ghost function EncodeRec(dir: Chain, r: Rec): seq<Octet>
    requires r.i < |dir| && r.j < |dir[r.i]| && dir[r.i][r.j].Some?
  {
    Encode(dir[r.i][r.j].value, NextOff(dir, r.i, r.j))
  }

  // ---------------------------------------------------------------- reading the records back

  /** The bytes from `i` up to the first zero. */
  function CString(b: seq<Octet>, i: nat): seq<Octet>
    requires i <= |b|
    decreases |b| - i
  {
    if i == |b| || b[i] == 0 then [] else [b[i]] + CString(b, i + 1)
  }

  lemma {:induction false} CStringIs(b: seq<Octet>, i: nat, name: seq<Octet>)
    requires i + |name| < |b| && b[i..i + |name|] == name && b[i + |name|] == 0
    requires forall k :: 0 <= k < |name| ==> name[k] != 0
    ensures CString(b, i) == name
    decreases |name|
  {
    if name != [] {
      assert b[i] == b[i..i + |name|][0];
      assert b[i + 1..i + 1 + |name[1..]|] == b[i..i + |name|][1..];
      CStringIs(b, i + 1, name[1..]);
    }
  }

  /** Where the fields of a record are. */
  lemma FieldsOf(e: Entry, next: nat)
    ensures var r := Encode(e, next);
      && r[0..8] == Little(e.inode, 8) && r[8..16] == Little(next, 8) && r[16..18] == Little(RecordLength(e), 2) && r[18] == e.kind
      && r[HEADER..HEADER + |e.name|] == e.name && r[HEADER + |e.name|] == 0
  {
    var a, b, c := Little(e.inode, 8), Little(next, 8), Little(RecordLength(e), 2);
    var z := Nuls(Padding(HEADER + |e.name| + 1));
    var r := Encode(e, next);
    assert r == a + (b + (c + ([e.kind] + (e.name + ([0] + z)))));
  }

  lemma SliceOfSlice(b: seq<Octet>, i: nat, n: nat, from: nat, to: nat)
    requires i + n <= |b| && from <= to <= n
    ensures b[i + from..i + to] == b[i..i + n][from..to]
  {
    var whole := b[i..i + n];
    forall k | 0 <= k < to - from
      ensures b[i + from..i + to][k] == whole[from..to][k]
    {
      assert whole[from + k] == b[i + (from + k)];
    }
  }

  lemma FieldsAt(b: seq<Octet>, i: nat, e: Entry, next: nat)
    requires i + RecordLength(e) <= |b| && b[i..i + RecordLength(e)] == Encode(e, next) && ValidEntry(e) && next < TWO_64
    ensures Value(b[i..i + 8]) == e.inode && b[i + 18] == e.kind
    ensures Value(b[i + 8..i + 16]) == next && Value(b[i + 16..i + 18]) == RecordLength(e) && CString(b, i + HEADER) == e.name
  {
    hide Encode, RecordLength, Little, Value, CString;
    var n, r := RecordLength(e), Encode(e, next);
    FieldsOf(e, next);
    Pow256Of8();
    LittleValue(e.inode, 8);
    LittleValue(next, 8);
    LittleValue(n, 2);
    SliceOfSlice(b, i, n, 0, 8);
    assert b[i + 18] == b[i..i + n][18];
    SliceOfSlice(b, i, n, 8, 16);
    SliceOfSlice(b, i, n, 16, 18);
    SliceOfSlice(b, i, n, HEADER, HEADER + |e.name|);
    assert b[i + HEADER + |e.name|] == b[i..i + n][HEADER + |e.name|];
    CStringIs(b, i + HEADER, e.name);
  }

  /** A record as the interface describes it. */
  datatype Dirent64 = Dirent64(inode: nat, off: nat, kind: Octet, name: seq<Octet>)

  /** The records in a buffer, one after the other, each as long as its length field says. */
  function Decode(b: seq<Octet>): seq<Dirent64> {
    if |b| < HEADER then []
    else
      var len := Value(b[16..18]);
      if len == 0 || len > |b| then []
      else [Dirent64(Value(b[0..8]), Value(b[8..16]), b[18], CString(b, HEADER))] + Decode(b[len..])
  }

  /** `ds` describes the entries in the slots `rs`: inode number, offset of the next slot, type and name. */
  ghost predicate Describes(dir: Chain, rs: seq<Rec>, ds: seq<Dirent64>)
    requires AreLive(dir, rs)
  {
    && |ds| == |rs|
    && forall k :: 0 <= k < |rs| ==>
         && ds[k].inode == dir[rs[k].i][rs[k].j].value.inode && ds[k].kind == dir[rs[k].i][rs[k].j].value.kind
         && ds[k].name == dir[rs[k].i][rs[k].j].value.name && ds[k].off == NextOff(dir, rs[k].i, rs[k].j)
  }

  lemma DecodeOne(e: Entry, next: nat, rest: seq<Octet>)
    requires ValidEntry(e) && next < TWO_64
    ensures Decode(Encode(e, next) + rest) == [Dirent64(e.inode, next, e.kind, e.name)] + Decode(rest)
  {
    hide Encode, RecordLength, Value, CString, ValidEntry;
    var b, n := Encode(e, next) + rest, RecordLength(e);
    assert b[0..0 + n] == Encode(e, next) && b[n..] == rest;
    FieldsAt(b, 0, e, next);
  }

  lemma DescribesMore(dir: Chain, r: Rec, rs: seq<Rec>, d: Dirent64, ds: seq<Dirent64>)
    requires AreLive(dir, rs) && AreLive(dir, [r] + rs) && Describes(dir, rs, ds) && IsLive(dir, r)
    requires var e := dir[r.i][r.j].value; d == Dirent64(e.inode, NextOff(dir, r.i, r.j), e.kind, e.name)
    ensures Describes(dir, [r] + rs, [d] + ds)
  {
    hide NextOff;
  }

  ghost predicate IsLive(dir: Chain, r: Rec) {
    r.i < |dir| && r.j < |dir[r.i]| && dir[r.i][r.j].Some?
  }

  lemma FirstEncoded(dir: Chain, r: Rec, rs: seq<Rec>)
    requires IsLive(dir, r) && AreLive(dir, rs)
    ensures AreLive(dir, [r] + rs)
    ensures EncodeAll(dir, [r] + rs) == Encode(dir[r.i][r.j].value, NextOff(dir, r.i, r.j)) + EncodeAll(dir, rs)
  {
    hide Encode, NextOff;
    EncodedConcat(dir, [r], rs);
    assert [r][..0] == [];
  }

  lemma EntryIsValid(dir: Chain, r: Rec)
    requires ValidChain(dir) && IsLive(dir, r)
    ensures ValidEntry(dir[r.i][r.j].value) && NextOff(dir, r.i, r.j) < TWO_64
  {
    OffsetsFit(dir, r);
  }

  /** Decoding what was encoded gives the entries back, with all their fields and in their order. */
  lemma {:induction false} DecodeAll(dir: Chain, rs: seq<Rec>)
    requires ValidChain(dir) && AreLive(dir, rs)
    ensures Describes(dir, rs, Decode(EncodeAll(dir, rs)))
    decreases |rs|
  {
    hide Encode, EncodeAll, Decode, ValidEntry, NextOff, Describes, ValidChain;
    if rs == [] {
      DecodeNothing(dir);
    } else {
      var r, tail := rs[0], rs[1..];
      var e := dir[r.i][r.j].value;
      DecodeAll(dir, tail);
      assert rs == [r] + tail;
      FirstEncoded(dir, r, tail);
      EntryIsValid(dir, r);
      DecodeOne(e, NextOff(dir, r.i, r.j), EncodeAll(dir, tail));
      DescribesMore(dir, r, tail, Dirent64(e.inode, NextOff(dir, r.i, r.j), e.kind, e.name), Decode(EncodeAll(dir, tail)));
    }
  }

  lemma DecodeNothing(dir: Chain)
    ensures AreLive(dir, []) && Describes(dir, [], Decode(EncodeAll(dir, [])))
  {
  }

  ghost predicate AreLive(dir: Chain, rs: seq<Rec>) {
    forall k :: 0 <= k < |rs| ==> rs[k].i < |dir| && rs[k].j < |dir[rs[k].i]| && dir[rs[k].i][rs[k].j].Some?
  }

  lemma {:induction false} EncodedPrefix(dir: Chain, rs: seq<Rec>, k: nat)
    requires AreLive(dir, rs) && k <= |rs|
    ensures EncodeAll(dir, rs[..k]) <= EncodeAll(dir, rs)
  {
    if k == |rs| {
      assert rs[..k] == rs;
    } else {
      EncodedPrefix(dir, rs[..|rs| - 1], k);
      assert rs[..|rs| - 1][..k] == rs[..k];
    }
  }

  /** The k-th record follows the ones before it. */
  lemma RecordAt(dir: Chain, rs: seq<Rec>, k: nat)
    requires AreLive(dir, rs) && k < |rs|
    ensures var at, r := |EncodeAll(dir, rs[..k])|, EncodeRec(dir, rs[k]);
      at + |r| <= |EncodeAll(dir, rs)| && EncodeAll(dir, rs)[at..at + |r|] == r && |EncodeAll(dir, rs[..k + 1])| == at + |r|
  {
    hide EncodeRec;
    EncodedPrefix(dir, rs, k + 1);
    assert rs[..k + 1][..k] == rs[..k];
    var all, upTo := EncodeAll(dir, rs), EncodeAll(dir, rs[..k + 1]);
    assert upTo == EncodeAll(dir, rs[..k]) + EncodeRec(dir, rs[k]);
    var at, r := |EncodeAll(dir, rs[..k])|, EncodeRec(dir, rs[k]);
    assert all[at..at + |r|] == all[..|upTo|][at..];
  }

  lemma OffsetsFit(dir: Chain, r: Rec)
    requires ValidChain(dir) && r.i < |dir| && r.j < |dir[r.i]|
    ensures NextOff(dir, r.i, r.j) < TWO_64
  {
  }

  /** The loop of pmemfile_fuse_readdir over one buffer: it passes on exactly the names and the offsets that were
      encoded, in order. */
  method ParseRecords(b: seq<Octet>, ghost dir: Chain, ghost rs: seq<Rec>) returns (found: seq<(seq<Octet>, nat)>)
    requires ValidChain(dir) && AreLive(dir, rs) && b == EncodeAll(dir, rs)
    ensures |found| == |rs|
    ensures forall k :: 0 <= k < |rs| ==> found[k] == (dir[rs[k].i][rs[k].j].value.name, NextOff(dir, rs[k].i, rs[k].j))
  {
    hide EncodeAll, Encode, RecordLength, Value, CString, NextOff;
    found := [];
    ghost var k := 0;
    assert rs[..0] == [];
    NothingEncoded(dir);
    var i := 0;
    while i < |b|
      invariant 0 <= k <= |rs| && |found| == k && i == |EncodeAll(dir, rs[..k])|
      invariant forall m :: 0 <= m < k ==> found[m] == (dir[rs[m].i][rs[m].j].value.name, NextOff(dir, rs[m].i, rs[m].j))
      decreases |rs| - k
    {
      AllEncoded(dir, rs, k);
      RecordAt(dir, rs, k);
      OffsetsFit(dir, rs[k]);
      FieldsAt(b, i, dir[rs[k].i][rs[k].j].value, NextOff(dir, rs[k].i, rs[k].j));
      i := i + 8;
      var nextOff := Value(b[i..i + 8]);
      i := i + 8;
      var recLen := Value(b[i..i + 2]);
      i := i + 2;
      i := i + 1;
      found := found + [(CString(b, i), nextOff)];
      i := i + recLen;
      i := i - (8 + 8 + 2 + 1);
      k := k + 1;
    }
    if k < |rs| {
      RecordAt(dir, rs, k);
    }
  }

  lemma NothingEncoded(dir: Chain)
    ensures EncodeAll(dir, []) == []
  {
  }

  lemma AllEncoded(dir: Chain, rs: seq<Rec>, k: nat)
    requires AreLive(dir, rs) && k <= |rs| && |EncodeAll(dir, rs[..k])| < |EncodeAll(dir, rs)|
    ensures k < |rs|
  {
    assert rs[..|rs|] == rs;
  }

  // ---------------------------------------------------------------- the cursor

  /** What getdents64 returns: records, zero at the end, ENOENT or EINVAL. */
  datatype Result = Records(bytes: seq<Octet>) | End | NoEntry | TooSmall

  /** The slot that is `j` slots after the start of array `i`. */
  ghost function Normal(dir: Chain, i: nat, j: nat): Option<Rec>
    requires i < |dir|
    decreases |dir| - i
  {
    if j < |dir[i]| then Some(Rec(i, j)) else if i + 1 >= |dir| then None else Normal(dir, i + 1, j - |dir[i]|)
  }

  class Cursor {
    const dir: Chain
    var offset: nat
    /** The array the cursor is in, once it is known, and its number. */
    var pos: Option<nat>
    var dirId: nat

    /** A newly opened directory. */
    constructor (dir: Chain)
      requires ValidChain(dir)
      ensures this.dir == dir && Sane() && offset == 0 && pos == None && dirId == 0
    {
      this.dir, offset, pos, dirId := dir, 0, None, 0;
    }

    ghost predicate Sane()
      reads this
    {
      ValidChain(dir) && (pos.Some? ==> pos.value == dirId < |dir|) && (pos.None? ==> dirId == 0)
    }

    /** The slot the offset stands for. */
    ghost function Target(): Option<Rec>
      requires Sane()
      reads this
    {
      if offset == 0 then Normal(dir, 0, 0)
      else if DirId(offset) == dirId then (if pos.None? then None else Normal(dir, dirId, SlotId(offset)))
      else if DirId(offset) >= |dir| then None
      else Normal(dir, DirId(offset), SlotId(offset))
    }

    ghost predicate At(i: nat, j: nat)
      reads this
    {
      offset == Off(i, j) && pos == Some(i) && dirId == i
    }

    /** file_seek_dir */
    method SeekDir() returns (ok: bool, i: nat, j: nat)
      requires Sane()
      modifies this
      ensures Sane() && (ok <==> old(Target()).Some?)
      ensures ok ==> old(Target()) == Some(Rec(i, j)) && At(i, j) && i < |dir| && j < |dir[i]|
      ensures !ok ==> offset == old(offset)
    {
      hide Normal, ValidEntry;
      ok, i, j := false, 0, 0;
      ghost var target := Target();
      if offset == 0 {
        pos, dirId := Some(0), 0;
      } else if DirId(offset) == dirId {
        if pos.None? {
          return;
        }
        i := pos.value;
      } else {
        while DirId(offset) != i
          invariant 0 <= i < |dir| && i <= DirId(offset)
          invariant offset == old(offset) && pos == old(pos) && dirId == old(dirId)
          decreases DirId(offset) - i
        {
          if i + 1 >= |dir| {
            return;
          }
          i := i + 1;
        }
        pos, dirId := Some(i), i;
      }
      j := SlotId(offset);
      assert target == Normal(dir, i, j);
      NormalDef(dir, i, j);
      while j >= |dir[i]|
        invariant 0 <= i < |dir| && offset == old(offset) && pos == Some(i) && dirId == i
        invariant target == Normal(dir, i, j)
        decreases |dir| - i
      {
        NormalDef(dir, i, j);
        if i + 1 >= |dir| {
          return;
        }
        j := j - |dir[i]|;
        i := i + 1;
        pos, dirId := Some(i), i;
      }
      NormalDef(dir, i, j);
      offset := Off(dirId, j);
      ok := true;
    }

    /** pmemfile_getdents_worker with 64-bit records: as many of the entries left as fit, in slot order. Afterwards the
        cursor is at the first one that did not fit, or behind the last slot. */
    method Getdents(count: nat) returns (r: Result, ghost k: nat)
      requires Sane()
      modifies this
      ensures Sane()
      ensures r.End? <==> old(Target()).None?
      ensures r.End? ==> offset == old(offset)
      ensures old(Target()).Some? ==>
        && var t := old(Target()).value;
        && var rest := Rest(dir, t.i, t.j);
        && AreLive(dir, rest) && k <= |rest|
        && (r.Records? <==> k > 0) && (r.NoEntry? <==> rest == [])
        && (r.Records? ==> r.bytes == EncodeAll(dir, rest[..k]) && |r.bytes| <= count && Describes(dir, rest[..k], Decode(r.bytes)))
        && (if k == |rest| then At(|dir| - 1, |dir[|dir| - 1]|)
            else At(rest[k].i, rest[k].j) && |EncodeAll(dir, rest[..k])| + |EncodeRec(dir, rest[k])| > count)
    {
      hide Rest, EncodeAll, EncodeRec, Normal, ValidEntry, Off, AreLive, Describes, Decode;
      var ok, i, j := SeekDir();
      if !ok {
        return End, 0;
      }
      LiveRest(dir, i, j);
      r, k := Fill(i, j, count);
      PrefixLive(dir, Rest(dir, i, j), k);
      DecodeAll(dir, Rest(dir, i, j)[..k]);
    }

    /** The loop of pmemfile_getdents_worker. */
    method Fill(i0: nat, j0: nat, count: nat) returns (r: Result, ghost k: nat)
      requires Sane() && i0 < |dir| && j0 < |dir[i0]| && At(i0, j0)
      modifies this
      ensures Sane() && !r.End?
      ensures var rest := Rest(dir, i0, j0);
        && AreLive(dir, rest) && k <= |rest|
        && (r.Records? <==> k > 0) && (r.NoEntry? <==> rest == [])
        && (r.Records? ==> r.bytes == EncodeAll(dir, rest[..k]) && |r.bytes| <= count)
        && (if k == |rest| then At(|dir| - 1, |dir[|dir| - 1]|)
            else At(rest[k].i, rest[k].j) && |EncodeAll(dir, rest[..k])| + |EncodeRec(dir, rest[k])| > count)
    {
      hide Rest, EncodeAll, EncodeRec, Encode, RecordLength, ValidEntry, NextOff, Off, Sane, NextDirentOff;
      SaneChain();
      k := 0;
      var i: nat, j: nat := i0, j0;
      ghost var rest := Rest(dir, i, j);
      LiveRest(dir, i, j);
      NothingEncoded(dir);
      assert rest[..0] == [] && rest[0..] == rest;
      var bytes: seq<Octet> := [];
      while true
        invariant i < |dir| && j <= |dir[i]| && At(i, j)
        invariant 0 <= k <= |rest| && Rest(dir, i, j) == rest[k..]
        invariant bytes == EncodeAll(dir, rest[..k]) && |bytes| <= count && (|bytes| > 0 <==> k > 0)
        decreases |dir| - i, |dir[i]| - j
      {
        RestDef(dir, i, j);
        if j >= |dir[i]| {
          if i + 1 >= |dir| {
            RestDef(dir, i + 1, 0);
            SaneAt(i, j);
            break;
          }
          i := i + 1;
          j := 0;
          pos, dirId, offset := Some(i), i, Off(i, 0);
          RestDef(dir, i, j);
        }
        OffStep(i, j);
        if dir[i][j].None? {
          j := j + 1;
          offset := offset + 1;
          continue;
        }
        var record := Encode(dir[i][j].value, NextDirentOff(j));
        RecordIs(i, j);
        assert rest[k..][0] == Rec(i, j);
        if |record| > count - |bytes| {
          SaneAt(i, j);
          return if |bytes| == 0 then TooSmall else Records(bytes), k;
        }
        OneMoreRecord(dir, rest, k);
        bytes := bytes + record;
        k := k + 1;
        j := j + 1;
        offset := offset + 1;
      }
      r := if |bytes| == 0 then NoEntry else Records(bytes);
    }

    lemma RecordIs(i: nat, j: nat)
      requires ValidChain(dir) && i < |dir| && j < |dir[i]| && dir[i][j].Some? && At(i, j)
      ensures Encode(dir[i][j].value, NextDirentOff(j)) == EncodeRec(dir, Rec(i, j))
    {
      hide Encode, ValidEntry;
      NextOffIs(dir, i, j);
    }

    lemma SaneChain()
      requires Sane()
      ensures ValidChain(dir)
    {
    }

    lemma SaneAt(i: nat, j: nat)
      requires ValidChain(dir) && i < |dir| && At(i, j)
      ensures Sane()
    {
    }

    /** get_next_dirent_off */
    function NextDirentOff(slot: nat): nat
      requires pos.Some? && pos.value < |dir|
      reads this
    {
      var next := offset + 1;
      if slot + 1 >= |dir[pos.value]| then (next / TWO_32 + 1) * TWO_32 else next
    }
  }

  lemma NormalDef(dir: Chain, i: nat, j: nat)
    requires i < |dir|
    ensures Normal(dir, i, j) ==
      if j < |dir[i]| then Some(Rec(i, j)) else if i + 1 >= |dir| then None else Normal(dir, i + 1, j - |dir[i]|)
  {
  }

  lemma LiveRest(dir: Chain, i: nat, j: nat)
    ensures AreLive(dir, Rest(dir, i, j))
  {
    forall k | 0 <= k < |Rest(dir, i, j)|
      ensures var r := Rest(dir, i, j)[k]; r.i < |dir| && r.j < |dir[r.i]| && dir[r.i][r.j].Some?
    {
      RestIsLive(dir, i, j, k);
    }
  }

  lemma PrefixLive(dir: Chain, rs: seq<Rec>, k: nat)
    requires AreLive(dir, rs) && k <= |rs|
    ensures AreLive(dir, rs[..k]) && AreLive(dir, rs[k..])
  {
  }

  lemma OffStep(i: nat, j: nat)
    ensures Off(i, j) + 1 == Off(i, j + 1)
  {
  }

  /** The offset computed from the cursor is the next slot's, or the next array's. */
  lemma NextOffIs(dir: Chain, i: nat, j: nat)
    requires i < |dir| && j < |dir[i]| && |dir[i]| < TWO_32
    ensures (if j + 1 >= |dir[i]| then ((Off(i, j) + 1) / TWO_32 + 1) * TWO_32 else Off(i, j) + 1) == NextOff(dir, i, j)
  {
    if j + 1 < TWO_32 {
      OffParts(i, j + 1);
    }
  }

  lemma OneMoreRecord(dir: Chain, rest: seq<Rec>, k: nat)
    requires AreLive(dir, rest) && k < |rest|
    ensures EncodeAll(dir, rest[..k + 1]) == EncodeAll(dir, rest[..k]) + EncodeRec(dir, rest[k])
    ensures rest[k..] == [rest[k]] + rest[k + 1..]
  {
    assert rest[..k + 1][..k] == rest[..k];
  }

  // ---------------------------------------------------------------- reading a whole directory

  /** The longest record: a name of 255 bytes. */
  const MAX_RECORD: nat := 280

  lemma AtSlot(c: Cursor, i: nat, j: nat)
    requires c.Sane() && c.At(i, j) && i < |c.dir| && j < |c.dir[i]|
    ensures c.Target() == Some(Rec(i, j))
  {
    OffParts(i, j);
  }

  lemma AtEnd(c: Cursor)
    requires c.Sane() && c.At(|c.dir| - 1, |c.dir[|c.dir| - 1]|)
    ensures c.Target() == None
  {
    OffParts(|c.dir| - 1, |c.dir[|c.dir| - 1]|);
  }

  lemma RecordsFit(dir: Chain, r: Rec)
    requires ValidChain(dir) && r.i < |dir| && r.j < |dir[r.i]| && dir[r.i][r.j].Some?
    ensures |EncodeRec(dir, r)| <= MAX_RECORD
  {
  }

  lemma {:induction false} EncodedConcat(dir: Chain, a: seq<Rec>, b: seq<Rec>)
    requires AreLive(dir, a + b) && AreLive(dir, a) && AreLive(dir, b)
    ensures EncodeAll(dir, a + b) == EncodeAll(dir, a) + EncodeAll(dir, b)
  {
    hide EncodeRec;
    if b == [] {
      assert a + b == a;
    } else {
      var init, last := b[..|b| - 1], b[|b| - 1];
      assert (a + b)[..|a + b| - 1] == a + init;
      EncodedConcat(dir, a, init);
      assert EncodeAll(dir, a + b) == EncodeAll(dir, a + init) + EncodeRec(dir, last);
      assert EncodeAll(dir, b) == EncodeAll(dir, init) + EncodeRec(dir, last);
    }
  }

  /** Where a reader that has seen `n` of all the entries is. */
  ghost predicate HasRead(c: Cursor, all: seq<Rec>, n: nat)
    requires c.Sane() && n <= |all|
    reads c
  {
    && (c.Target().Some? ==> Rest(c.dir, c.Target().value.i, c.Target().value.j) == all[n..])
    && (c.Target().None? <==> 0 < n == |all|)
  }

  /** One call more. */
  method ReadMore(c: Cursor, count: nat, ghost all: seq<Rec>, ghost n: nat) returns (r: Result, ghost m: nat)
    requires c.Sane() && n <= |all| && HasRead(c, all, n) && count >= MAX_RECORD && AreLive(c.dir, all)
    modifies c
    ensures c.Sane()
    ensures n < |all| ==> r.Records? && n < m <= |all| && HasRead(c, all, m) && EncodeAll(c.dir, all[..m]) == EncodeAll(c.dir, all[..n]) + r.bytes
    ensures n == |all| ==> m == n && r == if all == [] then NoEntry else End
  {
    hide Rest, EncodeAll, EncodeRec, Normal, ValidEntry;
    ghost var rest := all[n..];
    ghost var k;
    r, k := c.Getdents(count);
    m := n;
    if n < |all| {
      m := n + k;
      ReadOn(c.dir, all, n, k, count, old(c.Target()).value);
      if k == |rest| {
        AtEnd(c);
      } else {
        AtSlot(c, rest[k].i, rest[k].j);
      }
    }
  }

  lemma ReadOn(dir: Chain, all: seq<Rec>, n: nat, k: nat, count: nat, t: Rec)
    requires ValidChain(dir) && AreLive(dir, all) && n < |all| && k <= |all[n..]| && count >= MAX_RECORD
      && Rest(dir, t.i, t.j) == all[n..]
    requires k < |all[n..]| ==> |EncodeAll(dir, all[n..][..k])| + |EncodeRec(dir, all[n..][k])| > count
    ensures k > 0 && EncodeAll(dir, all[..n + k]) == EncodeAll(dir, all[..n]) + EncodeAll(dir, all[n..][..k])
    ensures k < |all[n..]| ==> Rest(dir, all[n..][k].i, all[n..][k].j) == all[n + k..]
  {
    hide Rest, EncodeAll, EncodeRec, ValidEntry;
    var rest := all[n..];
    NothingEncoded(dir);
    if k < |rest| {
      RecordsFit(dir, rest[k]);
      assert rest[..0] == [];
      FromTarget(dir, all, n, k, t);
    }
    assert all[..n + k] == all[..n] + rest[..k];
    EncodedConcat(dir, all[..n], rest[..k]);
  }

  lemma FromTarget(dir: Chain, all: seq<Rec>, n: nat, k: nat, t: Rec)
    requires n + k < |all| && Rest(dir, t.i, t.j) == all[n..]
    ensures var r := all[n..][k]; Rest(dir, r.i, r.j) == all[n + k..]
  {
    RestFrom(dir, t.i, t.j, k);
    assert all[n..][k..] == all[n + k..];
  }

  /** From the start, call after call: every entry exactly once, in slot order, and then zero. A directory without
      entries, which only a removed one is, yields ENOENT at once. */
  method ReadAll(c: Cursor, count: nat) returns (bytes: seq<Octet>, last: Result)
    requires c.Sane() && c.offset == 0 && count >= MAX_RECORD
    modifies c
    ensures AreLive(c.dir, Rest(c.dir, 0, 0)) && bytes == EncodeAll(c.dir, Rest(c.dir, 0, 0))
    ensures Describes(c.dir, Rest(c.dir, 0, 0), Decode(bytes))
    ensures last == if Rest(c.dir, 0, 0) == [] then NoEntry else End
  {
    hide Rest, EncodeAll, EncodeRec, ValidEntry, Describes, Decode;
    ghost var all := Rest(c.dir, 0, 0);
    LiveRest(c.dir, 0, 0);
    DecodeAll(c.dir, all);
    NothingEncoded(c.dir);
    assert all[..0] == [] && all[0..] == all;
    bytes := [];
    ghost var n := 0;
    NormalDef(c.dir, 0, 0);
    last := Records([]);
    while last.Records?
      invariant c.Sane() && n <= |all| && bytes == EncodeAll(c.dir, all[..n])
      invariant last.Records? ==> HasRead(c, all, n)
      invariant !last.Records? ==> n == |all| && last == if all == [] then NoEntry else End
      decreases |all| - n, if last.Records? then 1 else 0
    {
      last, n := ReadMore(c, count, all, n);
      if last.Records? {
        bytes := bytes + last.bytes;
      }
    }
    assert all[..n] == all;
  }

  // ---------------------------------------------------------------- seeking to a record's offset

  /** Seeking to the offset of the k-th record and reading on. A handle that has not read yet takes an offset in the
      first array for the end. Otherwise it goes on with the next entry; behind the last entry it returns zero only if
      that entry is in the very last slot, and ENOENT if free slots follow it. */
  method Resume(c: Cursor, count: nat, off: nat, ghost k: nat) returns (r: Result, ghost m: nat)
    requires c.Sane() && k < |Rest(c.dir, 0, 0)| && AreLive(c.dir, Rest(c.dir, 0, 0)) && count >= MAX_RECORD
    requires off == NextOff(c.dir, Rest(c.dir, 0, 0)[k].i, Rest(c.dir, 0, 0)[k].j)
    modifies c
    ensures c.Sane()
    ensures old(c.pos).None? && DirId(off) == 0 ==> r.End? && !LastSlot(c.dir, Rest(c.dir, 0, 0)[k])
    ensures old(c.pos).Some? || DirId(off) != 0 ==>
      var all := Rest(c.dir, 0, 0);
      && (r.Records? <==> k + 1 < |all|)
      && (r.Records? ==> k + 1 < m <= |all| && r.bytes == EncodeAll(c.dir, all[k + 1..m]) && Describes(c.dir, all[k + 1..m], Decode(r.bytes)))
      && (r.End? <==> k + 1 == |all| && LastSlot(c.dir, all[k]))
      && (r.NoEntry? <==> k + 1 == |all| && !LastSlot(c.dir, all[k]))
  {
    hide Rest, EncodeAll, EncodeRec, Normal, ValidEntry, NextOff, Describes, Decode;
    ghost var all := Rest(c.dir, 0, 0);
    c.offset := off;
    NextIsPositive(c.dir, all[k]);
    ghost var n;
    m := k + 1;
    if c.pos.None? && DirId(off) == 0 {
      r, n := c.Getdents(count);
      return;
    }
    TargetOfNext(c, k);
    r, n := c.Getdents(count);
    ghost var rest := all[k + 1..];
    if rest != [] {
      m := k + 1 + n;
      RecordsFit(c.dir, rest[0]);
      NothingEncoded(c.dir);
      assert rest[..0] == [];
      assert rest[..n] == all[k + 1..k + 1 + n];
    }
  }

  /** The offset of a record is not 0, and in the first array only if a slot of it follows. */
  lemma NextIsPositive(dir: Chain, r: Rec)
    requires ValidChain(dir) && r.i < |dir| && r.j < |dir[r.i]|
    ensures NextOff(dir, r.i, r.j) > 0 && (DirId(NextOff(dir, r.i, r.j)) == 0 ==> !LastSlot(dir, r))
  {
    if r.j + 1 < |dir[r.i]| {
      OffParts(r.i, r.j + 1);
    } else {
      OffParts(r.i + 1, 0);
    }
  }

  ghost predicate LastSlot(dir: Chain, r: Rec)
    requires r.i < |dir|
  {
    r.i + 1 == |dir| && r.j + 1 == |dir[r.i]|
  }

  lemma TargetOfNext(c: Cursor, k: nat)
    requires c.Sane() && k < |Rest(c.dir, 0, 0)|
    requires var r := Rest(c.dir, 0, 0)[k]; r.i < |c.dir| && c.offset == NextOff(c.dir, r.i, r.j)
    requires c.pos.Some? || DirId(c.offset) != c.dirId
    ensures var r := Rest(c.dir, 0, 0)[k];
      && (c.Target().None? <==> LastSlot(c.dir, r))
      && (c.Target().Some? ==> Rest(c.dir, c.Target().value.i, c.Target().value.j) == Rest(c.dir, 0, 0)[k + 1..])
      && (LastSlot(c.dir, r) ==> k + 1 == |Rest(c.dir, 0, 0)|)
  {
    hide Rest, ValidEntry;
    var r := Rest(c.dir, 0, 0)[k];
    RestIsLive(c.dir, 0, 0, k);
    RestFrom(c.dir, 0, 0, k);
    RestDef(c.dir, r.i, r.j + 1);
    RestDef(c.dir, r.i + 1, 0);
    if r.j + 1 < |c.dir[r.i]| {
      OffParts(r.i, r.j + 1);
    } else {
      OffParts(r.i + 1, 0);
    }
  }

  /** What a new handle makes of an offset: the end if it lies in the first array and is not 0, and otherwise the slot
      that any other handle finds. */
  lemma FreshTarget(c: Cursor, i: nat, j: nat)
    requires c.Sane() && c.pos.None? && i < |c.dir| && j < |c.dir[i]| && c.offset == Off(i, j)
    ensures c.Target() == if i == 0 && j > 0 then None else Some(Rec(i, j))
  {
    OffParts(i, j);
  }

  /** One entry and one free slot: seeking to the entry's offset yields ENOENT, not the end. */
  lemma FreeSlotAtEnd(e: Entry)
    requires ValidEntry(e)
    ensures var dir := [[Some(e), None]];
      ValidChain(dir) && Rest(dir, 0, 0) == [Rec(0, 0)] && !LastSlot(dir, Rec(0, 0))
  {
    var dir := [[Some(e), None]];
    RestDef(dir, 0, 0);
    RestDef(dir, 0, 1);
    RestDef(dir, 0, 2);
    RestDef(dir, 1, 0);
  }
}
