/** Whole runs: any sequence of operations on a file, with failures and reopenings in between. */
module Runs {
  import opened Layout
  import opened OffsetMapping
  import opened BlockList
  import opened BlockArray
  import opened BlockSizes
  import opened Extents
  import opened Vinodes
  import opened Data
  import opened ReadWrite
  import opened FileState
  import opened FileBytes
  import opened FileOps
  import opened Vectors

  /** `Reopen` forgets the volatile state, as releasing the vinode or restarting the process does. */
  datatype Op =
    | Write(append: bool, position: nat, iov: seq<seq<Byte>>)
    | Resize(size: nat)
    | Allocate(keepSize: bool, offset: nat, length: nat)
    | Punch(offset: nat, length: nat)
    | Reopen

  /** Arguments the entry points let through. */
  ghost predicate Admitted(op: Op) {
    match op
    case Write(_, position, iov) => position < TWO_64 && Lengths64(iov)
    case Resize(size) => size <= MAX_OFFSET
    case Allocate(_, offset, length) => length > 0 && offset + length <= MAX_OFFSET
    case Punch(offset, length) => length > 0 && offset + length <= MAX_OFFSET
    case Reopen => true
  }

  /** What an operation does to a file's bytes when it succeeds. */
  ghost function Apply(f: seq<Byte>, op: Op): seq<Byte> {
    match op
    case Write(append, position, iov) =>
      var offset := if append then |f| else position;
      if offset >= TWO_64 then f else WriteAt(f, offset, Concat(iov)[..Accepted(offset, |Concat(iov)|)])
    case Resize(size) => Resized(f, size)
    case Allocate(keepSize, offset, length) => FallocatedFile(f, false, keepSize, offset, length)
    case Punch(offset, length) => FallocatedFile(f, true, true, offset, length)
    case Reopen => f
  }

  /** Its effect, byte by byte. */
  lemma AppliedByte(f: seq<Byte>, op: Op, p: nat)
    requires p < |Apply(f, op)|
    ensures Apply(f, op)[p] == match op
      case Write(append, position, iov) =>
        var offset := if append then |f| else position;
        if offset < TWO_64 && offset <= p < offset + Accepted(offset, |Concat(iov)|) then Concat(iov)[p - offset]
        else if p < |f| then f[p] else 0
      case Punch(offset, length) => if offset <= p < offset + length then 0 else f[p]
      case _ => if p < |f| then f[p] else 0
  {
    hide Concat;
  }

  /** Its effect on the size. */
  lemma AppliedSize(f: seq<Byte>, op: Op)
    ensures |Apply(f, op)| == match op
      case Write(append, position, iov) =>
        var offset := if append then |f| else position;
        var n := if offset < TWO_64 then Accepted(offset, |Concat(iov)|) else 0;
        if n == 0 || offset + n < |f| then |f| else offset + n
      case Resize(size) => size
      case Allocate(keepSize, offset, length) => if keepSize || offset + length < |f| then |f| else offset + length
      case _ => |f|
  {
    hide Concat;
  }

  ghost function ApplyAll(f: seq<Byte>, ops: seq<Op>): seq<Byte> {
    if ops == [] then f else Apply(ApplyAll(f, ops[..|ops| - 1]), ops[|ops| - 1])
  }

  /** `b` is `a` with some elements left out. */
  ghost predicate Subsequence<T(!new)>(a: seq<T>, b: seq<T>)
    decreases |a|
  {
    if a == [] then b == []
    else Subsequence(a[..|a| - 1], b) || (b != [] && b[|b| - 1] == a[|a| - 1] && Subsequence(a[..|a| - 1], b[..|b| - 1]))
  }

  lemma SubsequenceNext<T(!new)>(a: seq<T>, b: seq<T>, x: T)
    requires Subsequence(a, b)
    ensures Subsequence(a + [x], b) && Subsequence(a + [x], b + [x])
  {
    assert (a + [x])[..|a|] == a && (b + [x])[..|b|] == b;
  }

  /** Forgets what is not persistent. */
  method Forget(v: Vinode)
    requires Valid(v)
    modifies v`firstFree, v`firstBlock, v`blocks
    ensures Valid(v) && ImageOf(v) == old(ImageOf(v)) && FileOf(v) == old(FileOf(v)) && v.blocks == null
  {
    v.firstFree, v.firstBlock, v.blocks := None, None, null;
  }

  /** The operation meets the gap before the first block whose length a 32-bit cast loses. */
  ghost predicate Trips(bs: seq<Block>, size: nat, align: nat, op: Op)
    requires align > 0
  {
    match op
    case Write(append, position, iov) =>
      var offset := if append then size else position;
      offset < TWO_64 && WriteLosesGap(bs, offset, Accepted(offset, |Concat(iov)|), align)
    case Resize(goal) => GrowthLosesGap(bs, size, goal, align)
    case Allocate(_, offset, length) => CastLosesGap(bs, FloorTo(offset, align), CeilTo(offset + length, align))
    case Punch(_, _) => false
    case Reopen => false
  }

  /** A write that ends too close to the end of the 64-bit range, which is taken to fail. */
  ghost predicate TooFar(size: nat, op: Op) {
    op.Write? && var offset := if op.append then size else op.position;
      offset < TWO_64 && offset + Accepted(offset, |Concat(op.iov)|) > ALLOC_LIMIT
  }

  /** One operation. It has its effect, or fails and changes no byte, or (`dead`) trips the assertion. With enough memory
      it has its effect if and only if it does not trip the assertion and is not too far. */
  method Step(v: Vinode, c: Config, op: Op, memory: bool) returns (done: bool, dead: bool)
    requires Valid(v) && c.Valid() && c.Align() == v.align && Admitted(op)
    modifies v, v.blocks
    ensures !dead ==> Valid(v) && FileOf(v) == if done then Apply(old(FileOf(v)), op) else old(FileOf(v))
    ensures v.align > 0 && !(done && dead)
    ensures dead ==> Trips(old(v.Blocks()), old(v.size), v.align, op)
    ensures done ==> !Trips(old(v.Blocks()), old(v.size), v.align, op)
    ensures memory && !done ==> dead || TooFar(old(v.size), op)
    ensures done || dead ==> !TooFar(old(v.size), op)
    ensures v.blocks == null || v.blocks == old(v.blocks) || fresh(v.blocks)
  {
    hide Valid, FileOf, WriteAt, Resized, FallocatedFile, Concat, WriteLosesGap, GrowthLosesGap, CastLosesGap, FloorTo, CeilTo, View;
    AlignFacts(c);
    var r: Outcome;
    FileLength(v);
    ValidFacts(v);
    match op {
      case Write(append, position, iov) =>
        r := StepWrite(v, c, append, position, iov, memory);
      case Resize(size) =>
        r := Truncate(v, c, size, memory);
      case Allocate(keepSize, offset, length) =>
        r := Fallocate(v, c, false, keepSize, offset, length, memory);
      case Punch(offset, length) =>
        r := Fallocate(v, c, true, true, offset, length, memory);
      case Reopen =>
        Forget(v);
        r := Done(0);
    }
    done, dead := r.Done?, r.Faulted?;
  }

  method StepWrite(v: Vinode, c: Config, append: bool, position: nat, iov: seq<seq<Byte>>, memory: bool) returns (r: Outcome)
    requires Valid(v) && c.Valid() && c.Align() == v.align && position < TWO_64 && Lengths64(iov)
    modifies v, v.blocks
    ensures r.Done? ==> Valid(v) && FileOf(v) == Apply(old(FileOf(v)), Write(append, position, iov))
    ensures r.Failed? ==> Valid(v) && FileOf(v) == old(FileOf(v))
    ensures r.Failed? && memory ==> TooFar(old(v.size), Write(append, position, iov))
    ensures !r.Failed? ==> !TooFar(old(v.size), Write(append, position, iov))
    ensures v.align > 0
    ensures var trips := Trips(old(v.Blocks()), old(v.size), v.align, Write(append, position, iov));
      (r.Faulted? ==> trips) && (r.Done? ==> !trips)
    ensures v.blocks == null || v.blocks == old(v.blocks) || fresh(v.blocks)
  {
    hide ValidImage, WriteAt, Concat, Bytes, View, WriteLosesGap;
    AlignFacts(c);
    FileLength(v);
    ValidFacts(v);
    var offset := if append then v.size else position;
    var sum := SumLengths(offset, iov);
    if offset + sum > ALLOC_LIMIT {
      return Failed;
    }
    var last;
    r, last := PWriteV(v, c, append, position, iov, None, memory);
  }

  /** Every operation of the run has memory, and none is too far if all before it are done. */
  ghost predicate Unhindered(f: seq<Byte>, ops: seq<Op>, memory: seq<bool>)
    requires |memory| == |ops|
  {
    forall i {:trigger ops[..i]} :: 0 <= i < |ops| ==> memory[i] && !TooFar(|ApplyAll(f, ops[..i])|, ops[i])
  }

  lemma NotTooFar(f: seq<Byte>, ops: seq<Op>, memory: seq<bool>, i: nat)
    requires |memory| == |ops| && i < |ops| && Unhindered(f, ops, memory)
    ensures memory[i] && !TooFar(|ApplyAll(f, ops[..i])|, ops[i])
  {
    hide TooFar, ApplyAll;
  }

  lemma AppliedNext(f: seq<Byte>, ops: seq<Op>, op: Op)
    ensures ApplyAll(f, ops + [op]) == Apply(ApplyAll(f, ops), op)
  {
    assert (ops + [op])[..|ops|] == ops;
  }

  lemma NothingApplied(f: seq<Byte>)
    ensures ApplyAll(f, []) == f && Subsequence<Op>([], [])
  {
  }

  /** Whatever the run, the file is valid at its end and holds exactly what the successful operations, in order,
      make of the bytes it held at the start. The process dies only in an operation that trips the assertion: then `i`
      operations have been treated, and `bs` were the blocks, which held what the successful ones of them had made. With
      memory for all of them, and none too far, all operations before that are successful. */
  method Run(v: Vinode, c: Config, ops: seq<Op>, memory: seq<bool>) returns (applied: seq<Op>, dead: bool, i: nat, ghost bs: seq<Block>)
    requires Valid(v) && c.Valid() && c.Align() == v.align && (forall i :: 0 <= i < |ops| ==> Admitted(ops[i])) && |memory| == |ops|
    modifies v, v.blocks
    ensures Unhindered(old(FileOf(v)), ops, memory) ==> if dead then i < |ops| && applied == ops[..i] else applied == ops
    ensures !dead ==> Valid(v) && Subsequence(ops, applied) && FileOf(v) == ApplyAll(old(FileOf(v)), applied)
    ensures dead ==>
      && i < |ops| && Subsequence(ops[..i], applied) && v.align > 0 && Ordered(bs)
      && var file := ApplyAll(old(FileOf(v)), applied);
         Bytes(bs, |file|) == file && Trips(bs, |file|, v.align, ops[i])
  {
    hide Valid, FileOf, Apply, Admitted, Trips, View, Bytes, Ordered, TooFar, Unhindered, ApplyAll, Subsequence;
    ghost var f := FileOf(v);
    applied, dead := [], false;
    i, bs := 0, [];
    NothingApplied(f);
    assert ops[..0] == [];
    while i < |ops|
      invariant 0 <= i <= |ops| && !dead
      invariant v.blocks == null || v.blocks == old(v.blocks) || fresh(v.blocks)
      invariant Valid(v) && Subsequence(ops[..i], applied) && FileOf(v) == ApplyAll(f, applied)
      invariant Unhindered(f, ops, memory) ==> applied == ops[..i]
    {
      var done;
      ValidFacts(v);
      FileLength(v);
      bs := v.Blocks();
      done, dead := Step(v, c, ops[i], memory[i]);
      if dead {
        return;
      }
      if Unhindered(f, ops, memory) {
        NotTooFar(f, ops, memory, i);
      }
      SubsequenceNext(ops[..i], applied, ops[i]);
      AppliedNext(f, applied, ops[i]);
      assert ops[..i] + [ops[i]] == ops[..i + 1];
      if done {
        applied := applied + [ops[i]];
      }
      i := i + 1;
    }
    assert ops[..i] == ops;
  }

  /** What a write has put into the file, a read from the same position returns. */
  method WriteThenRead(v: Vinode, c: Config, position: nat, iov: seq<seq<Byte>>, memory: bool) returns (ok: bool, out: seq<Byte>)
    requires Valid(v) && c.Valid() && c.Align() == v.align && position < TWO_64 && Lengths64(iov)
    requires position + Accepted(position, |Concat(iov)|) <= ALLOC_LIMIT
    modifies v, v.blocks
    ensures ok ==> out == Concat(iov)[..Accepted(position, |Concat(iov)|)]
    ensures var n := Accepted(position, |Concat(iov)|);
      v.align > 0 && (memory && n > 0 && !WriteLosesGap(old(v.Blocks()), position, n, v.align) ==> ok)
  {
    hide ValidImage, Concat, Bytes, View, Linked, Compact, Represents, ValidBlocks, AllAllocated, CrossesHole, Sum,
         Ordered, ReadPiecewise;
    var r, last := PWriteV(v, c, false, position, iov, None, memory);
    if !r.Done? || r.count == 0 {
      return false, [];
    }
    ghost var data := Concat(iov)[..Accepted(position, |Concat(iov)|)];
    ValidFacts(v);
    FileLength(v);
    AllocatedCrossesNoHole(v.Blocks(), position, |data|);
    ReadBack(old(FileOf(v)), position, data);
    SumOne(r.count);
    out, last := PReadV(v, position, [r.count], last);
    ok := true;
  }

  lemma SumOne(n: nat)
    ensures Sum([n]) == n
  {
    assert [n][..0] == [];
  }
}
