/** The table of virtual file descriptors (vfd_table.c) as a machine whose steps are the pieces of code that
    other threads see as atomic: a stretch under the table's mutex, one atomic change of a reference count, one
    push or pop of the free stack. */
module FdTable {
  import opened Layout

  /** The entries are 0 .. |count| - 1. `out` has one element for every reference in the hands of a thread: one
      given to a caller, one taken out of the table or the cwd and not yet dropped, or the initial one of an
      entry not yet stored. `dying` entries have lost their last reference and their file is still to be closed;
      `closing` ones wait to be pushed on the free stack. While a dup2 is under way, `dup` has the slot it will
      overwrite and the new value. */
  datatype State = State(
    table: seq<Option<nat>>, cwd: nat, count: seq<int>, file: seq<nat>, free: seq<nat>,
    out: multiset<nat>, dying: set<nat>, closing: set<nat>, dup: Option<(nat, Option<nat>)>,
    handles: set<nat>, closed: set<nat>)

  /** The table as it will be once a dup2 under way is over. */
  ghost function Effective(s: State): seq<Option<nat>> {
    if s.dup.Some? && s.dup.value.0 < |s.table| then s.table[s.dup.value.0 := s.dup.value.1] else s.table
  }

  ghost function Refs(s: State, e: nat): nat {
    multiset(Effective(s))[Some(e)] + (if s.cwd == e then 1 else 0) + s.out[e]
  }

  /** Indexes of the arrays; there is one entry fewer than there are table and stack slots. */
  ghost predicate Shape(s: State) {
    && |s.table| == |s.count| + 1 && |s.file| == |s.count| && s.cwd < |s.count|
    && (forall i :: 0 <= i < |s.table| && s.table[i].Some? ==> s.table[i].value < |s.count|)
    && (forall e :: e in s.out ==> e < |s.count|)
    && (s.dup.Some? ==> s.dup.value.0 < |s.table| && (s.dup.value.1.Some? ==> s.dup.value.1.value < |s.count|))
    && (forall e :: e in s.dying || e in s.closing ==> e < |s.count|)
    && (forall i :: 0 <= i < |s.free| ==> s.free[i] < |s.count|)
  }

  /** Every reference is counted, and an entry with a count of zero is in exactly one of three places. */
  ghost predicate Counted(s: State)
    requires Shape(s)
  {
    && (forall e :: 0 <= e < |s.count| ==> s.count[e] >= Refs(s, e))
    && (forall i, j :: 0 <= i < j < |s.free| ==> s.free[i] != s.free[j])
    && (forall e {:trigger e in s.dying} :: e in s.dying ==> e !in s.closing && e !in s.free)
    && (forall e {:trigger e in s.closing} :: e in s.closing ==> e !in s.free)
    && (forall e :: 0 <= e < |s.count| ==> (s.count[e] == 0 <==> e in s.dying || e in s.closing || e in s.free))
  }

  /** Nothing but references is counted. */
  ghost predicate Exact(s: State)
    requires Shape(s)
  {
    forall e :: 0 <= e < |s.count| ==> s.count[e] == Refs(s, e)
  }

  /** An entry that is counted as referenced, or whose file is still to be closed. */
  ghost predicate HasFile(s: State, e: nat)
    requires Shape(s)
  {
    e < |s.count| && (s.count[e] != 0 || e in s.dying)
  }

  /** The open files are those of these entries, one each. */
  ghost predicate FilesOpen(s: State)
    requires Shape(s)
  {
    && s.closed <= s.handles
    && (forall e: nat :: HasFile(s, e) ==> s.file[e] in s.handles && s.file[e] !in s.closed)
    && (forall e: nat, f: nat :: HasFile(s, e) && HasFile(s, f) && s.file[e] == s.file[f] ==> e == f)
    && (forall h :: h in s.handles && h !in s.closed ==> exists e: nat :: HasFile(s, e) && s.file[e] == h)
  }

  ghost predicate Inv(s: State) {
    Shape(s) && Counted(s) && FilesOpen(s)
  }

  // ---------------------------------------------------------------- steps

  datatype Step =
    | Ref(vfd: nat)                    // pmemfile_ref_vfd_under_mutex
    | RefCwd                           // get_fdcwd_reference
    | Drop(entry: nat)                 // the decrement in unref_entry
    | CloseFile(entry: nat)            // unref_entry, after the count reached zero
    | Push(entry: nat)                 // mark_as_free_file_slot
    | Fetch(handle: nat)               // fetch_free_file_slot and the initialization of the entry
    | Assign(vfd: nat, entry: nat)     // the store in pmemfile_vfd_assign
    | TakeOut(vfd: nat)                // pmemfile_vfd_close, under the mutex
    | DupStart(from: nat, to: nat)     // vfd_dup2_under_mutex, up to the reference on the source
    | DupEnd                           // vfd_dup2_under_mutex, the store
    | SwapCwd(entry: nat)              // the exchange of cwd_entry in chdir and fchdir

  /** When a step can happen. The steps on the table need its mutex, which a dup2 under way holds. */
  ghost predicate Enabled(s: State, a: Step)
    requires Shape(s)
  {
    match a
    case Ref(v) => s.dup.None? && v < |s.table| && s.table[v].Some?
    case RefCwd => s.dup.None?
    case Drop(e) => e in s.out
    case CloseFile(e) => e in s.dying
    case Push(e) => e in s.closing
    case Fetch(h) => s.free != [] && h !in s.handles
    case Assign(v, e) => s.dup.None? && v < |s.table| && e in s.out
    case TakeOut(v) => s.dup.None? && v < |s.table| && s.table[v].Some?
    case DupStart(v, w) => s.dup.None? && v < |s.table| && w < |s.table| && s.table[v] != s.table[w]
    case DupEnd => s.dup.Some?
    case SwapCwd(e) => s.dup.None? && e in s.out
  }

  ghost function AddRef(s: State, e: Option<nat>): State
    requires Shape(s) && (e.Some? ==> e.value < |s.count|)
  {
    if e.None? then s else s.(count := s.count[e.value := s.count[e.value] + 1])
  }

  ghost function Hold(s: State, e: Option<nat>): State {
    if e.None? then s else s.(out := s.out + multiset{e.value})
  }

  ghost function Do(s: State, a: Step): State
    requires Shape(s) && Enabled(s, a)
  {
    match a
    case Ref(v) => Hold(AddRef(s, s.table[v]), s.table[v])
    case RefCwd => Hold(AddRef(s, Some(s.cwd)), Some(s.cwd))
    case Drop(e) =>
      s.(out := s.out - multiset{e}, count := s.count[e := s.count[e] - 1],
         dying := if s.count[e] == 1 then s.dying + {e} else s.dying)
    case CloseFile(e) => s.(closed := s.closed + {s.file[e]}, dying := s.dying - {e}, closing := s.closing + {e})
    case Push(e) => s.(free := s.free + [e], closing := s.closing - {e})
    case Fetch(h) =>
      var e := s.free[|s.free| - 1];
      s.(free := s.free[..|s.free| - 1], count := s.count[e := 1], file := s.file[e := h],
         handles := s.handles + {h}, out := s.out + multiset{e})
    case Assign(v, e) => s.(table := s.table[v := Some(e)], out := s.out - multiset{e})
    case TakeOut(v) => Hold(s.(table := s.table[v := None]), s.table[v])
    case DupStart(v, w) => Hold(AddRef(s, s.table[v]), s.table[w]).(dup := Some((w, s.table[v])))
    case DupEnd => s.(table := Effective(s), dup := None)
    case SwapCwd(e) => s.(cwd := e, out := s.out - multiset{e} + multiset{s.cwd})
  }

  // ---------------------------------------------------------------- every step keeps the invariant

  /** The files stay as they are when the entries that have one do. */
  lemma SameFiles(s: State, t: State)
    requires Inv(s) && Shape(t) && t.file == s.file && t.handles == s.handles && t.closed == s.closed
    requires forall e: nat :: HasFile(t, e) <==> HasFile(s, e)
    ensures FilesOpen(t)
  {
    forall h | h in t.handles && h !in t.closed
      ensures exists e: nat :: HasFile(t, e) && t.file[e] == h
    {
      var e: nat :| HasFile(s, e) && s.file[e] == h;
      assert HasFile(t, e);
    }
  }

  lemma SameTable(s: State, t: State)
    requires t.table == s.table && t.dup == s.dup
    ensures Effective(t) == Effective(s)
  {
  }

  lemma SlotIsReferenced(s: State, v: nat)
    requires Inv(s) && s.dup.None? && v < |s.table| && s.table[v].Some?
    ensures s.table[v].value < |s.count| && s.count[s.table[v].value] > 0
  {
    assert s.table[v] in multiset(s.table);
  }

  lemma KeepsRef(s: State, e: nat)
    requires Inv(s) && e < |s.count| && s.count[e] > 0
    ensures Inv(Hold(AddRef(s, Some(e)), Some(e)))
    ensures Exact(s) ==> Exact(Hold(AddRef(s, Some(e)), Some(e)))
  {
    var t := Hold(AddRef(s, Some(e)), Some(e));
    assert forall x :: 0 <= x < |s.count| ==> Refs(t, x) == Refs(s, x) + if x == e then 1 else 0;
    SameFiles(s, t);
  }

  lemma KeepsDrop(s: State, e: nat)
    requires Inv(s) && Enabled(s, Drop(e))
    ensures Inv(Do(s, Drop(e)))
    ensures Exact(s) ==> Exact(Do(s, Drop(e)))
  {
    hide FilesOpen, Effective;
    var t := Do(s, Drop(e));
    assert s.count[e] >= Refs(s, e) > 0;
    assert Effective(t) == Effective(s) by {
      SameTable(s, t);
    }
    assert forall x :: 0 <= x < |s.count| ==> Refs(t, x) == Refs(s, x) - if x == e then 1 else 0;
    SameFiles(s, t);
  }

  lemma KeepsCloseFile(s: State, e: nat)
    requires Inv(s) && Enabled(s, CloseFile(e))
    ensures Inv(Do(s, CloseFile(e)))
    ensures Exact(s) ==> Exact(Do(s, CloseFile(e)))
  {
    hide Effective;
    var t := Do(s, CloseFile(e));
    SameTable(s, t);
    assert forall x :: 0 <= x < |s.count| ==> Refs(t, x) == Refs(s, x);
    assert HasFile(s, e);
    assert forall x: nat :: HasFile(t, x) <==> HasFile(s, x) && x != e;
    forall h | h in t.handles && h !in t.closed
      ensures exists x: nat :: HasFile(t, x) && t.file[x] == h
    {
      var x: nat :| HasFile(s, x) && s.file[x] == h;
      assert HasFile(t, x);
    }
  }

  lemma KeepsPush(s: State, e: nat)
    requires Inv(s) && Enabled(s, Push(e))
    ensures Inv(Do(s, Push(e)))
    ensures Exact(s) ==> Exact(Do(s, Push(e)))
  {
    var t := Do(s, Push(e));
    assert forall x :: 0 <= x < |s.count| ==> Refs(t, x) == Refs(s, x);
    assert forall x :: x in t.free <==> x in s.free || x == e;
    SameFiles(s, t);
  }

  lemma KeepsFetch(s: State, h: nat)
    requires Inv(s) && Enabled(s, Fetch(h))
    ensures Inv(Do(s, Fetch(h)))
    ensures Exact(s) ==> Exact(Do(s, Fetch(h)))
  {
    hide FilesOpen, Refs, Effective;
    FetchKeepsCounts(s, h);
    FetchKeepsFiles(s, h);
  }

  lemma FetchKeepsCounts(s: State, h: nat)
    requires Shape(s) && Counted(s) && Enabled(s, Fetch(h))
    ensures Shape(Do(s, Fetch(h))) && Counted(Do(s, Fetch(h)))
    ensures Exact(s) ==> Exact(Do(s, Fetch(h)))
  {
    var t, e := Do(s, Fetch(h)), s.free[|s.free| - 1];
    assert e in s.free && s.count[e] == 0;
    assert forall x :: x in s.free <==> x in t.free || x == e;
    assert e !in t.free;
    forall x: nat | x < |s.count|
      ensures Refs(t, x) == Refs(s, x) + if x == e then 1 else 0
    {
    }
  }

  lemma FetchKeepsFiles(s: State, h: nat)
    requires Inv(s) && Enabled(s, Fetch(h)) && Shape(Do(s, Fetch(h)))
    ensures FilesOpen(Do(s, Fetch(h)))
  {
    hide Refs;
    var t, e := Do(s, Fetch(h)), s.free[|s.free| - 1];
    assert e in s.free && s.count[e] == 0;
    assert e !in s.dying;
    assert forall x: nat :: HasFile(t, x) <==> HasFile(s, x) || x == e;
    forall k | k in t.handles && k !in t.closed
      ensures exists x: nat :: HasFile(t, x) && t.file[x] == k
    {
      if k == h {
        assert HasFile(t, e) && t.file[e] == k;
      } else {
        var x: nat :| HasFile(s, x) && s.file[x] == k;
        assert HasFile(t, x);
      }
    }
  }

  /** The store overwrites an entry. */
  ghost predicate Overwrites(s: State, a: Step) {
    a.Assign? && a.vfd < |s.table| && s.table[a.vfd].Some?
  }

  /** The store drops no reference that was in the slot: one that was is counted for ever. */
  lemma KeepsAssign(s: State, v: nat, e: nat)
    requires Inv(s) && Enabled(s, Assign(v, e))
    ensures Inv(Do(s, Assign(v, e)))
    ensures Exact(s) ==> (Exact(Do(s, Assign(v, e))) <==> !Overwrites(s, Assign(v, e)))
  {
    hide Refs, FilesOpen;
    var t := Do(s, Assign(v, e));
    forall x: nat | x < |s.count|
      ensures Refs(t, x) == Refs(s, x) - if s.table[v] == Some(x) then 1 else 0
    {
      StoredRefs(s, v, e, x);
    }
    SameFiles(s, t);
    if s.table[v].Some? {
      assert Refs(t, s.table[v].value) != Refs(s, s.table[v].value);
    }
  }

  lemma KeepsTakeOut(s: State, v: nat)
    requires Inv(s) && Enabled(s, TakeOut(v))
    ensures Inv(Do(s, TakeOut(v)))
    ensures Exact(s) ==> Exact(Do(s, TakeOut(v)))
  {
    hide Refs, FilesOpen;
    var t := Do(s, TakeOut(v));
    forall x: nat | x < |s.count|
      ensures Refs(t, x) == Refs(s, x)
    {
      TakenRefs(s, v, x);
    }
    SameFiles(s, t);
  }

  lemma StoredRefs(s: State, v: nat, e: nat, x: nat)
    requires s.dup.None? && v < |s.table| && e in s.out
    ensures Refs(s.(table := s.table[v := Some(e)], out := s.out - multiset{e}), x) == Refs(s, x) - if s.table[v] == Some(x) then 1 else 0
  {
    assert s.table[v] in multiset(s.table);
    assert multiset(s.table[v := Some(e)]) == multiset(s.table) - multiset{s.table[v]} + multiset{Some(e)};
  }

  lemma TakenRefs(s: State, v: nat, x: nat)
    requires s.dup.None? && v < |s.table| && s.table[v].Some?
    ensures Refs(Hold(s.(table := s.table[v := None]), s.table[v]), x) == Refs(s, x)
  {
    assert s.table[v] in multiset(s.table);
    assert multiset(s.table[v := None]) == multiset(s.table) - multiset{s.table[v]} + multiset{None};
  }

  /** The state in which slot `w` is to be overwritten with `e`, a reference in hand; what it held is now in hand. */
  ghost function Replacing(s: State, w: nat, e: Option<nat>): State
    requires w < |s.table|
  {
    var left := if e.Some? then s.out - multiset{e.value} else s.out;
    s.(dup := Some((w, e)), out := if s.table[w].Some? then left + multiset{s.table[w].value} else left)
  }

  lemma KeepsReplacing(s: State, w: nat, e: Option<nat>)
    requires Inv(s) && s.dup.None? && w < |s.table| && (e.Some? ==> e.value in s.out)
    ensures Inv(Replacing(s, w, e))
    ensures Exact(s) ==> Exact(Replacing(s, w, e))
  {
    hide Refs, FilesOpen;
    var t := Replacing(s, w, e);
    forall x: nat | x < |s.count|
      ensures Refs(t, x) == Refs(s, x)
    {
      ReplacingRefs(s, w, e, x);
    }
    SameFiles(s, t);
  }

  lemma ReplacingRefs(s: State, w: nat, e: Option<nat>, x: nat)
    requires s.dup.None? && w < |s.table| && (e.Some? ==> e.value in s.out)
    ensures Refs(Replacing(s, w, e), x) == Refs(s, x)
  {
    var t := Replacing(s, w, e);
    EffectiveReplaced(s, w, e);
    hide Effective;
  }

  lemma EffectiveReplaced(s: State, w: nat, e: Option<nat>)
    requires s.dup.None? && w < |s.table|
    ensures Effective(s) == s.table && s.table[w] in multiset(s.table)
    ensures multiset(Effective(Replacing(s, w, e))) == multiset(s.table) - multiset{s.table[w]} + multiset{e}
  {
  }

  lemma KeepsDupStart(s: State, v: nat, w: nat)
    requires Inv(s) && Enabled(s, DupStart(v, w))
    ensures Inv(Do(s, DupStart(v, w)))
    ensures Exact(s) ==> Exact(Do(s, DupStart(v, w)))
  {
    hide FilesOpen, Refs, Effective, Counted;
    var e := s.table[v];
    if e.Some? {
      SlotIsReferenced(s, v);
      KeepsRef(s, e.value);
      var held := Hold(AddRef(s, e), e);
      assert held.out - multiset{e.value} == s.out;
      KeepsReplacing(held, w, e);
      assert Do(s, DupStart(v, w)) == Replacing(held, w, e);
    } else {
      KeepsReplacing(s, w, e);
      assert Do(s, DupStart(v, w)) == Replacing(s, w, e);
    }
  }

  lemma KeepsDupEnd(s: State)
    requires Inv(s) && Enabled(s, DupEnd)
    ensures Inv(Do(s, DupEnd))
    ensures Exact(s) ==> Exact(Do(s, DupEnd))
  {
    var t := Do(s, DupEnd);
    assert Effective(t) == Effective(s);
    assert forall x: nat :: x < |s.count| ==> Refs(t, x) == Refs(s, x);
    SameFiles(s, t);
  }

  lemma KeepsSwapCwd(s: State, e: nat)
    requires Inv(s) && Enabled(s, SwapCwd(e))
    ensures Inv(Do(s, SwapCwd(e)))
    ensures Exact(s) ==> Exact(Do(s, SwapCwd(e)))
  {
    var t := Do(s, SwapCwd(e));
    assert forall x: nat :: x < |s.count| ==> Refs(t, x) == Refs(s, x);
    SameFiles(s, t);
  }

  /** Every step keeps all references counted; the count stays exact unless the step overwrites an entry. */
  lemma StepKeepsInv(s: State, a: Step)
    requires Inv(s) && Enabled(s, a)
    ensures Inv(Do(s, a))
    ensures Exact(s) ==> (Exact(Do(s, a)) <==> !Overwrites(s, a))
  {
    hide Counted, FilesOpen, Refs, Exact;
    match a
    case Ref(v) => SlotIsReferenced(s, v); KeepsRef(s, s.table[v].value);
    case RefCwd => CwdIsReferenced(s); KeepsRef(s, s.cwd);
    case Drop(e) => KeepsDrop(s, e);
    case CloseFile(e) => KeepsCloseFile(s, e);
    case Push(e) => KeepsPush(s, e);
    case Fetch(h) => KeepsFetch(s, h);
    case Assign(v, e) => KeepsAssign(s, v, e);
    case TakeOut(v) => KeepsTakeOut(s, v);
    case DupStart(v, w) => KeepsDupStart(s, v, w);
    case DupEnd => KeepsDupEnd(s);
    case SwapCwd(e) => KeepsSwapCwd(s, e);
  }

  lemma CwdIsReferenced(s: State)
    requires Inv(s)
    ensures s.count[s.cwd] > 0
  {
  }

  // ---------------------------------------------------------------- whole runs

  /** After start-up: an empty table, all entries on the stack but the one that holds the cwd. */
  ghost predicate Init(s: State) {
    && |s.count| > 0 && |s.table| == |s.count| + 1 && |s.file| == |s.count| && s.cwd < |s.count|
    && (forall i :: 0 <= i < |s.table| ==> s.table[i] == None)
    && (forall e :: 0 <= e < |s.count| ==> s.count[e] == if e == s.cwd then 1 else 0)
    && (forall i, j :: 0 <= i < j < |s.free| ==> s.free[i] != s.free[j])
    && (forall e: nat {:trigger e in s.free} :: e in s.free <==> e < |s.count| && e != s.cwd)
    && s.out == multiset{} && s.dying == {} && s.closing == {} && s.dup == None
    && s.handles == {s.file[s.cwd]} && s.closed == {}
  }

  lemma InitIsInv(s: State)
    requires Init(s)
    ensures Inv(s) && Exact(s)
  {
    assert forall i :: 0 <= i < |s.free| ==> s.free[i] in s.free;
    assert forall e: nat :: Some(e) !in multiset(s.table);
    assert HasFile(s, s.cwd);
  }

  ghost predicate Next(s: State, a: Step, s': State) {
    Shape(s) ==> Enabled(s, a) && s' == Do(s, a)
  }

  /** A run: each state follows from the one before by some step of some thread. */
  ghost predicate IsRun(run: seq<State>, steps: seq<Step>) {
    && |run| == |steps| + 1 && Init(run[0])
    && forall i :: 0 <= i < |steps| ==> Next(run[i], steps[i], run[i + 1])
  }

  /** In every state of every run of any number of threads. */
  lemma {:induction false} RunKeepsInv(run: seq<State>, steps: seq<Step>, i: nat)
    requires IsRun(run, steps) && i < |run|
    ensures Inv(run[i])
  {
    if i == 0 {
      InitIsInv(run[0]);
    } else {
      RunKeepsInv(run, steps, i - 1);
      assert Next(run[i - 1], steps[i - 1], run[i]);
      hide Init, Counted, FilesOpen, Do;
      StepKeepsInv(run[i - 1], steps[i - 1]);
    }
  }

  lemma {:induction false} RunKeepsExact(run: seq<State>, steps: seq<Step>, i: nat)
    requires IsRun(run, steps) && i < |run| && forall j :: 0 <= j < i ==> !Overwrites(run[j], steps[j])
    ensures Shape(run[i]) && Exact(run[i])
  {
    if i == 0 {
      InitIsInv(run[0]);
    } else {
      RunKeepsExact(run, steps, i - 1);
      RunKeepsInv(run, steps, i - 1);
      assert Next(run[i - 1], steps[i - 1], run[i]);
      hide Init, Counted, FilesOpen, Do, Exact, Overwrites;
      StepKeepsInv(run[i - 1], steps[i - 1]);
    }
  }

  ghost predicate AlwaysExact(run: seq<State>) {
    forall i :: 0 <= i < |run| ==> Shape(run[i]) && Exact(run[i])
  }

  /** The counts are exact throughout a run if and only if no step of it overwrites an entry. */
  lemma RunKeepsExactIff(run: seq<State>, steps: seq<Step>)
    requires IsRun(run, steps)
    ensures AlwaysExact(run) <==> forall i :: 0 <= i < |steps| ==> !Overwrites(run[i], steps[i])
  {
    hide Init, Do, Exact, Overwrites, Shape, Enabled;
    if forall i :: 0 <= i < |steps| ==> !Overwrites(run[i], steps[i]) {
      forall i | 0 <= i < |run|
        ensures Shape(run[i]) && Exact(run[i])
      {
        RunKeepsExact(run, steps, i);
      }
    } else {
      var i :| 0 <= i < |steps| && Overwrites(run[i], steps[i]);
      RunKeepsInv(run, steps, i);
      RunKeepsInv(run, steps, i + 1);
      if AlwaysExact(run) {
        assert Exact(run[i]) && Exact(run[i + 1]);
        assert Next(run[i], steps[i], run[i + 1]);
        StepKeepsInv(run[i], steps[i]);
      }
    }
  }

  /** Three entries, 0 for the cwd, and four descriptors. */
  ghost function Small(table: seq<Option<nat>>, count: seq<int>, file: seq<nat>, free: seq<nat>, out: multiset<nat>,
                       dup: Option<(nat, Option<nat>)>, handles: set<nat>): State {
    State(table, 0, count, file, free, out, {}, {}, dup, handles, {})
  }

  /** File 1 is opened as descriptor 0, file 2 is being opened as descriptor 1, descriptor 0 is duplicated onto 1, and
      only then the entry of file 2 is stored there. */
  ghost function Story(k: nat): State
    requires k <= 6
  {
    match k
    case 0 => Small([None, None, None, None], [1, 0, 0], [0, 0, 0], [1, 2], multiset{}, None, {0})
    case 1 => Small([None, None, None, None], [1, 0, 1], [0, 0, 1], [1], multiset{2}, None, {0, 1})
    case 2 => Small([Some(2), None, None, None], [1, 0, 1], [0, 0, 1], [1], multiset{}, None, {0, 1})
    case 3 => Small([Some(2), None, None, None], [1, 1, 1], [0, 2, 1], [], multiset{1}, None, {0, 1, 2})
    case 4 => Small([Some(2), None, None, None], [1, 1, 2], [0, 2, 1], [], multiset{1}, Some((1, Some(2))), {0, 1, 2})
    case 5 => Small([Some(2), Some(2), None, None], [1, 1, 2], [0, 2, 1], [], multiset{1}, None, {0, 1, 2})
    case _ => Small([Some(2), Some(1), None, None], [1, 1, 2], [0, 2, 1], [], multiset{}, None, {0, 1, 2})
  }

  ghost function Steps(): seq<Step> {
    [Fetch(1), Assign(0, 2), Fetch(2), DupStart(0, 1), DupEnd, Assign(1, 1)]
  }

  lemma StoryBegins()
    ensures Init(Story(0))
  {
    assert forall e: nat :: e in [1, 2] <==> e < 3 && e != 0;
  }

  lemma StoryGoesOn(k: nat)
    requires k < 6
    ensures Next(Story(k), Steps()[k], Story(k + 1))
  {
    hide Shape, Story, Do, Enabled;
    match k
    case 0 => Fetched(0);
    case 1 => Stored(1);
    case 2 => Fetched(2);
    case 3 => Duplicated();
    case 4 => Finished();
    case 5 => Stored(5);
  }

  lemma Fetched(k: nat)
    requires k == 0 || k == 2
    ensures Next(Story(k), Steps()[k], Story(k + 1))
  {
    hide Shape;
    var s, t := Story(k), Story(k + 1);
    var e, h := s.free[|s.free| - 1], Steps()[k].handle;
    assert s.free[..|s.free| - 1] == t.free;
    assert s.count[e := 1] == t.count;
    assert s.file[e := h] == t.file;
    assert s.out + multiset{e} == t.out;
  }

  lemma Stored(k: nat)
    requires k == 1 || k == 5
    ensures Next(Story(k), Steps()[k], Story(k + 1))
  {
    hide Shape;
    var s, t := Story(k), Story(k + 1);
    assert s.table[Steps()[k].vfd := Some(Steps()[k].entry)] == t.table;
    assert s.out - multiset{Steps()[k].entry} == t.out;
  }

  lemma Duplicated()
    ensures Next(Story(3), Steps()[3], Story(4))
  {
    hide Shape;
    assert Story(3).count[2 := 2] == Story(4).count;
  }

  lemma Finished()
    ensures Next(Story(4), Steps()[4], Story(5))
  {
    hide Shape;
    assert Story(4).table[1 := Some(2)] == Story(5).table;
  }

  /** A thread has fetched an entry for a file it is opening; before it stores the entry, another thread has made the
      same number a duplicate of its own descriptor. The store then loses a reference for ever. */
  lemma DuplicateLost() returns (run: seq<State>, steps: seq<Step>)
    ensures IsRun(run, steps) && |steps| == 6 && Overwrites(run[5], steps[5]) && Shape(run[6]) && !Exact(run[6])
    ensures forall i :: 0 <= i < 5 ==> !Overwrites(run[i], steps[i])
  {
    hide Init, Next, Exact, Counted, FilesOpen, Shape, Enabled;
    run, steps := seq(7, k requires 0 <= k < 7 => Story(k)), Steps();
    StoryBegins();
    forall k | 0 <= k < 6
      ensures Next(run[k], steps[k], run[k + 1])
    {
      StoryGoesOn(k);
    }
    RunKeepsInv(run, steps, 5);
    RunKeepsExact(run, steps, 5);
    Overwritten(run[5], steps[5], run[6]);
  }

  lemma Overwritten(s: State, a: Step, s': State)
    requires Inv(s) && Exact(s) && Next(s, a, s') && Overwrites(s, a)
    ensures Shape(s') && !Exact(s')
  {
    hide Exact, Counted, FilesOpen;
    StepKeepsInv(s, a);
  }

  // ---------------------------------------------------------------- what follows

  /** A file is closed when, and only when, nothing refers to its entry any more, and it was open until then. */
  lemma ClosedAtLast(s: State, e: nat)
    requires Inv(s) && Enabled(s, CloseFile(e))
    ensures Refs(s, e) == 0 && s.file[e] in s.handles && s.file[e] !in s.closed
  {
    assert HasFile(s, e);
    assert e in s.dying;
  }

  lemma StepKeepsClosed(s: State, a: Step)
    requires Shape(s) && Enabled(s, a)
    ensures s.closed <= Do(s, a).closed
  {
  }

  lemma {:induction false} ClosedStays(run: seq<State>, steps: seq<Step>, i: nat, j: nat)
    requires IsRun(run, steps) && i <= j < |run|
    ensures run[i].closed <= run[j].closed
  {
    hide Enabled, Do, Init, Counted, FilesOpen;
    if i < j {
      ClosedStays(run, steps, i, j - 1);
      RunKeepsInv(run, steps, j - 1);
      assert Next(run[j - 1], steps[j - 1], run[j]);
      StepKeepsClosed(run[j - 1], steps[j - 1]);
    }
  }

  /** In a run no file is closed twice. */
  lemma ClosedOnce(run: seq<State>, steps: seq<Step>, i: nat, j: nat)
    requires IsRun(run, steps) && i < j < |steps| && steps[i].CloseFile? && steps[j].CloseFile?
    ensures steps[i].entry < |run[i].file| && steps[j].entry < |run[j].file|
    ensures run[i].file[steps[i].entry] != run[j].file[steps[j].entry]
  {
    RunKeepsInv(run, steps, i);
    RunKeepsInv(run, steps, j);
    ClosedStays(run, steps, i + 1, j);
    assert Next(run[i], steps[i], run[i + 1]) && Next(run[j], steps[j], run[j + 1]);
    ClosedAtLast(run[j], steps[j].entry);
  }

  /** Whoever holds a reference, a table slot or the cwd finds its file open. */
  lemma ReferencedIsOpen(s: State, e: nat)
    requires Inv(s) && e < |s.count| && Refs(s, e) > 0
    ensures s.file[e] in s.handles && s.file[e] !in s.closed && e !in s.free
  {
    assert HasFile(s, e);
  }

  lemma {:induction false} DistinctBelow(q: seq<nat>, n: nat)
    requires (forall i, j :: 0 <= i < j < |q| ==> q[i] != q[j]) && forall i :: 0 <= i < |q| ==> q[i] < n
    ensures |q| <= n
    decreases n
  {
    if q != [] {
      assert q[0] < n;
      if i :| 0 <= i < |q| && q[i] == n - 1 {
        var r := q[..i] + q[i + 1..];
        assert forall k :: 0 <= k < |r| ==> r[k] == q[if k < i then k else k + 1];
        DistinctBelow(r, n - 1);
      } else {
        DistinctBelow(q, n - 1);
      }
    }
  }

  /** The stack, which has as many slots as the table, never overflows. */
  lemma StackHasRoom(s: State, e: nat)
    requires Inv(s) && Enabled(s, Push(e))
    ensures |s.free| + 1 < |s.table|
  {
    var q := s.free + [e];
    assert e in s.closing;
    assert forall i :: 0 <= i < |s.free| ==> q[i] == s.free[i] && q[i] in s.free;
    DistinctBelow(q, |s.count|);
  }

  /** When the table is empty and no thread is in the middle of anything, every entry but the cwd's is free and
      every file but the cwd's is closed: nothing leaks. */
  lemma NothingLeaks(s: State)
    requires Inv(s) && Exact(s) && s.dup.None? && (forall i :: 0 <= i < |s.table| ==> s.table[i].None?)
    requires s.out == multiset{} && s.dying == {} && s.closing == {}
    ensures forall e :: 0 <= e < |s.count| && e != s.cwd ==> e in s.free
    ensures forall h :: h in s.handles && h != s.file[s.cwd] ==> h in s.closed
  {
    assert forall e: nat :: Some(e) !in multiset(s.table);
    forall e | 0 <= e < |s.count| && e != s.cwd
      ensures e in s.free
    {
      assert Refs(s, e) == 0;
      assert s.count[e] == 0;
    }
  }

  /** dup2 makes the target slot refer to what the source referred to. */
  lemma DupCopies(s: State, v: nat, w: nat)
    requires Inv(s) && Enabled(s, DupStart(v, w))
    ensures var t := Do(s, DupStart(v, w));
      Inv(t) && Enabled(t, DupEnd) && Do(t, DupEnd).table == s.table[w := s.table[v]]
  {
    KeepsDupStart(s, v, w);
  }
}
