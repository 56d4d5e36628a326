/** What the callers of the descriptor table see: which entry a number and the cwd stand for, step by step and over whole
    runs. */
module FdLaws {
  import opened Layout
  import opened FdTable

  // ---------------------------------------------------------------- one step

  /** Closing a number: it stands for nothing, the other numbers for what they did, and the caller holds the reference
      that the table had. */
  lemma TakeOutClears(s: State, v: nat)
    requires Inv(s) && Enabled(s, TakeOut(v))
    ensures var t := Do(s, TakeOut(v));
      && Shape(t) && !Enabled(t, Ref(v)) && !Enabled(t, TakeOut(v)) && |t.table| == |s.table|
      && (forall w :: 0 <= w < |s.table| && w != v ==> t.table[w] == s.table[w])
      && t.out == s.out + multiset{s.table[v].value} && t.count == s.count && t.cwd == s.cwd && t.file == s.file && t.closed == s.closed
  {
    StepKeepsInv(s, TakeOut(v));
  }

  /** Looking up a number: one reference to the entry in its slot, counted there and nowhere else. */
  lemma RefGives(s: State, v: nat)
    requires Inv(s) && Enabled(s, Ref(v))
    ensures var t, e := Do(s, Ref(v)), s.table[v].value;
      && t.table == s.table && t.cwd == s.cwd && t.out == s.out + multiset{e} && e < |s.count|
      && t.count == s.count[e := s.count[e] + 1] && t.file == s.file && t.closed == s.closed
      && s.file[e] in s.handles && s.file[e] !in s.closed
  {
    SlotIsReferenced(s, v);
    assert HasFile(s, s.table[v].value);
  }

  /** After a store the number stands for the entry stored, whose initial reference the table now has. */
  lemma AssignShows(s: State, v: nat, e: nat)
    requires Inv(s) && Enabled(s, Assign(v, e))
    ensures var t := Do(s, Assign(v, e));
      && Shape(t) && Enabled(t, Ref(v)) && Do(t, Ref(v)).out == s.out && |t.table| == |s.table|
      && (forall w :: 0 <= w < |s.table| && w != v ==> t.table[w] == s.table[w]) && t.count == s.count && t.cwd == s.cwd
  {
    StepKeepsInv(s, Assign(v, e));
    assert s.out - multiset{e} + multiset{e} == s.out;
  }

  /** After a chdir a lookup of the cwd gives the new entry, and the caller holds the reference of the old one. */
  lemma SwapCwdShows(s: State, e: nat)
    requires Inv(s) && Enabled(s, SwapCwd(e))
    ensures var t := Do(s, SwapCwd(e));
      && Shape(t) && Enabled(t, RefCwd) && Do(t, RefCwd).out == t.out + multiset{e}
      && t.out + multiset{e} == s.out + multiset{s.cwd} && t.table == s.table && t.count == s.count
  {
    StepKeepsInv(s, SwapCwd(e));
    assert s.out - multiset{e} + multiset{e} == s.out;
  }

  /** A new entry is taken off the free stack for the file given, with one reference in hand. */
  lemma FetchGives(s: State, h: nat)
    requires Inv(s) && Enabled(s, Fetch(h))
    ensures var t := Do(s, Fetch(h));
      exists e: nat :: e < |s.count| && s.count[e] == 0 && t.count == s.count[e := 1] && t.file == s.file[e := h]
        && t.out == s.out + multiset{e} && t.table == s.table && t.cwd == s.cwd
  {
    var e := s.free[|s.free| - 1];
    assert e in s.free;
    assert Do(s, Fetch(h)).count == s.count[e := 1];
  }

  // ---------------------------------------------------------------- the slots of the table over a run

  /** The dup2 that step `k` ends: it began with `r` in its source slot, and no other came between. */
  ghost predicate IsDup(run: seq<State>, steps: seq<Step>, m: int, k: int, v: nat, r: Option<nat>) {
    && 0 <= m < k <= |steps| && k < |run| && steps[m].DupStart? && steps[m].to == v
    && steps[m].from < |run[m].table| && run[m].table[steps[m].from] == r
    && forall l :: m < l < k ==> !steps[l].DupStart? && !steps[l].DupEnd?
  }

  /** Step `k` makes slot `v` hold `r`. */
  ghost predicate Sets(run: seq<State>, steps: seq<Step>, k: int, v: nat, r: Option<nat>)
    requires 0 <= k < |steps|
  {
    match steps[k]
    case Assign(w, e) => w == v && r == Some(e)
    case TakeOut(w) => w == v && r == None
    case DupEnd => exists m :: IsDup(run, steps, m, k, v, r)
    case _ => false
  }

  /** No step from `i` up to `j` is on slot `v`. */
  ghost predicate Untouched(run: seq<State>, steps: seq<Step>, i: int, j: int, v: nat)
    requires 0 <= i && j <= |steps|
  {
    forall k, r :: i <= k < j ==> !Sets(run, steps, k, v, r)
  }

  /** The last step on slot `v` before `j` made it hold `r`; before the first one it is empty. */
  ghost predicate LastSet(run: seq<State>, steps: seq<Step>, j: int, v: nat, r: Option<nat>)
    requires 0 <= j <= |steps|
  {
    || (exists k :: 0 <= k < j && Sets(run, steps, k, v, r) && Untouched(run, steps, k + 1, j, v))
    || (r == None && Untouched(run, steps, 0, j, v))
  }

  lemma StepShape(s: State, a: Step)
    requires Inv(s) && Enabled(s, a)
    ensures Inv(Do(s, a)) && |Do(s, a).table| == |s.table|
    ensures Do(s, a).dup == match a
      case DupStart(v, w) => Some((w, s.table[v]))
      case DupEnd => None
      case _ => s.dup
  {
    StepKeepsInv(s, a);
    hide Counted, FilesOpen;
  }

  lemma {:induction false} TableSize(run: seq<State>, steps: seq<Step>, i: nat)
    requires IsRun(run, steps) && i < |run|
    ensures Inv(run[i]) && |run[i].table| == |run[0].table|
  {
    hide Init, Enabled, Do, Inv;
    RunKeepsInv(run, steps, i);
    if i > 0 {
      TableSize(run, steps, i - 1);
      RunStep(run, steps, i - 1);
      StepShape(run[i - 1], steps[i - 1]);
    }
  }

  lemma RunStep(run: seq<State>, steps: seq<Step>, i: nat)
    requires IsRun(run, steps) && i < |steps|
    ensures Inv(run[i]) && Enabled(run[i], steps[i]) && run[i + 1] == Do(run[i], steps[i])
  {
    hide Init, Enabled, Do, Counted, FilesOpen;
    RunKeepsInv(run, steps, i);
    assert Next(run[i], steps[i], run[i + 1]);
  }

  /** A dup2 under way has begun at some step, with its value in the source slot. */
  lemma {:induction false} DupBegan(run: seq<State>, steps: seq<Step>, i: nat)
    requires IsRun(run, steps) && i < |run| && run[i].dup.Some?
    ensures exists m :: IsDup(run, steps, m, i, run[i].dup.value.0, run[i].dup.value.1)
  {
    hide Init, Enabled, Do, Inv, Shape;
    if i == 0 {
      StartsIdle(run, steps);
    } else {
      RunStep(run, steps, i - 1);
      StepShape(run[i - 1], steps[i - 1]);
      if steps[i - 1].DupStart? {
        DupInRange(run[i - 1], steps[i - 1].from, steps[i - 1].to);
        assert IsDup(run, steps, i - 1, i, run[i].dup.value.0, run[i].dup.value.1);
      } else {
        DupBegan(run, steps, i - 1);
        var m :| IsDup(run, steps, m, i - 1, run[i - 1].dup.value.0, run[i - 1].dup.value.1);
        assert IsDup(run, steps, m, i, run[i].dup.value.0, run[i].dup.value.1);
      }
    }
  }

  lemma StartsIdle(run: seq<State>, steps: seq<Step>)
    requires IsRun(run, steps)
    ensures run[0].dup.None?
  {
  }

  lemma DupInRange(s: State, v: nat, w: nat)
    requires Inv(s) && Enabled(s, DupStart(v, w))
    ensures v < |s.table| && w < |s.table|
  {
  }

  /** A dup2 that has begun is under way until it ends. */
  lemma {:induction false} DupGoesOn(run: seq<State>, steps: seq<Step>, m: nat, k: nat, v: nat, r: Option<nat>)
    requires IsRun(run, steps) && IsDup(run, steps, m, k, v, r)
    ensures run[k].dup == Some((v, r))
    decreases k
  {
    hide Init, Enabled, Do, Inv, Shape;
    RunStep(run, steps, k - 1);
    StepShape(run[k - 1], steps[k - 1]);
    if m < k - 1 {
      assert IsDup(run, steps, m, k - 1, v, r);
      DupGoesOn(run, steps, m, k - 1, v, r);
    }
  }

  lemma StepTable(s: State, a: Step)
    requires Inv(s) && Enabled(s, a)
    ensures a.Assign? || a.TakeOut? ==> a.vfd < |s.table|
    ensures a.DupEnd? ==> s.dup.Some? && s.dup.value.0 < |s.table|
    ensures Do(s, a).table == match a
      case Assign(v, e) => s.table[v := Some(e)]
      case TakeOut(v) => s.table[v := None]
      case DupEnd => s.table[s.dup.value.0 := s.dup.value.1]
      case _ => s.table
  {
    hide Counted, FilesOpen;
  }

  lemma DupSets(run: seq<State>, steps: seq<Step>, i: nat, v: nat, r: Option<nat>)
    requires IsRun(run, steps) && i < |steps| && steps[i].DupEnd? && run[i].dup.Some?
    ensures Sets(run, steps, i, v, r) <==> run[i].dup == Some((v, r))
  {
    hide Init, Next;
    DupBegan(run, steps, i);
    if Sets(run, steps, i, v, r) {
      var m :| IsDup(run, steps, m, i, v, r);
      DupGoesOn(run, steps, m, i, v, r);
    }
  }

  /** A step changes exactly the slot it is on. */
  lemma StepOnSlot(run: seq<State>, steps: seq<Step>, i: nat, v: nat)
    requires IsRun(run, steps) && i < |steps| && v < |run[0].table|
    ensures |run[i].table| == |run[i + 1].table| == |run[0].table|
    ensures forall r :: Sets(run, steps, i, v, r) ==> run[i + 1].table[v] == r
    ensures run[i + 1].table[v] == run[i].table[v] || Sets(run, steps, i, v, run[i + 1].table[v])
  {
    hide Init, Next, Inv, Do, Enabled, IsDup;
    TableSize(run, steps, i);
    TableSize(run, steps, i + 1);
    RunStep(run, steps, i);
    StepTable(run[i], steps[i]);
    if steps[i].DupEnd? {
      forall r
        ensures Sets(run, steps, i, v, r) <==> run[i].dup == Some((v, r))
      {
        DupSets(run, steps, i, v, r);
      }
    }
  }

  lemma {:induction false} SlotStays(run: seq<State>, steps: seq<Step>, i: nat, j: nat, v: nat)
    requires IsRun(run, steps) && i <= j < |run| && v < |run[0].table| && Untouched(run, steps, i, j, v)
    ensures |run[i].table| == |run[j].table| == |run[0].table| && run[j].table[v] == run[i].table[v]
    decreases j
  {
    hide Init, Next, Sets;
    if i < j {
      SlotStays(run, steps, i, j - 1, v);
      StepOnSlot(run, steps, j - 1, v);
      assert !Sets(run, steps, j - 1, v, run[j].table[v]);
    } else {
      TableSize(run, steps, i);
    }
  }

  lemma StillUntouched(run: seq<State>, steps: seq<Step>, i: nat, j: nat, v: nat)
    requires 0 <= i < j <= |steps| && Untouched(run, steps, i, j - 1, v)
    requires forall k, r :: k == j - 1 ==> !Sets(run, steps, k, v, r)
    ensures Untouched(run, steps, i, j, v)
  {
    hide Sets;
  }

  lemma {:induction false} SlotWasSet(run: seq<State>, steps: seq<Step>, j: nat, v: nat)
    requires IsRun(run, steps) && j < |run| && v < |run[0].table|
    ensures v < |run[j].table| && LastSet(run, steps, j, v, run[j].table[v])
  {
    TableSize(run, steps, j);
    if j == 0 {
      assert run[0].table[v] == None;
      return;
    }
    hide Init, Next, Sets;
    SlotWasSet(run, steps, j - 1, v);
    StepOnSlot(run, steps, j - 1, v);
    var r := run[j].table[v];
    if Sets(run, steps, j - 1, v, r) {
      assert Untouched(run, steps, j, j, v);
    } else {
      if k :| 0 <= k < j - 1 && Sets(run, steps, k, v, r) && Untouched(run, steps, k + 1, j - 1, v) {
        StillUntouched(run, steps, k + 1, j, v);
      } else {
        StillUntouched(run, steps, 0, j, v);
      }
    }
  }

  /** In every state of every run a slot holds an entry if and only if the last step on it was the store of that entry, or
      the end of a dup2 that began with that entry in its source slot; otherwise it is empty. */
  lemma SlotShowsLast(run: seq<State>, steps: seq<Step>, j: nat, v: nat, r: Option<nat>)
    requires IsRun(run, steps) && j < |run| && v < |run[0].table|
    ensures v < |run[j].table| && (run[j].table[v] == r <==> LastSet(run, steps, j, v, r))
  {
    SlotWasSet(run, steps, j, v);
    if LastSet(run, steps, j, v, r) {
      if k :| 0 <= k < j && Sets(run, steps, k, v, r) && Untouched(run, steps, k + 1, j, v) {
        hide Init, Next, Sets;
        StepOnSlot(run, steps, k, v);
        SlotStays(run, steps, k + 1, j, v);
      } else {
        assert run[0].table[v] == None;
        hide Init, Next, Sets;
        SlotStays(run, steps, 0, j, v);
      }
    }
  }

  // ---------------------------------------------------------------- the cwd and the files over a run

  lemma {:induction false} CwdStays(run: seq<State>, steps: seq<Step>, i: nat, j: nat)
    requires IsRun(run, steps) && i <= j < |run| && forall k :: i <= k < j ==> !steps[k].SwapCwd?
    ensures run[j].cwd == run[i].cwd
    decreases j
  {
    hide Init, Next;
    if i < j {
      CwdStays(run, steps, i, j - 1);
      RunStep(run, steps, j - 1);
    }
  }

  /** The cwd is the entry of the last chdir. */
  lemma CwdShowsLast(run: seq<State>, steps: seq<Step>, k: nat, j: nat)
    requires IsRun(run, steps) && k < j < |run| && steps[k].SwapCwd? && forall l :: k < l < j ==> !steps[l].SwapCwd?
    ensures run[j].cwd == steps[k].entry
  {
    hide Init, Next;
    RunStep(run, steps, k);
    CwdStays(run, steps, k + 1, j);
  }

  lemma FileStays(s: State, a: Step, e: nat)
    requires Inv(s) && Enabled(s, a) && e < |s.count| && Refs(s, e) > 0
    ensures e < |Do(s, a).file| && Do(s, a).file[e] == s.file[e]
  {
    hide FilesOpen, Refs;
    if a.Fetch? {
      assert s.free[|s.free| - 1] in s.free;
    }
  }

  /** As long as nothing is done to a number, it stands for the same file, and that file is open. */
  lemma {:induction false} NumberKeepsFile(run: seq<State>, steps: seq<Step>, i: nat, j: nat, v: nat, e: nat)
    requires IsRun(run, steps) && i <= j < |run| && v < |run[0].table| && Untouched(run, steps, i, j, v)
    requires v < |run[i].table| && run[i].table[v] == Some(e) && forall k :: i <= k <= j ==> run[k].dup.None? || run[k].dup.value.0 != v
    ensures v < |run[j].table| && run[j].table[v] == Some(e) && e < |run[i].file| && e < |run[j].file|
    ensures run[j].file[e] == run[i].file[e] && run[j].file[e] in run[j].handles && run[j].file[e] !in run[j].closed
    decreases j
  {
    hide Init, Next, Sets, Inv, Shape, Counted, FilesOpen, Refs, Enabled, Do;
    SlotStays(run, steps, i, j, v);
    TableSize(run, steps, j);
    NumberIsRef(run[j], v, e);
    ReferencedIsOpen(run[j], e);
    if i < j {
      NumberKeepsFile(run, steps, i, j - 1, v, e);
      RunStep(run, steps, j - 1);
      NumberIsRef(run[j - 1], v, e);
      FileStays(run[j - 1], steps[j - 1], e);
    }
  }

  lemma NumberIsRef(s: State, v: nat, e: nat)
    requires Inv(s) && v < |s.table| && s.table[v] == Some(e) && (s.dup.None? || s.dup.value.0 != v)
    ensures e < |s.count| && e < |s.file| && Refs(s, e) > 0
  {
    assert Effective(s)[v] == Some(e);
    assert Some(e) in multiset(Effective(s));
  }
}
