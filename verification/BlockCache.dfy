/** The cached block pointers of file handles (read.c, write.c, data.c): threads that share handles of one file
    use a remembered block only if no block has been removed since it was remembered. */
module BlockCache {
  import opened Layout

  datatype Handle = Handle(cache: Option<Slot>, observed: nat)

  /** What a thread is doing. `InFile` threads hold the vinode's lock, for writing or reading, and have `last` as
      the hint of their lookups; `Left` ones have released it and still hold the mutex of their handle; `Copied`
      ones run a positioned read or write with a private copy of the handle's fields. */
  datatype Thread =
    | Idle
    | HasMutex(handle: nat)
    | InFile(owner: Option<nat>, writing: bool, last: Option<Slot>)
    | Left(handle: nat, last: Option<Slot>)
    | Copied(last: Option<Slot>, seen: nat)

  /** `live` are the blocks of the file, `counter` counts the calls that may have removed or moved some. */
  datatype State = State(counter: nat, live: set<Slot>, handles: map<nat, Handle>, threads: map<nat, Thread>)

  ghost predicate Live(s: State, b: Option<Slot>) {
    b.Some? ==> b.value in s.live
  }

  predicate Holds(t: Thread, h: nat) {
    match t
    case HasMutex(g) => g == h
    case InFile(o, _, _) => o == Some(h)
    case Left(g, _) => g == h
    case _ => false
  }

  /** The mutex of each handle and the lock of the vinode exclude. */
  ghost predicate Exclusive(s: State) {
    && (forall t, u, h :: t in s.threads && u in s.threads && t != u && Holds(s.threads[t], h) ==> !Holds(s.threads[u], h))
    && (forall t, u :: t in s.threads && u in s.threads && t != u && s.threads[t].InFile? && s.threads[t].writing ==> !s.threads[u].InFile?)
    && (forall t, h :: t in s.threads && Holds(s.threads[t], h) ==> h in s.handles)
  }

  /** What makes a block pointer that passes the comparison of counters usable. */
  ghost predicate Fresh(s: State) {
    && (forall h :: h in s.handles ==>
          s.handles[h].observed <= s.counter && (s.handles[h].observed == s.counter ==> Live(s, s.handles[h].cache)))
    && (forall t :: t in s.threads ==> ThreadFresh(s, s.threads[t]))
  }

  ghost predicate ThreadFresh(s: State, t: Thread) {
    match t
    case InFile(o, _, last) => Live(s, last) && (o.Some? && o.value in s.handles ==> s.handles[o.value].observed == s.counter)
    case Left(h, last) => h in s.handles && s.handles[h].observed == s.counter ==> Live(s, last)
    case Copied(last, seen) => seen <= s.counter && (seen == s.counter ==> Live(s, last))
    case _ => true
  }

  ghost predicate Inv(s: State) {
    Exclusive(s) && Fresh(s)
  }

  // ---------------------------------------------------------------- steps

  datatype Step =
    | LockHandle(h: nat)                             // readv and writev take the handle's mutex
    | CopyHandle(h: nat)                             // preadv and pwritev copy its fields under the mutex
    | Enter(writing: bool)                           // take the vinode's lock and compare the counters
    | EnterOnly                                      // truncate and fallocate take the lock for writing
    | Look(found: Option<Slot>)                      // a lookup with the hint; the block found is the next hint
    | Grow(live: set<Slot>, found: Option<Slot>)     // an allocation adds blocks, in a transaction that commits
    | Remove(live: set<Slot>)                        // vinode_remove_interval removes and moves blocks, or aborts
    | Leave                                          // release the vinode's lock
    | Remember(keep: bool)                           // store the cache in the handle, release its mutex

  ghost predicate Alone(s: State, t: nat) {
    forall u :: u in s.threads && u != t ==> !s.threads[u].InFile?
  }

  ghost predicate NoWriter(s: State, t: nat) {
    forall u :: u in s.threads && u != t && s.threads[u].InFile? ==> !s.threads[u].writing
  }

  ghost predicate MutexFree(s: State, t: nat, h: nat) {
    h in s.handles && forall u :: u in s.threads && u != t ==> !Holds(s.threads[u], h)
  }

  ghost predicate Enabled(s: State, t: nat, a: Step) {
    && t in s.threads
    && var me := s.threads[t];
    match a
    case LockHandle(h) => me.Idle? && MutexFree(s, t, h)
    case CopyHandle(h) => me.Idle? && MutexFree(s, t, h)
    case Enter(w) => (me.HasMutex? || me.Copied?) && (me.HasMutex? ==> me.handle in s.handles) && (if w then Alone(s, t) else NoWriter(s, t))
    case EnterOnly => me.Idle? && Alone(s, t)
    case Look(b) => me.InFile? && Live(s, b)
    case Grow(live, b) => me.InFile? && me.writing && s.live <= live && (b.Some? ==> b.value in live)
    case Remove(_) => me.InFile? && me.writing && me.owner.None? && me.last.None?
    case Leave => me.InFile?
    case Remember(_) => me.Left? && me.handle in s.handles
  }

  ghost function Set(s: State, t: nat, me: Thread): State {
    s.(threads := s.threads[t := me])
  }

  ghost function Do(s: State, t: nat, a: Step): State
    requires Enabled(s, t, a)
  {
    var me := s.threads[t];
    match a
    case LockHandle(h) => Set(s, t, HasMutex(h))
    case CopyHandle(h) => Set(s, t, Copied(s.handles[h].cache, s.handles[h].observed))
    case Enter(w) =>
      if me.Copied? then Set(s, t, InFile(None, w, if me.seen == s.counter then me.last else None))
      else
        var g := s.handles[me.handle];
        var checked := if g.observed == s.counter then g else Handle(None, s.counter);
        Set(s.(handles := s.handles[me.handle := checked]), t, InFile(Some(me.handle), w, checked.cache))
    case EnterOnly => Set(s, t, InFile(None, true, None))
    case Look(b) => Set(s, t, InFile(me.owner, me.writing, if b.Some? then b else me.last))
    case Grow(live, b) => Set(s.(live := live), t, InFile(me.owner, me.writing, if b.Some? then b else me.last))
    case Remove(live) => s.(live := live, counter := s.counter + 1)
    case Leave => Set(s, t, if me.owner.Some? then Left(me.owner.value, me.last) else Idle)
    case Remember(keep) =>
      Set(s.(handles := s.handles[me.handle := s.handles[me.handle].(cache := if keep then me.last else None)]), t, Idle)
  }

  // ---------------------------------------------------------------- every step keeps the invariant

  /** A step of thread `t` that changes neither the blocks nor the handles. */
  lemma KeepsMove(s: State, t: nat, me: Thread)
    requires Inv(s) && t in s.threads && ThreadFresh(s, me)
    requires forall h :: Holds(me, h) ==> h in s.handles && (Holds(s.threads[t], h) || MutexFree(s, t, h))
    requires me.InFile? ==>
      (s.threads[t].InFile? && s.threads[t].writing == me.writing) || (if me.writing then Alone(s, t) else NoWriter(s, t))
    ensures Inv(Set(s, t, me))
  {
    hide Holds;
    var r := Set(s, t, me);
    forall u | u in r.threads
      ensures ThreadFresh(r, r.threads[u])
    {
      assert ThreadFresh(s, if u == t then me else s.threads[u]);
    }
  }

  /** The thread that holds a handle's mutex brings the handle up to date or stores a pointer in it. */
  lemma KeepsHandle(s: State, t: nat, h: nat, g: Handle)
    requires Inv(s) && t in s.threads && h in s.handles && Holds(s.threads[t], h) && !s.threads[t].InFile?
    requires s.handles[h].observed <= g.observed <= s.counter && (g.observed == s.counter ==> Live(s, g.cache))
    requires s.threads[t].Left? ==> g.observed == s.handles[h].observed
    ensures Inv(s.(handles := s.handles[h := g]))
  {
    hide Holds;
    var r := s.(handles := s.handles[h := g]);
    forall u | u in r.threads
      ensures ThreadFresh(r, r.threads[u])
    {
      assert ThreadFresh(s, s.threads[u]);
      if u != t {
        OwnsOther(s, t, u, h);
      }
    }
  }

  lemma OwnsOther(s: State, t: nat, u: nat, h: nat)
    requires Exclusive(s) && t in s.threads && u in s.threads && t != u && Holds(s.threads[t], h)
    ensures s.threads[u].InFile? ==> s.threads[u].owner != Some(h)
    ensures s.threads[u].Left? ==> s.threads[u].handle != h
  {
    assert !Holds(s.threads[u], h);
  }

  lemma KeepsGrow(s: State, live: set<Slot>)
    requires Inv(s) && s.live <= live
    ensures Inv(s.(live := live))
  {
    var r := s.(live := live);
    forall u | u in r.threads
      ensures ThreadFresh(r, r.threads[u])
    {
      assert ThreadFresh(s, s.threads[u]);
    }
  }

  /** Whatever a removal does to the blocks, no pointer remembered before passes the comparison afterwards. */
  lemma KeepsRemove(s: State, t: nat, live: set<Slot>)
    requires Inv(s) && Enabled(s, t, Remove(live))
    ensures Inv(Do(s, t, Remove(live)))
  {
    hide Holds;
    var r := Do(s, t, Remove(live));
    forall u | u in r.threads
      ensures ThreadFresh(r, r.threads[u])
    {
      assert ThreadFresh(s, s.threads[u]);
      assert u != t ==> !s.threads[u].InFile?;
    }
  }

  lemma KeepsEnter(s: State, t: nat, w: bool)
    requires Inv(s) && Enabled(s, t, Enter(w))
    ensures Inv(Do(s, t, Enter(w)))
  {
    var me := s.threads[t];
    assert ThreadFresh(s, me);
    if me.Copied? {
      KeepsMove(s, t, InFile(None, w, if me.seen == s.counter then me.last else None));
    } else {
      var g := s.handles[me.handle];
      var checked := if g.observed == s.counter then g else Handle(None, s.counter);
      KeepsHandle(s, t, me.handle, checked);
      KeepsMove(s.(handles := s.handles[me.handle := checked]), t, InFile(Some(me.handle), w, checked.cache));
    }
  }

  lemma KeepsRemember(s: State, t: nat, keep: bool)
    requires Inv(s) && Enabled(s, t, Remember(keep))
    ensures Inv(Do(s, t, Remember(keep)))
  {
    var me := s.threads[t];
    assert ThreadFresh(s, me);
    var g := s.handles[me.handle].(cache := if keep then me.last else None);
    KeepsHandle(s, t, me.handle, g);
    KeepsMove(s.(handles := s.handles[me.handle := g]), t, Idle);
  }

  lemma KeepsLook(s: State, t: nat, live: set<Slot>, b: Option<Slot>)
    requires Inv(s) && t in s.threads && s.threads[t].InFile? && s.live <= live && (b.Some? ==> b.value in live)
    ensures var me := s.threads[t];
      Inv(Set(s.(live := live), t, InFile(me.owner, me.writing, if b.Some? then b else me.last)))
  {
    var me := s.threads[t];
    KeepsGrow(s, live);
    var r := s.(live := live);
    assert ThreadFresh(r, me);
    KeepsMove(r, t, InFile(me.owner, me.writing, if b.Some? then b else me.last));
  }

  lemma StepKeepsInv(s: State, t: nat, a: Step)
    requires Inv(s) && Enabled(s, t, a)
    ensures Inv(Do(s, t, a))
  {
    var me := s.threads[t];
    assert ThreadFresh(s, me);
    match a
    case LockHandle(h) => KeepsMove(s, t, HasMutex(h));
    case CopyHandle(h) => KeepsMove(s, t, Copied(s.handles[h].cache, s.handles[h].observed));
    case Enter(w) => KeepsEnter(s, t, w);
    case EnterOnly => KeepsMove(s, t, InFile(None, true, None));
    case Look(b) =>
      KeepsLook(s, t, s.live, b);
      assert s.(live := s.live) == s;
    case Grow(live, b) => KeepsLook(s, t, live, b);
    case Remove(live) => KeepsRemove(s, t, live);
    case Leave => KeepsMove(s, t, if me.owner.Some? then Left(me.owner.value, me.last) else Idle);
    case Remember(keep) => KeepsRemember(s, t, keep);
  }

  // ---------------------------------------------------------------- whole runs

  /** New handles: nothing is cached and no thread is busy. */
  ghost predicate Init(s: State) {
    && (forall h :: h in s.handles ==> s.handles[h] == Handle(None, 0))
    && (forall t :: t in s.threads ==> s.threads[t] == Idle)
  }

  ghost predicate IsRun(run: seq<State>, steps: seq<(nat, Step)>) {
    && |run| == |steps| + 1 && Init(run[0])
    && forall i :: 0 <= i < |steps| ==> Enabled(run[i], steps[i].0, steps[i].1) && run[i + 1] == Do(run[i], steps[i].0, steps[i].1)
  }

  lemma {:induction false} RunKeepsInv(run: seq<State>, steps: seq<(nat, Step)>, i: nat)
    requires IsRun(run, steps) && i < |run|
    ensures Inv(run[i])
  {
    if i > 0 {
      RunKeepsInv(run, steps, i - 1);
      StepKeepsInv(run[i - 1], steps[i - 1].0, steps[i - 1].1);
    }
  }

  /** In every run of any number of threads on any number of handles, the block with which a thread starts or
      continues its lookups is a block of the file at that moment. */
  lemma HintsAreLive(run: seq<State>, steps: seq<(nat, Step)>, i: nat, t: nat)
    requires IsRun(run, steps) && i < |run| && t in run[i].threads && run[i].threads[t].InFile?
    ensures Live(run[i], run[i].threads[t].last)
  {
    RunKeepsInv(run, steps, i);
    assert ThreadFresh(run[i], run[i].threads[t]);
  }
}
