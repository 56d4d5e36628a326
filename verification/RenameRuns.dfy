/** Any number of threads that create, link, unlink, make, remove, rename and exchange. A rename or exchange across
    directories locks its directories and inodes, waits for the file system's lock, walks to the root and only then
    runs its transaction; everything that does not need those locks goes on meanwhile. */
module RenameRuns {
  import opened Layout
  import opened Names
  import opened NameOps
  import opened MoveOps
  import opened Changes
  import opened Jobs

  /** The thread that holds the file system's lock: the walks it has to make, where the current one has got to, and
      the walks that ended at a root. */
  datatype Walker = Walker(thread: nat, todo: seq<Check>, at: nat, passed: seq<Check>)

  /** `jobs` has the threads that have locked what their job needs. */
  datatype State = State(fs: FS, jobs: map<nat, Job>, walker: Option<Walker>)

  // ---------------------------------------------------------------- what every run keeps

  /** The walk of `c` has got to `at` without meeting what moves. */
  ghost predicate OnTheWay(fs: FS, c: Check, at: nat) {
    exists n: nat :: WalkedTo(fs, c, at, n)
  }

  ghost predicate WalkedTo(fs: FS, c: Check, at: nat, n: nat) {
    at == Up(fs.parent, c.start, n) && forall k: nat :: k < n ==> Up(fs.parent, c.start, k) != c.moved
  }

  /** What the walks so far have shown. */
  ghost predicate Walking(fs: FS, job: Job, w: Walker) {
    && job.p in fs.entries && (job.Swap? ==> job.q in fs.entries)
    && Checks(fs, job) == w.passed + w.todo
    && (forall i :: 0 <= i < |w.passed| ==> Clear(fs, w.passed[i]) && w.passed[i].start in fs.parent)
    && (forall i :: 0 <= i < |w.todo| ==> w.todo[i].start in fs.parent && w.todo[i].moved !in fs.roots)
    && (w.todo != [] ==> OnTheWay(fs, w.todo[0], w.at))
  }

  ghost predicate AllPrepared(fs: FS, jobs: map<nat, Job>) {
    forall t {:trigger t in jobs} :: t in jobs ==> Prepared(fs, jobs[t])
  }

  /** No two threads have locked the same inode. */
  ghost predicate Exclusive(fs: FS, jobs: map<nat, Job>)
    requires Shaped(fs) && AllPrepared(fs, jobs)
  {
    forall t, u {:trigger t in jobs, u in jobs} :: t in jobs && u in jobs && t != u ==> LockSet(fs, jobs[t]) !! LockSet(fs, jobs[u])
  }

  /** None of `own` is locked by a job. */
  ghost predicate Unlocked(fs: FS, jobs: map<nat, Job>, own: set<nat>)
    requires Shaped(fs) && AllPrepared(fs, jobs)
  {
    forall t {:trigger t in jobs} :: t in jobs ==> own !! LockSet(fs, jobs[t])
  }

  ghost predicate Sound(s: State) {
    && Shaped(s.fs) && AllPrepared(s.fs, s.jobs) && Exclusive(s.fs, s.jobs)
    && (s.walker.Some? ==> s.walker.value.thread in s.jobs && Walking(s.fs, s.jobs[s.walker.value.thread], s.walker.value))
  }

  // ---------------------------------------------------------------- steps

  datatype Action =
    | Prepare(thread: nat, job: Job)
    | Acquire(thread: nat)
    | Walk
    | Pass
    | Refuse
    | Commit
    | Abort
    | Tear
    | Run(change: Change)

  ghost predicate Enabled(s: State, a: Action)
    requires Sound(s)
  {
    match a
    case Prepare(t, job) => t !in s.jobs && Prepared(s.fs, job) && Unlocked(s.fs, s.jobs, LockSet(s.fs, job))
    case Acquire(t) => s.walker.None? && t in s.jobs
    case Walk => s.walker.Some? && s.walker.value.todo != [] && s.walker.value.at !in s.fs.roots && s.walker.value.at != s.walker.value.todo[0].moved
    case Pass => s.walker.Some? && s.walker.value.todo != [] && s.walker.value.at in s.fs.roots
    case Refuse => s.walker.Some? && s.walker.value.todo != [] && s.walker.value.at == s.walker.value.todo[0].moved
    case Commit => s.walker.Some? && s.walker.value.todo == []
    case Abort => s.walker.Some?
    case Tear => s.walker.Some? && s.walker.value.todo == [] && Tearable(s.fs, s.jobs[s.walker.value.thread])
    case Run(c) => Allowed(s.fs, c) && Unlocked(s.fs, s.jobs, Held(s.fs, c))
  }

  ghost function First(todo: seq<Check>): nat {
    if todo == [] then 0 else todo[0].start
  }

  ghost function Do(s: State, a: Action): State
    requires Sound(s) && Enabled(s, a)
  {
    match a
    case Prepare(t, job) => s.(jobs := s.jobs[t := job])
    case Acquire(t) =>
      PreparedFacts(s.fs, s.jobs[t]);
      var todo := Checks(s.fs, s.jobs[t]);
      s.(walker := Some(Walker(t, todo, First(todo), [])))
    case Walk => s.(walker := Some(s.walker.value.(at := Step(s.fs.parent, s.walker.value.at))))
    case Pass =>
      var w := s.walker.value;
      s.(walker := Some(Walker(w.thread, w.todo[1..], First(w.todo[1..]), w.passed + [w.todo[0]])))
    case Refuse => s.(jobs := s.jobs - {s.walker.value.thread}, walker := None)
    case Commit => State(Done(s.fs, s.jobs[s.walker.value.thread]), s.jobs - {s.walker.value.thread}, None)
    case Abort => s.(jobs := s.jobs - {s.walker.value.thread}, walker := None)
    case Tear =>
      var job := s.jobs[s.walker.value.thread];
      State(Misparented(s.fs, job.p, job.q), s.jobs - {s.walker.value.thread}, None)
    case Run(c) => s.(fs := Apply(s.fs, c))
  }

  // ---------------------------------------------------------------- walks

  lemma StaysOnTheWay(fs: FS, r: FS, c: Check, at: nat)
    requires ClosedUp(fs.parent) && KeepsParents(fs, r) && c.start in fs.parent && OnTheWay(fs, c, at)
    ensures OnTheWay(r, c, at)
  {
    var n: nat :| WalkedTo(fs, c, at, n);
    forall k: nat
      ensures Up(r.parent, c.start, k) == Up(fs.parent, c.start, k)
    {
      KeptUp(fs, r, c.start, k);
    }
    assert WalkedTo(r, c, at, n);
  }

  lemma StaysClear(fs: FS, r: FS, c: Check)
    requires ClosedUp(fs.parent) && KeepsParents(fs, r) && c.start in fs.parent && Clear(fs, c)
    ensures Clear(r, c)
  {
    forall k: nat
      ensures Up(r.parent, c.start, k) != c.moved
    {
      KeptUp(fs, r, c.start, k);
      assert Up(fs.parent, c.start, k) != c.moved;
    }
  }

  /** A walk that has reached a root has shown that what moves is not above its start. */
  lemma EndsClear(fs: FS, c: Check, at: nat)
    requires OnTheWay(fs, c, at) && Step(fs.parent, at) == at && at != c.moved
    ensures Clear(fs, c)
  {
    var n: nat :| WalkedTo(fs, c, at, n);
    forall k: nat
      ensures Up(fs.parent, c.start, k) != c.moved
    {
      if k >= n {
        UpSum(fs.parent, c.start, n, k - n);
        UpRoot(fs.parent, at, k - n);
      }
    }
  }

  lemma WalksOn(fs: FS, c: Check, at: nat)
    requires OnTheWay(fs, c, at) && at != c.moved
    ensures OnTheWay(fs, c, Step(fs.parent, at))
  {
    var n: nat :| WalkedTo(fs, c, at, n);
    UpSum(fs.parent, c.start, n, 1);
    assert Up(fs.parent, at, 1) == Step(fs.parent, at) by {
      assert Up(fs.parent, Step(fs.parent, at), 0) == Step(fs.parent, at);
    }
    assert WalkedTo(fs, c, Step(fs.parent, at), n + 1);
  }

  lemma Starts(fs: FS, c: Check)
    ensures OnTheWay(fs, c, c.start)
  {
    assert WalkedTo(fs, c, c.start, 0);
  }

  lemma AcquireWalks(fs: FS, job: Job, t: nat)
    requires Shaped(fs) && Prepared(fs, job) && job.p in fs.entries && (job.Swap? ==> job.q in fs.entries)
    ensures var todo := Checks(fs, job); Walking(fs, job, Walker(t, todo, First(todo), []))
  {
    PreparedFacts(fs, job);
    hide Shaped, Prepared, OnTheWay;
    var todo := Checks(fs, job);
    assert [] + todo == todo;
    if todo != [] {
      Starts(fs, todo[0]);
    }
  }

  lemma PassWalks(fs: FS, job: Job, w: Walker)
    requires Shaped(fs) && Walking(fs, job, w) && w.todo != [] && w.at in fs.roots
    ensures Walking(fs, job, Walker(w.thread, w.todo[1..], First(w.todo[1..]), w.passed + [w.todo[0]]))
  {
    ParentsClosed(fs);
    hide Shaped, OnTheWay, Clear, Checks;
    EndsClear(fs, w.todo[0], w.at);
    assert (w.passed + [w.todo[0]]) + w.todo[1..] == w.passed + w.todo;
    if |w.todo| > 1 {
      Starts(fs, w.todo[1]);
    }
  }

  /** What a walk has shown still holds after others have worked. */
  lemma StaysWalking(fs: FS, r: FS, job: Job, w: Walker)
    requires Shaped(fs) && Walking(fs, job, w) && KeepsParents(fs, r) && job.p in r.entries && (job.Swap? ==> job.q in r.entries)
    requires Checks(r, job) == Checks(fs, job)
    ensures Walking(r, job, w)
  {
    ParentsClosed(fs);
    SameRoots(fs, r);
    hide Shaped, OnTheWay, Clear, Checks, KeepsParents;
    forall i | 0 <= i < |w.passed|
      ensures Clear(r, w.passed[i])
    {
      StaysClear(fs, r, w.passed[i]);
    }
    if w.todo != [] {
      StaysOnTheWay(fs, r, w.todo[0], w.at);
    }
  }

  lemma SameRoots(fs: FS, r: FS)
    requires KeepsParents(fs, r)
    ensures r.roots == fs.roots && forall d :: d in fs.parent ==> d in r.parent
  {
  }

  /** When no walk is left, none has met what moves. */
  lemma WalkedClear(fs: FS, job: Job, w: Walker)
    requires Walking(fs, job, w) && w.todo == []
    ensures AllClear(fs, job)
  {
    hide Checks, Clear, OnTheWay;
    assert w.passed + [] == w.passed;
  }

  // ---------------------------------------------------------------- every step is sound

  /** Jobs that hold none of the inodes touched stay as they were prepared. */
  lemma JobsStay(fs: FS, r: FS, jobs: map<nat, Job>, own: set<nat>)
    requires Shaped(fs) && Shaped(r) && AllPrepared(fs, jobs) && Exclusive(fs, jobs) && Unlocked(fs, jobs, own) && OnlyTouches(fs, r, own)
    ensures AllPrepared(r, jobs) && Exclusive(r, jobs)
    ensures forall t {:trigger jobs[t]} :: t in jobs ==> LockSet(r, jobs[t]) == LockSet(fs, jobs[t])
  {
    hide Shaped, Prepared, OnlyTouches, LockSet;
    forall t | t in jobs
      ensures Prepared(r, jobs[t]) && LockSet(r, jobs[t]) == LockSet(fs, jobs[t])
    {
      StaysPrepared(fs, r, jobs[t], own);
    }
  }

  /** An inode that is just being made is in no one's hands. */
  lemma NewIsUnlocked(fs: FS, jobs: map<nat, Job>, c: Change)
    requires Shaped(fs) && AllPrepared(fs, jobs) && Allowed(fs, c) && Unlocked(fs, jobs, Held(fs, c))
    ensures Unlocked(fs, jobs, Held(fs, c) + NewInodes(c))
  {
    hide Shaped, Prepared, LockSet, Held;
    forall t | t in jobs
      ensures (Held(fs, c) + NewInodes(c)) !! LockSet(fs, jobs[t])
    {
      forall x | x in NewInodes(c)
        ensures x !in LockSet(fs, jobs[t])
      {
        if x in LockSet(fs, jobs[t]) {
          LockedExist(fs, jobs[t], x);
        }
      }
    }
  }

  lemma RunIsSound(s: State, c: Change)
    requires Sound(s) && Enabled(s, Run(c))
    ensures Sound(Do(s, Run(c)))
  {
    hide Shaped, Allowed, Held, Unlocked, OnlyTouches, Exclusive, KeepsParents, Walking, Checks;
    var r, own := Apply(s.fs, c), Held(s.fs, c) + NewInodes(c);
    ApplyShaped(s.fs, c);
    ApplyTouches(s.fs, c);
    ApplyKeepsParents(s.fs, c);
    NewIsUnlocked(s.fs, s.jobs, c);
    JobsStay(s.fs, r, s.jobs, own);
    if s.walker.Some? {
      var job := s.jobs[s.walker.value.thread];
      UnlockedBy(s.fs, s.jobs, own, s.walker.value.thread);
      StaysPrepared(s.fs, r, job, own);
      StaysWalking(s.fs, r, job, s.walker.value);
    }
  }

  lemma UnlockedBy(fs: FS, jobs: map<nat, Job>, own: set<nat>, t: nat)
    requires Shaped(fs) && AllPrepared(fs, jobs) && Unlocked(fs, jobs, own) && t in jobs
    ensures Prepared(fs, jobs[t]) && own !! LockSet(fs, jobs[t])
  {
  }

  /** The jobs of the other threads, when `t` is done. */
  lemma RestStays(fs: FS, r: FS, jobs: map<nat, Job>, t: nat, own: set<nat>)
    requires Shaped(fs) && Shaped(r) && AllPrepared(fs, jobs) && Exclusive(fs, jobs) && t in jobs
    requires own <= LockSet(fs, jobs[t]) && OnlyTouches(fs, r, own)
    ensures AllPrepared(r, jobs - {t}) && Exclusive(r, jobs - {t})
    ensures forall u {:trigger jobs[u]} :: u in jobs && u != t ==> Prepared(r, jobs[u]) && LockSet(r, jobs[u]) == LockSet(fs, jobs[u])
  {
    hide Shaped, Prepared, OnlyTouches, LockSet;
    var rest := jobs - {t};
    forall u | u in rest
      ensures Prepared(fs, rest[u]) && own !! LockSet(fs, rest[u])
    {
      assert u in jobs && rest[u] == jobs[u];
    }
    forall u, v | u in rest && v in rest && u != v
      ensures LockSet(fs, rest[u]) !! LockSet(fs, rest[v])
    {
      assert u in jobs && v in jobs;
    }
    JobsStay(fs, r, rest, own);
    forall u | u in jobs && u != t
      ensures Prepared(r, jobs[u]) && LockSet(r, jobs[u]) == LockSet(fs, jobs[u])
    {
      assert u in rest && rest[u] == jobs[u];
    }
  }

  /** Whatever a thread does, in whatever state, what the others have found and locked stays so. */
  lemma StepIsSound(s: State, a: Action)
    requires Sound(s) && Enabled(s, a)
    ensures Sound(Do(s, a))
  {
    hide Shaped, OnTheWay, Clear, Checks, Prepared, LockSet, OnlyTouches, Done, Allowed, Held, Apply;
    match a {
      case Prepare(t, job) =>
      case Acquire(t) =>
        PreparedFacts(s.fs, s.jobs[t]);
        AcquireWalks(s.fs, s.jobs[t], t);
      case Walk => WalksOn(s.fs, s.walker.value.todo[0], s.walker.value.at);
      case Pass => PassWalks(s.fs, s.jobs[s.walker.value.thread], s.walker.value);
      case Refuse => Leaves(s);
      case Commit =>
        var t := s.walker.value.thread;
        DoneShaped(s.fs, s.jobs[t]);
        DoneTouches(s.fs, s.jobs[t]);
        RestStays(s.fs, Done(s.fs, s.jobs[t]), s.jobs, t, LockSet(s.fs, s.jobs[t]));
      case Abort => Leaves(s);
      case Tear =>
        var t := s.walker.value.thread;
        TornShaped(s.fs, s.jobs[t]);
        TornTouches(s.fs, s.jobs[t].p, s.jobs[t].q);
        RestStays(s.fs, Misparented(s.fs, s.jobs[t].p, s.jobs[t].q), s.jobs, t, {});
      case Run(c) => RunIsSound(s, c);
    }
  }

  lemma Leaves(s: State)
    requires Sound(s) && s.walker.Some?
    ensures Sound(s.(jobs := s.jobs - {s.walker.value.thread}, walker := None))
  {
    hide Shaped, Prepared, LockSet, OnlyTouches;
    NothingTouched(s.fs, {});
    RestStays(s.fs, s.fs, s.jobs, s.walker.value.thread, {});
  }

  /** From the locking to the transaction a job's names lead to the same inodes. */
  lemma StepKeepsFindings(s: State, a: Action, t: nat)
    requires Sound(s) && Enabled(s, a) && t in s.jobs && t in Do(s, a).jobs
    ensures Do(s, a).jobs[t] == s.jobs[t]
    ensures Sound(Do(s, a)) && LockSet(Do(s, a).fs, s.jobs[t]) == LockSet(s.fs, s.jobs[t])
    ensures var p, r := s.jobs[t].p, Do(s, a).fs; p in s.fs.entries && p in r.entries && r.entries[p] == s.fs.entries[p]
  {
    hide Shaped, Walking, Checks, OnlyTouches, Allowed, Held, Apply, Done, Misparented, Unlocked, LockSet;
    StepIsSound(s, a);
    var r, job := Do(s, a).fs, s.jobs[t];
    PreparedFacts(s.fs, job);
    match a {
      case Commit =>
        DoneTouches(s.fs, s.jobs[s.walker.value.thread]);
        StaysPrepared(s.fs, r, job, LockSet(s.fs, s.jobs[s.walker.value.thread]));
      case Tear =>
        TornTouches(s.fs, s.jobs[s.walker.value.thread].p, s.jobs[s.walker.value.thread].q);
        StaysPrepared(s.fs, r, job, {});
      case Run(c) =>
        ApplyTouches(s.fs, c);
        NewIsUnlocked(s.fs, s.jobs, c);
        UnlockedBy(s.fs, s.jobs, Held(s.fs, c) + NewInodes(c), t);
        StaysPrepared(s.fs, r, job, Held(s.fs, c) + NewInodes(c));
      case _ =>
    }
  }

  // ---------------------------------------------------------------- what a step does to the invariant and the forest

  /** The steps that break the invariant: an entry into a directory without links, and half an exchange. */
  ghost predicate Spoils(s: State, a: Action) {
    a.Tear? || (a.Run? && Breaks(s.fs, a.change))
  }

  /** The steps that break the forest: an exchange of two directories each above the directory it leaves. */
  ghost predicate Crosses(s: State, a: Action) {
    a.Commit? && s.walker.Some? && s.walker.value.thread in s.jobs && Crossed(s.fs, s.jobs[s.walker.value.thread])
  }

  lemma StepKeepsInvIff(s: State, a: Action)
    requires Sound(s) && Enabled(s, a) && Inv(s.fs)
    ensures Inv(Do(s, a).fs) <==> !Spoils(s, a)
  {
    hide Inv, Shaped, Prepared, Checks, Walking, Done, Apply, Allowed, Held, Breaks, AllClear, Misparented;
    match a {
      case Commit =>
        var job := s.jobs[s.walker.value.thread];
        PreparedFacts(s.fs, job);
        WalkedClear(s.fs, job, s.walker.value);
        DoneInv(s.fs, job);
      case Tear => TornBreaks(s.fs, s.jobs[s.walker.value.thread]);
      case Run(c) => ApplyKeepsInvIff(s.fs, c);
      case _ =>
    }
  }

  lemma StepKeepsForestIff(s: State, a: Action)
    requires Sound(s) && Enabled(s, a) && Forest(s.fs)
    ensures Forest(Do(s, a).fs) <==> !Crosses(s, a)
  {
    hide Forest, Prepared, Checks, Walking, Done, Apply, Allowed, Held, AllClear, Misparented, Crossed, Pointed;
    match a {
      case Commit =>
        var job := s.jobs[s.walker.value.thread];
        PreparedFacts(s.fs, job);
        WalkedClear(s.fs, job, s.walker.value);
        DoneForestIff(s.fs, job);
      case Tear =>
        WalkedClear(s.fs, s.jobs[s.walker.value.thread], s.walker.value);
        TornForest(s.fs, s.jobs[s.walker.value.thread]);
      case Run(c) =>
        ApplyKeepsParents(s.fs, c);
        KeptForest(s.fs, Apply(s.fs, c));
      case _ =>
    }
  }

  lemma StepKeepsParented(s: State, a: Action)
    requires Sound(s) && Enabled(s, a) && Parented(s.fs) && !a.Tear?
    ensures Parented(Do(s, a).fs)
  {
    hide Parented, Prepared, Checks, Walking, Done, Apply, Allowed, Held, Shaped;
    match a {
      case Commit => DoneParented(s.fs, s.jobs[s.walker.value.thread]);
      case Run(c) => ApplyParented(s.fs, c);
      case _ =>
    }
  }

  // ---------------------------------------------------------------- whole runs

  ghost predicate Next(s: State, a: Action, s': State) {
    Sound(s) ==> Enabled(s, a) && s' == Do(s, a)
  }

  ghost predicate IsRun(run: seq<State>, actions: seq<Action>) {
    && |run| == |actions| + 1 && Inv(run[0].fs) && run[0].jobs == map[] && run[0].walker.None?
    && forall i :: 0 <= i < |actions| ==> Next(run[i], actions[i], run[i + 1])
  }

  /** In every state of every run, whatever is broken: the jobs find what their lookups have found, no inode is locked
      twice, and what the walks have shown holds. */
  lemma {:induction false} RunKeepsSound(run: seq<State>, actions: seq<Action>, i: nat)
    requires IsRun(run, actions) && i < |run|
    ensures Sound(run[i])
  {
    hide Enabled, Do, Inv, Shaped;
    if i > 0 {
      RunKeepsSound(run, actions, i - 1);
      assert Next(run[i - 1], actions[i - 1], run[i]);
      StepIsSound(run[i - 1], actions[i - 1]);
    } else {
      InvShaped(run[0].fs);
    }
  }

  lemma {:induction false} RunKeepsFindings(run: seq<State>, actions: seq<Action>, i: nat, j: nat, t: nat)
    requires IsRun(run, actions) && i <= j < |run| && forall k :: i <= k <= j ==> t in run[k].jobs
    ensures run[j].jobs[t] == run[i].jobs[t]
    ensures var p := run[i].jobs[t].p; p in run[i].fs.entries && p in run[j].fs.entries && run[j].fs.entries[p] == run[i].fs.entries[p]
    decreases j
  {
    hide Enabled, Do, Inv, Shaped;
    RunKeepsSound(run, actions, i);
    if i < j {
      RunKeepsFindings(run, actions, i, j - 1, t);
      RunKeepsSound(run, actions, j - 1);
      assert Next(run[j - 1], actions[j - 1], run[j]);
      StepKeepsFindings(run[j - 1], actions[j - 1], t);
    } else {
      PreparedFacts(run[i].fs, run[i].jobs[t]);
    }
  }

  /** As long as no step spoils it, the invariant holds: names are unique, ".." is the parent, the parents form a forest
      and the link counts are right. */
  lemma {:induction false} RunKeepsInv(run: seq<State>, actions: seq<Action>, i: nat)
    requires IsRun(run, actions) && i < |run| && forall j :: 0 <= j < i ==> !Spoils(run[j], actions[j])
    ensures Inv(run[i].fs)
  {
    hide Inv, Enabled, Do, Spoils, Sound;
    if i > 0 {
      RunKeepsInv(run, actions, i - 1);
      RunKeepsSound(run, actions, i - 1);
      assert Next(run[i - 1], actions[i - 1], run[i]);
      StepKeepsInvIff(run[i - 1], actions[i - 1]);
    }
  }

  /** The condition is exact: the invariant holds throughout a run if and only if no step of it spoils it. */
  lemma RunKeepsInvIff(run: seq<State>, actions: seq<Action>)
    requires IsRun(run, actions)
    ensures (forall i :: 0 <= i < |run| ==> Inv(run[i].fs)) <==> (forall i :: 0 <= i < |actions| ==> !Spoils(run[i], actions[i]))
  {
    hide Inv, Enabled, Do, Spoils, Sound;
    if forall i :: 0 <= i < |actions| ==> !Spoils(run[i], actions[i]) {
      forall i | 0 <= i < |run|
        ensures Inv(run[i].fs)
      {
        RunKeepsInv(run, actions, i);
      }
    } else {
      var i :| 0 <= i < |actions| && Spoils(run[i], actions[i]);
      if Inv(run[i].fs) {
        RunKeepsSound(run, actions, i);
        assert Next(run[i], actions[i], run[i + 1]);
        StepKeepsInvIff(run[i], actions[i]);
      }
    }
  }

  /** Whatever else is broken, the parents form a forest, as long as no exchange is crossed. */
  lemma {:induction false} RunKeepsForest(run: seq<State>, actions: seq<Action>, i: nat)
    requires IsRun(run, actions) && i < |run| && forall j :: 0 <= j < i ==> !Crosses(run[j], actions[j])
    ensures Forest(run[i].fs)
  {
    hide Forest, Enabled, Do, Crosses, Sound;
    if i > 0 {
      RunKeepsForest(run, actions, i - 1);
      RunKeepsSound(run, actions, i - 1);
      assert Next(run[i - 1], actions[i - 1], run[i]);
      StepKeepsForestIff(run[i - 1], actions[i - 1]);
    } else {
      InvParts(run[0].fs);
    }
  }

  /** That condition is exact, too. */
  lemma RunKeepsForestIff(run: seq<State>, actions: seq<Action>)
    requires IsRun(run, actions)
    ensures (forall i :: 0 <= i < |run| ==> Forest(run[i].fs)) <==> (forall i :: 0 <= i < |actions| ==> !Crosses(run[i], actions[i]))
  {
    hide Forest, Enabled, Do, Crosses, Sound, Inv;
    if forall i :: 0 <= i < |actions| ==> !Crosses(run[i], actions[i]) {
      forall i | 0 <= i < |run|
        ensures Forest(run[i].fs)
      {
        RunKeepsForest(run, actions, i);
      }
    } else {
      var i :| 0 <= i < |actions| && Crosses(run[i], actions[i]);
      if Forest(run[i].fs) {
        RunKeepsSound(run, actions, i);
        assert Next(run[i], actions[i], run[i + 1]);
        StepKeepsForestIff(run[i], actions[i]);
      }
    }
  }

  /** As long as no exchange has been left half undone, none is crossed, so that directories made in removed ones and
      links named "." there do no harm to the forest: every named directory is in its parent, and a root is above it. */
  lemma {:induction false} UntornKeepsForest(run: seq<State>, actions: seq<Action>, i: nat)
    requires IsRun(run, actions) && i < |run| && forall j :: 0 <= j < i ==> !actions[j].Tear?
    ensures Forest(run[i].fs) && Parented(run[i].fs)
  {
    hide Forest, Parented, Enabled, Do, Shaped, Prepared;
    if i > 0 {
      UntornKeepsForest(run, actions, i - 1);
      RunKeepsSound(run, actions, i - 1);
      assert Next(run[i - 1], actions[i - 1], run[i]);
      StepKeepsParented(run[i - 1], actions[i - 1]);
      StepKeepsForestIff(run[i - 1], actions[i - 1]);
      if Crosses(run[i - 1], actions[i - 1]) {
        NeverCrossed(run[i - 1].fs, run[i - 1].jobs[run[i - 1].walker.value.thread]);
      }
    } else {
      InvParts(run[0].fs);
      InvParented(run[0].fs);
    }
  }

  // ---------------------------------------------------------------- the walk ends

  /** From wherever a walk is there is a root some number of steps up. */
  lemma WalkHasEnd(s: State) returns (n: nat)
    requires Sound(s) && Forest(s.fs) && s.walker.Some? && s.walker.value.todo != []
    ensures Up(s.fs.parent, s.walker.value.at, n) in s.fs.roots
  {
    var w := s.walker.value;
    ParentsClosed(s.fs);
    hide Shaped;
    var k: nat :| WalkedTo(s.fs, w.todo[0], w.at, k);
    UpNext(s.fs.parent, w.todo[0].start, k);
    assert Grounded(s.fs.parent, s.fs.roots, w.at);
    n :| Up(s.fs.parent, w.at, n) in s.fs.roots;
  }

  /** Each step of the walk brings it nearer. */
  lemma WalkNears(s: State, n: nat)
    requires Sound(s) && Enabled(s, Walk) && Up(s.fs.parent, s.walker.value.at, n) in s.fs.roots
    ensures n > 0 && Up(s.fs.parent, Do(s, Walk).walker.value.at, n - 1) in s.fs.roots
  {
  }

  /** What other threads do meanwhile leaves the distance as it is. */
  lemma WalkKeepsDistance(s: State, c: Change, n: nat)
    requires Sound(s) && Enabled(s, Run(c)) && s.walker.Some? && s.walker.value.at in s.fs.parent
    ensures Up(Do(s, Run(c)).fs.parent, s.walker.value.at, n) == Up(s.fs.parent, s.walker.value.at, n)
  {
    ParentsClosed(s.fs);
    hide Shaped, Allowed, Apply, Held;
    ApplyKeepsParents(s.fs, c);
    KeptUp(s.fs, Apply(s.fs, c), s.walker.value.at, n);
  }

  // ---------------------------------------------------------------- a job that nobody disturbs

  ghost predicate Segment(run: seq<State>, actions: seq<Action>, s: State, s': State) {
    && |run| == |actions| + 1 && run[0] == s && run[|actions|] == s'
    && forall i :: 0 <= i < |actions| ==> Next(run[i], actions[i], run[i + 1])
  }

  ghost predicate Leads(s: State, s': State) {
    exists run, actions :: Segment(run, actions, s, s')
  }

  lemma OneStep(s: State, a: Action)
    requires Sound(s) && Enabled(s, a)
    ensures Leads(s, Do(s, a)) && Sound(Do(s, a))
  {
    hide Sound, Enabled, Do;
    StepIsSound(s, a);
    assert Segment([s, Do(s, a)], [a], s, Do(s, a));
  }

  lemma TwoLegs(s: State, t: State, u: State)
    requires Leads(s, t) && Leads(t, u)
    ensures Leads(s, u)
  {
    hide Next;
    var run, actions :| Segment(run, actions, s, t);
    var run', actions' :| Segment(run', actions', t, u);
    var all, acts := run + run'[1..], actions + actions';
    forall i | 0 <= i < |acts|
      ensures Next(all[i], acts[i], all[i + 1])
    {
      if i < |actions| {
        assert Next(run[i], actions[i], run[i + 1]);
      } else {
        assert Next(run'[i - |actions|], actions'[i - |actions|], run'[i - |actions| + 1]);
      }
    }
    assert Segment(all, acts, s, u);
  }

  ghost function Passed(s: State): State
    requires s.walker.Some? && s.walker.value.todo != []
  {
    var w := s.walker.value;
    s.(walker := Some(Walker(w.thread, w.todo[1..], First(w.todo[1..]), w.passed + [w.todo[0]])))
  }

  /** A walk that does not lead through what moves gets to its root. */
  lemma {:induction false} WalkLeads(s: State, n: nat)
    requires Sound(s) && s.walker.Some? && s.walker.value.todo != [] && Clear(s.fs, s.walker.value.todo[0])
    requires Up(s.fs.parent, s.walker.value.at, n) in s.fs.roots
    ensures Leads(s, Passed(s)) && Sound(Passed(s))
    decreases n
  {
    hide Shaped, Leads, Checks, Prepared;
    var w := s.walker.value;
    if w.at in s.fs.roots {
      OneStep(s, Pass);
    } else {
      var k: nat :| WalkedTo(s.fs, w.todo[0], w.at, k);
      OneStep(s, Walk);
      var next := Do(s, Walk);
      WalkLeads(next, n - 1);
      TwoLegs(s, next, Passed(s));
    }
  }

  ghost predicate Walked(s: State, s': State) {
    && s'.fs == s.fs && s'.jobs == s.jobs && s.walker.Some? && s'.walker.Some?
    && s'.walker.value.thread == s.walker.value.thread && s'.walker.value.todo == []
  }

  lemma {:induction false} WalksLead(s: State) returns (s': State)
    requires Sound(s) && Forest(s.fs) && s.walker.Some? && forall i :: 0 <= i < |s.walker.value.todo| ==> Clear(s.fs, s.walker.value.todo[i])
    ensures Leads(s, s') && Sound(s') && Walked(s, s')
    decreases |s.walker.value.todo|
  {
    hide Shaped, Leads, Sound, Forest, Clear;
    if s.walker.value.todo == [] {
      s' := s;
      StandsStill(s);
    } else {
      var n := WalkHasEnd(s);
      WalkLeads(s, n);
      s' := WalksLead(Passed(s));
      TwoLegs(s, Passed(s), s');
    }
  }

  lemma StandsStill(s: State)
    ensures Leads(s, s)
  {
    hide Next;
    assert Segment([s], [], s, s);
  }

  ghost function Idle(fs: FS): State {
    State(fs, map[], None)
  }

  /** A job whose walks find nothing gets to its transaction. */
  lemma JobLeads(fs: FS, job: Job) returns (s: State)
    requires Shaped(fs) && Forest(fs) && Prepared(fs, job)
    requires job.p in fs.entries && (job.Swap? ==> job.q in fs.entries) && AllClear(fs, job)
    ensures Leads(Idle(fs), s) && Sound(s) && s.fs == fs && s.jobs == map[0 := job]
    ensures s.walker.Some? && s.walker.value.thread == 0 && s.walker.value.todo == []
  {
    hide Shaped, Leads, Forest, Prepared, Checks, Clear;
    var s0 := Idle(fs);
    OneStep(s0, Prepare(0, job));
    var s1 := Do(s0, Prepare(0, job));
    OneStep(s1, Acquire(0));
    var s2 := Do(s1, Acquire(0));
    s := WalksLead(s2);
    TwoLegs(s0, s1, s2);
    TwoLegs(s0, s2, s);
  }

  lemma CommitLeads(fs: FS, job: Job)
    requires Shaped(fs) && Forest(fs) && Prepared(fs, job)
    requires job.p in fs.entries && (job.Swap? ==> job.q in fs.entries) && AllClear(fs, job)
    ensures Leads(Idle(fs), Idle(Done(fs, job))) && Shaped(Done(fs, job))
  {
    hide Shaped, Leads, Forest, Prepared, Checks, Clear, Walking, Done;
    var s := JobLeads(fs, job);
    OneStep(s, Commit);
    assert map[0 := job] - {0} == map[];
    TwoLegs(Idle(fs), s, Idle(Done(fs, job)));
    DoneShaped(fs, job);
  }

  lemma TearLeads(fs: FS, job: Job)
    requires Shaped(fs) && Forest(fs) && Prepared(fs, job) && Tearable(fs, job) && AllClear(fs, job)
    ensures Leads(Idle(fs), Idle(Misparented(fs, job.p, job.q))) && Shaped(Misparented(fs, job.p, job.q))
  {
    hide Shaped, Leads, Forest, Prepared, Checks, Clear, Walking, Misparented;
    var s := JobLeads(fs, job);
    OneStep(s, Tear);
    assert map[0 := job] - {0} == map[];
    TwoLegs(Idle(fs), s, Idle(Misparented(fs, job.p, job.q)));
    TornShaped(fs, job);
  }
}
