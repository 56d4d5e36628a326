/** Renames and exchanges across directories: what their lookups find, the locks that keep it so, what their
    transactions do, and what becomes of the forest of directories. */
module Jobs {
  import opened Layout
  import opened Names
  import opened NameOps
  import opened DirOps
  import opened MoveOps
  import opened Changes

  datatype Job =
    | Move(p: Place, target: Option<Place>, dir: nat, name: Name)
    | Swap(p: Place, q: Place)

  /** The directory that the entry `p` goes to. */
  function Goal(job: Job): nat {
    if job.Move? then job.dir else job.q.dir
  }

  /** What the lookups under the locks have found. */
  ghost predicate Prepared(fs: FS, job: Job) {
    && Ordinary(fs, job.p) && job.p.dir != Goal(job)
    && match job
       case Move(p, target, dir, name) => dir in fs.dirs && name.Plain? && Found(fs, fs.entries[p].inode, target, dir, name)
       case Swap(p, q) => Ordinary(fs, q) && fs.entries[p].inode != fs.entries[q].inode
  }

  lemma PreparedFacts(fs: FS, job: Job)
    requires Shaped(fs) && Prepared(fs, job)
    ensures job.p in fs.entries && job.p.dir in fs.nlink && job.p.dir in fs.parent && fs.entries[job.p].inode in fs.nlink
    ensures Nameable(fs, fs.entries[job.p].inode)
    ensures Goal(job) in fs.dirs && Goal(job) in fs.nlink && Goal(job) in fs.parent && Goal(job) in fs.capacity
    ensures job.Move? && job.target.Some? ==>
      var q := job.target.value; q in fs.entries && q.dir in fs.nlink && fs.entries[q].inode in fs.nlink && Ordinary(fs, q)
    ensures job.Swap? ==> job.q in fs.entries && fs.entries[job.q].inode in fs.nlink && Nameable(fs, fs.entries[job.q].inode)
  {
    EntryShape(fs, job.p);
    if job.Swap? {
      EntryShape(fs, job.q);
    } else if job.target.Some? {
      EntryShape(fs, job.target.value);
    }
  }

  // ---------------------------------------------------------------- locks

  /** lock_parents_and_children: both directories, and what is found under the two names. */
  ghost function LockSet(fs: FS, job: Job): set<nat>
    requires Shaped(fs) && Prepared(fs, job)
  {
    PreparedFacts(fs, job);
    {job.p.dir, Goal(job), fs.entries[job.p].inode} +
    match job
    case Move(p, target, dir, name) => if target.Some? then {fs.entries[target.value].inode} else {}
    case Swap(p, q) => {fs.entries[q].inode}
  }

  lemma LockedExist(fs: FS, job: Job, x: nat)
    requires Shaped(fs) && Prepared(fs, job) && x in LockSet(fs, job)
    ensures x in fs.nlink
  {
    PreparedFacts(fs, job);
  }

  /** A walk from directory `start` to the root, to see that it does not pass `moved`. */
  datatype Check = Check(moved: nat, start: nat)

  /** The walks of a job: one for each directory that moves. */
  ghost function Checks(fs: FS, job: Job): seq<Check>
    requires job.p in fs.entries && (job.Swap? ==> job.q in fs.entries)
  {
    var x := fs.entries[job.p].inode;
    (if x in fs.dirs then [Check(x, Goal(job))] else [])
    + if job.Move? then [] else
        var y := fs.entries[job.q].inode;
        if y in fs.dirs then [Check(y, job.p.dir)] else []
  }

  ghost predicate Clear(fs: FS, c: Check) {
    !IsAncestor(fs.parent, c.moved, c.start)
  }

  ghost predicate AllClear(fs: FS, job: Job)
    requires job.p in fs.entries && (job.Swap? ==> job.q in fs.entries)
  {
    forall i :: 0 <= i < |Checks(fs, job)| ==> Clear(fs, Checks(fs, job)[i])
  }

  lemma ClearOf(fs: FS, job: Job)
    requires job.p in fs.entries && (job.Swap? ==> job.q in fs.entries) && AllClear(fs, job)
    ensures fs.entries[job.p].inode in fs.dirs ==> !IsAncestor(fs.parent, fs.entries[job.p].inode, Goal(job))
    ensures job.Swap? && fs.entries[job.q].inode in fs.dirs ==> !IsAncestor(fs.parent, fs.entries[job.q].inode, job.p.dir)
  {
    hide IsAncestor;
    var cs := Checks(fs, job);
    assert fs.entries[job.p].inode in fs.dirs ==> Clear(fs, cs[0]);
    assert job.Swap? && fs.entries[job.q].inode in fs.dirs ==> Clear(fs, cs[|cs| - 1]);
  }

  /** While nobody else touches what is locked, the job stays as it was prepared. */
  lemma StaysPrepared(fs: FS, r: FS, job: Job, own: set<nat>)
    requires Shaped(fs) && Shaped(r) && Prepared(fs, job) && OnlyTouches(fs, r, own) && own !! LockSet(fs, job)
    ensures Prepared(r, job) && LockSet(r, job) == LockSet(fs, job)
    ensures job.p in fs.entries && job.p in r.entries && r.entries[job.p] == fs.entries[job.p]
    ensures job.Swap? ==> job.q in fs.entries && job.q in r.entries && r.entries[job.q] == fs.entries[job.q]
    ensures Checks(r, job) == Checks(fs, job)
  {
    PreparedFacts(fs, job);
    hide Shaped;
    assert job.p.dir in LockSet(fs, job) && Goal(job) in LockSet(fs, job) && fs.entries[job.p].inode in LockSet(fs, job);
    assert SameEntry(fs, r, job.p) && SameInode(fs, r, Goal(job)) && SameInode(fs, r, fs.entries[job.p].inode);
    if job.Swap? {
      assert fs.entries[job.q].inode in LockSet(fs, job);
      assert SameEntry(fs, r, job.q) && SameInode(fs, r, fs.entries[job.q].inode);
    } else if job.target.Some? {
      assert SameEntry(fs, r, job.target.value);
    } else {
      forall z | z in r.entries && z.dir == job.dir
        ensures r.entries[z].name != job.name
      {
        assert SameEntry(fs, r, z);
      }
    }
  }

  // ---------------------------------------------------------------- transactions

  /** What the transaction of a rename checks: the target may be replaced, and the directory accepts the new name. */
  ghost predicate Movable(fs: FS, job: Job)
    requires Shaped(fs) && Prepared(fs, job)
  {
    PreparedFacts(fs, job);
    job.Move? ==>
      && Replaceable(fs, fs.entries[job.p].inode, job.target)
      && Accepts(WithoutTarget(fs, job.target), job.dir, job.name)
  }

  /** The state in which the entry is added: the target is gone, and there is a vacant slot. */
  ghost function Vacated(fs: FS, job: Job): FS
    requires Shaped(fs) && Prepared(fs, job) && job.Move? && Movable(fs, job)
  {
    PreparedFacts(fs, job);
    WithoutTarget(fs, job.target)
  }

  lemma VacatedFacts(fs: FS, job: Job)
    requires Shaped(fs) && Prepared(fs, job) && job.Move? && Movable(fs, job)
    ensures var r := Vacated(fs, job);
      && Shaped(r) && job.dir in r.capacity && job.dir in r.nlink && job.p in r.entries && r.entries[job.p] == fs.entries[job.p]
      && job.p.dir in r.nlink && r.dirs == fs.dirs && r.parent == fs.parent && r.roots == fs.roots && Ordinary(r, job.p)
  {
    PreparedFacts(fs, job);
    if job.target.Some? {
      WithoutShaped(fs, job.target.value);
      WithoutKeeps(fs, job.target.value, job.p);
    }
    hide Shaped;
  }

  /** vinode_rename and vinode_exchange; a rename whose checks fail changes nothing. */
  ghost function Done(fs: FS, job: Job): FS
    requires Shaped(fs) && Prepared(fs, job)
  {
    PreparedFacts(fs, job);
    if !Movable(fs, job) then fs
    else if job.Swap? then Exchanged(fs, job.p, job.q)
    else
      VacatedFacts(fs, job);
      var r := Vacated(fs, job);
      Moved(Fitted(r, job.dir), job.p, FirstVacant(r, job.dir), job.name)
  }

  lemma MovedPointed(fs: FS, p: Place, q: Place, name: Name)
    requires Pointed(fs) && p in fs.entries && q !in fs.entries && q.dir in fs.dirs && q.dir in fs.capacity && q.slot < fs.capacity[q.dir]
    requires p.dir in fs.nlink && q.dir in fs.nlink && (fs.entries[p].inode in fs.dirs ==>
      fs.entries[p].inode !in fs.roots && Place(fs.entries[p].inode, 1) in fs.entries)
    ensures Pointed(Moved(fs, p, q, name))
  {
    var x, r := fs.entries[p].inode, Moved(fs, p, q, name);
    if x in fs.dirs {
      Repoint(fs.dirs, fs.roots, fs.parent, x, q.dir);
      assert fs.dirs + {x} == fs.dirs;
    }
    hide Connected;
    assert forall d :: d in fs.dirs ==> d in r.parent;
  }

  lemma MovedShaped(fs: FS, p: Place, q: Place, name: Name)
    requires Shaped(fs) && Ordinary(fs, p) && q !in fs.entries && q.dir in fs.dirs && q.dir in fs.capacity && q.slot < fs.capacity[q.dir]
    requires p.dir in fs.nlink && q.dir in fs.nlink && name.Plain?
    ensures Shaped(Moved(fs, p, q, name))
  {
    var x, r := fs.entries[p].inode, Moved(fs, p, q, name);
    assert Nameable(fs, x);
    MovedPointed(fs, p, q, name);
    hide Pointed;
    forall z | Ordinary(r, z)
      ensures Nameable(r, r.entries[z].inode) && (z != q ==> Ordinary(fs, z) && fs.entries[z] == r.entries[z])
    {
      assert z != q ==> Ordinary(fs, z) && Nameable(fs, fs.entries[z].inode);
    }
  }

  /** Two ordinary entries in different directories. */
  ghost predicate Swappable(fs: FS, p: Place, q: Place, x: nat, y: nat) {
    && Ordinary(fs, p) && Ordinary(fs, q) && p.dir != q.dir && fs.entries[p].inode == x && fs.entries[q].inode == y && x != y
    && p.dir in fs.nlink && q.dir in fs.nlink && p.dir in fs.dirs && q.dir in fs.dirs
    && Nameable(fs, x) && Nameable(fs, y) && (x in fs.dirs ==> x in fs.parent) && (y in fs.dirs ==> y in fs.parent)
  }

  lemma SwapIsExchange(fs: FS, p: Place, q: Place, x: nat, y: nat)
    requires Swappable(fs, p, q, x, y)
    ensures IsExchange(fs, Exchanged(fs, p, q), p, q, x, y)
  {
  }

  lemma ExchangedPointed(fs: FS, r: FS, p: Place, q: Place, x: nat, y: nat)
    requires Pointed(fs) && Swappable(fs, p, q, x, y) && IsExchange(fs, r, p, q, x, y)
    ensures Pointed(r)
  {
  }

  lemma ExchangedShaped(fs: FS, r: FS, p: Place, q: Place, x: nat, y: nat)
    requires Shaped(fs) && Swappable(fs, p, q, x, y) && IsExchange(fs, r, p, q, x, y)
    ensures Shaped(r)
  {
    ExchangedPointed(fs, r, p, q, x, y);
    hide Pointed;
    forall z | Ordinary(r, z)
      ensures Ordinary(fs, z) && r.entries[z].inode == (if z == p then y else if z == q then x else fs.entries[z].inode)
    {
    }
    forall z | Ordinary(r, z)
      ensures Nameable(r, r.entries[z].inode)
    {
      ExchangedNameable(fs, r, p, q, x, y, r.entries[z].inode);
    }
  }

  lemma ExchangedNameable(fs: FS, r: FS, p: Place, q: Place, x: nat, y: nat, u: nat)
    requires Swappable(fs, p, q, x, y) && IsExchange(fs, r, p, q, x, y) && Nameable(fs, u)
    ensures Nameable(r, u)
  {
    if u in fs.dirs {
      assert Place(u, 0) in r.entries && Place(u, 1) in r.entries;
      assert Place(u, 0) != p && Place(u, 0) != q && Place(u, 1) != p && Place(u, 1) != q;
    }
  }

  lemma DoneShaped(fs: FS, job: Job)
    requires Shaped(fs) && Prepared(fs, job)
    ensures Shaped(Done(fs, job))
  {
    PreparedFacts(fs, job);
    hide Shaped, Moved, Exchanged;
    if job.Swap? {
      EntryShape(fs, job.p);
      EntryShape(fs, job.q);
      var x, y := fs.entries[job.p].inode, fs.entries[job.q].inode;
      SwapIsExchange(fs, job.p, job.q, x, y);
      ExchangedShaped(fs, Exchanged(fs, job.p, job.q), job.p, job.q, x, y);
    } else if Movable(fs, job) {
      VacatedFacts(fs, job);
      var r := Vacated(fs, job);
      VacantIsFree(r, job.dir);
      GrownShaped(r, job.dir, Fitted(r, job.dir).capacity[job.dir]);
      MovedShaped(Fitted(r, job.dir), job.p, FirstVacant(r, job.dir), job.name);
    }
  }

  /** What an exchange that aborts half way leaves: only the parent pointer of the first directory is new. */
  function Misparented(fs: FS, p: Place, q: Place): FS
    requires p in fs.entries
  {
    fs.(parent := fs.parent[fs.entries[p].inode := q.dir])
  }

  /** An exchange of two directories, the only job that can be left half undone. */
  ghost predicate Tearable(fs: FS, job: Job) {
    job.Swap? && job.p in fs.entries && job.q in fs.entries && fs.entries[job.p].inode in fs.dirs && fs.entries[job.q].inode in fs.dirs
  }

  lemma TornShaped(fs: FS, job: Job)
    requires Shaped(fs) && Prepared(fs, job) && Tearable(fs, job)
    ensures Shaped(Misparented(fs, job.p, job.q))
  {
    PreparedFacts(fs, job);
    var r, x := Misparented(fs, job.p, job.q), fs.entries[job.p].inode;
    Repoint(fs.dirs, fs.roots, fs.parent, x, job.q.dir);
    assert fs.dirs + {x} == fs.dirs;
    hide Connected;
    assert Pointed(r);
    hide Pointed;
    SameShapeShaped(fs, r);
  }

  lemma TornTouches(fs: FS, p: Place, q: Place)
    requires p in fs.entries
    ensures OnlyTouches(fs, Misparented(fs, p, q), {})
  {
  }

  /** A transaction touches only what its job has locked. */
  lemma DoneTouches(fs: FS, job: Job)
    requires Shaped(fs) && Prepared(fs, job)
    ensures OnlyTouches(fs, Done(fs, job), LockSet(fs, job))
  {
    PreparedFacts(fs, job);
    hide Shaped, Moved, Exchanged, OnlyTouches, WithoutDir, Removed;
    var x := fs.entries[job.p].inode;
    if job.Swap? {
      ExchangeTouches(fs, job.p, job.q);
      MoreTouched(fs, Done(fs, job), {job.p.dir, job.q.dir, x, fs.entries[job.q].inode}, LockSet(fs, job));
    } else if !Movable(fs, job) {
      NothingTouched(fs, LockSet(fs, job));
    } else {
      VacatedFacts(fs, job);
      var r := Vacated(fs, job);
      var own := if job.target.Some? then {job.dir, fs.entries[job.target.value].inode} else {};
      if job.target.Some? {
        WithoutTouches(fs, job.target.value);
      } else {
        NothingTouched(fs, {});
      }
      GrownTouches(r, job.dir, Fitted(r, job.dir));
      TouchesBoth(fs, r, Fitted(r, job.dir), own, {job.dir});
      MoveTouches(Fitted(r, job.dir), job.p, FirstVacant(r, job.dir), job.name);
      TouchesBoth(fs, Fitted(r, job.dir), Done(fs, job), own + {job.dir}, {job.p.dir, job.dir, x});
      MoreTouched(fs, Done(fs, job), own + {job.dir} + {job.p.dir, job.dir, x}, LockSet(fs, job));
    }
  }

  lemma NothingTouched(fs: FS, own: set<nat>)
    ensures OnlyTouches(fs, fs, own)
  {
  }

  lemma GrownTouches(fs: FS, dir: nat, r: FS)
    requires dir in fs.capacity && r == Fitted(fs, dir)
    ensures OnlyTouches(fs, r, {dir})
  {
  }

  lemma MoveTouches(fs: FS, p: Place, q: Place, name: Name)
    requires p in fs.entries && p.dir in fs.nlink && q.dir in fs.nlink
    ensures OnlyTouches(fs, Moved(fs, p, q, name), {p.dir, q.dir, fs.entries[p].inode})
  {
  }

  lemma ExchangeTouches(fs: FS, p: Place, q: Place)
    requires p in fs.entries && q in fs.entries && p.dir in fs.nlink && q.dir in fs.nlink
    ensures OnlyTouches(fs, Exchanged(fs, p, q), {p.dir, q.dir, fs.entries[p].inode, fs.entries[q].inode})
  {
  }

  // ---------------------------------------------------------------- the forest

  /** Below `t` there is no `x`, so `x` may go under `t`. */
  lemma OneMoves(parent: map<nat, nat>, roots: set<nat>, x: nat, t: nat, d: nat)
    requires ClosedUp(parent) && x in parent && t in parent && d in parent && !IsAncestor(parent, x, t)
    requires Grounded(parent, roots, t) && Grounded(parent, roots, d)
    ensures Grounded(parent[x := t], roots, d)
  {
    assert Target(parent, roots, t, {x});
    var n: nat :| Up(parent, d, n) in roots;
    StaysGrounded(parent, parent[x := t], roots, {x}, d, n);
  }

  /** When `y` has moved under `t`, what was not below `x` still is not, as long as `t` is not. */
  lemma {:induction false} StaysApart(parent: map<nat, nat>, x: nat, y: nat, t: nat, z: nat, n: nat)
    requires ClosedUp(parent) && x != y && t in parent && z in parent && y in parent
    requires !IsAncestor(parent, x, t) && !IsAncestor(parent, y, t) && !IsAncestor(parent, x, z)
    ensures Up(parent[y := t], z, n) != x
    decreases n
  {
    assert Up(parent, z, 0) == z;
    if n > 0 {
      if z == y {
        UpSame(parent, parent[y := t], {y}, t, n - 1);
      } else {
        NotAbove(parent, x, z);
        StaysApart(parent, x, y, t, Step(parent, z), n - 1);
      }
    }
  }

  lemma NotAbove(parent: map<nat, nat>, x: nat, z: nat)
    requires !IsAncestor(parent, x, z)
    ensures !IsAncestor(parent, x, Step(parent, z))
  {
    forall n: nat
      ensures Up(parent, Step(parent, z), n) != x
    {
      UpStep(parent, z, n);
    }
  }

  /** Two directories change places, and `x` is not above the place it leaves. */
  lemma TwoMove(parent: map<nat, nat>, roots: set<nat>, x: nat, y: nat, a: nat, b: nat, d: nat)
    requires ClosedUp(parent) && x != y && x in parent && y in parent && a in parent && b in parent && d in parent
    requires !IsAncestor(parent, x, b) && !IsAncestor(parent, y, a) && !IsAncestor(parent, x, a)
    requires Grounded(parent, roots, a) && Grounded(parent, roots, b) && Grounded(parent, roots, d)
    ensures Grounded(parent[y := a][x := b], roots, d)
  {
    var half := parent[y := a];
    forall z | z in half
      ensures Step(half, z) in half
    {
      assert Step(half, z) == if z == y then a else Step(parent, z);
    }
    OneMoves(parent, roots, y, a, b);
    OneMoves(parent, roots, y, a, d);
    forall n: nat
      ensures Up(half, b, n) != x
    {
      StaysApart(parent, x, y, a, b, n);
    }
    OneMoves(half, roots, x, b, d);
  }

  /** A path up to `x` that does not pass `y` stays when both move. */
  lemma {:induction false} StillReaches(parent: map<nat, nat>, parent': map<nat, nat>, x: nat, y: nat, z: nat, n: nat) returns (k: nat)
    requires ClosedUp(parent) && z in parent && Up(parent, z, n) == x && !IsAncestor(parent, y, z)
    requires forall d :: d in parent && d != x && d != y ==> d in parent' && Step(parent', d) == Step(parent, d)
    ensures Up(parent', z, k) == x
    decreases n
  {
    assert Up(parent, z, 0) == z;
    if z == x {
      k := 0;
    } else {
      NotAbove(parent, y, z);
      k := StillReaches(parent, parent', x, y, Step(parent, z), n - 1);
      k := k + 1;
    }
  }

  /** Two directories change places, each above the place it leaves: a cycle. */
  lemma Cycle(parent: map<nat, nat>, roots: set<nat>, x: nat, y: nat, a: nat, b: nat)
    requires ClosedUp(parent) && x != y && x in parent && y in parent && a in parent && b in parent && x !in roots
    requires forall r :: r in roots ==> Step(parent[y := a][x := b], r) == r
    requires IsAncestor(parent, x, a) && IsAncestor(parent, y, b) && !IsAncestor(parent, x, b) && !IsAncestor(parent, y, a)
    ensures !Grounded(parent[y := a][x := b], roots, x)
  {
    var after := parent[y := a][x := b];
    var m: nat :| Up(parent, a, m) == x;
    var n: nat :| Up(parent, b, n) == y;
    var k := StillReaches(parent, after, x, y, a, m);
    var l := StillReaches(parent, after, y, x, b, n);
    assert Step(after, x) == b && Step(after, y) == a;
    UpSum(after, b, l, k + 1);
    assert Up(after, y, k + 1) == Up(after, a, k);
    if Grounded(after, roots, x) {
      NoCycle(after, roots, x, l + k + 1);
    }
  }

  /** Each of two directories to be exchanged is above the directory its own entry is in. */
  ghost predicate Crossed(fs: FS, job: Job) {
    && Tearable(fs, job)
    && IsAncestor(fs.parent, fs.entries[job.p].inode, job.p.dir)
    && IsAncestor(fs.parent, fs.entries[job.q].inode, job.q.dir)
  }

  lemma DoneParents(fs: FS, job: Job)
    requires Shaped(fs) && Prepared(fs, job) && Movable(fs, job)
    ensures job.p in fs.entries && (job.Swap? ==> job.q in fs.entries)
    ensures var r, x := Done(fs, job), fs.entries[job.p].inode;
      && r.dirs == fs.dirs && r.roots == fs.roots
      && var moved := if x in fs.dirs then fs.parent[x := Goal(job)] else fs.parent;
         r.parent == if job.Swap? && fs.entries[job.q].inode in fs.dirs then moved[fs.entries[job.q].inode := job.p.dir] else moved
  {
    PreparedFacts(fs, job);
    hide Shaped;
    if job.Move? {
      VacatedFacts(fs, job);
    }
  }

  lemma ParentsClosed(fs: FS)
    requires Shaped(fs)
    ensures ClosedUp(fs.parent) && (forall r :: r in fs.roots ==> Step(fs.parent, r) == r) && (forall d :: d in fs.dirs <==> d in fs.parent)
  {
  }

  lemma MovesForest(fs: FS, r: FS, x: nat, t: nat)
    requires Shaped(fs) && Forest(fs) && r.dirs == fs.dirs && r.roots == fs.roots && r.parent == fs.parent[x := t]
    requires x in fs.dirs && t in fs.dirs && !IsAncestor(fs.parent, x, t)
    ensures Forest(r)
  {
    ParentsClosed(fs);
    hide Shaped, Grounded, IsAncestor;
    forall d | d in r.dirs
      ensures Grounded(r.parent, r.roots, d)
    {
      assert Grounded(fs.parent, fs.roots, d) && Grounded(fs.parent, fs.roots, t);
      OneMoves(fs.parent, fs.roots, x, t, d);
    }
  }

  lemma SwapForestIff(fs: FS, p: Place, q: Place, r: FS)
    requires Shaped(fs) && Forest(fs) && r.dirs == fs.dirs && r.roots == fs.roots
    requires Prepared(fs, Swap(p, q)) && Tearable(fs, Swap(p, q))
    requires var x, y := fs.entries[p].inode, fs.entries[q].inode;
      && r.parent == fs.parent[x := q.dir][y := p.dir]
      && !IsAncestor(fs.parent, x, q.dir) && !IsAncestor(fs.parent, y, p.dir)
    ensures Forest(r) <==> !Crossed(fs, Swap(p, q))
  {
    var x, y := fs.entries[p].inode, fs.entries[q].inode;
    PreparedFacts(fs, Swap(p, q));
    ParentsClosed(fs);
    hide Shaped, Grounded, IsAncestor;
    var after := fs.parent[y := p.dir][x := q.dir];
    assert r.parent == after;
    assert r.parent == fs.parent[x := q.dir][y := p.dir];
    assert Grounded(fs.parent, fs.roots, p.dir) && Grounded(fs.parent, fs.roots, q.dir);
    if Crossed(fs, Swap(p, q)) {
      Cycle(fs.parent, fs.roots, x, y, p.dir, q.dir);
      assert !Grounded(r.parent, r.roots, x);
    } else {
      forall d | d in r.dirs
        ensures Grounded(r.parent, r.roots, d)
      {
        assert Grounded(fs.parent, fs.roots, d);
        if IsAncestor(fs.parent, x, p.dir) {
          TwoMove(fs.parent, fs.roots, y, x, q.dir, p.dir, d);
        } else {
          TwoMove(fs.parent, fs.roots, x, y, p.dir, q.dir, d);
        }
      }
    }
  }

  /** When its walks have found nothing, a job keeps the forest unless it is an exchange of two directories each of
      which is above the directory it leaves, which no walk looks for. */
  lemma DoneForestIff(fs: FS, job: Job)
    requires Shaped(fs) && Prepared(fs, job) && Forest(fs)
    requires job.p in fs.entries && (job.Swap? ==> job.q in fs.entries) && AllClear(fs, job)
    ensures Forest(Done(fs, job)) <==> !Crossed(fs, job)
  {
    PreparedFacts(fs, job);
    EntryShape(fs, job.p);
    ClearOf(fs, job);
    if Movable(fs, job) {
      DoneParents(fs, job);
      hide Shaped, Prepared, Movable, Done, IsAncestor, AllClear, Grounded;
      var r, x := Done(fs, job), fs.entries[job.p].inode;
      if Tearable(fs, job) {
        SwapForestIff(fs, job.p, job.q, r);
      } else if x in fs.dirs {
        MovesForest(fs, r, x, Goal(job));
      } else if job.Swap? && fs.entries[job.q].inode in fs.dirs {
        MovesForest(fs, r, fs.entries[job.q].inode, job.p.dir);
      }
    }
  }

  /** While entries of directories are where the parent pointers say, no exchange is crossed. */
  lemma NeverCrossed(fs: FS, job: Job)
    requires Shaped(fs) && Prepared(fs, job) && Forest(fs) && Parented(fs)
    ensures !Crossed(fs, job)
  {
    if Crossed(fs, job) {
      PreparedFacts(fs, job);
      ParentsClosed(fs);
      var x := fs.entries[job.p].inode;
      assert Ordinary(fs, job.p) && Grounded(fs.parent, fs.roots, x);
      var n: nat :| Up(fs.parent, job.p.dir, n) == x;
      NoCycle(fs.parent, fs.roots, x, n);
    }
  }

  // ---------------------------------------------------------------- entries and parents

  lemma MovedParented(fs: FS, p: Place, q: Place, name: Name)
    requires Shaped(fs) && Parented(fs) && Ordinary(fs, p) && q !in fs.entries && p.dir in fs.nlink && q.dir in fs.nlink && p.dir != q.dir
    ensures Parented(Moved(fs, p, q, name))
  {
    var x, r := fs.entries[p].inode, Moved(fs, p, q, name);
    forall z | Ordinary(r, z) && r.entries[z].inode in r.dirs
      ensures z.dir == Step(r.parent, r.entries[z].inode)
    {
      assert z != q ==> Ordinary(fs, z) && fs.entries[z] == r.entries[z] && z != p;
    }
  }

  lemma ExchangedParented(fs: FS, r: FS, p: Place, q: Place, x: nat, y: nat)
    requires Shaped(fs) && Parented(fs) && Swappable(fs, p, q, x, y) && IsExchange(fs, r, p, q, x, y)
    ensures Parented(r)
  {
    hide Pointed;
    forall z | Ordinary(r, z) && r.entries[z].inode in r.dirs
      ensures z.dir == Step(r.parent, r.entries[z].inode)
    {
      assert Ordinary(fs, z);
    }
  }

  lemma VacatedParented(fs: FS, job: Job)
    requires Shaped(fs) && Prepared(fs, job) && job.Move? && Movable(fs, job) && Parented(fs)
    ensures Parented(Fitted(Vacated(fs, job), job.dir))
  {
    VacatedFacts(fs, job);
    var r := Fitted(Vacated(fs, job), job.dir);
    hide Shaped, Prepared;
    forall z | Ordinary(r, z)
      ensures Ordinary(fs, z) && fs.entries[z] == r.entries[z]
    {
    }
  }

  lemma DoneParented(fs: FS, job: Job)
    requires Shaped(fs) && Prepared(fs, job) && Parented(fs)
    ensures Parented(Done(fs, job))
  {
    PreparedFacts(fs, job);
    hide Shaped, Moved, Exchanged, Parented;
    if job.Swap? {
      EntryShape(fs, job.p);
      EntryShape(fs, job.q);
      var x, y := fs.entries[job.p].inode, fs.entries[job.q].inode;
      SwapIsExchange(fs, job.p, job.q, x, y);
      ExchangedParented(fs, Exchanged(fs, job.p, job.q), job.p, job.q, x, y);
    } else if Movable(fs, job) {
      VacatedFacts(fs, job);
      VacatedParented(fs, job);
      var r := Vacated(fs, job);
      VacantIsFree(r, job.dir);
      GrownShaped(r, job.dir, Fitted(r, job.dir).capacity[job.dir]);
      MovedParented(Fitted(r, job.dir), job.p, FirstVacant(r, job.dir), job.name);
    }
  }

  // ---------------------------------------------------------------- the invariant

  lemma VacatedInv(fs: FS, job: Job)
    requires Inv(fs) && Shaped(fs) && Prepared(fs, job) && job.Move? && Movable(fs, job)
    ensures Inv(Vacated(fs, job)) && Accepts(Vacated(fs, job), job.dir, job.name) && Vacated(fs, job).nlink[job.dir] != 0
  {
    hide Inv, Shaped, WithoutDir, Removed, Empty, FreeName;
    PreparedFacts(fs, job);
    if job.target.Some? {
      WithoutInv(fs, job.target.value);
    }
  }

  /** A job whose walks have found nothing keeps the invariant. */
  lemma DoneInv(fs: FS, job: Job)
    requires Inv(fs) && Shaped(fs) && Prepared(fs, job)
    requires job.p in fs.entries && (job.Swap? ==> job.q in fs.entries) && AllClear(fs, job)
    ensures Inv(Done(fs, job))
  {
    hide Inv, Closed, Counted, UniqueNames, Dots, OneName, Forest, Shaped, Moved, Exchanged, IsAncestor, Room;
    InvParts(fs);
    ClearOf(fs, job);
    PreparedFacts(fs, job);
    if job.Swap? {
      PlainIsOrdinary(fs, job.p);
      PlainIsOrdinary(fs, job.q);
      ExchangeKeepsInv(fs, job.p, job.q);
    } else if Movable(fs, job) {
      VacatedFacts(fs, job);
      VacatedInv(fs, job);
      var r := Vacated(fs, job);
      InvParts(r);
      PlainIsOrdinary(r, job.p);
      HasRoom(r, job.dir, job.name);
      if fs.entries[job.p].inode in fs.dirs {
        MoveDirKeepsInv(Fitted(r, job.dir), job.p, FirstVacant(r, job.dir), job.name);
      } else {
        MoveFileKeepsInv(Fitted(r, job.dir), job.p, FirstVacant(r, job.dir), job.name);
      }
    }
  }

  /** An exchange of two directories that is left half undone breaks the invariant. */
  lemma TornBreaks(fs: FS, job: Job)
    requires Inv(fs) && Prepared(fs, job) && Tearable(fs, job)
    ensures !Inv(Misparented(fs, job.p, job.q))
  {
    hide Closed, Counted, UniqueNames, Dots, OneName, Forest;
    InvParts(fs);
    PlainIsOrdinary(fs, job.p);
    ExchangeFacts(fs, job.p);
    var x, r := fs.entries[job.p].inode, Misparented(fs, job.p, job.q);
    if Inv(r) {
      InvParts(r);
      DotsOfLive(r, x);
    }
  }

  /** The parent pointers still form a forest. */
  lemma TornForest(fs: FS, job: Job)
    requires Shaped(fs) && Forest(fs) && Prepared(fs, job) && Tearable(fs, job) && AllClear(fs, job)
    ensures Forest(Misparented(fs, job.p, job.q))
  {
    ClearOf(fs, job);
    PreparedFacts(fs, job);
    hide Shaped, Prepared, IsAncestor, AllClear;
    MovesForest(fs, Misparented(fs, job.p, job.q), fs.entries[job.p].inode, job.q.dir);
  }
}
