/** Runs in which the namespace is broken: concrete directories, and the operations that break them. */
module Witnesses {
  import opened Layout
  import opened Names
  import opened NameOps
  import opened DirOps
  import opened MoveOps
  import opened Changes
  import opened Jobs
  import opened RenameRuns

  /** A pool with nothing in its root. */
  function Root(): FS {
    FS(map[Place(0, 0) := Dirent(Dot, 0), Place(0, 1) := Dirent(DotDot, 0)], map[0 := 16], map[0 := 2], {0}, {0}, map[0 := 0])
  }

  lemma RootInv()
    ensures Inv(Root())
  {
    RootClosed();
    RootCounted();
    RootForest();
    hide Counted, Forest, Closed;
    RootNames();
    hide *;
    InvFrom(Root());
  }

  lemma RootClosed()
    ensures Closed(Root())
  {
  }

  lemma RootCounted()
    ensures Counted(Root())
  {
    NamingIsPair(Root().entries, 0, Place(0, 0), Place(0, 1));
  }

  lemma RootForest()
    ensures Forest(Root())
  {
    assert Up(Root().parent, 0, 0) in Root().roots;
  }

  lemma RootNames()
    requires Closed(Root())
    ensures UniqueNames(Root()) && Dots(Root()) && OneName(Root())
  {
    hide Closed;
    OnlyRoot();
    assert Dots(Root());
    hide Dots, HasDots;
    assert OneName(Root());
    hide OneName;
    assert UniqueNames(Root());
  }

  lemma OnlyRoot()
    ensures forall d {:trigger Live(Root(), d)} :: Live(Root(), d) ==> d == 0
  {
  }

  lemma {:induction false} VacantIs(fs: FS, dir: nat, i: nat, slot: nat)
    requires dir in fs.capacity && i <= slot <= fs.capacity[dir] && (slot == fs.capacity[dir] || Place(dir, slot) !in fs.entries)
    requires forall k: nat {:trigger Place(dir, k)} :: i <= k < slot ==> Place(dir, k) in fs.entries
    ensures Vacant(fs, dir, i) == slot
    decreases slot - i
  {
    if i < slot {
      VacantIs(fs, dir, i + 1, slot);
    }
  }

  /** A directory made in the slot `slot` of a directory in use. */
  lemma MkdirAt(fs: FS, dir: nat, name: string, c: nat, slot: nat)
    requires Inv(fs) && dir in fs.capacity && dir in fs.nlink && fs.nlink[dir] > 0 && dir in fs.dirs && c !in fs.nlink && |name| <= MAX_FILE_NAME
    requires slot <= fs.capacity[dir] && forall k: nat {:trigger Place(dir, k)} :: k < slot ==> Place(dir, k) in fs.entries
    requires forall p :: p in fs.entries && p.dir == dir ==> p.slot < slot && fs.entries[p].name != Plain(name)
    ensures Shaped(fs) && Allowed(fs, Mkdir(dir, Plain(name), c))
    ensures Apply(fs, Mkdir(dir, Plain(name), c)) == WithDir(Fitted(fs, dir), Place(dir, slot), Plain(name), c)
    ensures Inv(WithDir(Fitted(fs, dir), Place(dir, slot), Plain(name), c))
    ensures Fitted(fs, dir) == if slot < fs.capacity[dir] then fs else Grown(fs, dir, slot + CHAINED_DIRENTS)
  {
    hide Inv, Shaped, WithDir, Entered, Grown;
    InvShaped(fs);
    NewIsNoDir(fs, c);
    VacantIs(fs, dir, 0, slot);
    FreeAfter(fs, dir, Plain(name), c);
    MkdirIs(fs, dir, Plain(name), c);
    ApplyKeepsInvIff(fs, Mkdir(dir, Plain(name), c));
  }

  lemma FreeAfter(fs: FS, dir: nat, name: Name, c: nat)
    requires dir in fs.nlink && c != dir && FreeName(fs, dir, name)
    ensures FreeName(WithDots(fs, dir, c), dir, name)
  {
  }

  /** A directory in which nothing has happened yet. */
  ghost predicate IsNew(fs: FS, d: nat) {
    && d in fs.dirs && d in fs.nlink && fs.nlink[d] == 2 && d in fs.capacity && fs.capacity[d] == 2
    && Place(d, 0) in fs.entries && Place(d, 1) in fs.entries
    && (forall p :: p in fs.entries && p.dir == d ==> p.slot < 2 && !fs.entries[p].name.Plain?)
  }

  lemma MkdirInNew(fs: FS, d: nat, name: string, c: nat)
    requires Inv(fs) && IsNew(fs, d) && c !in fs.nlink && |name| <= MAX_FILE_NAME
    ensures Inv(WithDir(Grown(fs, d, 16), Place(d, 2), Plain(name), c))
  {
    hide Inv, Shaped, WithDir, Apply;
    MkdirAt(fs, d, name, c, 2);
  }

  lemma NewStays(fs: FS, p: Place, name: Name, c: nat, d: nat, slots: nat)
    requires Inv(fs) && c !in fs.nlink && p.dir in fs.nlink && c != p.dir
    ensures IsNew(WithDir(Grown(fs, p.dir, slots), p, name, c), c)
    ensures IsNew(fs, d) && d != p.dir ==> IsNew(WithDir(Grown(fs, p.dir, slots), p, name, c), d)
  {
    InvShaped(fs);
    NewIsNoDir(fs, c);
    hide Inv, Shaped;
  }

  // ---------------------------------------------------------------- two directories under two parents

  /** Directories 1 and 2 in the root. */
  function OneParent(): FS {
    WithDir(Grown(Root(), 0, 16), Place(0, 2), Plain("a"), 1)
  }

  function TwoParents(): FS {
    WithDir(Grown(OneParent(), 0, 16), Place(0, 3), Plain("b"), 2)
  }

  /** 3 in 1, and 4 in 2. */
  function OneChild(): FS {
    WithDir(Grown(TwoParents(), 1, 16), Place(1, 2), Plain("x"), 3)
  }

  function TwoChildren(): FS {
    WithDir(Grown(OneChild(), 2, 16), Place(2, 2), Plain("y"), 4)
  }

  lemma SameSlots(fs: FS, d: nat, slots: nat)
    requires d in fs.capacity && fs.capacity[d] == slots
    ensures Grown(fs, d, slots) == fs
  {
    assert fs.capacity[d := slots] == fs.capacity;
  }

  lemma OneParentInv()
    ensures Inv(OneParent()) && IsNew(OneParent(), 1)
  {
    hide Inv, IsNew;
    RootInv();
    MkdirAt(Root(), 0, "a", 1, 2);
    SameSlots(Root(), 0, 16);
    NewStays(Root(), Place(0, 2), Plain("a"), 1, 0, 16);
  }

  lemma TwoParentsInv()
    ensures Inv(TwoParents()) && IsNew(TwoParents(), 1) && IsNew(TwoParents(), 2)
  {
    hide Inv, IsNew;
    OneParentInv();
    MkdirAt(OneParent(), 0, "b", 2, 3);
    SameSlots(OneParent(), 0, 16);
    NewStays(OneParent(), Place(0, 3), Plain("b"), 2, 1, 16);
  }

  lemma TwoChildrenInv()
    ensures Inv(TwoChildren()) && IsNew(TwoChildren(), 3) && IsNew(TwoChildren(), 4)
  {
    hide Inv, IsNew;
    TwoParentsInv();
    MkdirInNew(TwoParents(), 1, "x", 3);
    NewStays(TwoParents(), Place(1, 2), Plain("x"), 3, 2, 16);
    MkdirInNew(OneChild(), 2, "y", 4);
    NewStays(OneChild(), Place(2, 2), Plain("y"), 4, 3, 16);
  }

  // ---------------------------------------------------------------- a removed directory

  /** In a directory without links a directory can be made, and a file created or linked under the name ".", and each
      of them breaks the invariant. */
  lemma RemovedAccepts(fs: FS, d: nat, name: Name, f: nat, c: nat)
    requires Inv(fs) && Shaped(fs) && d in fs.dirs && d in fs.nlink && fs.nlink[d] == 0 && f in fs.nlink && f !in fs.dirs && c !in fs.nlink
    requires name != Dot && !TooLong(name)
    ensures Allowed(fs, Mkdir(d, name, c)) && !Inv(Apply(fs, Mkdir(d, name, c)))
    ensures Allowed(fs, Create(d, Dot, c)) && !Inv(Apply(fs, Create(d, Dot, c)))
    ensures Allowed(fs, Link(f, d, Dot)) && !Inv(Apply(fs, Link(f, d, Dot)))
  {
    hide Inv, Apply, Closed, Dots, Shaped;
    InvParts(fs);
    NewIsNoDir(fs, c);
    NothingInRemoved(fs, d);
    ApplyKeepsInvIff(fs, Mkdir(d, name, c));
    ApplyKeepsInvIff(fs, Create(d, Dot, c));
    ApplyKeepsInvIff(fs, Link(f, d, Dot));
  }

  /** A file in the root. */
  function OneFile(): FS {
    Added(WithInode(Root(), 1), Place(0, 2), Plain("f"), 1)
  }

  lemma OneFileInv()
    ensures Inv(OneFile())
  {
    hide Inv;
    RootInv();
    InvShaped(Root());
    VacantIs(WithInode(Root(), 1), 0, 0, 2);
    ApplyKeepsInvIff(Root(), Create(0, Plain("f"), 1));
  }

  function FileAndDir(): FS {
    WithDir(Grown(OneFile(), 0, 16), Place(0, 3), Plain("a"), 2)
  }

  lemma FileAndDirInv()
    ensures Inv(FileAndDir()) && IsNew(FileAndDir(), 2)
  {
    hide Inv, IsNew;
    OneFileInv();
    MkdirAt(OneFile(), 0, "a", 2, 3);
    SameSlots(OneFile(), 0, 16);
    NewStays(OneFile(), Place(0, 3), Plain("a"), 2, 0, 16);
  }

  lemma Removed2(fs: FS)
    requires Inv(FileAndDir()) && IsNew(FileAndDir(), 2) && fs == WithoutDir(FileAndDir(), Place(0, 3))
    ensures Inv(fs) && 2 in fs.dirs && 2 in fs.nlink && fs.nlink[2] == 0 && 1 in fs.nlink && 1 !in fs.dirs && 3 !in fs.nlink
  {
    hide Inv;
    RemoveKeepsInv(FileAndDir(), Place(0, 3));
  }

  /** A root, a file 1, and 2, a directory that has been removed. */
  lemma RemovedDirectory() returns (fs: FS)
    ensures Inv(fs) && Shaped(fs) && 2 in fs.dirs && 2 in fs.nlink && fs.nlink[2] == 0
    ensures Allowed(fs, Mkdir(2, Plain("b"), 3)) && !Inv(Apply(fs, Mkdir(2, Plain("b"), 3)))
    ensures Allowed(fs, Create(2, Dot, 3)) && !Inv(Apply(fs, Create(2, Dot, 3)))
    ensures Allowed(fs, Link(1, 2, Dot)) && !Inv(Apply(fs, Link(1, 2, Dot)))
  {
    FileAndDirInv();
    fs := WithoutDir(FileAndDir(), Place(0, 3));
    Removed2(fs);
    hide Inv, Apply, Allowed, Shaped, FileAndDir, WithoutDir, IsNew;
    InvShaped(fs);
    RemovedAccepts(fs, 2, Plain("b"), 1, 3);
  }

  // ---------------------------------------------------------------- exchanges left half undone

  /** The pointers and the four names of those directories. */
  ghost predicate Family(fs: FS) {
    && fs.dirs == {0, 1, 2, 3, 4} && fs.roots == {0} && fs.parent == map[0 := 0, 1 := 0, 2 := 0, 3 := 1, 4 := 2]
    && Ordinary(fs, Place(0, 2)) && fs.entries[Place(0, 2)].inode == 1
    && Ordinary(fs, Place(0, 3)) && fs.entries[Place(0, 3)].inode == 2
    && Ordinary(fs, Place(1, 2)) && fs.entries[Place(1, 2)].inode == 3
    && Ordinary(fs, Place(2, 2)) && fs.entries[Place(2, 2)].inode == 4
  }

  lemma TwoChildrenFamily()
    ensures Family(TwoChildren())
  {
  }

  /** A directory that is not above one whose parent is a root. */
  lemma ShortWalk(fs: FS, x: nat, d: nat)
    requires x != d && x != Step(fs.parent, d) && Step(fs.parent, Step(fs.parent, d)) == Step(fs.parent, d)
    ensures Clear(fs, Check(x, d))
  {
    forall n: nat
      ensures Up(fs.parent, d, n) != x
    {
      if n > 0 {
        UpRoot(fs.parent, Step(fs.parent, d), n - 1);
      }
    }
  }

  lemma SwapClear(fs: FS, p: Place, q: Place)
    requires p in fs.entries && q in fs.entries && Clear(fs, Check(fs.entries[p].inode, q.dir)) && Clear(fs, Check(fs.entries[q].inode, p.dir))
    ensures AllClear(fs, Swap(p, q))
  {
    hide Clear;
  }

  /** Two directories under two parents: their exchange passes all checks, and its abort while the second one is being
      added to the transaction breaks the invariant. */
  lemma TornExchange() returns (fs: FS, p: Place, q: Place)
    ensures Inv(fs) && Prepared(fs, Swap(p, q)) && Tearable(fs, Swap(p, q)) && AllClear(fs, Swap(p, q)) && !Inv(Misparented(fs, p, q))
  {
    fs, p, q := TwoChildren(), Place(1, 2), Place(2, 2);
    TwoChildrenInv();
    TwoChildrenFamily();
    FamilyTears(fs);
  }

  lemma FamilyTears(fs: FS)
    requires Inv(fs) && Family(fs)
    ensures var p, q := Place(1, 2), Place(2, 2);
      Prepared(fs, Swap(p, q)) && Tearable(fs, Swap(p, q)) && AllClear(fs, Swap(p, q)) && !Inv(Misparented(fs, p, q))
  {
    hide Inv, Clear, AllClear, Misparented;
    ShortWalk(fs, 3, 2);
    ShortWalk(fs, 4, 1);
    SwapClear(fs, Place(1, 2), Place(2, 2));
    TornBreaks(fs, Swap(Place(1, 2), Place(2, 2)));
  }

  // ---------------------------------------------------------------- a cycle

  /** What the next steps need to know: the directories 3 and 4 in 1 and 2, and all parent pointers. */
  ghost predicate Children(fs: FS, parent: map<nat, nat>) {
    && Shaped(fs) && Forest(fs) && fs.dirs == {0, 1, 2, 3, 4} && fs.roots == {0} && fs.parent == parent
    && Ordinary(fs, Place(1, 2)) && fs.entries[Place(1, 2)].inode == 3
    && Ordinary(fs, Place(2, 2)) && fs.entries[Place(2, 2)].inode == 4
  }

  ghost predicate InRoot(fs: FS, slot: nat, d: nat) {
    Ordinary(fs, Place(0, slot)) && fs.entries[Place(0, slot)].inode == d
  }

  /** An exchange of `d` in `p` with `e` in the root, left half undone. */
  lemma TearOff(fs: FS, parent: map<nat, nat>, p: Place, d: nat, q: Place, e: nat)
    requires Children(fs, parent) && Ordinary(fs, p) && fs.entries[p].inode == d && d != 0 && d in fs.dirs
    requires q.dir == 0 && p.dir != 0 && Ordinary(fs, q) && fs.entries[q].inode == e && e in fs.dirs && e != p.dir && e != 0 && d != e
    requires parent[0] == 0 && p.dir in parent && parent[p.dir] == 0
    ensures Leads(Idle(fs), Idle(Misparented(fs, p, q))) && Children(Misparented(fs, p, q), parent[d := 0])
  {
    hide Leads, Shaped, Forest, Clear, AllClear, Tearable;
    var r, job := Misparented(fs, p, q), Swap(p, q);
    ShortWalk(fs, d, 0);
    ShortWalk(fs, e, p.dir);
    SwapClear(fs, p, q);
    assert Tearable(fs, job) by {
      MayTear(fs, p, q);
    }
    TearLeads(fs, job);
    TornForest(fs, job);
  }

  lemma MayTear(fs: FS, p: Place, q: Place)
    requires p in fs.entries && q in fs.entries && fs.entries[p].inode in fs.dirs && fs.entries[q].inode in fs.dirs
    ensures Tearable(fs, Swap(p, q))
  {
  }

  /** Other names stay where they are when something is moved. */
  lemma MoveKeepsEntry(fs: FS, p: Place, dir: nat, name: Name, z: Place)
    requires Shaped(fs) && Prepared(fs, Move(p, None, dir, name)) && Ordinary(fs, z) && z != p
    ensures var r := Done(fs, Move(p, None, dir, name)); Ordinary(r, z) && r.entries[z] == fs.entries[z]
  {
    PreparedFacts(fs, Move(p, None, dir, name));
    if Movable(fs, Move(p, None, dir, name)) {
      VacatedFacts(fs, Move(p, None, dir, name));
      VacantIsFree(fs, dir);
    }
    hide Shaped;
  }

  lemma MayMove(fs: FS, parent: map<nat, nat>, slot: nat, d: nat, dir: nat, name: string)
    requires Children(fs, parent) && InRoot(fs, slot, d) && d in {1, 2} && dir in {3, 4} && IsNew(fs, dir) && |name| <= MAX_FILE_NAME
    requires parent[0] == 0 && dir in parent && parent[dir] == 0
    ensures var job := Move(Place(0, slot), None, dir, Plain(name));
      && Prepared(fs, job) && Movable(fs, job) && job.p in fs.entries && AllClear(fs, job)
      && Leads(Idle(fs), Idle(Done(fs, job))) && Shaped(Done(fs, job)) && LockSet(fs, job) == {0, dir, d}
  {
    var job := Move(Place(0, slot), None, dir, Plain(name));
    hide Leads, Shaped, Forest, Clear, Done;
    PreparedFacts(fs, job);
    ShortWalk(fs, d, dir);
    CommitLeads(fs, job);
  }

  /** A move of `d` from the root into the new directory `dir`, whose parent pointer leads to the root. */
  lemma MoveInto(fs: FS, parent: map<nat, nat>, slot: nat, d: nat, dir: nat, name: string)
    requires Children(fs, parent) && InRoot(fs, slot, d) && d in {1, 2} && dir in {3, 4} && IsNew(fs, dir) && |name| <= MAX_FILE_NAME
    requires parent[0] == 0 && dir in parent && parent[dir] == 0
    ensures var job := Move(Place(0, slot), None, dir, Plain(name));
      && Prepared(fs, job) && Leads(Idle(fs), Idle(Done(fs, job))) && Children(Done(fs, job), parent[d := dir])
      && (forall z: nat, e: nat :: z != slot && InRoot(fs, z, e) ==> InRoot(Done(fs, job), z, e))
      && (forall e: nat :: e != dir && e in {3, 4} && IsNew(fs, e) ==> IsNew(Done(fs, job), e))
  {
    var p, job := Place(0, slot), Move(Place(0, slot), None, dir, Plain(name));
    MayMove(fs, parent, slot, d, dir, name);
    hide Leads, Shaped, Forest, AllClear, Done, Prepared, Movable, IsNew, LockSet, OnlyTouches;
    DoneParents(fs, job);
    DoneForestIff(fs, job);
    MoveKeepsEntry(fs, p, dir, Plain(name), Place(1, 2));
    MoveKeepsEntry(fs, p, dir, Plain(name), Place(2, 2));
    forall z: nat, e: nat | z != slot && InRoot(fs, z, e)
      ensures InRoot(Done(fs, job), z, e)
    {
      MoveKeepsEntry(fs, p, dir, Plain(name), Place(0, z));
    }
    DoneTouches(fs, job);
    forall e: nat | e != dir && e in {3, 4} && IsNew(fs, e)
      ensures IsNew(Done(fs, job), e)
    {
      Untouched(fs, Done(fs, job), LockSet(fs, job), e);
    }
  }

  lemma Untouched(fs: FS, r: FS, own: set<nat>, e: nat)
    requires OnlyTouches(fs, r, own) && e !in own && IsNew(fs, e)
    ensures IsNew(r, e)
  {
    assert SameInode(fs, r, e) && SameEntry(fs, r, Place(e, 0)) && SameEntry(fs, r, Place(e, 1));
    forall p | p in r.entries && p.dir == e
      ensures p.slot < 2 && !r.entries[p].name.Plain?
    {
      assert SameEntry(fs, r, p);
    }
  }

  lemma TornKeeps(fs: FS, p: Place, q: Place)
    requires p in fs.entries
    ensures var r := Misparented(fs, p, q);
      (forall z: nat, d: nat :: InRoot(fs, z, d) ==> InRoot(r, z, d)) && (forall d: nat :: IsNew(fs, d) ==> IsNew(r, d))
  {
  }

  lemma FamilyIsChildren(fs: FS)
    requires Inv(fs) && Family(fs)
    ensures Children(fs, map[0 := 0, 1 := 0, 2 := 0, 3 := 1, 4 := 2]) && InRoot(fs, 2, 1) && InRoot(fs, 3, 2)
  {
    InvShaped(fs);
    InvParts(fs);
    hide Inv, Shaped, Forest;
  }

  /** Two exchanges left half undone: 3 and 4 point to the root, but are entries of 1 and 2. */
  lemma TearBoth(fs: FS) returns (r: FS)
    requires Inv(fs) && Family(fs) && IsNew(fs, 3) && IsNew(fs, 4)
    ensures Leads(Idle(fs), Idle(r)) && Children(r, map[0 := 0, 1 := 0, 2 := 0, 3 := 0, 4 := 0]) && InRoot(r, 2, 1) && InRoot(r, 3, 2)
    ensures IsNew(r, 3) && IsNew(r, 4)
  {
    FamilyIsChildren(fs);
    hide Leads, Shaped, Forest, Inv, Family, IsNew;
    var parent: map<nat, nat> := map[0 := 0, 1 := 0, 2 := 0, 3 := 1, 4 := 2];
    var half := Misparented(fs, Place(1, 2), Place(0, 3));
    TearOff(fs, parent, Place(1, 2), 3, Place(0, 3), 2);
    TornKeeps(fs, Place(1, 2), Place(0, 3));
    r := Misparented(half, Place(2, 2), Place(0, 2));
    TearOff(half, parent[3 := 0], Place(2, 2), 4, Place(0, 2), 1);
    TornKeeps(half, Place(2, 2), Place(0, 2));
    TwoLegs(Idle(fs), Idle(half), Idle(r));
    assert parent[3 := 0][4 := 0] == map[0 := 0, 1 := 0, 2 := 0, 3 := 0, 4 := 0];
  }

  /** Now 1 moves into 3 and 2 into 4: no walk from 3 or 4 meets them. */
  lemma MoveBoth(fs: FS) returns (r: FS)
    requires Children(fs, map[0 := 0, 1 := 0, 2 := 0, 3 := 0, 4 := 0]) && InRoot(fs, 2, 1) && InRoot(fs, 3, 2) && IsNew(fs, 3) && IsNew(fs, 4)
    ensures Leads(Idle(fs), Idle(r)) && Children(r, map[0 := 0, 1 := 3, 2 := 4, 3 := 0, 4 := 0])
  {
    hide Leads, IsNew, Children, Done;
    var parent: map<nat, nat> := map[0 := 0, 1 := 0, 2 := 0, 3 := 0, 4 := 0];
    MoveInto(fs, parent, 2, 1, 3, "a");
    ChildrenShaped(fs, parent);
    var half := Done(fs, Move(Place(0, 2), None, 3, Plain("a")));
    MoveInto(half, parent[1 := 3], 3, 2, 4, "b");
    ChildrenShaped(half, parent[1 := 3]);
    r := Done(half, Move(Place(0, 3), None, 4, Plain("b")));
    TwoLegs(Idle(fs), Idle(half), Idle(r));
    assert parent[1 := 3][2 := 4] == map[0 := 0, 1 := 3, 2 := 4, 3 := 0, 4 := 0];
  }

  lemma ChildrenShaped(fs: FS, parent: map<nat, nat>)
    requires Children(fs, parent)
    ensures Shaped(fs)
  {
  }

  /** The exchange of 3 and 4 passes all checks, and closes the cycle 1, 3, 2, 4. */
  lemma CloseCycle(fs: FS)
    requires Children(fs, map[0 := 0, 1 := 3, 2 := 4, 3 := 0, 4 := 0])
    ensures Prepared(fs, Swap(Place(1, 2), Place(2, 2)))
    ensures var r := Done(fs, Swap(Place(1, 2), Place(2, 2))); Leads(Idle(fs), Idle(r)) && !Forest(r)
  {
    hide Leads, Shaped, Forest, Done;
    var job := Swap(Place(1, 2), Place(2, 2));
    LongWalk(fs, 3, 2);
    LongWalk(fs, 4, 1);
    SwapClear(fs, job.p, job.q);
    hide Clear, AllClear;
    CommitLeads(fs, job);
    assert Up(fs.parent, 1, 1) == 3 && Up(fs.parent, 2, 1) == 4;
    DoneForestIff(fs, job);
  }

  lemma LongWalk(fs: FS, x: nat, d: nat)
    requires x != d && x != Step(fs.parent, d) && x != Step(fs.parent, Step(fs.parent, d))
    requires Step(fs.parent, Step(fs.parent, Step(fs.parent, d))) == Step(fs.parent, Step(fs.parent, d))
    ensures Clear(fs, Check(x, d))
  {
    var e := Step(fs.parent, d);
    ShortWalk(fs, x, e);
    forall n: nat
      ensures Up(fs.parent, d, n) != x
    {
      assert n > 0 ==> Up(fs.parent, d, n) == Up(fs.parent, e, n - 1);
    }
  }

  /** From a pool in which all is well, four renames and exchanges that pass every check, two of them aborted and two
      of them done, lead to a fifth one that makes directories their own ancestors. */
  lemma CycleIsReachable() returns (run: seq<State>, actions: seq<Action>)
    ensures IsRun(run, actions) && !Forest(run[|actions|].fs)
  {
    hide Leads, Forest, Inv, Children, Family, TwoChildren, Done, IsNew, Next;
    TwoChildrenInv();
    TwoChildrenFamily();
    var torn := TearBoth(TwoChildren());
    var moved := MoveBoth(torn);
    ChildrenShaped(moved, map[0 := 0, 1 := 3, 2 := 4, 3 := 0, 4 := 0]);
    CloseCycle(moved);
    var last := Idle(Done(moved, Swap(Place(1, 2), Place(2, 2))));
    TwoLegs(Idle(TwoChildren()), Idle(torn), Idle(moved));
    TwoLegs(Idle(TwoChildren()), Idle(moved), last);
    run, actions := TheRun(Idle(TwoChildren()), last);
  }

  lemma TheRun(s: State, s': State) returns (run: seq<State>, actions: seq<Action>)
    requires Leads(s, s')
    ensures Segment(run, actions, s, s')
  {
    run, actions :| Segment(run, actions, s, s');
  }
}
