/** Renames and exchanges across directories. */
module MoveOps {
  import opened Names
  import opened NameOps
  import opened DirOps

  // ---------------------------------------------------------------- rename to another directory

  /** The new entry, the old one gone, and for a directory the new parent: its "..", the links of both parents
      and the volatile parent pointer. */
  function Moved(fs: FS, p: Place, q: Place, name: Name): FS
    requires p in fs.entries && p.dir in fs.nlink && q.dir in fs.nlink
  {
    var x := fs.entries[p].inode;
    var entries := fs.entries[q := Dirent(name, x)] - {p};
    if x !in fs.dirs then fs.(entries := entries)
    else
      FS(entries[Place(x, 1) := Dirent(DotDot, q.dir)], fs.capacity,
         fs.nlink[p.dir := fs.nlink[p.dir] - 1][q.dir := fs.nlink[q.dir] + 1],
         fs.dirs, fs.roots, fs.parent[x := q.dir])
  }

  ghost predicate CanMove(fs: FS, p: Place, q: Place, name: Name)
    requires Closed(fs)
  {
    && p in fs.entries && p.slot >= 2 && Room(fs, q, name) && p.dir != q.dir
    && (fs.entries[p].inode in fs.dirs ==> !IsAncestor(fs.parent, fs.entries[p].inode, q.dir))
  }

  lemma MoveFacts(fs: FS, p: Place, q: Place, name: Name)
    requires Closed(fs) && Dots(fs) && CanMove(fs, p, q, name)
    ensures p in fs.entries && p.dir in fs.nlink && q.dir in fs.nlink && fs.entries[p].inode in fs.nlink
    ensures q !in fs.entries && q.slot >= 2 && Live(fs, p.dir) && Live(fs, q.dir)
  {
    RoomIsPastDots(fs, q, name);
    assert Live(fs, q.dir);
    EntryFacts(fs, p);
    LiveHolder(fs, p);
  }

  lemma LiveHolder(fs: FS, p: Place)
    requires Closed(fs) && Dots(fs) && p in fs.entries
    ensures Live(fs, p.dir)
  {
  }

  // ---------------------------------------------------------------- files

  lemma MovedFileCounts(fs: FS, p: Place, q: Place, name: Name)
    requires Counted(fs) && p in fs.entries && q !in fs.entries && p.dir in fs.nlink && q.dir in fs.nlink
      && fs.entries[p].inode !in fs.dirs
    ensures Counted(Moved(fs, p, q, name))
  {
    var r := Moved(fs, p, q, name);
    forall x | x in r.nlink
      ensures r.nlink[x] == |Naming(r.entries, x)|
    {
      var e := fs.entries[q := Dirent(name, fs.entries[p].inode)];
      NamingPut(fs.entries, q, Dirent(name, fs.entries[p].inode), x);
      NamingRemove(e, p, x);
      assert fs.nlink[x] == |Naming(fs.entries, x)|;
    }
  }

  lemma MovedFileClosed(fs: FS, p: Place, q: Place, name: Name)
    requires Closed(fs) && UniqueNames(fs) && CanMove(fs, p, q, name) && fs.entries[p].inode !in fs.dirs
    requires p.dir in fs.nlink && q.dir in fs.nlink
    ensures Closed(Moved(fs, p, q, name)) && UniqueNames(Moved(fs, p, q, name))
  {
  }

  lemma MovedFileSameDirs(fs: FS, p: Place, q: Place, name: Name)
    requires Closed(fs) && Dots(fs) && CanMove(fs, p, q, name) && fs.entries[p].inode !in fs.dirs
    requires p.dir in fs.nlink && q.dir in fs.nlink && q.slot >= 2
    ensures SameDirs(fs, Moved(fs, p, q, name))
  {
    var r := Moved(fs, p, q, name);
    assert Live(fs, q.dir);
    forall z | z in r.entries && z.slot >= 2
      ensures r.entries[z].name.Plain? && Live(fs, z.dir)
    {
      assert z != q ==> z in fs.entries && r.entries[z] == fs.entries[z];
    }
  }

  lemma MoveFileKeepsInv(fs: FS, p: Place, q: Place, name: Name)
    requires Inv(fs) && CanMove(fs, p, q, name) && fs.entries[p].inode !in fs.dirs
    ensures p.dir in fs.nlink && q.dir in fs.nlink && Inv(Moved(fs, p, q, name))
  {
    hide *;
    InvParts(fs);
    MoveFacts(fs, p, q, name);
    MovedFileCounts(fs, p, q, name);
    MovedFileClosed(fs, p, q, name);
    MovedFileSameDirs(fs, p, q, name);
    SameDirsInv(fs, Moved(fs, p, q, name));
  }

  // ---------------------------------------------------------------- directories

  /** `r` is `fs` with the directory moved, point by point. */
  ghost predicate DirMoved(fs: FS, r: FS, p: Place, q: Place, name: Name, x: nat) {
    && r.roots == fs.roots && r.dirs == fs.dirs && r.capacity == fs.capacity
    && (forall d {:trigger d in r.parent} :: d in r.parent <==> d in fs.parent)
    && (forall d {:trigger Step(r.parent, d)} :: Step(r.parent, d) == if d == x then q.dir else Step(fs.parent, d))
    && (forall y {:trigger y in r.nlink} :: y in r.nlink <==> y in fs.nlink)
    && (forall y {:trigger r.nlink[y]} :: y in r.nlink && y in fs.nlink ==>
          r.nlink[y] == fs.nlink[y] + if y == p.dir then -1 else if y == q.dir then 1 else 0)
    && (forall z {:trigger z in r.entries} :: z in r.entries <==> (z in fs.entries && z != p) || z == q)
    && (forall z {:trigger r.entries[z]} :: z in r.entries ==>
          r.entries[z] == if z == q then Dirent(name, x) else if z == Place(x, 1) then Dirent(DotDot, q.dir)
                          else if z in fs.entries then fs.entries[z] else Dirent(Dot, x))
  }

  /** What holds of the directory to be moved. */
  ghost predicate DirMovable(fs: FS, p: Place, q: Place, name: Name, x: nat) {
    && p in fs.entries && fs.entries[p].inode == x && p.slot >= 2 && x in fs.dirs && x !in fs.roots && x in fs.parent
    && Live(fs, x) && Live(fs, p.dir) && Live(fs, q.dir) && HasDots(fs, x)
    && p.dir == Step(fs.parent, x) && p.dir != q.dir && x != q.dir
    && q !in fs.entries && q.slot >= 2 && q.dir in fs.capacity && q.slot < fs.capacity[q.dir]
    && name.Plain? && FreeName(fs, q.dir, name)
  }

  lemma DirMoveFacts(fs: FS, p: Place, q: Place, name: Name)
    requires Inv(fs) && CanMove(fs, p, q, name) && fs.entries[p].inode in fs.dirs
    ensures DirMovable(fs, p, q, name, fs.entries[p].inode)
  {
    hide UniqueNames, Forest, Counted;
    var x := fs.entries[p].inode;
    MoveFacts(fs, p, q, name);
    LiveIfNamed(fs, p);
    assert Live(fs, x) && HasDots(fs, x);
    assert Up(fs.parent, q.dir, 0) == q.dir;
  }

  lemma LiveIfNamed(fs: FS, p: Place)
    requires Closed(fs) && Counted(fs) && p in fs.entries && fs.entries[p].inode in fs.dirs
    ensures Live(fs, fs.entries[p].inode)
  {
    NamedIsLinked(fs, p);
  }

  lemma MovedIsDirMoved(fs: FS, p: Place, q: Place, name: Name, x: nat)
    requires DirMovable(fs, p, q, name, x)
    ensures DirMoved(fs, Moved(fs, p, q, name), p, q, name, x)
  {
  }

  lemma MovedDirCounts(fs: FS, p: Place, q: Place, name: Name, x: nat)
    requires Counted(fs) && DirMovable(fs, p, q, name, x)
    ensures Counted(Moved(fs, p, q, name))
  {
    var r := Moved(fs, p, q, name);
    var e1 := fs.entries[q := Dirent(name, x)];
    var e2 := e1 - {p};
    forall y | y in r.nlink
      ensures r.nlink[y] == |Naming(r.entries, y)|
    {
      NamingPut(fs.entries, q, Dirent(name, x), y);
      NamingRemove(e1, p, y);
      NamingPut(e2, Place(x, 1), Dirent(DotDot, q.dir), y);
      assert fs.nlink[y] == |Naming(fs.entries, y)|;
    }
  }

  lemma MovedDirClosed(fs: FS, r: FS, p: Place, q: Place, name: Name, x: nat)
    requires Closed(fs) && Dots(fs) && DirMovable(fs, p, q, name, x) && DirMoved(fs, r, p, q, name, x) && Counted(r)
    ensures Closed(r)
  {
    forall d | d in r.roots
      ensures r.nlink[d] > 0
    {
      assert Live(fs, d) && HasDots(fs, d);
      assert Place(d, 0) in r.entries && r.entries[Place(d, 0)] == Dirent(Dot, d);
      LinkedByDot(r, d);
    }
  }

  lemma MovedDirUnique(fs: FS, r: FS, p: Place, q: Place, name: Name, x: nat)
    requires UniqueNames(fs) && DirMovable(fs, p, q, name, x) && DirMoved(fs, r, p, q, name, x)
    ensures UniqueNames(r)
  {
    assert forall z :: z in fs.entries && z.dir == q.dir ==> fs.entries[z].name != name;
  }

  lemma MovedDirDots(fs: FS, r: FS, p: Place, q: Place, name: Name, x: nat)
    requires Closed(fs) && Dots(fs) && DirMovable(fs, p, q, name, x) && DirMoved(fs, r, p, q, name, x) && Counted(r) && Closed(r)
    ensures Dots(r)
  {
    forall z | z in r.entries
      ensures Live(r, z.dir) && (z.slot >= 2 ==> r.entries[z].name.Plain?)
    {
      MovedDirLive(fs, r, p, q, name, x, z.dir);
    }
    forall d | Live(r, d)
      ensures HasDots(r, d)
    {
      if d != p.dir && d != q.dir {
        assert r.nlink[d] == fs.nlink[d];
      }
      assert Live(fs, d) && HasDots(fs, d);
    }
  }

  lemma MovedDirLive(fs: FS, r: FS, p: Place, q: Place, name: Name, x: nat, d: nat)
    requires Closed(fs) && Dots(fs) && DirMovable(fs, p, q, name, x) && DirMoved(fs, r, p, q, name, x) && Counted(r) && Closed(r)
    requires exists z :: z in r.entries && z.dir == d
    ensures Live(r, d)
  {
    var z :| z in r.entries && z.dir == d;
    if z != q {
      LiveHolder(fs, z);
    }
    assert Live(fs, d) && HasDots(fs, d);
    assert Place(d, 0) in r.entries && r.entries[Place(d, 0)] == Dirent(Dot, d);
    LinkedByDot(r, d);
  }

  lemma MovedDirNames(fs: FS, r: FS, p: Place, q: Place, name: Name, x: nat)
    requires Closed(fs) && OneName(fs) && DirMovable(fs, p, q, name, x) && DirMoved(fs, r, p, q, name, x) && Closed(r)
    ensures OneName(r)
  {
    assert IsNameOf(fs, p, x);
    forall z, d
      ensures IsNameOf(r, z, d) <==> (IsNameOf(fs, z, d) && z != p) || (z == q && d == x)
    {
    }
    assert IsNameOf(r, q, x);
    forall d | Live(r, d) && d !in r.roots
      ensures HasName(r, d)
    {
      if d != x {
        assert Live(fs, d);
        assert HasName(fs, d);
        var z :| IsNameOf(fs, z, d);
        assert IsNameOf(r, z, d);
      }
    }
    forall z | z in r.entries && z.slot >= 2 && r.entries[z].inode in r.dirs
      ensures z.dir == Step(r.parent, r.entries[z].inode) && r.entries[z].inode !in r.roots
    {
      assert IsNameOf(r, z, r.entries[z].inode);
      if z != q {
        assert z in fs.entries && fs.entries[z].inode == r.entries[z].inode;
        assert r.entries[z].inode == x ==> IsNameOf(fs, z, x);
      }
    }
  }

  lemma MovedDirForest(fs: FS, r: FS, p: Place, q: Place, name: Name, x: nat)
    requires Closed(fs) && Forest(fs) && DirMovable(fs, p, q, name, x) && DirMoved(fs, r, p, q, name, x)
    requires !IsAncestor(fs.parent, x, q.dir)
    ensures Forest(r)
  {
    hide DirMovable, HasDots;
    MovableFacts(fs, p, q, name, x);
    assert Grounded(fs.parent, fs.roots, q.dir);
    assert Target(fs.parent, fs.roots, q.dir, {x});
    forall d | d in r.dirs
      ensures Grounded(r.parent, r.roots, d)
    {
      assert Grounded(fs.parent, fs.roots, d);
      var n: nat :| Up(fs.parent, d, n) in fs.roots;
      StaysGrounded(fs.parent, r.parent, fs.roots, {x}, d, n);
    }
  }

  lemma MovableFacts(fs: FS, p: Place, q: Place, name: Name, x: nat)
    requires DirMovable(fs, p, q, name, x)
    ensures p in fs.entries && p.dir in fs.nlink && q.dir in fs.nlink && q.dir in fs.dirs && x in fs.dirs && x in fs.parent && fs.entries[p].inode == x
  {
  }

  lemma MoveDirKeepsInv(fs: FS, p: Place, q: Place, name: Name)
    requires Inv(fs) && CanMove(fs, p, q, name) && fs.entries[p].inode in fs.dirs
    ensures p.dir in fs.nlink && q.dir in fs.nlink && Inv(Moved(fs, p, q, name))
  {
    var x := fs.entries[p].inode;
    NotBelow(fs, p, q, name);
    hide *;
    DirMoveFacts(fs, p, q, name);
    InvParts(fs);
    MovableFacts(fs, p, q, name, x);
    var r := Moved(fs, p, q, name);
    MovedIsDirMoved(fs, p, q, name, x);
    MovedDirCounts(fs, p, q, name, x);
    MovedDirClosed(fs, r, p, q, name, x);
    MovedDirUnique(fs, r, p, q, name, x);
    MovedDirDots(fs, r, p, q, name, x);
    MovedDirNames(fs, r, p, q, name, x);
    MovedDirForest(fs, r, p, q, name, x);
    InvFrom(r);
  }

  lemma NotBelow(fs: FS, p: Place, q: Place, name: Name)
    requires Closed(fs) && CanMove(fs, p, q, name) && fs.entries[p].inode in fs.dirs
    ensures !IsAncestor(fs.parent, fs.entries[p].inode, q.dir)
  {
  }

  // ---------------------------------------------------------------- no cycles

  lemma {:induction false} UpSum(parent: map<nat, nat>, x: nat, a: nat, b: nat)
    ensures Up(parent, x, a + b) == Up(parent, Up(parent, x, a), b)
    decreases a
  {
    if a > 0 {
      UpSum(parent, Step(parent, x), a - 1, b);
    }
  }

  lemma {:induction false} UpRoot(parent: map<nat, nat>, r: nat, n: nat)
    requires Step(parent, r) == r
    ensures Up(parent, r, n) == r
  {
    if n > 0 {
      UpRoot(parent, r, n - 1);
    }
  }

  lemma {:induction false} UpLoops(parent: map<nat, nat>, y: nat, m: nat, t: nat)
    requires Up(parent, y, m) == y
    ensures Up(parent, y, m * t) == y
  {
    if t > 0 {
      UpLoops(parent, y, m, t - 1);
      assert m * t == m * (t - 1) + m;
      UpSum(parent, y, m * (t - 1), m);
    }
  }

  /** A directory with a root above it is not above itself. */
  lemma NoCycle(parent: map<nat, nat>, roots: set<nat>, y: nat, m: nat)
    requires Grounded(parent, roots, y) && y !in roots && forall r :: r in roots ==> Step(parent, r) == r
    ensures Up(parent, Step(parent, y), m) != y
  {
    if Up(parent, Step(parent, y), m) == y {
      assert Up(parent, y, m + 1) == y;
      var n: nat :| Up(parent, y, n) in roots;
      UpLoops(parent, y, m + 1, n);
      assert (m + 1) * n == n + m * n;
      UpSum(parent, y, n, m * n);
      UpRoot(parent, Up(parent, y, n), m * n);
    }
  }

  // ---------------------------------------------------------------- exchange

  /** vinode_exchange */
  function Exchanged(fs: FS, p: Place, q: Place): FS
    requires p in fs.entries && q in fs.entries && p.dir in fs.nlink && q.dir in fs.nlink
  {
    var x, y := fs.entries[p].inode, fs.entries[q].inode;
    var swapped := fs.entries[p := Dirent(fs.entries[p].name, y)][q := Dirent(fs.entries[q].name, x)];
    if (x !in fs.dirs && y !in fs.dirs) || p.dir == q.dir then fs.(entries := swapped)
    else
      var nlink :=
        if x in fs.dirs && y !in fs.dirs then fs.nlink[p.dir := fs.nlink[p.dir] - 1][q.dir := fs.nlink[q.dir] + 1]
        else if x !in fs.dirs then fs.nlink[p.dir := fs.nlink[p.dir] + 1][q.dir := fs.nlink[q.dir] - 1]
        else fs.nlink;
      var e := if x in fs.dirs then swapped[Place(x, 1) := Dirent(DotDot, q.dir)] else swapped;
      var up := if x in fs.dirs then fs.parent[x := q.dir] else fs.parent;
      FS(if y in fs.dirs then e[Place(y, 1) := Dirent(DotDot, p.dir)] else e, fs.capacity, nlink, fs.dirs, fs.roots,
         if y in fs.dirs then up[y := p.dir] else up)
  }

  ghost predicate CanExchange(fs: FS, p: Place, q: Place) {
    && p in fs.entries && q in fs.entries && p.slot >= 2 && q.slot >= 2
    && fs.entries[p].inode != fs.entries[q].inode
    && (p.dir != q.dir && fs.entries[p].inode in fs.dirs ==> !IsAncestor(fs.parent, fs.entries[p].inode, q.dir))
    && (p.dir != q.dir && fs.entries[q].inode in fs.dirs ==> !IsAncestor(fs.parent, fs.entries[q].inode, p.dir))
  }

  /** How the links of `u` change when the directory `x` moves from `a` to `b`. */
  function Shift(fs: FS, x: nat, a: nat, b: nat, u: nat): int {
    if x !in fs.dirs then 0 else (if u == b then 1 else 0) - (if u == a then 1 else 0)
  }

  /** What holds of an entry about to be exchanged. */
  ghost predicate Exchangeable(fs: FS, p: Place, x: nat) {
    && p in fs.entries && p.slot >= 2 && fs.entries[p].inode == x && x in fs.nlink && Live(fs, p.dir)
    && (x in fs.dirs ==> x !in fs.roots && x in fs.parent && Live(fs, x) && HasDots(fs, x) && p.dir == Step(fs.parent, x))
  }

  lemma ExchangeFacts(fs: FS, p: Place)
    requires Inv(fs) && p in fs.entries && p.slot >= 2
    ensures Exchangeable(fs, p, fs.entries[p].inode)
  {
    hide UniqueNames, Forest, Counted;
    var x := fs.entries[p].inode;
    EntryFacts(fs, p);
    LiveHolder(fs, p);
    if x in fs.dirs {
      LiveIfNamed(fs, p);
      assert Live(fs, x) && HasDots(fs, x);
    }
  }

  /** `r` is `fs` with the two entries exchanged, point by point. */
  ghost predicate IsExchange(fs: FS, r: FS, p: Place, q: Place, x: nat, y: nat)
    requires p in fs.entries && q in fs.entries
  {
    && r.roots == fs.roots && r.dirs == fs.dirs && r.capacity == fs.capacity
    && (forall d {:trigger d in r.parent} :: d in r.parent <==> d in fs.parent)
    && (forall d {:trigger Step(r.parent, d)} :: Step(r.parent, d) ==
          if d == x && x in fs.dirs then q.dir else if d == y && y in fs.dirs then p.dir else Step(fs.parent, d))
    && (forall u {:trigger u in r.nlink} :: u in r.nlink <==> u in fs.nlink)
    && (forall u {:trigger r.nlink[u]} :: u in r.nlink && u in fs.nlink ==>
          r.nlink[u] == fs.nlink[u] + Shift(fs, x, p.dir, q.dir, u) + Shift(fs, y, q.dir, p.dir, u))
    && (forall z {:trigger z in r.entries} :: z in r.entries <==> z in fs.entries)
    && (forall z {:trigger r.entries[z]} :: z in r.entries && z in fs.entries ==>
          r.entries[z] == if z == p then Dirent(fs.entries[p].name, y) else if z == q then Dirent(fs.entries[q].name, x)
                          else if x in fs.dirs && z == Place(x, 1) then Dirent(DotDot, q.dir)
                          else if y in fs.dirs && z == Place(y, 1) then Dirent(DotDot, p.dir) else fs.entries[z])
  }

  lemma ExchangedIs(fs: FS, p: Place, q: Place, x: nat, y: nat)
    requires Exchangeable(fs, p, x) && Exchangeable(fs, q, y) && x != y
    ensures IsExchange(fs, Exchanged(fs, p, q), p, q, x, y)
  {
  }

  lemma ExchangedEntries(fs: FS, r: FS, p: Place, q: Place, x: nat, y: nat)
    requires Exchangeable(fs, p, x) && Exchangeable(fs, q, y) && x != y && IsExchange(fs, r, p, q, x, y)
    ensures r.entries == Redirected(Redirected(fs.entries[p := Dirent(fs.entries[p].name, y)][q := Dirent(fs.entries[q].name, x)], fs.dirs, x, q.dir), fs.dirs, y, p.dir)
  {
  }

  /** The entries with the ".." of `x`, if it is a directory, naming `d`. */
  function Redirected(entries: map<Place, Dirent>, dirs: set<nat>, x: nat, d: nat): map<Place, Dirent> {
    if x in dirs then entries[Place(x, 1) := Dirent(DotDot, d)] else entries
  }

  lemma NamingRedirected(entries: map<Place, Dirent>, dirs: set<nat>, x: nat, from: nat, d: nat, u: nat)
    requires x in dirs ==> Place(x, 1) in entries && entries[Place(x, 1)].inode == from
    ensures |Naming(Redirected(entries, dirs, x, d), u)| ==
      |Naming(entries, u)| + if x !in dirs then 0 else (if u == d then 1 else 0) - (if u == from then 1 else 0)
  {
    if x in dirs {
      NamingPut(entries, Place(x, 1), Dirent(DotDot, d), u);
    }
  }

  lemma ExchangedCounts(fs: FS, r: FS, p: Place, q: Place, x: nat, y: nat)
    requires Counted(fs) && Exchangeable(fs, p, x) && Exchangeable(fs, q, y) && x != y && IsExchange(fs, r, p, q, x, y)
    ensures Counted(r)
  {
    ExchangedEntries(fs, r, p, q, x, y);
    var e1 := fs.entries[p := Dirent(fs.entries[p].name, y)];
    var e2 := e1[q := Dirent(fs.entries[q].name, x)];
    var e3 := Redirected(e2, fs.dirs, x, q.dir);
    forall u | u in r.nlink
      ensures r.nlink[u] == |Naming(r.entries, u)|
    {
      NamingPut(fs.entries, p, Dirent(fs.entries[p].name, y), u);
      NamingPut(e1, q, Dirent(fs.entries[q].name, x), u);
      NamingRedirected(e2, fs.dirs, x, p.dir, q.dir, u);
      NamingRedirected(e3, fs.dirs, y, q.dir, p.dir, u);
      assert fs.nlink[u] == |Naming(fs.entries, u)|;
    }
  }

  lemma ExchangedClosed(fs: FS, r: FS, p: Place, q: Place, x: nat, y: nat)
    requires Closed(fs) && Dots(fs) && Exchangeable(fs, p, x) && Exchangeable(fs, q, y) && x != y
      && IsExchange(fs, r, p, q, x, y) && Counted(r)
    ensures Closed(r)
  {
    forall d | d in r.roots
      ensures r.nlink[d] > 0
    {
      assert Live(fs, d) && HasDots(fs, d);
      assert Place(d, 0) in r.entries && r.entries[Place(d, 0)] == Dirent(Dot, d);
      LinkedByDot(r, d);
    }
  }

  lemma ExchangedUnique(fs: FS, r: FS, p: Place, q: Place, x: nat, y: nat)
    requires UniqueNames(fs) && Exchangeable(fs, p, x) && Exchangeable(fs, q, y) && x != y && IsExchange(fs, r, p, q, x, y)
    ensures UniqueNames(r)
  {
    forall z | z in r.entries
      ensures z in fs.entries && r.entries[z].name == fs.entries[z].name
    {
    }
  }

  lemma ExchangedLive(fs: FS, r: FS, p: Place, q: Place, x: nat, y: nat, d: nat)
    requires Closed(fs) && Dots(fs) && Exchangeable(fs, p, x) && Exchangeable(fs, q, y) && x != y && IsExchange(fs, r, p, q, x, y)
    requires Closed(r) && Counted(r)
    ensures Live(fs, d) ==> Live(r, d) && HasDots(r, d)
    ensures Live(r, d) ==> Live(fs, d)
  {
    if Live(fs, d) {
      assert HasDots(fs, d);
      assert Place(d, 0) in r.entries && r.entries[Place(d, 0)] == Dirent(Dot, d);
      LinkedByDot(r, d);
    }
  }

  lemma ExchangedDots(fs: FS, r: FS, p: Place, q: Place, x: nat, y: nat)
    requires Closed(fs) && Dots(fs) && Exchangeable(fs, p, x) && Exchangeable(fs, q, y) && x != y && IsExchange(fs, r, p, q, x, y)
    requires Closed(r) && Counted(r)
    ensures Dots(r)
  {
    forall d | Live(r, d)
      ensures HasDots(r, d)
    {
      ExchangedLive(fs, r, p, q, x, y, d);
    }
    forall z | z in r.entries
      ensures Live(r, z.dir) && (z.slot >= 2 ==> r.entries[z].name.Plain?)
    {
      LiveHolder(fs, z);
      ExchangedLive(fs, r, p, q, x, y, z.dir);
    }
  }

  lemma ExchangedNames(fs: FS, r: FS, p: Place, q: Place, x: nat, y: nat)
    requires Closed(fs) && Dots(fs) && OneName(fs) && Exchangeable(fs, p, x) && Exchangeable(fs, q, y) && x != y
      && IsExchange(fs, r, p, q, x, y)
    requires Closed(r) && Counted(r)
    ensures OneName(r)
  {
    assert IsNameOf(fs, p, x) && IsNameOf(fs, q, y);
    forall z, d
      ensures IsNameOf(r, z, d) <==> (if z == p then d == y else if z == q then d == x else IsNameOf(fs, z, d))
    {
    }
    assert IsNameOf(r, p, y) && IsNameOf(r, q, x);
    forall d | Live(r, d) && d !in r.roots
      ensures HasName(r, d)
    {
      ExchangedLive(fs, r, p, q, x, y, d);
      if d != x && d != y {
        assert HasName(fs, d);
        var z :| IsNameOf(fs, z, d);
        assert IsNameOf(r, z, d);
      }
    }
    forall z | z in r.entries && z.slot >= 2 && r.entries[z].inode in r.dirs
      ensures z.dir == Step(r.parent, r.entries[z].inode) && r.entries[z].inode !in r.roots
    {
      var d := r.entries[z].inode;
      assert IsNameOf(r, z, d);
      if z != p && z != q {
        assert IsNameOf(fs, z, d);
        assert d != x && d != y;
      }
    }
  }

  lemma ExchangedForest(fs: FS, r: FS, p: Place, q: Place, x: nat, y: nat)
    requires Closed(fs) && Forest(fs) && Exchangeable(fs, p, x) && Exchangeable(fs, q, y) && x != y
      && IsExchange(fs, r, p, q, x, y)
    requires CanExchange(fs, p, q)
    ensures Forest(r)
  {
    hide HasDots;
    var moved := (if x in fs.dirs then {x} else {}) + (if y in fs.dirs then {y} else {});
    forall m: nat
      ensures Up(fs.parent, p.dir, m) !in moved && Up(fs.parent, q.dir, m) !in moved
    {
      NotBelowMoved(fs, p, q, x, y, m);
      NotBelowMoved(fs, q, p, y, x, m);
    }
    assert Grounded(fs.parent, fs.roots, p.dir) && Grounded(fs.parent, fs.roots, q.dir);
    assert Target(fs.parent, fs.roots, p.dir, moved) && Target(fs.parent, fs.roots, q.dir, moved);
    forall d | d in r.dirs
      ensures Grounded(r.parent, r.roots, d)
    {
      assert Grounded(fs.parent, fs.roots, d);
      var n: nat :| Up(fs.parent, d, n) in fs.roots;
      StaysGrounded(fs.parent, r.parent, fs.roots, moved, d, n);
    }
  }

  /** Neither the directory an entry is in nor the one it goes to lies below what the entry names. */
  lemma NotBelowMoved(fs: FS, p: Place, q: Place, x: nat, y: nat, m: nat)
    requires Closed(fs) && Forest(fs) && Exchangeable(fs, p, x) && Exchangeable(fs, q, y) && CanExchange(fs, p, q)
    ensures x in fs.dirs ==> Up(fs.parent, p.dir, m) != x && Up(fs.parent, q.dir, m) != x
  {
    if x in fs.dirs {
      assert Grounded(fs.parent, fs.roots, x);
      NoCycle(fs.parent, fs.roots, x, m);
    }
  }

  lemma ExchangeKeepsInv(fs: FS, p: Place, q: Place)
    requires Inv(fs) && CanExchange(fs, p, q)
    ensures p.dir in fs.nlink && q.dir in fs.nlink && Inv(Exchanged(fs, p, q))
  {
    var x, y := fs.entries[p].inode, fs.entries[q].inode;
    hide *;
    CanExchangeFacts(fs, p, q);
    InvParts(fs);
    ExchangeFacts(fs, p);
    ExchangeFacts(fs, q);
    EntryFacts(fs, p);
    EntryFacts(fs, q);
    var r := Exchanged(fs, p, q);
    ExchangedIs(fs, p, q, x, y);
    ExchangedCounts(fs, r, p, q, x, y);
    ExchangedClosed(fs, r, p, q, x, y);
    ExchangedUnique(fs, r, p, q, x, y);
    ExchangedDots(fs, r, p, q, x, y);
    ExchangedNames(fs, r, p, q, x, y);
    ExchangedForest(fs, r, p, q, x, y);
    InvFrom(r);
  }

  lemma CanExchangeFacts(fs: FS, p: Place, q: Place)
    requires CanExchange(fs, p, q)
    ensures p in fs.entries && q in fs.entries && p.slot >= 2 && q.slot >= 2 && fs.entries[p].inode != fs.entries[q].inode
  {
  }
}
