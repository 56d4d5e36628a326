/** Making, removing, moving and exchanging directories. */
module DirOps {
  import opened Names
  import opened NameOps

  // ---------------------------------------------------------------- mkdir

  /** vinode_new_dir: the new directory with its dots, and its entry in the parent. */
  function WithDir(fs: FS, p: Place, name: Name, c: nat): FS
    requires p.dir in fs.nlink
  {
    FS(fs.entries[Place(c, 0) := Dirent(Dot, c)][Place(c, 1) := Dirent(DotDot, p.dir)][p := Dirent(name, c)],
       fs.capacity[c := INODE_DIRENTS],
       fs.nlink[c := 2][p.dir := fs.nlink[p.dir] + 1],
       fs.dirs + {c}, fs.roots, fs.parent[c := p.dir])
  }

  ghost predicate CanMake(fs: FS, p: Place, name: Name, c: nat)
    requires Closed(fs)
  {
    Room(fs, p, name) && p.slot >= 2 && c !in fs.nlink
  }

  lemma NewIsUnknown(fs: FS, p: Place, name: Name, c: nat)
    requires Closed(fs) && CanMake(fs, p, name, c)
    ensures c !in fs.dirs && c !in fs.parent && c !in fs.roots && c != p.dir && p !in fs.entries && p.dir in fs.nlink && Live(fs, p.dir)
    ensures forall q :: q in fs.entries ==> q.dir != c && fs.entries[q].inode != c
  {
  }

  /** `r` is `fs` with the new directory, point by point. */
  ghost predicate Made(fs: FS, r: FS, p: Place, name: Name, c: nat) {
    && r.roots == fs.roots
    && (forall d {:trigger d in r.dirs} :: d in r.dirs <==> d in fs.dirs || d == c)
    && (forall d {:trigger d in r.parent} :: d in r.parent <==> d in fs.parent || d == c)
    && (forall d {:trigger Step(r.parent, d)} :: Step(r.parent, d) == if d == c then p.dir else Step(fs.parent, d))
    && (forall d {:trigger d in r.capacity} :: d in r.capacity <==> d in fs.capacity || d == c)
    && (forall d {:trigger r.capacity[d]} :: d in r.capacity ==> r.capacity[d] == if d == c then INODE_DIRENTS else if d in fs.capacity then fs.capacity[d] else 0)
    && (forall x {:trigger x in r.nlink} :: x in r.nlink <==> x in fs.nlink || x == c)
    && (forall x {:trigger r.nlink[x]} :: x in r.nlink ==>
          r.nlink[x] == if x == c then 2 else if x !in fs.nlink then 0 else if x == p.dir then fs.nlink[x] + 1 else fs.nlink[x])
    && (forall q {:trigger q in r.entries} :: q in r.entries <==> q in fs.entries || q == p || q == Place(c, 0) || q == Place(c, 1))
    && (forall q {:trigger r.entries[q]} :: q in r.entries ==>
          r.entries[q] == if q == p then Dirent(name, c) else if q == Place(c, 0) then Dirent(Dot, c)
                          else if q == Place(c, 1) then Dirent(DotDot, p.dir) else if q in fs.entries then fs.entries[q] else Dirent(Dot, c))
  }

  lemma WithDirIsMade(fs: FS, p: Place, name: Name, c: nat)
    requires p.dir in fs.nlink && p.dir != c && c !in fs.dirs
    ensures Made(fs, WithDir(fs, p, name, c), p, name, c)
  {
  }

  lemma MadeClosed(fs: FS, r: FS, p: Place, name: Name, c: nat)
    requires Closed(fs) && CanMake(fs, p, name, c) && Made(fs, r, p, name, c)
    ensures Closed(r)
  {
    NewIsUnknown(fs, p, name, c);
    hide CanMake;
  }

  lemma MadeCounts(fs: FS, p: Place, name: Name, c: nat)
    requires Closed(fs) && Counted(fs) && CanMake(fs, p, name, c)
    ensures Counted(WithDir(fs, p, name, c))
  {
    NewIsUnknown(fs, p, name, c);
    hide Closed, CanMake;
    var r := WithDir(fs, p, name, c);
    var e1 := fs.entries[Place(c, 0) := Dirent(Dot, c)];
    var e2 := e1[Place(c, 1) := Dirent(DotDot, p.dir)];
    forall x | x in r.nlink
      ensures r.nlink[x] == |Naming(r.entries, x)|
    {
      NamingPut(fs.entries, Place(c, 0), Dirent(Dot, c), x);
      NamingPut(e1, Place(c, 1), Dirent(DotDot, p.dir), x);
      NamingPut(e2, p, Dirent(name, c), x);
      if x == c {
        assert Naming(fs.entries, c) == {};
      }
    }
  }

  lemma MadeUnique(fs: FS, r: FS, p: Place, name: Name, c: nat)
    requires Closed(fs) && UniqueNames(fs) && CanMake(fs, p, name, c) && Made(fs, r, p, name, c)
    ensures UniqueNames(r)
  {
    NewIsUnknown(fs, p, name, c);
    hide Closed;
  }

  lemma MadeDots(fs: FS, r: FS, p: Place, name: Name, c: nat)
    requires Closed(fs) && Dots(fs) && CanMake(fs, p, name, c) && Made(fs, r, p, name, c) && Closed(r)
    ensures Dots(r)
  {
    NewIsUnknown(fs, p, name, c);
    hide CanMake;
    forall d | Live(r, d)
      ensures HasDots(r, d)
    {
      if d != c {
        assert Live(fs, d) && HasDots(fs, d);
      }
    }
    forall q | q in r.entries
      ensures Live(r, q.dir) && (q.slot >= 2 ==> r.entries[q].name.Plain?)
    {
      if q.dir != c && q != p {
        assert q in fs.entries && r.entries[q] == fs.entries[q] && Live(fs, q.dir);
      }
    }
  }

  lemma MadeNames(fs: FS, r: FS, p: Place, name: Name, c: nat)
    requires Closed(fs) && OneName(fs) && CanMake(fs, p, name, c) && Made(fs, r, p, name, c) && Closed(r)
    ensures OneName(r)
  {
    NewIsUnknown(fs, p, name, c);
    forall q, d
      ensures IsNameOf(r, q, d) <==> IsNameOf(fs, q, d) || (q == p && d == c)
    {
    }
    hide CanMake;
    assert IsNameOf(r, p, c);
    forall d | Live(r, d) && d !in r.roots
      ensures HasName(r, d)
    {
      if d != c {
        assert Live(fs, d) && HasName(fs, d);
        var q :| IsNameOf(fs, q, d);
        assert IsNameOf(r, q, d);
      }
    }
    forall q | q in r.entries && q.slot >= 2 && r.entries[q].inode in r.dirs
      ensures q.dir == Step(r.parent, r.entries[q].inode) && r.entries[q].inode !in r.roots
    {
      assert IsNameOf(r, q, r.entries[q].inode);
    }
  }

  lemma MadeForest(fs: FS, r: FS, p: Place, name: Name, c: nat)
    requires Closed(fs) && Forest(fs) && CanMake(fs, p, name, c) && Made(fs, r, p, name, c)
    ensures Forest(r)
  {
    NewIsUnknown(fs, p, name, c);
    hide CanMake;
    forall d | d in r.dirs
      ensures Grounded(r.parent, r.roots, d)
    {
      var e := if d == c then p.dir else d;
      assert e in fs.dirs && Grounded(fs.parent, fs.roots, e);
      var n: nat :| Up(fs.parent, e, n) in fs.roots;
      StaysGrounded(fs.parent, r.parent, fs.roots, {}, e, n);
      var m: nat :| Up(r.parent, e, m) in r.roots;
      assert d == c ==> Up(r.parent, c, m + 1) == Up(r.parent, p.dir, m);
    }
  }

  lemma MakeKeepsInv(fs: FS, p: Place, name: Name, c: nat)
    requires Inv(fs) && CanMake(fs, p, name, c)
    ensures p.dir in fs.nlink && Inv(WithDir(fs, p, name, c))
  {
    hide *;
    InvParts(fs);
    NewIsUnknown(fs, p, name, c);
    var r := WithDir(fs, p, name, c);
    WithDirIsMade(fs, p, name, c);
    MadeClosed(fs, r, p, name, c);
    MadeCounts(fs, p, name, c);
    MadeUnique(fs, r, p, name, c);
    MadeDots(fs, r, p, name, c);
    MadeNames(fs, r, p, name, c);
    MadeForest(fs, r, p, name, c);
    InvFrom(r);
  }

  // ---------------------------------------------------------------- rmdir

  /** Nothing but the dots. */
  ghost predicate Empty(fs: FS, d: nat) {
    forall q :: q in fs.entries && q.dir == d ==> q.slot < 2
  }

  ghost predicate CanRemove(fs: FS, p: Place) {
    p in fs.entries && p.slot >= 2 && fs.entries[p].inode in fs.dirs && Empty(fs, fs.entries[p].inode)
  }

  /** The entries that name an empty directory are its own "." and its entry in the parent. */
  lemma NamesOfEmpty(fs: FS, p: Place)
    requires Closed(fs) && Counted(fs) && Dots(fs) && OneName(fs) && CanRemove(fs, p)
    ensures var d := fs.entries[p].inode;
      Naming(fs.entries, d) == {Place(d, 0), p} && d in fs.parent && p.dir == Step(fs.parent, d) && p.dir != d && Live(fs, d)
  {
    hide Closed, Dots, OneName, Counted, Naming;
    EmptyFacts(fs, p);
    forall q | q in fs.entries && fs.entries[q].inode == fs.entries[p].inode
      ensures q == Place(fs.entries[p].inode, 0) || q == p
    {
      NameOfEmpty(fs, p, q);
    }
    NamingIsPair(fs.entries, fs.entries[p].inode, Place(fs.entries[p].inode, 0), p);
  }

  lemma EmptyFacts(fs: FS, p: Place)
    requires Closed(fs) && Counted(fs) && Dots(fs) && OneName(fs) && CanRemove(fs, p)
    ensures var d := fs.entries[p].inode;
      d in fs.parent && p.dir == Step(fs.parent, d) && p.dir != d && Live(fs, d) && HasDots(fs, d) && d !in fs.roots && Live(fs, p.dir)
  {
    NamedIsLinked(fs, p);
    assert Live(fs, fs.entries[p].inode) && HasDots(fs, fs.entries[p].inode);
  }

  lemma NamingIsPair(entries: map<Place, Dirent>, d: nat, a: Place, b: Place)
    requires a in entries && b in entries && entries[a].inode == d && entries[b].inode == d
    requires forall q :: q in entries && entries[q].inode == d ==> q == a || q == b
    ensures Naming(entries, d) == {a, b}
  {
  }

  lemma NameOfEmpty(fs: FS, p: Place, q: Place)
    requires Closed(fs) && Dots(fs) && OneName(fs) && CanRemove(fs, p)
    requires q in fs.entries && fs.entries[q].inode == fs.entries[p].inode
    ensures q == Place(fs.entries[p].inode, 0) || q == p
  {
    var d := fs.entries[p].inode;
    assert IsNameOf(fs, p, d);
    if q.slot >= 2 {
      assert IsNameOf(fs, q, d);
    } else {
      var c := q.dir;
      assert Live(fs, c) && HasDots(fs, c);
      assert q == Place(c, q.slot);
      if q.slot == 1 && c !in fs.roots {
        ParentIsNotEmpty(fs, c);
      }
    }
  }

  lemma ParentIsNotEmpty(fs: FS, c: nat)
    requires Closed(fs) && OneName(fs) && Live(fs, c) && c !in fs.roots
    ensures !Empty(fs, Step(fs.parent, c))
  {
    assert HasName(fs, c);
    var n :| IsNameOf(fs, n, c);
  }

  /** The assertion of vinode_unlink_dir: a directory about to be removed has exactly two links. */
  lemma EmptyHasTwoLinks(fs: FS, p: Place)
    requires Inv(fs) && CanRemove(fs, p)
    ensures fs.entries[p].inode in fs.nlink && fs.nlink[fs.entries[p].inode] == 2
  {
    hide Closed, Dots, OneName, UniqueNames, Forest;
    InvParts(fs);
    NamesOfEmpty(fs, p);
  }

  /** vinode_unlink_dir: the dots go, the directory has no links left, its entry goes, and its parent loses the
      link of its "..". */
  function WithoutDir(fs: FS, p: Place): FS
    requires p in fs.entries && p.dir in fs.nlink
  {
    var d := fs.entries[p].inode;
    fs.(entries := fs.entries - {Place(d, 0)} - {Place(d, 1)} - {p},
        nlink := fs.nlink[d := 0][p.dir := fs.nlink[p.dir] - 1])
  }

  /** `r` is `fs` without the directory, point by point. */
  ghost predicate Unmade(fs: FS, r: FS, p: Place)
    requires p in fs.entries
  {
    var d := fs.entries[p].inode;
    && r.roots == fs.roots && r.dirs == fs.dirs && r.parent == fs.parent && r.capacity == fs.capacity
    && (forall x {:trigger x in r.nlink} :: x in r.nlink <==> x in fs.nlink)
    && (forall x {:trigger r.nlink[x]} :: x in r.nlink ==>
          r.nlink[x] == if x == p.dir then fs.nlink[x] - 1 else if x == d then 0 else fs.nlink[x])
    && (forall q {:trigger q in r.entries} :: q in r.entries <==> q in fs.entries && q != p && q != Place(d, 0) && q != Place(d, 1))
    && (forall q {:trigger r.entries[q]} :: q in r.entries ==> r.entries[q] == fs.entries[q])
  }

  lemma WithoutDirIsUnmade(fs: FS, p: Place)
    requires p in fs.entries && p.dir in fs.nlink && fs.entries[p].inode in fs.nlink && p.dir != fs.entries[p].inode
    ensures Unmade(fs, WithoutDir(fs, p), p)
  {
  }

  lemma UnmadeCounts(fs: FS, p: Place)
    requires Closed(fs) && Counted(fs) && Dots(fs) && OneName(fs) && CanRemove(fs, p)
    ensures p.dir in fs.nlink && Counted(WithoutDir(fs, p))
  {
    EmptyFacts(fs, p);
    NamesOfEmpty(fs, p);
    hide Closed, Dots, OneName;
    var d := fs.entries[p].inode;
    var r := WithoutDir(fs, p);
    var e1 := fs.entries - {Place(d, 0)};
    var e2 := e1 - {Place(d, 1)};
    forall x | x in r.nlink
      ensures r.nlink[x] == |Naming(r.entries, x)|
    {
      NamingRemove(fs.entries, Place(d, 0), x);
      NamingRemove(e1, Place(d, 1), x);
      NamingRemove(e2, p, x);
      assert x == d ==> fs.nlink[x] == 2;
    }
  }

  lemma LinkedByDot(r: FS, d: nat)
    requires Counted(r) && d in r.nlink && Place(d, 0) in r.entries && r.entries[Place(d, 0)].inode == d
    ensures r.nlink[d] > 0
  {
    assert Place(d, 0) in Naming(r.entries, d);
  }

  lemma UnmadeClosed(fs: FS, r: FS, p: Place)
    requires Closed(fs) && Counted(fs) && Dots(fs) && OneName(fs) && CanRemove(fs, p) && Unmade(fs, r, p) && Counted(r)
    ensures Closed(r)
  {
    EmptyFacts(fs, p);
    forall x | x in r.roots
      ensures r.nlink[x] > 0
    {
      assert Live(fs, x) && HasDots(fs, x);
      LinkedByDot(r, x);
    }
  }

  lemma UnmadeUnique(fs: FS, r: FS, p: Place)
    requires UniqueNames(fs) && p in fs.entries && Unmade(fs, r, p)
    ensures UniqueNames(r)
  {
  }

  lemma UnmadeDots(fs: FS, r: FS, p: Place)
    requires Closed(fs) && Counted(fs) && Dots(fs) && OneName(fs) && CanRemove(fs, p) && Unmade(fs, r, p) && Counted(r)
      && Closed(r)
    ensures Dots(r)
  {
    EmptyFacts(fs, p);
    hide Counted, OneName;
    var gone := fs.entries[p].inode;
    forall d | Live(r, d)
      ensures HasDots(r, d)
    {
      assert Live(fs, d) && HasDots(fs, d);
    }
    forall q | q in r.entries
      ensures Live(r, q.dir)
    {
      assert Live(fs, q.dir) && HasDots(fs, q.dir) && q == Place(q.dir, q.slot);
      if q.dir != gone {
        LinkedByDot(r, q.dir);
      }
    }
  }

  lemma UnmadeNames(fs: FS, r: FS, p: Place)
    requires Closed(fs) && Counted(fs) && Dots(fs) && OneName(fs) && CanRemove(fs, p) && Unmade(fs, r, p) && Closed(r)
    ensures OneName(r)
  {
    EmptyFacts(fs, p);
    hide Counted, Dots;
    forall q, d
      ensures IsNameOf(r, q, d) <==> IsNameOf(fs, q, d) && q != p
    {
    }
    assert IsNameOf(fs, p, fs.entries[p].inode);
    forall d | Live(r, d) && d !in r.roots
      ensures HasName(r, d)
    {
      assert Live(fs, d) && HasName(fs, d);
      var q :| IsNameOf(fs, q, d);
      assert IsNameOf(r, q, d);
    }
  }

  /** rmdir, and the replaced directory of a rename. */
  lemma RemoveKeepsInv(fs: FS, p: Place)
    requires Inv(fs) && CanRemove(fs, p)
    ensures p.dir in fs.nlink && Inv(WithoutDir(fs, p))
  {
    hide *;
    InvParts(fs);
    RemovableFacts(fs, p);
    var r := WithoutDir(fs, p);
    UnmadeCounts(fs, p);
    WithoutDirIsUnmade(fs, p);
    UnmadeClosed(fs, r, p);
    UnmadeUnique(fs, r, p);
    UnmadeDots(fs, r, p);
    UnmadeNames(fs, r, p);
    UnmadeForest(fs, r, p);
    InvFrom(r);
  }

  lemma RemovableFacts(fs: FS, p: Place)
    requires Closed(fs) && Counted(fs) && Dots(fs) && OneName(fs) && CanRemove(fs, p)
    ensures p in fs.entries && p.dir in fs.nlink && fs.entries[p].inode in fs.nlink && p.dir != fs.entries[p].inode
  {
    EmptyFacts(fs, p);
  }

  lemma UnmadeForest(fs: FS, r: FS, p: Place)
    requires p in fs.entries && Forest(fs) && Unmade(fs, r, p)
    ensures Forest(r)
  {
  }
}
