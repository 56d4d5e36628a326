/** The changes that the namespace operations make, each as one transaction, and that they keep the invariant. */
module NameOps {
  import opened Names

  // ---------------------------------------------------------------- entries of files

  ghost predicate FreeName(fs: FS, dir: nat, name: Name) {
    forall p :: p in fs.entries && p.dir == dir ==> fs.entries[p].name != name
  }

  /** A new entry and the link it adds. */
  function Added(fs: FS, p: Place, name: Name, child: nat): FS
    requires child in fs.nlink
  {
    fs.(entries := fs.entries[p := Dirent(name, child)], nlink := fs.nlink[child := fs.nlink[child] + 1])
  }

  /** `p` can take an entry `name`. */
  ghost predicate Room(fs: FS, p: Place, name: Name)
    requires Closed(fs)
  {
    && p !in fs.entries && p.dir in fs.dirs && p.slot < fs.capacity[p.dir] && fs.nlink[p.dir] > 0
    && name.Plain? && FreeName(fs, p.dir, name)
  }

  lemma RoomIsPastDots(fs: FS, p: Place, name: Name)
    requires Closed(fs) && Dots(fs) && Room(fs, p, name)
    ensures p.slot >= 2 && p !in fs.entries
  {
    assert Live(fs, p.dir) && HasDots(fs, p.dir);
    assert p == Place(p.dir, p.slot);
  }

  lemma AddedCounts(fs: FS, p: Place, name: Name, child: nat)
    requires Counted(fs) && p !in fs.entries && child in fs.nlink
    ensures Counted(Added(fs, p, name, child))
  {
    var r := Added(fs, p, name, child);
    forall x | x in r.nlink
      ensures r.nlink[x] == |Naming(r.entries, x)|
    {
      NamingPut(fs.entries, p, Dirent(name, child), x);
    }
  }

  /** The directories are as before: their dots, where they are named, and their parents. */
  ghost predicate SameDirs(fs: FS, r: FS) {
    && r.dirs == fs.dirs && r.roots == fs.roots && r.parent == fs.parent
    && (forall d :: d in fs.dirs ==> d in fs.nlink && d in r.nlink && r.nlink[d] == fs.nlink[d])
    && (forall p: Place {:trigger p in r.entries} {:trigger p in fs.entries} :: p.slot < 2 ==>
          (p in r.entries <==> p in fs.entries) && (p in fs.entries ==> r.entries[p] == fs.entries[p]))
    && (forall p, d {:trigger IsNameOf(r, p, d)} {:trigger IsNameOf(fs, p, d)} :: d in fs.dirs ==> (IsNameOf(r, p, d) <==> IsNameOf(fs, p, d)))
    && (forall p {:trigger p in r.entries} :: p in r.entries && p.slot >= 2 ==> r.entries[p].name.Plain? && Live(fs, p.dir))
  }

  lemma SameDirsDots(fs: FS, r: FS)
    requires Closed(fs) && Closed(r) && Dots(fs) && SameDirs(fs, r)
    ensures Dots(r)
  {
    forall d | Live(r, d)
      ensures HasDots(r, d)
    {
      assert Live(fs, d) && HasDots(fs, d);
    }
    forall p | p in r.entries
      ensures Live(r, p.dir)
    {
      if p.slot < 2 {
        assert fs.entries[p] == r.entries[p];
      }
      assert Live(fs, p.dir);
    }
  }

  lemma SameDirsNames(fs: FS, r: FS)
    requires Closed(fs) && Closed(r) && OneName(fs) && SameDirs(fs, r)
    ensures OneName(r)
  {
    forall d | Live(r, d) && d !in r.roots
      ensures HasName(r, d)
    {
      assert Live(fs, d) && HasName(fs, d);
      var q :| IsNameOf(fs, q, d);
      assert IsNameOf(r, q, d);
    }
    forall p | p in r.entries && p.slot >= 2 && r.entries[p].inode in r.dirs
      ensures p.dir == Step(r.parent, r.entries[p].inode) && r.entries[p].inode !in r.roots
    {
      assert IsNameOf(r, p, r.entries[p].inode);
      assert IsNameOf(fs, p, r.entries[p].inode);
    }
    forall d, q, q' | d in r.dirs && IsNameOf(r, q, d) && IsNameOf(r, q', d)
      ensures q == q'
    {
      assert IsNameOf(fs, q, d) && IsNameOf(fs, q', d);
    }
  }

  lemma SameDirsInv(fs: FS, r: FS)
    requires Inv(fs) && Closed(r) && Counted(r) && UniqueNames(r) && SameDirs(fs, r)
    ensures Inv(r)
  {
    hide *;
    InvParts(fs);
    SameDirsDots(fs, r);
    SameDirsNames(fs, r);
    SameDirsForest(fs, r);
    InvFrom(r);
  }

  lemma InvParts(fs: FS)
    requires Inv(fs)
    ensures Closed(fs) && Counted(fs) && UniqueNames(fs) && Dots(fs) && OneName(fs) && Forest(fs)
  {
    hide Closed, Counted, UniqueNames, Dots, OneName, Forest;
  }

  lemma InvFrom(fs: FS)
    requires Closed(fs) && Counted(fs) && UniqueNames(fs) && Dots(fs) && OneName(fs) && Forest(fs)
    ensures Inv(fs)
  {
    hide Closed, Counted, UniqueNames, Dots, OneName, Forest;
  }

  lemma SameDirsForest(fs: FS, r: FS)
    requires Forest(fs) && SameDirs(fs, r)
    ensures Forest(r)
  {
  }

  lemma AddedClosed(fs: FS, p: Place, name: Name, child: nat)
    requires Closed(fs) && Room(fs, p, name) && child in fs.nlink && fs.nlink[child] >= 0
    ensures Closed(Added(fs, p, name, child))
  {
  }

  lemma AddedUnique(fs: FS, p: Place, name: Name, child: nat)
    requires Closed(fs) && UniqueNames(fs) && Room(fs, p, name) && child in fs.nlink
    ensures UniqueNames(Added(fs, p, name, child))
  {
    hide Closed;
  }

  lemma AddedSameDirs(fs: FS, p: Place, name: Name, f: nat)
    requires Closed(fs) && Dots(fs) && Room(fs, p, name) && p.slot >= 2 && f in fs.nlink && f !in fs.dirs
    ensures SameDirs(fs, Added(fs, p, name, f))
  {
    var r := Added(fs, p, name, f);
    assert Live(fs, p.dir);
    forall q | q in r.entries && q.slot >= 2
      ensures r.entries[q].name.Plain? && Live(fs, q.dir)
    {
      assert q != p ==> q in fs.entries && r.entries[q] == fs.entries[q];
    }
  }

  /** creat, symlink and link */
  lemma AddFileKeepsInv(fs: FS, p: Place, name: Name, f: nat)
    requires Inv(fs) && Room(fs, p, name) && f in fs.nlink && f !in fs.dirs
    ensures Inv(Added(fs, p, name, f))
  {
    hide *;
    InvParts(fs);
    LinksAreCounted(fs, f);
    RoomIsPastDots(fs, p, name);
    AddedCounts(fs, p, name, f);
    AddedClosed(fs, p, name, f);
    AddedUnique(fs, p, name, f);
    AddedSameDirs(fs, p, name, f);
    SameDirsInv(fs, Added(fs, p, name, f));
  }

  lemma LinksAreCounted(fs: FS, x: nat)
    requires Counted(fs) && x in fs.nlink
    ensures fs.nlink[x] >= 0
  {
    assert fs.nlink[x] == |Naming(fs.entries, x)|;
  }

  /** vinode_unlink_file */
  function Removed(fs: FS, p: Place): FS
    requires p in fs.entries && fs.entries[p].inode in fs.nlink
  {
    var x := fs.entries[p].inode;
    fs.(entries := fs.entries - {p}, nlink := fs.nlink[x := fs.nlink[x] - 1])
  }

  lemma RemovedCounts(fs: FS, p: Place)
    requires Counted(fs) && p in fs.entries && fs.entries[p].inode in fs.nlink
    ensures Counted(Removed(fs, p))
  {
    var r := Removed(fs, p);
    forall x | x in r.nlink
      ensures r.nlink[x] == |Naming(r.entries, x)|
    {
      NamingRemove(fs.entries, p, x);
    }
  }

  /** unlink */
  lemma RemoveFileKeepsInv(fs: FS, p: Place)
    requires Inv(fs) && p in fs.entries && fs.entries[p].inode !in fs.dirs
    ensures Inv(Removed(fs, p)) && fs.nlink[fs.entries[p].inode] > 0
  {
    hide *;
    InvParts(fs);
    EntryFacts(fs, p);
    RemovedCounts(fs, p);
    NamedIsLinked(fs, p);
    OrdinaryEntry(fs, p);
    RemovedClosed(fs, p);
    RemovedUnique(fs, p);
    RemovedSameDirs(fs, p);
    SameDirsInv(fs, Removed(fs, p));
  }

  lemma EntryFacts(fs: FS, p: Place)
    requires Closed(fs) && p in fs.entries
    ensures p.dir in fs.dirs && p.dir in fs.nlink && p.dir in fs.capacity && p.slot < fs.capacity[p.dir] && fs.entries[p].inode in fs.nlink
  {
  }

  lemma RemovedClosed(fs: FS, p: Place)
    requires Closed(fs) && UniqueNames(fs) && p in fs.entries && p.slot >= 2 && fs.entries[p].inode !in fs.dirs
    ensures Closed(Removed(fs, p))
  {
    hide UniqueNames, FreeName;
  }

  lemma RemovedUnique(fs: FS, p: Place)
    requires Closed(fs) && UniqueNames(fs) && p in fs.entries && p.slot >= 2 && fs.entries[p].inode !in fs.dirs
    ensures UniqueNames(Removed(fs, p))
  {
  }

  lemma RemovedSameDirs(fs: FS, p: Place)
    requires Closed(fs) && Dots(fs) && p in fs.entries && p.slot >= 2 && fs.entries[p].inode !in fs.dirs
    ensures SameDirs(fs, Removed(fs, p))
  {
    var r := Removed(fs, p);
    forall q | q in r.entries && q.slot >= 2
      ensures r.entries[q].name.Plain? && Live(fs, q.dir)
    {
      assert q in fs.entries && r.entries[q] == fs.entries[q];
    }
  }

  /** What an entry names has a link. */
  lemma NamedIsLinked(fs: FS, p: Place)
    requires Counted(fs) && p in fs.entries && fs.entries[p].inode in fs.nlink
    ensures fs.nlink[fs.entries[p].inode] > 0
  {
    assert p in Naming(fs.entries, fs.entries[p].inode);
  }

  lemma OrdinaryEntry(fs: FS, p: Place)
    requires Closed(fs) && Dots(fs) && p in fs.entries && fs.entries[p].inode !in fs.dirs
    ensures p.slot >= 2
  {
    assert Live(fs, p.dir) && HasDots(fs, p.dir);
    assert p == Place(p.dir, p.slot);
  }

  // ---------------------------------------------------------------- renaming in place

  function Renamed(fs: FS, p: Place, name: Name): FS
    requires p in fs.entries
  {
    fs.(entries := fs.entries[p := Dirent(name, fs.entries[p].inode)])
  }

  lemma RenameKeepsInv(fs: FS, p: Place, name: Name)
    requires Inv(fs) && p in fs.entries && p.slot >= 2 && name.Plain? && FreeName(fs, p.dir, name)
    ensures Inv(Renamed(fs, p, name))
  {
    hide *;
    InvParts(fs);
    RenamedCounts(fs, p, name);
    RenamedClosed(fs, p, name);
    RenamedUnique(fs, p, name);
    RenamedSameDirs(fs, p, name);
    SameDirsInv(fs, Renamed(fs, p, name));
  }

  lemma RenamedCounts(fs: FS, p: Place, name: Name)
    requires Counted(fs) && p in fs.entries
    ensures Counted(Renamed(fs, p, name))
  {
    var r := Renamed(fs, p, name);
    forall x | x in r.nlink
      ensures r.nlink[x] == |Naming(r.entries, x)|
    {
      NamingPut(fs.entries, p, Dirent(name, fs.entries[p].inode), x);
    }
  }

  lemma RenamedClosed(fs: FS, p: Place, name: Name)
    requires Closed(fs) && UniqueNames(fs) && p in fs.entries && p.slot >= 2 && name.Plain? && FreeName(fs, p.dir, name)
    ensures Closed(Renamed(fs, p, name))
  {
    hide UniqueNames, FreeName;
  }

  lemma RenamedUnique(fs: FS, p: Place, name: Name)
    requires Closed(fs) && UniqueNames(fs) && p in fs.entries && p.slot >= 2 && name.Plain? && FreeName(fs, p.dir, name)
    ensures UniqueNames(Renamed(fs, p, name))
  {
  }

  lemma RenamedSameDirs(fs: FS, p: Place, name: Name)
    requires Closed(fs) && Dots(fs) && p in fs.entries && p.slot >= 2 && name.Plain? && FreeName(fs, p.dir, name)
    ensures SameDirs(fs, Renamed(fs, p, name))
  {
    var r := Renamed(fs, p, name);
    forall q | q in r.entries && q.slot >= 2
      ensures r.entries[q].name.Plain? && Live(fs, q.dir)
    {
      assert q in fs.entries && Live(fs, q.dir);
    }
  }
}
