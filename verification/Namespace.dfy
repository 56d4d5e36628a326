/** The namespace operations as the library runs them: lookups and insertions that scan the slots of a directory,
    the walk to the root, and transactions that are undone when they abort. */
module Namespace {
  import opened Layout
  import opened Names
  import opened NameOps
  import opened DirOps
  import opened MoveOps
  import opened Changes
  import opened Jobs

  datatype Errno = ENOENT | EEXIST | ENOTDIR | EISDIR | ENOTEMPTY | EINVAL | EPERM | ENAMETOOLONG | ENOSPC | ENOMEM

  /** Entries lie in slots that exist. */
  ghost predicate Slotted(fs: FS) {
    forall p {:trigger p in fs.entries} :: p in fs.entries ==> p.dir in fs.capacity && p.slot < fs.capacity[p.dir]
  }

  /** How inode_add_dirent ends; `space` says whether the transaction gets the memory it asks for. */
  ghost function AddError(fs: FS, dir: nat, name: Name, space: bool): Option<Errno>
    requires dir in fs.nlink
  {
    if TooLong(name) then Some(ENAMETOOLONG)
    else if fs.nlink[dir] == 0 && name != Dot then Some(ENOENT)
    else if !FreeName(fs, dir, name) then Some(EEXIST)
    else if !space then Some(ENOSPC)
    else None
  }

  /** `r` is what the change makes of `fs`, and nothing stood in its way. */
  ghost predicate Performs(fs: FS, r: FS, c: Change) {
    Shaped(fs) && Allowed(fs, c) && r == Apply(fs, c)
  }

  /** What vinode_exchange adds to its transaction, in this order. */
  datatype Snapshot = SourceEntry | TargetEntry | SourceLinks | TargetLinks | SourceDots | TargetDots

  /** The exchange of `p` and `q` gets to this snapshot. */
  predicate Reached(fs: FS, p: Place, q: Place, s: Snapshot)
    requires p in fs.entries && q in fs.entries
  {
    var x, y := fs.entries[p].inode in fs.dirs, fs.entries[q].inode in fs.dirs;
    match s
    case SourceEntry => true
    case TargetEntry => true
    case SourceLinks => p.dir != q.dir && x != y
    case TargetLinks => p.dir != q.dir && x != y
    case SourceDots => p.dir != q.dir && x
    case TargetDots => p.dir != q.dir && y
  }

  class Tree {
    var fs: FS

    /** vinode_lookup_dirent_by_name_locked */
    method Lookup(dir: nat, name: Name) returns (r: Option<Place>)
      requires Slotted(fs) && dir in fs.capacity
      ensures r.Some? ==> Names.Names(fs, r.value, dir, name)
      ensures r.None? ==> FreeName(fs, dir, name)
    {
      var i := 0;
      while i < fs.capacity[dir]
        invariant 0 <= i <= fs.capacity[dir]
        invariant forall p :: p in fs.entries && p.dir == dir && p.slot < i ==> fs.entries[p].name != name
      {
        var p := Place(dir, i);
        if p in fs.entries && fs.entries[p].name == name {
          return Some(p);
        }
        assert forall q: Place :: q.dir == dir && q.slot == i ==> q == p;
        i := i + 1;
      }
      r := None;
    }

    /** inode_add_dirent: refuses names that are too long or taken and directories that were removed; otherwise
        takes the first free slot, adding a block of slots when there is none. */
    method AddDirent(dir: nat, name: Name, child: nat, space: bool) returns (error: Option<Errno>)
      requires Slotted(fs) && dir in fs.capacity && dir in fs.nlink && child in fs.nlink
      modifies this
      ensures error == AddError(old(fs), dir, name, space)
      ensures fs == if error.None? then Entered(old(fs), dir, name, child) else old(fs)
    {
      if TooLong(name) {
        return Some(ENAMETOOLONG);
      }
      if fs.nlink[dir] == 0 && name != Dot {
        return Some(ENOENT);
      }
      var found: Option<nat> := None;
      var i := 0;
      while i < fs.capacity[dir]
        invariant 0 <= i <= fs.capacity[dir] && fs == old(fs)
        invariant forall p :: p in fs.entries && p.dir == dir && p.slot < i ==> fs.entries[p].name != name
        invariant Vacant(fs, dir, 0) == if found.Some? then found.value else Vacant(fs, dir, i)
        invariant found.Some? ==> found.value < fs.capacity[dir]
      {
        var p := Place(dir, i);
        if p in fs.entries {
          if fs.entries[p].name == name {
            return Some(EEXIST);
          }
        } else if found.None? {
          found := Some(i);
        }
        assert forall q: Place :: q.dir == dir && q.slot == i ==> q == p;
        i := i + 1;
      }
      if !space {
        return Some(ENOSPC);
      }
      if found.None? {
        found := Some(i);
        fs := Grown(fs, dir, i + CHAINED_DIRENTS);
      }
      fs := Added(fs, Place(dir, found.value), name, child);
      error := None;
    }

    /** dir_is_parent_of: the walk ends because every directory has a root above it. */
    method DirIsParentOf(a: nat, x: nat) returns (r: bool)
      requires Closed(fs) && Forest(fs) && x in fs.dirs && a !in fs.roots
      ensures r <==> IsAncestor(fs.parent, a, x)
    {
      assert Grounded(fs.parent, fs.roots, x);
      ghost var n: nat :| Up(fs.parent, x, n) in fs.roots;
      ghost var i: nat := 0;
      var v := x;
      while v !in fs.roots
        invariant i <= n && v == Up(fs.parent, x, i) && v in fs.parent
        invariant forall k: nat :: k < i ==> Up(fs.parent, x, k) != a
        decreases n - i
      {
        if v == a {
          return true;
        }
        assert i < n;
        UpNext(fs.parent, x, i);
        v := fs.parent[v];
        i := i + 1;
      }
      forall k: nat
        ensures Up(fs.parent, x, k) != a
      {
        if k >= i {
          UpSum(fs.parent, x, i, k - i);
          UpRoot(fs.parent, v, k - i);
        }
      }
      r := false;
    }

    /** open with O_CREAT, symlink and mknod, under the lock of the parent; `f` is the new inode. The invariant survives
        with one exception: the name "." is accepted in a directory that has been removed. */
    method Create(dir: nat, name: Name, f: nat, space: bool) returns (error: Option<Errno>)
      requires Inv(fs) && dir in fs.dirs && f !in fs.nlink
      modifies this
      ensures dir in old(fs).nlink && error == AddError(old(fs), dir, name, space)
      ensures error.Some? ==> fs == old(fs)
      ensures Inv(fs) <==> !(space && name == Dot && old(fs).nlink[dir] == 0)
      ensures error.None? ==> Performs(old(fs), fs, Change.Create(dir, name, f)) && f in fs.nlink && fs.nlink[f] == 1
      ensures error.None? ==> Bound(fs, dir, name) == Some(f) && SameBindings(old(fs), fs, dir, name, dir, name)
    {
      hide Closed, Counted, UniqueNames, Dots, OneName, Forest, Inv, Bound, SameBindings, Slotted, FreeName, Entered, Shaped;
      var was := fs;
      InvParts(fs);
      InvShaped(fs);
      InvSlotted(fs, dir);
      NewIsNoDir(fs, f);
      DotIsFree(fs, dir);
      SameEntries(fs, WithInode(fs, f), dir, name);
      fs := WithInode(fs, f);
      error := AddDirent(dir, name, f, space);
      if error.Some? {
        fs := was;
        return;
      }
      ApplyKeepsInvIff(was, Change.Create(dir, name, f));
      NewEntered(was, dir, name, f);
    }

    /** linkat, under the locks. The invariant survives with the same exception. */
    method Link(f: nat, dir: nat, name: Name, space: bool) returns (error: Option<Errno>)
      requires Inv(fs) && f in fs.nlink && dir in fs.dirs
      modifies this
      ensures dir in old(fs).nlink && error == if f in old(fs).dirs then Some(EPERM) else AddError(old(fs), dir, name, space)
      ensures error.Some? ==> fs == old(fs)
      ensures Inv(fs) <==> !(f !in old(fs).dirs && space && name == Dot && old(fs).nlink[dir] == 0)
      ensures error.None? ==> Performs(old(fs), fs, Change.Link(f, dir, name)) && f in fs.nlink && fs.nlink[f] == old(fs).nlink[f] + 1
      ensures error.None? ==> Bound(fs, dir, name) == Some(f) && SameBindings(old(fs), fs, dir, name, dir, name)
    {
      hide Closed, Counted, UniqueNames, Dots, OneName, Forest, Inv, Bound, SameBindings, Slotted, FreeName, Shaped;
      InvParts(fs);
      InvShaped(fs);
      InvSlotted(fs, dir);
      DotIsFree(fs, dir);
      if f in fs.dirs {
        return Some(EPERM);
      }
      error := AddDirent(dir, name, f, space);
      if error.None? {
        ApplyKeepsInvIff(old(fs), Change.Link(f, dir, name));
        EnteredBound(old(fs), dir, name, f);
      }
    }

    /** unlinkat, under the locks. */
    method Unlink(dir: nat, name: Name) returns (error: Option<Errno>)
      requires Inv(fs) && dir in fs.dirs
      modifies this
      ensures Inv(fs)
      ensures error.Some? ==> fs == old(fs)
      ensures error == match Bound(old(fs), dir, name)
                       case None => Some(ENOENT)
                       case Some(x) => if x in old(fs).dirs then Some(EISDIR) else None
      ensures error.None? ==> forall p :: Names.Names(old(fs), p, dir, name) ==> Performs(old(fs), fs, Change.Unlink(p))
      ensures error.None? ==> Bound(fs, dir, name) == None && SameBindings(old(fs), fs, dir, name, dir, name)
    {
      hide *;
      InvParts(fs);
      InvShaped(fs);
      InvSlotted(fs, dir);
      var p := Lookup(dir, name);
      LookupBound(fs, p, dir, name);
      if p.None? {
        return Some(ENOENT);
      }
      FoundEntry(fs, p.value, dir, name);
      if fs.entries[p.value].inode in fs.dirs {
        return Some(EISDIR);
      }
      RemoveFileKeepsInv(fs, p.value);
      UnboundEntry(fs, p.value);
      UnlinkPerforms(fs, p.value, dir, name);
      fs := Removed(fs, p.value);
      error := None;
    }

    /** mkdirat, under the lock of the parent; `c` is the new inode. Its two slots take "." and ".." at once. The
        link of "..", counted first, hides from the insertion that the parent has been removed: that is the one
        case in which the invariant is lost. */
    method Mkdir(dir: nat, name: Name, c: nat, space: bool) returns (error: Option<Errno>)
      requires Inv(fs) && dir in fs.dirs && c !in fs.nlink
      modifies this
      ensures error.Some? ==> fs == old(fs)
      ensures dir in old(fs).nlink && (error.None? <==> space && Allowed(old(fs), Change.Mkdir(dir, name, c)))
      ensures space && error.Some? ==>
        error.value == if name != Dot && TooLong(name) then ENAMETOOLONG else EEXIST
      ensures Inv(fs) <==> !(space && name != Dot && !TooLong(name) && old(fs).nlink[dir] == 0)
      ensures error.None? ==> Performs(old(fs), fs, Change.Mkdir(dir, name, c))
      ensures error.None? ==> Bound(fs, dir, name) == Some(c) && SameBindings(old(fs), fs, dir, name, dir, name)
      ensures error.None? ==> c in fs.dirs && c in fs.nlink && fs.nlink[c] == 2 && Step(fs.parent, c) == dir && Empty(fs, c)
    {
      hide Closed, Counted, UniqueNames, Dots, OneName, Forest, Inv, Bound, SameBindings, Slotted, Empty, FreeName, Shaped, Entered;
      InvParts(fs);
      InvShaped(fs);
      InvSlotted(fs, dir);
      if name == Dot {
        return Some(EEXIST);
      }
      if !space {
        return Some(ENOSPC);
      }
      var was := fs;
      NewIsNoDir(fs, c);
      WithDotsSlotted(fs, dir, c);
      RemovedHasRoom(fs, dir, name, c);
      LinksAreCounted(fs, dir);
      fs := WithDots(fs, dir, c);
      error := AddDirent(dir, name, c, space);
      if error.Some? {
        fs := was;
        return;
      }
      ApplyKeepsInvIff(was, Change.Mkdir(dir, name, c));
      MadeBound(was, dir, name, c);
    }

    /** The scan of vinode_unlink_dir. */
    method IsEmpty(d: nat) returns (r: bool)
      requires Slotted(fs) && d in fs.capacity
      ensures r <==> Empty(fs, d)
    {
      var i := 2;
      while i < fs.capacity[d]
        invariant 2 <= i && forall p :: p in fs.entries && p.dir == d && p.slot < i ==> p.slot < 2
      {
        var p := Place(d, i);
        if p in fs.entries {
          return false;
        }
        assert forall q: Place :: q.dir == d && q.slot == i ==> q == p;
        i := i + 1;
      }
      r := true;
    }

    /** rmdirat, under the locks. The directory has the two links that the source asserts. */
    method Rmdir(dir: nat, name: Name) returns (error: Option<Errno>)
      requires Inv(fs) && dir in fs.dirs
      modifies this
      ensures Inv(fs)
      ensures error.Some? ==> fs == old(fs)
      ensures error == if name == Dot then Some(EINVAL) else if name == DotDot then Some(ENOTEMPTY)
                       else match Bound(old(fs), dir, name)
                            case None => Some(ENOENT)
                            case Some(d) => if d !in old(fs).dirs then Some(ENOTDIR) else if !Empty(old(fs), d) then Some(ENOTEMPTY) else None
      ensures error.None? ==> forall p :: Names.Names(old(fs), p, dir, name) ==> Performs(old(fs), fs, Change.Rmdir(p))
      ensures error.None? ==> Bound(fs, dir, name) == None && SameBindings(old(fs), fs, dir, name, dir, name)
    {
      hide Closed, Counted, UniqueNames, Dots, OneName, Forest, Inv, Bound, SameBindings, Slotted, Empty, FreeName, Performs;
      if name == Dot {
        return Some(EINVAL);
      }
      if name == DotDot {
        return Some(ENOTEMPTY);
      }
      InvParts(fs);
      InvShaped(fs);
      InvSlotted(fs, dir);
      var p := Lookup(dir, name);
      LookupBound(fs, p, dir, name);
      if p.None? {
        return Some(ENOENT);
      }
      var d := fs.entries[p.value].inode;
      if d !in fs.dirs {
        return Some(ENOTDIR);
      }
      InvSlotted(fs, d);
      var empty := IsEmpty(d);
      if !empty {
        return Some(ENOTEMPTY);
      }
      PlainIsOrdinary(fs, p.value);
      EmptyHasTwoLinks(fs, p.value);
      assert fs.nlink[d] == 2;
      RemoveKeepsInv(fs, p.value);
      InvParts(WithoutDir(fs, p.value));
      RemovedDirBound(fs, p.value);
      RmdirPerforms(fs, p.value, dir, name);
      fs := WithoutDir(fs, p.value);
      error := None;
    }

    /** vinode_update_parent: finds the ".." of `x` by scanning, and what the source asserts of it holds. */
    method UpdateParent(x: nat, from: nat, to: nat)
      requires Slotted(fs) && x in fs.capacity && HasDots(fs, x) && Step(fs.parent, x) == from && from in fs.nlink
        && to in fs.nlink && from != to
      requires forall p :: Names.Names(fs, p, x, DotDot) ==> p == Place(x, 1)
      modifies this
      ensures fs == Reparented(old(fs), x, from, to)
    {
      hide Slotted, FreeName;
      ScanFinds(fs, x);
      var p := Lookup(x, DotDot);
      assert p == Some(Place(x, 1)) && fs.entries[p.value].inode == from && fs.parent[x] == from;
      fs := FS(fs.entries[p.value := Dirent(DotDot, to)], fs.capacity,
               fs.nlink[from := fs.nlink[from] - 1][to := fs.nlink[to] + 1],
               fs.dirs, fs.roots, fs.parent[x := to]);
    }

    /** The move to another directory inside vinode_rename: add, unlink, and for a directory update the parent. */
    method MoveEntry(p: Place, dir: nat, name: Name, space: bool) returns (error: Option<Errno>)
      requires Inv(fs) && p in fs.entries && p.slot >= 2 && dir in fs.dirs && dir in fs.nlink && p.dir != dir && name.Plain?
      requires fs.entries[p].inode in fs.dirs ==> !IsAncestor(fs.parent, fs.entries[p].inode, dir)
      modifies this
      ensures error == AddError(old(fs), dir, name, space)
      ensures error.Some? ==> fs == old(fs)
      ensures error.None? ==>
        && Inv(fs) && dir in old(fs).capacity && p.dir in Fitted(old(fs), dir).nlink
        && fs == Moved(Fitted(old(fs), dir), p, FirstVacant(old(fs), dir), name)
    {
      hide Closed, Counted, UniqueNames, Dots, OneName, Forest, Inv, Slotted, FreeName, IsAncestor, HasDots, Live, Moved, Room, Shaped;
      InvParts(fs);
      InvShaped(fs);
      InvSlotted(fs, dir);
      EntryFacts(fs, p);
      var x := fs.entries[p].inode;
      error := AddDirent(dir, name, x, space);
      if error.Some? {
        return;
      }
      HasRoom(old(fs), dir, name);
      ghost var fitted, q := Fitted(old(fs), dir), FirstVacant(old(fs), dir);
      InvParts(fitted);
      MoveFacts(fitted, p, q, name);
      fs := Removed(fs, p);
      if x in fs.dirs {
        BeforeReparenting(fitted, fs, p, q, name);
        UpdateParent(x, p.dir, dir);
        ReparentedIsMoved(fitted, p, q, name);
        MoveDirKeepsInv(fitted, p, q, name);
      } else {
        UnlinkedIsMoved(fitted, p, q, name);
        MoveFileKeepsInv(fitted, p, q, name);
      }
    }

    /** The part of vinode_rename that removes what the new name was bound to. */
    method ReplaceTarget(q: Place) returns (ok: bool)
      requires Inv(fs) && Ordinary(fs, q)
      modifies this
      ensures ok <==> Removable(old(fs), q)
      ensures !ok ==> fs == old(fs)
      ensures ok ==> Inv(fs) && q.dir in old(fs).nlink && old(fs).entries[q].inode in old(fs).nlink && fs == Without(old(fs), q)
    {
      hide Closed, Counted, UniqueNames, Dots, OneName, Forest, Inv, Slotted, Empty;
      InvParts(fs);
      EntryFacts(fs, q);
      PlainIsOrdinary(fs, q);
      var d := fs.entries[q].inode;
      if d in fs.dirs {
        InvSlotted(fs, d);
        ok := IsEmpty(d);
        if !ok {
          return;
        }
        EmptyHasTwoLinks(fs, q);
        RemoveKeepsInv(fs, q);
        fs := WithoutDir(fs, q);
      } else {
        RemoveFileKeepsInv(fs, q);
        fs := Removed(fs, q);
      }
      ok := true;
    }

    /** vinode_rename: the type checks, the replaced target, and the move; an abort undoes it all. */
    method RenameEntry(p: Place, q: Option<Place>, dir: nat, name: Name, space: bool) returns (error: Option<Errno>)
      requires Inv(fs) && Shaped(fs) && Ordinary(fs, p) && dir in fs.dirs && name.Plain?
      requires Found(fs, fs.entries[p].inode, q, dir, name)
      requires p.dir != dir && fs.entries[p].inode in fs.dirs ==> !IsAncestor(fs.parent, fs.entries[p].inode, dir)
      modifies this
      ensures Inv(fs)
      ensures error.Some? ==> fs == old(fs)
      ensures dir in old(fs).nlink && error ==
        if q.Some? && old(fs).entries[p].inode in old(fs).dirs && old(fs).entries[q.value].inode !in old(fs).dirs then Some(ENOTDIR)
        else if q.Some? && old(fs).entries[p].inode !in old(fs).dirs && old(fs).entries[q.value].inode in old(fs).dirs then Some(EISDIR)
        else if q.Some? && old(fs).entries[q.value].inode in old(fs).dirs && !Empty(old(fs), old(fs).entries[q.value].inode) then Some(ENOTEMPTY)
        else if TooLong(name) then Some(ENAMETOOLONG)
        else if p.dir != dir && old(fs).nlink[dir] == 0 then Some(ENOENT)
        else if !space then Some(ENOMEM)
        else None
      ensures p.dir == dir ==> (error.None? <==> space && Allowed(old(fs), RenameIn(p, q, name)))
      ensures p.dir != dir ==> (error.None? <==> space && Movable(old(fs), Move(p, q, dir, name)))
      ensures error.None? ==> fs == if p.dir == dir then Apply(old(fs), RenameIn(p, q, name)) else Done(old(fs), Move(p, q, dir, name))
      ensures error.None? ==>
        && Bound(fs, dir, name) == Some(old(fs).entries[p].inode) && Bound(fs, p.dir, old(fs).entries[p].name) == None
        && SameBindings(old(fs), fs, p.dir, old(fs).entries[p].name, dir, name)
    {
      hide Closed, Counted, UniqueNames, Dots, OneName, Forest, Inv, Bound, SameBindings, Slotted, Empty, IsAncestor, FreeName, Shaped,
           Moved, Renamed, WithoutDir, Removed, HalfWay, Fitted;
      InvParts(fs);
      InDirs(fs, dir);
      var was := fs;
      var x := fs.entries[p].inode;
      if q.Some? && x in fs.dirs && fs.entries[q.value].inode !in fs.dirs {
        return Some(ENOTDIR);
      }
      if q.Some? && x !in fs.dirs && fs.entries[q.value].inode in fs.dirs {
        return Some(EISDIR);
      }
      PlainIsOrdinary(fs, p);
      SameStart(fs, p.dir, fs.entries[p].name, dir, name);
      if q.Some? {
        var ok := ReplaceTarget(q.value);
        if !ok {
          return Some(ENOTEMPTY);
        }
        TargetGone(was, p, q.value);
        InvParts(fs);
      }
      assert fs == WithoutTarget(was, q) && HalfWay(was, fs, dir, name);
      HalfWayFree(was, fs, dir, name);
      InvSlotted(fs, dir);
      if p.dir == dir {
        if TooLong(name) {
          fs := was;
          return Some(ENAMETOOLONG);
        }
        if !space {
          fs := was;
          return Some(ENOMEM);
        }
        RenameKeepsInv(fs, p, name);
        InvParts(Renamed(fs, p, name));
        RenamedBound(was, fs, p, name);
        fs := Renamed(fs, p, name);
        error := None;
      } else {
        ghost var before := fs;
        SameLinks(was, fs, q, dir);
        error := MoveEntry(p, dir, name, space);
        if error.Some? {
          fs := was;
          // unlike the other operations, a rename does not turn ENOMEM into ENOSPC
          error := Some(if error.value == ENOSPC then ENOMEM else error.value);
          return;
        }
        InvParts(fs);
        MovedBound(was, before, fs, p, dir, name);
      }
    }

    /** The ".." of a directory that changes places, found by its name, and its parent pointer. */
    method Redirect(x: nat, to: nat)
      requires Slotted(fs) && x in fs.capacity && Names.Names(fs, Place(x, 1), x, DotDot)
      requires forall p :: Names.Names(fs, p, x, DotDot) ==> p == Place(x, 1)
      modifies this
      ensures fs == old(fs).(entries := old(fs).entries[Place(x, 1) := Dirent(DotDot, to)], parent := old(fs).parent[x := to])
    {
      hide Slotted;
      var p := Lookup(x, DotDot);
      assert p == Some(Place(x, 1));
      fs := fs.(entries := fs.entries[p.value := Dirent(DotDot, to)]);
      fs := fs.(parent := fs.parent[x := to]);
    }

    /** vinode_exchange; `failing` is the snapshot for which there is no memory. An abort restores the entries and the
        link counts but not a parent pointer that was already changed: when the second of two directories cannot be
        added to the transaction, the first one keeps its new parent pointer under its old "..". */
    method Exchange(p: Place, q: Place, failing: Option<Snapshot>) returns (error: Option<Errno>)
      requires Inv(fs) && CanExchange(fs, p, q)
      modifies this
      ensures p in old(fs).entries && q in old(fs).entries && p.dir in old(fs).nlink && q.dir in old(fs).nlink
      ensures error == if failing.Some? && Reached(old(fs), p, q, failing.value) then Some(ENOSPC) else None
      ensures error.None? ==> fs == Exchanged(old(fs), p, q)
      ensures error.Some? ==>
        fs == if failing == Some(TargetDots) && old(fs).entries[p].inode in old(fs).dirs then Misparented(old(fs), p, q) else old(fs)
      ensures Inv(fs) <==> !(p.dir != q.dir && old(fs).entries[p].inode in old(fs).dirs && old(fs).entries[q].inode in old(fs).dirs
                             && failing == Some(TargetDots))
    {
      hide Inv, Closed, Exchanged, Misparented, CanExchange;
      InvParts(fs);
      CanExchangeFacts(fs, p, q);
      EntryFacts(fs, p);
      EntryFacts(fs, q);
      ExchangeKeepsInv(fs, p, q);
      MisparentedDiffers(fs, p, q);
      error := ExchangeStores(p, q, failing);
    }

    /** The transaction of vinode_exchange, store by store. */
    method ExchangeStores(p: Place, q: Place, failing: Option<Snapshot>) returns (error: Option<Errno>)
      requires Inv(fs) && CanExchange(fs, p, q) && p.dir in fs.nlink && q.dir in fs.nlink
      modifies this
      ensures error == if failing.Some? && Reached(old(fs), p, q, failing.value) then Some(ENOSPC) else None
      ensures error.None? ==> fs == Exchanged(old(fs), p, q)
      ensures error.Some? ==>
        fs == if failing == Some(TargetDots) && old(fs).entries[p].inode in old(fs).dirs then Misparented(old(fs), p, q) else old(fs)
    {
      hide Inv, Slotted, CanExchange;
      CanExchangeFacts(fs, p, q);
      var was := fs;
      var x, y := fs.entries[p].inode, fs.entries[q].inode;
      if failing == Some(SourceEntry) || failing == Some(TargetEntry) {
        return Some(ENOSPC);
      }
      fs := fs.(entries := fs.entries[p := Dirent(fs.entries[p].name, y)][q := Dirent(fs.entries[q].name, x)]);
      if (x !in fs.dirs && y !in fs.dirs) || p.dir == q.dir {
        return None;
      }
      if (x in fs.dirs) != (y in fs.dirs) {
        var d := if x in fs.dirs then 1 else -1;
        if failing == Some(SourceLinks) {
          fs := was.(parent := fs.parent);
          return Some(ENOSPC);
        }
        fs := fs.(nlink := fs.nlink[p.dir := fs.nlink[p.dir] - d]);
        if failing == Some(TargetLinks) {
          fs := was.(parent := fs.parent);
          return Some(ENOSPC);
        }
        fs := fs.(nlink := fs.nlink[q.dir := fs.nlink[q.dir] + d]);
      }
      if x in fs.dirs {
        if failing == Some(SourceDots) {
          fs := was.(parent := fs.parent);
          return Some(ENOSPC);
        }
        DotsFound(was, fs, p);
        Redirect(x, q.dir);
      }
      if y in fs.dirs {
        if failing == Some(TargetDots) {
          fs := was.(parent := fs.parent);
          return Some(ENOSPC);
        }
        DotsFound(was, fs, q);
        Redirect(y, p.dir);
      }
      error := None;
    }

    /** _pmemfile_renameat2 on two names, under the locks of the directories and of the file system. */
    method Rename(dir: nat, name: Name, dir': nat, name': Name, exchange: bool, noreplace: bool, space: bool, failing: Option<Snapshot>)
      returns (error: Option<Errno>)
      requires Inv(fs) && dir in fs.dirs && dir' in fs.dirs && name.Plain? && name'.Plain? && !(exchange && noreplace)
      modifies this
      ensures !exchange ==> Inv(fs) && (error.Some? ==> fs == old(fs))
      ensures exchange ==> (Inv(fs) <==> !(Torn(old(fs), dir, name, dir', name') && failing == Some(TargetDots)))
      ensures dir' in old(fs).nlink
      ensures var x, y := Bound(old(fs), dir, name), Bound(old(fs), dir', name');
        error ==
        if x.None? || (exchange && y.None?) then Some(ENOENT)
        else if x == y then None
        else if noreplace && y.Some? then Some(EEXIST)
        else if BelowItself(old(fs), dir, name, dir', name', exchange, noreplace) then Some(EINVAL)
        else if exchange then
          var source, target := x.value in old(fs).dirs, y.value in old(fs).dirs;
          var fails := match failing
            case None => false
            case Some(SourceEntry) => true
            case Some(TargetEntry) => true
            case Some(SourceLinks) => dir != dir' && source != target
            case Some(TargetLinks) => dir != dir' && source != target
            case Some(SourceDots) => dir != dir' && source
            case Some(TargetDots) => dir != dir' && target;
          if fails then Some(ENOSPC) else None
        else if y.Some? && x.value in old(fs).dirs && y.value !in old(fs).dirs then Some(ENOTDIR)
        else if y.Some? && x.value !in old(fs).dirs && y.value in old(fs).dirs then Some(EISDIR)
        else if y.Some? && y.value in old(fs).dirs && !Empty(old(fs), y.value) then Some(ENOTEMPTY)
        else if TooLong(name') then Some(ENAMETOOLONG)
        else if dir != dir' && old(fs).nlink[dir'] == 0 then Some(ENOENT)
        else if !space then Some(ENOMEM)
        else None
      ensures error.None? ==> Bound(old(fs), dir, name).Some?
      ensures error.None? && Bound(old(fs), dir, name) == Bound(old(fs), dir', name') ==> fs == old(fs)
      ensures error.None? && Bound(old(fs), dir, name) != Bound(old(fs), dir', name') ==>
        && Bound(fs, dir', name') == Bound(old(fs), dir, name)
        && Bound(fs, dir, name) == (if exchange then Bound(old(fs), dir', name') else None)
        && SameBindings(old(fs), fs, dir, name, dir', name')
      ensures noreplace && error.None? && fs != old(fs) ==> Bound(old(fs), dir', name') == None
    {
      hide Closed, Counted, UniqueNames, Dots, OneName, Forest, Inv, Bound, SameBindings, Slotted, FreeName,
           IsAncestor, CanExchange, Exchanged, Misparented, Shaped, Done, Apply, Allowed, Movable;
      InvParts(fs);
      InvShaped(fs);
      InvSlotted(fs, dir);
      InvSlotted(fs, dir');
      var p := Lookup(dir, name);
      var q := Lookup(dir', name');
      LookupBound(fs, p, dir, name);
      LookupBound(fs, q, dir', name');
      if p.None? {
        return Some(ENOENT);
      }
      if exchange && q.None? {
        return Some(ENOENT);
      }
      var x := fs.entries[p.value].inode;
      if q.Some? && fs.entries[q.value].inode == x {
        return None;
      }
      if q.Some? && noreplace {
        return Some(EEXIST);
      }
      NamedIsNoRoot(fs, p.value);
      if q.Some? {
        NamedIsNoRoot(fs, q.value);
      }
      if dir != dir' {
        if x in fs.dirs {
          var above := DirIsParentOf(x, dir');
          if above {
            return Some(EINVAL);
          }
        }
        if exchange && fs.entries[q.value].inode in fs.dirs {
          var above := DirIsParentOf(fs.entries[q.value].inode, dir);
          if above {
            return Some(EINVAL);
          }
        }
      }
      if exchange {
        Exchangeables(fs, p.value, q.value);
        error := Exchange(p.value, q.value, failing);
        if error.None? {
          UniqueAfter(old(fs), p.value, q.value);
          ExchangedBound(old(fs), p.value, q.value);
        }
      } else {
        error := RenameEntry(p.value, q, dir', name', space);
      }
    }
  }

  /** Exchanging the names would set a parent pointer before the last snapshot. */
  ghost predicate Torn(fs: FS, dir: nat, name: Name, dir': nat, name': Name) {
    match (Bound(fs, dir, name), Bound(fs, dir', name'))
    case (Some(x), Some(y)) =>
      x != y && dir != dir' && x in fs.dirs && y in fs.dirs && !IsAncestor(fs.parent, x, dir') && !IsAncestor(fs.parent, y, dir)
    case _ => false
  }

  /** The rename would put a directory below itself. */
  ghost predicate BelowItself(fs: FS, dir: nat, name: Name, dir': nat, name': Name, exchange: bool, noreplace: bool) {
    match Bound(fs, dir, name)
    case None => false
    case Some(x) =>
      var other := Bound(fs, dir', name');
      && dir != dir' && other != Some(x) && !(noreplace && other.Some?) && !(exchange && other.None?)
      && ((x in fs.dirs && IsAncestor(fs.parent, x, dir')) || (exchange && other.value in fs.dirs && IsAncestor(fs.parent, other.value, dir)))
  }

  /** The ordinary names other than these two are bound as before. */
  ghost predicate SameBindings(fs: FS, r: FS, dir: nat, name: Name, dir': nat, name': Name) {
    forall d: nat, n: Name :: n.Plain? && (d, n) != (dir, name) && (d, n) != (dir', name') ==> Bound(r, d, n) == Bound(fs, d, n)
  }

  lemma InvSlotted(fs: FS, dir: nat)
    requires Closed(fs) && dir in fs.dirs
    ensures Slotted(fs) && dir in fs.capacity && dir in fs.nlink
  {
  }

  lemma FoundEntry(fs: FS, p: Place, dir: nat, name: Name)
    requires Names.Names(fs, p, dir, name)
    ensures p in fs.entries && p.dir == dir && fs.entries[p].name == name
  {
  }

  lemma UnlinkPerforms(fs: FS, p: Place, dir: nat, name: Name)
    requires Shaped(fs) && UniqueNames(fs) && Names.Names(fs, p, dir, name) && fs.entries[p].inode !in fs.dirs && fs.entries[p].inode in fs.nlink
    ensures forall z :: Names.Names(fs, z, dir, name) ==> Performs(fs, Removed(fs, p), Change.Unlink(z))
  {
    hide Shaped;
  }

  lemma RmdirPerforms(fs: FS, p: Place, dir: nat, name: Name)
    requires Shaped(fs) && UniqueNames(fs) && Names.Names(fs, p, dir, name) && name.Plain? && fs.entries[p].inode in fs.dirs
    requires Empty(fs, fs.entries[p].inode) && p.dir in fs.nlink
    ensures forall z :: Names.Names(fs, z, dir, name) ==> Performs(fs, WithoutDir(fs, p), Change.Rmdir(z))
  {
    hide Shaped, Empty;
  }

  // ---------------------------------------------------------------- bindings

  lemma BoundIff(fs: FS, dir: nat, name: Name)
    ensures Bound(fs, dir, name) == None <==> FreeName(fs, dir, name)
    ensures UniqueNames(fs) ==> forall p :: Names.Names(fs, p, dir, name) ==> Bound(fs, dir, name) == Some(fs.entries[p].inode)
  {
    if Bound(fs, dir, name) == None {
      forall p | p in fs.entries && p.dir == dir
        ensures fs.entries[p].name != name
      {
        assert !Names.Names(fs, p, dir, name);
      }
    } else {
      var p :| Names.Names(fs, p, dir, name);
      assert p in fs.entries && p.dir == dir && fs.entries[p].name == name;
    }
  }

  /** Two states in which the same slots of a directory hold a name, for the same inode, bind it alike. */
  lemma SameBound(fs: FS, r: FS, dir: nat, name: Name)
    requires UniqueNames(fs) && UniqueNames(r)
    requires forall p :: Names.Names(r, p, dir, name) <==> Names.Names(fs, p, dir, name)
    requires forall p :: Names.Names(r, p, dir, name) && Names.Names(fs, p, dir, name) ==> r.entries[p].inode == fs.entries[p].inode
    ensures Bound(r, dir, name) == Bound(fs, dir, name)
  {
    BoundIff(fs, dir, name);
    BoundIff(r, dir, name);
    if p :| Names.Names(fs, p, dir, name) {
      assert Names.Names(r, p, dir, name);
    }
  }

  lemma UnboundEntry(fs: FS, p: Place)
    requires Closed(fs) && UniqueNames(fs) && p in fs.entries
    ensures fs.entries[p].inode in fs.nlink
    ensures Bound(Removed(fs, p), p.dir, fs.entries[p].name) == None
    ensures SameBindings(fs, Removed(fs, p), p.dir, fs.entries[p].name, p.dir, fs.entries[p].name)
  {
    hide Bound, Closed;
    EntryFacts(fs, p);
    var r := Removed(fs, p);
    BoundIff(r, p.dir, fs.entries[p].name);
    forall d: nat, n: Name | (d, n) != (p.dir, fs.entries[p].name)
      ensures Bound(r, d, n) == Bound(fs, d, n)
    {
      SameBound(fs, r, d, n);
    }
  }

  // ---------------------------------------------------------------- insertions

  /** In a removed directory even "." is free. */
  lemma DotIsFree(fs: FS, dir: nat)
    requires Inv(fs) && dir in fs.nlink && dir in fs.dirs
    ensures fs.nlink[dir] == 0 <==> FreeName(fs, dir, Dot)
    ensures fs.nlink[dir] >= 0
  {
    hide Counted, UniqueNames, OneName, Forest, Closed, Dots;
    InvParts(fs);
    LinksAreCounted(fs, dir);
    if fs.nlink[dir] == 0 {
      NothingInRemoved(fs, dir);
    } else {
      DotsOfLive(fs, dir);
    }
  }

  lemma SameEntries(fs: FS, r: FS, dir: nat, name: Name)
    requires r.entries == fs.entries && r.capacity == fs.capacity && Slotted(fs)
    ensures Slotted(r) && (FreeName(r, dir, name) <==> FreeName(fs, dir, name))
  {
  }

  lemma EnteredUnique(fs: FS, dir: nat, name: Name, f: nat)
    requires UniqueNames(fs) && dir in fs.capacity && f in fs.nlink && FreeName(fs, dir, name) && FirstVacant(fs, dir) !in fs.entries
    ensures UniqueNames(Entered(fs, dir, name, f))
  {
  }

  lemma EnteredNames(fs: FS, dir: nat, name: Name, f: nat)
    requires UniqueNames(fs) && dir in fs.capacity && f in fs.nlink && FreeName(fs, dir, name) && FirstVacant(fs, dir) !in fs.entries
    ensures var r := Entered(fs, dir, name, f); Bound(r, dir, name) == Some(f) && SameBindings(fs, r, dir, name, dir, name)
  {
    var r, p := Entered(fs, dir, name, f), FirstVacant(fs, dir);
    EnteredUnique(fs, dir, name, f);
    hide Bound, UniqueNames;
    BoundIff(r, dir, name);
    assert Names.Names(r, p, dir, name);
    forall d: nat, n: Name | (d, n) != (dir, name)
      ensures Bound(r, d, n) == Bound(fs, d, n)
    {
      SameBound(fs, r, d, n);
    }
  }

  lemma EnteredBound(fs: FS, dir: nat, name: Name, f: nat)
    requires Shaped(fs) && UniqueNames(fs) && Accepts(fs, dir, name) && dir in fs.capacity && f in fs.nlink
    ensures var r := Entered(fs, dir, name, f);
      Bound(r, dir, name) == Some(f) && SameBindings(fs, r, dir, name, dir, name) && r.nlink[f] == fs.nlink[f] + 1
  {
    hide Bound, UniqueNames, SameBindings, Shaped;
    VacantIsFree(fs, dir);
    EnteredNames(fs, dir, name, f);
  }

  lemma NewEntered(fs: FS, dir: nat, name: Name, f: nat)
    requires Shaped(fs) && UniqueNames(fs) && Accepts(fs, dir, name) && dir in fs.capacity && f !in fs.nlink
    ensures var r := Entered(WithInode(fs, f), dir, name, f);
      Bound(r, dir, name) == Some(f) && SameBindings(fs, r, dir, name, dir, name) && f in r.nlink && r.nlink[f] == 1
  {
    hide Bound, Shaped, SameBindings;
    WithInodeShaped(fs, f);
    StillAccepts(fs, f, dir, name);
    EnteredBound(WithInode(fs, f), dir, name, f);
    hide UniqueNames;
    SameEntriesBound(fs, WithInode(fs, f), Entered(WithInode(fs, f), dir, name, f), dir, name);
  }

  lemma SameEntriesBound(fs: FS, w: FS, r: FS, dir: nat, name: Name)
    requires UniqueNames(fs) && UniqueNames(w) && SameBindings(w, r, dir, name, dir, name)
    requires forall p, d: nat, n: Name {:trigger Names.Names(w, p, d, n)} {:trigger Names.Names(fs, p, d, n)} :: n.Plain? ==>
      (Names.Names(w, p, d, n) <==> Names.Names(fs, p, d, n))
    requires forall p :: p in fs.entries && p in w.entries ==> w.entries[p] == fs.entries[p]
    ensures SameBindings(fs, r, dir, name, dir, name)
  {
    hide Bound, UniqueNames;
    forall d: nat, n: Name | n.Plain?
      ensures Bound(w, d, n) == Bound(fs, d, n)
    {
      SameBound(fs, w, d, n);
    }
  }

  // ---------------------------------------------------------------- directories

  lemma WithDotsSlotted(fs: FS, dir: nat, c: nat)
    requires Slotted(fs) && dir in fs.nlink && dir in fs.capacity && c != dir
    requires forall p :: p in fs.entries ==> p.dir != c
    ensures Slotted(WithDots(fs, dir, c)) && dir in WithDots(fs, dir, c).capacity
  {
  }

  lemma RemovedHasRoom(fs: FS, dir: nat, name: Name, c: nat)
    requires Closed(fs) && Dots(fs) && dir in fs.nlink && c != dir
    ensures fs.nlink[dir] == 0 ==> FreeName(WithDots(fs, dir, c), dir, name)
    ensures WithDots(fs, dir, c).nlink[dir] == fs.nlink[dir] + 1
  {
    if fs.nlink[dir] == 0 {
      NothingInRemoved(fs, dir);
    }
  }

  /** The first two slots of a directory hold its dots. */
  lemma DotSlot(fs: FS, q: Place)
    requires Closed(fs) && Dots(fs) && q in fs.entries && q.slot < 2
    ensures !fs.entries[q].name.Plain?
  {
    LiveHolder(fs, q);
    DotsOfLive(fs, q.dir);
    assert q == Place(q.dir, q.slot);
  }

  lemma WithDotsNames(fs: FS, dir: nat, c: nat)
    requires UniqueNames(fs) && dir in fs.nlink && forall p :: p in fs.entries ==> p.dir != c
    ensures UniqueNames(WithDots(fs, dir, c))
    ensures forall p, d: nat, n: Name {:trigger Names.Names(WithDots(fs, dir, c), p, d, n)} {:trigger Names.Names(fs, p, d, n)} :: n.Plain? ==>
      (Names.Names(WithDots(fs, dir, c), p, d, n) <==> Names.Names(fs, p, d, n))
  {
  }

  lemma MadeEmpty(fs: FS, dir: nat, name: Name, c: nat)
    requires Shaped(fs) && Allowed(fs, Change.Mkdir(dir, name, c)) && dir in fs.capacity
    ensures var r := Entered(WithDots(fs, dir, c), dir, name, c);
      c in r.dirs && c in r.nlink && r.nlink[c] == 2 && Step(r.parent, c) == dir && Empty(r, c)
  {
    NewIsNoDir(fs, c);
    hide Shaped;
  }

  lemma MadeBound(fs: FS, dir: nat, name: Name, c: nat)
    requires Shaped(fs) && UniqueNames(fs) && Allowed(fs, Change.Mkdir(dir, name, c)) && dir in fs.capacity
    ensures var r := Entered(WithDots(fs, dir, c), dir, name, c);
      && Bound(r, dir, name) == Some(c) && SameBindings(fs, r, dir, name, dir, name)
      && c in r.dirs && c in r.nlink && r.nlink[c] == 2 && Step(r.parent, c) == dir && Empty(r, c)
  {
    NewIsNoDir(fs, c);
    hide Bound, SameBindings, Shaped, UniqueNames;
    var w := WithDots(fs, dir, c);
    WithDotsShaped(fs, dir, c);
    WithDotsDirs(fs, dir, c);
    WithDotsNames(fs, dir, c);
    EnteredBound(w, dir, name, c);
    SameEntriesBound(fs, w, Entered(w, dir, name, c), dir, name);
    MadeEmpty(fs, dir, name, c);
  }

  lemma RemovedDirBound(fs: FS, p: Place)
    requires Closed(fs) && UniqueNames(fs) && p in fs.entries && p.dir in fs.nlink && UniqueNames(WithoutDir(fs, p)) && Dots(fs)
    requires p.slot >= 2
    ensures Bound(WithoutDir(fs, p), p.dir, fs.entries[p].name) == None
    ensures SameBindings(fs, WithoutDir(fs, p), p.dir, fs.entries[p].name, p.dir, fs.entries[p].name)
  {
    hide Bound;
    var r, d := WithoutDir(fs, p), fs.entries[p].inode;
    forall q | q in fs.entries && q.slot < 2
      ensures !fs.entries[q].name.Plain?
    {
      DotSlot(fs, q);
    }
    BoundIff(r, p.dir, fs.entries[p].name);
    forall e: nat, n: Name | n.Plain? && (e, n) != (p.dir, fs.entries[p].name)
      ensures Bound(r, e, n) == Bound(fs, e, n)
    {
      SameBound(fs, r, e, n);
    }
  }

  // ---------------------------------------------------------------- renaming

  function Reparented(fs: FS, x: nat, from: nat, to: nat): FS
    requires from in fs.nlink && to in fs.nlink
  {
    FS(fs.entries[Place(x, 1) := Dirent(DotDot, to)], fs.capacity,
       fs.nlink[from := fs.nlink[from] - 1][to := fs.nlink[to] + 1],
       fs.dirs, fs.roots, fs.parent[x := to])
  }

  lemma ScanFinds(fs: FS, x: nat)
    requires HasDots(fs, x)
    ensures !FreeName(fs, x, DotDot)
  {
  }

  /** `r` is `fs` with the entry `p` moved to `q`, in a directory that may have got more slots. */
  ghost predicate MovedTo(fs: FS, r: FS, p: Place, q: Place, name: Name) {
    && p in fs.entries && p.dir in fs.nlink && q.dir in fs.nlink && q.dir in r.capacity && q !in fs.entries
    && r == Moved(Grown(fs, q.dir, r.capacity[q.dir]), p, q, name)
  }

  lemma UnlinkedIsMoved(fs: FS, p: Place, q: Place, name: Name)
    requires Closed(fs) && p in fs.entries && q !in fs.entries && p.dir in fs.nlink && q.dir in fs.nlink
      && fs.entries[p].inode in fs.nlink
    requires fs.entries[p].inode !in fs.dirs
    ensures Removed(Added(fs, q, name, fs.entries[p].inode), p) == Moved(fs, p, q, name)
  {
    hide Closed;
    var x := fs.entries[p].inode;
    assert fs.nlink[x := fs.nlink[x] + 1][x := fs.nlink[x]] == fs.nlink;
  }

  lemma ReparentedIsMoved(fs: FS, p: Place, q: Place, name: Name)
    requires p in fs.entries && q !in fs.entries && p.dir in fs.nlink && q.dir in fs.nlink && fs.entries[p].inode in fs.nlink
    requires fs.entries[p].inode in fs.dirs
    ensures Reparented(Removed(Added(fs, q, name, fs.entries[p].inode), p), fs.entries[p].inode, p.dir, q.dir) == Moved(fs, p, q, name)
  {
    var x := fs.entries[p].inode;
    assert fs.nlink[x := fs.nlink[x] + 1][x := fs.nlink[x]] == fs.nlink;
  }

  lemma BeforeReparenting(fs: FS, r: FS, p: Place, q: Place, name: Name)
    requires Inv(fs) && CanMove(fs, p, q, name) && fs.entries[p].inode in fs.dirs && fs.entries[p].inode in fs.nlink
    requires r == Removed(Added(fs, q, name, fs.entries[p].inode), p)
    ensures var x := fs.entries[p].inode;
      && Slotted(r) && x in r.capacity && HasDots(r, x) && Step(r.parent, x) == p.dir && p.dir in r.nlink && q.dir in r.nlink
      && forall z :: Names.Names(r, z, x, DotDot) ==> z == Place(x, 1)
  {
    hide Counted, Forest, OneName;
    var x := fs.entries[p].inode;
    InvParts(fs);
    DirMoveFacts(fs, p, q, name);
    MovableIsSafe(fs, p, q, name, x);
    forall z | Names.Names(r, z, x, DotDot)
      ensures z == Place(x, 1)
    {
      assert z in fs.entries && fs.entries[z] == r.entries[z];
      assert fs.entries[Place(x, 1)].name == DotDot;
    }
  }

  lemma MovableIsSafe(fs: FS, p: Place, q: Place, name: Name, x: nat)
    requires DirMovable(fs, p, q, name, x)
    ensures HasDots(fs, x) && p != q && p.slot >= 2 && q.slot >= 2 && x != q.dir && p.dir == Step(fs.parent, x)
    ensures p.dir in fs.nlink && q.dir in fs.nlink && q.dir in fs.capacity && q.slot < fs.capacity[q.dir] && q !in fs.entries
  {
  }

  /** The bindings a rename has to arrive at, with the new name still free. */
  ghost predicate HalfWay(fs: FS, r: FS, dir: nat, name: Name) {
    FreeName(r, dir, name) && SameBindings(fs, r, dir, name, dir, name)
  }

  lemma SameStart(fs: FS, dir: nat, name: Name, dir': nat, name': Name)
    ensures SameBindings(fs, fs, dir, name, dir', name')
    ensures FreeName(fs, dir', name') ==> HalfWay(fs, fs, dir', name')
  {
  }

  /** Removing the target of a rename leaves its directory in use. */
  lemma SameLinks(fs: FS, r: FS, q: Option<Place>, dir: nat)
    requires Inv(fs) && Inv(r) && Shaped(fs) && dir in fs.dirs
    requires q.None? ==> r == fs
    requires q.Some? ==> Ordinary(fs, q.value) && Removable(fs, q.value) && q.value.dir == dir && dir in fs.nlink
    requires q.Some? ==> fs.entries[q.value].inode in fs.nlink && r == Without(fs, q.value)
    ensures dir in fs.nlink && dir in r.nlink && (fs.nlink[dir] == 0 <==> r.nlink[dir] == 0)
  {
    hide Counted, UniqueNames, OneName, Forest, Closed, Dots, Shaped;
    InvParts(fs);
    InvParts(r);
    InDirs(fs, dir);
    if q.Some? {
      LiveHolder(fs, q.value);
      DotsOfLive(fs, dir);
      PlainIsOrdinary(fs, q.value);
      TargetElsewhere(fs, q.value);
      assert Place(dir, 0) in r.entries;
      LiveHolder(r, Place(dir, 0));
    }
  }

  /** A directory is not an entry of itself. */
  lemma TargetElsewhere(fs: FS, q: Place)
    requires q in fs.entries && q.slot >= 2
    ensures fs.entries[q].inode in fs.dirs && Empty(fs, fs.entries[q].inode) ==> fs.entries[q].inode != q.dir
  {
  }

  lemma HalfWayFree(fs: FS, r: FS, dir: nat, name: Name)
    requires HalfWay(fs, r, dir, name)
    ensures FreeName(r, dir, name)
  {
  }

  lemma TargetGone(fs: FS, p: Place, q: Place)
    requires Inv(fs) && Shaped(fs) && Ordinary(fs, p) && Ordinary(fs, q) && p != q && Removable(fs, q)
    requires q.dir in fs.nlink && fs.entries[q].inode in fs.nlink
    ensures var r := Without(fs, q);
      && p in r.entries && r.entries[p] == fs.entries[p] && r.dirs == fs.dirs && r.parent == fs.parent
      && HalfWay(fs, r, q.dir, fs.entries[q].name)
  {
    hide Bound, SameBindings, Shaped, Empty, Counted, Closed, UniqueNames, Dots, OneName, Forest;
    WithoutKeeps(fs, q, p);
    InvParts(fs);
    PlainIsOrdinary(fs, q);
    FreedName(fs, q);
    if fs.entries[q].inode in fs.dirs {
      RemoveKeepsInv(fs, q);
      InvParts(WithoutDir(fs, q));
      RemovedDirBound(fs, q);
    } else {
      UnboundEntry(fs, q);
    }
  }

  lemma RenamedBound(was: FS, fs: FS, p: Place, name: Name)
    requires HalfWay(was, fs, p.dir, name) && p in fs.entries && UniqueNames(fs) && UniqueNames(Renamed(fs, p, name))
    ensures var r := Renamed(fs, p, name);
      && Bound(r, p.dir, name) == Some(fs.entries[p].inode) && Bound(r, p.dir, fs.entries[p].name) == None
      && SameBindings(was, r, p.dir, fs.entries[p].name, p.dir, name)
  {
    hide Bound;
    var r := Renamed(fs, p, name);
    BoundIff(r, p.dir, name);
    BoundIff(r, p.dir, fs.entries[p].name);
    assert Names.Names(r, p, p.dir, name);
    forall z | z in r.entries && z.dir == p.dir
      ensures r.entries[z].name != fs.entries[p].name
    {
      if z != p {
        assert fs.entries[z].name != fs.entries[p].name;
      }
    }
    forall d: nat, n: Name | n.Plain? && (d, n) != (p.dir, name) && (d, n) != (p.dir, fs.entries[p].name)
      ensures Bound(r, d, n) == Bound(was, d, n)
    {
      SameBound(fs, r, d, n);
    }
  }

  lemma MovedBound(was: FS, fs: FS, r: FS, p: Place, dir: nat, name: Name)
    requires Inv(fs) && UniqueNames(r) && dir in fs.dirs && dir in fs.nlink && dir in fs.capacity && HalfWay(was, fs, dir, name)
    requires Ordinary(fs, p) && p.slot >= 2 && p.dir != dir && p.dir in Fitted(fs, dir).nlink && name.Plain? && fs.nlink[dir] != 0
    requires r == Moved(Fitted(fs, dir), p, FirstVacant(fs, dir), name) && !TooLong(name)
    ensures Bound(r, dir, name) == Some(fs.entries[p].inode) && Bound(r, p.dir, fs.entries[p].name) == None
    ensures SameBindings(was, r, p.dir, fs.entries[p].name, dir, name)
  {
    hide Inv, Bound, SameBindings, UniqueNames, Moved, FreeName, HalfWay, Counted, Closed, Dots, OneName, Forest, Room;
    InvParts(fs);
    InvShaped(fs);
    HalfWayFree(was, fs, dir, name);
    VacantIsFree(fs, dir);
    HasRoom(fs, dir, name);
    InvParts(Fitted(fs, dir));
    RoomIsPastDots(Fitted(fs, dir), FirstVacant(fs, dir), name);
    FittedMove(fs, r, p, dir, name);
    MovedNames(was, fs, r, p, FirstVacant(fs, dir), name);
  }

  lemma FittedMove(fs: FS, r: FS, p: Place, dir: nat, name: Name)
    requires p in fs.entries && dir in fs.nlink && dir in fs.capacity && p.dir in fs.nlink && FirstVacant(fs, dir) !in fs.entries
    requires r == Moved(Fitted(fs, dir), p, FirstVacant(fs, dir), name) && dir in Fitted(fs, dir).capacity
    requires Fitted(fs, dir) == Grown(fs, dir, Fitted(fs, dir).capacity[dir])
    ensures MovedTo(fs, r, p, FirstVacant(fs, dir), name)
  {
  }

  lemma MovedNames(was: FS, fs: FS, r: FS, p: Place, q: Place, name: Name)
    requires HalfWay(was, fs, q.dir, name) && UniqueNames(fs) && UniqueNames(r) && MovedTo(fs, r, p, q, name)
      && p.dir != q.dir && p.slot >= 2 && q.slot >= 2
    requires Closed(fs) && Dots(fs) && name.Plain? && fs.entries[p].name.Plain?
    ensures Bound(r, q.dir, name) == Some(fs.entries[p].inode) && Bound(r, p.dir, fs.entries[p].name) == None
    ensures SameBindings(was, r, p.dir, fs.entries[p].name, q.dir, name)
  {
    hide Bound;
    MovedEntries(fs, r, p, q, name);
    hide MovedTo;
    BoundIff(r, q.dir, name);
    BoundIff(r, p.dir, fs.entries[p].name);
    assert Names.Names(r, q, q.dir, name) && Names.Names(fs, p, p.dir, fs.entries[p].name);
    forall z | z in r.entries && z.dir == p.dir
      ensures r.entries[z].name != fs.entries[p].name
    {
      assert Names.Names(r, z, p.dir, fs.entries[p].name) <==> r.entries[z].name == fs.entries[p].name;
    }
    forall d: nat, n: Name | n.Plain? && (d, n) != (q.dir, name) && (d, n) != (p.dir, fs.entries[p].name)
      ensures Bound(r, d, n) == Bound(was, d, n)
    {
      SameBound(fs, r, d, n);
    }
  }

  /** Where the ordinary names are after a move. */
  lemma MovedEntries(fs: FS, r: FS, p: Place, q: Place, name: Name)
    requires Closed(fs) && Dots(fs) && MovedTo(fs, r, p, q, name) && p.dir != q.dir && p.slot >= 2 && q.slot >= 2
    requires name.Plain? && fs.entries[p].name.Plain?
    ensures q in r.entries && r.entries[q] == Dirent(name, fs.entries[p].inode)
    ensures forall z, d: nat, n: Name {:trigger Names.Names(r, z, d, n)} {:trigger Names.Names(fs, z, d, n)} :: n.Plain? ==>
      (Names.Names(r, z, d, n) <==> (z == q && (d, n) == (q.dir, name)) || (z != p && Names.Names(fs, z, d, n)))
    ensures forall z :: z in r.entries && z != q && z in fs.entries && fs.entries[z].name.Plain? ==> r.entries[z] == fs.entries[z]
  {
    var dots := Place(fs.entries[p].inode, 1);
    if dots in fs.entries {
      DotSlot(fs, dots);
    }
  }

  // ---------------------------------------------------------------- exchanging

  /** Where the scan for the ".." of an exchanged directory arrives. */
  lemma DotsFound(was: FS, fs: FS, p: Place)
    requires Inv(was) && p in was.entries && p.slot >= 2 && was.entries[p].inode in was.dirs && fs.capacity == was.capacity
    requires forall z :: z in fs.entries <==> z in was.entries
    requires forall z :: z in fs.entries && z in was.entries ==> fs.entries[z].name == was.entries[z].name
    ensures var x := was.entries[p].inode;
      && Slotted(fs) && x in fs.capacity && Names.Names(fs, Place(x, 1), x, DotDot)
      && forall z :: Names.Names(fs, z, x, DotDot) ==> z == Place(x, 1)
  {
    hide Counted, OneName, Forest, Dots;
    ExchangeFacts(was, p);
    var x := was.entries[p].inode;
    forall z | Names.Names(fs, z, x, DotDot)
      ensures z == Place(x, 1)
    {
      assert was.entries[z].name == DotDot && was.entries[Place(x, 1)].name == DotDot;
    }
  }

  lemma UniqueAfter(fs: FS, p: Place, q: Place)
    requires Inv(fs) && CanExchange(fs, p, q) && p in fs.entries && q in fs.entries && p.dir in fs.nlink && q.dir in fs.nlink
    ensures UniqueNames(Exchanged(fs, p, q))
  {
    hide Inv, CanExchange, Exchanged, UniqueNames;
    ExchangeKeepsInv(fs, p, q);
    InvParts(Exchanged(fs, p, q));
  }

  lemma MisparentedDiffers(fs: FS, p: Place, q: Place)
    requires Inv(fs) && p in fs.entries && q in fs.entries && p.slot >= 2 && q.slot >= 2
    ensures fs.entries[p].inode in fs.dirs && p.dir != q.dir ==> !Inv(Misparented(fs, p, q))
    ensures Misparented(fs, p, q).dirs == fs.dirs
  {
    hide Closed, Counted, UniqueNames, Dots, OneName, Forest;
    ExchangeFacts(fs, p);
    var x, r := fs.entries[p].inode, Misparented(fs, p, q);
    if x in fs.dirs && Inv(r) {
      InvParts(r);
      DotsOfLive(r, x);
    }
  }

  lemma LookupBound(fs: FS, p: Option<Place>, dir: nat, name: Name)
    requires UniqueNames(fs)
    requires p.Some? ==> Names.Names(fs, p.value, dir, name)
    requires p.None? ==> FreeName(fs, dir, name)
    ensures Bound(fs, dir, name) == if p.Some? then Some(fs.entries[p.value].inode) else None
  {
    BoundIff(fs, dir, name);
  }

  lemma NamedIsNoRoot(fs: FS, p: Place)
    requires Closed(fs) && Dots(fs) && OneName(fs) && p in fs.entries && fs.entries[p].name.Plain?
    ensures p.slot >= 2 && (fs.entries[p].inode in fs.dirs ==> fs.entries[p].inode !in fs.roots)
  {
    PlainIsOrdinary(fs, p);
  }

  lemma Exchangeables(fs: FS, p: Place, q: Place)
    requires p in fs.entries && q in fs.entries && p.slot >= 2 && q.slot >= 2 && fs.entries[p].inode != fs.entries[q].inode
    requires p.dir != q.dir && fs.entries[p].inode in fs.dirs ==> !IsAncestor(fs.parent, fs.entries[p].inode, q.dir)
    requires p.dir != q.dir && fs.entries[q].inode in fs.dirs ==> !IsAncestor(fs.parent, fs.entries[q].inode, p.dir)
    ensures CanExchange(fs, p, q)
  {
  }

  lemma ExchangedBound(fs: FS, p: Place, q: Place)
    requires Inv(fs) && p in fs.entries && q in fs.entries && p.dir in fs.nlink && q.dir in fs.nlink
      && UniqueNames(Exchanged(fs, p, q))
    requires fs.entries[p].name.Plain? && fs.entries[q].name.Plain? && fs.entries[p].inode != fs.entries[q].inode
    ensures var r := Exchanged(fs, p, q);
      && Bound(r, p.dir, fs.entries[p].name) == Some(fs.entries[q].inode) && Bound(r, q.dir, fs.entries[q].name) == Some(fs.entries[p].inode)
      && SameBindings(fs, r, p.dir, fs.entries[p].name, q.dir, fs.entries[q].name)
  {
    hide Bound, Closed, Counted, Dots, OneName, Forest, UniqueNames, Exchanged, HasDots, Live;
    var x, y := fs.entries[p].inode, fs.entries[q].inode;
    var r := Exchanged(fs, p, q);
    InvParts(fs);
    PlainIsOrdinary(fs, p);
    PlainIsOrdinary(fs, q);
    ExchangeFacts(fs, p);
    ExchangeFacts(fs, q);
    ExchangedIs(fs, p, q, x, y);
    assert Names.Names(r, p, p.dir, fs.entries[p].name) && Names.Names(r, q, q.dir, fs.entries[q].name);
    BoundIff(r, p.dir, fs.entries[p].name);
    BoundIff(r, q.dir, fs.entries[q].name);
    forall d: nat, n: Name | n.Plain? && (d, n) != (p.dir, fs.entries[p].name) && (d, n) != (q.dir, fs.entries[q].name)
      ensures Bound(r, d, n) == Bound(fs, d, n)
    {
      ExchangedNamesSame(fs, r, p, q, x, y, d, n);
      SameBound(fs, r, d, n);
    }
  }

  lemma ExchangedNamesSame(fs: FS, r: FS, p: Place, q: Place, x: nat, y: nat, d: nat, n: Name)
    requires p in fs.entries && q in fs.entries && IsExchange(fs, r, p, q, x, y) && n.Plain?
    requires (d, n) != (p.dir, fs.entries[p].name) && (d, n) != (q.dir, fs.entries[q].name)
    requires x in fs.dirs ==> HasDots(fs, x)
    requires y in fs.dirs ==> HasDots(fs, y)
    ensures forall z :: Names.Names(r, z, d, n) <==> Names.Names(fs, z, d, n)
    ensures forall z :: Names.Names(r, z, d, n) && Names.Names(fs, z, d, n) ==> r.entries[z].inode == fs.entries[z].inode
  {
  }
}
