/** Directories, link counts and parents (dir.c, mkdir.c, link.c, unlink.c, rmdir.c, rename.c). */
module Names {
  import opened Layout

  /** A directory entry's place: the directory and the index of the slot in its chain of arrays. */
  datatype Place = Place(dir: nat, slot: nat)

  /** One component of a path. */
  datatype Name = Dot | DotDot | Plain(text: string)

  datatype Dirent = Dirent(name: Name, inode: nat)

  /** `entries` has the used slots, `capacity` how many slots each directory has. `nlink` has all inodes.
      `parent` is the volatile parent of every directory, removed ones included. */
  datatype FS = FS(entries: map<Place, Dirent>, capacity: map<nat, nat>, nlink: map<nat, int>,
                   dirs: set<nat>, roots: set<nat>, parent: map<nat, nat>)

  const MAX_FILE_NAME: nat := 255
  /** Entries in the inode, and in a chained block: (4096 - 24) / 272. */
  const INODE_DIRENTS: nat := 2
  const CHAINED_DIRENTS: nat := 14

  // ---------------------------------------------------------------- link counts

  /** The entries that name an inode. */
  ghost function Naming(entries: map<Place, Dirent>, x: nat): set<Place> {
    set p | p in entries && entries[p].inode == x
  }

  ghost predicate Counted(fs: FS) {
    forall x {:trigger Naming(fs.entries, x)} :: x in fs.nlink ==> fs.nlink[x] == |Naming(fs.entries, x)|
  }

  lemma NamingPut(entries: map<Place, Dirent>, p: Place, d: Dirent, x: nat)
    ensures |Naming(entries[p := d], x)| ==
      |Naming(entries, x)| + (if d.inode == x then 1 else 0) - (if p in entries && entries[p].inode == x then 1 else 0)
  {
    var before, after := Naming(entries, x), Naming(entries[p := d], x);
    if d.inode == x {
      assert after == before + {p};
    } else {
      assert after == before - {p};
    }
  }

  lemma NamingRemove(entries: map<Place, Dirent>, p: Place, x: nat)
    requires p in entries
    ensures |Naming(entries - {p}, x)| == |Naming(entries, x)| - if entries[p].inode == x then 1 else 0
  {
    assert Naming(entries - {p}, x) == Naming(entries, x) - {p};
  }

  // ---------------------------------------------------------------- parents

  ghost function Step(parent: map<nat, nat>, x: nat): nat {
    if x in parent then parent[x] else x
  }

  /** The ancestor `n` levels up. */
  ghost function Up(parent: map<nat, nat>, x: nat, n: nat): nat
    decreases n
  {
    if n == 0 then x else Up(parent, Step(parent, x), n - 1)
  }

  ghost predicate Grounded(parent: map<nat, nat>, roots: set<nat>, x: nat) {
    exists n: nat :: Up(parent, x, n) in roots
  }

  ghost predicate IsAncestor(parent: map<nat, nat>, a: nat, x: nat) {
    exists n: nat :: Up(parent, x, n) == a
  }

  /** Every directory has a root above it. */
  ghost predicate Forest(fs: FS) {
    forall d {:trigger Grounded(fs.parent, fs.roots, d)} :: d in fs.dirs ==> Grounded(fs.parent, fs.roots, d)
  }

  // ---------------------------------------------------------------- the invariant

  ghost predicate Closed(fs: FS) {
    && (forall d {:trigger d in fs.dirs} :: d in fs.dirs ==> d in fs.nlink && d in fs.parent && d in fs.capacity)
    && (forall d {:trigger d in fs.parent} :: d in fs.parent ==> d in fs.dirs)
    && (forall d {:trigger Step(fs.parent, d)} :: d in fs.parent ==> Step(fs.parent, d) in fs.dirs)
    && (forall r {:trigger r in fs.roots} :: r in fs.roots ==> r in fs.dirs && Step(fs.parent, r) == r && fs.nlink[r] > 0)
    && (forall p {:trigger p in fs.entries} :: p in fs.entries ==>
          p.dir in fs.dirs && p.slot < fs.capacity[p.dir] && fs.entries[p].inode in fs.nlink)
  }

  /** A directory in use. */
  ghost predicate Live(fs: FS, d: nat) {
    d in fs.dirs && d in fs.nlink && fs.nlink[d] > 0
  }

  ghost predicate UniqueNames(fs: FS) {
    forall p, q {:trigger fs.entries[p], fs.entries[q]} :: p in fs.entries && q in fs.entries && p.dir == q.dir && fs.entries[p].name == fs.entries[q].name ==> p == q
  }

  ghost predicate HasDots(fs: FS, d: nat) {
    && d in fs.parent
    && Place(d, 0) in fs.entries && fs.entries[Place(d, 0)] == Dirent(Dot, d)
    && Place(d, 1) in fs.entries && fs.entries[Place(d, 1)] == Dirent(DotDot, Step(fs.parent, d))
  }

  /** A directory in use starts with "." and "..", the latter naming its parent; a removed one has no entries. */
  ghost predicate Dots(fs: FS)
    requires Closed(fs)
  {
    && (forall d {:trigger HasDots(fs, d)} :: Live(fs, d) ==> HasDots(fs, d))
    && (forall p {:trigger fs.entries[p]} :: p in fs.entries ==> Live(fs, p.dir))
    && (forall p :: p in fs.entries && p.slot >= 2 ==> fs.entries[p].name.Plain?)
  }

  /** An ordinary entry of a directory is in the directory's parent, and it is the only one. */
  ghost predicate OneName(fs: FS)
    requires Closed(fs)
  {
    && (forall p :: p in fs.entries && p.slot >= 2 && fs.entries[p].inode in fs.dirs ==>
          p.dir == Step(fs.parent, fs.entries[p].inode) && fs.entries[p].inode !in fs.roots)
    && (forall d, p, q {:trigger IsNameOf(fs, p, d), IsNameOf(fs, q, d)} :: d in fs.dirs && IsNameOf(fs, p, d) && IsNameOf(fs, q, d) ==> p == q)
    && (forall d {:trigger HasName(fs, d)} :: Live(fs, d) && d !in fs.roots ==> HasName(fs, d))
  }

  ghost predicate IsNameOf(fs: FS, p: Place, d: nat) {
    p in fs.entries && p.slot >= 2 && fs.entries[p].inode == d
  }

  ghost predicate HasName(fs: FS, d: nat) {
    exists p :: IsNameOf(fs, p, d)
  }

  ghost predicate Inv(fs: FS) {
    Closed(fs) && Counted(fs) && UniqueNames(fs) && Dots(fs) && OneName(fs) && Forest(fs)
  }

  // ---------------------------------------------------------------- the forest

  lemma {:induction false} UpStep(parent: map<nat, nat>, x: nat, n: nat)
    ensures Up(parent, x, n + 1) == Up(parent, Step(parent, x), n)
  {
  }

  lemma {:induction false} UpNext(parent: map<nat, nat>, x: nat, n: nat)
    requires x in parent && ClosedUp(parent)
    ensures Up(parent, x, n) in parent && Up(parent, x, n + 1) == Step(parent, Up(parent, x, n))
    decreases n
  {
    if n > 0 {
      UpNext(parent, Step(parent, x), n - 1);
    }
  }

  /** Above a node whose ancestors keep their parents nothing changes. */
  lemma {:induction false} UpSame(parent: map<nat, nat>, parent': map<nat, nat>, moved: set<nat>, x: nat, n: nat)
    requires forall d :: d in parent && d !in moved ==> d in parent' && Step(parent', d) == Step(parent, d)
    requires ClosedUp(parent) && x in parent
    requires forall m: nat :: Up(parent, x, m) !in moved
    ensures Up(parent', x, n) == Up(parent, x, n)
    decreases n
  {
    assert Up(parent, x, 0) == x;
    if n > 0 {
      forall m: nat
        ensures Up(parent, Step(parent, x), m) !in moved
      {
        UpStep(parent, x, m);
      }
      UpSame(parent, parent', moved, Step(parent, x), n - 1);
    }
  }

  ghost predicate ClosedUp(parent: map<nat, nat>) {
    forall d {:trigger Step(parent, d)} :: d in parent ==> Step(parent, d) in parent
  }

  /** A grounded directory below none of the moved nodes. */
  ghost predicate Target(parent: map<nat, nat>, roots: set<nat>, t: nat, moved: set<nat>) {
    t in parent && Grounded(parent, roots, t) && forall m: nat :: Up(parent, t, m) !in moved
  }

  /** Moving nodes under places that are below none of them leaves every node grounded. */
  lemma {:induction false} StaysGrounded(parent: map<nat, nat>, parent': map<nat, nat>, roots: set<nat>, moved: set<nat>, x: nat, n: nat)
    requires ClosedUp(parent) && x in parent && Up(parent, x, n) in roots
    requires forall d :: d in parent && d !in moved ==> d in parent' && Step(parent', d) == Step(parent, d)
    requires forall d :: d in moved ==> d in parent && d in parent' && Target(parent, roots, Step(parent', d), moved)
    ensures Grounded(parent', roots, x)
    decreases n
  {
    if x in roots {
      assert Up(parent', x, 0) in roots;
    } else if x in moved {
      var t := Step(parent', x);
      var m: nat :| Up(parent, t, m) in roots;
      UpSame(parent, parent', moved, t, m);
      assert Up(parent', x, m + 1) == Up(parent', t, m);
    } else {
      assert n > 0;
      StaysGrounded(parent, parent', roots, moved, Step(parent, x), n - 1);
      var m: nat :| Up(parent', Step(parent, x), m) in roots;
      assert Up(parent', x, m + 1) == Up(parent', Step(parent, x), m);
    }
  }

  // ---------------------------------------------------------------- what a path component means

  ghost predicate Names(fs: FS, p: Place, dir: nat, name: Name) {
    p in fs.entries && p.dir == dir && fs.entries[p].name == name
  }

  /** The inode a name is bound to in a directory. */
  ghost function Bound(fs: FS, dir: nat, name: Name): Option<nat> {
    if p :| Names(fs, p, dir, name) then Some(fs.entries[p].inode) else None
  }
}
