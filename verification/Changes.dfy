/** The namespace operations that run without the file system's lock, as changes of the state: what the code checks
    before each of them and what it then does, in whatever state it finds. */
module Changes {
  import opened Layout
  import opened Names
  import opened NameOps
  import opened DirOps
  import opened MoveOps

  predicate TooLong(name: Name) {
    name.Plain? && |name.text| > MAX_FILE_NAME
  }

  /** An entry under an ordinary name. */
  predicate Ordinary(fs: FS, p: Place) {
    p in fs.entries && fs.entries[p].name.Plain?
  }

  // ---------------------------------------------------------------- what no operation can break

  /** Parent pointers lead from directory to directory, and a root's to itself. */
  ghost predicate Connected(dirs: set<nat>, roots: set<nat>, parent: map<nat, nat>) {
    && (forall d {:trigger d in parent} :: d in parent <==> d in dirs)
    && (forall d {:trigger Step(parent, d)} :: d in dirs ==> Step(parent, d) in dirs)
    && (forall r {:trigger r in roots} :: r in roots ==> r in dirs && Step(parent, r) == r)
  }

  /** Pointers lead to inodes that exist. */
  ghost predicate Pointed(fs: FS) {
    && Connected(fs.dirs, fs.roots, fs.parent)
    && (forall d {:trigger d in fs.dirs} :: d in fs.dirs ==> d in fs.nlink && d in fs.capacity && d in fs.parent)
    && (forall p {:trigger p in fs.entries} :: p in fs.entries ==>
          p.dir in fs.dirs && p.slot < fs.capacity[p.dir] && fs.entries[p].inode in fs.nlink)
  }

  lemma Repoint(dirs: set<nat>, roots: set<nat>, parent: map<nat, nat>, x: nat, t: nat)
    requires Connected(dirs, roots, parent) && x !in roots && t in dirs
    ensures Connected(dirs + {x}, roots, parent[x := t])
  {
    forall d | d in dirs + {x}
      ensures Step(parent[x := t], d) in dirs + {x}
    {
      assert d != x ==> Step(parent[x := t], d) == Step(parent, d);
    }
  }

  /** A directory with an ordinary name is no root, has no other one, and starts with its dots. */
  ghost predicate Shaped(fs: FS) {
    && Pointed(fs)
    && (forall p {:trigger Ordinary(fs, p)} :: Ordinary(fs, p) ==> Nameable(fs, fs.entries[p].inode))
    && (forall p, q {:trigger Ordinary(fs, p), Ordinary(fs, q)} ::
          Ordinary(fs, p) && Ordinary(fs, q) && fs.entries[p].inode == fs.entries[q].inode && fs.entries[p].inode in fs.dirs ==> p == q)
  }

  ghost predicate Nameable(fs: FS, x: nat) {
    x in fs.dirs ==>
      && x !in fs.roots
      && Place(x, 0) in fs.entries && fs.entries[Place(x, 0)] == Dirent(Dot, x)
      && Place(x, 1) in fs.entries && fs.entries[Place(x, 1)].name == DotDot && fs.entries[Place(x, 1)].inode in fs.dirs
  }

  lemma EntryShape(fs: FS, p: Place)
    requires Shaped(fs) && p in fs.entries
    ensures p.dir in fs.dirs && p.dir in fs.nlink && p.dir in fs.parent && p.dir in fs.capacity && p.slot < fs.capacity[p.dir]
    ensures fs.entries[p].inode in fs.nlink && (fs.entries[p].name.Plain? ==> Nameable(fs, fs.entries[p].inode))
    ensures fs.entries[p].inode in fs.dirs ==> fs.entries[p].inode in fs.parent && fs.entries[p].inode in fs.capacity
  {
    assert Ordinary(fs, p) <==> fs.entries[p].name.Plain?;
  }

  lemma InvShaped(fs: FS)
    requires Inv(fs)
    ensures Shaped(fs)
  {
    hide Counted, UniqueNames, Forest;
    InvParts(fs);
    forall p | Ordinary(fs, p)
      ensures p.slot >= 2 && Nameable(fs, fs.entries[p].inode)
    {
      var x := fs.entries[p].inode;
      PlainIsOrdinary(fs, p);
      if x in fs.dirs {
        LiveIfNamed(fs, p);
        DotsOfLive(fs, x);
      }
    }
    forall p, q | Ordinary(fs, p) && Ordinary(fs, q) && fs.entries[p].inode == fs.entries[q].inode && fs.entries[p].inode in fs.dirs
      ensures p == q
    {
      assert IsNameOf(fs, p, fs.entries[p].inode) && IsNameOf(fs, q, fs.entries[p].inode);
    }
  }

  lemma DotsOfLive(fs: FS, d: nat)
    requires Closed(fs) && Dots(fs) && Live(fs, d)
    ensures HasDots(fs, d)
  {
  }

  lemma PlainIsOrdinary(fs: FS, p: Place)
    requires Closed(fs) && Dots(fs) && p in fs.entries && fs.entries[p].name.Plain?
    ensures p.slot >= 2
  {
    LiveHolder(fs, p);
    assert HasDots(fs, p.dir) && p == Place(p.dir, p.slot);
  }

  // ---------------------------------------------------------------- inserting an entry

  /** The first slot of `dir` from `i` on that is not in use. */
  function Vacant(fs: FS, dir: nat, i: nat): (r: nat)
    requires dir in fs.capacity && i <= fs.capacity[dir]
    ensures i <= r <= fs.capacity[dir] && (r < fs.capacity[dir] ==> Place(dir, r) !in fs.entries)
    ensures forall k: nat {:trigger Place(dir, k)} :: i <= k < r ==> Place(dir, k) in fs.entries
    decreases fs.capacity[dir] - i
  {
    if i < fs.capacity[dir] && Place(dir, i) in fs.entries then Vacant(fs, dir, i + 1) else i
  }

  function FirstVacant(fs: FS, dir: nat): (p: Place)
    requires dir in fs.capacity
    ensures p.dir == dir
  {
    Place(dir, Vacant(fs, dir, 0))
  }

  /** A directory without a vacant slot gets another block of them. */
  function Fitted(fs: FS, dir: nat): FS
    requires dir in fs.capacity
  {
    FittedAt(fs, dir, Vacant(fs, dir, 0))
  }

  function FittedAt(fs: FS, dir: nat, slot: nat): FS
    requires dir in fs.capacity
  {
    if slot < fs.capacity[dir] then fs else Grown(fs, dir, fs.capacity[dir] + CHAINED_DIRENTS)
  }

  function Grown(fs: FS, dir: nat, slots: nat): FS {
    fs.(capacity := fs.capacity[dir := slots])
  }

  /** inode_add_dirent, when nothing is wrong. */
  function Entered(fs: FS, dir: nat, name: Name, child: nat): FS
    requires dir in fs.capacity && child in fs.nlink
  {
    Added(Fitted(fs, dir), FirstVacant(fs, dir), name, child)
  }

  /** The checks of inode_add_dirent. */
  ghost predicate Accepts(fs: FS, dir: nat, name: Name) {
    && dir in fs.dirs && dir in fs.nlink && !TooLong(name) && (fs.nlink[dir] != 0 || name == Dot) && FreeName(fs, dir, name)
  }

  lemma VacantIsFree(fs: FS, dir: nat)
    requires Shaped(fs) && dir in fs.dirs && dir in fs.capacity
    ensures FirstVacant(fs, dir) !in fs.entries
    ensures dir in Fitted(fs, dir).capacity && FirstVacant(fs, dir).slot < Fitted(fs, dir).capacity[dir]
    ensures Fitted(fs, dir).capacity[dir] >= fs.capacity[dir]
    ensures Fitted(fs, dir) == Grown(fs, dir, Fitted(fs, dir).capacity[dir])
  {
    assert fs.capacity[dir := fs.capacity[dir]] == fs.capacity;
  }

  /** `r` has the same ordinary names for directories as `fs`, and the same dots. */
  ghost predicate SameShape(fs: FS, r: FS) {
    && r.roots == fs.roots
    && (forall p {:trigger Ordinary(r, p)} :: Ordinary(r, p) && r.entries[p].inode in r.dirs ==>
          Ordinary(fs, p) && fs.entries[p].inode == r.entries[p].inode && fs.entries[p].inode in fs.dirs)
    && (forall p {:trigger p in r.entries} :: p in fs.entries && !fs.entries[p].name.Plain? && fs.entries[p].inode in fs.dirs ==>
          p in r.entries && r.entries[p].name == fs.entries[p].name && r.entries[p].inode in r.dirs
          && (fs.entries[p].name == Dot ==> r.entries[p] == fs.entries[p]))
  }

  lemma SameShapeShaped(fs: FS, r: FS)
    requires Shaped(fs) && Pointed(r) && SameShape(fs, r)
    ensures Shaped(r)
  {
    hide Pointed;
    forall p | Ordinary(r, p)
      ensures Nameable(r, r.entries[p].inode)
    {
      var x := r.entries[p].inode;
      if x in r.dirs {
        assert Ordinary(fs, p) && Nameable(fs, x);
        assert Place(x, 0) in r.entries && Place(x, 1) in r.entries;
      }
    }
  }

  lemma GrownShaped(fs: FS, dir: nat, slots: nat)
    requires Shaped(fs) && dir in fs.capacity && slots >= fs.capacity[dir]
    ensures Shaped(Grown(fs, dir, slots))
  {
    SameShapeShaped(fs, Grown(fs, dir, slots));
  }

  ghost predicate Unnamed(fs: FS, x: nat) {
    forall p {:trigger Ordinary(fs, p)} :: Ordinary(fs, p) ==> fs.entries[p].inode != x
  }

  lemma AddedShaped(fs: FS, p: Place, name: Name, child: nat)
    requires Shaped(fs) && p !in fs.entries && p.dir in fs.dirs && p.dir in fs.capacity && p.slot < fs.capacity[p.dir]
    requires child in fs.nlink && Nameable(fs, child) && (child in fs.dirs ==> Unnamed(fs, child))
    ensures Shaped(Added(fs, p, name, child))
  {
    var r := Added(fs, p, name, child);
    forall z | Ordinary(r, z)
      ensures Nameable(r, r.entries[z].inode) && (z != p ==> Ordinary(fs, z))
    {
      assert z != p ==> Ordinary(fs, z);
    }
  }

  lemma EnteredShaped(fs: FS, dir: nat, name: Name, child: nat)
    requires Shaped(fs) && dir in fs.dirs && dir in fs.capacity && child in fs.nlink && Nameable(fs, child)
    requires child in fs.dirs ==> Unnamed(fs, child)
    ensures Shaped(Entered(fs, dir, name, child))
  {
    hide Shaped, Nameable, Unnamed;
    VacantIsFree(fs, dir);
    GrownShaped(fs, dir, Fitted(fs, dir).capacity[dir]);
    GrownSameNames(fs, dir, Fitted(fs, dir).capacity[dir], child);
    AddedShaped(Fitted(fs, dir), FirstVacant(fs, dir), name, child);
  }

  lemma GrownSameNames(fs: FS, dir: nat, slots: nat, x: nat)
    ensures Nameable(fs, x) ==> Nameable(Grown(fs, dir, slots), x)
    ensures Unnamed(fs, x) ==> Unnamed(Grown(fs, dir, slots), x)
  {
    if Unnamed(fs, x) {
      forall p | Ordinary(Grown(fs, dir, slots), p)
        ensures fs.entries[p].inode != x
      {
        assert Ordinary(fs, p);
      }
    }
  }

  // ---------------------------------------------------------------- making a directory

  /** The new inode of a directory with its dots, not yet named anywhere. */
  function WithDots(fs: FS, dir: nat, c: nat): FS
    requires dir in fs.nlink
  {
    FS(fs.entries[Place(c, 0) := Dirent(Dot, c)][Place(c, 1) := Dirent(DotDot, dir)],
       fs.capacity[c := INODE_DIRENTS],
       fs.nlink[c := 1][dir := fs.nlink[dir] + 1],
       fs.dirs + {c}, fs.roots, fs.parent[c := dir])
  }

  lemma WithDotsPointed(fs: FS, dir: nat, c: nat)
    requires Pointed(fs) && dir in fs.dirs && dir in fs.nlink && c !in fs.nlink
    ensures Pointed(WithDots(fs, dir, c))
  {
    assert c !in fs.dirs && c !in fs.roots && c != dir;
    Repoint(fs.dirs, fs.roots, fs.parent, c, dir);
    hide Connected;
  }

  lemma WithDotsShaped(fs: FS, dir: nat, c: nat)
    requires Shaped(fs) && dir in fs.dirs && dir in fs.nlink && c !in fs.nlink
    ensures var r := WithDots(fs, dir, c); Shaped(r) && Nameable(r, c) && Unnamed(r, c)
  {
    NewIsNoDir(fs, c);
    WithDotsPointed(fs, dir, c);
    hide Pointed;
    WithDotsSameShape(fs, dir, c);
    SameShapeShaped(fs, WithDots(fs, dir, c));
  }

  lemma WithDotsSameShape(fs: FS, dir: nat, c: nat)
    requires dir in fs.dirs && dir in fs.nlink && c !in fs.roots && c !in fs.dirs
    requires forall p :: p in fs.entries ==> p.dir != c && fs.entries[p].inode != c
    ensures var r := WithDots(fs, dir, c); SameShape(fs, r) && Nameable(r, c) && Unnamed(r, c)
  {
    var r := WithDots(fs, dir, c);
    forall p | Ordinary(r, p)
      ensures Ordinary(fs, p) && r.entries[p] == fs.entries[p]
    {
    }
  }

  // ---------------------------------------------------------------- removing an entry

  /** What the target of a rename is replaced by: nothing. */
  function Without(fs: FS, q: Place): FS
    requires q in fs.entries && q.dir in fs.nlink && fs.entries[q].inode in fs.nlink
  {
    if fs.entries[q].inode in fs.dirs then WithoutDir(fs, q) else Removed(fs, q)
  }

  /** A file or an empty directory. */
  ghost predicate Removable(fs: FS, q: Place) {
    q in fs.entries && (fs.entries[q].inode in fs.dirs ==> Ordinary(fs, q) && Empty(fs, fs.entries[q].inode))
  }

  lemma WithoutShaped(fs: FS, q: Place)
    requires Shaped(fs) && q.dir in fs.nlink && Removable(fs, q) && fs.entries[q].inode in fs.nlink
    ensures Shaped(Without(fs, q))
  {
    var r, d := Without(fs, q), fs.entries[q].inode;
    assert Pointed(r);
    hide Pointed;
    if d in fs.dirs {
      assert Ordinary(fs, q);
      forall p | Ordinary(r, p)
        ensures Nameable(r, r.entries[p].inode) && Ordinary(fs, p)
      {
        assert Ordinary(fs, p) && Nameable(fs, fs.entries[p].inode);
      }
    } else {
      forall p | Ordinary(r, p)
        ensures Ordinary(fs, p)
      {
      }
      SameShapeShaped(fs, r);
    }
  }

  /** Other ordinary entries stay. */
  lemma WithoutKeeps(fs: FS, q: Place, p: Place)
    requires Shaped(fs) && q.dir in fs.nlink && Removable(fs, q) && fs.entries[q].inode in fs.nlink && Ordinary(fs, p) && p != q
    ensures p in Without(fs, q).entries && Without(fs, q).entries[p] == fs.entries[p]
  {
    if fs.entries[q].inode in fs.dirs {
      assert Ordinary(fs, q) && Nameable(fs, fs.entries[q].inode);
    }
  }

  lemma RenamedShaped(fs: FS, p: Place, name: Name)
    requires Shaped(fs) && Ordinary(fs, p)
    ensures Shaped(Renamed(fs, p, name))
  {
    var r := Renamed(fs, p, name);
    forall z | Ordinary(r, z)
      ensures Ordinary(fs, z)
    {
      assert z != p ==> Ordinary(fs, z);
    }
    SameShapeShaped(fs, r);
  }

  lemma SwappedShaped(fs: FS, p: Place, q: Place)
    requires Shaped(fs) && Ordinary(fs, p) && Ordinary(fs, q) && p.dir == q.dir && p.dir in fs.nlink
    ensures Shaped(Exchanged(fs, p, q))
  {
    var r := Exchanged(fs, p, q);
    assert Pointed(r);
    hide Pointed;
    forall z | Ordinary(r, z)
      ensures Ordinary(fs, z) && Nameable(r, r.entries[z].inode)
    {
      assert Ordinary(fs, z);
    }
  }

  // ---------------------------------------------------------------- the operations

  datatype Change =
    | Create(dir: nat, name: Name, inode: nat)
    | Link(file: nat, dir: nat, name: Name)
    | Unlink(p: Place)
    | Mkdir(dir: nat, name: Name, inode: nat)
    | Rmdir(p: Place)
    | RenameIn(p: Place, target: Option<Place>, name: Name)
    | SwapIn(p: Place, q: Place)

  /** What the lookup of the new name of a rename has found: nothing, or an entry of another inode than `x`. */
  ghost predicate Found(fs: FS, x: nat, target: Option<Place>, dir: nat, name: Name) {
    match target
    case None => FreeName(fs, dir, name)
    case Some(q) => Names.Names(fs, q, dir, name) && fs.entries[q].inode != x
  }

  /** What is found may be replaced by `x`: a file by a file, an empty directory by a directory. */
  ghost predicate Replaceable(fs: FS, x: nat, target: Option<Place>) {
    target.Some? ==> Removable(fs, target.value) && (fs.entries[target.value].inode in fs.dirs <==> x in fs.dirs)
  }

  function WithoutTarget(fs: FS, target: Option<Place>): FS
    requires target.Some? ==>
      target.value in fs.entries && target.value.dir in fs.nlink && fs.entries[target.value].inode in fs.nlink
  {
    if target.None? then fs else Without(fs, target.value)
  }

  /** What the code has made sure of when it changes something. */
  ghost predicate Allowed(fs: FS, c: Change) {
    match c
    case Create(dir, name, f) => f !in fs.nlink && Accepts(fs, dir, name)
    case Link(f, dir, name) => f in fs.nlink && f !in fs.dirs && Accepts(fs, dir, name)
    case Unlink(p) => p in fs.entries && fs.entries[p].inode !in fs.dirs
    case Mkdir(dir, name, x) => x !in fs.nlink && dir in fs.dirs && dir in fs.nlink && name != Dot && Accepts(WithDots(fs, dir, x), dir, name)
    case Rmdir(p) => Ordinary(fs, p) && fs.entries[p].inode in fs.dirs && Empty(fs, fs.entries[p].inode)
    case RenameIn(p, target, name) =>
      && Ordinary(fs, p) && name.Plain? && !TooLong(name)
      && Found(fs, fs.entries[p].inode, target, p.dir, name) && Replaceable(fs, fs.entries[p].inode, target)
    case SwapIn(p, q) => Ordinary(fs, p) && Ordinary(fs, q) && p.dir == q.dir && fs.entries[p].inode != fs.entries[q].inode
  }

  lemma AllowedFacts(fs: FS, c: Change)
    requires Shaped(fs) && Allowed(fs, c)
    ensures c.Create? || c.Link? || c.Mkdir? ==> c.dir in fs.dirs && c.dir in fs.nlink && c.dir in fs.capacity
    ensures c.Unlink? || c.Rmdir? || c.RenameIn? || c.SwapIn? ==>
      c.p in fs.entries && c.p.dir in fs.nlink && fs.entries[c.p].inode in fs.nlink
    ensures c.SwapIn? ==> c.q in fs.entries && c.q.dir in fs.nlink
    ensures c.Mkdir? ==> c.inode != c.dir
    ensures c.RenameIn? && c.target.Some? ==>
      var q := c.target.value;
      && q in fs.entries && q.dir in fs.nlink && fs.entries[q].inode in fs.nlink
      && c.p in Without(fs, q).entries && Without(fs, q).entries[c.p] == fs.entries[c.p]
  {
    if c.Unlink? || c.Rmdir? || c.RenameIn? || c.SwapIn? {
      EntryShape(fs, c.p);
    }
    if c.SwapIn? {
      EntryShape(fs, c.q);
    }
    if c.RenameIn? && c.target.Some? {
      EntryShape(fs, c.target.value);
      WithoutKeeps(fs, c.target.value, c.p);
    }
  }

  /** A new inode, not yet named anywhere. */
  function WithInode(fs: FS, f: nat): FS {
    fs.(nlink := fs.nlink[f := 0])
  }

  ghost function Apply(fs: FS, c: Change): FS
    requires Shaped(fs) && Allowed(fs, c)
  {
    AllowedFacts(fs, c);
    match c
    case Create(dir, name, f) => Entered(WithInode(fs, f), dir, name, f)
    case Link(f, dir, name) => Entered(fs, dir, name, f)
    case Unlink(p) => Removed(fs, p)
    case Mkdir(dir, name, x) => Entered(WithDots(fs, dir, x), dir, name, x)
    case Rmdir(p) => WithoutDir(fs, p)
    case RenameIn(p, target, name) => Renamed(WithoutTarget(fs, target), p, name)
    case SwapIn(p, q) => Exchanged(fs, p, q)
  }

  lemma WithInodeShaped(fs: FS, f: nat)
    requires Shaped(fs) && f !in fs.nlink
    ensures Shaped(WithInode(fs, f))
  {
    SameShapeShaped(fs, WithInode(fs, f));
  }

  lemma ApplyShaped(fs: FS, c: Change)
    requires Shaped(fs) && Allowed(fs, c)
    ensures Shaped(Apply(fs, c))
  {
    hide Shaped, Entered, Exchanged, WithDots, Removed, WithoutDir;
    AllowedFacts(fs, c);
    match c {
      case Create(dir, name, f) =>
        NewIsNoDir(fs, f);
        WithInodeShaped(fs, f);
        EnteredShaped(WithInode(fs, f), dir, name, f);
      case Link(f, dir, name) => EnteredShaped(fs, dir, name, f);
      case Unlink(p) => WithoutShaped(fs, p);
      case Mkdir(dir, name, x) =>
        WithDotsShaped(fs, dir, x);
        WithDotsDirs(fs, dir, x);
        EnteredShaped(WithDots(fs, dir, x), dir, name, x);
      case Rmdir(p) => WithoutShaped(fs, p);
      case RenameIn(p, target, name) =>
        if target.Some? {
          WithoutShaped(fs, target.value);
        }
        RenamedShaped(WithoutTarget(fs, target), p, name);
      case SwapIn(p, q) => SwappedShaped(fs, p, q);
    }
  }

  lemma NewIsNoDir(fs: FS, f: nat)
    requires Shaped(fs) && f !in fs.nlink
    ensures f !in fs.dirs && f !in fs.parent && f !in fs.roots
    ensures forall p :: p in fs.entries ==> p.dir != f && fs.entries[p].inode != f
  {
  }

  lemma WithDotsDirs(fs: FS, dir: nat, x: nat)
    requires dir in fs.nlink && dir in fs.dirs && dir in fs.capacity
    ensures dir in WithDots(fs, dir, x).dirs && dir in WithDots(fs, dir, x).capacity && x in WithDots(fs, dir, x).nlink
  {
  }

  // ---------------------------------------------------------------- locks

  /** The inodes an operation has locked for writing. */
  ghost function Held(fs: FS, c: Change): set<nat>
    requires Shaped(fs) && Allowed(fs, c)
  {
    match c
    case Create(dir, name, f) => {dir}
    case Link(f, dir, name) => {dir, f}
    case Unlink(p) => {p.dir, fs.entries[p].inode}
    case Mkdir(dir, name, x) => {dir}
    case Rmdir(p) => {p.dir, fs.entries[p].inode}
    case RenameIn(p, target, name) =>
      {p.dir, fs.entries[p].inode} + if target.Some? then {fs.entries[target.value].inode} else {}
    case SwapIn(p, q) => {p.dir, fs.entries[p].inode, fs.entries[q].inode}
  }

  /** The inodes it makes. */
  function NewInodes(c: Change): set<nat> {
    if c.Create? || c.Mkdir? then {c.inode} else {}
  }

  ghost predicate SameEntry(fs: FS, r: FS, z: Place) {
    (z in r.entries <==> z in fs.entries) && (z in fs.entries ==> r.entries[z] == fs.entries[z])
  }

  ghost predicate SameInode(fs: FS, r: FS, x: nat) {
    && (x in r.dirs <==> x in fs.dirs)
    && (x in fs.capacity ==> x in r.capacity && r.capacity[x] == fs.capacity[x])
    && (x in fs.nlink ==> x in r.nlink && r.nlink[x] == fs.nlink[x])
  }

  /** Between `fs` and `r` only the inodes `own` and their entries differ, parent pointers apart. */
  ghost predicate OnlyTouches(fs: FS, r: FS, own: set<nat>) {
    && (forall z: Place {:trigger SameEntry(fs, r, z)} :: z.dir !in own ==> SameEntry(fs, r, z))
    && (forall x {:trigger SameInode(fs, r, x)} :: x !in own ==> SameInode(fs, r, x))
  }

  lemma EnteredTouches(fs: FS, dir: nat, name: Name, child: nat)
    requires dir in fs.capacity && child in fs.nlink
    ensures OnlyTouches(fs, Entered(fs, dir, name, child), {dir, child})
  {
  }

  lemma TouchesBoth(a: FS, b: FS, c: FS, own: set<nat>, own': set<nat>)
    requires OnlyTouches(a, b, own) && OnlyTouches(b, c, own') && (forall x :: x in a.nlink ==> x in b.nlink)
    ensures OnlyTouches(a, c, own + own')
  {
    forall z: Place | z.dir !in own + own'
      ensures SameEntry(a, c, z)
    {
      assert SameEntry(a, b, z) && SameEntry(b, c, z);
    }
    forall x | x !in own + own'
      ensures SameInode(a, c, x)
    {
      assert SameInode(a, b, x) && SameInode(b, c, x);
    }
  }

  /** An operation touches only what it has locked or made. */
  lemma ApplyTouches(fs: FS, c: Change)
    requires Shaped(fs) && Allowed(fs, c)
    ensures OnlyTouches(fs, Apply(fs, c), Held(fs, c) + NewInodes(c))
  {
    AllowedFacts(fs, c);
    hide Shaped, Entered, OnlyTouches;
    var own := Held(fs, c) + NewInodes(c);
    match c {
      case Create(dir, name, f) =>
        assert OnlyTouches(fs, WithInode(fs, f), {f}) by {
          InodeTouches(fs, f);
        }
        EnteredTouches(WithInode(fs, f), dir, name, f);
        TouchesBoth(fs, WithInode(fs, f), Apply(fs, c), {f}, {dir, f});
        assert {f} + {dir, f} == own;
      case Link(f, dir, name) =>
        EnteredTouches(fs, dir, name, f);
        assert own == {dir, f};
      case Unlink(p) =>
        WithoutTouches(fs, p);
        assert own == {p.dir, fs.entries[p].inode};
      case Mkdir(dir, name, x) =>
        DotsTouch(fs, dir, x);
        EnteredTouches(WithDots(fs, dir, x), dir, name, x);
        TouchesBoth(fs, WithDots(fs, dir, x), Apply(fs, c), {dir, x}, {dir, x});
        assert {dir, x} + {dir, x} == own;
      case Rmdir(p) =>
        WithoutTouches(fs, p);
        assert own == {p.dir, fs.entries[p].inode};
      case RenameIn(p, target, name) =>
        var r := WithoutTarget(fs, target);
        RenameTouches(r, p, name);
        if target.Some? {
          var q := target.value;
          WithoutTouches(fs, q);
          TouchesBoth(fs, r, Apply(fs, c), {q.dir, fs.entries[q].inode}, {p.dir});
        }
        MoreTouched(fs, Apply(fs, c), if target.Some? then {target.value.dir, fs.entries[target.value].inode} + {p.dir} else {p.dir}, own);
      case SwapIn(p, q) =>
        SwapTouches(fs, p, q);
        MoreTouched(fs, Apply(fs, c), {p.dir}, own);
    }
  }

  lemma MoreTouched(fs: FS, r: FS, own: set<nat>, more: set<nat>)
    requires OnlyTouches(fs, r, own) && own <= more
    ensures OnlyTouches(fs, r, more)
  {
  }

  lemma InodeTouches(fs: FS, f: nat)
    ensures OnlyTouches(fs, WithInode(fs, f), {f})
  {
  }

  lemma DotsTouch(fs: FS, dir: nat, x: nat)
    requires dir in fs.nlink
    ensures OnlyTouches(fs, WithDots(fs, dir, x), {dir, x})
  {
  }

  lemma WithoutTouches(fs: FS, q: Place)
    requires q in fs.entries && q.dir in fs.nlink && fs.entries[q].inode in fs.nlink
    ensures OnlyTouches(fs, Without(fs, q), {q.dir, fs.entries[q].inode})
  {
  }

  lemma RenameTouches(fs: FS, p: Place, name: Name)
    requires p in fs.entries
    ensures OnlyTouches(fs, Renamed(fs, p, name), {p.dir})
  {
  }

  lemma SwapTouches(fs: FS, p: Place, q: Place)
    requires p in fs.entries && q in fs.entries && p.dir == q.dir && p.dir in fs.nlink
    ensures OnlyTouches(fs, Exchanged(fs, p, q), {p.dir})
  {
  }

  // ---------------------------------------------------------------- parents

  /** Directories keep their parents, and new ones have a parent that was there before. */
  ghost predicate KeepsParents(fs: FS, r: FS) {
    && r.roots == fs.roots
    && (forall d {:trigger d in fs.parent} :: d in fs.parent ==> d in r.parent && Step(r.parent, d) == Step(fs.parent, d))
    && (forall d {:trigger d in r.dirs} :: d in r.dirs ==> d in fs.dirs || Step(r.parent, d) in fs.dirs)
  }

  lemma ApplyKeepsParents(fs: FS, c: Change)
    requires Shaped(fs) && Allowed(fs, c)
    ensures KeepsParents(fs, Apply(fs, c))
  {
    AllowedFacts(fs, c);
    SamePointers(fs, c);
    if c.Mkdir? {
      NewIsNoDir(fs, c.inode);
    }
    hide Apply, Allowed;
  }

  lemma SamePointers(fs: FS, c: Change)
    requires Shaped(fs) && Allowed(fs, c)
    ensures var r := Apply(fs, c);
      && r.roots == fs.roots
      && r.dirs == fs.dirs + (if c.Mkdir? then {c.inode} else {})
      && r.parent == if c.Mkdir? then fs.parent[c.inode := c.dir] else fs.parent
  {
    AllowedFacts(fs, c);
    hide Shaped;
  }

  lemma {:induction false} KeptUp(fs: FS, r: FS, x: nat, n: nat)
    requires ClosedUp(fs.parent) && KeepsParents(fs, r) && x in fs.parent
    ensures Up(r.parent, x, n) == Up(fs.parent, x, n)
    decreases n
  {
    if n > 0 {
      KeptUp(fs, r, Step(fs.parent, x), n - 1);
    }
  }

  lemma KeptForest(fs: FS, r: FS)
    requires Pointed(fs) && Forest(fs) && KeepsParents(fs, r)
    ensures Forest(r)
  {
    forall d | d in r.dirs
      ensures Grounded(r.parent, r.roots, d)
    {
      var e := if d in fs.dirs then d else Step(r.parent, d);
      assert Grounded(fs.parent, fs.roots, e);
      var n: nat :| Up(fs.parent, e, n) in fs.roots;
      KeptUp(fs, r, e, n);
      assert d !in fs.dirs ==> Up(r.parent, d, n + 1) == Up(r.parent, e, n);
    }
  }

  /** An ordinary entry of a directory is in the directory's parent. */
  ghost predicate Parented(fs: FS) {
    forall p {:trigger Ordinary(fs, p)} :: Ordinary(fs, p) && fs.entries[p].inode in fs.dirs ==> p.dir == Step(fs.parent, fs.entries[p].inode)
  }

  lemma ApplyParented(fs: FS, c: Change)
    requires Shaped(fs) && Parented(fs) && Allowed(fs, c)
    ensures Parented(Apply(fs, c))
  {
    AllowedFacts(fs, c);
    SamePointers(fs, c);
    var r := Apply(fs, c);
    if c.Create? || c.Mkdir? {
      NewIsNoDir(fs, c.inode);
    }
    forall z | Ordinary(r, z) && r.entries[z].inode in r.dirs
      ensures z.dir == Step(r.parent, r.entries[z].inode)
    {
      OldName(fs, c, z);
      hide Shaped, Apply, Allowed;
      if z in fs.entries && r.entries[z] == fs.entries[z] {
        assert Ordinary(fs, z);
      }
    }
  }

  /** A name of a directory was there before, is that of the new directory, or is one of two exchanged or renamed ones. */
  lemma OldName(fs: FS, c: Change, z: Place)
    requires Shaped(fs) && Allowed(fs, c) && Ordinary(Apply(fs, c), z) && Apply(fs, c).entries[z].inode in Apply(fs, c).dirs
    ensures var r, x := Apply(fs, c), Apply(fs, c).entries[z].inode;
      || (z in fs.entries && r.entries[z] == fs.entries[z])
      || (c.Mkdir? && z.dir == c.dir && x == c.inode)
      || (c.RenameIn? && z == c.p && Ordinary(fs, c.p) && x == fs.entries[c.p].inode)
      || (c.SwapIn? && c.p.dir == c.q.dir && z.dir == c.p.dir && Ordinary(fs, c.p) && Ordinary(fs, c.q)
          && (x == fs.entries[c.p].inode || x == fs.entries[c.q].inode))
  {
    AllowedFacts(fs, c);
    if c.Create? || c.Mkdir? {
      NewIsNoDir(fs, c.inode);
    }
    hide Shaped;
  }

  lemma InvParented(fs: FS)
    requires Inv(fs)
    ensures Parented(fs)
  {
    hide Counted, UniqueNames, Forest;
    InvParts(fs);
    forall p | Ordinary(fs, p)
      ensures p.slot >= 2
    {
      PlainIsOrdinary(fs, p);
    }
  }

  // ---------------------------------------------------------------- when the invariant survives

  /** An entry goes into a directory that has no links left. */
  ghost predicate Breaks(fs: FS, c: Change) {
    (c.Create? || c.Link? || c.Mkdir?) && c.dir in fs.nlink && fs.nlink[c.dir] == 0
  }

  lemma GrownKeepsInv(fs: FS, dir: nat, slots: nat)
    requires Inv(fs) && dir in fs.dirs && dir in fs.capacity && slots >= fs.capacity[dir]
    ensures Inv(Grown(fs, dir, slots))
  {
    hide *;
    InvParts(fs);
    GrownClosed(fs, dir, slots);
    GrownSame(fs, dir, slots);
    InvFrom(Grown(fs, dir, slots));
  }

  lemma GrownClosed(fs: FS, dir: nat, slots: nat)
    requires Closed(fs) && dir in fs.capacity && slots >= fs.capacity[dir] && dir in fs.dirs
    ensures Closed(Grown(fs, dir, slots))
  {
  }

  lemma GrownSame(fs: FS, dir: nat, slots: nat)
    requires Closed(fs) && Counted(fs) && UniqueNames(fs) && Dots(fs) && OneName(fs) && Forest(fs) && Closed(Grown(fs, dir, slots))
    ensures var r := Grown(fs, dir, slots); Counted(r) && UniqueNames(r) && Dots(r) && OneName(r) && Forest(r)
  {
    var r := Grown(fs, dir, slots);
    assert SameDirs(fs, r);
    SameDirsDots(fs, r);
    SameDirsNames(fs, r);
  }

  /** A removed directory has no entries. */
  lemma NothingInRemoved(fs: FS, d: nat)
    requires Closed(fs) && Dots(fs) && d in fs.nlink && fs.nlink[d] == 0
    ensures forall q :: q in fs.entries ==> q.dir != d
  {
    forall q | q in fs.entries
      ensures q.dir != d
    {
      LiveHolder(fs, q);
    }
  }

  lemma NotInRemoved(r: FS, p: Place)
    requires p in r.entries && p.dir in r.nlink && r.nlink[p.dir] == 0
    ensures !Inv(r)
  {
    hide Counted, UniqueNames, OneName, Forest;
    if Inv(r) {
      LiveHolder(r, p);
    }
  }

  /** In a directory in use the dots are taken. */
  lemma FreeIsPlain(fs: FS, dir: nat, name: Name)
    requires Closed(fs) && Dots(fs) && Live(fs, dir) && FreeName(fs, dir, name)
    ensures name.Plain?
  {
    DotsOfLive(fs, dir);
  }

  /** The first vacant slot of a directory in use can take a free name. */
  lemma HasRoom(fs: FS, dir: nat, name: Name)
    requires Inv(fs) && Closed(fs) && Accepts(fs, dir, name) && fs.nlink[dir] != 0
    ensures dir in fs.capacity && Inv(Fitted(fs, dir)) && Closed(Fitted(fs, dir)) && Room(Fitted(fs, dir), FirstVacant(fs, dir), name)
  {
    hide Counted, UniqueNames, Dots, OneName, Forest;
    InvParts(fs);
    InvShaped(fs);
    LinksAreCounted(fs, dir);
    FreeIsPlain(fs, dir, name);
    VacantIsFree(fs, dir);
    GrownKeepsInv(fs, dir, Fitted(fs, dir).capacity[dir]);
    InvParts(Fitted(fs, dir));
  }

  lemma EnteredFileInv(fs: FS, dir: nat, name: Name, f: nat)
    requires Inv(fs) && Accepts(fs, dir, name) && f in fs.nlink && f !in fs.dirs
    ensures dir in fs.capacity && (Inv(Entered(fs, dir, name, f)) <==> fs.nlink[dir] != 0)
  {
    hide Inv, Closed, Counted, UniqueNames, Dots, OneName, Forest, Room;
    InvParts(fs);
    InDirs(fs, dir);
    if fs.nlink[dir] == 0 {
      assert f != dir;
      NotInRemoved(Entered(fs, dir, name, f), FirstVacant(fs, dir));
    } else {
      HasRoom(fs, dir, name);
      AddFileKeepsInv(Fitted(fs, dir), FirstVacant(fs, dir), name, f);
    }
  }

  lemma InDirs(fs: FS, dir: nat)
    requires Closed(fs) && dir in fs.dirs
    ensures dir in fs.nlink && dir in fs.capacity && dir in fs.parent
  {
  }

  lemma NewInodeInv(fs: FS, f: nat)
    requires Inv(fs) && f !in fs.nlink
    ensures Inv(WithInode(fs, f))
  {
    hide Inv, Dots, OneName, Forest;
    InvParts(fs);
    var r := WithInode(fs, f);
    assert Naming(fs.entries, f) == {};
    forall x | x in r.nlink
      ensures r.nlink[x] == |Naming(r.entries, x)|
    {
      assert x != f ==> x in fs.nlink;
      assert Naming(fs.entries, x) == Naming(r.entries, x);
    }
    NewInodeSameDirs(fs, f);
    SameDirsInv(fs, r);
  }

  lemma StillAccepts(fs: FS, f: nat, dir: nat, name: Name)
    requires Accepts(fs, dir, name) && f != dir
    ensures Accepts(WithInode(fs, f), dir, name)
  {
  }

  lemma NewInodeSameDirs(fs: FS, f: nat)
    requires Closed(fs) && Dots(fs) && f !in fs.nlink
    ensures SameDirs(fs, WithInode(fs, f))
  {
  }

  // ---------------------------------------------------------------- mkdir

  lemma {:induction false} SameVacant(fs: FS, r: FS, dir: nat, i: nat)
    requires dir in fs.capacity && dir in r.capacity && fs.capacity[dir] == r.capacity[dir] && i <= fs.capacity[dir]
    requires forall k: nat {:trigger Place(dir, k)} :: Place(dir, k) in fs.entries <==> Place(dir, k) in r.entries
    ensures Vacant(r, dir, i) == Vacant(fs, dir, i)
    decreases fs.capacity[dir] - i
  {
    if i < fs.capacity[dir] && Place(dir, i) in fs.entries {
      SameVacant(fs, r, dir, i + 1);
    }
  }

  /** The three insertions amount to the new directory and its entry. */
  lemma MkdirIs(fs: FS, dir: nat, name: Name, c: nat)
    requires dir in fs.nlink && dir in fs.capacity && c != dir
    ensures Entered(WithDots(fs, dir, c), dir, name, c) == WithDir(Fitted(fs, dir), FirstVacant(fs, dir), name, c)
  {
    SameVacant(fs, WithDots(fs, dir, c), dir, 0);
    MkdirIn(fs, Place(dir, Vacant(fs, dir, 0)), name, c);
    hide Vacant, WithDots, WithDir, Added, FittedAt;
  }

  lemma MkdirIn(fs: FS, p: Place, name: Name, c: nat)
    requires p.dir in fs.nlink && p.dir in fs.capacity && c != p.dir
    ensures Added(FittedAt(WithDots(fs, p.dir, c), p.dir, p.slot), p, name, c) == WithDir(FittedAt(fs, p.dir, p.slot), p, name, c)
  {
    var r, m := Added(FittedAt(WithDots(fs, p.dir, c), p.dir, p.slot), p, name, c), WithDir(FittedAt(fs, p.dir, p.slot), p, name, c);
    assert r.nlink == m.nlink;
    assert r.capacity == m.capacity;
  }

  lemma FreeBefore(fs: FS, dir: nat, name: Name, c: nat)
    requires dir in fs.nlink && c != dir && FreeName(WithDots(fs, dir, c), dir, name) && forall p :: p in fs.entries ==> p.dir != c
    ensures FreeName(fs, dir, name)
  {
    forall p | p in fs.entries && p.dir == dir
      ensures fs.entries[p].name != name
    {
      assert p in WithDots(fs, dir, c).entries && WithDots(fs, dir, c).entries[p] == fs.entries[p];
    }
  }

  lemma MkdirInv(fs: FS, dir: nat, name: Name, c: nat)
    requires Inv(fs) && Shaped(fs) && Allowed(fs, Mkdir(dir, name, c))
    ensures Inv(Apply(fs, Mkdir(dir, name, c))) <==> fs.nlink[dir] != 0
  {
    hide Inv, Closed, Counted, UniqueNames, Dots, OneName, Forest, Shaped;
    InvParts(fs);
    InDirs(fs, dir);
    NewIsNoDir(fs, c);
    MkdirIs(fs, dir, name, c);
    if fs.nlink[dir] == 0 {
      ResurrectedBreaks(fs, dir, name, c);
    } else {
      FreeBefore(fs, dir, name, c);
      HasRoom(fs, dir, name);
      RoomForDir(Fitted(fs, dir), FirstVacant(fs, dir), name, c);
      MakeKeepsInv(Fitted(fs, dir), FirstVacant(fs, dir), name, c);
    }
  }

  lemma RoomForDir(fs: FS, p: Place, name: Name, c: nat)
    requires Inv(fs) && Closed(fs) && Room(fs, p, name) && c !in fs.nlink
    ensures CanMake(fs, p, name, c)
  {
    hide Counted, UniqueNames, OneName, Forest, Closed, Dots;
    InvParts(fs);
    RoomIsPastDots(fs, p, name);
  }

  /** A directory made in a removed one: the removed one has a link again and no dots. */
  lemma ResurrectedBreaks(fs: FS, dir: nat, name: Name, c: nat)
    requires Closed(fs) && Dots(fs) && dir in fs.dirs && dir in fs.nlink && dir in fs.capacity && c != dir && name != Dot && fs.nlink[dir] == 0
    ensures !Inv(WithDir(Fitted(fs, dir), FirstVacant(fs, dir), name, c))
  {
    hide Counted, UniqueNames, OneName, Forest, Closed, Dots;
    var r, p := WithDir(Fitted(fs, dir), FirstVacant(fs, dir), name, c), FirstVacant(fs, dir);
    NothingInRemoved(fs, dir);
    var first := Place(dir, 0);
    assert first !in fs.entries;
    assert p == first && p in r.entries && r.entries[p].name == name;
    if Inv(r) {
      InvParts(r);
      LiveHolder(r, p);
      DotsOfLive(r, dir);
    }
  }

  // ---------------------------------------------------------------- the other operations

  lemma WithoutInv(fs: FS, q: Place)
    requires Inv(fs) && Ordinary(fs, q) && Removable(fs, q) && q.dir in fs.nlink && fs.entries[q].inode in fs.nlink
    ensures Inv(Without(fs, q))
  {
    hide Inv, Closed, Counted, UniqueNames, Dots, OneName, Forest;
    InvParts(fs);
    PlainIsOrdinary(fs, q);
    if fs.entries[q].inode in fs.dirs {
      RemoveKeepsInv(fs, q);
    } else {
      RemoveFileKeepsInv(fs, q);
    }
  }

  lemma FreedName(fs: FS, q: Place)
    requires UniqueNames(fs) && q in fs.entries && q.dir in fs.nlink && fs.entries[q].inode in fs.nlink
    ensures FreeName(Without(fs, q), q.dir, fs.entries[q].name)
  {
    var r := Without(fs, q);
    forall z | z in r.entries && z.dir == q.dir
      ensures r.entries[z].name != fs.entries[q].name
    {
      assert z in fs.entries && r.entries[z] == fs.entries[z] && z != q;
    }
  }

  lemma RenameInInv(fs: FS, p: Place, target: Option<Place>, name: Name)
    requires Inv(fs) && Shaped(fs) && Allowed(fs, RenameIn(p, target, name))
    ensures Inv(Apply(fs, RenameIn(p, target, name)))
  {
    hide Inv, Closed, Counted, UniqueNames, Dots, OneName, Forest, Shaped, WithoutDir, Removed, Renamed, FreeName;
    AllowedFacts(fs, RenameIn(p, target, name));
    InvParts(fs);
    PlainIsOrdinary(fs, p);
    if target.Some? {
      WithoutInv(fs, target.value);
      FreedName(fs, target.value);
    }
    RenameKeepsInv(WithoutTarget(fs, target), p, name);
  }

  lemma SwapInInv(fs: FS, p: Place, q: Place)
    requires Inv(fs) && Shaped(fs) && Allowed(fs, SwapIn(p, q))
    ensures Inv(Apply(fs, SwapIn(p, q)))
  {
    hide Inv, Closed, Counted, UniqueNames, Dots, OneName, Forest, Shaped, Exchanged;
    InvParts(fs);
    PlainIsOrdinary(fs, p);
    PlainIsOrdinary(fs, q);
    ExchangeKeepsInv(fs, p, q);
  }

  /** The invariant survives exactly the operations that put nothing into a directory without links. */
  lemma ApplyKeepsInvIff(fs: FS, c: Change)
    requires Inv(fs) && Shaped(fs) && Allowed(fs, c)
    ensures Inv(Apply(fs, c)) <==> !Breaks(fs, c)
  {
    hide Inv, Shaped, Entered, Exchanged, WithDots, Removed, WithoutDir, Empty, FreeName, Renamed;
    AllowedFacts(fs, c);
    match c {
      case Create(dir, name, f) =>
        NewIsNoDir(fs, f);
        NewInodeInv(fs, f);
        StillAccepts(fs, f, dir, name);
        EnteredFileInv(WithInode(fs, f), dir, name, f);
      case Link(f, dir, name) => EnteredFileInv(fs, dir, name, f);
      case Unlink(p) => RemoveFileKeepsInv(fs, p);
      case Mkdir(dir, name, x) => MkdirInv(fs, dir, name, x);
      case Rmdir(p) => WithoutInv(fs, p);
      case RenameIn(p, target, name) => RenameInInv(fs, p, target, name);
      case SwapIn(p, q) => SwapInInv(fs, p, q);
    }
  }
}
