/** Locks on several inodes are taken in the order of their addresses (inode.c), and so no set of threads can block
    each other. */
module LockOrder {
  import opened Layout

  /** A lock, by its place in the order, to be taken for reading or for writing. The mutex of a handle comes before the
      locks of inodes, the lock of the file system after them. */
  datatype Lock = Lock(place: nat, write: bool)

  predicate Ascending(plan: seq<Lock>) {
    forall i, j :: 0 <= i < j < |plan| ==> plan[i].place < plan[j].place
  }

  // ---------------------------------------------------------------- the order

  /** vinode_rdlock2 and vinode_wrlock2 */
  method Lock2(v1: nat, v2: nat, write: bool) returns (plan: seq<Lock>)
    ensures Ascending(plan)
    ensures forall l :: l in plan <==> l.write == write && (l.place == v1 || l.place == v2)
  {
    if v1 == v2 {
      plan := [Lock(v2, write)];
    } else if v1 < v2 {
      plan := [Lock(v1, write), Lock(v2, write)];
    } else {
      plan := [Lock(v2, write), Lock(v1, write)];
    }
  }

  /** vinode_in_array */
  method InArray(v: nat, arr: seq<nat>) returns (r: bool)
    ensures r <==> v in arr
  {
    for i := 0 to |arr|
      invariant v !in arr[..i]
    {
      if arr[i] == v {
        return true;
      }
    }
    r := false;
  }

  /** Inserts into an ascending sequence. */
  method Insert(v: nat, arr: seq<nat>) returns (r: seq<nat>)
    requires v !in arr && forall i, j :: 0 <= i < j < |arr| ==> arr[i] < arr[j]
    ensures forall i, j :: 0 <= i < j < |r| ==> r[i] < r[j]
    ensures forall x :: x in r <==> x == v || x in arr
  {
    var k := 0;
    while k < |arr| && arr[k] < v
      invariant 0 <= k <= |arr| && forall i :: 0 <= i < k ==> arr[i] < v
    {
      k := k + 1;
    }
    r := arr[..k] + [v] + arr[k..];
    assert forall i :: k <= i < |arr| ==> v < arr[i];
  }

  /** vinode_wrlockN: every inode given is locked once, in ascending order, as the source asserts. */
  method LockN(v1: nat, more: seq<Option<nat>>) returns (plan: seq<Lock>)
    ensures Ascending(plan)
    ensures forall l :: l in plan <==> l.write && (l.place == v1 || Some(l.place) in more)
  {
    var v := [v1];
    for k := 0 to |more|
      invariant forall i, j :: 0 <= i < j < |v| ==> v[i] < v[j]
      invariant forall x :: x in v <==> x == v1 || Some(x) in more[..k]
    {
      if more[k].Some? {
        var there := InArray(more[k].value, v);
        if !there {
          v := Insert(more[k].value, v);
        }
      }
    }
    assert more[..|more|] == more;
    plan := seq(|v|, i requires 0 <= i < |v| => Lock(v[i], true));
    forall l
      ensures l in plan <==> l.write && l.place in v
    {
      if l.write && l.place in v {
        var i :| 0 <= i < |v| && v[i] == l.place;
        assert plan[i] == l;
      }
    }
  }

  // ---------------------------------------------------------------- threads

  /** A thread has taken the first `taken` locks of its plan. */
  datatype Thread = Thread(plan: seq<Lock>, taken: nat)

  type State = map<nat, Thread>

  predicate Conflict(a: Lock, b: Lock) {
    a.place == b.place && (a.write || b.write)
  }

  ghost predicate HasConflict(s: State, t: nat, l: Lock) {
    t in s && s[t].taken <= |s[t].plan| && exists i :: 0 <= i < s[t].taken && Conflict(s[t].plan[i], l)
  }

  ghost predicate Inv(s: State) {
    && (forall t :: t in s ==> Ascending(s[t].plan) && s[t].taken <= |s[t].plan|)
    && (forall t, u, i :: t in s && u in s && t != u && 0 <= i < s[t].taken ==> !HasConflict(s, u, s[t].plan[i]))
  }

  /** The thread wants another lock and no one is in the way. */
  ghost predicate CanTake(s: State, t: nat) {
    t in s && s[t].taken < |s[t].plan| && forall u :: u in s && u != t ==> !HasConflict(s, u, s[t].plan[s[t].taken])
  }

  /** The thread has all the locks of its plan, does its work and releases them. */
  ghost predicate CanFinish(s: State, t: nat) {
    t in s && s[t].plan != [] && s[t].taken == |s[t].plan|
  }

  lemma TakeKeepsInv(s: State, t: nat)
    requires Inv(s) && CanTake(s, t)
    ensures Inv(s[t := s[t].(taken := s[t].taken + 1)])
  {
    var r := s[t := s[t].(taken := s[t].taken + 1)];
    forall a, b, i | a in r && b in r && a != b && 0 <= i < r[a].taken
      ensures !HasConflict(r, b, r[a].plan[i])
    {
      if b == t {
        assert !HasConflict(s, t, s[a].plan[i]);
        assert !HasConflict(s, a, s[t].plan[s[t].taken]);
      } else if a == t && i == s[t].taken {
        assert !HasConflict(s, b, s[t].plan[i]);
      } else {
        assert !HasConflict(s, b, s[a].plan[i]);
      }
    }
  }

  lemma FinishKeepsInv(s: State, t: nat, plan: seq<Lock>)
    requires Inv(s) && t in s && Ascending(plan) && (CanFinish(s, t) || s[t].plan == [])
    ensures Inv(s[t := Thread(plan, 0)])
  {
    var r := s[t := Thread(plan, 0)];
    forall a, b, i | a in r && b in r && a != b && 0 <= i < r[a].taken
      ensures !HasConflict(r, b, r[a].plan[i])
    {
      assert !HasConflict(s, b, s[a].plan[i]);
    }
  }

  /** The place of the lock a thread is waiting for. */
  ghost function Wanted(s: State, t: nat): nat
    requires t in s && s[t].taken < |s[t].plan|
  {
    s[t].plan[s[t].taken].place
  }

  /** Of some waiting threads, one whose lock comes last. */
  lemma {:induction false} LastWanted(s: State, ts: set<nat>) returns (t: nat)
    requires ts != {} && forall u :: u in ts ==> u in s && s[u].taken < |s[u].plan|
    ensures t in ts && forall u :: u in ts ==> Wanted(s, u) <= Wanted(s, t)
    decreases ts
  {
    t :| t in ts;
    if ts != {t} {
      var rest := ts - {t};
      assert ts == rest + {t};
      var u := LastWanted(s, rest);
      if Wanted(s, t) < Wanted(s, u) {
        t := u;
      }
    }
  }

  /** If a thread is waiting, some thread can go on: there is no deadlock. */
  lemma NoDeadlock(s: State, w: nat)
    requires Inv(s) && w in s && s[w].taken < |s[w].plan|
    ensures exists t :: CanTake(s, t) || CanFinish(s, t)
  {
    var waiting := set t | t in s && s[t].taken < |s[t].plan|;
    assert w in waiting;
    var t := LastWanted(s, waiting);
    if !CanTake(s, t) {
      var l := s[t].plan[s[t].taken];
      var u :| u in s && u != t && HasConflict(s, u, l);
      var i :| 0 <= i < s[u].taken && Conflict(s[u].plan[i], l);
      assert s[u].taken < |s[u].plan| ==> u in waiting;
      if s[u].taken < |s[u].plan| {
        HoldsBelowWanted(s, u, i);
      }
      assert CanFinish(s, u);
    }
  }

  lemma HoldsBelowWanted(s: State, u: nat, i: nat)
    requires Inv(s) && u in s && i < s[u].taken < |s[u].plan|
    ensures s[u].plan[i].place < Wanted(s, u)
  {
  }
}
