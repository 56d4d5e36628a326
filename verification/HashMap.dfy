/** The hash map from inode numbers to vinodes (hash_map.c): buckets of two slots, rehashed with new random
    coefficients when a bucket overflows. */
module HashMap {
  import opened Layout

  const HASH_P: nat := 32212254719
  const BUCKET_SIZE: nat := 2
  const INITIAL_NBUCKETS: nat := 2

  /** Key 0 marks a free slot and value 0 is the null pointer. */
  datatype Entry = Entry(key: nat, value: nat)

  const FREE := Entry(0, 0)

  type Table = seq<seq<Entry>>

  /** pf_hash: multiply-add in 64 bits, then modulo a prime. */
  function Hash(a: nat, b: nat, key: nat): (h: nat)
    ensures h < HASH_P
  {
    ((a * key + b) % TWO_64) % HASH_P
  }

  predicate Shaped(t: Table) {
    forall i :: 0 <= i < |t| ==> |t[i]| == BUCKET_SIZE
  }

  predicate At(t: Table, i: int, j: int) {
    0 <= i < |t| && 0 <= j < BUCKET_SIZE
  }

  /** The table holds exactly the bindings of `c`, each once. */
  ghost predicate Holds(t: Table, c: map<nat, nat>) {
    && Shaped(t)
    && (forall i, j :: At(t, i, j) ==> if t[i][j].key == 0 then t[i][j] == FREE else t[i][j].key in c && c[t[i][j].key] == t[i][j].value)
    && (forall k :: k in c ==> exists i, j :: At(t, i, j) && t[i][j].key == k)
    && (forall i, j, i', j' {:trigger At(t, i, j), At(t, i', j')} :: At(t, i, j) && At(t, i', j') && t[i][j].key != 0 && t[i][j].key == t[i'][j'].key ==> i == i' && j == j')
  }

  /** Every key sits in the bucket its hash selects. */
  ghost predicate Placed(t: Table, a: nat, b: nat) {
    |t| > 0 && Shaped(t) && forall i, j :: At(t, i, j) && t[i][j].key != 0 ==> i == Hash(a, b, t[i][j].key) % |t|
  }

  /** Keys and values are not null, and no two keys share a value. */
  ghost predicate Proper(c: map<nat, nat>) {
    && 0 !in c
    && (forall k :: k in c ==> c[k] != 0)
    && (forall k, l :: k in c && l in c && c[k] == c[l] ==> k == l)
  }

  function Occupied(t: Table): set<(nat, nat)>
    requires Shaped(t)
  {
    set i: nat, j: nat | 0 <= i < |t| && 0 <= j < BUCKET_SIZE && t[i][j].key != 0 :: (i, j)
  }

  /** As many slots are in use as there are bindings. */
  lemma {:induction false} OneSlotPerBinding(t: Table, c: map<nat, nat>)
    requires Holds(t, c) && 0 !in c
    ensures |Occupied(t)| == |c|
  {
    var slots := Occupied(t);
    forall k | k in c
      ensures exists s :: s in slots && At(t, s.0, s.1) && t[s.0][s.1].key == k
    {
      var i, j :| At(t, i, j) && t[i][j].key == k;
      assert (i, j) in slots;
    }
    SameCount(t, slots, c.Keys);
  }

  lemma {:induction false} SameCount(t: Table, slots: set<(nat, nat)>, keys: set<nat>)
    requires Shaped(t)
    requires forall s :: s in slots ==> At(t, s.0, s.1) && t[s.0][s.1].key in keys
    requires forall k :: k in keys ==> exists s :: s in slots && At(t, s.0, s.1) && t[s.0][s.1].key == k
    requires forall s, r :: s in slots && r in slots && At(t, s.0, s.1) && At(t, r.0, r.1) && t[s.0][s.1].key == t[r.0][r.1].key ==> s == r
    ensures |slots| == |keys|
    decreases slots
  {
    if slots == {} {
      assert keys == {};
    } else {
      var s :| s in slots;
      var k := t[s.0][s.1].key;
      forall l | l in keys - {k}
        ensures exists r :: r in slots - {s} && At(t, r.0, r.1) && t[r.0][r.1].key == l
      {
        var r :| r in slots && At(t, r.0, r.1) && t[r.0][r.1].key == l;
        assert r in slots - {s};
      }
      SameCount(t, slots - {s}, keys - {k});
    }
  }

  // ---------------------------------------------------------------- changing one slot

  function WithSlot(t: Table, i: nat, j: nat, e: Entry): (r: Table)
    requires Shaped(t) && At(t, i, j)
    ensures Shaped(r) && |r| == |t|
    ensures forall x, y {:trigger At(r, x, y)} {:trigger At(t, x, y)} ::
      At(r, x, y) ==> At(t, x, y) && r[x][y] == if x == i && y == j then e else t[x][y]
    ensures forall x, y {:trigger At(t, x, y)} :: At(t, x, y) ==> At(r, x, y)
  {
    t[i := t[i][j := e]]
  }

  lemma PutHolds(t: Table, c: map<nat, nat>, i: nat, j: nat, e: Entry)
    requires Holds(t, c) && At(t, i, j) && t[i][j].key == 0 && e.key != 0 && e.key !in c && 0 !in c
    ensures Holds(WithSlot(t, i, j, e), c[e.key := e.value])
  {
    var r, d := WithSlot(t, i, j, e), c[e.key := e.value];
    forall k | k in d
      ensures exists x, y :: At(r, x, y) && r[x][y].key == k
    {
      if k == e.key {
        assert At(r, i, j) && r[i][j].key == k;
      } else {
        var x, y :| At(t, x, y) && t[x][y].key == k;
        assert At(r, x, y) && r[x][y].key == k;
      }
    }
  }

  lemma ClearHolds(t: Table, c: map<nat, nat>, i: nat, j: nat)
    requires Holds(t, c) && At(t, i, j) && t[i][j].key != 0
    ensures Holds(WithSlot(t, i, j, FREE), c - {t[i][j].key})
  {
    var key := t[i][j].key;
    var r, d := WithSlot(t, i, j, FREE), c - {key};
    forall k | k in d
      ensures exists x, y :: At(r, x, y) && r[x][y].key == k
    {
      var x, y :| At(t, x, y) && t[x][y].key == k;
      assert At(r, x, y) && r[x][y].key == k;
    }
    forall x, y | At(r, x, y) && r[x][y].key != 0
      ensures r[x][y].key in d
    {
      assert At(t, x, y) && r[x][y] == t[x][y];
    }
  }

  lemma KeyInBucket(t: Table, c: map<nat, nat>, a: nat, b: nat, key: nat)
    requires Holds(t, c) && Placed(t, a, b) && key != 0
    ensures key in c <==> exists j :: At(t, Hash(a, b, key) % |t|, j) && t[Hash(a, b, key) % |t|][j].key == key
  {
    if key in c {
      var i, j :| At(t, i, j) && t[i][j].key == key;
    }
  }

  lemma TableShape(t: Table, a: nat, b: nat)
    requires Placed(t, a, b)
    ensures |t| > 0 && Shaped(t)
  {
  }

  /** Clearing a used slot removes its binding and nothing else. */
  lemma ClearedTable(t: Table, c: map<nat, nat>, a: nat, b: nat, i: nat, j: nat)
    requires Holds(t, c) && Placed(t, a, b) && Proper(c) && At(t, i, j) && t[i][j].value != 0
    ensures var k, r := t[i][j].key, WithSlot(t, i, j, FREE);
      && k in c && c[k] == t[i][j].value && Hash(a, b, k) % |t| == i
      && (forall l :: l in c && c[l] == t[i][j].value ==> l == k)
      && Holds(r, c - {k}) && Placed(r, a, b) && Proper(c - {k}) && |Occupied(t)| == |Occupied(r)| + 1
  {
    hide Hash, Occupied, WithSlot;
    ClearHolds(t, c, i, j);
    OccupiedLess(t, i, j);
  }

  lemma ProperKeys(c: map<nat, nat>)
    requires Proper(c)
    ensures 0 !in c
  {
  }

  /** A key is bound iff its bucket has it, and then to the value found there. */
  lemma InBucket(t: Table, c: map<nat, nat>, a: nat, b: nat, key: nat)
    requires Holds(t, c) && Placed(t, a, b) && key != 0
    ensures var i := Hash(a, b, key) % |t|;
      && i < |t| && |t[i]| == BUCKET_SIZE
      && (forall j :: 0 <= j < BUCKET_SIZE && t[i][j].key == key ==> key in c && c[key] == t[i][j].value)
      && (key in c ==> exists j :: 0 <= j < BUCKET_SIZE && t[i][j].key == key)
  {
    var i := Hash(a, b, key) % |t|;
    assert forall j :: 0 <= j < BUCKET_SIZE ==> At(t, i, j);
    KeyInBucket(t, c, a, b, key);
  }

  /** Filling a free slot adds one binding. */
  lemma StoredEntry(t: Table, c: map<nat, nat>, a: nat, b: nat, i: nat, j: nat, e: Entry)
    requires Holds(t, c) && Placed(t, a, b) && Proper(c) && At(t, i, j) && t[i][j].key == 0
    requires e.key != 0 && e.value != 0 && e.key !in c && (forall k :: k in c ==> c[k] != e.value) && i == Hash(a, b, e.key) % |t|
    ensures var r := WithSlot(t, i, j, e);
      Holds(r, c[e.key := e.value]) && Placed(r, a, b) && Proper(c[e.key := e.value]) && |Occupied(r)| == |Occupied(t)| + 1
  {
    hide Hash, Holds, Occupied;
    assert Shaped(t);
    PutHolds(t, c, i, j, e) by { assert 0 !in c; }
    OccupiedMore(t, i, j, e);
  }

  lemma OccupiedMore(t: Table, i: nat, j: nat, e: Entry)
    requires Shaped(t) && At(t, i, j) && t[i][j].key == 0 && e.key != 0
    ensures |Occupied(WithSlot(t, i, j, e))| == |Occupied(t)| + 1
  {
    assert Occupied(WithSlot(t, i, j, e)) == Occupied(t) + {(i, j)};
  }

  lemma OccupiedLess(t: Table, i: nat, j: nat)
    requires Shaped(t) && At(t, i, j) && t[i][j].key != 0
    ensures |Occupied(t)| == |Occupied(WithSlot(t, i, j, FREE))| + 1
  {
    assert Occupied(WithSlot(t, i, j, FREE)) == Occupied(t) - {(i, j)};
    assert (i, j) in Occupied(t);
  }

  // ---------------------------------------------------------------- rebuilding

  /** `done` has the bindings of the slots before slot `j` of bucket `i`. */
  ghost predicate MovedUpTo(t: Table, c: map<nat, nat>, done: map<nat, nat>, i: nat, j: nat)
    requires Shaped(t)
  {
    && (forall k :: k in done ==> k in c && c[k] == done[k])
    && (forall x, y {:trigger At(t, x, y)} :: At(t, x, y) && t[x][y].key != 0 ==> (t[x][y].key in done <==> x < i || (x == i && y < j)))
  }

  lemma HoldsShape(t: Table, c: map<nat, nat>)
    requires Holds(t, c)
    ensures Shaped(t)
  {
  }

  lemma EmptyTable(t: Table, from: Table, c: map<nat, nat>, a: nat, b: nat)
    requires |t| > 0 && (forall i :: 0 <= i < |t| ==> t[i] == [FREE, FREE]) && Shaped(from)
    ensures Holds(t, map[]) && Placed(t, a, b) && MovedUpTo(from, c, map[], 0, 0)
  {
    hide Hash;
    assert forall i, j :: At(t, i, j) ==> t[i][j] == FREE;
  }

  lemma SkipFree(t: Table, c: map<nat, nat>, done: map<nat, nat>, i: nat, j: nat)
    requires Shaped(t) && At(t, i, j) && t[i][j].key == 0 && MovedUpTo(t, c, done, i, j)
    ensures MovedUpTo(t, c, done, i, j + 1)
  {
  }

  lemma NextBucket(t: Table, c: map<nat, nat>, done: map<nat, nat>, i: nat)
    requires Shaped(t) && MovedUpTo(t, c, done, i, BUCKET_SIZE)
    ensures MovedUpTo(t, c, done, i + 1, 0)
  {
  }

  lemma MoveNext(t: Table, c: map<nat, nat>, done: map<nat, nat>, i: nat, j: nat)
    requires Holds(t, c) && 0 !in c && At(t, i, j) && t[i][j].key != 0 && MovedUpTo(t, c, done, i, j)
    ensures t[i][j].key !in done && 0 !in done && MovedUpTo(t, c, done[t[i][j].key := t[i][j].value], i, j + 1)
  {
  }

  lemma AllMoved(t: Table, c: map<nat, nat>, done: map<nat, nat>)
    requires Holds(t, c) && MovedUpTo(t, c, done, |t|, 0) && Proper(c)
    ensures done == c
  {
    forall k | k in c
      ensures k in done
    {
      var x, y :| At(t, x, y) && t[x][y].key == k;
    }
  }

  /** Three keys want the same bucket of two, so that no table of `size` buckets has room. */
  ghost predicate Crowded(c: map<nat, nat>, a: nat, b: nat, size: nat)
    requires size > 0
  {
    exists k, l, m :: k in c && l in c && m in c && k != l && l != m && k != m
      && Hash(a, b, k) % size == Hash(a, b, l) % size == Hash(a, b, m) % size
  }

  lemma FullBucket(t: Table, done: map<nat, nat>, c: map<nat, nat>, a: nat, b: nat, i: nat, key: nat)
    requires Holds(t, done) && Placed(t, a, b) && key in c && key !in done && (forall k :: k in done ==> k in c)
    requires i == Hash(a, b, key) % |t| && t[i][0].key != 0 && t[i][1].key != 0
    ensures Crowded(c, a, b, |t|)
  {
    hide Hash;
    assert At(t, i, 0) && At(t, i, 1);
    assert t[i][0].key in c && t[i][1].key in c && t[i][0].key != t[i][1].key;
  }

  /** No table with two slots a bucket holds crowded bindings: a rebuild that reports a conflict is right to. */
  lemma CrowdedHasNoTable(t: Table, c: map<nat, nat>, a: nat, b: nat)
    requires Holds(t, c) && Placed(t, a, b) && 0 !in c
    ensures !Crowded(c, a, b, |t|)
  {
    hide Hash;
    forall k | k in c
      ensures exists j :: At(t, Hash(a, b, k) % |t|, j) && t[Hash(a, b, k) % |t|][j].key == k
    {
      var i, j :| At(t, i, j) && t[i][j].key == k;
      assert k != 0;
    }
  }

  // ---------------------------------------------------------------- the map

  datatype PutResult = Value(value: nat) | OutOfDraws

  class Map {
    var a: nat
    var b: nat
    var table: Table
    var entries: nat
    /** The numbers the generator will yield. */
    var draws: seq<nat>
    ghost var bindings: map<nat, nat>

    ghost predicate Valid()
      reads this
    {
      Holds(table, bindings) && Placed(table, a, b) && Proper(bindings) && entries == |Occupied(table)|
    }

    /** hash_map_alloc, once the coefficients are drawn. */
    constructor (a: nat, b: nat, draws: seq<nat>)
      ensures Valid() && bindings == map[]
    {
      this.a, this.b, this.draws := a, b, draws;
      table := seq(INITIAL_NBUCKETS, _ => [FREE, FREE]);
      entries := 0;
      bindings := map[];
      new;
      assert Occupied(table) == {};
    }

    /** hash_map_get */
    method Get(key: nat) returns (value: nat)
      requires Valid() && key != 0
      ensures value == if key in bindings then bindings[key] else 0
    {
      KeyInBucket(table, bindings, a, b, key);
      var i := Hash(a, b, key) % |table|;
      var j := 0;
      while j < BUCKET_SIZE
        invariant 0 <= j <= BUCKET_SIZE && forall k :: 0 <= k < j ==> table[i][k].key != key
      {
        if table[i][j].key == key {
          assert At(table, i, j);
          return table[i][j].value;
        }
        j := j + 1;
      }
      value := 0;
    }

    /** hash_map_remove. It looks for the value in the bucket of the key: what it removes is the one binding of
        that value, if its own key hashes to the same bucket. */
    method Remove(key: nat, value: nat) returns (ok: bool)
      requires Valid() && value != 0
      modifies this
      ensures Valid() && draws == old(draws)
      ensures ok <==> exists k :: k in old(bindings) && old(bindings)[k] == value && old(SameBucket(k, key))
      ensures ok ==> forall k :: k in old(bindings) && old(bindings)[k] == value ==> bindings == old(bindings) - {k}
      ensures !ok ==> bindings == old(bindings)
    {
      hide Holds, Placed, Proper, Hash, Occupied, WithSlot;
      TableShape(table, a, b);
      var i := Hash(a, b, key) % |table|;
      var j := 0;
      while j < BUCKET_SIZE && table[i][j].value != value
        invariant 0 <= j <= BUCKET_SIZE && forall l :: 0 <= l < j ==> table[i][l].value != value
      {
        j := j + 1;
      }
      if j == BUCKET_SIZE {
        NotInBucket(i, value);
        return false;
      }
      assert At(table, i, j);
      ghost var k := table[i][j].key;
      ClearedTable(table, bindings, a, b, i, j);
      ok := true;
      assert k in bindings && bindings[k] == value && SameBucket(k, key);
      table := WithSlot(table, i, j, FREE);
      entries := entries - 1;
      bindings := bindings - {k};
    }

    /** hash_map_rand_params: takes the first number that is not zero and the one after it, and fails only when
        the generator's numbers run out before. */
    method RandParams() returns (ok: bool)
      modifies this`a, this`b, this`draws
      ensures ok ==> exists n ::
        && 0 <= n < |old(draws)| - 1 && (forall i :: 0 <= i < n ==> old(draws)[i] == 0)
        && a == old(draws)[n] != 0 && b == old(draws)[n + 1] && draws == old(draws)[n + 2..]
      ensures !ok ==> draws == [] && forall i :: 0 <= i < |old(draws)| - 1 ==> old(draws)[i] == 0
    {
      if draws == [] {
        return false;
      }
      a, draws := draws[0], draws[1..];
      ghost var n := 0;
      while a == 0 && draws != []
        invariant 0 <= n < |old(draws)| && a == old(draws)[n] && draws == old(draws)[n + 1..]
        invariant forall i :: 0 <= i < n ==> old(draws)[i] == 0
        decreases |draws|
      {
        a, draws := draws[0], draws[1..];
        n := n + 1;
      }
      if a == 0 || draws == [] {
        return false;
      }
      b, draws := draws[0], draws[1..];
      ok := true;
    }

    /** hash_map_rebuild: every binding moves to the bucket its hash selects in a table of `size` buckets, or
        two slots do not suffice somewhere and the table stays as it is. */
    method Rebuild(size: nat) returns (conflict: bool)
      requires Holds(table, bindings) && Proper(bindings) && size > 0
      modifies this`table
      ensures Holds(table, bindings)
      ensures !conflict ==> Placed(table, a, b) && |table| == size
      ensures conflict ==> table == old(table) && Crowded(bindings, a, b, size)
    {
      hide Proper, Hash, WithSlot, Placed, Holds, Crowded;
      HoldsShape(table, bindings);
      var t: Table := seq(size, _ => [FREE, FREE]);
      ghost var done: map<nat, nat> := map[];
      EmptyTable(t, table, bindings, a, b);
      var i := 0;
      while i < |table|
        invariant table == old(table) && 0 <= i <= |table| && |t| == size
        invariant Holds(t, done) && Placed(t, a, b) && MovedUpTo(table, bindings, done, i, 0)
      {
        var j := 0;
        while j < BUCKET_SIZE
          invariant table == old(table) && 0 <= j <= BUCKET_SIZE && |t| == size
          invariant Holds(t, done) && Placed(t, a, b) && MovedUpTo(table, bindings, done, i, j)
        {
          assert At(table, i, j);
          if table[i][j].key != 0 {
            t, conflict := Rehashed(t, table[i][j], i, j, done);
            if conflict {
              return;
            }
            done := done[table[i][j].key := table[i][j].value];
          } else {
            SkipFree(table, bindings, done, i, j);
          }
          j := j + 1;
        }
        NextBucket(table, bindings, done, i);
        i := i + 1;
      }
      AllMoved(table, bindings, done);
      table := t;
      conflict := false;
    }

    /** Puts one entry into the first free slot of its new bucket. */
    method Rehashed(t: Table, e: Entry, ghost i: nat, ghost j: nat, ghost done: map<nat, nat>) returns (r: Table, conflict: bool)
      requires Holds(table, bindings) && Proper(bindings) && Shaped(table) && At(table, i, j) && e == table[i][j] && e.key != 0
      requires Holds(t, done) && Placed(t, a, b) && MovedUpTo(table, bindings, done, i, j)
      ensures !conflict ==>
        && |r| == |t| && Placed(r, a, b)
        && Holds(r, done[e.key := e.value]) && MovedUpTo(table, bindings, done[e.key := e.value], i, j + 1)
      ensures conflict ==> Crowded(bindings, a, b, |t|)
    {
      hide Hash;
      TableShape(t, a, b);
      MoveNext(table, bindings, done, i, j);
      var idx := Hash(a, b, e.key) % |t|;
      var k := 0;
      while k < BUCKET_SIZE && t[idx][k].key != 0
        invariant 0 <= k <= BUCKET_SIZE && forall l :: 0 <= l < k ==> t[idx][l].key != 0
      {
        k := k + 1;
      }
      conflict := k == BUCKET_SIZE;
      r := t;
      if conflict {
        FullBucket(t, done, bindings, a, b, idx, e.key);
      }
      if !conflict {
        PutHolds(t, done, idx, k, e);
        r := WithSlot(t, idx, k, e);
      }
    }

    ghost function Excess(size: nat): nat
      reads this
    {
      if entries > 2 * size then entries - 2 * size else 0
    }

    /** The inner loop of hash_map_put: new coefficients, or after two tries a table twice as large, until a
        rebuild goes through. */
    method Rehash(tries0: nat) returns (ok: bool, tries: nat)
      requires Holds(table, bindings) && Proper(bindings) && |table| > 0 && tries0 <= 2
      modifies this`a, this`b, this`draws, this`table
      ensures ok ==> Holds(table, bindings) && Placed(table, a, b) && tries <= 2
      ensures !ok ==> draws == []
      ensures ok ==>
        || |draws| < |old(draws)|
        || (|draws| == |old(draws)| && Excess(|table|) < old(Excess(|table|)))
        || (|draws| == |old(draws)| && Excess(|table|) == old(Excess(|table|)) && tries < tries0)
    {
      hide Holds, Placed, Proper;
      var size := |table|;
      tries := tries0;
      var conflict := true;
      while conflict
        invariant Holds(table, bindings) && size > 0 && tries <= 2 && |draws| <= |old(draws)|
        invariant conflict && |draws| == |old(draws)| ==> Excess(size) <= old(Excess(|table|))
        invariant conflict && |draws| == |old(draws)| && Excess(size) == old(Excess(|table|)) ==> tries <= tries0
        invariant !conflict ==> Placed(table, a, b) && |table| == size
        invariant !conflict ==>
          || |draws| < |old(draws)|
          || (|draws| == |old(draws)| && Excess(size) < old(Excess(|table|)))
          || (|draws| == |old(draws)| && Excess(size) == old(Excess(|table|)) && tries < tries0)
        decreases |draws|, Excess(size), tries
      {
        if entries > 2 * size || tries == 2 {
          size := size * 2;
          tries := 0;
        } else {
          ok := RandParams();
          if !ok {
            return;
          }
          tries := tries + 1;
        }
        conflict := Rebuild(size);
      }
      ok := true;
    }

    /** hash_map_put: returns the value the key has, or binds it. */
    method Put(key: nat, value: nat) returns (r: PutResult)
      requires Valid() && key != 0 && value != 0 && (key !in bindings ==> forall k :: k in bindings ==> bindings[k] != value)
      modifies this
      ensures r.Value? ==> Valid()
      ensures r.Value? && key in old(bindings) ==> r.value == old(bindings)[key] && bindings == old(bindings)
      ensures r.Value? && key !in old(bindings) ==> r.value == value && bindings == old(bindings)[key := value]
      // the numbers run out only where a new key finds its bucket full
      ensures r.OutOfDraws? ==> draws == [] && key !in old(bindings) && old(FullFor(key))
    {
      hide Holds, Placed, Proper, Hash, Occupied, WithSlot;
      TableShape(table, a, b);
      ProperKeys(bindings);
      InBucket(table, bindings, a, b, key);
      var i := Hash(a, b, key) % |table|;
      var slot: Option<nat> := None;
      var j := 0;
      while j < BUCKET_SIZE
        invariant 0 <= j <= BUCKET_SIZE && forall k :: 0 <= k < j ==> table[i][k].key != key
        invariant slot.Some? ==> slot.value < BUCKET_SIZE && table[i][slot.value].key == 0
        invariant slot.None? ==> forall k :: 0 <= k < j ==> table[i][k].key != 0
      {
        if table[i][j].key == key {
          return Value(table[i][j].value);
        }
        if slot.None? && table[i][j].key == 0 {
          slot := Some(j);
        }
        j := j + 1;
      }
      ghost var c := bindings;
      assert slot.None? ==> FullFor(key);
      var tries := 0;
      while slot.None?
        invariant Holds(table, bindings) && Placed(table, a, b) && bindings == c && Proper(c)
        invariant Shaped(table) && entries == |Occupied(table)| && |table| > 0 && i < |table|
          && i == Hash(a, b, key) % |table| && tries <= 2
        invariant slot.Some? ==> slot.value < BUCKET_SIZE && table[i][slot.value].key == 0
        invariant slot.None? ==> old(FullFor(key))
        decreases |draws|, Excess(|table|), tries
      {
        OneSlotPerBinding(table, bindings);
        var ok;
        ok, tries := Rehash(tries);
        if !ok {
          return OutOfDraws;
        }
        OneSlotPerBinding(table, bindings);
        TableShape(table, a, b);
        i := Hash(a, b, key) % |table|;
        slot := FreeSlot(i);
      }
      StoredEntry(table, bindings, a, b, i, slot.value, Entry(key, value));
      table := WithSlot(table, i, slot.value, Entry(key, value));
      entries := entries + 1;
      bindings := bindings[key := value];
      r := Value(value);
    }

    /** Both slots of the key's bucket are in use. */
    ghost predicate FullFor(key: nat)
      reads this
    {
      |table| > 0 && var i := Hash(a, b, key) % |table|; |table[i]| == BUCKET_SIZE && forall j :: 0 <= j < BUCKET_SIZE ==> table[i][j].key != 0
    }

    method FreeSlot(i: nat) returns (slot: Option<nat>)
      requires Shaped(table) && i < |table|
      ensures slot.Some? ==> slot.value < BUCKET_SIZE && table[i][slot.value].key == 0
      ensures slot.None? ==> forall j :: 0 <= j < BUCKET_SIZE ==> table[i][j].key != 0
    {
      slot := None;
      var j := 0;
      while j < BUCKET_SIZE
        invariant 0 <= j <= BUCKET_SIZE && forall k :: 0 <= k < j ==> table[i][k].key != 0
      {
        if table[i][j].key == 0 {
          return Some(j);
        }
        j := j + 1;
      }
    }

    ghost predicate SameBucket(k: nat, l: nat)
      requires |table| > 0
      reads this
    {
      Hash(a, b, k) % |table| == Hash(a, b, l) % |table|
    }

    lemma NotInBucket(i: nat, value: nat)
      requires Valid() && i < |table| && value != 0 && forall l :: 0 <= l < BUCKET_SIZE ==> table[i][l].value != value
      ensures forall k :: k in bindings && bindings[k] == value ==> Hash(a, b, k) % |table| != i
    {
      forall k | k in bindings && bindings[k] == value
        ensures Hash(a, b, k) % |table| != i
      {
        var x, y :| At(table, x, y) && table[x][y].key == k;
        assert table[x][y].value == value;
      }
    }
  }

  /** With the multiplier 1, the keys 1 and 3 share one of two buckets: removing under key 3 removes the binding of 1. */
  method RemovesOtherKey(m: Map, value: nat) returns (ok: bool)
    requires m.Valid() && m.a == 1 && m.b == 0 && |m.table| == 2 && m.bindings == map[1 := value] && value != 0
    modifies m
    ensures ok && m.Valid() && 3 !in old(m.bindings) && m.bindings == map[]
  {
    hide Holds, Placed, Proper, Occupied;
    assert m.SameBucket(1, 3);
    ok := m.Remove(3, value);
    assert 1 in old(m.bindings) && old(m.bindings)[1] == value;
  }
}
