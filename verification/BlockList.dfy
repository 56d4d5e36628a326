/** The doubly linked, offset-sorted list threaded through the block descriptors. */
module BlockList {
  import opened Layout

  ghost predicate NoDuplicates<T>(s: seq<T>) {
    forall i, j :: 0 <= i < j < |s| ==> s[i] != s[j]
  }

  ghost predicate NextLinks(mem: Memory, order: seq<Slot>)
    requires forall i :: 0 <= i < |order| ==> order[i] in mem
  {
    forall i {:trigger After(order, i)} :: 0 <= i < |order| ==>
      mem[order[i]].next == After(order, i)
  }

  /** `order` is the list: following `next` (or `prev`) visits exactly these descriptors. */
  ghost predicate Linked(mem: Memory, order: seq<Slot>) {
    && (forall i :: 0 <= i < |order| ==> order[i] in mem)
    && NoDuplicates(order)
    && PrevLinks(mem, order)
    && NextLinks(mem, order)
  }

  lemma LinksAt(mem: Memory, order: seq<Slot>, i: nat)
    requires Linked(mem, order) && i < |order|
    ensures mem[order[i]].prev == Before(order, i) && mem[order[i]].next == After(order, i)
    ensures i > 0 ==> order[i - 1] in mem && order[i - 1] != order[i] && mem[order[i - 1]].next == Some(order[i])
    ensures i < |order| - 1 ==> order[i + 1] in mem && order[i + 1] != order[i] && mem[order[i + 1]].prev == Some(order[i])
  {
    assert i > 0 ==> After(order, i - 1) == Some(order[i]);
    assert i < |order| - 1 ==> Before(order, i + 1) == Some(order[i]);
  }

  ghost function First(order: seq<Slot>): Option<Slot> {
    if order == [] then None else Some(order[0])
  }

  function SetNext(mem: Memory, s: Option<Slot>, v: Option<Slot>): (m: Memory)
    requires s.Some? ==> s.value in mem
    ensures m.Keys == mem.Keys
  {
    if s.Some? then mem[s.value := mem[s.value].(next := v)] else mem
  }

  function SetPrev(mem: Memory, s: Option<Slot>, v: Option<Slot>): (m: Memory)
    requires s.Some? ==> s.value in mem
    ensures m.Keys == mem.Keys
  {
    if s.Some? then mem[s.value := mem[s.value].(prev := v)] else mem
  }

  /** Everything of a descriptor but its links. */
  ghost predicate SamePayload(d: Desc, e: Desc) {
    d.data == e.data && d.size == e.size && d.initialized == e.initialized && d.offset == e.offset
  }

  ghost predicate SamePayloads(mem: Memory, mem': Memory) {
    mem'.Keys == mem.Keys && forall s :: s in mem ==> SamePayload(mem[s], mem'[s])
  }

  /** The memory `mem'` threads the list `order` through the descriptors of `mem`. */
  ghost predicate Rethreaded(mem: Memory, mem': Memory, order: seq<Slot>) {
    && mem'.Keys == mem.Keys
    && forall i {:trigger order[i]} :: 0 <= i < |order| ==>
         order[i] in mem && mem'[order[i]] == mem[order[i]].(prev := Before(order, i), next := After(order, i))
  }

  lemma RethreadedIsLinked(mem: Memory, mem': Memory, order: seq<Slot>)
    requires Rethreaded(mem, mem', order) && NoDuplicates(order)
    ensures Linked(mem', order)
  {
  }

  /** Links the unlinked descriptor `s` in at position `i`. */
  ghost function InsertedAt(mem: Memory, order: seq<Slot>, i: nat, s: Slot): Memory
    requires (forall j :: 0 <= j < |order| ==> order[j] in mem) && i <= |order| && s in mem
  {
    var m := mem[s := mem[s].(prev := Before(order, i), next := After(order, i - 1))];
    SetPrev(SetNext(m, Before(order, i), Some(s)), After(order, i - 1), Some(s))
  }

  lemma InsertedDescs(mem: Memory, order: seq<Slot>, i: nat, s: Slot)
    requires Linked(mem, order) && i <= |order| && s in mem && s !in order
    ensures var mem' := InsertedAt(mem, order, i, s);
      && mem'[s] == mem[s].(prev := Before(order, i), next := After(order, i - 1))
      && (forall j :: 0 <= j < |order| ==>
            mem'[order[j]] == mem[order[j]].(prev := if j == i then Some(s) else Before(order, j),
                                             next := if j == i - 1 then Some(s) else After(order, j)))
  {
    forall j | 0 <= j < |order|
      ensures InsertedAt(mem, order, i, s)[order[j]] ==
              mem[order[j]].(prev := if j == i then Some(s) else Before(order, j),
                             next := if j == i - 1 then Some(s) else After(order, j))
    {
      LinksAt(mem, order, j);
    }
  }

  ghost function InsertSlot(order: seq<Slot>, i: nat, s: Slot): seq<Slot>
    requires i <= |order|
  {
    order[..i] + [s] + order[i..]
  }

  lemma InsertedOrder(order: seq<Slot>, i: nat, s: Slot)
    requires NoDuplicates(order) && i <= |order| && s !in order
    ensures NoDuplicates(InsertSlot(order, i, s))
  {
  }

  lemma InsertedElements(order: seq<Slot>, i: nat, s: Slot)
    requires i <= |order|
    ensures forall t :: t in InsertSlot(order, i, s) <==> t in order || t == s
  {
    forall t | t in order
      ensures t in InsertSlot(order, i, s)
    {
      var j :| 0 <= j < |order| && order[j] == t;
      assert InsertSlot(order, i, s)[if j < i then j else j + 1] == t;
    }
    assert InsertSlot(order, i, s)[i] == s;
  }

  /** Insertion changes links only, and only those of the list and of the new descriptor. */
  lemma InsertedFrame(mem: Memory, order: seq<Slot>, i: nat, s: Slot)
    requires (forall j :: 0 <= j < |order| ==> order[j] in mem) && i <= |order| && s in mem
    ensures SamePayloads(mem, InsertedAt(mem, order, i, s))
    ensures forall t :: t in mem && t !in order && t != s ==> InsertedAt(mem, order, i, s)[t] == mem[t]
  {
  }

  lemma InsertedNeighbours(order: seq<Slot>, i: nat, s: Slot, j: nat)
    requires i <= |order| && j <= |order|
    ensures var o := InsertSlot(order, i, s);
      && (j < i ==> o[j] == order[j] && Before(o, j) == Before(order, j)
                    && After(o, j) == if j == i - 1 then Some(s) else After(order, j))
      && (j == i ==> o[j] == s && Before(o, j) == Before(order, i) && After(o, j) == After(order, i - 1))
      && (j > i ==> o[j] == order[j - 1] && After(o, j) == After(order, j - 1)
                    && Before(o, j) == if j == i + 1 then Some(s) else Before(order, j - 1))
  {
  }

  lemma InsertedIsLinked(mem: Memory, order: seq<Slot>, i: nat, s: Slot)
    requires Linked(mem, order) && i <= |order| && s in mem && s !in order
    ensures Linked(InsertedAt(mem, order, i, s), InsertSlot(order, i, s))
  {
    var order' := InsertSlot(order, i, s);
    var mem' := InsertedAt(mem, order, i, s);
    InsertedDescs(mem, order, i, s);
    InsertedOrder(order, i, s);
    forall j | 0 <= j < |order'|
      ensures order'[j] in mem && mem'[order'[j]] == mem[order'[j]].(prev := Before(order', j), next := After(order', j))
    {
      InsertedNeighbours(order, i, s, j);
    }
    RethreadedIsLinked(mem, mem', order');
  }

  ghost function UnlinkedFrom(mem: Memory, s: Slot): Memory
    requires s in mem
    requires mem[s].prev.Some? ==> mem[s].prev.value in mem
    requires mem[s].next.Some? ==> mem[s].next.value in mem
  {
    SetPrev(SetNext(mem, mem[s].prev, mem[s].next), mem[s].next, mem[s].prev)
  }

  lemma NeighboursInMemory(mem: Memory, order: seq<Slot>, i: nat)
    requires Linked(mem, order) && i < |order|
    ensures mem[order[i]].prev.Some? ==> mem[order[i]].prev.value in mem
    ensures mem[order[i]].next.Some? ==> mem[order[i]].next.value in mem
  {
    LinksAt(mem, order, i);
  }

  lemma UnlinkedDescs(mem: Memory, order: seq<Slot>, i: nat)
    requires Linked(mem, order) && i < |order|
    requires mem[order[i]].prev.Some? ==> mem[order[i]].prev.value in mem
    requires mem[order[i]].next.Some? ==> mem[order[i]].next.value in mem
    ensures forall j :: 0 <= j < |order| ==>
              UnlinkedFrom(mem, order[i])[order[j]] == mem[order[j]].(prev := if j == i + 1 then Before(order, i) else Before(order, j),
                             next := if j == i - 1 then After(order, i) else After(order, j))
  {
    LinksAt(mem, order, i);
    forall j | 0 <= j < |order|
      ensures UnlinkedFrom(mem, order[i])[order[j]] ==
              mem[order[j]].(prev := if j == i + 1 then Before(order, i) else Before(order, j),
                             next := if j == i - 1 then After(order, i) else After(order, j))
    {
      LinksAt(mem, order, j);
    }
  }

  ghost function RemoveSlot(order: seq<Slot>, i: nat): seq<Slot>
    requires i < |order|
  {
    order[..i] + order[i + 1..]
  }

  lemma RemovedOrder(order: seq<Slot>, i: nat)
    requires NoDuplicates(order) && i < |order|
    ensures NoDuplicates(RemoveSlot(order, i)) && order[i] !in RemoveSlot(order, i)
    ensures forall s :: s in RemoveSlot(order, i) <==> s in order && s != order[i]
  {
    var r := RemoveSlot(order, i);
    assert forall j :: 0 <= j < |r| ==> r[j] == if j < i then order[j] else order[j + 1];
    forall s | s in order && s != order[i]
      ensures s in r
    {
      var j :| 0 <= j < |order| && order[j] == s;
      assert r[if j < i then j else j - 1] == s;
    }
  }

  lemma RemovedNeighbours(order: seq<Slot>, i: nat, j: nat)
    requires i < |order| && j < |order| - 1
    ensures var o := RemoveSlot(order, i);
      && (j < i ==> o[j] == order[j] && Before(o, j) == Before(order, j)
                    && After(o, j) == if j == i - 1 then After(order, i) else After(order, j))
      && (j >= i ==> o[j] == order[j + 1] && After(o, j) == After(order, j + 1)
                     && Before(o, j) == if j == i then Before(order, i) else Before(order, j + 1))
  {
  }

  lemma UnlinkedIsLinked(mem: Memory, order: seq<Slot>, i: nat)
    requires Linked(mem, order) && i < |order|
    requires mem[order[i]].prev.Some? ==> mem[order[i]].prev.value in mem
    requires mem[order[i]].next.Some? ==> mem[order[i]].next.value in mem
    ensures Linked(UnlinkedFrom(mem, order[i]), RemoveSlot(order, i))
  {
    var order' := RemoveSlot(order, i);
    var mem' := UnlinkedFrom(mem, order[i]);
    UnlinkedDescs(mem, order, i);
    RemovedOrder(order, i);
    forall j | 0 <= j < |order'|
      ensures order'[j] in mem && mem'[order'[j]] == mem[order'[j]].(prev := Before(order', j), next := After(order', j))
    {
      RemovedNeighbours(order, i, j);
    }
    RethreadedIsLinked(mem, mem', order');
  }

  /** Moves the descriptor at `src` to `dst`; its neighbours follow. */
  ghost function MovedTo(mem: Memory, dst: Slot, src: Slot): Memory
    requires src in mem && dst in mem
    requires mem[src].prev.Some? ==> mem[src].prev.value in mem
    requires mem[src].next.Some? ==> mem[src].next.value in mem
  {
    var m := SetPrev(SetNext(mem, mem[src].prev, Some(dst)), mem[src].next, Some(dst));
    m[dst := m[src]]
  }

  lemma MovedDescs(mem: Memory, order: seq<Slot>, j: nat, dst: Slot)
    requires Linked(mem, order) && j < |order| && dst in mem && dst !in order
    requires mem[order[j]].prev.Some? ==> mem[order[j]].prev.value in mem
    requires mem[order[j]].next.Some? ==> mem[order[j]].next.value in mem
    ensures MovedTo(mem, dst, order[j])[dst] == mem[order[j]]
    ensures forall i :: 0 <= i < |order| && i != j ==>
              MovedTo(mem, dst, order[j])[order[i]] == mem[order[i]].(prev := if i == j + 1 then Some(dst) else Before(order, i),
                             next := if i == j - 1 then Some(dst) else After(order, i))
  {
    LinksAt(mem, order, j);
    forall i | 0 <= i < |order| && i != j
      ensures MovedTo(mem, dst, order[j])[order[i]] ==
              mem[order[i]].(prev := if i == j + 1 then Some(dst) else Before(order, i),
                             next := if i == j - 1 then Some(dst) else After(order, i))
    {
      LinksAt(mem, order, i);
    }
  }

  lemma MovedIsLinked(mem: Memory, order: seq<Slot>, j: nat, dst: Slot)
    requires Linked(mem, order) && j < |order| && dst in mem && dst !in order
    requires mem[order[j]].prev.Some? ==> mem[order[j]].prev.value in mem
    requires mem[order[j]].next.Some? ==> mem[order[j]].next.value in mem
    ensures Linked(MovedTo(mem, dst, order[j]), order[j := dst])
  {
    MovedDescs(mem, order, j, dst);
    LinksAt(mem, order, j);
    RethreadedIsLinked(mem[dst := mem[order[j]]], MovedTo(mem, dst, order[j]), order[j := dst]);
  }

  /** Unlinking changes links only, and only those of the neighbours. */
  lemma UnlinkedFrame(mem: Memory, order: seq<Slot>, i: nat)
    requires Linked(mem, order) && i < |order|
    requires mem[order[i]].prev.Some? ==> mem[order[i]].prev.value in mem
    requires mem[order[i]].next.Some? ==> mem[order[i]].next.value in mem
    ensures SamePayloads(mem, UnlinkedFrom(mem, order[i]))
    ensures UnlinkedFrom(mem, order[i])[order[i]] == mem[order[i]]
    ensures forall t :: t in mem && t !in order ==> UnlinkedFrom(mem, order[i])[t] == mem[t]
  {
    LinksAt(mem, order, i);
  }

  lemma MovedFrame(mem: Memory, order: seq<Slot>, j: nat, dst: Slot)
    requires Linked(mem, order) && j < |order| && dst in mem && dst !in order
    requires mem[order[j]].prev.Some? ==> mem[order[j]].prev.value in mem
    requires mem[order[j]].next.Some? ==> mem[order[j]].next.value in mem
    ensures MovedTo(mem, dst, order[j]).Keys == mem.Keys
    ensures MovedTo(mem, dst, order[j])[dst] == mem[order[j]]
    ensures forall t :: t in mem && t != dst ==> SamePayload(mem[t], MovedTo(mem, dst, order[j])[t])
    ensures forall t :: t in mem && t != dst && t !in order ==> MovedTo(mem, dst, order[j])[t] == mem[t]
  {
    LinksAt(mem, order, j);
  }

  lemma LinkedHasNoDuplicates(mem: Memory, order: seq<Slot>)
    requires Linked(mem, order)
    ensures NoDuplicates(order) && forall s :: s in order ==> s in mem
  {
  }

  lemma ReplacedElements(list: seq<Slot>, j: nat, dst: Slot)
    requires j < |list| && NoDuplicates(list)
    ensures forall t :: t in list[j := dst] <==> t == dst || (t in list && t != list[j])
  {
    var list' := list[j := dst];
    assert list'[j] == dst;
    forall t | t in list' && t != dst
      ensures t in list && t != list[j]
    {
      var q :| 0 <= q < |list'| && list'[q] == t;
      assert list[q] == t;
    }
    forall t | t in list && t != list[j]
      ensures t in list'
    {
      var q :| 0 <= q < |list| && list[q] == t;
      assert list'[q] == t;
    }
  }
}
