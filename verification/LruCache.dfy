/**
 * The LRU cache of src/include/lrucache.hpp: an open-addressed table, a circular
 * doubly-linked recency queue through the same nodes, and a pool of spare nodes.
 */
module LruCache {
  import opened Common
  import opened Ring
  import opened ProbeTable
  import opened Recency

  /** Where the uncache callback writes an evicted (key, value) pair. */
  class Backing<T> {
    var store: map<nat, T>

    constructor (init: map<nat, T>)
      ensures store == init
    {
      store := init;
    }

    method Uncache(k: nat, v: T)
      modifies `store
      ensures store == old(store)[k := v]
    {
      store := store[k := v];
    }
  }

  ghost predicate SlotOk<T>(t: seq<ListNode?<T>>, ix: Index<T>, s: nat)
    requires s < |t| == |ix.slots|
  {
    && (t[s] == null <==> ix.slots[s].None?)
    && (ix.slots[s].Some? ==> ix.Describes(s, t[s]))
  }

  /** The table's contents: the key in each slot, and for each resident key its node and slot. */
  ghost predicate Indexed<T>(t: seq<ListNode?<T>>, ix: Index<T>) {
    && 1 <= |t| == |ix.slots| && ix.contents.Keys == ix.cell.Keys
    && (forall s :: 0 <= s < |t| ==> SlotOk(t, ix, s))
    && (forall k :: k in ix.cell ==> ix.Locates(k))
  }

  /** Every resident node records the key it is resident under, and the value listed for it. */
  ghost predicate KeysMatch<T>(cell: map<nat, ListNode<T>>, contents: map<nat, T>, made: set<ListNode<T>>)
    reads made`key, made`value
  {
    forall k :: k in cell ==>
      k in contents && cell[k] in made && cell[k].key == k && cell[k].value == contents[k]
  }

  /** Every node but spare is resident. */
  ghost predicate AllResident<T>(cell: map<nat, ListNode<T>>, made: set<ListNode<T>>, spare: ListNode?<T>)
    reads made`key
  {
    forall n :: n in made && n != spare ==> n.key in cell && cell[n.key] == n
  }

  datatype Index<!T> = Index(
    slots: Slots,
    cell: map<nat, ListNode<T>>,
    at: map<nat, nat>,
    contents: map<nat, T>)
  {
    ghost predicate Describes(s: nat, n: ListNode?<T>)
      requires s < |slots| && slots[s].Some?
    {
      var k := slots[s].value;
      k in cell && cell[k] == n && k in at && at[k] == s
    }

    ghost predicate Locates(k: nat) {
      k in at && at[k] < |slots| && slots[at[k]] == Some(k)
    }

    /** After the slot of k was emptied. */
    ghost function Erased(k: nat): Index<T>
      requires k in cell && k in at && at[k] < |slots|
    {
      Index(slots[at[k] := None], cell - {k}, at - {k}, contents - {k})
    }

    /** Entry is listed for k, and only its key field is still to be written. */
    ghost predicate Awaits(k: nat, entry: ListNode<T>, made: set<ListNode<T>>)
      reads entry`value, made`key, made`value
    {
      && KeysMatch(cell - {k}, contents, made) && AllResident(cell - {k}, made, entry)
      && k in contents && contents[k] == entry.value
      && k in cell && forall j :: j in cell ==> (cell[j] == entry <==> j == k)
    }

    /** After node n was entered for k in slot h. */
    ghost function Filled(h: nat, k: nat, n: ListNode<T>, v: T): Index<T>
      requires h < |slots|
    {
      Index(slots[h := Some(k)], cell[k := n], at[k := h], contents[k := v])
    }
  }

  lemma ErasedIndexed<T>(t: seq<ListNode?<T>>, ix: Index<T>, k: nat)
    requires Indexed(t, ix) && k in ix.cell
    ensures ix.Locates(k) && Indexed(t[ix.at[k] := null], ix.Erased(k))
  {
    assert ix.Locates(k);
    var t', ix' := t[ix.at[k] := null], ix.Erased(k);
    forall s | 0 <= s < |t| ensures SlotOk(t', ix', s) {
      assert SlotOk(t, ix, s);
    }
    forall j | j in ix'.cell ensures ix'.Locates(j) {
      assert ix.Locates(j);
    }
  }

  lemma FilledIndexed<T>(t: seq<ListNode?<T>>, ix: Index<T>, h: nat, k: nat, n: ListNode<T>, v: T)
    requires Indexed(t, ix) && k !in ix.cell && h < |t| && t[h] == null
    ensures Indexed(t[h := n], ix.Filled(h, k, n, v))
  {
    var t', ix' := t[h := n], ix.Filled(h, k, n, v);
    assert SlotOk(t, ix, h);
    forall s | 0 <= s < |t| ensures SlotOk(t', ix', s) {
      assert SlotOk(t, ix, s);
    }
    forall j | j in ix'.cell ensures ix'.Locates(j) {
      assert j != k ==> ix.Locates(j);
    }
  }

  lemma AssignedIndexed<T>(t: seq<ListNode?<T>>, ix: Index<T>, k: nat, v: T)
    requires Indexed(t, ix) && k in ix.cell
    ensures Indexed(t, ix.(contents := ix.contents[k := v]))
  {
    var ix' := ix.(contents := ix.contents[k := v]);
    forall s | 0 <= s < |t| ensures SlotOk(t, ix', s) {
      assert SlotOk(t, ix, s);
    }
    forall j | j in ix'.cell ensures ix'.Locates(j) {
      assert ix.Locates(j);
    }
  }

  ghost predicate PlaceOk<N>(keys: seq<nat>, order: seq<N>, cell: map<nat, N>, i: nat)
    requires i < |keys| == |order|
  {
    keys[i] in cell && cell[keys[i]] == order[i]
  }

  ghost predicate Listed(keys: seq<nat>, k: nat) {
    k in keys
  }

  /** keys lists the resident keys, each once, and order the nodes holding them. */
  ghost predicate InStep<N>(keys: seq<nat>, order: seq<N>, cell: map<nat, N>) {
    && Distinct(keys) && |keys| == |order|
    && (forall i :: 0 <= i < |keys| ==> PlaceOk(keys, order, cell, i))
    && (forall k {:trigger Listed(keys, k)} :: k in cell ==> Listed(keys, k))
  }

  /** The element at index i moved to the end. */
  function MovedToEnd<T>(s: seq<T>, i: nat): seq<T>
    requires i < |s|
  {
    RemoveAt(s, i) + [s[i]]
  }

  lemma MovedAt<T>(s: seq<T>, i: nat)
    requires i < |s|
    ensures |MovedToEnd(s, i)| == |s|
    ensures forall j :: 0 <= j < |s| ==> MovedToEnd(s, i)[j] == s[if j == |s| - 1 then i else Skip(i, j)]
  {
  }

  lemma MovedKeys(keys: seq<nat>, i: nat)
    requires Distinct(keys) && i < |keys|
    ensures MovedToEnd(keys, i) == Without(keys, keys[i]) + [keys[i]]
    ensures Distinct(MovedToEnd(keys, i))
    ensures forall k :: k in keys ==> k in MovedToEnd(keys, i)
  {
    var w := Without(keys, keys[i]);
    WithoutAt(keys, i);
    WithoutMembers(keys, keys[i]);
    DistinctAppend(w, keys[i]);
    forall k | k in keys ensures k in w + [keys[i]] {
      assert k in w || k == keys[i];
    }
  }

  lemma InStepMoved<N>(keys: seq<nat>, order: seq<N>, cell: map<nat, N>, i: nat)
    requires InStep(keys, order, cell) && i < |keys|
    ensures MovedToEnd(keys, i) == Without(keys, keys[i]) + [keys[i]]
    ensures InStep(MovedToEnd(keys, i), MovedToEnd(order, i), cell)
  {
    var keys', order' := MovedToEnd(keys, i), MovedToEnd(order, i);
    MovedAt(order, i);
    MovedAt(keys, i);
    MovedKeys(keys, i);
    forall j | 0 <= j < |keys'| ensures PlaceOk(keys', order', cell, j) {
      assert PlaceOk(keys, order, cell, if j == |keys| - 1 then i else Skip(i, j));
    }
    forall k | k in cell ensures Listed(keys', k) {
      assert Listed(keys, k);
    }
  }

  /** A resident key is listed, with its node. */
  lemma PlaceOf<N>(keys: seq<nat>, order: seq<N>, cell: map<nat, N>, k: nat) returns (i: nat)
    requires InStep(keys, order, cell) && k in cell
    ensures i < |keys| && keys[i] == k && order[i] == cell[k]
  {
    assert Listed(keys, k);
    i :| 0 <= i < |keys| && keys[i] == k;
    assert PlaceOk(keys, order, cell, i);
  }

  lemma InStepPopped<N>(keys: seq<nat>, order: seq<N>, cell: map<nat, N>)
    requires InStep(keys, order, cell) && keys != []
    ensures keys[0] in cell && cell[keys[0]] == order[0]
    ensures InStep(keys[1..], RemoveAt(order, 0), cell - {keys[0]})
  {
    var keys', order', cell' := keys[1..], RemoveAt(order, 0), cell - {keys[0]};
    assert PlaceOk(keys, order, cell, 0);
    assert keys == [keys[0]] + keys';
    forall i | 0 <= i < |keys'| ensures PlaceOk(keys', order', cell', i) {
      assert PlaceOk(keys, order, cell, i + 1);
    }
    forall j | j in cell' ensures Listed(keys', j) {
      assert Listed(keys, j);
    }
  }

  lemma InStepFilled<N>(keys: seq<nat>, order: seq<N>, cell: map<nat, N>, k: nat, entry: N)
    requires InStep(keys, order, cell) && k !in cell && entry !in order
    ensures InStep(keys + [k], order + [entry], cell[k := entry])
    ensures forall j :: j in cell ==> cell[j] != entry
  {
    var keys', order', cell' := keys + [k], order + [entry], cell[k := entry];
    forall j | j in cell ensures cell[j] != entry {
      var i := PlaceOf(keys, order, cell, j);
    }
    forall i | 0 <= i < |keys| ensures PlaceOk(keys, order, cell, i) && keys[i] != k {
      assert PlaceOk(keys, order, cell, i);
    }
    forall i | 0 <= i < |keys'| ensures PlaceOk(keys', order', cell', i) {
      assert i < |keys| ==> PlaceOk(keys, order, cell, i);
    }
    forall j | j in cell' ensures Listed(keys', j) {
      assert j != k ==> Listed(keys, j);
    }
    assert k !in keys;
    DistinctAppend(keys, k);
  }

  lemma Replaced<T>(before: map<nat, T>, gone: set<nat>, k: nat, v: T, after: map<nat, T>)
    requires after.Keys == before.Keys - gone + {k} && after[k] == v
    requires forall j :: j in after && j != k ==> after[j] == before[j]
    ensures after == (before - gone)[k := v]
    ensures gone == {} ==> after == before[k := v]
  {
  }

  class LRUCache<T(0)> {
    const N: nat
    const cb: Backing<T>
    const table: array<ListNode?<T>>
    var queue: ListNode?<T>
    var pool: ListNode?<T>
    var count: nat

    /** The nodes of the queue, least recently used first, and their keys. */
    ghost var order: seq<ListNode<T>>
    ghost var keys: seq<nat>
    /** The resident nodes by key, the slot of each, and the key in each slot. */
    ghost var ix: Index<T>
    /** All the nodes that were ever allocated. */
    ghost var made: set<ListNode<T>>

    ghost predicate QueueOk()
      reads `order, `count, `queue, order`next, order`prev
    {
      && Distinct(order) && Links(order)
      && count == |order|
      && (order != [] ==> queue == order[0])
    }

    ghost predicate TableOk()
      reads `ix, table
    {
      table.Length == N && Indexed(table[..], ix)
    }

    ghost predicate KeyFieldsOk()
      reads `ix, `made, made`key, made`value
    {
      KeysMatch(ix.cell, ix.contents, made)
    }

    ghost predicate Valid()
      reads `queue, `pool, `count, `order, `keys, `ix, `made, table, order`next, order`prev, made`key, made`value
    {
      && QueueOk() && TableOk() && KeyFieldsOk() && InStep(keys, order, ix.cell)
      && (order == [] ==> queue == null)
      && count <= N
      && pool == null && AllResident(ix.cell, made, null)
      && Reachable(ix.slots) && Occupied(ix.slots) == count
    }

    constructor (n: nat, backing: Backing<T>)
      requires 1 <= n
      ensures Valid() && N == n && cb == backing
      ensures keys == [] && made == {} && fresh(table)
    {
      N, cb := n, backing;
      table := new ListNode?<T>[n](_ => null);
      queue, pool, count := null, null, 0;
      order, keys, made := [], [], {};
      ix := Index(seq(n, _ => None), map[], map[], map[]);
      new;
      OccupiedNone(ix.slots);
    }

    method Detach(x: ListNode<T>, ghost i: nat)
      requires QueueOk() && i < |order| && x == order[i]
      modifies `count, `order, order`next, order`prev
      ensures order == RemoveAt(old(order), i) && count == |order|
      ensures table[..] == old(table[..]) && ix == old(ix)
      ensures Distinct(order) && Links(order) && x !in order
      ensures order != [] ==> x.next == old(x.next)
      ensures order == [] ==> x.next == x == x.prev
    {
      ghost var q := order;
      count := count - 1;
      x.prev.next := x.next;
      x.next.prev := x.prev;
      assert Bridged(q, i);
      BridgedLinks(q, i);
      DistinctRemove(q, i);
      order := RemoveAt(q, i);
    }

    /** The links of push_back on a queue that is there: with other nodes, or left at this very node. */
    method LinkLast(x: ListNode<T>)
      requires queue != null && Distinct(order) && Links(order) && x !in order
      requires if order == [] then queue == x && x.prev == x else queue == order[0]
      modifies order`next, order`prev, x`next, x`prev
      ensures Links(order + [x])
    {
      var last := queue.prev;
      last.next := x;
      x.prev := last;
      x.next := queue;
      queue.prev := x;
      if order == [] {
        LinksOne(x);
      } else {
        assert Extended(order, x);
        ExtendedLinks(order, x);
      }
    }

    method PushBack(x: ListNode<T>)
      requires Distinct(order) && Links(order) && count == |order| && x !in order
      requires if order == [] then queue == null || (queue == x && x.prev == x) else queue == order[0]
      requires count < N
      modifies `count, `queue, `order, order`next, order`prev, x`next, x`prev
      ensures order == old(order) + [x] && QueueOk()
      ensures table[..] == old(table[..]) && ix == old(ix)
    {
      hide Links;
      DistinctAppend(order, x);
      count := count + 1;
      if queue != null {
        LinkLast(x);
      } else {
        queue := x;
        queue.next := x;
        queue.prev := x;
        LinksOne(x);
      }
      order := order + [x];
    }

    method PopFront()
      requires QueueOk() && order != []
      modifies `count, `queue, `order, order`next, order`prev
      ensures order == RemoveAt(old(order), 0) && QueueOk() && old(order[0]) !in order
      ensures table[..] == old(table[..]) && ix == old(ix)
      ensures order == [] ==> queue == old(order[0]) == old(order[0]).prev
    {
      ghost var q := order;
      count := count - 1;
      var last := queue.prev;
      var successor := queue.next;
      successor.prev := last;
      last.next := successor;
      queue := successor;
      assert Bridged(q, 0);
      BridgedLinks(q, 0);
      DistinctRemove(q, 0);
      order := RemoveAt(q, 0);
    }

    /** Moves the node in slot s to the most recently used end. */
    method Promote(s: nat, ghost i: nat)
      requires QueueOk() && s < table.Length && i < |order| && table[s] == order[i] && count <= N
      modifies `count, `queue, `order, order`next, order`prev
      ensures order == MovedToEnd(old(order), i) && QueueOk()
      ensures table[..] == old(table[..]) && ix == old(ix)
    {
      var node := table[s];
      Detach(node, i);
      if node == queue {
        queue := queue.next;
      }
      PushBack(node);
    }

    lemma ResidentHolds(k: nat)
      requires TableOk()
      ensures k in ix.cell <==> Holds(ix.slots, k)
    {
      if k in ix.cell {
        assert ix.Locates(k);
      }
      if Holds(ix.slots, k) {
        var s :| 0 <= s < |ix.slots| && ix.slots[s] == Some(k);
        assert SlotOk(table[..], ix, s);
      }
    }

    lemma SlotAt(h: nat)
      requires TableOk() && KeyFieldsOk() && h < N
      ensures table[h] == null <==> ix.slots[h].None?
      ensures table[h] != null ==>
        ix.slots[h] == Some(table[h].key) && table[h].key in ix.cell && ix.cell[table[h].key] == table[h]
        && table[h].key in ix.at && ix.at[table[h].key] == h
    {
      assert SlotOk(table[..], ix, h);
    }

    /** What the probe loop has learned when it stops. */
    lemma ProbeVerdict(k: nat, cnt: nat)
      requires TableOk() && KeyFieldsOk() && Reachable(ix.slots)
      requires 1 <= cnt <= N + 1 && Passed(ix.slots, k, cnt - 1)
      requires cnt <= N && table[Step(Hash(k, N), cnt - 1, N)] != null
        ==> table[Step(Hash(k, N), cnt - 1, N)].key == k
      ensures cnt > N || table[Step(Hash(k, N), cnt - 1, N)] == null <==> k !in ix.cell
    {
      ResidentHolds(k);
      if cnt > N {
        PassedAll(ix.slots, k);
      } else {
        SlotAt(Step(Hash(k, N), cnt - 1, N));
        if table[Step(Hash(k, N), cnt - 1, N)] == null {
          HoleMeansAbsent(ix.slots, k, cnt - 1);
        }
      }
    }

    /**
     * The probe loop of Get: stops at the slot of k, at an empty slot, or after N probes, and
     * in the last two cases k is not resident.
     */
    method Probe(k: nat) returns (h: nat, cnt: nat)
      requires TableOk() && KeyFieldsOk() && Reachable(ix.slots)
      ensures h < N
      ensures table[h] == null || cnt > N <==> k !in ix.cell
      ensures k in ix.cell ==> table[h] == ix.cell[k]
    {
      h := Hash(k, N);
      cnt := 1;
      while cnt <= N && table[h] != null && table[h].key != k
        invariant 1 <= cnt <= N + 1 && h == Step(Hash(k, N), cnt - 1, N)
        invariant Passed(ix.slots, k, cnt - 1)
      {
        SlotAt(h);
        PassedStep(ix.slots, k, cnt - 1);
        StepNext(Hash(k, N), cnt - 1, N);
        h := Rehash(h, N);
        cnt := cnt + 1;
      }
      ProbeVerdict(k, cnt);
      SlotAt(h);
    }

    /** Promote, seen from the recency list. */
    method Refresh(h: nat, ghost i: nat)
      requires QueueOk() && InStep(keys, order, ix.cell) && count <= N
      requires h < table.Length && i < |keys| && table[h] == order[i]
      modifies `count, `queue, `order, `keys, order`next, order`prev
      ensures QueueOk() && InStep(keys, order, ix.cell) && table[..] == old(table[..]) && ix == old(ix)
      ensures count == old(count) && pool == old(pool) && made == old(made) && order != []
      ensures keys == Without(old(keys), old(keys)[i]) + [old(keys)[i]]
    {
      InStepMoved(keys, order, ix.cell, i);
      Promote(h, i);
      keys := MovedToEnd(keys, i);
    }

    /** Reordering the queue does not disturb the table. */
    twostate lemma TableKept()
      requires old(TableOk()) && table[..] == old(table[..]) && ix == old(ix)
      ensures TableOk()
    {
    }

    twostate lemma KeyFieldsKept()
      requires old(KeyFieldsOk()) && ix == old(ix) && made == old(made)
      requires forall n :: n in made ==> n.key == old(n.key) && n.value == old(n.value)
      ensures KeyFieldsOk()
      ensures old(AllResident(ix.cell, made, null)) ==> AllResident(ix.cell, made, null)
    {
    }

    lemma OneKeyEach()
      requires InStep(keys, order, ix.cell)
      ensures |keys| == |order|
    {
    }

    lemma ResidentListed(k: nat)
      requires InStep(keys, order, ix.cell)
      ensures k in ix.cell <==> k in keys
    {
      if k in ix.cell {
        assert Listed(keys, k);
      }
      if k in keys {
        var i :| 0 <= i < |keys| && keys[i] == k;
        assert PlaceOk(keys, order, ix.cell, i);
      }
    }

    /** The cached value for k, made most recent; null exactly on a miss. */
    method Get(k: nat) returns (r: ListNode?<T>)
      requires Valid()
      modifies `count, `queue, `order, `keys, order`next, order`prev
      ensures Valid() && ix == old(ix) && made == old(made)
      ensures r != null <==> k in old(keys)
      ensures r != null ==> k in ix.cell && r == ix.cell[k] && keys == Without(old(keys), k) + [k]
      ensures r == null ==> keys == old(keys) && order == old(order)
    {
      hide Links, Indexed, InStep, Reachable;
      var h, cnt := Probe(k);
      ResidentListed(k);
      if table[h] == null || cnt > N {
        return null;
      }
      ghost var i := PlaceOf(keys, order, ix.cell, k);
      Refresh(h, i);
      TableKept();
      KeyFieldsKept();
      return table[h];
    }

    /** A spare node from the pool, or a new one. */
    method AllocNode() returns (node: ListNode<T>)
      requires KeyFieldsOk() && AllResident(ix.cell, made, pool) && (pool != null ==> pool in made)
      modifies `pool, `made
      ensures made == old(made) + {node} && KeyFieldsOk() && AllResident(ix.cell, made, node)
      ensures old(pool) != null ==> node == old(pool) && pool == old(pool.next)
      ensures old(pool) == null ==> fresh(node) && pool == null
    {
      if pool != null {
        node := pool;
        assert made + {node} == made;
        pool := pool.next;
      } else {
        var uninitialised: T := *;
        node := new ListNode(0, uninitialised);
        made := made + {node};
      }
    }

    /** Calls the uncache callback and puts the node into the pool. */
    method FreeNode(node: ListNode<T>)
      modifies `pool, node`next, cb`store
      ensures pool == node && node.next == old(pool)
      ensures cb.store == old(cb.store)[node.key := node.value]
      ensures forall n :: n in made ==> n.key == old(n.key) && n.value == old(n.value)
    {
      cb.Uncache(node.key, node.value);
      node.next := pool;
      pool := node;
    }

    lemma NodeOf(k: nat)
      requires KeyFieldsOk() && k in ix.cell
      ensures ix.cell[k] in made && ix.cell[k].key == k
      ensures k in ix.contents && ix.cell[k].value == ix.contents[k]
    {
    }

    /** The probe loop of erase: in a full table it meets k without passing a null slot. */
    method SlotOf(k: nat) returns (h: nat)
      requires TableOk() && KeyFieldsOk() && Full(ix.slots) && k in ix.cell
      ensures ix.Locates(k) && h == ix.at[k] && h < N && table[h] == ix.cell[k]
    {
      h := Hash(k, N);
      ghost var s := ix.at[k];
      assert ix.Locates(k);
      SlotAt(s);
      SlotAt(h);
      while table[h].key != k
        invariant h < N && table[h] != null
        decreases Offset(h, s, N)
      {
        CloserAfterRehash(h, s, N);
        h := Rehash(h, N);
        SlotAt(h);
      }
      SlotAt(h);
    }

    /** Emptying k's slot leaves the other nodes resident and this one spare. */
    lemma ErasedNodes(k: nat)
      requires KeyFieldsOk() && AllResident(ix.cell, made, null) && k in ix.cell && ix.Locates(k)
      ensures KeysMatch(ix.Erased(k).cell, ix.Erased(k).contents, made)
      ensures AllResident(ix.Erased(k).cell, made, ix.cell[k])
    {
    }

    method Erase(k: nat, ghost node: ListNode<T>)
      requires TableOk() && KeyFieldsOk() && AllResident(ix.cell, made, null) && Full(ix.slots)
      requires k in ix.cell && k in ix.contents && ix.Locates(k) && node == ix.cell[k]
      modifies `pool, `ix, table, node`next, cb`store
      ensures pool == node && node.next == old(pool)
      ensures ix == old(ix).Erased(k) && TableOk() && KeyFieldsOk() && AllResident(ix.cell, made, node)
      ensures cb.store == old(cb.store)[k := old(ix.contents)[k]]
    {
      hide Indexed;
      var h := SlotOf(k);
      ErasedIndexed(table[..], ix, k);
      FreeNode(table[h]);
      table[h] := null;
      ErasedNodes(k);
      ix := ix.Erased(k);
    }

    /** The probe loop of Set: some slot is free, and the loop stops at the first one. */
    method FindHole(k: nat) returns (h: nat, ghost c: nat)
      requires TableOk() && k !in ix.cell && !Full(ix.slots)
      ensures c < N && h == Step(Hash(k, N), c, N)
      ensures table[h] == null && ix.slots[h].None? && Passed(ix.slots, k, c)
    {
      h, c := Hash(k, N), 0;
      while table[h] != null
        invariant c < N && h == Step(Hash(k, N), c, N)
        invariant Passed(ix.slots, k, c)
        decreases N - c
      {
        assert SlotOk(table[..], ix, h);
        PassedStep(ix.slots, k, c);
        StepNext(Hash(k, N), c, N);
        h, c := Rehash(h, N), c + 1;
        if c == N {
          PassedAll(ix.slots, k);
        }
      }
      assert SlotOk(table[..], ix, h);
    }

    /** The queue is linked up, or empty and left pointing at the node about to be reused. */
    ghost predicate QueueReady(x: ListNode<T>)
      reads `order, `count, `queue, order`next, order`prev, x`prev
    {
      && Distinct(order) && Links(order) && count == |order| && x !in order
      && if order == [] then queue == null || (queue == x && x.prev == x) else queue == order[0]
    }

    /** The free slot for a new key, chosen so that filling it keeps every key reachable. */
    method ChooseSlot(k: nat) returns (h: nat)
      requires TableOk() && k !in ix.cell && Occupied(ix.slots) < N
      requires Reachable(ix.slots) || Occupied(ix.slots) == N - 1
      ensures h < N && table[h] == null
      ensures Reachable(ix.slots[h := Some(k)])
      ensures Occupied(ix.slots[h := Some(k)]) == Occupied(ix.slots) + 1
    {
      ghost var c;
      OccupiedFull(ix.slots);
      h, c := FindHole(k);
      FillKeepsReachable(ix.slots, k, c);
    }

    /** Lines 94 to 103 of the source: the node goes into the free slot and to the queue's end. */
    method Enter(h: nat, k: nat, entry: ListNode<T>)
      requires QueueReady(entry) && count < N && h < table.Length
      modifies `count, `queue, `order, order`next, order`prev, entry`next, entry`prev, entry`key, table
      ensures order == old(order) + [entry] && QueueOk() && queue != null
      ensures table[..] == old(table[..])[h := entry] && ix == old(ix) && made == old(made)
      ensures keys == old(keys) && pool == old(pool) && cb.store == old(cb.store)
      ensures entry.key == k
      ensures forall n :: n in made && n != entry ==> n.key == old(n.key)
      ensures forall n :: n in made ==> n.value == old(n.value)
    {
      hide Links, Indexed, InStep, Reachable, KeysMatch, AllResident, Distinct;
      table[h] := entry;
      PushBack(entry);
      entry.key := k;
      Promote(h, |order| - 1);
    }

    /** Whatever the eviction left is what an insertion needs. */
    ghost predicate Open()
      reads this, table, order`next, order`prev, made`key, made`value, made`next, made`prev
    {
      && TableOk() && KeyFieldsOk() && InStep(keys, order, ix.cell)
      && (Reachable(ix.slots) || Occupied(ix.slots) == N - 1)
      && Occupied(ix.slots) == count == |order| < N
      && Distinct(order) && Links(order)
      && (order != [] ==> queue == order[0])
      && AllResident(ix.cell, made, pool)
      && (pool == null ==> order == [] ==> queue == null)
      && (pool != null ==>
            pool in made && pool.next == null && pool !in order
            && (order == [] ==> queue == null || (queue == pool && pool.prev == pool)))
    }

    /** The index with entry in slot h fits the table and queue that Enter will leave. */
    lemma Prepare(h: nat, k: nat, entry: ListNode<T>) returns (next: Index<T>)
      requires TableOk() && KeyFieldsOk() && InStep(keys, order, ix.cell)
      requires h < N && table[h] == null && k !in ix.cell && entry !in order
      requires AllResident(ix.cell, made, entry)
      ensures next == ix.Filled(h, k, entry, entry.value)
      ensures Indexed(table[..][h := entry], next)
      ensures InStep(keys + [k], order + [entry], next.cell)
      ensures next.Awaits(k, entry, made)
    {
      next := ix.Filled(h, k, entry, entry.value);
      InStepFilled(keys, order, ix.cell, k, entry);
      FilledIndexed(table[..], ix, h, k, entry, entry.value);
      assert next.cell - {k} == ix.cell;
    }

    method Attach(h: nat, k: nat, entry: ListNode<T>, ghost next: Index<T>)
      requires QueueReady(entry) && count < N && pool == null
      requires table.Length == N && h < N && entry in made
      requires Indexed(table[..][h := entry], next) && next.Awaits(k, entry, made)
      requires InStep(keys + [k], order + [entry], next.cell)
      requires Reachable(next.slots) && Occupied(next.slots) == count + 1
      modifies `count, `queue, `order, `keys, `ix, table,
        order`next, order`prev, entry`next, entry`prev, entry`key
      ensures Valid() && keys == old(keys) + [k] && ix == next && cb.store == old(cb.store)
    {
      hide Links, Indexed, InStep, Reachable;
      keys := keys + [k];
      ix := next;
      Enter(h, k, entry);
      assert forall j :: j in ix.cell && j != k ==> j in ix.cell - {k};
    }

    /** The node for a new entry, and the queue ready to take it. */
    method TakeNode() returns (node: ListNode<T>)
      requires Open()
      modifies `pool, `made
      ensures QueueReady(node) && pool == null
      ensures KeyFieldsOk() && AllResident(ix.cell, made, node)
      ensures made == old(made) + {node} && if old(pool) != null then node == old(pool) else fresh(node)
    {
      hide Links, Indexed, InStep, Reachable, KeysMatch, AllResident, Distinct, Index.Awaits;
      node := AllocNode();
    }

    /** Lines 88 to 104 of the source. */
    method Insert(k: nat) returns (r: ListNode<T>)
      requires Open() && k !in ix.cell
      modifies `pool, `count, `queue, `order, `keys, `ix, `made, table,
        order`next, order`prev, made`next, made`prev, made`key
      ensures Valid() && keys == old(keys) + [k] && cb.store == old(cb.store)
      ensures k in ix.cell && r == ix.cell[k] && ix.contents == old(ix.contents)[k := r.value]
      ensures made == old(made) + {r} && if old(pool) != null then r == old(pool) else fresh(r)
    {
      hide Links, Indexed, InStep, Reachable, KeysMatch, AllResident, Index.Awaits, Distinct, QueueReady;
      var h := ChooseSlot(k);
      r := TakeNode();
      ghost var next := Prepare(h, k, r);
      Attach(h, k, r, next);
    }

    /** Unlinks the front node and erases its key. */
    method DropFront(ghost k: nat)
      requires QueueOk() && order != [] && pool == null
      requires TableOk() && KeyFieldsOk() && AllResident(ix.cell, made, null)
      requires Full(ix.slots) && k in ix.cell && k in ix.contents && ix.Locates(k) && ix.cell[k] == order[0]
      modifies `pool, `count, `queue, `order, `ix, table, order`next, order`prev, cb`store
      ensures order == RemoveAt(old(order), 0) && Distinct(order) && Links(order) && count == |order|
      ensures pool == old(order)[0] && pool !in order && pool.next == null
      ensures if order == [] then queue == pool && pool.prev == pool else queue == order[0]
      ensures ix == old(ix).Erased(k) && made == old(made) && keys == old(keys)
      ensures TableOk() && KeyFieldsOk() && AllResident(ix.cell, made, pool)
      ensures cb.store == old(cb.store)[k := old(ix.contents)[k]]
    {
      hide Links, Indexed, KeysMatch;
      var tmp := queue;
      NodeOf(k);
      PopFront();
      TableKept();
      KeyFieldsKept();
      Erase(tmp.key, tmp);
    }

    /** Lines 82 to 86 of the source: the least recently used entry leaves, by the callback. */
    method Evict()
      requires Valid() && count >= N
      modifies `pool, `count, `queue, `order, `keys, `ix, table, order`next, order`prev, cb`store
      ensures Open() && made == old(made)
      ensures keys == old(keys)[1..] && order == RemoveAt(old(order), 0)
      ensures old(keys)[0] in old(ix.contents) && ix.contents == old(ix.contents) - {old(keys)[0]}
      ensures ix.cell == old(ix.cell) - {old(keys)[0]}
      ensures cb.store == old(cb.store)[old(keys)[0] := old(ix.contents)[old(keys)[0]]]
    {
      ghost var k := keys[0];
      InStepPopped(keys, order, ix.cell);
      OccupiedFull(ix.slots);
      assert ix.Locates(k);
      OccupiedUpdate(ix.slots, ix.at[k], None);
      keys := keys[1..];
      DropFront(k);
    }

    /** Set with no value: a new entry for k; a full cache loses the least recently used one. */
    method Set(k: nat) returns (r: ListNode<T>)
      requires Valid() && k !in keys
      modifies `pool, `count, `queue, `order, `keys, `ix, `made, table,
        order`next, order`prev, made`next, made`prev, made`key, cb`store
      ensures Valid() && keys == Touch(old(keys), k, N)
      ensures made == old(made) + {r} && (r in old(made) || fresh(r)) && |made| <= N
      ensures k in ix.cell && r == ix.cell[k]
      ensures |old(keys)| < N ==>
        ix.contents == old(ix.contents)[k := r.value] && cb.store == old(cb.store)
      ensures |old(keys)| >= N ==>
        && old(keys)[0] in old(ix.contents)
        && ix.contents == (old(ix.contents) - {old(keys)[0]})[k := r.value]
        && cb.store == old(cb.store)[old(keys)[0] := old(ix.contents)[old(keys)[0]]]
    {
      hide Links, Indexed, InStep, Reachable, KeysMatch, AllResident;
      ResidentListed(k);
      OneKeyEach();
      if count >= N {
        Evict();
      }
      r := Insert(k);
      MadeAtMostN();
    }

    /** The holder of a pointer that Get or Set returned writes the value in place. */
    method Assign(k: nat, node: ListNode<T>, v: T)
      requires Valid() && k in ix.cell && node == ix.cell[k]
      modifies `ix, node`value
      ensures Valid() && keys == old(keys) && made == old(made)
      ensures ix == old(ix).(contents := old(ix.contents)[k := v]) && node.value == v
    {
      hide Links, Indexed, InStep, Reachable;
      AssignedIndexed(table[..], ix, k, v);
      node.value := v;
      ix := ix.(contents := ix.contents[k := v]);
    }

    lemma OrderMade()
      requires Valid()
      ensures forall n :: n in order ==> n in made
    {
      forall n | n in order ensures n in made {
        var i :| 0 <= i < |order| && order[i] == n;
        assert PlaceOk(keys, order, ix.cell, i);
      }
    }

    /** No more than N nodes are ever made: each is in the queue. */
    lemma MadeAtMostN()
      requires Valid()
      ensures |made| <= N
    {
      hide Links, Indexed, KeysMatch;
      OrderMade();
      forall n | n in made ensures n in order {
        MadeListed(n);
      }
      assert made == Elements(order);
      DistinctElements(order);
    }

    lemma MadeListed(n: ListNode<T>)
      requires InStep(keys, order, ix.cell) && KeyFieldsOk() && AllResident(ix.cell, made, null) && n in made
      ensures n in order
    {
      ghost var i := PlaceOf(keys, order, ix.cell, n.key);
    }

    /** Resident means listed in the order, in the table, and with a node holding the value. */
    lemma ResidentFacts(k: nat)
      requires Valid()
      ensures (k in ix.cell <==> k in keys) && (k in ix.cell <==> k in ix.contents)
      ensures k in ix.cell ==> ix.cell[k] in made && ix.cell[k].value == ix.contents[k]
    {
      ResidentListed(k);
    }

    lemma FrontLinks()
      requires QueueOk() && 2 <= |order|
      ensures queue == order[0] && queue.next == order[1] && queue.prev == order[|order| - 1]
      ensures queue != queue.next && queue != queue.prev
    {
    }

    /** The statements of detach, with nothing assumed about the queue. */
    method RawDetach(x: ListNode<T>)
      requires count > 0 && x.prev != null && x.next != null
      modifies `count, x.prev`next, x.next`prev
      ensures count == old(count) - 1
      ensures old(x.prev).next == old(x.next) && old(x.next).prev == old(x.prev)
    {
      count := count - 1;
      x.prev.next := x.next;
      x.next.prev := x.prev;
    }

    /** The statements of push_back on a non-empty queue, with nothing else assumed about it. */
    method RawPushBack(x: ListNode<T>)
      requires queue != null && queue.prev != null && queue != x && count < N
      modifies `count, queue.prev`next, x`prev, x`next, queue`prev
      ensures count == old(count) + 1
      ensures x.prev == old(queue.prev) && x.next == queue && queue.prev == x
    {
      count := count + 1;
      var last := queue.prev;
      last.next := x;
      x.prev := last;
      x.next := queue;
      queue.prev := x;
    }

    /** What get does to a node that pop_front has already unlinked: it is queued again. */
    method Requeue(node: ListNode<T>, ghost last: ListNode<T>)
      requires queue != null && node != queue && node.next == queue && node.prev == last && last != node
      requires queue.prev == last && 0 < count <= N
      modifies `count, queue`prev, last`next, node`prev, node`next
      ensures count == old(count) && queue.prev == node && node.next == queue
    {
      RawDetach(node);
      RawPushBack(node);
    }

    /**
     * Lines 82 to 86 of Set on a full cache, with the callback that fs.cc installs: uncache calls
     * write_block, which calls Get on the key being evicted and so queues the victim again while
     * it is being freed.
     */
    method EvictReentrant() returns (h: nat)
      requires Valid() && count == N && 2 <= N
      modifies `pool, `count, `queue, table, made, cb`store
      ensures h < N && table[h] == null && count == N - 1
      ensures pool != null && pool.next == null && pool in old(made)
      ensures queue != null && queue in old(made) && queue != pool && queue.prev == pool
    {
      hide Links, Indexed, InStep, Reachable, KeysMatch, AllResident;
      AllOccupied();
      OrderMade();
      FrontLinks();
      ghost var k := FrontKey();
      var tmp := queue;
      count := count - 1;
      var last := queue.prev;
      var successor := queue.next;
      successor.prev := last;
      last.next := successor;
      queue := successor;
      h := SlotOf(tmp.key);
      var node := table[h];
      Requeue(node, last);
      cb.Uncache(node.key, node.value);
      node.next := pool;
      pool := node;
      table[h] := null;
    }

    lemma AllOccupied()
      requires TableOk() && Occupied(ix.slots) == N
      ensures Full(ix.slots)
    {
      OccupiedFull(ix.slots);
    }

    /** The rest of Set after EvictReentrant: the node for k is the victim, out of the pool. */
    method InsertReentrant(h: nat, k: nat) returns (r: ListNode<T>)
      requires h < table.Length && count < N && pool != null && pool.next == null
      requires queue != null && queue != pool && queue.prev == pool
      modifies `pool, `count, table, pool, queue
      ensures count == old(count) + 1 && r.key == k && queue == old(queue) && r != queue && r.prev == r
    {
      r := pool;
      pool := r.next;
      table[h] := r;
      RawPushBack(r);
      r.key := k;
      RawDetach(r);
      RawPushBack(r);
    }

    /**
     * Set with the callback that fs.cc installs keeps the queue a ring exactly when nothing has to
     * be evicted: otherwise the new entry ends up as its own predecessor next to other nodes.
     */
    method SetWithUncache(k: nat) returns (r: ListNode<T>)
      requires Valid() && k !in keys && 2 <= N
      modifies `pool, `count, `queue, `order, `keys, `ix, `made, table,
        order`next, order`prev, made, cb`store
      ensures old(count) < N ==> Valid() && keys == Touch(old(keys), k, N) && k in ix.cell && r == ix.cell[k]
      ensures old(count) >= N ==> count == N && r.key == k && queue != null && r != queue && r.prev == r
    {
      hide Links, Indexed, InStep, Reachable, KeysMatch, AllResident;
      if count < N {
        r := Set(k);
      } else {
        var h := EvictReentrant();
        r := InsertReentrant(h, k);
      }
    }

    lemma FrontKey() returns (k: nat)
      requires InStep(keys, order, ix.cell) && KeyFieldsOk() && order != []
      ensures k in ix.cell && ix.cell[k] == order[0] && order[0].key == k
    {
      assert PlaceOk(keys, order, ix.cell, 0);
      k := keys[0];
    }
  }

  /** No ring contains a node that is its own predecessor together with another node. */
  lemma SelfLinkBreaksRing<T>(q: seq<ListNode<T>>, x: ListNode<T>, y: ListNode<T>)
    requires Distinct(q) && x in q && y in q && x != y && x.prev == x
    ensures !Links(q)
  {
    var i :| 0 <= i < |q| && q[i] == x;
    var j :| 0 <= j < |q| && q[j] == y;
    assert Before(i, |q|) != i;
  }
}
