/** Circular doubly-linked lists, seen as the sequence of their nodes. */
module Ring {
  import opened Common

  class ListNode<T> {
    var key: nat
    var prev: ListNode?<T>
    var next: ListNode?<T>
    var value: T

    constructor (k: nat, v: T)
      ensures prev == null && next == null
    {
      key, value, prev, next := k, v, null, null;
    }
  }

  /** Index of the successor on a ring of n nodes. */
  function After(i: nat, n: nat): nat
    requires i < n
  {
    if i + 1 == n then 0 else i + 1
  }

  /** Index of the predecessor on a ring of n nodes. */
  function Before(i: nat, n: nat): nat
    requires i < n
  {
    if i == 0 then n - 1 else i - 1
  }

  /** The nodes of q form one ring in this order, with prev and next inverse to each other. */
  ghost predicate Links<T>(q: seq<ListNode<T>>)
    reads q`next, q`prev
  {
    && (forall i {:trigger q[i].next} :: 0 <= i < |q| ==> q[i].next == q[After(i, |q|)])
    && (forall i {:trigger q[i].prev} :: 0 <= i < |q| ==> q[i].prev == q[Before(i, |q|)])
  }

  /** The state after unlinking q[i]: its neighbours point past it, it still points to them. */
  ghost predicate Bridged<T>(q: seq<ListNode<T>>, i: nat)
    requires i < |q|
    reads q`next, q`prev
  {
    var n := |q|;
    && (forall j {:trigger q[j].next} :: 0 <= j < n ==>
          q[j].next == if j == Before(i, n) then q[After(i, n)] else q[After(j, n)])
    && (forall j {:trigger q[j].prev} :: 0 <= j < n ==>
          q[j].prev == if j == After(i, n) then q[Before(i, n)] else q[Before(j, n)])
  }

  /** The state after linking x in between the last and the first node of q. */
  ghost predicate Extended<T>(q: seq<ListNode<T>>, x: ListNode<T>)
    requires q != []
    reads q`next, q`prev, x`next, x`prev
  {
    var n := |q|;
    && (forall j {:trigger q[j].next} :: 0 <= j < n ==> q[j].next == if j == n - 1 then x else q[j + 1])
    && (forall j {:trigger q[j].prev} :: 0 <= j < n ==> q[j].prev == if j == 0 then x else q[j - 1])
    && x.next == q[0] && x.prev == q[n - 1]
  }

  /** Position in the longer ring of position j of the ring without position i. */
  function Skip(i: nat, j: nat): nat {
    if j < i then j else j + 1
  }

  lemma SkipAfter(i: nat, j: nat, n: nat)
    requires i < n && j < n - 1
    ensures Skip(i, After(j, n - 1)) == if Skip(i, j) == Before(i, n) then After(i, n) else After(Skip(i, j), n)
    ensures Skip(i, Before(j, n - 1)) == if Skip(i, j) == After(i, n) then Before(i, n) else Before(Skip(i, j), n)
  {
  }

  lemma RemovedAt<T>(q: seq<T>, i: nat)
    requires i < |q|
    ensures |RemoveAt(q, i)| == |q| - 1
    ensures forall j :: 0 <= j < |q| - 1 ==> RemoveAt(q, i)[j] == q[Skip(i, j)]
  {
  }

  /** Unlinking a node leaves the ring of the others. */
  lemma BridgedLinks<T>(q: seq<ListNode<T>>, i: nat)
    requires i < |q| && Bridged(q, i)
    ensures Links(RemoveAt(q, i))
  {
    var n, r := |q|, RemoveAt(q, i);
    RemovedAt(q, i);
    forall j | 0 <= j < |r| ensures r[j].next == r[After(j, |r|)] && r[j].prev == r[Before(j, |r|)] {
      SkipAfter(i, j, n);
      var m := Skip(i, j);
      assert q[m].next == r[After(j, n - 1)];
      assert q[m].prev == r[Before(j, n - 1)];
    }
  }

  /** Linking a node in before the first one leaves the ring with that node last. */
  lemma ExtendedLinks<T>(q: seq<ListNode<T>>, x: ListNode<T>)
    requires q != [] && Extended(q, x)
    ensures Links(q + [x])
  {
    var n, r := |q|, q + [x];
    forall j | 0 <= j < |r| ensures r[j].next == r[After(j, |r|)] && r[j].prev == r[Before(j, |r|)] {
      if j < n {
        assert q[j].next == r[After(j, n + 1)];
        assert q[j].prev == r[Before(j, n + 1)];
      }
    }
  }

  /** A node that links to itself is a ring of one. */
  lemma LinksOne<T>(x: ListNode<T>)
    requires x.next == x && x.prev == x
    ensures Links([x]) && Links([] + [x])
  {
    assert [] + [x] == [x];
  }

  lemma DistinctRemove<T>(q: seq<T>, i: nat)
    requires Distinct(q) && i < |q|
    ensures Distinct(RemoveAt(q, i)) && q[i] !in RemoveAt(q, i)
  {
  }

  lemma DistinctAppend<T>(q: seq<T>, x: T)
    requires Distinct(q) && x !in q
    ensures Distinct(q + [x])
  {
  }
}
