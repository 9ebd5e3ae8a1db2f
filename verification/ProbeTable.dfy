/**
 * Linear probing over a table of N slots, as the block cache uses it: an entry is erased by
 * emptying its slot, without a tombstone and without moving later entries back.
 */
module ProbeTable {
  import opened Common

  /** The key in each slot, or None for a null slot. */
  type Slots = seq<Option<nat>>

  function Hash(value: nat, n: nat): (h: nat)
    requires 1 <= n
    ensures h < n
  {
    value % n
  }

  function Rehash(value: nat, n: nat): (h: nat)
    requires 1 <= n
    ensures value < n ==> h == if value + 1 == n then 0 else value + 1
  {
    var h := Hash(value + 1, n);
    assert value < n ==> h == if value + 1 == n then 0 else value + 1 by {
      if value + 1 < n {
        SmallRemainder(value + 1, n);
      } else if value + 1 == n {
        assert n % n == 0;
      }
    }
    h
  }

  lemma SmallRemainder(v: nat, n: nat)
    requires v < n
    ensures v % n == v
  {
  }

  /** Number of rehash steps from slot h to slot s. */
  function Offset(h: nat, s: nat, n: nat): nat
    requires h < n && s < n
  {
    if h <= s then s - h else s + n - h
  }

  /** The slot i rehash steps after h, for i up to n. */
  function Step(h: nat, i: nat, n: nat): (s: nat)
    requires h < n && i <= n
    ensures s < n
    ensures i < n ==> Offset(h, s, n) == i
  {
    if h + i < n then h + i else h + i - n
  }

  lemma StepNext(h: nat, i: nat, n: nat)
    requires h < n && i < n
    ensures Rehash(Step(h, i, n), n) == Step(h, i + 1, n)
  {
  }

  /** If slot j lies on the probe path of the key in slot s, then slot j is occupied. */
  ghost predicate PathOk(t: Slots, s: nat, j: nat)
    requires s < |t| && j < |t|
  {
    t[s].Some? && Offset(Hash(t[s].value, |t|), j, |t|) <= Offset(Hash(t[s].value, |t|), s, |t|) ==> t[j].Some?
  }

  /** No probe for a resident key meets an empty slot before the key's own slot. */
  ghost predicate Reachable(t: Slots) {
    forall s, j :: 0 <= s < |t| && 0 <= j < |t| ==> PathOk(t, s, j)
  }

  ghost predicate Full(t: Slots) {
    forall s :: 0 <= s < |t| ==> t[s].Some?
  }

  /** Slot j, if among the first c probes for k, is occupied by another key. */
  ghost predicate PassedAt(t: Slots, k: nat, c: nat, j: nat)
    requires j < |t|
  {
    Offset(Hash(k, |t|), j, |t|) < c ==> t[j].Some? && t[j].value != k
  }

  /** The first c probes for k, from its hash on, met occupied slots with other keys. */
  ghost predicate Passed(t: Slots, k: nat, c: nat) {
    1 <= |t| && forall j :: 0 <= j < |t| ==> PassedAt(t, k, c, j)
  }

  ghost predicate Holds(t: Slots, k: nat) {
    exists s :: 0 <= s < |t| && t[s] == Some(k)
  }

  lemma PassedStep(t: Slots, k: nat, c: nat)
    requires c < |t| && Passed(t, k, c)
    requires t[Step(Hash(k, |t|), c, |t|)].Some? && t[Step(Hash(k, |t|), c, |t|)].value != k
    ensures Passed(t, k, c + 1)
  {
    var c' := c + 1;
    forall j | 0 <= j < |t| ensures PassedAt(t, k, c', j) {
      assert PassedAt(t, k, c, j);
    }
  }

  /** A probe that reaches an empty slot has proved the key absent. */
  lemma HoleMeansAbsent(t: Slots, k: nat, c: nat)
    requires Reachable(t) && c < |t| && Passed(t, k, c)
    requires t[Step(Hash(k, |t|), c, |t|)].None?
    ensures !Holds(t, k)
  {
    forall s | 0 <= s < |t| ensures t[s] != Some(k) {
      assert PathOk(t, s, Step(Hash(k, |t|), c, |t|));
      assert PassedAt(t, k, c, s);
    }
  }

  /** A probe over all slots proves the key absent, and the table full. */
  lemma PassedAll(t: Slots, k: nat)
    requires Passed(t, k, |t|)
    ensures !Holds(t, k) && Full(t)
  {
    forall s | 0 <= s < |t| ensures t[s] != Some(k) && t[s].Some? {
      assert PassedAt(t, k, |t|, s);
    }
  }

  /** Filling the first empty slot on the probe path keeps every key reachable. */
  lemma FillFirstHole(t: Slots, k: nat, c: nat)
    requires Reachable(t) && c < |t| && Passed(t, k, c)
    ensures Reachable(t[Step(Hash(k, |t|), c, |t|) := Some(k)])
  {
    var h := Step(Hash(k, |t|), c, |t|);
    var t' := t[h := Some(k)];
    forall s, j | 0 <= s < |t'| && 0 <= j < |t'| ensures PathOk(t', s, j) {
      assert PathOk(t, s, j);
      assert PassedAt(t, k, c, j);
    }
  }

  /** With every slot occupied all keys are reachable, whatever was erased before. */
  lemma FullReachable(t: Slots)
    requires Full(t)
    ensures Reachable(t)
  {
  }

  lemma CloserAfterRehash(h: nat, s: nat, n: nat)
    requires h < n && s < n && h != s
    ensures Offset(Rehash(h, n), s, n) == Offset(h, s, n) - 1
  {
  }

  /** The number of occupied slots. */
  function Occupied(t: Slots): (c: nat)
    ensures c <= |t|
  {
    if t == [] then 0 else (if t[0].Some? then 1 else 0) + Occupied(t[1..])
  }

  lemma {:induction false} OccupiedUpdate(t: Slots, s: nat, e: Option<nat>)
    requires s < |t|
    ensures Occupied(t[s := e]) == Occupied(t) - (if t[s].Some? then 1 else 0) + (if e.Some? then 1 else 0)
  {
    if s == 0 {
      assert t[s := e][1..] == t[1..];
    } else {
      assert t[s := e][1..] == t[1..][s - 1 := e];
      OccupiedUpdate(t[1..], s - 1, e);
    }
  }

  lemma {:induction false} OccupiedNone(t: Slots)
    requires forall s :: 0 <= s < |t| ==> t[s].None?
    ensures Occupied(t) == 0
  {
    if t != [] {
      OccupiedNone(t[1..]);
    }
  }

  lemma {:induction false} OccupiedFull(t: Slots)
    ensures Occupied(t) == |t| <==> Full(t)
  {
    if t != [] {
      OccupiedFull(t[1..]);
      assert Full(t) <==> t[0].Some? && Full(t[1..]) by {
        assert forall s :: 1 <= s < |t| ==> t[s] == t[1..][s - 1];
      }
    }
  }

  /**
   * Filling the first empty slot on the probe path of a new key keeps every key reachable,
   * also when the table was full but for that slot and other keys were cut off.
   */
  lemma FillKeepsReachable(t: Slots, k: nat, c: nat)
    requires Reachable(t) || Occupied(t) == |t| - 1
    requires c < |t| && Passed(t, k, c) && t[Step(Hash(k, |t|), c, |t|)].None?
    ensures Reachable(t[Step(Hash(k, |t|), c, |t|) := Some(k)])
    ensures Occupied(t[Step(Hash(k, |t|), c, |t|) := Some(k)]) == Occupied(t) + 1
  {
    var h := Step(Hash(k, |t|), c, |t|);
    OccupiedUpdate(t, h, Some(k));
    if Occupied(t) == |t| - 1 {
      OccupiedFull(t[h := Some(k)]);
      FullReachable(t[h := Some(k)]);
    } else {
      FillFirstHole(t, k, c);
    }
  }
}
