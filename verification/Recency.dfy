/**
 * Abstract theory of the block cache's replacement order: a sequence of distinct keys,
 * least recently used first.
 */
module Recency {
  import opened Common

  /** The sequence with the first occurrence of k dropped. */
  function Without(s: seq<nat>, k: nat): (r: seq<nat>)
    ensures |r| == if k in s then |s| - 1 else |s|
  {
    if s == [] then [] else if s[0] == k then s[1..] else [s[0]] + Without(s[1..], k)
  }

  /** One access "Get, then Alloc on a miss" seen from outside, with capacity cap. */
  function Touch(order: seq<nat>, k: nat, cap: nat): seq<nat> {
    if k in order then Without(order, k) + [k]
    else if 0 < |order| && cap <= |order| then order[1..] + [k]
    else order + [k]
  }

  /** The replacement order after a whole trace of accesses to an empty cache. */
  function Run(trace: seq<nat>, cap: nat): seq<nat> {
    if trace == [] then []
    else Touch(Run(trace[..|trace| - 1], cap), trace[|trace| - 1], cap)
  }

  /** Index of the last access to k, or -1 when it was never accessed. */
  function LastAccess(trace: seq<nat>, k: nat): int {
    if trace == [] then -1
    else if trace[|trace| - 1] == k then |trace| - 1
    else LastAccess(trace[..|trace| - 1], k)
  }

  /** The keys of s are strictly ordered by their last access in the trace. */
  ghost predicate InAccessOrder(trace: seq<nat>, s: seq<nat>) {
    forall i, j {:trigger LastAccess(trace, s[i]), LastAccess(trace, s[j])} :: 0 <= i < j < |s| ==>
      LastAccess(trace, s[i]) < LastAccess(trace, s[j])
  }

  /** The last cap elements, or everything when there are fewer. */
  function LastOf(s: seq<nat>, cap: nat): seq<nat> {
    if |s| <= cap then s else s[|s| - cap..]
  }

  lemma {:induction false} WithoutAt(s: seq<nat>, i: nat)
    requires Distinct(s) && i < |s|
    ensures Without(s, s[i]) == RemoveAt(s, i)
  {
    if i == 0 {
      assert RemoveAt(s, 0) == s[1..];
    } else {
      WithoutAt(s[1..], i - 1);
      assert RemoveAt(s, i) == [s[0]] + RemoveAt(s[1..], i - 1);
    }
  }

  lemma {:induction false} WithoutAbsent(s: seq<nat>, k: nat)
    requires k !in s
    ensures Without(s, k) == s
  {
    if s != [] {
      WithoutAbsent(s[1..], k);
    }
  }

  lemma {:induction false} WithoutMembers(s: seq<nat>, k: nat)
    requires Distinct(s)
    ensures forall x :: x in Without(s, k) <==> x in s && x != k
    ensures Distinct(Without(s, k))
  {
    if s != [] {
      var t := s[1..];
      assert forall x :: x in s <==> x == s[0] || x in t;
      if s[0] != k {
        WithoutMembers(t, k);
        assert s[0] !in t;
        ConsMembers(s[0], Without(t, k));
      }
    }
  }

  lemma ConsMembers(x: nat, w: seq<nat>)
    requires Distinct(w) && x !in w
    ensures Distinct([x] + w)
    ensures forall y :: y in [x] + w <==> y == x || y in w
  {
  }

  lemma WithoutInOrder(trace: seq<nat>, s: seq<nat>, k: nat)
    requires Distinct(s) && InAccessOrder(trace, s)
    ensures InAccessOrder(trace, Without(s, k))
  {
    hide Without, LastAccess;
    if k in s {
      var i :| 0 <= i < |s| && s[i] == k;
      WithoutAt(s, i);
      var r := RemoveAt(s, i);
      assert forall j :: 0 <= j < |r| ==> r[j] == s[if j < i then j else j + 1];
    } else {
      WithoutAbsent(s, k);
    }
  }

  /** Touch keeps the keys distinct and, from capacity one on, within capacity. */
  lemma TouchKeepsDistinct(order: seq<nat>, k: nat, cap: nat)
    requires Distinct(order) && |order| <= cap && 1 <= cap
    ensures Distinct(Touch(order, k, cap)) && |Touch(order, k, cap)| <= cap
    ensures k in Touch(order, k, cap)
  {
    WithoutMembers(order, k);
  }

  /** The recency list of a trace: an access moves its key to the end. */
  function Recent(trace: seq<nat>): seq<nat> {
    if trace == [] then []
    else
      var k := trace[|trace| - 1];
      Without(Recent(trace[..|trace| - 1]), k) + [k]
  }

  lemma {:induction false} RecentDistinct(trace: seq<nat>)
    ensures Distinct(Recent(trace))
    ensures forall k :: k in Recent(trace) <==> k in trace
  {
    if trace != [] {
      var before, k := trace[..|trace| - 1], trace[|trace| - 1];
      RecentDistinct(before);
      WithoutMembers(Recent(before), k);
      assert trace == before + [k];
    }
  }

  lemma {:induction false} RecentInOrder(trace: seq<nat>)
    ensures InAccessOrder(trace, Recent(trace))
  {
    if trace != [] {
      var before, k := trace[..|trace| - 1], trace[|trace| - 1];
      var w := Without(Recent(before), k);
      RecentInOrder(before);
      RecentDistinct(before);
      WithoutInOrder(before, Recent(before), k);
      WithoutMembers(Recent(before), k);
      forall i | 0 <= i < |w| ensures LastAccess(trace, w[i]) == LastAccess(before, w[i]) < |before| {
        assert w[i] in w;
        LastAccessBound(before, w[i]);
      }
    }
  }

  lemma {:induction false} LastAccessBound(trace: seq<nat>, k: nat)
    ensures -1 <= LastAccess(trace, k) < |trace|
    ensures LastAccess(trace, k) >= 0 ==> trace[LastAccess(trace, k)] == k
  {
    if trace != [] && trace[|trace| - 1] != k {
      LastAccessBound(trace[..|trace| - 1], k);
    }
  }

  lemma {:induction false} LastAccessLast(trace: seq<nat>, k: nat, j: nat)
    requires j < |trace| && trace[j] == k
    ensures j <= LastAccess(trace, k)
  {
    if trace[|trace| - 1] != k {
      LastAccessLast(trace[..|trace| - 1], k, j);
    }
  }

  lemma {:induction false} WithoutInFront(a: seq<nat>, b: seq<nat>, k: nat)
    requires k in a
    ensures Without(a + b, k) == Without(a, k) + b
  {
    var t := a[1..];
    assert (a + b)[1..] == t + b;
    if a[0] != k {
      WithoutInFront(t, b, k);
      assert [a[0]] + (Without(t, k) + b) == ([a[0]] + Without(t, k)) + b;
    }
  }

  lemma {:induction false} WithoutInBack(a: seq<nat>, b: seq<nat>, k: nat)
    requires k !in a
    ensures Without(a + b, k) == a + Without(b, k)
  {
    if a == [] {
      assert a + b == b;
    } else {
      var t := a[1..];
      assert (a + b)[1..] == t + b;
      WithoutInBack(t, b, k);
      assert [a[0]] + (t + Without(b, k)) == a + Without(b, k);
    }
  }

  lemma LastOfAppend(a: seq<nat>, b: seq<nat>)
    ensures LastOf(a + b, |b|) == b
  {
  }

  lemma ShiftWindow(a: seq<nat>, t: seq<nat>, k: nat)
    requires t != []
    ensures LastOf(a + t + [k], |t|) == t[1..] + [k]
  {
    assert a + t + [k] == a + [t[0]] + (t[1..] + [k]);
  }

  lemma TouchOfTailHit(a: seq<nat>, t: seq<nat>, k: nat)
    requires k !in a && k in t
    ensures Touch(t, k, |t|) == LastOf(Without(a + t, k) + [k], |t|)
  {
    var u := Without(t, k) + [k];
    WithoutInBack(a, t, k);
    LastOfAppend(a, u);
    assert a + Without(t, k) + [k] == a + u;
  }

  lemma TouchOfTailEarlier(a: seq<nat>, t: seq<nat>, k: nat)
    requires k in a && k !in t && t != []
    ensures Touch(t, k, |t|) == LastOf(Without(a + t, k) + [k], |t|)
  {
    WithoutInFront(a, t, k);
    ShiftWindow(Without(a, k), t, k);
  }

  lemma TouchOfTailMiss(a: seq<nat>, t: seq<nat>, k: nat)
    requires k !in a + t && t != []
    ensures Touch(t, k, |t|) == LastOf(Without(a + t, k) + [k], |t|)
  {
    WithoutAbsent(a + t, k);
    ShiftWindow(a, t, k);
  }

  lemma OnceOnly(a: seq<nat>, t: seq<nat>, k: nat)
    requires Distinct(a + t)
    ensures k !in a || k !in t
  {
    forall i, j | 0 <= i < |a| && 0 <= j < |t| ensures a[i] != t[j] {
      assert a[i] == (a + t)[i] && t[j] == (a + t)[|a| + j];
    }
  }

  lemma TouchOfTail(a: seq<nat>, t: seq<nat>, k: nat)
    requires t != [] && (k !in a || k !in t)
    ensures Touch(t, k, |t|) == LastOf(Without(a + t, k) + [k], |t|)
  {
    hide Touch, Without, LastOf;
    if k !in a && k in t {
      TouchOfTailHit(a, t, k);
    } else if k !in t && k in a {
      TouchOfTailEarlier(a, t, k);
    } else {
      TouchOfTailMiss(a, t, k);
    }
  }

  lemma TouchOfShort(r: seq<nat>, k: nat, cap: nat)
    requires |r| < cap
    ensures Touch(r, k, cap) == LastOf(Without(r, k) + [k], cap)
  {
    if k !in r {
      WithoutAbsent(r, k);
    }
  }

  /** Touching a truncated recency list is truncating the touched one. */
  lemma TouchOfLast(r: seq<nat>, k: nat, cap: nat)
    requires Distinct(r) && 1 <= cap
    ensures Touch(LastOf(r, cap), k, cap) == LastOf(Without(r, k) + [k], cap)
  {
    hide Touch, Without, Distinct;
    if |r| < cap {
      TouchOfShort(r, k, cap);
    } else {
      var a, t := r[..|r| - cap], r[|r| - cap..];
      assert r == a + t && LastOf(r, cap) == t;
      OnceOnly(a, t, k);
      TouchOfTail(a, t, k);
    }
  }

  lemma {:induction false} RunIsLastOfRecent(trace: seq<nat>, cap: nat)
    requires 1 <= cap
    ensures Run(trace, cap) == LastOf(Recent(trace), cap)
  {
    if trace != [] {
      var before := trace[..|trace| - 1];
      RunIsLastOfRecent(before, cap);
      RecentDistinct(before);
      TouchOfLast(Recent(before), trace[|trace| - 1], cap);
    }
  }

  /** LRU inclusion: on the same trace a smaller cache holds a suffix of what a larger one holds. */
  lemma Inclusion(trace: seq<nat>, small: nat, large: nat)
    requires 1 <= small <= large
    ensures Run(trace, small) == LastOf(Run(trace, large), small)
    ensures forall k :: k in Run(trace, small) ==> k in Run(trace, large)
  {
    RunIsLastOfRecent(trace, small);
    RunIsLastOfRecent(trace, large);
  }

  /** The distinct keys accessed after the last access to k. */
  function Since(trace: seq<nat>, k: nat): set<nat>
    requires -1 <= LastAccess(trace, k) < |trace|
  {
    Elements(trace[LastAccess(trace, k) + 1..])
  }

  lemma LaterAccess(trace: seq<nat>, a: int, x: nat)
    requires -1 <= a < |trace|
    ensures x in trace[a + 1..] <==> LastAccess(trace, x) > a
  {
    var later, p := trace[a + 1..], LastAccess(trace, x);
    LastAccessBound(trace, x);
    if p > a {
      assert later[p - a - 1] == x;
    }
    if x in later {
      var j :| 0 <= j < |later| && later[j] == x;
      LastAccessLast(trace, x, a + 1 + j);
    }
  }

  lemma LaterInOrder(trace: seq<nat>, s: seq<nat>, i: nat, x: nat)
    requires InAccessOrder(trace, s) && i < |s|
    ensures x in s[i + 1..] <==> x in s && LastAccess(trace, x) > LastAccess(trace, s[i])
  {
    if x in s {
      var j :| 0 <= j < |s| && s[j] == x;
      if i < j {
        assert s[i + 1..][j - i - 1] == x;
      }
    }
    if x in s[i + 1..] {
      var j :| i + 1 <= j < |s| && s[j] == x;
    }
  }

  /** What was accessed after entry i of the recency list is what follows it there. */
  lemma SinceIsTail(trace: seq<nat>, i: nat)
    requires i < |Recent(trace)|
    ensures -1 <= LastAccess(trace, Recent(trace)[i]) < |trace|
    ensures Since(trace, Recent(trace)[i]) == Elements(Recent(trace)[i + 1..])
  {
    var s := Recent(trace);
    LastAccessBound(trace, s[i]);
    forall x {:trigger x in Since(trace, s[i])} ensures x in Since(trace, s[i]) <==> x in Elements(s[i + 1..]) {
      SinceMember(trace, i, x);
    }
  }

  lemma SinceMember(trace: seq<nat>, i: nat, x: nat)
    requires i < |Recent(trace)| && -1 <= LastAccess(trace, Recent(trace)[i]) < |trace|
    ensures x in Since(trace, Recent(trace)[i]) <==> x in Elements(Recent(trace)[i + 1..])
  {
    RecentInOrder(trace);
    LaterAccess(trace, LastAccess(trace, Recent(trace)[i]), x);
    LaterInOrder(trace, Recent(trace), i, x);
    if LastAccess(trace, x) > LastAccess(trace, Recent(trace)[i]) {
      SeenInRecent(trace, x);
    }
  }

  lemma SeenInRecent(trace: seq<nat>, x: nat)
    requires LastAccess(trace, x) >= 0
    ensures x in Recent(trace)
  {
    LastAccessBound(trace, x);
    RecentDistinct(trace);
  }

  /**
   * Main result on replacement. Whatever the trace, the cache lists in order of last access
   * exactly the keys with fewer than cap distinct keys accessed since their own last access.
   */
  lemma TraceDeterminesOrder(trace: seq<nat>, cap: nat)
    requires 1 <= cap
    ensures Distinct(Run(trace, cap)) && InAccessOrder(trace, Run(trace, cap))
    ensures forall k :: k in Run(trace, cap) ==> k in trace
    ensures forall k :: k in trace ==>
      0 <= LastAccess(trace, k) < |trace| && (k in Run(trace, cap) <==> |Since(trace, k)| < cap)
  {
    RunIsLastOfRecent(trace, cap);
    RecentDistinct(trace);
    RecentInOrder(trace);
    forall k | k in trace
      ensures 0 <= LastAccess(trace, k) < |trace|
      ensures k in Run(trace, cap) <==> |Since(trace, k)| < cap
    {
      HitExactlyWhenRecent(trace, k, cap);
    }
  }

  /** Stack distance of one key. */
  lemma HitExactlyWhenRecent(trace: seq<nat>, k: nat, cap: nat)
    requires 1 <= cap && k in trace
    ensures 0 <= LastAccess(trace, k) < |trace|
    ensures k in Run(trace, cap) <==> |Since(trace, k)| < cap
  {
    var s := Recent(trace);
    RecentDistinct(trace);
    RunIsLastOfRecent(trace, cap);
    var i :| 0 <= i < |s| && s[i] == k;
    var p :| 0 <= p < |trace| && trace[p] == k;
    LastAccessBound(trace, k);
    LastAccessLast(trace, k, p);
    SinceIsTail(trace, i);
    DistinctElements(s[i + 1..]);
    InLastOf(s, i, cap);
  }

  lemma InLastOf(s: seq<nat>, i: nat, cap: nat)
    requires Distinct(s) && i < |s|
    ensures s[i] in LastOf(s, cap) <==> |s| - i - 1 < cap
  {
    if cap < |s| {
      var d := |s| - cap;
      if d <= i {
        assert s[d..][i - d] == s[i];
      }
    }
  }
}
