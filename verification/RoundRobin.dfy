/** Round-robin turns on a ring of tasks: how long a task waits, whatever joins and leaves the ring. */
module RoundRobin {
  import opened Common
  import opened Ring

  function IndexIn<T(==)>(s: seq<T>, x: T): (i: nat)
    requires x in s
    ensures i < |s| && s[i] == x
  {
    if s[0] == x then 0 else IndexIn(s[1..], x) + 1
  }

  lemma IndexUnique<T>(s: seq<T>, x: T, i: nat)
    requires Distinct(s) && i < |s| && s[i] == x
    ensures IndexIn(s, x) == i
  {
    assert s[IndexIn(s, x)] == s[i];
  }

  lemma Stays<T>(s: seq<T>, i: nat, t: T)
    requires Distinct(s) && i < |s| && t in s && t != s[i]
    ensures t in RemoveAt(s, i)
    ensures IndexIn(RemoveAt(s, i), t) == if IndexIn(s, t) < i then IndexIn(s, t) else IndexIn(s, t) - 1
  {
    hide IndexIn, Distinct, RemoveAt;
    var j := IndexIn(s, t);
    var k := if j < i then j else j - 1;
    RemovedAt(s, i);
    assert RemoveAt(s, i)[k] == t;
    DistinctRemove(s, i);
    IndexUnique(RemoveAt(s, i), t, k);
  }

  /** The task after x on a ring. */
  function NextOn<T(==)>(ring: seq<T>, x: T): T
    requires x in ring
  {
    ring[After(IndexIn(ring, x), |ring|)]
  }

  /**
   * The ring from its first task on, the task that runs, and the one it goes on with. A task that was
   * killed while it ran is no longer on the ring.
   */
  datatype Line<!T(==)> = Line(ring: seq<T>, running: T, onward: T) {
    ghost predicate Valid() {
      Distinct(ring) && onward in ring && (running in ring ==> onward == NextOn(ring, running))
    }
  }

  datatype Event<!T> = Schedule | Submit(x: T) | Kill(x: T)

  /**
   * The event leaves the scheduler in order: a new task is new, and a killed one is not the head, nor
   * the task that a killed one would go on with. The running task may kill itself.
   */
  predicate Possible<T(==)>(l: Line<T>, e: Event<T>) {
    match e
    case Schedule => true
    case Submit(x) => x !in l.ring && x != l.running
    case Kill(x) => x in l.ring && IndexIn(l.ring, x) > 0 && (l.running in l.ring || l.onward != x)
  }

  function Step<T(==)>(l: Line<T>, e: Event<T>): Line<T> {
    match e
    case Schedule => if l.onward in l.ring then Line(l.ring, l.onward, NextOn(l.ring, l.onward)) else l
    case Submit(x) =>
      var last := l.ring != [] && l.running == l.ring[|l.ring| - 1];
      Line(l.ring + [x], l.running, if last then x else l.onward)
    case Kill(x) =>
      if x !in l.ring then l
      else Line(RemoveAt(l.ring, IndexIn(l.ring, x)), l.running, if x == l.onward then NextOn(l.ring, x) else l.onward)
  }

  lemma ScheduleValid<T>(l: Line<T>)
    requires l.Valid()
    ensures Step(l, Schedule).Valid() && Step(l, Schedule).ring == l.ring && Step(l, Schedule).running == l.onward
  {
  }

  /** A new task is the last one; only the one that was last goes on with it. */
  lemma SubmitValid<T>(l: Line<T>, x: T)
    requires l.Valid() && x !in l.ring && x != l.running
    ensures Step(l, Submit(x)).Valid()
  {
    var n, r := |l.ring|, l.ring + [x];
    DistinctAppend(l.ring, x);
    if l.running in l.ring {
      var i := IndexIn(l.ring, l.running);
      IndexUnique(r, l.running, i);
      assert l.running == l.ring[n - 1] <==> i == n - 1;
    }
  }

  lemma NextIs<T>(s: seq<T>, i: nat)
    requires Distinct(s) && i < |s|
    ensures IndexIn(s, s[i]) == i && NextOn(s, s[i]) == s[After(i, |s|)]
  {
    IndexUnique(s, s[i], i);
  }

  /** Without task i, the task before it goes on with the task after it, and all others as before. */
  lemma NextWithout<T>(s: seq<T>, i: nat, t: T)
    requires Distinct(s) && i < |s| && t in s && t != s[i]
    ensures t in RemoveAt(s, i)
    ensures NextOn(RemoveAt(s, i), t) == if NextOn(s, t) == s[i] then s[After(i, |s|)] else NextOn(s, t)
  {
    hide IndexIn, Distinct;
    var n, j, r := |s|, IndexIn(s, t), RemoveAt(s, i);
    Stays(s, i, t);
    RemovedAt(s, i);
    DistinctRemove(s, i);
    NextIs(s, j);
    NextIs(s, i);
    NextIs(s, After(j, n));
  }

  lemma KillValid<T>(l: Line<T>, x: T)
    requires l.Valid() && Possible(l, Kill(x))
    ensures Step(l, Kill(x)).Valid()
  {
    hide IndexIn, Distinct, NextOn;
    var i := IndexIn(l.ring, x);
    DistinctRemove(l.ring, i);
    NextOf(l.ring, x);
    Stays(l.ring, i, Step(l, Kill(x)).onward);
    if l.running in l.ring && l.running != x {
      NextWithout(l.ring, i, l.running);
    }
  }

  lemma NextOf<T>(s: seq<T>, x: T)
    requires Distinct(s) && x in s
    ensures NextOn(s, x) in s && NextOn(s, x) == s[After(IndexIn(s, x), |s|)]
    ensures |s| > 1 ==> NextOn(s, x) != x
  {
  }

  /** How many places b lies after a. */
  function Gap(a: nat, b: nat, n: nat): nat
    requires a < n && b < n
  {
    if a <= b then b - a else n - a + b
  }

  /** How many turns it takes until t runs. */
  ghost function Distance<T>(l: Line<T>, t: T): nat
    requires l.Valid() && t in l.ring
  {
    if l.running == t then 0 else 1 + Gap(IndexIn(l.ring, l.onward), IndexIn(l.ring, t), |l.ring|)
  }

  lemma ScheduleDistance<T>(l: Line<T>, t: T)
    requires l.Valid() && t in l.ring && l.running != t
    ensures Step(l, Schedule).Valid() && t in Step(l, Schedule).ring
    ensures Distance(Step(l, Schedule), t) == Distance(l, t) - 1
  {
    hide IndexIn, Distinct, NextOn;
    ScheduleValid(l);
    NextOf(l.ring, l.onward);
    NextIs(l.ring, After(IndexIn(l.ring, l.onward), |l.ring|));
    SamePlace(l.ring, l.onward, t);
  }

  lemma SamePlace<T>(s: seq<T>, x: T, y: T)
    requires x in s && y in s
    ensures IndexIn(s, x) == IndexIn(s, y) <==> x == y
  {
  }

  lemma SubmitDistance<T>(l: Line<T>, x: T, t: T)
    requires l.Valid() && t in l.ring && x !in l.ring && x != l.running
    ensures Step(l, Submit(x)).Valid() && t in Step(l, Submit(x)).ring
    ensures Distance(Step(l, Submit(x)), t) <= Distance(l, t) + 1
  {
    hide IndexIn, Distinct, NextOn;
    var n, r := |l.ring|, l.ring + [x];
    SubmitValid(l, x);
    NextIs(r, n);
    NextIs(r, IndexIn(l.ring, t));
    NextIs(r, IndexIn(l.ring, l.onward));
    if l.running == l.ring[n - 1] {
      NextIs(l.ring, n - 1);
      NextIs(l.ring, 0);
    }
  }

  /** Where the task that the running one goes on with is after a kill. */
  lemma KillPlaces<T>(l: Line<T>, x: T, t: T)
    requires l.Valid() && t in l.ring && Possible(l, Kill(x)) && x != t
    ensures var n, i, o, j := |l.ring|, IndexIn(l.ring, x), IndexIn(l.ring, l.onward), IndexIn(l.ring, t);
      var after, p := Step(l, Kill(x)), if x == l.onward then After(i, n) else o;
      && after.Valid() && t in after.ring && |after.ring| == n - 1 && i != j && p != i
      && IndexIn(after.ring, after.onward) == (if p < i then p else p - 1)
      && IndexIn(after.ring, t) == (if j < i then j else j - 1)
  {
    hide IndexIn, Distinct, NextOn;
    var i := IndexIn(l.ring, x);
    KillValid(l, x);
    RemovedAt(l.ring, i);
    NextOf(l.ring, x);
    NextIs(l.ring, After(i, |l.ring|));
    SamePlace(l.ring, x, t);
    SamePlace(l.ring, x, l.onward);
    Stays(l.ring, i, t);
    Stays(l.ring, i, Step(l, Kill(x)).onward);
  }

  lemma KillDistance<T>(l: Line<T>, x: T, t: T)
    requires l.Valid() && t in l.ring && Possible(l, Kill(x)) && x != t
    ensures Step(l, Kill(x)).Valid() && t in Step(l, Kill(x)).ring
    ensures Distance(Step(l, Kill(x)), t) <= Distance(l, t)
  {
    hide IndexIn, Distinct, NextOn, Step;
    KillPlaces(l, x, t);
    KillKeepsRunning(l, x);
  }

  lemma KillKeepsRunning<T>(l: Line<T>, x: T)
    ensures Step(l, Kill(x)).running == l.running
  {
  }

  /** A task that kills itself leaves every other one as many turns away as it was. */
  lemma SelfExit<T>(l: Line<T>, t: T)
    requires l.Valid() && t in l.ring && t != l.running && Possible(l, Kill(l.running))
    ensures Step(l, Kill(l.running)).Valid() && t in Step(l, Kill(l.running)).ring
    ensures l.running !in Step(l, Kill(l.running)).ring
    ensures Distance(Step(l, Kill(l.running)), t) == Distance(l, t)
  {
    hide IndexIn, Distinct, NextOn, RemoveAt;
    KillPlaces(l, l.running, t);
    NextOf(l.ring, l.running);
    NextIs(l.ring, After(IndexIn(l.ring, l.running), |l.ring|));
    DistinctRemove(l.ring, IndexIn(l.ring, l.running));
  }

  /** Each turn brings a waiting task one closer; a new task delays it by one at most, a killed one not at all. */
  lemma StepDistance<T>(l: Line<T>, e: Event<T>, t: T)
    requires l.Valid() && Possible(l, e) && t in l.ring && e != Kill(t)
    ensures Step(l, e).Valid() && t in Step(l, e).ring
    ensures e.Schedule? && l.running != t ==> Distance(Step(l, e), t) == Distance(l, t) - 1
    ensures e.Submit? ==> Distance(Step(l, e), t) <= Distance(l, t) + 1
    ensures e.Kill? ==> Distance(Step(l, e), t) <= Distance(l, t)
  {
    hide IndexIn, Distinct, RemoveAt, NextOn, Distance;
    match e
    case Schedule =>
      ScheduleValid(l);
      if l.running != t {
        ScheduleDistance(l, t);
      }
    case Submit(x) => SubmitDistance(l, x, t);
    case Kill(x) => KillDistance(l, x, t);
  }

  function Schedules<T>(es: seq<Event<T>>): nat {
    if es == [] then 0 else (if es[0].Schedule? then 1 else 0) + Schedules(es[1..])
  }

  function Submits<T>(es: seq<Event<T>>): nat {
    if es == [] then 0 else (if es[0].Submit? then 1 else 0) + Submits(es[1..])
  }

  /** The places of the turns, and of the submits, among the events. */
  ghost function TurnPlaces<T>(es: seq<Event<T>>): set<nat> {
    set i: nat | i < |es| && es[i].Schedule?
  }

  ghost function SubmitPlaces<T>(es: seq<Event<T>>): set<nat> {
    set i: nat | i < |es| && es[i].Submit?
  }

  lemma ShiftedPlaces(places: set<nat>, first: bool, shifted: set<nat>)
    requires forall i: nat :: i in shifted <==> (if i == 0 then first else i - 1 in places)
    ensures |shifted| == |places| + if first then 1 else 0
  {
    var image := set i | i in places :: i + 1;
    ImageSize(places, image);
    if first {
      assert shifted == image + {0};
    } else {
      assert shifted == image;
    }
  }

  lemma {:induction false} ImageSize(places: set<nat>, image: set<nat>)
    requires forall j: nat :: j in image <==> j > 0 && j - 1 in places
    ensures |image| == |places|
    decreases |places|
  {
    if places == {} {
      assert image == {};
    } else {
      var i :| i in places;
      ImageSize(places - {i}, image - {i + 1});
    }
  }

  /** Schedules and Submits count the turns and the submits. */
  lemma {:induction false} Counted<T>(es: seq<Event<T>>)
    ensures Schedules(es) == |TurnPlaces(es)| && Submits(es) == |SubmitPlaces(es)|
  {
    if es == [] {
      assert TurnPlaces(es) == {} && SubmitPlaces(es) == {};
    } else {
      Counted(es[1..]);
      ShiftedPlaces(TurnPlaces(es[1..]), es[0].Schedule?, TurnPlaces(es));
      ShiftedPlaces(SubmitPlaces(es[1..]), es[0].Submit?, SubmitPlaces(es));
    }
  }

  predicate AllPossible<T(==)>(l: Line<T>, es: seq<Event<T>>)
    decreases |es|
  {
    es == [] || (Possible(l, es[0]) && AllPossible(Step(l, es[0]), es[1..]))
  }

  /** The task runs at some point of the run of events. */
  predicate Runs<T(==)>(l: Line<T>, es: seq<Event<T>>, t: T)
    decreases |es|
  {
    l.running == t || (es != [] && Runs(Step(l, es[0]), es[1..], t))
  }

  /** The line after all these events. */
  function StepAll<T(==)>(l: Line<T>, es: seq<Event<T>>): Line<T>
    decreases |es|
  {
    if es == [] then l else StepAll(Step(l, es[0]), es[1..])
  }

  /** To run at some point of a run is to be the one that runs after its first so many events. */
  lemma {:induction false} RunsAtSomePoint<T>(l: Line<T>, es: seq<Event<T>>, t: T)
    ensures Runs(l, es, t) <==> exists k :: 0 <= k <= |es| && StepAll(l, es[..k]).running == t
    decreases |es|
  {
    assert es[..0] == [];
    if es != [] {
      var next, tail := Step(l, es[0]), es[1..];
      RunsAtSomePoint(next, tail, t);
      forall k | 0 <= k <= |tail| ensures StepAll(next, tail[..k]) == StepAll(l, es[..k + 1]) {
        assert es[..k + 1][1..] == tail[..k];
      }
      if l.running != t && exists k :: 0 <= k <= |es| && StepAll(l, es[..k]).running == t {
        var k :| 0 <= k <= |es| && StepAll(l, es[..k]).running == t;
        var j := k - 1;
        assert StepAll(next, tail[..j]) == StepAll(l, es[..j + 1]);
      }
    }
  }

  lemma RunsNow<T>(l: Line<T>, t: T)
    requires l.Valid() && t in l.ring
    ensures Distance(l, t) == 0 <==> l.running == t
  {
  }

  /**
   * No starvation: a task runs after no more turns than its distance and the number of tasks
   * submitted meanwhile, whatever is killed.
   */
  lemma {:induction false} BoundedWaiting<T>(l: Line<T>, es: seq<Event<T>>, t: T)
    requires l.Valid() && t in l.ring && AllPossible(l, es) && Kill(t) !in es
    requires Schedules(es) >= Distance(l, t) + Submits(es)
    ensures Runs(l, es, t)
    decreases |es|
  {
    hide Possible, Step, Distance;
    RunsNow(l, t);
    if l.running != t {
      StepDistance(l, es[0], t);
      BoundedWaiting(Step(l, es[0]), es[1..], t);
    }
  }

  /** The ring after k turns. */
  function Turns<T(==)>(l: Line<T>, k: nat): Line<T> {
    if k == 0 then l else Step(Turns(l, k - 1), Schedule)
  }

  /** The place k turns after place r. */
  function Onward(r: nat, k: nat, n: nat): (i: nat)
    requires r < n && k <= n
    ensures i < n
  {
    if r + k < n then r + k else r + k - n
  }

  lemma {:induction false} TurnsAt<T>(l: Line<T>, k: nat)
    requires l.Valid() && k < |l.ring|
    ensures var i, n := IndexIn(l.ring, l.onward), |l.ring|;
      Turns(l, k + 1) == Line(l.ring, l.ring[Onward(i, k, n)], l.ring[Onward(i, k + 1, n)])
  {
    hide IndexIn, Distinct, NextOn;
    var i, n := IndexIn(l.ring, l.onward), |l.ring|;
    NextOf(l.ring, l.onward);
    if k > 0 {
      TurnsAt(l, k - 1);
      NextIs(l.ring, Onward(i, k, n));
    }
    assert Turns(l, k + 1) == Step(Turns(l, k), Schedule);
  }

  lemma TurnsApart<T>(l: Line<T>, j: nat, k: nat)
    requires l.Valid() && 1 <= j < k <= |l.ring|
    ensures Turns(l, j).running != Turns(l, k).running
  {
    hide IndexIn, Turns, NextOn;
    TurnsAt(l, j - 1);
    TurnsAt(l, k - 1);
  }

  lemma TurnsBack<T>(l: Line<T>)
    requires l.Valid() && l.running in l.ring
    ensures Turns(l, |l.ring|) == l
  {
    hide IndexIn, Turns, NextOn, Distinct;
    var n := |l.ring|;
    TurnsAt(l, n - 1);
    NextOf(l.ring, l.running);
    NextIs(l.ring, After(IndexIn(l.ring, l.running), n));
  }

  /**
   * A full round: in n turns every task of the ring runs exactly once, and a task of the ring that ran
   * before runs again at its end.
   */
  lemma FullRound<T>(l: Line<T>, t: T)
    requires l.Valid() && t in l.ring
    ensures exists k :: 1 <= k <= |l.ring| && Turns(l, k).running == t
    ensures forall j, k :: 1 <= j < k <= |l.ring| ==> Turns(l, j).running != Turns(l, k).running
    ensures l.running in l.ring ==> Turns(l, |l.ring|) == l
  {
    hide IndexIn, Turns, NextOn, Distinct;
    var k := 1 + Gap(IndexIn(l.ring, l.onward), IndexIn(l.ring, t), |l.ring|);
    TurnsAt(l, k - 1);
    assert Turns(l, k).running == t;
    forall j, k | 1 <= j < k <= |l.ring| ensures Turns(l, j).running != Turns(l, k).running {
      TurnsApart(l, j, k);
    }
    if l.running in l.ring {
      TurnsBack(l);
    }
  }
}
