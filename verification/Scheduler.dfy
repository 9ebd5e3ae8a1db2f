/** The task scheduler of src/include/scheduler.h: a circular singly-linked list of tasks. */
module Scheduler {
  import opened Common
  import opened Ring
  import opened RoundRobin

  const RUNNABLE := 2

  class Task {
    var state: nat
    var pid: nat
    var next: Task?

    constructor (p: nat)
      ensures state == RUNNABLE && pid == p && next == null
    {
      state, pid, next := RUNNABLE, p, null;
    }
  }

  /** Following next from any task of the ring visits the tasks in this order, again and again. */
  ghost predicate Cycle(ring: seq<Task>)
    reads ring
  {
    && ring != [] && Distinct(ring)
    && forall i {:trigger ring[i].next} :: 0 <= i < |ring| ==> ring[i].next == ring[After(i, |ring|)]
  }

  /** The pids of these tasks are distinct, and below the counter. */
  ghost predicate Numbering(tasks: seq<Task>, count: nat)
    reads tasks`pid
  {
    forall i, j {:trigger tasks[i].pid, tasks[j].pid} :: 0 <= i <= j < |tasks| ==>
      tasks[i].pid < count && tasks[j].pid < count && (i < j ==> tasks[i].pid != tasks[j].pid)
  }

  lemma NumberingWithout(tasks: seq<Task>, count: nat, i: nat)
    requires Numbering(tasks, count) && i < |tasks|
    ensures Numbering(RemoveAt(tasks, i), count)
  {
    RemovedAt(tasks, i);
  }

  /** The place of the first task with this pid, or their number. */
  ghost function PlaceOf(tasks: seq<Task>, p: nat): (i: nat)
    reads tasks
    ensures i <= |tasks| && (i < |tasks| ==> tasks[i].pid == p) && forall j :: 0 <= j < i ==> tasks[j].pid != p
  {
    if tasks == [] || tasks[0].pid == p then 0 else PlaceOf(tasks[1..], p) + 1
  }

  /** The first of these tasks with the pid, or null exactly when none has it. */
  ghost predicate FirstWith(tasks: seq<Task>, p: nat, res: Task?)
    reads tasks
  {
    if res == null then forall t <- tasks :: t.pid != p
    else exists i ::
      0 <= i < |tasks| && tasks[i] == res && tasks[i].pid == p && forall j :: 0 <= j < i ==> tasks[j].pid != p
  }

  /** The place says whether all but the last task, or the only one, has the pid. */
  lemma AmongSearched(tasks: seq<Task>, p: nat)
    requires tasks != []
    ensures var i, some := PlaceOf(tasks, p), if |tasks| == 1 then tasks else tasks[..|tasks| - 1];
      && (i < |some| <==> exists t :: t in some && t.pid == p)
      && FirstWith(some, p, if i < |some| then tasks[i] else null)
  {
    var i, some := PlaceOf(tasks, p), if |tasks| == 1 then tasks else tasks[..|tasks| - 1];
    if i < |some| {
      assert some[i] in some && some[i] == tasks[i];
    }
  }

  class TaskScheduler {
    var runnable: Task
    var running: Task?
    var pidCnt: nat

    ghost var ring: seq<Task>

    /**
     * The list starts at runnable and is one cycle; the running task, even when it has just been
     * killed, leads back into it.
     */
    ghost predicate Valid()
      reads this, ring, running
    {
      Cycle(ring) && runnable == ring[0] && running != null && running.next != null && running.next in ring
    }

    /** The ring as a line of tasks that take turns. */
    ghost function Now(): Line<Task>
      requires Valid()
      reads this, ring, running
    {
      var task: Task := running;
      Line(ring, task, task.next)
    }

    /** The pids of the ring are distinct and were all given out. */
    ghost predicate Numbered()
      reads `ring, `pidCnt, ring`pid
    {
      Numbering(ring, pidCnt)
    }

    /** The boot task is the only one. */
    constructor ()
      ensures Valid() && Numbered() && fresh(runnable) && ring == [runnable] && running == runnable
      ensures runnable.pid == 0 && pidCnt == 1
    {
      var boot := new Task(0);
      runnable, running, pidCnt, ring := boot, boot, 1, [boot];
      new;
      boot.next := boot;
    }

    /** Puts a task in between the last task of the list and the head. */
    method PushBack(task: Task)
      requires Valid() && task !in ring && task != running
      modifies this`ring, ring`next, task`next
      ensures Valid() && ring == old(ring) + [task] && Now() == Step(old(Now()), Event.Submit(task))
    {
      task.next := runnable;
      var cur := runnable;
      ghost var i := 0;
      while cur.next != runnable
        invariant 0 <= i < |ring| && cur == ring[i]
        decreases |ring| - i
      {
        i := i + 1;
        cur := cur.next;
      }
      cur.next := task;
      DistinctAppend(ring, task);
      ring := ring + [task];
    }

    /** submit: a new task just before the head; pids repeat only after 2^32 of them. */
    method Submit() returns (task: Task)
      requires Valid() && pidCnt < WORD
      modifies this`ring, this`pidCnt, ring`next
      ensures Valid() && fresh(task) && ring == old(ring) + [task] && Now() == Step(old(Now()), Event.Submit(task))
      ensures task.pid == old(pidCnt) && task.state == RUNNABLE && pidCnt == (old(pidCnt) + 1) % WORD
      ensures old(Numbered()) && old(pidCnt) + 1 < WORD ==> Numbered()
    {
      hide Cycle;
      task := new Task(pidCnt);
      pidCnt := (pidCnt + 1) % WORD;
      PushBack(task);
    }

    /** schedule: the next task in the cycle runs. */
    method Schedule()
      requires running == null || Valid()
      modifies this`running
      ensures old(running) == null ==> running == null
      ensures old(running) != null ==>
                Valid() && running == old(running.next) && Now() == Step(old(Now()), Event.Schedule)
    {
      if running != null {
        InTurn();
      }
      if running != null {
        ChangeTaskTo(running.next);
      }
    }

    /** The task that the running one goes on with goes on with the next on the ring. */
    lemma InTurn()
      requires Valid()
      ensures Now().Valid()
      ensures running.next.next != null && running.next.next == NextOn(ring, running.next)
      ensures running.next.next in ring
    {
      if running in ring {
        assert ring[IndexIn(ring, running)].next == ring[After(IndexIn(ring, running), |ring|)];
      }
      assert ring[IndexIn(ring, running.next)].next == ring[After(IndexIn(ring, running.next), |ring|)];
    }

    method ChangeTaskTo(target: Task)
      requires running != null
      modifies this`running
      ensures running == target
    {
      if running != target {
        running := target;
      }
    }

    /** find_task: the first task with this pid, if it is among all but the last. */
    method FindTask(p: nat) returns (res: Task?)
      requires Valid()
      ensures FirstWith(if |ring| == 1 then ring else ring[..|ring| - 1], p, res)
      ensures res == if PlaceOf(ring, p) < (if |ring| == 1 then 1 else |ring| - 1) then ring[PlaceOf(ring, p)] else null
    {
      hide FirstWith;
      AmongSearched(ring, p);
      res := runnable;
      if res.pid == p {
        return;
      }
      res := res.next;
      ghost var i := 1;
      while res.next != runnable
        invariant 1 <= i <= (if |ring| == 1 then 1 else |ring| - 1) && res == ring[if i == |ring| then 0 else i]
        invariant forall j :: 0 <= j < i ==> ring[j].pid != p
        decreases |ring| - i
      {
        if res.pid == p {
          return;
        }
        res := res.next;
        i := i + 1;
      }
      return null;
    }

    /** The write of exit to the task before the one at place i. */
    method Bridge(prev: Task, cur: Task, ghost i: nat)
      requires Valid() && i < |ring| && |ring| > 1 && cur == ring[i] && prev == ring[Before(i, |ring|)]
      modifies this`ring, prev`next
      ensures ring == RemoveAt(old(ring), i) && Cycle(ring) && cur !in ring
      ensures prev.next == old(ring)[After(i, |old(ring)|)]
      ensures old(Numbering(RemoveAt(ring, i), pidCnt)) ==> Numbered()
    {
      prev.next := cur.next;
      RemovedAt(ring, i);
      DistinctRemove(ring, i);
      ghost var rest := RemoveAt(ring, i);
      forall j | 0 <= j < |rest| ensures rest[j].next == rest[After(j, |rest|)] {
        SkipAfter(i, j, |ring|);
      }
      ring := rest;
    }

    /** Of the ring only the task before the one at place i goes on with that one. */
    lemma BeforePlace(i: nat)
      requires Valid() && i < |ring|
      ensures running in ring ==> (running.next == ring[i] <==> running == ring[Before(i, |ring|)])
      ensures IndexIn(ring, ring[i]) == i && NextOn(ring, ring[i]) == ring[After(i, |ring|)]
    {
      NextIs(ring, i);
      if running in ring {
        var r := IndexIn(ring, running);
        assert ring[r].next == ring[After(r, |ring|)];
      }
    }

    /** What the task that the running one goes on with is, when the task at place i is gone. */
    method Unlink(prev: Task, cur: Task, ghost i: nat)
      requires Valid() && i < |ring| && |ring| > 1 && cur == ring[i] && prev == ring[Before(i, |ring|)]
      modifies this`ring, ring`next
      ensures ring == RemoveAt(old(ring), i) && Cycle(ring)
      ensures Valid() <==> 0 < i && (old(running in ring) || old(running.next) != cur)
      ensures Valid() <==> Possible(old(Now()), Event.Kill(cur))
      ensures Valid() ==> Now() == Step(old(Now()), Event.Kill(cur))
      ensures old(Numbered()) ==> Numbered()
    {
      hide Cycle, IndexIn, NextOn, RemoveAt, Distinct, Numbering;
      if Numbered() {
        NumberingWithout(ring, pidCnt, i);
      }
      BeforePlace(i);
      Remaining(ring, i);
      Bridge(prev, cur, i);
    }
    /**
     * exit: bridges the gap that the task at place i leaves. Of a single task it makes an open list
     * that nothing runs on.
     */
    method Exit(task: Task, ghost i: nat)
      requires Valid() && i < |ring| && task == ring[i]
      modifies this`running, this`ring, ring`next
      ensures |old(ring)| > 1 ==>
                && ring == RemoveAt(old(ring), i) && Cycle(ring) && running == old(running)
                && (Valid() <==> 0 < i && (old(running in ring) || old(running.next) != task))
                && (Valid() <==> Possible(old(Now()), Event.Kill(task)))
                && (Valid() ==> Now() == Step(old(Now()), Event.Kill(task)))
                && (old(Numbered()) ==> Numbered())
      ensures |old(ring)| == 1 ==> ring == old(ring) && running == null && runnable.next == null
    {
      hide IndexIn, Step, Possible;
      if runnable.next == runnable {
        assert |ring| == 1;
        runnable.next := null;
        running := null;
      } else {
        ghost var n, j := |ring|, 0;
        assert n > 1;
        var prev, cur := runnable, runnable.next;
        while cur != task
          invariant 0 <= j < n && prev == ring[j] && cur == ring[After(j, n)]
          invariant i == 0 || j < i
          decreases n - j
        {
          j := j + 1;
          cur := cur.next;
          prev := prev.next;
        }
        Unlink(prev, cur, i);
      }
    }

    /**
     * kill of the first task with pid p, at place i. The scheduler survives exactly when that is
     * neither the head nor the last task, and is not the task that a killed one would go on with;
     * a task that is not found, such as the last one, would be a null pointer to exit.
     */
    method Kill(p: nat) returns (found: bool)
      requires Valid()
      modifies this`running, this`ring, ring`next
      ensures var i, tasks := old(PlaceOf(ring, p)), old(ring);
        && (found <==> i < if |tasks| == 1 then 1 else |tasks| - 1)
        && (!found ==> Valid() && ring == tasks && running == old(running))
        && (found && |tasks| > 1 ==>
              && ring == RemoveAt(tasks, i) && Cycle(ring) && running == old(running)
              && (Valid() <==> 0 < i && (old(running in ring) || old(running.next) != tasks[i]))
              && (Valid() <==> Possible(old(Now()), Event.Kill(tasks[i])))
              && (Valid() ==> Now() == Step(old(Now()), Event.Kill(tasks[i]))))
        && (found && |tasks| == 1 ==> running == null && !Valid())
      ensures var some := if |old(ring)| == 1 then old(ring) else old(ring)[..|old(ring)| - 1];
        found <==> exists t :: t in some && old(t.pid) == p
      ensures old(Numbered()) && |old(ring)| > 1 ==> Numbered()
    {
      hide IndexIn, Step, Possible, Cycle;
      ghost var i := PlaceOf(ring, p);
      var task := FindTask(p);
      if task == null {
        return false;
      }
      Exit(task, i);
      found := true;
    }
  }

  /** Once the head is killed, the walk of submit from it can never come back to it. */
  lemma {:induction false} HeadLost(ring: seq<Task>, head: Task, cur: Task)
    requires Cycle(ring) && head !in ring && (cur in ring || (cur == head && head.next != null && head.next in ring))
    ensures cur.next != null && cur.next in ring && cur.next != head
  {
    if cur in ring {
      var i := IndexIn(ring, cur);
      assert ring[i].next == ring[After(i, |ring|)];
    }
  }

  /** The tasks that stay when the one at place i goes, and which comes first then. */
  lemma Remaining(ring: seq<Task>, i: nat)
    requires Cycle(ring) && i < |ring| && |ring| > 1
    ensures forall t :: t in RemoveAt(ring, i) <==> t in ring && t != ring[i]
    ensures RemoveAt(ring, i)[0] == ring[0] <==> 0 < i
    ensures After(i, |ring|) != i && ring[After(i, |ring|)] in ring && ring[After(i, |ring|)] != ring[i]
  {
    hide IndexIn;
    forall t ensures t in RemoveAt(ring, i) <==> t in ring && t != ring[i] {
      DistinctRemove(ring, i);
      if t in ring && t != ring[i] {
        Stays(ring, i, t);
      }
    }
  }
}
