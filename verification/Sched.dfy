/**
  The round-robin scheduler over the task table.
 */
module Sched {
  import opened ProcSpec
  import opened ProcTasks
  import Proc

  /** The task `i + 1` places behind the last one picked. */
  function Place(rr: nat, i: nat): nat { (rr + i + 1) % MAX_TASKS }

  /** How many places behind the last pick the scan stops, MAX_TASKS when no task can run. */
  function ScanFrom(ts: seq<Task>, rr: nat, from: nat): (i: nat)
    requires |ts| == MAX_TASKS && from <= MAX_TASKS
    ensures from <= i <= MAX_TASKS && (i < MAX_TASKS ==> CanRun(ts[Place(rr, i)]))
    ensures forall j :: from <= j < i ==> !CanRun(ts[Place(rr, j)])
    decreases MAX_TASKS - from
  {
    if from == MAX_TASKS || CanRun(ts[Place(rr, from)]) then from else ScanFrom(ts, rr, from + 1)
  }

  /** The new round-robin index: the task picked, or the old index when no task can run. */
  function Pick(ts: seq<Task>, rr: nat): nat
    requires |ts| == MAX_TASKS
  {
    var i := ScanFrom(ts, rr, 0);
    if i < MAX_TASKS then Place(rr, i) else rr
  }

  function CountReady(ts: seq<Task>, n: nat): nat
    requires n <= |ts|
  {
    if n == 0 then 0 else CountReady(ts, n - 1) + if CanRun(ts[n - 1]) then 1 else 0
  }

  /** A task can run if it is runnable or running. */
  lemma CanRunMeans(t: Task)
    ensures CanRun(t) <==> t.state == Runnable || t.state == Running
  {
  }

  /** More than one task can run if and only if there are two of them. */
  lemma {:induction false} SeveralReady(ts: seq<Task>, n: nat)
    requires n <= |ts|
    ensures CountReady(ts, n) > 0 <==> exists i :: 0 <= i < n && CanRun(ts[i])
    ensures CountReady(ts, n) > 1 <==> exists i, j :: 0 <= i < j < n && CanRun(ts[i]) && CanRun(ts[j])
  {
    if n > 0 {
      SeveralReady(ts, n - 1);
      if CountReady(ts, n - 1) > 0 && CanRun(ts[n - 1]) {
        var i :| 0 <= i < n - 1 && CanRun(ts[i]);
        assert CanRun(ts[i]) && CanRun(ts[n - 1]);
      }
    }
  }

  // ----- Fairness -----

  /** How many places behind `rr` task `t` comes: 0 is the next one, 15 is `rr` itself. */
  function Distance(rr: nat, t: nat): nat
    requires rr < MAX_TASKS && t < MAX_TASKS
  {
    (t + MAX_TASKS - rr - 1) % MAX_TASKS
  }

  /** A pick is a task that can run, and it is `t` or leaves `t` strictly nearer. */
  lemma PickComesNearer(ts: seq<Task>, rr: nat, t: nat)
    requires |ts| == MAX_TASKS && rr < MAX_TASKS && t < MAX_TASKS && CanRun(ts[t])
    ensures var p := Pick(ts, rr);
      p < MAX_TASKS && CanRun(ts[p]) && (p == t || Distance(p, t) < Distance(rr, t))
  {
    hide Place, Distance;
    var d := Distance(rr, t);
    DistanceIsPlace(rr, t);
    var i := ScanFrom(ts, rr, 0);
    assert i <= d;
    PlaceComesNearer(rr, t, i);
  }

  lemma DistanceIsPlace(rr: nat, t: nat)
    requires rr < MAX_TASKS && t < MAX_TASKS
    ensures Distance(rr, t) < MAX_TASKS && Place(rr, Distance(rr, t)) == t
  {
    assert Distance(rr, t) == if t > rr then t - rr - 1 else t + MAX_TASKS - rr - 1;
  }

  /** Every place up to that of `t` is `t` itself or strictly nearer to it. */
  lemma PlaceComesNearer(rr: nat, t: nat, i: nat)
    requires rr < MAX_TASKS && t < MAX_TASKS && i <= Distance(rr, t)
    ensures var p := Place(rr, i); p < MAX_TASKS && (p == t || Distance(p, t) < Distance(rr, t))
  {
    assert Distance(rr, t) == if t > rr then t - rr - 1 else t + MAX_TASKS - rr - 1;
    var p := Place(rr, i);
    assert p == if rr + i + 1 < MAX_TASKS then rr + i + 1 else rr + i + 1 - MAX_TASKS;
    assert Distance(p, t) == if t > p then t - p - 1 else t + MAX_TASKS - p - 1;
  }

  /** The picks of consecutive calls, each seeing its own task table. */
  function Picks(tables: seq<seq<Task>>, rr: nat): seq<nat>
    requires forall k :: 0 <= k < |tables| ==> |tables[k]| == MAX_TASKS
    ensures |Picks(tables, rr)| == |tables|
  {
    if tables == [] then [] else [Pick(tables[0], rr)] + Picks(tables[1..], Pick(tables[0], rr))
  }

  /**
    A task that can run at every call is picked within Distance + 1 calls, whatever
    happens to the other tasks in between.
   */
  lemma {:induction false} PickedWithinDistance(tables: seq<seq<Task>>, rr: nat, t: nat)
    requires forall k :: 0 <= k < |tables| ==> |tables[k]| == MAX_TASKS
    requires rr < MAX_TASKS && t < MAX_TASKS && |tables| > Distance(rr, t)
    requires forall k :: 0 <= k < |tables| ==> CanRun(tables[k][t])
    ensures t in Picks(tables, rr)[..Distance(rr, t) + 1]
    decreases Distance(rr, t)
  {
    var p := Pick(tables[0], rr);
    PickComesNearer(tables[0], rr, t);
    assert Picks(tables, rr)[0] == p;
    if p != t {
      PickedWithinDistance(tables[1..], p, t);
      var k :| 0 <= k < Distance(p, t) + 1 && Picks(tables[1..], p)[..Distance(p, t) + 1][k] == t;
      assert Picks(tables, rr)[k + 1] == t;
    }
  }

  /** Any 16 consecutive calls pick every task that can run throughout. */
  lemma PickedWithinSixteen(tables: seq<seq<Task>>, rr: nat, t: nat)
    requires |tables| == MAX_TASKS && forall k :: 0 <= k < |tables| ==> |tables[k]| == MAX_TASKS
    requires rr < MAX_TASKS && t < MAX_TASKS && forall k :: 0 <= k < |tables| ==> CanRun(tables[k][t])
    ensures t in Picks(tables, rr)
  {
    PickedWithinDistance(tables, rr, t);
    var k :| 0 <= k < Distance(rr, t) + 1 && Picks(tables, rr)[..Distance(rr, t) + 1][k] == t;
    assert Picks(tables, rr)[k] == t;
  }

  /** The bound is tight: from its own place a task waits for all others first. */
  lemma SixteenIsTight(tables: seq<seq<Task>>, t: nat)
    requires |tables| == MAX_TASKS - 1 && forall k :: 0 <= k < |tables| ==> |tables[k]| == MAX_TASKS
    requires t < MAX_TASKS && forall k, i :: 0 <= k < |tables| && 0 <= i < MAX_TASKS ==> CanRun(tables[k][i])
    ensures t !in Picks(tables, t)
  {
    AllReadyPicks(tables, t, t, 0);
  }

  lemma {:induction false} AllReadyPicks(tables: seq<seq<Task>>, t: nat, rr: nat, n: nat)
    requires forall k :: 0 <= k < |tables| ==> |tables[k]| == MAX_TASKS
    requires forall k, i :: 0 <= k < |tables| && 0 <= i < MAX_TASKS ==> CanRun(tables[k][i])
    requires t < MAX_TASKS && n + |tables| <= MAX_TASKS - 1 && rr == (t + n) % MAX_TASKS
    ensures t !in Picks(tables, rr)
    decreases |tables|
  {
    hide Pick;
    if tables != [] {
      var p := Pick(tables[0], rr);
      NextIsPicked(tables[0], rr);
      NextPlace(t, rr, n);
      AllReadyPicks(tables[1..], t, p, n + 1);
      assert Picks(tables, rr) == [p] + Picks(tables[1..], p);
    }
  }

  lemma NextIsPicked(ts: seq<Task>, rr: nat)
    requires |ts| == MAX_TASKS && rr < MAX_TASKS && forall i :: 0 <= i < MAX_TASKS ==> CanRun(ts[i])
    ensures Pick(ts, rr) == Place(rr, 0)
  {
  }

  lemma NextPlace(t: nat, rr: nat, n: nat)
    requires t < MAX_TASKS && n + 1 <= MAX_TASKS - 1 && rr == (t + n) % MAX_TASKS
    ensures Place(rr, 0) == (t + n + 1) % MAX_TASKS != t
  {
    assert rr == if t + n < MAX_TASKS then t + n else t + n - MAX_TASKS;
  }

  // ----- The scheduler -----

  class Scheduler {
    const table: Proc.Table
    var rrIndex: nat

    constructor (table: Proc.Table)
      ensures this.table == table && rrIndex == 0
    {
      this.table, rrIndex := table, 0;
    }

    method CountRunnable() returns (n: nat)
      requires table.Valid()
      ensures n == CountReady(table.tasks[..], MAX_TASKS)
    {
      n := 0;
      var i := 0;
      while i < MAX_TASKS
        invariant 0 <= i <= MAX_TASKS && n == CountReady(table.tasks[..], i)
      {
        if table.tasks[i].state == Runnable || table.tasks[i].state == Running {
          n := n + 1;
        }
        i := i + 1;
      }
    }

    /** The task picked; the current one when none can run. */
    method PickNext() returns (next: nat)
      requires table.Valid() && rrIndex < MAX_TASKS
      modifies this`rrIndex
      ensures rrIndex == Pick(table.tasks[..], old(rrIndex)) && rrIndex < MAX_TASKS
      ensures next == if CountReady(table.tasks[..], MAX_TASKS) > 0 then rrIndex else table.current
      ensures next < MAX_TASKS
    {
      var i := 0;
      while i < MAX_TASKS
        invariant 0 <= i <= MAX_TASKS && rrIndex == old(rrIndex)
        invariant ScanFrom(table.tasks[..], rrIndex, 0) == ScanFrom(table.tasks[..], rrIndex, i)
      {
        var idx := (rrIndex + i + 1) % MAX_TASKS;
        if table.tasks[idx].state == Runnable || table.tasks[idx].state == Running {
          SomeReady(table.tasks[..], idx, MAX_TASKS);
          rrIndex := idx;
          return idx;
        }
        i := i + 1;
      }
      NoneReady(table.tasks[..], rrIndex, MAX_TASKS);
      return table.current;
    }

    method SwitchTask(next: nat)
      requires table.Valid() && next < MAX_TASKS
      modifies table`current, table.tasks
      ensures table.Valid() && table.State() == SwitchTo(old(table.State()), next)
    {
      var cur := table.current;
      if next == cur {
        if table.tasks[cur].state == Runnable {
          table.PutState(cur, Running);
        }
        return;
      }
      if table.tasks[cur].state == Running {
        table.PutState(cur, Runnable);
      }
      table.PutState(next, Running);
      table.current := next;
    }

    /** Gives the processor to the next task, unless at most one can run. */
    method Yield()
      requires table.Valid() && rrIndex < MAX_TASKS
      modifies this`rrIndex, table`current, table.tasks
      ensures table.Valid() && rrIndex < MAX_TASKS
      ensures CountReady(old(table.tasks[..]), MAX_TASKS) <= 1 ==>
        table.State() == old(table.State()) && rrIndex == old(rrIndex)
      ensures CountReady(old(table.tasks[..]), MAX_TASKS) > 1 ==>
        rrIndex == Pick(old(table.tasks[..]), old(rrIndex)) && table.current == rrIndex
        && table.State() == SwitchTo(old(table.State()), rrIndex)
    {
      var n := CountRunnable();
      if n <= 1 {
        return;
      }
      var next := PickNext();
      SwitchTask(next);
    }
  }

  lemma {:induction false} SomeReady(ts: seq<Task>, idx: nat, n: nat)
    requires idx < n <= |ts| && CanRun(ts[idx])
    ensures CountReady(ts, n) > 0
  {
    if idx < n - 1 {
      SomeReady(ts, idx, n - 1);
    }
  }

  lemma {:induction false} NoneReady(ts: seq<Task>, rr: nat, n: nat)
    requires |ts| == MAX_TASKS && rr < MAX_TASKS && ScanFrom(ts, rr, 0) == MAX_TASKS && n <= MAX_TASKS
    ensures CountReady(ts, n) == 0
  {
    hide Place, Distance;
    if n > 0 {
      DistanceIsPlace(rr, n - 1);
      NoneReady(ts, rr, n - 1);
    }
  }
}
