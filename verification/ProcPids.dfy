/**
  Process ids over whole runs of fork, exit and wait: live ids are distinct,
  each id is reported by wait at most once, with the status of its exit.
 */
module ProcPids {
  import opened Paths
  import opened ProcSpec
  import opened ProcInv
  import opened ProcTasks

  /** What has happened so far: the ids wait has reported, and the last exit status of each id. */
  datatype History = History(reaped: set<int>, exits: map<int, int>)

  predicate Live(s: Kernel, i: nat)
    requires Shape(s) && i < MAX_TASKS
  {
    s.tasks[i].state != Unused
  }

  ghost predicate PidInv(s: Kernel, h: History) {
    && Shape(s) && ParentsOk(s) && Live(s, s.current)
    && (forall i: nat :: i < MAX_TASKS && Live(s, i) ==> 0 < s.tasks[i].pid < s.nextPid && s.tasks[i].pid !in h.reaped)
    && (forall i: nat, j: nat :: i < j < MAX_TASKS && Live(s, i) && Live(s, j) ==> s.tasks[i].pid != s.tasks[j].pid)
    && (forall p :: p in h.reaped ==> 0 < p < s.nextPid)
    && (forall i: nat :: i < MAX_TASKS && s.tasks[i].state == Zombie ==>
          s.tasks[i].pid in h.exits && h.exits[s.tasks[i].pid] == s.tasks[i].exitStatus)
    && 0 < s.nextPid
  }

  function Record(s: Kernel, h: History, c: Call): History
    requires Shape(s)
  {
    match c
    case Exit(status) => h.(exits := h.exits[Cur(s).pid := status])
    case Wait(pid) =>
      var r := TakeStatus(s, pid);
      if r.pid == -1 then h else h.(reaped := h.reaped + {r.pid})
    case _ => h
  }

  /** Only descriptors and slots differ. */
  ghost predicate SameTasks(s: Kernel, s': Kernel)
    requires Shape(s) && Shape(s')
  {
    && s'.current == s.current && s'.nextPid == s.nextPid
    && forall i: nat :: i < MAX_TASKS ==> s'.tasks[i].(fds := s.tasks[i].fds) == s.tasks[i]
  }

  lemma SameTasksKeep(s: Kernel, s': Kernel, h: History)
    requires PidInv(s, h) && Shape(s') && SameTasks(s, s')
    ensures PidInv(s', h)
  {
    assert forall i: nat :: i < MAX_TASKS ==>
      s'.tasks[i].state == s.tasks[i].state && s'.tasks[i].pid == s.tasks[i].pid
      && s'.tasks[i].parent == s.tasks[i].parent && s'.tasks[i].exitStatus == s.tasks[i].exitStatus;
  }

  /** Moving between live states other than the zombie state, or dying without being reported, keeps the ids. */
  lemma StateKeepsPids(s: Kernel, h: History, t: nat, st: TaskState)
    requires PidInv(s, h) && t < MAX_TASKS && Live(s, t) && st != Zombie && (st == Unused ==> t != s.current)
    ensures PidInv(SetState(s, t, st), h)
  {
  }

  lemma {:induction false} CloseAllSame(s: Kernel, from: nat)
    requires Shape(s) && from <= MAX_FD
    ensures SameTasks(s, CloseAll(s, from))
    decreases MAX_FD - from
  {
    if from < MAX_FD {
      CloseAllSame(SetFd(s, s.current, from, None), from + 1);
    }
  }

  lemma {:induction false} CopyFdsPids(s: Kernel, h: History, child: nat, from: nat, files: nat)
    requires PidInv(s, h) && child < MAX_TASKS && child != s.current && s.tasks[child].state == Runnable && from <= MAX_FD
    ensures var o := CopyFds(s, child, from, files);
      PidInv(o.s, h) && (o.r == 0 ==> o.s.tasks[child].state == Runnable && o.s.tasks[child].pid == s.tasks[child].pid)
      && (o.r == 0 || o.r == -1)
    decreases MAX_FD - from
  {
    hide PidInv;
    PidShape(s, h);
    if from < MAX_FD {
      var f := Cur(s).fds[from];
      if f.None? {
        CopyFdsPids(s, h, child, from + 1, files);
      } else if files == 0 {
        StateKeepsPids(s, h, child, Unused);
      } else {
        var s1 := Bump(SetFd(s, child, from, f), f.value);
        SameTasksKeep(s, s1, h);
        CopyFdsPids(s1, h, child, from + 1, files - 1);
      }
    }
  }

  lemma NewTaskPids(s: Kernel, h: History, i: nat, t: Task)
    requires PidInv(s, h) && i < MAX_TASKS && !Live(s, i) && t.pid == s.nextPid && t.state == Runnable && t.parent != Some(i)
    ensures PidInv(s.(tasks := s.tasks[i := t], nextPid := s.nextPid + 1), h)
  {
    var s' := s.(tasks := s.tasks[i := t], nextPid := s.nextPid + 1);
    assert forall j: nat :: j < MAX_TASKS && j != i ==> s'.tasks[j] == s.tasks[j];
  }

  lemma ForkPids(s: Kernel, h: History, stack: bool, space: bool, files: nat)
    requires PidInv(s, h)
    ensures PidInv(ForkCall(s, stack, space, files).s, h)
  {
    hide PidInv;
    PidShape(s, h);
    var i := FirstUnused(s.tasks, 0);
    if i < MAX_TASKS {
      var pid := s.nextPid;
      if !stack || !space {
        NewTaskPids(s, h, i, NewTask(pid));
        StateKeepsPids(s.(tasks := s.tasks[i := NewTask(pid)], nextPid := pid + 1), h, i, Unused);
      } else {
        var t := NewTask(pid).(ppid := Cur(s).pid, parent := Some(s.current));
        var s2 := s.(tasks := s.tasks[i := t], nextPid := pid + 1);
        NewTaskPids(s, h, i, t);
        assert s.tasks[i := NewTask(pid)][i := t] == s.tasks[i := t];
        CopyFdsPids(s2, h, i, 0, files);
        var o := CopyFds(s2, i, 0, files);
        if o.r == 0 {
          assert o.s.tasks[i := o.s.tasks[i].(state := Runnable)] == o.s.tasks;
        }
      }
    }
  }

  lemma PidShape(s: Kernel, h: History)
    requires PidInv(s, h)
    ensures Shape(s) && s.current < MAX_TASKS && Live(s, s.current)
  {
  }

  lemma ExitPids(s: Kernel, h: History, status: int)
    requires PidInv(s, h)
    ensures PidInv(ExitCall(s, status), Record(s, h, Exit(status)))
  {
    var h' := Record(s, h, Exit(status));
    var s1 := s.(tasks := s.tasks[s.current := Cur(s).(exitStatus := status, state := Zombie)]);
    ZombiePids(s, h, status);
    var p := Cur(s1).parent;
    if p.Some? && p.value < MAX_TASKS && s1.tasks[p.value].state == Blocked {
      StateKeepsPids(s1, h', p.value, Runnable);
    }
  }

  lemma ZombiePids(s: Kernel, h: History, status: int)
    requires PidInv(s, h)
    ensures PidInv(s.(tasks := s.tasks[s.current := Cur(s).(exitStatus := status, state := Zombie)]),
                   Record(s, h, Exit(status)))
  {
    var h' := Record(s, h, Exit(status));
    var s' := s.(tasks := s.tasks[s.current := Cur(s).(exitStatus := status, state := Zombie)]);
    forall i: nat | i < MAX_TASKS && s'.tasks[i].state == Zombie
      ensures s'.tasks[i].pid in h'.exits && h'.exits[s'.tasks[i].pid] == s'.tasks[i].exitStatus
    {
      if i != s.current {
        assert Live(s, i) && s.tasks[i].pid != Cur(s).pid;
      }
    }
  }

  /**
    An id that wait reports was never reported before, belonged to a live child
    asked for, and comes with the status of that task's last exit; afterwards it
    is dead and stays out of all live ids.
   */
  lemma WaitReportsOnce(s: Kernel, h: History, pid: int)
    requires PidInv(s, h)
    ensures PidInv(TakeStatus(s, pid).s, Record(s, h, Wait(pid)))
    ensures var r := TakeStatus(s, pid);
      r.pid != -1 ==>
        && r.pid !in h.reaped && (pid == -1 || r.pid == pid)
        && r.pid in h.exits && r.status == h.exits[r.pid]
        && (exists i: nat :: i < MAX_TASKS && s.tasks[i].state == Zombie && s.tasks[i].pid == r.pid && s.tasks[i].parent == Some(s.current))
        && (forall i: nat :: i < MAX_TASKS && Live(r.s, i) ==> r.s.tasks[i].pid != r.pid)
  {
    hide PidInv, SetState;
    PidShape(s, h);
    var i := FirstReapable(s, pid, 0);
    if i < MAX_TASKS {
      ZombieFacts(s, h, i);
      ReapPids(s, h, i);
    }
  }

  lemma ZombieFacts(s: Kernel, h: History, i: nat)
    requires PidInv(s, h) && i < MAX_TASKS && s.tasks[i].state == Zombie
    ensures s.tasks[i].pid > 0 && s.tasks[i].pid !in h.reaped
    ensures s.tasks[i].pid in h.exits && h.exits[s.tasks[i].pid] == s.tasks[i].exitStatus
    ensures s.tasks[i].parent != Some(i)
  {
    assert Live(s, i);
  }

  lemma ReapPids(s: Kernel, h: History, i: nat)
    requires PidInv(s, h) && i < MAX_TASKS && s.tasks[i].state == Zombie && i != s.current
    ensures PidInv(SetState(s, i, Unused), h.(reaped := h.reaped + {s.tasks[i].pid}))
    ensures forall j: nat :: j < MAX_TASKS && Live(SetState(s, i, Unused), j) ==>
      SetState(s, i, Unused).tasks[j].pid != s.tasks[i].pid
  {
    var s' := SetState(s, i, Unused);
    forall j: nat | j < MAX_TASKS && Live(s', j)
      ensures j != i && Live(s, j) && s'.tasks[j] == s.tasks[j] && s.tasks[j].pid != s.tasks[i].pid
    {
    }
    assert Live(s, i);
  }

  lemma SwitchPids(s: Kernel, h: History, next: nat)
    requires PidInv(s, h) && next < MAX_TASKS && CanRun(s.tasks[next])
    ensures PidInv(SwitchTo(s, next), h)
  {
    hide PidInv;
    PidShape(s, h);
    if next == s.current {
      StateKeepsPids(s, h, next, Running);
    } else {
      var s1 := if Cur(s).state == Running then SetState(s, s.current, Runnable) else s;
      if Cur(s).state == Running { StateKeepsPids(s, h, s.current, Runnable); }
      StateKeepsPids(s1, h, next, Running);
      CurrentPids(SetState(s1, next, Running), h, next);
    }
  }

  lemma CurrentPids(s: Kernel, h: History, next: nat)
    requires PidInv(s, h) && next < MAX_TASKS && Live(s, next)
    ensures PidInv(s.(current := next), h)
  {
    assert forall i: nat :: i < MAX_TASKS ==> (Live(s.(current := next), i) <==> Live(s, i));
  }

  lemma WakePids(s: Kernel, h: History)
    requires PidInv(s, h)
    ensures PidInv(WakeAll(s), h)
  {
    var s' := WakeAll(s);
    assert forall i: nat :: i < MAX_TASKS ==> (Live(s', i) <==> Live(s, i)) && s'.tasks[i].pid == s.tasks[i].pid;
  }

  lemma StepPids(s: Kernel, h: History, c: Call)
    requires PidInv(s, h) && Inv(s) && Legal(s, c)
    ensures PidInv(Step(s, c), Record(s, h, c))
  {
    hide PidInv, Inv;
    PidShape(s, h);
    match c {
      case Fork(stack, space, files) => ForkPids(s, h, stack, space, files);
      case Exec =>
        CloseAllSame(s, 3);
        SameTasksKeep(s, CloseAll(s, 3), h);
      case Exit(status) => ExitPids(s, h, status);
      case Wait(pid) => WaitReportsOnce(s, h, pid);
      case Block => StateKeepsPids(s, h, s.current, Blocked);
      case WakeBlocked => WakePids(s, h);
      case Switch(next) => SwitchPids(s, h, next);
      case _ =>
        StepKeeps(s, c);
        DescriptorStep(s, c);
        SameTasksKeep(s, Step(s, c), h);
    }
  }

  lemma DescriptorStep(s: Kernel, c: Call)
    requires Shape(s) && (c.Pipe? || c.Open? || c.Dup? || c.Dup2? || c.DupFrom? || c.Close?)
    ensures Shape(Step(s, c)) && SameTasks(s, Step(s, c))
  {
    hide PipeCall, OpenCall, DupCall, Dup2Call, DupFromCall, CloseCall, SameTasks;
    match c {
      case Pipe(mem1, mem2, copied) => PipeSame(s, mem1, mem2, copied);
      case Open(mem, target) => OpenSame(s, mem, target);
      case Dup(oldfd, mem) => DupSame(s, oldfd, mem);
      case Dup2(oldfd, newfd, mem, left) => Dup2Same(s, oldfd, newfd, mem, left);
      case DupFrom(oldfd, minfd, mem) => DupFromSame(s, oldfd, minfd, mem);
      case Close(fd) => CloseSame(s, fd);
    }
  }

  lemma PipeSame(s: Kernel, mem1: bool, mem2: bool, copied: bool)
    requires Shape(s)
    ensures Shape(PipeCall(s, mem1, mem2, copied).s) && SameTasks(s, PipeCall(s, mem1, mem2, copied).s)
  {
    hide FirstClosed, FirstFreeSlot;
  }

  lemma DupSame(s: Kernel, oldfd: int, mem: bool)
    requires Shape(s)
    ensures Shape(DupCall(s, oldfd, mem).s) && SameTasks(s, DupCall(s, oldfd, mem).s)
  {
  }

  lemma OpenSame(s: Kernel, mem: bool, target: Option<nat>)
    requires Shape(s)
    ensures Shape(OpenCall(s, mem, target).s) && SameTasks(s, OpenCall(s, mem, target).s)
  {
  }

  lemma Dup2Same(s: Kernel, oldfd: int, newfd: int, mem: bool, left: Left)
    requires Shape(s)
    ensures Shape(Dup2Call(s, oldfd, newfd, mem, left).s) && SameTasks(s, Dup2Call(s, oldfd, newfd, mem, left).s)
  {
  }

  lemma DupFromSame(s: Kernel, oldfd: int, minfd: int, mem: bool)
    requires Shape(s)
    ensures Shape(DupFromCall(s, oldfd, minfd, mem).s) && SameTasks(s, DupFromCall(s, oldfd, minfd, mem).s)
  {
  }

  lemma CloseSame(s: Kernel, fd: int)
    requires Shape(s)
    ensures Shape(CloseCall(s, fd).s) && SameTasks(s, CloseCall(s, fd).s)
  {
  }

  function HistoryAfter(s: Kernel, h: History, cs: seq<Call>): History
    requires Shape(s) && Run(s, cs)
    decreases |cs|
  {
    if cs == [] then h else HistoryAfter(Step(s, cs[0]), Record(s, h, cs[0]), cs[1..])
  }

  /** Over every run live ids stay distinct and apart from every id reported before. */
  lemma {:induction false} RunsKeepPids(s: Kernel, h: History, cs: seq<Call>)
    requires PidInv(s, h) && Inv(s) && Run(s, cs)
    ensures PidInv(After(s, cs), HistoryAfter(s, h, cs))
    ensures h.reaped <= HistoryAfter(s, h, cs).reaped
    decreases |cs|
  {
    hide PidInv, Covered, FilesOk, ParentsOk, Step, Record;
    if cs != [] {
      StepKeeps(s, cs[0]);
      StepPids(s, h, cs[0]);
      ReapedGrows(s, h, cs[0]);
      RunsKeepPids(Step(s, cs[0]), Record(s, h, cs[0]), cs[1..]);
    }
  }

  lemma ReapedGrows(s: Kernel, h: History, c: Call)
    requires Shape(s)
    ensures h.reaped <= Record(s, h, c).reaped
  {
  }

  /** Two waits of one run never report the same id. */
  lemma NoIdTwice(s: Kernel, h: History, p: int, cs: seq<Call>, q: int)
    requires PidInv(s, h) && Inv(s) && TakeStatus(s, p).pid != -1
    requires Run(TakeStatus(s, p).s, cs)
    ensures var late := TakeStatus(After(TakeStatus(s, p).s, cs), q).pid;
      late == -1 || late != TakeStatus(s, p).pid
  {
    hide PidInv, Inv;
    PidShape(s, h);
    var r := TakeStatus(s, p);
    assert Inv(r.s) by { StepKeeps(s, Wait(p)); }
    WaitReportsOnce(s, h, p);
    var h1 := Record(s, h, Wait(p));
    RunsKeepPids(r.s, h1, cs);
    WaitReportsOnce(After(r.s, cs), HistoryAfter(r.s, h1, cs), q);
  }

  lemma StartPids()
    ensures PidInv(Start(), History({}, map[]))
  {
  }
}
