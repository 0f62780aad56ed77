/**
  Calls that create, end and switch tasks, and whole runs of all calls.
 */
module ProcTasks {
  import opened Paths
  import opened ProcSpec
  import opened ProcInv
  import opened ProcOps

  predicate NoPipes(fds: Fds, from: nat) { forall i :: from <= i < MAX_FD ==> !IsPipe(fds[i]) }

  /** Any of the first `files` open descriptors from `from` on is a pipe end. */
  predicate PipeAmong(fds: Fds, from: nat, files: nat)
    requires from <= MAX_FD
    decreases MAX_FD - from
  {
    from < MAX_FD &&
    if fds[from].None? then PipeAmong(fds, from + 1, files)
    else files > 0 && (IsPipe(fds[from]) || PipeAmong(fds, from + 1, files - 1))
  }

  /** How many descriptors from `from` on are open. */
  function OpenCount(fds: Fds, from: nat): nat
    requires from <= MAX_FD
    decreases MAX_FD - from
  {
    if from == MAX_FD then 0 else (if fds[from].Some? then 1 else 0) + OpenCount(fds, from + 1)
  }

  // ----- exec -----

  /** Dropping a descriptor without counting keeps the cover; exactness only if it was no pipe end. */
  lemma DropFd(s: Kernel, fd: nat)
    requires Inv(s) && fd < MAX_FD
    ensures Inv(SetFd(s, s.current, fd, None))
    ensures Exact(s) ==> (Exact(SetFd(s, s.current, fd, None)) <==> !IsPipe(Cur(s).fds[fd]))
  {
    hide Ends;
    var s' := SetFd(s, s.current, fd, None);
    var f := Cur(s).fds[fd];
    OpenIsInUse(s, s.current, fd);
    forall k, e | 0 <= k < MAX_PIPE && IsEnd(e)
      ensures Covered(s', k, e)
      ensures Exact(s) && !NamesEnd(f, k, e) ==> ExactEnd(s', k, e)
      ensures Exact(s) && NamesEnd(f, k, e) ==> !ExactEnd(s', k, e)
    {
      SizeSetFd(s, s.current, fd, None, k, e);
      EmptySize(Ends(s, k, e));
      EmptySize(Ends(s', k, e));
      assert Covered(s, k, e) && (Exact(s) ==> ExactEnd(s, k, e));
    }
    if IsPipe(f) {
      assert NamesEnd(f, f.value.pipe.value, f.value.pipeEnd);
    }
  }

  /** Once a slot counts more than its live descriptors, dropping more descriptors does not repair it. */
  lemma {:induction false} CloseAllKeeps(s: Kernel, from: nat)
    requires Inv(s) && from <= MAX_FD
    ensures Inv(CloseAll(s, from))
    ensures Exact(s) ==> (Exact(CloseAll(s, from)) <==> NoPipes(Cur(s).fds, from))
    ensures !Exact(s) ==> !Exact(CloseAll(s, from))
    decreases MAX_FD - from
  {
    if from < MAX_FD {
      var s1 := SetFd(s, s.current, from, None);
      DropFd(s, from);
      if !Exact(s) { StaysInexact(s, from); }
      NoPipesStep(Cur(s).fds, from);
      CloseAllKeeps(s1, from + 1);
    }
  }

  lemma NoPipesStep(fds: Fds, from: nat)
    requires from < MAX_FD
    ensures NoPipes(fds, from) <==> !IsPipe(fds[from]) && NoPipes(fds[from := None], from + 1)
  {
    var g := fds[from := None];
    assert forall i :: from < i < MAX_FD ==> g[i] == fds[i];
  }

  lemma StaysInexact(s: Kernel, fd: nat)
    requires Inv(s) && fd < MAX_FD && !Exact(s)
    ensures !Exact(SetFd(s, s.current, fd, None))
  {
    hide Ends;
    var k, e :| 0 <= k < MAX_PIPE && IsEnd(e) && !ExactEnd(s, k, e);
    assert Covered(s, k, e);
    SizeSetFd(s, s.current, fd, None, k, e);
    assert !ExactEnd(SetFd(s, s.current, fd, None), k, e);
  }

  // ----- fork -----

  /** A new task has no descriptors. */
  lemma NewTaskKeeps(s: Kernel, i: nat, t: Task)
    requires Inv(s) && i < MAX_TASKS && s.tasks[i].state == Unused && t.fds == NoFds() && t.parent != Some(i)
    ensures var s' := s.(tasks := s.tasks[i := t], nextPid := s.nextPid + 1);
      Inv(s') && (Exact(s') <==> Exact(s))
  {
    var s' := s.(tasks := s.tasks[i := t], nextPid := s.nextPid + 1);
    forall k, e | 0 <= k < MAX_PIPE && IsEnd(e)
      ensures Ends(s', k, e) == Ends(s, k, e) && Covered(s', k, e) && (ExactEnd(s', k, e) <==> ExactEnd(s, k, e))
    {
      forall x
        ensures x in Ends(s', k, e) <==> x in Ends(s, k, e)
      {
        EndsMember(s, k, e, x);
        EndsMember(s', k, e, x);
      }
      assert Covered(s, k, e);
    }
  }

  /** Marking a live task unused drops its descriptors; exactness only if none is a pipe end. */
  lemma LeaveKeeps(s: Kernel, t: nat)
    requires Inv(s) && t < MAX_TASKS && t != s.current && s.tasks[t].state != Unused
    ensures Inv(SetState(s, t, Unused))
    ensures Exact(s) ==> (Exact(SetState(s, t, Unused)) <==> NoPipes(s.tasks[t].fds, 0))
  {
    hide Ends;
    var s' := SetState(s, t, Unused);
    forall k, e | 0 <= k < MAX_PIPE && IsEnd(e)
      ensures Covered(s', k, e)
      ensures Exact(s) && (forall i :: 0 <= i < MAX_FD ==> !NamesEnd(s.tasks[t].fds[i], k, e)) ==> ExactEnd(s', k, e)
      ensures Exact(s) && !(forall i :: 0 <= i < MAX_FD ==> !NamesEnd(s.tasks[t].fds[i], k, e)) ==> !ExactEnd(s', k, e)
    {
      EndsSetState(s, t, Unused, k, e);
      SubsetSize(Ends(s', k, e), Ends(s, k, e));
      assert Covered(s, k, e) && (Exact(s) ==> ExactEnd(s, k, e));
    }
    if Exact(s) && !NoPipes(s.tasks[t].fds, 0) {
      var i :| 0 <= i < MAX_FD && IsPipe(s.tasks[t].fds[i]);
      OpenIsInUse(s, t, i);
      var f := s.tasks[t].fds[i].value;
      assert NamesEnd(s.tasks[t].fds[i], f.pipe.value, f.pipeEnd);
      assert !ExactEnd(s', f.pipe.value, f.pipeEnd);
    }
  }

  lemma {:induction false} CopyFdsKeeps(s: Kernel, child: nat, from: nat, files: nat)
    requires Inv(s) && child < MAX_TASKS && child != s.current && s.tasks[child].state == Runnable && from <= MAX_FD
    requires forall i :: from <= i < MAX_FD ==> s.tasks[child].fds[i].None?
    ensures var o := CopyFds(s, child, from, files);
      Inv(o.s) && o.r == (if files >= OpenCount(Cur(s).fds, from) then 0 else -1)
      && (Exact(s) ==>
            (Exact(o.s) <==> o.r == 0 || !(PipeAmong(Cur(s).fds, from, files) || !NoPipes(s.tasks[child].fds, 0))))
      && (o.r == 0 ==> o.s.tasks[child].state == Runnable)
    decreases MAX_FD - from
  {
    hide Covered, ExactEnd, Exact, FilesOk, ParentsOk;
    if from < MAX_FD {
      var f := Cur(s).fds[from];
      if f.None? {
        CopyFdsKeeps(s, child, from + 1, files);
      } else if files == 0 {
        LeaveKeeps(s, child);
      } else {
        OpenIsInUse(s, s.current, from);
        CopyKeeps(s, child, from, f.value);
        var s1 := Bump(SetFd(s, child, from, f), f.value);
        BumpCounts(SetFd(s, child, from, f), f.value, 0, 0);
        assert s1.tasks[child].fds == s.tasks[child].fds[from := f];
        PipesWith(s.tasks[child].fds, from, f);
        CopyFdsKeeps(s1, child, from + 1, files - 1);
      }
    }
  }

  lemma PipesWith(fds: Fds, i: nat, f: Option<File>)
    requires i < MAX_FD && fds[i].None?
    ensures NoPipes(fds[i := f], 0) <==> NoPipes(fds, 0) && !IsPipe(f)
  {
    var g := fds[i := f];
    assert fds[i] == None && g[i] == f;
    assert forall j :: 0 <= j < MAX_FD && j != i ==> g[j] == fds[j];
  }

  /**
    `fork` keeps the counts exact unless it runs out of file records after copying
    a pipe end: the counts of the copies made so far are then never taken back.
   */
  lemma ForkKeeps(s: Kernel, stack: bool, space: bool, files: nat)
    requires Inv(s)
    ensures Inv(ForkCall(s, stack, space, files).s)
    ensures Exact(s) ==>
      (Exact(ForkCall(s, stack, space, files).s) <==>
        !(stack && space && FirstUnused(s.tasks, 0) < MAX_TASKS
          && files < OpenCount(Cur(s).fds, 0) && PipeAmong(Cur(s).fds, 0, files)))
  {
    hide Covered, ExactEnd, Exact, FilesOk, ParentsOk, OpenCount, PipeAmong;
    var i := FirstUnused(s.tasks, 0);
    if i < MAX_TASKS {
      var pid := s.nextPid;
      var s1 := s.(tasks := s.tasks[i := NewTask(pid)], nextPid := pid + 1);
      if !stack || !space {
        NewTaskKeeps(s, i, NewTask(pid));
        LeaveKeeps(s1, i);
        assert NoPipes(NoFds(), 0);
      } else {
        var t := NewTask(pid).(ppid := Cur(s).pid, parent := Some(s.current));
        var s2 := s.(tasks := s.tasks[i := t], nextPid := pid + 1);
        NewTaskKeeps(s, i, t);
        assert s.tasks[i := NewTask(pid)][i := t] == s.tasks[i := t];
        assert NoPipes(NoFds(), 0);
        CopyFdsKeeps(s2, i, 0, files);
        var o := CopyFds(s2, i, 0, files);
        if o.r == 0 {
          assert o.s.tasks[i := o.s.tasks[i].(state := Runnable)] == o.s.tasks;
        }
      }
    }
  }

  // ----- exit, reap, switch -----

  /** A change of state between live states changes no end. */
  lemma StateKeeps(s: Kernel, t: nat, st: TaskState)
    requires Inv(s) && t < MAX_TASKS && s.tasks[t].state != Unused && st != Unused
    ensures Inv(SetState(s, t, st)) && (Exact(SetState(s, t, st)) <==> Exact(s))
  {
    var s' := SetState(s, t, st);
    forall k, e | 0 <= k < MAX_PIPE && IsEnd(e)
      ensures Covered(s', k, e) && (ExactEnd(s', k, e) <==> ExactEnd(s, k, e))
    {
      EndsSetState(s, t, st, k, e);
      assert Covered(s, k, e);
    }
  }

  /** The exit status is no descriptor. */
  lemma StatusKeeps(s: Kernel, status: int)
    requires Inv(s)
    ensures var s' := s.(tasks := s.tasks[s.current := Cur(s).(exitStatus := status)]);
      Inv(s') && (Exact(s') <==> Exact(s))
  {
    var s' := s.(tasks := s.tasks[s.current := Cur(s).(exitStatus := status)]);
    forall k, e | 0 <= k < MAX_PIPE && IsEnd(e)
      ensures Covered(s', k, e) && (ExactEnd(s', k, e) <==> ExactEnd(s, k, e))
    {
      assert Ends(s', k, e) == Ends(s, k, e);
      assert Covered(s, k, e);
    }
  }

  lemma ExitKeeps(s: Kernel, status: int)
    requires Inv(s)
    ensures Inv(ExitCall(s, status)) && (Exact(ExitCall(s, status)) <==> Exact(s))
  {
    hide Covered, ExactEnd, Exact, FilesOk, ParentsOk;
    var s1 := s.(tasks := s.tasks[s.current := Cur(s).(exitStatus := status)]);
    StatusKeeps(s, status);
    StateKeeps(s1, s.current, Zombie);
    var s2 := SetState(s1, s.current, Zombie);
    assert s2 == s.(tasks := s.tasks[s.current := Cur(s).(exitStatus := status, state := Zombie)]);
    var p := Cur(s2).parent;
    if p.Some? && p.value < MAX_TASKS && s2.tasks[p.value].state == Blocked {
      StateKeeps(s2, p.value, Runnable);
    }
  }

  /** Reaping keeps the counts exact unless the reaped task still had a pipe end. */
  lemma ReapKeeps(s: Kernel, pid: int)
    requires Inv(s)
    ensures Inv(TakeStatus(s, pid).s)
    ensures var i := FirstReapable(s, pid, 0);
      Exact(s) ==> (Exact(TakeStatus(s, pid).s) <==> i == MAX_TASKS || NoPipes(s.tasks[i].fds, 0))
    ensures FirstReapable(s, pid, 0) != s.current
  {
    var i := FirstReapable(s, pid, 0);
    if i < MAX_TASKS {
      assert s.tasks[i].parent != Some(i);
      LeaveKeeps(s, i);
    }
  }

  predicate CanRun(t: Task) { t.state == Runnable || t.state == Running }

  lemma SwitchKeeps(s: Kernel, next: nat)
    requires Inv(s) && next < MAX_TASKS && CanRun(s.tasks[next])
    ensures Inv(SwitchTo(s, next)) && (Exact(SwitchTo(s, next)) <==> Exact(s))
  {
    hide Covered, ExactEnd, Exact, FilesOk, ParentsOk;
    if next == s.current {
      if Cur(s).state == Runnable { StateKeeps(s, next, Running); }
    } else {
      if Cur(s).state == Running { StateKeeps(s, s.current, Runnable); }
      var s1 := if Cur(s).state == Running then SetState(s, s.current, Runnable) else s;
      StateKeeps(s1, next, Running);
      CurrentKeeps(SetState(s1, next, Running), next);
    }
  }

  lemma CurrentKeeps(s: Kernel, c: nat)
    requires Inv(s) && c < MAX_TASKS && s.tasks[c].state != Unused
    ensures Inv(s.(current := c)) && (Exact(s.(current := c)) <==> Exact(s))
  {
    var s' := s.(current := c);
    forall k, e | 0 <= k < MAX_PIPE && IsEnd(e)
      ensures Covered(s', k, e) && (ExactEnd(s', k, e) <==> ExactEnd(s, k, e))
    {
      EndsOfTasks(s, s', k, e);
      assert Covered(s, k, e);
    }
  }

  lemma WakeAllKeeps(s: Kernel)
    requires Inv(s)
    ensures Inv(WakeAll(s)) && (Exact(WakeAll(s)) <==> Exact(s))
  {
    var s' := WakeAll(s);
    forall k, e | 0 <= k < MAX_PIPE && IsEnd(e)
      ensures Covered(s', k, e) && (ExactEnd(s', k, e) <==> ExactEnd(s, k, e))
    {
      assert Ends(s', k, e) == Ends(s, k, e);
      assert Covered(s, k, e);
    }
  }

  // ----- Runs -----

  /** One call by the current task, with the outcomes of allocations and copies it depends on. */
  datatype Call =
    | Pipe(mem1: bool, mem2: bool, copied: bool)
    | Open(mem: bool, target: Option<nat>)
    | Dup(oldfd: int, mem: bool)
    | Dup2(oldfd: int, newfd: int, mem: bool, left: Left)
    | DupFrom(oldfd: int, minfd: int, mem: bool)
    | Close(fd: int)
    | Fork(stack: bool, space: bool, files: nat)
    | Exec
    | Exit(status: int)
    | Wait(pid: int)
    | Block
    | WakeBlocked
    | Switch(next: nat)

  predicate Legal(s: Kernel, c: Call)
    requires Shape(s)
  {
    c.Switch? ==> c.next < MAX_TASKS && CanRun(s.tasks[c.next])
  }

  function Step(s: Kernel, c: Call): Kernel
    requires Shape(s) && Legal(s, c)
  {
    match c
    case Pipe(mem1, mem2, copied) => PipeCall(s, mem1, mem2, copied).s
    case Open(mem, target) => OpenCall(s, mem, target).s
    case Dup(oldfd, mem) => DupCall(s, oldfd, mem).s
    case Dup2(oldfd, newfd, mem, left) => Dup2Call(s, oldfd, newfd, mem, left).s
    case DupFrom(oldfd, minfd, mem) => DupFromCall(s, oldfd, minfd, mem).s
    case Close(fd) => CloseCall(s, fd).s
    case Fork(stack, space, files) => ForkCall(s, stack, space, files).s
    case Exec => CloseAll(s, 3)
    case Exit(status) => ExitCall(s, status)
    case Wait(pid) => TakeStatus(s, pid).s
    case Block => SetState(s, s.current, Blocked)
    case WakeBlocked => WakeAll(s)
    case Switch(next) => SwitchTo(s, next)
  }

  lemma StepKeeps(s: Kernel, c: Call)
    requires Inv(s) && Legal(s, c)
    ensures Inv(Step(s, c))
  {
    hide Inv, Exact;
    match c {
      case Pipe(mem1, mem2, copied) => PipeKeeps(s, mem1, mem2, copied);
      case Open(mem, target) => OpenKeeps(s, mem, target);
      case Dup(oldfd, mem) => DupKeeps(s, oldfd, mem);
      case Dup2(oldfd, newfd, mem, left) => Dup2Keeps(s, oldfd, newfd, mem, left);
      case DupFrom(oldfd, minfd, mem) => DupFromKeeps(s, oldfd, minfd, mem);
      case Close(fd) => CloseKeeps(s, fd);
      case Fork(stack, space, files) => ForkKeeps(s, stack, space, files);
      case Exec => CloseAllKeeps(s, 3);
      case Exit(status) => ExitKeeps(s, status);
      case Wait(pid) => ReapKeeps(s, pid);
      case Block => BlockKeeps(s);
      case WakeBlocked => WakeAllKeeps(s);
      case Switch(next) => SwitchKeeps(s, next);
    }
  }

  lemma BlockKeeps(s: Kernel)
    requires Inv(s)
    ensures Inv(SetState(s, s.current, Blocked)) && (Exact(SetState(s, s.current, Blocked)) <==> Exact(s))
  {
    StateKeeps(s, s.current, Blocked);
  }

  /** Nothing but pipe, open, dup, fcntl-dup, close, and forks that do not run out of file records. */
  predicate Careful(s: Kernel, c: Call)
    requires Shape(s)
  {
    match c
    case Pipe(_, _, _) => true
    case Open(_, _) => true
    case Dup(_, _) => true
    case DupFrom(_, _, _) => true
    case Close(_) => true
    case Fork(_, _, files) => files >= OpenCount(Cur(s).fds, 0)
    case _ => false
  }

  lemma CarefulStepIsExact(s: Kernel, c: Call)
    requires Inv(s) && Exact(s) && Careful(s, c)
    ensures Inv(Step(s, c)) && Exact(Step(s, c))
  {
    hide Inv, Exact;
    StepKeeps(s, c);
    match c {
      case Pipe(mem1, mem2, copied) => PipeKeeps(s, mem1, mem2, copied);
      case Open(mem, target) => OpenKeeps(s, mem, target);
      case Dup(oldfd, mem) => DupKeeps(s, oldfd, mem);
      case DupFrom(oldfd, minfd, mem) => DupFromKeeps(s, oldfd, minfd, mem);
      case Close(fd) => CloseKeeps(s, fd);
      case Fork(stack, space, files) => ForkKeeps(s, stack, space, files);
      case _ =>
    }
  }

  predicate Run(s: Kernel, cs: seq<Call>)
    requires Shape(s)
    decreases |cs|
  {
    cs == [] || (Legal(s, cs[0]) && Shape(Step(s, cs[0])) && Run(Step(s, cs[0]), cs[1..]))
  }

  function After(s: Kernel, cs: seq<Call>): Kernel
    requires Shape(s) && Run(s, cs)
    ensures Shape(After(s, cs))
    decreases |cs|
  {
    if cs == [] then s else After(Step(s, cs[0]), cs[1..])
  }

  predicate CarefulRun(s: Kernel, cs: seq<Call>)
    requires Shape(s) && Run(s, cs)
    decreases |cs|
  {
    cs == [] || (Careful(s, cs[0]) && CarefulRun(Step(s, cs[0]), cs[1..]))
  }

  /** Over every run of all calls, the counts cover the live descriptors. */
  lemma {:induction false} RunsKeepCover(s: Kernel, cs: seq<Call>)
    requires Inv(s) && Run(s, cs)
    ensures Inv(After(s, cs))
    decreases |cs|
  {
    hide Covered, Exact, FilesOk, ParentsOk, Step;
    if cs != [] {
      StepKeeps(s, cs[0]);
      RunsKeepCover(Step(s, cs[0]), cs[1..]);
    }
  }

  /** Over every careful run the counts are exact. */
  lemma {:induction false} CarefulRunsAreExact(s: Kernel, cs: seq<Call>)
    requires Inv(s) && Exact(s) && Run(s, cs) && CarefulRun(s, cs)
    ensures Exact(After(s, cs))
    decreases |cs|
  {
    hide Covered, Exact, FilesOk, ParentsOk, Step;
    if cs != [] {
      StepKeeps(s, cs[0]);
      CarefulStepIsExact(s, cs[0]);
      CarefulRunsAreExact(Step(s, cs[0]), cs[1..]);
    }
  }

  /** The state after `proc_init`: one running task with the console on descriptors 0 to 2. */
  function Start(): Kernel {
    Kernel([Task(Running, 1, 0, None, 0, NoFds()[0 := Some(FRESH_FILE)][1 := Some(FRESH_FILE)][2 := Some(FRESH_FILE)])]
           + seq(MAX_TASKS - 1, _ => Task(Unused, 0, 0, None, 0, NoFds())),
           seq(MAX_PIPE, _ => Slot(0, 0, false)), 0, 2)
  }

  lemma StartIsCovered()
    ensures Inv(Start()) && Exact(Start())
  {
    var s := Start();
    forall k, e | 0 <= k < MAX_PIPE && IsEnd(e)
      ensures Ends(s, k, e) == {}
    {
    }
  }
}
