/**
  The task table, the descriptors and the pipe slots as the kernel updates them
  in place. Every method does what its counterpart on values says.
 */
module Proc {
  import opened Paths
  import opened ProcSpec
  import ProcTasks
  import Pipe

  lemma SetFdSame(s: Kernel, t: nat, fd: nat)
    requires Shape(s) && t < MAX_TASKS && fd < MAX_FD && s.tasks[t].fds[fd].None?
    ensures SetFd(s, t, fd, None) == s
  {
    assert s.tasks[t].fds[fd := None] == s.tasks[t].fds;
    assert s.tasks[t := s.tasks[t]] == s.tasks;
  }

  /** A fork without a task or without a stack leaves the state `AllocTask` leaves. */
  lemma ForkNoTask(s: Kernel, stack: bool, space: bool, files: nat)
    requires Shape(s) && (FirstUnused(s.tasks, 0) == MAX_TASKS || !stack)
    ensures ForkCall(s, stack, space, files) ==
      Outcome(if FirstUnused(s.tasks, 0) == MAX_TASKS then s
              else s.(tasks := s.tasks[FirstUnused(s.tasks, 0) := NewTask(s.nextPid).(state := Unused)], nextPid := s.nextPid + 1), -1)
  {
  }

  lemma ForkStart(s0: Kernel, s1: Kernel, s2: Kernel, child: nat, files: nat)
    requires Shape(s0) && child < MAX_TASKS && child == FirstUnused(s0.tasks, 0)
    requires s1 == s0.(tasks := s0.tasks[child := NewTask(s0.nextPid)], nextPid := s0.nextPid + 1)
    requires s2 == s1.(tasks := s1.tasks[child := s1.tasks[child].(ppid := Cur(s1).pid, parent := Some(s1.current))])
    ensures var o := CopyFds(s2, child, 0, files);
      ForkCall(s0, true, true, files) == if o.r != 0 then o else Outcome(SetState(o.s, child, Runnable), s0.nextPid)
  {
    hide CopyFds, FirstUnused;
  }

  /** One turn of the loop that copies descriptors. */
  lemma CopyFdsTurn(s: Kernel, child: nat, i: nat, left: nat)
    requires Shape(s) && child < MAX_TASKS && i < MAX_FD
    ensures CopyFds(s, child, i, left) ==
      if Cur(s).fds[i].None? then CopyFds(s, child, i + 1, left)
      else if left == 0 then Outcome(SetState(s, child, Unused), -1)
      else CopyFds(Bump(SetFd(s, child, i, Cur(s).fds[i]), Cur(s).fds[i].value), child, i + 1, left - 1)
  {
  }

  lemma CopyFdsEnd(s: Kernel, child: nat, left: nat)
    requires Shape(s) && child < MAX_TASKS
    ensures CopyFds(s, child, MAX_FD, left) == Outcome(s, 0)
  {
  }

  /** Eight separate rings. */
  method NewRings() returns (rs: seq<Pipe.Ring>)
    ensures |rs| == MAX_PIPE
    ensures forall k :: 0 <= k < |rs| ==> fresh(rs[k]) && fresh(rs[k].buf) && rs[k].buf.Length == Pipe.PIPE_BUF
    ensures forall j, k :: 0 <= j < k < |rs| ==> rs[j] != rs[k] && rs[j].buf != rs[k].buf
  {
    rs := [];
    while |rs| < MAX_PIPE
      invariant |rs| <= MAX_PIPE
      invariant forall k :: 0 <= k < |rs| ==> fresh(rs[k]) && fresh(rs[k].buf) && rs[k].buf.Length == Pipe.PIPE_BUF
      invariant forall j, k :: 0 <= j < k < |rs| ==> rs[j] != rs[k] && rs[j].buf != rs[k].buf
    {
      var r := new Pipe.Ring();
      rs := rs + [r];
    }
  }

  class Table {
    const tasks: array<Task>
    const slots: array<Slot>
    const rings: seq<Pipe.Ring>
    var current: nat
    var nextPid: int

    /** The table after `proc_init`. */
    constructor ()
      ensures Valid() && Rings() && State() == ProcTasks.Start()
      ensures fresh(tasks) && fresh(slots) && forall k :: 0 <= k < MAX_PIPE ==> fresh(rings[k]) && fresh(rings[k].buf)
    {
      var rs := NewRings();
      rings := rs;
      tasks := new Task[MAX_TASKS](_ => Task(Unused, 0, 0, None, 0, NoFds()));
      slots := new Slot[MAX_PIPE](_ => Slot(0, 0, false));
      current, nextPid := 0, 2;
      new;
      var console := Some(FRESH_FILE);
      assert slots[..] == ProcTasks.Start().slots;
      tasks[0] := Task(Running, 1, 0, None, 0, NoFds()[0 := console][1 := console][2 := console]);
      assert tasks[..] == ProcTasks.Start().tasks;
    }

    ghost predicate Valid()
      reads this, tasks, slots
    {
      tasks.Length == MAX_TASKS && slots.Length == MAX_PIPE && current < MAX_TASKS
    }

    /** Each slot has a ring buffer of its own. */
    ghost predicate Rings()
      reads rings
    {
      && |rings| == MAX_PIPE
      && (forall k :: 0 <= k < MAX_PIPE ==> rings[k].buf.Length == Pipe.PIPE_BUF)
      && (forall j, k :: 0 <= j < k < MAX_PIPE ==> rings[j] != rings[k] && rings[j].buf != rings[k].buf)
    }

    ghost function State(): Kernel
      reads this, tasks, slots
    {
      Kernel(tasks[..], slots[..], current, nextPid)
    }

    // ----- Single stores -----

    method PutFd(t: nat, fd: nat, f: Option<File>)
      requires Valid() && t < MAX_TASKS && fd < MAX_FD
      modifies tasks
      ensures Valid() && State() == SetFd(old(State()), t, fd, f)
    {
      tasks[t] := tasks[t].(fds := tasks[t].fds[fd := f]);
    }

    method PutState(t: nat, state: TaskState)
      requires Valid() && t < MAX_TASKS
      modifies tasks
      ensures Valid() && State() == SetState(old(State()), t, state)
    {
      tasks[t] := tasks[t].(state := state);
    }

    method PutSlot(k: nat, slot: Slot)
      requires Valid() && k < MAX_PIPE
      modifies slots
      ensures Valid() && State() == SetSlot(old(State()), k, slot)
    {
      slots[k] := slot;
    }

    method CountFile(f: File)
      requires Valid()
      modifies slots
      ensures Valid() && State() == Bump(old(State()), f)
    {
      if f.pipe.Some? && f.pipe.value < MAX_PIPE && f.pipeEnd == 0 {
        PutSlot(f.pipe.value, slots[f.pipe.value].(readers := slots[f.pipe.value].readers + 1));
      } else if f.pipe.Some? && f.pipe.value < MAX_PIPE && f.pipeEnd == 1 {
        PutSlot(f.pipe.value, slots[f.pipe.value].(writers := slots[f.pipe.value].writers + 1));
      }
    }

    // ----- Scans -----

    method FindClosed(from: nat) returns (fd: nat)
      requires Valid() && from <= MAX_FD
      ensures fd == FirstClosed(tasks[current].fds, from)
    {
      fd := from;
      while fd < MAX_FD && tasks[current].fds[fd].Some?
        invariant from <= fd <= MAX_FD
        invariant FirstClosed(tasks[current].fds, from) == FirstClosed(tasks[current].fds, fd)
      {
        fd := fd + 1;
      }
    }

    /** Takes the first free slot and clears its record and its ring. */
    method PipeAlloc() returns (k: nat)
      requires Valid() && Rings()
      modifies slots, rings, set r | r in rings :: r.buf
      ensures Valid() && Rings() && k == FirstFreeSlot(old(slots[..]), 0)
      ensures State() == if k < MAX_PIPE then SetSlot(old(State()), k, Slot(0, 0, true)) else old(State())
      ensures k < MAX_PIPE ==> rings[k].Valid() && rings[k].Queue() == []
      ensures forall j :: 0 <= j < MAX_PIPE && j != k ==> unchanged(rings[j]) && unchanged(rings[j].buf)
    {
      k := 0;
      while k < MAX_PIPE && slots[k].inUse
        invariant k <= MAX_PIPE
        invariant FirstFreeSlot(slots[..], 0) == FirstFreeSlot(slots[..], k)
        invariant unchanged(slots) && unchanged(rings) && unchanged(set r | r in rings :: r.buf)
      {
        k := k + 1;
      }
      if k < MAX_PIPE {
        rings[k].Reset();
        PutSlot(k, Slot(0, 0, true));
      }
    }

    /** Takes the lowest closed descriptor, when a record can be had. */
    method FdAlloc(mem: bool) returns (fd: int)
      requires Valid()
      modifies tasks
      ensures Valid()
      ensures fd == if FirstClosed(old(tasks[current].fds), 0) < MAX_FD && mem then FirstClosed(old(tasks[current].fds), 0) else -1
      ensures State() == if fd < 0 then old(State()) else SetFd(old(State()), current, fd, Some(FRESH_FILE))
    {
      var i := FindClosed(0);
      if i == MAX_FD || !mem {
        return -1;
      }
      PutFd(current, i, Some(FRESH_FILE));
      return i;
    }

    // ----- System calls -----

    method SysPipe(mem1: bool, mem2: bool, copied: bool) returns (r: int)
      requires Valid() && Rings()
      modifies tasks, slots, rings, set r | r in rings :: r.buf
      ensures Valid() && Rings() && Outcome(State(), r) == PipeCall(old(State()), mem1, mem2, copied)
      ensures var k := FirstFreeSlot(old(slots[..]), 0);
        (k < MAX_PIPE ==> rings[k].Valid() && rings[k].Queue() == [])
        && forall j :: 0 <= j < MAX_PIPE && j != k ==> unchanged(rings[j]) && unchanged(rings[j].buf)
    {
      var k := PipeAlloc();
      if k == MAX_PIPE {
        return E_NOMEM;
      }
      r := FillPipe(k, mem1, mem2, copied);
    }

    /** The descriptors of the pipe in slot `k`. */
    method FillPipe(k: nat, mem1: bool, mem2: bool, copied: bool) returns (r: int)
      requires Valid() && k < MAX_PIPE
      modifies tasks, slots
      ensures Valid() && Outcome(State(), r) == PipeOn(old(State()), k, mem1, mem2, copied)
    {
      hide FirstClosed;
      var readfd := FdAlloc(mem1);
      if readfd < 0 {
        PutSlot(k, slots[k].(inUse := false));
        return E_NOMEM;
      }
      var writefd := FdAlloc(mem2);
      if writefd < 0 {
        PutFd(current, readfd, None);
        PutSlot(k, slots[k].(inUse := false));
        return E_NOMEM;
      }
      PutSlot(k, slots[k].(readers := 1, writers := 1));
      if !copied {
        PutFd(current, readfd, None);
        PutFd(current, writefd, None);
        PutSlot(k, slots[k].(inUse := false));
        return E_FAULT;
      }
      PutFd(current, readfd, Some(File(Some(k), 0, 0, 0)));
      PutFd(current, writefd, Some(File(Some(k), 1, 0, 0)));
      return 0;
    }

    /** `sys_open_path`; `target` as for `OpenCall`. */
    method SysOpen(mem: bool, target: Option<nat>) returns (r: int)
      requires Valid()
      modifies tasks
      ensures Valid() && Outcome(State(), r) == OpenCall(old(State()), mem, target)
    {
      r := FdAlloc(mem);
      if r < 0 {
        return E_NOMEM;
      }
      if target.None? {
        PutFd(current, r, None);
        return E_NOENT;
      }
      PutFd(current, r, Some(FRESH_FILE.(inode := target.value)));
    }

    /** `fd_dup_to`: a negative `newfd` asks for the lowest closed descriptor. */
    method DupTo(oldfd: int, newfd: int, mem: bool, left: Left) returns (r: int)
      requires Valid() && newfd < MAX_FD
      modifies tasks, slots
      ensures Valid()
      ensures Outcome(State(), r) ==
        if newfd < 0 then DupCall(old(State()), oldfd, mem) else Dup2Call(old(State()), oldfd, newfd, mem, left)
    {
      if !(InRange(oldfd) && tasks[current].fds[oldfd].Some?) {
        return E_BADF;
      }
      if newfd < 0 {
        var i := FindClosed(0);
        if i == MAX_FD || !mem {
          return E_NOMEM;
        }
        r := i;
      } else {
        if tasks[current].fds[newfd].Some? {
          PutFd(current, newfd, Some(Closed(tasks[current].fds[newfd].value, left)));
        } else if !mem {
          return E_NOMEM;
        }
        r := newfd;
      }
      var src := tasks[current].fds[oldfd].value;
      PutFd(current, r, Some(src));
      CountFile(src);
    }

    method DupFrom(oldfd: int, minfd: int, mem: bool) returns (r: int)
      requires Valid()
      modifies tasks, slots
      ensures Valid() && Outcome(State(), r) == DupFromCall(old(State()), oldfd, minfd, mem)
    {
      if !(InRange(oldfd) && tasks[current].fds[oldfd].Some?) || !InRange(minfd) {
        return E_BADF;
      }
      var fd := FindClosed(minfd);
      if fd == MAX_FD {
        return E_BADF;
      }
      if !mem {
        return E_NOMEM;
      }
      var src := tasks[current].fds[oldfd].value;
      CountFile(src);
      PutFd(current, fd, Some(src));
      return fd;
    }

    method SysClose(fd: int) returns (r: int)
      requires Valid()
      modifies tasks, slots
      ensures Valid() && Outcome(State(), r) == CloseCall(old(State()), fd)
    {
      if !(InRange(fd) && tasks[current].fds[fd].Some?) {
        return E_BADF;
      }
      var f := tasks[current].fds[fd].value;
      if f.pipe.Some? && f.pipe.value < MAX_PIPE {
        var k := f.pipe.value;
        var slot := slots[k];
        if f.pipeEnd == 0 && slot.readers > 0 {
          slot := slot.(readers := slot.readers - 1);
        } else if f.pipeEnd == 1 && slot.writers > 0 {
          slot := slot.(writers := slot.writers - 1);
        }
        if slot.readers == 0 && slot.writers == 0 {
          slot := slot.(inUse := false);
        }
        PutSlot(k, slot);
      }
      PutFd(current, fd, None);
      return 0;
    }

    /** `proc_fd_close_all`, which `exec` runs. */
    method FdCloseAll()
      requires Valid()
      modifies tasks
      ensures Valid() && State() == CloseAll(old(State()), 3)
    {
      var i := 3;
      while i < MAX_FD
        invariant 3 <= i <= MAX_FD && Valid()
        invariant CloseAll(State(), i) == CloseAll(old(State()), 3)
      {
        ghost var s := State();
        if tasks[current].fds[i].Some? {
          PutFd(current, i, None);
        } else {
          SetFdSame(s, s.current, i);
        }
        i := i + 1;
      }
    }

    // ----- Tasks -----

    /** Takes the first unused task, with the next process id; without a kernel stack it stays unused. */
    method AllocTask(stack: bool) returns (i: nat)
      requires Valid()
      modifies tasks, `nextPid
      ensures Valid()
      ensures var u := FirstUnused(old(tasks[..]), 0);
        && i == (if stack then u else MAX_TASKS)
        && State() == if u == MAX_TASKS then old(State())
                      else old(State()).(tasks := old(tasks[..])[u := NewTask(old(nextPid)).(state := if stack then Runnable else Unused)],
                                         nextPid := old(nextPid) + 1)
    {
      i := 0;
      while i < MAX_TASKS && tasks[i].state != Unused
        invariant i <= MAX_TASKS && FirstUnused(tasks[..], 0) == FirstUnused(tasks[..], i)
        invariant unchanged(tasks) && nextPid == old(nextPid)
      {
        i := i + 1;
      }
      if i < MAX_TASKS {
        tasks[i] := NewTask(nextPid);
        nextPid := nextPid + 1;
        if !stack {
          tasks[i] := tasks[i].(state := Unused);
        }
      }
      if !stack {
        i := MAX_TASKS;
      }
    }

    method Fork(stack: bool, space: bool, files: nat) returns (r: int)
      requires Valid()
      modifies tasks, slots, `nextPid
      ensures Valid() && Outcome(State(), r) == ForkCall(old(State()), stack, space, files)
    {
      hide FirstUnused, CopyFds;
      ghost var s0 := State();
      var child := AllocTask(stack);
      if child == MAX_TASKS {
        ForkNoTask(s0, stack, space, files);
        return -1;
      }
      ghost var s1 := State();
      if !space {
        PutState(child, Unused);
        return -1;
      }
      var pid := tasks[child].pid;
      tasks[child] := tasks[child].(ppid := tasks[current].pid, parent := Some(current));
      ghost var s2 := State();
      ForkStart(s0, s1, s2, child, files);
      var ok := CopyFdsTo(child, files);
      if !ok {
        return -1;
      }
      PutState(child, Runnable);
      return pid;
    }

    /** Copies the open descriptors of the current task to `child` while records can be had. */
    method CopyFdsTo(child: nat, files: nat) returns (ok: bool)
      requires Valid() && child < MAX_TASKS
      modifies tasks, slots
      ensures Valid() && Outcome(State(), if ok then 0 else -1) == CopyFds(old(State()), child, 0, files)
    {
      hide CopyFds, Bump;
      var i, left := 0, files;
      while i < MAX_FD
        invariant i <= MAX_FD && Valid()
        invariant CopyFds(State(), child, i, left) == CopyFds(old(State()), child, 0, files)
      {
        CopyFdsTurn(State(), child, i, left);
        var f := tasks[current].fds[i];
        if f.Some? {
          if left == 0 {
            PutState(child, Unused);
            return false;
          }
          PutFd(child, i, f);
          CountFile(f.value);
          left := left - 1;
        }
        i := i + 1;
      }
      CopyFdsEnd(State(), child, left);
      return true;
    }

    method Exit(status: int)
      requires Valid()
      modifies tasks
      ensures Valid() && State() == ExitCall(old(State()), status)
    {
      tasks[current] := tasks[current].(exitStatus := status, state := Zombie);
      var p := tasks[current].parent;
      if p.Some? && p.value < MAX_TASKS && tasks[p.value].state == Blocked {
        PutState(p.value, Runnable);
      }
    }

    /** `proc_fork_take_status`: reaps the first matching zombie child. */
    method ReapChild(pid: int) returns (r: int, status: int)
      requires Valid()
      modifies tasks
      ensures Valid() && Reaped(State(), r, status) == TakeStatus(old(State()), pid)
    {
      var i := 0;
      while i < MAX_TASKS
        invariant i <= MAX_TASKS && unchanged(tasks)
        invariant FirstReapable(State(), pid, 0) == FirstReapable(State(), pid, i)
      {
        var t := tasks[i];
        if t.state == Zombie && t.parent == Some(current) && (pid == -1 || pid == t.pid) {
          PutState(i, Unused);
          return t.pid, t.exitStatus;
        }
        i := i + 1;
      }
      return -1, 0;
    }
  }
}
