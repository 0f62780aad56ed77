/**
  Tasks, descriptors and pipe slots as values: what each call does to the table
  of 16 tasks with 32 descriptors each and to the counts of the 8 pipe slots.
 */
module ProcSpec {
  import opened Paths

  const MAX_FD: nat := 32
  const MAX_PIPE: nat := 8
  const MAX_TASKS: nat := 16

  datatype TaskState = Unused | Runnable | Running | Blocked | Zombie

  /** An open file. `pipe` is the slot of a pipe end, `pipeEnd` 0 for reading and 1 for writing; inode 0 is null. */
  datatype File = File(pipe: Option<nat>, pipeEnd: int, inode: nat, pos: nat)

  const FRESH_FILE: File := File(None, -1, 0, 0)

  type Fds = s: seq<Option<File>> | |s| == MAX_FD witness seq(MAX_FD, _ => None)

  datatype Task = Task(state: TaskState, pid: int, ppid: int, parent: Option<nat>, exitStatus: int, fds: Fds)

  /** The counts of a pipe slot; the buffer is modelled apart. */
  datatype Slot = Slot(readers: nat, writers: nat, inUse: bool)

  datatype Kernel = Kernel(tasks: seq<Task>, slots: seq<Slot>, current: nat, nextPid: int)

  predicate Shape(s: Kernel) {
    |s.tasks| == MAX_TASKS && |s.slots| == MAX_PIPE && s.current < MAX_TASKS
  }

  function NoFds(): Fds { seq(MAX_FD, _ => None) }

  function Cur(s: Kernel): Task
    requires Shape(s)
  {
    s.tasks[s.current]
  }

  function SetFd(s: Kernel, t: nat, fd: nat, f: Option<File>): Kernel
    requires Shape(s) && t < MAX_TASKS && fd < MAX_FD
  {
    s.(tasks := s.tasks[t := s.tasks[t].(fds := s.tasks[t].fds[fd := f])])
  }

  function SetState(s: Kernel, t: nat, state: TaskState): Kernel
    requires Shape(s) && t < MAX_TASKS
  {
    s.(tasks := s.tasks[t := s.tasks[t].(state := state)])
  }

  function SetSlot(s: Kernel, k: nat, slot: Slot): Kernel
    requires Shape(s) && k < MAX_PIPE
  {
    s.(slots := s.slots[k := slot])
  }

  predicate InRange(fd: int) { 0 <= fd < MAX_FD }

  predicate Open(s: Kernel, fd: int)
    requires Shape(s)
  {
    InRange(fd) && Cur(s).fds[fd].Some?
  }

  /** The first closed descriptor from `from` on, MAX_FD when there is none. */
  function FirstClosed(fds: Fds, from: nat): (i: nat)
    requires from <= MAX_FD
    ensures from <= i <= MAX_FD && (i < MAX_FD ==> fds[i].None?)
    ensures forall k :: from <= k < i ==> fds[k].Some?
    decreases MAX_FD - from
  {
    if from == MAX_FD || fds[from].None? then from else FirstClosed(fds, from + 1)
  }

  function FirstFreeSlot(slots: seq<Slot>, from: nat): (k: nat)
    requires |slots| == MAX_PIPE && from <= MAX_PIPE
    ensures from <= k <= MAX_PIPE && (k < MAX_PIPE ==> !slots[k].inUse)
    ensures forall j :: from <= j < k ==> slots[j].inUse
    decreases MAX_PIPE - from
  {
    if from == MAX_PIPE || !slots[from].inUse then from else FirstFreeSlot(slots, from + 1)
  }

  function FirstUnused(tasks: seq<Task>, from: nat): (i: nat)
    requires |tasks| == MAX_TASKS && from <= MAX_TASKS
    ensures from <= i <= MAX_TASKS && (i < MAX_TASKS ==> tasks[i].state == Unused)
    ensures forall j :: from <= j < i ==> tasks[j].state != Unused
    decreases MAX_TASKS - from
  {
    if from == MAX_TASKS || tasks[from].state == Unused then from else FirstUnused(tasks, from + 1)
  }

  /** One more descriptor on the pipe end of `f`. */
  function Bump(s: Kernel, f: File): Kernel
    requires Shape(s)
  {
    if f.pipe.Some? && f.pipe.value < MAX_PIPE && f.pipeEnd == 0 then
      var slot := s.slots[f.pipe.value];
      SetSlot(s, f.pipe.value, slot.(readers := slot.readers + 1))
    else if f.pipe.Some? && f.pipe.value < MAX_PIPE && f.pipeEnd == 1 then
      var slot := s.slots[f.pipe.value];
      SetSlot(s, f.pipe.value, slot.(writers := slot.writers + 1))
    else s
  }

  // ----- Descriptor calls; a negative result is the error -----

  const E_NOENT: int := -2
  const E_BADF: int := -9
  const E_NOMEM: int := -12
  const E_FAULT: int := -14

  datatype Outcome = Outcome(s: Kernel, r: int)

  /** `pipe`: a free slot, two free descriptors; `mem1`, `mem2` and `copied` are the allocations and the copy to user memory. */
  function PipeCall(s: Kernel, mem1: bool, mem2: bool, copied: bool): Outcome
    requires Shape(s)
  {
    var k := FirstFreeSlot(s.slots, 0);
    if k == MAX_PIPE then Outcome(s, E_NOMEM) else
    PipeOn(SetSlot(s, k, Slot(0, 0, true)), k, mem1, mem2, copied)
  }

  /** The rest of `pipe` once slot `k` has been taken. */
  function PipeOn(s: Kernel, k: nat, mem1: bool, mem2: bool, copied: bool): Outcome
    requires Shape(s) && k < MAX_PIPE
  {
    var r := FirstClosed(Cur(s).fds, 0);
    if r == MAX_FD || !mem1 then Outcome(SetSlot(s, k, s.slots[k].(inUse := false)), E_NOMEM) else
    var s2 := SetFd(s, s.current, r, Some(FRESH_FILE));
    var w := FirstClosed(Cur(s2).fds, 0);
    if w == MAX_FD || !mem2 then
      Outcome(SetSlot(SetFd(s2, s2.current, r, None), k, s.slots[k].(inUse := false)), E_NOMEM) else
    var s3 := SetSlot(SetFd(s2, s2.current, w, Some(FRESH_FILE)), k, s.slots[k].(readers := 1, writers := 1));
    if !copied then
      Outcome(SetSlot(SetFd(SetFd(s3, s3.current, r, None), s3.current, w, None), k, s3.slots[k].(inUse := false)), E_FAULT)
    else
      var s4 := SetFd(s3, s3.current, r, Some(File(Some(k), 0, 0, 0)));
      Outcome(SetFd(s4, s4.current, w, Some(File(Some(k), 1, 0, 0))), 0)
  }

  /** `open` on a path that leads to inode `target`, 0 for the console and the null device; no target when it leads nowhere. */
  function OpenCall(s: Kernel, mem: bool, target: Option<nat>): Outcome
    requires Shape(s)
  {
    var fd := FirstClosed(Cur(s).fds, 0);
    if fd == MAX_FD || !mem then Outcome(s, E_NOMEM) else
    var s1 := SetFd(s, s.current, fd, Some(FRESH_FILE));
    if target.None? then Outcome(SetFd(s1, s1.current, fd, None), E_NOENT)
    else Outcome(SetFd(s1, s1.current, fd, Some(FRESH_FILE.(inode := target.value))), fd)
  }

  /** `dup`: the lowest closed descriptor. */
  function DupCall(s: Kernel, oldfd: int, mem: bool): Outcome
    requires Shape(s)
  {
    if !Open(s, oldfd) then Outcome(s, E_BADF) else
    var fd := FirstClosed(Cur(s).fds, 0);
    if fd == MAX_FD || !mem then Outcome(s, E_NOMEM) else
    var src := Cur(s).fds[oldfd].value;
    Outcome(Bump(SetFd(s, s.current, fd, Some(src)), src), fd)
  }

  /**
    How the first two words of a record read once it was closed and given back: as
    `vfs_close` left them, or as a block header of the heap written over them. No
    header reaches the pipe fields, which lie 272 bytes further in.
   */
  datatype Left = Left(inode: nat, pos: nat)

  function Closed(f: File, left: Left): File { f.(inode := left.inode, pos := left.pos) }

  /**
    `dup2`. An open target is closed and its record given back, its pipe counts
    unchanged. The record given back serves the request for the new one, which is of
    its size (`HeapSpec.FreedServes`), so `mem` counts only where the target is closed.
    With equal descriptors the source is the record just given back.
   */
  function Dup2Call(s: Kernel, oldfd: int, newfd: int, mem: bool, left: Left): Outcome
    requires Shape(s)
  {
    if !InRange(newfd) || !Open(s, oldfd) then Outcome(s, E_BADF) else
    if !Open(s, newfd) && !mem then Outcome(s, E_NOMEM) else
    var s1 := if Open(s, newfd) then SetFd(s, s.current, newfd, Some(Closed(Cur(s).fds[newfd].value, left))) else s;
    var src := Cur(s1).fds[oldfd].value;
    Outcome(Bump(SetFd(s1, s1.current, newfd, Some(src)), src), newfd)
  }

  /** `fcntl` F_DUPFD: the lowest closed descriptor not below `minfd`. */
  function DupFromCall(s: Kernel, oldfd: int, minfd: int, mem: bool): Outcome
    requires Shape(s)
  {
    if !Open(s, oldfd) || !InRange(minfd) then Outcome(s, E_BADF) else
    var fd := FirstClosed(Cur(s).fds, minfd);
    if fd == MAX_FD then Outcome(s, E_BADF) else
    if !mem then Outcome(s, E_NOMEM) else
    var src := Cur(s).fds[oldfd].value;
    Outcome(SetFd(Bump(s, src), s.current, fd, Some(src)), fd)
  }

  /** The slot of a closed pipe end: its count goes down, and with both counts at 0 the slot is free. */
  function Drop(slot: Slot, pipeEnd: int): Slot {
    var s1 :=
      if pipeEnd == 0 && slot.readers > 0 then slot.(readers := slot.readers - 1)
      else if pipeEnd == 1 && slot.writers > 0 then slot.(writers := slot.writers - 1)
      else slot;
    if s1.readers == 0 && s1.writers == 0 then s1.(inUse := false) else s1
  }

  function CloseCall(s: Kernel, fd: int): Outcome
    requires Shape(s)
  {
    if !Open(s, fd) then Outcome(s, E_BADF) else
    var f := Cur(s).fds[fd].value;
    var s1 := if f.pipe.Some? && f.pipe.value < MAX_PIPE
              then SetSlot(s, f.pipe.value, Drop(s.slots[f.pipe.value], f.pipeEnd)) else s;
    Outcome(SetFd(s1, s1.current, fd, None), 0)
  }

  /** The start of `exec`: descriptors 3 and up are dropped, their pipe counts unchanged. */
  function CloseAll(s: Kernel, from: nat): Kernel
    requires Shape(s) && from <= MAX_FD
    ensures Shape(CloseAll(s, from))
    decreases MAX_FD - from
  {
    if from == MAX_FD then s else CloseAll(SetFd(s, s.current, from, None), from + 1)
  }

  // ----- Tasks -----

  function NewTask(pid: int): Task { Task(Runnable, pid, 0, None, 0, NoFds()) }

  /** The first `from` descriptors of the parent are copied; `files` more records can be had. */
  function CopyFds(s: Kernel, child: nat, from: nat, files: nat): Outcome
    requires Shape(s) && child < MAX_TASKS && from <= MAX_FD
    ensures Shape(CopyFds(s, child, from, files).s)
    decreases MAX_FD - from
  {
    if from == MAX_FD then Outcome(s, 0) else
    var f := Cur(s).fds[from];
    if f.None? then CopyFds(s, child, from + 1, files) else
    if files == 0 then Outcome(SetState(s, child, Unused), -1) else
    CopyFds(Bump(SetFd(s, child, from, f), f.value), child, from + 1, files - 1)
  }

  /** `fork`: `stack` and `space` are the kernel stack and the cloned address space, `files` the records that can be had. */
  function ForkCall(s: Kernel, stack: bool, space: bool, files: nat): Outcome
    requires Shape(s)
  {
    var i := FirstUnused(s.tasks, 0);
    if i == MAX_TASKS then Outcome(s, -1) else
    var pid := s.nextPid;
    var s1 := s.(tasks := s.tasks[i := NewTask(pid)], nextPid := pid + 1);
    if !stack || !space then Outcome(SetState(s1, i, Unused), -1) else
    var s2 := s1.(tasks := s1.tasks[i := s1.tasks[i].(ppid := Cur(s1).pid, parent := Some(s1.current))]);
    var o := CopyFds(s2, i, 0, files);
    if o.r != 0 then o else Outcome(SetState(o.s, i, Runnable), pid)
  }

  function WakeParent(s: Kernel): Kernel
    requires Shape(s)
  {
    var p := Cur(s).parent;
    if p.Some? && p.value < MAX_TASKS && s.tasks[p.value].state == Blocked then SetState(s, p.value, Runnable) else s
  }

  function ExitCall(s: Kernel, status: int): Kernel
    requires Shape(s)
  {
    WakeParent(s.(tasks := s.tasks[s.current := Cur(s).(exitStatus := status, state := Zombie)]))
  }

  predicate Reapable(s: Kernel, i: nat, pid: int)
    requires Shape(s) && i < MAX_TASKS
  {
    s.tasks[i].state == Zombie && s.tasks[i].parent == Some(s.current) && (pid == -1 || pid == s.tasks[i].pid)
  }

  function FirstReapable(s: Kernel, pid: int, from: nat): (i: nat)
    requires Shape(s) && from <= MAX_TASKS
    ensures from <= i <= MAX_TASKS && (i < MAX_TASKS ==> Reapable(s, i, pid))
    ensures forall j :: from <= j < i ==> !Reapable(s, j, pid)
    decreases MAX_TASKS - from
  {
    if from == MAX_TASKS || Reapable(s, from, pid) then from else FirstReapable(s, pid, from + 1)
  }

  /** What reaping reports: the pid, -1 when there is nothing to reap, and the exit status. */
  datatype Reaped = Reaped(s: Kernel, pid: int, status: int)

  function TakeStatus(s: Kernel, pid: int): Reaped
    requires Shape(s)
  {
    var i := FirstReapable(s, pid, 0);
    if i == MAX_TASKS then Reaped(s, -1, 0)
    else Reaped(SetState(s, i, Unused), s.tasks[i].pid, s.tasks[i].exitStatus)
  }

  /** `sched_switch_to` a task of the table. */
  function SwitchTo(s: Kernel, next: nat): Kernel
    requires Shape(s) && next < MAX_TASKS
  {
    if next == s.current then
      if Cur(s).state == Runnable then SetState(s, next, Running) else s
    else
      var s1 := if Cur(s).state == Running then SetState(s, s.current, Runnable) else s;
      SetState(s1, next, Running).(current := next)
  }

  function WakeAll(s: Kernel): Kernel
    requires Shape(s)
  {
    s.(tasks := seq(MAX_TASKS, i requires 0 <= i < MAX_TASKS =>
      if s.tasks[i].state == Blocked then s.tasks[i].(state := Runnable) else s.tasks[i]))
  }
}
