/**
  What a successful or failing call means to its caller: which descriptors and
  tasks there are afterwards, and what stayed as it was.
 */
module ProcCalls {
  import opened Paths
  import opened ProcSpec
  import opened ProcInv
  import ProcTasks

  /** Only the descriptors of the current task may differ among the tasks. */
  ghost predicate OthersSame(s: Kernel, t: Kernel) {
    && Shape(s) && Shape(t) && t.current == s.current && t.nextPid == s.nextPid
    && Cur(t) == Cur(s).(fds := Cur(t).fds)
    && forall i :: 0 <= i < MAX_TASKS && i != s.current ==> t.tasks[i] == s.tasks[i]
  }

  /** `fd` is the lowest closed descriptor from `from` on. */
  predicate Lowest(fds: Fds, from: nat, fd: int) {
    from <= fd < MAX_FD && fds[fd].None? && forall i :: from <= i < fd ==> fds[i].Some?
  }

  /** A file that is a copy of an open one, and nothing else new. */
  ghost predicate CopiedFd(s: Kernel, t: Kernel, oldfd: int, fd: int) {
    Shape(s) && Open(s, oldfd) && InRange(fd) && OthersSame(s, t) && Cur(t).fds == Cur(s).fds[fd := Cur(s).fds[oldfd]]
  }

  /** `dup` copies to the lowest closed descriptor, exactly when there is one and a record can be had; else nothing changes. */
  lemma DupCopies(s: Kernel, oldfd: int, mem: bool)
    requires Shape(s)
    ensures var o := DupCall(s, oldfd, mem);
      if o.r >= 0 then CopiedFd(s, o.s, oldfd, o.r) && Lowest(Cur(s).fds, 0, o.r) else o.s == s
    ensures DupCall(s, oldfd, mem).r >= 0 <==> Open(s, oldfd) && mem && exists fd :: Lowest(Cur(s).fds, 0, fd)
  {
    var o := DupCall(s, oldfd, mem);
    var fd := FirstClosed(Cur(s).fds, 0);
    assert fd < MAX_FD ==> Lowest(Cur(s).fds, 0, fd);
    if o.r >= 0 {
      assert Cur(o.s).fds == Cur(s).fds[fd := Cur(s).fds[oldfd]];
    }
  }

  /**
    `open` puts the file on the lowest closed descriptor, exactly when there is one, a
    record can be had and the path leads to a file; else nothing changes.
   */
  lemma OpenOpens(s: Kernel, mem: bool, target: Option<nat>)
    requires Shape(s)
    ensures var o := OpenCall(s, mem, target);
      if o.r >= 0 then
        && Lowest(Cur(s).fds, 0, o.r) && OthersSame(s, o.s) && o.s.slots == s.slots && target.Some?
        && Cur(o.s).fds == Cur(s).fds[o.r := Some(File(None, -1, target.value, 0))]
      else o.s == s
    ensures OpenCall(s, mem, target).r >= 0 <==> mem && target.Some? && exists fd :: Lowest(Cur(s).fds, 0, fd)
  {
    var o := OpenCall(s, mem, target);
    var fd := FirstClosed(Cur(s).fds, 0);
    if fd < MAX_FD {
      assert Lowest(Cur(s).fds, 0, fd);
      if mem && target.None? {
        assert Cur(s).fds[fd := Some(FRESH_FILE)][fd := None] == Cur(s).fds;
        assert o.s.tasks == s.tasks;
      } else if mem {
        assert Cur(o.s).fds == Cur(s).fds[fd := Some(File(None, -1, target.value, 0))];
      }
    }
  }

  /**
    `dup2` succeeds exactly when both descriptors are in order and, for a closed target,
    a record can be had; a failure changes nothing. It copies to `newfd`; but a descriptor copied to itself keeps its inode and position
    only if the record that was given back happens to hold them still.
   */
  lemma Dup2Copies(s: Kernel, oldfd: int, newfd: int, mem: bool, left: Left)
    requires Shape(s)
    ensures var o := Dup2Call(s, oldfd, newfd, mem, left);
      if o.r >= 0 then
        && o.r == newfd && OthersSame(s, o.s)
        && (CopiedFd(s, o.s, oldfd, newfd) <==>
              oldfd != newfd || left == Left(Cur(s).fds[oldfd].value.inode, Cur(s).fds[oldfd].value.pos))
      else o.s == s
    ensures Dup2Call(s, oldfd, newfd, mem, left).r >= 0 <==> InRange(newfd) && Open(s, oldfd) && (mem || Open(s, newfd))
  {
    var o := Dup2Call(s, oldfd, newfd, mem, left);
    if o.r >= 0 {
      var f := Cur(s).fds[oldfd].value;
      if oldfd == newfd {
        assert Cur(o.s).fds[newfd] == Some(Closed(f, left));
        assert Cur(s).fds[newfd := Some(f)][newfd] == Some(f);
        if left == Left(f.inode, f.pos) {
          assert Cur(o.s).fds == Cur(s).fds[newfd := Some(f)];
        }
      } else {
        assert Cur(o.s).fds == Cur(s).fds[newfd := Some(f)];
      }
    }
  }

  /** F_DUPFD copies to the lowest closed descriptor not below `minfd`. */
  lemma DupFromCopies(s: Kernel, oldfd: int, minfd: int, mem: bool)
    requires Shape(s)
    ensures var o := DupFromCall(s, oldfd, minfd, mem);
      if o.r >= 0 then CopiedFd(s, o.s, oldfd, o.r) && InRange(minfd) && Lowest(Cur(s).fds, minfd, o.r) else o.s == s
    ensures DupFromCall(s, oldfd, minfd, mem).r >= 0 <==>
      Open(s, oldfd) && InRange(minfd) && mem && exists fd :: Lowest(Cur(s).fds, minfd, fd)
  {
    if Open(s, oldfd) && InRange(minfd) {
      var o := DupFromCall(s, oldfd, minfd, mem);
      var fd := FirstClosed(Cur(s).fds, minfd);
      assert fd < MAX_FD ==> Lowest(Cur(s).fds, minfd, fd);
      if o.r >= 0 {
        assert Cur(o.s).fds == Cur(s).fds[fd := Cur(s).fds[oldfd]];
      }
    }
  }

  /** One less, unless there is none. */
  function Less(n: nat): nat { if n == 0 then 0 else n - 1 }

  /** What closing an end of a pipe leaves of its slot: that end's count goes down, and without readers and writers the slot is free. */
  predicate EndDropped(a: Slot, b: Slot, pipeEnd: int) {
    && b.readers == (if pipeEnd == 0 then Less(a.readers) else a.readers)
    && b.writers == (if pipeEnd == 1 then Less(a.writers) else a.writers)
    && b.inUse == (a.inUse && (b.readers > 0 || b.writers > 0))
  }

  /**
    `close` empties an open descriptor and nothing else of any task. A pipe end takes one
    off its count; every other slot stays, and all of them for a file that is no pipe. On
    a closed descriptor the call fails and changes nothing.
   */
  lemma CloseCloses(s: Kernel, fd: int)
    requires Shape(s)
    ensures var o := CloseCall(s, fd);
      if Open(s, fd) then
        var f := Cur(s).fds[fd].value;
        && o.r == 0 && OthersSame(s, o.s) && Cur(o.s).fds == Cur(s).fds[fd := None]
        && (forall k :: 0 <= k < MAX_PIPE && f.pipe != Some(k) ==> o.s.slots[k] == s.slots[k])
        && (f.pipe.Some? && f.pipe.value < MAX_PIPE ==> EndDropped(s.slots[f.pipe.value], o.s.slots[f.pipe.value], f.pipeEnd))
      else o == Outcome(s, -9)
  {
    if Open(s, fd) {
      assert Cur(CloseCall(s, fd).s).fds == Cur(s).fds[fd := None];
    }
  }

  /** Where counts are exact, closing the only live write end of a pipe leaves no writer, and its readers come to the end of file. */
  lemma LastWriterCloses(s: Kernel, fd: int, k: nat)
    requires Inv(s) && Exact(s) && Open(s, fd) && k < MAX_PIPE && Ends(s, k, 1) == {(s.current, fd)}
    ensures CloseCall(s, fd).s.slots[k].writers == 0 && (CloseCall(s, fd).s.slots[k].inUse <==> s.slots[k].readers > 0)
  {
    assert (s.current, fd as nat) in Ends(s, k, 1);
    assert Covered(s, k, 1) && ExactEnd(s, k, 1);
    CloseCloses(s, fd);
  }

  /** Descriptors `r` and `w`, the two lowest closed ones, name the ends of slot `k`, which was free. */
  ghost predicate BothEnds(s: Kernel, t: Kernel, k: nat, r: nat, w: nat) {
    && Shape(s) && OthersSame(s, t) && k < MAX_PIPE && !s.slots[k].inUse && t.slots == s.slots[k := Slot(1, 1, true)]
    && Lowest(Cur(s).fds, 0, r) && Lowest(Cur(s).fds, r + 1, w)
    && Cur(t).fds == Cur(s).fds[r := Some(File(Some(k), 0, 0, 0))][w := Some(File(Some(k), 1, 0, 0))]
  }

  /** A successful `pipe` puts both ends of a slot that was free on the two lowest closed descriptors; a failing one changes no task. */
  lemma PipeOpensBothEnds(s: Kernel, mem1: bool, mem2: bool, copied: bool)
    requires Shape(s)
    ensures var o := PipeCall(s, mem1, mem2, copied);
      if o.r == 0 then
        exists k: nat, r: nat, w: nat :: BothEnds(s, o.s, k, r, w)
      else o.s.tasks == s.tasks && forall k :: 0 <= k < MAX_PIPE ==> o.s.slots[k].inUse == s.slots[k].inUse
  {
    var k := FirstFreeSlot(s.slots, 0);
    if k < MAX_PIPE {
      var r := FirstClosed(Cur(s).fds, 0);
      if r < MAX_FD {
        var fds := Cur(s).fds[r := Some(FRESH_FILE)];
        var w := FirstClosed(fds, 0);
        FirstClosedSplits(Cur(s).fds, r, w);
        PipeSteps(s, k, r, w, mem1, mem2, copied);
        var o := PipeCall(s, mem1, mem2, copied);
        assert o.r == 0 ==> BothEnds(s, o.s, k, r, w);
      }
    }
  }

  lemma FirstClosedSplits(fds: Fds, r: nat, w: nat)
    requires r == FirstClosed(fds, 0) < MAX_FD && w == FirstClosed(fds[r := Some(FRESH_FILE)], 0)
    ensures w > r && (w < MAX_FD ==> Lowest(fds, 0, r) && Lowest(fds, r + 1, w))
  {
    var g := fds[r := Some(FRESH_FILE)];
    assert forall i :: 0 <= i < MAX_FD && i != r ==> g[i] == fds[i];
  }

  lemma PipeSteps(s: Kernel, k: nat, r: nat, w: nat, mem1: bool, mem2: bool, copied: bool)
    requires Shape(s) && k == FirstFreeSlot(s.slots, 0) < MAX_PIPE && r == FirstClosed(Cur(s).fds, 0) < MAX_FD
    requires w == FirstClosed(Cur(s).fds[r := Some(FRESH_FILE)], 0) && w > r
    ensures var o := PipeCall(s, mem1, mem2, copied);
      if o.r == 0 then
        && w < MAX_FD && o.s.slots == s.slots[k := Slot(1, 1, true)] && OthersSame(s, o.s)
        && Cur(o.s).fds == Cur(s).fds[r := Some(File(Some(k), 0, 0, 0))][w := Some(File(Some(k), 1, 0, 0))]
      else o.s.tasks == s.tasks && forall j :: 0 <= j < MAX_PIPE ==> o.s.slots[j].inUse == s.slots[j].inUse
  {
    hide FirstClosed, FirstFreeSlot;
    var o := PipeCall(s, mem1, mem2, copied);
    var fds := Cur(s).fds;
    if o.r != 0 && mem1 {
      assert fds[r := Some(FRESH_FILE)][r := None] == fds;
      assert w < MAX_FD ==> fds[r := Some(FRESH_FILE)][w := Some(FRESH_FILE)][r := None][w := None] == fds;
      assert o.s.tasks[s.current].fds == fds;
      assert o.s.tasks == s.tasks;
    }
  }

  /** What `CopyFds` leaves to the child: the parent's open descriptors from `from` on. */
  function Inherited(child: Fds, parent: Fds, from: nat): Fds
    requires from <= MAX_FD
  {
    seq(MAX_FD, i requires 0 <= i < MAX_FD => if i >= from && parent[i].Some? then parent[i] else child[i])
  }

  lemma {:induction false} CopyFdsInherits(s: Kernel, child: nat, from: nat, files: nat)
    requires Shape(s) && child < MAX_TASKS && child != s.current && from <= MAX_FD
    ensures var o := CopyFds(s, child, from, files);
      && o.s.current == s.current && o.s.nextPid == s.nextPid
      && (forall i :: 0 <= i < MAX_TASKS && i != child ==> o.s.tasks[i] == s.tasks[i])
      && (o.r == 0 ==> o.s.tasks[child] == s.tasks[child].(fds := Inherited(s.tasks[child].fds, Cur(s).fds, from)))
      && (o.r != 0 ==> o.r == -1 && o.s.tasks[child].state == Unused)
    decreases MAX_FD - from
  {
    hide Bump, SetFd, Inherited;
    InheritedStep(s.tasks[child].fds, Cur(s).fds, from);
    if from < MAX_FD {
      var f := Cur(s).fds[from];
      if f.None? {
        CopyFdsInherits(s, child, from + 1, files);
      } else if files > 0 {
        ChildCopyKeepsCurrent(s, child, from, f);
        CopyFdsInherits(Bump(SetFd(s, child, from, f), f.value), child, from + 1, files - 1);
      }
    }
  }

  lemma InheritedStep(child: Fds, parent: Fds, from: nat)
    requires from <= MAX_FD
    ensures Inherited(child, parent, from) ==
      if from == MAX_FD then child
      else Inherited(if parent[from].None? then child else child[from := parent[from]], parent, from + 1)
  {
  }

  /** Task `i`, unused before, is the new child of the current task; all others stay. */
  ghost predicate NewChild(s: Kernel, t: Kernel, i: nat) {
    && Shape(s) && Shape(t) && i < MAX_TASKS && s.tasks[i].state == Unused && t.nextPid == s.nextPid + 1
    && t.tasks[i] == Task(Runnable, s.nextPid, Cur(s).pid, Some(s.current), 0, Cur(s).fds)
    && forall j :: 0 <= j < MAX_TASKS && j != i ==> t.tasks[j] == s.tasks[j]
  }

  /**
    A successful `fork` makes one new task, in a slot that was free: runnable, a child
    of the caller with the next id and the caller's descriptors. All other tasks stay,
    and a failing fork leaves no new task.
   */
  lemma ForkCopies(s: Kernel, stack: bool, space: bool, files: nat)
    requires Shape(s) && Cur(s).state != Unused && s.nextPid > 0
    ensures var o := ForkCall(s, stack, space, files);
      if o.r != -1 then
        o.r == s.nextPid && exists i: nat :: NewChild(s, o.s, i)
      else forall j :: 0 <= j < MAX_TASKS ==> o.s.tasks[j] == s.tasks[j] || (s.tasks[j].state == Unused && o.s.tasks[j].state == Unused)
  {
    hide CopyFds, FirstUnused, Inherited;
    var i := FirstUnused(s.tasks, 0);
    if i < MAX_TASKS && stack && space {
      var s1 := s.(tasks := s.tasks[i := NewTask(s.nextPid)], nextPid := s.nextPid + 1);
      var s2 := s1.(tasks := s1.tasks[i := s1.tasks[i].(ppid := Cur(s1).pid, parent := Some(s1.current))]);
      assert Cur(s2) == Cur(s) && s2.tasks[i].fds == NoFds();
      CopyFdsInherits(s2, i, 0, files);
      InheritsAll(Cur(s).fds);
      var o := ForkCall(s, stack, space, files);
      assert o.r != -1 ==> NewChild(s, o.s, i);
    }
  }

  lemma InheritsAll(parent: Fds)
    ensures Inherited(NoFds(), parent, 0) == parent
  {
  }

  // ----- When the calls with several conditions succeed -----

  /** Two descriptors are closed. */
  predicate TwoClosed(fds: Fds) { exists r, w :: 0 <= r < w < MAX_FD && fds[r].None? && fds[w].None? }

  predicate SlotFree(s: Kernel)
    requires Shape(s)
  {
    exists k :: 0 <= k < MAX_PIPE && !s.slots[k].inUse
  }

  /** `pipe` succeeds exactly with a free slot, two closed descriptors, two records and a copy that goes through. */
  lemma PipeSucceedsIff(s: Kernel, mem1: bool, mem2: bool, copied: bool)
    requires Shape(s)
    ensures var r := PipeCall(s, mem1, mem2, copied).r;
      && (r == 0 <==> SlotFree(s) && TwoClosed(Cur(s).fds) && mem1 && mem2 && copied)
      && (r == -14 <==> SlotFree(s) && TwoClosed(Cur(s).fds) && mem1 && mem2 && !copied)
      && (r == 0 || r == -14 || r == -12)
  {
    var k := FirstFreeSlot(s.slots, 0);
    if k < MAX_PIPE {
      var r := FirstClosed(Cur(s).fds, 0);
      if r < MAX_FD {
        var w := FirstClosed(Cur(s).fds[r := Some(FRESH_FILE)], 0);
        FirstClosedSplits(Cur(s).fds, r, w);
        TwoClosedIff(Cur(s).fds, r, w);
        PipeResult(s, k, r, w, mem1, mem2, copied);
      }
    }
  }

  lemma TwoClosedIff(fds: Fds, r: nat, w: nat)
    requires r == FirstClosed(fds, 0) < MAX_FD && w == FirstClosed(fds[r := Some(FRESH_FILE)], 0)
    ensures TwoClosed(fds) <==> w < MAX_FD
  {
    var g := fds[r := Some(FRESH_FILE)];
    assert forall i :: 0 <= i < MAX_FD && i != r ==> g[i] == fds[i];
    if w < MAX_FD {
      assert fds[r].None? && fds[w].None?;
    }
  }

  lemma PipeResult(s: Kernel, k: nat, r: nat, w: nat, mem1: bool, mem2: bool, copied: bool)
    requires Shape(s) && k == FirstFreeSlot(s.slots, 0) < MAX_PIPE && r == FirstClosed(Cur(s).fds, 0) < MAX_FD
    requires w == FirstClosed(Cur(s).fds[r := Some(FRESH_FILE)], 0)
    ensures PipeCall(s, mem1, mem2, copied).r == if !mem1 || w == MAX_FD || !mem2 then -12 else if copied then 0 else -14
  {
    hide FirstClosed, FirstFreeSlot;
  }

  function OpenFds(fds: Fds, from: nat): set<nat> { set i: nat | from <= i < MAX_FD && fds[i].Some? }

  /** Some descriptor from `from` on is closed. */
  ghost predicate SomeClosed(fds: Fds, from: nat) { exists fd :: Lowest(fds, from, fd) }

  /**
    The errors of a failing call: -9 for a descriptor that is not open or out of range, -2
    for a path that leads nowhere, -12 where no descriptor or no record is left. Only
    F_DUPFD reports a missing descriptor as -9.
   */
  lemma ErrorCodes(s: Kernel, oldfd: int, newfd: int, mem: bool, target: Option<nat>, left: Left)
    requires Shape(s)
    ensures OpenCall(s, mem, target).r < 0 ==> OpenCall(s, mem, target).r == if !mem || !SomeClosed(Cur(s).fds, 0) then -12 else -2
    ensures DupCall(s, oldfd, mem).r < 0 ==> DupCall(s, oldfd, mem).r == if !Open(s, oldfd) then -9 else -12
    ensures Dup2Call(s, oldfd, newfd, mem, left).r < 0 ==>
      Dup2Call(s, oldfd, newfd, mem, left).r == if !Open(s, oldfd) || !InRange(newfd) then -9 else -12
    ensures DupFromCall(s, oldfd, newfd, mem).r < 0 ==>
      DupFromCall(s, oldfd, newfd, mem).r ==
        if Open(s, oldfd) && InRange(newfd) && SomeClosed(Cur(s).fds, newfd) then -12 else -9
  {
    ClosedFound(Cur(s).fds, 0);
    if InRange(newfd) {
      ClosedFound(Cur(s).fds, newfd);
    }
  }

  lemma ClosedFound(fds: Fds, from: nat)
    requires from <= MAX_FD
    ensures SomeClosed(fds, from) <==> FirstClosed(fds, from) < MAX_FD
  {
    var fd := FirstClosed(fds, from);
    if fd < MAX_FD {
      assert Lowest(fds, from, fd);
    }
  }

  /** `fork` uses up an id whenever there is an unused task, even if it then fails. */
  lemma ForkUsesAnId(s: Kernel, stack: bool, space: bool, files: nat)
    requires Shape(s) && Cur(s).state != Unused && s.nextPid > 0
    ensures var o := ForkCall(s, stack, space, files);
      o.s.nextPid == s.nextPid + (if exists i :: 0 <= i < MAX_TASKS && s.tasks[i].state == Unused then 1 else 0)
  {
    hide CopyFds, Inherited;
    var i := FirstUnused(s.tasks, 0);
    if i < MAX_TASKS && stack && space {
      var s1 := s.(tasks := s.tasks[i := NewTask(s.nextPid)], nextPid := s.nextPid + 1);
      var s2 := s1.(tasks := s1.tasks[i := s1.tasks[i].(ppid := Cur(s1).pid, parent := Some(s1.current))]);
      CopyFdsInherits(s2, i, 0, files);
    }
  }

  /** `fork` succeeds exactly with an unused task, a stack, an address space and a record for each open descriptor. */
  lemma ForkSucceedsIff(s: Kernel, stack: bool, space: bool, files: nat)
    requires Shape(s) && Cur(s).state != Unused && s.nextPid > 0
    ensures var r := ForkCall(s, stack, space, files).r;
      && (r != -1 <==> (exists i :: 0 <= i < MAX_TASKS && s.tasks[i].state == Unused) && stack && space && files >= |OpenFds(Cur(s).fds, 0)|)
      && (r == -1 || r == s.nextPid)
  {
    var i := FirstUnused(s.tasks, 0);
    if i < MAX_TASKS && stack && space {
      var s1 := s.(tasks := s.tasks[i := NewTask(s.nextPid)], nextPid := s.nextPid + 1);
      var s2 := s1.(tasks := s1.tasks[i := s1.tasks[i].(ppid := Cur(s1).pid, parent := Some(s1.current))]);
      assert Cur(s2) == Cur(s);
      CopySucceedsIff(s2, i, 0, files);
    }
  }

  lemma {:induction false} CopySucceedsIff(s: Kernel, child: nat, from: nat, files: nat)
    requires Shape(s) && child < MAX_TASKS && child != s.current && from <= MAX_FD
    ensures CopyFds(s, child, from, files).r == if files >= |OpenFds(Cur(s).fds, from)| then 0 else -1
    decreases MAX_FD - from
  {
    hide OpenFds, Bump, SetFd;
    OpenFdsCount(Cur(s).fds, from);
    if from < MAX_FD {
      var f := Cur(s).fds[from];
      if f.None? {
        CopySucceedsIff(s, child, from + 1, files);
      } else if files > 0 {
        ChildCopyKeepsCurrent(s, child, from, f);
        CopySucceedsIff(Bump(SetFd(s, child, from, f), f.value), child, from + 1, files - 1);
      }
    }
  }

  lemma OpenFdsCount(fds: Fds, from: nat)
    requires from <= MAX_FD
    ensures |OpenFds(fds, from)| == if from == MAX_FD then 0 else |OpenFds(fds, from + 1)| + if fds[from].Some? then 1 else 0
  {
    if from == MAX_FD {
      assert OpenFds(fds, from) == {};
    } else if fds[from].Some? {
      assert OpenFds(fds, from) == OpenFds(fds, from + 1) + {from};
    } else {
      assert OpenFds(fds, from) == OpenFds(fds, from + 1);
    }
  }

  lemma ChildCopyKeepsCurrent(s: Kernel, child: nat, fd: nat, f: Option<File>)
    requires Shape(s) && child < MAX_TASKS && child != s.current && fd < MAX_FD && f.Some?
    ensures Shape(SetFd(s, child, fd, f))
    ensures var t := Bump(SetFd(s, child, fd, f), f.value);
      Shape(t) && t.current == s.current && t.nextPid == s.nextPid && Cur(t) == Cur(s)
      && t.tasks == s.tasks[child := s.tasks[child].(fds := s.tasks[child].fds[fd := f])]
  {
  }

  // ----- What exec, exit, wait and the scheduler leave -----

  /** The start of `exec` empties descriptors 3 and up of the current task and changes nothing else. */
  lemma ExecEmpties(s: Kernel)
    requires Shape(s)
    ensures var t := CloseAll(s, 3);
      OthersSame(s, t) && t.slots == s.slots && forall i :: 0 <= i < MAX_FD ==> Cur(t).fds[i] == if i < 3 then Cur(s).fds[i] else None
  {
    CloseAllEmpties(s, 3);
  }

  lemma {:induction false} CloseAllEmpties(s: Kernel, from: nat)
    requires Shape(s) && from <= MAX_FD
    ensures var t := CloseAll(s, from);
      OthersSame(s, t) && t.slots == s.slots && forall i :: 0 <= i < MAX_FD ==> Cur(t).fds[i] == if i < from then Cur(s).fds[i] else None
    decreases MAX_FD - from
  {
    if from < MAX_FD {
      CloseAllEmpties(SetFd(s, s.current, from, None), from + 1);
    }
  }

  /** `exit` makes the caller a zombie with the status given, and its parent runnable if that was blocked; nothing else changes. */
  lemma ExitLeaves(s: Kernel, status: int)
    requires Shape(s) && Cur(s).parent != Some(s.current)
    ensures var t := ExitCall(s, status);
      && Shape(t) && t.slots == s.slots && t.current == s.current && t.nextPid == s.nextPid
      && Cur(t) == Cur(s).(exitStatus := status, state := Zombie)
      && forall i: nat :: i < MAX_TASKS && i != s.current ==>
           t.tasks[i] == if Cur(s).parent == Some(i) && s.tasks[i].state == Blocked then s.tasks[i].(state := Runnable) else s.tasks[i]
  {
  }

  /** Task `i` is a zombie child of the caller, and asked for. */
  predicate ZombieChild(s: Kernel, i: nat, pid: int)
    requires Shape(s) && i < MAX_TASKS
  {
    s.tasks[i].state == Zombie && s.tasks[i].parent == Some(s.current) && (pid == -1 || s.tasks[i].pid == pid)
  }

  ghost predicate NoZombieChild(s: Kernel, pid: int)
    requires Shape(s)
  {
    forall i: nat :: i < MAX_TASKS ==> !ZombieChild(s, i, pid)
  }

  /** Task `i` is the first such child and becomes unused; its id and status are what is reported. */
  ghost predicate ChildReaped(s: Kernel, r: Reaped, i: nat, pid: int) {
    && Shape(s) && Shape(r.s) && i < MAX_TASKS && ZombieChild(s, i, pid) && (forall j: nat :: j < i ==> !ZombieChild(s, j, pid))
    && r.pid == s.tasks[i].pid && r.status == s.tasks[i].exitStatus
    && r.s == s.(tasks := s.tasks[i := s.tasks[i].(state := Unused)])
  }

  /** Reaping reports a child exactly when there is one to report, the first; otherwise it reports -1 and changes nothing. */
  lemma WaitReports(s: Kernel, pid: int)
    requires Shape(s)
    ensures NoZombieChild(s, pid) ==> TakeStatus(s, pid) == Reaped(s, -1, 0)
    ensures !NoZombieChild(s, pid) ==> exists i: nat :: ChildReaped(s, TakeStatus(s, pid), i, pid)
  {
    var i := FirstReapable(s, pid, 0);
    forall j: nat | j < MAX_TASKS
      ensures ZombieChild(s, j, pid) <==> Reapable(s, j, pid)
    {
    }
    if i < MAX_TASKS {
      assert ChildReaped(s, TakeStatus(s, pid), i, pid);
    }
  }

  /** Switching makes the next task the current, running one; the task left becomes runnable if it was running. Nothing else changes. */
  lemma SwitchLeaves(s: Kernel, next: nat)
    requires Shape(s) && next < MAX_TASKS && (s.tasks[next].state == Runnable || s.tasks[next].state == Running)
    ensures var t := SwitchTo(s, next);
      && Shape(t) && t.slots == s.slots && t.nextPid == s.nextPid && t.current == next && t.tasks[next] == s.tasks[next].(state := Running)
      && forall i: nat :: i < MAX_TASKS && i != next ==>
           t.tasks[i] == if i == s.current && s.tasks[i].state == Running then s.tasks[i].(state := Runnable) else s.tasks[i]
  {
  }

  /** Waking makes every blocked task runnable and changes nothing else. */
  lemma WakeLeaves(s: Kernel)
    requires Shape(s)
    ensures var t := WakeAll(s);
      && Shape(t) && t.slots == s.slots && t.current == s.current && t.nextPid == s.nextPid
      && forall i: nat :: i < MAX_TASKS ==> t.tasks[i] == if s.tasks[i].state == Blocked then s.tasks[i].(state := Runnable) else s.tasks[i]
  {
  }

  /** At the start one task with id 1 runs, with the console on its first three descriptors; nothing else is in use. */
  lemma StartMeans()
    ensures var s := ProcTasks.Start();
      && Shape(s) && s.current == 0 && s.nextPid == 2 && Cur(s).state == Running && Cur(s).pid == 1 && Cur(s).parent == None
      && (forall i :: 0 <= i < MAX_FD ==> Cur(s).fds[i] == if i < 3 then Some(File(None, -1, 0, 0)) else None)
      && (forall i :: 0 < i < MAX_TASKS ==> s.tasks[i].state == Unused) && forall k :: 0 <= k < MAX_PIPE ==> s.slots[k] == Slot(0, 0, false)
  {
  }
}
