/**
  Every call keeps the cover of live descriptors by pipe counts; exactly which
  calls keep the counts exact.
 */
module ProcOps {
  import opened Paths
  import opened ProcSpec
  import opened ProcInv

  predicate IsPipe(f: Option<File>) { f.Some? && f.value.pipe.Some? }

  // ----- Descriptors -----

  lemma OpenKeeps(s: Kernel, mem: bool, target: Option<nat>)
    requires Inv(s)
    ensures Inv(OpenCall(s, mem, target).s) && (Exact(s) ==> Exact(OpenCall(s, mem, target).s))
  {
    hide Covered, ExactEnd, Exact, FilesOk, ParentsOk;
    var fd := FirstClosed(Cur(s).fds, 0);
    if fd < MAX_FD && mem {
      var fds, o := Cur(s).fds, OpenCall(s, mem, target);
      if target.None? {
        assert fds[fd := Some(FRESH_FILE)][fd := None] == fds;
        assert o.s.tasks == s.tasks;
      } else {
        var f := FRESH_FILE.(inode := target.value);
        CopyKeeps(s, s.current, fd, f);
        assert fds[fd := Some(FRESH_FILE)][fd := Some(f)] == fds[fd := Some(f)];
        assert o.s.tasks == SetFd(s, s.current, fd, Some(f)).tasks;
      }
    }
  }

  lemma DupKeeps(s: Kernel, oldfd: int, mem: bool)
    requires Inv(s)
    ensures Inv(DupCall(s, oldfd, mem).s) && (Exact(s) ==> Exact(DupCall(s, oldfd, mem).s))
  {
    hide Covered, ExactEnd, Exact, FilesOk, ParentsOk;
    if Open(s, oldfd) && FirstClosed(Cur(s).fds, 0) < MAX_FD && mem {
      OpenIsInUse(s, s.current, oldfd);
      CopyKeeps(s, s.current, FirstClosed(Cur(s).fds, 0), Cur(s).fds[oldfd].value);
    }
  }

  lemma DupFromKeeps(s: Kernel, oldfd: int, minfd: int, mem: bool)
    requires Inv(s)
    ensures Inv(DupFromCall(s, oldfd, minfd, mem).s) && (Exact(s) ==> Exact(DupFromCall(s, oldfd, minfd, mem).s))
  {
    hide Covered, ExactEnd, Exact, FilesOk, ParentsOk;
    if Open(s, oldfd) && InRange(minfd) {
      var fd := FirstClosed(Cur(s).fds, minfd);
      if fd < MAX_FD && mem {
        var src := Cur(s).fds[oldfd].value;
        OpenIsInUse(s, s.current, oldfd);
        CopyKeeps(s, s.current, fd, src);
        assert SetFd(Bump(s, src), s.current, fd, Some(src)) == Bump(SetFd(s, s.current, fd, Some(src)), src);
      }
    }
  }

  /** Closing the record of an open descriptor without touching its pipe changes no end. */
  lemma ClosedKeeps(s: Kernel, fd: nat, left: Left)
    requires Inv(s) && fd < MAX_FD && Cur(s).fds[fd].Some?
    ensures var s' := SetFd(s, s.current, fd, Some(Closed(Cur(s).fds[fd].value, left)));
      Inv(s') && (Exact(s') <==> Exact(s))
  {
    var f := Cur(s).fds[fd];
    var s' := SetFd(s, s.current, fd, Some(Closed(f.value, left)));
    assert FileOk(f);
    forall k, e | 0 <= k < MAX_PIPE && IsEnd(e)
      ensures |Ends(s', k, e)| == |Ends(s, k, e)| && Covered(s', k, e) && (ExactEnd(s', k, e) <==> ExactEnd(s, k, e))
    {
      SizeSetFd(s, s.current, fd, Some(Closed(f.value, left)), k, e);
      assert Covered(s, k, e);
    }
  }

  /** `dup2` keeps the counts exact unless it replaces an open pipe end. */
  lemma Dup2Keeps(s: Kernel, oldfd: int, newfd: int, mem: bool, left: Left)
    requires Inv(s)
    ensures Inv(Dup2Call(s, oldfd, newfd, mem, left).s)
    ensures Exact(s) ==>
      (Exact(Dup2Call(s, oldfd, newfd, mem, left).s) <==>
        !(Open(s, oldfd) && Open(s, newfd) && IsPipe(Cur(s).fds[newfd])))
  {
    hide Covered, ExactEnd, Exact, FilesOk, ParentsOk;
    if InRange(newfd) && Open(s, oldfd) && (mem || Open(s, newfd)) {
      var s1 := if Open(s, newfd) then SetFd(s, s.current, newfd, Some(Closed(Cur(s).fds[newfd].value, left))) else s;
      if Open(s, newfd) {
        ClosedKeeps(s, newfd, left);
      }
      OpenIsInUse(s1, s1.current, oldfd);
      CopyKeeps(s1, s1.current, newfd, Cur(s1).fds[oldfd].value);
    }
  }

  lemma CloseEnd(s: Kernel, fd: nat, k: nat, e: int)
    requires Inv(s) && Open(s, fd) && k < MAX_PIPE && IsEnd(e)
    ensures var s' := CloseCall(s, fd).s;
      Shape(s') && Covered(s', k, e) && (ExactEnd(s, k, e) && ExactEnd(s, k, 1 - e) ==> ExactEnd(s', k, e))
  {
    var f := Cur(s).fds[fd];
    assert FileOk(f);
    var s' := CloseCall(s, fd).s;
    var s1 := s'.(tasks := s.tasks);
    assert Covered(s, k, e) && Covered(s, k, 1 - e);
    SizeSetFd(s, s.current, fd, None, k, e);
    SizeSetFd(s, s.current, fd, None, k, 1 - e);
    EndsOfTasks(SetFd(s, s.current, fd, None), s', k, e);
    EndsOfTasks(SetFd(s, s.current, fd, None), s', k, 1 - e);
    if NamesEnd(f, k, e) {
      assert Ends(s, k, e) != {};
    }
    if NamesEnd(f, k, 1 - e) {
      assert Ends(s, k, 1 - e) != {};
    }
  }

  /** `close` keeps the counts exact, and frees a slot only when no descriptor is left on it. */
  lemma CloseKeeps(s: Kernel, fd: int)
    requires Inv(s)
    ensures Inv(CloseCall(s, fd).s) && (Exact(s) ==> Exact(CloseCall(s, fd).s))
  {
    hide Ends;
    if Open(s, fd) {
      var s' := CloseCall(s, fd).s;
      forall k, e | 0 <= k < MAX_PIPE && IsEnd(e)
        ensures Covered(s', k, e) && (Exact(s) ==> ExactEnd(s', k, e))
      {
        CloseEnd(s, fd, k, e);
        assert Exact(s) ==> ExactEnd(s, k, e) && ExactEnd(s, k, 1 - e);
      }
    }
  }

  /** A slot that is free to be taken has no live descriptor on it. */
  lemma FreeSlotIsUnnamed(s: Kernel, k: nat)
    requires Inv(s) && k < MAX_PIPE && !s.slots[k].inUse
    ensures Ends(s, k, 0) == {} && Ends(s, k, 1) == {}
    ensures forall t: nat, i: nat ::
      t < MAX_TASKS && i < MAX_FD && s.tasks[t].state != Unused && IsPipe(s.tasks[t].fds[i]) ==>
        s.tasks[t].fds[i].value.pipe.value != k
  {
    assert Covered(s, k, 0) && Covered(s, k, 1);
    forall t: nat, i: nat | t < MAX_TASKS && i < MAX_FD && s.tasks[t].state != Unused && IsPipe(s.tasks[t].fds[i])
      ensures s.tasks[t].fds[i].value.pipe.value != k
    {
      OpenIsInUse(s, t, i);
    }
  }

  /** A reader that finds no bytes and no writers reads end of file, and then no live descriptor can write. */
  lemma EndOfFileMeansNoWriter(s: Kernel, k: nat)
    requires Inv(s) && k < MAX_PIPE && s.slots[k].writers == 0
    ensures forall t: nat, i: nat :: t < MAX_TASKS && i < MAX_FD ==> !Names(s, t, i, k, 1)
  {
    assert Covered(s, k, 1);
    forall t: nat, i: nat | t < MAX_TASKS && i < MAX_FD
      ensures !Names(s, t, i, k, 1)
    {
      EndsMember(s, k, 1, (t, i));
    }
  }

  /** The two descriptors of a new pipe, as seen from one end. */
  lemma PipeEnds(s: Kernel, p: nat, r: nat, w: nat, k: nat, e: int)
    requires Inv(s) && p < MAX_PIPE && !s.slots[p].inUse && r < MAX_FD && w < MAX_FD && r != w
    requires Cur(s).fds[r].None? && Cur(s).fds[w].None? && k < MAX_PIPE && IsEnd(e)
    ensures var a := SetFd(s, s.current, r, Some(File(Some(p), 0, 0, 0)));
      var b := SetFd(a, s.current, w, Some(File(Some(p), 1, 0, 0)));
      |Ends(b, k, e)| == |Ends(s, k, e)| + One(k == p) && (k == p ==> Ends(s, k, e) == {})
  {
    FreeSlotIsUnnamed(s, p);
    SizeSetFd(s, s.current, r, Some(File(Some(p), 0, 0, 0)), k, e);
    var a := SetFd(s, s.current, r, Some(File(Some(p), 0, 0, 0)));
    SizeSetFd(a, s.current, w, Some(File(Some(p), 1, 0, 0)), k, e);
  }

  /** A state with the same tasks whose slots differ only in one that is free in both. */
  lemma FreeSlotChange(s: Kernel, s': Kernel, p: nat)
    requires Inv(s) && p < MAX_PIPE && !s.slots[p].inUse && Shape(s')
    requires s'.tasks == s.tasks && s'.current == s.current && !s'.slots[p].inUse
    requires forall k :: 0 <= k < MAX_PIPE && k != p ==> s'.slots[k] == s.slots[k]
    ensures Inv(s') && (Exact(s) ==> Exact(s'))
  {
    FreeSlotIsUnnamed(s, p);
    forall k, e | 0 <= k < MAX_PIPE && IsEnd(e)
      ensures Covered(s', k, e) && (Exact(s) ==> ExactEnd(s', k, e))
    {
      EndsOfTasks(s, s', k, e);
      assert Covered(s, k, e) && (Exact(s) ==> ExactEnd(s, k, e));
    }
  }

  lemma PipeKeeps(s: Kernel, mem1: bool, mem2: bool, copied: bool)
    requires Inv(s)
    ensures Inv(PipeCall(s, mem1, mem2, copied).s) && (Exact(s) ==> Exact(PipeCall(s, mem1, mem2, copied).s))
  {
    hide Covered, ExactEnd, Exact, FilesOk, ParentsOk;
    var p := FirstFreeSlot(s.slots, 0);
    var o := PipeCall(s, mem1, mem2, copied);
    if p < MAX_PIPE {
      var r := FirstClosed(Cur(s).fds, 0);
      if r == MAX_FD || !mem1 {
        FreeSlotChange(s, o.s, p);
      } else {
        var fds := Cur(s).fds[r := Some(FRESH_FILE)];
        var w := FirstClosed(fds, 0);
        if w < MAX_FD && mem2 && copied {
          PipeState(s, p, r, w);
          PipeMade(s, p, r, w, o.s);
        } else {
          if w < MAX_FD && mem2 {
            UndoTwo(s, r, w);
          } else {
            UndoOne(s, r);
          }
          FreeSlotChange(s, o.s, p);
        }
      }
    }
  }

  lemma UndoOne(s: Kernel, r: nat)
    requires Shape(s) && r < MAX_FD && Cur(s).fds[r].None?
    ensures SetFd(SetFd(s, s.current, r, Some(FRESH_FILE)), s.current, r, None).tasks == s.tasks
  {
    assert Cur(s).fds[r := Some(FRESH_FILE)][r := None] == Cur(s).fds;
  }

  lemma UndoTwo(s: Kernel, r: nat, w: nat)
    requires Shape(s) && r < MAX_FD && w < MAX_FD && r != w && Cur(s).fds[r].None? && Cur(s).fds[w].None?
    ensures SetFd(SetFd(SetFd(SetFd(s, s.current, r, Some(FRESH_FILE)), s.current, w, Some(FRESH_FILE)),
                        s.current, r, None), s.current, w, None).tasks == s.tasks
  {
    assert Cur(s).fds[r := Some(FRESH_FILE)][w := Some(FRESH_FILE)][r := None][w := None] == Cur(s).fds;
  }

  /** The order of the stores of `pipe` does not matter. */
  lemma PipeState(s: Kernel, p: nat, r: nat, w: nat)
    requires Shape(s) && p < MAX_PIPE && r < MAX_FD && w < MAX_FD && r != w
    ensures
      var s2 := SetFd(SetFd(SetSlot(s, p, Slot(0, 0, true)), s.current, r, Some(FRESH_FILE)), s.current, w, Some(FRESH_FILE));
      var s3 := SetSlot(s2, p, Slot(1, 1, true));
      SetFd(SetFd(s3, s.current, r, Some(File(Some(p), 0, 0, 0))), s.current, w, Some(File(Some(p), 1, 0, 0)))
      == SetSlot(SetFd(SetFd(s, s.current, r, Some(File(Some(p), 0, 0, 0))), s.current, w, Some(File(Some(p), 1, 0, 0))),
                 p, Slot(1, 1, true))
  {
    var fds := Cur(s).fds;
    assert fds[r := Some(FRESH_FILE)][w := Some(FRESH_FILE)][r := Some(File(Some(p), 0, 0, 0))][w := Some(File(Some(p), 1, 0, 0))]
      == fds[r := Some(File(Some(p), 0, 0, 0))][w := Some(File(Some(p), 1, 0, 0))];
    assert s.slots[p := Slot(0, 0, true)][p := Slot(1, 1, true)] == s.slots[p := Slot(1, 1, true)];
  }

  lemma PipeMade(s: Kernel, p: nat, r: nat, w: nat, s': Kernel)
    requires Inv(s) && p < MAX_PIPE && !s.slots[p].inUse && r < MAX_FD && w < MAX_FD && r != w
    requires Cur(s).fds[r].None? && Cur(s).fds[w].None?
    requires s' == SetSlot(SetFd(SetFd(s, s.current, r, Some(File(Some(p), 0, 0, 0))), s.current, w, Some(File(Some(p), 1, 0, 0))),
                           p, Slot(1, 1, true))
    ensures Inv(s') && (Exact(s) ==> Exact(s'))
  {
    hide Ends;
    var b := SetFd(SetFd(s, s.current, r, Some(File(Some(p), 0, 0, 0))), s.current, w, Some(File(Some(p), 1, 0, 0)));
    forall k, e | 0 <= k < MAX_PIPE && IsEnd(e)
      ensures Covered(s', k, e) && (Exact(s) ==> ExactEnd(s', k, e))
    {
      PipeEnds(s, p, r, w, k, e);
      EndsOfTasks(b, s', k, e);
      EmptySize(Ends(s, k, e));
      EmptySize(Ends(b, k, e));
      assert Covered(s, k, e) && (Exact(s) ==> ExactEnd(s, k, e));
    }
  }

  lemma EmptySize(a: set<(nat, nat)>)
    ensures a == {} <==> |a| == 0
  {
  }
}
