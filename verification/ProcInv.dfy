/**
  Pipe counts against live descriptors: over every call each count is at least
  the number of descriptors on that end, and when it is exactly that number.
 */
module ProcInv {
  import opened Paths
  import opened ProcSpec

  predicate NamesEnd(f: Option<File>, k: nat, e: int) {
    f.Some? && f.value.pipe == Some(k) && f.value.pipeEnd == e
  }

  /** Descriptor `i` of task `t` is live and on end `e` of pipe slot `k`. */
  predicate Names(s: Kernel, t: nat, i: nat, k: nat, e: int)
    requires Shape(s) && t < MAX_TASKS && i < MAX_FD
  {
    s.tasks[t].state != Unused && NamesEnd(s.tasks[t].fds[i], k, e)
  }

  ghost function Ends(s: Kernel, k: nat, e: int): set<(nat, nat)>
    requires Shape(s)
  {
    set t: nat, i: nat | t < MAX_TASKS && i < MAX_FD && Names(s, t, i, k, e) :: (t, i)
  }

  function Count(slot: Slot, e: int): nat { if e == 0 then slot.readers else slot.writers }

  /** A pipe descriptor names one end of an existing slot. */
  predicate FileOk(f: Option<File>) {
    f.Some? && f.value.pipe.Some? ==> f.value.pipe.value < MAX_PIPE && (f.value.pipeEnd == 0 || f.value.pipeEnd == 1)
  }

  function One(b: bool): nat { if b then 1 else 0 }

  predicate IsEnd(e: int) { e == 0 || e == 1 }

  ghost predicate FilesOk(s: Kernel)
    requires Shape(s)
  {
    forall t: nat, i: nat :: t < MAX_TASKS && i < MAX_FD ==> FileOk(s.tasks[t].fds[i])
  }

  /** Counts cover the live descriptors, and a slot any of them names is in use. */
  ghost predicate Covered(s: Kernel, k: nat, e: int)
    requires Shape(s) && k < MAX_PIPE
  {
    |Ends(s, k, e)| <= Count(s.slots[k], e) && (Ends(s, k, e) != {} ==> s.slots[k].inUse)
  }

  /** No live task is its own parent. */
  ghost predicate ParentsOk(s: Kernel)
    requires Shape(s)
  {
    forall t: nat :: t < MAX_TASKS && s.tasks[t].state != Unused ==> s.tasks[t].parent != Some(t)
  }

  ghost predicate Inv(s: Kernel) {
    && Shape(s) && FilesOk(s) && ParentsOk(s) && Cur(s).state != Unused
    && forall k, e :: 0 <= k < MAX_PIPE && IsEnd(e) ==> Covered(s, k, e)
  }

  ghost predicate ExactEnd(s: Kernel, k: nat, e: int)
    requires Shape(s) && k < MAX_PIPE
  {
    s.slots[k].inUse ==> Count(s.slots[k], e) == |Ends(s, k, e)|
  }

  /** Every count of a slot in use is the number of live descriptors on that end. */
  ghost predicate Exact(s: Kernel)
    requires Shape(s)
  {
    forall k, e :: 0 <= k < MAX_PIPE && IsEnd(e) ==> ExactEnd(s, k, e)
  }

  // ----- Sets of descriptors -----

  lemma {:induction false} SubsetSize(a: set<(nat, nat)>, b: set<(nat, nat)>)
    requires a <= b
    ensures |a| <= |b| && (|a| == |b| ==> a == b)
  {
    if a != {} {
      var x :| x in a;
      SubsetSize(a - {x}, b - {x});
      assert |a| == |a - {x}| + 1 && |b| == |b - {x}| + 1;
    }
  }

  lemma EndsMember(s: Kernel, k: nat, e: int, x: (nat, nat))
    requires Shape(s)
    ensures x in Ends(s, k, e) <==> x.0 < MAX_TASKS && x.1 < MAX_FD && Names(s, x.0, x.1, k, e)
  {
  }

  function Added(t: nat, fd: nat, live: bool, f: Option<File>, k: nat, e: int): set<(nat, nat)> {
    if live && NamesEnd(f, k, e) then {(t, fd)} else {}
  }

  /** Entering a descriptor: it leaves the end it was on and joins the new one. */
  lemma EndsSetFd(s: Kernel, t: nat, fd: nat, f: Option<File>, k: nat, e: int)
    requires Shape(s) && t < MAX_TASKS && fd < MAX_FD
    ensures Ends(SetFd(s, t, fd, f), k, e) ==
      Ends(s, k, e) - {(t, fd)} + Added(t, fd, s.tasks[t].state != Unused, f, k, e)
  {
    var s' := SetFd(s, t, fd, f);
    forall x
      ensures x in Ends(s', k, e) <==>
        x in Ends(s, k, e) - {(t, fd)} + Added(t, fd, s.tasks[t].state != Unused, f, k, e)
    {
      EndsMember(s, k, e, x);
      EndsMember(s', k, e, x);
    }
  }

  /** The number of descriptors on an end before and after one is entered. */
  lemma SizeSetFd(s: Kernel, t: nat, fd: nat, f: Option<File>, k: nat, e: int)
    requires Shape(s) && t < MAX_TASKS && fd < MAX_FD && s.tasks[t].state != Unused
    ensures |Ends(SetFd(s, t, fd, f), k, e)| ==
      |Ends(s, k, e)| - One(NamesEnd(s.tasks[t].fds[fd], k, e)) + One(NamesEnd(f, k, e))
    ensures NamesEnd(s.tasks[t].fds[fd], k, e) ==> (t, fd) in Ends(s, k, e)
  {
    hide Ends;
    EndsSetFd(s, t, fd, f, k, e);
    EndsMember(s, k, e, (t, fd));
    SwapMember(Ends(s, k, e), (t, fd), NamesEnd(f, k, e));
  }

  lemma SwapMember(a: set<(nat, nat)>, x: (nat, nat), add: bool)
    ensures |a - {x} + (if add then {x} else {})| == |a| - One(x in a) + One(add)
  {
    if x in a {
      assert a == (a - {x}) + {x};
    } else {
      assert a - {x} == a;
    }
    assert a - {x} + {} == a - {x};
  }

  /** Only the state of task `t` changes: its descriptors stay live, or leave with it. */
  lemma EndsSetState(s: Kernel, t: nat, st: TaskState, k: nat, e: int)
    requires Shape(s) && t < MAX_TASKS && s.tasks[t].state != Unused
    ensures st != Unused ==> Ends(SetState(s, t, st), k, e) == Ends(s, k, e)
    ensures st == Unused ==> Ends(SetState(s, t, st), k, e) <= Ends(s, k, e)
    ensures st == Unused ==>
      (Ends(SetState(s, t, st), k, e) == Ends(s, k, e) <==> forall i :: 0 <= i < MAX_FD ==> !NamesEnd(s.tasks[t].fds[i], k, e))
  {
    var s' := SetState(s, t, st);
    forall x
      ensures x in Ends(s', k, e) <==> x in Ends(s, k, e) && (x.0 != t || st != Unused)
    {
      EndsMember(s, k, e, x);
      EndsMember(s', k, e, x);
    }
    forall i | 0 <= i < MAX_FD
      ensures NamesEnd(s.tasks[t].fds[i], k, e) <==> (t, i) in Ends(s, k, e)
    {
      EndsMember(s, k, e, (t, i));
    }
  }

  /** Ends depend on the tasks alone. */
  lemma EndsOfTasks(s: Kernel, s': Kernel, k: nat, e: int)
    requires Shape(s) && Shape(s') && s.tasks == s'.tasks
    ensures Ends(s', k, e) == Ends(s, k, e)
  {
  }

  lemma BumpCounts(s: Kernel, f: File, k: nat, e: int)
    requires Shape(s) && FileOk(Some(f)) && k < MAX_PIPE && IsEnd(e)
    ensures Shape(Bump(s, f)) && Bump(s, f).tasks == s.tasks && Bump(s, f).current == s.current
    ensures Bump(s, f).nextPid == s.nextPid && Bump(s, f).slots[k].inUse == s.slots[k].inUse
    ensures Count(Bump(s, f).slots[k], e) == Count(s.slots[k], e) + One(NamesEnd(Some(f), k, e))
  {
  }

  // ----- Copying a descriptor -----

  /** Entering a copy of `f` and counting it, as seen from one end. */
  lemma CopyEnd(s: Kernel, t: nat, fd: nat, f: File, k: nat, e: int)
    requires Shape(s) && t < MAX_TASKS && fd < MAX_FD && s.tasks[t].state != Unused && FileOk(Some(f))
    requires k < MAX_PIPE && IsEnd(e)
    ensures var s' := Bump(SetFd(s, t, fd, Some(f)), f);
      Shape(s') && s'.slots[k].inUse == s.slots[k].inUse
      && Count(s'.slots[k], e) - |Ends(s', k, e)| ==
        Count(s.slots[k], e) - |Ends(s, k, e)| + One(NamesEnd(s.tasks[t].fds[fd], k, e))
      && (Ends(s', k, e) != {} ==> Ends(s, k, e) != {} || NamesEnd(Some(f), k, e))
  {
    var s1 := SetFd(s, t, fd, Some(f));
    SizeSetFd(s, t, fd, Some(f), k, e);
    EndsSetFd(s, t, fd, Some(f), k, e);
    BumpCounts(s1, f, k, e);
    EndsOfTasks(s1, Bump(s1, f), k, e);
  }

  /** A copy keeps the cover; it keeps exactness unless it replaced a pipe end. */
  lemma CopyKeeps(s: Kernel, t: nat, fd: nat, f: File)
    requires Inv(s) && t < MAX_TASKS && fd < MAX_FD && s.tasks[t].state != Unused && FileOk(Some(f))
    requires f.pipe.Some? ==> s.slots[f.pipe.value].inUse
    ensures Inv(Bump(SetFd(s, t, fd, Some(f)), f))
    ensures Exact(s) ==>
      (Exact(Bump(SetFd(s, t, fd, Some(f)), f)) <==> !(s.tasks[t].fds[fd].Some? && s.tasks[t].fds[fd].value.pipe.Some?))
  {
    var s' := Bump(SetFd(s, t, fd, Some(f)), f);
    forall k, e | 0 <= k < MAX_PIPE && IsEnd(e)
      ensures Covered(s', k, e)
      ensures Exact(s) && s.slots[k].inUse ==> (ExactEnd(s', k, e) <==> !NamesEnd(s.tasks[t].fds[fd], k, e))
      ensures !s.slots[k].inUse ==> ExactEnd(s', k, e)
    {
      CopyEnd(s, t, fd, f, k, e);
      assert Covered(s, k, e);
      assert Exact(s) ==> ExactEnd(s, k, e);
    }
    BumpCounts(SetFd(s, t, fd, Some(f)), f, 0, 0);
    var g := s.tasks[t].fds[fd];
    if g.Some? && g.value.pipe.Some? {
      var k, e := g.value.pipe.value, g.value.pipeEnd;
      assert FileOk(g) && IsEnd(e) && Covered(s, k, e);
      EndsMember(s, k, e, (t, fd));
      assert Exact(s) ==> !ExactEnd(s', k, e);
    }
  }

  /** A live pipe descriptor names a slot in use. */
  lemma OpenIsInUse(s: Kernel, t: nat, fd: nat)
    requires Inv(s) && t < MAX_TASKS && fd < MAX_FD && s.tasks[t].state != Unused
    ensures var g := s.tasks[t].fds[fd]; FileOk(g) && (g.Some? && g.value.pipe.Some? ==> s.slots[g.value.pipe.value].inUse)
  {
    var g := s.tasks[t].fds[fd];
    assert FileOk(g);
    if g.Some? && g.value.pipe.Some? {
      EndsMember(s, g.value.pipe.value, g.value.pipeEnd, (t, fd));
      assert Covered(s, g.value.pipe.value, g.value.pipeEnd);
    }
  }
}
