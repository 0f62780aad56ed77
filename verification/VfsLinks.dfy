/**
  Lookup that follows symbolic links: the code restarts from the root with a
  rewritten path after every link. For links with absolute targets that expand
  acyclically this ends, after a number of restarts known in advance, with the
  inode that recursive substitution gives.
 */
module VfsLinks {
  import opened Paths
  import opened VfsSpec

  const LINK_BUF: nat := 512
  const REST_LIMIT: nat := 255

  /** One pass from the root: an answer, or the path to restart with. */
  datatype Pass = Done(r: Option<nat>) | Restart(path: Str)

  /** The index of the last slash, -1 when there is none. */
  function LastSlash(s: Str): (i: int)
    ensures -1 <= i < |s| && (i >= 0 ==> s[i] == SLASH)
  {
    if s == [] then -1
    else if s[|s| - 1] == SLASH then |s| - 1
    else LastSlash(s[..|s| - 1])
  }

  /** `vfs_symlink_resolve`: the text a link at path `base` stands for, empty when it does not fit. */
  function ResolveText(base: Str, target: Str): (r: Str)
    ensures |r| < LINK_BUF
  {
    if Absolute(target) then Truncated(target)
    else
      var slash := LastSlash(base);
      if slash < 0 then []
      else
        var dirlen := if slash == 0 then 1 else slash;
        if dirlen + 1 + |target| + 1 > LINK_BUF then [] else base[..dirlen] + [SLASH] + target
  }

  /** What the pass does at a link: `done` is the path up to and with the link, `rest` what follows it. */
  function AtLink(done: Str, rest: Str, target: Str): Pass {
    var text := ResolveText(done, target);
    var cut := if |rest| > REST_LIMIT then rest[..REST_LIMIT] else rest;
    if cut == [] then Restart(text)
    else if |text| + 1 + |cut| + 1 > LINK_BUF then Done(None)
    else Restart(text + [SLASH] + cut)
  }

  /** The pass over `path`, at inode `cur` with `s` left to walk, behind all slashes. */
  function PassAt(t: Tree, path: Str, cur: nat, s: Str): Pass
    requires |s| <= |path|
    decreases |s|
  {
    if cur >= |t| then Done(None)
    else if SkipSlash(s) == [] then Done(Some(cur))
    else if |First(s)| > NAME_LIMIT then Done(None)
    else
      var c := FindIn(t, cur, First(s));
      var after := SkipSlash(Rest(s));
      if c.None? || c.value >= |t| then Done(None)
      else if t[c.value].Symlink? then AtLink(path[..|path| - |after|], after, t[c.value].target)
      else PassAt(t, path, c.value, after)
  }

  function PassOver(t: Tree, path: Str): Pass { PassAt(t, path, 0, SkipSlash(path)) }

  /** The lookup with at most `n` restarts; no result means it is still going. */
  function Lookup(t: Tree, path: Str, n: nat): Option<Option<nat>>
    decreases n
  {
    match PassOver(t, path)
    case Done(r) => Some(r)
    case Restart(next) => if n == 0 then None else Lookup(t, next, n - 1)
  }

  function LookupFollow(t: Tree, path: Str, n: nat): Option<Option<nat>> {
    if !Absolute(path) then Some(None) else Lookup(t, Truncated(path), n)
  }

  // ----- Recursive substitution -----

  /** What a path stands for; `Cyclic` when links are nested deeper than allowed. */
  datatype Meaning = Found(inode: nat) | Missing | Cyclic

  /**
    The inode that `comps` leads to from `cur`, where a link stands for what its own
    target leads to from the root, with links nested at most `d` deep.
   */
  function Substitute(t: Tree, cur: nat, comps: seq<Str>, d: nat): Meaning
    decreases d, |comps|
  {
    if cur >= |t| then Missing
    else if comps == [] then Found(cur)
    else if |comps[0]| > NAME_LIMIT then Missing
    else
      var c := FindIn(t, cur, comps[0]);
      if c.None? || c.value >= |t| then Missing
      else if t[c.value].Symlink? then
        if d == 0 then Cyclic
        else
          var m := Substitute(t, 0, Components(t[c.value].target), d - 1);
          if m.Found? then Substitute(t, m.inode, comps[1..], d) else m
      else Substitute(t, c.value, comps[1..], d)
  }

  /** How many restarts the expansion of `comps` takes. */
  function Cost(t: Tree, cur: nat, comps: seq<Str>, d: nat): nat
    decreases d, |comps|
  {
    if cur >= |t| || comps == [] || |comps[0]| > NAME_LIMIT then 0
    else
      var c := FindIn(t, cur, comps[0]);
      if c.None? || c.value >= |t| then 0
      else if t[c.value].Symlink? then
        if d == 0 then 0
        else
          var target := Components(t[c.value].target);
          var m := Substitute(t, 0, target, d - 1);
          1 + Cost(t, 0, target, d - 1) + if m.Found? then Cost(t, m.inode, comps[1..], d) else 0
      else Cost(t, c.value, comps[1..], d)
  }

  /** A meaning does not change when links may be nested deeper. */
  lemma {:induction false} DeeperIsSame(t: Tree, cur: nat, comps: seq<Str>, d: nat, e: nat)
    requires Substitute(t, cur, comps, d) != Cyclic && d <= e
    ensures Substitute(t, cur, comps, e) == Substitute(t, cur, comps, d)
    decreases d, |comps|
  {
    hide Components, FindIn;
    if cur < |t| && comps != [] && |comps[0]| <= NAME_LIMIT {
      var c := FindIn(t, cur, comps[0]);
      if c.Some? && c.value < |t| {
        if t[c.value].Symlink? {
          var m := Substitute(t, 0, Components(t[c.value].target), d - 1);
          DeeperIsSame(t, 0, Components(t[c.value].target), d - 1, e - 1);
          if m.Found? {
            DeeperIsSame(t, m.inode, comps[1..], d, e);
          }
        } else {
          DeeperIsSame(t, c.value, comps[1..], d, e);
        }
      }
    }
  }

  // ----- How deep a meaning can be -----

  function Links(t: Tree): set<nat> { set i: nat | i < |t| && t[i].Symlink? }

  /** The links whose targets have a meaning with links nested at most `d` deep. */
  function Resolved(t: Tree, d: nat): set<nat> {
    set i: nat | i < |t| && t[i].Symlink? && Substitute(t, 0, Components(t[i].target), d) != Cyclic
  }

  /** Where depth `e` resolves no more links than depth `d`, meanings one level deeper are the same. */
  lemma {:induction false} NoDeeper(t: Tree, cur: nat, comps: seq<Str>, d: nat, e: nat)
    requires d <= e && Resolved(t, e) <= Resolved(t, d) && Substitute(t, cur, comps, e + 1) != Cyclic
    ensures Substitute(t, cur, comps, d + 1) == Substitute(t, cur, comps, e + 1)
    decreases |comps|
  {
    hide Components, FindIn;
    if cur < |t| && comps != [] && |comps[0]| <= NAME_LIMIT {
      var c := FindIn(t, cur, comps[0]);
      if c.Some? && c.value < |t| {
        if t[c.value].Symlink? {
          assert c.value in Resolved(t, e);
          DeeperIsSame(t, 0, Components(t[c.value].target), d, e);
          var m := Substitute(t, 0, Components(t[c.value].target), d);
          if m.Found? {
            NoDeeper(t, m.inode, comps[1..], d, e);
          }
        } else {
          NoDeeper(t, c.value, comps[1..], d, e);
        }
      }
    }
  }

  lemma ResolvedGrows(t: Tree, d: nat, e: nat)
    requires d <= e
    ensures Resolved(t, d) <= Resolved(t, e) <= Links(t)
  {
    hide Components, Substitute;
    forall i | i in Resolved(t, d)
      ensures i in Resolved(t, e)
    {
      DeeperIsSame(t, 0, Components(t[i].target), d, e);
    }
  }

  /** Once a further level resolves no more links, none does. */
  lemma {:induction false} ResolvedStays(t: Tree, d: nat, e: nat)
    requires d <= e && Resolved(t, d + 1) <= Resolved(t, d)
    ensures Resolved(t, e) <= Resolved(t, d)
    decreases e
  {
    hide Components, Substitute;
    if e > d {
      ResolvedStays(t, d, e - 1);
      forall i | i in Resolved(t, e)
        ensures i in Resolved(t, d)
      {
        NoDeeper(t, 0, Components(t[i].target), d, e - 1);
        assert i in Resolved(t, d + 1);
      }
    }
  }

  /** Every level up to `d` resolves a further link, or one of them resolves all that can be. */
  lemma {:induction false} LevelsResolve(t: Tree, d: nat, e: nat)
    requires d <= e
    ensures |Resolved(t, d)| > d || Resolved(t, e) <= Resolved(t, d)
  {
    hide Resolved;
    if d == 0 {
      if Resolved(t, 0) == {} {
        NothingResolved(t);
        ResolvedStays(t, 0, e);
      }
    } else {
      LevelsResolve(t, d - 1, e);
      ResolvedGrows(t, d - 1, d);
      if Resolved(t, d) == Resolved(t, d - 1) {
        ResolvedStays(t, d - 1, e);
      } else {
        ProperSubset(Resolved(t, d - 1), Resolved(t, d));
      }
    }
  }

  lemma ProperSubset(a: set<nat>, b: set<nat>)
    requires a <= b && a != b
    ensures |a| < |b|
  {
    assert b == a + (b - a);
    assert |b| == |a| + |b - a|;
  }

  /** If every link's target meets a link, no depth resolves one. */
  lemma NothingResolved(t: Tree)
    requires Resolved(t, 0) == {}
    ensures Resolved(t, 1) <= Resolved(t, 0)
  {
    hide Components;
    forall i | i in Resolved(t, 1)
      ensures i in Resolved(t, 0)
    {
      MeetsNone(t, 0, Components(t[i].target), 1);
    }
  }

  lemma {:induction false} MeetsNone(t: Tree, cur: nat, comps: seq<Str>, d: nat)
    requires 0 < d && Substitute(t, cur, comps, d) != Cyclic
    ensures Substitute(t, cur, comps, 0) == Substitute(t, cur, comps, d) || Resolved(t, d - 1) != {}
    decreases |comps|
  {
    hide Components, FindIn;
    if cur < |t| && comps != [] && |comps[0]| <= NAME_LIMIT {
      var c := FindIn(t, cur, comps[0]);
      if c.Some? && c.value < |t| {
        if t[c.value].Symlink? {
          assert c.value in Resolved(t, d - 1);
        } else {
          MeetsNone(t, c.value, comps[1..], d);
        }
      }
    }
  }

  /**
    A meaning needs no deeper nesting than there are links: to look for one it is enough
    to look that deep.
   */
  lemma DepthIsBounded(t: Tree, cur: nat, comps: seq<Str>, e: nat)
    requires Substitute(t, cur, comps, e) != Cyclic
    ensures Substitute(t, cur, comps, |Links(t)|) == Substitute(t, cur, comps, e)
  {
    hide Resolved, Links, Substitute, Components;
    var n := |Links(t)|;
    if e <= n {
      DeeperIsSame(t, cur, comps, e, n);
    } else if n == 0 {
      ResolvedGrows(t, e - 1, e);
      assert Links(t) == {};
      MeetsNone(t, cur, comps, e);
    } else {
      LevelsResolve(t, n - 1, e - 1);
      ResolvedGrows(t, n - 1, e - 1);
      if |Resolved(t, n - 1)| >= n && Resolved(t, n - 1) != Links(t) {
        ProperSubset(Resolved(t, n - 1), Links(t));
      }
      NoDeeper(t, cur, comps, n - 1, e - 1);
    }
  }

  // ----- Restarting on component lists -----

  datatype ListPass = ListDone(r: Option<nat>) | ListRestart(comps: seq<Str>)

  /** The pass, on the components left to walk. */
  function PassOn(t: Tree, cur: nat, comps: seq<Str>): ListPass
    decreases |comps|
  {
    if cur >= |t| then ListDone(None)
    else if comps == [] then ListDone(Some(cur))
    else if |comps[0]| > NAME_LIMIT then ListDone(None)
    else
      var c := FindIn(t, cur, comps[0]);
      if c.None? || c.value >= |t| then ListDone(None)
      else if t[c.value].Symlink? then ListRestart(Components(t[c.value].target) + comps[1..])
      else PassOn(t, c.value, comps[1..])
  }

  function LoopOn(t: Tree, comps: seq<Str>, n: nat): Option<Option<nat>>
    decreases n
  {
    match PassOn(t, 0, comps)
    case ListDone(r) => Some(r)
    case ListRestart(next) => if n == 0 then None else LoopOn(t, next, n - 1)
  }

  /** The list after exactly `n` restarts, if there are as many. */
  function StepsOn(t: Tree, comps: seq<Str>, n: nat): Option<seq<Str>>
    decreases n
  {
    if n == 0 then Some(comps)
    else
      match PassOn(t, 0, comps)
      case ListDone(_) => None
      case ListRestart(next) => StepsOn(t, next, n - 1)
  }

  /** `pre` leads from `cur` to `to` without meeting a link. */
  predicate Plain(t: Tree, cur: nat, pre: seq<Str>, to: nat)
    decreases |pre|
  {
    cur < |t| &&
    if pre == [] then cur == to
    else
      |pre[0]| <= NAME_LIMIT &&
      var c := FindIn(t, cur, pre[0]);
      c.Some? && c.value < |t| && !t[c.value].Symlink? && Plain(t, c.value, pre[1..], to)
  }

  lemma {:induction false} PassOverPlain(t: Tree, cur: nat, pre: seq<Str>, to: nat, comps: seq<Str>)
    requires Plain(t, cur, pre, to)
    ensures PassOn(t, cur, pre + comps) == PassOn(t, to, comps) && to < |t|
    decreases |pre|
  {
    if pre == [] {
      assert pre + comps == comps;
    } else {
      assert (pre + comps)[1..] == pre[1..] + comps;
      PassOverPlain(t, FindIn(t, cur, pre[0]).value, pre[1..], to, comps);
    }
  }

  lemma {:induction false} PlainSnoc(t: Tree, cur: nat, pre: seq<Str>, to: nat, c: Str, next: nat)
    requires Plain(t, cur, pre, to) && |c| <= NAME_LIMIT
    requires to < |t| && FindIn(t, to, c) == Some(next) && next < |t| && !t[next].Symlink?
    ensures Plain(t, cur, pre + [c], next)
    decreases |pre|
  {
    if pre == [] {
      assert [c][1..] == [];
    } else {
      assert (pre + [c])[1..] == pre[1..] + [c];
      PlainSnoc(t, FindIn(t, cur, pre[0]).value, pre[1..], to, c, next);
    }
  }

  lemma {:induction false} StepsAdd(t: Tree, comps: seq<Str>, m: nat, n: nat)
    requires StepsOn(t, comps, m).Some?
    ensures StepsOn(t, comps, m + n) == StepsOn(t, StepsOn(t, comps, m).value, n)
    ensures LoopOn(t, comps, m + n) == LoopOn(t, StepsOn(t, comps, m).value, n)
    decreases m
  {
    hide PassOn;
    if m > 0 {
      StepsAdd(t, PassOn(t, 0, comps).comps, m - 1, n);
    }
  }

  /**
    The restart loop expands `comps`, met at `cur` behind a plain prefix and before
    any suffix, as recursive substitution says and in `Cost` restarts: it either
    gets to a plain prefix for the same inode, or ends without one.
   */
  lemma {:induction false} Expand(t: Tree, pre: seq<Str>, cur: nat, comps: seq<Str>, suffix: seq<Str>, d: nat)
    returns (pre': seq<Str>)
    requires |t| > 0 && Plain(t, 0, pre, cur) && Substitute(t, cur, comps, d) != Cyclic
    ensures var m, n := Substitute(t, cur, comps, d), Cost(t, cur, comps, d);
      (m.Found? ==> Plain(t, 0, pre', m.inode) && StepsOn(t, pre + comps + suffix, n) == Some(pre' + suffix))
      && (m.Missing? ==> LoopOn(t, pre + comps + suffix, n) == Some(None))
    decreases d, |comps|
  {
    hide Plain, PassOn, Components;
    pre' := pre;
    var all := pre + comps + suffix;
    PassOverPlain(t, 0, pre, cur, comps + suffix);
    assert all == pre + (comps + suffix);
    if comps == [] {
      assert all == pre + suffix;
    } else {
      assert (comps + suffix)[1..] == comps[1..] + suffix;
      FirstStep(t, cur, comps + suffix);
      if |comps[0]| <= NAME_LIMIT && FindIn(t, cur, comps[0]).Some? && FindIn(t, cur, comps[0]).value < |t| {
        var c := FindIn(t, cur, comps[0]).value;
        if t[c].Symlink? {
          pre' := ExpandLink(t, all, cur, comps, suffix, d, c);
        } else {
          PlainSnoc(t, 0, pre, cur, comps[0], c);
          assert all == pre + [comps[0]] + comps[1..] + suffix;
          pre' := Expand(t, pre + [comps[0]], c, comps[1..], suffix, d);
        }
      }
    }
  }

  lemma PassOnUnfold(t: Tree, cur: nat, comps: seq<Str>)
    ensures cur >= |t| ==> PassOn(t, cur, comps) == ListDone(None)
    ensures cur < |t| && comps == [] ==> PassOn(t, cur, comps) == ListDone(Some(cur))
  {
  }

  lemma FirstStep(t: Tree, cur: nat, comps: seq<Str>)
    requires cur < |t| && comps != []
    ensures var c := FindIn(t, cur, comps[0]);
      PassOn(t, cur, comps) ==
        if |comps[0]| > NAME_LIMIT || c.None? || c.value >= |t| then ListDone(None)
        else if t[c.value].Symlink? then ListRestart(Components(t[c.value].target) + comps[1..])
        else PassOn(t, c.value, comps[1..])
  {
  }

  lemma {:induction false} ExpandLink(t: Tree, all: seq<Str>, cur: nat, comps: seq<Str>, suffix: seq<Str>, d: nat, c: nat)
    returns (pre': seq<Str>)
    requires |t| > 0 && cur < |t| && comps != [] && |comps[0]| <= NAME_LIMIT
    requires FindIn(t, cur, comps[0]) == Some(c) && c < |t| && t[c].Symlink?
    requires PassOn(t, 0, all) == ListRestart(Components(t[c].target) + (comps[1..] + suffix))
    requires Substitute(t, cur, comps, d) != Cyclic
    ensures var m, n := Substitute(t, cur, comps, d), Cost(t, cur, comps, d);
      (m.Found? ==> Plain(t, 0, pre', m.inode) && StepsOn(t, all, n) == Some(pre' + suffix))
      && (m.Missing? ==> LoopOn(t, all, n) == Some(None))
    decreases d, |comps|, 0
  {
    hide PassOn, Components;
    var target := Components(t[c].target);
    var more := comps[1..] + suffix;
    var m1, n1 := Substitute(t, 0, target, d - 1), Cost(t, 0, target, d - 1);
    assert [] + target + more == target + more;
    var pre1 := Expand(t, [], 0, target, more, d - 1);
    pre' := pre1;
    if m1.Found? {
      assert pre1 + more == pre1 + comps[1..] + suffix;
      pre' := Expand(t, pre1, m1.inode, comps[1..], suffix, d);
      StepsAdd(t, target + more, n1, Cost(t, m1.inode, comps[1..], d));
    }
  }

  /** The restart loop on lists computes recursive substitution, in `Cost` restarts. */
  lemma LoopIsSubstitution(t: Tree, comps: seq<Str>, d: nat)
    requires |t| > 0 && Substitute(t, 0, comps, d) != Cyclic
    ensures LoopOn(t, comps, Cost(t, 0, comps, d)) == Some(Answer(Substitute(t, 0, comps, d)))
  {
    var m, n := Substitute(t, 0, comps, d), Cost(t, 0, comps, d);
    var pre := Expand(t, [], 0, comps, [], d);
    assert [] + comps + [] == comps;
    if m.Found? {
      assert pre + [] == pre;
      StepsAdd(t, comps, n, 0);
      PassOverPlain(t, 0, pre, m.inode, []);
    }
  }

  function Answer(m: Meaning): Option<nat> { if m.Found? then Some(m.inode) else None }

  /**
    Where the restart loop ends within `n` restarts, the components have a meaning
    with links nested at most `n` deep, and what follows them is still ahead.
   */
  lemma {:induction false} EndingMeans(t: Tree, pre: seq<Str>, cur: nat, comps: seq<Str>, suffix: seq<Str>, n: nat)
    returns (pre': seq<Str>, n': nat)
    requires |t| > 0 && Plain(t, 0, pre, cur) && LoopOn(t, pre + comps + suffix, n).Some?
    ensures Substitute(t, cur, comps, n) != Cyclic
    ensures var m := Substitute(t, cur, comps, n);
      m.Found? ==> n' <= n && Plain(t, 0, pre', m.inode) && LoopOn(t, pre' + suffix, n').Some?
    decreases n, |comps|
  {
    hide Plain, PassOn, Components;
    pre', n' := pre, n;
    var all := pre + comps + suffix;
    PassOverPlain(t, 0, pre, cur, comps + suffix);
    assert all == pre + (comps + suffix);
    if comps == [] {
      assert all == pre + suffix;
    } else {
      assert (comps + suffix)[1..] == comps[1..] + suffix;
      FirstStep(t, cur, comps + suffix);
      if |comps[0]| <= NAME_LIMIT && FindIn(t, cur, comps[0]).Some? && FindIn(t, cur, comps[0]).value < |t| {
        var c := FindIn(t, cur, comps[0]).value;
        if t[c].Symlink? {
          pre', n' := EndingLink(t, all, cur, comps, suffix, n, c);
        } else {
          PlainSnoc(t, 0, pre, cur, comps[0], c);
          assert all == pre + [comps[0]] + comps[1..] + suffix;
          pre', n' := EndingMeans(t, pre + [comps[0]], c, comps[1..], suffix, n);
        }
      }
    }
  }

  lemma {:induction false} EndingLink(t: Tree, all: seq<Str>, cur: nat, comps: seq<Str>, suffix: seq<Str>, n: nat, c: nat)
    returns (pre': seq<Str>, n': nat)
    requires |t| > 0 && cur < |t| && comps != [] && |comps[0]| <= NAME_LIMIT && LoopOn(t, all, n).Some?
    requires FindIn(t, cur, comps[0]) == Some(c) && c < |t| && t[c].Symlink?
    requires PassOn(t, 0, all) == ListRestart(Components(t[c].target) + (comps[1..] + suffix))
    ensures Substitute(t, cur, comps, n) != Cyclic
    ensures var m := Substitute(t, cur, comps, n);
      m.Found? ==> n' <= n && Plain(t, 0, pre', m.inode) && LoopOn(t, pre' + suffix, n').Some?
    decreases n, |comps|, 0
  {
    hide PassOn, Components;
    var target, more := Components(t[c].target), comps[1..] + suffix;
    assert [] + target + more == target + more;
    pre', n' := EndingMeans(t, [], 0, target, more, n - 1);
    var m1 := Substitute(t, 0, target, n - 1);
    if m1.Found? {
      var n1 := n';
      assert pre' + more == pre' + comps[1..] + suffix;
      pre', n' := EndingMeans(t, pre', m1.inode, comps[1..], suffix, n1);
      DeeperIsSame(t, m1.inode, comps[1..], n1, n);
    }
  }

  /** The components have a meaning with links nested as deep as there are links; by `DepthIsBounded` that is at any depth. */
  predicate Means(t: Tree, comps: seq<Str>) { Substitute(t, 0, comps, |Links(t)|) != Cyclic }

  /** The restart loop ends if and only if the components have a meaning. */
  lemma LoopEndsIff(t: Tree, comps: seq<Str>)
    requires |t| > 0
    ensures (exists n :: LoopOn(t, comps, n).Some?) <==> Means(t, comps)
  {
    hide LoopOn, Substitute, Links;
    if n :| LoopOn(t, comps, n).Some? {
      assert [] + comps + [] == comps;
      assert Plain(t, 0, [], 0);
      var pre, n' := EndingMeans(t, [], 0, comps, [], n);
      DepthIsBounded(t, 0, comps, n);
    }
    if Means(t, comps) {
      LoopIsSubstitution(t, comps, |Links(t)|);
    }
  }

  // ----- Acyclic trees -----

  /** No link nests others more than `d` deep. */
  ghost predicate Acyclic(t: Tree, d: nat) { forall i :: 0 <= i < |t| && t[i].Symlink? ==> HasMeaning(t, i, d) }

  predicate HasMeaning(t: Tree, i: nat, d: nat)
    requires i < |t| && t[i].Symlink?
  {
    Substitute(t, 0, Components(t[i].target), d) != Cyclic
  }

  /** In an acyclic tree every path has a meaning. */
  lemma {:induction false} AcyclicHasMeaning(t: Tree, cur: nat, comps: seq<Str>, d: nat)
    requires Acyclic(t, d)
    ensures Substitute(t, cur, comps, d + 1) != Cyclic
    decreases |comps|
  {
    hide Components, FindIn, Acyclic;
    if cur < |t| && comps != [] && |comps[0]| <= NAME_LIMIT {
      var c := FindIn(t, cur, comps[0]);
      if c.Some? && c.value < |t| {
        if t[c.value].Symlink? {
          LinkHasMeaning(t, c.value, d);
          var m := Substitute(t, 0, Components(t[c.value].target), d);
          if m.Found? {
            AcyclicHasMeaning(t, m.inode, comps[1..], d);
          }
        } else {
          AcyclicHasMeaning(t, c.value, comps[1..], d);
        }
      }
    }
  }

  lemma LinkHasMeaning(t: Tree, i: nat, d: nat)
    requires Acyclic(t, d) && i < |t| && t[i].Symlink?
    ensures Substitute(t, 0, Components(t[i].target), d) != Cyclic
  {
    assert HasMeaning(t, i, d);
  }

  // ----- Restarting on strings -----

  predicate AbsoluteLinks(t: Tree) {
    forall i :: 0 <= i < |t| && t[i].Symlink? ==> Absolute(t[i].target)
  }

  /** The buffers hold the target, the rest, and the two joined. */
  predicate LinkFits(target: Str, rest: Str) {
    |target| < LINK_BUF && |rest| <= REST_LIMIT && (rest != [] ==> |target| + 1 + |rest| + 1 <= LINK_BUF)
  }

  predicate PassFits(t: Tree, cur: nat, s: Str)
    decreases |s|
  {
    if cur >= |t| || SkipSlash(s) == [] || |First(s)| > NAME_LIMIT then true
    else
      var c := FindIn(t, cur, First(s));
      var after := SkipSlash(Rest(s));
      if c.None? || c.value >= |t| then true
      else if t[c.value].Symlink? then LinkFits(t[c.value].target, after)
      else PassFits(t, c.value, after)
  }

  /** All texts of the first `n` restarts fit the buffers. */
  predicate RunFits(t: Tree, path: Str, n: nat)
    decreases n
  {
    PassFits(t, 0, SkipSlash(path)) &&
    (n > 0 ==>
      match PassOver(t, path)
      case Done(_) => true
      case Restart(next) => RunFits(t, next, n - 1))
  }

  lemma {:induction false} PassAgrees(t: Tree, path: Str, cur: nat, s: Str)
    requires |s| <= |path| && AbsoluteLinks(t) && PassFits(t, cur, s)
    ensures match PassAt(t, path, cur, s)
      case Done(r) => PassOn(t, cur, Components(s)) == ListDone(r)
      case Restart(next) => PassOn(t, cur, Components(s)) == ListRestart(Components(next))
    decreases |s|
  {
    hide SkipSlash, First, Rest, Components, PassOn, AtLink, FindIn;
    PassOnUnfold(t, cur, Components(s));
    if SkipSlash(s) == [] {
      NoComponents(s);
    } else if cur < |t| {
      var after := SkipSlash(Rest(s));
      ComponentsHead(s);
      FirstStep(t, cur, Components(s));
      var c := FindIn(t, cur, First(s));
      if |First(s)| <= NAME_LIMIT && c.Some? && c.value < |t| {
        if t[c.value].Symlink? {
          LinkAgrees(path[..|path| - |after|], after, t[c.value].target);
        } else {
          PassAgrees(t, path, c.value, after);
        }
      }
    }
  }

  lemma ComponentsHead(s: Str)
    requires SkipSlash(s) != []
    ensures Components(s) == [First(s)] + Components(SkipSlash(Rest(s))) && Components(s)[0] == First(s)
    ensures Components(s)[1..] == Components(SkipSlash(Rest(s)))
    ensures SkipSlash(SkipSlash(Rest(s))) == SkipSlash(Rest(s))
  {
    hide First, Rest, SkipSlash;
    SkipTwice(Rest(s));
    SameSkip(SkipSlash(Rest(s)), Rest(s));
  }

  lemma LinkAgrees(done: Str, after: Str, target: Str)
    requires Absolute(target) && LinkFits(target, after)
    ensures AtLink(done, after, target).Restart?
    ensures Components(AtLink(done, after, target).path) == Components(target) + Components(after)
  {
    hide First, Rest, SkipSlash, LastSlash, Components;
    assert ResolveText(done, target) == target;
    if after == [] {
      EmptySkip();
      NoComponents(after);
      assert AtLink(done, after, target) == Restart(target);
    } else {
      ComponentsConcat(target, after);
      assert AtLink(done, after, target) == Restart(target + [SLASH] + after);
    }
  }

  lemma EmptySkip()
    ensures SkipSlash([]) == []
  {
  }

  lemma NoComponents(s: Str)
    requires SkipSlash(s) == []
    ensures Components(s) == []
  {
  }

  lemma SkipTwice(s: Str)
    ensures SkipSlash(SkipSlash(s)) == SkipSlash(s)
  {
  }

  lemma {:induction false} LookupIsLoop(t: Tree, path: Str, n: nat)
    requires AbsoluteLinks(t) && RunFits(t, path, n)
    ensures Lookup(t, path, n) == LoopOn(t, Components(path), n)
    decreases n
  {
    SkipTwice(path);
    SameSkip(SkipSlash(path), path);
    PassAgrees(t, path, 0, SkipSlash(path));
    match PassOver(t, path) {
      case Done(_) =>
      case Restart(next) => if n > 0 { LookupIsLoop(t, next, n - 1); }
    }
  }

  /** Whatever the number of restarts, their texts fit. */
  ghost predicate AlwaysFits(t: Tree, path: Str) { forall n :: RunFits(t, path, n) }

  ghost predicate Ends(t: Tree, path: Str) { exists n :: LookupFollow(t, path, n).Some? }

  /**
    With absolute links and texts that fit the buffers, a following lookup ends if and
    only if the path has a meaning with links nested no deeper than there are links.
   */
  lemma LookupEndsIff(t: Tree, path: Str)
    requires |t| > 0 && AbsoluteLinks(t) && Absolute(path) && |path| <= PATH_LIMIT && AlwaysFits(t, path)
    ensures Ends(t, path) <==> Means(t, Components(path))
  {
    hide LoopOn, Substitute, LookupFollow, RunFits;
    LoopEndsIff(t, Components(path));
    if n :| LookupFollow(t, path, n).Some? {
      LookupOnList(t, path, n);
      assert LoopOn(t, Components(path), n).Some?;
    }
    if n :| LoopOn(t, Components(path), n).Some? {
      LookupOnList(t, path, n);
      assert LookupFollow(t, path, n).Some?;
    }
  }

  lemma LookupOnList(t: Tree, path: Str, n: nat)
    requires AbsoluteLinks(t) && Absolute(path) && |path| <= PATH_LIMIT && AlwaysFits(t, path)
    ensures LookupFollow(t, path, n) == LoopOn(t, Components(path), n)
  {
    hide LoopOn, Lookup, RunFits;
    assert RunFits(t, path, n);
    LookupIsLoop(t, path, n);
  }

  /**
    And then it ends after `Cost` restarts with the inode that recursive substitution
    gives; in an acyclic tree every path has such a meaning.
   */
  lemma FollowingLookupMeans(t: Tree, path: Str, d: nat)
    requires |t| > 0 && AbsoluteLinks(t) && Absolute(path) && |path| <= PATH_LIMIT
    requires Substitute(t, 0, Components(path), d) != Cyclic && RunFits(t, path, Cost(t, 0, Components(path), d))
    ensures LookupFollow(t, path, Cost(t, 0, Components(path), d)) == Some(Answer(Substitute(t, 0, Components(path), d)))
  {
    LookupIsLoop(t, path, Cost(t, 0, Components(path), d));
    LoopIsSubstitution(t, Components(path), d);
  }

  // ----- Where the code does not do this -----

  /** A path through directory `a` to the link `name`, with `k` slashes and then `rest` behind it. */
  function LinkPath(a: Str, name: Str, k: nat, rest: Str): Str { a + ([SLASH] + (name + (Repeat(SLASH, k) + rest))) }

  /** What `LinkPath` names is a link with a relative target, which fits the buffers with all of the path. */
  predicate RelativeLink(t: Tree, a: Str, name: Str, k: nat, rest: Str, to: nat, target: Str) {
    && Plain(t, 0, Components(a), to) && IsName(name) && |name| <= NAME_LIMIT && LinkAt(t, to, name, target)
    && !Absolute(target) && |rest| <= REST_LIMIT && |a| + |name| + k + |target| + |rest| + 4 <= LINK_BUF
    && (rest != [] ==> k > 0 && rest[0] != SLASH)
  }

  predicate LinkAt(t: Tree, d: nat, name: Str, target: Str) {
    d < |t| && var c := FindIn(t, d, name); c.Some? && c.value < |t| && t[c.value] == Symlink(t[c.value].mode, target)
  }

  /**
    A relative target is taken relative to the directory of the link if and only if no
    slash follows the link in the path, not even at its end. Otherwise the text before
    the target ends in that slash, and the target is taken relative to the link itself.
   */
  lemma RelativeTargets(t: Tree, a: Str, name: Str, k: nat, rest: Str, to: nat, target: Str)
    requires RelativeLink(t, a, name, k, rest, to, target)
    ensures var pass := PassOver(t, LinkPath(a, name, k, rest));
      pass.Restart?
      && Components(pass.path) == Components(a) + (if k == 0 then [] else [name]) + Components(target) + Components(rest)
      && (Components(pass.path) == Components(a) + Components(target) + Components(rest) <==> k == 0)
  {
    hide PassOver, Plain, Components, AtLink, LinkAt;
    var done := a + ([SLASH] + (name + Repeat(SLASH, k)));
    PassToLink(t, a, name, k, rest, to, target);
    RelativeText(a, name, k, target);
    RelativeRestart(done, rest, target);
    BaseComponents(a, name, k);
    var base := BaseOf(a, name, k);
    ComponentsConcat(base, target);
    if rest != [] {
      ComponentsConcat(base + [SLASH] + target, rest);
    } else {
      EmptySkip();
      NoComponents(rest);
    }
  }

  /** The text before the last slash up to the link; a slash alone at the root. */
  function BaseOf(a: Str, name: Str, k: nat): Str {
    if k > 0 then a + [SLASH] + (name + Repeat(SLASH, k - 1)) else if a == [] then [SLASH] else a
  }

  lemma BaseComponents(a: Str, name: Str, k: nat)
    requires IsName(name)
    ensures Components(BaseOf(a, name, k)) == Components(a) + if k == 0 then [] else [name]
  {
    hide SkipSlash, First, Rest, Components;
    if k > 0 {
      var u := name + Repeat(SLASH, k - 1);
      ComponentsConcat(a, u);
      assert Repeat(SLASH, k - 1) + [] == Repeat(SLASH, k - 1);
      NameAndSlashes(name, k - 1, []);
      EmptySkip();
      ComponentsHead(u);
      NoComponents(SkipSlash(Rest(u)));
    } else if a == [] {
      EmptySkip();
      NoComponents(a);
      SlashSkips([]);
      assert [SLASH] + [] == [SLASH];
      NoComponents([SLASH]);
    }
  }

  lemma RelativeText(a: Str, name: Str, k: nat, target: Str)
    requires IsName(name) && !Absolute(target) && |a| + |name| + k + |target| + 4 <= LINK_BUF
    ensures ResolveText(a + ([SLASH] + (name + Repeat(SLASH, k))), target) == BaseOf(a, name, k) + [SLASH] + target
    ensures |BaseOf(a, name, k)| <= |a| + 1 + |name| + k
  {
    hide LastSlash, Absolute, ResolveText, Repeat;
    SlashesLong(k);
    if k == 0 {
      NoSlashes();
      assert a + ([SLASH] + (name + Repeat(SLASH, k))) == a + [SLASH] + name;
      LastSlashAt(a, name);
      TextBehind(a, name, target);
    } else {
      SlashesLong(k - 1);
      SlashedName(a, name, k);
      var base := BaseOf(a, name, k);
      LastSlashAt(base, []);
      TextBehind(base, [], target);
    }
  }

  lemma SlashedName(a: Str, name: Str, k: nat)
    requires k > 0
    ensures a + ([SLASH] + (name + Repeat(SLASH, k))) == BaseOf(a, name, k) + [SLASH] + []
  {
    hide Repeat;
    SlashesSnoc(k - 1);
    var slashes := Repeat(SLASH, k - 1);
    assert name + (slashes + [SLASH]) == (name + slashes) + [SLASH];
  }

  lemma NoSlashes()
    ensures Repeat(SLASH, 0) == []
  {
  }

  lemma TextBehind(base: Str, name: Str, target: Str)
    requires !Absolute(target) && LastSlash(base + [SLASH] + name) == |base| && |base| + |name| + |target| + 4 <= LINK_BUF
    ensures ResolveText(base + [SLASH] + name, target) == (if base == [] then [SLASH] else base) + [SLASH] + target
  {
    hide LastSlash, Absolute;
    var done := base + [SLASH] + name;
    assert if base == [] then done[..1] == [SLASH] else done[..|base|] == base;
  }

  lemma {:induction false} SlashesSnoc(n: nat)
    ensures Repeat(SLASH, n + 1) == Repeat(SLASH, n) + [SLASH]
  {
    if n > 0 {
      SlashesSnoc(n - 1);
    }
  }

  lemma SlashesLong(n: nat)
    ensures |Repeat(SLASH, n)| == n
  {
  }

  /** At most the first `n` bytes. */
  function Cut(s: Str, n: nat): Str { if |s| <= n then s else s[..n] }

  /**
    What the buffers do to a link `name` behind `base`. An absolute target keeps 511
    bytes and the rest of the path 255. A relative target that does not fit behind its
    directory is dropped, so that the rest is looked up from the root. Text and rest that
    do not fit together end the lookup with nothing.
   */
  lemma LinkBuffers(base: Str, name: Str, rest: Str, target: Str)
    requires SLASH !in name
    ensures var dir := if base == [] then [SLASH] else base;
      var text := if Absolute(target) then Cut(target, 511)
                  else if |dir| + 1 + |target| > 511 then [] else dir + [SLASH] + target;
      AtLink(base + [SLASH] + name, rest, target) ==
        if rest == [] then Restart(text)
        else if |text| + 1 + |Cut(rest, 255)| > 511 then Done(None)
        else Restart(text + [SLASH] + Cut(rest, 255))
  {
    hide LastSlash, Absolute;
    LastSlashAt(base, name);
    var done := base + [SLASH] + name;
    assert if base == [] then done[..1] == [SLASH] else done[..|base|] == base;
  }

  /** So with an overlong relative target nothing but the rest of the path counts, and a link at the end leads to the root. */
  lemma OverlongTarget(t: Tree, base: Str, name: Str, rest: Str, target: Str)
    requires SLASH !in name && |t| > 0 && !Absolute(target) && |base| + 1 + |target| > 511 && |rest| <= 255
    ensures var pass := AtLink(base + [SLASH] + name, rest, target);
      pass.Restart? && Components(pass.path) == Components(rest)
      && (rest == [] ==> PassOver(t, pass.path) == Done(Some(0)))
  {
    hide LastSlash, Components, Absolute, AtLink, PassOver, SkipSlash;
    LinkBuffers(base, name, rest, target);
    assert Cut(rest, 255) == rest && [] + [SLASH] + rest == [SLASH] + rest;
    if rest == [] {
      PassOverNothing(t);
    } else {
      SlashSkips(rest);
      SameSkip([SLASH] + rest, rest);
    }
  }

  lemma PassOverNothing(t: Tree)
    requires |t| > 0
    ensures PassOver(t, []) == Done(Some(0))
  {
    EmptySkip();
  }

  lemma RelativeRestart(done: Str, rest: Str, target: Str)
    requires |rest| <= REST_LIMIT && |ResolveText(done, target)| + 1 + |rest| + 1 <= LINK_BUF
    ensures AtLink(done, rest, target)
         == Restart(if rest == [] then ResolveText(done, target) else ResolveText(done, target) + [SLASH] + rest)
  {
    hide ResolveText;
  }

  lemma PassToLink(t: Tree, a: Str, name: Str, k: nat, rest: Str, to: nat, target: Str)
    requires RelativeLink(t, a, name, k, rest, to, target)
    ensures PassOver(t, LinkPath(a, name, k, rest)) == AtLink(a + ([SLASH] + (name + Repeat(SLASH, k))), rest, target)
  {
    hide PassAt, AtLink, Plain, LinkAt, Components, SkipSlash, Repeat;
    var path := LinkPath(a, name, k, rest);
    var x := name + (Repeat(SLASH, k) + rest);
    assert path == a + [SLASH] + x;
    PassAlong(t, path, 0, a, name, k, rest, to, target);
    assert path == a + ([SLASH] + (name + Repeat(SLASH, k))) + rest;
    assert path[..|path| - |rest|] == a + ([SLASH] + (name + Repeat(SLASH, k)));
  }

  /** The pass reaches the link at the end of `b` from wherever it is. */
  lemma {:induction false} PassAlong(
    t: Tree, path: Str, cur: nat, b: Str, name: Str, k: nat, rest: Str, to: nat, target: Str)
    requires Plain(t, cur, Components(b), to) && IsName(name) && |name| <= NAME_LIMIT && LinkAt(t, to, name, target)
    requires rest != [] ==> k > 0 && rest[0] != SLASH
    requires |b| + 1 + |name + (Repeat(SLASH, k) + rest)| <= |path|
    ensures var s := SkipSlash(b + [SLASH] + (name + (Repeat(SLASH, k) + rest)));
      |s| <= |path| && PassAt(t, path, cur, s) == AtLink(path[..|path| - |rest|], rest, target)
    decreases |b|
  {
    hide SkipSlash, First, Rest, Components, AtLink, PassAt, FindIn, Repeat;
    var u := name + (Repeat(SLASH, k) + rest);
    var s := SkipSlash(b + [SLASH] + u);
    SkipTwice(b + [SLASH] + u);
    NameAndSlashes(name, k, rest);
    if SkipSlash(b) == [] {
      NoComponents(b);
      assert b + [SLASH] + u == b + ([SLASH] + u);
      SkipOver(b, [SLASH] + u);
      SlashSkips(u);
      MeetsLink(t, path, cur, s, name, FindIn(t, cur, name).value, rest);
    } else {
      FirstOver(b, u);
      SameFirst(s, b + [SLASH] + u);
      CutComponents(b);
      PassAtUnfold(t, path, cur, s);
      PassAlong(t, path, FindIn(t, cur, First(b)).value, Rest(b), name, k, rest, to, target);
    }
  }

  lemma CutComponents(s: Str)
    requires SkipSlash(s) != []
    ensures Components(s) != [] && Components(s)[0] == First(s) && Components(s)[1..] == Components(Rest(s))
  {
  }

  lemma SameFirst(a: Str, b: Str)
    requires SkipSlash(a) == SkipSlash(b)
    ensures First(a) == First(b) && Rest(a) == Rest(b)
  {
  }

  /** A name with slashes and then `rest` behind it is cut into the name and `rest`. */
  lemma NameAndSlashes(name: Str, k: nat, rest: Str)
    requires IsName(name) && (rest != [] ==> k > 0 && rest[0] != SLASH)
    ensures var u := name + (Repeat(SLASH, k) + rest);
      SkipSlash(u) == u != [] && First(u) == name && SkipSlash(Rest(u)) == rest
  {
    hide First, Rest, HeadLen;
    var tail := Repeat(SLASH, k) + rest;
    var u := name + tail;
    FirstOf(u, u);
    if k == 0 {
      assert u == name;
      NameHead(name);
    } else {
      var more := Repeat(SLASH, k - 1) + rest;
      assert tail == [SLASH] + more;
      assert u == name + [SLASH] + more;
      HeadOver(name, more);
      NameHead(name);
      assert u[|name|..] == tail;
      SlashesSkipped(k, rest);
    }
  }

  lemma {:induction false} LastSlashAt(dir: Str, name: Str)
    requires SLASH !in name
    ensures LastSlash(dir + [SLASH] + name) == |dir|
    decreases |name|
  {
    var s := dir + [SLASH] + name;
    if name == [] {
      assert s[|s| - 1] == SLASH;
    } else {
      assert s[|s| - 1] == name[|name| - 1];
      assert s[..|s| - 1] == dir + [SLASH] + name[..|name| - 1];
      LastSlashAt(dir, name[..|name| - 1]);
    }
  }

  /** A root directory with one link, to itself. */
  function SelfLinked(name: Str): Tree { [Dir(DIR_MODE, [Dentry(name, 1)]), Symlink(LINK_MODE, [SLASH] + name)] }

  /**
    The counter of followed links starts over with every restart. A link to itself is
    cyclic at every depth, so by `LookupEndsIff` the lookup that follows it does not end.
   */
  lemma SelfLinkNeverEnds(name: Str)
    requires IsName(name) && |name| <= NAME_LIMIT
    ensures !Ends(SelfLinked(name), [SLASH] + name)
  {
    hide RunFits, SelfLinked, Substitute, Components, Ends;
    var t, path := SelfLinked(name), [SLASH] + name;
    SelfLinkShape(name);
    forall n
      ensures RunFits(t, path, n)
    {
      SelfLinkFits(name, n);
    }
    SelfLinkIsCyclic(name, |Links(t)|);
    SelfLinkIsAbsolute(name);
    LookupEndsIff(t, path);
  }

  lemma SelfLinkIsAbsolute(name: Str)
    ensures AbsoluteLinks(SelfLinked(name))
  {
  }

  lemma {:induction false} SelfLinkFits(name: Str, n: nat)
    requires IsName(name) && |name| <= NAME_LIMIT
    ensures RunFits(SelfLinked(name), [SLASH] + name, n)
  {
    hide PassOver, SelfLinked, SkipSlash, First, Rest;
    SelfLinkShape(name);
    SelfLinkPass(name);
    NameSkips(name);
    EmptySkip();
    if n > 0 {
      SelfLinkFits(name, n - 1);
    }
  }

  lemma {:induction false} SelfLinkIsCyclic(name: Str, d: nat)
    requires IsName(name) && |name| <= NAME_LIMIT
    ensures Substitute(SelfLinked(name), 0, Components([SLASH] + name), d) == Cyclic
  {
    hide SelfLinked, SkipSlash, First, Rest, Components;
    SelfLinkShape(name);
    SelfPath(name);
    if d > 0 {
      SelfLinkIsCyclic(name, d - 1);
    }
  }

  lemma SelfPath(name: Str)
    requires IsName(name)
    ensures Components([SLASH] + name) == [name]
  {
    hide SkipSlash, First, Rest;
    NameSkips(name);
    SameSkip([SLASH] + name, name);
    ComponentsHead(name);
    NoComponents(SkipSlash(Rest(name)));
  }

  lemma SelfLinkPass(name: Str)
    requires IsName(name) && |name| <= NAME_LIMIT
    ensures PassOver(SelfLinked(name), [SLASH] + name) == Restart([SLASH] + name)
  {
    hide PassAt, AtLink, SelfLinked, SkipSlash;
    var t, p := SelfLinked(name), [SLASH] + name;
    NameSkips(name);
    SelfLinkShape(name);
    MeetsLink(t, p, 0, name, name, 1, []);
    LinkAtEnd(p[..|p| - 0], p);
  }

  /** A pass that meets a link. */
  lemma MeetsLink(t: Tree, path: Str, cur: nat, s: Str, name: Str, i: nat, after: Str)
    requires |s| <= |path| && cur < |t| && i < |t| && FindIn(t, cur, name) == Some(i) && t[i].Symlink? && |name| <= NAME_LIMIT
    requires SkipSlash(s) != [] && First(s) == name && SkipSlash(Rest(s)) == after && |after| <= |path|
    ensures PassAt(t, path, cur, s) == AtLink(path[..|path| - |after|], after, t[i].target)
  {
    hide SkipSlash, First, Rest, AtLink, FindIn;
  }

  lemma NameSkips(name: Str)
    requires IsName(name)
    ensures SkipSlash([SLASH] + name) == name != []
    ensures SkipSlash(name) == name && First(name) == name && SkipSlash(Rest(name)) == []
  {
    hide SkipSlash, First, Rest;
    OnlyName(name);
  }

  lemma SelfLinkShape(name: Str)
    ensures var t := SelfLinked(name);
      |t| == 2 && FindIn(t, 0, name) == Some(1) && t[1].Symlink? && t[1].target == [SLASH] + name
  {
  }

  lemma LinkAtEnd(done: Str, target: Str)
    requires Absolute(target) && |target| <= PATH_LIMIT
    ensures AtLink(done, [], target) == Restart(target)
  {
    hide LastSlash;
  }

  lemma OnlyName(name: Str)
    requires IsName(name)
    ensures var p := [SLASH] + name;
      SkipSlash(p) == name && SkipSlash(name) == name && First(name) == name && Rest(name) == [] && SkipSlash([]) == []
  {
    NameHead(name);
    assert ([SLASH] + name)[1..] == name;
  }

  predicate NoLinks(t: Tree) { forall i :: 0 <= i < |t| ==> !t[i].Symlink? }

  /** Without links, following changes nothing and never restarts. */
  lemma NoLinksFollow(t: Tree, path: Str)
    requires |t| > 0 && NoLinks(t)
    ensures LookupFollow(t, path, 0) == Some(LookupNoFollow(t, path))
  {
    if Absolute(path) {
      var p := Truncated(path);
      SkipTwice(p);
      SameSkip(SkipSlash(p), p);
      PlainPass(t, p, 0, SkipSlash(p));
    }
  }

  lemma {:induction false} PlainPass(t: Tree, path: Str, cur: nat, s: Str)
    requires |s| <= |path| && NoLinks(t)
    ensures PassAt(t, path, cur, s) == Done(Walk(t, cur, Components(s)))
    decreases |s|
  {
    hide SkipSlash, First, Rest, Components, FindIn, Walk, PassAt, AtLink;
    PassAtUnfold(t, path, cur, s);
    WalkUnfold(t, cur, Components(s));
    if SkipSlash(s) == [] {
      NoComponents(s);
    } else {
      ComponentsHead(s);
      if cur < |t| && |First(s)| <= NAME_LIMIT && FindIn(t, cur, First(s)).Some? {
        var c := FindIn(t, cur, First(s));
        WalkUnfold(t, c.value, Components(SkipSlash(Rest(s))));
        PlainPass(t, path, c.value, SkipSlash(Rest(s)));
      }
    }
  }

  /** A lookup that ends at anything but a link meets no link on its way, so following changes nothing. */
  lemma NotALinkFollows(t: Tree, path: Str)
    requires LookupNoFollow(t, path).Some? && LookupNoFollow(t, path).value < |t| && !t[LookupNoFollow(t, path).value].Symlink?
    ensures LookupFollow(t, path, 0) == Some(LookupNoFollow(t, path))
  {
    var p := Truncated(path);
    SkipTwice(p);
    SameSkip(SkipSlash(p), p);
    PassToPlain(t, p, 0, SkipSlash(p));
  }

  /** A directory or file just created is also what a lookup that follows links finds. */
  lemma CreatedIsFollowed(t: Tree, path: Str, node: Inode, existing: int)
    requires TreeOk(t) && NoNul(path) && !node.Symlink? && (node.Dir? ==> node.children == []) && |path| <= PATH_LIMIT
    requires Enter(t, path, node, existing).rc == 0 && FindIn0(t, path).None?
    ensures var u := Enter(t, path, node, existing).t;
      var r := LookupFollow(u, path, 0);
      r.Some? && r.value.Some? && |t| <= r.value.value < |u| && u[r.value.value] == node
  {
    hide TreeOk, Enter, LookupFollow, FindIn0, LookupNoFollow;
    CreatedIsFound(t, path, node, existing);
    NotALinkFollows(Enter(t, path, node, existing).t, path);
  }

  lemma {:induction false} PassToPlain(t: Tree, path: Str, cur: nat, s: Str)
    requires |s| <= |path| && Walk(t, cur, Components(s)).Some?
    requires Walk(t, cur, Components(s)).value < |t| && !t[Walk(t, cur, Components(s)).value].Symlink?
    ensures PassAt(t, path, cur, s) == Done(Walk(t, cur, Components(s)))
    decreases |s|
  {
    hide SkipSlash, First, Rest, Components, FindIn, Walk, PassAt, AtLink;
    PassAtUnfold(t, path, cur, s);
    WalkUnfold(t, cur, Components(s));
    if SkipSlash(s) == [] {
      NoComponents(s);
    } else {
      ComponentsHead(s);
      var c, after := FindIn(t, cur, First(s)).value, SkipSlash(Rest(s));
      WalkUnfold(t, c, Components(after));
      if t[c].Symlink? && Components(after) != [] {
        NoEntries(t, c, Components(after)[0]);
      }
      PassToPlain(t, path, c, after);
    }
  }

  lemma NoEntries(t: Tree, i: nat, name: Str)
    requires i < |t| && !t[i].Dir?
    ensures FindIn(t, i, name) == None
  {
  }

  /** One step of a pass. */
  lemma PassAtUnfold(t: Tree, path: Str, cur: nat, s: Str)
    requires |s| <= |path|
    ensures PassAt(t, path, cur, s) ==
      if cur >= |t| then Done(None)
      else if SkipSlash(s) == [] then Done(Some(cur))
      else if |First(s)| > NAME_LIMIT then Done(None)
      else
        var c, after := FindIn(t, cur, First(s)), SkipSlash(Rest(s));
        if c.None? || c.value >= |t| then Done(None)
        else if t[c.value].Symlink? then AtLink(path[..|path| - |after|], after, t[c.value].target)
        else PassAt(t, path, c.value, after)
  {
    hide SkipSlash, First, Rest, FindIn, AtLink;
  }

  lemma WalkUnfold(t: Tree, cur: nat, comps: seq<Str>)
    ensures Walk(t, cur, comps) ==
      if cur >= |t| then None
      else if comps == [] then Some(cur)
      else if |comps[0]| > NAME_LIMIT then None
      else
        var c := FindIn(t, cur, comps[0]);
        if c.None? then None else Walk(t, c.value, comps[1..])
  {
  }
}
