/**
  C strings as byte sequences without NUL, and paths as lists of components.
 */
module Paths {
  newtype byte = x: int | 0 <= x < 256

  type Str = seq<byte>

  datatype Option<+T> = None | Some(value: T)

  const NUL: byte := 0
  const SLASH: byte := 47
  const DOT: byte := 46

  predicate NoNul(s: Str) { NUL !in s }

  // ----- C strings -----

  /** The C string at the head of `s`. */
  function CStr(s: seq<byte>): (r: Str)
    ensures NoNul(r) && |r| <= |s| && r == s[..|r|] && (|r| < |s| ==> s[|r|] == NUL)
  {
    if s == [] || s[0] == NUL then [] else [s[0]] + CStr(s[1..])
  }

  lemma {:induction false} CStrOf(name: Str, tail: seq<byte>)
    requires NoNul(name)
    ensures CStr(name + [NUL] + tail) == name
  {
    if name == [] {
      assert name + [NUL] + tail == [NUL] + tail;
    } else {
      assert (name + [NUL] + tail)[1..] == name[1..] + [NUL] + tail;
      CStrOf(name[1..], tail);
    }
  }

  /** A string that ends within the first part is found there. */
  lemma {:induction false} CStrWithin(s: seq<byte>, n: nat)
    requires n <= |s| && NUL in s[..n]
    ensures CStr(s) == CStr(s[..n])
  {
    if s[0] != NUL {
      assert s[1..][..n - 1] == s[..n][1..];
      CStrWithin(s[1..], n - 1);
    }
  }

  function Repeat(c: byte, n: nat): Str { if n == 0 then [] else [c] + Repeat(c, n - 1) }

  // ----- Paths -----

  predicate Absolute(p: Str) { |p| > 0 && p[0] == SLASH }

  /** What is left behind leading slashes. */
  function SkipSlash(s: Str): (r: Str)
    ensures |r| <= |s| && (r != [] ==> r[0] != SLASH)
  {
    if s != [] && s[0] == SLASH then SkipSlash(s[1..]) else s
  }

  lemma {:induction false} SkipIsTail(s: Str)
    ensures SkipSlash(s) == s[|s| - |SkipSlash(s)|..]
  {
    if s != [] && s[0] == SLASH {
      SkipIsTail(s[1..]);
    }
  }

  /** The length of the first component of a string that does not begin with a slash. */
  function HeadLen(s: Str): (n: nat)
    ensures n <= |s| && (n < |s| ==> s[n] == SLASH) && (forall i :: 0 <= i < n ==> s[i] != SLASH)
  {
    if s == [] || s[0] == SLASH then 0 else 1 + HeadLen(s[1..])
  }

  /** The first component of `s`, and what follows it. */
  function First(s: Str): Str { var t := SkipSlash(s); t[..HeadLen(t)] }

  function Rest(s: Str): (r: Str)
    ensures SkipSlash(s) != [] ==> |r| < |s|
  {
    var t := SkipSlash(s);
    t[HeadLen(t)..]
  }

  /** A path as the list of its slash-free parts. */
  function Components(s: Str): (r: seq<Str>)
    decreases |s|
  {
    if SkipSlash(s) == [] then [] else [First(s)] + Components(Rest(s))
  }

  predicate IsName(c: Str) { c != [] && SLASH !in c }

  lemma FirstIsName(s: Str)
    requires SkipSlash(s) != []
    ensures IsName(First(s)) && |First(s)| <= |s| && (NoNul(s) ==> NoNul(First(s)) && NoNul(Rest(s)))
  {
    hide SkipSlash;
    var t := SkipSlash(s);
    FirstOf(s, t);
    SkipIsTail(s);
    PartOf(t, HeadLen(t));
    NulPart(s, |s| - |t|);
  }

  lemma PartOf(t: Str, n: nat)
    requires n <= |t|
    ensures NoNul(t) ==> NoNul(t[..n]) && NoNul(t[n..])
  {
  }

  lemma NulPart(s: Str, n: nat)
    requires n <= |s|
    ensures NoNul(s) ==> NoNul(s[n..])
  {
  }

  lemma {:induction false} ComponentsAreNames(s: Str, c: Str)
    requires c in Components(s)
    ensures IsName(c) && |c| <= |s| && (NoNul(s) ==> NoNul(c))
    decreases |s|
  {
    hide First, Rest, SkipSlash, IsName;
    FirstIsName(s);
    if c != First(s) {
      ComponentsAreNames(Rest(s), c);
    }
  }

  lemma {:induction false} SkipOver(a: Str, b: Str)
    ensures SkipSlash(a) != [] ==> SkipSlash(a + b) == SkipSlash(a) + b
    ensures SkipSlash(a) == [] ==> SkipSlash(a + b) == SkipSlash(b)
  {
    if a == [] {
      assert a + b == b;
    } else {
      assert (a + b)[1..] == a[1..] + b;
      if a[0] == SLASH {
        SkipOver(a[1..], b);
      }
    }
  }

  lemma {:induction false} HeadOver(a: Str, b: Str)
    ensures HeadLen(a + [SLASH] + b) == HeadLen(a)
  {
    if a == [] {
      assert a + [SLASH] + b == [SLASH] + b;
    } else {
      assert (a + [SLASH] + b)[1..] == a[1..] + [SLASH] + b;
      if a[0] != SLASH {
        HeadOver(a[1..], b);
      }
    }
  }

  /** Two paths joined by a slash have the components of both. */
  lemma {:induction false} ComponentsConcat(a: Str, b: Str)
    ensures Components(a + [SLASH] + b) == Components(a) + Components(b)
    decreases |a|
  {
    hide First, Rest, SkipSlash;
    assert a + [SLASH] + b == a + ([SLASH] + b);
    SkipOver(a, [SLASH] + b);
    SlashSkips(b);
    if SkipSlash(a) == [] {
      SameSkip(a + [SLASH] + b, b);
      assert Components(a) + Components(b) == Components(b);
    } else {
      FirstOver(a, b);
      ComponentsConcat(Rest(a), b);
      assert [First(a)] + (Components(Rest(a)) + Components(b)) == [First(a)] + Components(Rest(a)) + Components(b);
    }
  }

  lemma SlashSkips(b: Str)
    ensures SkipSlash([SLASH] + b) == SkipSlash(b)
  {
    assert ([SLASH] + b)[1..] == b;
  }

  lemma SameSkip(a: Str, b: Str)
    requires SkipSlash(a) == SkipSlash(b)
    ensures Components(a) == Components(b)
  {
  }

  lemma FirstOver(a: Str, b: Str)
    requires SkipSlash(a) != []
    ensures First(a + [SLASH] + b) == First(a) && Rest(a + [SLASH] + b) == Rest(a) + [SLASH] + b
    ensures SkipSlash(a + [SLASH] + b) != []
  {
    hide First, Rest, HeadLen, SkipSlash;
    var s := SkipSlash(a);
    SkipJoined(a, b);
    CutJoined(s, b);
    FirstOf(a, s);
    FirstOf(a + [SLASH] + b, s + [SLASH] + b);
  }

  lemma FirstOf(a: Str, t: Str)
    requires SkipSlash(a) == t
    ensures First(a) == t[..HeadLen(t)] && Rest(a) == t[HeadLen(t)..]
  {
  }

  lemma SkipJoined(a: Str, b: Str)
    requires SkipSlash(a) != []
    ensures SkipSlash(a + [SLASH] + b) == SkipSlash(a) + [SLASH] + b
  {
    hide SkipSlash;
    SkipOver(a, [SLASH] + b);
    assert a + [SLASH] + b == a + ([SLASH] + b);
    assert SkipSlash(a) + [SLASH] + b == SkipSlash(a) + ([SLASH] + b);
  }

  lemma CutJoined(s: Str, b: Str)
    ensures HeadLen(s + [SLASH] + b) == HeadLen(s)
    ensures (s + [SLASH] + b)[..HeadLen(s)] == s[..HeadLen(s)]
    ensures (s + [SLASH] + b)[HeadLen(s)..] == s[HeadLen(s)..] + [SLASH] + b
  {
    hide HeadLen;
    HeadOver(s, b);
    CutBefore(s, HeadLen(s), [SLASH] + b);
    SlashBetween(s, b);
    SlashBetween(s[HeadLen(s)..], b);
  }

  lemma SlashBetween(a: Str, b: Str)
    ensures a + [SLASH] + b == a + ([SLASH] + b)
  {
  }

  lemma CutBefore(s: Str, n: nat, b: Str)
    requires n <= |s|
    ensures (s + b)[..n] == s[..n] && (s + b)[n..] == s[n..] + b
  {
  }

  lemma {:induction false} NameHead(c: Str)
    requires SLASH !in c
    ensures HeadLen(c) == |c|
  {
    if c != [] {
      NameHead(c[1..]);
    }
  }

  lemma {:induction false} SlashesSkipped(n: nat, rest: Str)
    requires rest != [] ==> rest[0] != SLASH
    ensures SkipSlash(Repeat(SLASH, n) + rest) == rest
  {
    var s := Repeat(SLASH, n) + rest;
    if n == 0 {
      assert s == rest;
    } else {
      assert s[1..] == Repeat(SLASH, n - 1) + rest;
      SlashesSkipped(n - 1, rest);
    }
  }

  /** A slash in front of each name. */
  function Joined(names: seq<Str>): Str { if names == [] then [] else [47] + names[0] + Joined(names[1..]) }

  /** A path written out of names has exactly those components. */
  lemma {:induction false} ComponentsOfJoined(names: seq<Str>)
    requires forall c :: c in names ==> c != [] && (47 as byte) !in c
    ensures Components(Joined(names)) == names
  {
    hide Components;
    if names == [] {
      NoComponents();
    } else {
      var c, rest := names[0], Joined(names[1..]);
      assert forall d :: d in names[1..] ==> d in names;
      ComponentsOfJoined(names[1..]);
      ComponentsConcat([], c + rest);
      NoComponents();
      assert [] + [SLASH] + (c + rest) == [47] + c + rest;
      assert [] + Components(c + rest) == Components(c + rest);
      assert c in names;
      NameAlone(c);
      if names[1..] == [] {
        assert c + rest == c && names == [c];
      } else {
        var tail := rest[1..];
        assert rest == [SLASH] + tail;
        ComponentsConcat([], tail);
        assert [] + [SLASH] + tail == rest && [] + Components(tail) == Components(tail);
        ComponentsConcat(c, tail);
        assert c + [SLASH] + tail == c + rest;
        assert [c] + names[1..] == names;
      }
    }
  }

  lemma NoComponents()
    ensures Components([]) == []
  {
  }

  lemma NameAlone(c: Str)
    requires c != [] && SLASH !in c
    ensures Components(c) == [c]
  {
    NameHead(c);
    assert SkipSlash(c) == c && First(c) == c && Rest(c) == [];
  }
}
