/** What splitting a path and choosing a mount point mean, in terms of the components of paths
    (kernel/fs/vfs.cpp, `traverse`). */
module Paths {
  import opened Common
  import opened Tar
  import opened Walk
  import opened Vfs

  // ---------------------------------------------------------------- splitting

  /** Text without a slash is one component. */
  lemma OneComponent(c: string)
    requires Component(c)
    ensures Components(c) == [c]
  {
    assert c[..|c|] == c && c[0] in c && c[|c|..] == [] && Components([]) == [];
    SlashAt(c, |c|);
  }

  /** Where the text before the next slash ends. */
  lemma {:induction false} SlashAt(s: string, n: nat)
    requires n <= |s| && SLASH !in s[..n] && (n < |s| ==> s[n] == SLASH)
    ensures UntilSlash(s) == n
    decreases |s|
  {
    if n > 0 {
      assert s[0] in s[..n] && s[1..][..n - 1] == s[..n][1..];
      SlashAt(s[1..], n - 1);
    }
  }

  /** A slash separates: the components of both sides follow each other.  Together with those of the empty text
      and of text without a slash this determines the components of every path. */
  lemma {:induction false} SplitAtSlash(a: string, b: string)
    ensures Components(a + [SLASH] + b) == Components(a) + Components(b)
    decreases |a|
  {
    var s := a + [SLASH] + b;
    if a == [] {
      assert s[1..] == b && Components(a) == [];
    } else if a[0] == SLASH {
      assert s[1..] == a[1..] + [SLASH] + b;
      SplitAtSlash(a[1..], b);
    } else {
      var n := UntilSlash(a);
      assert s[..n] == a[..n];
      SlashAt(s, n);
      if n == |a| {
        assert s[n..] == [SLASH] + b && Components([]) == [];
        assert ([SLASH] + b)[1..] == b;
      } else {
        assert s[n..] == a[n..] + [SLASH] + b;
        SplitAtSlash(a[n..], b);
      }
    }
  }

  /** Slashes in front, behind and in addition to others make no difference. */
  lemma ExtraSlashes(a: string, b: string)
    ensures Components([SLASH] + a) == Components(a + [SLASH]) == Components(a)
    ensures Components(a + [SLASH] + [SLASH] + b) == Components(a + [SLASH] + b)
  {
    SplitAtSlash([], a);
    assert [] + [SLASH] + a == [SLASH] + a;
    SplitAtSlash(a, []);
    assert a + [SLASH] + [] == a + [SLASH];
    SplitAtSlash(a + [SLASH], b);
    SplitAtSlash(a, b);
  }

  lemma SplitChild(dir: string, c: string)
    requires Component(c)
    ensures Components(ChildName(dir, c)) == Components(dir) + [c]
  {
    OneComponent(c);
    if dir != [] { SplitAtSlash(dir, c); }
  }

  /** Joining components and splitting again gives them back. */
  lemma {:induction false} SplitJoin(dir: string, comps: seq<string>)
    requires forall c :: c in comps ==> Component(c)
    ensures Components(Join(dir, comps)) == Components(dir) + comps
    decreases |comps|
  {
    if comps != [] {
      var c, f := comps[0], ChildName(dir, comps[0]);
      SplitChild(dir, c);
      SplitJoin(f, comps[1..]);
      assert Components(dir) + [c] + comps[1..] == Components(dir) + comps;
    }
  }

  // ---------------------------------------------------------------- walking

  /** A walk along two lists of components is a walk along the first and then, from where that leads, along the
      second. */
  lemma {:induction false} WalkInTwo(archive: string, inode: nat, a: seq<string>, b: seq<string>)
    ensures var r := WalkFrom(archive, inode, a);
      WalkFrom(archive, inode, a + b) == if r.Reached? then WalkFrom(archive, r.inode, b) else r
    decreases |a|
  {
    if a == [] {
      assert a + b == b;
    } else {
      assert (a + b)[1..] == a[1..] + b;
      var r := LookupChild(archive, NameOf(archive, inode), a[0]);
      if r.Found? { WalkInTwo(archive, r.inode, a[1..], b); }
    }
  }

  /** Resolving a/b is resolving b from where a leads. */
  lemma WalkSlash(archive: string, a: string, b: string)
    ensures var r := WalkFrom(archive, ROOT, Components(a));
      WalkFrom(archive, ROOT, Components(a + [SLASH] + b)) ==
        if r.Reached? then WalkFrom(archive, r.inode, Components(b)) else r
  {
    SplitAtSlash(a, b);
    WalkInTwo(archive, ROOT, Components(a), Components(b));
  }

  // ---------------------------------------------------------------- mount points

  /** A mount path as it is meant to be: the root, or components behind one slash each. */
  ghost predicate Canonical(m: string) {
    m == [SLASH] || exists cs: seq<string> :: cs != [] && MadeOf(m, cs)
  }

  ghost predicate MadeOf(m: string, cs: seq<string>) {
    m == [SLASH] + Join([], cs) && forall c :: c in cs ==> Component(c)
  }

  predicate Starts(m: string, path: string) {
    |m| <= |path| && path[..|m|] == m
  }

  /** An absolute path without two slashes in a row. */
  predicate Single(path: string) {
    path != [] && path[0] == SLASH && forall i :: 0 < i < |path| ==> path[i - 1] != SLASH || path[i] != SLASH
  }

  /** What lies behind the mount path are the remaining components. */
  lemma CoveredRest(m: string, path: string)
    requires Canonical(m) && Covers(m, path)
    ensures Components(path) == Components(m) + Components(path[|m|..])
  {
    var rest := path[|m|..];
    NonemptyMount(m);
    assert path == m + rest;
    if rest == [] {
      assert m + rest == m;
      NothingBehind(m);
    } else if |m| == 1 {
      RootRest(rest);
    } else {
      BehindSlash(m, rest);
    }
  }

  lemma NothingBehind(m: string)
    ensures Components(m) == Components(m) + Components([])
  {
  }

  lemma RootRest(rest: string)
    ensures Components([SLASH] + rest) == Components([SLASH]) + Components(rest)
  {
    ExtraSlashes(rest, []);
    ExtraSlashes([], []);
    assert [SLASH] + [] == [SLASH] && Components([]) == [];
  }

  lemma BehindSlash(m: string, rest: string)
    requires rest != [] && rest[0] == SLASH
    ensures Components(m + rest) == Components(m) + Components(rest)
  {
    var tail := rest[1..];
    assert rest == [SLASH] + tail && m + rest == m + [SLASH] + tail;
    SplitAtSlash(m, tail);
    ExtraSlashes(tail, []);
  }

  lemma NonemptyMount(m: string)
    requires Canonical(m)
    ensures m != [] && m[0] == SLASH && (|m| == 1 ==> m == [SLASH])
  {
  }

  lemma {:induction false} JoinLast(dir: string, cs: seq<string>)
    requires cs != []
    ensures Join(dir, cs) == ChildName(Join(dir, cs[..|cs| - 1]), cs[|cs| - 1])
    decreases |cs|
  {
    if |cs| > 1 {
      var f := ChildName(dir, cs[0]);
      JoinLast(f, cs[1..]);
      assert cs[..|cs| - 1][1..] == cs[1..][..|cs| - 2] && cs[..|cs| - 1][0] == cs[0];
    }
  }

  /** A canonical mount path other than the root ends in a slash and a component. */
  lemma LastComponent(m: string) returns (a: string, c: string)
    requires Canonical(m) && |m| > 1
    ensures m == a + [SLASH] + c && Component(c)
  {
    var cs: seq<string> :| cs != [] && MadeOf(m, cs);
    var front := Join([], cs[..|cs| - 1]);
    c := cs[|cs| - 1];
    JoinLast([], cs);
    assert c in cs;
    a := if front == [] then [] else [SLASH] + front;
    assert m == a + [SLASH] + c;
  }

  /** A longer text in place of the last component is another component. */
  lemma OtherComponent(a: string, c: string, x: string)
    requires Component(c) && x != [] && x[0] != SLASH
    ensures !(Components(a + [SLASH] + c) <= Components(a + [SLASH] + (c + x)))
  {
    SplitAtSlash(a, c);
    SplitAtSlash(a, c + x);
    OneComponent(c);
    LongerText(c, x);
    var first := (c + x)[..UntilSlash(c + x)];
    assert Components(c + x)[0] == first;
    assert Components(a + [SLASH] + (c + x))[|Components(a)|] == first;
    assert Components(a + [SLASH] + c)[|Components(a)|] == c;
  }

  lemma LongerText(c: string, x: string)
    requires Component(c) && x != [] && x[0] != SLASH
    ensures UntilSlash(c + x) > |c| && (c + x)[0] != SLASH
  {
    var s := c + x;
    assert forall i :: 0 <= i < |c| ==> s[i] == c[i] && c[i] in c;
    assert s[|c|] == x[0];
  }

  /** For every path: a mount point covers it exactly if its path is a prefix, both as text and component by
      component. */
  lemma CoversMeans(m: string, path: string)
    requires Canonical(m)
    ensures Covers(m, path) <==> Starts(m, path) && Components(m) <= Components(path)
  {
    if Covers(m, path) {
      CoveredRest(m, path);
    } else if Starts(m, path) {
      NonemptyMount(m);
      var a, c := LastComponent(m);
      var x := path[|m|..];
      assert path == a + [SLASH] + (c + x);
      OtherComponent(a, c, x);
    }
  }

  lemma {:induction false} JoinFront(dir: string, ds: seq<string>)
    requires dir != [] && ds != [] && forall c :: c in ds ==> Component(c)
    ensures Join(dir, ds) == dir + [SLASH] + Join([], ds)
    decreases |ds|
  {
    var c := ds[0];
    assert c in ds;
    if |ds| > 1 {
      JoinFront(dir + [SLASH] + c, ds[1..]);
      JoinFront(c, ds[1..]);
      assert dir + [SLASH] + c + [SLASH] + Join([], ds[1..]) == dir + [SLASH] + (c + [SLASH] + Join([], ds[1..]));
    }
  }

  /** An absolute path without two slashes in a row is its components behind one slash each, and maybe a last
      slash. */
  lemma {:induction false} SingleForm(path: string)
    requires Single(path) && NUL !in path
    ensures Formed(path, Components(path))
    decreases |path|
  {
    var rest := path[1..];
    assert path == [SLASH] + rest;
    ExtraSlashes(rest, []);
    if rest == [] {
      assert Components(rest) == [] && Join([], []) == [];
    } else {
      assert path[1] == rest[0];
      var n := UntilSlash(rest);
      var c, p := rest[..n], rest[n..];
      FirstComponent(rest);
      assert path == [SLASH] + c + p && Components(rest) == [c] + Components(p);
      if p == [] {
        assert Components(p) == [] && Join([], [c]) == c;
      } else {
        SingleTail(path, p, 1 + n);
        SingleForm(p);
        ComponentsOk(p);
        FormedMore(c, p, Components(p));
      }
    }
  }

  ghost predicate Formed(path: string, ds: seq<string>) {
    path == [SLASH] + Join([], ds) || (ds != [] && path == [SLASH] + Join([], ds) + [SLASH])
  }

  lemma SingleTail(path: string, p: string, n: nat)
    requires Single(path) && 0 < n < |path| && p == path[n..] && p[0] == SLASH
    ensures Single(p)
  {
    assert forall i :: 0 <= i < |p| ==> p[i] == path[n + i];
  }

  lemma FormedMore(c: string, p: string, ds: seq<string>)
    requires Component(c) && Formed(p, ds) && forall d :: d in ds ==> Component(d)
    ensures Formed([SLASH] + c + p, [c] + ds)
  {
    assert ([c] + ds)[1..] == ds && ([c] + ds)[0] == c;
    assert Join([], [c] + ds) == Join(c, ds);
    if ds != [] { JoinFront(c, ds); }
  }

  /** A component-wise prefix of an absolute path without two slashes in a row is a prefix as text. */
  lemma PrefixStarts(m: string, path: string)
    requires Canonical(m) && Single(path) && NUL !in path && Components(m) <= Components(path)
    ensures Starts(m, path)
  {
    SingleForm(path);
    ComponentsOk(path);
    if m != [SLASH] {
      var cs: seq<string> :| cs != [] && MadeOf(m, cs);
      MadeComponents(m, cs);
      var es := Components(path)[|cs|..];
      assert Components(path) == cs + es;
      FormedStarts(path, cs, es);
    }
  }

  lemma MadeComponents(m: string, cs: seq<string>)
    requires MadeOf(m, cs)
    ensures Components(m) == cs
  {
    SplitJoin([], cs);
    ExtraSlashes(Join([], cs), []);
    assert Components([]) == [] && [] + cs == cs;
  }

  lemma FormedStarts(path: string, cs: seq<string>, es: seq<string>)
    requires Formed(path, cs + es) && cs != [] && forall c :: c in cs + es ==> Component(c)
    ensures Starts([SLASH] + Join([], cs), path)
  {
    var f := Join([], cs);
    assert forall c :: c in cs ==> c in cs + es;
    assert forall c :: c in es ==> c in cs + es;
    JoinInTwo([], cs, es);
    JoinNonempty(cs);
    if es == [] {
      assert Join([], cs + es) == f;
    } else {
      JoinFront(f, es);
    }
  }

  lemma {:induction false} JoinInTwo(dir: string, a: seq<string>, b: seq<string>)
    ensures Join(dir, a + b) == Join(Join(dir, a), b)
    decreases |a|
  {
    if a == [] {
      assert a + b == b;
    } else {
      assert (a + b)[1..] == a[1..] + b;
      JoinInTwo(ChildName(dir, a[0]), a[1..], b);
    }
  }

  lemma JoinNonempty(cs: seq<string>)
    requires cs != [] && forall c :: c in cs ==> Component(c)
    ensures Join([], cs) != []
  {
    JoinLast([], cs);
    assert cs[|cs| - 1] in cs;
  }

  /** For an absolute path without two slashes in a row, the components alone decide. */
  lemma CoversByComponents(m: string, path: string)
    requires Canonical(m) && Single(path) && NUL !in path
    ensures Covers(m, path) <==> Components(m) <= Components(path)
  {
    CoversMeans(m, path);
    if Components(m) <= Components(path) { PrefixStarts(m, path); }
  }

  /** A mount at the root takes every absolute path. */
  lemma RootCovers(path: string)
    requires path != [] && path[0] == SLASH
    ensures Covers([SLASH], path)
  {
    CoversMeans([SLASH], path);
    ExtraSlashes([], []);
    assert [SLASH] + [] == [SLASH];
  }

  /** With two slashes in a row it may be otherwise: the path //a is not below the mount point /a. */
  lemma DoubleSlash()
    ensures Canonical("/a") && !Covers("/a", "//a") && Components("/a") == Components("//a") == ["a"]
  {
    assert Component("a") && Join([], ["a"]) == "a";
    assert MadeOf("/a", ["a"]);
    OneComponent("a");
    ExtraSlashes("a", []);
    ExtraSlashes("/a", []);
    assert "/a" == [SLASH] + "a" && "//a" == [SLASH] + "/a";
  }
}
