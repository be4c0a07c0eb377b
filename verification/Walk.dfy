/** Resolving a path one component at a time, through inode numbers (kernel/fs/vfs.cpp, `traverse`, and
    kernel/fs/tar.cpp, `inode_tar::lookup`), against one direct lookup of the whole name. */
module Walk {
  import opened Tar

  const ROOT: nat := 2
  const PATH_NAME_MAX: nat := 400

  /** A path component: not empty, no slash, no NUL. */
  predicate Component(c: string) {
    c != [] && SLASH !in c && NUL !in c
  }

  // ---------------------------------------------------------------- splitting a path

  /** The length of the text before the next slash. */
  function UntilSlash(s: string): (n: nat)
    ensures n <= |s| && SLASH !in s[..n] && (n < |s| ==> s[n] == SLASH)
    ensures s != [] && s[0] != SLASH ==> n > 0
  {
    if s == [] || s[0] == SLASH then 0 else
      var n := 1 + UntilSlash(s[1..]);
      assert s[..n] == [s[0]] + s[1..][..n - 1];
      n
  }

  /** The components of a path; extra slashes are ignored. */
  function Components(s: string): seq<string>
    decreases |s|
  {
    if s == [] then []
    else if s[0] == SLASH then Components(s[1..])
    else [s[..UntilSlash(s)]] + Components(s[UntilSlash(s)..])
  }

  lemma {:induction false} ComponentsOk(s: string)
    requires NUL !in s
    ensures forall c :: c in Components(s) ==> Component(c)
    decreases |s|
  {
    if s != [] {
      if s[0] == SLASH { ComponentsOk(s[1..]); } else { ComponentsOk(s[UntilSlash(s)..]); }
    }
  }

  lemma FirstComponent(s: string)
    requires NUL !in s && s != [] && s[0] != SLASH
    ensures var n := UntilSlash(s);
      Component(s[..n]) && Components(s) != [] && Components(s)[0] == s[..n] && Components(s)[1..] == Components(s[n..])
  {
  }

  // ---------------------------------------------------------------- names of inodes

  function TrimEnd(s: string): string {
    if s != [] && s[|s| - 1] == SLASH then TrimEnd(s[..|s| - 1]) else s
  }

  function TrimStart(s: string): string {
    if s != [] && s[0] == SLASH then TrimStart(s[1..]) else s
  }

  function Slice(s: string, at: nat, n: nat): string {
    if at + n <= |s| then s[at..at + n] else []
  }

  /** The file name an inode remembers: a prefix of the header it was read from. */
  function NameOf(archive: string, inode: nat): string {
    if inode == ROOT then [] else
      match LookupIndex(archive, inode)
      case Named(n, at, _) => TrimStart(TrimEnd(Slice(archive, at, n)))
      case Nobody => []
  }

  function ChildName(dir: string, name: string): string {
    if dir == [] then name else dir + [SLASH] + name
  }

  /** lookup() in the directory with the given name. */
  function LookupChild(archive: string, dir: string, name: string): Lookup {
    if |ChildName(dir, name)| + 1 > PATH_NAME_MAX then TooLong
    else LookupName(archive, ChildName(dir, name))
  }

  lemma NameOfFound(archive: string, f: string)
    requires Sound(archive, 0) && GoodName(f) && LookupName(archive, f).Found?
    ensures NameOf(archive, LookupName(archive, f).inode) == f
    ensures LookupName(archive, f).inode != ROOT
  {
    var e := IndexOfLookup(archive, f);
    var at := LookupName(archive, f).at;
    assert archive[at..at + 512][..|f|] == archive[at..at + |f|];
  }

  // ---------------------------------------------------------------- the walk

  datatype Walked = Reached(inode: nat) | Failed(error: Lookup)

  function WalkFrom(archive: string, inode: nat, comps: seq<string>): Walked
    decreases |comps|
  {
    if comps == [] then Reached(inode) else
      var r := LookupChild(archive, NameOf(archive, inode), comps[0]);
      if r.Found? then WalkFrom(archive, r.inode, comps[1..]) else Failed(r)
  }

  /** One round of the loop: the walk goes on from the inode its first component leads to. */
  lemma WalkOneMore(archive: string, inode: nat, p: string)
    requires NUL !in p && p != [] && p[0] != SLASH
    ensures var n := UntilSlash(p);
      var r := LookupChild(archive, NameOf(archive, inode), p[..n]);
      && Component(p[..n]) && Components(p) != []
      && WalkFrom(archive, inode, Components(p)) ==
         if r.Found? then WalkFrom(archive, r.inode, Components(p[n..])) else Failed(r)
  {
    FirstComponent(p);
  }

  /** The whole name: the components joined by single slashes. */
  function Join(dir: string, comps: seq<string>): string
    decreases |comps|
  {
    if comps == [] then dir else Join(ChildName(dir, comps[0]), comps[1..])
  }

  lemma {:induction false} JoinExtends(dir: string, comps: seq<string>)
    requires dir != [] && comps != [] && NUL !in dir
    requires forall c :: c in comps ==> Component(c)
    ensures var f := Join(dir, comps);
      |dir| < |f| && f[..|dir|] == dir && f[|dir|] == SLASH && NUL !in f
    decreases |comps|
  {
    var d := ChildName(dir, comps[0]);
    assert comps[0] in comps && d[..|dir|] == dir && d[|dir|] == SLASH;
    if |comps| > 1 {
      JoinExtends(d, comps[1..]);
      var f := Join(d, comps[1..]);
      assert f[..|d|][..|dir|] == f[..|dir|];
      assert f[|dir|] == f[..|d|][|dir|];
    }
  }

  lemma ChildGood(dir: string, c: string)
    requires Component(c) && (dir == [] || GoodName(dir))
    ensures GoodName(ChildName(dir, c))
  {
    var f := ChildName(dir, c);
    assert f[|f| - 1] == c[|c| - 1] && c[|c| - 1] in c && c[0] in c;
  }

  /** Whether a name leads to an inode: the empty name to the root, others as the archive says. */
  predicate Leads(archive: string, f: string, inode: nat) {
    if f == [] then inode == ROOT
    else LookupName(archive, f).Found? && LookupName(archive, f).inode == inode
  }

  /** If a directory is not found then nothing below it is. */
  lemma NothingBelow(archive: string, dir: string, comps: seq<string>)
    requires Sound(archive, 0) && GoodName(dir) && !LookupName(archive, dir).Found?
    requires forall c :: c in comps ==> Component(c)
    ensures !LookupName(archive, Join(dir, comps)).Found?
  {
    if comps != [] {
      JoinExtends(dir, comps);
      var f := Join(dir, comps);
      EntriesSound(archive, 0);
      if LookupName(archive, f).Found? {
        DirectoryFound(Entries(archive, 0), dir, f, 3, 3);
      }
    }
  }

  lemma WalkStops(archive: string, dir: string, comps: seq<string>, i: nat)
    requires Sound(archive, 0) && (dir == [] || GoodName(dir))
    requires comps != [] && forall c :: c in comps ==> Component(c)
    requires !LookupChild(archive, dir, comps[0]).Found?
    ensures !Leads(archive, Join(dir, comps), i)
    ensures |Join(dir, comps)| <= 99 ==> LookupChild(archive, dir, comps[0]) == NoEntry
  {
    var f, rest := ChildName(dir, comps[0]), comps[1..];
    assert comps[0] in comps;
    ChildGood(dir, comps[0]);
    NothingBelow(archive, f, rest);
    assert Join(dir, comps) == Join(f, rest);
    if rest != [] { JoinExtends(f, rest); }
    LongNames(archive, f);
  }

  /** The walk reaches an inode exactly if the direct lookup of the joined name finds that inode. */
  lemma {:induction false} WalkAgrees(archive: string, inode: nat, dir: string, comps: seq<string>, i: nat)
    requires Sound(archive, 0) && (dir == [] || GoodName(dir)) && Leads(archive, dir, inode)
    requires forall c :: c in comps ==> Component(c)
    ensures WalkFrom(archive, inode, comps) == Reached(i) <==> Leads(archive, Join(dir, comps), i)
    ensures WalkFrom(archive, inode, comps).Failed? && |Join(dir, comps)| <= 99 ==>
              WalkFrom(archive, inode, comps) == Failed(NoEntry)
    decreases |comps|
  {
    if dir != [] { NameOfFound(archive, dir); }
    if comps != [] {
      var f := ChildName(dir, comps[0]);
      ChildGood(dir, comps[0]);
      if LookupChild(archive, dir, comps[0]).Found? {
        WalkAgrees(archive, LookupName(archive, f).inode, f, comps[1..], i);
      } else {
        WalkStops(archive, dir, comps, i);
      }
    }
  }

  /** A path resolves from the root to the inode that its slash-normalised form has in the archive. */
  lemma PathResolves(archive: string, path: string, i: nat)
    requires Sound(archive, 0) && NUL !in path
    ensures var comps := Components(path);
      && (WalkFrom(archive, ROOT, comps) == Reached(i) <==> Leads(archive, Join([], comps), i))
      && (WalkFrom(archive, ROOT, comps).Failed? && |Join([], comps)| <= 99 ==>
            WalkFrom(archive, ROOT, comps) == Failed(NoEntry))
  {
    ComponentsOk(path);
    WalkAgrees(archive, ROOT, [], Components(path), i);
  }
}
