/** Path traversal on a mounted archive (kernel/fs/vfs.cpp, kernel/fs/tar.cpp): mount choice, the walk,
    and the references it takes and gives back. */
module Vfs {
  import opened Common
  import opened Tar
  import opened Walk
  import opened InodeTable

  class FileSystem {
    const archive: string
    var table: Table
    ghost var holders: multiset<nat>   // references handed out and not given back

    ghost predicate Valid()
      reads this
    {
      Sound(archive, 0) && Inv(archive, table, holders)
    }

    constructor (archive: string)
      requires Sound(archive, 0)
      ensures Valid() && this.archive == archive && holders == multiset{} && table.Keys == {ROOT}
    {
      this.archive := archive;
      table := map[ROOT := Inode(1, None, 0, 0)];
      holders := multiset{};
      MountInv(archive);
    }

    /** inode::release.  Giving back a reference one holds keeps every count right; giving back one that
        nobody holds, to whatever inode, does not.  The inode leaves the table exactly if that was the
        last reference. */
    method Release(i: nat)
      requires Valid() && i in table
      modifies this
      ensures holders == old(holders) - multiset{i}
      ensures Valid() <==> i in old(holders)
      ensures i in table <==> old(table)[i].rc > 1
      ensures table.Keys <= old(table.Keys)
    {
      if i in holders {
        ReleaseHeld(archive, table, holders, i);
      } else {
        ReleaseNotHeld(archive, table, holders, i);
      }
      Drop(i);
      holders := holders - multiset{i};
    }

    /** Counts a reference down; an inode that has none left leaves the table, and its parent is next. */
    method Drop(i: nat)
      requires i in Rooted(archive, table)
      modifies this`table
      ensures table == Released(archive, old(table), i)
      decreases |NameOf(archive, i)|
    {
      var rc := table[i].rc - 1;
      table := table[i := table[i].(rc := rc)];
      ReleasedStep(archive, old(table), i, table);
      if rc == 0 {
        var parent := table[i].parent;
        table := table - {i};
        if parent.Some? {
          Drop(parent.value);
        }
      }
    }

    /** get_inode_struct: the cached inode, or a new one read from the archive; takes a reference. */
    method GetInode(i: nat, parent: nat)
      requires Valid() && parent in table && i != ROOT && Reachable(archive, i) && ParentOf(archive, i) == parent
      modifies this
      ensures Valid() && holders == old(holders) + multiset{i}
    {
      if i in table {
        Reference(i);
      } else {
        var x := TarLookupByIndex(archive, i);
        FreshInode(archive, table, i, parent);
        AddInode(archive, table, holders, i, Inode(1, Some(parent), x.at, x.length), parent);
        Insert(i, parent, Inode(1, Some(parent), x.at, x.length));
      }
    }

    /** take_ref_locked */
    method Reference(i: nat)
      requires Valid() && i in table
      modifies this
      ensures Valid() && holders == old(holders) + multiset{i}
    {
      TakeRef(archive, table, holders, i);
      table := table[i := table[i].(rc := table[i].rc + 1)];
      holders := holders + multiset{i};
    }

    /** A new inode enters the table with one reference and takes one to its parent. */
    method Insert(i: nat, parent: nat, n: Inode)
      requires parent in table
      modifies this
      ensures table == Added(old(table), parent, i, n) && holders == old(holders) + multiset{i}
    {
      table := table[parent := table[parent].(rc := table[parent].rc + 1)];
      table := table[i := n];
      holders := holders + multiset{i};
    }

    /** inode_tar::lookup: builds the full name from the header the inode remembers. */
    method LookupFrom(i: nat, name: string) returns (r: Lookup)
      requires Valid() && i in table
      ensures r == LookupChild(archive, NameOf(archive, i), name)
    {
      assert Recorded(archive, table, i);
      var dir := [];
      if i != ROOT {
        var n := table[i];
        dir := TrimStart(TrimEnd(Slice(archive, n.at, n.length)));
      }
      var full := if dir == [] then name else dir + [SLASH] + name;
      if |full| + 1 > PATH_NAME_MAX { return TooLong; }
      r := TarLookup(archive, full);
    }

    /** The references when a walk is at `i`, given those at its start: none is taken for the root. */
    static ghost function Holding(base: multiset<nat>, i: nat): multiset<nat> {
      if i == ROOT then base else base + multiset{i}
    }

    /** One component of the walk: the next inode is referenced before the current one is released. */
    method Advance(curr: nat, name: string, ghost base: multiset<nat>) returns (r: Lookup)
      requires Valid() && Component(name) && holders == Holding(base, curr)
      modifies this
      ensures Valid() && r == LookupChild(archive, NameOf(archive, curr), name)
      ensures r.Found? ==> r.inode != ROOT && holders == Holding(base, r.inode)
      ensures !r.Found? ==> holders == base
    {
      assert curr == ROOT || curr in holders;
      r := LookupFrom(curr, name);
      if r.Found? {
        assert Recorded(archive, table, curr);
        ChildReachable(archive, curr, name);
        GetInode(r.inode, curr);
      }
      if curr != ROOT {
        Release(curr);
      }
    }

    /** The walk of traverse below a mount point.  A failed walk leaves the table as it was; a walk that
        reaches an inode below the root hands out one reference to it, and one that stays at the root
        hands out none. */
    method Walk(path: string) returns (r: Walked)
      requires Valid() && NUL !in path
      modifies this
      ensures Valid() && r == WalkFrom(archive, ROOT, Components(path))
      ensures r.Failed? ==> table == old(table) && holders == old(holders)
      ensures r.Reached? ==>
                holders == if Components(path) == [] then old(holders) else old(holders) + multiset{r.inode}
      ensures r.Reached? && Components(path) == [] ==> r.inode == ROOT && table == old(table)
    {
      var p, curr := path, ROOT;
      ComponentsOk(path);
      while p != []
        invariant Valid() && NUL !in p
        invariant holders == Holding(old(holders), curr)
        invariant WalkFrom(archive, ROOT, Components(path)) == WalkFrom(archive, curr, Components(p))
        invariant curr == ROOT ==> Components(p) == Components(path) && table == old(table)
        invariant curr != ROOT ==> Components(path) != []
        decreases |p|
      {
        if p[0] == SLASH {
          p := p[1..];
          continue;
        }
        var n := UntilSlash(p);
        var name := p[..n];
        WalkOneMore(archive, curr, p);
        var found := Advance(curr, name, old(holders));
        if !found.Found? {
          TableOfHolders(archive, table, old(table), holders);
          return Failed(found);
        }
        curr := found.inode;
        p := p[n..];
      }
      return Reached(curr);
    }
  }

  /** Releasing what a walk reached, as callers are told to do, keeps the counts right exactly if the path
      has a component: a walk that stays at the root hands out no reference. */
  method ReleaseAfterWalk(fs: FileSystem, path: string) returns (r: Walked)
    requires fs.Valid() && NUL !in path && ROOT !in fs.holders
    modifies fs
    ensures r == WalkFrom(fs.archive, ROOT, Components(path))
    ensures r.Reached? ==> (fs.Valid() <==> Components(path) != [])
  {
    r := fs.Walk(path);
    if r.Reached? {
      assert r.inode in fs.holders || r.inode == ROOT;
      fs.Release(r.inode);
    }
  }

  // ---------------------------------------------------------------- mount points

  datatype Mount = Mount(path: string, fs: FileSystem)

  /** The path lies at or below the mount point: it starts with the mount path and goes on with a slash
      or not at all, except that a mount path of one character takes everything. */
  predicate Covers(m: string, path: string) {
    && 0 < |m| <= |path|
    && (|m| == 1 || |m| == |path| || path[|m|] == SLASH)
    && path[..|m|] == m
  }

  /** The first of the longest mount points that cover the path. */
  ghost predicate Best(mounts: seq<Mount>, path: string, k: nat) {
    && k < |mounts| && Covers(mounts[k].path, path)
    && (forall j :: 0 <= j < |mounts| && Covers(mounts[j].path, path) ==> |mounts[j].path| <= |mounts[k].path|)
    && (forall j :: 0 <= j < k && Covers(mounts[j].path, path) ==> |mounts[j].path| < |mounts[k].path|)
  }

  method StartsWith(path: string, m: string) returns (yes: bool)
    requires |m| <= |path|
    ensures yes <==> path[..|m|] == m
  {
    for i := 0 to |m|
      invariant path[..i] == m[..i]
    {
      if m[i] != path[i] {
        assert path[..|m|][i] != m[i];
        return false;
      }
    }
    return true;
  }

  method ChooseMount(mounts: seq<Mount>, path: string) returns (best: Option<nat>)
    ensures best.Some? ==> Best(mounts, path, best.value)
    ensures best.None? ==> forall j :: 0 <= j < |mounts| ==> !Covers(mounts[j].path, path)
  {
    best := None;
    var length := 0;
    for i := 0 to |mounts|
      invariant length == (if best.Some? && best.value < |mounts| then |mounts[best.value].path| else 0)
      invariant best.Some? ==> best.value < i && Best(mounts[..i], path, best.value)
      invariant best.None? ==> forall j :: 0 <= j < i ==> !Covers(mounts[j].path, path)
    {
      var m := mounts[i].path;
      if |m| <= length || |m| > |path| {
        continue;
      }
      if !(|m| == 1 || |path| == |m| || path[|m|] == SLASH) {
        continue;
      }
      var yes := StartsWith(path, m);
      if yes {
        best, length := Some(i), |m|;
      }
    }
    assert mounts[..|mounts|] == mounts;
  }

  /** traverse: the longest mount point that covers the path is chosen, and the rest of the path is
      walked there. */
  method Traverse(mounts: seq<Mount>, path: string) returns (r: Walked, at: Option<nat>)
    requires NUL !in path && forall m :: m in mounts ==> m.fs.Valid()
    modifies set m | m in mounts :: m.fs
    ensures forall m :: m in mounts ==> m.fs.Valid()
    ensures at.None? ==>
              && r == Failed(NoEntry) && (forall j :: 0 <= j < |mounts| ==> !Covers(mounts[j].path, path))
              && forall m :: m in mounts ==> unchanged(m.fs)
    ensures at.Some? ==>
              && Best(mounts, path, at.value)
              && var m := mounts[at.value];
              && r == WalkFrom(m.fs.archive, ROOT, Components(path[|m.path|..]))
              && (r.Failed? ==> m.fs.table == old(m.fs.table) && m.fs.holders == old(m.fs.holders))
              && (r.Reached? ==>
                    m.fs.holders == if Components(path[|m.path|..]) == [] then old(m.fs.holders)
                                    else old(m.fs.holders) + multiset{r.inode})
              && forall n :: n in mounts && n.fs != m.fs ==> unchanged(n.fs)
  {
    at := ChooseMount(mounts, path);
    if at == None { return Failed(NoEntry), None; }
    var m := mounts[at.value];
    r := m.fs.Walk(path[|m.path|..]);
  }
}
