/** The table of in-memory inodes and their reference counts (kernel/fs/vfs.cpp, `get_inode_struct` and
    `inode::release`; kernel/fs/vfs.hpp, `take_ref_locked` and `release_ref_locked`). */
module InodeTable {
  import opened Common
  import opened Tar
  import opened Walk

  /** An in-memory inode: reference count, parent, and what read_inode_disk filled in. */
  datatype Inode = Inode(rc: int, parent: Option<nat>, at: nat, length: nat)

  type Table = map<nat, Inode>

  // ---------------------------------------------------------------- parents

  /** The name of the directory of a file name. */
  function DirName(f: string): (d: string)
    ensures |d| <= |f|
    ensures f != [] ==> |d| < |f|
  {
    if f == [] then []
    else if f[|f| - 1] == SLASH then f[..|f| - 1]
    else DirName(f[..|f| - 1])
  }

  lemma {:induction false} DirNameOfChild(d: string, c: string)
    requires SLASH !in c
    ensures DirName(d + [SLASH] + c) == d
    ensures DirName(c) == []
    decreases |c|
  {
    if c == [] {
      assert d + [SLASH] + c == d + [SLASH];
    } else {
      var e := c[..|c| - 1];
      assert c[|c| - 1] in c;
      assert (d + [SLASH] + c)[..|d + [SLASH] + c| - 1] == d + [SLASH] + e;
      DirNameOfChild(d, e);
    }
  }

  /** The inode number of the directory that holds an inode. */
  function ParentOf(archive: string, i: nat): nat {
    var d := DirName(NameOf(archive, i));
    if d == [] then ROOT else
      match LookupName(archive, d)
      case Found(p, _, _) => p
      case _ => ROOT
  }

  /** A number that a walk can reach: the root, or one whose name is found in the archive and extends
      the name of its parent. */
  ghost predicate Reachable(archive: string, i: nat) {
    || i == ROOT
    || (var f := NameOf(archive, i);
        GoodName(f) && Leads(archive, f, i) && NameOf(archive, ParentOf(archive, i)) == DirName(f))
  }

  lemma ChildReachable(archive: string, p: nat, c: string)
    requires Sound(archive, 0) && Reachable(archive, p) && Component(c)
    requires LookupChild(archive, NameOf(archive, p), c).Found?
    ensures var i := LookupChild(archive, NameOf(archive, p), c).inode;
      && i != ROOT && Reachable(archive, i) && ParentOf(archive, i) == p
      && NameOf(archive, i) == ChildName(NameOf(archive, p), c)
  {
    var d := NameOf(archive, p);
    var f := ChildName(d, c);
    ChildGood(d, c);
    NameOfFound(archive, f);
    DirNameOfChild(d, c);
  }

  lemma IndexOfReachable(archive: string, i: nat)
    requires Sound(archive, 0) && Reachable(archive, i) && i != ROOT
    ensures LookupIndex(archive, i).Named?
  {
    IndexOfName(archive, NameOf(archive, i), i);
  }

  lemma IndexOfName(archive: string, f: string, i: nat)
    requires Sound(archive, 0) && GoodName(f) && Leads(archive, f, i)
    ensures LookupIndex(archive, i).Named?
  {
    var e := IndexOfLookup(archive, f);
  }

  // ---------------------------------------------------------------- the invariant

  ghost function Children(t: Table, i: nat): set<nat> {
    set c | c in t && t[c].parent == Some(i)
  }

  /** The count of an inode is the number of its holders plus its children in the table; the mount
      itself is one more holder of the root. */
  ghost predicate Counted(t: Table, h: multiset<nat>, i: nat)
    requires i in t
  {
    t[i].rc == h[i] + |Children(t, i)| + (if i == ROOT then 1 else 0) && t[i].rc > 0
  }

  /** What an inode records agrees with the archive. */
  ghost predicate Recorded(archive: string, t: Table, i: nat)
    requires i in t
  {
    && Reachable(archive, i)
    && (i == ROOT ==> t[i].parent == None && t[i].at == 0 && t[i].length == 0)
    && (i != ROOT ==>
          && t[i].parent == Some(ParentOf(archive, i)) && ParentOf(archive, i) in t
          && var x := LookupIndex(archive, i); x.Named? && t[i].at == x.at && t[i].length == x.length)
  }

  ghost predicate Inv(archive: string, t: Table, h: multiset<nat>) {
    && ROOT in t
    && (forall i {:trigger Counted(t, h, i)} :: i in t ==> Counted(t, h, i))
    && (forall i {:trigger Recorded(archive, t, i)} :: i in t ==> Recorded(archive, t, i))
    && (forall i :: i in h ==> i in t)
  }

  /** Only the counts differ. */
  ghost predicate SameButCounts(t: Table, t': Table) {
    && t.Keys == t'.Keys
    && forall i {:trigger t'[i]} :: i in t ==> t'[i] == t[i].(rc := t'[i].rc)
  }

  lemma RecountKeeps(archive: string, t: Table, h: multiset<nat>, t': Table, h': multiset<nat>)
    requires Inv(archive, t, h) && SameButCounts(t, t')
    requires forall i {:trigger t'[i]} :: i in t' ==> t'[i].rc - h'[i] == t[i].rc - h[i] && t'[i].rc > 0
    requires forall i :: i in h' ==> i in t
    ensures Inv(archive, t', h')
  {
    forall i | i in t' ensures Counted(t', h', i) && Recorded(archive, t', i) {
      assert Counted(t, h, i) && Recorded(archive, t, i);
      assert Children(t', i) == Children(t, i);
    }
  }

  lemma TakeRef(archive: string, t: Table, h: multiset<nat>, i: nat)
    requires Inv(archive, t, h) && i in t
    ensures Inv(archive, t[i := t[i].(rc := t[i].rc + 1)], h + multiset{i})
  {
    assert forall j :: j in t ==> Counted(t, h, j);
    RecountKeeps(archive, t, h, t[i := t[i].(rc := t[i].rc + 1)], h + multiset{i});
  }

  lemma DropRef(archive: string, t: Table, h: multiset<nat>, i: nat)
    requires Inv(archive, t, h) && i in h && t[i].rc > 1
    ensures Inv(archive, t[i := t[i].(rc := t[i].rc - 1)], h - multiset{i})
  {
    assert forall j :: j in t ==> Counted(t, h, j);
    RecountKeeps(archive, t, h, t[i := t[i].(rc := t[i].rc - 1)], h - multiset{i});
  }

  ghost predicate Fresh(archive: string, t: Table, i: nat, n: Inode) {
    && i !in t && i != ROOT && n.rc == 1
    && Reachable(archive, i) && ParentOf(archive, i) in t && n.parent == Some(ParentOf(archive, i))
    && var x := LookupIndex(archive, i); x.Named? && n.at == x.at && n.length == x.length
  }

  lemma FreshInode(archive: string, t: Table, i: nat, p: nat)
    requires Sound(archive, 0) && Reachable(archive, i) && i != ROOT && i !in t
    requires p in t && p == ParentOf(archive, i)
    ensures var x := LookupIndex(archive, i);
      x.Named? && Fresh(archive, t, i, Inode(1, Some(p), x.at, x.length))
  {
    IndexOfReachable(archive, i);
  }

  /** The table with a new inode, which takes a reference to its parent. */
  ghost function Added(t: Table, p: nat, i: nat, n: Inode): Table
    requires p in t
  {
    t[p := t[p].(rc := t[p].rc + 1)][i := n]
  }

  lemma NoChildren(archive: string, t: Table, h: multiset<nat>, i: nat)
    requires Inv(archive, t, h) && i !in t
    ensures forall c :: c in t ==> t[c].parent != Some(i)
  {
    forall c | c in t ensures t[c].parent != Some(i) { assert Recorded(archive, t, c); }
  }

  lemma ChildrenAfterAdd(t: Table, p: nat, i: nat, n: Inode, j: nat)
    requires p in t && i !in t && n.parent == Some(p) && j in t
    ensures |Children(Added(t, p, i, n), j)| == |Children(t, j)| + if j == p then 1 else 0
  {
    ChildSet(t, p, i, n, j);
    assert i !in Children(t, j);
  }

  lemma ChildSet(t: Table, p: nat, i: nat, n: Inode, j: nat)
    requires p in t && i !in t && n.parent == Some(p)
    ensures Children(Added(t, p, i, n), j) == Children(t, j) + if j == p then {i} else {}
  {
    var t' := Added(t, p, i, n);
    assert forall c :: c in t ==> t'[c].parent == t[c].parent;
  }

  lemma AddCounts(archive: string, t: Table, h: multiset<nat>, i: nat, n: Inode, p: nat, j: nat)
    requires Inv(archive, t, h) && i !in t && i != ROOT && n.rc == 1 && n.parent == Some(p) && p in t
    requires j in Added(t, p, i, n)
    ensures Counted(Added(t, p, i, n), h + multiset{i}, j)
  {
    var t' := Added(t, p, i, n);
    assert i !in h;
    if j == i {
      NoChildren(archive, t, h, i);
      assert Children(t', i) == {};
    } else {
      assert Counted(t, h, j);
      ChildrenAfterAdd(t, p, i, n, j);
    }
  }

  /** A new inode comes with one reference, and holds one to its parent. */
  lemma AddInode(archive: string, t: Table, h: multiset<nat>, i: nat, n: Inode, p: nat)
    requires Inv(archive, t, h) && Fresh(archive, t, i, n) && p == ParentOf(archive, i)
    ensures Inv(archive, Added(t, p, i, n), h + multiset{i})
  {
    var t' := Added(t, p, i, n);
    forall j | j in t' ensures Counted(t', h + multiset{i}, j) {
      AddCounts(archive, t, h, i, n, p, j);
    }
    forall j | j in t' ensures Recorded(archive, t', j) {
      if j != i { assert Recorded(archive, t, j); }
    }
  }

  /** An inode with one reference that is held has no children, and nobody has it as parent. */
  lemma Childless(archive: string, t: Table, h: multiset<nat>, i: nat)
    requires Inv(archive, t, h) && i in h && t[i].rc == 1
    ensures i != ROOT && h[i] == 1 && Children(t, i) == {}
    ensures t[i].parent == Some(ParentOf(archive, i)) && ParentOf(archive, i) in t - {i}
    ensures forall j :: j in t && j != ROOT ==> ParentOf(archive, j) != i
  {
    assert Counted(t, h, i) && Recorded(archive, t, i);
    assert |Children(t, i)| == 0;
    forall j | j in t && j != ROOT ensures ParentOf(archive, j) != i {
      assert Recorded(archive, t, j);
      assert j !in Children(t, i);
    }
  }

  /** An inode whose last reference goes leaves the table, and with it one reference to its parent. */
  lemma RemoveInode(archive: string, t: Table, h: multiset<nat>, i: nat)
    requires Inv(archive, t, h) && i in h && t[i].rc == 1
    ensures i != ROOT && t[i].parent == Some(ParentOf(archive, i)) && ParentOf(archive, i) in t - {i}
    ensures Inv(archive, t - {i}, h - multiset{i} + multiset{ParentOf(archive, i)})
  {
    var p := ParentOf(archive, i);
    Childless(archive, t, h, i);
    var t', h' := t - {i}, h - multiset{i} + multiset{p};
    forall j | j in t' ensures Recorded(archive, t', j) {
      assert Recorded(archive, t, j);
    }
    forall j | j in t' ensures Counted(t', h', j) {
      assert Counted(t, h, j);
      assert Children(t', j) == Children(t, j) - {i};
      assert i in Children(t, j) <==> j == p;
    }
  }

  // ---------------------------------------------------------------- the table is a function of the holders

  lemma NameBound(archive: string, i: nat)
    requires Reachable(archive, i)
    ensures |NameOf(archive, i)| <= 99
  {
  }

  lemma ParentShorter(archive: string, c: nat)
    requires Reachable(archive, c) && c != ROOT
    ensures |NameOf(archive, ParentOf(archive, c))| < |NameOf(archive, c)|
  {
  }

  /** Inode `j` is `i` or lies below it. */
  ghost predicate AtOrBelow(archive: string, j: nat, i: nat)
    decreases |NameOf(archive, j)|
  {
    || j == i
    || (var p := ParentOf(archive, j);
        j != ROOT && |NameOf(archive, p)| < |NameOf(archive, j)| && AtOrBelow(archive, p, i))
  }

  /** An inode is in memory only because it, or something below it, is held. */
  lemma {:induction false} KeptForAReason(archive: string, t: Table, h: multiset<nat>, i: nat) returns (j: nat)
    requires Inv(archive, t, h) && i in t && i != ROOT
    ensures j in h && AtOrBelow(archive, j, i)
    decreases 100 - |NameOf(archive, i)|
  {
    assert Counted(t, h, i) && Recorded(archive, t, i);
    j := i;
    if i !in h {
      assert Children(t, i) != {};
      var c :| c in Children(t, i);
      assert Recorded(archive, t, c);
      ParentShorter(archive, c);
      NameBound(archive, c);
      j := KeptForAReason(archive, t, h, c);
      BelowParent(archive, j, c);
    }
  }

  /** What lies below an inode lies below its parent. */
  lemma {:induction false} BelowParent(archive: string, j: nat, c: nat)
    requires AtOrBelow(archive, j, c) && c != ROOT && |NameOf(archive, ParentOf(archive, c))| < |NameOf(archive, c)|
    ensures AtOrBelow(archive, j, ParentOf(archive, c))
    decreases |NameOf(archive, j)|
  {
    if j != c {
      BelowParent(archive, ParentOf(archive, j), c);
    }
  }

  /** Everything above a held inode is in memory. */
  lemma {:induction false} KeptAbove(archive: string, t: Table, h: multiset<nat>, j: nat, i: nat)
    requires Inv(archive, t, h) && j in t && AtOrBelow(archive, j, i)
    ensures i in t
    decreases |NameOf(archive, j)|
  {
    assert Recorded(archive, t, j);
    if j != i {
      KeptAbove(archive, t, h, ParentOf(archive, j), i);
    }
  }

  /** Besides the root, an inode is in memory exactly if something at or below it is held. */
  lemma InMemory(archive: string, t: Table, h: multiset<nat>, i: nat)
    requires Inv(archive, t, h)
    ensures i in t <==> i == ROOT || exists j :: j in h && AtOrBelow(archive, j, i)
  {
    if i in t && i != ROOT {
      var j := KeptForAReason(archive, t, h, i);
    }
    if j :| j in h && AtOrBelow(archive, j, i) {
      KeptAbove(archive, t, h, j, i);
    }
  }

  /** Two states of the table with the same holders are the same. */
  lemma TableOfHolders(archive: string, t: Table, u: Table, h: multiset<nat>)
    requires Inv(archive, t, h) && Inv(archive, u, h)
    ensures t == u
  {
    forall i ensures i in t <==> i in u {
      InMemory(archive, t, h, i);
      InMemory(archive, u, h, i);
    }
    assert t.Keys == u.Keys;
    forall i | i in t ensures t[i] == u[i] {
      assert Counted(t, h, i) && Counted(u, h, i) && Recorded(archive, t, i) && Recorded(archive, u, i);
      forall c | c in t ensures t[c].parent == u[c].parent {
        assert Recorded(archive, t, c) && Recorded(archive, u, c);
      }
      assert Children(t, i) == Children(u, i);
    }
  }

  // ---------------------------------------------------------------- releases nobody is entitled to

  /** An inode and everything above it is in memory, as a release that climbs to the parents needs it. */
  ghost predicate Lineage(archive: string, t: Table, i: nat)
    decreases |NameOf(archive, i)|
  {
    && i in t && t[i].rc > 0
    && (i == ROOT ==> t[i].parent == None)
    && (i != ROOT ==>
          var p := ParentOf(archive, i);
          t[i].parent == Some(p) && |NameOf(archive, p)| < |NameOf(archive, i)| && Lineage(archive, t, p))
  }

  lemma {:induction false} InvLineage(archive: string, t: Table, h: multiset<nat>, i: nat)
    requires Inv(archive, t, h) && i in t
    ensures Lineage(archive, t, i)
    decreases |NameOf(archive, i)|
  {
    assert Counted(t, h, i) && Recorded(archive, t, i);
    if i != ROOT {
      ParentShorter(archive, i);
      InvLineage(archive, t, h, ParentOf(archive, i));
    }
  }

  /** Taking out an inode with a longer name does not touch what is above. */
  lemma {:induction false} LineageKept(archive: string, t: Table, i: nat, x: nat)
    requires Lineage(archive, t, i) && |NameOf(archive, i)| < |NameOf(archive, x)|
    ensures Lineage(archive, t - {x}, i)
    decreases |NameOf(archive, i)|
  {
    if i != ROOT {
      LineageKept(archive, t, ParentOf(archive, i), x);
    }
  }

  /** The table after a release: a count goes down, or the inode leaves and lets go of its parent. */
  ghost function Released(archive: string, t: Table, i: nat): (r: Table)
    requires Lineage(archive, t, i)
    ensures r.Keys <= t.Keys && (i in r <==> t[i].rc > 1)
    decreases |NameOf(archive, i)|
  {
    if t[i].rc > 1 then t[i := t[i].(rc := t[i].rc - 1)]
    else if i == ROOT then t - {i}
    else
      LineageKept(archive, t, ParentOf(archive, i), i);
      Released(archive, t - {i}, ParentOf(archive, i))
  }

  /** The inodes from which a release may start. */
  ghost function Rooted(archive: string, t: Table): set<nat> {
    set i | i in t && Lineage(archive, t, i)
  }

  /** One round of a release: `t'` is the table after the count went down. */
  lemma ReleasedStep(archive: string, t: Table, i: nat, t': Table)
    requires i in Rooted(archive, t) && t' == t[i := t[i].(rc := t[i].rc - 1)]
    ensures t'[i].parent == if i == ROOT then None else Some(ParentOf(archive, i))
    ensures t[i].rc > 1 ==> Released(archive, t, i) == t'
    ensures t[i].rc == 1 && i == ROOT ==> Released(archive, t, i) == t' - {i}
    ensures t[i].rc == 1 && i != ROOT ==>
              var p := ParentOf(archive, i);
              && p in Rooted(archive, t' - {i}) && |NameOf(archive, p)| < |NameOf(archive, i)|
              && Released(archive, t, i) == Released(archive, t' - {i}, p)
  {
    assert t' - {i} == t - {i};
    if i != ROOT { LineageKept(archive, t, ParentOf(archive, i), i); }
  }

  /** Inodes with a longer name are not touched. */
  lemma {:induction false} ReleasedKeeps(archive: string, t: Table, i: nat, x: nat)
    requires Lineage(archive, t, i) && x in t && |NameOf(archive, i)| < |NameOf(archive, x)|
    ensures x in Released(archive, t, i) && Released(archive, t, i)[x] == t[x]
    decreases |NameOf(archive, i)|
  {
    if t[i].rc == 1 && i != ROOT {
      LineageKept(archive, t, ParentOf(archive, i), i);
      ReleasedKeeps(archive, t - {i}, ParentOf(archive, i), x);
    }
  }

  /** Giving back a reference that is held keeps every count right, up the whole chain of parents. */
  lemma {:induction false} ReleaseHeld(archive: string, t: Table, h: multiset<nat>, i: nat)
    requires Inv(archive, t, h) && i in h
    ensures Lineage(archive, t, i) && Inv(archive, Released(archive, t, i), h - multiset{i})
    decreases |NameOf(archive, i)|
  {
    InvLineage(archive, t, h, i);
    if t[i].rc > 1 {
      DropRef(archive, t, h, i);
    } else {
      RemoveInode(archive, t, h, i);
      var p := ParentOf(archive, i);
      var h' := h - multiset{i} + multiset{p};
      LineageKept(archive, t, p, i);
      ReleaseHeld(archive, t - {i}, h', p);
      assert h' - multiset{p} == h - multiset{i};
    }
  }

  /** Giving back a reference that nobody holds spoils a count, the root, or the parent of an inode. */
  lemma ReleaseNotHeld(archive: string, t: Table, h: multiset<nat>, i: nat)
    requires Inv(archive, t, h) && i in t && i !in h
    ensures Lineage(archive, t, i) && !Inv(archive, Released(archive, t, i), h - multiset{i})
  {
    InvLineage(archive, t, h, i);
    if t[i].rc > 1 {
      Overdrawn(archive, t, h, i);
    } else if i != ROOT {
      var c := OrphanOf(archive, t, h, i);
      var p, t' := ParentOf(archive, i), t - {i};
      LineageKept(archive, t, p, i);
      ReleasedKeeps(archive, t', p, c);
      OrphanSpoils(archive, Released(archive, t', p), h - multiset{i}, c, i);
    }
  }

  lemma Overdrawn(archive: string, t: Table, h: multiset<nat>, i: nat)
    requires Inv(archive, t, h) && i in t && i !in h
    ensures !Inv(archive, t[i := t[i].(rc := t[i].rc - 1)], h - multiset{i})
  {
    var t' := t[i := t[i].(rc := t[i].rc - 1)];
    assert Counted(t, h, i);
    assert Children(t', i) == Children(t, i);
    assert !Counted(t', h - multiset{i}, i);
  }

  /** An inode in memory that nobody holds has a child there. */
  lemma OrphanOf(archive: string, t: Table, h: multiset<nat>, i: nat) returns (c: nat)
    requires Inv(archive, t, h) && i in t && i !in h && i != ROOT
    ensures c in t && c != i && t[c].parent == Some(i) && |NameOf(archive, i)| < |NameOf(archive, c)|
  {
    assert Counted(t, h, i);
    assert Children(t, i) != {};
    c :| c in Children(t, i);
    assert Recorded(archive, t, c);
    ParentShorter(archive, c);
  }

  lemma OrphanSpoils(archive: string, t: Table, h: multiset<nat>, c: nat, i: nat)
    requires c in t && t[c].parent == Some(i) && i !in t
    ensures !Inv(archive, t, h)
  {
    assert c != ROOT && ParentOf(archive, c) in t ==> !Recorded(archive, t, c);
    assert !Recorded(archive, t, c);
  }

  /** Right after mounting: only the root, with the reference of the mount. */
  lemma MountInv(archive: string)
    ensures Inv(archive, map[ROOT := Inode(1, None, 0, 0)], multiset{})
  {
    var t: Table := map[ROOT := Inode(1, None, 0, 0)];
    assert Children(t, ROOT) == {};
    assert Counted(t, multiset{}, ROOT);
  }
}
