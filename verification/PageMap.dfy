/** The two-level page tables of 32-bit paging (section 4.3 of the Intel SDM, volume 3A) as written by
    `_map_page` and by the boot loop of `init_page_allocator` (kernel/memory/page_allocator.cpp). */
module PageMap {
  import opened Common

  const PRESENT_WRITE: nat := 3

  predicate Present(entry: nat) {
    entry % 2 == 1
  }

  /** The page table an entry points to: the entry without its low twelve bits. */
  function Frame(entry: nat): nat {
    entry / 4096 * 4096
  }

  /** A page-aligned address or-ed with flags below 4096. */
  lemma EntryParts(frame: nat, flags: nat)
    requires frame % 4096 == 0 && flags < 4096
    ensures Frame(frame + flags) == frame && (Present(frame + flags) <==> Present(flags))
  {
  }

  /** How many page tables cover the addresses from the kernel base up to `end`. */
  function TablesFor(end: nat): nat
    requires KERNEL_BASE <= end
  {
    (end - KERNEL_BASE + 0x3F_FFFF) / 0x40_0000
  }

  /** A new table is needed exactly where the tables so far end. */
  lemma NextTable(addr: nat, end: nat)
    requires KERNEL_BASE <= addr < end && addr % 4096 == 0
    ensures TablesFor(addr) <= TablesFor(end)
    ensures 768 <= addr / 0x40_0000 <= 768 + TablesFor(addr)
    ensures addr / 0x40_0000 == 768 + TablesFor(addr) ==> TablesFor(addr) < TablesFor(end)
    ensures TablesFor(addr + 4096) ==
              if addr / 0x40_0000 == 768 + TablesFor(addr) then TablesFor(addr) + 1 else TablesFor(addr)
  {
  }

  /** A page-aligned address with both flags is a writable entry. */
  lemma BothBits(frame: nat)
    requires frame % 4096 == 0
    ensures Writable(frame + PRESENT_WRITE)
  {
    assert frame == 4 * (1024 * (frame / 4096));
  }

  /** A page that growing the allocator maps, and the page it has for the page table, if that is missing. */
  datatype Mapping = Mapping(virt: nat, pte: nat, page: nat) {
    predicate Ok() {
      virt % 4096 == 0 && virt < WORD && page % 4096 == 0
    }
  }

  /** What became of the page for the page table: not asked for, used, or given back. */
  datatype Use = Existing | Fresh | GivenBack

  /** The entry of page number `v` after some mappings, the last of which counts. */
  function After(growth: seq<Mapping>, v: nat, was: nat): nat {
    if growth == [] then was else
      var m := growth[|growth| - 1];
      if m.virt / 4096 == v then m.pte else After(growth[..|growth| - 1], v, was)
  }

  function PagesOf(growth: seq<Mapping>): (s: seq<nat>)
    ensures |s| == |growth| && forall i :: 0 <= i < |s| ==> s[i] == growth[i].page
  {
    seq(|growth|, i requires 0 <= i < |growth| => growth[i].page)
  }

  /** Growth maps a page in the four megabytes of directory entry `d`. */
  ghost predicate Reaches(growth: seq<Mapping>, d: nat) {
    exists m :: m in growth && m.virt / 0x40_0000 == d
  }

  /** One mapping more. */
  lemma OneMore(growth: seq<Mapping>, k: nat, v: nat, was: nat, d: nat)
    requires k < |growth|
    ensures After(growth[..k + 1], v, was) ==
              if growth[k].virt / 4096 == v then growth[k].pte else After(growth[..k], v, was)
    ensures Reaches(growth[..k + 1], d) <==> Reaches(growth[..k], d) || growth[k].virt / 0x40_0000 == d
  {
    assert growth[..k + 1][..k] == growth[..k];
    assert growth[..k + 1] == growth[..k] + [growth[k]];
  }

  lemma DistinctPages(growth: seq<Mapping>, page: nat, k: nat)
    requires Unique(PagesOf(growth) + [page]) && k < |growth|
    ensures growth[k].page !in PagesOf(growth)[..k]
  {
    var s := PagesOf(growth) + [page];
    assert s[|growth|] == page && forall i :: 0 <= i < |growth| ==> s[i] == growth[i].page;
  }

  lemma PageApart(growth: seq<Mapping>, page: nat)
    requires Unique(PagesOf(growth) + [page])
    ensures page !in PagesOf(growth)
  {
    var s := PagesOf(growth) + [page];
    assert s[|growth|] == page && forall i :: 0 <= i < |growth| ==> s[i] == growth[i].page;
  }

  /** Growth made this directory entry, present and writable, for one of its pages. */
  ghost predicate MadeBy(growth: seq<Mapping>, d: nat, entry: nat) {
    exists m :: m in growth && m.virt / 0x40_0000 == d && entry == m.page + PRESENT_WRITE
  }

  /** The two lowest bits, present and write, are set. */
  predicate Writable(entry: nat) {
    entry % 4 == 3
  }

  class PageDirectory {
    var dir: seq<nat>               // the 1024 entries of the directory
    var tables: map<nat, seq<nat>>  // the page tables in memory, by physical address

    /** Each present entry has a page table of its own. */
    ghost predicate Valid()
      reads this
    {
      && |dir| == 1024
      && (forall i {:trigger dir[i]} :: 0 <= i < 1024 && Present(dir[i]) ==>
            Frame(dir[i]) in tables && |tables[Frame(dir[i])]| == 1024)
      && (forall i, j :: 0 <= i < j < 1024 && Present(dir[i]) && Present(dir[j]) ==>
            Frame(dir[i]) != Frame(dir[j]))
    }

    /** The entry that translates page number `v`, or 0 if there is no table for it. */
    ghost function Translate(v: nat): nat
      requires Valid() && v < 0x10_0000
      reads this
    {
      if Present(dir[v / 1024]) then tables[Frame(dir[v / 1024])][v % 1024] else 0
    }

    constructor ()
      ensures Valid() && forall v: nat :: v < 0x10_0000 ==> Translate(v) == 0
      ensures forall i :: 0 <= i < 1024 ==> !Present(dir[i])
    {
      dir := seq(1024, _ => 0);
      tables := map[];
    }

    /** The frames that hold a page table of this directory. */
    ghost function Used(): set<nat>
      reads this
    {
      set i | 0 <= i < |dir| && Present(dir[i]) :: Frame(dir[i])
    }

    /** The pages the allocator hands out are not in use and all different. */
    ghost predicate Supply(page: nat, growth: seq<Mapping>)
      reads this
    {
      && page % 4096 == 0 && page !in Used() && Unique(PagesOf(growth) + [page])
      && forall i {:trigger growth[i]} :: 0 <= i < |growth| ==> growth[i].Ok() && growth[i].page !in Used()
    }

    /** _map_page: page `virt` now translates to `pte`.  If there is no page table for it, a page is allocated;
        `growth` is what the allocator maps in this directory on that occasion.  If that made the page table,
        it is used, and the page is given back.  No other translation changes. */
    method MapPage(virt: nat, flags: nat, pte: nat, page: nat, growth: seq<Mapping>) returns (use: Use)
      requires Valid() && virt % 4096 == 0 && virt < WORD && flags < 4096 && Present(flags)
      requires !Present(dir[virt / 0x40_0000]) ==> Supply(page, growth)
      modifies this
      ensures Valid()
      ensures use == Existing <==> Present(old(dir)[virt / 0x40_0000])
      ensures use == GivenBack <==> !Present(old(dir)[virt / 0x40_0000]) && Reaches(growth, virt / 0x40_0000)
      ensures forall v: nat :: v < 0x10_0000 ==>
                Translate(v) == if v == virt / 4096 then pte
                                else if use == Existing then old(Translate(v)) else After(growth, v, old(Translate(v)))
      ensures forall i: nat :: i < 1024 ==>
                (Present(dir[i]) <==>
                   Present(old(dir)[i]) || i == virt / 0x40_0000 || (use != Existing && Reaches(growth, i)))
      ensures forall f :: f in Used() ==> f in old(Used()) || (use != Existing && (f == page || f in PagesOf(growth)))
      ensures use == Fresh ==> dir[virt / 0x40_0000] == page + flags
      ensures forall i: nat :: i < 1024 && !(use == Fresh && i == virt / 0x40_0000) ==>
                dir[i] == old(dir)[i] || (use != Existing && MadeBy(growth, i, dir[i]))
    {
      use := Existing;
      if Present(dir[virt / 0x40_0000]) {
        WriteEntry(virt, pte);
      } else {
        GrowthMaps(growth, page);
        var made := MapOne(virt, flags, pte, page);
        use := if made then Fresh else GivenBack;
      }
    }

    /** The mappings of a growing allocator.  It has just added a region, so that it does not grow again for
        the page tables these need. */
    method GrowthMaps(growth: seq<Mapping>, ghost page: nat)
      requires Valid() && Supply(page, growth)
      modifies this
      ensures Valid() && page !in Used()
      ensures forall v: nat :: v < 0x10_0000 ==> Translate(v) == After(growth, v, old(Translate(v)))
      ensures forall i: nat :: i < 1024 ==> (Present(dir[i]) <==> Present(old(dir)[i]) || Reaches(growth, i))
      ensures forall f :: f in Used() ==> f in old(Used()) || f in PagesOf(growth)
      ensures forall i: nat :: i < 1024 ==> dir[i] == old(dir)[i] || MadeBy(growth, i, dir[i])
    {
      for k := 0 to |growth|
        invariant Valid() && forall f :: f in Used() ==> f in old(Used()) || f in PagesOf(growth)[..k]
        invariant forall v: nat :: v < 0x10_0000 ==> Translate(v) == After(growth[..k], v, old(Translate(v)))
        invariant forall i: nat :: i < 1024 ==> (Present(dir[i]) <==> Present(old(dir)[i]) || Reaches(growth[..k], i))
        invariant forall i: nat :: i < 1024 ==> dir[i] == old(dir)[i] || MadeBy(growth, i, dir[i])
      {
        assert PagesOf(growth)[..k + 1] == PagesOf(growth)[..k] + [growth[k].page];
        assert growth[k].page !in PagesOf(growth)[..k] by { DistinctPages(growth, page, k); }
        ghost var was := dir;
        GrowthStep(growth, k);
        forall i: nat | i < 1024 ensures dir[i] == old(dir)[i] || MadeBy(growth, i, dir[i]) {
          if dir[i] != was[i] { assert growth[k] in growth; }
        }
        forall v: nat | v < 0x10_0000 ensures Translate(v) == After(growth[..k + 1], v, old(Translate(v))) {
          OneMore(growth, k, v, old(Translate(v)), 0);
        }
        forall i: nat | i < 1024 ensures Present(dir[i]) <==> Present(old(dir)[i]) || Reaches(growth[..k + 1], i) {
          OneMore(growth, k, 0, 0, i);
        }
      }
      assert growth[..|growth|] == growth && PagesOf(growth)[..|growth|] == PagesOf(growth);
      PageApart(growth, page);
    }

    method GrowthStep(growth: seq<Mapping>, k: nat)
      requires Valid() && k < |growth| && growth[k].Ok() && growth[k].page !in Used()
      modifies this
      ensures Valid()
      ensures forall v: nat :: v < 0x10_0000 ==>
                Translate(v) == if v == growth[k].virt / 4096 then growth[k].pte else old(Translate(v))
      ensures forall i: nat :: i < 1024 ==>
                (Present(dir[i]) <==> Present(old(dir)[i]) || i == growth[k].virt / 0x40_0000)
      ensures Used() <= old(Used()) + {growth[k].page}
      ensures forall i: nat :: i < 1024 ==>
                || dir[i] == old(dir)[i]
                || (i == growth[k].virt / 0x40_0000 && dir[i] == growth[k].page + PRESENT_WRITE)
    {
      var m := growth[k];
      var _ := MapOne(m.virt, PRESENT_WRITE, m.pte, m.page);
    }

    /** Maps a page, in an existing page table or in a new one on `page`. */
    method MapOne(virt: nat, flags: nat, pte: nat, page: nat) returns (made: bool)
      requires Valid() && virt < WORD && flags < 4096 && Present(flags)
      requires !Present(dir[virt / 0x40_0000]) ==> page % 4096 == 0 && page !in Used()
      modifies this
      ensures Valid() && (made <==> !Present(old(dir)[virt / 0x40_0000]))
      ensures forall v: nat :: v < 0x10_0000 ==> Translate(v) == if v == virt / 4096 then pte else old(Translate(v))
      ensures forall i: nat :: i < 1024 ==> (Present(dir[i]) <==> Present(old(dir)[i]) || i == virt / 0x40_0000)
      ensures Used() == old(Used()) + if made then {page} else {}
      ensures dir == if made then old(dir)[virt / 0x40_0000 := page + flags] else old(dir)
    {
      made := !Present(dir[virt / 0x40_0000]);
      if made {
        NewTable(virt / 0x40_0000, page, flags);
      }
      WriteEntry(virt, pte);
    }

    /** An empty page table on a page that no entry uses. */
    method NewTable(d: nat, page: nat, flags: nat)
      requires Valid() && d < 1024 && !Present(dir[d]) && page % 4096 == 0 && page !in Used()
      requires flags < 4096 && Present(flags)
      modifies this
      ensures Valid() && dir == old(dir)[d := page + flags]
      ensures forall v: nat :: v < 0x10_0000 ==> Translate(v) == old(Translate(v))
      ensures Present(dir[d]) && Used() == old(Used()) + {page}
    {
      EntryParts(page, flags);
      tables := tables[page := seq(1024, _ => 0)];
      dir := dir[d := page + flags];
      assert Frame(dir[d]) == page;
      assert forall i :: 0 <= i < 1024 && i != d ==> dir[i] == old(dir)[i];
    }

    method WriteEntry(virt: nat, pte: nat)
      requires Valid() && virt < WORD && Present(dir[virt / 0x40_0000])
      modifies this`tables
      ensures Valid()
      ensures forall v: nat :: v < 0x10_0000 ==> Translate(v) == if v == virt / 4096 then pte else old(Translate(v))
    {
      var d, t := virt / 0x40_0000, virt / 4096 % 1024;
      var frame := Frame(dir[d]);
      var table: seq<nat> := tables[frame][t := pte];
      tables := tables[frame := table];
      assert virt / 4096 / 1024 == d;
      forall v: nat | v < 0x10_0000
        ensures Translate(v) == if v == virt / 4096 then pte else old(Translate(v))
      {
        assert v == 1024 * (v / 1024) + v % 1024;
      }
    }

    /** The state of the boot loop at `addr`, with `k` of the frames used. */
    ghost predicate MappedUpTo(addr: nat, frames: seq<nat>, k: nat)
      reads this
    {
      && Valid() && addr % 4096 == 0 && KERNEL_BASE <= addr && k == TablesFor(addr) && k <= |frames|
      && (forall i :: 0 <= i < 1024 ==> (Present(dir[i]) <==> 768 <= i < 768 + k))
      && (forall i :: 0 <= i < 1024 && Present(dir[i]) ==> Writable(dir[i]))
      && (forall f :: f in frames[k..] ==> f !in Used())
      && (forall v: nat :: v < 0x10_0000 ==>
            Translate(v) ==
              if KERNEL_BASE <= 4096 * v < addr then 4096 * v - KERNEL_BASE + PRESENT_WRITE else 0)
    }

    /** The boot loop: maps every page from the kernel base up to `end` at its fixed offset.  `frames` are
        the pages the allocator hands out, one for every four megabytes. */
    method MapKernel(end: nat, frames: seq<nat>)
      requires Valid() && forall v: nat :: v < 0x10_0000 ==> Translate(v) == 0
      requires forall i :: 0 <= i < 1024 ==> !Present(dir[i])
      requires end % 4096 == 0 && KERNEL_BASE <= end <= WORD && TablesFor(end) <= |frames|
      requires Unique(frames)
      requires forall f :: f in frames ==> f % 4096 == 0
      modifies this
      ensures Valid()
      ensures forall v: nat :: v < 0x10_0000 ==>
                Translate(v) == if KERNEL_BASE <= 4096 * v < end then 4096 * v - KERNEL_BASE + PRESENT_WRITE else 0
      ensures forall v: nat :: v < 0x10_0000 && KERNEL_BASE <= 4096 * v < end ==>
                && Frame(Translate(v)) == 4096 * v - KERNEL_BASE
                && Writable(Translate(v)) && Writable(dir[v / 1024])
      ensures forall v: nat :: v < 0x10_0000 && !(KERNEL_BASE <= 4096 * v < end) ==> !Present(Translate(v))
    {
      var addr: nat, k: nat := KERNEL_BASE, 0;
      while addr < end
        invariant addr <= end && MappedUpTo(addr, frames, k)
        decreases end - addr
      {
        k := MapKernelPage(addr, end, frames, k);
        addr := addr + 4096;
      }
      forall v: nat | v < 0x10_0000 && KERNEL_BASE <= 4096 * v < end
        ensures Frame(Translate(v)) == 4096 * v - KERNEL_BASE && Writable(Translate(v)) && Writable(dir[v / 1024])
      {
        EntryParts(4096 * v - KERNEL_BASE, PRESENT_WRITE);
        BothBits(4096 * v - KERNEL_BASE);
        assert Present(Translate(v));
      }
    }

    /** One round of the boot loop. */
    method MapKernelPage(addr: nat, end: nat, frames: seq<nat>, k: nat) returns (k': nat)
      requires MappedUpTo(addr, frames, k) && addr < end <= WORD && end % 4096 == 0 && TablesFor(end) <= |frames|
      requires Unique(frames) && forall f :: f in frames ==> f % 4096 == 0
      modifies this
      ensures addr + 4096 <= end && MappedUpTo(addr + 4096, frames, k')
    {
      NextTable(addr, end);
      if k < |frames| {
        assert frames[k] in frames && frames[k] in frames[k..];
        assert forall f :: f in frames[k + 1..] ==> f in frames[k..] && f != frames[k];
      }
      var page := if k < |frames| then frames[k] else 0;
      var use := MapPage(addr, PRESENT_WRITE, addr - KERNEL_BASE + PRESENT_WRITE, page, []);
      if use == Fresh { BothBits(page); }
      k' := if use == Fresh then k + 1 else k;
    }
  }
}
