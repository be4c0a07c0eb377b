/** Runs of the page allocator from boot (kernel/memory/page_allocator.cpp) in which growth damages a free list,
    and in which a request then meets a region without a free block. */
module KmemRuns {
  import opened Common
  import opened BuddySpec
  import opened Buddies
  import opened Kmem
  import FL = FreeLevel

  // ---------------------------------------------------------------- free pages in whole 32k blocks

  /** Outside 32k block `hole`, the free pages come in whole 32k blocks. */
  ghost predicate Chunks(free: set<nat>, hole: nat) {
    && (forall q :: q in free ==> q < PAGES)
    && (forall q {:trigger q in free} :: q in free && q / Span(3) != hole ==> Pages(3, q / Span(3)) <= free)
  }

  lemma ChunkTaken(free: set<nat>, hole: nat, i: nat)
    requires Chunks(free, hole) && i != hole
    ensures Chunks(free - Pages(3, i), hole)
    ensures (free - Pages(3, i)) * Pages(3, hole) == free * Pages(3, hole)
  {
    var rest := free - Pages(3, i);
    forall q | q in rest && q / Span(3) != hole ensures Pages(3, q / Span(3)) <= rest {
      assert q in free && q !in Pages(3, i);
    }
  }

  /** Without a free 32k block, all that is free lies in the hole. */
  lemma ChunksGone(free: set<nat>, hole: nat)
    requires Chunks(free, hole) && Blocks(3, free) == {}
    ensures free <= Pages(3, hole)
  {
    forall q | q in free ensures q in Pages(3, hole) {
      var i := q / Span(3);
      assert i in Blocks(3, free) <==> Pages(3, i) <= free;
    }
  }

  lemma NoBits(free: set<nat>)
    requires forall q :: q in free ==> q < PAGES
    ensures Blocks(0, free) == {} <==> free == {}
  {
    forall q | q in free ensures q in Blocks(0, free) {
      assert Pages(0, q) == {q};
    }
    if free == {} {
      forall i: nat | i < Slots(0) ensures i !in Blocks(0, free) { PagesNonempty(0, i); }
    }
  }

  // ---------------------------------------------------------------- the runs

  /** The only region with free 32k blocks is `r`, where block `hole` is not wholly free. */
  ghost predicate Draining(k: Kmem, r: nat, hole: nat)
    reads k, k.buddies.lv
  {
    && k.Core() && k.buddies.ListOk(3) && r < k.count
    && Chunks(k.free[r], hole) && (hole < Slots(3) ==> hole !in Blocks(3, k.free[r]))
    && forall x :: 0 <= x < k.count && x != r ==> Blocks(3, k.free[x]) == {}
  }

  /** Takes 32k blocks until there are none: what is left of the region is the hole, and the 4k list has lost the
      region if that is nothing. */
  method TakeBigBlocks(k: Kmem, ghost r: nat, ghost hole: nat)
    requires Draining(k, r, hole) && k.free[r] != {}
    modifies k, k.buddies.lv
    ensures Draining(k, r, hole) && k.First(3) == FL.Null && k.count == old(k.count) && old(k.live) <= k.live
    ensures k.free == old(k.free)[r := old(k.free)[r] * Pages(3, hole)]
    ensures k.buddies.Links(0) ==
              if k.free[r] != {} then old(k.buddies.Links(0)) else old(k.buddies.Links(0)).Unlinked(r)
  {
    k.EmptyList(3);
    while k.buddies.lv[3].first != FL.Null
      invariant Draining(k, r, hole) && k.count == old(k.count) && old(k.live) <= k.live
      invariant k.free == old(k.free)[r := k.free[r]] && k.free[r] * Pages(3, hole) == old(k.free)[r] * Pages(3, hole)
      invariant k.First(3) == FL.Null <==> Blocks(3, k.free[r]) == {}
      invariant k.buddies.Links(0) ==
                  if k.free[r] != {} then old(k.buddies.Links(0)) else old(k.buddies.Links(0)).Unlinked(r)
      decreases k.free[r]
    {
      TakeBigBlock(k, r, hole);
    }
    ChunksGone(k.free[r], hole);
    assert k.free[r] == old(k.free)[r] * Pages(3, hole);
  }

  /** One 32k block more. */
  method TakeBigBlock(k: Kmem, ghost r: nat, ghost hole: nat)
    requires Draining(k, r, hole) && k.First(3) != FL.Null
    modifies k, k.buddies.lv
    ensures Draining(k, r, hole) && k.count == old(k.count) && old(k.live) <= k.live
    ensures k.free == old(k.free)[r := k.free[r]] && k.free[r] < old(k.free)[r]
    ensures k.free[r] * Pages(3, hole) == old(k.free)[r] * Pages(3, hole)
    ensures k.First(3) == FL.Null <==> Blocks(3, k.free[r]) == {}
    ensures k.buddies.Links(0) ==
              if k.free[r] != {} then old(k.buddies.Links(0)) else old(k.buddies.Links(0)).Unlinked(r)
  {
    k.EmptyList(3);
    ghost var was := k.free;
    var a := k.Alloc(3);
    ghost var b := Decode(k.base, a.ptr, 3);
    assert b.index in Blocks(3, was[b.region]) && b.region == r;
    PagesNonempty(3, b.index);
    ChunkTaken(was[r], hole, b.index);
    assert old(k.buddies.Shapes())[0] == old(k.buddies.ShapeOf(0)) && k.buddies.Shapes()[0] == k.buddies.ShapeOf(0);
    assert old(k.buddies.Shapes())[3] == old(k.buddies.ShapeOf(3)) && k.buddies.Shapes()[3] == k.buddies.ShapeOf(3);
    NoBits(was[r]);
    NoBits(k.free[r]);
    k.EmptyList(3);
  }

  /** The pointers of the 4k list after growth: both regions have the sentinel in front. */
  function Damaged(): FL.Links {
    FL.Links(FL.Region(1), [FL.Head, FL.Head], [FL.Null, FL.Region(0)])
  }

  /** The state after the run of UnsafeGrowth: a page of region 0 is live, the rest of its 32k block is free, and
      one 32k block of region 1 is live. */
  ghost predicate Split(k: Kmem, page: nat, taken: nat)
    reads k, k.buddies.lv
  {
    && k.Core() && k.count == 2 && k.Live(0, page) && k.buddies.ListOk(3) && taken < Slots(3)
    && var b := Decode(k.base, page, 0);
    && b.region == 0 && b.index < PAGES
    && k.free == [Pages(3, b.index / Span(3)) - {b.index}, AllPages() - Pages(3, taken)]
    && k.buddies.Links(0) == Damaged()
  }

  /** A page of a region that was all free. */
  method FirstPage(k: Kmem) returns (page: nat)
    requires k.Valid() && k.count == 1 && k.free == [AllPages()] && k.live == {}
    modifies k, k.buddies.lv
    ensures k.count == 1 && k.Live(0, page) && k.buddies.Links(0) == old(k.buddies.Links(0))
    ensures var b := Decode(k.base, page, 0);
      var hole := b.index / Span(3);
      && b.region == 0 && b.index < PAGES && Draining(k, 0, hole)
      && k.free[0] * Pages(3, hole) == Pages(3, hole) - {b.index} != {}
  {
    assert k.buddies.ListOk(0) && k.buddies.ListOk(3);
    k.EmptyList(0);
    NothingLive(k.free, 0, 0, 0);
    var a := k.Alloc(0);
    page := a.ptr;
    ghost var b := Decode(k.base, page, 0);
    assert Pages(0, b.index) == {b.index};
    FreshIsRoomy(0, b.index);
    OnePageGone(b.index);
    assert old(k.buddies.Shapes())[0] == old(k.buddies.ShapeOf(0)) && k.buddies.Shapes()[0] == k.buddies.ShapeOf(0);
    assert old(k.buddies.Shapes())[3] == old(k.buddies.ShapeOf(3)) && k.buddies.Shapes()[3] == k.buddies.ShapeOf(3);
  }

  /** A region without one page comes in whole 32k blocks, but for that page's block. */
  lemma OnePageGone(p: nat)
    requires p < PAGES
    ensures Chunks(AllPages() - {p}, p / Span(3)) && p / Span(3) !in Blocks(3, AllPages() - {p})
    ensures (AllPages() - {p}) * Pages(3, p / Span(3)) == Pages(3, p / Span(3)) - {p}
    ensures Sibling(p) in Pages(3, p / Span(3)) - {p}
  {
    assert forall q: nat :: q in AllPages() <==> q < PAGES by {
      forall q: nat ensures q in AllPages() <==> q < PAGES { if q < PAGES { assert q in Pages(0, q); } }
    }
    assert p in Pages(3, p / Span(3));
  }

  /** Growth can damage a list in a run of a few requests: a page is taken, then 32k blocks until there are none,
      while the rest of the first page's block is still on the 4k list.  The next 32k request grows, and the 4k
      list is no longer a doubly linked list. */
  method UnsafeGrowth(start: nat, ram: nat) returns (k: Kmem, page: nat, ghost taken: nat)
    requires Bootable(start, ram) && ArrayEnd(start, ram) - KERNEL_BASE + 2 * REGION < RegionEnd(start, ram)
    ensures k.Core() && k.count == 2 && k.buddies.Broken(0)
    ensures fresh(k) && fresh(k.buddies.lv) && k.start == start && k.ram == ram
    ensures Split(k, page, taken)
  {
    k := new Kmem(start, ram);
    page := FirstPage(k);
    ghost var p := Decode(k.base, page, 0).index;
    TakeBigBlocks(k, 0, p / Span(3));
    taken := GrowBig(k);
    DamagedIsNoList();
  }

  /** A 32k request that grows while the 4k list is not empty. */
  method GrowBig(k: Kmem) returns (ghost taken: nat)
    requires k.Core() && k.count == 1 && k.CanGrow() && k.buddies.ListOk(3) && k.First(3) == FL.Null
    requires k.buddies.Links(0) == FL.Links(FL.Region(0), [FL.Head], [FL.Null])
    modifies k, k.buddies.lv
    ensures k.Core() && k.count == 2 && old(k.live) <= k.live && k.buddies.ListOk(3) && taken < Slots(3)
    ensures k.free == old(k.free) + [AllPages() - Pages(3, taken)]
    ensures k.buddies.Links(0) == Damaged()
  {
    var last := k.Alloc(3);
    taken := Decode(k.base, last.ptr, 3).index;
    assert old(k.buddies.Shapes())[0] == old(k.buddies.ShapeOf(0)) && k.buddies.Shapes()[0] == k.buddies.ShapeOf(0);
    assert old(k.buddies.Shapes())[3] == old(k.buddies.ShapeOf(3)) && k.buddies.Shapes()[3] == k.buddies.ShapeOf(3);
  }

  lemma DamagedIsNoList()
    ensures FL.NoList(Damaged())
  {
    var l := Damaged();
    forall o: seq<nat> ensures !FL.Listed(o, l.first, l.prev, l.next) {
      assert |o| > 0 && o[0] == 1 && FL.NodeAt(o, l.prev, l.next, 0) ==> |o| > 1 && o[1] == 0;
      assert |o| > 1 && o[0] == 1 && o[1] == 0 ==> !FL.NodeAt(o, l.prev, l.next, 1);
    }
  }

  /** The 4k pointers when region 0 and then region 1 loses its last page: each has the sentinel in front, so the
      sentinel is sent to what came after it, and finally to region 0, which has nothing. */
  lemma UnlinkBoth()
    ensures Damaged().Unlinked(0) == FL.Links(FL.Null, [FL.Null, FL.Head], [FL.Null, FL.Region(0)])
    ensures Damaged().Unlinked(0).Unlinked(1) == FL.Links(FL.Region(0), [FL.Head, FL.Null], [FL.Null, FL.Null])
  {
  }

  /** A region that has lost one 32k block still comes in whole 32k blocks. */
  lemma OneBlockGone(i: nat)
    requires i < Slots(3)
    ensures var f := AllPages() - Pages(3, i); Chunks(f, Slots(3)) && f != {} && f * Pages(3, Slots(3)) == {}
  {
    var f := AllPages() - Pages(3, i);
    assert forall q: nat :: q in AllPages() <==> q < PAGES by {
      forall q: nat ensures q in AllPages() <==> q < PAGES { if q < PAGES { assert q in Pages(0, q); } }
    }
    assert (if i == 0 then 8 else 0) in f;
  }

  lemma OneBlock(i: nat)
    requires i < Slots(3)
    ensures Blocks(3, Pages(3, i)) == {i} && Blocks(3, {}) == {} && Blocks(0, {}) == {}
    ensures forall j :: 0 <= j < Slots(3) && Pages(3, j) <= Pages(3, i) ==> j == i
  {
    forall j: nat | j < Slots(3) ensures Pages(3, j) <= Pages(3, i) <==> j == i { PagesNonempty(3, j); }
    forall j: nat | j < Slots(3) ensures j !in Blocks(3, {}) { PagesNonempty(3, j); }
    NoBits({});
  }

  /** A 32k request takes the last block of region 0, which heads the 32k list. */
  method TakeLast(k: Kmem, ghost hole: nat)
    requires k.Core() && k.count == 2 && k.buddies.ListOk(3) && hole < Slots(3)
    requires k.free[0] == Pages(3, hole) && k.First(3) == FL.Region(0)
    modifies k, k.buddies.lv
    ensures k.Core() && k.count == 2 && k.buddies.ListOk(3) && k.free == old(k.free)[0 := {}]
    ensures k.buddies.Links(0) == old(k.buddies.Links(0)).Unlinked(0)
  {
    OneBlock(hole);
    k.EmptyList(3);
    ghost var was := k.buddies.Shapes();
    assert was[0] == k.buddies.ShapeOf(0) && was[3] == k.buddies.ShapeOf(3);
    NoBits(Pages(3, hole));
    PagesNonempty(3, hole);
    var a := k.Alloc(3);
    assert Decode(k.base, a.ptr, 3).index == hole && k.free[0] == {};
    ghost var now := k.buddies.Shapes();
    assert now[0] == k.buddies.ShapeOf(0) && now[3] == k.buddies.ShapeOf(3);
  }

  /** A 32k block without one page has free pages but is not free; with the page it is. */
  lemma PageBack(p: nat)
    requires p < PAGES
    ensures var b := Pages(3, p / Span(3));
      && Pages(0, p) == {p} && b - {p} + {p} == b
      && Blocks(0, b - {p}) != {} && Blocks(3, b - {p}) == {} && Blocks(3, b) == {p / Span(3)}
  {
    var hole := p / Span(3);
    var b := Pages(3, hole);
    assert p in b && Sibling(p) in b - {p};
    NoBits(b - {p});
    OneBlock(hole);
    forall j: nat | j < Slots(3) ensures j !in Blocks(3, b - {p}) { assert j in Blocks(3, b) <==> j == hole; }
  }

  /** The page is freed, which makes its 32k block whole again and puts region 0 in front of the 32k list. */
  method WholeAgain(k: Kmem, page: nat, ghost taken: nat)
    requires Split(k, page, taken)
    modifies k, k.buddies.lv
    ensures k.Core() && k.count == 2 && k.buddies.ListOk(3)
    ensures k.free == [Pages(3, Decode(k.base, page, 0).index / Span(3)), AllPages() - Pages(3, taken)]
    ensures k.buddies.Links(0) == Damaged() && k.First(3) == FL.Region(0)
  {
    ghost var p := Decode(k.base, page, 0).index;
    ghost var hole := p / Span(3);
    ghost var was := k.buddies.Shapes();
    assert was[0] == k.buddies.ShapeOf(0) && was[3] == k.buddies.ShapeOf(3);
    PageBack(p);
    k.EmptyList(3);
    k.Free(0, page);
    assert k.buddies.Shapes()[0] == k.buddies.ShapeOf(0) && k.buddies.Shapes()[3] == k.buddies.ShapeOf(3);
  }

  /** Region 0 is emptied through the 32k list, and the 4k list forgets region 1 on that occasion. */
  method EmptyFirst(k: Kmem, page: nat, ghost taken: nat)
    requires Split(k, page, taken)
    modifies k, k.buddies.lv
    ensures Draining(k, 1, Slots(3)) && k.count == 2
    ensures k.free == [{}, AllPages() - Pages(3, taken)] && k.free[1] != {} && k.free[1] * Pages(3, Slots(3)) == {}
    ensures k.buddies.Links(0) == Damaged().Unlinked(0)
  {
    WholeAgain(k, page, taken);
    TakeLast(k, Decode(k.base, page, 0).index / Span(3));
    OneBlockGone(taken);
    OneBlock(0);
  }

  /** A run from boot that ends in a request on a region without a free block, although kmem could grow: a page;
      32k blocks until there are none, and one more; the page is freed; 32k blocks until there are none; a page. */
  method StuckRequest(start: nat, ram: nat) returns (k: Kmem, a: Request)
    requires Bootable(start, ram) && ArrayEnd(start, ram) - KERNEL_BASE + 3 * REGION < RegionEnd(start, ram)
    ensures a == Stuck && k.Core() && k.CanGrow()
  {
    var page;
    ghost var taken;
    k, page, taken := UnsafeGrowth(start, ram);
    EmptyFirst(k, page, taken);
    TakeBigBlocks(k, 1, Slots(3));
    UnlinkBoth();
    NoBits({});
    assert k.free[0] == {} && k.buddies.Links(0).first == FL.Region(0) && k.MapAgrees(0, 0);
    a := k.Alloc(0);
  }
}
