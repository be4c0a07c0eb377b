/** The kernel page allocator as a whole (kernel/memory/page_allocator.cpp): which blocks are live,
    growth by one region, and the encoding of blocks as addresses. */
module Kmem {
  import opened Arith
  import opened Common
  import opened Words
  import opened BuddySpec
  import opened Buddies
  import FL = FreeLevel

  /** A block: region, size level and index within the region. */
  datatype Block = Block(region: nat, level: nat, index: nat) {
    predicate Fits(count: nat) {
      region < count && level < 4 && index < Slots(level)
    }
    ghost predicate Owns(r: nat, p: nat) {
      region == r && level < 4 && p in Pages(level, index)
    }
  }

  // ---------------------------------------------------------------- addresses

  const REGION: nat := 0x8_0000

  function BlockSize(l: nat): (n: nat)
    requires l < 4
    ensures n > 0
  {
    4096 * Span(l)
  }

  /** The address alloc returns for a block; `base` is the address of the first region. */
  function Address(base: nat, b: Block): nat
    requires b.level < 4
  {
    base + b.region * REGION + b.index * BlockSize(b.level)
  }

  /** The block that kmem_free finds for an address: unsigned 32-bit subtraction, shift and mask. */
  function Decode(base: nat, ptr: nat, l: nat): Block
    requires l < 4
  {
    var rel := (ptr - base) % WORD;
    Block(rel / REGION, l, rel % REGION / BlockSize(l))
  }

  lemma OffsetInRegion(l: nat, i: nat)
    requires l < 4 && i < Slots(l)
    ensures i * BlockSize(l) + BlockSize(l) <= REGION
    ensures i * BlockSize(l) / BlockSize(l) == i && i * BlockSize(l) % BlockSize(l) == 0
    ensures i * BlockSize(l) == i * Span(l) * 4096
  {
    if l == 0 { assert BlockSize(l) == 4096; }
    else if l == 1 { assert BlockSize(l) == 8192; }
    else if l == 2 { assert BlockSize(l) == 16384; }
    else { assert BlockSize(l) == 32768; }
  }

  lemma Aligned(l: nat, base: nat, r: nat, i: nat)
    requires l < 4 && base % 32768 == 0
    ensures (base + r * REGION + i * BlockSize(l)) % BlockSize(l) == 0
  {
    var k := base / 32768 + 16 * r;
    var x := if l == 0 then 8 * k + i else if l == 1 then 4 * k + i else if l == 2 then 2 * k + i else k + i;
    assert base + r * REGION == 32768 * k;
    assert base + r * REGION + i * BlockSize(l) == x * BlockSize(l) by {
      if l == 0 {} else if l == 1 {} else if l == 2 {} else {}
    }
    MulDivMod(x, BlockSize(l));
  }

  /** Freeing finds the block that was allocated, and the address is aligned to the block size. */
  lemma AddressRoundTrip(base: nat, b: Block, count: nat)
    requires b.Fits(count) && base % 32768 == 0 && base + count * REGION <= WORD
    ensures Decode(base, Address(base, b), b.level) == b
    ensures Address(base, b) % BlockSize(b.level) == 0
    ensures base <= Address(base, b) && Address(base, b) + BlockSize(b.level) <= base + count * REGION
  {
    var size := BlockSize(b.level);
    var off := b.index * size;
    OffsetInRegion(b.level, b.index);
    Aligned(b.level, base, b.region, b.index);
    var rel := b.region * REGION + off;
    assert rel + size <= count * REGION;
    assert rel / REGION == b.region && rel % REGION == off;
  }

  /** Blocks that share no page share no byte. */
  lemma DisjointBytes(base: nat, b: Block, c: Block, count: nat)
    requires b.Fits(count) && c.Fits(count)
    requires b.region != c.region || Pages(b.level, b.index) !! Pages(c.level, c.index)
    ensures Address(base, b) + BlockSize(b.level) <= Address(base, c)
         || Address(base, c) + BlockSize(c.level) <= Address(base, b)
  {
    OffsetInRegion(b.level, b.index);
    OffsetInRegion(c.level, c.index);
    if b.region == c.region {
      DisjointSpans(b.level, b.index, c.level, c.index);
    }
  }

  /** The bytes of a block are those of its pages: from its address on, 4, 8, 16 or 32 kilobytes. */
  lemma BytesOfBlock(base: nat, b: Block, count: nat, r: nat, p: nat, a: nat)
    requires b.Fits(count) && r < count && p < PAGES
    requires base + r * 0x8_0000 + p * 4096 <= a < base + r * 0x8_0000 + (p + 1) * 4096
    ensures var size := if b.level == 0 then 0x1000 else if b.level == 1 then 0x2000
                        else if b.level == 2 then 0x4000 else 0x8000;
      b.Owns(r, p) <==> Address(base, b) <= a < Address(base, b) + size
  {
    OffsetInRegion(b.level, b.index);
    PageRange(b.level, b.index, p);
    if r < b.region {
      assert r * REGION + REGION <= b.region * REGION;
    } else if b.region < r {
      assert b.region * REGION + REGION <= r * REGION;
    }
  }

  lemma DisjointSpans(l: nat, i: nat, m: nat, j: nat)
    requires l < 4 && m < 4 && i < Slots(l) && j < Slots(m) && Pages(l, i) !! Pages(m, j)
    ensures i * Span(l) + Span(l) <= j * Span(m) || j * Span(m) + Span(m) <= i * Span(l)
  {
    var p, q := i * Span(l), j * Span(m);
    PageRange(l, i, p);
    PageRange(l, i, q);
    PageRange(m, j, p);
    PageRange(m, j, q);
  }

  lemma PageRange(l: nat, i: nat, p: nat)
    requires l < 4 && i < Slots(l)
    ensures p in Pages(l, i) <==> i * Span(l) <= p < i * Span(l) + Span(l)
  {
    if l == 0 { assert Span(l) == 1; }
    else if l == 1 { assert Span(l) == 2; }
    else if l == 2 { assert Span(l) == 4; }
    else { assert Span(l) == 8; }
  }

  // ---------------------------------------------------------------- sizing at boot

  /** The number of pages of a memory of `ram` bytes, in 32-bit arithmetic. */
  function PageCount(ram: nat): nat {
    (ram + 4095) % WORD / 4096
  }

  function RegionsFor(ram: nat): nat {
    (PageCount(ram) + 127) / 128
  }

  /** The end of the buddy array, rounded up to 32k: the address of the first region. */
  function ArrayEnd(start: nat, ram: nat): nat {
    (start + (RegionsFor(ram) + 63) / 64 * 4096 + 32767) / 32768 * 32768
  }

  /** The physical end of the kmem region: as much as there is memory, and at most 896 megabytes. */
  function RegionEnd(start: nat, ram: nat): nat
    requires KERNEL_BASE <= ArrayEnd(start, ram)
  {
    var end := (ArrayEnd(start, ram) - KERNEL_BASE + PageCount(ram) * 4096) % WORD;
    if end > 0x3800_0000 then 0x3800_0000 else end
  }

  /** The first region is aligned for every block size, there is a 64-byte buddy for each region that the
      memory has, and no more regions are counted than it takes to hold the pages. */
  lemma BootSizing(start: nat, ram: nat)
    ensures ArrayEnd(start, ram) % 32768 == 0
    ensures RegionsFor(ram) * 64 <= ArrayEnd(start, ram) - start < RegionsFor(ram) * 64 + 4096 + 32768
    ensures PageCount(ram) * 4096 <= RegionsFor(ram) * REGION < PageCount(ram) * 4096 + REGION
  {
    var need := (RegionsFor(ram) + 63) / 64 * 4096;
    assert RegionsFor(ram) * 64 <= need < RegionsFor(ram) * 64 + 4096;
    RoundUp(start + need);
  }

  /** The pages cover the memory exactly if rounding up to pages does not overflow. */
  lemma PagesCover(ram: nat)
    requires 0 < ram < WORD
    ensures ram <= PageCount(ram) * 4096 <==> ram + 4095 < WORD
    ensures ram + 4095 < WORD ==> PageCount(ram) * 4096 < ram + 4096
  {
  }

  /** Four gigabytes less a byte count as no page at all. */
  lemma PagesMissed()
    ensures PageCount(WORD - 1) == 0
  {
    PagesCover(WORD - 1);
  }

  lemma RoundUp(x: nat)
    ensures (x + 32767) / 32768 * 32768 % 32768 == 0
    ensures x <= (x + 32767) / 32768 * 32768 < x + 32768
  {
  }

  /** As long as the regions end before the kmem region does, there is a buddy for one more: the first of
      the two assertions of growth never fails. */
  lemma ArrayLasts(start: nat, ram: nat, count: nat)
    requires start % 4096 == 0 && KERNEL_BASE <= start < ArrayEnd(start, ram) && count > 0
    requires count == 1 || ArrayEnd(start, ram) - KERNEL_BASE + count * REGION < RegionEnd(start, ram)
    ensures count * 64 < ArrayEnd(start, ram) - start
  {
    BootSizing(start, ram);
    if count > 1 {
      var size := ArrayEnd(start, ram) - KERNEL_BASE;
      assert RegionEnd(start, ram) <= size + PageCount(ram) * 4096 by {
        WrapLess(size + PageCount(ram) * 4096);
      }
      assert count < RegionsFor(ram);
    } else {
      assert ArrayEnd(start, ram) % 4096 == 0 by { AlignedDown(ArrayEnd(start, ram)); }
    }
  }

  lemma WrapLess(x: nat)
    ensures x % WORD <= x
  {
  }

  lemma AlignedDown(x: nat)
    requires x % 32768 == 0
    ensures x % 4096 == 0
  {
    var k := x / 32768;
    assert x == (8 * k) * 4096;
    MulDivMod(8 * k, 4096);
  }

  // ---------------------------------------------------------------- live blocks

  ghost predicate Owned(live: set<Block>, r: nat, p: nat) {
    exists b :: b in live && b.Owns(r, p)
  }

  ghost predicate PageAgrees(live: set<Block>, free: seq<set<nat>>, r: nat, p: nat)
    requires r < |free|
  {
    p in free[r] <==> p < PAGES && !Owned(live, r, p)
  }

  /** A page is free exactly if no live block owns it, and live blocks share no page. */
  ghost predicate Ledger(live: set<Block>, free: seq<set<nat>>) {
    && (forall b :: b in live ==> b.Fits(|free|))
    && (forall r: nat, p: nat {:trigger PageAgrees(live, free, r, p)} :: r < |free| ==> PageAgrees(live, free, r, p))
    && (forall b, c :: b in live && c in live && b != c && b.region == c.region ==>
          Pages(b.level, b.index) !! Pages(c.level, c.index))
  }

  /** A free block becomes live: it was not live before and shares no page with a live block. */
  lemma LedgerTake(live: set<Block>, free: seq<set<nat>>, b: Block)
    requires Ledger(live, free) && b.Fits(|free|) && Pages(b.level, b.index) <= free[b.region]
    ensures b !in live
    ensures forall c :: c in live && c.region == b.region ==> Pages(b.level, b.index) !! Pages(c.level, c.index)
    ensures Ledger(live + {b}, free[b.region := free[b.region] - Pages(b.level, b.index)])
  {
    var live', free' := live + {b}, free[b.region := free[b.region] - Pages(b.level, b.index)];
    PagesNonempty(b.level, b.index);
    forall c, p | c in live && c.region == b.region && p in Pages(c.level, c.index)
      ensures p !in Pages(b.level, b.index)
    {
      assert c.Owns(b.region, p) && Owned(live, b.region, p) && PageAgrees(live, free, b.region, p);
    }
    forall r: nat, p: nat | r < |free'| ensures PageAgrees(live', free', r, p) {
      assert PageAgrees(live, free, r, p);
      assert Owned(live', r, p) <==> Owned(live, r, p) || b.Owns(r, p) by {
        if b.Owns(r, p) { assert b in live'; }
        if Owned(live, r, p) {
          var c :| c in live && c.Owns(r, p);
          assert c in live';
        }
      }
    }
  }

  /** A live block is given back. */
  lemma LedgerGive(live: set<Block>, free: seq<set<nat>>, b: Block)
    requires Ledger(live, free) && b in live
    ensures b.Fits(|free|) && Pages(b.level, b.index) !! free[b.region]
    ensures Ledger(live - {b}, free[b.region := free[b.region] + Pages(b.level, b.index)])
  {
    var live', free' := live - {b}, free[b.region := free[b.region] + Pages(b.level, b.index)];
    forall p | p in Pages(b.level, b.index) ensures p !in free[b.region] {
      assert b.Owns(b.region, p) && Owned(live, b.region, p) && PageAgrees(live, free, b.region, p);
    }
    forall r: nat, p: nat | r < |free'| ensures PageAgrees(live', free', r, p) {
      assert PageAgrees(live, free, r, p);
      assert Owned(live', r, p) <==> Owned(live, r, p) && !b.Owns(r, p) by {
        if Owned(live', r, p) {
          var c :| c in live' && c.Owns(r, p);
          assert c in live && p in Pages(c.level, c.index);
        }
      }
    }
  }

  lemma LedgerGrow(live: set<Block>, free: seq<set<nat>>)
    requires Ledger(live, free)
    ensures Ledger(live, free + [AllPages()])
  {
    var free' := free + [AllPages()];
    forall b | b in live ensures b.Fits(|free'|) { assert b.Fits(|free|); }
    forall r: nat, p: nat | r < |free'| ensures PageAgrees(live, free', r, p) {
      if r < |free| { assert PageAgrees(live, free, r, p); }
    }
  }

  /** The live blocks alone determine the free pages, and with them every bitmap: in whatever order
      blocks were taken and given back, the same live blocks leave the same bitmaps. */
  lemma LiveDeterminesFree(live: set<Block>, f: seq<set<nat>>, g: seq<set<nat>>)
    requires Ledger(live, f) && Ledger(live, g) && |f| == |g|
    ensures f == g
  {
    forall r: nat | r < |f| ensures f[r] == g[r] {
      forall p: nat ensures p in f[r] <==> p in g[r] {
        assert PageAgrees(live, f, r, p) && PageAgrees(live, g, r, p);
      }
    }
  }

  /** With nothing live, every region is one run of free pages, coalesced on every level. */
  lemma NothingLive(free: seq<set<nat>>, r: nat, l: nat, i: nat)
    requires Ledger({}, free) && r < |free| && l < 4 && i < Slots(l)
    ensures free[r] == AllPages() && i in Blocks(l, free[r])
  {
    forall p ensures p in free[r] <==> p in AllPages() {
      assert PageAgrees({}, free, r, p) && !Owned({}, r, p);
    }
  }

  lemma NoPageNoBlock(l: nat, free: set<nat>)
    requires l < 4 && Blocks(0, free) == {}
    ensures Blocks(l, free) == {}
  {
    forall i: nat | i < Slots(l) ensures i !in Blocks(l, free) {
      PagesNonempty(l, i);
      assert Pages(0, i * Span(l)) == {i * Span(l)};
      assert i * Span(l) !in Blocks(0, free);
    }
  }

  /** A fresh region keeps a free block of every size after one allocation. */
  lemma FreshIsRoomy(n: nat, i: nat)
    requires n < 4 && i < Slots(n)
    ensures Roomy(AllPages() - Pages(n, i))
  {
    var k: nat := if Ancestor(i, n, 3) == 0 then 1 else 0;
    forall l | 0 <= l < 4 ensures Blocks(l, AllPages() - Pages(n, i)) != {} {
      var c := k * Span(3 - l);
      assert c < Slots(l);
      forall p | p in Pages(l, c) ensures p in AllPages() - Pages(n, i) {
        assert p in Pages(0, p);
        AncestorOfPage(3, l, p);
        AncestorOfPage(3, n, p);
      }
      assert c in Blocks(l, AllPages() - Pages(n, i));
    }
  }

  // ---------------------------------------------------------------- the allocator object

  /** What boot relies on: the buddy array starts on a page of the kernel and is not empty, and the first
      region lies inside the address space. */
  predicate Bootable(start: nat, ram: nat) {
    start % 4096 == 0 && KERNEL_BASE <= start < ArrayEnd(start, ram) && ArrayEnd(start, ram) + REGION <= WORD
  }

  /** What buddy_alloc finds: a block, an empty list, or a region without a free block at the head of a
      damaged list.  The last fails an assertion for 4k and 8k, and is undefined for 16k and 32k. */
  datatype Search = Taken(block: Block) | ListEmpty | HeadBare

  /** What becomes of a request: a block, a failed assertion of growth, or the failure just described. */
  datatype Request = Allocated(ptr: nat) | NoRoom | Stuck

  class Kmem {
    const start: nat              // address of the buddy array
    const ram: nat                // bytes of memory
    const base: nat               // address of the first region
    const arraySize: nat          // bytes reserved for the buddy array
    const regionEnd: nat          // physical end of the kmem region
    const buddies: BuddyMaps
    var count: nat                // buddy_array_pos
    var physEnd: nat              // kmem_phys_end
    ghost var free: seq<set<nat>>
    ghost var live: set<Block>

    /** init_page_allocator: the sizes, and the first region, all of it free. */
    constructor (start: nat, ram: nat)
      requires Bootable(start, ram)
      ensures Valid() && count == 1 && live == {} && free == [AllPages()]
      ensures forall l :: 0 <= l < 4 ==> buddies.Links(l) == FL.Links(FL.Region(0), [FL.Head], [FL.Null])
      ensures fresh(buddies) && fresh(buddies.lv)
      ensures this.start == start && this.ram == ram
    {
      this.start, this.ram := start, ram;
      var end := ArrayEnd(start, ram);
      base, arraySize, regionEnd := end, end - start, RegionEnd(start, ram);
      var b := new BuddyMaps();
      buddies := b;
      count, physEnd, free, live := 1, end - KERNEL_BASE + REGION, [AllPages()], {};
      BootSizing(start, ram);
      new;
      b.Start();
      forall l: nat, r: nat | l < 4 && r < 1 ensures MapAgrees(l, r) { }
      assert [AllPages()] == [] + [AllPages()];
      LedgerGrow({}, []);
    }

    /** The sizes are those computed at boot, and every growth was checked against the end of kmem. */
    ghost predicate Sized()
      reads this
    {
      && Bootable(start, ram)
      && base == ArrayEnd(start, ram) && arraySize == base - start && regionEnd == RegionEnd(start, ram)
      && count > 0 && (count == 1 || physEnd < regionEnd)
    }

    ghost predicate MapAgrees(l: nat, r: nat)
      reads this, buddies.lv
    {
      r < |free| && l < 4 && buddies.Map(l, r) == Blocks(l, free[r])
    }

    /** The bitmaps are those of the free pages, and the free pages those no live block owns. */
    ghost predicate Core()
      reads this, buddies.lv
    {
      && buddies.Levels(count) && |free| == count
      && (forall l: nat, r: nat {:trigger MapAgrees(l, r)} :: l < 4 && r < count ==> MapAgrees(l, r))
      && Ledger(live, free)
      && base % 32768 == 0 && KERNEL_BASE <= base && base + count * REGION <= WORD
      && physEnd + KERNEL_BASE == base + count * REGION && Sized()
    }

    ghost predicate Valid()
      reads this, buddies.lv
    {
      Core() && buddies.Lists()
    }

    ghost function First(l: nat): FL.Ptr
      requires l < |buddies.lv|
      reads buddies.lv
    {
      buddies.lv[l].first
    }

    /** Block `b` has become live, and its pages, which were free, are no longer. */
    ghost predicate Served(b: Block, wasLive: set<Block>, wasFree: seq<set<nat>>)
      reads this, buddies.lv
    {
      && Core() && count == |wasFree| && b.Fits(count)
      && b !in wasLive && live == wasLive + {b}
      && Pages(b.level, b.index) <= wasFree[b.region]
      && free == wasFree[b.region := wasFree[b.region] - Pages(b.level, b.index)]
    }

    /** It shares no page with a block that was live before. */
    lemma ServedApart(b: Block, wasLive: set<Block>, wasFree: seq<set<nat>>)
      requires Served(b, wasLive, wasFree)
      ensures forall c :: c in wasLive && c.region == b.region ==> Pages(c.level, c.index) !! Pages(b.level, b.index)
    {
    }

    /** The list of level `n` starts at a region that has no free block of that size. */
    ghost predicate Bare(n: nat)
      requires n < |buddies.lv|
      reads buddies.lv
    {
      First(n).Region? && buddies.Map(n, First(n).index) == {}
    }

    /** A well-formed list is empty exactly if no region has a free block of that size, and it starts at a
        region that has one. */
    lemma EmptyList(l: nat)
      requires Core() && l < 4 && buddies.ListOk(l)
      ensures !Bare(l)
      ensures First(l) == FL.Null <==> forall r :: 0 <= r < count ==> Blocks(l, free[r]) == {}
      ensures forall r: nat :: r < count && Blocks(l, free[r]) == {} ==>
                buddies.Links(l).Ok(count) && buddies.Links(l).prev[r] == FL.Null
    {
      assert buddies.LevelOk(l, count);
      buddies.lv[l].ValidHead();
      forall r: nat | r < count ensures buddies.lv[l].maps[r] == Blocks(l, free[r]) { assert MapAgrees(l, r); }
    }

    /** A 4k request finds nothing only if all four lists are empty. */
    lemma EmptyLists(l: nat)
      requires Core() && l < 4 && buddies.ListOk(0) && buddies.ListOk(l) && First(0) == FL.Null
      ensures First(l) == FL.Null
    {
      EmptyList(0);
      EmptyList(l);
      forall r | 0 <= r < count ensures Blocks(l, free[r]) == {} {
        assert Blocks(0, free[r]) == {};
        NoPageNoBlock(l, free[r]);
      }
    }

    /** buddy_alloc: takes the lowest free block of the region at the head of the list, whatever the lists
        look like. */
    method BuddyAlloc(n: nat) returns (s: Search)
      requires Core() && n < 4
      modifies this`free, this`live, buddies.lv
      ensures Core()
      ensures s == ListEmpty <==> old(First(n)) == FL.Null
      ensures s == HeadBare <==> old(Bare(n))
      ensures !s.Taken? ==> live == old(live) && free == old(free) && unchanged(buddies.lv)
      ensures s.Taken? ==>
                && Served(s.block, old(live), old(free)) && s.block.level == n
                && old(First(n)) == FL.Region(s.block.region)
                && forall i :: i in Blocks(n, old(free)[s.block.region]) ==> s.block.index <= i
      ensures s.Taken? ==>
                var r := s.block.region; Thinning(r, old(free)[r], old(buddies.Shapes()), free[r], buddies.Shapes())
    {
      assert buddies.LevelOk(n, count);
      var head, lowest := buddies.lv[n].FirstFree();
      if head == None { return ListEmpty; }
      if lowest == None { return HeadBare; }
      assert MapAgrees(n, head.value);
      TakeBlock(Block(head.value, n, lowest.value));
      return Taken(Block(head.value, n, lowest.value));
    }

    /** alloc: takes a block that is free. */
    method TakeBlock(b: Block)
      requires Core() && b.Fits(count) && b.index in Blocks(b.level, free[b.region])
      modifies this`free, this`live, buddies.lv
      ensures Served(b, old(live), old(free))
      ensures Thinning(b.region, old(free)[b.region], old(buddies.Shapes()), free[b.region], buddies.Shapes())
    {
      forall m | 0 <= m < 4 ensures buddies.Map(m, b.region) == Blocks(m, free[b.region]) {
        assert MapAgrees(m, b.region);
      }
      LedgerTake(live, free, b);
      buddies.Take(b.level, b.region, b.index, count, free[b.region]);
      free := free[b.region := free[b.region] - Pages(b.level, b.index)];
      live := live + {b};
      forall l: nat, x: nat | l < 4 && x < count ensures MapAgrees(l, x) {
        assert old(MapAgrees(l, x));
      }
    }

    /** The kmem region has room for one more region. */
    predicate CanGrow()
      reads this
    {
      physEnd + REGION < regionEnd
    }

    /** How far that goes: the region stays below 896 megabytes and below the end of the memory, as far as the
        sum of it does not wrap around. */
    lemma RoomToGrow()
      requires Core()
      ensures var end := base - KERNEL_BASE + (count + 1) * REGION;
        CanGrow() <==> end < 896 * 0x10_0000 && end < (base - KERNEL_BASE + 4096 * PageCount(ram)) % WORD
    {
    }

    /** There is an unused buddy, and the end of kmem is at most 896 megabytes. */
    lemma BuddyLeft()
      requires Core()
      ensures count * 64 < arraySize && regionEnd <= 0x3800_0000
    {
      ArrayLasts(start, ram, count);
    }

    /** kmem_buddy_new: grows by one region, unless that would exceed the kmem region.  The other
        assertion, that the buddy array is not full, never fails. */
    method BuddyNew() returns (ok: bool)
      requires Core()
      modifies this, buddies.lv
      ensures ok <==> old(CanGrow())
      ensures var end := old(base - KERNEL_BASE + (count + 1) * REGION);
        ok <==> end < 896 * 0x10_0000 && end < (base - KERNEL_BASE + 4096 * PageCount(ram)) % WORD
      ensures ok ==> Core() && count == old(count) + 1 && live == old(live) && free == old(free) + [AllPages()]
      ensures ok ==> Growing(old(buddies.Shapes()), buddies.Shapes())
    {
      BuddyLeft();
      RoomToGrow();
      assert count * 64 < arraySize;
      buddies.Grow(count);
      physEnd := physEnd + REGION;
      count := count + 1;
      if physEnd >= regionEnd { return false; }
      free := free + [AllPages()];
      LedgerGrow(live, old(free));
      forall l: nat, r: nat | l < 4 && r < count ensures MapAgrees(l, r) {
        if r < old(count) { assert old(MapAgrees(l, r)); }
      }
      return true;
    }

    /** Whether an allocation may run without damaging a list: its own list has a region, or the 4k
        list, and with it every list, is empty. */
    ghost predicate GrowsSafely(n: nat)
      requires n < |buddies.lv| == 4
      reads buddies.lv
    {
      First(n) != FL.Null || First(0) == FL.Null
    }

    /** The free pages an allocation chooses from: a list that is empty makes the allocator grow. */
    static ghost function Before(first: FL.Ptr, free: seq<set<nat>>): seq<set<nat>> {
      if first == FL.Null then free + [AllPages()] else free
    }

    /** kmem_alloc_4k to kmem_alloc_32k, from any state that a sequence of requests and frees leads to.  The
        request is stuck exactly if its list starts at a region without a free block, which no well-formed
        list does.  Otherwise, and if there is room, the block was free and is live now.  Well-formed lists
        stay so exactly if growth was safe, which for 4k requests it always is. */
    method Alloc(n: nat) returns (a: Request)
      requires Core() && n < 4
      modifies this, buddies.lv
      ensures var end := old(base - KERNEL_BASE + (count + 1) * REGION);
        a == NoRoom <==>
          && old(First(n)) == FL.Null
          && !(end < 896 * 0x10_0000 && end < (base - KERNEL_BASE + 4096 * PageCount(ram)) % WORD)
      ensures a == Stuck <==> old(Bare(n))
      ensures a == Stuck ==> Core() && live == old(live) && free == old(free) && unchanged(buddies.lv)
      ensures old(buddies.Lists()) ==> a != Stuck
      ensures a.Allocated? ==>
                var b := Decode(base, a.ptr, n);
                && a.ptr == Address(base, b) && Served(b, old(live), Before(old(First(n)), old(free)))
                && (forall c :: c in old(live) && c.region == b.region ==>
                      Pages(c.level, c.index) !! Pages(b.level, b.index))
                && old(First(n)) == (if b.region == old(count) then FL.Null else FL.Region(b.region))
      ensures a.Allocated? && old(buddies.Lists()) ==>
                if old(GrowsSafely(n)) then buddies.Lists() else buddies.Broken(0)
      ensures a.Allocated? ==>
                if old(First(n)) == FL.Null then Growing(old(buddies.Shapes()), buddies.Shapes())
                else var r := Decode(base, a.ptr, n).region;
                  Thinning(r, old(free)[r], old(buddies.Shapes()), free[r], buddies.Shapes())
    {
      RoomToGrow();
      var s := Serve(n);
      if !s.Taken? { return if s == HeadBare then Stuck else NoRoom; }
      AddressRoundTrip(base, s.block, count);
      ServedApart(s.block, old(live), Before(old(First(n)), old(free)));
      return Allocated(Address(base, s.block));
    }

    /** The fast path of an allocation, and the slow one if the list is empty. */
    method Serve(n: nat) returns (s: Search)
      requires Core() && n < 4
      modifies this, buddies.lv
      ensures s == ListEmpty <==> old(First(n)) == FL.Null && !old(CanGrow())
      ensures s == HeadBare <==> old(Bare(n))
      ensures s == HeadBare ==> Core() && live == old(live) && free == old(free) && unchanged(buddies.lv)
      ensures old(buddies.Lists()) ==> s != HeadBare
      ensures s.Taken? ==>
                && Served(s.block, old(live), Before(old(First(n)), old(free))) && s.block.level == n
                && old(First(n)) == (if s.block.region == old(count) then FL.Null else FL.Region(s.block.region))
      ensures s.Taken? && old(buddies.Lists()) ==>
                if old(GrowsSafely(n)) then buddies.Lists() else buddies.Broken(0)
      ensures s.Taken? ==>
                if old(First(n)) == FL.Null then Growing(old(buddies.Shapes()), buddies.Shapes())
                else var r := s.block.region;
                  Thinning(r, old(free)[r], old(buddies.Shapes()), free[r], buddies.Shapes())
    {
      ghost var was := buddies.Shapes();
      if buddies.Lists() {
        assert buddies.ListOk(n);
        EmptyList(n);
        SafeGrowth();
      }
      assert was[0] == buddies.ShapeOf(0);
      s := BuddyAlloc(n);
      if s == ListEmpty {
        s := GrowAndAlloc(n);
        if s.Taken? && old(buddies.Lists()) { ListsAfterGrowth(was); }
      } else if s.Taken? && old(buddies.Lists()) {
        StillLists(old(buddies.Shapes()));
      }
    }

    /** The lists are well formed if each of them is. */
    lemma StillLists(s: seq<Shape>)
      requires |s| == 4 && forall m :: 0 <= m < 4 ==> s[m].ok ==> buddies.Shapes()[m].ok
      requires forall m :: 0 <= m < 4 ==> s[m].ok
      ensures buddies.Lists()
    {
      forall m | 0 <= m < 4 ensures buddies.ListOk(m) { assert buddies.Shapes()[m] == buddies.ShapeOf(m); }
    }

    /** The slow path of an allocation whose list is empty. */
    method GrowAndAlloc(n: nat) returns (s: Search)
      requires Core() && n < 4 && First(n) == FL.Null
      modifies this, buddies.lv
      ensures if old(CanGrow()) then s.Taken? else s == ListEmpty
      ensures s.Taken? ==>
                && Served(s.block, old(live), old(free) + [AllPages()])
                && s.block.level == n && s.block.region == old(count)
      ensures s.Taken? ==> Growing(old(buddies.Shapes()), buddies.Shapes())
    {
      ghost var was := buddies.Shapes();
      buddies.LinksOk(n, count);
      var ok := BuddyNew();
      if !ok { return ListEmpty; }
      assert was[n].links == old(buddies.Links(n)) && buddies.Shapes()[n].links.first == FL.Region(old(count));
      ghost var grown := buddies.Shapes();
      s := AllocFresh(n);
      assert forall m :: 0 <= m < 4 ==> Grown(was[m], buddies.Shapes()[m]);
    }

    /** Growth keeps all lists well formed, or damages that of 4k. */
    lemma ListsAfterGrowth(was: seq<Shape>)
      requires Growing(was, buddies.Shapes()) && forall l :: 0 <= l < 4 ==> was[l].ok
      requires was[0].links.first == FL.Null ==> forall l :: 0 <= l < 4 ==> was[l].links.first == FL.Null
      ensures if was[0].links.first == FL.Null then buddies.Lists() else buddies.Broken(0)
    {
      assert buddies.Shapes()[0] == buddies.ShapeOf(0);
      if was[0].links.first == FL.Null { StillLists(was); }
    }

    /** If the 4k list is empty then all lists are, and growth is safe for each. */
    lemma SafeGrowth()
      requires Valid()
      ensures forall l :: 0 <= l < 4 ==> buddies.Shapes()[l].ok
      ensures First(0) == FL.Null ==> forall l :: 0 <= l < 4 ==> buddies.Shapes()[l].links.first == FL.Null
    {
      forall l | 0 <= l < 4
        ensures buddies.Shapes()[l].ok && (First(0) == FL.Null ==> buddies.Shapes()[l].links.first == FL.Null)
      {
        assert buddies.ListOk(0) && buddies.ListOk(l) && buddies.Shapes()[l] == buddies.ShapeOf(l);
        if First(0) == FL.Null { EmptyLists(l); }
      }
    }

    /** An allocation out of a region that is all free touches no list. */
    method AllocFresh(n: nat) returns (s: Search)
      requires Core() && n < 4 && First(n) == FL.Region(count - 1) && free[count - 1] == AllPages()
      modifies this`free, this`live, buddies.lv
      ensures s.Taken? && s.block.level == n && s.block.region == count - 1
      ensures Served(s.block, old(live), old(free))
      ensures forall m :: 0 <= m < 4 ==>
                && buddies.Shapes()[m].links == old(buddies.Shapes())[m].links
                && (old(buddies.Shapes())[m].ok ==> buddies.Shapes()[m].ok)
    {
      AllBlocks(n);
      assert MapAgrees(n, count - 1) && 0 in Blocks(n, AllPages());
      s := BuddyAlloc(n);
      FreshIsRoomy(n, s.block.index);
    }

    /** kmem_free_4k to kmem_free_32k of a live block, whatever the lists look like. */
    method Free(n: nat, ptr: nat)
      requires Core() && Live(n, ptr)
      modifies this`free, this`live, buddies.lv
      ensures Core()
      ensures live == old(live) - {Decode(base, ptr, n)}
      ensures var b := Decode(base, ptr, n);
        && b.region < count
        && free == old(free)[b.region := old(free)[b.region] + Pages(n, b.index)]
      ensures var r := Decode(base, ptr, n).region;
        Fattening(r, old(free)[r], old(buddies.Shapes()), free[r], buddies.Shapes())
    {
      var b := Decode(base, ptr, n);
      LedgerGive(live, free, b);
      forall m | 0 <= m < 4 ensures buddies.Map(m, b.region) == Blocks(m, free[b.region]) {
        assert MapAgrees(m, b.region);
      }
      buddies.Give(n, b.region, b.index, count, free[b.region]);
      free := free[b.region := free[b.region] + Pages(n, b.index)];
      live := live - {b};
      forall l: nat, r: nat | l < 4 && r < count ensures MapAgrees(l, r) {
        assert old(MapAgrees(l, r));
      }
    }

    /** Freeing a block right after its allocation restores every bitmap, whatever the lists look like.  If the
        request made the allocator grow, one region more is all that is left of it. */
    method AllocThenFree(n: nat) returns (ok: bool)
      requires Core() && n < 4
      modifies this, buddies.lv
      ensures ok <==> !old(Bare(n)) && (old(First(n)) != FL.Null || old(CanGrow()))
      ensures ok ==> Core() && live == old(live) && free == Before(old(First(n)), old(free))
      ensures ok ==> forall l: nat, r: nat :: l < 4 && r < old(count) ==> buddies.Map(l, r) == old(buddies.Map(l, r))
    {
      var a := Alloc(n);
      if !a.Allocated? { return false; }
      ghost var b := Decode(base, a.ptr, n);
      ghost var f, p := Before(old(First(n)), old(free)), Pages(n, b.index);
      Free(n, a.ptr);
      assert (f[b.region] - p) + p == f[b.region];
      assert free == f;
      forall l: nat, r: nat | l < 4 && r < old(count) ensures buddies.Map(l, r) == old(buddies.Map(l, r)) {
        assert MapAgrees(l, r) && old(MapAgrees(l, r));
      }
      return true;
    }

    // ---------------------------------------------------------------- what the bitmaps say

    /** A 4k bit is set exactly if no live block owns the page. */
    lemma PageBit(r: nat, p: nat)
      requires Core() && r < count && p < PAGES
      ensures Has(buddies.Bitmap(0, r), p) <==> !Owned(live, r, p)
    {
      buddies.BitmapOk(0, r, count);
      assert MapAgrees(0, r) && PageAgrees(live, free, r, p);
      assert Pages(0, p) == {p};
      assert Has(buddies.Bitmap(0, r), p) <==> p in Blocks(0, free[r]);
    }

    /** Every bit above is the AND of the two bits below it. */
    lemma ParentBit(l: nat, r: nat, i: nat)
      requires Core() && r < count && 0 < l < 4 && i < Slots(l)
      ensures Has(buddies.Bitmap(l, r), i) <==>
                Has(buddies.Bitmap(l - 1, r), 2 * i) && Has(buddies.Bitmap(l - 1, r), 2 * i + 1)
    {
      buddies.BitmapOk(l, r, count);
      buddies.BitmapOk(l - 1, r, count);
      assert MapAgrees(l, r) && MapAgrees(l - 1, r);
      AndOfChildren(l, i, free[r]);
    }

    /** With nothing live every word is as in a new region: everything has coalesced. */
    lemma FullyCoalesced(l: nat, r: nat)
      requires Core() && live == {} && l < 4 && r < count
      ensures buddies.Bitmap(l, r) == Full(l)
    {
      buddies.BitmapOk(l, r, count);
      assert MapAgrees(l, r);
      NothingLive(free, r, l, 0);
      FullBits(l);
      BitmapOfSet(buddies.Bitmap(l, r), Full(l));
    }

    /** The address of a live block of level `n`. */
    ghost predicate Live(n: nat, ptr: nat)
      reads this
    {
      n < 4 && Decode(base, ptr, n) in live && ptr == Address(base, Decode(base, ptr, n))
    }

    method FreeTwo(n: nat, p: nat, m: nat, q: nat)
      requires Core() && Live(n, p) && Live(m, q) && Decode(base, p, n) != Decode(base, q, m)
      modifies this`free, this`live, buddies.lv
      ensures Core() && live == old(live) - {Decode(base, p, n), Decode(base, q, m)}
    {
      Free(n, p);
      Free(m, q);
    }
  }

  /** The live blocks alone determine every word of every bitmap. */
  lemma SameBitmaps(k: Kmem, j: Kmem, l: nat, r: nat)
    requires k.Core() && j.Core() && k.live == j.live && k.count == j.count && l < 4 && r < k.count
    ensures k.buddies.Bitmap(l, r) == j.buddies.Bitmap(l, r)
  {
    LiveDeterminesFree(k.live, k.free, j.free);
    k.buddies.BitmapOk(l, r, k.count);
    j.buddies.BitmapOk(l, r, j.count);
    assert k.MapAgrees(l, r) && j.MapAgrees(l, r);
    BitmapOfSet(k.buddies.Bitmap(l, r), j.buddies.Bitmap(l, r));
  }

  /** Frees commute: two allocators with the same live blocks, of which one frees `p` and then `q` and the
      other `q` and then `p`, end up with the same words in all bitmaps. */
  method FreesCommute(k: Kmem, j: Kmem, n: nat, p: nat, m: nat, q: nat)
    requires k != j && forall x :: x in k.buddies.lv ==> x !in j.buddies.lv
    requires k.Core() && j.Core() && k.live == j.live && k.count == j.count && k.base == j.base
    requires k.Live(n, p) && k.Live(m, q) && Decode(k.base, p, n) != Decode(k.base, q, m)
    modifies k`free, k`live, k.buddies.lv, j`free, j`live, j.buddies.lv
    ensures k.Core() && j.Core() && k.live == j.live
    ensures forall l: nat, r: nat :: l < 4 && r < k.count ==> k.buddies.Bitmap(l, r) == j.buddies.Bitmap(l, r)
  {
    assert forall x :: x in j.buddies.lv ==> x !in k.buddies.lv;
    k.FreeTwo(n, p, m, q);
    assert forall x :: x in j.buddies.lv ==> unchanged(x);
    Untouched(j);
    label half:
    j.FreeTwo(m, q, n, p);
    assert forall x :: x in k.buddies.lv ==> unchanged@half(x);
    Untouched@half(k);
    SameWords(k, j);
  }

  /** An allocator stays as it is while another one works. */
  twostate lemma Untouched(k: Kmem)
    requires old(k.Core()) && unchanged(k) && forall x :: x in k.buddies.lv ==> unchanged(x)
    ensures k.Core()
  {
    var b := k.buddies;
    forall l | 0 <= l < 4 ensures unchanged(b.lv[l]) && b.LevelOk(l, k.count) {
      assert b.lv[l] in b.lv;
      assert old(b.LevelOk(l, k.count));
    }
    forall l: nat, r: nat | l < 4 && r < k.count ensures k.MapAgrees(l, r) {
      assert old(k.MapAgrees(l, r));
    }
  }

  lemma SameWords(k: Kmem, j: Kmem)
    requires k.Core() && j.Core() && k.live == j.live && k.count == j.count
    ensures forall l: nat, r: nat :: l < 4 && r < k.count ==> k.buddies.Bitmap(l, r) == j.buddies.Bitmap(l, r)
  {
    forall l: nat, r: nat | l < 4 && r < k.count ensures k.buddies.Bitmap(l, r) == j.buddies.Bitmap(l, r) {
      SameBitmaps(k, j, l, r);
    }
  }
}
