/** Splitting and coalescing in the buddy allocator (kernel/memory/page_allocator.cpp): what `alloc`,
    `free_up` and `free_down` do to the bitmaps and lists of the four block sizes. */
module Buddies {
  import opened Common
  import opened Words
  import opened BuddySpec
  import FL = FreeLevel

  lemma BelowChildren(n: nat, i: nat, l: nat)
    requires l < n < 4 && i < Slots(n)
    ensures l + 1 == n ==> Below(n, i, l) == {2 * i, 2 * i + 1}
    ensures l + 1 < n ==> Below(n, i, l) == Below(n - 1, 2 * i, l) + Below(n - 1, 2 * i + 1, l)
  {
    forall c: nat | c < Slots(l) && l + 1 < n
      ensures Ancestor(c, l, n) == Ancestor(c, l, n - 1) / 2
    {
      if n == 2 { assert c / 4 == c / 2 / 2; }
      else if l == 0 { assert c / 8 == c / 4 / 2; }
      else { assert c / 4 == c / 2 / 2; }
    }
  }

  /** The blocks of level `l` inside block `i` of level `n` are consecutive. */
  lemma BelowRange(n: nat, i: nat, l: nat, c: nat)
    requires l <= n < 4 && i < Slots(n)
    ensures (i + 1) * Span(n - l) <= Slots(l)
    ensures c in Below(n, i, l) <==> i * Span(n - l) <= c < (i + 1) * Span(n - l)
  {
  }

  lemma BelowNonempty(n: nat, i: nat, l: nat)
    requires l <= n < 4 && i < Slots(n)
    ensures Below(n, i, l) != {}
  {
    BelowRange(n, i, l, i * Span(n - l));
  }

  /** The blocks inside a block are its halves and those inside them. */
  lemma BelowHalves(l: nat, i: nat)
    requires 0 < l < 4 && i < Slots(l)
    ensures Below(l, i, l - 1) == {2 * i, 2 * i + 1}
    ensures forall m {:trigger Below(l, i, m)} :: 0 <= m < l - 1 ==>
              Below(l, i, m) == Below(l - 1, 2 * i, m) + Below(l - 1, 2 * i + 1, m) && Below(l - 1, 2 * i, m) != {}
  {
    BelowChildren(l, i, l - 1);
    forall m | 0 <= m < l - 1
      ensures Below(l, i, m) == Below(l - 1, 2 * i, m) + Below(l - 1, 2 * i + 1, m) && Below(l - 1, 2 * i, m) != {}
    {
      BelowChildren(l, i, m);
      BelowNonempty(l - 1, 2 * i, m);
    }
  }

  /** Every level has a free block. */
  ghost predicate Roomy(free: set<nat>) {
    forall l :: 0 <= l < 4 ==> Blocks(l, free) != {}
  }

  /** The bitmap of a new region on level `l`: the structure is filled with 0xFF bytes. */
  function Full(l: nat): seq<nat>
    requires l < 4
  {
    if l == 0 then [One(32) - 1, One(32) - 1, One(32) - 1, One(32) - 1]
    else if l == 1 then [One(32) - 1, One(32) - 1]
    else if l == 2 then [One(32) - 1]
    else [One(16) - 1]
  }

  function Size(l: nat): nat
    requires l < 4
  {
    if l == 0 then 4 else if l == 1 then 2 else 1
  }

  lemma FullWord(l: nat, k: nat)
    requires l < 4 && k < |Full(l)|
    ensures Full(l)[k] == One(if l == 3 then 16 else 32) - 1
  {
  }

  lemma AllBlocks(l: nat)
    requires l < 4
    ensures forall i: nat :: i in Blocks(l, AllPages()) <==> i < Slots(l)
  {
    forall i: nat | i < Slots(l) ensures Pages(l, i) <= AllPages() {
      forall p | p in Pages(l, i) ensures p in AllPages() { assert p in Pages(0, p); }
    }
  }

  lemma FullBits(l: nat)
    requires l < 4
    ensures Packed(Full(l)) && |Full(l)| == Size(l)
    ensures forall i: nat :: i in Bits(Full(l)) <==> i < Slots(l)
    ensures Bits(Full(l)) == Blocks(l, AllPages())
  {
    var width := if l == 3 then 16 else 32;
    forall k: nat, i: nat | k < |Full(l)| ensures Bit(Full(l)[k], i) <==> i < width {
      FullWord(l, k);
      MaskBit(width, i);
    }
    forall i: nat ensures Has(Full(l), i) <==> i < Slots(l) {
      if i / 32 < |Full(l)| { assert Bit(Full(l)[i / 32], i % 32) <==> i % 32 < width; }
    }
    AllBlocks(l);
  }

  // ---------------------------------------------------------------- how the lists change

  /** The pointers of one level, and whether they are a well-formed list. */
  datatype Shape = Shape(links: FL.Links, ok: bool)

  /** How taking blocks of region `r` affects a level, from its bitmap and pointers before to those after:
      the region is unlinked if its last bit goes, and the list is not touched while it has one. */
  ghost predicate Thinned(r: nat, m: set<nat>, was: FL.Links, m': set<nat>, links: FL.Links) {
    && (m' != {} ==> links == was)
    && (m != {} && m' == {} ==> links == was.Unlinked(r))
  }

  /** How giving blocks back does: a region that gets its first bit is linked in front, unless it has a
      pointer left from earlier. */
  ghost predicate Fattened(r: nat, m: set<nat>, was: FL.Links, m': set<nat>, links: FL.Links) {
    && (m != {} ==> links == was)
    && (m == {} && m' != {} && r < |was.prev| && was.prev[r] == FL.Null ==> links == was.Pushed(r))
  }

  /** All levels, while the free pages of region `r` go from `free` to `free'` by an allocation. */
  ghost predicate Thinning(r: nat, free: set<nat>, s: seq<Shape>, free': set<nat>, s': seq<Shape>) {
    && |s| == |s'| == 4
    && forall m {:trigger s'[m]} :: 0 <= m < 4 ==>
         && (s[m].ok ==> s'[m].ok)
         && Thinned(r, Blocks(m, free), s[m].links, Blocks(m, free'), s'[m].links)
  }

  /** All levels, while a block is given back. */
  ghost predicate Fattening(r: nat, free: set<nat>, s: seq<Shape>, free': set<nat>, s': seq<Shape>) {
    && |s| == |s'| == 4
    && forall m {:trigger s'[m]} :: 0 <= m < 4 ==>
         && (s[m].ok ==> s'[m].ok)
         && Fattened(r, Blocks(m, free), s[m].links, Blocks(m, free'), s'[m].links)
  }

  /** One level when a region is added: a well-formed list stays so exactly if it was empty. */
  ghost predicate Grown(s: Shape, s': Shape) {
    && s'.links == s.links.Grown()
    && (s.ok ==> if s.links.first == FL.Null then s'.ok else FL.NoList(s'.links))
  }

  ghost predicate Growing(s: seq<Shape>, s': seq<Shape>) {
    |s| == |s'| == 4 && forall m {:trigger s'[m]} :: 0 <= m < 4 ==> Grown(s[m], s'[m])
  }

  class BuddyMaps {
    const lv: seq<FL.FreeLevel>

    constructor ()
      ensures Levels(0) && Lists() && fresh(lv)
      ensures forall l :: 0 <= l < 4 ==> Links(l) == FL.Links(FL.Null, [], [])
    {
      var s: seq<FL.FreeLevel> := [];
      for l := 0 to 4
        invariant |s| == l && fresh(s)
        invariant forall m :: 0 <= m < l ==> NewLevel(s[m], m)
        invariant forall m, k :: 0 <= m < k < l ==> s[m] != s[k]
      {
        var f := new FL.FreeLevel(Slots(l), Size(l));
        s := s + [f];
      }
      lv := s;
      new;
      forall l | 0 <= l < 4 ensures LevelOk(l, 0) && ListOk(l) { assert NewLevel(lv[l], l); }
    }

    static ghost predicate NewLevel(f: FL.FreeLevel, l: nat)
      requires l < 4
      reads f
    {
      f.Valid() && f.slots == Slots(l) && f.size == Size(l) && f.maps == [] && f.Ptrs() == FL.Links(FL.Null, [], [])
    }

    /** No order of the regions makes the list of level `l` a doubly linked list. */
    ghost predicate Broken(l: nat)
      reads if l < |lv| then {lv[l]} else {}
    {
      FL.NoList(Links(l))
    }

    /** Level `l` after growth, given its shape and its bitmaps before. */
    ghost predicate LevelGrown(l: nat, count: nat, was: Shape, maps: seq<set<nat>>)
      requires l < |lv| == 4
      reads if l < |lv| then {lv[l]} else {}
    {
      LevelOk(l, count + 1) && Grown(was, ShapeOf(l)) && lv[l].maps == maps + [Blocks(l, AllPages())]
    }

    method GrowLevel(l: nat, ghost count: nat)
      requires l < |lv| == 4 && LevelOk(l, count)
      modifies lv[l]
      ensures LevelGrown(l, count, old(ShapeOf(l)), old(lv[l].maps))
    {
      FullBits(l);
      lv[l].Grow(Full(l));
    }

    /** kmem_buddy_new_no_alloc: a new region, all free, is put in front of each of the lists.  Only
        lists that were empty stay well formed. */
    method Grow(ghost count: nat)
      requires Levels(count)
      modifies lv
      ensures Levels(count + 1)
      ensures Growing(old(Shapes()), Shapes())
      ensures forall l, r :: 0 <= l < 4 && 0 <= r <= count ==>
                Map(l, r) == if r == count then Blocks(l, AllPages()) else old(Map(l, r))
    {
      for l := 0 to 4
        invariant forall m :: l <= m < 4 ==> unchanged(lv[m])
        invariant forall m {:trigger LevelGrown(m, count, old(ShapeOf(m)), old(lv[m].maps))} :: 0 <= m < l ==>
                    LevelGrown(m, count, old(ShapeOf(m)), old(lv[m].maps))
      {
        assert old(LevelOk(l, count));
        GrowLevel(l, count);
      }
      ghost var c := count + 1;
      forall l | 0 <= l < 4 ensures LevelOk(l, c) && Grown(old(ShapeOf(l)), ShapeOf(l)) {
        assert LevelGrown(l, count, old(ShapeOf(l)), old(lv[l].maps));
      }
      forall l, r | 0 <= l < 4 && 0 <= r <= count
        ensures Map(l, r) == if r == count then Blocks(l, AllPages()) else old(Map(l, r))
      {
        assert LevelGrown(l, count, old(ShapeOf(l)), old(lv[l].maps)) && old(LevelOk(l, count));
      }
      ghost var s, s' := old(Shapes()), Shapes();
      forall m | 0 <= m < 4 ensures Grown(s[m], s'[m]) {
        assert s[m] == old(ShapeOf(m)) && s'[m] == ShapeOf(m);
      }
      assert Growing(s, s');
    }

    /** The first region. */
    method Start()
      requires Levels(0) && Lists() && forall l :: 0 <= l < 4 ==> Links(l) == FL.Links(FL.Null, [], [])
      modifies lv
      ensures Levels(1) && Lists()
      ensures forall l :: 0 <= l < 4 ==> Map(l, 0) == Blocks(l, AllPages())
      ensures forall l :: 0 <= l < 4 ==> Links(l) == FL.Links(FL.Region(0), [FL.Head], [FL.Null])
    {
      ghost var s := Shapes();
      assert forall l :: 0 <= l < 4 ==> s[l] == Shape(FL.Links(FL.Null, [], []), true) by {
        forall l | 0 <= l < 4 ensures ListOk(l) { }
      }
      Grow(0);
      ghost var s' := Shapes();
      forall l | 0 <= l < 4 ensures ListOk(l) && Links(l) == FL.Links(FL.Region(0), [FL.Head], [FL.Null]) {
        assert Grown(s[l], s'[l]) && s'[l] == ShapeOf(l);
      }
    }

    ghost predicate LevelOk(l: nat, count: nat)
      requires l < |lv| == 4
      reads if l < |lv| then {lv[l]} else {}
    {
      lv[l].Sized() && lv[l].slots == Slots(l) && lv[l].size == Size(l) && |lv[l].maps| == count
    }

    /** The bitmaps of the four levels are well formed and cover `count` regions. */
    ghost predicate Levels(count: nat)
      reads lv
    {
      && |lv| == 4
      && (forall l, m :: 0 <= l < m < 4 ==> lv[l] != lv[m])
      && (forall l {:trigger LevelOk(l, count)} :: 0 <= l < 4 ==> LevelOk(l, count))
    }

    ghost predicate ListOk(l: nat)
      reads if l < |lv| then {lv[l]} else {}
    {
      l < |lv| && lv[l].Valid()
    }

    /** The four free lists are well formed. */
    ghost predicate Lists()
      reads lv
    {
      forall l {:trigger ListOk(l)} :: 0 <= l < 4 ==> ListOk(l)
    }

    /** The bitmap of region `r` on level `l`, as a set. */
    ghost function Map(l: nat, r: nat): set<nat>
      reads if l < |lv| then {lv[l]} else {}
    {
      if l < |lv| && r < |lv[l].maps| then lv[l].maps[r] else {}
    }

    /** The words of the bitmap of region `r` on level `l`. */
    ghost function Bitmap(l: nat, r: nat): seq<nat>
      reads if l < |lv| then {lv[l]} else {}
    {
      if l < |lv| && r < |lv[l].words| then lv[l].words[r] else []
    }

    lemma BitmapOk(l: nat, r: nat, count: nat)
      requires Levels(count) && l < 4 && r < count
      ensures Packed(Bitmap(l, r)) && |Bitmap(l, r)| == Size(l) && Bits(Bitmap(l, r)) == Map(l, r)
    {
      assert LevelOk(l, count);
    }

    /** The pointers of the list of level `l`. */
    ghost function Links(l: nat): FL.Links
      reads if l < |lv| then {lv[l]} else {}
    {
      if l < |lv| then lv[l].Ptrs() else FL.Links(FL.Null, [], [])
    }

    lemma LinksOk(l: nat, count: nat)
      requires Levels(count) && l < 4
      ensures Links(l).Ok(count)
    {
      assert LevelOk(l, count);
    }

    ghost function ShapeOf(l: nat): Shape
      reads if l < |lv| then {lv[l]} else {}
    {
      Shape(Links(l), ListOk(l))
    }

    ghost function Shapes(): (s: seq<Shape>)
      reads lv
      ensures |s| == 4 && forall l {:trigger s[l]} :: 0 <= l < 4 ==> s[l] == ShapeOf(l)
    {
      ShapesTo(4)
    }

    ghost function ShapesTo(n: nat): (s: seq<Shape>)
      reads lv
      ensures |s| == n && forall l {:trigger s[l]} :: 0 <= l < n ==> s[l] == ShapeOf(l)
    {
      if n == 0 then [] else ShapesTo(n - 1) + [ShapeOf(n - 1)]
    }

    method MarkAlloc(l: nat, r: nat, i: nat, ghost count: nat) returns (was: bool)
      requires Levels(count) && l < 4 && r < count && i < Slots(l)
      modifies lv
      ensures Levels(count)
      ensures forall m {:trigger ListOk(m)} :: 0 <= m < 4 && old(ListOk(m)) ==> ListOk(m)
      ensures was <==> i in old(Map(l, r))
      ensures forall m, x :: 0 <= m < 4 && 0 <= x < count ==>
                Map(m, x) == if m == l && x == r then old(Map(m, x)) - {i} else old(Map(m, x))
      ensures forall m :: 0 <= m < 4 ==>
                Links(m) == if m == l && Map(l, r) == {} then old(Links(m)).Unlinked(r) else old(Links(m))
    {
      assert LevelOk(l, count);
      was := lv[l].MarkAlloc(r, i);
      forall m | 0 <= m < 4 ensures LevelOk(m, count) && (old(ListOk(m)) ==> ListOk(m)) {
        assert old(LevelOk(m, count));
      }
      forall m, x | 0 <= m < 4 && 0 <= x < count && m != l ensures Map(m, x) == old(Map(m, x)) {
        assert LevelOk(m, count);
      }
    }

    method MarkFree(l: nat, r: nat, i: nat, ghost count: nat)
      requires Levels(count) && l < 4 && r < count && i < Slots(l)
      modifies lv
      ensures Levels(count)
      ensures forall m {:trigger ListOk(m)} :: 0 <= m < 4 && old(ListOk(m)) ==> ListOk(m)
      ensures forall m, x :: 0 <= m < 4 && 0 <= x < count ==>
                Map(m, x) == if m == l && x == r then old(Map(m, x)) + {i} else old(Map(m, x))
      ensures Fattened(r, old(Map(l, r)), old(Links(l)), Map(l, r), Links(l))
      ensures forall m :: 0 <= m < 4 && m != l ==> Links(m) == old(Links(m))
    {
      assert LevelOk(l, count);
      lv[l].MarkFree(r, i);
      forall m | 0 <= m < 4 ensures LevelOk(m, count) && (old(ListOk(m)) ==> ListOk(m)) {
        assert old(LevelOk(m, count));
      }
      forall m, x | 0 <= m < 4 && 0 <= x < count && m != l ensures Map(m, x) == old(Map(m, x)) {
        assert LevelOk(m, count);
      }
    }

    // ---------------------------------------------------------------- allocation

    /** Clears the bits above a taken block, from level `l` on, as long as they were set. */
    method TakeUp(l: nat, j: nat, r: nat, ghost count: nat, ghost free: set<nat>, ghost taken: set<nat>)
      requires Levels(count) && r < count && l <= 4
      requires forall m :: l <= m < 4 ==> Map(m, r) == Blocks(m, free)
      requires l < 4 ==> j < Slots(l) && taken != {} && taken <= Pages(l, j)
      modifies lv
      ensures Levels(count)
      ensures forall m {:trigger ListOk(m)} :: 0 <= m < 4 && old(ListOk(m)) ==> ListOk(m)
      ensures forall m, x :: 0 <= m < 4 && 0 <= x < count ==>
                Map(m, x) == if l <= m && x == r then Blocks(m, free - taken) else old(Map(m, x))
      ensures forall m :: 0 <= m < l && m < 4 ==> Links(m) == old(Links(m))
      ensures forall m :: l <= m < 4 ==> Thinned(r, old(Map(m, r)), old(Links(m)), Map(m, r), Links(m))
      decreases 4 - l
    {
      if l < 4 {
        TakeInside(l, j, free, taken);
        var was := MarkAlloc(l, r, j, count);
        if l < 3 {
          PagesOfChildren(l + 1, j / 2);
          if was {
            TakeUp(l + 1, j / 2, r, count, free, taken);
          } else {
            TakeStops(l, j, free, taken);
          }
        }
      }
    }

    /** Clears the bits of the blocks lo..hi of one level. */
    method TakeRange(l: nat, r: nat, lo: nat, hi: nat, ghost count: nat)
      requires Levels(count) && r < count && l < 4 && lo < hi <= Slots(l)
      modifies lv
      ensures Levels(count)
      ensures forall m {:trigger ListOk(m)} :: 0 <= m < 4 && old(ListOk(m)) ==> ListOk(m)
      ensures forall m, x :: 0 <= m < 4 && 0 <= x < count && (m != l || x != r) ==> Map(m, x) == old(Map(m, x))
      ensures forall c :: c in Map(l, r) <==> c in old(Map(l, r)) && !(lo <= c < hi)
      ensures forall m :: 0 <= m < 4 && m != l ==> Links(m) == old(Links(m))
      ensures Links(l) == if Map(l, r) == {} then old(Links(l)).Unlinked(r) else old(Links(l))
    {
      for c := lo to hi
        invariant Levels(count)
        invariant forall m {:trigger ListOk(m)} :: 0 <= m < 4 && old(ListOk(m)) ==> ListOk(m)
        invariant forall m, x :: 0 <= m < 4 && 0 <= x < count && (m != l || x != r) ==> Map(m, x) == old(Map(m, x))
        invariant forall y :: y in Map(l, r) <==> y in old(Map(l, r)) && !(lo <= y < c)
        invariant forall m :: 0 <= m < 4 && m != l ==> Links(m) == old(Links(m))
        invariant Links(l) == if c > lo && Map(l, r) == {} then old(Links(l)).Unlinked(r) else old(Links(l))
      {
        FL.UnlinkedTwice(old(Links(l)), r);
        var _ := MarkAlloc(l, r, c, count);
      }
    }

    /** Clears the bits of all blocks strictly inside the taken block. */
    method TakeBelow(n: nat, i: nat, r: nat, ghost count: nat, ghost free: set<nat>)
      requires Levels(count) && r < count && n < 4 && i < Slots(n)
      requires forall m :: 0 <= m < 4 ==> Map(m, r) == Blocks(m, free)
      modifies lv
      ensures Levels(count)
      ensures forall m {:trigger ListOk(m)} :: 0 <= m < 4 && old(ListOk(m)) ==> ListOk(m)
      ensures forall m, x :: 0 <= m < 4 && 0 <= x < count ==>
                Map(m, x) == if m < n && x == r then Blocks(m, free - Pages(n, i)) else old(Map(m, x))
      ensures forall m :: n <= m < 4 ==> Links(m) == old(Links(m))
      ensures forall m :: 0 <= m < n ==> Thinned(r, old(Map(m, r)), old(Links(m)), Map(m, r), Links(m))
    {
      ghost var rest := free - Pages(n, i);
      for l := 0 to n
        invariant Levels(count)
        invariant forall m {:trigger ListOk(m)} :: 0 <= m < 4 && old(ListOk(m)) ==> ListOk(m)
        invariant forall m, x :: 0 <= m < 4 && 0 <= x < count ==>
                    Map(m, x) == if m < l && x == r then Blocks(m, rest) else old(Map(m, x))
        invariant forall m :: l <= m < 4 ==> Links(m) == old(Links(m))
        invariant forall m :: 0 <= m < l ==> Thinned(r, old(Map(m, r)), old(Links(m)), Map(m, r), Links(m))
      {
        TakeWhole(n, i, l, free);
        BelowRange(n, i, l, 0);
        TakeRange(l, r, i * Span(n - l), (i + 1) * Span(n - l), count);
        forall c ensures c in Map(l, r) <==> c in Blocks(l, rest) {
          if c in Blocks(l, free) { BelowRange(n, i, l, c); }
        }
      }
    }

    /** Takes block `i` of level `n` in region `r`, which is free. */
    method Take(n: nat, r: nat, i: nat, ghost count: nat, ghost free: set<nat>)
      requires Levels(count) && r < count && n < 4 && i < Slots(n)
      requires forall m :: 0 <= m < 4 ==> Map(m, r) == Blocks(m, free)
      modifies lv
      ensures Levels(count)
      ensures forall m, x :: 0 <= m < 4 && 0 <= x < count ==>
                Map(m, x) == if x == r then Blocks(m, free - Pages(n, i)) else old(Map(m, x))
      ensures Thinning(r, free, old(Shapes()), free - Pages(n, i), Shapes())
    {
      ghost var s := Shapes();
      PagesNonempty(n, i);
      TakeBelow(n, i, r, count, free);
      TakeUp(n, i, r, count, free, Pages(n, i));
      ghost var s' := Shapes();
      forall m | 0 <= m < 4
        ensures s[m].ok ==> s'[m].ok
        ensures Thinned(r, Blocks(m, free), s[m].links, Blocks(m, free - Pages(n, i)), s'[m].links)
      {
        assert s[m] == old(ShapeOf(m)) && s'[m] == ShapeOf(m);
      }
    }

    // ---------------------------------------------------------------- freeing

    /** Whether the buddy of block `j` is free, for a size below 32k. */
    method SiblingFree(l: nat, r: nat, j: nat, ghost count: nat) returns (free: bool)
      requires Levels(count) && l < 3 && r < count && j < Slots(l)
      ensures Sibling(j) < Slots(l) && (free <==> Sibling(j) in Map(l, r))
    {
      assert LevelOk(l, count);
      if l == 0 { assert Slots(l) == 128; } else if l == 1 { assert Slots(l) == 64; } else { assert Slots(l) == 32; }
      free := lv[l].IsFree(r, Sibling(j));
    }

    /** Sets the bit of block `j` and, as long as the sibling is free too, the bits above it. */
    method GiveUp(l: nat, j: nat, r: nat, ghost count: nat, ghost free: set<nat>, ghost given: set<nat>)
      requires Levels(count) && r < count && l < 4 && j < Slots(l)
      requires forall m :: l <= m < 4 ==> Map(m, r) == Blocks(m, free)
      requires given <= Pages(l, j) <= free + given
      modifies lv
      ensures Levels(count)
      ensures forall m {:trigger ListOk(m)} :: 0 <= m < 4 && old(ListOk(m)) ==> ListOk(m)
      ensures forall m, x :: 0 <= m < 4 && 0 <= x < count ==>
                Map(m, x) == if l <= m && x == r then Blocks(m, free + given) else old(Map(m, x))
      ensures forall m :: 0 <= m < l ==> Links(m) == old(Links(m))
      ensures forall m :: l <= m < 4 ==> Fattened(r, old(Map(m, r)), old(Links(m)), Map(m, r), Links(m))
      decreases 4 - l
    {
      GiveInside(l, j, free, given);
      MarkFree(l, r, j, count);
      if l < 3 {
        var both := SiblingFree(l, r, j, count);
        if both {
          GiveClimbs(l, j, free, given);
          GiveUp(l + 1, j / 2, r, count, free, given);
        } else {
          GiveStops(l, j, free, given);
        }
      }
    }

    /** Sets the bits of all blocks strictly inside block `i` of level `l`. */
    method GiveDown(l: nat, i: nat, r: nat, ghost count: nat)
      requires Levels(count) && r < count && l < 4 && i < Slots(l)
      modifies lv
      ensures Levels(count)
      ensures forall m {:trigger ListOk(m)} :: 0 <= m < 4 && old(ListOk(m)) ==> ListOk(m)
      ensures forall m, x :: 0 <= m < 4 && 0 <= x < count ==>
                Map(m, x) == if m < l && x == r then old(Map(m, x)) + Below(l, i, m) else old(Map(m, x))
      ensures forall m :: l <= m < 4 ==> Links(m) == old(Links(m))
      ensures forall m :: 0 <= m < l ==> Fattened(r, old(Map(m, r)), old(Links(m)), Map(m, r), Links(m))
      decreases l, 0
    {
      if l > 0 {
        BelowHalves(l, i);
        GiveChild(l - 1, 2 * i, r, count);
        GiveChild(l - 1, 2 * i + 1, r, count);
      }
    }

    /** Sets the bit of block `i` of level `l` and of all blocks inside it. */
    method GiveChild(l: nat, i: nat, r: nat, ghost count: nat)
      requires Levels(count) && r < count && l < 4 && i < Slots(l)
      modifies lv
      ensures Levels(count)
      ensures forall m {:trigger ListOk(m)} :: 0 <= m < 4 && old(ListOk(m)) ==> ListOk(m)
      ensures forall m, x :: 0 <= m < 4 && 0 <= x < count ==>
                Map(m, x) == if x == r && m == l then old(Map(m, x)) + {i}
                             else if x == r && m < l then old(Map(m, x)) + Below(l, i, m) else old(Map(m, x))
      ensures forall m :: l < m < 4 ==> Links(m) == old(Links(m))
      ensures forall m :: 0 <= m <= l ==> Fattened(r, old(Map(m, r)), old(Links(m)), Map(m, r), Links(m))
      decreases l, 1
    {
      MarkFree(l, r, i, count);
      GiveDown(l, i, r, count);
    }

    /** Gives block `i` of level `n` in region `r` back. */
    method Give(n: nat, r: nat, i: nat, ghost count: nat, ghost free: set<nat>)
      requires Levels(count) && r < count && n < 4 && i < Slots(n)
      requires forall m :: 0 <= m < 4 ==> Map(m, r) == Blocks(m, free)
      modifies lv
      ensures Levels(count)
      ensures forall m, x :: 0 <= m < 4 && 0 <= x < count ==>
                Map(m, x) == if x == r then Blocks(m, free + Pages(n, i)) else old(Map(m, x))
      ensures Fattening(r, free, old(Shapes()), free + Pages(n, i), Shapes())
    {
      ghost var s := Shapes();
      GiveUp(n, i, r, count, free, Pages(n, i));
      GiveDown(n, i, r, count);
      forall m | 0 <= m < n ensures Map(m, r) == Blocks(m, free + Pages(n, i)) {
        GiveWhole(n, i, m, free);
      }
      ghost var s' := Shapes();
      forall m | 0 <= m < 4
        ensures s[m].ok ==> s'[m].ok
        ensures Fattened(r, Blocks(m, free), s[m].links, Blocks(m, free + Pages(n, i)), s'[m].links)
      {
        assert s[m] == old(ShapeOf(m)) && s'[m] == ShapeOf(m);
      }
    }
  }
}
