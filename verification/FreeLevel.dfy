/** The bitmaps of one block size in all regions, and the intrusive free list that threads the regions
    with a free block of that size (kernel/memory/page_allocator.cpp, `mark_alloc_*`, `mark_free_*`).

    The regions are the elements of one array, so a pointer to a region is its index. */
module FreeLevel {
  import opened Common
  import opened Words

  datatype Ptr = Null | Head | Region(index: nat)

  /** The pointers of the region at position `i` of the list. */
  ghost predicate NodeAt(order: seq<nat>, prev: seq<Ptr>, next: seq<Ptr>, i: nat)
    requires i < |order|
  {
    && order[i] < |prev| && order[i] < |next|
    && prev[order[i]] == (if i == 0 then Head else Region(order[i - 1]))
    && next[order[i]] == (if i + 1 < |order| then Region(order[i + 1]) else Null)
  }

  /** `order` is a null-terminated doubly linked list that starts at the sentinel; regions outside it
      have null pointers. */
  ghost predicate Listed(order: seq<nat>, first: Ptr, prev: seq<Ptr>, next: seq<Ptr>) {
    && |prev| == |next|
    && Unique(order)
    && (forall i :: 0 <= i < |order| ==> order[i] < |prev|)
    && first == (if order == [] then Null else Region(order[0]))
    && (forall i {:trigger NodeAt(order, prev, next, i)} :: 0 <= i < |order| ==> NodeAt(order, prev, next, i))
    && (forall r {:trigger prev[r]} {:trigger next[r]} :: 0 <= r < |prev| && r !in order ==>
          prev[r] == Null && next[r] == Null)
  }

  ghost function Without(order: seq<nat>, r: nat): seq<nat> {
    if order == [] then []
    else if order[0] == r then order[1..]
    else [order[0]] + Without(order[1..], r)
  }

  /** In a list without duplicates the region is cut out at its only position. */
  lemma {:induction false} WithoutAt(order: seq<nat>, k: nat)
    requires k < |order| && Unique(order)
    ensures Without(order, order[k]) == order[..k] + order[k + 1..]
  {
    var rest := order[1..];
    if k == 0 {
      assert order[..0] + order[1..] == rest;
    } else {
      assert order[0] != order[k] && rest[k - 1] == order[k];
      WithoutAt(rest, k - 1);
      assert order[..k] + order[k + 1..] == [order[0]] + (rest[..k - 1] + rest[k..]);
    }
  }

  lemma {:induction false} WithoutAbsent(order: seq<nat>, r: nat)
    requires r !in order
    ensures Without(order, r) == order
  {
    if order != [] { WithoutAbsent(order[1..], r); }
  }

  lemma {:induction false} WithoutHas(order: seq<nat>, r: nat)
    requires Unique(order)
    ensures forall x :: x in Without(order, r) <==> x in order && x != r
  {
    if order != [] {
      assert forall x :: x in order <==> x == order[0] || x in order[1..];
      WithoutHas(order[1..], r);
      if order[0] == r { assert r !in order[1..]; }
    }
  }

  // The pointers after the node at position k of the list is unlinked.

  function FirstAfter(first: Ptr, prev: seq<Ptr>, next: seq<Ptr>, r: nat): Ptr
    requires r < |prev| == |next|
  {
    if prev[r] == Head then next[r] else first
  }

  function PrevAfter(prev: seq<Ptr>, next: seq<Ptr>, r: nat): seq<Ptr>
    requires r < |prev| == |next|
  {
    (if next[r].Region? && next[r].index < |prev| then prev[next[r].index := prev[r]] else prev)[r := Null]
  }

  function NextAfter(prev: seq<Ptr>, next: seq<Ptr>, r: nat): seq<Ptr>
    requires r < |prev| == |next|
  {
    (if prev[r].Region? && prev[r].index < |prev| then next[prev[r].index := next[r]] else next)[r := Null]
  }

  lemma UnlinkKeepsBefore(order: seq<nat>, first: Ptr, prev: seq<Ptr>, next: seq<Ptr>, k: nat, j: nat)
    requires Listed(order, first, prev, next) && j < k < |order|
    ensures NodeAt(order[..k] + order[k + 1..], PrevAfter(prev, next, order[k]), NextAfter(prev, next, order[k]), j)
  {
    var o := order[..k] + order[k + 1..];
    assert NodeAt(order, prev, next, k) && NodeAt(order, prev, next, j);
    assert o[j] == order[j] && (j > 0 ==> o[j - 1] == order[j - 1]);
    assert j + 1 < |o| ==> o[j + 1] == order[if j + 1 < k then j + 1 else k + 1];
    assert order[j] != order[k] && (k + 1 < |order| ==> order[j] != order[k + 1]);
    assert j != k - 1 ==> order[j] != order[k - 1];
  }

  lemma UnlinkKeepsAfter(order: seq<nat>, first: Ptr, prev: seq<Ptr>, next: seq<Ptr>, k: nat, j: nat)
    requires Listed(order, first, prev, next) && k < j < |order|
    ensures NodeAt(order[..k] + order[k + 1..], PrevAfter(prev, next, order[k]), NextAfter(prev, next, order[k]), j - 1)
  {
    var o := order[..k] + order[k + 1..];
    assert NodeAt(order, prev, next, k) && NodeAt(order, prev, next, j);
    assert o[j - 1] == order[j] && (j < |o| ==> o[j] == order[j + 1]);
    assert j > 1 ==> o[j - 2] == order[if j - 1 > k then j - 1 else k - 1];
    assert order[j] != order[k] && (k > 0 ==> order[j] != order[k - 1]);
    assert j != k + 1 ==> order[j] != order[k + 1];
  }

  /** The pointer writes of an unlink leave a well-formed list without that node. */
  lemma UnlinkKeepsList(order: seq<nat>, first: Ptr, prev: seq<Ptr>, next: seq<Ptr>, k: nat)
    requires Listed(order, first, prev, next) && k < |order|
    ensures NodeAt(order, prev, next, k)
    ensures Listed(order[..k] + order[k + 1..], FirstAfter(first, prev, next, order[k]),
                   PrevAfter(prev, next, order[k]), NextAfter(prev, next, order[k]))
  {
    var r, o := order[k], order[..k] + order[k + 1..];
    var prev', next' := PrevAfter(prev, next, r), NextAfter(prev, next, r);
    assert NodeAt(order, prev, next, k);
    forall i | 0 <= i < |o| ensures NodeAt(o, prev', next', i) {
      if i < k { UnlinkKeepsBefore(order, first, prev, next, k, i); }
      else { UnlinkKeepsAfter(order, first, prev, next, k, i + 1); }
    }
    forall x {:trigger prev'[x]} {:trigger next'[x]} | 0 <= x < |prev| && x !in o
      ensures prev'[x] == Null && next'[x] == Null
    {
      if x != r {
        OnlyOneOut(order, k, x);
        assert k > 0 ==> order[k - 1] in order;
        assert k + 1 < |order| ==> order[k + 1] in order;
      }
    }
  }

  lemma UnlinkListed(order: seq<nat>, first: Ptr, prev: seq<Ptr>, next: seq<Ptr>, r: nat)
    requires Listed(order, first, prev, next) && r < |prev|
    ensures Listed(Without(order, r), FirstAfter(first, prev, next, r), PrevAfter(prev, next, r),
                   NextAfter(prev, next, r))
  {
    if r in order {
      var k :| 0 <= k < |order| && order[k] == r;
      UnlinkKeepsList(order, first, prev, next, k);
      WithoutAt(order, k);
    } else {
      WithoutAbsent(order, r);
      assert prev[r] == Null && next[r] == Null;
      assert PrevAfter(prev, next, r) == prev && NextAfter(prev, next, r) == next;
    }
  }

  lemma OnlyOneOut(order: seq<nat>, k: nat, x: nat)
    requires k < |order| && x != order[k] && x !in order[..k] + order[k + 1..]
    ensures x !in order
  {
    assert order == order[..k] + [order[k]] + order[k + 1..];
  }

  /** Linking a new node in front. */
  lemma PushKeepsList(order: seq<nat>, first: Ptr, prev: seq<Ptr>, next: seq<Ptr>, r: nat)
    requires Listed(order, first, prev, next) && r < |prev| && r !in order
    ensures Listed([r] + order, Region(r),
                   (if first.Region? && first.index < |prev| then prev[first.index := Region(r)] else prev)[r := Head],
                   next[r := first])
  {
    var o := [r] + order;
    var prev' := (if first.Region? && first.index < |prev| then prev[first.index := Region(r)] else prev)[r := Head];
    var next' := next[r := first];
    forall i | 0 <= i < |o| ensures NodeAt(o, prev', next', i) {
      if |order| > 0 { assert NodeAt(order, prev, next, 0); }
      if i > 0 {
        assert NodeAt(order, prev, next, i - 1);
        assert order[i - 1] in order;
      }
    }
    assert |order| > 0 ==> order[0] in order;
  }

  /** Growing a nonempty list leaves no doubly linked list at all, whatever the intended order. */
  lemma GrowBreaksList(order: seq<nat>, first: Ptr, prev: seq<Ptr>, next: seq<Ptr>)
    requires Listed(order, first, prev, next)
    ensures var prev', next' := prev + [Head], next + [first];
      && (order == [] ==> Listed([|prev|], Region(|prev|), prev', next'))
      && (order != [] ==> forall o :: !Listed(o, Region(|prev|), prev', next'))
  {
    var prev', next', n := prev + [Head], next + [first], |prev|;
    if order == [] {
      assert NodeAt([n], prev', next', 0);
    } else {
      assert NodeAt(order, prev, next, 0);
      forall o ensures !Listed(o, Region(n), prev', next') {
        assert |o| > 0 && o[0] == n && NodeAt(o, prev', next', 0) ==> |o| > 1 && o[1] == order[0];
        assert |o| > 1 && o[0] == n && o[1] == order[0] ==> !NodeAt(o, prev', next', 1);
      }
    }
  }

  // ---------------------------------------------------------------- the pointers of a level, well formed or not

  /** A next pointer: null or a region. */
  predicate NextOk(p: Ptr, count: nat) {
    p == Null || (p.Region? && p.index < count)
  }

  /** The pointers of all regions on one level, and that of the sentinel. */
  datatype Links = Links(first: Ptr, prev: seq<Ptr>, next: seq<Ptr>) {
    /** No pointer is wild. */
    ghost predicate Ok(count: nat) {
      && |prev| == |next| == count && NextOk(first, count)
      && (forall r {:trigger next[r]} :: 0 <= r < count ==> NextOk(next[r], count))
      && (forall r {:trigger prev[r]} :: 0 <= r < count ==> prev[r] == Head || NextOk(prev[r], count))
    }

    /** After region `r` is unlinked. */
    function Unlinked(r: nat): Links {
      if r < |prev| == |next|
      then Links(FirstAfter(first, prev, next, r), PrevAfter(prev, next, r), NextAfter(prev, next, r))
      else this
    }

    /** After region `r` is linked in front. */
    function Pushed(r: nat): Links {
      if r < |prev| == |next|
      then Links(Region(r),
                 (if first.Region? && first.index < |prev| then prev[first.index := Region(r)] else prev)[r := Head],
                 next[r := first])
      else this
    }

    /** After one more region is put in front, without telling the one that was first. */
    function Grown(): Links {
      Links(Region(|prev|), prev + [Head], next + [first])
    }
  }

  /** No order of the regions makes the pointers a doubly linked list. */
  ghost predicate NoList(l: Links) {
    forall o: seq<nat> {:trigger Unique(o)} :: !Listed(o, l.first, l.prev, l.next)
  }

  /** Unlinking a region that is unlinked already changes nothing. */
  lemma UnlinkedTwice(l: Links, r: nat)
    ensures l.Unlinked(r).Unlinked(r) == l.Unlinked(r)
  {
  }

  class FreeLevel {
    const slots: nat             // blocks of this size in a region
    const size: nat              // words in the bitmap of a region
    var words: seq<seq<nat>>     // the bitmap of each region, 1 if free
    var first: Ptr               // next pointer of the sentinel
    var prev: seq<Ptr>
    var next: seq<Ptr>
    ghost var order: seq<nat>
    ghost var maps: seq<set<nat>>

    ghost predicate MapsAgree()
      reads this
    {
      && |words| == |maps|
      && (forall r {:trigger words[r]} {:trigger maps[r]} :: 0 <= r < |words| ==>
            |words[r]| == size && Packed(words[r]) && maps[r] == Bits(words[r]) && InRange(maps[r]))
    }

    ghost predicate InRange(s: set<nat>) {
      forall i :: i in s ==> i < slots
    }

    ghost function Ptrs(): Links
      reads this
    {
      Links(first, prev, next)
    }

    /** The bitmaps are well formed and no pointer is wild, whatever the list looks like. */
    ghost predicate Sized()
      reads this
    {
      slots <= 32 * size && MapsAgree() && Ptrs().Ok(|maps|)
    }

    /** The list is well formed and holds exactly the regions with a free block. */
    ghost predicate Valid()
      reads this
    {
      && Sized()
      && Listed(order, first, prev, next)
      && (forall r :: 0 <= r < |maps| ==> (r in order <==> maps[r] != {}))
    }

    /** A well-formed list starts at a region with a free block, and is empty if there is none. */
    lemma ValidHead()
      requires Valid()
      ensures first == Null || maps[first.index] != {}
      ensures first == Null <==> forall r :: 0 <= r < |maps| ==> maps[r] == {}
      ensures forall r :: 0 <= r < |maps| && maps[r] == {} ==> prev[r] == Null
    {
      if order != [] {
        assert order[0] in order;
        assert maps[order[0]] != {};
      }
    }

    constructor (slots: nat, size: nat)
      requires slots <= 32 * size
      ensures Valid() && this.slots == slots && this.size == size && maps == [] && order == []
      ensures Ptrs() == Links(Null, [], [])
    {
      this.slots, this.size := slots, size;
      words, first, prev, next, order, maps := [], Null, [], [], [], [];
    }

    method IsZero(r: nat) returns (zero: bool)
      requires MapsAgree() && r < |words|
      ensures zero <==> maps[r] == {}
    {
      AllZeroIffEmpty(words[r]);
      for k := 0 to |words[r]|
        invariant forall x :: 0 <= x < k ==> words[r][x] == 0
      {
        if words[r][k] != 0 { return false; }
      }
      return true;
    }

    /** Clears bit `i` of region `r`; if no bit is left, unlinks the region. */
    method MarkAlloc(r: nat, i: nat) returns (was: bool)
      requires Sized() && r < |maps| && i < slots
      modifies this
      ensures Sized() && (old(Valid()) ==> Valid())
      ensures was <==> i in old(maps)[r]
      ensures maps == old(maps)[r := old(maps)[r] - {i}]
      ensures Ptrs() == if maps[r] == {} then old(Ptrs()).Unlinked(r) else old(Ptrs())
      ensures order == if maps[r] == {} then Without(old(order), r) else old(order)
    {
      var w := words[r][i / 32];
      var res := And(w, One(i % 32));
      TestBit(w, i % 32);
      AndNotMasked(w, One(i % 32));
      was := res != 0;
      ClearRemoves(words[r], i);
      var ws: seq<nat> := words[r][i / 32 := AndNot(w, res)];
      words := words[r := ws];
      maps := maps[r := maps[r] - {i}];
      var zero := IsZero(r);
      if zero {
        if Unique(order) { WithoutHas(order, r); }
        Unlink(r);
      }
    }

    /** Sets bit `i` of region `r`; if the region had no bit set and is not linked, links it in front of the
        list. */
    method MarkFree(r: nat, i: nat)
      requires Sized() && r < |maps| && i < slots
      modifies this
      ensures Sized() && (old(Valid()) ==> Valid())
      ensures maps == old(maps)[r := old(maps)[r] + {i}]
      ensures Ptrs() == if old(maps)[r] == {} && old(prev)[r] == Null then old(Ptrs()).Pushed(r) else old(Ptrs())
    {
      var zero := IsZero(r);
      assert Valid() && zero ==> prev[r] == Null;
      if prev[r] == Null && zero {
        PushFront(r);
      }
      MarkAdds(words[r], i);
      words := words[r := Mark(words[r], i)];
      maps := maps[r := maps[r] + {i}];
    }

    /** Puts region `r` in front of the list, whatever the list looks like. */
    method PushFront(r: nat)
      requires r < |prev| && Ptrs().Ok(|prev|)
      modifies this`first, this`prev, this`next, this`order
      ensures Ptrs() == old(Ptrs()).Pushed(r) && Ptrs().Ok(old(|prev|)) && order == [r] + old(order)
      ensures old(Listed(order, first, prev, next)) && r !in old(order) ==> Listed(order, first, prev, next)
    {
      if Listed(order, first, prev, next) && r !in order {
        PushKeepsList(order, first, prev, next, r);
      }
      next := next[r := first];
      if next[r] != Null {
        prev := prev[next[r].index := Region(r)];
      }
      prev := prev[r := Head];
      first := Region(r);
      order := [r] + order;
    }

    /** Bit `i` of region `r`, read as word & (1 << bit). */
    method IsFree(r: nat, i: nat) returns (free: bool)
      requires Sized() && r < |maps| && i < slots
      ensures free <==> i in maps[r]
    {
      TestBit(words[r][i / 32], i % 32);
      free := And(words[r][i / 32], One(i % 32)) != 0;
    }

    /** The region at the head of the list, and its lowest free block.  In a damaged list the region may have
        none. */
    method FirstFree() returns (r: Option<nat>, i: Option<nat>)
      requires Sized()
      ensures if r == None then first == Null && i == None else first == Region(r.value) && r.value < |maps|
      ensures r.Some? ==> (i == None <==> maps[r.value] == {})
      ensures i.Some? ==> r.Some? && i.value in maps[r.value] && forall j :: j in maps[r.value] ==> i.value <= j
    {
      if first == Null { return None, None; }
      var found, index := FindFirst(words[first.index]);
      return Some(first.index), if found then Some(index) else None;
    }

    /** Adds a region whose blocks are all free.  As in the kernel, the region that was first in the
        list keeps the sentinel as its prev pointer, so a well-formed list stays one only if it was
        empty. */
    method Grow(full: seq<nat>)
      requires Sized() && |full| == size && Packed(full)
      requires forall i: nat :: i in Bits(full) <==> i < slots
      modifies this
      ensures Sized() && maps == old(maps) + [Bits(full)]
      ensures Ptrs() == old(Ptrs()).Grown()
      ensures old(Valid()) && slots > 0 ==> if old(first) == Null then Valid() else NoList(Ptrs())
    {
      ghost var o := order;
      var pos := |words|;
      words := words + [full];
      maps := maps + [Bits(full)];
      prev := prev + [Head];
      next := next + [first];
      first := Region(pos);
      order := [pos] + order;
      if old(Valid()) && slots > 0 {
        assert 0 in maps[pos];
        GrowBreaksList(o, old(first), old(prev), old(next));
      }
    }

    /** Takes region `r` out of the list, whatever the list looks like. */
    method Unlink(r: nat)
      requires r < |prev| && Ptrs().Ok(|prev|)
      modifies this`first, this`prev, this`next, this`order
      ensures Ptrs() == old(Ptrs()).Unlinked(r) && Ptrs().Ok(old(|prev|)) && order == Without(old(order), r)
      ensures old(Listed(order, first, prev, next)) ==> Listed(order, first, prev, next)
    {
      if Listed(order, first, prev, next) { UnlinkListed(order, first, prev, next, r); }
      order := Without(order, r);
      var p, n := prev[r], next[r];
      if p != Null {
        if p == Head { first := n; } else { next := next[p.index := n]; }
      }
      if n != Null {
        prev := prev[n.index := p];
      }
      next := next[r := Null];
      prev := prev[r := Null];
      assert Ptrs() == old(Ptrs()).Unlinked(r);
    }
  }
}
