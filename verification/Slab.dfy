/** The slab allocator (kernel/memory/slab.hpp): objects of one size in page-aligned slabs, each with a
    header that holds a bitset of free slots and a link in the list of slabs with a free slot. */
module Slab {
  import opened Arith
  import opened Common
  import opened Words
  import opened Bitset

  // ---------------------------------------------------------------- sizes

  function BitWords(page: nat, n: nat): nat
    requires n > 0
  {
    (page / n + 31) / 32
  }

  /** get_metadata_size: the pointer and the bitset. */
  function Metadata(page: nat, n: nat): nat
    requires n > 0
  {
    4 + 4 * BitWords(page, n)
  }

  function WastePct(page: nat, n: nat): int
    requires n > 0 && page > 0
  {
    if page < n then 1000
    else 100 * (page - (page - Metadata(page, n)) / n * n) / page
  }

  predicate IsPageSize(page: nat) {
    page == 4096 || page == 8192 || page == 16384 || page == 32768
  }

  /** The last of four page sizes, given what each wastes, that wastes over five per cent less than the
      size before it; the first if none does. */
  function BiggestSaving(waste: seq<int>): (k: nat)
    requires |waste| == 4
    ensures k < 4 && (k > 0 ==> waste[k] < waste[k - 1] - 5)
    ensures forall j :: k < j < 4 ==> waste[j] >= waste[j - 1] - 5
  {
    if waste[3] < waste[2] - 5 then 3
    else if waste[2] < waste[1] - 5 then 2
    else if waste[1] < waste[0] - 5 then 1
    else 0
  }

  /** get_page_size */
  function PageSize(n: nat): (page: nat)
    requires n > 0
    ensures IsPageSize(page)
  {
    var k := BiggestSaving([WastePct(4096, n), WastePct(8192, n), WastePct(16384, n), WastePct(32768, n)]);
    if k == 3 then 32768 else if k == 2 then 16384 else if k == 1 then 8192 else 4096
  }

  /** The page size chosen wastes over five per cent less than half of it would, and no bigger one does. */
  lemma PageSizeSaves(n: nat)
    requires n > 0
    ensures var page, w4, w8, w16, w32 := PageSize(n), WastePct(4096, n), WastePct(8192, n), WastePct(16384, n),
                                          WastePct(32768, n);
      && (page == 4096 ==> w8 >= w4 - 5 && w16 >= w8 - 5 && w32 >= w16 - 5)
      && (page == 8192 ==> w8 < w4 - 5 && w16 >= w8 - 5 && w32 >= w16 - 5)
      && (page == 16384 ==> w16 < w8 - 5 && w32 >= w16 - 5)
      && (page == 32768 ==> w32 < w16 - 5)
  {
    Chosen([WastePct(4096, n), WastePct(8192, n), WastePct(16384, n), WastePct(32768, n)]);
  }

  lemma Chosen(w: seq<int>)
    requires |w| == 4
    ensures var k := BiggestSaving(w);
      && (k == 0 ==> w[1] >= w[0] - 5 && w[2] >= w[1] - 5 && w[3] >= w[2] - 5)
      && (k == 1 ==> w[1] < w[0] - 5 && w[2] >= w[1] - 5 && w[3] >= w[2] - 5)
      && (k == 2 ==> w[2] < w[1] - 5 && w[3] >= w[2] - 5)
      && (k == 3 ==> w[3] < w[2] - 5)
  {
  }

  /** num_objects_in_page */
  function Objects(page: nat, n: nat): int
    requires n > 0
  {
    (page - Metadata(page, n)) / n
  }

  /** The sizes of a slab: object size, page size, header size, objects and words in the bitset. */
  datatype Geometry = Geometry(n: nat, page: nat, header: nat, count: nat, words: nat) {
    predicate Sane() {
      && IsPageSize(page) && n > 0
      && 1 <= count <= 32 * words && 4 * (words + 1) <= header && header + count * n <= page
    }
  }

  lemma QuotientFits(page: nat, n: nat, q: nat)
    requires IsPageSize(page) && 0 < n < 4000 && q * n <= page
    ensures n + 4 + 4 * ((q + 31) / 32) <= page
  {
    assert 4 + 4 * ((q + 31) / 32) <= 8 + q / 8;
    Monotone(1, n, q);
    if q >= 8 { Monotone(8, q, n); }
  }

  lemma Quotient(room: nat, page: nat, n: nat, q: nat)
    requires 0 < n <= room <= page && page < (q + 1) * n
    ensures 1 <= room / n <= q && room / n * n <= room
  {
    var c := room / n;
    if c > q { Monotone(q + 1, c, n); }
  }

  /** The geometry the kernel computes for objects of size `n`. */
  function GeometryOf(n: nat): Geometry
    requires 0 < n < 4000
  {
    var page := PageSize(n);
    var objects := Objects(page, n);
    Geometry(n, page, Metadata(page, n), if objects < 0 then 0 else objects, BitWords(page, n))
  }

  lemma CountFits(page: nat, n: nat)
    requires IsPageSize(page) && 0 < n < 4000
    ensures 1 <= Objects(page, n) <= page / n
    ensures Metadata(page, n) + Objects(page, n) * n <= page
  {
    var q := page / n;
    DivMod(page, n);
    QuotientFits(page, n, q);
    Quotient(page - Metadata(page, n), page, n, q);
  }

  /** At least one object fits behind the header, all of them stay inside the page, and there is a bit
      for each.  The header is as big as it lies in memory, a word for each of the bitset and one for the
      pointer; the bitset has no word too many, and no more objects would fit. */
  lemma SizesFit(n: nat)
    requires 0 < n < 4000
    ensures var g := GeometryOf(n);
      && g.Sane() && g.n == n && g.header == 4 * (g.words + 1)
      && (g.words - 1) * 32 < g.page / n <= g.words * 32
      && g.page < g.header + (g.count + 1) * n
  {
    var page := PageSize(n);
    CountFits(page, n);
    var q := page / n;
    assert q <= 32 * ((q + 31) / 32) < q + 32;
    DivMod(page - Metadata(page, n), n);
  }

  lemma Percent(part: nat, whole: nat)
    requires 0 < part <= whole && IsPageSize(whole)
    ensures var w := 100 * part / whole; 0 <= w <= 100 && w * whole <= 100 * part < (w + 1) * whole
  {
    if whole == 4096 {} else if whole == 8192 {} else if whole == 16384 {} else { assert whole == 32768; }
  }

  /** The waste of a page size is the share of the page, in whole per cent, that no object fills. */
  lemma WasteIsShare(page: nat, n: nat)
    requires IsPageSize(page) && 0 < n < 4000
    ensures var w, rest := WastePct(page, n), page - Objects(page, n) * n;
      0 <= w <= 100 && w * page <= 100 * rest < (w + 1) * page
  {
    CountFits(page, n);
    var rest := page - Objects(page, n) * n;
    Percent(rest, page);
    PageHoldsOne(page, n);
    assert WastePct(page, n) == 100 * rest / page;
  }

  lemma PageHoldsOne(page: nat, n: nat)
    requires IsPageSize(page) && 0 < n < 4000
    ensures n <= page
  {
  }

  // ---------------------------------------------------------------- objects

  function ObjectAt(g: Geometry, slab: nat, bit: nat): nat {
    slab + g.header + bit * g.n
  }

  function SlabOf(g: Geometry, ptr: nat): nat
    requires g.page > 0
  {
    ptr / g.page * g.page
  }

  function BitOf(g: Geometry, ptr: nat): int
    requires g.page > 0 && g.n > 0
  {
    (ptr - SlabOf(g, ptr) - g.header) / g.n
  }

  lemma PageStart(g: Geometry, slab: nat, off: nat)
    requires g.Sane() && slab % g.page == 0 && off < g.page
    ensures SlabOf(g, slab + off) == slab
  {
    DivMod(slab, g.page);
    var q := slab / g.page;
    assert slab == g.page * q;
    DivModUnique(slab + off, g.page, q, off);
  }

  lemma InsidePage(g: Geometry, bit: nat)
    requires g.Sane() && bit < g.count
    ensures g.header + bit * g.n + g.n <= g.page
  {
    Spread(bit, g.count, g.n);
  }

  /** An object lies inside its page behind the header, and free() finds its slab and bit again. */
  lemma ObjectRoundTrip(g: Geometry, slab: nat, bit: nat)
    requires g.Sane() && slab % g.page == 0 && bit < g.count
    ensures var p := ObjectAt(g, slab, bit);
      && slab + g.header <= p && p + g.n <= slab + g.page
      && SlabOf(g, p) == slab && BitOf(g, p) == bit
  {
    InsidePage(g, bit);
    PageStart(g, slab, g.header + bit * g.n);
    MulDivMod(bit, g.n);
  }

  lemma ApartOnPages(g: Geometry, s: nat, b: nat, t: nat, c: nat)
    requires g.Sane() && b < g.count && c < g.count && (s + g.page <= t || t + g.page <= s)
    ensures ObjectAt(g, s, b) + g.n <= ObjectAt(g, t, c) || ObjectAt(g, t, c) + g.n <= ObjectAt(g, s, b)
  {
    InsidePage(g, b);
    InsidePage(g, c);
    Between(s, t, g.page, g.header, b * g.n, c * g.n, g.n);
  }

  lemma Between(s: nat, t: nat, page: nat, h: nat, x: nat, y: nat, n: nat)
    requires h + x + n <= page && h + y + n <= page && (s + page <= t || t + page <= s)
    ensures s + h + x + n <= t + h + y || t + h + y + n <= s + h + x
  {
  }

  /** Two different objects share no byte. */
  lemma ObjectsDisjoint(g: Geometry, s: nat, b: nat, t: nat, c: nat)
    requires g.Sane() && s % g.page == 0 && t % g.page == 0
    requires b < g.count && c < g.count && (s, b) != (t, c)
    ensures ObjectAt(g, s, b) + g.n <= ObjectAt(g, t, c) || ObjectAt(g, t, c) + g.n <= ObjectAt(g, s, b)
  {
    if s != t {
      PagesApart(g.page, s, t);
      ApartOnPages(g, s, b, t, c);
    } else if b < c {
      Spread(b, c, g.n);
    } else {
      Spread(c, b, g.n);
    }
  }

  lemma PagesApart(page: nat, s: nat, t: nat)
    requires IsPageSize(page) && s % page == 0 && t % page == 0 && s != t
    ensures s + page <= t || t + page <= s
  {
    if page == 4096 {} else if page == 8192 {} else if page == 16384 {} else { assert page == 32768; }
  }

  /** With objects of 127 bytes the bitset has exactly as many bits as there are objects, so marking them
      all touches the word behind the bitset. */
  lemma BitsetFull()
    ensures GeometryOf(127).count == 32 * GeometryOf(127).words
  {
  }

  // ---------------------------------------------------------------- the list of slabs

  /** The header of a slab as it lies in memory: the words of the bitset and then the next pointer. */
  type Header = seq<nat>

  /** The next pointer of the slab at position `i`; null is address 0. */
  ghost predicate LinkAt(slabs: map<nat, Header>, w: nat, list: seq<nat>, i: nat)
    requires i < |list|
  {
    && list[i] in slabs && |slabs[list[i]]| == w + 1
    && slabs[list[i]][w] == if i + 1 < |list| then list[i + 1] else 0
  }

  /** The next pointers run through `list` and end in null. */
  ghost predicate Chained(slabs: map<nat, Header>, w: nat, list: seq<nat>, head: nat) {
    && Unique(list) && 0 !in list
    && (forall a :: a in list ==> a in slabs)
    && head == (if list == [] then 0 else list[0])
    && (forall i {:trigger LinkAt(slabs, w, list, i)} :: 0 <= i < |list| ==> LinkAt(slabs, w, list, i))
  }

  /** Changing words of a slab in front of its next pointer keeps the list. */
  lemma ChainKept(slabs: map<nat, Header>, w: nat, list: seq<nat>, head: nat, a: nat, h: Header)
    requires Chained(slabs, w, list, head) && a in slabs
    requires |h| == |slabs[a]| == w + 1 && h[w..] == slabs[a][w..]
    ensures Chained(slabs[a := h], w, list, head)
  {
    var s := slabs[a := h];
    assert h[w] == h[w..][0] && slabs[a][w] == slabs[a][w..][0];
    forall i | 0 <= i < |list| ensures LinkAt(s, w, list, i) {
      assert LinkAt(slabs, w, list, i);
    }
  }

  lemma ChainTail(slabs: map<nat, Header>, w: nat, list: seq<nat>, head: nat)
    requires Chained(slabs, w, list, head) && list != []
    ensures LinkAt(slabs, w, list, 0) && Chained(slabs, w, list[1..], slabs[list[0]][w])
    ensures forall a :: a in list[1..] <==> a in list && a != list[0]
  {
    var t := list[1..];
    forall i | 0 <= i < |t| ensures LinkAt(slabs, w, t, i) {
      assert LinkAt(slabs, w, list, i + 1);
    }
    assert LinkAt(slabs, w, list, 0);
    assert list == [list[0]] + t;
  }

  lemma ChainPush(slabs: map<nat, Header>, w: nat, list: seq<nat>, head: nat, a: nat, h: Header)
    requires Chained(slabs, w, list, head) && a != 0 && a !in list && |h| == w + 1 && h[w] == head
    ensures Chained(slabs[a := h], w, [a] + list, a)
  {
    var l, s := [a] + list, slabs[a := h];
    forall i | 0 <= i < |l| ensures LinkAt(s, w, l, i) {
      if i > 0 {
        assert LinkAt(slabs, w, list, i - 1);
        assert list[i - 1] in list;
      }
    }
  }

  class SlabAllocator {
    const g: Geometry
    var slabs: map<nat, Header>   // the slabs by address
    var freeList: nat             // address of the first slab with a free slot, 0 if none
    ghost var list: seq<nat>

    /** The free slots of a slab. */
    ghost function Free(a: nat): set<nat>
      reads this
    {
      if a in slabs && g.words <= |slabs[a]| then Set(slabs[a], g.words) else {}
    }

    ghost predicate SlabOk(a: nat)
      requires a in slabs && g.Sane()
      reads this
    {
      && a != 0 && a % g.page == 0
      && |slabs[a]| == g.words + 1 && Packed(slabs[a][..g.words])
      && (forall i :: i in Free(a) ==> i < g.count)
      && (a in list <==> Free(a) != {})
    }

    ghost predicate Valid()
      reads this
    {
      && g.Sane()
      && Chained(slabs, g.words, list, freeList)
      && (forall a {:trigger SlabOk(a)} :: a in slabs ==> SlabOk(a))
    }

    constructor (n: nat)
      requires 0 < n < 4000
      ensures Valid() && g == GeometryOf(n) && slabs == map[]
    {
      g := GeometryOf(n);
      slabs, freeList, list := map[], 0, [];
      SizesFit(n);
    }

    /** A new slab on the fresh page `a`: every slot is free. */
    method NewSlab(a: nat, junk: Header)
      requires Valid() && freeList == 0
      requires a != 0 && a % g.page == 0 && a !in slabs && |junk| == g.words + 1
      modifies this
      ensures Valid() && slabs.Keys == old(slabs.Keys) + {a} && freeList == a
      ensures forall i: nat :: i in Free(a) <==> i < g.count
      ensures forall x :: x in old(slabs) ==> slabs[x] == old(slabs)[x]
    {
      var h := ClearAll(junk, g.words);
      assert AllZero(h[..g.words]) by { AllZeroIffEmpty(h[..g.words]); }
      h := SetAllUntil(h, g.words, g.count);
      var h' := h[g.words := 0];
      assert h'[..g.words] == h[..g.words];
      ChainPush(slabs, g.words, list, 0, a, h');
      slabs := slabs[a := h'];
      freeList := a;
      assert list == [];
      list := [a];
      assert [a] + [] == [a];
      assert 0 in Set(h, g.words);
      forall x | x in slabs ensures SlabOk(x) {
        if x != a { assert old(SlabOk(x)); }
      }
    }

    /** Replaces the header of slab `a` by one with other free slots but the same next pointer. */
    method Update(a: nat, h: Header)
      requires g.Sane() && Chained(slabs, g.words, list, freeList) && a in slabs
      requires |h| == |slabs[a]| == g.words + 1 && h[g.words..] == slabs[a][g.words..]
      modifies this`slabs
      ensures slabs == old(slabs)[a := h] && Chained(slabs, g.words, list, freeList)
    {
      ChainKept(slabs, g.words, list, freeList, a, h);
      slabs := slabs[a := h];
    }

    /** allocate(): takes the lowest free slot of the first slab of the list; `page` is the fresh page
        used if the list is empty, `junk` what it contains. */
    method Allocate(page: nat, junk: Header) returns (ptr: nat)
      requires Valid() && page != 0 && page % g.page == 0 && page !in slabs && |junk| == g.words + 1
      modifies this
      ensures Valid()
      ensures var a, b := SlabOf(g, ptr), BitOf(g, ptr);
        && 0 <= b < g.count && ptr == ObjectAt(g, a, b)
        && a % g.page == 0 && a in slabs && a + 4 * |slabs[a]| <= ptr && ptr + g.n <= a + g.page
        && slabs.Keys == old(slabs.Keys) + {a} && (a !in old(slabs) ==> a == page)
        && (a in old(slabs) ==> b in old(Free(a)))
        && (forall x: nat :: x in Free(a) <==> x != b && (if a in old(slabs) then x in old(Free(a)) else x < g.count))
        && (forall x :: x in old(slabs) && x != a ==> slabs[x] == old(slabs)[x])
    {
      if freeList == 0 {
        NewSlab(page, junk);
      }
      ptr := TakeSlot();
    }

    method TakeSlot() returns (ptr: nat)
      requires Valid() && freeList != 0
      modifies this
      ensures Valid()
      ensures var a, b := SlabOf(g, ptr), BitOf(g, ptr);
        && a == old(freeList) && 0 <= b < g.count && ptr == ObjectAt(g, a, b)
        && a % g.page == 0 && a in slabs && a + 4 * |slabs[a]| <= ptr && ptr + g.n <= a + g.page
        && slabs.Keys == old(slabs.Keys) && b in old(Free(a)) && Free(a) == old(Free(a)) - {b}
        && (forall x :: x in slabs && x != a ==> slabs[x] == old(slabs)[x])
    {
      var a := freeList;
      assert a == list[0] && a in list && SlabOk(a);
      var found, bit := FindBit(slabs[a], g.words);
      var h := ClearBit(slabs[a], g.words, bit);
      Update(a, h);
      var full := AllClearUntil(h, g.words, g.count);
      if full {
        ChainTail(slabs, g.words, list, freeList);
        freeList := slabs[a][g.words];
        list := list[1..];
      }
      forall x | x in slabs ensures SlabOk(x) {
        assert old(SlabOk(x));
        if x == a { assert Set(h, g.words) == old(Free(a)) - {bit}; }
      }
      ObjectRoundTrip(g, a, bit);
      return ObjectAt(g, a, bit);
    }

    /** free(): finds the slab and the slot of a live object and marks the slot free. */
    method Release(ptr: nat)
      requires Valid() && SlabOf(g, ptr) in slabs && 0 <= BitOf(g, ptr) < g.count
      requires ptr == ObjectAt(g, SlabOf(g, ptr), BitOf(g, ptr)) && BitOf(g, ptr) !in Free(SlabOf(g, ptr))
      modifies this
      ensures Valid() && slabs.Keys == old(slabs.Keys)
      ensures var a, b := SlabOf(g, ptr), BitOf(g, ptr);
        && Free(a) == old(Free(a)) + {b}
        && (forall x :: x in slabs && x != a ==> Free(x) == old(Free(x)))
    {
      GiveSlot(SlabOf(g, ptr), BitOf(g, ptr));
    }

    method GiveSlot(a: nat, bit: nat)
      requires Valid() && a in slabs && bit < g.count && bit !in Free(a)
      modifies this
      ensures Valid() && slabs.Keys == old(slabs.Keys) && Free(a) == old(Free(a)) + {bit}
      ensures forall x :: x in slabs && x != a ==> Free(x) == old(Free(x))
    {
      EnsureListed(a);
      var h := SetBit(slabs[a], g.words, bit);
      ghost var before := Free(a);
      Update(a, h);
      assert Free(a) == before + {bit};
      forall x | x in slabs ensures SlabOk(x) {
        assert old(SlabOk(x));
        if x != a { assert slabs[x] == old(slabs)[x] && Free(x) == old(Free(x)); }
      }
    }

    /** Links slab `a` to the list if it has no free slot yet. */
    method EnsureListed(a: nat)
      requires Valid() && a in slabs
      modifies this
      ensures g.Sane() && Chained(slabs, g.words, list, freeList) && slabs.Keys == old(slabs.Keys)
      ensures |slabs[a]| == g.words + 1 && Packed(slabs[a][..g.words]) && Free(a) == old(Free(a))
      ensures forall x :: x in slabs && x != a ==> slabs[x] == old(slabs)[x]
      ensures forall x :: x in list <==> x in old(list) || x == a
    {
      assert SlabOk(a);
      var full := AllClearUntil(slabs[a], g.words, g.count);
      if full {
        LinkFirst(a);
      }
    }

    method LinkFirst(a: nat)
      requires g.Sane() && Chained(slabs, g.words, list, freeList) && a in slabs && a !in list && a != 0
      requires |slabs[a]| == g.words + 1
      modifies this
      ensures Chained(slabs, g.words, list, freeList) && list == [a] + old(list)
      ensures slabs.Keys == old(slabs.Keys) && |slabs[a]| == g.words + 1
      ensures slabs[a][..g.words] == old(slabs)[a][..g.words]
      ensures forall x :: x in slabs && x != a ==> slabs[x] == old(slabs)[x]
    {
      var h: Header := slabs[a][g.words := freeList];
      ChainPush(slabs, g.words, list, freeList, a, h);
      slabs := slabs[a := h];
      freeList := a;
      list := [a] + list;
    }
  }
}
