/** The buddy system as sets (kernel/memory/page_allocator.cpp): a 512k region is 128 pages, and the
    bitmap of every block size is determined by the set of free pages alone. */
module BuddySpec {

  const PAGES := 128

  /** Block sizes 4k, 8k, 16k and 32k are levels 0 to 3; a block of level `l` spans this many pages. */
  function Span(l: nat): (n: nat)
    requires l < 4
    ensures n > 0
  {
    if l == 0 then 1 else if l == 1 then 2 else if l == 2 then 4 else 8
  }

  /** How many blocks of level `l` a region has. */
  function Slots(l: nat): nat
    requires l < 4
  {
    PAGES / Span(l)
  }

  ghost function Pages(l: nat, i: nat): set<nat>
    requires l < 4
  {
    set p: nat | p < PAGES && p / Span(l) == i
  }

  /** The blocks of level `l` all of whose pages are free. */
  ghost function Blocks(l: nat, free: set<nat>): set<nat>
    requires l < 4
  {
    set i: nat | i < Slots(l) && Pages(l, i) <= free
  }

  ghost function AllPages(): set<nat> {
    set p: nat | p < PAGES && p in Pages(0, p)
  }

  function Sibling(i: nat): nat {
    if i % 2 == 0 then i + 1 else i - 1
  }

  lemma PagesOfChildren(l: nat, i: nat)
    requires 0 < l < 4
    ensures Pages(l, i) == Pages(l - 1, 2 * i) + Pages(l - 1, 2 * i + 1)
  {
  }

  lemma PagesNonempty(l: nat, i: nat)
    requires l < 4 && i < Slots(l)
    ensures Pages(l, i) != {} && i * Span(l) in Pages(l, i)
  {
    assert i * Span(l) in Pages(l, i);
  }

  /** Every bit above the 4k level is the AND of its two child bits. */
  lemma AndOfChildren(l: nat, i: nat, free: set<nat>)
    requires 0 < l < 4 && i < Slots(l)
    ensures i in Blocks(l, free) <==> 2 * i in Blocks(l - 1, free) && 2 * i + 1 in Blocks(l - 1, free)
  {
    PagesOfChildren(l, i);
  }

  // ---------------------------------------------------------------- taking a block

  /** Taking pages inside block `j` clears the bit of that block and no other on its level. */
  lemma TakeInside(l: nat, j: nat, free: set<nat>, taken: set<nat>)
    requires l < 4 && taken != {} && taken <= Pages(l, j)
    ensures Blocks(l, free - taken) == Blocks(l, free) - {j}
  {
    forall i: nat | i < Slots(l) && i != j ensures Pages(l, i) !! taken { }
  }

  /** A clear bit keeps all bits above it clear, so the upward walk may stop there. */
  lemma TakeStops(l: nat, j: nat, free: set<nat>, taken: set<nat>)
    requires l < 3 && taken != {} && taken <= Pages(l, j) && j < Slots(l) && j !in Blocks(l, free)
    ensures forall l' :: l < l' < 4 ==> Blocks(l', free - taken) == Blocks(l', free)
    decreases 3 - l
  {
    PagesOfChildren(l + 1, j / 2);
    AndOfChildren(l + 1, j / 2, free);
    assert j == 2 * (j / 2) || j == 2 * (j / 2) + 1;
    TakeInside(l + 1, j / 2, free, taken);
    if l + 1 < 3 {
      TakeStops(l + 1, j / 2, free, taken);
    }
  }

  /** The blocks of level `l` that lie in block `i` of level `n`. */
  ghost function Below(n: nat, i: nat, l: nat): set<nat>
    requires l <= n < 4
  {
    set c: nat | c < Slots(l) && Ancestor(c, l, n) == i
  }

  /** The index of the block of level `n` that holds block `c` of level `l`. */
  function Ancestor(c: nat, l: nat, n: nat): nat
    requires l <= n < 4
  {
    c / Span(n - l)
  }

  lemma AncestorOfPage(n: nat, l: nat, p: nat)
    requires l <= n < 4
    ensures Ancestor(p / Span(l), l, n) == p / Span(n)
  {
    if l == 0 {
    } else if l == 1 {
      if n == 1 {} else if n == 2 { assert p / 2 / 2 == p / 4; } else { assert p / 2 / 4 == p / 8; }
    } else if l == 2 {
      if n == 2 {} else { assert p / 4 / 2 == p / 8; }
    }
  }

  lemma PagesOfBelow(n: nat, i: nat, l: nat, c: nat)
    requires l <= n < 4 && i < Slots(n) && c < Slots(l)
    ensures if c in Below(n, i, l) then Pages(l, c) <= Pages(n, i) else Pages(l, c) !! Pages(n, i)
  {
    forall p | p in Pages(l, c) ensures p in Pages(n, i) <==> Ancestor(c, l, n) == i {
      AncestorOfPage(n, l, p);
    }
  }

  /** Taking a whole block clears the bits of all blocks inside it and no other on their level. */
  lemma TakeWhole(n: nat, i: nat, l: nat, free: set<nat>)
    requires l <= n < 4 && i < Slots(n)
    ensures Blocks(l, free - Pages(n, i)) == Blocks(l, free) - Below(n, i, l)
  {
    forall c: nat | c < Slots(l)
      ensures c in Blocks(l, free - Pages(n, i)) <==> c in Blocks(l, free) && c !in Below(n, i, l)
    {
      PagesNonempty(l, c);
      PagesOfBelow(n, i, l, c);
    }
  }

  // ---------------------------------------------------------------- giving a block back

  /** If the freed pages complete block `j`, they complete no other on its level. */
  lemma GiveInside(l: nat, j: nat, free: set<nat>, given: set<nat>)
    requires l < 4 && j < Slots(l) && given <= Pages(l, j) <= free + given
    ensures Blocks(l, free + given) == Blocks(l, free) + {j}
  {
    forall i: nat | i < Slots(l) && i != j ensures Pages(l, i) !! given { }
  }

  /** A block that stays incomplete keeps all blocks above it incomplete. */
  lemma GiveIncomplete(l: nat, j: nat, free: set<nat>, given: set<nat>)
    requires l < 4 && j < Slots(l) && given <= Pages(l, j) && j !in Blocks(l, free + given)
    ensures forall m :: l <= m < 4 ==> Blocks(m, free + given) == Blocks(m, free)
    decreases 4 - l
  {
    forall i: nat | i < Slots(l) && i != j ensures Pages(l, i) !! given { }
    assert Blocks(l, free + given) == Blocks(l, free);
    if l < 3 {
      var up, u := j / 2, l + 1;
      assert j == 2 * up || j == 2 * up + 1;
      PagesOfChildren(u, up);
      AndOfChildren(u, up, free + given);
      GiveIncomplete(u, up, free, given);
    }
  }

  /** If the sibling is not free, nothing above is completed, so the upward walk may stop there. */
  lemma GiveStops(l: nat, j: nat, free: set<nat>, given: set<nat>)
    requires l < 3 && j < Slots(l) && given <= Pages(l, j) && Sibling(j) !in Blocks(l, free + given)
    ensures forall m :: l < m < 4 ==> Blocks(m, free + given) == Blocks(m, free)
  {
    var up, u := j / 2, l + 1;
    PagesOfChildren(u, up);
    AndOfChildren(u, up, free + given);
    GiveIncomplete(u, up, free, given);
  }

  /** Giving back a whole block sets the bits of all blocks inside it and no other on their level,
      below the block itself. */
  lemma GiveWhole(n: nat, i: nat, l: nat, free: set<nat>)
    requires l <= n < 4 && i < Slots(n)
    ensures Blocks(l, free + Pages(n, i)) == Blocks(l, free) + Below(n, i, l)
  {
    forall c: nat | c < Slots(l)
      ensures c in Blocks(l, free + Pages(n, i)) <==> c in Blocks(l, free) || c in Below(n, i, l)
    {
      PagesNonempty(l, c);
      PagesOfBelow(n, i, l, c);
    }
  }

  /** If the sibling is free as well, the block above is completed by the same pages. */
  lemma GiveClimbs(l: nat, j: nat, free: set<nat>, given: set<nat>)
    requires l < 3 && j < Slots(l) && given <= Pages(l, j) <= free + given
    requires Sibling(j) in Blocks(l, free + given)
    ensures j / 2 < Slots(l + 1) && given <= Pages(l + 1, j / 2) <= free + given
  {
    PagesOfChildren(l + 1, j / 2);
    var up := j / 2;
    if j % 2 == 0 {
      assert j == 2 * up && Sibling(j) == 2 * up + 1;
    } else {
      assert j == 2 * up + 1 && Sibling(j) == 2 * up;
    }
  }
}
