/** Machine words as natural numbers, the bit operations the kernel uses on them, and bitmaps packed
    into sequences of 32-bit words (kernel/util/ds/bitset.hpp and the bitmaps of
    kernel/memory/page_allocator.cpp). */
module Words {

  predicate Bit(w: nat, i: nat) {
    if i == 0 then w % 2 == 1 else Bit(w / 2, i - 1)
  }

  /** a | b */
  function Or(a: nat, b: nat): nat
    decreases a
  {
    if a == 0 then b else 2 * Or(a / 2, b / 2) + (if a % 2 == 1 then 1 else b % 2)
  }

  /** a & b */
  function And(a: nat, b: nat): nat
    decreases a
  {
    if a == 0 then 0 else 2 * And(a / 2, b / 2) + (if a % 2 == 1 then b % 2 else 0)
  }

  /** a & ~b */
  function AndNot(a: nat, b: nat): nat
    decreases a
  {
    if a == 0 then 0 else 2 * AndNot(a / 2, b / 2) + (if a % 2 == 1 then 1 - b % 2 else 0)
  }

  /** 1 << i */
  function One(i: nat): (w: nat)
    ensures w > 0
  {
    if i == 0 then 1 else 2 * One(i - 1)
  }

  /** The number of trailing zero bits, as __builtin_ctz counts them. */
  function Ctz(w: nat): (i: nat)
    requires w != 0
    ensures Bit(w, i) && forall j :: 0 <= j < i ==> !Bit(w, j)
  {
    if w % 2 == 1 then 0 else
      assert forall j :: 0 < j ==> Bit(w, j) == Bit(w / 2, j - 1);
      Ctz(w / 2) + 1
  }

  lemma {:induction false} ZeroHasNoBit(i: nat)
    ensures !Bit(0, i)
  {
    if i > 0 { ZeroHasNoBit(i - 1); }
  }

  lemma {:induction false} OrBit(a: nat, b: nat, i: nat)
    ensures Bit(Or(a, b), i) <==> Bit(a, i) || Bit(b, i)
    decreases i
  {
    if a == 0 { ZeroHasNoBit(i); }
    else if i > 0 { OrBit(a / 2, b / 2, i - 1); }
  }

  lemma {:induction false} AndBit(a: nat, b: nat, i: nat)
    ensures Bit(And(a, b), i) <==> Bit(a, i) && Bit(b, i)
    decreases i
  {
    if a == 0 { ZeroHasNoBit(i); }
    else if i > 0 { AndBit(a / 2, b / 2, i - 1); }
  }

  lemma {:induction false} AndNotBit(a: nat, b: nat, i: nat)
    ensures Bit(AndNot(a, b), i) <==> Bit(a, i) && !Bit(b, i)
    decreases i
  {
    if a == 0 { ZeroHasNoBit(i); }
    else if i > 0 { AndNotBit(a / 2, b / 2, i - 1); }
  }

  /** Clearing the bits of b that are set in a clears the bits of b. */
  lemma {:induction false} AndNotMasked(a: nat, b: nat)
    ensures AndNot(a, And(a, b)) == AndNot(a, b)
    decreases a
  {
    if a > 0 { AndNotMasked(a / 2, b / 2); }
  }

  lemma {:induction false} OneBit(k: nat, i: nat)
    ensures Bit(One(k), i) <==> i == k
    decreases i
  {
    if k == 0 {
      if i > 0 { ZeroHasNoBit(i - 1); }
    } else if i > 0 {
      OneBit(k - 1, i - 1);
    }
  }

  /** (1 << k) - 1 has exactly the bits below k. */
  lemma {:induction false} MaskBit(k: nat, i: nat)
    ensures Bit(One(k) - 1, i) <==> i < k
    decreases i
  {
    if k == 0 { ZeroHasNoBit(i); }
    else if i > 0 {
      assert (One(k) - 1) / 2 == One(k - 1) - 1;
      MaskBit(k - 1, i - 1);
    }
  }

  /** No bit beyond the 32nd. */
  ghost predicate Fits(w: nat) {
    forall i: nat :: i >= 32 ==> !Bit(w, i)
  }

  // ---------------------------------------------------------------- packed bitmaps

  ghost predicate Packed(ws: seq<nat>) {
    forall k :: 0 <= k < |ws| ==> Fits(ws[k])
  }

  /** Bit `i` of the bitmap: word i >> 5, bit i & 0x1F. */
  predicate Has(ws: seq<nat>, i: nat) {
    i / 32 < |ws| && Bit(ws[i / 32], i % 32)
  }

  /** The bitmap as the set of its indices. */
  ghost function Bits(ws: seq<nat>): (s: set<nat>)
    ensures forall i :: i in s <==> Has(ws, i)
  {
    set i: nat | i < 32 * |ws| && Has(ws, i)
  }

  function Mark(ws: seq<nat>, i: nat): (r: seq<nat>)
    requires i / 32 < |ws|
    ensures |r| == |ws|
  {
    ws[i / 32 := Or(ws[i / 32], One(i % 32))]
  }

  function Clear(ws: seq<nat>, i: nat): (r: seq<nat>)
    requires i / 32 < |ws|
    ensures |r| == |ws|
  {
    ws[i / 32 := AndNot(ws[i / 32], One(i % 32))]
  }

  lemma MarkAdds(ws: seq<nat>, i: nat)
    requires Packed(ws) && i / 32 < |ws|
    ensures Packed(Mark(ws, i)) && Bits(Mark(ws, i)) == Bits(ws) + {i}
  {
    forall j: nat ensures Bit(Or(ws[i / 32], One(i % 32)), j) <==> Bit(ws[i / 32], j) || j == i % 32 {
      OrBit(ws[i / 32], One(i % 32), j);
      OneBit(i % 32, j);
    }
    forall j: nat ensures Has(Mark(ws, i), j) <==> Has(ws, j) || j == i {
      assert j / 32 == i / 32 && j % 32 == i % 32 ==> j == i;
    }
  }

  lemma ClearRemoves(ws: seq<nat>, i: nat)
    requires Packed(ws) && i / 32 < |ws|
    ensures Packed(Clear(ws, i)) && Bits(Clear(ws, i)) == Bits(ws) - {i}
  {
    forall j: nat ensures Bit(AndNot(ws[i / 32], One(i % 32)), j) <==> Bit(ws[i / 32], j) && j != i % 32 {
      AndNotBit(ws[i / 32], One(i % 32), j);
      OneBit(i % 32, j);
    }
    forall j: nat ensures Has(Clear(ws, i), j) <==> Has(ws, j) && j != i {
      assert j / 32 == i / 32 && j % 32 == i % 32 ==> j == i;
    }
  }

  /** A word is determined by its bits. */
  lemma {:induction false} WordOfBits(a: nat, b: nat)
    requires forall i: nat :: Bit(a, i) == Bit(b, i)
    ensures a == b
    decreases a + b
  {
    if a + b > 0 {
      forall i: nat ensures Bit(a / 2, i) == Bit(b / 2, i) {
        assert Bit(a, i + 1) == Bit(b, i + 1);
      }
      assert Bit(a, 0) == Bit(b, 0);
      WordOfBits(a / 2, b / 2);
    }
  }

  /** A packed bitmap is determined by the set it stands for. */
  lemma BitmapOfSet(ws: seq<nat>, vs: seq<nat>)
    requires Packed(ws) && Packed(vs) && |ws| == |vs| && Bits(ws) == Bits(vs)
    ensures ws == vs
  {
    forall k: nat | k < |ws| ensures ws[k] == vs[k] {
      forall i: nat ensures Bit(ws[k], i) == Bit(vs[k], i) {
        assert Fits(ws[k]) && Fits(vs[k]);
        if i < 32 {
          assert (32 * k + i) / 32 == k && (32 * k + i) % 32 == i;
          assert 32 * k + i in Bits(ws) <==> 32 * k + i in Bits(vs);
        }
      }
      WordOfBits(ws[k], vs[k]);
    }
  }

  /** Testing a bit as the code does: word & (1 << bit). */
  lemma TestBit(w: nat, i: nat)
    ensures And(w, One(i)) != 0 <==> Bit(w, i)
  {
    var a := And(w, One(i));
    if a != 0 {
      AndBit(w, One(i), Ctz(a));
      OneBit(i, Ctz(a));
    } else {
      ZeroHasNoBit(i);
      AndBit(w, One(i), i);
      OneBit(i, i);
    }
  }

  ghost predicate AllZero(ws: seq<nat>) {
    forall k :: 0 <= k < |ws| ==> ws[k] == 0
  }

  lemma AllZeroIffEmpty(ws: seq<nat>)
    requires Packed(ws)
    ensures AllZero(ws) <==> Bits(ws) == {}
  {
    if AllZero(ws) {
      forall i: nat ensures !Has(ws, i) { ZeroHasNoBit(i % 32); }
    } else {
      var k :| 0 <= k < |ws| && ws[k] != 0;
      var b := Ctz(ws[k]);
      assert b < 32;
      assert (32 * k + b) / 32 == k && (32 * k + b) % 32 == b;
      assert Has(ws, 32 * k + b);
    }
  }

  /** The lowest set bit, word by word. */
  method FindFirst(ws: seq<nat>) returns (found: bool, index: nat)
    requires Packed(ws)
    ensures found <==> Bits(ws) != {}
    ensures found ==> index in Bits(ws) && forall i :: i in Bits(ws) ==> index <= i
  {
    AllZeroIffEmpty(ws);
    index := 0;
    for k := 0 to |ws|
      invariant forall x :: 0 <= x < k ==> ws[x] == 0
    {
      if ws[k] != 0 {
        var b := Ctz(ws[k]);
        assert b < 32;
        index := 32 * k + b;
        assert index / 32 == k && index % 32 == b;
        forall i | i in Bits(ws) ensures index <= i {
          assert Has(ws, i);
          if i < index {
            if i / 32 < k { ZeroHasNoBit(i % 32); }
          }
        }
        return true, index;
      }
    }
    return false, 0;
  }
}
