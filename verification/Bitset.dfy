/** The word-packed bitset (kernel/util/ds/bitset.hpp).  `mem` is the memory that starts at the bitset:
    its first `n` words are the set, and what follows belongs to the structure the set is part of. */
module Bitset {
  import opened Words

  /** The set itself: the first `n` words of the memory. */
  ghost function Set(mem: seq<nat>, n: nat): set<nat>
    requires n <= |mem|
  {
    Bits(mem[..n])
  }

  lemma SetHas(mem: seq<nat>, n: nat, i: nat)
    requires n <= |mem|
    ensures i in Set(mem, n) <==> i / 32 < n && Bit(mem[i / 32], i % 32)
  {
  }

  method SetBit(mem: seq<nat>, n: nat, index: nat) returns (r: seq<nat>)
    requires n <= |mem| && index / 32 < n && Packed(mem[..n])
    ensures |r| == |mem| && r[n..] == mem[n..] && Packed(r[..n]) && Set(r, n) == Set(mem, n) + {index}
  {
    r := mem[index / 32 := Or(mem[index / 32], One(index % 32))];
    assert r[..n] == Mark(mem[..n], index);
    MarkAdds(mem[..n], index);
  }

  method ClearBit(mem: seq<nat>, n: nat, index: nat) returns (r: seq<nat>)
    requires n <= |mem| && index / 32 < n && Packed(mem[..n])
    ensures |r| == |mem| && r[n..] == mem[n..] && Packed(r[..n]) && Set(r, n) == Set(mem, n) - {index}
  {
    r := mem[index / 32 := AndNot(mem[index / 32], One(index % 32))];
    assert r[..n] == Clear(mem[..n], index);
    ClearRemoves(mem[..n], index);
  }

  method HasBit(mem: seq<nat>, n: nat, index: nat) returns (has: bool)
    requires n <= |mem| && index / 32 < n
    ensures has <==> index in Set(mem, n)
  {
    TestBit(mem[index / 32], index % 32);
    has := And(mem[index / 32], One(index % 32)) != 0;
  }

  /** The lowest index in the set, if there is one. */
  method FindBit(mem: seq<nat>, n: nat) returns (found: bool, index: nat)
    requires n <= |mem| && Packed(mem[..n])
    ensures found <==> Set(mem, n) != {}
    ensures found ==> index in Set(mem, n) && forall i :: i in Set(mem, n) ==> index <= i
  {
    found, index := FindFirst(mem[..n]);
  }

  method ClearAll(mem: seq<nat>, n: nat) returns (r: seq<nat>)
    requires n <= |mem|
    ensures |r| == |mem| && r[n..] == mem[n..] && Packed(r[..n]) && Set(r, n) == {}
  {
    r := mem;
    for i := 0 to n
      invariant |r| == |mem| && r[n..] == mem[n..] && forall k :: 0 <= k < i ==> r[k] == 0
    {
      r := r[i := 0];
    }
    forall i: nat ensures !Bit(0, i) { ZeroHasNoBit(i); }
    AllZeroIffEmpty(r[..n]);
  }

  /** Adds all indices below `index` to an empty set.  If `index` is 32 * n, the word behind the set is
      overwritten with zero. */
  method SetAllUntil(mem: seq<nat>, n: nat, index: nat) returns (r: seq<nat>)
    requires n <= |mem| && index / 32 < |mem| && index <= 32 * n
    requires AllZero(mem[..n])
    ensures |r| == |mem| && Packed(r[..n])
    ensures r[n..] == if index < 32 * n then mem[n..] else mem[n := 0][n..]
    ensures forall i: nat :: i in Set(r, n) <==> i < index
  {
    var before := index / 32;
    r := mem;
    for i := 0 to before
      invariant |r| == |mem| && forall k :: before <= k < |mem| ==> r[k] == mem[k]
      invariant forall k :: 0 <= k < i ==> r[k] == One(32) - 1
    {
      r := r[i := One(32) - 1];
    }
    r := r[before := One(index % 32) - 1];
    assert forall k :: 0 <= k < n ==> mem[..n][k] == mem[k];
    WordsUntil(r, n, index);
  }

  lemma WordsUntil(r: seq<nat>, n: nat, index: nat)
    requires n <= |r| && index / 32 < |r| && index <= 32 * n
    requires forall k :: 0 <= k < index / 32 ==> r[k] == One(32) - 1
    requires r[index / 32] == One(index % 32) - 1
    requires forall k :: index / 32 < k < n ==> r[k] == 0
    ensures Packed(r[..n]) && forall i: nat :: i in Set(r, n) <==> i < index
  {
    forall k: nat, j: nat | k < n
      ensures Bit(r[k], j) <==> j < (if k < index / 32 then 32 else if k == index / 32 then index % 32 else 0)
    {
      if k < index / 32 { MaskBit(32, j); }
      else if k == index / 32 { MaskBit(index % 32, j); }
      else { ZeroHasNoBit(j); }
    }
    forall i: nat ensures i in Set(r, n) <==> i < index {
      SetHas(r, n, i);
    }
  }

  /** Whether no index below `index` is in the set. */
  method AllClearUntil(mem: seq<nat>, n: nat, index: nat) returns (clear: bool)
    requires n <= |mem| && index / 32 < |mem| && index <= 32 * n && Packed(mem[..n])
    ensures clear <==> forall i: nat :: i < index ==> i !in Set(mem, n)
  {
    var before := index / 32;
    for k := 0 to before
      invariant forall x :: 0 <= x < k ==> mem[x] == 0
    {
      if mem[k] != 0 {
        var b := Ctz(mem[k]);
        assert Fits(mem[..n][k]);
        assert (32 * k + b) / 32 == k && (32 * k + b) % 32 == b;
        SetHas(mem, n, 32 * k + b);
        return false;
      }
    }
    var rest := And(mem[before], One(index % 32) - 1);
    clear := rest == 0;
    forall j: nat ensures Bit(rest, j) <==> Bit(mem[before], j) && j < index % 32 {
      AndBit(mem[before], One(index % 32) - 1, j);
      MaskBit(index % 32, j);
    }
    if clear {
      forall i: nat | i < index ensures i !in Set(mem, n) {
        SetHas(mem, n, i);
        ZeroHasNoBit(i % 32);
        if i / 32 == before { assert Bit(rest, i % 32) <==> Bit(mem[before], i % 32); }
      }
    } else {
      var b := Ctz(rest);
      assert Bit(rest, b);
      assert (32 * before + b) / 32 == before && (32 * before + b) % 32 == b;
      SetHas(mem, n, 32 * before + b);
    }
  }
}
