/** The circular intrusive doubly linked list (kernel/util/ds/list.hpp). */
module Ring {

  /** A list node.  `id` stands for the object the node is embedded in. */
  class Link {
    const id: int
    var prev: Link
    var next: Link

    constructor (i: int)
      ensures id == i && IsRing([this])
    {
      id, prev, next := i, this, this;
    }

    predicate Lonely()
      reads this
    {
      next == this
    }

    /** Takes this node out of the ring `s`, which is written starting at this node. */
    method Unlink(ghost s: seq<Link>)
      requires IsRing(s) && s[0] == this
      modifies this, prev`next, next`prev
      ensures IsRing([this])
      ensures |s| > 1 ==> IsRing(s[1..])
    {
      assert s[|s| - 1] == prev && (|s| > 1 ==> s[1] == next);
      assert forall i :: 0 < i < |s| ==> s[i] != this;
      prev.next := next;
      next.prev := prev;
      prev := this;
      next := this;
      if |s| > 1 {
        assert forall i :: 0 <= i < |s| - 1 ==> s[1..][i] == s[i + 1];
      }
    }

    /** Puts `n` into the ring `s` right after this node. */
    method AddAfterSelf(n: Link, ghost s: seq<Link>)
      requires IsRing(s) && s[0] == this && n !in s
      modifies this`next, next`prev, n
      ensures IsRing([this, n] + s[1..])
    {
      n.next := next;
      n.prev := this;
      next.prev := n;
      next := n;
    }
  }

  /** The nodes `s` form one ring: the next and prev pointers run through `s` and wrap around. */
  ghost predicate IsRing(s: seq<Link>)
    reads s
  {
    && |s| > 0
    && (forall i, j :: 0 <= i < j < |s| ==> s[i] != s[j])
    && (forall i {:trigger s[i].next} :: 0 <= i < |s| ==> s[i].next == if i + 1 < |s| then s[i + 1] else s[0])
    && (forall i {:trigger s[i].prev} :: 0 <= i < |s| ==> s[i].prev == if i > 0 then s[i - 1] else s[|s| - 1])
  }

  /** A ring may be read starting at any of its nodes. */
  lemma Rotated(s: seq<Link>, k: nat)
    requires IsRing(s) && k < |s|
    ensures IsRing(s[k..] + s[..k]) && (s[k..] + s[..k])[0] == s[k]
  {
    var n, r := |s|, s[k..] + s[..k];
    assert forall i {:trigger r[i]} :: 0 <= i < n ==> r[i] == if i + k < n then s[i + k] else s[i + k - n];
  }

  /** A node is alone in its ring exactly if it points to itself. */
  lemma LonelyMeansAlone(s: seq<Link>, k: nat)
    requires IsRing(s) && k < |s|
    ensures s[k].Lonely() <==> |s| == 1
  {
    assert s[k].next == if k + 1 < |s| then s[k + 1] else s[0];
  }

  /** Iteration from a node, until that node comes up again, visits its ring once around. */
  method Iterate(start: Link, ghost s: seq<Link>) returns (visited: seq<Link>)
    requires IsRing(s) && s[0] == start
    ensures visited == s
  {
    visited := [];
    var node, firstTime := start, true;
    while node != start || firstTime
      invariant |visited| <= |s| && visited == s[..|visited|]
      invariant firstTime <==> |visited| == 0
      invariant node == if |visited| < |s| then s[|visited|] else s[0]
      decreases |s| - |visited|
    {
      visited := visited + [node];
      node, firstTime := node.next, false;
    }
  }

  /** Appends `n` to the list with sentinel `head`: what block_on does. */
  method Append(head: Link, n: Link, ghost rest: seq<Link>)
    requires IsRing([head] + rest) && n !in [head] + rest
    modifies n, head, rest
    ensures IsRing([head] + rest + [n])
  {
    ghost var s, k := [head] + rest, |rest|;
    Rotated(s, k);
    assert s[0] == head && s[0].prev == s[k];
    head.prev.AddAfterSelf(n, s[k..] + s[..k]);
    FromLast(s, n);
  }

  /** A ring that is read from its last node but one on may be read from its first. */
  lemma FromLast(s: seq<Link>, n: Link)
    requires |s| > 0
    requires var k := |s| - 1; IsRing([s[k], n] + (s[k..] + s[..k])[1..])
    ensures IsRing(s + [n])
  {
    var k := |s| - 1;
    var t := [s[k], n] + (s[k..] + s[..k])[1..];
    assert (s[k..] + s[..k])[1..] == s[..k] && s == s[..k] + [s[k]];
    if k == 0 {
      assert t == s + [n];
    } else {
      Rotated(t, 2);
      assert t[2..] + t[..2] == s[..k] + [s[k], n] == s + [n];
    }
  }

  /** Unlinking a node undoes adding it. */
  method AddThenUnlink(at: Link, n: Link, ghost s: seq<Link>)
    requires IsRing(s) && s[0] == at && n !in s
    modifies n, s
    ensures IsRing(s) && IsRing([n])
  {
    at.AddAfterSelf(n, s);
    ghost var t := [at, n] + s[1..];
    Rotated(t, 1);
    ghost var u := t[1..] + t[..1];
    n.Unlink(u);
    assert u[1..] == s[1..] + [at];
    Rotated(u[1..], |s| - 1);
    assert u[1..][|s| - 1..] + u[1..][..|s| - 1] == s;
  }
}
