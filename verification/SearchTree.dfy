/** The intrusive binary search tree with parent pointers (kernel/util/ds/rbtree.hpp).

    Nodes are heap objects whose parent and child pointers are rewritten in place.  The ghost map
    `cells` mirrors the pointers of every node of the tree and adds the open interval (lo, hi) of
    keys its subtree may hold.  With the intervals the representation invariant is flat: it
    quantifies over nodes and pairs of nodes and never recurses over the tree, and a removal
    changes the intervals only by renaming the removed key to the key of the spliced node. */
module SearchTree {

  datatype Dir = Left | Right {
    function Flip(): (d: Dir)
      ensures d != this
    {
      if this == Left then Right else Left
    }
  }

  class Node {
    const key: int
    var parent: Node?
    var left: Node?
    var right: Node?

    constructor (k: int)
      ensures key == k && parent == null && left == null && right == null
    {
      key, parent, left, right := k, null, null, null;
    }

    function Child(d: Dir): Node?
      reads this
    {
      if d == Left then left else right
    }

    method DirOfChild(child: Node) returns (d: Dir)
      requires child == left || child == right
      ensures Child(d) == child
      ensures d == Left <==> child == left
    {
      d := if child == left then Left else Right;
    }
  }

  /** The pointers of one node, and the open interval of keys of its subtree. */
  datatype Cell = Cell(parent: Node?, left: Node?, right: Node?, lo: int, hi: int) {
    ghost function Child(d: Dir): Node? {
      if d == Left then left else right
    }
    ghost function WithChild(d: Dir, c: Node?): Cell {
      if d == Left then this.(left := c) else this.(right := c)
    }
  }

  type Cells = map<Node, Cell>

  /** Pointer agreement around one node, and the intervals of its children. */
  ghost predicate Linked(c: Cells, root: Node?, n: Node)
    requires n in c
  {
    var x := c[n];
    && x.lo < n.key < x.hi
    && (x.left != null ==>
          && x.left in c && c[x.left].parent == n
          && c[x.left].lo == x.lo && c[x.left].hi == n.key)
    && (x.right != null ==>
          && x.right in c && c[x.right].parent == n
          && c[x.right].lo == n.key && c[x.right].hi == x.hi)
    && (x.parent == null ==> n == root)
    && (x.parent != null ==>
          x.parent in c && (c[x.parent].left == n || c[x.parent].right == n))
  }

  /** If the key of `m` lies in the interval of `n` then `m` sits below `n`, on the side its key
      says, and `n` has a child there. */
  ghost predicate Nested(c: Cells, n: Node, m: Node)
    requires n in c && m in c
  {
    c[n].lo < m.key < c[n].hi && m != n ==>
      && m.key != n.key
      && (m.key < n.key ==> c[n].left != null && c[n].lo <= c[m].lo && c[m].hi <= n.key)
      && (n.key < m.key ==> c[n].right != null && n.key <= c[m].lo && c[m].hi <= c[n].hi)
  }

  /** The map describes one tree hanging from `root`, whose keys lie in (bottom, top). */
  ghost predicate WellFormed(c: Cells, root: Node?, bottom: int, top: int) {
    && (root == null <==> c.Keys == {})
    && (root != null ==>
          && root in c && c[root].parent == null
          && c[root].lo == bottom && c[root].hi == top)
    && (forall n {:trigger Linked(c, root, n)} :: n in c ==>
          Linked(c, root, n) && bottom <= c[n].lo && c[n].hi <= top)
    && (forall n, m {:trigger Nested(c, n, m)} :: n in c && m in c ==> Nested(c, n, m))
  }

  // ---------------------------------------------------------------- sequences of nodes

  /** Strictly increasing keys. */
  ghost predicate Sorted(s: seq<Node>) {
    forall i, j :: 0 <= i < j < |s| ==> s[i].key < s[j].key
  }

  /** The sequence `s` with every occurrence of `x` taken out. */
  ghost function Without(s: seq<Node>, x: Node): (r: seq<Node>)
    ensures forall n :: n in r ==> n in s && n != x
    ensures forall n :: n in s && n != x ==> n in r
  {
    if s == [] then []
    else if s[0] == x then Without(s[1..], x)
    else [s[0]] + Without(s[1..], x)
  }

  lemma {:induction false} WithoutSorted(s: seq<Node>, x: Node)
    requires Sorted(s)
    ensures Sorted(Without(s, x))
  {
    if s != [] {
      WithoutSorted(s[1..], x);
      assert forall n :: n in s[1..] ==> s[0].key < n.key;
    }
  }

  /** A strictly increasing sequence is determined by its set of nodes. */
  lemma {:induction false} SortedUnique(s: seq<Node>, t: seq<Node>)
    requires Sorted(s) && Sorted(t)
    requires forall n :: n in s <==> n in t
    ensures s == t
  {
    if s == [] {
      assert forall i :: 0 <= i < |t| ==> t[i] in t;
    } else {
      assert s[0] in t;
      assert t[0] in s;
      assert s[0] == t[0];
      forall n ensures n in s[1..] <==> n in t[1..] {
        assert n in s[1..] <==> n in s && n != s[0];
        assert n in t[1..] <==> n in t && n != t[0];
      }
      SortedUnique(s[1..], t[1..]);
    }
  }

  lemma SortedJoin(s: seq<Node>, n: Node, t: seq<Node>)
    requires Sorted(s) && Sorted(t)
    requires forall m :: m in s ==> m.key < n.key
    requires forall m :: m in t ==> n.key < m.key
    ensures Sorted(s + [n] + t)
  {
    assert forall i :: 0 <= i < |s| ==> s[i] in s;
    assert forall i :: 0 <= i < |t| ==> t[i] in t;
  }

  ghost function IndexOf(s: seq<Node>, n: Node): (i: nat)
    requires n in s
    ensures i < |s| && s[i] == n
  {
    if s[0] == n then 0 else 1 + IndexOf(s[1..], n)
  }

  /** The node before (Left) or after (Right) `n` in `s`, or null at the end. */
  ghost function Neighbour(s: seq<Node>, n: Node, d: Dir): Node?
    requires n in s
  {
    var i := IndexOf(s, n);
    if d == Right then (if i + 1 < |s| then s[i + 1] else null)
                  else (if i > 0 then s[i - 1] else null)
  }

  /** Stepping forwards and then backwards comes back to the start, and conversely. */
  lemma NeighbourInverse(s: seq<Node>, n: Node, d: Dir)
    requires Sorted(s) && n in s
    ensures Neighbour(s, n, d) != null ==>
              Neighbour(s, n, d) in s && Neighbour(s, Neighbour(s, n, d), d.Flip()) == n
  {
    var r := Neighbour(s, n, d);
    if r != null {
      assert r == s[IndexOf(s, n) + if d == Right then 1 else -1];
      assert s[IndexOf(s, r)] == r;
      assert IndexOf(s, r) == IndexOf(s, n) + if d == Right then 1 else -1;
    }
  }

  /** `m` lies strictly on side `d` of `n`. */
  ghost predicate Beyond(n: Node, m: Node, d: Dir) {
    if d == Right then n.key < m.key else m.key < n.key
  }

  /** `r` is the node closest to `n` on side `d`, or null if there is none. */
  ghost predicate NextTo(nodes: set<Node>, n: Node, r: Node?, d: Dir) {
    && (r != null ==> r in nodes && Beyond(n, r, d))
    && (forall m {:trigger Beyond(n, m, d)} :: m in nodes && Beyond(n, m, d) ==>
          r != null && !Beyond(m, r, d))
  }

  /** The closest node on a side of `n` is its neighbour in the sorted sequence. */
  lemma ClosestIsNeighbour(nodes: set<Node>, s: seq<Node>, n: Node, r: Node?, d: Dir)
    requires Sorted(s) && n in s
    requires forall m :: m in s <==> m in nodes
    requires NextTo(nodes, n, r, d)
    ensures r == Neighbour(s, n, d)
  {
    var x := Neighbour(s, n, d);
    if x != null { assert x in s && Beyond(n, x, d); }
    if r != null { assert s[IndexOf(s, r)] == r; }
  }

  // ---------------------------------------------------------------- in-order reading

  /** The nodes below `n` in the order left subtree, node, right subtree, read off the pointers. */
  ghost function InOrder(c: Cells, root: Node?, bottom: int, top: int, n: Node?): seq<Node>
    requires WellFormed(c, root, bottom, top) && (n != null ==> n in c)
    decreases if n == null then 0 else c[n].hi - c[n].lo
  {
    if n == null then [] else
      assert Linked(c, root, n);
      assert c[n].left != null ==> Linked(c, root, c[n].left);
      assert c[n].right != null ==> Linked(c, root, c[n].right);
      InOrder(c, root, bottom, top, c[n].left) + [n] + InOrder(c, root, bottom, top, c[n].right)
  }

  ghost predicate Inside(c: Cells, n: Node?, m: Node)
    requires n != null ==> n in c
  {
    n != null && m in c && c[n].lo < m.key < c[n].hi
  }

  /** The subtree of `n` holds exactly the nodes with a key in its interval, in increasing order. */
  lemma {:induction false} InOrderOfSubtree(c: Cells, root: Node?, bottom: int, top: int, n: Node?)
    requires WellFormed(c, root, bottom, top) && (n != null ==> n in c)
    ensures Sorted(InOrder(c, root, bottom, top, n))
    ensures forall m {:trigger Inside(c, n, m)} :: m in InOrder(c, root, bottom, top, n) <==> Inside(c, n, m)
    decreases if n == null then 0 else c[n].hi - c[n].lo
  {
    if n != null {
      assert Linked(c, root, n);
      var l, r := c[n].left, c[n].right;
      var sl, sr := InOrder(c, root, bottom, top, l), InOrder(c, root, bottom, top, r);
      assert l != null ==> Linked(c, root, l);
      assert r != null ==> Linked(c, root, r);
      InOrderOfSubtree(c, root, bottom, top, l);
      InOrderOfSubtree(c, root, bottom, top, r);
      forall m | m in sl ensures m.key < n.key { assert Inside(c, l, m); }
      forall m | m in sr ensures n.key < m.key { assert Inside(c, r, m); }
      SortedJoin(sl, n, sr);
      forall m ensures m in sl + [n] + sr <==> Inside(c, n, m) {
        assert m in sl <==> Inside(c, l, m);
        assert m in sr <==> Inside(c, r, m);
        if m in c { assert Nested(c, n, m); }
      }
    }
  }

  lemma InOrderOfTree(c: Cells, root: Node?, bottom: int, top: int)
    requires WellFormed(c, root, bottom, top)
    ensures Sorted(InOrder(c, root, bottom, top, root))
    ensures forall m :: m in InOrder(c, root, bottom, top, root) <==> m in c
  {
    InOrderOfSubtree(c, root, bottom, top, root);
    forall m ensures m in c <==> Inside(c, root, m) {
      if m in c { assert Linked(c, root, m); }
    }
  }

  lemma NeighbourInTree(c: Cells, root: Node?, bottom: int, top: int, n: Node, r: Node?, d: Dir)
    requires WellFormed(c, root, bottom, top) && n in c && NextTo(c.Keys, n, r, d)
    ensures n in InOrder(c, root, bottom, top, root)
    ensures r == Neighbour(InOrder(c, root, bottom, top, root), n, d)
  {
    InOrderOfTree(c, root, bottom, top);
    ClosestIsNeighbour(c.Keys, InOrder(c, root, bottom, top, root), n, r, d);
  }

  /** The node at position `i` of the in-order reading is in the tree and occurs there only. */
  lemma AtPosition(c: Cells, root: Node?, bottom: int, top: int, i: nat)
    requires WellFormed(c, root, bottom, top) && i < |InOrder(c, root, bottom, top, root)|
    ensures var s := InOrder(c, root, bottom, top, root);
      s[i] in c && s[i] in s && IndexOf(s, s[i]) == i
  {
    InOrderOfTree(c, root, bottom, top);
    var s := InOrder(c, root, bottom, top, root);
    assert s[i] in s;
    assert s[IndexOf(s, s[i])] == s[i];
  }

  // ---------------------------------------------------------------- insertion

  /** What the descent towards `key` knows about a node: its interval misses `key`, or lies within
      the interval (a, b) still to be searched, or has (a, b) on the side the descent took. */
  ghost predicate Passed(c: Cells, n: Node, key: int, a: int, b: int, parent: Node?)
    requires n in c
  {
    || !(c[n].lo < key < c[n].hi)
    || (a <= c[n].lo && c[n].hi <= b)
    || (key < n.key && c[n].lo <= a && b <= n.key && (n == parent || c[n].left != null))
    || (n.key < key && n.key <= a && b <= c[n].hi && (n == parent || c[n].right != null))
  }

  /** One step of the descent, from `node` to its child on the side of `key`. */
  lemma PassedBelow(c: Cells, root: Node?, bottom: int, top: int, key: int, a: int, b: int,
                    parent: Node?, dir: Dir, node: Node, n: Node)
    requires WellFormed(c, root, bottom, top) && node in c && n in c
    requires c[node].lo == a && c[node].hi == b && a < key < b
    requires parent != null ==>
               parent in c && node == c[parent].Child(dir) && (dir == Left <==> key < parent.key)
    requires Passed(c, n, key, a, b, parent)
    ensures key < node.key ==> Passed(c, n, key, a, node.key, node)
    ensures key > node.key ==> Passed(c, n, key, node.key, b, node)
  {
    assert Linked(c, root, n) && Nested(c, node, n) && Linked(c, root, node);
  }

  /** The place `dir` of `parent` is free and (a, b) is the interval of keys that belong there. */
  ghost predicate Vacant(c: Cells, root: Node?, bottom: int, top: int,
                         parent: Node?, dir: Dir, a: int, b: int)
  {
    if parent == null then root == null && a == bottom && b == top else
      && parent in c && c[parent].Child(dir) == null
      && (if dir == Left then a == c[parent].lo && b == parent.key
                         else a == parent.key && b == c[parent].hi)
  }

  ghost function Widened(c: Cells, a: int, b: int, bottom: int, top: int): Cells {
    map n | n in c ::
      c[n].(lo := if c[n].lo == a then bottom else c[n].lo,
            hi := if c[n].hi == b then top else c[n].hi)
  }

  /** The outermost interval may be widened without touching a pointer. */
  lemma WidenWellFormed(c: Cells, root: Node?, a: int, b: int, bottom: int, top: int)
    requires WellFormed(c, root, a, b) && bottom <= a && b <= top
    ensures WellFormed(Widened(c, a, b, bottom, top), root, bottom, top)
  {
    var w := Widened(c, a, b, bottom, top);
    forall n | n in w ensures Linked(w, root, n) && bottom <= w[n].lo && w[n].hi <= top {
      assert Linked(c, root, n);
    }
    forall n, m | n in w && m in w ensures Nested(w, n, m) {
      assert Linked(c, root, n) && Linked(c, root, m) && Nested(c, n, m);
    }
    assert root == null ==> w.Keys == {};
  }

  /** The cells after `node` is hung below `parent` on side `dir`. */
  ghost function Hung(c: Cells, node: Node, parent: Node?, dir: Dir, a: int, b: int): Cells
    requires parent == null || parent in c
  {
    var c1 := c[node := Cell(parent, null, null, a, b)];
    if parent == null then c1 else c1[parent := c[parent].WithChild(dir, node)]
  }

  /** Hanging a new node in a vacant place that the descent reached keeps the tree well formed. */
  lemma HungWellFormed(c: Cells, root: Node?, bottom: int, top: int,
                       node: Node, parent: Node?, dir: Dir, a: int, b: int)
    requires WellFormed(c, root, bottom, top)
    requires node !in c && a < node.key < b && Vacant(c, root, bottom, top, parent, dir, a, b)
    requires forall n {:trigger Passed(c, n, node.key, a, b, parent)} :: n in c ==>
               Passed(c, n, node.key, a, b, parent)
    ensures WellFormed(Hung(c, node, parent, dir, a, b), if parent == null then node else root, bottom, top)
  {
    var h := Hung(c, node, parent, dir, a, b);
    var r := if parent == null then node else root;
    forall n | n in h ensures Linked(h, r, n) && bottom <= h[n].lo && h[n].hi <= top {
      if parent != null { assert Linked(c, root, parent); }
      if n != node { assert Linked(c, root, n); }
    }
    forall n, m | n in h && m in h ensures Nested(h, n, m) {
      if n != node && m != node {
        assert Nested(c, n, m);
      } else if n != node {
        assert Linked(c, root, n) && Passed(c, n, node.key, a, b, parent);
        NoneInside(c, root, bottom, top, parent, dir, a, b, n);
      } else if m != node {
        NoneInside(c, root, bottom, top, parent, dir, a, b, m);
      }
    }
  }

  /** Where the descent has run off the tree, no key lies in the remaining interval. */
  lemma NoneInside(c: Cells, root: Node?, bottom: int, top: int,
                   parent: Node?, dir: Dir, a: int, b: int, n: Node)
    requires WellFormed(c, root, bottom, top) && Vacant(c, root, bottom, top, parent, dir, a, b)
    requires n in c
    ensures !(a < n.key < b)
  {
    if parent != null {
      assert Linked(c, root, parent) && Nested(c, parent, n);
    }
  }

  // ---------------------------------------------------------------- removal

  /** The cell of `n` after `item` is replaced by `r`, the extreme node of its subtree on side `d`:
      pointers to `item` become pointers to `r`, the pointer to `r` becomes one to the only child
      `r` can have, and the removed key is renamed in the intervals. */
  ghost function SplicedCell(c: Cells, item: Node, r: Node, d: Dir, n: Node): Cell
    requires item in c && r in c && n in c
  {
    var k, k', child := item.key, r.key, c[r].Child(d);
    var x := c[n];
    if n == r then
      if c[r].parent == item then c[item].WithChild(d, child) else c[item]
    else
      Cell(if n == child && c[r].parent != item then c[r].parent
           else if n == child || x.parent == item then r
           else x.parent,
           if x.left == item then r else if x.left == r then child else x.left,
           if x.right == item then r else if x.right == r then child else x.right,
           if x.lo == k then k' else x.lo,
           if x.hi == k then k' else x.hi)
  }

  ghost function Spliced(c: Cells, item: Node, r: Node, d: Dir): Cells
    requires item in c && r in c
  {
    map n | n in c && n != item :: SplicedCell(c, item, r, d, n)
  }

  /** `r` is the node of the subtree below `item` on side `d` whose key is closest to `item`. */
  ghost predicate Closest(c: Cells, item: Node, r: Node, d: Dir)
    requires item in c && r in c
  {
    && r != item
    && c[r].Child(d.Flip()) == null
    && (if d == Left then c[r].hi == item.key && c[item].lo <= c[r].lo
                     else c[r].lo == item.key && c[r].hi <= c[item].hi)
  }

  /** The node that moves up is linked as the removed one was. */
  lemma MovedLinked(c: Cells, root: Node?, bottom: int, top: int, item: Node, r: Node, d: Dir)
    requires WellFormed(c, root, bottom, top) && item in c && r in c && Closest(c, item, r, d)
    requires d == Right ==> c[item].left == null
    ensures Linked(Spliced(c, item, r, d), if root == item then r else root, r)
  {
    assert Linked(c, root, item) && Linked(c, root, r) && Nested(c, item, r) && Nested(c, r, item);
    if c[item].left != null { assert Linked(c, root, c[item].left); }
    if c[item].right != null { assert Linked(c, root, c[item].right); }
    if c[item].parent != null { assert Linked(c, root, c[item].parent); }
  }

  /** The other nodes stay linked. */
  lemma OthersLinked(c: Cells, root: Node?, bottom: int, top: int, item: Node, r: Node, d: Dir, n: Node)
    requires WellFormed(c, root, bottom, top) && item in c && r in c && Closest(c, item, r, d)
    requires d == Right ==> c[item].left == null
    requires n in c && n != item && n != r
    ensures Linked(Spliced(c, item, r, d), if root == item then r else root, n)
  {
    assert Linked(c, root, item) && Linked(c, root, r) && Linked(c, root, n);
    assert Nested(c, item, r) && Nested(c, item, n) && Nested(c, n, item);
    assert Nested(c, r, n) && Nested(c, n, r);
  }

  lemma SplicedNested(c: Cells, root: Node?, bottom: int, top: int,
                      item: Node, r: Node, d: Dir, n: Node, m: Node)
    requires WellFormed(c, root, bottom, top) && item in c && r in c && Closest(c, item, r, d)
    requires d == Right ==> c[item].left == null
    requires n in c && n != item && m in c && m != item
    ensures Nested(Spliced(c, item, r, d), n, m)
  {
    assert Linked(c, root, item) && Linked(c, root, r) && Linked(c, root, n) && Linked(c, root, m);
    assert Nested(c, item, r) && Nested(c, item, n) && Nested(c, item, m);
    assert Nested(c, n, r) && Nested(c, m, r) && Nested(c, n, item) && Nested(c, m, item);
    assert Nested(c, r, n) && Nested(c, r, m) && Nested(c, n, m);
  }

  /** Splicing the closest node into the place of `item` keeps the tree well formed, in every shape:
      `r` may be a direct child of `item`, and `item` may be the root. */
  lemma SplicedWellFormed(c: Cells, root: Node?, bottom: int, top: int, item: Node, r: Node, d: Dir)
    requires WellFormed(c, root, bottom, top) && item in c && r in c && Closest(c, item, r, d)
    requires d == Right ==> c[item].left == null
    ensures WellFormed(Spliced(c, item, r, d), if root == item then r else root, bottom, top)
  {
    var s := Spliced(c, item, r, d);
    assert Linked(c, root, item) && Linked(c, root, r);
    forall n | n in s
      ensures Linked(s, if root == item then r else root, n) && bottom <= s[n].lo && s[n].hi <= top
    {
      if n == r {
        MovedLinked(c, root, bottom, top, item, r, d);
      } else {
        OthersLinked(c, root, bottom, top, item, r, d, n);
      }
      assert Linked(c, root, n);
    }
    forall n, m | n in s && m in s ensures Nested(s, n, m) {
      SplicedNested(c, root, bottom, top, item, r, d, n, m);
    }
    assert r in s;
  }

  /** The cells after the leaf `item` is cut off its parent. */
  ghost function Pruned(c: Cells, item: Node): Cells {
    map n | n in c && n != item ::
      c[n].(left := if c[n].left == item then null else c[n].left,
            right := if c[n].right == item then null else c[n].right)
  }

  lemma PrunedWellFormed(c: Cells, root: Node?, bottom: int, top: int, item: Node)
    requires WellFormed(c, root, bottom, top) && item in c
    requires c[item].left == null && c[item].right == null
    ensures WellFormed(Pruned(c, item), if root == item then null else root, bottom, top)
  {
    var s := Pruned(c, item);
    var root' := if root == item then null else root;
    assert Linked(c, root, item);
    if root == item {
      forall n | n in c ensures n == item {
        assert Linked(c, root, n) && Nested(c, item, n);
      }
    } else {
      assert root in s;
    }
    forall n | n in s ensures Linked(s, root', n) && bottom <= s[n].lo && s[n].hi <= top {
      assert Linked(c, root, n);
    }
    forall n, m | n in s && m in s ensures Nested(s, n, m) {
      assert Linked(c, root, m) && Linked(c, root, n);
      assert Nested(c, n, m) && Nested(c, n, item) && Nested(c, item, m);
    }
  }

  ghost function Detached(c: Cells, r: Node): Cells
    requires r in c && c[r].parent != null && c[r].parent in c
    requires c[r].left != null ==> c[r].left in c
    requires c[r].right != null ==> c[r].right in c
  {
    var child := if c[r].left != null then c[r].left else c[r].right;
    var p := c[r].parent;
    var c1 := c[p := c[p].WithChild(if c[p].left == r then Left else Right, child)];
    if child == null then c1 else c1[child := c1[child].(parent := p)]
  }

  /** The children of `item` are adopted by `r`. */
  ghost function Adopted(c: Cells, item: Node, r: Node, d: Dir): Cells
    requires item in c && r in c && (c[item].Child(d) != null ==> c[item].Child(d) in c)
  {
    var x := c[item].Child(d);
    var c1 := c[r := c[r].WithChild(d, x)];
    if x == null then c1 else c1[x := c1[x].(parent := r)]
  }

  ghost predicate Pointers(x: Cell, y: Cell) {
    x.parent == y.parent && x.left == y.left && x.right == y.right
  }

  ghost function Moved(c: Cells, item: Node, r: Node): Cells
    requires item in c && r in c && r != item
    requires c[item].left != null ==> c[item].left in c && c[item].left != item
    requires c[item].right != null ==> c[item].right in c
  {
    var c1 := c[r := c[r].(parent := c[item].parent)];
    Adopted(Adopted(c1, item, r, Left), item, r, Right)
  }

  ghost function Rehung(c: Cells, item: Node, r: Node): Cells
    requires item in c && (c[item].parent != null ==> c[item].parent in c)
  {
    var q := c[item].parent;
    if q == null then c else c[q := c[q].WithChild(if c[q].left == item then Left else Right, r)]
  }

  /** What the pointer writes of a removal rely on: nothing about keys, only which pointers exist. */
  ghost predicate Ready(c: Cells, item: Node, r: Node) {
    && item in c && r in c && r != item
    && c[r].parent != null && c[r].parent in c
    && (c[r].left == null || c[r].right == null)
    && (c[r].left != null ==> c[r].left in c && c[r].left !in {r, item})
    && (c[r].right != null ==> c[r].right in c && c[r].right !in {r, item})
    && (c[item].left != null ==> c[item].left in c && c[item].left != item)
    && (c[item].right != null ==> c[item].right in c && c[item].right != item)
    && (c[item].parent != null ==> c[item].parent in c && c[item].parent !in {item, r, c[r].parent})
  }

  /** Only the parent of `n` points to it, from one side only. */
  ghost predicate PointedFrom(c: Cells, n: Node, x: Node)
    requires n in c && x in c
  {
    && (c[x].left == n ==> c[n].parent == x && c[x].right != n)
    && (c[x].right == n ==> c[n].parent == x && c[x].left != n)
    && (c[n].parent == x ==> c[x].left == n || c[x].right == n)
  }

  ghost function Steps(c: Cells, item: Node, r: Node): Cells
    requires Ready(c, item, r)
  {
    Rehung(Moved(Detached(c, r), item, r), item, r)
  }

  /** Giving `r` the links of `item` changes the children of no other node, and not the parent of `item`. */
  lemma MovedKeeps(c: Cells, item: Node, r: Node, q: Node)
    requires item in c && r in c && r != item && q in c && q != r
    requires c[item].left != null ==> c[item].left in c && c[item].left != item
    requires c[item].right != null ==> c[item].right in c && c[item].right != item
    ensures var m := Moved(c, item, r);
      m.Keys == c.Keys && m[q].left == c[q].left && m[q].right == c[q].right && m[item].parent == c[item].parent
  {
  }

  /** Neither taking `r` out of its place nor giving it the links of `item` touches the place that
      points to `item`. */
  lemma PlaceKept(c: Cells, item: Node, r: Node)
    requires Ready(c, item, r)
    ensures var c1 := Detached(c, r);
      && c1.Keys == c.Keys && c1[item].parent == c[item].parent
      && (c1[item].left != null ==> c1[item].left in c1 && c1[item].left != item)
      && (c1[item].right != null ==> c1[item].right in c1 && c1[item].right != item)
    ensures var c2, q := Moved(Detached(c, r), item, r), c[item].parent;
      && c2.Keys == c.Keys && c2[item].parent == q
      && (q != null ==> c2[q].left == c[q].left && c2[q].right == c[q].right)
  {
    var q := c[item].parent;
    MovedKeeps(Detached(c, r), item, r, if q == null then item else q);
  }

  lemma ReadyToSplice(c: Cells, root: Node?, bottom: int, top: int, item: Node, r: Node, d: Dir)
    requires WellFormed(c, root, bottom, top) && item in c && r in c && Closest(c, item, r, d)
    ensures Ready(c, item, r)
  {
    assert Linked(c, root, item) && Linked(c, root, r);
    assert Nested(c, item, r);
    if c[r].left != null { assert Linked(c, root, c[r].left); }
    if c[r].right != null { assert Linked(c, root, c[r].right); }
    if c[item].parent != null {
      assert Linked(c, root, c[item].parent) && Nested(c, c[item].parent, item);
    }
    if c[r].parent != null { assert Linked(c, root, c[r].parent); }
  }

  lemma ParentPoints(c: Cells, root: Node?, bottom: int, top: int, n: Node, x: Node)
    requires WellFormed(c, root, bottom, top) && n in c && x in c
    ensures PointedFrom(c, n, x)
  {
    assert Linked(c, root, n) && Linked(c, root, x);
  }

  /** The pointer writes of a removal, done one after the other, produce exactly `Spliced`: here for
      the node that moves up. */
  lemma StepsAtMoved(c: Cells, item: Node, r: Node, d: Dir)
    requires Ready(c, item, r) && c[r].Child(d.Flip()) == null
    requires PointedFrom(c, r, item) && PointedFrom(c, item, r)
    requires c[r].parent == item ==> c[item].Child(d) == r
    ensures r in Steps(c, item, r)
    ensures Pointers(Steps(c, item, r)[r], SplicedCell(c, item, r, d, r))
  {
  }

  /** The same for every other node that stays, if the node that moves up is a child of the removed one. */
  lemma StepsNearby(c: Cells, item: Node, r: Node, d: Dir, n: Node)
    requires Ready(c, item, r) && c[r].Child(d.Flip()) == null
    requires n in c && n != item && n != r
    requires PointedFrom(c, r, n) && PointedFrom(c, item, n) && PointedFrom(c, n, item)
    requires PointedFrom(c, r, item) && PointedFrom(c, r, c[r].parent) && PointedFrom(c, n, r)
    requires c[item].parent != null ==> PointedFrom(c, item, c[item].parent)
    requires c[r].parent == item && c[item].Child(d) == r
    ensures n in Steps(c, item, r)
    ensures Pointers(Steps(c, item, r)[n], SplicedCell(c, item, r, d, n))
  {
  }

  /** And if it comes from further down. */
  lemma StepsFarther(c: Cells, item: Node, r: Node, d: Dir, n: Node)
    requires Ready(c, item, r) && c[r].Child(d.Flip()) == null
    requires n in c && n != item && n != r
    requires PointedFrom(c, r, n) && PointedFrom(c, item, n) && PointedFrom(c, n, item)
    requires PointedFrom(c, r, item) && PointedFrom(c, r, c[r].parent) && PointedFrom(c, n, r)
    requires c[item].parent != null ==> PointedFrom(c, item, c[item].parent)
    requires c[r].parent != item
    ensures n in Steps(c, item, r)
    ensures Pointers(Steps(c, item, r)[n], SplicedCell(c, item, r, d, n))
  {
  }

  lemma AllSteps(c: Cells, root: Node?, bottom: int, top: int, item: Node, r: Node, d: Dir, n: Node)
    requires WellFormed(c, root, bottom, top) && item in c && r in c && Closest(c, item, r, d)
    requires Ready(c, item, r) && n in c && n != item
    ensures n in Steps(c, item, r)
    ensures Pointers(Steps(c, item, r)[n], SplicedCell(c, item, r, d, n))
  {
    ParentPoints(c, root, bottom, top, r, n);
    ParentPoints(c, root, bottom, top, item, n);
    ParentPoints(c, root, bottom, top, n, item);
    ParentPoints(c, root, bottom, top, r, item);
    ParentPoints(c, root, bottom, top, r, c[r].parent);
    ParentPoints(c, root, bottom, top, n, r);
    ParentPoints(c, root, bottom, top, item, r);
    if c[item].parent != null {
      ParentPoints(c, root, bottom, top, item, c[item].parent);
    }
    assert Linked(c, root, item) && Linked(c, root, r);
    if n == r {
      StepsAtMoved(c, item, r, d);
    } else if c[r].parent == item {
      StepsNearby(c, item, r, d, n);
    } else {
      StepsFarther(c, item, r, d, n);
    }
  }

  lemma StepsSpliced(c: Cells, root: Node?, bottom: int, top: int, item: Node, r: Node, d: Dir)
    requires WellFormed(c, root, bottom, top) && item in c && r in c && Closest(c, item, r, d) && Ready(c, item, r)
    ensures var s := Spliced(c, item, r, d);
      forall n {:trigger s[n]} :: n in s ==> n in Steps(c, item, r) && Pointers(Steps(c, item, r)[n], s[n])
  {
    var s := Spliced(c, item, r, d);
    forall n | n in s ensures n in Steps(c, item, r) && Pointers(Steps(c, item, r)[n], s[n]) {
      AllSteps(c, root, bottom, top, item, r, d, n);
    }
  }

  /** The in-order reading depends on the set of nodes alone, whatever the shapes of the trees. */
  lemma OrderAfterRemoval(c: Cells, root: Node?, bottom: int, top: int, item: Node,
                          c': Cells, root': Node?, bottom': int, top': int)
    requires WellFormed(c, root, bottom, top) && WellFormed(c', root', bottom', top')
    requires c'.Keys == c.Keys - {item}
    ensures InOrder(c', root', bottom', top', root') == Without(InOrder(c, root, bottom, top, root), item)
  {
    InOrderOfTree(c, root, bottom, top);
    InOrderOfTree(c', root', bottom', top');
    var s, s' := InOrder(c, root, bottom, top, root), InOrder(c', root', bottom', top', root');
    WithoutSorted(s, item);
    forall n ensures n in s' <==> n in Without(s, item) {
      assert n in s' <==> n in c';
      assert n in s <==> n in c;
    }
    SortedUnique(s', Without(s, item));
  }

  lemma SameOrder(c: Cells, root: Node?, bottom: int, top: int, c': Cells, root': Node?, bottom': int, top': int)
    requires WellFormed(c, root, bottom, top) && WellFormed(c', root', bottom', top') && c'.Keys == c.Keys
    ensures InOrder(c', root', bottom', top', root') == InOrder(c, root, bottom, top, root)
  {
    InOrderOfTree(c, root, bottom, top);
    InOrderOfTree(c', root', bottom', top');
    var s, s' := InOrder(c, root, bottom, top, root), InOrder(c', root', bottom', top', root');
    forall n ensures n in s' <==> n in s {
      assert n in s' <==> n in c';
      assert n in s <==> n in c;
    }
    SortedUnique(s', s);
  }

  // ---------------------------------------------------------------- the tree object

  class Tree {
    var root: Node?
    ghost var cells: Cells
    ghost var bottom: int
    ghost var top: int

    ghost predicate Mirrors(n: Node)
      requires n in cells
      reads this`cells, n
    {
      cells[n].parent == n.parent && cells[n].left == n.left && cells[n].right == n.right
    }

    ghost predicate AllMirror()
      reads this`cells, cells.Keys
    {
      forall n {:trigger Mirrors(n)} :: n in cells ==> Mirrors(n)
    }

    ghost predicate Valid()
      reads this, cells.Keys
    {
      AllMirror() && WellFormed(cells, root, bottom, top)
    }

    constructor ()
      ensures Valid() && cells == map[]
    {
      root, cells, bottom, top := null, map[], 0, 0;
    }

    method Find(key: int) returns (found: Node?)
      requires Valid()
      ensures found != null ==> found in cells && found.key == key
      ensures found == null ==> forall n :: n in cells ==> n.key != key
    {
      var node := root;
      assert forall n :: n in cells ==> Linked(cells, root, n);
      while node != null
        invariant node != null ==> node in cells
        invariant forall n :: n in cells && n.key == key ==>
                    node != null && cells[node].lo < key < cells[node].hi
        decreases if node == null then 0 else cells[node].hi - cells[node].lo
      {
        assert Mirrors(node) && Linked(cells, root, node);
        assert forall m :: m in cells ==> Nested(cells, node, m);
        if key < node.key {
          node := node.left;
        } else if key > node.key {
          node := node.right;
        } else {
          return node;
        }
      }
      return null;
    }

    /** The descent of an insertion: either the key is present, or there is a vacant place for it. */
    method FindPlace(key: int) returns (present: bool, parent: Node?, dir: Dir, ghost a: int, ghost b: int)
      requires Valid() && bottom < key < top
      ensures present ==> exists n :: n in cells && n.key == key
      ensures !present ==> a < key < b && Vacant(cells, root, bottom, top, parent, dir, a, b)
      ensures !present ==>
                forall n {:trigger Passed(cells, n, key, a, b, parent)} :: n in cells ==>
                  Passed(cells, n, key, a, b, parent)
    {
      parent, dir, a, b := null, Left, bottom, top;
      var node := root;
      assert forall n :: n in cells ==> Linked(cells, root, n);
      while node != null
        invariant a < key < b
        invariant node != null ==> node in cells && cells[node].lo == a && cells[node].hi == b
        invariant node == null ==> Vacant(cells, root, bottom, top, parent, dir, a, b)
        invariant parent == null ==> node == root && a == bottom && b == top
        invariant parent != null ==>
                    && parent in cells && node == cells[parent].Child(dir)
                    && (dir == Left <==> key < parent.key)
        invariant forall n {:trigger Passed(cells, n, key, a, b, parent)} :: n in cells ==>
                    Passed(cells, n, key, a, b, parent)
        decreases node != null, b - a
      {
        assert Mirrors(node) && Linked(cells, root, node);
        forall n | n in cells
          ensures key < node.key ==> Passed(cells, n, key, a, node.key, node)
          ensures key > node.key ==> Passed(cells, n, key, node.key, b, node)
        {
          PassedBelow(cells, root, bottom, top, key, a, b, parent, dir, node, n);
        }
        parent := node;
        if key < node.key {
          node, dir, b := node.left, Left, node.key;
        } else if key > node.key {
          node, dir, a := node.right, Right, node.key;
        } else {
          present := true;
          return;
        }
      }
      present := false;
    }

    /** Inserts `item` under its key unless that key is already present. */
    method Insert(item: Node) returns (inserted: bool)
      requires Valid()
      modifies this, cells.Keys, item
      ensures Valid()
      ensures inserted <==> forall n :: n in old(cells) ==> n.key != item.key
      ensures cells.Keys == if inserted then old(cells.Keys) + {item} else old(cells.Keys)
      ensures !inserted ==> root == old(root) && unchanged(item) && unchanged(old(cells.Keys))
      ensures if inserted then old(Order()) == Without(Order(), item) else Order() == old(Order())
    {
      ghost var c, r, lo, hi := cells, root, bottom, top;
      WidenFor(item.key);
      var present, parent, dir, a, b := FindPlace(item.key);
      if present {
        SameOrder(cells, root, bottom, top, c, r, lo, hi);
        return false;
      }
      forall n | n in cells ensures n.key != item.key {
        NoneInside(cells, root, bottom, top, parent, dir, a, b, n);
      }
      HungWellFormed(cells, root, bottom, top, item, parent, dir, a, b);
      Hang(item, parent, dir, a, b);
      OrderAfterRemoval(cells, root, bottom, top, item, c, r, lo, hi);
      return true;
    }

    /** Makes room for `key` in the outermost interval; a change of ghost state only. */
    ghost method WidenFor(key: int)
      requires Valid()
      modifies this`cells, this`bottom, this`top
      ensures Valid() && bottom < key < top && cells.Keys == old(cells.Keys)
    {
      var a, b := bottom, top;
      assert forall n :: n in cells ==> Mirrors(n);
      bottom := if key <= a then key - 1 else a;
      top := if b <= key then key + 1 else b;
      WidenWellFormed(cells, root, a, b, bottom, top);
      cells := Widened(cells, a, b, bottom, top);
    }

    method Hang(node: Node, parent: Node?, dir: Dir, ghost a: int, ghost b: int)
      requires AllMirror()
      requires node !in cells && (parent == null || parent in cells)
      modifies this`root, this`cells, node, parent
      ensures AllMirror()
      ensures cells == Hung(old(cells), node, parent, dir, a, b)
      ensures root == if parent == null then node else old(root)
    {
      assert forall n :: n in cells ==> Mirrors(n);
      cells := Hung(cells, node, parent, dir, a, b);
      node.parent := parent;
      node.left := null;
      node.right := null;
      if parent == null {
        root := node;
        return;
      }
      if dir == Left { parent.left := node; } else { parent.right := node; }
    }

    /** The in-order reading of the tree. */
    ghost function Order(): seq<Node>
      requires Valid()
      reads this, cells.Keys
    {
      InOrder(cells, root, bottom, top, root)
    }

    /** The end of the in-order reading on side `d`. */
    method Extreme(d: Dir) returns (r: Node?)
      requires Valid()
      ensures Order() == [] ==> r == null
      ensures Order() != [] ==> r == if d == Left then Order()[0] else Order()[|Order()| - 1]
    {
      InOrderOfTree(cells, root, bottom, top);
      r := root;
      if r == null { return; }
      while r.Child(d) != null
        invariant r in cells
        invariant if d == Left then cells[r].lo == bottom else cells[r].hi == top
        decreases cells[r].hi - cells[r].lo
      {
        assert Mirrors(r) && Linked(cells, root, r);
        r := r.Child(d);
        assert Linked(cells, root, r);
      }
      assert Mirrors(r) && r in Order() && Linked(cells, root, r);
      forall m | m in cells ensures !Beyond(r, m, d) {
        assert Linked(cells, root, m) && Nested(cells, r, m);
      }
      assert Order()[IndexOf(Order(), r)] == r;
      assert Order()[0] in cells && Order()[|Order()| - 1] in cells;
    }

    method First() returns (r: Node?)
      requires Valid()
      ensures r == if Order() == [] then null else Order()[0]
    {
      r := Extreme(Left);
    }

    method Last() returns (r: Node?)
      requires Valid()
      ensures r == if Order() == [] then null else Order()[|Order()| - 1]
    {
      r := Extreme(Right);
    }

    /** One step of iteration: down into the subtree on side `d`, or up to the first ancestor
        that is reached from its other side. */
    method PrevOrNext(node: Node, d: Dir) returns (r: Node?)
      requires Valid() && node in cells
      ensures node in Order() && r == Neighbour(Order(), node, d)
    {
      assert Mirrors(node) && Linked(cells, root, node);
      if node.Child(d) != null {
        r := FindClosest(node, d);
        assert Linked(cells, root, r);
        forall m | m in cells.Keys && Beyond(node, m, d) ensures !Beyond(m, r, d) {
          assert Nested(cells, r, m);
        }
      } else {
        r := Climb(node, d);
      }
      NeighbourInTree(cells, root, bottom, top, node, r, d);
    }

    method Climb(start: Node, d: Dir) returns (r: Node?)
      requires Valid() && start in cells && cells[start].Child(d) == null
      ensures NextTo(cells.Keys, start, r, d)
    {
      var node := start;
      assert Mirrors(node) && Linked(cells, root, node);
      while node.parent != null && node == node.parent.Child(d)
        invariant node in cells && Linked(cells, root, node) && Mirrors(node)
        invariant if d == Right then cells[node].hi == cells[start].hi
                                else cells[node].lo == cells[start].lo
        decreases (top - bottom) - (cells[node].hi - cells[node].lo)
      {
        assert Mirrors(node.parent) && Linked(cells, root, node.parent);
        node := node.parent;
      }
      r := node.parent;
      if r != null { assert Mirrors(r) && Linked(cells, root, r); }
      forall m | m in cells.Keys && Beyond(start, m, d) ensures r != null && !Beyond(m, r, d) {
        assert Linked(cells, root, m) && Nested(cells, start, m);
      }
    }

    /** Starting at `First` and following the next pointers visits the whole in-order reading. */
    method Walk() returns (visited: seq<Node>)
      requires Valid()
      ensures visited == Order()
    {
      visited := [];
      var node := First();
      while node != null
        invariant |visited| <= |Order()| && visited == Order()[..|visited|]
        invariant if |visited| == |Order()| then node == null
                                            else node == Order()[|visited|]
        decreases |Order()| - |visited|
      {
        AtPosition(cells, root, bottom, top, |visited|);
        visited := visited + [node];
        node := PrevOrNext(node, Right);
      }
    }

    /** Unlinks `item` from the tree. */
    method Remove(item: Node)
      requires Valid() && item in cells
      modifies this, cells.Keys
      ensures Valid() && cells.Keys == old(cells.Keys) - {item}
      ensures Order() == Without(old(Order()), item)
    {
      ghost var c, r, a, b := cells, root, bottom, top;
      Unlink(item);
      OrderAfterRemoval(c, r, a, b, item, cells, root, bottom, top);
    }

    method Unlink(item: Node)
      requires Valid() && item in cells
      modifies this, cells.Keys
      ensures Valid() && cells.Keys == old(cells.Keys) - {item}
    {
      assert Mirrors(item) && Linked(cells, root, item);
      if item.left == null && item.right == null {
        PrunedWellFormed(cells, root, bottom, top, item);
        if item == root {
          root := null;
        } else {
          var p := item.parent;
          assert Mirrors(p) && Linked(cells, root, p);
          var dir := p.DirOfChild(item);
          if dir == Left { p.left := null; } else { p.right := null; }
        }
        cells := Pruned(cells, item);
        forall n | n in cells ensures Mirrors(n) {
          assert old(Mirrors(n)) && old(Linked(cells, root, n));
        }
      } else {
        var d := if item.left == null then Right else Left;
        var r := FindClosest(item, d);
        RemoveInner(item, r, d);
      }
    }

    method RemoveInner(item: Node, r: Node, ghost d: Dir)
      requires Valid() && item in cells && r in cells && Closest(cells, item, r, d)
      requires d == Right ==> cells[item].left == null
      modifies this, cells.Keys
      ensures Valid() && cells.Keys == old(cells.Keys) - {item}
    {
      ghost var c := cells;
      SplicedWellFormed(c, root, bottom, top, item, r, d);
      ReadyToSplice(c, root, bottom, top, item, r, d);
      ParentPoints(c, root, bottom, top, r, c[r].parent);
      if c[item].parent != null {
        ParentPoints(c, root, bottom, top, item, c[item].parent);
      }
      assert Linked(c, root, item);
      Splice(item, r);
      StepsSpliced(c, old(root), bottom, top, item, r, d);
      Redescribe(Spliced(c, item, r, d));
    }

    /** Forgets nodes and changes intervals in the description of the tree, but no pointer. */
    ghost method Redescribe(s: Cells)
      requires AllMirror() && forall n {:trigger s[n]} :: n in s ==> n in cells && Pointers(cells[n], s[n])
      modifies this`cells
      ensures AllMirror() && cells == s
    {
      forall n | n in s ensures s[n].parent == n.parent && s[n].left == n.left && s[n].right == n.right {
        assert Mirrors(n);
      }
      cells := s;
    }

    /** Descends to the predecessor (d == Left) or successor (d == Right) below `item`. */
    method FindClosest(item: Node, d: Dir) returns (r: Node)
      requires Valid() && item in cells && item.Child(d) != null
      ensures r in cells && Closest(cells, item, r, d)
    {
      assert Mirrors(item) && Linked(cells, root, item);
      r := item.Child(d);
      while r.Child(d.Flip()) != null
        invariant r in cells && r != item
        invariant if d == Left then cells[r].hi == item.key && cells[item].lo <= cells[r].lo
                               else cells[r].lo == item.key && cells[r].hi <= cells[item].hi
        decreases cells[r].hi - cells[r].lo
      {
        assert Mirrors(r) && Linked(cells, root, r);
        r := r.Child(d.Flip());
        assert Linked(cells, root, r);
      }
      assert Mirrors(r);
    }

    method SetParent(n: Node, p: Node?)
      requires AllMirror() && n in cells
      modifies this`cells, n`parent
      ensures AllMirror() && cells == old(cells)[n := old(cells)[n].(parent := p)]
    {
      assert forall m :: m in cells ==> Mirrors(m);
      n.parent := p;
      cells := cells[n := cells[n].(parent := p)];
    }

    method SetChild(n: Node, d: Dir, c: Node?)
      requires AllMirror() && n in cells
      modifies this`cells, n`left, n`right
      ensures AllMirror() && cells == old(cells)[n := old(cells)[n].WithChild(d, c)]
    {
      assert forall m :: m in cells ==> Mirrors(m);
      if d == Left { n.left := c; } else { n.right := c; }
      cells := cells[n := cells[n].WithChild(d, c)];
    }

    /** Takes `r`, which has at most one child, out of its place. */
    method Detach(r: Node)
      requires AllMirror() && r in cells && cells[r].parent != null && cells[r].parent in cells
      requires cells[cells[r].parent].left == r || cells[cells[r].parent].right == r
      requires cells[r].left != null ==> cells[r].left in cells
      requires cells[r].right != null ==> cells[r].right in cells
      modifies this`cells, cells.Keys
      ensures AllMirror() && cells == Detached(old(cells), r)
    {
      assert Mirrors(r) && Mirrors(cells[r].parent);
      var child := if r.left != null then r.left else r.right;
      var p := r.parent;
      var dir := p.DirOfChild(r);
      SetChild(p, dir, child);
      if child != null {
        SetParent(child, p);
      }
    }

    method Adopt(item: Node, r: Node, d: Dir)
      requires AllMirror() && item in cells && r in cells && r != item
      requires cells[item].Child(d) != null ==> cells[item].Child(d) in cells
      modifies this`cells, cells.Keys
      ensures AllMirror() && cells == Adopted(old(cells), item, r, d)
    {
      assert Mirrors(item);
      var x := item.Child(d);
      SetChild(r, d, x);
      if x != null {
        SetParent(x, r);
      }
    }

    /** Gives `r` the parent and the children of `item`. */
    method TakePlace(item: Node, r: Node)
      requires AllMirror() && item in cells && r in cells && r != item
      requires cells[item].left != null ==> cells[item].left in cells && cells[item].left != item
      requires cells[item].right != null ==> cells[item].right in cells
      modifies this`cells, cells.Keys
      ensures AllMirror() && cells == Moved(old(cells), item, r)
    {
      assert Mirrors(item);
      SetParent(r, item.parent);
      Adopt(item, r, Left);
      Adopt(item, r, Right);
    }

    /** Puts `r`, the closest node below it, in the place of `item`. */
    method Splice(item: Node, r: Node)
      requires AllMirror() && Ready(cells, item, r)
      requires PointedFrom(cells, r, cells[r].parent)
      requires cells[item].parent != null ==> PointedFrom(cells, item, cells[item].parent)
      modifies this`root, this`cells, cells.Keys
      ensures AllMirror() && cells == Steps(old(cells), item, r)
      ensures root == if old(cells)[item].parent == null then r else old(root)
    {
      PlaceKept(cells, item, r);
      Detach(r);
      TakePlace(item, r);
      assert Mirrors(item);
      var q := item.parent;
      if q != null {
        assert Mirrors(q);
        var dir := q.DirOfChild(item);
        SetChild(q, dir, r);
      } else {
        root := r;
      }
    }
  }
}
