/** The hash table from 32-bit keys to object pointers (kernel/util/ds/hashtable.hpp).  Each bucket is a
    ring of links; the first link lies in the bucket array itself, the others are allocated. */
module HashTable {
  import opened Arith
  import opened Common
  import opened Words

  // ---------------------------------------------------------------- the hash function

  const GOLDEN: nat := 0x61C8_8647

  /** The inverse of GOLDEN modulo 2^32. */
  const INVERSE: nat := 0xEBB3_4377

  /** Unsigned 32-bit multiplication, masked to a table of `n` buckets, `n` a power of two. */
  function Hash(key: nat, n: nat): (h: nat)
    requires n > 0
    ensures h < n
  {
    key * GOLDEN % WORD % n
  }

  lemma {:induction false} OneTimes(a: nat, b: nat)
    ensures One(a) * One(b) == One(a + b)
  {
    if a > 0 { OneTimes(a - 1, b); }
  }

  lemma One32()
    ensures One(32) == WORD
  {
    OneTimes(16, 16);
    OneTimes(8, 8);
    OneTimes(4, 4);
  }

  /** A table size 2^e divides 2^32. */
  lemma TableSize(e: nat)
    requires e <= 32
    ensures One(e) * One(32 - e) == WORD
  {
    OneTimes(e, 32 - e);
    One32();
  }

  /** Reducing modulo 2^32 first does not matter for a divisor of 2^32. */
  lemma ModMod(x: nat, n: nat, m: nat)
    requires n > 0 && n * m == WORD
    ensures x % WORD % n == x % n
  {
    var q := x / WORD;
    assert x == x % WORD + n * (m * q);
    ModWitness(x % WORD, n, m * q);
  }

  lemma MulMod(x: nat, c: nat, n: nat)
    requires n > 0
    ensures x * c % n == x % n * c % n
  {
    var q, r := x / n, x % n;
    assert x * c == r * c + n * (q * c) by {
      assert x == r + n * q;
      assert (r + n * q) * c == r * c + n * (q * c);
    }
    ModWitness(r * c, n, q * c);
  }

  /** The hash depends only on the key modulo the table size. */
  lemma HashOfResidue(key: nat, e: nat)
    requires e <= 32
    ensures Hash(key, One(e)) == key * GOLDEN % One(e)
    ensures Hash(key, One(e)) == Hash(key % One(e), One(e))
  {
    var n := One(e);
    TableSize(e);
    ModMod(key * GOLDEN, n, One(32 - e));
    ModMod(key % n * GOLDEN, n, One(32 - e));
    MulMod(key, GOLDEN, n);
  }

  lemma Undo(key: int, g: int, inv: int, n: int, m: int, k: int, q: int, h: int)
    requires g * inv == 1 + k * (n * m) && key * g == n * q + h
    ensures h * inv == key + n * (key * k * m - q * inv)
  {
    calc {
      h * inv;
      (key * g - n * q) * inv;
      key * (g * inv) - n * (q * inv);
      key * (1 + k * (n * m)) - n * (q * inv);
      key + key * (k * (n * m)) - n * (q * inv);
      { assert key * (k * (n * m)) == n * (key * k * m); }
      key + n * (key * k * m) - n * (q * inv);
      key + n * (key * k * m - q * inv);
    }
  }

  lemma UndoMod(key: nat, n: nat, m: nat)
    requires n > 0 && n * m == WORD
    ensures key * GOLDEN % n * INVERSE % n == key % n
  {
    var x := key * GOLDEN;
    var q, h := x / n, x % n;
    assert x == n * q + h;
    assert GOLDEN * INVERSE == 1 + 1510444094 * WORD;
    Undo(key, GOLDEN, INVERSE, n, m, 1510444094, q, h);
    ModWitness(key, n, key * 1510444094 * m - q * INVERSE);
  }

  /** Multiplying by the inverse undoes the hash: the residue of a key can be read off its hash. */
  lemma HashInverse(key: nat, e: nat)
    requires e <= 32
    ensures Hash(key, One(e)) * INVERSE % One(e) == key % One(e)
  {
    TableSize(e);
    HashOfResidue(key, e);
    UndoMod(key, One(e), One(32 - e));
  }

  /** Keys collide exactly if they are equal modulo the table size. */
  lemma HashCollides(k: nat, l: nat, e: nat)
    requires e <= 32
    ensures Hash(k, One(e)) == Hash(l, One(e)) <==> k % One(e) == l % One(e)
  {
    HashInverse(k, e);
    HashInverse(l, e);
    HashOfResidue(k, e);
    HashOfResidue(l, e);
  }

  lemma Apart(k: nat, i: nat, j: nat, n: nat)
    requires n > 0 && i < j < n + i
    ensures (k + i) % n != (k + j) % n
  {
    if (k + i) % n == (k + j) % n {
      var d := (k + j) / n - (k + i) / n;
      assert n * d == j - i;
      SmallMultiple(n, d);
    }
  }

  /** As many consecutive keys as there are buckets, wrapping around at 2^32, fall into different ones. */
  lemma ConsecutiveKeys(k: nat, i: nat, j: nat, e: nat)
    requires e <= 32 && i < j < One(e)
    ensures Hash((k + i) % WORD, One(e)) != Hash((k + j) % WORD, One(e))
  {
    TableSize(e);
    ModMod(k + i, One(e), One(32 - e));
    ModMod(k + j, One(e), One(32 - e));
    HashCollides((k + i) % WORD, (k + j) % WORD, e);
    Apart(k, i, j, One(e));
  }

  // ---------------------------------------------------------------- buckets

  /** A link; `obj` is None for the null pointer. */
  datatype Link = Link(key: nat, obj: Option<int>)

  /** lookup_internal: the position of the first link with the key, or the length of the bucket. */
  function Position(b: seq<Link>, key: nat): (i: nat)
    ensures i <= |b| && (i < |b| ==> b[i].key == key)
    ensures forall j :: 0 <= j < i ==> b[j].key != key
  {
    if b == [] || b[0].key == key then 0 else 1 + Position(b[1..], key)
  }

  lemma PositionIs(b: seq<Link>, key: nat, i: nat)
    requires i <= |b| && (i < |b| ==> b[i].key == key) && forall j :: 0 <= j < i ==> b[j].key != key
    ensures Position(b, key) == i
  {
  }

  /** What a bucket binds a key to. */
  function Get(b: seq<Link>, key: nat): Option<int> {
    if Position(b, key) < |b| then b[Position(b, key)].obj else None
  }

  /** Only the link in the array may be empty, and then it is alone; no key occurs twice. */
  ghost predicate BucketOk(b: seq<Link>) {
    && |b| > 0
    && (|b| > 1 ==> b[0].obj.Some?)
    && (forall i :: 1 <= i < |b| ==> b[i].obj.Some?)
    && (forall i, j :: 0 <= i < j < |b| ==> b[i].key != b[j].key)
  }

  /** All that inserting keys twice leaves of it: only the link in the array may be empty, and then it is
      alone. */
  ghost predicate Loose(b: seq<Link>) {
    |b| > 0 && (|b| > 1 ==> forall i :: 0 <= i < |b| ==> b[i].obj.Some?)
  }

  /** Every key that a bucket binds hashes to it. */
  ghost predicate Placed(b: seq<Link>, h: nat, n: nat)
    requires n > 0
  {
    forall i {:trigger b[i]} :: 0 <= i < |b| && b[i].obj.Some? ==> Hash(b[i].key, n) == h
  }

  function Inserted(b: seq<Link>, key: nat, value: int): seq<Link>
    requires |b| > 0
  {
    if b[0].obj == None then [Link(key, Some(value))] + b[1..]
    else [b[0], Link(key, Some(value))] + b[1..]
  }

  function Removed(b: seq<Link>, key: nat): seq<Link>
    requires |b| > 0
  {
    var i := Position(b, key);
    if i == |b| then b
    else if i == 0 then (if |b| == 1 then [b[0].(obj := None)] else b[1..])
    else b[..i] + b[i + 1..]
  }

  /** Inserting an absent key binds it and leaves the other keys alone. */
  lemma InsertBucket(b: seq<Link>, key: nat, value: int, k: nat)
    requires BucketOk(b) && Get(b, key) == None
    ensures BucketOk(Inserted(b, key, value))
    ensures Get(Inserted(b, key, value), k) == if k == key then Some(value) else Get(b, k)
  {
    var c := Inserted(b, key, value);
    assert b[0].obj.Some? ==> Position(b, key) == |b|;
    assert forall i :: 2 <= i < |c| ==> c[i] == b[i - 1] || b[0].obj == None;
    if b[0].obj == None {
      PositionIs(c, k, if k == key then 0 else 1);
    } else {
      var p := Position(b, k);
      PositionIs(c, k, if k == key then 1 else if p == 0 then 0 else p + 1);
    }
  }

  /** The head link carries the key and is in use, so that it hides a link added behind it. */
  predicate Hidden(b: seq<Link>, key: nat)
    requires |b| > 0
  {
    b[0].key == key && b[0].obj.Some?
  }

  /** Inserting a key that is bound leaves the key in the bucket twice.  The new object is found unless
      the head link carries the key; the other keys do not notice. */
  lemma InsertTwice(b: seq<Link>, key: nat, value: int, k: nat)
    requires BucketOk(b) && Get(b, key).Some?
    ensures var c := Inserted(b, key, value);
      && (exists i, j :: 0 <= i < j < |c| && c[i].key == key && c[j].key == key)
      && Get(c, k) == if k == key && !Hidden(b, key) then Some(value) else Get(b, k)
  {
    var c, p := Inserted(b, key, value), Position(b, key);
    assert c[1].key == key && c[if p == 0 then 0 else p + 1].key == key;
    assert forall i :: 2 <= i < |c| ==> c[i] == b[i - 1];
    var q := Position(b, k);
    PositionIs(c, k, if q == 0 then 0 else if k == key then 1 else q + 1);
  }

  /** In any bucket, the new object is found unless the head link hides it; the other keys do not notice. */
  lemma InsertGet(b: seq<Link>, key: nat, value: int, k: nat)
    requires Loose(b)
    ensures Loose(Inserted(b, key, value))
    ensures Get(Inserted(b, key, value), k) == if k == key && !Hidden(b, key) then Some(value) else Get(b, k)
  {
    var c, q := Inserted(b, key, value), Position(b, k);
    if b[0].obj == None {
      PositionIs(c, k, if k == key then 0 else 1);
    } else {
      assert forall i :: 2 <= i < |c| ==> c[i] == b[i - 1];
      PositionIs(c, k, if q == 0 then 0 else if k == key then 1 else q + 1);
    }
  }

  /** A well-formed bucket stays so exactly if the key was absent. */
  lemma InsertAny(b: seq<Link>, key: nat, value: int, h: nat, n: nat)
    requires BucketOk(b) && n > 0 && Placed(b, h, n) && Hash(key, n) == h
    ensures var c := Inserted(b, key, value); (BucketOk(c) <==> Get(b, key) == None) && Placed(c, h, n)
  {
    if Get(b, key) == None { InsertBucket(b, key, value, key); } else { InsertTwice(b, key, value, key); }
    var c := Inserted(b, key, value);
    assert forall i {:trigger c[i]} :: 0 <= i < |c| ==> c[i] == Link(key, Some(value)) || c[i] in b;
  }

  /** What a bucket binds a key to behind the first link that carries it. */
  function Later(b: seq<Link>, key: nat): Option<int> {
    var i := Position(b, key);
    if i < |b| then Get(b[i + 1..], key) else None
  }

  /** A link in front may be the one looked for, or does not matter. */
  lemma GetStep(b: seq<Link>, k: nat)
    requires b != []
    ensures Get(b, k) == if b[0].key == k then b[0].obj else Get(b[1..], k)
  {
  }

  /** Cutting out the first link with a key uncovers the next one. */
  lemma {:induction false} CutSame(b: seq<Link>, key: nat)
    requires Position(b, key) < |b|
    ensures var i := Position(b, key); Get(b[..i] + b[i + 1..], key) == Get(b[i + 1..], key)
  {
    var i := Position(b, key);
    if i == 0 {
      assert b[..0] + b[1..] == b[1..];
    } else {
      var c := b[..i] + b[i + 1..];
      assert c[0] == b[0] && c[1..] == b[1..][..i - 1] + b[1..][i..];
      assert b[1..][i..] == b[i + 1..];
      GetStep(c, key);
      CutSame(b[1..], key);
    }
  }

  lemma {:induction false} CutOther(b: seq<Link>, i: nat, k: nat)
    requires i < |b| && b[i].key != k
    ensures Get(b[..i] + b[i + 1..], k) == Get(b, k)
  {
    GetStep(b, k);
    if i == 0 {
      assert b[..0] + b[1..] == b[1..];
    } else {
      var c := b[..i] + b[i + 1..];
      assert c[0] == b[0] && c[1..] == b[1..][..i - 1] + b[1..][i..];
      GetStep(c, k);
      CutOther(b[1..], i - 1, k);
    }
  }

  /** In any bucket, removal takes away the first link with the key, so that the next one is found; the other
      keys do not notice. */
  lemma RemoveGet(b: seq<Link>, key: nat, k: nat)
    requires Loose(b)
    ensures Loose(Removed(b, key))
    ensures Get(Removed(b, key), k) == if k == key then Later(b, key) else Get(b, k)
  {
    var c, i := Removed(b, key), Position(b, key);
    if i < |b| {
      if |b| == 1 {
        PositionIs(c, k, if k == key then 0 else 1);
      } else {
        assert c == b[..i] + b[i + 1..];
        if k == key { CutSame(b, key); } else { CutOther(b, i, k); }
      }
    }
  }

  /** In a well-formed bucket there is no next one: the key is unbound. */
  lemma RemoveBucket(b: seq<Link>, key: nat)
    requires BucketOk(b)
    ensures BucketOk(Removed(b, key)) && Later(b, key) == None
    ensures Position(b, key) < |b| <==> Get(b, key).Some? || b[0] == Link(key, None)
  {
    RemovedOk(b, key);
    NoLater(b, key);
  }

  lemma RemovedOk(b: seq<Link>, key: nat)
    requires BucketOk(b)
    ensures BucketOk(Removed(b, key))
  {
    var c, i := Removed(b, key), Position(b, key);
    if i < |b| && |b| > 1 {
      assert c == b[..i] + b[i + 1..];
      assert forall j {:trigger c[j]} :: 0 <= j < |c| ==> c[j] == b[if j < i then j else j + 1];
    }
  }

  lemma NoLater(b: seq<Link>, key: nat)
    requires BucketOk(b)
    ensures Later(b, key) == None
  {
    var i := Position(b, key);
    if i < |b| {
      var rest := b[i + 1..];
      PositionIs(rest, key, |rest|);
    }
  }

  // ---------------------------------------------------------------- counting

  /** The allocated links: all but the first of each bucket. */
  function Allocated(arr: seq<seq<Link>>): int {
    if arr == [] then 0 else |arr[0]| - 1 + Allocated(arr[1..])
  }

  /** The keys that the links of a bucket bind. */
  ghost function KeysOf(b: seq<Link>): set<nat> {
    set i | 0 <= i < |b| && b[i].obj.Some? :: b[i].key
  }

  ghost function KeysIn(arr: seq<seq<Link>>): (s: set<nat>)
    ensures forall k :: k in s <==> exists h :: 0 <= h < |arr| && k in KeysOf(arr[h])
  {
    if arr == [] then {} else
      var rest := KeysIn(arr[1..]);
      assert forall h {:trigger arr[h]} :: 1 <= h < |arr| ==> arr[h] == arr[1..][h - 1];
      KeysOf(arr[0]) + rest
  }

  /** The buckets that bind a key, numbered from `from` on. */
  ghost function InUse(arr: seq<seq<Link>>, from: nat): (s: set<nat>)
    ensures forall h :: h in s <==> from <= h < from + |arr| && KeysOf(arr[h - from]) != {}
  {
    if arr == [] then {} else
      var rest := InUse(arr[1..], from + 1);
      if KeysOf(arr[0]) == {} then rest else rest + {from}
  }

  /** A bucket binds as many keys as it has links, or none if it is empty. */
  lemma {:induction false} KeysOfBucket(b: seq<Link>)
    requires BucketOk(b)
    ensures |KeysOf(b)| == if b[0].obj == None then 0 else |b|
  {
    if b[0].obj.Some? {
      if |b| == 1 {
        assert KeysOf(b) == {b[0].key};
      } else {
        var n := |b| - 1;
        KeysOfBucket(b[..n]);
        assert KeysOf(b) == KeysOf(b[..n]) + {b[n].key};
      }
    }
  }

  ghost predicate Separate(arr: seq<seq<Link>>, h: nat, g: nat)
    requires h < |arr| && g < |arr|
  {
    h != g ==> KeysOf(arr[h]) !! KeysOf(arr[g])
  }

  ghost predicate AllSeparate(arr: seq<seq<Link>>) {
    && (forall b :: b in arr ==> BucketOk(b))
    && (forall h: nat, g: nat {:trigger Separate(arr, h, g)} :: h < |arr| && g < |arr| ==> Separate(arr, h, g))
  }

  lemma FirstSeparate(arr: seq<seq<Link>>)
    requires AllSeparate(arr) && arr != []
    ensures AllSeparate(arr[1..]) && KeysOf(arr[0]) !! KeysIn(arr[1..])
  {
    var rest := arr[1..];
    forall h: nat, g: nat | h < |rest| && g < |rest| ensures Separate(rest, h, g) {
      assert Separate(arr, h + 1, g + 1);
    }
    forall k | k in KeysIn(rest) ensures k !in KeysOf(arr[0]) {
      var h :| 0 <= h < |rest| && k in KeysOf(rest[h]);
      assert Separate(arr, 0, h + 1);
    }
  }

  /** Allocated links are the bound keys minus the buckets that bind any. */
  lemma {:induction false} LinksInUse(arr: seq<seq<Link>>, from: nat)
    requires AllSeparate(arr)
    ensures Allocated(arr) == |KeysIn(arr)| - |InUse(arr, from)|
  {
    if arr != [] {
      FirstSeparate(arr);
      LinksInUse(arr[1..], from + 1);
      assert arr[0] in arr;
      FirstKeys(arr);
      FirstBucket(arr, from);
    }
  }

  lemma FirstKeys(arr: seq<seq<Link>>)
    requires arr != [] && BucketOk(arr[0]) && KeysOf(arr[0]) !! KeysIn(arr[1..])
    ensures |KeysIn(arr)| == |KeysIn(arr[1..])| + if arr[0][0].obj == None then 0 else |arr[0]|
  {
    KeysOfBucket(arr[0]);
    var keys, rest := KeysOf(arr[0]), KeysIn(arr[1..]);
    assert KeysIn(arr) == keys + rest;
    assert |keys + rest| == |keys| + |rest|;
  }

  lemma FirstBucket(arr: seq<seq<Link>>, from: nat)
    requires arr != [] && BucketOk(arr[0])
    ensures |InUse(arr, from)| == |InUse(arr[1..], from + 1)| + if arr[0][0].obj == None then 0 else 1
  {
    KeysOfBucket(arr[0]);
    var used := InUse(arr[1..], from + 1);
    assert from !in used;
    assert InUse(arr, from) == if arr[0][0].obj == None then used else used + {from};
  }

  lemma {:induction false} AllocatedUpdate(arr: seq<seq<Link>>, h: nat, b: seq<Link>)
    requires h < |arr|
    ensures Allocated(arr[h := b]) == Allocated(arr) + |b| - |arr[h]|
  {
    if h == 0 {
      assert arr[h := b][1..] == arr[1..];
    } else {
      assert arr[h := b][1..] == arr[1..][h - 1 := b];
      AllocatedUpdate(arr[1..], h - 1, b);
    }
  }

  lemma {:induction false} AllocatedEmpty(arr: seq<seq<Link>>)
    requires forall b :: b in arr ==> |b| == 1
    ensures Allocated(arr) == 0
  {
    if arr != [] {
      assert arr[0] in arr;
      AllocatedEmpty(arr[1..]);
    }
  }

  // ---------------------------------------------------------------- the table object

  class Table {
    const e: nat                    // the table has 2^e buckets
    var arr: seq<seq<Link>>
    var links: int                  // links taken from the link allocator and not given back

    ghost predicate Valid()
      reads this
    {
      && e <= 32 && |arr| == One(e)
      && (forall h {:trigger arr[h]} :: 0 <= h < |arr| ==> BucketOk(arr[h]) && Placed(arr[h], h, |arr|))
      && links == Allocated(arr)
    }

    /** What is left of it when keys have been inserted twice. */
    ghost predicate Shaped()
      reads this
    {
      e <= 32 && |arr| == One(e) && forall h {:trigger arr[h]} :: 0 <= h < |arr| ==> Loose(arr[h])
    }

    /** What the table binds a key to. */
    ghost function Binding(key: nat): Option<int>
      requires |arr| > 0
      reads this
    {
      Get(arr[Hash(key, |arr|)], key)
    }

    constructor (e: nat)
      requires e <= 32
      ensures Valid() && this.e == e && forall k: nat :: Binding(k) == None
      ensures forall h :: 0 <= h < |arr| ==> arr[h] == [Link(0, None)]
    {
      this.e := e;
      arr := seq(One(e), _ => [Link(0, None)]);
      links := 0;
      new;
      AllocatedEmpty(arr);
      forall k: nat ensures Binding(k) == None {
        PositionIs([Link(0, None)], k, if k == 0 then 0 else 1);
      }
    }

    method Lookup(key: nat) returns (obj: Option<int>)
      requires Shaped()
      ensures obj == Binding(key)
    {
      var h := Hash(key, |arr|);
      var i := FindLink(arr[h], key);
      if i == |arr[h]| { return None; }
      return arr[h][i].obj;
    }

    method FindLink(b: seq<Link>, key: nat) returns (i: nat)
      ensures i == Position(b, key)
    {
      i := 0;
      while i < |b| && b[i].key != key
        invariant i <= |b| && forall j :: 0 <= j < i ==> b[j].key != key
      {
        i := i + 1;
      }
      PositionIs(b, key, i);
    }

    /** The keys the table binds. */
    ghost function Bound(): set<nat>
      reads this
    {
      KeysIn(arr)
    }

    lemma BoundKeys()
      requires Valid()
      ensures forall k: nat :: k in Bound() <==> Binding(k).Some?
    {
      forall k: nat ensures k in Bound() <==> Binding(k).Some? {
        var h := Hash(k, |arr|);
        if k in Bound() {
          var g :| 0 <= g < |arr| && k in KeysOf(arr[g]);
          var i :| 0 <= i < |arr[g]| && arr[g][i].obj.Some? && arr[g][i].key == k;
          assert Placed(arr[g], g, |arr|) && g == h;
          PositionIs(arr[h], k, i);
        }
        if Binding(k).Some? { assert k in KeysOf(arr[h]); }
      }
    }

    /** Heap links in use are the bound keys minus the buckets they hash to. */
    lemma LinkCount()
      requires Valid()
      ensures forall k: nat :: k in Bound() <==> Binding(k).Some?
      ensures links == |Bound()| - |set k | k in Bound() :: Hash(k, |arr|)|
    {
      BoundKeys();
      forall h: nat, g: nat | h < |arr| && g < |arr| ensures Separate(arr, h, g) {
        assert Placed(arr[h], h, |arr|) && Placed(arr[g], g, |arr|);
      }
      LinksInUse(arr, 0);
      BucketsInUse();
    }

    lemma BucketsInUse()
      requires Valid()
      ensures (set k | k in Bound() :: Hash(k, |arr|)) == InUse(arr, 0)
    {
      forall k | k in Bound() ensures Hash(k, |arr|) in InUse(arr, 0) {
        var h :| 0 <= h < |arr| && k in KeysOf(arr[h]);
        assert Placed(arr[h], h, |arr|);
      }
      forall h | h in InUse(arr, 0) ensures exists k :: k in Bound() && Hash(k, |arr|) == h {
        var k :| k in KeysOf(arr[h]);
        assert Placed(arr[h], h, |arr|) && k in Bound();
      }
    }

    /** Adds a link for the key, in front of those of its bucket but behind the head.  Looking the key up
        then gives the new object, unless the head link binds it already; no other key is affected.
        A well-formed table stays so exactly if the key was absent. */
    method Insert(key: nat, value: int)
      requires Shaped()
      modifies this
      ensures Shaped() && |arr| == old(|arr|)
      ensures old(Valid()) ==> (Valid() <==> old(Binding(key)) == None)
      ensures var h := Hash(key, |arr|); arr == old(arr)[h := Inserted(old(arr)[h], key, value)]
      ensures var hidden := old(Hidden(arr[Hash(key, |arr|)], key));
        forall k: nat :: Binding(k) == if k == key && !hidden then Some(value) else old(Binding(k))
    {
      var h := Hash(key, |arr|);
      ghost var b := arr[h];
      if Valid() { InsertAny(b, key, value, h, |arr|); }
      InsertGet(b, key, value, key);
      AddLink(h, key, value);
      forall k: nat
        ensures Binding(k) == if k == key && !Hidden(b, key) then Some(value) else old(Binding(k))
      {
        InsertGet(b, key, value, k);
      }
    }

    /** Puts the key into the head link of bucket `h` if that is empty, and into a new link otherwise. */
    method AddLink(h: nat, key: nat, value: int)
      requires h < |arr| && |arr[h]| > 0
      modifies this
      ensures arr == old(arr)[h := Inserted(old(arr)[h], key, value)]
      ensures links - Allocated(arr) == old(links - Allocated(arr))
    {
      if arr[h][0].obj == None {
        Replace(h, [Link(key, Some(value))] + arr[h][1..]);
      } else {
        Replace(h, [arr[h][0], Link(key, Some(value))] + arr[h][1..]);
        links := links + 1;
      }
    }

    method Replace(h: nat, b: seq<Link>)
      requires h < |arr|
      modifies this`arr
      ensures arr == old(arr)[h := b]
      ensures Allocated(arr) == Allocated(old(arr)) + |b| - |old(arr)[h]|
    {
      AllocatedUpdate(arr, h, b);
      arr := arr[h := b];
    }

    /** Takes away the first link with the key: the key is unbound, unless it was inserted twice.  No other key
        is affected.  The result is true exactly if there was such a link, which in a well-formed table means
        that the key was bound or is the one the emptied link of the bucket still carries. */
    method Remove(key: nat) returns (found: bool)
      requires Shaped()
      modifies this
      ensures Shaped() && |arr| == old(|arr|) && (old(Valid()) ==> Valid())
      ensures var b := old(arr[Hash(key, |arr|)]);
        && (forall k: nat :: Binding(k) == if k == key then Later(b, key) else old(Binding(k)))
        && (found <==> Position(b, key) < |b|)
        && (old(Valid()) ==> Later(b, key) == None && (found <==> Get(b, key).Some? || b[0] == Link(key, None)))
    {
      var h := Hash(key, |arr|);
      ghost var b := arr[h];
      if Valid() { RemoveBucket(b, key); }
      RemoveGet(b, key, key);
      found := RemoveFrom(h, key);
      forall k: nat ensures Binding(k) == if k == key then Later(b, key) else old(Binding(k)) {
        RemoveGet(b, key, k);
      }
    }

    /** Removes the first link with the key from bucket `h`. */
    method RemoveFrom(h: nat, key: nat) returns (found: bool)
      requires h < |arr| && |arr[h]| > 0
      modifies this
      ensures arr == old(arr)[h := Removed(old(arr)[h], key)]
      ensures links - Allocated(arr) == old(links - Allocated(arr))
      ensures found <==> Position(old(arr)[h], key) < |old(arr)[h]|
    {
      var i := FindLink(arr[h], key);
      found := i < |arr[h]|;
      if found { DropLink(h, key, i); }
    }

    /** Empties the head link of bucket `h`, moves its neighbour there, or unlinks the link at position `i`. */
    method DropLink(h: nat, ghost key: nat, i: nat)
      requires h < |arr| && i < |arr[h]| && i == Position(arr[h], key)
      modifies this
      ensures arr == old(arr)[h := Removed(old(arr)[h], key)]
      ensures links - Allocated(arr) == old(links - Allocated(arr))
    {
      if i == 0 {
        if |arr[h]| == 1 {
          Replace(h, [arr[h][0].(obj := None)]);
        } else {
          Replace(h, arr[h][1..]);
          links := links - 1;
        }
      } else {
        Replace(h, arr[h][..i] + arr[h][i + 1..]);
        links := links - 1;
      }
    }
  }

  /** One removal does not unbind a key that was inserted twice. */
  method RemoveOnce(e: nat, key: nat, v: int, w: int) returns (obj: Option<int>)
    requires e <= 32
    ensures obj == Some(w)
  {
    var t := new Table(e);
    t.Insert(key, v);
    t.Insert(key, w);
    assert t.arr[Hash(key, |t.arr|)] == [Link(key, Some(v)), Link(key, Some(w))];
    var found := t.Remove(key);
    obj := t.Lookup(key);
  }

  /** Inserting twice into an empty table is no update: the first object stays. */
  method InsertAgain(e: nat, key: nat, v: int, w: int) returns (obj: Option<int>)
    requires e <= 32
    ensures obj == Some(v)
  {
    var t := new Table(e);
    t.Insert(key, v);
    t.Insert(key, w);
    obj := t.Lookup(key);
  }

  /** Behind another key in the same bucket the second insertion is an update. */
  method InsertBehind(e: nat, head: nat, key: nat, v: int, w: int) returns (obj: Option<int>)
    requires e <= 32 && head != key && Hash(head, One(e)) == Hash(key, One(e))
    ensures obj == Some(w)
  {
    var t := new Table(e);
    t.Insert(head, v);
    t.Insert(key, v);
    t.Insert(key, w);
    obj := t.Lookup(key);
  }

  /** An empty table claims to have removed key 0. */
  method RemoveFromEmpty(e: nat) returns (found: bool)
    requires e <= 32
    ensures found
  {
    var t := new Table(e);
    found := t.Remove(0);
  }
}
