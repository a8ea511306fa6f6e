/** `DictionaryWithHashTable::HashTable`: separate chaining over
    `table_size` buckets, each a list of (key, value) nodes. The table doubles
    (to `2n + 1` buckets) when one more element would reach the load factor
    0.75. `DictionaryWithHashTable::Dictionary` counts words in one. */
module DictionaryWithHashTable {
  import opened Bytes
  import opened Wrappers
  import Text
  import WordCounts

  type Key = seq<byte>

  /** `HashNode`. */
  datatype HashNode = HashNode(key: Key, value: int)

  /** The polynomial base of `hashFunction`. */
  const P: nat := 31

  // ---------------------------------------------------------------------------
  // Arithmetic

  lemma MulBound(m: int, d: int)
    requires m > 0
    ensures d >= 1 ==> m * d >= m
    ensures d <= -1 ==> m * d <= -m
  {
  }

  /** The remainder is determined by any quotient-remainder split. */
  lemma ModUnique(y: int, q: int, r: int, m: int)
    requires m > 0 && 0 <= r < m && y == m * q + r
    ensures y % m == r
  {
    var d := q - y / m;
    assert m * d == y % m - r;
    MulBound(m, d);
  }

  lemma ModShift(x: int, k: int, m: int)
    requires m > 0
    ensures (x + m * k) % m == x % m
  {
    ModUnique(x + m * k, x / m + k, x % m, m);
  }

  /** Reducing the summands before the step of `hashFunction` does not change
      the result. */
  lemma ModAddMul(a: nat, b: nat, c: nat, m: nat)
    requires m > 0
    ensures (a % m + b * (c % m)) % m == (a + b * c) % m
  {
    var qa, ra := a / m, a % m;
    var qc, rc := c / m, c % m;
    assert c == m * qc + rc;
    assert b * c == b * (m * qc) + b * rc by {
      Distribute(b, m * qc, rc);
    }
    assert b * (m * qc) == m * (b * qc);
    assert m * (qa + b * qc) == m * qa + m * (b * qc) by {
      Distribute(m, qa, b * qc);
    }
    assert a + b * c == ra + b * rc + m * (qa + b * qc);
    ModShift(ra + b * rc, qa + b * qc, m);
  }

  lemma Distribute(x: int, y: int, z: int)
    ensures x * (y + z) == x * y + x * z
  {
  }

  /** The same with operands only known modulo `m`. */
  lemma ModCongruent(a: nat, a': nat, b: nat, c: nat, c': nat, m: nat)
    requires m > 0 && a % m == a' % m && c % m == c' % m
    ensures (a + b * c) % m == (a' + b * c') % m
  {
    ModAddMul(a, b, c, m);
    ModAddMul(a', b, c', m);
  }

  // ---------------------------------------------------------------------------
  // The hash

  function Pow(i: nat): nat {
    if i == 0 then 1 else Pow(i - 1) * P
  }

  /** The sum of `key[i] * 31^i` over the key's unsigned bytes. */
  function Poly(key: Key): nat
    decreases |key|
  {
    if |key| == 0 then 0 else Poly(key[..|key| - 1]) + key[|key| - 1] as nat * Pow(|key| - 1)
  }

  /** The bucket of `key` in a table of `size` buckets. */
  function Hash(key: Key, size: nat): (h: nat)
    requires size >= 1
    ensures h < size
  {
    Poly(key) % size
  }

  /** One round of `hashFunction`'s loop keeps the running sum equal to the
      hash of the prefix read so far, and the power equal to `31^i`, both
      modulo `m`. */
  lemma HashStep(key: Key, i: nat, hashVal: nat, pPow: nat, m: nat)
    requires i < |key| && m >= 1 && hashVal == Poly(key[..i]) % m && pPow % m == Pow(i) % m
    ensures (hashVal + key[i] as nat * pPow) % m == Poly(key[..i + 1]) % m
    ensures (pPow * P) % m % m == Pow(i + 1) % m
  {
    var b := key[i] as nat;
    var x := Poly(key[..i]);
    assert key[..i + 1][..i] == key[..i];
    assert Poly(key[..i + 1]) == x + b * Pow(i);
    ModMod(x, m);
    ModCongruent(hashVal, x, b, pPow, Pow(i), m);
    var q := pPow * P;
    ModMod(q, m);
    assert q == 0 + P * pPow;
    assert Pow(i + 1) == 0 + P * Pow(i);
    ModCongruent(0, 0, P, pPow, Pow(i), m);
  }

  lemma ModMod(x: nat, m: nat)
    requires m >= 1
    ensures x % m % m == x % m
  {
    ModUnique(x % m, 0, x % m, m);
  }

  // ---------------------------------------------------------------------------
  // Buckets

  /** The first position from `j` on whose node has key `k`, or `|b|`. */
  function IndexFrom(b: seq<HashNode>, k: Key, j: nat): (r: nat)
    requires j <= |b|
    ensures j <= r <= |b|
    decreases |b| - j
  {
    if j == |b| || b[j].key == k then j else IndexFrom(b, k, j + 1)
  }

  /** Where the scans of `get`, `add` and `remove` stop in a bucket. */
  function IndexOf(b: seq<HashNode>, k: Key): nat {
    IndexFrom(b, k, 0)
  }

  lemma {:induction false} IndexFromSpec(b: seq<HashNode>, k: Key, j: nat)
    requires j <= |b|
    ensures IndexFrom(b, k, j) < |b| ==> b[IndexFrom(b, k, j)].key == k
    ensures forall m :: j <= m < IndexFrom(b, k, j) ==> b[m].key != k
    decreases |b| - j
  {
    if !(j == |b| || b[j].key == k) {
      IndexFromSpec(b, k, j + 1);
    }
  }

  lemma {:induction false} IndexFromUnique(b: seq<HashNode>, k: Key, j: nat, r: nat)
    requires j <= r <= |b| && (r < |b| ==> b[r].key == k) && forall m :: j <= m < r ==> b[m].key != k
    ensures IndexFrom(b, k, j) == r
    decreases r - j
  {
    if j < r {
      IndexFromUnique(b, k, j + 1, r);
    }
  }

  /** `IndexOf` is the first node with key `k`: before it no node has that
      key, and at it (if it is in the bucket) one does. */
  lemma IndexOfSpec(b: seq<HashNode>, k: Key)
    ensures IndexOf(b, k) <= |b|
    ensures IndexOf(b, k) < |b| ==> b[IndexOf(b, k)].key == k
    ensures forall m :: 0 <= m < IndexOf(b, k) ==> b[m].key != k
  {
    IndexFromSpec(b, k, 0);
  }

  lemma IndexOfUnique(b: seq<HashNode>, k: Key, r: nat)
    requires r <= |b| && (r < |b| ==> b[r].key == k) && forall m :: 0 <= m < r ==> b[m].key != k
    ensures IndexOf(b, k) == r
  {
    IndexFromUnique(b, k, 0, r);
  }

  /** What the table holds for `k`: the value of the first node with key `k`
      in `k`'s bucket. */
  function Lookup(t: seq<seq<HashNode>>, k: Key): Option<int> {
    if |t| == 0 then None
    else
      var b := t[Hash(k, |t|)];
      var j := IndexOf(b, k);
      if j < |b| then Some(b[j].value) else None
  }

  /** Every key stored anywhere in the table. */
  function KeySet(t: seq<seq<HashNode>>): set<Key> {
    set i, j | 0 <= i < |t| && 0 <= j < |t[i]| :: t[i][j].key
  }

  /** The key-to-value map a table stands for. */
  function MapOf(t: seq<seq<HashNode>>): map<Key, int> {
    map k | k in KeySet(t) && Lookup(t, k).Some? :: Lookup(t, k).value
  }

  /** The map holds exactly what `Lookup` finds. */
  lemma MapOfLookup(t: seq<seq<HashNode>>, k: Key)
    ensures k in MapOf(t) <==> Lookup(t, k).Some?
    ensures k in MapOf(t) ==> MapOf(t)[k] == Lookup(t, k).value
  {
    if Lookup(t, k).Some? {
      var h := Hash(k, |t|);
      IndexOfSpec(t[h], k);
      assert t[h][IndexOf(t[h], k)].key == k;
    }
  }

  /** Two tables whose lookups differ only in `k` now holding `v` stand for
      maps that differ the same way. */
  lemma MapOfPut(t: seq<seq<HashNode>>, t': seq<seq<HashNode>>, k: Key, v: int)
    requires forall x :: Lookup(t', x) == if x == k then Some(v) else Lookup(t, x)
    ensures MapOf(t') == MapOf(t)[k := v]
  {
    var m, m' := MapOf(t), MapOf(t');
    forall x
      ensures x in m' <==> x in m[k := v]
      ensures x in m' ==> m'[x] == m[k := v][x]
    {
      MapOfLookup(t', x);
      MapOfLookup(t, x);
    }
  }

  /** Two tables whose lookups differ only in `k` being gone stand for maps
      that differ the same way. */
  lemma MapOfDrop(t: seq<seq<HashNode>>, t': seq<seq<HashNode>>, k: Key)
    requires forall x :: Lookup(t', x) == if x == k then None else Lookup(t, x)
    ensures MapOf(t') == MapOf(t) - {k}
  {
    var m, m' := MapOf(t), MapOf(t');
    forall x
      ensures x in m' <==> x in m - {k}
      ensures x in m' ==> m'[x] == (m - {k})[x]
    {
      MapOfLookup(t', x);
      MapOfLookup(t, x);
    }
  }

  /** Two tables that agree on every lookup stand for the same map. */
  lemma MapOfSame(t: seq<seq<HashNode>>, t': seq<seq<HashNode>>)
    requires forall x :: Lookup(t', x) == Lookup(t, x)
    ensures MapOf(t') == MapOf(t)
  {
    var m, m' := MapOf(t), MapOf(t');
    forall x
      ensures x in m' <==> x in m
      ensures x in m' ==> m'[x] == m[x]
    {
      MapOfLookup(t', x);
      MapOfLookup(t, x);
    }
  }

  /** Every node sits in the bucket its key hashes to. */
  ghost predicate Hashed(t: seq<seq<HashNode>>) {
    forall i, j :: 0 <= i < |t| && 0 <= j < |t[i]| ==> Hash(t[i][j].key, |t|) == i
  }

  /** No bucket holds a key twice. */
  ghost predicate DistinctKeys(t: seq<seq<HashNode>>) {
    forall i, j1, j2 :: 0 <= i < |t| && 0 <= j1 < j2 < |t[i]| ==> t[i][j1].key != t[i][j2].key
  }

  /** The number of nodes in the buckets. */
  function Count(t: seq<seq<HashNode>>): nat
    decreases |t|
  {
    if |t| == 0 then 0 else Count(t[..|t| - 1]) + |t[|t| - 1]|
  }

  lemma {:induction false} CountUpdate(t: seq<seq<HashNode>>, h: nat, b: seq<HashNode>)
    requires h < |t|
    ensures Count(t[h := b]) + |t[h]| == Count(t) + |b|
    decreases |t|
  {
    var n := |t| - 1;
    if h < n {
      assert t[h := b][..n] == t[..n][h := b];
      CountUpdate(t[..n], h, b);
    } else {
      assert t[h := b][..n] == t[..n];
    }
  }

  /** `n` empty buckets. */
  function EmptyTable(n: nat): (t: seq<seq<HashNode>>)
    ensures |t| == n && forall i :: 0 <= i < n ==> t[i] == []
  {
    seq(n, _ => [])
  }

  lemma {:induction false} CountEmpty(n: nat)
    ensures Count(EmptyTable(n)) == 0
  {
    if n > 0 {
      assert EmptyTable(n)[..n - 1] == EmptyTable(n - 1);
      CountEmpty(n - 1);
    }
  }

  /** The buckets before `i` and `j` nodes of bucket `i` are fewer than all. */
  lemma {:induction false} CountPrefix(t: seq<seq<HashNode>>, i: nat)
    requires i < |t|
    ensures Count(t[..i + 1]) == Count(t[..i]) + |t[i]|
    ensures Count(t[..i + 1]) <= Count(t)
    decreases |t|
  {
    assert t[..i + 1][..i] == t[..i];
    if i + 1 < |t| {
      assert t[..|t| - 1][..i + 1] == t[..i + 1];
      assert t[..|t| - 1][..i] == t[..i];
      CountPrefix(t[..|t| - 1], i);
    } else {
      assert t[..i + 1] == t;
    }
  }

  // ---------------------------------------------------------------------------
  // Bucket updates

  /** `emplace_back` of a new key in its bucket. */
  lemma LookupAppend(t: seq<seq<HashNode>>, k: Key, v: int)
    requires |t| >= 1 && Lookup(t, k).None?
    ensures var h := Hash(k, |t|); var t' := t[h := t[h] + [HashNode(k, v)]];
      forall x :: Lookup(t', x) == if x == k then Some(v) else Lookup(t, x)
  {
    var h := Hash(k, |t|);
    var b := t[h];
    var b' := b + [HashNode(k, v)];
    var t' := t[h := b'];
    IndexOfSpec(b, k);
    forall x
      ensures Lookup(t', x) == if x == k then Some(v) else Lookup(t, x)
    {
      if Hash(x, |t|) == h {
        IndexOfSpec(b, x);
        var j := IndexOf(b, x);
        if j < |b| {
          IndexOfUnique(b', x, j);
        } else {
          IndexOfUnique(b', x, if x == k then |b| else |b'|);
        }
      }
    }
  }

  /** Overwriting the value of the node that holds `k`. */
  lemma LookupOverwrite(t: seq<seq<HashNode>>, k: Key, v: int)
    requires |t| >= 1 && Lookup(t, k).Some?
    ensures var h := Hash(k, |t|); var j := IndexOf(t[h], k);
      j < |t[h]| &&
      var t' := t[h := t[h][j := HashNode(k, v)]];
      forall x :: Lookup(t', x) == if x == k then Some(v) else Lookup(t, x)
  {
    var h := Hash(k, |t|);
    var b := t[h];
    var j := IndexOf(b, k);
    var b' := b[j := HashNode(k, v)];
    var t' := t[h := b'];
    IndexOfSpec(b, k);
    forall x
      ensures Lookup(t', x) == if x == k then Some(v) else Lookup(t, x)
    {
      if Hash(x, |t|) == h {
        IndexOfSpec(b, x);
        IndexOfUnique(b', x, IndexOf(b, x));
      }
    }
  }

  /** `erase` of the node that holds `k`, in a table without duplicate keys. */
  lemma LookupErase(t: seq<seq<HashNode>>, k: Key)
    requires |t| >= 1 && Lookup(t, k).Some? && DistinctKeys(t)
    ensures var h := Hash(k, |t|); var j := IndexOf(t[h], k);
      j < |t[h]| &&
      var t' := t[h := t[h][..j] + t[h][j + 1..]];
      forall x :: Lookup(t', x) == if x == k then None else Lookup(t, x)
  {
    var h := Hash(k, |t|);
    var b := t[h];
    var j := IndexOf(b, k);
    var b' := b[..j] + b[j + 1..];
    var t' := t[h := b'];
    IndexOfSpec(b, k);
    forall x
      ensures Lookup(t', x) == if x == k then None else Lookup(t, x)
    {
      if Hash(x, |t|) == h {
        IndexOfSpec(b, x);
        var i := IndexOf(b, x);
        if x == k {
          IndexOfUnique(b', x, |b'|);
        } else if i < j {
          IndexOfUnique(b', x, i);
        } else {
          assert i > j;
          IndexOfUnique(b', x, i - 1);
        }
      }
    }
  }

  /** The invariants survive adding a node with a new key. */
  lemma AppendKeepsShape(t: seq<seq<HashNode>>, k: Key, v: int)
    requires |t| >= 1 && Lookup(t, k).None? && Hashed(t) && DistinctKeys(t)
    ensures var h := Hash(k, |t|); var t' := t[h := t[h] + [HashNode(k, v)]];
      Hashed(t') && DistinctKeys(t') && Count(t') == Count(t) + 1
  {
    var h := Hash(k, |t|);
    IndexOfSpec(t[h], k);
    CountUpdate(t, h, t[h] + [HashNode(k, v)]);
  }

  /** The invariants survive overwriting a value. */
  lemma OverwriteKeepsShape(t: seq<seq<HashNode>>, k: Key, v: int)
    requires |t| >= 1 && Lookup(t, k).Some? && Hashed(t) && DistinctKeys(t)
    ensures var h := Hash(k, |t|); var j := IndexOf(t[h], k);
      j < |t[h]| &&
      var t' := t[h := t[h][j := HashNode(k, v)]];
      Hashed(t') && DistinctKeys(t') && Count(t') == Count(t)
  {
    var h := Hash(k, |t|);
    var j := IndexOf(t[h], k);
    IndexOfSpec(t[h], k);
    CountUpdate(t, h, t[h][j := HashNode(k, v)]);
  }

  /** The invariants survive erasing a node. */
  lemma EraseKeepsShape(t: seq<seq<HashNode>>, k: Key)
    requires |t| >= 1 && Lookup(t, k).Some? && Hashed(t) && DistinctKeys(t)
    ensures var h := Hash(k, |t|); var j := IndexOf(t[h], k);
      j < |t[h]| &&
      var t' := t[h := t[h][..j] + t[h][j + 1..]];
      Hashed(t') && DistinctKeys(t') && Count(t') + 1 == Count(t)
  {
    var h := Hash(k, |t|);
    var b := t[h];
    var j := IndexOf(b, k);
    IndexOfSpec(b, k);
    var b' := b[..j] + b[j + 1..];
    assert forall m :: 0 <= m < |b'| ==> b'[m] == if m < j then b[m] else b[m + 1];
    CountUpdate(t, h, b');
  }

  /** Erasing the node that holds `k` keeps the invariants and drops `k` from
      the map. */
  lemma EraseStep(t: seq<seq<HashNode>>, k: Key)
    requires |t| >= 1 && Lookup(t, k).Some? && Hashed(t) && DistinctKeys(t)
    ensures var h := Hash(k, |t|); var j := IndexOf(t[h], k);
      j < |t[h]| &&
      var t' := t[h := t[h][..j] + t[h][j + 1..]];
      Hashed(t') && DistinctKeys(t') && Count(t') + 1 == Count(t) && MapOf(t') == MapOf(t) - {k}
  {
    var h := Hash(k, |t|);
    var j := IndexOf(t[h], k);
    LookupErase(t, k);
    EraseKeepsShape(t, k);
    MapOfDrop(t, t[h := t[h][..j] + t[h][j + 1..]], k);
  }

  /** Removing an absent key changes no map. */
  lemma MapOfAbsent(t: seq<seq<HashNode>>, k: Key)
    requires Lookup(t, k).None?
    ensures MapOf(t) - {k} == MapOf(t)
  {
    MapOfLookup(t, k);
  }

  /** Writing a new value into any node keeps the invariants and changes
      the map at that node's key only. */
  lemma WriteStep(t: seq<seq<HashNode>>, b: nat, j: nat, v: int)
    requires Hashed(t) && DistinctKeys(t) && b < |t| && j < |t[b]|
    ensures var k := t[b][j].key; var t' := t[b := t[b][j := HashNode(k, v)]];
      Hashed(t') && DistinctKeys(t') && Count(t') == Count(t) && MapOf(t') == MapOf(t)[k := v]
  {
    var k := t[b][j].key;
    assert Hash(k, |t|) == b;
    IndexOfUnique(t[b], k, j);
    LookupOverwrite(t, k, v);
    OverwriteKeepsShape(t, k, v);
    MapOfPut(t, t[b := t[b][j := HashNode(k, v)]], k, v);
  }

  // ---------------------------------------------------------------------------
  // Rehash bookkeeping

  /** Whether `k`'s node in `t` comes before bucket `i`, node `j`, in the order
      `rehash` visits the old table. */
  ghost predicate Before(t: seq<seq<HashNode>>, k: Key, i: nat, j: nat)
    requires |t| >= 1
  {
    var h := Hash(k, |t|);
    IndexOf(t[h], k) < |t[h]| && (h < i || (h == i && IndexOf(t[h], k) < j))
  }

  /** Visiting node `j` of bucket `i` adds exactly that node's key. */
  lemma BeforeStep(t: seq<seq<HashNode>>, i: nat, j: nat)
    requires |t| >= 1 && Hashed(t) && DistinctKeys(t) && i < |t| && j < |t[i]|
    ensures !Before(t, t[i][j].key, i, j) && Lookup(t, t[i][j].key) == Some(t[i][j].value)
    ensures forall k :: Before(t, k, i, j + 1) == (Before(t, k, i, j) || k == t[i][j].key)
  {
    var n := t[i][j];
    IndexOfUnique(t[i], n.key, j);
    forall k
      ensures Before(t, k, i, j + 1) == (Before(t, k, i, j) || k == n.key)
    {
      var h := Hash(k, |t|);
      IndexOfSpec(t[h], k);
    }
  }

  lemma BeforeNextBucket(t: seq<seq<HashNode>>, i: nat)
    requires |t| >= 1 && i < |t|
    ensures forall k :: Before(t, k, i + 1, 0) == Before(t, k, i, |t[i]|)
  {
    forall k
      ensures Before(t, k, i + 1, 0) == Before(t, k, i, |t[i]|)
    {
      IndexOfSpec(t[Hash(k, |t|)], k);
    }
  }

  lemma BeforeAll(t: seq<seq<HashNode>>)
    requires |t| >= 1
    ensures forall k :: Before(t, k, |t|, 0) == Lookup(t, k).Some?
  {
  }

  lemma LookupEmpty(n: nat)
    requires n >= 1
    ensures forall k :: Lookup(EmptyTable(n), k) == None
    ensures KeySet(EmptyTable(n)) == {} && MapOf(EmptyTable(n)) == map[]
  {
  }

  // ---------------------------------------------------------------------------
  // The table

  class HashTable {
    var table: seq<seq<HashNode>>
    var numElements: nat
    var tableSize: nat

    /** The shape every operation keeps: the bucket count, nodes hashed to
        their bucket, no duplicate key, and `num_elements` counting nodes. */
    ghost predicate Shaped()
      reads this
    {
      tableSize >= 1 && |table| == tableSize && Hashed(table) && DistinctKeys(table)
      && numElements == Count(table)
    }

    /** Also: the load factor stays below 0.75 between calls. */
    ghost predicate Valid()
      reads this
    {
      Shaped() && 4 * numElements < 3 * tableSize
    }

    /** The key-to-value map the table stands for. */
    ghost function Map(): map<Key, int>
      reads this
    {
      MapOf(table)
    }

    /** `HashTable(initial_size)`: a size of 0 becomes 1. */
    constructor (initialSize: nat)
      ensures Valid() && Map() == map[] && numElements == 0
      ensures tableSize == if initialSize == 0 then 1 else initialSize
    {
      var size := if initialSize == 0 then 1 else initialSize;
      tableSize := size;
      table := EmptyTable(size);
      numElements := 0;
      new;
      CountEmpty(size);
      LookupEmpty(size);
    }

    /** `hashFunction`: the running sum and power are both kept modulo
        `table_size`. */
    method HashFunction(key: Key) returns (h: nat)
      requires tableSize >= 1
      ensures h == Hash(key, tableSize)
    {
      var m := tableSize;
      var hashVal: nat := 0;
      var pPow: nat := 1;
      var i := 0;
      while i < |key|
        invariant 0 <= i <= |key| && hashVal == Poly(key[..i]) % m && pPow % m == Pow(i) % m
        decreases |key| - i
      {
        HashStep(key, i, hashVal, pPow, m);
        hashVal := (hashVal + key[i] as nat * pPow) % m;
        pPow := (pPow * P) % m;
        i := i + 1;
      }
      assert key[..i] == key;
      h := hashVal;
    }

    /** The loop over a bucket that `get`, `add` and `remove` share: where
        the node with `key` is, or the bucket's length. */
    method ScanBucket(bucket: seq<HashNode>, key: Key) returns (j: nat)
      ensures j == IndexOf(bucket, key)
    {
      j := 0;
      while j < |bucket|
        invariant j <= |bucket| && forall m :: 0 <= m < j ==> bucket[m].key != key
        decreases |bucket| - j
      {
        if bucket[j].key == key {
          IndexOfUnique(bucket, key, j);
          return;
        }
        j := j + 1;
      }
      IndexOfUnique(bucket, key, j);
    }

    /** `get`: the value stored for `key`, or nothing. */
    method Get(key: Key) returns (r: Option<int>)
      requires Valid()
      ensures r == if key in Map() then Some(Map()[key]) else None
    {
      var index := HashFunction(key);
      var j := ScanBucket(table[index], key);
      MapOfLookup(table, key);
      if j < |table[index]| {
        r := Some(table[index][j].value);
      } else {
        r := None;
      }
    }

    /** The non-const `get`, which returns `int*`: the bucket and position of
        the node holding `key`, or nothing. */
    method GetSlot(key: Key) returns (slot: Option<(nat, nat)>)
      requires Valid()
      ensures slot.None? <==> key !in Map()
      ensures slot.Some? ==> slot.value.0 < |table| && slot.value.1 < |table[slot.value.0]|
      ensures slot.Some? ==> table[slot.value.0][slot.value.1] == HashNode(key, Map()[key])
    {
      var index := HashFunction(key);
      var j := ScanBucket(table[index], key);
      MapOfLookup(table, key);
      IndexOfSpec(table[index], key);
      if j < |table[index]| {
        slot := Some((index, j));
      } else {
        slot := None;
      }
    }

    /** A store through the pointer `get` returned: the node at bucket `b`,
        position `j` gets value `v`; nothing is rehashed or counted. */
    method SetSlot(b: nat, j: nat, v: int, ghost key: Key)
      requires Valid() && b < |table| && j < |table[b]| && table[b][j].key == key
      modifies this
      ensures Valid() && tableSize == old(tableSize) && numElements == old(numElements)
      ensures Map() == old(Map())[key := v]
    {
      WriteStep(table, b, j, v);
      table := table[b := table[b][j := table[b][j].(value := v)]];
    }

    /** The part of `add` after the load check: overwrite or append. */
    method Insert(key: Key, value: int)
      requires Shaped() && 4 * (numElements + 1) < 3 * tableSize
      modifies this
      ensures Valid() && tableSize == old(tableSize)
      ensures forall x :: Lookup(table, x) == if x == key then Some(value) else Lookup(old(table), x)
      ensures numElements == old(numElements) + if Lookup(old(table), key).Some? then 0 else 1
    {
      var index := HashFunction(key);
      var bucket := table[index];
      var j := ScanBucket(bucket, key);
      if j < |bucket| {
        LookupOverwrite(table, key, value);
        OverwriteKeepsShape(table, key, value);
        table := table[index := bucket[j := HashNode(key, value)]];
        return;
      }
      LookupAppend(table, key, value);
      AppendKeepsShape(table, key, value);
      table := table[index := bucket + [HashNode(key, value)]];
      numElements := numElements + 1;
    }

    /** `add`: rehash first if one more element would reach the load factor,
        then overwrite or append. */
    method Add(key: Key, value: int)
      requires Valid()
      modifies this
      ensures Valid() && Map() == old(Map())[key := value]
      ensures tableSize == if 4 * (old(numElements) + 1) >= 3 * old(tableSize)
                           then 2 * old(tableSize) + 1 else old(tableSize)
      ensures numElements == old(numElements) + if key in old(Map()) then 0 else 1
    {
      ghost var t0 := table;
      MapOfLookup(t0, key);
      if 4 * (numElements + 1) >= 3 * tableSize {
        Rehash();
      }
      ghost var t1 := table;
      MapOfLookup(t1, key);
      Insert(key, value);
      MapOfPut(t1, table, key, value);
    }

    /** `rehash`: `2n + 1` empty buckets, then every old node added again in
        bucket order. The load check of those `add` calls never fires. */
    method Rehash()
      requires Valid()
      modifies this
      ensures Valid() && Map() == old(Map())
      ensures tableSize == 2 * old(tableSize) + 1 && numElements == old(numElements)
    {
      var oldTableSize := tableSize;
      tableSize := tableSize * 2 + 1;
      var oldTable := table;
      table := EmptyTable(tableSize);
      numElements := 0;
      CountEmpty(tableSize);
      LookupEmpty(tableSize);
      assert oldTable[..0] == [];
      var i := 0;
      while i < oldTableSize
        invariant 0 <= i <= oldTableSize == |oldTable| && Hashed(oldTable) && DistinctKeys(oldTable)
        invariant Count(oldTable) == old(numElements) && 4 * old(numElements) < 3 * oldTableSize
        invariant Shaped() && tableSize == 2 * oldTableSize + 1
        invariant numElements == Count(oldTable[..i])
        invariant forall k :: Lookup(table, k) == if Before(oldTable, k, i, 0) then Lookup(oldTable, k) else None
        decreases oldTableSize - i
      {
        var bucket := oldTable[i];
        CountPrefix(oldTable, i);
        var j := 0;
        while j < |bucket|
          invariant 0 <= j <= |bucket| && Shaped() && tableSize == 2 * oldTableSize + 1
          invariant numElements == Count(oldTable[..i]) + j
          invariant forall k :: Lookup(table, k) == if Before(oldTable, k, i, j) then Lookup(oldTable, k) else None
          decreases |bucket| - j
        {
          BeforeStep(oldTable, i, j);
          // the load check of `add`
          assert !(4 * (numElements + 1) >= 3 * tableSize);
          Insert(bucket[j].key, bucket[j].value);
          j := j + 1;
        }
        BeforeNextBucket(oldTable, i);
        i := i + 1;
      }
      BeforeAll(oldTable);
      assert oldTable[..i] == oldTable;
      MapOfSame(oldTable, table);
    }

    /** `remove`: erase the node with `key`, if there is one. */
    method Remove(key: Key) returns (removed: bool)
      requires Valid()
      modifies this
      ensures Valid() && tableSize == old(tableSize)
      ensures removed == (key in old(Map())) && Map() == old(Map()) - {key}
      ensures numElements == old(numElements) - if removed then 1 else 0
    {
      MapOfLookup(table, key);
      var index := HashFunction(key);
      var bucket := table[index];
      var j := ScanBucket(bucket, key);
      if j < |bucket| {
        EraseAt(index, j, key);
        return true;
      }
      MapOfAbsent(table, key);
      return false;
    }

    /** `remove`'s erase of the node `j` of bucket `b`, where the search for
        `key` ended. */
    method EraseAt(b: nat, j: nat, ghost key: Key)
      requires Valid() && b == Hash(key, tableSize) && j == IndexOf(table[b], key) && j < |table[b]|
      modifies this
      ensures Valid() && tableSize == old(tableSize) && numElements == old(numElements) - 1
      ensures key in old(Map()) && Map() == old(Map()) - {key}
    {
      ghost var m0 := Map();
      MapOfLookup(table, key);
      EraseStep(table, key);
      var erased := table[b := table[b][..j] + table[b][j + 1..]];
      assert MapOf(erased) == m0 - {key} && Count(erased) + 1 == numElements;
      table := erased;
      numElements := numElements - 1;
    }

    /** `clear`: every bucket emptied, the bucket count kept. */
    method Clear()
      requires Valid()
      modifies this
      ensures Valid() && Map() == map[] && numElements == 0 && tableSize == old(tableSize)
    {
      table := EmptyTable(tableSize);
      numElements := 0;
      CountEmpty(tableSize);
      LookupEmpty(tableSize);
    }
  }

  /** `Dictionary`: word counts in a hash table, keyed by the normalized
      word. */
  class Dictionary {
    const ht: HashTable

    ghost predicate Valid()
      reads this, ht
    {
      ht.Valid() && WordCounts.WellFormed(ht.Map())
    }

    /** The count of every word. */
    ghost function Frequencies(): WordCounts.Counts
      reads this, ht
    {
      ht.Map()
    }

    /** `Dictionary(initial_capacity)`. */
    constructor (initialCapacity: nat)
      ensures Valid() && Frequencies() == map[] && fresh(ht)
    {
      ht := new HashTable(initialCapacity);
    }

    /** `addWord`: an empty word is ignored; otherwise the normalized word's
        count goes up by one. */
    method AddWord(raw: seq<byte>)
      requires Valid()
      modifies ht
      ensures Valid() && Frequencies() == WordCounts.AddWord(old(Frequencies()), raw)
    {
      WordCounts.AddWordWellFormed(Frequencies(), raw);
      if |raw| == 0 {
        return;
      }
      var word := Text.NormalizeWordToLower(raw);
      Increment(word);
    }

    /** The rest of `addWord`: an existing count is incremented through the
        pointer `get` returns; a new word is added with count 1. */
    method Increment(word: Key)
      requires ht.Valid()
      modifies ht
      ensures ht.Valid() && ht.Map() == WordCounts.Bump(old(ht.Map()), word)
    {
      var slot := ht.GetSlot(word);
      if slot.Some? {
        var (b, j) := slot.value;
        IncrementSlot(b, j, word);
      } else {
        WordCounts.BumpAbsent(ht.Map(), word);
        ht.Add(word, 1);
      }
    }

    /** `(*current_val_ptr)++` on the node `get` found for `word`. */
    method IncrementSlot(b: nat, j: nat, ghost word: Key)
      requires ht.Valid() && b < |ht.table| && j < |ht.table[b]|
      requires word in ht.Map() && ht.table[b][j] == HashNode(word, ht.Map()[word])
      modifies ht
      ensures ht.Valid() && ht.Map() == WordCounts.Bump(old(ht.Map()), word)
    {
      ghost var m0 := ht.Map();
      var v := ht.table[b][j].value + 1;
      assert v == m0[word] + 1;
      WordCounts.BumpPresent(m0, word);
      ht.SetSlot(b, j, v, word);
      assert ht.Map() == m0[word := v];
      assert ht.Map() == WordCounts.Bump(m0, word);
    }

    /** `removeWord`: an empty word is ignored. */
    method RemoveWord(raw: seq<byte>)
      requires Valid()
      modifies ht
      ensures Valid()
      ensures Frequencies() == if |raw| == 0 then old(Frequencies()) else old(Frequencies()) - {Text.Lower(raw)}
    {
      if |raw| == 0 {
        return;
      }
      var word := Text.NormalizeWordToLower(raw);
      var _ := ht.Remove(word);
    }

    /** `findWord`: whether the normalized word has a count; an empty word is
        never found. */
    method FindWord(raw: seq<byte>) returns (found: bool)
      requires Valid()
      ensures found == (|raw| > 0 && Text.Lower(raw) in Frequencies())
    {
      if |raw| == 0 {
        return false;
      }
      var word := Text.NormalizeWordToLower(raw);
      var count := ht.Get(word);
      found := count.Some?;
    }

    /** `clear`. */
    method Clear()
      requires Valid()
      modifies ht
      ensures Valid() && Frequencies() == map[]
    {
      ht.Clear();
    }

    /** `loadFromFile` once the file's bytes are read: without `append` the
        dictionary is cleared first, then every word of the text is added. */
    method LoadText(content: seq<byte>, append: bool)
      requires Valid()
      modifies ht
      ensures Valid()
      ensures Frequencies() == WordCounts.AddWords(if append then old(Frequencies()) else map[], Text.Words(content))
    {
      if !append {
        Clear();
      }
      ghost var start := Frequencies();
      var words := Text.ProcessTextToWords(content);
      var i := 0;
      while i < |words|
        invariant i <= |words| && Valid() && Frequencies() == WordCounts.AddWords(start, words[..i])
        decreases |words| - i
      {
        WordCounts.AddWordsPrefix(start, words, i);
        if |words[i]| > 0 {
          AddWord(words[i]);
        }
        i := i + 1;
      }
      assert words[..i] == words;
    }
  }
}
