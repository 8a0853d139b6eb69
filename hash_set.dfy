/**
 * The hash set: an array of buckets, each an ordered set, with a running
 * `size` and a rebuild threshold `maxsize`.  A key lives in bucket
 * hash(key) % (number of buckets).  A bucket is modelled by its abstract
 * value, the ascending sequence of its keys, and changed with the same
 * specification functions the ordered set's methods are proved against.
 *
 * An iterator is a bucket index and a position inside that bucket's
 * in-order sequence; the end iterator is (number of buckets, 0), the
 * position 0 standing for the default-constructed set iterator.
 */
module HashSet {
  import opened SortedSeq

  /** Exponent of the default bucket count. */
  const DEFAULT_POW: nat := 4

  function Pow2(k: nat): (r: nat)
    ensures r >= 1
  {
    if k == 0 then 1 else 2 * Pow2(k - 1)
  }

  /** A bucket count scaled by the load factor 0.75 and truncated, as the conversion to size_t does. */
  function Threshold(n: nat): nat {
    n * 3 / 4
  }

  datatype Pos = Pos(bucket: nat, slot: nat)

  /** All keys in iteration order: bucket after bucket, each in ascending order. */
  function Flat(s: seq<seq<int>>): seq<int> {
    if s == [] then [] else Flat(s[..|s| - 1]) + s[|s| - 1]
  }

  /** How many keys iteration has passed on reaching p. */
  function Index(s: seq<seq<int>>, p: Pos): nat
    requires p.bucket <= |s|
  {
    |Flat(s[..p.bucket])| + p.slot
  }

  /** p designates a key (it can be dereferenced). */
  predicate At(s: seq<seq<int>>, p: Pos) {
    p.bucket < |s| && p.slot < |s[p.bucket]|
  }

  /** Every key sits in the bucket its hash selects. */
  ghost predicate Hashed(s: seq<seq<int>>, hash: int -> nat, m: nat) {
    m > 0 && forall b, x | 0 <= b < |s| && x in s[b] :: hash(x) % m == b
  }

  ghost predicate AllAscending(s: seq<seq<int>>) {
    forall b | 0 <= b < |s| :: Ascending(s[b])
  }

  lemma {:induction false} FlatStep(s: seq<seq<int>>, b: nat)
    requires b < |s|
    ensures Flat(s[..b + 1]) == Flat(s[..b]) + s[b]
  {
    assert s[..b + 1][..b] == s[..b];
  }

  /** Iteration reaches the keys of the first b buckets before any later key. */
  lemma {:induction false} FlatPrefix(s: seq<seq<int>>, b: nat)
    requires b <= |s|
    ensures Flat(s[..b]) <= Flat(s)
    decreases |s| - b
  {
    if b == |s| {
      assert s[..b] == s;
    } else {
      FlatPrefix(s, b + 1);
      FlatStep(s, b);
    }
  }

  /** The key at position p is the one iteration yields at step Index(s, p). */
  lemma {:induction false} FlatAt(s: seq<seq<int>>, p: Pos)
    requires At(s, p)
    ensures Index(s, p) < |Flat(s)| && Flat(s)[Index(s, p)] == s[p.bucket][p.slot]
  {
    FlatPrefix(s, p.bucket + 1);
    FlatStep(s, p.bucket);
  }

  /** The end position comes after every key. */
  lemma {:induction false} FlatEnd(s: seq<seq<int>>)
    ensures Index(s, Pos(|s|, 0)) == |Flat(s)|
  {
    assert s[..|s|] == s;
  }

  /** A key is stored iff some bucket holds it. */
  lemma {:induction false} FlatElems(s: seq<seq<int>>, x: int)
    ensures x in Flat(s) <==> exists b | 0 <= b < |s| :: x in s[b]
    decreases |s|
  {
    if s != [] {
      var n := |s| - 1;
      FlatElems(s[..n], x);
      assert x in Flat(s) <==> x in Flat(s[..n]) || x in s[n];
      if x in Flat(s[..n]) {
        var b :| 0 <= b < n && x in s[..n][b];
        assert x in s[b];
      }
      if exists b | 0 <= b < |s| :: x in s[b] {
        var b :| 0 <= b < |s| && x in s[b];
        if b < n {
          assert x in s[..n][b];
        }
      }
    }
  }

  /** A stored key is in the bucket its hash selects, and nowhere else. */
  lemma {:induction false} InItsBucket(s: seq<seq<int>>, hash: int -> nat, x: int)
    requires Hashed(s, hash, |s|)
    ensures x in Flat(s) <==> x in s[hash(x) % |s|]
  {
    FlatElems(s, x);
  }

  /** Replacing one bucket of a correctly hashed table replaces exactly that bucket's keys. */
  lemma {:induction false} ReplaceBucket(s: seq<seq<int>>, hash: int -> nat, b: nat, nb: seq<int>)
    requires Hashed(s, hash, |s|) && b < |s| && Hashed(s[b := nb], hash, |s|)
    ensures Elems(Flat(s[b := nb])) == Elems(Flat(s)) - Elems(s[b]) + Elems(nb)
  {
    var t := s[b := nb];
    forall x ensures x in Flat(t) <==> (x in Flat(s) && x !in s[b]) || x in nb {
      InItsBucket(s, hash, x);
      InItsBucket(t, hash, x);
      var c := hash(x) % |s|;
      if c != b {
        assert t[c] == s[c] && t[b] == nb;
        assert x !in s[b] && x !in nb;
      }
    }
  }

  /** Iteration meets each key once: the buckets are ascending and no key is in two buckets. */
  lemma {:induction false} FlatDistinct(s: seq<seq<int>>, hash: int -> nat, m: nat)
    requires Hashed(s, hash, m) && AllAscending(s)
    ensures forall i, j | 0 <= i < j < |Flat(s)| :: Flat(s)[i] != Flat(s)[j]
    decreases |s|
  {
    if s != [] {
      var n := |s| - 1;
      var p, q := Flat(s[..n]), s[n];
      assert Hashed(s[..n], hash, m) && AllAscending(s[..n]) by {
        forall b, x | 0 <= b < n && x in s[..n][b] ensures hash(x) % m == b {
          assert x in s[b];
        }
      }
      FlatDistinct(s[..n], hash, m);
      forall i, j | 0 <= i < j < |p + q| ensures (p + q)[i] != (p + q)[j] {
        if j < |p| {
          assert (p + q)[i] == p[i] && (p + q)[j] == p[j];
        } else if i >= |p| {
          assert (p + q)[i] == q[i - |p|] && (p + q)[j] == q[j - |p|];
        } else {
          var x := p[i];
          FlatElems(s[..n], x);
          var b :| 0 <= b < n && x in s[..n][b];
          assert x in s[b] && hash(x) % m == b;
          assert (p + q)[j] in s[n];
        }
      }
    }
  }

  /** Each doubling of an exponent at least quadruples the count: 2^(2n) >= 4n. */
  lemma {:induction false} Pow2Double(n: nat)
    requires n >= 1
    ensures Pow2(2 * n) >= 4 * n
  {
    if n > 1 {
      Pow2Double(n - 1);
      assert Pow2(2 * n) == 4 * Pow2(2 * (n - 1));
    }
  }

  /** The table a rebuild of an n-bucket table creates has room for every key it held before its last insertion. */
  lemma {:induction false} RebuildRoom(n: nat, count: nat)
    requires n >= 1 && count <= Threshold(n)
    ensures count < Threshold(Pow2(2 * n))
  {
    Pow2Double(n);
  }

  class UnorderedSet {
    /** The hash function, a type parameter of the source. */
    const hash: int -> nat
    var storage: seq<seq<int>>
    var size: nat
    var maxsize: nat

    /**
     * The buckets are non-empty in number, ascending and correctly hashed;
     * `size` counts at least the stored keys (it also counts repeated
     * insertions) and stays within the threshold, which is three quarters
     * of the bucket count.
     */
    ghost predicate Valid()
      reads this
    {
      |storage| > 0 && Hashed(storage, hash, |storage|) && AllAscending(storage) &&
      maxsize == Threshold(|storage|) && |Flat(storage)| <= size <= maxsize
    }

    /** The stored keys. */
    ghost function Contents(): set<int>
      reads this
    {
      Elems(Flat(storage))
    }

    function Bucket(v: int): (b: nat)
      requires |storage| > 0
      reads this
      ensures b < |storage|
    {
      hash(v) % |storage|
    }

    /** The default table: 2^DEFAULT_POW = 16 empty buckets and threshold 12. */
    constructor (h: int -> nat)
      ensures Valid() && hash == h && Contents() == {}
      ensures |storage| == 16 && size == 0 && maxsize == 12
      ensures forall b | 0 <= b < |storage| :: storage[b] == []
    {
      hash := h;
      storage := seq(Pow2(DEFAULT_POW), _ => []);
      size := 0;
      maxsize := Threshold(Pow2(DEFAULT_POW));
      new;
      EmptyFlat(storage);
    }

    /** A table of 2^pow empty buckets and threshold floor(2^pow * 3/4). */
    constructor WithPow(h: int -> nat, pow: nat)
      ensures Valid() && hash == h && Contents() == {}
      ensures |storage| == Pow2(pow) && size == 0 && maxsize == Threshold(Pow2(pow))
      ensures forall b | 0 <= b < |storage| :: storage[b] == []
    {
      hash := h;
      storage := seq(Pow2(pow), _ => []);
      size := 0;
      maxsize := Threshold(Pow2(pow));
      new;
      EmptyFlat(storage);
    }

    /** A table holding the same buckets and counters as other. */
    constructor Copy(other: UnorderedSet)
      requires other.Valid()
      ensures Valid() && hash == other.hash && Contents() == other.Contents()
      ensures storage == other.storage && size == other.size && maxsize == other.maxsize
    {
      hash := other.hash;
      storage := other.storage;
      size := other.size;
      maxsize := other.maxsize;
    }

    /** Tests the counter, not the buckets: a table reporting empty holds no key. */
    function Empty(): (r: bool)
      requires Valid()
      reads this
      ensures r ==> Contents() == {}
    {
      size == 0
    }

    /** Back to 16 empty buckets, size 0 and threshold 12. */
    method Clear()
      modifies this
      ensures Valid() && Contents() == {}
      ensures |storage| == 16 && size == 0 && maxsize == 12
      ensures forall b | 0 <= b < |storage| :: storage[b] == []
    {
      storage := seq(Pow2(DEFAULT_POW), _ => []);
      size := 0;
      maxsize := Threshold(Pow2(DEFAULT_POW));
      EmptyFlat(storage);
    }

    /** The end iterator: past the last bucket, after every key. */
    function End(): (p: Pos)
      reads this
      ensures p.bucket == |storage| && !At(storage, p)
      ensures Index(storage, p) == |Flat(storage)|
    {
      FlatEnd(storage);
      Pos(|storage|, 0)
    }

    /**
     * Moves a position that sits at the end of its bucket on to the first
     * key of the next non-empty bucket, or to the end iterator; iteration
     * has passed the same number of keys before and after.
     */
    method Check(p: Pos) returns (q: Pos)
      requires p.bucket < |storage| && p.slot <= |storage[p.bucket]|
      ensures At(storage, q) || q == End()
      ensures q.bucket >= p.bucket && Index(storage, q) == Index(storage, p)
      ensures At(storage, p) ==> q == p
    {
      q := p;
      while q.slot == |storage[q.bucket]|
        invariant p.bucket <= q.bucket < |storage| && q.slot <= |storage[q.bucket]|
        invariant Index(storage, q) == Index(storage, p)
        invariant At(storage, p) ==> q == p
        decreases |storage| - q.bucket
      {
        FlatStep(storage, q.bucket);
        if q.bucket + 1 == |storage| {
          q := Pos(q.bucket + 1, 0);
          return;
        } else {
          q := Pos(q.bucket + 1, 0);
        }
      }
    }

    /** The iterator at the first key in iteration order, or the end iterator. */
    method Begin() returns (p: Pos)
      requires |storage| > 0
      ensures At(storage, p) || p == End()
      ensures Index(storage, p) == 0
    {
      p := Check(Pos(0, 0));
    }

    /** ++: one key further in iteration order; the end iterator stays put. */
    method Next(p: Pos) returns (q: Pos)
      requires At(storage, p) || p == End()
      ensures At(storage, q) || q == End()
      ensures p == End() ==> q == p
      ensures At(storage, p) ==> Index(storage, q) == Index(storage, p) + 1
    {
      if p.bucket == |storage| {
        return p;
      }
      q := Check(Pos(p.bucket, p.slot + 1));
    }

    /** The iterator at v, in the bucket its hash selects, or the end iterator when v is absent or the counter is zero. */
    method Find(v: int) returns (p: Pos)
      requires Valid()
      ensures p == End() <==> v !in Contents()
      ensures p != End() ==> p.bucket == Bucket(v) && At(storage, p) && storage[p.bucket][p.slot] == v
    {
      if size == 0 {
        return End();
      }
      var s := hash(v) % |storage|;
      var e := storage[s];
      var i := LowerBoundIndex(e, v);
      InItsBucket(storage, hash, v);
      LowerBoundSplits(e, v);
      if i < |e| && e[i] == v {
        return Pos(s, i);
      }
      return End();
    }

    /**
     * Insertion once the threshold check is done: the counter rises
     * whether or not v was already present; v goes into its own bucket and
     * no other bucket changes.
     */
    method Add(v: int) returns (p: Pos, inserted: bool)
      requires Valid() && size < maxsize
      modifies this
      ensures Valid() && size == old(size) + 1 && maxsize == old(maxsize)
      ensures storage == old(storage)[old(Bucket(v)) := InsertSorted(old(storage[Bucket(v)]), v)]
      ensures Contents() == old(Contents()) + {v}
      ensures inserted <==> v !in old(Contents())
      ensures p.bucket == Bucket(v) && At(storage, p) && storage[p.bucket][p.slot] == v
    {
      AddKey(storage, hash, v);
      size := size + 1;
      var s := hash(v) % |storage|;
      var e := storage[s];
      var i := LowerBoundIndex(e, v);
      if i < |e| && e[i] == v {
        return Pos(s, i), false;
      }
      storage := storage[s := InsertSorted(e, v)];
      return Pos(s, i), true;
    }

    /**
     * Rebuilds the table with 2^capacity buckets by inserting every key,
     * in iteration order, into a fresh table and taking over its state.
     * The counter ends equal to the number of keys.
     */
    method ResizeVector(capacity: nat)
      requires Valid() && |Flat(storage)| < Threshold(Pow2(capacity))
      modifies this
      ensures Valid() && Contents() == old(Contents())
      ensures |storage| == Pow2(capacity) && size == |Flat(old(storage))| && maxsize == Threshold(Pow2(capacity))
    {
      var t := new UnorderedSet.WithPow(hash, capacity);
      InsertAllInto(t);
      Swap(this, t);
    }

    /** The range-for loop of a rebuild: inserts every key of this table, in iteration order, into t. */
    method InsertAllInto(t: UnorderedSet)
      requires |storage| > 0 && t.Valid() && t != this && t.hash == hash
      requires t.size + |Flat(storage)| <= t.maxsize
      modifies t
      ensures t.Valid() && t.Contents() == old(t.Contents()) + Contents()
      ensures t.size == old(t.size) + |Flat(storage)|
      ensures |t.storage| == old(|t.storage|) && t.maxsize == old(t.maxsize)
    {
      ghost var keys := Flat(storage);
      ghost var done: set<int> := {};
      var p := Begin();
      while p != End()
        invariant At(storage, p) || p == End()
        invariant t.Valid() && t.maxsize == old(t.maxsize) && |t.storage| == old(|t.storage|)
        invariant t.size == old(t.size) + Index(storage, p) && Index(storage, p) <= |keys|
        invariant done == Elems(keys[..Index(storage, p)])
        invariant t.Contents() == old(t.Contents()) + done
        decreases |keys| - Index(storage, p)
      {
        var x := storage[p.bucket][p.slot];
        FlatAt(storage, p);
        ElemsPrefixStep(keys, Index(storage, p));
        var _, _ := t.Add(x);
        done := done + {x};
        p := Next(p);
      }
      assert keys[..|keys|] == keys;
    }

    /** Rebuilds when the counter has reached the threshold, keeping the keys and making room for one more insertion. */
    method CheckSize()
      requires Valid()
      modifies this
      ensures Valid() && size < maxsize && Contents() == old(Contents())
      ensures old(size) < old(maxsize) ==> storage == old(storage) && size == old(size) && maxsize == old(maxsize)
      ensures old(size) >= old(maxsize) ==> size == |Flat(old(storage))| && |storage| == Pow2(2 * old(|storage|))
    {
      if size >= maxsize {
        RebuildRoom(|storage|, |Flat(storage)|);
        ResizeVector(|storage| * 2);
      }
    }

    /**
     * insert(v): the threshold check, then the insertion.  Returns the
     * iterator at v and whether v was new; the counter counts the call
     * even when v was present.
     */
    method Insert(v: int) returns (p: Pos, inserted: bool)
      requires Valid()
      modifies this
      ensures Valid() && Contents() == old(Contents()) + {v}
      ensures inserted <==> v !in old(Contents())
      ensures At(storage, p) && storage[p.bucket][p.slot] == v && p.bucket == Bucket(v)
      ensures size == (if old(size) >= old(maxsize) then |Flat(old(storage))| else old(size)) + 1
      ensures old(size) < old(maxsize) ==>
        storage == old(storage)[old(Bucket(v)) := InsertSorted(old(storage[Bucket(v)]), v)]
    {
      CheckSize();
      p, inserted := Add(v);
    }

    /**
     * Erases the key at p from its bucket, lowers the counter and returns
     * the iterator to the key that followed it in iteration order.
     */
    method Erase(p: Pos) returns (q: Pos)
      requires Valid() && At(storage, p)
      modifies this
      ensures Valid() && size == old(size) - 1 && maxsize == old(maxsize)
      ensures storage == old(storage)[p.bucket := RemoveAt(old(storage)[p.bucket], p.slot)]
      ensures Contents() == old(Contents()) - {old(storage)[p.bucket][p.slot]}
      ensures At(storage, q) || q == End()
      ensures Index(storage, q) == Index(old(storage), p)
    {
      FlatAt(storage, p);
      size := size - 1;
      var b := p.bucket;
      var e := storage[b];
      var ne := RemoveAt(e, p.slot);
      RemoveAtAscending(e, p.slot);
      BucketKeys(storage, b);
      RemoveHashed(storage, hash, b, p.slot);
      ReplaceBucket(storage, hash, b, ne);
      FlatLength(storage, b, ne);
      ghost var s0 := storage;
      storage := storage[b := ne];
      assert storage[..b] == s0[..b];
      q := Check(Pos(b, p.slot));
    }
  }

  /** operator=: copy other into a temporary and swap it in. */
  method Assign(self: UnorderedSet, other: UnorderedSet)
    requires self.Valid() && other.Valid() && self.hash == other.hash
    modifies self
    ensures self.Valid() && self.Contents() == old(other.Contents())
    ensures self.storage == old(other.storage) && self.size == old(other.size) && self.maxsize == old(other.maxsize)
  {
    var temp := new UnorderedSet.Copy(other);
    Swap(self, temp);
  }

  /** Exchanges the buckets and both counters of two tables of the same hash. */
  method Swap(a: UnorderedSet, b: UnorderedSet)
    requires a.Valid() && b.Valid() && a.hash == b.hash
    modifies a, b
    ensures a.Valid() && b.Valid()
    ensures a.storage == old(b.storage) && a.size == old(b.size) && a.maxsize == old(b.maxsize)
    ensures b.storage == old(a.storage) && b.size == old(a.size) && b.maxsize == old(a.maxsize)
    ensures a.Contents() == old(b.Contents()) && b.Contents() == old(a.Contents())
  {
    a.storage, b.storage := b.storage, a.storage;
    a.size, b.size := b.size, a.size;
    a.maxsize, b.maxsize := b.maxsize, a.maxsize;
  }

  lemma {:induction false} ElemsPrefixStep(a: seq<int>, k: nat)
    requires k < |a|
    ensures Elems(a[..k + 1]) == Elems(a[..k]) + {a[k]}
  {
    assert a[..k + 1] == a[..k] + [a[k]];
  }

  /** Every key of a bucket is stored. */
  lemma {:induction false} BucketKeys(s: seq<seq<int>>, b: nat)
    requires b < |s|
    ensures Elems(s[b]) <= Elems(Flat(s))
  {
    forall y | y in s[b] ensures y in Flat(s) {
      FlatElems(s, y);
    }
  }

  lemma {:induction false} EmptyFlat(s: seq<seq<int>>)
    requires forall b | 0 <= b < |s| :: s[b] == []
    ensures Flat(s) == []
    decreases |s|
  {
    if s != [] {
      EmptyFlat(s[..|s| - 1]);
    }
  }

  /** Replacing one bucket changes the number of stored keys by the difference in that bucket's size. */
  lemma {:induction false} FlatLength(s: seq<seq<int>>, b: nat, nb: seq<int>)
    requires b < |s|
    ensures |Flat(s[b := nb])| == |Flat(s)| - |s[b]| + |nb|
    decreases |s|
  {
    var n := |s| - 1;
    var t := s[b := nb];
    if b < n {
      assert t[..n] == s[..n][b := nb];
      FlatLength(s[..n], b, nb);
    } else {
      assert t[..n] == s[..n];
    }
  }

  /**
   * Inserting v into the bucket its hash selects: v is found at its lower
   * bound exactly when it is already stored (and then nothing changes);
   * otherwise it is added there, and only there.
   */
  lemma {:induction false} AddKey(s: seq<seq<int>>, hash: int -> nat, v: int)
    requires Hashed(s, hash, |s|) && AllAscending(s)
    ensures var b := hash(v) % |s|;
      var k := LowerBoundIndex(s[b], v);
      var t := s[b := InsertSorted(s[b], v)];
      Hashed(t, hash, |s|) && AllAscending(t) &&
      Elems(Flat(t)) == Elems(Flat(s)) + {v} && |Flat(t)| <= |Flat(s)| + 1 &&
      (v in Flat(s) <==> k < |s[b]| && s[b][k] == v) && (v in Flat(s) ==> t == s) &&
      k < |t[b]| && t[b][k] == v
  {
    var b := hash(v) % |s|;
    var e := s[b];
    var k := LowerBoundIndex(e, v);
    var ne := InsertSorted(e, v);
    InItsBucket(s, hash, v);
    LowerBoundSplits(e, v);
    AddHashed(s, hash, b, v);
    ReplaceBucket(s, hash, b, ne);
    FlatLength(s, b, ne);
    BucketKeys(s, b);
    if k < |e| && e[k] == v {
      assert s[b := ne] == s;
    } else {
      InsertAtLowerBound(e, v);
    }
  }

  /** Adding v to its own bucket keeps the table correctly hashed and ascending. */
  lemma {:induction false} AddHashed(s: seq<seq<int>>, hash: int -> nat, b: nat, v: int)
    requires Hashed(s, hash, |s|) && AllAscending(s) && b < |s| && hash(v) % |s| == b
    ensures Hashed(s[b := InsertSorted(s[b], v)], hash, |s|) && AllAscending(s[b := InsertSorted(s[b], v)])
  {
    var t := s[b := InsertSorted(s[b], v)];
    forall c, x | 0 <= c < |t| && x in t[c] ensures hash(x) % |s| == c {
      if c == b {
        assert x in Elems(InsertSorted(s[b], v));
      }
    }
  }

  /** Removing a key from a bucket keeps the table correctly hashed and ascending. */
  lemma {:induction false} RemoveHashed(s: seq<seq<int>>, hash: int -> nat, b: nat, k: nat)
    requires Hashed(s, hash, |s|) && AllAscending(s) && b < |s| && k < |s[b]|
    ensures Hashed(s[b := RemoveAt(s[b], k)], hash, |s|) && AllAscending(s[b := RemoveAt(s[b], k)])
  {
    var t := s[b := RemoveAt(s[b], k)];
    RemoveAtAscending(s[b], k);
    forall c, x | 0 <= c < |t| && x in t[c] ensures hash(x) % |s| == c {
      if c == b {
        assert x in Elems(RemoveAt(s[b], k));
      }
    }
  }
}
