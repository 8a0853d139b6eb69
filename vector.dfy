/**
 * The copy-on-write vector of vector.h.  A handle (class Vec) is in one of
 * three states: no storage, one element stored inline, or a reference to a
 * heap block (class Block) that several handles may share.  Copying a
 * handle shares its block and bumps the block's owner count; every
 * structural change builds a private block first, so the other handles of
 * the old block keep seeing the same elements.
 *
 * The owner count is backed by a ghost set `handles` of the handles that
 * reference the block: `owners == |handles|`.  It is what lets the model
 * prove that a write through a handle whose block has a single owner is
 * invisible to every other handle.
 */
module CowVector {

  /** Elements are modelled as integers: the vector only copies them and compares them. */
  type Elem = int

  /** Capacity of the first heap block (vector.h:21). */
  const DEFAULT_VEC_SIZE: nat := 4

  /**
   * The heap block `shared_array` (vector.h:23-35).  Its capacity is fixed
   * when it is allocated; `data` is the element storage, of which the first
   * `size` slots hold elements.
   */
  class Block {
    const capacity: nat
    var data: seq<Elem>
    var size: nat
    var owners: nat
    ghost var handles: set<Vec>

    ghost predicate Valid()
      reads this
    {
      |data| == capacity && size <= capacity && owners == |handles|
    }

    /** Every handle this block counts as an owner really points at it. */
    ghost predicate Tracks()
      reads this, handles
    {
      forall h | h in handles :: h.rep == Shared(this)
    }

    /** new_shared (vector.h:44-54): an empty block with one owner, the handle it is built for. */
    constructor (capacity: nat, owner: Vec)
      ensures Valid()
      ensures this.capacity == capacity && size == 0 && owners == 1 && handles == {owner}
    {
      this.capacity := capacity;
      data := seq(capacity, _ => 0);
      size := 0;
      owners := 1;
      handles := {owner};
    }

    /** Count handle y as an owner in place of handle x. */
    ghost method Trade(x: Vec, y: Vec)
      requires Valid() && x in handles && y !in handles
      modifies this
      ensures Valid() && handles == old(handles) - {x} + {y}
      ensures data == old(data) && size == old(size) && owners == old(owners)
    {
      Exchanged(handles, x, y);
      handles := handles - {x} + {y};
    }

    /** Overwrite the leading slots with s and make them the block's elements. */
    method Store(s: seq<Elem>)
      requires Valid() && |s| <= capacity
      modifies this
      ensures Valid() && size == |s| && data[..size] == s
      ensures owners == old(owners) && handles == old(handles)
    {
      data := s + data[|s|..];
      size := |s|;
    }
  }

  datatype Rep = Empty | Inline(value: Elem) | Shared(block: Block)

  /** a[..i] followed by a[j..]: the elements left after removing indices [i, j). */
  function Spliced(s: seq<Elem>, i: nat, j: nat): (r: seq<Elem>)
    requires i <= j <= |s|
    ensures |r| == |s| - (j - i)
    ensures forall k | 0 <= k < i :: r[k] == s[k]
    ensures forall k | i <= k < |r| :: r[k] == s[k + (j - i)]
  {
    s[..i] + s[j..]
  }

  /** s with v placed at index i and the elements from i on moved one place right. */
  function InsertedAt(s: seq<Elem>, i: nat, v: Elem): (r: seq<Elem>)
    requires i <= |s|
    ensures |r| == |s| + 1 && r[i] == v
    ensures forall k | 0 <= k < i :: r[k] == s[k]
    ensures forall k | i < k < |r| :: r[k] == s[k - 1]
  {
    s[..i] + [v] + s[i..]
  }

  /** std::rotate(begin + i, end - 1, end): the last element moved to index i. */
  function RotatedIn(c: seq<Elem>, i: nat): (r: seq<Elem>)
    requires i < |c|
  {
    c[..i] + [c[|c| - 1]] + c[i..|c| - 1]
  }

  /** Appending v and rotating it into index i is inserting v at i. */
  lemma {:induction false} RotateAppended(s: seq<Elem>, i: nat, v: Elem)
    requires i <= |s|
    ensures RotatedIn(s + [v], i) == InsertedAt(s, i, v)
  {
    var c := s + [v];
    assert c[..i] == s[..i] && c[i..|c| - 1] == s[i..];
  }

  /** Erasing the element just inserted gives back the original elements. */
  lemma {:induction false} EraseUndoesInsert(s: seq<Elem>, i: nat, v: Elem)
    requires i <= |s|
    ensures Spliced(InsertedAt(s, i, v), i, i + 1) == s
  {
    var r := Spliced(InsertedAt(s, i, v), i, i + 1);
    assert forall k | 0 <= k < |s| :: r[k] == s[k];
  }

  /** Re-inserting an erased element at its index gives back the original elements. */
  lemma {:induction false} InsertUndoesErase(s: seq<Elem>, i: nat)
    requires i < |s|
    ensures InsertedAt(Spliced(s, i, i + 1), i, s[i]) == s
  {
    var r := InsertedAt(Spliced(s, i, i + 1), i, s[i]);
    assert forall k | 0 <= k < |s| :: r[k] == s[k];
  }

  /** Appending is inserting at the end. */
  lemma {:induction false} PushBackIsInsertAtEnd(s: seq<Elem>, v: Elem)
    ensures InsertedAt(s, |s|, v) == s + [v]
  {
  }

  /**
   * The elements erase(first, last) leaves, as vector.h:306-333 computes
   * them.  When exactly one element survives, the source keeps element 0
   * even if it was inside the erased range.
   */
  function ErasedAsWritten(s: seq<Elem>, i: nat, j: nat): (r: seq<Elem>)
    requires i <= |s| && j <= |s|
    ensures i >= j ==> r == s
    ensures i < j ==> |r| == |s| - (j - i)
  {
    if i >= j then s
    else if i == 0 && j == |s| then []
    else if |s| == j - i + 1 then [s[0]]
    else Spliced(s, i, j)
  }

  /**
   * The erase as written removes the range [i, j) except in one case: the
   * range starts at index 0 and leaves exactly one element behind, whose
   * value differs from the first element.
   */
  lemma {:induction false} ErasedAsWrittenDiffers(s: seq<Elem>, i: nat, j: nat)
    requires i <= j <= |s|
    ensures ErasedAsWritten(s, i, j) != Spliced(s, i, j) <==>
      0 == i < j && |s| == j + 1 && s[0] != s[j]
  {
    if 0 == i < j && |s| == j + 1 {
      assert Spliced(s, i, j) == [s[j]];
    }
  }

  /** A concrete input: erase(begin(), begin() + 1) on [1, 2] leaves [1] instead of [2]. */
  lemma {:induction false} ErasedAsWrittenCounterexample()
    ensures ErasedAsWritten([1, 2], 0, 1) == [1]
    ensures Spliced([1, 2], 0, 1) == [2]
  {
  }

  /** resize(n, v) on contents s: the first min(|s|, n) elements, then copies of v. */
  function Resized(s: seq<Elem>, n: nat, v: Elem): (r: seq<Elem>)
    ensures |r| == n
    ensures forall k | 0 <= k < n && k < |s| :: r[k] == s[k]
    ensures forall k | |s| <= k < n :: r[k] == v
  {
    if n <= |s| then s[..n] else s + seq(n - |s|, _ => v)
  }

  /** Growing and then shrinking back to the old size restores the elements. */
  lemma {:induction false} ResizedBack(s: seq<Elem>, n: nat, v: Elem, w: Elem)
    requires |s| <= n
    ensures Resized(Resized(s, n, v), |s|, w) == s
  {
    var r := Resized(Resized(s, n, v), |s|, w);
    assert forall k | 0 <= k < |s| :: r[k] == s[k];
  }

  /** The capacity push_back requests for a block, as written (vector.h:207-208). */
  function GrownCapacity(capacity: nat, full: bool): (c: nat)
    ensures full ==> c == 2 * capacity
    ensures !full ==> c == capacity
  {
    capacity * (if full then 2 else 1)
  }

  /**
   * The doubling leaves room for the new element exactly when the full
   * block has a positive capacity; for a block of capacity zero the
   * request is zero again and the new element is written past the end.
   */
  lemma {:induction false} GrowthLeavesRoom(capacity: nat)
    ensures GrownCapacity(capacity, true) > capacity <==> capacity > 0
  {
  }

  /**
   * The capacity the model's push_back requests: the source's doubling,
   * except that a block of capacity zero is treated like a first
   * allocation, so there is always room for the new element.
   */
  function NextCapacity(capacity: nat, size: nat): (c: nat)
    requires size <= capacity
    ensures capacity > 0 ==> c == GrownCapacity(capacity, size == capacity)
    ensures c > size
    ensures size < capacity ==> c == capacity
  {
    if capacity == 0 then DEFAULT_VEC_SIZE else GrownCapacity(capacity, size == capacity)
  }

  /** Element-wise equality of two ranges, as std::equal with four iterators. */
  function SeqEqual(a: seq<Elem>, b: seq<Elem>): (r: bool)
    ensures r <==> a == b
  {
    if |a| != |b| then false
    else if a == [] then true
    else
      assert a == [a[0]] + a[1..] && b == [b[0]] + b[1..];
      a[0] == b[0] && SeqEqual(a[1..], b[1..])
  }

  /** Lexicographic order of element sequences (std::lexicographical_compare). */
  function LexLess(a: seq<Elem>, b: seq<Elem>): bool {
    if a == [] then b != []
    else if b == [] then false
    else if a[0] != b[0] then a[0] < b[0]
    else LexLess(a[1..], b[1..])
  }

  lemma {:induction false} LexLessIrreflexive(a: seq<Elem>)
    ensures !LexLess(a, a)
  {
    if a != [] {
      LexLessIrreflexive(a[1..]);
    }
  }

  /** Exactly one of a < b, a == b, b < a holds. */
  lemma {:induction false} LexLessTrichotomy(a: seq<Elem>, b: seq<Elem>)
    ensures LexLess(a, b) || a == b || LexLess(b, a)
    ensures !(LexLess(a, b) && LexLess(b, a))
    ensures a == b ==> !LexLess(a, b)
  {
    if a == b {
      LexLessIrreflexive(a);
    } else if a != [] && b != [] && a[0] == b[0] {
      LexLessTrichotomy(a[1..], b[1..]);
      assert a == [a[0]] + a[1..] && b == [b[0]] + b[1..];
    }
  }

  lemma {:induction false} LexLessTransitive(a: seq<Elem>, b: seq<Elem>, c: seq<Elem>)
    requires LexLess(a, b) && LexLess(b, c)
    ensures LexLess(a, c)
  {
    if a != [] && a[0] == b[0] && b[0] == c[0] {
      LexLessTransitive(a[1..], b[1..], c[1..]);
    }
  }

  /** A proper prefix sorts first. */
  lemma {:induction false} LexLessPrefix(a: seq<Elem>, b: seq<Elem>)
    requires b != []
    ensures LexLess(a, a + b)
  {
    if a != [] {
      assert (a + b)[1..] == a[1..] + b;
      LexLessPrefix(a[1..], b);
    }
  }

  /** Exchanging one member of a set for a non-member keeps its size. */
  lemma {:induction false} Exchanged<T>(s: set<T>, x: T, y: T)
    requires x in s && y !in s
    ensures |s - {x} + {y}| == |s|
  {
    assert s - {x} + {y} == (s - {x}) + {y};
  }

  /** A copy-on-write handle: the variant `data_` of vector.h:42. */
  class Vec {
    var rep: Rep

    function Blocks(): set<Block>
      reads this
    {
      if rep.Shared? then {rep.block} else {}
    }

    /** The handles that share this handle's block. */
    ghost function Peers(): set<object>
      reads this, Blocks()
    {
      if rep.Shared? then rep.block.handles else {}
    }

    ghost predicate WellSized()
      reads this, Blocks()
    {
      rep.Shared? ==> rep.block.Valid()
    }

    /**
     * The handle's invariant: a block it points at is well formed, counts
     * this handle among its owners, and every handle it counts points at it.
     */
    ghost predicate Valid()
      reads this, Blocks(), Peers()
    {
      rep.Shared? ==> rep.block.Valid() && rep.block.Tracks() && this in rep.block.handles
    }

    /** The elements the handle presents, index 0 first. */
    function Contents(): seq<Elem>
      reads this, Blocks()
      requires WellSized()
    {
      match rep
      case Empty => []
      case Inline(v) => [v]
      case Shared(b) => b.data[..b.size]
    }

    /** A block with a single owner is referenced by this handle alone. */
    lemma {:induction false} SoleOwner()
      requires Valid() && rep.Shared? && rep.block.owners == 1
      ensures rep.block.handles == {this}
    {
      var h := rep.block.handles;
      assert |h - {this}| == 0;
      assert h == (h - {this}) + {this};
    }

    /** vector() (vector.h:103). */
    constructor ()
      ensures Valid() && rep == Empty && Contents() == []
    {
      rep := Empty;
    }

    /** size() (vector.h:107-109): 0 without storage, 1 inline, the block's count otherwise. */
    function Size(): (n: nat)
      reads this, Blocks()
      requires WellSized()
      ensures n == |Contents()|
      ensures rep.Empty? ==> n == 0
      ensures rep.Inline? ==> n == 1
    {
      match rep
      case Empty => 0
      case Inline(_) => 1
      case Shared(b) => b.size
    }

    /** capacity() (vector.h:110-112): 1 unless a block is present. */
    function Capacity(): (c: nat)
      reads this, Blocks()
      requires WellSized()
      ensures c >= |Contents()|
      ensures !rep.Shared? ==> c == 1
      ensures rep.Shared? ==> c == |rep.block.data|
    {
      if rep.Shared? then rep.block.capacity else 1
    }

    /** empty() (vector.h:106): true only without storage, so not for a block holding nothing. */
    function IsEmpty(): (r: bool)
      reads this, Blocks()
      requires WellSized()
      ensures r ==> Contents() == []
      ensures Contents() != [] ==> !r
      ensures r <==> rep.Empty?
    {
      rep.Empty?
    }

    /** Read-only element access: const operator[] (vector.h:141-143) through const data() (121-128). */
    function Get(i: nat): (x: Elem)
      reads this, Blocks()
      requires WellSized() && i < |Contents()|
      ensures x == Contents()[i]
    {
      match rep
      case Inline(v) => v
      case Shared(b) => b.data[i]
    }

    /**
     * resize_vector (vector.h:55-75): a fresh block of the given capacity,
     * owned by this handle only, holding the first min(capacity, size())
     * elements.  The handle itself is not changed.
     */
    method ResizeVector(capacity: nat) returns (n: Block)
      requires Valid()
      requires rep.Inline? ==> capacity >= 1
      ensures fresh(n) && n.Valid()
      ensures n.capacity == capacity && n.owners == 1 && n.handles == {this}
      ensures n.size == if capacity < |Contents()| then capacity else |Contents()|
      ensures n.data[..n.size] == Contents()[..n.size]
    {
      n := new Block(capacity, this);
      match rep
      case Empty =>
      case Inline(v) =>
        n.Store([v]);
      case Shared(b) =>
        var count := if capacity < b.size then capacity else b.size;
        n.Store(b.data[..count]);
    }

    /**
     * set_data(shared_array*) (vector.h:76-82): point the handle at n,
     * giving up this handle's share of a different old block.
     */
    method SetData(n: Block)
      requires Valid() && n.Valid() && this in n.handles
      requires rep == Shared(n) || n.handles == {this}
      modifies this, Blocks()
      ensures Valid() && rep == Shared(n)
      ensures old(rep).Shared? && old(rep.block) != n ==>
        old(rep.block).owners == old(rep.block.owners) - 1 &&
        old(rep.block).handles == old(rep.block.handles) - {this} &&
        old(rep.block).size == old(rep.block.size)
      ensures forall o: Vec | o != this && old(allocated(o)) && old(o.Valid()) ::
        o.Valid() && o.Contents() == old(o.Contents())
    {
      if rep.Shared? && n != rep.block {
        var b := rep.block;
        b.owners := b.owners - 1;
        b.handles := b.handles - {this};
      }
      rep := Shared(n);
    }

    /** set_data(T const&) (vector.h:83-89): store v inline, giving up any block. */
    method SetInline(v: Elem)
      requires Valid()
      modifies this, Blocks()
      ensures Valid() && rep == Inline(v) && Contents() == [v]
      ensures old(rep).Shared? ==>
        old(rep.block).owners == old(rep.block.owners) - 1 &&
        old(rep.block).handles == old(rep.block.handles) - {this} &&
        old(rep.block).size == old(rep.block.size)
      ensures forall o: Vec | o != this && old(allocated(o)) && old(o.Valid()) ::
        o.Valid() && o.Contents() == old(o.Contents())
    {
      if rep.Shared? {
        var b := rep.block;
        b.owners := b.owners - 1;
        b.handles := b.handles - {this};
      }
      rep := Inline(v);
    }

    /** clear() (vector.h:113-119). */
    method Clear()
      requires Valid()
      modifies this, Blocks()
      ensures Valid() && rep == Empty && Contents() == []
      ensures old(rep).Shared? ==>
        old(rep.block).owners == old(rep.block.owners) - 1 &&
        old(rep.block).handles == old(rep.block.handles) - {this} &&
        old(rep.block).size == old(rep.block.size)
      ensures forall o: Vec | o != this && old(allocated(o)) && old(o.Valid()) ::
        o.Valid() && o.Contents() == old(o.Contents())
    {
      if rep.Shared? {
        var b := rep.block;
        b.owners := b.owners - 1;
        b.handles := b.handles - {this};
      }
      rep := Empty;
    }

    /**
     * Mutable data() (vector.h:130-139): a block shared with other handles
     * is replaced by a private copy whose capacity is the element count.
     * Afterwards this handle is its block's only owner.
     */
    method Detach()
      requires Valid()
      modifies this, Blocks()
      ensures Valid() && Contents() == old(Contents())
      ensures rep.Shared? <==> old(rep).Shared?
      ensures rep.Shared? ==> rep.block.handles == {this} && rep.block.owners == 1
      ensures old(rep).Shared? && old(rep.block.owners) > 1 ==>
        fresh(rep.block) && rep.block.capacity == old(rep.block.size) &&
        old(rep.block).owners == old(rep.block.owners) - 1
      ensures !(old(rep).Shared? && old(rep.block.owners) > 1) ==> rep == old(rep)
      ensures forall o: Vec | o != this && old(allocated(o)) && old(o.Valid()) ::
        o.Valid() && o.Contents() == old(o.Contents())
    {
      if rep.Shared? {
        if rep.block.owners > 1 {
          var n := ResizeVector(rep.block.size);
          SetData(n);
        } else {
          SoleOwner();
        }
      }
    }

    /** Mutable operator[] (vector.h:144) used for a write: detach, then store in place. */
    method Set(i: nat, x: Elem)
      requires Valid() && i < |Contents()|
      modifies this, Blocks()
      ensures Valid() && Contents() == old(Contents())[i := x]
      ensures forall o: Vec | o != this && old(allocated(o)) && old(o.Valid()) ::
        o.Valid() && o.Contents() == old(o.Contents())
    {
      Detach();
      match rep
      case Inline(_) =>
        rep := Inline(x);
      case Shared(b) =>
        b.Store(b.data[..b.size][i := x]);
    }

    /**
     * push_back (vector.h:201-221): an empty handle stores v inline; otherwise
     * a new block receives the elements and v, and replaces the old storage.
     */
    method PushBack(v: Elem)
      requires Valid()
      modifies this, Blocks()
      ensures Valid() && Contents() == old(Contents()) + [v]
      ensures old(rep).Empty? ==> rep == Inline(v)
      ensures old(rep).Inline? ==> rep.Shared? && rep.block.capacity == DEFAULT_VEC_SIZE
      ensures old(rep).Shared? ==>
        rep.Shared? && rep.block.capacity == NextCapacity(old(rep.block.capacity), old(rep.block.size))
      ensures rep.Shared? ==> fresh(rep.block) && rep.block.handles == {this}
      ensures forall o: Vec | o != this && old(allocated(o)) && old(o.Valid()) ::
        o.Valid() && o.Contents() == old(o.Contents())
    {
      if rep.Empty? {
        rep := Inline(v);
        return;
      }
      var capacity := if rep.Shared? then NextCapacity(rep.block.capacity, rep.block.size) else DEFAULT_VEC_SIZE;
      var na := ResizeVector(capacity);
      na.Store(na.data[..na.size] + [v]);
      SetData(na);
    }

    /**
     * pop_back (vector.h:223-236): a block of two elements gives way to its
     * first element stored inline, a larger block to a copy one shorter; an
     * inline element is dropped; an empty handle is left alone.
     */
    method PopBack()
      requires Valid()
      requires rep.Shared? ==> rep.block.size > 0
      modifies this, Blocks()
      ensures Valid()
      ensures old(Contents()) == [] ==> Contents() == []
      ensures old(Contents()) != [] ==> Contents() == old(Contents())[..|old(Contents())| - 1]
      ensures old(rep).Empty? ==> rep.Empty?
      ensures old(rep).Inline? ==> rep.Empty?
      ensures old(rep).Shared? && old(rep.block.size) == 2 ==> rep == Inline(old(rep.block.data[0]))
      ensures old(rep).Shared? && old(rep.block.size) != 2 ==>
        rep.Shared? && fresh(rep.block) && rep.block.capacity == old(rep.block.capacity)
      ensures forall o: Vec | o != this && old(allocated(o)) && old(o.Valid()) ::
        o.Valid() && o.Contents() == old(o.Contents())
    {
      match rep
      case Empty =>
      case Inline(_) =>
        rep := Empty;
      case Shared(b) =>
        if b.size == 2 {
          SetInline(b.data[0]);
        } else {
          var t := ResizeVector(b.capacity);
          t.Store(t.data[..t.size - 1]);
          SetData(t);
        }
    }

    /** shrink_to_fit (vector.h:238-242): a block that is not full is copied into one of exactly its size. */
    method ShrinkToFit()
      requires Valid()
      modifies this, Blocks()
      ensures Valid() && Contents() == old(Contents())
      ensures rep.Shared? <==> old(rep).Shared?
      ensures rep.Shared? ==> rep.block.capacity == |Contents()|
      ensures !(old(rep).Shared? && old(rep.block.size) != old(rep.block.capacity)) ==> rep == old(rep)
      ensures forall o: Vec | o != this && old(allocated(o)) && old(o.Valid()) ::
        o.Valid() && o.Contents() == old(o.Contents())
    {
      if rep.Shared? && rep.block.size != rep.block.capacity {
        var n := ResizeVector(rep.block.size);
        SetData(n);
      }
    }

    /**
     * resize(n, v) (vector.h:268-291): nothing happens when the size is
     * already n; otherwise n == 0 clears, n == 1 keeps one element inline,
     * and a larger n builds a block of capacity n padded with v.
     */
    method Resize(n: nat, v: Elem)
      requires Valid()
      requires n == 1 && rep.Shared? ==> rep.block.size > 0
      modifies this, Blocks()
      ensures Valid() && Contents() == Resized(old(Contents()), n, v)
      ensures n == |old(Contents())| ==> rep == old(rep)
      ensures n != |old(Contents())| && n == 0 ==> rep.Empty?
      ensures n != |old(Contents())| && n == 1 ==> rep.Inline?
      ensures n != |old(Contents())| && n > 1 ==> rep.Shared? && fresh(rep.block) && rep.block.capacity == n
      ensures forall o: Vec | o != this && old(allocated(o)) && old(o.Valid()) ::
        o.Valid() && o.Contents() == old(o.Contents())
    {
      if Size() == n {
        return;
      }
      if n > 1 {
        var t := ResizeVector(n);
        t.Store(t.data[..t.size] + seq(n - t.size, _ => v));
        SetData(t);
      } else if n == 1 {
        if rep.Shared? {
          SetInline(rep.block.data[0]);
        } else {
          rep := Inline(v);
        }
      } else {
        Clear();
      }
    }

    /** resize(n) (vector.h:244-267): resize(n, v) with the value-initialised element 0. */
    method ResizeDefault(n: nat)
      requires Valid()
      requires n == 1 && rep.Shared? ==> rep.block.size > 0
      modifies this, Blocks()
      ensures Valid() && Contents() == Resized(old(Contents()), n, 0)
      ensures n == |old(Contents())| ==> rep == old(rep)
      ensures forall o: Vec | o != this && old(allocated(o)) && old(o.Valid()) ::
        o.Valid() && o.Contents() == old(o.Contents())
    {
      Resize(n, 0);
    }

    /** reserve (vector.h:292-295): a capacity of at least 2 above the size gets a new block of that capacity. */
    method Reserve(capacity: nat)
      requires Valid()
      modifies this, Blocks()
      ensures Valid() && Contents() == old(Contents())
      ensures |old(Contents())| >= capacity || capacity < 2 ==> rep == old(rep)
      ensures |old(Contents())| < capacity && capacity >= 2 ==>
        rep.Shared? && fresh(rep.block) && rep.block.capacity == capacity
      ensures forall o: Vec | o != this && old(allocated(o)) && old(o.Valid()) ::
        o.Valid() && o.Contents() == old(o.Contents())
    {
      if Size() >= capacity || capacity < 2 {
        return;
      }
      var n := ResizeVector(capacity);
      SetData(n);
    }

    /**
     * insert (vector.h:297-304): detach, append v, then rotate it from the
     * end into index i.  Returns the index of the inserted element.
     */
    method Insert(i: nat, v: Elem) returns (r: nat)
      requires Valid() && i <= |Contents()|
      modifies this, Blocks()
      ensures Valid() && r == i
      ensures Contents() == InsertedAt(old(Contents()), i, v)
      ensures forall o: Vec | o != this && old(allocated(o)) && old(o.Valid()) ::
        o.Valid() && o.Contents() == old(o.Contents())
    {
      ghost var s0 := Contents();
      Detach();
      PushBack(v);
      if rep.Shared? {
        var b := rep.block;
        RotateAppended(s0, i, v);
        label L:
        b.Store(RotatedIn(b.data[..b.size], i));
        forall o: Vec | o != this && old(allocated(o)) && old(o.Valid())
          ensures o.Valid() && o.Contents() == old(o.Contents())
        {
          assert b !in o.Blocks() && old@L(o.Valid()) && old@L(o.Contents()) == old(o.Contents());
        }
      }
      r := i;
    }

    /**
     * erase(first, last) (vector.h:306-333) on the index range [i, j), with
     * the one-survivor case keeping the element that is not erased (see
     * ErasedAsWritten for the source's choice).  Returns i.
     */
    method Erase(i: nat, j: nat) returns (r: nat)
      requires Valid() && i <= |Contents()| && j <= |Contents()|
      modifies this, Blocks()
      ensures Valid() && r == i
      ensures i >= j ==> Contents() == old(Contents())
      ensures i < j ==> Contents() == Spliced(old(Contents()), i, j)
      ensures i < j && i == 0 && j == |old(Contents())| ==> rep.Empty?
      ensures i < j && |old(Contents())| == j - i + 1 ==> rep.Inline?
      ensures forall o: Vec | o != this && old(allocated(o)) && old(o.Valid()) ::
        o.Valid() && o.Contents() == old(o.Contents())
    {
      Detach();
      r := i;
      if i >= j {
        return;
      }
      var d := j - i;
      match rep
      case Empty =>
      case Inline(_) =>
        rep := Empty;
      case Shared(b) =>
        if i == 0 && j == b.size {
          Clear();
        } else if b.size == d + 1 {
          SetInline(b.data[if i == 0 then j else 0]);
        } else {
          EraseInCopy(i, j);
        }
    }

    /** The general case of erase: a copy of the block with the range [i, j) closed up replaces it. */
    method EraseInCopy(i: nat, j: nat)
      requires Valid() && rep.Shared? && i < j <= |Contents()|
      modifies this, Blocks()
      ensures Valid() && rep.Shared? && Contents() == Spliced(old(Contents()), i, j)
      ensures forall o: Vec | o != this && old(allocated(o)) && old(o.Valid()) ::
        o.Valid() && o.Contents() == old(o.Contents())
    {
      var t := ResizeVector(rep.block.capacity);
      t.Store(Spliced(t.data[..t.size], i, j));
      SetData(t);
    }

    /** erase(pos) (vector.h:305): erase the single element at index i. */
    method EraseAt(i: nat) returns (r: nat)
      requires Valid() && i < |Contents()|
      modifies this, Blocks()
      ensures Valid() && r == i
      ensures Contents() == Spliced(old(Contents()), i, i + 1)
      ensures forall o: Vec | o != this && old(allocated(o)) && old(o.Valid()) ::
        o.Valid() && o.Contents() == old(o.Contents())
    {
      r := Erase(i, i + 1);
    }

    /** The copy constructor (vector.h:165-170): share other's storage, one more owner. */
    constructor Copy(other: Vec)
      requires other.Valid()
      modifies other.Blocks()
      ensures Valid() && other.Valid()
      ensures rep == other.rep && Contents() == other.Contents()
      ensures other.rep.Shared? ==> other.rep.block.owners == old(other.rep.block.owners) + 1
      ensures forall o: Vec | old(allocated(o)) && old(o.Valid()) ::
        o.Valid() && o.Contents() == old(o.Contents())
    {
      rep := other.rep;
      new;
      if rep.Shared? {
        var b := rep.block;
        b.owners := b.owners + 1;
        b.handles := b.handles + {this};
      }
    }

    /**
     * swap (vector.h:339-342): exchange the two handles' storage.  No owner
     * count changes; a block's owner set trades the one handle for the other.
     */
    static method Swap(a: Vec, b: Vec)
      requires a.Valid() && b.Valid()
      modifies a, b, a.Blocks(), b.Blocks()
      ensures a.Valid() && b.Valid()
      ensures a.rep == old(b.rep) && b.rep == old(a.rep)
      ensures a.Contents() == old(b.Contents()) && b.Contents() == old(a.Contents())
      ensures forall o: Vec | o != a && o != b && old(allocated(o)) && old(o.Valid()) ::
        o.Valid() && o.Contents() == old(o.Contents())
    {
      if a.rep.Shared? && b.rep.Shared? && a.rep.block != b.rep.block {
        SwapBlocks(a, b);
      } else if a.rep.Shared? && !b.rep.Shared? {
        HandOver(a, b);
      } else if b.rep.Shared? && !a.rep.Shared? {
        HandOver(b, a);
      } else {
        a.rep, b.rep := b.rep, a.rep;
      }
    }

    /** Swap for two handles on different blocks. */
    static method SwapBlocks(a: Vec, b: Vec)
      requires a.Valid() && b.Valid()
      requires a.rep.Shared? && b.rep.Shared? && a.rep.block != b.rep.block
      modifies a, b, a.Blocks(), b.Blocks()
      ensures a.Valid() && b.Valid()
      ensures a.rep == old(b.rep) && b.rep == old(a.rep)
      ensures a.Contents() == old(b.Contents()) && b.Contents() == old(a.Contents())
      ensures forall o: Vec | o != a && o != b && old(allocated(o)) && old(o.Valid()) ::
        o.Valid() && o.Contents() == old(o.Contents())
    {
      var ra, rb := a.rep, b.rep;
      ghost var ha, hb := ra.block.handles, rb.block.handles;
      ra.block.Trade(a, b);
      rb.block.Trade(b, a);
      a.rep, b.rep := rb, ra;
      forall h | h in ra.block.handles ensures h.rep == ra {
        if h != b { assert h in ha && old(h.rep) == ra; }
      }
      forall h | h in rb.block.handles ensures h.rep == rb {
        if h != a { assert h in hb && old(h.rep) == rb; }
      }
      forall o: Vec | o != a && o != b && old(allocated(o)) && old(o.Valid())
        ensures o.Valid() && o.Contents() == old(o.Contents())
      {
        if o.rep == ra {
          assert o in ha;
        } else if o.rep == rb {
          assert o in hb;
        } else if o.rep.Shared? {
          assert o.rep.block != ra.block && o.rep.block != rb.block;
        }
      }
    }

    /** Swap for a handle on a block and one without: the other handle takes a's place among the owners. */
    static method HandOver(a: Vec, b: Vec)
      requires a.Valid() && b.Valid()
      requires a.rep.Shared? && !b.rep.Shared?
      modifies a, b, a.Blocks()
      ensures a.Valid() && b.Valid()
      ensures a.rep == old(b.rep) && b.rep == old(a.rep)
      ensures a.Contents() == old(b.Contents()) && b.Contents() == old(a.Contents())
      ensures forall o: Vec | o != a && o != b && old(allocated(o)) && old(o.Valid()) ::
        o.Valid() && o.Contents() == old(o.Contents())
    {
      var ra := a.rep;
      ra.block.Trade(a, b);
      a.rep, b.rep := b.rep, ra;
    }

    /** operator= (vector.h:171-175): copy other into a temporary, swap, and release the temporary. */
    method Assign(other: Vec)
      requires Valid() && other.Valid()
      modifies this, Blocks(), other.Blocks()
      ensures Valid() && other.Valid()
      ensures rep == old(other.rep) && Contents() == old(other.Contents())
      ensures forall o: Vec | o != this && old(allocated(o)) && old(o.Valid()) ::
        o.Valid() && o.Contents() == old(o.Contents())
    {
      var temp := new Vec.Copy(other);
      Swap(this, temp);
      temp.Clear();
    }

    /** operator== (vector.h:344-347). */
    static function Equal(a: Vec, b: Vec): (r: bool)
      reads a, a.Blocks(), b, b.Blocks()
      requires a.WellSized() && b.WellSized()
      ensures r <==> a.Contents() == b.Contents()
    {
      SeqEqual(a.Contents(), b.Contents())
    }

    /** operator!= (vector.h:349-352). */
    static function NotEqual(a: Vec, b: Vec): (r: bool)
      reads a, a.Blocks(), b, b.Blocks()
      requires a.WellSized() && b.WellSized()
      ensures r <==> a.Contents() != b.Contents()
    {
      !Equal(a, b)
    }

    /** operator< (vector.h:354-357): a strict order on the element sequences. */
    static function Less(a: Vec, b: Vec): (r: bool)
      reads a, a.Blocks(), b, b.Blocks()
      requires a.WellSized() && b.WellSized()
      ensures r <==> LexLess(a.Contents(), b.Contents())
      ensures r ==> a.Contents() != b.Contents() && !LexLess(b.Contents(), a.Contents())
    {
      LexLessTrichotomy(a.Contents(), b.Contents());
      LexLess(a.Contents(), b.Contents())
    }

    /** operator<= (vector.h:359-362): not b < a, which is a < b or equality. */
    static function LessEq(a: Vec, b: Vec): (r: bool)
      reads a, a.Blocks(), b, b.Blocks()
      requires a.WellSized() && b.WellSized()
      ensures r <==> LexLess(a.Contents(), b.Contents()) || a.Contents() == b.Contents()
    {
      LexLessTrichotomy(a.Contents(), b.Contents());
      !Less(b, a)
    }

    /** operator> (vector.h:364-367): b < a, which is neither a < b nor equality. */
    static function Greater(a: Vec, b: Vec): (r: bool)
      reads a, a.Blocks(), b, b.Blocks()
      requires a.WellSized() && b.WellSized()
      ensures r <==> !(LexLess(a.Contents(), b.Contents()) || a.Contents() == b.Contents())
    {
      LexLessTrichotomy(a.Contents(), b.Contents());
      Less(b, a)
    }

    /** operator>= (vector.h:369-372): not a < b, which is b < a or equality. */
    static function GreaterEq(a: Vec, b: Vec): (r: bool)
      reads a, a.Blocks(), b, b.Blocks()
      requires a.WellSized() && b.WellSized()
      ensures r <==> LexLess(b.Contents(), a.Contents()) || a.Contents() == b.Contents()
    {
      LexLessTrichotomy(a.Contents(), b.Contents());
      !Less(a, b)
    }
  }

  /**
   * A block of capacity zero is reachable: reserve on an empty handle then
   * shrink_to_fit copies zero elements into a block of capacity zero, which
   * is full.  push_back as written would then request capacity
   * GrownCapacity(0, true) == 0 and write past the end.
   */
  method ZeroCapacityBlock() returns (v: Vec)
    ensures v.Valid() && v.rep.Shared?
    ensures v.rep.block.capacity == 0 && v.rep.block.size == v.rep.block.capacity
    ensures GrownCapacity(v.rep.block.capacity, true) == 0
  {
    v := new Vec();
    v.Reserve(2);
    v.ShrinkToFit();
  }
}
