/**
 * Ascending integer sequences: the abstract value of an ordered set (its
 * in-order traversal) and of one bucket of the hash set.  The operations
 * here are the specifications the tree and hash-set methods are proved
 * against.
 */
module SortedSeq {

  /** Strictly ascending: no duplicates, smaller keys first. */
  ghost predicate Ascending(s: seq<int>) {
    forall i, j | 0 <= i < j < |s| :: s[i] < s[j]
  }

  function Elems(s: seq<int>): set<int> {
    set x | x in s
  }

  /** Index of the first element that is not below v (|s| when there is none). */
  function LowerBoundIndex(s: seq<int>, v: int): (k: nat)
    ensures k <= |s|
    ensures forall i | 0 <= i < k :: s[i] < v
    ensures k < |s| ==> v <= s[k]
  {
    if s == [] || v <= s[0] then 0 else 1 + LowerBoundIndex(s[1..], v)
  }

  /** The lower bound is the one index with only smaller elements before it and none smaller at it. */
  lemma {:induction false} LowerBoundAt(s: seq<int>, v: int, k: nat)
    requires k <= |s| && (forall i | 0 <= i < k :: s[i] < v) && (k < |s| ==> v <= s[k])
    ensures LowerBoundIndex(s, v) == k
  {
  }

  /** Index of the first element strictly above v (|s| when there is none). */
  function UpperBoundIndex(s: seq<int>, v: int): (k: nat)
    ensures k <= |s|
    ensures forall i | 0 <= i < k :: s[i] <= v
    ensures k < |s| ==> v < s[k]
  {
    if s == [] || v < s[0] then 0 else 1 + UpperBoundIndex(s[1..], v)
  }

  /** In an ascending sequence the lower bound splits the keys below v from the rest. */
  lemma {:induction false} LowerBoundSplits(s: seq<int>, v: int)
    requires Ascending(s)
    ensures forall i | LowerBoundIndex(s, v) <= i < |s| :: v <= s[i]
    ensures v in s <==> LowerBoundIndex(s, v) < |s| && s[LowerBoundIndex(s, v)] == v
  {
    var k := LowerBoundIndex(s, v);
    if k < |s| {
      forall i | k <= i < |s| ensures v <= s[i] {
        if i > k { assert s[k] < s[i]; }
      }
    }
    if v in s {
      var i :| 0 <= i < |s| && s[i] == v;
      assert k <= i;
    }
  }

  /** Skipping one element equal to v after the lower bound yields the upper bound. */
  lemma {:induction false} UpperFromLower(s: seq<int>, v: int)
    requires Ascending(s)
    ensures UpperBoundIndex(s, v) ==
      if LowerBoundIndex(s, v) < |s| && s[LowerBoundIndex(s, v)] == v
      then LowerBoundIndex(s, v) + 1 else LowerBoundIndex(s, v)
  {
    var k, u := LowerBoundIndex(s, v), UpperBoundIndex(s, v);
    LowerBoundSplits(s, v);
    if k < |s| && s[k] == v {
      if k + 1 < |s| { assert s[k] < s[k + 1]; }
      assert u > k;
    } else {
      if k < |s| { assert v < s[k]; }
    }
  }

  /**
   * The in-order sequence of a binary search tree after inserting v:
   * unchanged when v is already present, otherwise v placed before the
   * first greater element.
   */
  function InsertSorted(s: seq<int>, v: int): (r: seq<int>)
    ensures Elems(r) == Elems(s) + {v}
    ensures Ascending(s) ==> Ascending(r)
    ensures Ascending(s) ==> (v in s <==> r == s)
    ensures Ascending(s) && v !in s ==> |r| == |s| + 1
  {
    var k := LowerBoundIndex(s, v);
    if k < |s| && s[k] == v then
      s
    else
      InsertAtLowerBound(s, v);
      s[..k] + [v] + s[k..]
  }

  /** Placing v at its lower bound, when that slot does not already hold v, adds v and keeps an ascending sequence ascending. */
  lemma {:induction false} InsertAtLowerBound(s: seq<int>, v: int)
    requires var k := LowerBoundIndex(s, v); !(k < |s| && s[k] == v)
    ensures var k := LowerBoundIndex(s, v);
      Elems(s[..k] + [v] + s[k..]) == Elems(s) + {v} &&
      (Ascending(s) ==> v !in s && Ascending(s[..k] + [v] + s[k..]))
  {
    var k := LowerBoundIndex(s, v);
    ElemsInsert(s[..k], v, s[k..]);
    assert s[..k] + s[k..] == s;
    if Ascending(s) {
      AscendingAtLowerBound(s, v, k);
    }
  }

  lemma {:induction false} ElemsInsert(p: seq<int>, v: int, q: seq<int>)
    ensures Elems(p + [v] + q) == Elems(p + q) + {v}
  {
    assert forall x :: x in p + [v] + q <==> x in p + q || x == v;
  }

  lemma {:induction false} AscendingAtLowerBound(s: seq<int>, v: int, k: nat)
    requires Ascending(s) && k == LowerBoundIndex(s, v) && !(k < |s| && s[k] == v)
    ensures v !in s && Ascending(s[..k] + [v] + s[k..])
  {
    LowerBoundSplits(s, v);
    assert s[..k] + s[k..] == s;
    AscendingInsert(s[..k], v, s[k..]);
  }

  ghost predicate Below(s: seq<int>, v: int) {
    forall i | 0 <= i < |s| :: s[i] < v
  }

  ghost predicate Above(s: seq<int>, v: int) {
    forall i | 0 <= i < |s| :: v < s[i]
  }

  /** Placing v between the keys below it and the keys above it is inserting it in order. */
  lemma {:induction false} InsertBetween(p: seq<int>, v: int, q: seq<int>)
    requires Ascending(p + q) && Below(p, v) && Above(q, v)
    ensures v !in p + q
    ensures Ascending(p + [v] + q) && p + [v] + q == InsertSorted(p + q, v)
  {
    AscendingInsert(p, v, q);
    assert Elems(p + [v] + q) == Elems(p + q) + {v};
    AscendingUnique(p + [v] + q, InsertSorted(p + q, v));
  }

  /** v fits between the keys below it and the keys above it. */
  lemma {:induction false} AscendingInsert(p: seq<int>, v: int, q: seq<int>)
    requires Ascending(p + q) && Below(p, v) && Above(q, v)
    ensures Ascending(p + [v] + q)
  {
    var r := p + [v] + q;
    forall i, j | 0 <= i < j < |r| ensures r[i] < r[j] {
      if j < |p| {
        assert r[i] == (p + q)[i] && r[j] == (p + q)[j];
      } else if i > |p| {
        assert r[i] == (p + q)[i - 1] && r[j] == (p + q)[j - 1];
      } else if i < |p| && j > |p| {
        assert r[i] == p[i] && r[j] == q[j - |p| - 1];
      }
    }
  }

  /** Sequence s without its element at index k. */
  function RemoveAt(s: seq<int>, k: nat): (r: seq<int>)
    requires k < |s|
    ensures |r| == |s| - 1
    ensures forall i | 0 <= i < k :: r[i] == s[i]
    ensures forall i | k <= i < |r| :: r[i] == s[i + 1]
  {
    s[..k] + s[k + 1..]
  }

  /** Removing an element from an ascending sequence drops exactly that key. */
  lemma {:induction false} RemoveAtAscending(s: seq<int>, k: nat)
    requires Ascending(s) && k < |s|
    ensures Ascending(RemoveAt(s, k))
    ensures Elems(RemoveAt(s, k)) == Elems(s) - {s[k]}
  {
    var r := RemoveAt(s, k);
    forall x | x in Elems(s) - {s[k]} ensures x in Elems(r) {
      var i :| 0 <= i < |s| && s[i] == x;
      if i < k { assert r[i] == x; } else { assert r[i - 1] == x; }
    }
    forall x | x in Elems(r) ensures x in Elems(s) - {s[k]} {
      var i :| 0 <= i < |r| && r[i] == x;
      if i < k { assert s[i] == x; } else { assert s[i + 1] == x; }
    }
  }

  /** Dropping the first element of an ascending sequence drops exactly that key. */
  lemma {:induction false} ElemsTail(a: seq<int>)
    requires Ascending(a) && a != []
    ensures Elems(a[1..]) == Elems(a) - {a[0]}
  {
    forall x | x in Elems(a) && x != a[0] ensures x in Elems(a[1..]) {
      var i :| 0 <= i < |a| && a[i] == x;
      assert a[1..][i - 1] == x;
    }
    forall x | x in Elems(a[1..]) ensures x != a[0] {
      var i :| 0 <= i < |a[1..]| && a[1..][i] == x;
      assert a[0] < a[i + 1];
    }
  }

  /** An ascending sequence is determined by its set of elements. */
  lemma {:induction false} AscendingUnique(a: seq<int>, b: seq<int>)
    requires Ascending(a) && Ascending(b) && Elems(a) == Elems(b)
    ensures a == b
  {
    assert a != [] ==> a[0] in Elems(a);
    assert b != [] ==> b[0] in Elems(b);
    if a != [] && b != [] {
      assert a[0] == b[0] by {
        assert a[0] in Elems(b) && b[0] in Elems(a);
        var i :| 0 <= i < |b| && b[i] == a[0];
        var j :| 0 <= j < |a| && a[j] == b[0];
      }
      ElemsTail(a);
      ElemsTail(b);
      AscendingUnique(a[1..], b[1..]);
      assert a == [a[0]] + a[1..] && b == [b[0]] + b[1..];
    }
  }
}
