/**
 * The ordered set of set.h: an unbalanced binary search tree whose nodes
 * carry parent pointers, hanging from a sentinel node `dummy` that end()
 * refers to.  Node storage is the arena of BstTree; an iterator is a node
 * index (DUMMY for end(), NIL for a default-constructed iterator).
 *
 * The abstract value of a set is Keys(), the keys in in-order, which the
 * invariant keeps strictly ascending.
 */
module BstSet {
  import opened SortedSeq
  import opened BstTree

  /**
   * Unlinking a node with at most one child: the slot that held it takes
   * the child, whose parent pointer moves up.
   */
  lemma {:induction false} SpliceOut(a: Arena, c: Ctx, t: Tree, x: Tree)
    requires RootLinked(a, Plug(c, t)) && Unique(InOrder(Plug(c, t)))
    requires t.Node? && ((t.l.Leaf? && x == t.r) || (t.r.Leaf? && x == t.l))
    ensures RootLinked(Lift(a, c, x), Plug(c, x))
  {
    SpliceReady(a, c, t, x);
    LiftedChild(a, c, t, x);
    LiftRehung(a, c, x);
    ReplaceFocus(a, Lift(a, c, x), c, t, x);
  }

  lemma {:induction false} SpliceReady(a: Arena, c: Ctx, t: Tree, x: Tree)
    requires RootLinked(a, Plug(c, t)) && Unique(InOrder(Plug(c, t)))
    requires t.Node? && ((t.l.Leaf? && x == t.r) || (t.r.Leaf? && x == t.l))
    ensures Linked(a, t.id, t, Parent(c)) && CtxDistinct(c) && Unique(InOrder(t)) && Has(a, Parent(c))
    ensures Parent(c) !in Ids(t) && (x.Node? ==> x.id != Parent(c) && x.id !in CtxIds(c) && x.id != DUMMY)
  {
    var q := Parent(c);
    LinkedPlug(a, c, t);
    PlugUnique(c, t);
    CtxLinkedIds(a, c, t.id);
    LinkedIds(a, t.id, t, q);
    assert q == DUMMY || q in CtxIds(c);
    assert x.Node? ==> x.id in Ids(t);
  }

  /** Facts about the node at the bottom of path c, read off the links. */
  lemma {:induction false} FocusLinks(a: Arena, tr: Tree, c: Ctx, t: Tree)
    requires RootLinked(a, tr) && Unique(InOrder(tr)) && Plug(c, t) == tr && t.Node?
    ensures Has(a, t.id) && t.id != DUMMY && Has(a, Parent(c)) && a.parent[t.id] == Parent(c)
    ensures a.left[t.id] == Root(t.l) && a.right[t.id] == Root(t.r)
    ensures Linked(a, t.id, t, Parent(c)) && CtxLinked(a, c, t.id)
    ensures (a.left[Parent(c)] == t.id) == !c.InRight?
    ensures CtxDistinct(c) && Ids(t) !! CtxIds(c) && Unique(InOrder(t))
  {
    Around(a, tr, c, t);
    LinkedPlug(a, c, t);
    PlugUnique(c, t);
  }

  /** Where a node sits: its parent pointer, which slot of the parent holds it, and its children. */
  lemma {:induction false} Around(a: Arena, tr: Tree, c: Ctx, t: Tree)
    requires RootLinked(a, tr) && Unique(InOrder(tr)) && Plug(c, t) == tr && t.Node?
    ensures Has(a, t.id) && t.id != DUMMY && Has(a, Parent(c)) && a.parent[t.id] == Parent(c)
    ensures a.left[t.id] == Root(t.l) && a.right[t.id] == Root(t.r)
    ensures Linked(a, a.left[t.id], t.l, t.id) && Linked(a, a.right[t.id], t.r, t.id)
    ensures (a.left[Parent(c)] == t.id) == !c.InRight?
    ensures (a.right[Parent(c)] == t.id) == c.InRight?
    ensures (Parent(c) == DUMMY) == c.Top?
  {
    LinkedPlug(a, c, t);
    PlugUnique(c, t);
    CtxLinkedIds(a, c, t.id);
    LinkedRoot(a, a.left[t.id], t.l, t.id);
    LinkedRoot(a, a.right[t.id], t.r, t.id);
    if !c.Top? {
      assert c.sib.Node? ==> c.sib.id in CtxIds(c);
      if c.InRight? {
        LinkedRoot(a, a.left[c.id], c.sib, c.id);
      } else {
        LinkedRoot(a, a.right[c.id], c.sib, c.id);
      }
    }
  }

  /** In-order around a focused node, grouped as (before, node, after). */
  lemma {:induction false} Split(tr: Tree, c: Ctx, t: Tree)
    requires Plug(c, t) == tr && t.Node?
    ensures InOrder(tr) == (Pre(c) + InOrder(t.l)) + [t.id] + (InOrder(t.r) + Post(c))
  {
    InOrderPlug(c, t);
    Regroup(Pre(c), InOrder(t.l), t.id, InOrder(t.r), Post(c));
  }

  lemma {:induction false} Regroup(p: seq<int>, l: seq<int>, x: int, r: seq<int>, q: seq<int>)
    ensures p + (l + [x] + r) + q == (p + l) + [x] + (r + q)
  {
  }

  /** With a right subtree, ++ goes to its leftmost node. */
  lemma {:induction false} SuccDown(tr: Tree, c: Ctx, t: Tree)
    requires Unique(InOrder(tr)) && Plug(c, t) == tr && t.Node? && t.r.Node?
    ensures SuccOf(InOrder(tr), t.id) == InOrder(t.r)[0]
  {
    Split(tr, c, t);
    SuccPredSplit(Pre(c) + InOrder(t.l), t.id, InOrder(t.r) + Post(c));
  }

  /** With a left subtree, -- goes to its rightmost node. */
  lemma {:induction false} PredDown(tr: Tree, c: Ctx, t: Tree)
    requires Unique(InOrder(tr)) && Plug(c, t) == tr && t.Node? && t.l.Node?
    ensures PredOf(InOrder(tr), t.id) == InOrder(t.l)[|InOrder(t.l)| - 1]
  {
    Split(tr, c, t);
    SuccPredSplit(Pre(c) + InOrder(t.l), t.id, InOrder(t.r) + Post(c));
  }

  /** The climb of ++ stops below the first ancestor reached from its left: that ancestor is the successor. */
  lemma {:induction false} SuccAbove(tr: Tree, c: Ctx, s: Tree)
    requires Unique(InOrder(tr)) && Plug(c, s) == tr && s.Node? && !c.InRight?
    ensures SuccOf(InOrder(tr), InOrder(s)[|InOrder(s)| - 1]) == Parent(c)
  {
    var io := InOrder(s);
    InOrderPlug(c, s);
    RegroupLast(Pre(c), io, Post(c));
    SuccPredSplit(Pre(c) + io[..|io| - 1], io[|io| - 1], Post(c));
  }

  /** The climb of -- stops below the first ancestor reached from its right, or passes the root. */
  lemma {:induction false} PredAbove(tr: Tree, c: Ctx, s: Tree)
    requires Unique(InOrder(tr)) && Plug(c, s) == tr && s.Node? && !c.InLeft?
    ensures PredOf(InOrder(tr), InOrder(s)[0]) == Parent(c)
  {
    var io := InOrder(s);
    InOrderPlug(c, s);
    RegroupFirst(Pre(c), io, Post(c));
    SuccPredSplit(Pre(c), io[0], io[1..] + Post(c));
  }

  lemma {:induction false} RegroupLast(p: seq<int>, s: seq<int>, q: seq<int>)
    requires s != []
    ensures p + s + q == (p + s[..|s| - 1]) + [s[|s| - 1]] + q
  {
    assert s == s[..|s| - 1] + [s[|s| - 1]];
  }

  lemma {:induction false} RegroupFirst(p: seq<int>, s: seq<int>, q: seq<int>)
    requires s != []
    ensures p + s + q == p + [s[0]] + (s[1..] + q)
  {
    assert s == [s[0]] + s[1..];
  }

  lemma {:induction false} Slices(p: seq<int>, l: seq<int>, x: int, r: seq<int>, q: seq<int>)
    ensures |p + l| < |(p + l) + [x] + (r + q)| && ((p + l) + [x] + (r + q))[|p + l|] == x
    ensures ((p + l) + [x] + (r + q))[..|p + l| + 1] == p + l + [x]
    ensures ((p + l) + [x] + (r + q))[|p + l|..] == [x] + r + q
  {
    var z := (p + l) + [x] + (r + q);
    assert z[..|p + l| + 1] == p + l + [x];
    assert z[|p + l|..] == [x] + (r + q);
  }


  /** Descending from node s towards v keeps v between the keys before and after the path. */
  lemma {:induction false} Descend(a: Arena, tr: Tree, c: Ctx, s: Tree, v: int)
    requires Ordered(a, tr) && Plug(c, s) == tr && s.Node?
    requires Below(KeysOf(a, Pre(c)), v) && Above(KeysOf(a, Post(c)), v)
    ensures s.id in InOrder(tr)
    ensures KeyOf(a, s.id) == v ==> v in KeysOf(a, InOrder(tr))
    ensures v < KeyOf(a, s.id) ==>
      Below(KeysOf(a, Pre(InLeft(c, s.id, s.r))), v) && Above(KeysOf(a, Post(InLeft(c, s.id, s.r))), v)
    ensures KeyOf(a, s.id) < v ==>
      Below(KeysOf(a, Pre(InRight(s.l, s.id, c))), v) && Above(KeysOf(a, Post(InRight(s.l, s.id, c))), v)
  {
    var ids := InOrder(tr);
    var m := PathIndex(tr, c, s);
    KeysOfSlices(a, ids, m);
    AscendingSides(KeysOf(a, ids), m, v);
  }

  /** The position of node s in the in-order sequence splits it into the keys before and after each child slot. */
  lemma {:induction false} PathIndex(tr: Tree, c: Ctx, s: Tree) returns (m: nat)
    requires Plug(c, s) == tr && s.Node?
    ensures m < |InOrder(tr)| && InOrder(tr)[m] == s.id
    ensures Pre(InRight(s.l, s.id, c)) == InOrder(tr)[..m + 1]
    ensures Post(InLeft(c, s.id, s.r)) == InOrder(tr)[m..]
  {
    m := |Pre(c) + InOrder(s.l)|;
    Split(tr, c, s);
    Slices(Pre(c), InOrder(s.l), s.id, InOrder(s.r), Post(c));
  }

  lemma {:induction false} KeysOfSlices(a: Arena, ids: seq<int>, m: nat)
    requires m < |ids|
    ensures KeysOf(a, ids[m..]) == KeysOf(a, ids)[m..]
    ensures KeysOf(a, ids[..m + 1]) == KeysOf(a, ids)[..m + 1]
  {
  }

  /** In an ascending sequence, v below the m-th key is below all later keys, and above it is above all earlier ones. */
  lemma {:induction false} AscendingSides(ks: seq<int>, m: nat, v: int)
    requires Ascending(ks) && m < |ks|
    ensures v < ks[m] ==> Above(ks[m..], v)
    ensures ks[m] < v ==> Below(ks[..m + 1], v)
    ensures ks[m] == v ==> v in ks
  {
    if v < ks[m] {
      forall i | 0 <= i < |ks[m..]| ensures v < ks[m..][i] {
        if i > 0 {
          assert ks[m] < ks[m + i];
        }
      }
    }
    if ks[m] < v {
      var pre := ks[..m + 1];
      forall i | 0 <= i < |pre| ensures pre[i] < v {
        if i < m {
          assert ks[i] < ks[m];
        }
      }
    }
  }

  lemma {:induction false} KeysOfAgree(a: Arena, b: Arena, ids: seq<int>)
    requires forall i | i in ids :: KeyOf(a, i) == KeyOf(b, i)
    ensures KeysOf(a, ids) == KeysOf(b, ids)
  {
  }

  /** A fresh leaf hung in the empty slot at the bottom of c keeps the tree linked. */
  lemma {:induction false} InsertLinks(a: Arena, tr: Tree, c: Ctx, v: int)
    requires Shaped(a) && RootLinked(a, tr) && Unique(InOrder(tr)) && Plug(c, Leaf) == tr
    ensures var n := |a.key|;
      var b := SetSlot(AddNode(a, v, Parent(c)), c, n);
      Shaped(b) && RootLinked(b, Plug(c, Node(Leaf, n, Leaf))) && KeyOf(b, n) == v &&
      forall i | 0 <= i < n :: KeyOf(b, i) == KeyOf(a, i)
  {
    var n := |a.key|;
    var b := SetSlot(AddNode(a, v, Parent(c)), c, n);
    var node := Node(Leaf, n, Leaf);
    PlugUnique(c, Leaf);
    LinkedPlug(a, c, Leaf);
    CtxLinkedIds(a, c, NIL);
    assert Linked(b, n, node, Parent(c));
    assert Rehung(a, b, c, n);
    ReplaceFocus(a, b, c, Leaf, node);
  }

  /** The keys of the new in-order sequence: v placed between the keys before and after the slot. */
  lemma {:induction false} InsertKeys(a: Arena, b: Arena, tr: Tree, c: Ctx, n: int, v: int)
    requires RootLinked(a, tr) && Ordered(a, tr) && Plug(c, Leaf) == tr
    requires Below(KeysOf(a, Pre(c)), v) && Above(KeysOf(a, Post(c)), v)
    requires KeyOf(b, n) == v && forall i | 0 <= i < |a.key| :: KeyOf(b, i) == KeyOf(a, i)
    ensures v !in KeysOf(a, InOrder(tr))
    ensures n in InOrder(Plug(c, Node(Leaf, n, Leaf)))
    ensures KeysOf(b, InOrder(Plug(c, Node(Leaf, n, Leaf)))) == InsertSorted(KeysOf(a, InOrder(tr)), v)
    ensures Ascending(KeysOf(b, InOrder(Plug(c, Node(Leaf, n, Leaf)))))
  {
    var pre, post := Pre(c), Post(c);
    InsertOrder(c, n);
    KeysKept(a, b, tr, c);
    var kp, kq := KeysOf(a, pre), KeysOf(a, post);
    KeysOfConcat(b, pre + [n], post);
    KeysOfConcat(b, pre, [n]);
    assert KeysOf(b, [n]) == [v];
    KeysOfConcat(a, pre, post);
    InsertBetween(kp, v, kq);
  }

  /** The in-order sequence around the empty slot at the bottom of c, before and after a node is hung there. */
  lemma {:induction false} InsertOrder(c: Ctx, n: int)
    ensures InOrder(Plug(c, Leaf)) == Pre(c) + Post(c)
    ensures InOrder(Plug(c, Node(Leaf, n, Leaf))) == Pre(c) + [n] + Post(c)
  {
    InOrderPlug(c, Leaf);
    InOrderPlug(c, Node(Leaf, n, Leaf));
  }

  /** Nodes of the tree keep their keys in b, so the keys on either side of the slot are unchanged. */
  lemma {:induction false} KeysKept(a: Arena, b: Arena, tr: Tree, c: Ctx)
    requires RootLinked(a, tr) && Plug(c, Leaf) == tr
    requires forall i | 0 <= i < |a.key| :: KeyOf(b, i) == KeyOf(a, i)
    ensures KeysOf(b, Pre(c)) == KeysOf(a, Pre(c)) && KeysOf(b, Post(c)) == KeysOf(a, Post(c))
  {
    InOrderPlug(c, Leaf);
    LinkedIds(a, a.left[DUMMY], tr, DUMMY);
    forall i | i in Pre(c) ensures KeyOf(a, i) == KeyOf(b, i) {
      assert i in InOrder(tr);
    }
    forall i | i in Post(c) ensures KeyOf(a, i) == KeyOf(b, i) {
      assert i in InOrder(tr);
    }
    KeysOfAgree(a, b, Pre(c));
    KeysOfAgree(a, b, Post(c));
  }

  /**
   * Hanging a fresh node with key v in the empty slot at the bottom of c,
   * where v lies between the keys before and after that slot, inserts v in
   * order and keeps the tree linked.
   */
  lemma {:induction false} InsertStep(a: Arena, tr: Tree, c: Ctx, v: int)
    requires Shaped(a) && RootLinked(a, tr) && Ordered(a, tr) && Plug(c, Leaf) == tr
    requires Below(KeysOf(a, Pre(c)), v) && Above(KeysOf(a, Post(c)), v)
    ensures v !in KeysOf(a, InOrder(tr))
    ensures var n := |a.key|;
      var b := SetSlot(AddNode(a, v, Parent(c)), c, n);
      var tr2 := Plug(c, Node(Leaf, n, Leaf));
      Shaped(b) && RootLinked(b, tr2) && Ordered(b, tr2) && n in InOrder(tr2) && KeyOf(b, n) == v &&
      KeysOf(b, InOrder(tr2)) == InsertSorted(KeysOf(a, InOrder(tr)), v)
  {
    var n := |a.key|;
    var b := SetSlot(AddNode(a, v, Parent(c)), c, n);
    AscendingKeysUnique(a, InOrder(tr));
    InsertLinks(a, tr, c, v);
    InsertKeys(a, b, tr, c, n, v);
  }

  /** b extends a: every node of a is kept as it was and new nodes are appended. */
  ghost predicate Grown(a: Arena, b: Arena) {
    a.key <= b.key && a.left <= b.left && a.right <= b.right && a.parent <= b.parent
  }

  lemma {:induction false} GrownAdd(a: Arena, v: int, p: int)
    ensures Grown(a, AddNode(a, v, p))
  {
  }

  lemma {:induction false} GrownTrans(a: Arena, b: Arena, c: Arena)
    requires Grown(a, b) && Grown(b, c)
    ensures Grown(a, c)
  {
  }

  /** Re-pointing a child slot of an appended node keeps the older nodes as they were. */
  lemma {:induction false} GrownSlot(a: Arena, b: Arena, n: int, z: int, onRight: bool)
    requires Grown(a, b) && |a.left| <= n && |a.right| <= n
    ensures Grown(a, if onRight then SetRight(b, n, z) else SetLeft(b, n, z))
  {
    var c := if onRight then SetRight(b, n, z) else SetLeft(b, n, z);
    assert c.left[..|a.left|] == b.left[..|a.left|];
    assert c.right[..|a.right|] == b.right[..|a.right|];
  }

  /** Appending nodes keeps a linked tree linked, with the same keys. */
  lemma {:induction false} GrownFrame(a: Arena, b: Arena, x: int, t: Tree, p: int)
    requires Linked(a, x, t, p) && Grown(a, b)
    ensures Linked(b, x, t, p) && KeysOf(b, InOrder(t)) == KeysOf(a, InOrder(t))
  {
    LinkedIds(a, x, t, p);
    forall i | i in Ids(t) ensures Same(a, b, i) {
      assert a.key[i] == b.key[i] && a.left[i] == b.left[i];
      assert a.right[i] == b.right[i] && a.parent[i] == b.parent[i];
    }
    LinkedFrame(a, b, x, t, p);
    forall i | i in InOrder(t) ensures KeyOf(a, i) == KeyOf(b, i) {
      assert a.key[i] == b.key[i];
    }
    KeysOfAgree(a, b, InOrder(t));
  }

  /** The in-order keys of a node, from those of its subtrees. */
  lemma {:induction false} NodeKeys(a: Arena, l: Tree, id: int, r: Tree)
    ensures KeysOf(a, InOrder(Node(l, id, r))) == KeysOf(a, InOrder(l)) + [KeyOf(a, id)] + KeysOf(a, InOrder(r))
  {
    KeysOfConcat(a, InOrder(l) + [id], InOrder(r));
    KeysOfConcat(a, InOrder(l), [id]);
  }

  /**
   * Nodes y and below of b realise a copy of st from src, hung from p, all
   * numbered from lo on: the same shape with the same keys in order.
   */
  ghost predicate CopyOf(b: Arena, y: int, t: Tree, p: int, src: Arena, st: Tree, lo: int) {
    Linked(b, y, t, p) && Congruent(t, st) && KeysOf(b, InOrder(t)) == KeysOf(src, InOrder(st)) &&
    forall i | i in Ids(t) :: lo <= i
  }

  /** Appending nodes keeps a copy intact. */
  lemma {:induction false} CopyGrown(a: Arena, b: Arena, y: int, t: Tree, p: int, src: Arena, st: Tree, lo: int)
    requires CopyOf(a, y, t, p, src, st, lo) && Grown(a, b)
    ensures CopyOf(b, y, t, p, src, st, lo)
  {
    GrownFrame(a, b, y, t, p);
  }

  /** Re-pointing a child slot of a node numbered below the copy keeps the copy intact. */
  lemma {:induction false} CopyKept(a: Arena, n: int, z: int, onRight: bool, y: int, t: Tree, p: int, src: Arena, st: Tree, lo: int)
    requires CopyOf(a, y, t, p, src, st, lo) && n < lo
    ensures CopyOf(if onRight then SetRight(a, n, z) else SetLeft(a, n, z), y, t, p, src, st, lo)
  {
    var b := if onRight then SetRight(a, n, z) else SetLeft(a, n, z);
    LinkedIds(a, y, t, p);
    LinkedFrame(a, b, y, t, p);
    KeysOfAgree(a, b, InOrder(t));
  }

  /** Hanging the copy of the left subtree below the fresh node n keeps it a copy and only grows the arena. */
  lemma {:induction false} HangLeftCopy(a0: Arena, a: Arena, n: int, l: int, lt: Tree, src: Arena, st: Tree)
    requires Grown(a0, a) && Shaped(a) && |a0.left| <= n && |a0.right| <= n && n < |a.key|
    requires CopyOf(a, l, lt, n, src, st, n + 1)
    ensures var b := SetLeft(a, n, l);
      Shaped(b) && Grown(a0, b) && b.key == a.key && b.parent == a.parent &&
      CopyOf(b, l, lt, n, src, st, n + 1)
  {
    CopyKept(a, n, l, false, l, lt, n, src, st, n + 1);
    GrownSlot(a0, a, n, l, false);
  }

  /** Hanging the copy of the right subtree below n, whose left copy is already hung, completes a copy of st rooted at n. */
  lemma {:induction false} HangRightCopy(a0: Arena, a: Arena, c: Arena, n: int, lt: Tree, r: int, rt: Tree, p: int, src: Arena, st: Tree)
    requires st.Node? && 0 <= st.id < |src.key|
    requires Grown(a0, a) && Grown(a, c) && Shaped(a) && Shaped(c)
    requires |a0.left| <= n && |a0.right| <= n && n < |a.key| && n != DUMMY
    requires a.parent[n] == p && a.key[n] == src.key[st.id]
    requires CopyOf(a, a.left[n], lt, n, src, st.l, n + 1)
    requires CopyOf(c, r, rt, n, src, st.r, n + 1)
    ensures var b := SetRight(c, n, r);
      Shaped(b) && Grown(a0, b) && CopyOf(b, n, Node(lt, n, rt), p, src, st, n)
  {
    GrownTrans(a0, a, c);
    CopyGrown(a, c, a.left[n], lt, n, src, st.l, n + 1);
    CopyKept(c, n, r, true, a.left[n], lt, n, src, st.l, n + 1);
    CopyKept(c, n, r, true, r, rt, n, src, st.r, n + 1);
    GrownSlot(a0, c, n, r, true);
    CopyNode(SetRight(c, n, r), src, st, n, lt, rt, p);
  }

  /** A fresh node n of b, with parent p and copies hung below it, roots a copy of st. */
  lemma {:induction false} CopyNode(b: Arena, src: Arena, st: Tree, n: int, lt: Tree, rt: Tree, p: int)
    requires st.Node? && 0 <= st.id < |src.key|
    requires Has(b, n) && n != DUMMY && b.parent[n] == p && b.key[n] == src.key[st.id]
    requires CopyOf(b, b.left[n], lt, n, src, st.l, n + 1)
    requires CopyOf(b, b.right[n], rt, n, src, st.r, n + 1)
    ensures CopyOf(b, n, Node(lt, n, rt), p, src, st, n)
  {
    NodeKeys(b, lt, n, rt);
    NodeKeys(src, st.l, st.id, st.r);
  }

  // ---------------------------------------------------------------------
  // Erasing a node

  /** A path that only ever goes down to the left. */
  ghost predicate LeftPath(c: Ctx) {
    match c
    case Top => true
    case InLeft(up, _, _) => LeftPath(up)
    case InRight(_, _, _) => false
  }

  lemma {:induction false} LeftPathPre(c: Ctx)
    requires LeftPath(c)
    ensures Pre(c) == []
  {
    match c
    case Top =>
    case InLeft(up, _, _) => LeftPathPre(up);
  }

  /** The leftmost node under t, with the path to it continuing c. */
  ghost function Leftmost(t: Tree, c: Ctx): (r: (Ctx, Tree))
    requires t.Node? && LeftPath(c)
    ensures r.1.Node? && r.1.l.Leaf? && Plug(r.0, r.1) == Plug(c, t) && LeftPath(r.0)
    ensures r.0.Top? <==> c.Top? && t.l.Leaf?
    decreases t
  {
    if t.l.Leaf? then (c, t) else Leftmost(t.l, InLeft(c, t.id, t.r))
  }

  lemma {:induction false} UniqueMiddle(p: seq<int>, x: int, m: seq<int>, q: seq<int>)
    requires Unique(p + ([x] + m) + q)
    ensures Unique(p + m + q) && x !in p + m + q
  {
    var s := p + ([x] + m) + q;
    var r := p + m + q;
    forall i, j | 0 <= i < j < |r| ensures r[i] != r[j] {
      var i', j' := if i < |p| then i else i + 1, if j < |p| then j else j + 1;
      assert r[i] == s[i'] && r[j] == s[j'];
    }
    forall i | 0 <= i < |r| ensures r[i] != x {
      var i' := if i < |p| then i else i + 1;
      assert r[i] == s[i'] && s[|p|] == x;
    }
  }

  lemma {:induction false} RemoveMiddle(pl: seq<int>, x: int, rq: seq<int>)
    ensures RemoveAt(pl + [x] + rq, |pl|) == pl + rq
  {
  }

  lemma {:induction false} Regroup4(p: seq<int>, l: seq<int>, r: seq<int>, q: seq<int>)
    ensures p + (l + r) + q == (p + l) + (r + q)
  {
  }

  /**
   * Replacing the node t under c by a subtree with the same in-order
   * sequence minus t's own node removes exactly that node's position from
   * the in-order sequence of the whole tree, and keeps the keys ascending.
   */
  lemma {:induction false} EraseOrder(a: Arena, b: Arena, tr: Tree, c: Ctx, t: Tree, t2: Tree) returns (k: nat)
    requires Plug(c, t) == tr && t.Node? && Ordered(a, tr) && a.key == b.key
    requires InOrder(t2) == InOrder(t.l) + InOrder(t.r)
    ensures k == |Pre(c)| + |InOrder(t.l)| && k < |InOrder(tr)|
    ensures t.id in InOrder(tr) && IndexOf(InOrder(tr), t.id) == k
    ensures InOrder(Plug(c, t2)) == RemoveAt(InOrder(tr), k)
    ensures KeysOf(b, InOrder(Plug(c, t2))) == RemoveAt(KeysOf(a, InOrder(tr)), k)
    ensures Ordered(b, Plug(c, t2))
  {
    var pl, rq := Pre(c) + InOrder(t.l), InOrder(t.r) + Post(c);
    Split(tr, c, t);
    AscendingKeysUnique(a, InOrder(tr));
    SuccPredSplit(pl, t.id, rq);
    RemoveMiddle(pl, t.id, rq);
    InOrderPlug(c, t2);
    Regroup4(Pre(c), InOrder(t.l), InOrder(t.r), Post(c));
    k := |pl|;
    KeysOfRemoveAt(a, b, InOrder(tr), k);
  }

  /** The facts about the nodes around n that the direct two-children case relies on. */
  lemma {:induction false} DirectReady(a: Arena, tr: Tree, c: Ctx, t: Tree)
    requires RootLinked(a, tr) && Unique(InOrder(tr)) && Plug(c, t) == tr
    requires t.Node? && t.l.Node? && t.r.Node? && t.r.l.Leaf?
    ensures Linked(a, t.id, t, Parent(c)) && CtxLinked(a, c, t.id) && Has(a, Parent(c))
    ensures Unique(InOrder(t)) && CtxDistinct(c) && Ids(t) !! CtxIds(c)
    ensures Linked(a, t.r.id, t.r, t.id) && Linked(a, t.l.id, t.l, t.id)
    ensures Has(a, t.r.id) && Has(a, t.l.id) && t.r.id != DUMMY && t.l.id != DUMMY
    ensures t.r.id !in CtxIds(c) && t.l.id !in CtxIds(c)
    ensures t.r.id != Parent(c) && t.l.id != Parent(c) && t.l.id != t.r.id
    ensures t.r.id !in Ids(t.l) && Parent(c) !in Ids(t.l) && Parent(c) !in Ids(t.r.r)
    ensures t.id !in Ids(t.l) && t.id !in Ids(t.r.r) && t.r.id !in Ids(t.r.r) && t.l.id !in Ids(t.r.r)
    ensures Unique(InOrder(t.l)) && Linked(a, a.right[t.r.id], t.r.r, t.r.id)
  {
    var p, l, pr, q := t.r.id, t.l, t.r.r, Parent(c);
    FocusLinks(a, tr, c, t);
    UniqueNode(t.l, t.id, t.r);
    UniqueNode(t.r.l, p, pr);
    CtxLinkedIds(a, c, t.id);
    assert q == DUMMY || q in CtxIds(c);
    assert Linked(a, p, t.r, t.id) && Linked(a, l.id, l, t.id);
    assert p in Ids(t) && l.id in Ids(t) && p != DUMMY && l.id != DUMMY;
    LinkedIds(a, l.id, l, t.id);
    LinkedIds(a, a.right[p], pr, p);
    assert Ids(l) <= Ids(t) && Ids(pr) <= Ids(t);
    assert Ids(pr) <= Ids(t.r);
  }

  /**
   * The two-children case where the successor p is the right child: p
   * takes the erased node's place and adopts its left subtree, keeping its
   * own right subtree.
   */
  lemma {:induction false} EraseDirect(a: Arena, d: Arena, tr: Tree, c: Ctx, t: Tree)
    requires RootLinked(a, tr) && Unique(InOrder(tr)) && Plug(c, t) == tr
    requires t.Node? && t.l.Node? && t.r.Node? && t.r.l.Leaf?
    requires d == SetParent(SetLeft(SetParent(SetSlot(a, c, t.r.id), t.r.id, Parent(c)), t.r.id, t.l.id), t.l.id, t.r.id)
    ensures RootLinked(d, Plug(c, Node(t.l, t.r.id, t.r.r)))
  {
    DirectReady(a, tr, c, t);
    DirectEdits(a, c, t.r.id, t.l.id, d);
    DirectLinks(a, d, tr, c, t);
  }

  /** Any arena with the direct edits' effect on p, its new left child and their old neighbours links the new tree. */
  lemma {:induction false} DirectLinks(a: Arena, d: Arena, tr: Tree, c: Ctx, t: Tree)
    requires RootLinked(a, tr) && Plug(c, t) == tr && t.Node? && t.l.Node? && t.r.Node? && t.r.l.Leaf?
    requires Has(a, t.r.id) && Linked(a, t.l.id, t.l, t.id) && Unique(InOrder(t.l))
    requires Linked(a, a.right[t.r.id], t.r.r, t.r.id) && CtxDistinct(c) && t.r.id != DUMMY
    requires t.r.id !in Ids(t.l) && Parent(c) !in Ids(t.l) && Parent(c) !in Ids(t.r.r)
    requires t.r.id !in Ids(t.r.r) && t.l.id !in Ids(t.r.r)
    requires Outside(a, d, {Parent(c), t.r.id, t.l.id})
    requires Has(d, t.r.id) && d.left[t.r.id] == t.l.id && d.right[t.r.id] == a.right[t.r.id] && d.parent[t.r.id] == Parent(c)
    requires Has(d, t.l.id) && d.left[t.l.id] == a.left[t.l.id] && d.right[t.l.id] == a.right[t.l.id] && d.parent[t.l.id] == t.r.id
    requires Rehung(a, d, c, t.r.id)
    ensures RootLinked(d, Plug(c, Node(t.l, t.r.id, t.r.r)))
  {
    DirectChild(a, d, t.l, t.id, t.r.id, t.r.r, Parent(c));
    ReplaceFocus(a, d, c, t, Node(t.l, t.r.id, t.r.r));
  }

  /** p with left subtree l (moved up from under n) and its own right subtree pr is linked under q. */
  lemma {:induction false} DirectChild(a: Arena, d: Arena, l: Tree, n: int, p: int, pr: Tree, q: int)
    requires l.Node? && Has(a, p) && p != DUMMY && Linked(a, l.id, l, n) && Unique(InOrder(l))
    requires Linked(a, a.right[p], pr, p)
    requires p !in Ids(l) && q !in Ids(l) && q !in Ids(pr) && p !in Ids(pr) && l.id !in Ids(pr)
    requires Outside(a, d, {q, p, l.id})
    requires Has(d, p) && d.left[p] == l.id && d.right[p] == a.right[p] && d.parent[p] == q
    requires Has(d, l.id) && d.left[l.id] == a.left[l.id] && d.right[l.id] == a.right[l.id] && d.parent[l.id] == p
    ensures Linked(d, p, Node(l, p, pr), q)
  {
    var ch := {q, p, l.id};
    OutsideAgree(a, d, ch, Ids(l) - {l.id});
    Reparent(a, d, l, n, p);
    OutsideAgree(a, d, ch, Ids(pr));
    LinkedFrame(a, d, a.right[p], pr, p);
  }

  /** Pointing the slot at the bottom of c at y rehangs c there. */
  lemma {:induction false} SlotRehung(a: Arena, c: Ctx, y: int)
    requires Has(a, Parent(c))
    ensures Rehung(a, SetSlot(a, c, y), c, y)
  {
    EditOutside(a, 0, 0, c, y);
    OutsideAgree(a, SetSlot(a, c, y), {Parent(c)}, CtxIds(c) + {DUMMY} - {Parent(c)});
  }

  /** Edits away from the path c and the sentinel keep c rehung. */
  lemma {:induction false} RehungOutside(a: Arena, b: Arena, d: Arena, c: Ctx, y: int, ch: set<int>)
    requires Rehung(a, b, c, y) && Outside(b, d, ch) && ch !! CtxIds(c) + {DUMMY}
    ensures Rehung(a, d, c, y)
  {
    OutsideAgree(b, d, ch, CtxIds(c) + {DUMMY});
    assert Parent(c) in CtxIds(c) + {DUMMY};
  }

  /** The pointer edits of the direct case, node by node. */
  lemma {:induction false} DirectEdits(a: Arena, c: Ctx, p: int, lid: int, d: Arena)
    requires Has(a, p) && Has(a, lid) && Has(a, Parent(c))
    requires p != lid && p != Parent(c) && lid != Parent(c)
    requires p !in CtxIds(c) && lid !in CtxIds(c) && p != DUMMY && lid != DUMMY
    requires d == SetParent(SetLeft(SetParent(SetSlot(a, c, p), p, Parent(c)), p, lid), lid, p)
    ensures Outside(a, d, {Parent(c), p, lid}) && d.key == a.key
    ensures Has(d, p) && d.left[p] == lid && d.right[p] == a.right[p] && d.parent[p] == Parent(c)
    ensures Has(d, lid) && d.left[lid] == a.left[lid] && d.right[lid] == a.right[lid] && d.parent[lid] == p
    ensures Rehung(a, d, c, p)
  {
    var q := Parent(c);
    var d1 := SetSlot(a, c, p);
    var d2 := SetParent(d1, p, q);
    var d3 := SetLeft(d2, p, lid);
    var ch := {p} + {p} + {lid};
    assert Outside(d1, d, ch) by {
      EditOutside(d1, p, q, c, p);
      EditOutside(d2, p, lid, c, p);
      EditOutside(d3, lid, p, c, p);
      OutsideTrans(d1, d2, d3, {p}, {p});
      OutsideTrans(d1, d3, d, {p} + {p}, {lid});
    }
    assert Outside(a, d, {q, p, lid}) by {
      EditOutside(a, 0, 0, c, p);
      OutsideTrans(a, d1, d, {q}, ch);
      assert {q} + ch == {q, p, lid};
    }
    assert Rehung(a, d, c, p) by {
      SlotRehung(a, c, p);
      RehungOutside(a, d1, d, c, p, ch);
    }
    assert d.key == a.key && d.left[p] == lid && d.right[p] == a.right[p] && d.parent[p] == q;
    assert d.left[lid] == a.left[lid] && d.right[lid] == a.right[lid] && d.parent[lid] == p;
  }

  /**
   * The deep two-children case, first half: the successor p, the leftmost
   * node of the right subtree, is unlinked (its parent's left slot takes its
   * right subtree) and its own pointers are cleared.
   */
  lemma {:induction false} DetachMin(a: Arena, b: Arena, tr: Tree, c: Ctx, t: Tree, c2: Ctx, fp: Tree)
    requires RootLinked(a, tr) && Unique(InOrder(tr)) && Plug(c, t) == tr && t.Node?
    requires Plug(c2, fp) == t.r && !c2.Top? && fp.Node? && fp.l.Leaf?
    requires b == SetParent(SetRight(Lift(a, Compose(c2, InRight(t.l, t.id, c)), fp.r), fp.id, NIL), fp.id, NIL)
    ensures RootLinked(b, Plug(c, Node(t.l, t.id, Plug(c2, fp.r))))
    ensures Unique(InOrder(Plug(c, Node(t.l, t.id, Plug(c2, fp.r)))))
    ensures fp.id !in Ids(Plug(c, Node(t.l, t.id, Plug(c2, fp.r))))
    ensures b.key == a.key && Has(b, fp.id) && fp.id != DUMMY
  {
    var cp := Compose(c2, InRight(t.l, t.id, c));
    var t1 := Plug(c, Node(t.l, t.id, Plug(c2, fp.r)));
    var a1 := Lift(a, cp, fp.r);
    assert Plug(cp, fp) == tr && Plug(cp, fp.r) == t1;
    SpliceMin(a, tr, cp, fp, t1);
    UnlinkedFrame(a1, b, t1, fp.id);
  }

  /** Unlinking the node fp, which has no left child, from under cp. */
  lemma {:induction false} SpliceMin(a: Arena, tr: Tree, cp: Ctx, fp: Tree, t1: Tree)
    requires RootLinked(a, tr) && Unique(InOrder(tr)) && Plug(cp, fp) == tr && fp.Node? && fp.l.Leaf?
    requires Plug(cp, fp.r) == t1
    ensures RootLinked(Lift(a, cp, fp.r), t1)
    ensures Unique(InOrder(t1)) && fp.id !in Ids(t1)
    ensures Lift(a, cp, fp.r).key == a.key && Has(Lift(a, cp, fp.r), fp.id) && fp.id != DUMMY
  {
    SpliceOut(a, cp, fp, fp.r);
    DropUnique(tr, cp, fp);
    LinkedPlug(a, cp, fp);
    assert Has(Lift(a, cp, fp.r), fp.id);
  }

  /** Dropping a node whose left subtree is empty leaves an in-order sequence without repeats that lacks it. */
  lemma {:induction false} DropUnique(tr: Tree, cp: Ctx, fp: Tree)
    requires Unique(InOrder(tr)) && Plug(cp, fp) == tr && fp.Node? && fp.l.Leaf?
    ensures Unique(InOrder(Plug(cp, fp.r))) && fp.id !in Ids(Plug(cp, fp.r))
  {
    InOrderPlug(cp, fp);
    InOrderPlug(cp, fp.r);
    assert InOrder(fp) == [fp.id] + InOrder(fp.r);
    UniqueMiddle(Pre(cp), fp.id, InOrder(fp.r), Post(cp));
    IdsInOrder(Plug(cp, fp.r));
  }

  /** Clearing the pointers of a node outside the tree leaves the tree linked. */
  lemma {:induction false} UnlinkedFrame(a: Arena, b: Arena, t: Tree, p: int)
    requires RootLinked(a, t) && p !in Ids(t) && p != DUMMY && Has(a, p)
    requires b == SetParent(SetRight(a, p, NIL), p, NIL)
    ensures RootLinked(b, t) && b.key == a.key && Has(b, p)
  {
    EditOutside(a, p, NIL, Top, 0);
    EditOutside(SetRight(a, p, NIL), p, NIL, Top, 0);
    OutsideTrans(a, SetRight(a, p, NIL), b, {p}, {p});
    OutsideAgree(a, b, {p}, Ids(t));
    LinkedFrame(a, b, a.left[DUMMY], t, DUMMY);
  }

  /**
   * The deep two-children case, second half: the detached successor p
   * takes the erased node n's place and adopts both of its subtrees.
   */
  lemma {:induction false} Transplant(b: Arena, d: Arena, c: Ctx, l: Tree, n: int, s: Tree, p: int)
    requires RootLinked(b, Plug(c, Node(l, n, s))) && Unique(InOrder(Plug(c, Node(l, n, s))))
    requires l.Node? && s.Node? && Has(b, p) && p != DUMMY && p !in Ids(Plug(c, Node(l, n, s)))
    requires d == SetParent(SetRight(SetParent(SetLeft(SetParent(SetSlot(b, c, p), p, Parent(c)), p, l.id), l.id, p), p, s.id), s.id, p)
    ensures RootLinked(d, Plug(c, Node(l, p, s)))
  {
    TransplantReady(b, c, l, n, s, p);
    TransplantEdits(b, c, p, l.id, s.id, d);
    TransplantLinks(b, d, c, l, n, s, p);
  }

  /** The facts about n's children and ancestors that the deep case's edits rely on. */
  lemma {:induction false} TransplantReady(b: Arena, c: Ctx, l: Tree, n: int, s: Tree, p: int)
    requires RootLinked(b, Plug(c, Node(l, n, s))) && Unique(InOrder(Plug(c, Node(l, n, s))))
    requires l.Node? && s.Node? && p != DUMMY && p !in Ids(Plug(c, Node(l, n, s)))
    ensures Has(b, l.id) && Has(b, s.id) && Has(b, Parent(c)) && CtxDistinct(c)
    ensures l.id != DUMMY && s.id != DUMMY && l.id != s.id && l.id != Parent(c) && s.id != Parent(c)
    ensures p != Parent(c) && p !in CtxIds(c) && l.id !in CtxIds(c) && s.id !in CtxIds(c)
    ensures p != l.id && p != s.id
    ensures Linked(b, l.id, l, n) && Linked(b, s.id, s, n) && Unique(InOrder(l)) && Unique(InOrder(s))
    ensures Parent(c) !in Ids(l) && Parent(c) !in Ids(s) && p !in Ids(l) && p !in Ids(s)
    ensures s.id !in Ids(l) && l.id !in Ids(s)
  {
    var tr, q := Plug(c, Node(l, n, s)), Parent(c);
    OutsiderFacts(c, l, n, s, p);
    LinkedPlug(b, c, Node(l, n, s));
    CtxLinkedIds(b, c, n);
    ChildFacts(b, l, n, s, q);
    LinkedIds(b, l.id, l, n);
    LinkedIds(b, s.id, s, n);
    DisjointFacts(c, l, n, s);
  }

  lemma {:induction false} RootIn(t: Tree)
    requires t.Node?
    ensures t.id in Ids(t)
  {
  }

  /** In a tree without repeated nodes and without the sentinel, n's children and ancestors are all distinct. */
  lemma {:induction false} DisjointFacts(c: Ctx, l: Tree, n: int, s: Tree)
    requires Unique(InOrder(Plug(c, Node(l, n, s)))) && l.Node? && s.Node?
    requires DUMMY !in Ids(l) && DUMMY !in Ids(s)
    ensures CtxDistinct(c) && Unique(InOrder(l)) && Unique(InOrder(s))
    ensures l.id != s.id && l.id != Parent(c) && s.id != Parent(c)
    ensures l.id !in CtxIds(c) && s.id !in CtxIds(c)
    ensures Parent(c) !in Ids(l) && Parent(c) !in Ids(s) && s.id !in Ids(l) && l.id !in Ids(s)
  {
    RootIn(l);
    RootIn(s);
    PlugUnique(c, Node(l, n, s));
    UniqueNode(l, n, s);
    var q := Parent(c);
    if q == DUMMY {
      assert q !in Ids(l) && q !in Ids(s);
    } else {
      assert q in CtxIds(c);
      assert q !in Ids(l) + {n} + Ids(s);
    }
  }

  /** The children of a linked node are linked real nodes. */
  lemma {:induction false} ChildFacts(b: Arena, l: Tree, n: int, s: Tree, q: int)
    requires Linked(b, n, Node(l, n, s), q) && l.Node? && s.Node?
    ensures Linked(b, l.id, l, n) && Linked(b, s.id, s, n)
    ensures Has(b, l.id) && Has(b, s.id) && l.id != DUMMY && s.id != DUMMY
  {
  }

  /** A node outside the tree is none of the nodes around the focus. */
  lemma {:induction false} OutsiderFacts(c: Ctx, l: Tree, n: int, s: Tree, p: int)
    requires l.Node? && s.Node? && p != DUMMY && p !in Ids(Plug(c, Node(l, n, s)))
    ensures p !in CtxIds(c) && p != Parent(c) && p !in Ids(l) && p !in Ids(s) && p != l.id && p != s.id
  {
    IdsPlug(c, Node(l, n, s));
    assert Parent(c) == DUMMY || Parent(c) in CtxIds(c);
  }

  /** Any arena with the deep case's effect on p and n's two children links the new tree. */
  lemma {:induction false} TransplantLinks(b: Arena, d: Arena, c: Ctx, l: Tree, n: int, s: Tree, p: int)
    requires RootLinked(b, Plug(c, Node(l, n, s))) && CtxDistinct(c) && l.Node? && s.Node?
    requires Linked(b, l.id, l, n) && Linked(b, s.id, s, n) && Unique(InOrder(l)) && Unique(InOrder(s))
    requires Parent(c) !in Ids(l) && Parent(c) !in Ids(s) && p !in Ids(l) && p !in Ids(s)
    requires s.id !in Ids(l) && l.id !in Ids(s) && p != DUMMY
    requires Outside(b, d, {Parent(c), p, l.id, s.id})
    requires Has(d, p) && d.left[p] == l.id && d.right[p] == s.id && d.parent[p] == Parent(c)
    requires Has(d, l.id) && d.left[l.id] == b.left[l.id] && d.right[l.id] == b.right[l.id] && d.parent[l.id] == p
    requires Has(d, s.id) && d.left[s.id] == b.left[s.id] && d.right[s.id] == b.right[s.id] && d.parent[s.id] == p
    requires Rehung(b, d, c, p)
    ensures RootLinked(d, Plug(c, Node(l, p, s)))
  {
    TransplantChild(b, d, l, n, s, p, Parent(c));
    ReplaceFocus(b, d, c, Node(l, n, s), Node(l, p, s));
  }

  /** p with n's two subtrees is linked under q. */
  lemma {:induction false} TransplantChild(b: Arena, d: Arena, l: Tree, n: int, s: Tree, p: int, q: int)
    requires l.Node? && s.Node? && Linked(b, l.id, l, n) && Linked(b, s.id, s, n)
    requires Unique(InOrder(l)) && Unique(InOrder(s))
    requires q !in Ids(l) && q !in Ids(s) && p !in Ids(l) && p !in Ids(s) && s.id !in Ids(l) && l.id !in Ids(s)
    requires Outside(b, d, {q, p, l.id, s.id}) && p != DUMMY
    requires Has(d, p) && d.left[p] == l.id && d.right[p] == s.id && d.parent[p] == q
    requires Has(d, l.id) && d.left[l.id] == b.left[l.id] && d.right[l.id] == b.right[l.id] && d.parent[l.id] == p
    requires Has(d, s.id) && d.left[s.id] == b.left[s.id] && d.right[s.id] == b.right[s.id] && d.parent[s.id] == p
    ensures Linked(d, p, Node(l, p, s), q)
  {
    OutsideAgree(b, d, {q, p, l.id, s.id}, Ids(l) - {l.id});
    Reparent(b, d, l, n, p);
    OutsideAgree(b, d, {q, p, l.id, s.id}, Ids(s) - {s.id});
    Reparent(b, d, s, n, p);
  }

  /** The pointer edits of the deep case, node by node. */
  lemma {:induction false} TransplantEdits(b: Arena, c: Ctx, p: int, lid: int, sid: int, d: Arena)
    requires Has(b, p) && Has(b, lid) && Has(b, sid) && Has(b, Parent(c))
    requires p != lid && p != sid && lid != sid && p != Parent(c) && lid != Parent(c) && sid != Parent(c)
    requires p !in CtxIds(c) && lid !in CtxIds(c) && sid !in CtxIds(c)
    requires p != DUMMY && lid != DUMMY && sid != DUMMY
    requires d == SetParent(SetRight(SetParent(SetLeft(SetParent(SetSlot(b, c, p), p, Parent(c)), p, lid), lid, p), p, sid), sid, p)
    ensures Outside(b, d, {Parent(c), p, lid, sid}) && d.key == b.key
    ensures Has(d, p) && d.left[p] == lid && d.right[p] == sid && d.parent[p] == Parent(c)
    ensures Has(d, lid) && d.left[lid] == b.left[lid] && d.right[lid] == b.right[lid] && d.parent[lid] == p
    ensures Has(d, sid) && d.left[sid] == b.left[sid] && d.right[sid] == b.right[sid] && d.parent[sid] == p
    ensures Rehung(b, d, c, p)
  {
    var d4 := SetParent(SetLeft(SetParent(SetSlot(b, c, p), p, Parent(c)), p, lid), lid, p);
    DirectEdits(b, c, p, lid, d4);
    AdoptFrame(b, d4, d, c, p, lid, sid);
    AdoptSlots(b, d4, d, c, p, lid, sid);
  }

  /** Adopting sid as p's right child after the direct edits touches only p and sid. */
  lemma {:induction false} AdoptFrame(b: Arena, d4: Arena, d: Arena, c: Ctx, p: int, lid: int, sid: int)
    requires Has(d4, p) && Has(d4, sid) && p !in CtxIds(c) && sid !in CtxIds(c) && p != DUMMY && sid != DUMMY
    requires Outside(b, d4, {Parent(c), p, lid}) && d4.key == b.key && Rehung(b, d4, c, p)
    requires d == SetParent(SetRight(d4, p, sid), sid, p)
    ensures Outside(b, d, {Parent(c), p, lid, sid}) && d.key == b.key && Rehung(b, d, c, p)
  {
    var q := Parent(c);
    var ch := {p} + {sid};
    assert Outside(d4, d, ch) by {
      EditOutside(d4, p, sid, c, p);
      EditOutside(SetRight(d4, p, sid), sid, p, c, p);
      OutsideTrans(d4, SetRight(d4, p, sid), d, {p}, {sid});
    }
    OutsideTrans(b, d4, d, {q, p, lid}, ch);
    assert {q, p, lid} + ch == {q, p, lid, sid};
    RehungOutside(b, d4, d, c, p, ch);
  }

  /** The slots of p, lid and sid after p adopts sid as its right child. */
  lemma {:induction false} AdoptSlots(b: Arena, d4: Arena, d: Arena, c: Ctx, p: int, lid: int, sid: int)
    requires Has(b, sid) && p != lid && p != sid && lid != sid && SameShape(b, d4)
    requires Has(d4, p) && d4.left[p] == lid && d4.parent[p] == Parent(c)
    requires Has(d4, lid) && d4.left[lid] == b.left[lid] && d4.right[lid] == b.right[lid] && d4.parent[lid] == p
    requires d4.left[sid] == b.left[sid] && d4.right[sid] == b.right[sid]
    requires d == SetParent(SetRight(d4, p, sid), sid, p)
    ensures Has(d, p) && d.left[p] == lid && d.right[p] == sid && d.parent[p] == Parent(c)
    ensures Has(d, lid) && d.left[lid] == b.left[lid] && d.right[lid] == b.right[lid] && d.parent[lid] == p
    ensures Has(d, sid) && d.left[sid] == b.left[sid] && d.right[sid] == b.right[sid] && d.parent[sid] == p
  {
  }

  /** Under a left-only path the leftmost node comes first, then the rest in order. */
  lemma {:induction false} MinSplit(c2: Ctx, fp: Tree)
    requires LeftPath(c2) && fp.Node? && fp.l.Leaf?
    ensures InOrder(Plug(c2, fp)) == [fp.id] + InOrder(Plug(c2, fp.r))
  {
    InOrderPlug(c2, fp);
    InOrderPlug(c2, fp.r);
    LeftPathPre(c2);
  }

  // ---------------------------------------------------------------------
  // The pointer edits of erase, on arena values
  // ---------------------------------------------------------------------

  /** a and b have the same keys and the same number of pointer slots. */
  predicate SameShape(a: Arena, b: Arena) {
    b.key == a.key && |b.left| == |a.left| && |b.right| == |a.right| && |b.parent| == |a.parent|
  }

  /** Points q's child slot, the left one when onLeft, at x. */
  function Hung(a: Arena, q: int, onLeft: bool, x: int): (b: Arena)
    ensures SameShape(a, b)
    ensures Has(a, q) ==> (if onLeft then b.left[q] == x else b.right[q] == x)
  {
    if onLeft then SetLeft(a, q, x) else SetRight(a, q, x)
  }

  /** Hangs x in q's child slot and, when x is a node, points its parent back at q. */
  function Spliced(a: Arena, q: int, onLeft: bool, x: int): (b: Arena)
    ensures SameShape(a, b)
    ensures Has(a, x) ==> b.parent[x] == q
  {
    var h := Hung(a, q, onLeft, x);
    if x != NIL then SetParent(h, x, q) else h
  }

  /**
   * Unlinks p from its parent's left slot, hanging p's right subtree there,
   * and clears p's right and parent pointers.
   */
  function Detached(a: Arena, p: int): (b: Arena)
    requires Has(a, p)
    ensures SameShape(a, b) && b.right[p] == NIL && b.parent[p] == NIL
  {
    SetParent(SetRight(Spliced(a, a.parent[p], true, a.right[p]), p, NIL), p, NIL)
  }

  /** Moves p into q's child slot, with parent q and left child l. */
  function Placed(a: Arena, p: int, q: int, onLeft: bool, l: int): (b: Arena)
    ensures SameShape(a, b)
    ensures Has(a, p) && Has(a, l) && l != p ==> b.parent[p] == q && b.left[p] == l && b.parent[l] == p
  {
    SetParent(SetLeft(SetParent(Hung(a, q, onLeft, p), p, q), p, l), l, p)
  }

  /**
   * The pointer edits of erasing node n whose in-order successor is p: a
   * node with a missing child is replaced by its other child; otherwise p
   * takes n's place, after being unlinked from its parent's left slot when
   * it is not n's right child.
   */
  function Erased(a: Arena, n: int, p: int): (b: Arena)
    requires Has(a, n) && Has(a, a.parent[n])
    requires a.left[n] != NIL && a.right[n] != NIL ==> Has(a, p) && Has(a, a.parent[p])
    ensures SameShape(a, b)
  {
    var q := a.parent[n];
    var onLeft := a.left[q] == n;
    var l, r := a.left[n], a.right[n];
    if l == NIL || r == NIL then
      Spliced(a, q, onLeft, if r == NIL then l else r)
    else if a.left[a.parent[p]] == p then
      SetParent(SetRight(Placed(Detached(a, p), p, q, onLeft, l), p, r), r, p)
    else
      Placed(a, p, q, onLeft, l)
  }

  /** Splicing the root of x into the slot at the bottom of c is lifting x there. */
  lemma {:induction false} SplicedLift(a: Arena, c: Ctx, x: Tree)
    requires x.Node? ==> x.id != NIL
    ensures Spliced(a, Parent(c), !c.InRight?, Root(x)) == Lift(a, c, x)
  {
  }

  /** Placing p at the bottom of c with left child l, as a chain of single edits. */
  lemma {:induction false} PlacedSlot(a: Arena, c: Ctx, p: int, l: int)
    ensures Placed(a, p, Parent(c), !c.InRight?, l) ==
      SetParent(SetLeft(SetParent(SetSlot(a, c, p), p, Parent(c)), p, l), l, p)
  {
  }

  /** Erasing a node with a missing child splices its other subtree into its slot. */
  lemma {:induction false} EraseOne(a: Arena, tr: Tree, c: Ctx, t: Tree, p: int)
    requires RootLinked(a, tr) && Unique(InOrder(tr)) && Plug(c, t) == tr && t.Node?
    requires t.l.Leaf? || t.r.Leaf?
    ensures Has(a, t.id) && Has(a, a.parent[t.id]) && (a.left[t.id] == NIL || a.right[t.id] == NIL)
    ensures RootLinked(Erased(a, t.id, p), Plug(c, if t.r.Leaf? then t.l else t.r))
  {
    var x := if t.r.Leaf? then t.l else t.r;
    Around(a, tr, c, t);
    assert Erased(a, t.id, p) == Lift(a, c, x) by {
      SplicedLift(a, c, x);
    }
    SpliceOut(a, c, t, x);
  }

  /**
   * Detaching the successor fp of node t, the leftmost node of t's right
   * subtree below its right child, leaves a tree without fp in which fp's
   * right subtree hangs where fp was.
   */
  lemma {:induction false} DetachSucc(a: Arena, tr: Tree, c: Ctx, t: Tree, c2: Ctx, fp: Tree)
    requires RootLinked(a, tr) && Unique(InOrder(tr)) && Plug(c, t) == tr
    requires t.Node? && t.r.Node?
    requires Plug(c2, fp) == t.r && !c2.Top? && LeftPath(c2) && fp.Node? && fp.l.Leaf?
    ensures Has(a, fp.id)
    ensures RootLinked(Detached(a, fp.id), Plug(c, Node(t.l, t.id, Plug(c2, fp.r))))
    ensures Unique(InOrder(Plug(c, Node(t.l, t.id, Plug(c2, fp.r)))))
    ensures fp.id != DUMMY && fp.id !in Ids(Plug(c, Node(t.l, t.id, Plug(c2, fp.r))))
    ensures Plug(c2, fp.r).Node? && Plug(c2, fp.r).id == t.r.id
  {
    var p, cp := fp.id, Compose(c2, InRight(t.l, t.id, c));
    Around(a, tr, cp, fp);
    var b := Detached(a, p);
    assert b == SetParent(SetRight(Lift(a, cp, fp.r), p, NIL), p, NIL) by {
      SplicedLift(a, cp, fp.r);
    }
    DetachMin(a, b, tr, c, t, c2, fp);
    PlugRoot(c2, fp);
    PlugRoot(c2, fp.r);
  }

  /** The detached successor p takes the place of node n, adopting both of its subtrees. */
  lemma {:induction false} PlaceMin(b: Arena, d: Arena, c: Ctx, l: Tree, n: int, s: Tree, p: int)
    requires RootLinked(b, Plug(c, Node(l, n, s))) && Unique(InOrder(Plug(c, Node(l, n, s))))
    requires l.Node? && s.Node? && Has(b, p) && p != DUMMY && p !in Ids(Plug(c, Node(l, n, s)))
    requires d == SetParent(SetRight(Placed(b, p, Parent(c), !c.InRight?, l.id), p, s.id), s.id, p)
    ensures RootLinked(d, Plug(c, Node(l, p, s)))
  {
    PlacedSlot(b, c, p, l.id);
    Transplant(b, d, c, l, n, s, p);
  }

  /** Every pointer the edits of erase read is in range. */
  lemma {:induction false} EraseInRange(a: Arena, tr: Tree, c: Ctx, t: Tree, p: int)
    requires RootLinked(a, tr) && Unique(InOrder(tr)) && Plug(c, t) == tr && t.Node?
    requires p == SuccOf(InOrder(tr), t.id)
    ensures Has(a, t.id) && t.id != NIL && Has(a, a.parent[t.id])
    ensures a.left[a.parent[t.id]] == t.id <==> !c.InRight?
    ensures a.left[t.id] == NIL || Has(a, a.left[t.id])
    ensures a.right[t.id] == NIL || Has(a, a.right[t.id])
    ensures a.left[t.id] != NIL && a.right[t.id] != NIL ==>
      Has(a, p) && Has(a, a.parent[p]) && (a.right[p] == NIL || Has(a, a.right[p]))
  {
    assert Has(a, t.id) && t.id != NIL && Has(a, a.parent[t.id]) && (a.left[a.parent[t.id]] == t.id <==> !c.InRight?) &&
      a.left[t.id] == Root(t.l) && a.right[t.id] == Root(t.r) &&
      (t.l.Node? ==> Has(a, t.l.id)) && (t.r.Node? ==> Has(a, t.r.id)) by {
      Around(a, tr, c, t);
    }
    if t.l.Node? && t.r.Node? {
      SuccInRange(a, tr, c, t, p);
    }
  }

  /** The successor of a node with two children, and its parent, are nodes of the arena. */
  lemma {:induction false} SuccInRange(a: Arena, tr: Tree, c: Ctx, t: Tree, p: int)
    requires RootLinked(a, tr) && Unique(InOrder(tr)) && Plug(c, t) == tr && t.Node? && t.r.Node?
    requires p == SuccOf(InOrder(tr), t.id)
    ensures Has(a, p) && Has(a, a.parent[p]) && (a.right[p] == NIL || Has(a, a.right[p]))
  {
    var lm := Leftmost(t.r, Top);
    var c2, fp := lm.0, lm.1;
    var cp := Compose(c2, InRight(t.l, t.id, c));
    assert p == fp.id && Plug(cp, fp) == tr by {
      SuccDown(tr, c, t);
      MinSplit(c2, fp);
    }
    Around(a, tr, cp, fp);
  }

  /**
   * Erasing a node with two children: its successor, the leftmost node of
   * its right subtree, takes its place.
   */
  lemma {:induction false} EraseTwo(a: Arena, tr: Tree, c: Ctx, t: Tree, p: int) returns (t2: Tree)
    requires RootLinked(a, tr) && Unique(InOrder(tr)) && Plug(c, t) == tr && t.Node?
    requires t.l.Node? && t.r.Node? && p == SuccOf(InOrder(tr), t.id)
    requires Has(a, t.id) && Has(a, a.parent[t.id]) && Has(a, p) && Has(a, a.parent[p])
    requires a.left[t.id] == t.l.id && a.right[t.id] == t.r.id && a.parent[t.id] == Parent(c)
    requires t.l.id != NIL && t.r.id != NIL && (a.left[Parent(c)] == t.id <==> !c.InRight?)
    ensures RootLinked(Erased(a, t.id, p), Plug(c, t2))
    ensures InOrder(t2) == InOrder(t.l) + InOrder(t.r)
  {
    var c2, fp := SuccSlot(a, tr, c, t, p);
    if a.left[a.parent[p]] == p {
      t2 := EraseDeep(a, tr, c, t, c2, fp);
    } else {
      t2 := Node(t.l, p, t.r.r);
      EraseNext(a, tr, c, t);
      assert InOrder(t.r) == [p] + InOrder(t.r.r);
      RegroupMiddle(InOrder(t.l), p, InOrder(t.r.r));
    }
  }

  /** The successor of a node with two children is the leftmost node of its right subtree, hung on a left slot unless it is that subtree's root. */
  lemma {:induction false} SuccSlot(a: Arena, tr: Tree, c: Ctx, t: Tree, p: int) returns (c2: Ctx, fp: Tree)
    requires RootLinked(a, tr) && Unique(InOrder(tr)) && Plug(c, t) == tr && t.Node?
    requires t.r.Node? && p == SuccOf(InOrder(tr), t.id) && Has(a, p) && Has(a, a.parent[p])
    ensures Plug(c2, fp) == t.r && LeftPath(c2) && fp.Node? && fp.l.Leaf? && p == fp.id
    ensures c2.Top? ==> t.r == fp
    ensures a.left[a.parent[p]] == p <==> !c2.Top?
  {
    var lm := Leftmost(t.r, Top);
    c2, fp := lm.0, lm.1;
    var cp := Compose(c2, InRight(t.l, t.id, c));
    assert p == fp.id && Plug(cp, fp) == tr by {
      SuccDown(tr, c, t);
      MinSplit(c2, fp);
    }
    Around(a, tr, cp, fp);
  }

  /** A node's first in-order element is that of its non-empty left subtree. */
  lemma {:induction false} FirstOfNode(l: Tree, id: int, r: Tree)
    requires l.Node?
    ensures InOrder(l) != [] && InOrder(Node(l, id, r))[0] == InOrder(l)[0]
  {
    assert InOrder(l) == InOrder(l.l) + [l.id] + InOrder(l.r);
  }

  /** A node's last in-order element is that of its non-empty right subtree. */
  lemma {:induction false} LastOfNode(l: Tree, id: int, r: Tree)
    requires r.Node?
    ensures var s, q := InOrder(Node(l, id, r)), InOrder(r); q != [] && s[|s| - 1] == q[|q| - 1]
  {
    assert InOrder(r) == InOrder(r.l) + [r.id] + InOrder(r.r);
  }

  /** Erasing a node whose successor is its right child: the child moves up. */
  lemma {:induction false} EraseNext(a: Arena, tr: Tree, c: Ctx, t: Tree)
    requires RootLinked(a, tr) && Unique(InOrder(tr)) && Plug(c, t) == tr && t.Node?
    requires t.l.Node? && t.r.Node? && t.r.l.Leaf?
    requires Has(a, t.id) && Has(a, a.parent[t.id]) && Has(a, t.r.id) && Has(a, a.parent[t.r.id])
    requires a.left[t.id] == t.l.id && a.right[t.id] == t.r.id && a.parent[t.id] == Parent(c)
    requires t.l.id != NIL && t.r.id != NIL && (a.left[Parent(c)] == t.id <==> !c.InRight?)
    requires a.left[a.parent[t.r.id]] != t.r.id
    ensures RootLinked(Erased(a, t.id, t.r.id), Plug(c, Node(t.l, t.r.id, t.r.r)))
  {
    assert Erased(a, t.id, t.r.id) == Placed(a, t.r.id, Parent(c), !c.InRight?, t.l.id);
    PlacedSlot(a, c, t.r.id, t.l.id);
    EraseDirect(a, Erased(a, t.id, t.r.id), tr, c, t);
  }

  /**
   * Erasing a node whose successor fp lies below its right child: fp is
   * detached, then takes the node's place with both of its subtrees.
   */
  lemma {:induction false} EraseDeep(a: Arena, tr: Tree, c: Ctx, t: Tree, c2: Ctx, fp: Tree) returns (t2: Tree)
    requires RootLinked(a, tr) && Unique(InOrder(tr)) && Plug(c, t) == tr && t.Node?
    requires t.l.Node? && t.r.Node?
    requires Plug(c2, fp) == t.r && !c2.Top? && LeftPath(c2) && fp.Node? && fp.l.Leaf?
    requires Has(a, t.id) && Has(a, a.parent[t.id]) && Has(a, fp.id) && Has(a, a.parent[fp.id])
    requires a.left[t.id] == t.l.id && a.right[t.id] == t.r.id && a.parent[t.id] == Parent(c)
    requires t.l.id != NIL && t.r.id != NIL && (a.left[Parent(c)] == t.id <==> !c.InRight?)
    requires a.left[a.parent[fp.id]] == fp.id
    ensures RootLinked(Erased(a, t.id, fp.id), Plug(c, t2))
    ensures InOrder(t2) == InOrder(t.l) + InOrder(t.r)
  {
    var p := fp.id;
    t2 := Node(t.l, p, Plug(c2, fp.r));
    DetachSucc(a, tr, c, t, c2, fp);
    ErasedDeep(a, t.id, p, Parent(c), !c.InRight?);
    PlaceMin(Detached(a, p), Erased(a, t.id, p), c, t.l, t.id, Plug(c2, fp.r), p);
    DeepOrder(t, c2, fp);
  }

  /** Erasing n whose successor p sits deeper in the right subtree: detach p, place it, adopt n's right child. */
  lemma {:induction false} ErasedDeep(a: Arena, n: int, p: int, q: int, onLeft: bool)
    requires Has(a, n) && Has(a, a.parent[n]) && Has(a, p) && Has(a, a.parent[p])
    requires a.left[n] != NIL && a.right[n] != NIL && a.parent[n] == q && (a.left[q] == n <==> onLeft)
    requires a.left[a.parent[p]] == p
    ensures Erased(a, n, p) == SetParent(SetRight(Placed(Detached(a, p), p, q, onLeft, a.left[n]), p, a.right[n]), a.right[n], p)
  {
  }

  /** The in-order sequence after the successor fp moves up to the erased node's place. */
  lemma {:induction false} DeepOrder(t: Tree, c2: Ctx, fp: Tree)
    requires t.Node? && Plug(c2, fp) == t.r && LeftPath(c2) && fp.Node? && fp.l.Leaf?
    ensures InOrder(Node(t.l, fp.id, Plug(c2, fp.r))) == InOrder(t.l) + InOrder(t.r)
  {
    MinSplit(c2, fp);
    RegroupMiddle(InOrder(t.l), fp.id, InOrder(Plug(c2, fp.r)));
  }

  lemma {:induction false} RegroupMiddle(p: seq<int>, x: int, q: seq<int>)
    ensures p + [x] + q == p + ([x] + q)
  {
  }

  /**
   * The arena after erase still realises a tree whose in-order sequence is
   * the old one without the erased node.
   */
  lemma {:induction false} EraseLinks(a: Arena, tr: Tree, c: Ctx, t: Tree, p: int) returns (t2: Tree)
    requires RootLinked(a, tr) && Unique(InOrder(tr)) && Plug(c, t) == tr && t.Node?
    requires p == SuccOf(InOrder(tr), t.id)
    requires Has(a, t.id) && Has(a, a.parent[t.id])
    requires a.left[t.id] != NIL && a.right[t.id] != NIL ==> Has(a, p) && Has(a, a.parent[p])
    ensures RootLinked(Erased(a, t.id, p), Plug(c, t2))
    ensures InOrder(t2) == InOrder(t.l) + InOrder(t.r)
  {
    if t.l.Leaf? || t.r.Leaf? {
      t2 := if t.r.Leaf? then t.l else t.r;
      EraseOne(a, tr, c, t, p);
      assert InOrder(t.l) == [] || InOrder(t.r) == [];
    } else {
      assert a.left[t.id] == t.l.id && a.right[t.id] == t.r.id && t.l.id != NIL && t.r.id != NIL &&
        a.parent[t.id] == Parent(c) && (a.left[Parent(c)] == t.id <==> !c.InRight?) by {
        Around(a, tr, c, t);
      }
      t2 := EraseTwo(a, tr, c, t, p);
    }
  }

  class TreeSet {
    var key: seq<int>
    var left: seq<int>
    var right: seq<int>
    var parent: seq<int>
    /** The nodes reachable from the sentinel, as a tree. */
    ghost var tree: Tree

    function Heap(): Arena
      reads this
    {
      Arena(key, left, right, parent)
    }

    ghost predicate Valid()
      reads this
    {
      Shaped(Heap()) && RootLinked(Heap(), tree) && Ordered(Heap(), tree)
    }

    /** The element nodes in iteration order. */
    ghost function Ids(): seq<int>
      reads this
    {
      InOrder(tree)
    }

    /** The elements in iteration order. */
    ghost function Keys(): seq<int>
      reads this
    {
      KeysOf(Heap(), InOrder(tree))
    }

    /** An empty set: the sentinel alone. */
    constructor ()
      ensures Valid() && Keys() == []
    {
      key, left, right, parent := [0], [NIL], [NIL], [NIL];
      tree := Leaf;
    }

    function IsEmpty(): (r: bool)
      reads this
      requires Valid()
      ensures r <==> Keys() == []
    {
      left[DUMMY] == NIL
    }

    /** Drops every element; the sentinel forgets the root. */
    method Clear()
      requires Valid()
      modifies this
      ensures Valid() && Keys() == []
    {
      left := left[DUMMY := NIL];
      tree := Leaf;
    }

    /** The past-the-end iterator is the sentinel, which holds no element. */
    function End(): (r: int)
      reads this
      requires Valid()
      ensures r !in Ids()
    {
      LinkedIds(Heap(), left[DUMMY], tree, DUMMY);
      DUMMY
    }

    /** The element an iterator refers to. */
    function Value(x: int): (v: int)
      reads this
      requires Valid() && x in Ids()
      ensures v == Keys()[IndexOf(Ids(), x)]
    {
      LinkedIds(Heap(), left[DUMMY], tree, DUMMY);
      key[x]
    }

    /** The leftmost node, reached from the sentinel; the sentinel itself when empty. */
    method Begin() returns (r: int)
      requires Valid()
      ensures r == if Ids() == [] then DUMMY else Ids()[0]
    {
      ghost var a := Heap();
      r := DUMMY;
      ghost var s := tree;
      while left[r] != NIL
        invariant Has(a, r) && Linked(a, a.left[r], s, r)
        invariant InOrder(s) == [] ==> (r == DUMMY && Ids() == []) || (r != DUMMY && Ids() != [] && Ids()[0] == r)
        invariant InOrder(s) != [] ==> Ids() != [] && InOrder(s)[0] == Ids()[0]
        decreases s
      {
        r := left[r];
        s := s.l;
      }
    }

    /** ++: the in-order successor, the sentinel after the last element; end() and NIL stay put. */
    method Next(x: int) returns (y: int)
      requires Valid() && (x == NIL || x == DUMMY || x in Ids())
      ensures y == if x == NIL then NIL else SuccOf(Ids(), x)
    {
      if x == NIL {
        return NIL;
      }
      LinkedIds(Heap(), left[DUMMY], tree, DUMMY);
      if right[x] != NIL {
        y := NextDown(x);
      } else {
        y := NextUp(x);
      }
    }

    /** ++ from a node with a right subtree: the leftmost node of that subtree. */
    method NextDown(x: int) returns (y: int)
      requires Valid() && (x == DUMMY || x in Ids()) && Has(Heap(), x) && right[x] != NIL
      ensures y == SuccOf(Ids(), x)
    {
      ghost var a := Heap();
      AscendingKeysUnique(a, Ids());
      LinkedIds(a, left[DUMMY], tree, DUMMY);
      ghost var ct := Focus(tree, x, Top);
      Around(a, tree, ct.0, ct.1);
      SuccDown(tree, ct.0, ct.1);
      y := right[x];
      ghost var s, q := ct.1.r, x;
      while left[y] != NIL
        invariant s.Node? && Linked(a, y, s, q) && InOrder(s)[0] == InOrder(ct.1.r)[0]
        decreases s
      {
        q, y, s := y, left[y], s.l;
      }
    }

    /** ++ from a node without a right subtree: climbs while it comes from a right child, then one step more. */
    method NextUp(x: int) returns (y: int)
      requires Valid() && (x == DUMMY || x in Ids()) && Has(Heap(), x) && right[x] == NIL
      ensures y == SuccOf(Ids(), x)
    {
      ghost var a := Heap();
      AscendingKeysUnique(a, Ids());
      LinkedIds(a, left[DUMMY], tree, DUMMY);
      ghost var c, s := Top, tree;
      if x != DUMMY {
        ghost var ct := Focus(tree, x, Top);
        c, s := ct.0, ct.1;
        Around(a, tree, c, s);
      }
      y := x;
      while parent[y] != NIL && right[parent[y]] == y
        invariant x == DUMMY ==> y == DUMMY
        invariant x != DUMMY ==>
          Plug(c, s) == tree && s.Node? && s.id == y && InOrder(s)[|InOrder(s)| - 1] == x
        invariant x != DUMMY ==> Has(a, y) && a.parent[y] == Parent(c) && Has(a, Parent(c))
        invariant x != DUMMY ==> (a.right[Parent(c)] == y) == c.InRight?
        decreases Depth(c)
      {
        LastOfNode(c.sib, c.id, s);
        c, s := c.up, Node(c.sib, c.id, s);
        y := parent[y];
        Around(a, tree, c, s);
      }
      if x != DUMMY {
        SuccAbove(tree, c, s);
      }
      if parent[y] != NIL {
        y := parent[y];
      }
    }

    /** --: the in-order predecessor, the sentinel before the first element, the last element from end(). */
    method Prev(x: int) returns (y: int)
      requires Valid() && (x == NIL || x == DUMMY || x in Ids())
      ensures y == if x == NIL then NIL else PredOf(Ids(), x)
    {
      if x == NIL {
        return NIL;
      }
      LinkedIds(Heap(), left[DUMMY], tree, DUMMY);
      if left[x] != NIL {
        y := PrevDown(x);
      } else {
        y := PrevUp(x);
      }
    }

    /** -- from a node with a left subtree (end() included): the rightmost node of that subtree. */
    method PrevDown(x: int) returns (y: int)
      requires Valid() && (x == DUMMY || x in Ids()) && Has(Heap(), x) && left[x] != NIL
      ensures y == PredOf(Ids(), x)
    {
      ghost var a := Heap();
      AscendingKeysUnique(a, Ids());
      LinkedIds(a, left[DUMMY], tree, DUMMY);
      ghost var s0, q := tree, DUMMY;
      if x != DUMMY {
        ghost var ct := Focus(tree, x, Top);
        Around(a, tree, ct.0, ct.1);
        PredDown(tree, ct.0, ct.1);
        s0, q := ct.1.l, x;
      }
      y := left[x];
      ghost var s := s0;
      while right[y] != NIL
        invariant s.Node? && Linked(a, y, s, q)
        invariant InOrder(s)[|InOrder(s)| - 1] == InOrder(s0)[|InOrder(s0)| - 1]
        decreases s
      {
        q, y, s := y, right[y], s.r;
      }
    }

    /** -- from a node without a left subtree: climbs while it comes from a left child, then one step more. */
    method PrevUp(x: int) returns (y: int)
      requires Valid() && (x == DUMMY || x in Ids()) && Has(Heap(), x) && left[x] == NIL
      ensures y == PredOf(Ids(), x)
    {
      ghost var a := Heap();
      AscendingKeysUnique(a, Ids());
      LinkedIds(a, left[DUMMY], tree, DUMMY);
      ghost var c, s := Top, tree;
      if x != DUMMY {
        ghost var ct := Focus(tree, x, Top);
        c, s := ct.0, ct.1;
        Around(a, tree, c, s);
      }
      y := x;
      while parent[y] != NIL && left[parent[y]] == y
        invariant x == DUMMY ==> y == DUMMY
        invariant y == DUMMY ==> a.parent[y] == NIL
        invariant x != DUMMY && y != DUMMY ==>
          Plug(c, s) == tree && s.Node? && s.id == y && InOrder(s)[0] == x
        invariant x != DUMMY && y != DUMMY ==> Has(a, y) && a.parent[y] == Parent(c) && Has(a, Parent(c))
        invariant x != DUMMY && y != DUMMY ==> (a.left[Parent(c)] == y) == !c.InRight?
        invariant x != DUMMY && y != DUMMY ==> (Parent(c) == DUMMY) == c.Top?
        invariant x != DUMMY && y == DUMMY ==> PredOf(Ids(), x) == DUMMY
        decreases if y == DUMMY then 0 else 1 + Depth(c)
      {
        if c.Top? {
          PredAbove(tree, c, s);
        } else {
          FirstOfNode(s, c.id, c.sib);
          c, s := c.up, Node(s, c.id, c.sib);
        }
        y := parent[y];
        if y != DUMMY {
          Around(a, tree, c, s);
        }
      }
      if x != DUMMY && y != DUMMY {
        PredAbove(tree, c, s);
      }
      if parent[y] != NIL {
        y := parent[y];
      }
    }

    /**
     * Inserts v unless present: descends from the root comparing keys and
     * hangs a new node in the empty slot it reaches.  Returns the node
     * holding v and whether it was added.
     */
    method Insert(v: int) returns (it: int, inserted: bool)
      requires Valid()
      modifies this
      ensures Valid()
      ensures Keys() == InsertSorted(old(Keys()), v)
      ensures inserted <==> v !in old(Keys())
      ensures it in Ids() && KeyOf(Heap(), it) == v
      ensures !inserted ==> Heap() == old(Heap()) && tree == old(tree)
    {
      ghost var a := Heap();
      var t := left[DUMMY];
      if t == NIL {
        it := AddLeaf(v, DUMMY, false, Top);
        return it, true;
      }
      AscendingKeysUnique(a, Ids());
      ghost var c, s := Top, tree;
      while true
        invariant Heap() == a && tree == old(tree)
        invariant Plug(c, s) == tree && s.Node? && s.id == t
        invariant Below(KeysOf(a, Pre(c)), v) && Above(KeysOf(a, Post(c)), v)
        decreases s
      {
        Around(a, tree, c, s);
        Descend(a, tree, c, s, v);
        if key[t] == v {
          LowerBoundSplits(Keys(), v);
          return t, false;
        }
        if v < key[t] {
          if left[t] == NIL {
            it := AddLeaf(v, t, false, InLeft(c, t, s.r));
            return it, true;
          }
          c, s := InLeft(c, t, s.r), s.l;
          t := left[t];
        } else {
          if right[t] == NIL {
            it := AddLeaf(v, t, true, InRight(s.l, t, c));
            return it, true;
          }
          c, s := InRight(s.l, t, c), s.r;
          t := right[t];
        }
      }
    }

    /** Hangs a fresh node holding v in the empty slot at the bottom of c, between the keys below v and the keys above it. */
    method AddLeaf(v: int, p: int, onRight: bool, ghost c: Ctx) returns (it: int)
      requires Valid() && Plug(c, Leaf) == tree && p == Parent(c) && onRight == c.InRight? && 0 <= p < |key|
      requires Below(KeysOf(Heap(), Pre(c)), v) && Above(KeysOf(Heap(), Post(c)), v)
      modifies this
      ensures Valid() && v !in old(Keys()) && Keys() == InsertSorted(old(Keys()), v)
      ensures it in Ids() && KeyOf(Heap(), it) == v
    {
      ghost var a := Heap();
      it := |key|;
      key, left, right, parent := key + [v], left + [NIL], right + [NIL], parent + [p];
      if onRight {
        right := right[p := it];
      } else {
        left := left[p := it];
      }
      assert Heap() == SetSlot(AddNode(a, v, p), c, it);
      InsertStep(a, tree, c, v);
      tree := Plug(c, Node(Leaf, it, Leaf));
    }

    /** The node at position k of the iteration, or the sentinel past the end. */
    ghost function At(k: nat): int
      reads this
    {
      if k < |Ids()| then Ids()[k] else DUMMY
    }

    /** Walks from begin() with ++ to the first element not below v. */
    method LowerBound(v: int) returns (r: int)
      requires Valid()
      ensures r == At(LowerBoundIndex(Keys(), v))
    {
      ghost var ids, ks := Ids(), Keys();
      assert Unique(ids) && forall i | i in ids :: i != DUMMY && Has(Heap(), i) by {
        AscendingKeysUnique(Heap(), ids);
        LinkedIds(Heap(), left[DUMMY], tree, DUMMY);
      }
      r := Begin();
      ghost var k := 0;
      while r != DUMMY
        invariant k <= |ids| && r == (if k < |ids| then ids[k] else DUMMY)
        invariant forall i | 0 <= i < k :: ks[i] < v
        decreases |ids| - k
      {
        assert ids[k] in ids && key[r] == ks[k];
        if key[r] >= v {
          LowerBoundAt(ks, v, k);
          return;
        }
        SuccAt(ids, k);
        r := Next(r);
        k := k + 1;
      }
      LowerBoundAt(ks, v, k);
    }

    /** The first element strictly above v: the lower bound, stepped past an element equal to v. */
    method UpperBound(v: int) returns (r: int)
      requires Valid()
      ensures r == At(UpperBoundIndex(Keys(), v))
    {
      AscendingKeysUnique(Heap(), Ids());
      LinkedIds(Heap(), left[DUMMY], tree, DUMMY);
      UpperFromLower(Keys(), v);
      r := LowerBound(v);
      assert r != DUMMY ==> Ids()[LowerBoundIndex(Keys(), v)] in Ids();
      if r != DUMMY && key[r] == v {
        IndexOfUnique(Ids(), LowerBoundIndex(Keys(), v));
        r := Next(r);
      }
    }

    /** The node holding v, or end() when v is absent. */
    method Find(v: int) returns (r: int)
      requires Valid()
      ensures v in Keys() ==> r in Ids() && Value(r) == v
      ensures v !in Keys() ==> r == DUMMY
    {
      AscendingKeysUnique(Heap(), Ids());
      LinkedIds(Heap(), left[DUMMY], tree, DUMMY);
      LowerBoundSplits(Keys(), v);
      if IsEmpty() {
        return DUMMY;
      }
      r := LowerBound(v);
      assert r != DUMMY ==> Ids()[LowerBoundIndex(Keys(), v)] in Ids();
      if !(r != DUMMY && key[r] == v) {
        r := DUMMY;
      } else {
        IndexOfUnique(Ids(), LowerBoundIndex(Keys(), v));
      }
    }

    /**
     * Copies the subtree of src rooted at x into fresh nodes appended to
     * this arena, the copy's root pointing up to p; existing nodes are
     * left alone.
     */
    method CopyTree(src: Arena, x: int, ghost st: Tree, ghost sp: int, p: int) returns (n: int, ghost nt: Tree)
      requires Linked(src, x, st, sp) && st.Node?
      requires Shaped(Heap()) && 0 <= p < |key|
      modifies this
      ensures Shaped(Heap()) && Grown(old(Heap()), Heap()) && tree == old(tree)
      ensures nt.Node? && CopyOf(Heap(), n, nt, p, src, st, old(|key|))
      decreases st, 0
    {
      ghost var a0 := Heap();
      n := |key|;
      key, left, right, parent := key + [src.key[x]], left + [NIL], right + [NIL], parent + [p];
      GrownAdd(a0, src.key[x], p);
      ghost var a1 := Heap();
      var l, r;
      ghost var lt, rt;
      l, lt := CopyChild(src, src.left[x], st.l, x, n);
      GrownTrans(a0, a1, Heap());
      HangLeftCopy(a0, Heap(), n, l, lt, src, st.l);
      left := left[n := l];
      ghost var a2 := Heap();
      r, rt := CopyChild(src, src.right[x], st.r, x, n);
      HangRightCopy(a0, a2, Heap(), n, lt, r, rt, p, src, st);
      right := right[n := r];
      nt := Node(lt, n, rt);
    }

    /** A child of the node being copied: copied when present, NIL otherwise. */
    method CopyChild(src: Arena, y: int, ghost t: Tree, ghost sp: int, p: int) returns (z: int, ghost zt: Tree)
      requires Linked(src, y, t, sp)
      requires Shaped(Heap()) && 0 <= p < |key|
      modifies this
      ensures Shaped(Heap()) && Grown(old(Heap()), Heap()) && tree == old(tree)
      ensures CopyOf(Heap(), z, zt, p, src, t, old(|key|))
      decreases t, 1
    {
      if y == NIL {
        return NIL, Leaf;
      }
      z, zt := CopyTree(src, y, t, sp, p);
    }

    /** A set holding the same elements as other, in freshly allocated nodes. */
    constructor Copy(other: TreeSet)
      requires other.Valid()
      ensures Valid() && Keys() == other.Keys() && Congruent(tree, other.tree)
    {
      key, left, right, parent := [0], [NIL], [NIL], [NIL];
      tree := Leaf;
      new;
      if other.left[DUMMY] != NIL {
        var n;
        ghost var nt;
        n, nt := CopyTree(other.Heap(), other.left[DUMMY], other.tree, DUMMY, DUMMY);
        CopyKept(Heap(), DUMMY, n, false, n, nt, DUMMY, other.Heap(), other.tree, 1);
        left := left[DUMMY := n];
        tree := nt;
      }
    }

    /**
     * Exchanges the contents of two sets.  Each set owns its arena, whose
     * root points up to that arena's own sentinel, so exchanging the
     * arenas is exchanging the sentinels and re-pointing the roots.
     */
    static method Swap(a: TreeSet, b: TreeSet)
      requires a.Valid() && b.Valid()
      modifies a, b
      ensures a.Valid() && b.Valid()
      ensures a.Keys() == old(b.Keys()) && b.Keys() == old(a.Keys())
    {
      var k, l, r, p := a.key, a.left, a.right, a.parent;
      ghost var t := a.tree;
      a.key, a.left, a.right, a.parent, a.tree := b.key, b.left, b.right, b.parent, b.tree;
      b.key, b.left, b.right, b.parent, b.tree := k, l, r, p, t;
    }

    /** Assignment: copy the source, then swap the copy in. */
    method Assign(other: TreeSet)
      requires Valid() && other.Valid()
      modifies this
      ensures Valid() && Keys() == old(other.Keys())
    {
      var tmp := new TreeSet.Copy(other);
      Swap(this, tmp);
    }

    /** Hangs x in q's child slot, pointing x back at q when it is a node. */
    method Splice(q: int, onLeft: bool, x: int)
      requires Shaped(Heap()) && 0 <= q < |key| && (x == NIL || 0 <= x < |key|)
      modifies this
      ensures Heap() == Spliced(old(Heap()), q, onLeft, x)
    {
      if onLeft {
        left := left[q := x];
      } else {
        right := right[q := x];
      }
      if x != NIL {
        parent := parent[x := q];
      }
    }

    /** Unlinks p from its parent's left slot, hanging p's right subtree there. */
    method Detach(p: int)
      requires Shaped(Heap()) && 0 <= p < |key| && 0 <= parent[p] < |key|
      requires right[p] == NIL || 0 <= right[p] < |key|
      modifies this
      ensures Heap() == Detached(old(Heap()), p)
    {
      var pp := parent[p];
      left := left[pp := right[p]];
      if right[p] != NIL {
        parent := parent[right[p] := pp];
      }
      right := right[p := NIL];
      parent := parent[p := NIL];
    }

    /** Moves p into q's child slot, with parent q and left subtree l. */
    method Place(p: int, q: int, onLeft: bool, l: int)
      requires Shaped(Heap()) && 0 <= p < |key| && 0 <= q < |key| && 0 <= l < |key|
      modifies this
      ensures Heap() == Placed(old(Heap()), p, q, onLeft, l)
    {
      if onLeft {
        left := left[q := p];
      } else {
        right := right[q := p];
      }
      parent := parent[p := q];
      left := left[p := l];
      parent := parent[l := p];
    }

    /** Makes x the right child of p. */
    method AdoptRight(p: int, x: int)
      requires Shaped(Heap()) && 0 <= p < |key| && 0 <= x < |key|
      modifies this
      ensures Heap() == SetParent(SetRight(old(Heap()), p, x), x, p)
    {
      right := right[p := x];
      parent := parent[x := p];
    }

    /**
     * The pointer edits of erase: n's parent slot takes n's only child, or
     * n's in-order successor p moves into n's place (unlinked first from its
     * own parent when it is not n's right child).
     */
    method Unlink(n: int, p: int)
      requires Shaped(Heap()) && Has(Heap(), n) && Has(Heap(), parent[n])
      requires left[n] == NIL || Has(Heap(), left[n])
      requires right[n] == NIL || Has(Heap(), right[n])
      requires left[n] != NIL && right[n] != NIL ==>
        Has(Heap(), p) && Has(Heap(), parent[p]) && (right[p] == NIL || Has(Heap(), right[p]))
      modifies this
      ensures Heap() == Erased(old(Heap()), n, p)
    {
      ghost var a := Heap();
      var pn := parent[n];
      var onLeft := left[pn] == n;
      var ln, rn := left[n], right[n];
      if ln == NIL || rn == NIL {
        Splice(pn, onLeft, if rn == NIL then ln else rn);
      } else if left[parent[p]] == p {
        Detach(p);
        Place(p, pn, onLeft, ln);
        AdoptRight(p, rn);
        assert Heap() == Erased(a, n, p);
      } else {
        Place(p, pn, onLeft, ln);
      }
    }

    /**
     * Unlinks the node pos and returns the iterator to its successor.  A
     * node with at most one child is replaced by that child; otherwise its
     * successor p, the leftmost node of its right subtree, takes its place:
     * directly when p is its right child, and after being unlinked from its
     * own parent when p lies deeper.  The unlinked node stays in the arena,
     * unreachable.
     */
    method Erase(pos: int) returns (r: int)
      requires Valid() && pos in Ids()
      modifies this
      ensures Valid() && key == old(key)
      ensures Ids() == RemoveAt(old(Ids()), IndexOf(old(Ids()), pos))
      ensures Keys() == RemoveAt(old(Keys()), IndexOf(old(Ids()), pos))
      ensures r == old(SuccOf(Ids(), pos)) && r == At(IndexOf(old(Ids()), pos))
    {
      ghost var a, tr := Heap(), tree;
      assert Unique(InOrder(tr)) by {
        AscendingKeysUnique(a, Ids());
      }
      r := Next(pos);
      var n := pos;
      ghost var ct := Focus(tree, n, Top);
      ghost var c, t := ct.0, ct.1;
      assert n != NIL by {
        LinkedIds(a, a.left[DUMMY], tr, DUMMY);
      }
      EraseInRange(a, tr, c, t, r);
      ghost var t2 := EraseLinks(a, tr, c, t, r);
      Unlink(n, r);
      tree := Plug(c, t2);
      ghost var k := EraseOrder(a, Heap(), tr, c, t, t2);
    }
  }
}
