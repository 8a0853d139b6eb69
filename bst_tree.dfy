/**
 * The node structure of the ordered set of set.h, as an arena: node i has
 * key[i], left[i], right[i] and parent[i], where a pointer is an index and
 * NIL is the null pointer.  Index 0 is the sentinel `dummy` whose left child
 * is the root.
 *
 * A ghost Tree names the nodes reachable from the sentinel, and Linked says
 * that the arena's pointers realise exactly that tree with correct parent
 * links.  A zipper context (Ctx) describes the path from the root down to a
 * subtree; the lemmas below let a proof replace the subtree under a context
 * and re-establish the links from local facts.
 */
module BstTree {
  import opened SortedSeq

  /** The null pointer. */
  const NIL: int := -1
  /** The index of the sentinel node `dummy`, which end() refers to. */
  const DUMMY: int := 0

  datatype Tree = Leaf | Node(l: Tree, id: int, r: Tree)

  /** A path from a subtree up to the root: which side it hangs on, its parent and the sibling subtree. */
  datatype Ctx = Top | InLeft(up: Ctx, id: int, sib: Tree) | InRight(sib: Tree, id: int, up: Ctx)

  datatype Arena = Arena(key: seq<int>, left: seq<int>, right: seq<int>, parent: seq<int>)

  function Root(t: Tree): int {
    if t.Leaf? then NIL else t.id
  }

  /** The node indices of t in in-order (ascending key) order. */
  function InOrder(t: Tree): seq<int> {
    match t
    case Leaf => []
    case Node(l, id, r) => InOrder(l) + [id] + InOrder(r)
  }

  function Ids(t: Tree): set<int> {
    match t
    case Leaf => {}
    case Node(l, id, r) => Ids(l) + {id} + Ids(r)
  }

  /** t and u have the same shape: a node wherever the other has one, whatever the ids. */
  predicate Congruent(t: Tree, u: Tree) {
    match t
    case Leaf => u.Leaf?
    case Node(l, _, r) => u.Node? && Congruent(l, u.l) && Congruent(r, u.r)
  }

  lemma {:induction false} IdsInOrder(t: Tree)
    ensures forall x :: x in Ids(t) <==> x in InOrder(t)
    decreases t
  {
    match t
    case Leaf =>
    case Node(l, _, r) =>
      IdsInOrder(l);
      IdsInOrder(r);
  }

  function Plug(c: Ctx, s: Tree): Tree {
    match c
    case Top => s
    case InLeft(up, id, sib) => Plug(up, Node(s, id, sib))
    case InRight(sib, id, up) => Plug(up, Node(sib, id, s))
  }

  /** The nodes that precede any node of the plugged subtree in in-order. */
  function Pre(c: Ctx): seq<int> {
    match c
    case Top => []
    case InLeft(up, _, _) => Pre(up)
    case InRight(sib, id, up) => Pre(up) + InOrder(sib) + [id]
  }

  /** The nodes that follow every node of the plugged subtree in in-order. */
  function Post(c: Ctx): seq<int> {
    match c
    case Top => []
    case InLeft(up, id, sib) => [id] + InOrder(sib) + Post(up)
    case InRight(_, _, up) => Post(up)
  }

  function CtxIds(c: Ctx): set<int> {
    match c
    case Top => {}
    case InLeft(up, id, sib) => CtxIds(up) + {id} + Ids(sib)
    case InRight(sib, id, up) => CtxIds(up) + {id} + Ids(sib)
  }

  /** The node a subtree plugged into c hangs from: the sentinel at the top. */
  function Parent(c: Ctx): int {
    match c
    case Top => DUMMY
    case InLeft(_, id, _) => id
    case InRight(_, id, _) => id
  }

  function Depth(c: Ctx): nat {
    match c
    case Top => 0
    case InLeft(up, _, _) => 1 + Depth(up)
    case InRight(_, _, up) => 1 + Depth(up)
  }

  /** c2 followed by c: plugging into the result plugs into c2 and then into c. */
  function Compose(c2: Ctx, c: Ctx): (r: Ctx)
    ensures forall s :: Plug(r, s) == Plug(c, Plug(c2, s))
  {
    match c2
    case Top => c
    case InLeft(up, id, sib) => InLeft(Compose(up, c), id, sib)
    case InRight(sib, id, up) => InRight(sib, id, Compose(up, c))
  }

  lemma {:induction false} InOrderPlug(c: Ctx, s: Tree)
    ensures InOrder(Plug(c, s)) == Pre(c) + InOrder(s) + Post(c)
    decreases c
  {
    match c
    case Top =>
    case InLeft(up, id, sib) =>
      InOrderPlug(up, Node(s, id, sib));
      RegroupLeft(Pre(up), InOrder(s), id, InOrder(sib), Post(up));
    case InRight(sib, id, up) =>
      InOrderPlug(up, Node(sib, id, s));
      RegroupRight(Pre(up), InOrder(sib), id, InOrder(s), Post(up));
  }

  lemma {:induction false} RegroupLeft(p: seq<int>, l: seq<int>, x: int, r: seq<int>, q: seq<int>)
    ensures p + (l + [x] + r) + q == p + l + ([x] + r + q)
  {
  }

  lemma {:induction false} RegroupRight(p: seq<int>, l: seq<int>, x: int, r: seq<int>, q: seq<int>)
    ensures p + (l + [x] + r) + q == (p + l + [x]) + r + q
  {
  }

  lemma {:induction false} CtxIdsPrePost(c: Ctx)
    ensures forall x :: x in CtxIds(c) <==> x in Pre(c) || x in Post(c)
    decreases c
  {
    match c
    case Top =>
    case InLeft(up, id, sib) =>
      CtxIdsPrePost(up);
      IdsInOrder(sib);
    case InRight(sib, id, up) =>
      CtxIdsPrePost(up);
      IdsInOrder(sib);
  }

  /** The context and subtree of node x inside t, itself plugged into c. */
  function Focus(t: Tree, x: int, c: Ctx): (r: (Ctx, Tree))
    requires x in InOrder(t)
    ensures r.1.Node? && r.1.id == x && Plug(r.0, r.1) == Plug(c, t)
    decreases t
  {
    if t.id == x then (c, t)
    else if x in InOrder(t.l) then Focus(t.l, x, InLeft(c, t.id, t.r))
    else Focus(t.r, x, InRight(t.l, t.id, c))
  }

  // ---------------------------------------------------------------------
  // Arena and links

  predicate Has(a: Arena, i: int) {
    0 <= i < |a.key| && i < |a.left| && i < |a.right| && i < |a.parent|
  }

  predicate Shaped(a: Arena) {
    |a.key| > 0 && |a.left| == |a.key| && |a.right| == |a.key| && |a.parent| == |a.key|
  }

  /** The arena's pointers starting at x realise t, whose root's parent pointer is p. */
  ghost predicate Linked(a: Arena, x: int, t: Tree, p: int)
    decreases t
  {
    match t
    case Leaf => x == NIL
    case Node(l, id, r) =>
      x == id && id != DUMMY && Has(a, id) && a.parent[id] == p &&
      Linked(a, a.left[id], l, id) && Linked(a, a.right[id], r, id)
  }

  /** The sentinel exists, has no right child and no parent. */
  ghost predicate DummyOk(a: Arena) {
    Has(a, DUMMY) && a.right[DUMMY] == NIL && a.parent[DUMMY] == NIL
  }

  /** The path c is realised in the arena, with x in the child slot at its bottom. */
  ghost predicate CtxLinked(a: Arena, c: Ctx, x: int)
    decreases c
  {
    match c
    case Top => DummyOk(a) && a.left[DUMMY] == x
    case InLeft(up, id, sib) =>
      id != DUMMY && Has(a, id) && a.left[id] == x && Linked(a, a.right[id], sib, id) &&
      a.parent[id] == Parent(up) && CtxLinked(a, up, id)
    case InRight(sib, id, up) =>
      id != DUMMY && Has(a, id) && a.right[id] == x && Linked(a, a.left[id], sib, id) &&
      a.parent[id] == Parent(up) && CtxLinked(a, up, id)
  }

  /** The whole tree hangs from the sentinel's left pointer. */
  ghost predicate RootLinked(a: Arena, t: Tree) {
    DummyOk(a) && Linked(a, a.left[DUMMY], t, DUMMY)
  }

  lemma {:induction false} LinkedRoot(a: Arena, x: int, t: Tree, p: int)
    requires Linked(a, x, t, p)
    ensures x == Root(t)
  {
  }

  /** Every node of a linked tree is a real node of the arena, never the sentinel. */
  lemma {:induction false} LinkedIds(a: Arena, x: int, t: Tree, p: int)
    requires Linked(a, x, t, p)
    ensures forall i | i in Ids(t) :: i != DUMMY && Has(a, i)
    ensures forall i | i in InOrder(t) :: i != DUMMY && Has(a, i)
    decreases t
  {
    IdsInOrder(t);
    match t
    case Leaf =>
    case Node(l, id, r) =>
      LinkedIds(a, a.left[id], l, id);
      LinkedIds(a, a.right[id], r, id);
  }

  lemma {:induction false} CtxLinkedIds(a: Arena, c: Ctx, x: int)
    requires CtxLinked(a, c, x)
    ensures forall i | i in CtxIds(c) :: i != DUMMY && Has(a, i)
    ensures Has(a, Parent(c))
    decreases c
  {
    match c
    case Top =>
    case InLeft(up, id, sib) =>
      CtxLinkedIds(a, up, id);
      LinkedIds(a, a.right[id], sib, id);
    case InRight(sib, id, up) =>
      CtxLinkedIds(a, up, id);
      LinkedIds(a, a.left[id], sib, id);
  }

  /** A tree plugged into a context is linked iff the path and the subtree are. */
  lemma {:induction false} LinkedPlug(a: Arena, c: Ctx, s: Tree)
    ensures RootLinked(a, Plug(c, s)) <==>
      CtxLinked(a, c, Root(s)) && Linked(a, Root(s), s, Parent(c))
    decreases c
  {
    match c
    case Top =>
      if RootLinked(a, s) {
        LinkedRoot(a, a.left[DUMMY], s, DUMMY);
      }
    case InLeft(up, id, sib) =>
      LinkedPlug(a, up, Node(s, id, sib));
      if Has(a, id) && Linked(a, a.left[id], s, id) {
        LinkedRoot(a, a.left[id], s, id);
      }
    case InRight(sib, id, up) =>
      LinkedPlug(a, up, Node(sib, id, s));
      if Has(a, id) && Linked(a, a.right[id], s, id) {
        LinkedRoot(a, a.right[id], s, id);
      }
  }

  // ---------------------------------------------------------------------
  // Frames: what a change to the arena leaves linked

  /** Node i has the same key and pointers in a and b. */
  ghost predicate Same(a: Arena, b: Arena, i: int) {
    Has(a, i) ==>
      Has(b, i) && a.key[i] == b.key[i] && a.left[i] == b.left[i] &&
      a.right[i] == b.right[i] && a.parent[i] == b.parent[i]
  }

  ghost predicate AgreeOn(a: Arena, b: Arena, s: set<int>) {
    forall i | i in s :: Same(a, b, i)
  }

  lemma {:induction false} LinkedFrame(a: Arena, b: Arena, x: int, t: Tree, p: int)
    requires Linked(a, x, t, p) && AgreeOn(a, b, Ids(t))
    ensures Linked(b, x, t, p)
    decreases t
  {
    match t
    case Leaf =>
    case Node(l, id, r) =>
      assert Same(a, b, id);
      LinkedFrame(a, b, a.left[id], l, id);
      LinkedFrame(a, b, a.right[id], r, id);
  }

  lemma {:induction false} CtxFrame(a: Arena, b: Arena, c: Ctx, x: int)
    requires CtxLinked(a, c, x) && AgreeOn(a, b, CtxIds(c) + {DUMMY})
    ensures CtxLinked(b, c, x)
    decreases c
  {
    match c
    case Top =>
      assert Same(a, b, DUMMY);
    case InLeft(up, id, sib) =>
      assert Same(a, b, id);
      LinkedFrame(a, b, a.right[id], sib, id);
      CtxFrame(a, b, up, id);
    case InRight(sib, id, up) =>
      assert Same(a, b, id);
      LinkedFrame(a, b, a.left[id], sib, id);
      CtxFrame(a, b, up, id);
  }

  // ---------------------------------------------------------------------
  // Distinct node indices

  ghost predicate Unique(s: seq<int>) {
    forall i, j | 0 <= i < j < |s| :: s[i] != s[j]
  }

  lemma {:induction false} UniqueConcat(a: seq<int>, b: seq<int>)
    ensures Unique(a + b) <==> Unique(a) && Unique(b) && forall x | x in a :: x !in b
  {
    if Unique(a + b) {
      UniqueSplit(a, b);
    }
    if Unique(a) && Unique(b) && forall x | x in a :: x !in b {
      UniqueJoin(a, b);
    }
  }

  lemma {:induction false} UniqueSplit(a: seq<int>, b: seq<int>)
    requires Unique(a + b)
    ensures Unique(a) && Unique(b) && forall x | x in a :: x !in b
  {
    assert forall i | 0 <= i < |b| :: (a + b)[|a| + i] == b[i];
    forall i, j | 0 <= i < j < |a| ensures a[i] != a[j] {
      assert (a + b)[i] == a[i] && (a + b)[j] == a[j];
    }
    forall i, j | 0 <= i < j < |b| ensures b[i] != b[j] {
      assert (a + b)[|a| + i] == b[i] && (a + b)[|a| + j] == b[j];
    }
    forall x | x in a ensures x !in b {
      var i :| 0 <= i < |a| && a[i] == x;
      forall j | 0 <= j < |b| ensures b[j] != x {
        assert (a + b)[i] == a[i] && (a + b)[|a| + j] == b[j];
      }
    }
  }

  lemma {:induction false} UniqueJoin(a: seq<int>, b: seq<int>)
    requires Unique(a) && Unique(b) && forall x | x in a :: x !in b
    ensures Unique(a + b)
  {
    forall i, j | 0 <= i < j < |a + b| ensures (a + b)[i] != (a + b)[j] {
      if j < |a| {
        assert (a + b)[i] == a[i] && (a + b)[j] == a[j];
      } else if i >= |a| {
        assert (a + b)[i] == b[i - |a|] && (a + b)[j] == b[j - |a|];
      } else {
        assert (a + b)[i] == a[i] && a[i] in a;
        assert (a + b)[j] == b[j - |a|] && b[j - |a|] in b;
      }
    }
  }

  /** Node indices on a path are distinct from one another and from the siblings hanging off it. */
  ghost predicate CtxDistinct(c: Ctx) {
    match c
    case Top => true
    case InLeft(up, id, sib) =>
      CtxDistinct(up) && id !in CtxIds(up) && id !in Ids(sib) && Ids(sib) !! CtxIds(up)
    case InRight(sib, id, up) =>
      CtxDistinct(up) && id !in CtxIds(up) && id !in Ids(sib) && Ids(sib) !! CtxIds(up)
  }

  lemma {:induction false} UniqueNode(l: Tree, id: int, r: Tree)
    requires Unique(InOrder(Node(l, id, r)))
    ensures Unique(InOrder(l)) && Unique(InOrder(r))
    ensures id !in Ids(l) && id !in Ids(r) && Ids(l) !! Ids(r)
  {
    UniqueConcat(InOrder(l) + [id], InOrder(r));
    UniqueConcat(InOrder(l), [id]);
    IdsInOrder(l);
    IdsInOrder(r);
    forall x | x in Ids(l) ensures x !in Ids(r) {
      assert x in InOrder(l) + [id];
    }
  }

  lemma {:induction false} IdsPlug(c: Ctx, s: Tree)
    ensures Ids(Plug(c, s)) == CtxIds(c) + Ids(s)
    decreases c
  {
    match c
    case Top =>
    case InLeft(up, id, sib) => IdsPlug(up, Node(s, id, sib));
    case InRight(sib, id, up) => IdsPlug(up, Node(sib, id, s));
  }

  /** Distinct in-order indices of a plugged tree make the path and the subtree distinct and disjoint. */
  lemma {:induction false} PlugUnique(c: Ctx, s: Tree)
    requires Unique(InOrder(Plug(c, s)))
    ensures CtxDistinct(c) && Unique(InOrder(s)) && Ids(s) !! CtxIds(c)
    decreases c
  {
    match c
    case Top =>
    case InLeft(up, id, sib) =>
      PlugUnique(up, Node(s, id, sib));
      UniqueNode(s, id, sib);
    case InRight(sib, id, up) =>
      PlugUnique(up, Node(sib, id, s));
      UniqueNode(sib, id, s);
  }

  // ---------------------------------------------------------------------
  // Replacing the subtree under a context

  function SetLeft(a: Arena, i: int, x: int): Arena {
    if 0 <= i < |a.left| then a.(left := a.left[i := x]) else a
  }

  function SetRight(a: Arena, i: int, x: int): Arena {
    if 0 <= i < |a.right| then a.(right := a.right[i := x]) else a
  }

  function SetParent(a: Arena, i: int, x: int): Arena {
    if 0 <= i < |a.parent| then a.(parent := a.parent[i := x]) else a
  }

  /** A fresh node with key v, no children and parent p, at index |a.key|. */
  function AddNode(a: Arena, v: int, p: int): Arena {
    Arena(a.key + [v], a.left + [NIL], a.right + [NIL], a.parent + [p])
  }

  /** Point the child slot at the bottom of path c to y. */
  function SetSlot(a: Arena, c: Ctx, y: int): Arena {
    if c.InRight? then SetRight(a, Parent(c), y) else SetLeft(a, Parent(c), y)
  }

  /** Hang subtree x in the slot at the bottom of c, pointing its root back up. */
  function Lift(a: Arena, c: Ctx, x: Tree): Arena {
    var b := SetSlot(a, c, Root(x));
    if x.Node? then SetParent(b, x.id, Parent(c)) else b
  }

  /** b differs from a on the path c at most in the slot at its bottom, which holds y. */
  ghost predicate Rehung(a: Arena, b: Arena, c: Ctx, y: int) {
    var q := Parent(c);
    AgreeOn(a, b, CtxIds(c) + {DUMMY} - {q}) && Has(a, q) && Has(b, q) &&
    a.key[q] == b.key[q] && a.parent[q] == b.parent[q] &&
    (if c.InRight? then a.left[q] == b.left[q] && b.right[q] == y
     else a.right[q] == b.right[q] && b.left[q] == y)
  }

  lemma {:induction false} Rehang(a: Arena, b: Arena, c: Ctx, x: int, y: int)
    requires CtxLinked(a, c, x) && CtxDistinct(c) && Rehung(a, b, c, y)
    ensures CtxLinked(b, c, y)
  {
    match c
    case Top =>
    case InLeft(up, id, sib) =>
      LinkedFrame(a, b, a.right[id], sib, id);
      CtxFrame(a, b, up, id);
    case InRight(sib, id, up) =>
      LinkedFrame(a, b, a.left[id], sib, id);
      CtxFrame(a, b, up, id);
  }

  /**
   * Replacing the subtree under c: if b only re-points the slot at the
   * bottom of c to a subtree s2 that is linked in b, the whole tree with s2
   * in place of s is linked in b.
   */
  lemma {:induction false} ReplaceFocus(a: Arena, b: Arena, c: Ctx, s: Tree, s2: Tree)
    requires RootLinked(a, Plug(c, s)) && CtxDistinct(c)
    requires Rehung(a, b, c, Root(s2)) && Linked(b, Root(s2), s2, Parent(c))
    ensures RootLinked(b, Plug(c, s2))
  {
    LinkedPlug(a, c, s);
    Rehang(a, b, c, Root(s), Root(s2));
    LinkedPlug(b, c, s2);
  }

  /** A linked subtree stays linked under a new parent when only its root's parent pointer changed. */
  lemma {:induction false} Reparent(a: Arena, b: Arena, t: Tree, p: int, p2: int)
    requires t.Node? && Linked(a, t.id, t, p) && Unique(InOrder(t))
    requires AgreeOn(a, b, Ids(t) - {t.id})
    requires Has(b, t.id) && b.left[t.id] == a.left[t.id] && b.right[t.id] == a.right[t.id]
    requires b.parent[t.id] == p2
    ensures Linked(b, t.id, t, p2)
  {
    UniqueNode(t.l, t.id, t.r);
    LinkedFrame(a, b, a.left[t.id], t.l, t.id);
    LinkedFrame(a, b, a.right[t.id], t.r, t.id);
  }

  /** b differs from a at most at the nodes in ch. */
  ghost predicate Outside(a: Arena, b: Arena, ch: set<int>) {
    forall i | i !in ch :: Same(a, b, i)
  }

  lemma {:induction false} OutsideTrans(a: Arena, b: Arena, c: Arena, ch1: set<int>, ch2: set<int>)
    requires Outside(a, b, ch1) && Outside(b, c, ch2)
    ensures Outside(a, c, ch1 + ch2)
  {
  }

  lemma {:induction false} OutsideAgree(a: Arena, b: Arena, ch: set<int>, s: set<int>)
    requires Outside(a, b, ch) && s !! ch
    ensures AgreeOn(a, b, s)
  {
  }

  /** Each single edit changes one node. */
  lemma {:induction false} EditOutside(a: Arena, i: int, x: int, c: Ctx, y: int)
    ensures Outside(a, SetLeft(a, i, x), {i}) && Outside(a, SetRight(a, i, x), {i})
    ensures Outside(a, SetParent(a, i, x), {i}) && Outside(a, SetSlot(a, c, y), {Parent(c)})
  {
  }

  lemma {:induction false} LiftFrame(a: Arena, c: Ctx, x: Tree, s: set<int>)
    requires Parent(c) !in s && (x.Node? ==> x.id !in s)
    ensures AgreeOn(a, Lift(a, c, x), s)
  {
  }

  lemma {:induction false} LiftRehung(a: Arena, c: Ctx, x: Tree)
    requires Has(a, Parent(c))
    requires x.Node? ==> x.id != Parent(c) && x.id !in CtxIds(c) && x.id != DUMMY
    ensures Rehung(a, Lift(a, c, x), c, Root(x))
  {
    LiftFrame(a, c, x, CtxIds(c) + {DUMMY} - {Parent(c)});
  }

  /** The child that replaces a node with at most one child is linked under the node's parent. */
  lemma {:induction false} LiftedChild(a: Arena, c: Ctx, t: Tree, x: Tree)
    requires t.Node? && Linked(a, t.id, t, Parent(c)) && Unique(InOrder(t))
    requires (t.l.Leaf? && x == t.r) || (t.r.Leaf? && x == t.l)
    requires Parent(c) !in Ids(t)
    ensures Linked(Lift(a, c, x), Root(x), x, Parent(c))
  {
    if x.Node? {
      UniqueNode(t.l, t.id, t.r);
      assert Linked(a, x.id, x, t.id);
      LiftFrame(a, c, x, Ids(x) - {x.id});
      Reparent(a, Lift(a, c, x), x, t.id, Parent(c));
    }
  }

  /** The node at the top of a non-empty path. */
  function TopId(c: Ctx): int
    requires !c.Top?
  {
    match c
    case InLeft(up, id, _) => if up.Top? then id else TopId(up)
    case InRight(_, id, up) => if up.Top? then id else TopId(up)
  }

  lemma {:induction false} PlugRoot(c: Ctx, s: Tree)
    requires !c.Top?
    ensures Plug(c, s).Node? && Plug(c, s).id == TopId(c)
    decreases c
  {
    match c
    case InLeft(up, id, sib) =>
      if !up.Top? {
        PlugRoot(up, Node(s, id, sib));
      }
    case InRight(sib, id, up) =>
      if !up.Top? {
        PlugRoot(up, Node(sib, id, s));
      }
  }

  // ---------------------------------------------------------------------
  // Keys and order

  function KeyOf(a: Arena, i: int): int {
    if 0 <= i < |a.key| then a.key[i] else 0
  }

  /** The keys of the given nodes, in the same order. */
  function KeysOf(a: Arena, ids: seq<int>): (r: seq<int>)
    ensures |r| == |ids|
    ensures forall k | 0 <= k < |ids| :: r[k] == KeyOf(a, ids[k])
  {
    seq(|ids|, k requires 0 <= k < |ids| => KeyOf(a, ids[k]))
  }

  lemma {:induction false} KeysOfConcat(a: Arena, x: seq<int>, y: seq<int>)
    ensures KeysOf(a, x + y) == KeysOf(a, x) + KeysOf(a, y)
  {
  }

  /** Re-linking nodes leaves keys alone: dropping a node drops its key and keeps the order. */
  lemma {:induction false} KeysOfRemoveAt(a: Arena, b: Arena, ids: seq<int>, k: nat)
    requires a.key == b.key && Ascending(KeysOf(a, ids)) && k < |ids|
    ensures KeysOf(b, RemoveAt(ids, k)) == RemoveAt(KeysOf(a, ids), k)
    ensures Ascending(KeysOf(b, RemoveAt(ids, k)))
  {
    RemoveAtAscending(KeysOf(a, ids), k);
  }

  lemma {:induction false} UniqueRemoveAt(s: seq<int>, k: nat)
    requires Unique(s) && k < |s|
    ensures Unique(RemoveAt(s, k))
  {
    var r := RemoveAt(s, k);
    forall i, j | 0 <= i < j < |r| ensures r[i] != r[j] {
      var i', j' := if i < k then i else i + 1, if j < k then j else j + 1;
      assert r[i] == s[i'] && r[j] == s[j'];
    }
  }

  /** The binary-search-tree property: in-order keys strictly ascend. */
  ghost predicate Ordered(a: Arena, t: Tree) {
    Ascending(KeysOf(a, InOrder(t)))
  }

  lemma {:induction false} AscendingKeysUnique(a: Arena, ids: seq<int>)
    requires Ascending(KeysOf(a, ids))
    ensures Unique(ids)
  {
    forall i, j | 0 <= i < j < |ids| ensures ids[i] != ids[j] {
      assert KeysOf(a, ids)[i] < KeysOf(a, ids)[j];
    }
  }

  // ---------------------------------------------------------------------
  // Positions in in-order, and the iterator steps they define

  /** The first index of x in s. */
  function IndexOf(s: seq<int>, x: int): (k: nat)
    requires x in s
    ensures k < |s| && s[k] == x
    ensures forall i | 0 <= i < k :: s[i] != x
  {
    if s[0] == x then 0 else 1 + IndexOf(s[1..], x)
  }

  lemma {:induction false} IndexOfUnique(s: seq<int>, k: nat)
    requires Unique(s) && k < |s|
    ensures IndexOf(s, s[k]) == k
  {
  }

  /** The node ++ reaches from x: the next in in-order, or the sentinel after the last and from the sentinel. */
  function SuccOf(ids: seq<int>, x: int): int {
    if x in ids then
      var k := IndexOf(ids, x);
      if k + 1 < |ids| then ids[k + 1] else DUMMY
    else DUMMY
  }

  /** The node -- reaches from x: the previous in in-order, the sentinel before the first, the last from the sentinel. */
  function PredOf(ids: seq<int>, x: int): int {
    if x in ids then
      var k := IndexOf(ids, x);
      if k > 0 then ids[k - 1] else DUMMY
    else if ids == [] then DUMMY
    else ids[|ids| - 1]
  }

  /** ++ from the k-th element of a sequence without repeats is the (k+1)-th, or the sentinel after the last. */
  lemma {:induction false} SuccAt(ids: seq<int>, k: nat)
    requires Unique(ids) && k < |ids|
    ensures SuccOf(ids, ids[k]) == if k + 1 < |ids| then ids[k + 1] else DUMMY
  {
    IndexOfUnique(ids, k);
  }

  /** The neighbours of x where the in-order sequence splits around it. */
  lemma {:induction false} SuccPredSplit(p: seq<int>, x: int, q: seq<int>)
    requires Unique(p + [x] + q)
    ensures IndexOf(p + [x] + q, x) == |p|
    ensures SuccOf(p + [x] + q, x) == if q == [] then DUMMY else q[0]
    ensures PredOf(p + [x] + q, x) == if p == [] then DUMMY else p[|p| - 1]
  {
    IndexOfUnique(p + [x] + q, |p|);
  }

  /** -- undoes ++ on every element; ++ undoes -- everywhere except at the first element. */
  lemma {:induction false} PredSucc(ids: seq<int>, x: int)
    requires Unique(ids) && DUMMY !in ids && x in ids
    ensures PredOf(ids, SuccOf(ids, x)) == x
    ensures x != ids[0] ==> SuccOf(ids, PredOf(ids, x)) == x
    ensures x == ids[0] ==> PredOf(ids, x) == DUMMY
  {
    var k := IndexOf(ids, x);
    if k + 1 < |ids| {
      IndexOfUnique(ids, k + 1);
    }
    if k > 0 {
      IndexOfUnique(ids, k - 1);
    }
  }
}
