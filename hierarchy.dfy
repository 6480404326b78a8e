// Depth-first walks over the visible hierarchy: the recursion shared by
// DsmElementModel.AssignElementOrder and DsmElementModel.ReregisterElement.
// The walk follows `Children`, so it visits an element once per path that
// reaches it; nothing forces the child lists to form a tree.

module Hierarchy {
  import opened Wrappers
  import opened Element

  /** Two arenas that agree on which elements are visible. */
  ghost predicate SameFlags(e1: seq<DsmElement>, e2: seq<DsmElement>)
  {
    |e1| == |e2| && forall x | 0 <= x < |e1| :: IsVisible(e1[x]) == IsVisible(e2[x])
  }

  /** Two arenas whose child lists and visibility agree: every walk over `Children` sees the same thing in both. */
  ghost predicate SameLinks(e1: seq<DsmElement>, e2: seq<DsmElement>)
  {
    SameFlags(e1, e2) && forall x | 0 <= x < |e1| :: e1[x].children == e2[x].children
  }

  lemma {:induction false} VisibleInSame(e1: seq<DsmElement>, e2: seq<DsmElement>, s: seq<Handle>)
    requires SameFlags(e1, e2)
    ensures VisibleIn(e1, s) == VisibleIn(e2, s) && HiddenIn(e1, s) == HiddenIn(e2, s)
  {
    if s != [] {
      VisibleInSame(e1, e2, s[1..]);
    }
  }

  /** `y` appears in the `_children` list of some element. */
  ghost predicate IsChild(elts: seq<DsmElement>, y: Handle)
  {
    exists z | 0 <= z < |elts| :: y in elts[z].children
  }

  // ---------------------------------------------------------------------------
  // Termination of the recursion over Children

  /**
   * Every walk down visible children from `x` has fewer than `d` elements,
   * so a recursion over `Children` started at `x` stops.
   */
  predicate Finite(elts: seq<DsmElement>, x: Handle, d: nat)
    requires x < |elts|
    decreases d
  {
    d > 0 && forall c | c in Children(elts, x) :: Finite(elts, c, d - 1)
  }

  lemma {:induction false} FiniteSame(e1: seq<DsmElement>, e2: seq<DsmElement>, x: Handle, d: nat)
    requires SameLinks(e1, e2) && x < |e1| && Finite(e1, x, d)
    ensures Finite(e2, x, d)
    decreases d
  {
    VisibleInSame(e1, e2, e1[x].children);
    forall c | c in Children(e2, x) ensures Finite(e2, c, d - 1) {
      assert c in Children(e1, x);
      FiniteSame(e1, e2, c, d - 1);
    }
  }

  /** Fewer visible edges keep every walk finite. */
  lemma {:induction false} FiniteFewerEdges(e1: seq<DsmElement>, e2: seq<DsmElement>, x: Handle, d: nat)
    requires |e1| == |e2| && x < |e1| && Finite(e1, x, d)
    requires forall y, c | 0 <= y < |e1| && c in Children(e2, y) :: c in Children(e1, y)
    ensures Finite(e2, x, d)
    decreases d
  {
    forall c | c in Children(e2, x) ensures Finite(e2, c, d - 1) {
      FiniteFewerEdges(e1, e2, c, d - 1);
    }
  }

  /** The root's walk stops: the precondition under which AssignElementOrder terminates. */
  predicate OrderTerminates(elts: seq<DsmElement>)
  {
    |elts| > 0 && Finite(elts, ROOT, |elts|)
  }

  // ---------------------------------------------------------------------------
  // Depth-first pre-order

  /**
   * The elements a recursion over `Children` started at `x` visits, in
   * visiting order: `x`, then the walk of each visible child in turn.
   * `d` bounds the depth; under `Finite(elts, x, d)` the bound is never hit.
   */
  function PreOrder(elts: seq<DsmElement>, x: Handle, d: nat): (r: seq<Handle>)
    requires x < |elts|
    ensures InBounds(elts, r)
    ensures d > 0 ==> |r| > 0 && r[0] == x
    decreases d, 0
  {
    if d == 0 then [] else [x] + PreOrderAll(elts, Children(elts, x), d - 1)
  }

  /** The walks of the elements of `s`, one after the other. */
  function PreOrderAll(elts: seq<DsmElement>, s: seq<Handle>, d: nat): (r: seq<Handle>)
    requires InBounds(elts, s)
    ensures InBounds(elts, r)
    decreases d, 1, |s|
  {
    if s == [] then []
    else PreOrderAll(elts, s[..|s| - 1], d) + PreOrder(elts, s[|s| - 1], d)
  }

  /** Apart from where it starts, a walk only visits visible elements that are somebody's child. */
  lemma {:induction false} PreOrderMembers(elts: seq<DsmElement>, x: Handle, d: nat)
    requires x < |elts|
    ensures forall y | y in PreOrder(elts, x, d) :: y == x || (Shown(elts, y) && IsChild(elts, y))
    decreases d, 0
  {
    if d > 0 {
      var kids := Children(elts, x);
      PreOrderAllMembers(elts, kids, d - 1);
      forall y | y in kids ensures Shown(elts, y) && IsChild(elts, y) {
        assert y in elts[x].children;
      }
    }
  }

  lemma {:induction false} PreOrderAllMembers(elts: seq<DsmElement>, s: seq<Handle>, d: nat)
    requires InBounds(elts, s)
    ensures forall y | y in PreOrderAll(elts, s, d) :: y in s || (Shown(elts, y) && IsChild(elts, y))
    decreases d, 1, |s|
  {
    if s != [] {
      var s' := s[..|s| - 1];
      PreOrderAllMembers(elts, s', d);
      PreOrderMembers(elts, s[|s| - 1], d);
      assert forall y | y in s' :: y in s;
    }
  }

  lemma {:induction false} PreOrderSame(e1: seq<DsmElement>, e2: seq<DsmElement>, x: Handle, d: nat)
    requires SameLinks(e1, e2) && x < |e1|
    ensures PreOrder(e1, x, d) == PreOrder(e2, x, d)
    decreases d, 0
  {
    if d > 0 {
      ChildrenSame(e1, e2, x);
      PreOrderAllSame(e1, e2, Children(e1, x), d - 1);
    }
  }

  lemma ChildrenSame(e1: seq<DsmElement>, e2: seq<DsmElement>, x: Handle)
    requires SameLinks(e1, e2) && x < |e1|
    ensures Children(e1, x) == Children(e2, x)
  {
    assert e1[x].children == e2[x].children;
    VisibleInSame(e1, e2, e1[x].children);
  }

  lemma {:induction false} PreOrderAllSame(e1: seq<DsmElement>, e2: seq<DsmElement>, s: seq<Handle>, d: nat)
    requires SameLinks(e1, e2) && InBounds(e1, s)
    ensures PreOrderAll(e1, s, d) == PreOrderAll(e2, s, d)
    decreases d, 1, |s|
  {
    if s != [] {
      PreOrderAllSame(e1, e2, s[..|s| - 1], d);
      PreOrderSame(e1, e2, s[|s| - 1], d);
    }
  }

  /** Every element of the walk of a member of `s` is in the walks of `s`. */
  lemma {:induction false} PreOrderAllIntro(elts: seq<DsmElement>, s: seq<Handle>, d: nat, c: Handle, z: Handle)
    requires InBounds(elts, s) && c in s && c < |elts| && z in PreOrder(elts, c, d)
    ensures z in PreOrderAll(elts, s, d)
    decreases |s|
  {
    var s' := s[..|s| - 1];
    if c != s[|s| - 1] {
      assert c in s';
      PreOrderAllIntro(elts, s', d, c, z);
    }
  }

  /** An element of the walks of `s` is in the walk of some member of `s`. */
  lemma {:induction false} PreOrderAllWitness(elts: seq<DsmElement>, s: seq<Handle>, d: nat, z: Handle) returns (c: Handle)
    requires InBounds(elts, s) && z in PreOrderAll(elts, s, d)
    ensures c in s && c < |elts| && z in PreOrder(elts, c, d)
    decreases |s|
  {
    var s' := s[..|s| - 1];
    if z in PreOrder(elts, s[|s| - 1], d) {
      c := s[|s| - 1];
    } else {
      c := PreOrderAllWitness(elts, s', d, z);
      assert c in s;
    }
  }

  /** With fewer visible edges a walk visits no new element. */
  lemma {:induction false} PreOrderFewerEdges(e1: seq<DsmElement>, e2: seq<DsmElement>, x: Handle, d: nat)
    requires |e1| == |e2| && x < |e1|
    requires forall y, c | 0 <= y < |e1| && c in Children(e2, y) :: c in Children(e1, y)
    ensures forall z | z in PreOrder(e2, x, d) :: z in PreOrder(e1, x, d)
    decreases d
  {
    if d > 0 {
      forall z | z in PreOrder(e2, x, d) ensures z in PreOrder(e1, x, d) {
        if z != x {
          var c := PreOrderAllWitness(e2, Children(e2, x), d - 1, z);
          PreOrderFewerEdges(e1, e2, c, d - 1);
          PreOrderAllIntro(e1, Children(e1, x), d - 1, c, z);
        }
      }
    }
  }

  /** `x` is `h` or lies below it over visible edges: some walk from `h` visits it. */
  ghost predicate Reaches(elts: seq<DsmElement>, h: Handle, x: Handle)
    requires h < |elts|
  {
    exists d: nat :: x in PreOrder(elts, h, d)
  }

  lemma ReachesSelf(elts: seq<DsmElement>, h: Handle)
    requires h < |elts|
    ensures Reaches(elts, h, h)
  {
    assert h in PreOrder(elts, h, 1);
  }

  /** What a visible child reaches, its parent reaches. */
  lemma ReachesStep(elts: seq<DsmElement>, h: Handle, c: Handle, x: Handle)
    requires h < |elts| && c < |elts| && c in Children(elts, h) && Reaches(elts, c, x)
    ensures Reaches(elts, h, x)
  {
    var d: nat :| x in PreOrder(elts, c, d);
    PreOrderAllIntro(elts, Children(elts, h), d, c, x);
    assert x in PreOrder(elts, h, d + 1);
  }

  /** With fewer visible edges nothing new is reached. */
  lemma ReachesFewerEdges(e1: seq<DsmElement>, e2: seq<DsmElement>, h: Handle, x: Handle)
    requires |e1| == |e2| && h < |e1|
    requires forall y, c | 0 <= y < |e1| && c in Children(e2, y) :: c in Children(e1, y)
    requires Reaches(e2, h, x)
    ensures Reaches(e1, h, x)
  {
    var d: nat :| x in PreOrder(e2, h, d);
    PreOrderFewerEdges(e1, e2, h, d);
    assert x in PreOrder(e1, h, d);
  }

  /** A set that holds `h` and every visible child of its members holds everything `h` reaches. */
  lemma ReachesClosed(elts: seq<DsmElement>, t: set<Handle>, h: Handle, x: Handle)
    requires h < |elts| && h in t && Reaches(elts, h, x)
    requires forall y, c | y in t && 0 <= y < |elts| && c in Children(elts, y) :: c in t
    ensures x in t
  {
    var d: nat :| x in PreOrder(elts, h, d);
    WalkClosed(elts, t, h, d, x);
  }

  lemma {:induction false} WalkClosed(elts: seq<DsmElement>, t: set<Handle>, h: Handle, d: nat, x: Handle)
    requires h < |elts| && h in t && x in PreOrder(elts, h, d)
    requires forall y, c | y in t && 0 <= y < |elts| && c in Children(elts, y) :: c in t
    ensures x in t
    decreases d
  {
    if x != h {
      var c := PreOrderAllWitness(elts, Children(elts, h), d - 1, x);
      WalkClosed(elts, t, c, d - 1, x);
    }
  }

  /** The walks of `kids[..i + 1]` are those of `kids[..i]` followed by the walk of `kids[i]`. */
  lemma PreOrderAllStep(elts: seq<DsmElement>, kids: seq<Handle>, i: nat, d: nat)
    requires InBounds(elts, kids) && i < |kids|
    ensures InBounds(elts, kids[..i]) && InBounds(elts, kids[..i + 1])
    ensures PreOrderAll(elts, kids[..i + 1], d) == PreOrderAll(elts, kids[..i], d) + PreOrder(elts, kids[i], d)
  {
    assert kids[..i + 1][..i] == kids[..i];
  }

  /** The same, after a prefix `[h]`. */
  lemma WalkExtend(elts: seq<DsmElement>, h: Handle, kids: seq<Handle>, i: nat, d: nat)
    requires InBounds(elts, kids) && i < |kids|
    ensures InBounds(elts, kids[..i]) && InBounds(elts, kids[..i + 1])
    ensures [h] + PreOrderAll(elts, kids[..i + 1], d) == [h] + PreOrderAll(elts, kids[..i], d) + PreOrder(elts, kids[i], d)
  {
    PreOrderAllStep(elts, kids, i, d);
  }

  /** The walk of `h` is `h` followed by the walks of all its visible children. */
  lemma WalkWhole(elts: seq<DsmElement>, h: Handle, d: nat)
    requires h < |elts| && d > 0
    ensures var kids := Children(elts, h);
      PreOrder(elts, h, d) == [h] + PreOrderAll(elts, kids[..|kids|], d - 1)
  {
    var kids := Children(elts, h);
    assert kids[..|kids|] == kids;
  }

  /** What AssignElementOrder walks: the pre-order of every visible child of the root, the root itself excluded. */
  function RootPreOrder(elts: seq<DsmElement>): seq<Handle>
    requires |elts| > 0
  {
    PreOrderAll(elts, Children(elts, ROOT), |elts| - 1)
  }

  /** The root is in no child list, so the walk never visits it. */
  lemma RootNotVisited(elts: seq<DsmElement>)
    requires |elts| > 0 && !IsChild(elts, ROOT)
    ensures ROOT !in RootPreOrder(elts)
  {
    PreOrderAllMembers(elts, Children(elts, ROOT), |elts| - 1);
  }

  // ---------------------------------------------------------------------------
  // Numbering

  /**
   * Gives the elements of `s`, in turn, the orders `k`, `k + 1`, ...;
   * an element listed twice keeps the number of its last position.
   */
  function SetOrders(elts: seq<DsmElement>, s: seq<Handle>, k: int): (r: seq<DsmElement>)
    requires InBounds(elts, s)
    ensures |r| == |elts|
  {
    if s == [] then elts
    else
      var t := SetOrders(elts, s[..|s| - 1], k);
      var x := s[|s| - 1];
      t[x := t[x].(order := k + |s| - 1)]
  }

  /** Numbering changes nothing but orders, and only those of the elements of `s`. */
  lemma {:induction false} SetOrdersFrame(elts: seq<DsmElement>, s: seq<Handle>, k: int)
    requires InBounds(elts, s)
    ensures var r := SetOrders(elts, s, k);
      && (forall x | 0 <= x < |elts| :: r[x] == elts[x].(order := r[x].order))
      && (forall x | 0 <= x < |elts| && x !in s :: r[x] == elts[x])
      && SameLinks(elts, r) && SameLinks(r, elts)
  {
    if s != [] {
      var s' := s[..|s| - 1];
      SetOrdersFrame(elts, s', k);
      assert forall x | x in s' :: x in s;
    }
  }

  /** Numbering `s + t` is numbering `s` and then carrying on with `t`. */
  lemma {:induction false} SetOrdersAppend(elts: seq<DsmElement>, s: seq<Handle>, t: seq<Handle>, k: int)
    requires InBounds(elts, s) && InBounds(elts, t)
    ensures InBounds(elts, s + t)
    ensures SetOrders(elts, s + t, k) == SetOrders(SetOrders(elts, s, k), t, k + |s|)
    decreases |t|
  {
    InBoundsAppend(elts, s, t);
    var st := s + t;
    if t == [] {
      assert st == s;
    } else {
      var t' := t[..|t| - 1];
      var x := t[|t| - 1];
      assert st[..|st| - 1] == s + t' && st[|st| - 1] == x;
      SetOrdersAppend(elts, s, t', k);
      var u := SetOrders(SetOrders(elts, s, k), t', k + |s|);
      assert SetOrders(elts, st, k) == u[x := u[x].(order := k + |st| - 1)];
      assert SetOrders(SetOrders(elts, s, k), t, k + |s|) == u[x := u[x].(order := k + |s| + |t| - 1)];
    }
  }

  /** Numbering leaves the links alone. */
  lemma SetOrdersLinks(elts: seq<DsmElement>, s: seq<Handle>, k: int)
    requires InBounds(elts, s)
    ensures SameLinks(elts, SetOrders(elts, s, k)) && SameLinks(SetOrders(elts, s, k), elts)
  {
    SetOrdersFrame(elts, s, k);
  }

  /**
   * Numbering some walk `w` from `k` leaves the walk of `c`, and whether it
   * stops, as it was.
   */
  lemma NumberedChild(elts: seq<DsmElement>, w: seq<Handle>, k: int, e: seq<DsmElement>, c: Handle, d: nat)
    requires InBounds(elts, w) && e == SetOrders(elts, w, k) && c < |elts| && Finite(elts, c, d)
    ensures c < |e| && Finite(e, c, d) && PreOrder(e, c, d) == PreOrder(elts, c, d)
  {
    SetOrdersLinks(elts, w, k);
    FiniteSame(elts, e, c, d);
    PreOrderSame(e, elts, c, d);
  }

  /** Before a numbering loop over `kids`: nothing is numbered yet. */
  lemma OrderAllStart(elts: seq<DsmElement>, kids: seq<Handle>, d: nat, k: int)
    ensures InBounds(elts, []) && elts == SetOrders(elts, [], k) && [] == PreOrderAll(elts, kids[..0], d)
  {
    SliceEnds(kids);
  }

  /** Numbering `w` and then, from the next free number, `t`, is numbering `w + t`. */
  lemma NumberedNext(elts: seq<DsmElement>, w: seq<Handle>, t: seq<Handle>, k: int, e1: seq<DsmElement>, n: int, e2: seq<DsmElement>)
    requires InBounds(elts, w) && InBounds(elts, t)
    requires e1 == SetOrders(elts, w, k) && n == k + |w| && e2 == SetOrders(e1, t, n)
    ensures InBounds(elts, w + t) && e2 == SetOrders(elts, w + t, k) && n + |t| == k + |w + t|
  {
    SetOrdersAppend(elts, w, t, k);
  }

  /** Without repetitions, the element at position `i` of `s` ends with order `k + i`. */
  lemma {:induction false} SetOrdersAt(elts: seq<DsmElement>, s: seq<Handle>, k: int, i: nat)
    requires InBounds(elts, s) && NoDuplicates(s) && i < |s|
    ensures SetOrders(elts, s, k)[s[i]].order == k + i
  {
    if i < |s| - 1 {
      var s' := s[..|s| - 1];
      SetOrdersAt(elts, s', k, i);
      assert s[i] == s'[i] && s[i] != s[|s| - 1];
    }
  }

  /** AssignElementOrder as a whole: the root's walk numbered from 1. */
  function Renumbered(elts: seq<DsmElement>): seq<DsmElement>
    requires |elts| > 0
  {
    SetOrders(elts, RootPreOrder(elts), 1)
  }

  /**
   * When the root's walk visits every element at most once, the i-th
   * visited element gets order i + 1, and the root and the elements the walk
   * does not reach keep their order.
   */
  lemma RenumberedOrders(elts: seq<DsmElement>)
    requires |elts| > 0 && !IsChild(elts, ROOT)
    ensures var w := RootPreOrder(elts);
      && (NoDuplicates(w) ==> forall i | 0 <= i < |w| :: Renumbered(elts)[w[i]].order == i + 1)
      && Renumbered(elts)[ROOT] == elts[ROOT]
      && forall x | 0 <= x < |elts| && x !in w :: Renumbered(elts)[x] == elts[x]
  {
    var w := RootPreOrder(elts);
    RootNotVisited(elts);
    SetOrdersFrame(elts, w, 1);
    if NoDuplicates(w) {
      forall i | 0 <= i < |w| ensures Renumbered(elts)[w[i]].order == i + 1 {
        SetOrdersAt(elts, w, 1, i);
      }
    }
  }

  /** `e2` is `e1` with at most the orders changed. */
  ghost predicate SameButOrders(e1: seq<DsmElement>, e2: seq<DsmElement>)
  {
    |e1| == |e2| && forall x | 0 <= x < |e1| :: e2[x] == e1[x].(order := e2[x].order)
  }

  /** Renumbering changes orders only, and only those of the elements the root's walk visits. */
  lemma RenumberedOnlyOrders(elts: seq<DsmElement>)
    requires |elts| > 0
    ensures SameButOrders(elts, Renumbered(elts))
    ensures forall x | 0 <= x < |elts| && x !in RootPreOrder(elts) :: Renumbered(elts)[x] == elts[x]
  {
    SetOrdersFrame(elts, RootPreOrder(elts), 1);
  }

  /** With fewer visible edges the root's walk visits no new element. */
  lemma RootPreOrderFewerEdges(e1: seq<DsmElement>, e2: seq<DsmElement>)
    requires |e1| == |e2| && |e1| > 0
    requires forall y, c | 0 <= y < |e1| && c in Children(e2, y) :: c in Children(e1, y)
    ensures forall z | z in RootPreOrder(e2) :: z in RootPreOrder(e1)
  {
    forall z | z in RootPreOrder(e2) ensures z in RootPreOrder(e1) {
      var c := PreOrderAllWitness(e2, Children(e2, ROOT), |e2| - 1, z);
      PreOrderFewerEdges(e1, e2, c, |e1| - 1);
      PreOrderAllIntro(e1, Children(e1, ROOT), |e1| - 1, c, z);
    }
  }

  /**
   * Numbering overwrites the orders it sets: arenas that differ at most in
   * orders give the same result on the numbered elements and keep their
   * own element elsewhere.
   */
  lemma {:induction false} SetOrdersOverwrites(e1: seq<DsmElement>, e2: seq<DsmElement>, s: seq<Handle>, k: int)
    requires SameButOrders(e1, e2) && InBounds(e1, s)
    ensures forall x | 0 <= x < |e1| ::
      SetOrders(e2, s, k)[x] == if x in s then SetOrders(e1, s, k)[x] else e2[x]
  {
    if s != [] {
      var s' := s[..|s| - 1];
      SetOrdersOverwrites(e1, e2, s', k);
      SetOrdersFrame(e1, s', k);
      SetOrdersFrame(e2, s', k);
      assert forall x | x in s :: x in s' || x == s[|s| - 1];
      assert forall x | x in s' :: x in s;
    }
  }

  /** Renumbering only reads child lists and flags, so arenas with the same links get the same orders. */
  lemma RenumberedSame(e1: seq<DsmElement>, e2: seq<DsmElement>)
    requires SameLinks(e1, e2) && |e1| > 0
    ensures RootPreOrder(e1) == RootPreOrder(e2)
  {
    VisibleInSame(e1, e2, e1[ROOT].children);
    PreOrderAllSame(e1, e2, Children(e1, ROOT), |e1| - 1);
  }
}
