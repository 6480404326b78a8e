// Specification functions for the edits DsmElementModel makes to the
// hierarchy: reordering, swapping, detaching, soft delete and restore.
// The class in element_model.dfy is proved to perform exactly these edits.

module Edits {
  import opened Wrappers
  import opened Element
  import opened Hierarchy

  // ---------------------------------------------------------------------------
  // Reordering by an index sequence (DsmElementModel.ReorderChildren)

  /** `clonedChildren[sequence.GetIndex(i)]` for i in 0 .. n - 1. */
  function Pick(v: seq<Handle>, sigma: seq<int>): (r: seq<Handle>)
    requires forall i | 0 <= i < |sigma| :: 0 <= sigma[i] < |v|
    ensures |r| == |sigma| && forall i | 0 <= i < |sigma| :: r[i] == v[sigma[i]]
  {
    seq(|sigma|, i requires 0 <= i < |sigma| => v[sigma[i]])
  }

  /** Every index in `sigma` selects one of `n` positions: what `sequence.GetIndex` must return for the list access not to throw. */
  predicate IndicesIn(sigma: seq<int>, n: nat)
  {
    forall i | 0 <= i < |sigma| :: 0 <= sigma[i] < n
  }

  function Range(n: nat): (r: seq<int>)
    ensures |r| == n && forall i | 0 <= i < n :: r[i] == i
  {
    seq(n, i => i)
  }

  /** `sigma` lists each of 0 .. n - 1 exactly once. */
  predicate IsPermutation(sigma: seq<int>, n: nat)
  {
    multiset(sigma) == multiset(Range(n))
  }

  lemma RemoveAtMultiset<T>(s: seq<T>, k: nat)
    requires k < |s|
    ensures multiset(s[..k] + s[k + 1..]) == multiset(s) - multiset{s[k]}
  {
    assert s == s[..k] + [s[k]] + s[k + 1..];
  }

  /** Picking with the index at position `k` left out loses exactly the element that index picks. */
  lemma PickRemoveAt(v: seq<Handle>, rho: seq<int>, k: nat)
    requires IndicesIn(rho, |v|) && k < |rho|
    ensures IndicesIn(rho[..k] + rho[k + 1..], |v|)
    ensures multiset(Pick(v, rho)) == multiset(Pick(v, rho[..k] + rho[k + 1..])) + multiset{v[rho[k]]}
  {
    var rho' := rho[..k] + rho[k + 1..];
    assert Pick(v, rho') == Pick(v, rho)[..k] + Pick(v, rho)[k + 1..];
    RemoveAtMultiset(Pick(v, rho), k);
  }

  /** Picking by two index sequences with the same multiset picks the same multiset. */
  lemma {:induction false} PickMultiset(v: seq<Handle>, sigma: seq<int>, rho: seq<int>)
    requires IndicesIn(sigma, |v|) && IndicesIn(rho, |v|)
    requires multiset(sigma) == multiset(rho)
    ensures multiset(Pick(v, sigma)) == multiset(Pick(v, rho))
    decreases |sigma|
  {
    if sigma != [] {
      var n := |sigma| - 1;
      var x := sigma[n];
      assert x in multiset(rho);
      var k :| 0 <= k < |rho| && rho[k] == x;
      RemoveAtMultiset(sigma, n);
      RemoveAtMultiset(rho, k);
      assert sigma[..n] == sigma[..n] + sigma[n + 1..];
      PickRemoveAt(v, sigma, n);
      PickRemoveAt(v, rho, k);
      PickMultiset(v, sigma[..n], rho[..k] + rho[k + 1..]);
    }
  }

  /** Picking by a permutation rearranges `v` without losing or adding anything. */
  lemma PickPermutation(v: seq<Handle>, sigma: seq<int>)
    requires IsPermutation(sigma, |v|)
    ensures forall i | 0 <= i < |sigma| :: 0 <= sigma[i] < |v|
    ensures multiset(Pick(v, sigma)) == multiset(v)
  {
    forall i | 0 <= i < |sigma| ensures 0 <= sigma[i] < |v| {
      assert sigma[i] in multiset(Range(|v|));
    }
    PickMultiset(v, sigma, Range(|v|));
    assert Pick(v, Range(|v|)) == v;
  }

  /**
   * The arena after ReorderChildren(p, sigma) and before the order is
   * reassigned: each visible child V of p is removed (its parent cleared),
   * then V[sigma[0]], V[sigma[1]], ... are appended (their parent set to p).
   * The hidden children keep their place at the front.
   */
  function Reordered(elts: seq<DsmElement>, p: Handle, sigma: seq<int>): (r: seq<DsmElement>)
    requires p < |elts| && IndicesIn(sigma, |Children(elts, p)|)
    ensures |r| == |elts|
  {
    var v := Children(elts, p);
    var picked := Pick(v, sigma);
    seq(|elts|, x requires 0 <= x < |elts| => Reparented(elts, p, v, picked, x))
  }

  /** Element `x` after the reordering of `p`'s visible children `v` into `picked`. */
  function Reparented(elts: seq<DsmElement>, p: Handle, v: seq<Handle>, picked: seq<Handle>, x: Handle): DsmElement
    requires p < |elts| && x < |elts|
  {
    var e := if x == p then elts[x].(children := HiddenIn(elts, elts[p].children) + picked) else elts[x];
    if x in picked then e.(parent := Some(p))
    else if x in v then e.(parent := None)
    else e
  }

  /** Reordering edits only `p`'s child list and the parents of `p`'s visible children. */
  lemma ReorderedAt(elts: seq<DsmElement>, p: Handle, sigma: seq<int>)
    requires p < |elts| && IndicesIn(sigma, |Children(elts, p)|)
    ensures var r := Reordered(elts, p, sigma);
      && SameFlags(elts, r)
      && (forall x | 0 <= x < |elts| :: r[x] == elts[x].(children := r[x].children, parent := r[x].parent))
      && (forall x | 0 <= x < |elts| && x != p :: r[x].children == elts[x].children)
      && r[p].children == HiddenIn(elts, elts[p].children) + Pick(Children(elts, p), sigma)
  {
    ReorderedLinks(elts, p, sigma);
  }

  /** `Reordered`, field by field. */
  lemma ReorderedLinks(elts: seq<DsmElement>, p: Handle, sigma: seq<int>)
    requires p < |elts| && IndicesIn(sigma, |Children(elts, p)|)
    ensures var r := Reordered(elts, p, sigma);
      && Relinked(elts, r)
      && r[p].children == HiddenIn(elts, elts[p].children) + Pick(Children(elts, p), sigma)
      && (forall x | 0 <= x < |elts| && x != p :: r[x].children == elts[x].children)
      && forall x | 0 <= x < |elts| ::
        r[x].parent == if x in Pick(Children(elts, p), sigma) then Some(p) else if x in Children(elts, p) then None else elts[x].parent
  {
    var r := Reordered(elts, p, sigma);
    var v := Children(elts, p);
    var picked := Pick(v, sigma);
    forall x | 0 <= x < |elts|
      ensures r[x] == Reparented(elts, p, v, picked, x)
      ensures r[x] == elts[x].(children := r[x].children, parent := r[x].parent)
    {
    }
  }

  /** Reordering never makes the root anybody's child, nor gives it a parent. */
  lemma ReorderedRoot(elts: seq<DsmElement>, p: Handle, sigma: seq<int>)
    requires |elts| > 0 && p < |elts| && IndicesIn(sigma, |Children(elts, p)|) && !IsChild(elts, ROOT)
    ensures var r := Reordered(elts, p, sigma);
      r[ROOT].parent == elts[ROOT].parent && !IsChild(r, ROOT)
  {
    var r := Reordered(elts, p, sigma);
    var v := Children(elts, p);
    var picked := Pick(v, sigma);
    ReorderedLinks(elts, p, sigma);
    assert ROOT !in elts[p].children;
    assert ROOT !in picked by {
      forall i | 0 <= i < |picked| ensures picked[i] != ROOT {
        assert picked[i] in v;
      }
    }
    forall z | 0 <= z < |r| ensures ROOT !in r[z].children {
      if z == p {
        assert ROOT !in HiddenIn(elts, elts[p].children);
      } else {
        assert ROOT !in elts[z].children;
      }
    }
  }

  lemma VisibleInAllShown(elts: seq<DsmElement>, s: seq<Handle>)
    requires forall i | 0 <= i < |s| :: Shown(elts, s[i])
    ensures VisibleIn(elts, s) == s && HiddenIn(elts, s) == []
  {
    if s != [] { VisibleInAllShown(elts, s[1..]); }
  }

  lemma VisibleInNoneShown(elts: seq<DsmElement>, s: seq<Handle>)
    requires forall i | 0 <= i < |s| :: !Shown(elts, s[i])
    ensures VisibleIn(elts, s) == [] && HiddenIn(elts, s) == s
  {
    if s != [] { VisibleInNoneShown(elts, s[1..]); }
  }

  /**
   * What ReorderChildren does to the parent: its visible children are now
   * exactly the picked ones, in the picked order, behind the hidden ones; when
   * `sigma` is a permutation the child list holds the same elements as before.
   */
  lemma ReorderedChildren(elts: seq<DsmElement>, p: Handle, sigma: seq<int>)
    requires p < |elts| && IndicesIn(sigma, |Children(elts, p)|)
    ensures var r := Reordered(elts, p, sigma);
      && r[p].children == HiddenIn(elts, elts[p].children) + Pick(Children(elts, p), sigma)
      && Children(r, p) == Pick(Children(elts, p), sigma)
      && HiddenIn(r, r[p].children) == HiddenIn(elts, elts[p].children)
      && (IsPermutation(sigma, |Children(elts, p)|) ==> multiset(r[p].children) == multiset(elts[p].children))
  {
    var r := Reordered(elts, p, sigma);
    var v := Children(elts, p);
    var hidden := HiddenIn(elts, elts[p].children);
    var picked := Pick(v, sigma);
    ReorderedAt(elts, p, sigma);
    forall i | 0 <= i < |picked| ensures Shown(elts, picked[i]) {
      assert picked[i] in v;
    }
    forall i | 0 <= i < |hidden| ensures !Shown(elts, hidden[i]) {
      assert hidden[i] in hidden;
    }
    VisibleInAllShown(elts, picked);
    VisibleInNoneShown(elts, hidden);
    FilterAppend(elts, hidden, picked);
    VisibleInSame(elts, r, r[p].children);
    if IsPermutation(sigma, |v|) {
      ReorderedPermutes(elts, p, sigma);
    }
  }

  /** When `sigma` is a permutation, the parent's child list holds the same elements as before. */
  lemma ReorderedPermutes(elts: seq<DsmElement>, p: Handle, sigma: seq<int>)
    requires p < |elts| && IsPermutation(sigma, |Children(elts, p)|)
    ensures IndicesIn(sigma, |Children(elts, p)|)
    ensures multiset(Reordered(elts, p, sigma)[p].children) == multiset(elts[p].children)
  {
    var v := Children(elts, p);
    PickPermutation(v, sigma);
    ReorderedAt(elts, p, sigma);
    FilterSplit(elts, elts[p].children);
  }

  /** Reordering only drops visible edges out of `p`; nothing else is walked differently. */
  lemma ReorderedFewerEdges(elts: seq<DsmElement>, p: Handle, sigma: seq<int>)
    requires p < |elts| && IndicesIn(sigma, |Children(elts, p)|)
    ensures forall y, c | 0 <= y < |elts| && c in Children(Reordered(elts, p, sigma), y) :: c in Children(elts, y)
  {
    var r := Reordered(elts, p, sigma);
    ReorderedChildren(elts, p, sigma);
    ReorderedAt(elts, p, sigma);
    forall y | 0 <= y < |elts| && y != p ensures Children(r, y) == Children(elts, y) {
      VisibleInSame(elts, r, elts[y].children);
    }
  }

  // ---------------------------------------------------------------------------
  // ReorderChildren statement by statement

  /** Only child lists and parents differ. */
  ghost predicate Relinked(e0: seq<DsmElement>, e1: seq<DsmElement>)
  {
    |e0| == |e1| && forall x | 0 <= x < |e0| :: e1[x] == e0[x].(children := e1[x].children, parent := e1[x].parent)
  }

  /** One `RemoveChild`: only `p`'s child list and `c`'s parent change. */
  lemma WithoutChildShape(e: seq<DsmElement>, p: Handle, c: Handle)
    requires Linked(e) && p < |e| && c < |e|
    ensures var r := WithoutChild(e, p, c);
      && Linked(r) && Relinked(e, r)
      && (forall x | 0 <= x < |e| && x != p :: r[x].children == e[x].children)
      && (forall x | 0 <= x < |e| :: r[x].parent == if x == c then None else e[x].parent)
  {
    WithoutChildLinked(e, p, c);
  }

  /** One `AddChild`: only `p`'s child list and `c`'s parent change. */
  lemma WithChildShape(e: seq<DsmElement>, p: Handle, c: Handle)
    requires Linked(e) && p < |e| && c < |e|
    ensures var r := WithChild(e, p, c);
      && Linked(r) && Relinked(e, r)
      && (forall x | 0 <= x < |e| && x != p :: r[x].children == e[x].children)
      && (forall x | 0 <= x < |e| :: r[x].parent == if x == c then Some(p) else e[x].parent)
  {
    WithChildLinked(e, p, c);
  }

  /** `p.RemoveChild(c)` for each `c` of `s` in turn. */
  function RemovedAll(elts: seq<DsmElement>, p: Handle, s: seq<Handle>): (r: seq<DsmElement>)
    requires p < |elts| && InBounds(elts, s)
    ensures |r| == |elts|
    decreases |s|
  {
    if s == [] then elts else WithoutChild(RemovedAll(elts, p, s[..|s| - 1]), p, s[|s| - 1])
  }

  /** `p.AddChild(c)` for each `c` of `s` in turn. */
  function AddedAll(elts: seq<DsmElement>, p: Handle, s: seq<Handle>): (r: seq<DsmElement>)
    requires p < |elts| && InBounds(elts, s)
    ensures |r| == |elts|
    decreases |s|
  {
    if s == [] then elts else WithChild(AddedAll(elts, p, s[..|s| - 1]), p, s[|s| - 1])
  }

  /** Removing the elements of `s` from `p` clears exactly their parents and touches no other child list. */
  lemma {:induction false} RemovedAllShape(elts: seq<DsmElement>, p: Handle, s: seq<Handle>)
    requires Linked(elts) && p < |elts| && InBounds(elts, s)
    ensures var r := RemovedAll(elts, p, s);
      && Linked(r) && Relinked(elts, r)
      && (forall x | 0 <= x < |elts| && x != p :: r[x].children == elts[x].children)
      && (forall x | 0 <= x < |elts| :: r[x].parent == if x in s then None else elts[x].parent)
    decreases |s|
  {
    if s != [] {
      var s', c := s[..|s| - 1], s[|s| - 1];
      LastSplit(s);
      InBoundsPrefix(elts, s, |s| - 1);
      RemovedAllShape(elts, p, s');
      var r' := RemovedAll(elts, p, s');
      WithoutChildShape(r', p, c);
      RelinkedTrans(elts, r', WithoutChild(r', p, c));
    }
  }

  /** One round of the first loop of ReorderChildren: removing `s[i]` after `s[..i]`. */
  lemma RemovedAllNext(elts: seq<DsmElement>, p: Handle, s: seq<Handle>, i: nat)
    requires Linked(elts) && p < |elts| && InBounds(elts, s) && i < |s|
    ensures InBounds(elts, s[..i]) && InBounds(elts, s[..i + 1]) && s[i] < |elts|
    ensures Linked(RemovedAll(elts, p, s[..i]))
    ensures RemovedAll(elts, p, s[..i + 1]) == WithoutChild(RemovedAll(elts, p, s[..i]), p, s[i])
  {
    InBoundsPrefix(elts, s, i);
    InBoundsPrefix(elts, s, i + 1);
    RemovedAllShape(elts, p, s[..i]);
    assert s[..i + 1][..i] == s[..i];
  }

  /** One round of the second loop of ReorderChildren: appending `s[i]` after `s[..i]`. */
  lemma AddedAllNext(elts: seq<DsmElement>, p: Handle, s: seq<Handle>, i: nat)
    requires Linked(elts) && p < |elts| && InBounds(elts, s) && i < |s|
    ensures InBounds(elts, s[..i]) && InBounds(elts, s[..i + 1]) && s[i] < |elts|
    ensures Linked(AddedAll(elts, p, s[..i]))
    ensures AddedAll(elts, p, s[..i + 1]) == WithChild(AddedAll(elts, p, s[..i]), p, s[i])
  {
    InBoundsPrefix(elts, s, i);
    InBoundsPrefix(elts, s, i + 1);
    AddedAllShape(elts, p, s[..i]);
    assert s[..i + 1][..i] == s[..i];
  }

  /**
   * Removing the first visible children `s` of `p` one by one, in their
   * order, leaves the remaining visible children and all hidden ones in place.
   */
  lemma {:induction false} RemovedAllVisible(elts: seq<DsmElement>, p: Handle, s: seq<Handle>, rest: seq<Handle>)
    requires p < |elts| && InBounds(elts, s) && VisibleIn(elts, elts[p].children) == s + rest
    ensures VisibleIn(elts, RemovedAll(elts, p, s)[p].children) == rest
    ensures HiddenIn(elts, RemovedAll(elts, p, s)[p].children) == HiddenIn(elts, elts[p].children)
    decreases |s|
  {
    if s == [] {
      assert s + rest == rest;
    } else {
      var s', c := s[..|s| - 1], s[|s| - 1];
      LastSplit(s);
      InBoundsPrefix(elts, s, |s| - 1);
      assert s + rest == s' + ([c] + rest);
      RemovedAllVisible(elts, p, s', [c] + rest);
      RemovedAllLast(elts, p, s);
      RemoveFirstVisibleHead(elts, RemovedAll(elts, p, s')[p].children, c, rest);
    }
  }

  /** The last removal of `RemovedAll`. */
  lemma RemovedAllLast(elts: seq<DsmElement>, p: Handle, s: seq<Handle>)
    requires p < |elts| && InBounds(elts, s) && s != []
    ensures InBounds(elts, s[..|s| - 1])
    ensures RemovedAll(elts, p, s)[p].children == RemoveFirst(RemovedAll(elts, p, s[..|s| - 1])[p].children, s[|s| - 1])
  {
  }

  /** Removing the first visible element `c` of a list leaves the visible elements after it and all hidden ones. */
  lemma RemoveFirstVisibleHead(elts: seq<DsmElement>, s: seq<Handle>, c: Handle, rest: seq<Handle>)
    requires VisibleIn(elts, s) == [c] + rest
    ensures VisibleIn(elts, RemoveFirst(s, c)) == rest && HiddenIn(elts, RemoveFirst(s, c)) == HiddenIn(elts, s)
  {
    RemoveFirstVisible(elts, s);
  }

  /** Appending the elements of `s` to `p` sets exactly their parents and touches no other child list. */
  lemma {:induction false} AddedAllShape(elts: seq<DsmElement>, p: Handle, s: seq<Handle>)
    requires Linked(elts) && p < |elts| && InBounds(elts, s)
    ensures var r := AddedAll(elts, p, s);
      && Linked(r) && Relinked(elts, r)
      && (forall x | 0 <= x < |elts| && x != p :: r[x].children == elts[x].children)
      && r[p].children == elts[p].children + s
      && (forall x | 0 <= x < |elts| :: r[x].parent == if x in s then Some(p) else elts[x].parent)
    decreases |s|
  {
    if s != [] {
      var s', c := s[..|s| - 1], s[|s| - 1];
      LastSplit(s);
      InBoundsPrefix(elts, s, |s| - 1);
      AddedAllShape(elts, p, s');
      var r' := AddedAll(elts, p, s');
      WithChildShape(r', p, c);
      RelinkedTrans(elts, r', WithChild(r', p, c));
      assert elts[p].children + s == (elts[p].children + s') + [c];
    }
  }

  /** ReorderChildren's two loops together make exactly the edit `Reordered` describes. */
  lemma ReorderSteps(elts: seq<DsmElement>, p: Handle, sigma: seq<int>)
    requires Linked(elts) && p < |elts| && IndicesIn(sigma, |Children(elts, p)|)
    ensures var v := Children(elts, p);
      var e1 := RemovedAll(elts, p, v);
      && Linked(e1) && InBounds(e1, Pick(v, sigma))
      && AddedAll(e1, p, Pick(v, sigma)) == Reordered(elts, p, sigma)
      && Linked(Reordered(elts, p, sigma))
  {
    var v := Children(elts, p);
    var picked := Pick(v, sigma);
    var e1 := RemovedAll(elts, p, v);
    RemovedAllChildren(elts, p);
    assert InBounds(e1, picked) by {
      assert forall i | 0 <= i < |picked| :: picked[i] in v;
    }
    AddedAllShape(e1, p, picked);
    var e2 := AddedAll(e1, p, picked);
    RelinkedTrans(elts, e1, e2);
    ParentsComposed(elts, p, v, picked, e1, e2);
    ReorderedUnique(elts, p, sigma, e2);
  }

  /** The parents and child lists after the second loop of ReorderChildren, in terms of those before the first. */
  lemma ParentsComposed(elts: seq<DsmElement>, p: Handle, v: seq<Handle>, picked: seq<Handle>, e1: seq<DsmElement>, e2: seq<DsmElement>)
    requires |e1| == |elts| && |e2| == |elts|
    requires forall x | 0 <= x < |elts| && x != p :: e1[x].children == elts[x].children
    requires forall x | 0 <= x < |elts| :: e1[x].parent == if x in v then None else elts[x].parent
    requires forall x | 0 <= x < |elts| && x != p :: e2[x].children == e1[x].children
    requires forall x | 0 <= x < |elts| :: e2[x].parent == if x in picked then Some(p) else e1[x].parent
    ensures forall x | 0 <= x < |elts| && x != p :: e2[x].children == elts[x].children
    ensures forall x | 0 <= x < |elts| :: e2[x].parent == if x in picked then Some(p) else if x in v then None else elts[x].parent
  {
  }

  /** The first loop of ReorderChildren, as a whole: `p` keeps only its hidden children, and its visible ones lose their parent. */
  lemma RemovedAllChildren(elts: seq<DsmElement>, p: Handle)
    requires Linked(elts) && p < |elts|
    ensures var e1 := RemovedAll(elts, p, Children(elts, p));
      && Linked(e1) && Relinked(elts, e1)
      && e1[p].children == HiddenIn(elts, elts[p].children)
      && (forall x | 0 <= x < |elts| && x != p :: e1[x].children == elts[x].children)
      && (forall x | 0 <= x < |elts| :: e1[x].parent == if x in Children(elts, p) then None else elts[x].parent)
  {
    var v := Children(elts, p);
    var e1 := RemovedAll(elts, p, v);
    RemovedAllShape(elts, p, v);
    assert VisibleIn(elts, elts[p].children) == v + [];
    RemovedAllVisible(elts, p, v, []);
    NoVisibleIsHidden(elts, e1[p].children);
  }

  /** The arena `Reordered` describes is the only relinking with its child lists and parents. */
  lemma ReorderedUnique(elts: seq<DsmElement>, p: Handle, sigma: seq<int>, e2: seq<DsmElement>)
    requires p < |elts| && IndicesIn(sigma, |Children(elts, p)|) && Relinked(elts, e2)
    requires e2[p].children == HiddenIn(elts, elts[p].children) + Pick(Children(elts, p), sigma)
    requires forall x | 0 <= x < |elts| && x != p :: e2[x].children == elts[x].children
    requires forall x | 0 <= x < |elts| ::
      e2[x].parent == if x in Pick(Children(elts, p), sigma) then Some(p) else if x in Children(elts, p) then None else elts[x].parent
    ensures e2 == Reordered(elts, p, sigma)
  {
    var r := Reordered(elts, p, sigma);
    ReorderedLinks(elts, p, sigma);
    RelinkedEqual(elts, e2, r);
  }

  lemma RelinkedTrans(e0: seq<DsmElement>, e1: seq<DsmElement>, e2: seq<DsmElement>)
    requires Relinked(e0, e1) && Relinked(e1, e2)
    ensures Relinked(e0, e2)
  {
  }

  /** Two relinkings of the same arena that agree on child lists and parents are the same arena. */
  lemma RelinkedEqual(e0: seq<DsmElement>, e1: seq<DsmElement>, e2: seq<DsmElement>)
    requires Relinked(e0, e1) && Relinked(e0, e2)
    requires forall x | 0 <= x < |e0| :: e1[x].children == e2[x].children && e1[x].parent == e2[x].parent
    ensures e1 == e2
  {
  }

  // ---------------------------------------------------------------------------
  // Swapping two siblings (DsmElementModel.Swap over DsmElement.Swap)

  /** The model's Swap acts when both elements have the same parent and both are in its `_children`. */
  predicate SwapApplies(elts: seq<DsmElement>, a: Handle, b: Handle)
    requires Linked(elts) && a < |elts| && b < |elts|
  {
    elts[a].parent == elts[b].parent && elts[a].parent.Some?
    && a in elts[elts[a].parent.value].children && b in elts[elts[a].parent.value].children
  }

  /** The arena after the parent's `_children` swap, before the order is reassigned. */
  function SwappedIn(elts: seq<DsmElement>, a: Handle, b: Handle): (r: seq<DsmElement>)
    requires Linked(elts) && a < |elts| && b < |elts| && SwapApplies(elts, a, b)
    ensures |r| == |elts|
  {
    var p := elts[a].parent.value;
    elts[p := elts[p].(children := Swapped(elts[p].children, a, b))]
  }

  /** A swap keeps the set of visible edges: only their order under the parent changes. */
  lemma SwappedSameEdges(elts: seq<DsmElement>, a: Handle, b: Handle)
    requires Linked(elts) && a < |elts| && b < |elts| && SwapApplies(elts, a, b)
    ensures forall y, c | 0 <= y < |elts| :: c in Children(SwappedIn(elts, a, b), y) <==> c in Children(elts, y)
    ensures Linked(SwappedIn(elts, a, b))
  {
    var p := elts[a].parent.value;
    var r := SwappedIn(elts, a, b);
    forall c ensures c in r[p].children <==> c in elts[p].children {
      assert c in r[p].children <==> c in multiset(r[p].children);
    }
    forall y, c | 0 <= y < |elts| ensures c in Children(r, y) <==> c in Children(elts, y) {
      assert Shown(r, c) == Shown(elts, c);
      if y != p {
        assert r[y] == elts[y];
      }
    }
    forall i | 0 <= i < |r[p].children| ensures r[p].children[i] < |elts| {
      assert r[p].children[i] in elts[p].children;
    }
  }

  /** A swap reads no order and changes none, so it commutes with a change of orders. */
  lemma SwappedInOrders(e1: seq<DsmElement>, e2: seq<DsmElement>, a: Handle, b: Handle)
    requires Linked(e1) && SameButOrders(e1, e2) && a < |e1| && b < |e1| && SwapApplies(e1, a, b)
    ensures Linked(e2) && SwapApplies(e2, a, b)
    ensures SameButOrders(SwappedIn(e1, a, b), SwappedIn(e2, a, b))
    ensures forall x | 0 <= x < |e2| :: SwappedIn(e2, a, b)[x].order == e2[x].order
  {
    assert forall x | 0 <= x < |e1| :: e2[x].children == e1[x].children && e2[x].parent == e1[x].parent;
  }

  // ---------------------------------------------------------------------------
  // Siblings (IDsmElement.NextSibling, PreviousSibling)

  /** The visible child of the same parent right after `h`, if any. */
  function NextSiblingOf(elts: seq<DsmElement>, h: Handle): (r: Option<Handle>)
    requires Linked(elts) && h < |elts|
    ensures r.Some? ==> elts[h].parent.Some? && r.value in Children(elts, elts[h].parent.value)
  {
    if elts[h].parent.None? then None
    else
      var sibs := Children(elts, elts[h].parent.value);
      if h in sibs && IndexOf(sibs, h) + 1 < |sibs| then Some(sibs[IndexOf(sibs, h) + 1]) else None
  }

  /** The visible child of the same parent right before `h`, if any. */
  function PreviousSiblingOf(elts: seq<DsmElement>, h: Handle): (r: Option<Handle>)
    requires Linked(elts) && h < |elts|
    ensures r.Some? ==> elts[h].parent.Some? && r.value in Children(elts, elts[h].parent.value)
  {
    if elts[h].parent.None? then None
    else
      var sibs := Children(elts, elts[h].parent.value);
      if h in sibs && IndexOf(sibs, h) > 0 then Some(sibs[IndexOf(sibs, h) - 1]) else None
  }

  /** Among siblings listed once each, `n` follows `h` exactly when `h` precedes `n`. */
  lemma SiblingsInverse(elts: seq<DsmElement>, h: Handle, n: Handle)
    requires Linked(elts) && h < |elts| && n < |elts|
    requires elts[h].parent.Some? && elts[n].parent == elts[h].parent
    requires NoDuplicates(Children(elts, elts[h].parent.value))
    ensures NextSiblingOf(elts, h) == Some(n) <==> PreviousSiblingOf(elts, n) == Some(h)
  {
    var sibs := Children(elts, elts[h].parent.value);
    if NextSiblingOf(elts, h) == Some(n) {
      var i := IndexOf(sibs, h);
      IndexOfUnique(sibs, i + 1);
    }
    if PreviousSiblingOf(elts, n) == Some(h) {
      var j := IndexOf(sibs, n);
      IndexOfUnique(sibs, j - 1);
    }
  }

  // ---------------------------------------------------------------------------
  // Detaching from the parent (DsmElementModel.RemoveElementFromParent)

  /** `h` leaves its parent's `_children` and loses its parent; the parent collapses when it has no visible child left. */
  function Detached(elts: seq<DsmElement>, h: Handle): (r: seq<DsmElement>)
    requires Linked(elts) && h < |elts|
    ensures |r| == |elts| && r[h].parent == None
  {
    match elts[h].parent
    case None => elts
    case Some(p) =>
      var e := WithoutChild(elts, p, h);
      if HasChildren(e, p) then e else e[p := e[p].(isExpanded := false)]
  }

  // ---------------------------------------------------------------------------
  // Soft delete (DsmElementModel.UnregisterElement)

  /** The two id dictionaries of DsmElementModel together with the arena they point into. */
  datatype Registry = Registry(elements: seq<DsmElement>, live: map<int, Handle>, deleted: map<int, Handle>)

  /** `e1` differs from `e0` only in `IsDeleted` flags that were raised. */
  ghost predicate OnlyDeletes(e0: seq<DsmElement>, e1: seq<DsmElement>)
  {
    |e0| == |e1| &&
    forall x | 0 <= x < |e0| :: e1[x] == e0[x].(isDeleted := e1[x].isDeleted) && (e0[x].isDeleted ==> e1[x].isDeleted)
  }

  lemma OnlyDeletesTrans(e0: seq<DsmElement>, e1: seq<DsmElement>, e2: seq<DsmElement>)
    requires OnlyDeletes(e0, e1) && OnlyDeletes(e1, e2)
    ensures OnlyDeletes(e0, e2)
  {
  }

  /** Raising flags only hides children: a visible child afterwards was a visible child before. */
  lemma OnlyDeletesHides(e0: seq<DsmElement>, e1: seq<DsmElement>, x: Handle)
    requires OnlyDeletes(e0, e1) && x < |e0|
    ensures forall c | c in Children(e1, x) :: c in Children(e0, x)
    ensures Children(e0, x) == [] ==> Children(e1, x) == []
  {
    if Children(e1, x) != [] {
      assert Children(e1, x)[0] in Children(e1, x);
    }
  }

  /** `h` together with every element whose flag went up between `e0` and `e1`. */
  ghost function Touched(e0: seq<DsmElement>, e1: seq<DsmElement>, h: Handle): set<Handle>
    requires |e0| == |e1|
  {
    set x | 0 <= x < |e0| && (x == h || (e1[x].isDeleted && !e0[x].isDeleted))
  }

  ghost function IdsOf(elts: seq<DsmElement>, t: set<Handle>): set<int>
  {
    set x | x in t && x < |elts| :: elts[x].id
  }

  lemma IdsOfUnion(e0: seq<DsmElement>, e1: seq<DsmElement>, a: set<Handle>, b: set<Handle>)
    requires OnlyDeletes(e0, e1)
    ensures IdsOf(e0, a + b) == IdsOf(e0, a) + IdsOf(e1, b)
  {
    assert IdsOf(e0, b) == IdsOf(e1, b);
  }

  /**
   * What UnregisterElement(h) has done on the way from `s0` to `s` before
   * it has finished with `h`'s own children: `h` is deleted; every other
   * element it deleted has no visible child left and was a visible child of
   * a deleted element; every element it deleted lies below `h` over the
   * visible edges of `s0`; the ids of all of them left the live dictionary
   * and entered the deleted one, pointing at one of them.
   */
  ghost predicate UnregisterStep(s0: Registry, s: Registry, h: Handle)
  {
    OnlyDeletes(s0.elements, s.elements) && h < |s0.elements| && s.elements[h].isDeleted &&
    var t := Touched(s0.elements, s.elements, h);
    var ids := IdsOf(s0.elements, t);
    && (forall x | x in t && x != h :: Children(s.elements, x) == [])
    && (forall x | x in t && x != h :: Shown(s0.elements, x) && exists y | y in t :: x in s0.elements[y].children)
    && ReachedFrom(s0.elements, h, t)
    && s.live == s0.live - ids
    && s.deleted.Keys == s0.deleted.Keys + ids
    && (forall k | k in s0.deleted && k !in ids :: s.deleted[k] == s0.deleted[k])
    && (forall k | k in ids :: s.deleted[k] in t)
  }

  /** Every element of `t` is reached from `h`. */
  ghost predicate ReachedFrom(elts: seq<DsmElement>, h: Handle, t: set<Handle>)
    requires h < |elts|
  {
    forall x | x in t :: Reaches(elts, h, x)
  }

  /** UnregisterElement(h) finished: in addition, `h` itself has no visible child left. */
  ghost predicate Unregistered(s0: Registry, s: Registry, h: Handle)
  {
    UnregisterStep(s0, s, h) && Children(s.elements, h) == []
  }

  /** An unregistration leaves `c` deleted and keeps every flag that was already raised. */
  lemma UnregisteredKeepsFlags(sA: Registry, sB: Registry, s: seq<Handle>, i: nat)
    requires i < |s| && Unregistered(sA, sB, s[i]) && DeletedUpTo(sA.elements, s, i)
    ensures DeletedUpTo(sB.elements, s, i + 1)
  {
  }

  /** Once every child visible in `e1` is deleted, `h` has no visible child left. */
  lemma UnregisterFinish(e1: seq<DsmElement>, e2: seq<DsmElement>, h: Handle)
    requires h < |e1| && OnlyDeletes(e1, e2)
    requires DeletedUpTo(e2, Children(e1, h), |Children(e1, h)|)
    ensures Children(e2, h) == []
  {
    var children := Children(e1, h);
    forall j | 0 <= j < |e2[h].children| ensures !Shown(e2, e2[h].children[j]) {
      var x := e2[h].children[j];
      assert x in e1[h].children;
      if Shown(e1, x) {
        assert x in children;
        var k :| 0 <= k < |children| && children[k] == x;
      }
    }
    VisibleInNoneShown(e2, e2[h].children);
  }

  /** The first `i` elements listed in `s` are flagged as deleted. */
  ghost predicate DeletedUpTo(elts: seq<DsmElement>, s: seq<Handle>, i: nat)
  {
    forall j | 0 <= j < i && j < |s| :: s[j] < |elts| && elts[s[j]].isDeleted
  }

  /** The first statements of UnregisterElement: flag `h`, record it as deleted, drop its id from the live dictionary. */
  lemma UnregisterStart(s0: Registry, h: Handle)
    requires h < |s0.elements|
    ensures var e1 := s0.elements[h := s0.elements[h].(isDeleted := true)];
      var id := s0.elements[h].id;
      UnregisterStep(s0, Registry(e1, s0.live - {id}, s0.deleted[id := h]), h)
  {
    var e1 := s0.elements[h := s0.elements[h].(isDeleted := true)];
    assert Touched(s0.elements, e1, h) == {h};
    assert IdsOf(s0.elements, {h}) == {s0.elements[h].id};
    ReachesSelf(s0.elements, h);
  }

  lemma TouchedCompose(e0: seq<DsmElement>, eA: seq<DsmElement>, eB: seq<DsmElement>, h: Handle, c: Handle)
    requires OnlyDeletes(e0, eA) && OnlyDeletes(eA, eB) && h < |e0| && c < |e0|
    requires eB[c].isDeleted && !e0[c].isDeleted
    ensures Touched(e0, eB, h) == Touched(e0, eA, h) + Touched(eA, eB, c)
  {
  }

  lemma ComposeClosure(s0: Registry, sA: Registry, sB: Registry, h: Handle, c: Handle)
    requires UnregisterStep(s0, sA, h) && Unregistered(sA, sB, c)
    requires c != h && Shown(s0.elements, c)
    ensures Touched(s0.elements, sB.elements, h) == Touched(s0.elements, sA.elements, h) + Touched(sA.elements, sB.elements, c)
    ensures forall x | x in Touched(s0.elements, sB.elements, h) && x != h :: Children(sB.elements, x) == []
  {
    var e0, eA, eB := s0.elements, sA.elements, sB.elements;
    TouchedCompose(e0, eA, eB, h, c);
    var tA, tc, tB := Touched(e0, eA, h), Touched(eA, eB, c), Touched(e0, eB, h);
    forall x | x in tB && x != h ensures Children(eB, x) == [] {
      if x !in tc {
        OnlyDeletesHides(eA, eB, x);
      }
    }
  }

  lemma ComposeOrigin(s0: Registry, sA: Registry, sB: Registry, h: Handle, c: Handle)
    requires UnregisterStep(s0, sA, h) && Unregistered(sA, sB, c)
    requires c != h && c in s0.elements[h].children && Shown(s0.elements, c)
    requires Touched(s0.elements, sB.elements, h) == Touched(s0.elements, sA.elements, h) + Touched(sA.elements, sB.elements, c)
    ensures var tB := Touched(s0.elements, sB.elements, h);
      forall x | x in tB && x != h :: Shown(s0.elements, x) && exists y | y in tB :: x in s0.elements[y].children
  {
    var e0, eA, eB := s0.elements, sA.elements, sB.elements;
    var tA, tc, tB := Touched(e0, eA, h), Touched(eA, eB, c), Touched(e0, eB, h);
    forall x | x in tB && x != h
      ensures Shown(e0, x) && exists y | y in tB :: x in e0[y].children
    {
      if x == c {
        assert h in tB;
      } else if x in tc {
        var y :| y in tc && x in eA[y].children;
        assert y in tB;
      } else {
        var y :| y in tA && x in e0[y].children;
        assert y in tB;
      }
    }
  }

  /** What the recursion on the visible child `c` deleted lies below `h` as well. */
  lemma ComposeReach(s0: Registry, sA: Registry, sB: Registry, h: Handle, c: Handle)
    requires UnregisterStep(s0, sA, h) && Unregistered(sA, sB, c)
    requires c in s0.elements[h].children && Shown(s0.elements, c)
    ensures forall x | x in Touched(sA.elements, sB.elements, c) :: Reaches(s0.elements, h, x)
  {
    var e0, eA := s0.elements, sA.elements;
    forall y, z | 0 <= y < |e0| && z in Children(eA, y) ensures z in Children(e0, y) {
      OnlyDeletesHides(e0, eA, y);
    }
    forall x | x in Touched(eA, sB.elements, c) ensures Reaches(e0, h, x) {
      ReachesFewerEdges(e0, eA, c, x);
      ReachesStep(e0, h, c, x);
    }
  }

  /** The dictionary bookkeeping of two successive unregistrations adds up. */
  lemma ComposeIds(l0: map<int, Handle>, d0: map<int, Handle>, lA: map<int, Handle>, dA: map<int, Handle>,
                   lB: map<int, Handle>, dB: map<int, Handle>, idsA: set<int>, idsc: set<int>, tA: set<Handle>, tc: set<Handle>)
    requires lA == l0 - idsA && dA.Keys == d0.Keys + idsA
    requires (forall k | k in d0 && k !in idsA :: dA[k] == d0[k]) && (forall k | k in idsA :: dA[k] in tA)
    requires lB == lA - idsc && dB.Keys == dA.Keys + idsc
    requires (forall k | k in dA && k !in idsc :: dB[k] == dA[k]) && (forall k | k in idsc :: dB[k] in tc)
    ensures lB == l0 - (idsA + idsc) && dB.Keys == d0.Keys + (idsA + idsc)
    ensures forall k | k in d0 && k !in idsA + idsc :: dB[k] == d0[k]
    ensures forall k | k in idsA + idsc :: dB[k] in tA + tc
  {
    MapMinusTwice(l0, idsA, idsc);
  }

  lemma MapMinusTwice<K, V>(m: map<K, V>, a: set<K>, b: set<K>)
    ensures m - a - b == m - (a + b)
  {
  }

  /** The loop step of UnregisterElement: one more visible child `c` of `h` unregistered. */
  lemma UnregisterCompose(s0: Registry, sA: Registry, sB: Registry, h: Handle, c: Handle)
    requires UnregisterStep(s0, sA, h) && Unregistered(sA, sB, c)
    requires c != h && c in s0.elements[h].children && Shown(s0.elements, c)
    ensures UnregisterStep(s0, sB, h)
  {
    var e0, eA, eB := s0.elements, sA.elements, sB.elements;
    OnlyDeletesTrans(e0, eA, eB);
    ComposeClosure(s0, sA, sB, h, c);
    ComposeOrigin(s0, sA, sB, h, c);
    ComposeReach(s0, sA, sB, h, c);
    var tA, tc := Touched(e0, eA, h), Touched(eA, eB, c);
    IdsOfUnion(e0, eA, tA, tc);
    ComposeIds(s0.live, s0.deleted, sA.live, sA.deleted, sB.live, sB.deleted, IdsOf(e0, tA), IdsOf(eA, tc), tA, tc);
  }

  /**
   * UnregisterElement deletes every visible descendant: a visible child,
   * before the call, of any element the call deleted was deleted as well.
   */
  lemma UnregisteredClosed(s0: Registry, s: Registry, h: Handle)
    requires Unregistered(s0, s, h)
    ensures var t := Touched(s0.elements, s.elements, h);
      forall x, c | x in t && c in Children(s0.elements, x) :: c in t && s.elements[c].isDeleted
  {
    var t := Touched(s0.elements, s.elements, h);
    forall x, c | x in t && c in Children(s0.elements, x) ensures c in t && s.elements[c].isDeleted {
      assert c in s.elements[x].children;
    }
  }

  /**
   * UnregisterElement deletes exactly `h` and what lies below it: an element
   * is touched if and only if it is reached from `h` over the visible edges
   * the arena had before the call.
   */
  lemma UnregisteredExactly(s0: Registry, s: Registry, h: Handle)
    requires Unregistered(s0, s, h)
    ensures forall x | 0 <= x < |s0.elements| :: x in Touched(s0.elements, s.elements, h) <==> Reaches(s0.elements, h, x)
  {
    var t := Touched(s0.elements, s.elements, h);
    UnregisteredClosed(s0, s, h);
    forall x | 0 <= x < |s0.elements| && Reaches(s0.elements, h, x) ensures x in t {
      ReachesClosed(s0.elements, t, h, x);
    }
  }

  // ---------------------------------------------------------------------------
  // Restore (DsmElementModel.ReregisterElement)

  /** `h` with its `IsDeleted` flag cleared. */
  function Undeleted(elts: seq<DsmElement>, h: Handle): (r: seq<DsmElement>)
    requires h < |elts|
    ensures |r| == |elts| && !r[h].isDeleted
  {
    elts[h := elts[h].(isDeleted := false)]
  }

  /** The ids of the elements listed in `s`. */
  function IdsOfSeq(elts: seq<DsmElement>, s: seq<Handle>): set<int>
    requires InBounds(elts, s)
  {
    set i | 0 <= i < |s| :: elts[s[i]].id
  }

  /**
   * `RegisterElement` applied to the elements of `s` in turn: each id is
   * mapped to the last element of `s` carrying it; ids not in `s` keep
   * their entry.
   */
  function RegisterAll(m: map<int, Handle>, elts: seq<DsmElement>, s: seq<Handle>): (r: map<int, Handle>)
    requires InBounds(elts, s)
    decreases |s|
  {
    if s == [] then m
    else
      var s' := s[..|s| - 1];
      var x := s[|s| - 1];
      assert InBounds(elts, s') by {
        assert forall i | 0 <= i < |s'| :: s'[i] == s[i];
      }
      RegisterAll(m, elts, s')[elts[x].id := x]
  }

  /**
   * What re-registering the walk `s` leaves in the dictionary: the ids of
   * `s` are added, each mapped to an element of `s` that carries it, and
   * every other entry is kept.
   */
  lemma {:induction false} RegisterAllEntries(m: map<int, Handle>, elts: seq<DsmElement>, s: seq<Handle>)
    requires InBounds(elts, s)
    ensures var r := RegisterAll(m, elts, s);
      && r.Keys == m.Keys + IdsOfSeq(elts, s)
      && (forall k | k in r && k !in IdsOfSeq(elts, s) :: r[k] == m[k])
      && (forall k | k in IdsOfSeq(elts, s) :: r[k] in s && elts[r[k]].id == k)
    decreases |s|
  {
    if s != [] {
      var s' := s[..|s| - 1];
      var x := s[|s| - 1];
      assert forall i | 0 <= i < |s'| :: s'[i] == s[i];
      assert IdsOfSeq(elts, s) == IdsOfSeq(elts, s') + {elts[x].id};
      assert forall y | y in s' :: y in s;
      RegisterAllEntries(m, elts, s');
    }
  }

  lemma IdsOfSeqAppend(elts: seq<DsmElement>, s: seq<Handle>, t: seq<Handle>)
    requires InBounds(elts, s) && InBounds(elts, t)
    ensures InBounds(elts, s + t) && IdsOfSeq(elts, s + t) == IdsOfSeq(elts, s) + IdsOfSeq(elts, t)
  {
    InBoundsAppend(elts, s, t);
    var st := s + t;
    forall k | k in IdsOfSeq(elts, st) ensures k in IdsOfSeq(elts, s) + IdsOfSeq(elts, t) {
      var i :| 0 <= i < |st| && elts[st[i]].id == k;
      if i < |s| { assert st[i] == s[i]; } else { assert st[i] == t[i - |s|]; }
    }
    forall k | k in IdsOfSeq(elts, s) + IdsOfSeq(elts, t) ensures k in IdsOfSeq(elts, st) {
      if k in IdsOfSeq(elts, s) {
        var i :| 0 <= i < |s| && elts[s[i]].id == k;
        assert st[i] == s[i];
      } else {
        var i :| 0 <= i < |t| && elts[t[i]].id == k;
        assert st[|s| + i] == t[i];
      }
    }
  }

  lemma {:induction false} RegisterAllAppend(m: map<int, Handle>, elts: seq<DsmElement>, s: seq<Handle>, t: seq<Handle>)
    requires InBounds(elts, s) && InBounds(elts, t)
    ensures InBounds(elts, s + t)
    ensures RegisterAll(m, elts, s + t) == RegisterAll(RegisterAll(m, elts, s), elts, t)
    decreases |t|
  {
    InBoundsAppend(elts, s, t);
    var st := s + t;
    if t == [] {
      assert st == s;
    } else {
      var t' := t[..|t| - 1];
      var x := t[|t| - 1];
      assert InBounds(elts, t') by {
        assert forall i | 0 <= i < |t'| :: t'[i] == t[i];
      }
      assert st[..|st| - 1] == s + t' && st[|st| - 1] == x;
      RegisterAllAppend(m, elts, s, t');
    }
  }

  /**
   * ReregisterElement(h) walks the arena in which `h` is no longer deleted;
   * every other element it visits is visible, so an element that was
   * soft-deleted (other than `h`) is never visited and never registered again.
   */
  lemma RestoreSkipsDeleted(elts: seq<DsmElement>, h: Handle, d: nat, y: Handle)
    requires h < |elts| && y < |elts| && y != h && elts[y].isDeleted
    ensures y !in PreOrder(Undeleted(elts, h), h, d)
  {
    PreOrderMembers(Undeleted(elts, h), h, d);
  }

  /** The elements a restore walks are all not deleted once `h`'s flag is cleared. */
  lemma RestoreVisitsUndeleted(elts: seq<DsmElement>, h: Handle, d: nat)
    requires h < |elts|
    ensures forall y | y in PreOrder(Undeleted(elts, h), h, d) :: !Undeleted(elts, h)[y].isDeleted
  {
    PreOrderMembers(Undeleted(elts, h), h, d);
  }
}
