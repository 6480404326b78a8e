// DsmElementModel (DsmElementModel.cs): the registry of live and soft-deleted
// elements by id, the id watermark, and the editor of the element hierarchy.
// DsmElement objects live in the arena `elements`; a DsmElement method
// applied to an object becomes a method of the model applied to a handle.

module ElementModel {
  import opened Wrappers
  import opened Element
  import opened Hierarchy
  import opened Edits

  /**
   * The consistency DsmElementModel keeps: handles stay in the arena, the
   * root has no parent and is nobody's child, and each dictionary maps an id
   * to a non-root element with that id, live ones not deleted and deleted
   * ones deleted.
   */
  ghost predicate ValidState(s: Registry)
  {
    var e := s.elements;
    |e| > 0 && Linked(e) && e[ROOT].parent == None && !IsChild(e, ROOT)
    && (forall k {:trigger s.live[k]} | k in s.live :: 0 < s.live[k] < |e| && e[s.live[k]].id == k && !e[s.live[k]].isDeleted)
    && (forall k {:trigger s.deleted[k]} | k in s.deleted :: 0 < s.deleted[k] < |e| && e[s.deleted[k]].id == k && e[s.deleted[k]].isDeleted)
  }

  /** The element registered as live under `id`: a non-root element carrying that id, not deleted. */
  function LiveHandle(s: Registry, id: int): (h: Handle)
    requires ValidState(s) && id in s.live
    ensures h == s.live[id] && 0 < h < |s.elements| && s.elements[h].id == id && !s.elements[h].isDeleted
  {
    s.live[id]
  }

  /** The element registered as deleted under `id`: a non-root element carrying that id, deleted. */
  function DeletedHandle(s: Registry, id: int): (h: Handle)
    requires ValidState(s) && id in s.deleted
    ensures h == s.deleted[id] && 0 < h < |s.elements| && s.elements[h].id == id && s.elements[h].isDeleted
  {
    s.deleted[id]
  }

  /** Ids and deleted flags agree: what the dictionaries see of each element. */
  ghost predicate SameIdentity(e0: seq<DsmElement>, e1: seq<DsmElement>)
  {
    |e0| == |e1| && forall x | 0 <= x < |e0| :: e1[x].id == e0[x].id && e1[x].isDeleted == e0[x].isDeleted
  }

  /** An edit that keeps ids and flags, the arena linked and the root parentless and nobody's child keeps the state consistent. */
  lemma ValidReshaped(s: Registry, e1: seq<DsmElement>)
    requires ValidState(s) && SameIdentity(s.elements, e1) && Linked(e1)
    requires e1[ROOT].parent == None && !IsChild(e1, ROOT)
    ensures ValidState(Registry(e1, s.live, s.deleted))
  {
  }

  /** An edit of names, types, orders or expansion only keeps the state consistent. */
  lemma ValidRelabelled(s: Registry, e1: seq<DsmElement>)
    requires ValidState(s) && SameIdentity(s.elements, e1)
    requires forall x | 0 <= x < |e1| :: e1[x].children == s.elements[x].children && e1[x].parent == s.elements[x].parent
    ensures ValidState(Registry(e1, s.live, s.deleted))
  {
    forall z | 0 <= z < |e1| ensures ROOT !in e1[z].children && InBounds(e1, e1[z].children) {
      assert InBounds(s.elements, s.elements[z].children);
    }
    ValidReshaped(s, e1);
  }

  /** Reordering the visible children of one element keeps the state consistent. */
  lemma ValidReordered(s: Registry, p: Handle, sigma: seq<int>)
    requires ValidState(s) && p < |s.elements| && IndicesIn(sigma, |Children(s.elements, p)|)
    ensures ValidState(Registry(Reordered(s.elements, p, sigma), s.live, s.deleted))
  {
    var e0 := s.elements;
    var e1 := Reordered(e0, p, sigma);
    ReorderSteps(e0, p, sigma);
    ReorderedRoot(e0, p, sigma);
    ReorderedLinks(e0, p, sigma);
    RelinkedIdentity(e0, e1);
    ValidReshaped(s, e1);
  }

  /** Replacing a child list by a rearrangement of itself keeps the state consistent. */
  lemma ValidSwappedList(s: Registry, p: Handle, children: seq<Handle>)
    requires ValidState(s) && p < |s.elements| && multiset(children) == multiset(s.elements[p].children)
    ensures ValidState(Registry(s.elements[p := s.elements[p].(children := children)], s.live, s.deleted))
  {
    var e1 := s.elements[p := s.elements[p].(children := children)];
    forall c ensures c in children <==> c in s.elements[p].children {
      assert c in children <==> c in multiset(children);
      assert c in s.elements[p].children <==> c in multiset(s.elements[p].children);
    }
    forall z | 0 <= z < |e1| ensures ROOT !in e1[z].children && InBounds(e1, e1[z].children) {
      assert InBounds(s.elements, s.elements[z].children);
      assert ROOT !in s.elements[z].children;
      if z == p {
        forall i | 0 <= i < |children| ensures children[i] < |e1| {
          assert children[i] in s.elements[p].children;
        }
      }
    }
    ValidReshaped(s, e1);
  }

  /** Relinking keeps ids and flags. */
  lemma RelinkedIdentity(e0: seq<DsmElement>, e1: seq<DsmElement>)
    requires Relinked(e0, e1)
    ensures SameIdentity(e0, e1)
  {
    forall x | 0 <= x < |e0| ensures e1[x].id == e0[x].id && e1[x].isDeleted == e0[x].isDeleted {
      assert e1[x] == e0[x].(children := e1[x].children, parent := e1[x].parent);
    }
  }

  /** Swapping two siblings keeps the state consistent and the root's walk finite. */
  lemma ValidSwapped(s: Registry, a: Handle, b: Handle)
    requires ValidState(s) && a < |s.elements| && b < |s.elements| && SwapApplies(s.elements, a, b)
    requires OrderTerminates(s.elements)
    ensures var e1 := SwappedIn(s.elements, a, b);
      ValidState(Registry(e1, s.live, s.deleted)) && OrderTerminates(e1)
  {
    var e0 := s.elements;
    var e1 := SwappedIn(e0, a, b);
    SwappedSameEdges(e0, a, b);
    FiniteFewerEdges(e0, e1, ROOT, |e0|);
    forall z | 0 <= z < |e1| ensures ROOT !in e1[z].children {
      assert ROOT !in e0[z].children;
    }
    ValidReshaped(s, e1);
  }

  /** Before the `i`-th child visible under `h` is unregistered: it is a live, visible child of `h`, and the measure drops. */
  lemma UnregisterLoopEntry(s0: Registry, sA: Registry, e1: seq<DsmElement>, h: Handle, children: seq<Handle>, i: nat)
    requires ValidState(s0) && UnregisterStep(s0, sA, h) && OnlyDeletes(e1, sA.elements)
    requires h < |e1| && e1[h].isDeleted && children == Children(e1, h) && i < |children| && OnlyDeletes(s0.elements, e1)
    requires forall x | 0 <= x < |e1| && x != h :: e1[x] == s0.elements[x]
    ensures var c := children[i];
      && c in s0.elements[h].children && Shown(s0.elements, c) && 0 < c < |sA.elements| && c != h
      && 2 * |NonDeleted(sA.elements)| + (if sA.elements[c].isDeleted then 1 else 0)
         < 2 * |NonDeleted(s0.elements)| + (if s0.elements[h].isDeleted then 1 else 0)
  {
    var c := children[i];
    assert c in e1[h].children && Shown(e1, c);
    assert c != h && c in s0.elements[h].children;
    MeasureDrops(s0.elements, sA.elements, h, c);
  }

  /** After the `i`-th child visible under `h` is unregistered: the loop's invariant holds for `i + 1`. */
  lemma UnregisterLoopStep(s0: Registry, sA: Registry, sB: Registry, e1: seq<DsmElement>, h: Handle, children: seq<Handle>, i: nat)
    requires i < |children| && UnregisterStep(s0, sA, h) && Unregistered(sA, sB, children[i])
    requires children[i] != h && children[i] in s0.elements[h].children && Shown(s0.elements, children[i])
    requires OnlyDeletes(e1, sA.elements) && DeletedUpTo(sA.elements, children, i)
    ensures UnregisterStep(s0, sB, h) && OnlyDeletes(e1, sB.elements) && DeletedUpTo(sB.elements, children, i + 1)
  {
    UnregisterCompose(s0, sA, sB, h, children[i]);
    OnlyDeletesTrans(e1, sA.elements, sB.elements);
    UnregisteredKeepsFlags(sA, sB, children, i);
  }

  /** The first statements of ReregisterElement: the state stays consistent, and the dictionaries account for the walk of `h` alone. */
  lemma ReregisterStart(s: Registry, h: Handle, d: nat)
    requires ValidState(s) && 0 < h < |s.elements| && d > 0
    ensures var e1 := Undeleted(s.elements, h);
      var id := s.elements[h].id;
      && ValidState(Registry(e1, s.live[id := h], s.deleted - {id}))
      && [h] == [h] + PreOrderAll(e1, Children(e1, h)[..0], d - 1)
      && s.live[id := h] == RegisterAll(s.live, e1, [h])
      && s.deleted - {id} == s.deleted - IdsOfSeq(e1, [h])
  {
    ValidRegisterOne(s, h);
    var e1 := Undeleted(s.elements, h);
    var id := s.elements[h].id;
    assert [h] + PreOrderAll(e1, Children(e1, h)[..0], d - 1) == [h] by {
      assert Children(e1, h)[..0] == [];
    }
    assert IdsOfSeq(e1, [h]) == {id} by {
      assert [h][0] == h && e1[h].id == id;
    }
    assert RegisterAll(s.live, e1, [h]) == s.live[id := h] by {
      assert [h][..0] == [];
    }
  }

  /** The first statement of the private `AssignElementOrder`: numbering `h` alone changes no visible child list, and every child's walk stops. */
  lemma OrderStart(e0: seq<DsmElement>, h: Handle, d: nat, order: int)
    requires h < |e0| && Finite(e0, h, d)
    ensures var e1 := e0[h := e0[h].(order := order)];
      var kids := Children(e1, h);
      && d > 0 && InBounds(e0, [h]) && e1 == SetOrders(e0, [h], order)
      && kids == Children(e0, h) && forall i | 0 <= i < |kids| :: Finite(e1, kids[i], d - 1)
  {
    var e1 := e0[h := e0[h].(order := order)];
    var kids := Children(e0, h);
    assert e1 == SetOrders(e0, [h], order);
    SetOrdersFrame(e0, [h], order);
    VisibleInSame(e0, e1, e0[h].children);
    forall i | 0 <= i < |kids| ensures Finite(e1, kids[i], d - 1) {
      assert kids[i] in kids;
      FiniteSame(e0, e1, kids[i], d - 1);
    }
  }

  /** After the children of `h` are numbered from `order + 1`: the walk of `h` is numbered from `order`. */
  lemma OrderDone(e0: seq<DsmElement>, h: Handle, d: nat, order: int, e1: seq<DsmElement>, e2: seq<DsmElement>)
    requires h < |e0| && d > 0 && InBounds(e0, [h]) && e1 == SetOrders(e0, [h], order)
    requires Children(e1, h) == Children(e0, h)
    requires e2 == SetOrders(e1, PreOrderAll(e1, Children(e1, h), d - 1), order + 1)
    ensures e2 == SetOrders(e0, PreOrder(e0, h, d), order)
    ensures order + 1 + |PreOrderAll(e1, Children(e1, h), d - 1)| == order + |PreOrder(e0, h, d)|
  {
    var kids := Children(e0, h);
    var rest := PreOrderAll(e0, kids, d - 1);
    SetOrdersLinks(e0, [h], order);
    PreOrderAllSame(e1, e0, kids, d - 1);
    assert PreOrder(e0, h, d) == [h] + rest;
    SetOrdersAppend(e0, [h], rest, order);
  }

  /** Before AssignElementOrder's call: every visible child of the root has a walk that stops. */
  lemma OrderRootStart(e0: seq<DsmElement>)
    requires OrderTerminates(e0)
    ensures var kids := Children(e0, ROOT);
      forall i | 0 <= i < |kids| :: Finite(e0, kids[i], |e0| - 1)
  {
    var kids := Children(e0, ROOT);
    forall i | 0 <= i < |kids| ensures Finite(e0, kids[i], |e0| - 1) {
      assert kids[i] in kids;
    }
  }

  /** Renumbering keeps the state consistent. */
  lemma ValidRenumbered(s: Registry)
    requires ValidState(s)
    ensures ValidState(Registry(Renumbered(s.elements), s.live, s.deleted))
  {
    var e0 := s.elements;
    SetOrdersFrame(e0, RootPreOrder(e0), 1);
    ValidRelabelled(s, Renumbered(e0));
  }

  /** Before the `i`-th visible child of a restored `h` is re-registered: it is visible, hence not deleted, and its walk stops. */
  lemma ReregisterLoopEntry(s: Registry, h: Handle, children: seq<Handle>, i: nat, d: nat)
    requires ValidState(s) && h < |s.elements| && Finite(s.elements, h, d)
    requires children == Children(s.elements, h) && i < |children|
    ensures var c := children[i];
      0 < c < |s.elements| && d > 0 && Undeleted(s.elements, c) == s.elements && Finite(s.elements, c, d - 1)
  {
    var c := children[i];
    assert c in s.elements[h].children && Shown(s.elements, c);
    assert Undeleted(s.elements, c) == s.elements;
  }

  /** Dropping the ids of `w` and then those of `t` drops the ids of `w + t`. */
  lemma UnregisteredIdsAppend(m: map<int, Handle>, elts: seq<DsmElement>, w: seq<Handle>, t: seq<Handle>)
    requires InBounds(elts, w) && InBounds(elts, t)
    ensures InBounds(elts, w + t)
    ensures (m - IdsOfSeq(elts, w)) - IdsOfSeq(elts, t) == m - IdsOfSeq(elts, w + t)
  {
    IdsOfSeqAppend(elts, w, t);
    var ia, ib := IdsOfSeq(elts, w), IdsOfSeq(elts, t);
    var l, r := (m - ia) - ib, m - (ia + ib);
    assert l.Keys == r.Keys;
    assert forall k | k in l :: l[k] == r[k];
  }

  /** Detaching a non-root element from its parent keeps the state consistent. */
  lemma ValidDetached(s: Registry, h: Handle)
    requires ValidState(s) && 0 < h < |s.elements|
    ensures ValidState(Registry(Detached(s.elements, h), s.live, s.deleted))
  {
    if s.elements[h].parent.Some? {
      var p := s.elements[h].parent.value;
      ValidWithoutChild(s, p, h);
      var e := WithoutChild(s.elements, p, h);
      if !HasChildren(e, p) {
        ValidCollapsed(Registry(e, s.live, s.deleted), p);
      }
    }
  }

  /** Collapsing an element keeps the state consistent. */
  lemma ValidCollapsed(s: Registry, p: Handle)
    requires ValidState(s) && p < |s.elements|
    ensures ValidState(Registry(s.elements[p := s.elements[p].(isExpanded := false)], s.live, s.deleted))
  {
    var e1 := s.elements[p := s.elements[p].(isExpanded := false)];
    assert forall x | 0 <= x < |e1| :: e1[x].children == s.elements[x].children && e1[x].parent == s.elements[x].parent;
    ValidRelabelled(s, e1);
  }

  /** The first statements of UnregisterElement keep the state consistent. */
  lemma ValidUnregisterOne(s: Registry, h: Handle)
    requires ValidState(s) && 0 < h < |s.elements|
    ensures var id := s.elements[h].id;
      ValidState(Registry(s.elements[h := s.elements[h].(isDeleted := true)], s.live - {id}, s.deleted[id := h]))
  {
    var e1 := s.elements[h := s.elements[h].(isDeleted := true)];
    forall z | 0 <= z < |e1| ensures ROOT !in e1[z].children && InBounds(e1, e1[z].children) {
      assert InBounds(s.elements, s.elements[z].children);
    }
  }

  /** The first statements of ReregisterElement keep the state consistent. */
  lemma ValidRegisterOne(s: Registry, h: Handle)
    requires ValidState(s) && 0 < h < |s.elements|
    ensures var id := s.elements[h].id;
      ValidState(Registry(Undeleted(s.elements, h), s.live[id := h], s.deleted - {id}))
  {
    var e1 := Undeleted(s.elements, h);
    forall z | 0 <= z < |e1| ensures ROOT !in e1[z].children && InBounds(e1, e1[z].children) {
      assert InBounds(s.elements, s.elements[z].children);
    }
  }

  /** Adding a non-root child keeps the dictionaries consistent. */
  lemma ValidWithChild(s: Registry, p: Handle, c: Handle)
    requires ValidState(s) && p < |s.elements| && 0 < c < |s.elements|
    ensures ValidState(Registry(WithChild(s.elements, p, c), s.live, s.deleted))
  {
    var e1 := WithChild(s.elements, p, c);
    WithChildLinked(s.elements, p, c);
    forall z | 0 <= z < |e1| ensures ROOT !in e1[z].children {
      assert ROOT !in s.elements[z].children;
    }
    ValidReshaped(s, e1);
  }

  /** The private AddElement: appending a new element `x` under `p` and registering it keeps the dictionaries consistent. */
  lemma ValidCreated(s: Registry, x: DsmElement, p: Handle)
    requires ValidState(s) && p < |s.elements| && x.parent == None && x.children == [] && !x.isDeleted
    ensures var h := |s.elements|;
      var e := WithChild(s.elements + [x], p, h);
      e[h].id == x.id && ValidState(Registry(e, s.live[x.id := h], s.deleted))
  {
    var h := |s.elements|;
    var g := s.elements + [x];
    LinkedAppend(s.elements, x);
    forall z | 0 <= z < |g| ensures ROOT !in g[z].children {
      if z < h {
        assert g[z] == s.elements[z];
      }
    }
    assert ValidState(Registry(g, s.live, s.deleted));
    ValidWithChild(Registry(g, s.live, s.deleted), p, h);
    var e := WithChild(g, p, h);
    assert e[h].id == x.id && !e[h].isDeleted;
  }

  /** Removing a non-root child keeps the dictionaries consistent. */
  lemma ValidWithoutChild(s: Registry, p: Handle, c: Handle)
    requires ValidState(s) && p < |s.elements| && 0 < c < |s.elements|
    ensures ValidState(Registry(WithoutChild(s.elements, p, c), s.live, s.deleted))
  {
    var e1 := WithoutChild(s.elements, p, c);
    WithoutChildLinked(s.elements, p, c);
    RemoveFirstMembers(s.elements[p].children, c);
    forall z | 0 <= z < |e1| ensures ROOT !in e1[z].children {
      assert ROOT !in s.elements[z].children;
    }
    ValidReshaped(s, e1);
  }

  /**
   * The live dictionary's view of the hierarchy is well defined: every live
   * element's parent chain ends, so its Fullname can be computed.
   */
  ghost predicate AllRooted(s: Registry)
    requires ValidState(s)
  {
    forall k {:trigger s.live[k]} | k in s.live :: Rooted(s.elements, s.live[k])
  }

  lemma LiveRooted(s: Registry, k: int)
    requires ValidState(s) && AllRooted(s) && k in s.live
    ensures Rooted(s.elements, s.live[k])
  {
  }

  /** `ElementName.AddNamePart` as assumed here: a part is appended after a dot, except to an empty name. */
  function JoinName(prefix: string, part: string): string
  {
    if prefix == "" then part else prefix + "." + part
  }

  /** `text` occurs in `s` starting at position `i`. */
  predicate OccursAt(s: string, text: string, i: int)
  {
    0 <= i && i + |text| <= |s| && s[i..i + |text|] == text
  }

  /** `String.Contains`: `text` occurs in `s` at some position. */
  predicate Contains(s: string, text: string)
  {
    exists i | 0 <= i <= |s| :: OccursAt(s, text, i)
  }

  /** A string containing `text` contains everything `text` contains. */
  lemma ContainsTransitive(s: string, text: string, part: string)
    requires Contains(s, text) && Contains(text, part)
    ensures Contains(s, part)
  {
    var i :| 0 <= i <= |s| && OccursAt(s, text, i);
    var j :| 0 <= j <= |text| && OccursAt(text, part, j);
    assert i + |text| <= |s| && s[i..i + |text|] == text;
    assert j + |part| <= |text| && text[j..j + |part|] == part;
    forall m | 0 <= m < |part| ensures s[i + j + m] == part[m] {
      assert part[m] == text[j + m] == s[i + j + m];
    }
    assert s[i + j..i + j + |part|] == part;
    assert OccursAt(s, part, i + j);
  }

  /**
   * How the private AddElement changes the state: with a parent id that is
   * not live nothing happens and the result is null; otherwise a new element
   * is appended under the parent (the root when no parent id is given) and
   * registered as live under `id`.
   */
  ghost predicate Created(s0: Registry, s: Registry, r: Option<Handle>, id: int, name: string, typeName: string,
                          order: int, expanded: bool, parentId: Option<int>)
  {
    if parentId.Some? && parentId.value !in s0.live then r == None && s == s0
    else
      var h := |s0.elements|;
      var p := if parentId.Some? then s0.live[parentId.value] else ROOT;
      && p < h
      && r == Some(h)
      && s.elements == WithChild(s0.elements + [NewElement(id, name, typeName, order, expanded)], p, h)
      && s.live == s0.live[id := h]
      && s.deleted == s0.deleted
  }

  /** Following the parent chain gives the same answer in an arena that extends `e0` without changing its parents or names. */
  lemma {:induction false} PrefixExtends(e0: seq<DsmElement>, e1: seq<DsmElement>, x: Handle, f: nat)
    requires Linked(e0) && Linked(e1) && |e0| <= |e1| && x < |e0| && ChainEnds(e0, x, f)
    requires forall y | 0 <= y < |e0| :: e1[y].parent == e0[y].parent && e1[y].name == e0[y].name
    ensures ChainEnds(e1, x, f) && Prefix(e1, x, f) == Prefix(e0, x, f)
    decreases f
  {
    if e0[x].parent.Some? {
      PrefixExtends(e0, e1, e0[x].parent.value, f - 1);
    }
  }

  lemma FullnameExtends(e0: seq<DsmElement>, e1: seq<DsmElement>, x: Handle)
    requires Linked(e0) && Linked(e1) && |e0| <= |e1| && x < |e0| && Rooted(e0, x)
    requires forall y | 0 <= y < |e0| :: e1[y].parent == e0[y].parent && e1[y].name == e0[y].name
    ensures Rooted(e1, x) && Fullname(e1, x) == Fullname(e0, x)
  {
    if e0[x].parent.Some? {
      var p := e0[x].parent.value;
      assert ChainEnds(e0, p, |e0| - 1);
      PrefixExtends(e0, e1, p, |e0| - 1);
      PrefixFuel(e1, p, |e0| - 1, |e1| - 1);
      assert ChainEnds(e1, x, |e1|);
      assert Fullname(e1, x) == Prefix(e1, p, |e1| - 1) + e1[x].name;
    }
  }

  /**
   * A created element's full name is its parent's full name, a dot when the
   * parent's name is not empty, and its own name; every other element keeps
   * its full name. So AddElement finds the element it created when called
   * again, unless the parent's name is empty but its full name is not.
   */
  lemma CreatedFullname(s0: Registry, s: Registry, r: Option<Handle>, id: int, name: string, typeName: string,
                        order: int, expanded: bool, parentId: Option<int>)
    requires ValidState(s0) && AllRooted(s0)
    requires Created(s0, s, r, id, name, typeName, order, expanded, parentId) && r.Some?
    ensures var p := if parentId.Some? then s0.live[parentId.value] else ROOT;
      && Linked(s.elements) && r.value < |s.elements| && Rooted(s0.elements, p)
      && Rooted(s.elements, r.value)
      && Fullname(s.elements, r.value)
         == Fullname(s0.elements, p) + (if |s0.elements[p].name| > 0 then "." else "") + name
      && (forall x | 0 <= x < |s0.elements| && Rooted(s0.elements, x) :: Rooted(s.elements, x) && Fullname(s.elements, x) == Fullname(s0.elements, x))
  {
    var e0 := s0.elements;
    var h := |e0|;
    var p := if parentId.Some? then s0.live[parentId.value] else ROOT;
    var grown := e0 + [NewElement(id, name, typeName, order, expanded)];
    LinkedAppend(e0, NewElement(id, name, typeName, order, expanded));
    WithChildLinked(grown, p, h);
    var e1 := s.elements;
    assert Rooted(e0, p) by {
      if parentId.None? { assert e0[ROOT].parent.None?; assert ChainEnds(e0, ROOT, |e0|); }
      else { var k := parentId.value; assert k in s0.live; assert AllRooted(s0); assert Rooted(s0.elements, s0.live[k]); }
    }
    forall x | 0 <= x < h && Rooted(e0, x) ensures Rooted(e1, x) && Fullname(e1, x) == Fullname(e0, x) {
      FullnameExtends(e0, e1, x);
    }
    FullnameExtends(e0, e1, p);
    PrefixExtends(e0, e1, p, h);
    assert ChainEnds(e1, h, h + 1);
    FullnameOfChild(e1, h);
  }

  /** A set of ids or handles is empty or has a member. */
  lemma Inhabited(keys: set<int>)
    ensures keys == {} || exists k :: k in keys
  {
    if forall k :: k !in keys {
      assert keys == {};
    }
  }

  // ---------------------------------------------------------------------------
  // Termination of UnregisterElement

  /** The elements not (yet) deleted. */
  ghost function NonDeleted(e: seq<DsmElement>): set<Handle>
  {
    set x | 0 <= x < |e| && !e[x].isDeleted
  }

  lemma {:induction false} SubsetCard(a: set<int>, b: set<int>)
    requires a <= b
    ensures |a| <= |b|
    decreases a
  {
    Inhabited(a);
    if a != {} {
      var x :| x in a;
      SubsetCard(a - {x}, b - {x});
    }
  }

  /**
   * UnregisterElement(h) calls itself on a child `c` that was not deleted
   * when the call on `h` began; in between only deleted flags went up and
   * `h`'s own flag is up. Then the call on `c` starts lower in the measure
   * `2 * |NonDeleted| + (1 if the element is already deleted)`.
   */
  lemma MeasureDrops(e0: seq<DsmElement>, e1: seq<DsmElement>, h: Handle, c: Handle)
    requires OnlyDeletes(e0, e1) && h < |e0| && c < |e0| && h != c
    requires e1[h].isDeleted && !e0[c].isDeleted
    ensures 2 * |NonDeleted(e1)| + (if e1[c].isDeleted then 1 else 0)
          < 2 * |NonDeleted(e0)| + (if e0[h].isDeleted then 1 else 0)
  {
    var n0, n1 := NonDeleted(e0), NonDeleted(e1);
    assert n1 <= n0;
    if !e0[h].isDeleted {
      assert h in n0 && h !in n1;
      SubsetCard(n1, n0 - {h});
    } else if e1[c].isDeleted {
      assert c in n0 && c !in n1;
      SubsetCard(n1, n0 - {c});
    } else {
      SubsetCard(n1, n0);
    }
  }

  // ---------------------------------------------------------------------------
  // Soft delete and restore, as seen through the dictionaries

  /**
   * RemoveElement(id) followed by UnremoveElement(id) leaves the element
   * deleted: RemoveChild cleared its parent, and UnremoveElement only acts
   * on an element that still has one. This holds when no other element
   * carries the same id.
   */
  lemma RemovedStaysDetached(s0: Registry, s: Registry, id: int)
    requires ValidState(s0) && id in s0.live && ValidState(s)
    requires forall x | 0 <= x < |s0.elements| && x != s0.live[id] :: s0.elements[x].id != id
    requires Unregistered(Registry(Detached(s0.elements, s0.live[id]), s0.live, s0.deleted), s, s0.live[id])
    ensures id !in s.live && id in s.deleted
    ensures DeletedHandle(s, id) == s0.live[id] && s.elements[s0.live[id]].parent == None
  {
    var h := LiveHandle(s0, id);
    var e1 := Detached(s0.elements, h);
    DetachedKeepsIds(s0.elements, h);
    var t := Touched(e1, s.elements, h);
    assert h in t;
    assert id in IdsOf(e1, t) by {
      assert e1[h].id == id;
    }
    UnregisteredIds(Registry(e1, s0.live, s0.deleted), s, h, id);
    var g := DeletedHandle(s, id);
    assert e1[g].id == s.elements[g].id;
  }

  /** Detaching changes no id. */
  lemma DetachedKeepsIds(elts: seq<DsmElement>, h: Handle)
    requires Linked(elts) && h < |elts|
    ensures forall x | 0 <= x < |elts| :: Detached(elts, h)[x].id == elts[x].id
  {
  }

  /** An id the unregistration collected leaves the live dictionary and enters the deleted one. */
  lemma UnregisteredIds(s0: Registry, s: Registry, h: Handle, id: int)
    requires UnregisterStep(s0, s, h) && id in IdsOf(s0.elements, Touched(s0.elements, s.elements, h))
    ensures id !in s.live && id in s.deleted
  {
  }

  /**
   * What UnremoveElement(id) does: a deleted element that still has a parent
   * is appended to the parent's `_children` again and the walk from it,
   * over the elements visible once its flag is cleared, is registered as
   * live again and dropped from the deleted dictionary. Otherwise nothing
   * changes.
   */
  ghost predicate Restored(s0: Registry, s: Registry, id: int)
    requires ValidState(s0)
  {
    if id in s0.deleted && s0.elements[DeletedHandle(s0, id)].parent.Some? then
      var h := DeletedHandle(s0, id);
      var e := Undeleted(WithChild(s0.elements, s0.elements[h].parent.value, h), h);
      var w := PreOrder(e, h, |e|);
      s.elements == e && s.live == RegisterAll(s0.live, e, w) && s.deleted == s0.deleted - IdsOfSeq(e, w)
    else s == s0
  }

  /** The walk of UnremoveElement stops: the precondition under which it terminates. */
  ghost predicate RestoreTerminates(s: Registry, id: int)
    requires ValidState(s)
  {
    id in s.deleted && s.elements[DeletedHandle(s, id)].parent.Some? ==>
      var h := DeletedHandle(s, id);
      var e := Undeleted(WithChild(s.elements, s.elements[h].parent.value, h), h);
      Finite(e, h, |e|)
  }

  /** After RemoveElement(id), UnremoveElement(id) is a no-op. */
  lemma UnremoveAfterRemove(s0: Registry, s: Registry, id: int)
    requires ValidState(s0) && id in s0.live && ValidState(s)
    requires forall x | 0 <= x < |s0.elements| && x != s0.live[id] :: s0.elements[x].id != id
    requires Unregistered(Registry(Detached(s0.elements, s0.live[id]), s0.live, s0.deleted), s, s0.live[id])
    ensures forall s1 :: Restored(s, s1, id) <==> s1 == s
  {
    RemovedStaysDetached(s0, s, id);
  }

  // ---------------------------------------------------------------------------
  // Swapping back (ElementMoveDownAction undone by ElementMoveUpAction)

  /**
   * When the parent lists each child once, swapping `a` and `b` and then
   * `b` and `a` gives the arena back; the second swap applies.
   */
  lemma SwapRestores(elts: seq<DsmElement>, a: Handle, b: Handle)
    requires Linked(elts) && a < |elts| && b < |elts| && SwapApplies(elts, a, b)
    requires NoDuplicates(elts[elts[a].parent.value].children)
    ensures Linked(SwappedIn(elts, a, b)) && SwapApplies(SwappedIn(elts, a, b), b, a)
    ensures SwappedIn(SwappedIn(elts, a, b), b, a) == elts
  {
    var p := elts[a].parent.value;
    var t := elts[p].children;
    var r := SwappedIn(elts, a, b);
    SwappedSameEdges(elts, a, b);
    SwapTwice(t, a, b);
    assert r[p].children == Swapped(t, a, b) && r[a].parent == elts[a].parent && r[b].parent == elts[b].parent;
    assert a in multiset(r[p].children) && b in multiset(r[p].children);
    assert SwapApplies(r, b, a);
    var u := r[p].(children := Swapped(r[p].children, b, a));
    assert u == elts[p];
    assert SwappedIn(r, b, a) == r[p := u];
  }

  /** Arenas that differ at most in orders, and only where the root's walk numbers, renumber alike. */
  lemma RenumberedOverwrites(e: seq<DsmElement>, e2: seq<DsmElement>)
    requires SameButOrders(e, e2) && |e| > 0
    requires forall x | 0 <= x < |e| && x !in RootPreOrder(e) :: e2[x] == e[x]
    ensures Renumbered(e2) == Renumbered(e)
  {
    var w := RootPreOrder(e);
    assert SameLinks(e, e2);
    RenumberedSame(e, e2);
    SetOrdersOverwrites(e, e2, w, 1);
    SetOrdersFrame(e, w, 1);
    assert forall x | 0 <= x < |e| :: Renumbered(e2)[x] == Renumbered(e)[x];
  }

  /**
   * Move-down then move-up as `Swap` performs them, renumbering after each
   * swap: the second swap applies, and the result is the arena renumbered
   * once without moving anything (the arena itself when its orders are
   * already the pre-order numbering).
   */
  lemma SwapBackRenumbered(elts: seq<DsmElement>, a: Handle, b: Handle)
    requires Linked(elts) && a < |elts| && b < |elts| && SwapApplies(elts, a, b)
    requires NoDuplicates(elts[elts[a].parent.value].children)
    ensures var moved := Renumbered(SwappedIn(elts, a, b));
      && Linked(moved) && SwapApplies(moved, b, a)
      && Renumbered(SwappedIn(moved, b, a)) == Renumbered(elts)
    ensures Renumbered(elts) == elts ==> Renumbered(SwappedIn(Renumbered(SwappedIn(elts, a, b)), b, a)) == elts
  {
    var s1 := SwappedIn(elts, a, b);
    SwapRestores(elts, a, b);
    var moved := Renumbered(s1);
    RenumberedOnlyOrders(s1);
    SwappedInOrders(s1, moved, b, a);
    var x2 := SwappedIn(moved, b, a);
    assert SameButOrders(elts, x2);
    SwappedInOrders(elts, elts, a, b);
    SwappedSameEdges(elts, a, b);
    RootPreOrderFewerEdges(elts, s1);
    forall x | 0 <= x < |elts| && x !in RootPreOrder(elts) ensures x2[x] == elts[x] {
      assert x !in RootPreOrder(s1);
      assert x2[x].order == elts[x].order;
    }
    RenumberedOverwrites(elts, x2);
  }

  // ---------------------------------------------------------------------------
  // AddElement(name, type, parentId)

  /** The full name AddElement looks up: the name joined to the live parent's full name, or the bare name. */
  ghost function SearchedName(s: Registry, name: string, parentId: Option<int>): string
    requires ValidState(s) && AllRooted(s)
  {
    if parentId.Some? && parentId.value in s.live then JoinName(Fullname(s.elements, LiveHandle(s, parentId.value)), name)
    else name
  }

  /**
   * An element created under a parent with a non-empty name, or under a
   * root with an empty name, has the full name AddElement looked up, so
   * AddElement called again with the same arguments finds an element and
   * creates nothing. Creation keeps every live element's parent chain
   * finite.
   */
  lemma CreatedFindable(s0: Registry, s: Registry, r: Option<Handle>, id: int, name: string, typeName: string,
                        order: int, expanded: bool, parentId: Option<int>)
    requires ValidState(s0) && AllRooted(s0) && ValidState(s)
    requires Created(s0, s, r, id, name, typeName, order, expanded, parentId) && r.Some?
    requires parentId.None? ==> s0.elements[ROOT].name == ""
    requires parentId.Some? ==> |s0.elements[LiveHandle(s0, parentId.value)].name| > 0
    ensures id in s.live && s.live[id] == r.value && AllRooted(s) && Rooted(s.elements, r.value)
    ensures Fullname(s.elements, r.value) == SearchedName(s0, name, parentId)
  {
    CreatedFullname(s0, s, r, id, name, typeName, order, expanded, parentId);
    var p := if parentId.Some? then s0.live[parentId.value] else ROOT;
    forall k | k in s.live ensures Rooted(s.elements, s.live[k]) {
      if k != id {
        assert s.live[k] == s0.live[k];
        assert Rooted(s0.elements, s0.live[k]);
      }
    }
    if parentId.Some? {
      assert |Fullname(s0.elements, p)| > 0;
    } else {
      assert Fullname(s0.elements, ROOT) == "";
    }
  }

  class DsmElementModel {
    /** Every DsmElement this model created, by handle; handle 0 is `_root`. */
    var elements: seq<DsmElement>
    /** `_elementsById` */
    var live: map<int, Handle>
    /** `_deletedElementsById` */
    var deleted: map<int, Handle>
    /** `_lastElementId` */
    var lastElementId: int

    ghost function State(): Registry
      reads this
    {
      Registry(elements, live, deleted)
    }

    ghost predicate Valid()
      reads this
    {
      ValidState(State())
    }

    /** The root `new DsmElement(0, "", "")`, no elements, watermark 0. */
    constructor ()
      ensures Valid()
      ensures elements == [NewElement(0, "", "", 0, false)] && live == map[] && deleted == map[] && lastElementId == 0
    {
      elements := [NewElement(0, "", "", 0, false)];
      live := map[];
      deleted := map[];
      lastElementId := 0;
    }

    /**
     * Both dictionaries are emptied and the watermark reset. `_root.Children`
     * is a filtered copy, so clearing it leaves the root's child list, and
     * the whole arena, as it was.
     */
    method Clear()
      requires Valid()
      modifies this`live, this`deleted, this`lastElementId
      ensures Valid() && elements == old(elements)
      ensures live == map[] && deleted == map[] && lastElementId == 0
    {
      live := map[];
      deleted := map[];
      lastElementId := 0;
    }

    // -------------------------------------------------------------------------
    // DsmElement's mutators, applied to the element with handle `p` or `h`

    /** `p.AddChild(c)`. */
    method AddChild(p: Handle, c: Handle)
      requires Linked(elements) && p < |elements| && c < |elements|
      modifies this`elements
      ensures elements == WithChild(old(elements), p, c) && Linked(elements)
    {
      WithChildLinked(elements, p, c);
      elements := elements[p := elements[p].(children := elements[p].children + [c])];
      elements := elements[c := elements[c].(parent := Some(p))];
    }

    /** `p.RemoveChild(c)`. */
    method RemoveChild(p: Handle, c: Handle)
      requires Linked(elements) && p < |elements| && c < |elements|
      modifies this`elements
      ensures elements == WithoutChild(old(elements), p, c) && Linked(elements)
    {
      WithoutChildLinked(elements, p, c);
      elements := elements[p := elements[p].(children := RemoveFirst(elements[p].children, c))];
      elements := elements[c := elements[c].(parent := None)];
    }

    /** `h.RemoveAllChildren()`: the list is emptied; the former children keep their parent pointer. */
    method RemoveAllChildren(h: Handle)
      requires Valid() && h < |elements|
      modifies this`elements
      ensures Valid()
      ensures elements == old(elements)[h := old(elements)[h].(children := [])]
    {
      ghost var s0 := State();
      elements := elements[h := elements[h].(children := [])];
      ValidReshaped(s0, elements);
    }

    /** `p.Swap(a, b)`: exchanges the first occurrences of `a` and `b` in `p`'s `_children` when both occur. */
    method SwapChildren(p: Handle, a: Handle, b: Handle) returns (swapped: bool)
      requires Valid() && p < |elements|
      modifies this`elements
      ensures Valid()
      ensures swapped == (a in old(elements)[p].children && b in old(elements)[p].children)
      ensures elements == if swapped then old(elements)[p := old(elements)[p].(children := Swapped(old(elements)[p].children, a, b))]
                          else old(elements)
    {
      swapped := false;
      ghost var s0 := State();
      var children := elements[p].children;
      if a in children && b in children {
        var index1 := IndexOf(children, a);
        var index2 := IndexOf(children, b);
        children := children[index2 := a];
        children := children[index1 := b];
        assert children == Swapped(s0.elements[p].children, a, b);
        ValidSwappedList(s0, p, children);
        elements := elements[p := elements[p].(children := children)];
        swapped := true;
      }
    }

    /** `h.AddWeight(provider, w)`. */
    method AddWeight(h: Handle, provider: int, w: Int32)
      requires Valid() && h < |elements|
      modifies this`elements
      ensures Valid()
      ensures elements == old(elements)[h := old(elements)[h].(weights := AddedWeight(old(elements)[h].weights, provider, w))]
    {
      var currentWeight: Int32 := 0;
      if provider in elements[h].weights {
        currentWeight := elements[h].weights[provider];
      }
      ghost var s0 := State();
      elements := elements[h := elements[h].(weights := elements[h].weights[provider := Wrap32(currentWeight as int + w as int)])];
      ValidRelabelled(s0, elements);
    }

    /** `h.RemoveWeight(provider, w)`; the dictionary lookup throws for a missing provider. */
    method RemoveWeight(h: Handle, provider: int, w: Int32)
      requires Valid() && h < |elements| && provider in elements[h].weights
      modifies this`elements
      ensures Valid()
      ensures elements == old(elements)[h := old(elements)[h].(weights := RemovedWeight(old(elements)[h].weights, provider, w))]
    {
      var currentWeight := elements[h].weights[provider];
      if currentWeight >= w {
        ghost var s0 := State();
        elements := elements[h := elements[h].(weights := elements[h].weights[provider := Wrap32(currentWeight as int - w as int)])];
        ValidRelabelled(s0, elements);
      }
    }

    // -------------------------------------------------------------------------
    // Creating elements

    /** `RegisterElement`: the element becomes the live one for its id. */
    method RegisterElement(h: Handle)
      requires h < |elements|
      modifies this`live
      ensures live == old(live)[elements[h].id := h]
    {
      live := live[elements[h].id := h];
    }

    /** The private `AddElement(id, name, type, order, expanded, parentId)`. */
    method AddElementWithId(id: int, name: string, typeName: string, order: int, expanded: bool, parentId: Option<int>)
      returns (r: Option<Handle>)
      requires Valid()
      modifies this`elements, this`live
      ensures Valid()
      ensures Created(old(State()), State(), r, id, name, typeName, order, expanded, parentId)
    {
      ghost var s0 := State();
      r := None;
      var parent := ROOT;
      if parentId.Some? {
        if parentId.value !in live {
          return;
        }
        parent := live[parentId.value];
        ghost var checked := LiveHandle(s0, parentId.value);
      }
      var h := |elements|;
      ValidCreated(s0, NewElement(id, name, typeName, order, expanded), parent);
      LinkedAppend(elements, NewElement(id, name, typeName, order, expanded));
      elements := elements + [NewElement(id, name, typeName, order, expanded)];
      AddChild(parent, h);
      RegisterElement(h);
      r := Some(h);
    }

    /**
     * `ImportElement`: raises the watermark to `id`, then adds the element.
     * The `deleted` argument is not used.
     */
    method ImportElement(id: int, name: string, typeName: string, order: int, expanded: bool, parentId: Option<int>, isDeleted: bool)
      returns (r: Option<Handle>)
      requires Valid()
      modifies this`elements, this`live, this`lastElementId
      ensures Valid()
      ensures lastElementId == if id > old(lastElementId) then id else old(lastElementId)
      ensures Created(old(State()), State(), r, id, name, typeName, order, expanded, parentId)
    {
      if id > lastElementId {
        lastElementId := id;
      }
      r := AddElementWithId(id, name, typeName, order, expanded, parentId);
    }

    // -------------------------------------------------------------------------
    // Editing

    /** `EditElementName`. */
    method EditElementName(h: Handle, name: string)
      requires Valid() && h < |elements|
      modifies this`elements
      ensures Valid() && elements == old(elements)[h := old(elements)[h].(name := name)]
    {
      elements := elements[h := elements[h].(name := name)];
    }

    /** `EditElementType`. */
    method EditElementType(h: Handle, typeName: string)
      requires Valid() && h < |elements|
      modifies this`elements
      ensures Valid() && elements == old(elements)[h := old(elements)[h].(typeName := typeName)]
    {
      elements := elements[h := elements[h].(typeName := typeName)];
    }

    /**
     * `ChangeElementParent`: an element with a parent is removed from it and
     * appended to the new parent. There is no check that the new parent is
     * not the element itself or one of its descendants.
     */
    method ChangeElementParent(h: Handle, newParent: Handle)
      requires Valid() && h < |elements| && newParent < |elements|
      modifies this`elements
      ensures Valid()
      ensures elements == if old(elements)[h].parent.Some?
                          then WithChild(WithoutChild(old(elements), old(elements)[h].parent.value, h), newParent, h)
                          else old(elements)
    {
      ghost var s0 := State();
      var currentParent := elements[h].parent;
      if currentParent.Some? {
        RemoveChild(currentParent.value, h);
        ValidWithoutChild(s0, currentParent.value, h);
        AddChild(newParent, h);
        ValidWithChild(Registry(WithoutChild(s0.elements, currentParent.value, h), s0.live, s0.deleted), newParent, h);
      }
    }

    // -------------------------------------------------------------------------
    // Lookups

    /** `FindElementById`: the live element with that id, or null. */
    function FindElementById(id: int): (r: Option<Handle>)
      reads this
      requires Valid()
      ensures r.Some? <==> id in live
      ensures r.Some? ==> r.value < |elements| && elements[r.value].id == id && !elements[r.value].isDeleted
    {
      if id in live then Some(live[id]) else None
    }

    /** `GetDeletedElementById`: the soft-deleted element with that id, or null. */
    function GetDeletedElementById(id: int): (r: Option<Handle>)
      reads this
      requires Valid()
      ensures r.Some? <==> id in deleted
      ensures r.Some? ==> r.value < |elements| && elements[r.value].id == id && elements[r.value].isDeleted
    {
      if id in deleted then Some(deleted[id]) else None
    }

    /** `SearchElements`: the live elements whose full name contains `text`. */
    function SearchElements(text: string): (r: set<Handle>)
      reads this
      requires Valid() && AllRooted(State())
      ensures forall h | h in r :: exists k | k in live :: live[k] == h && Contains(Fullname(elements, h), text)
      ensures forall k | k in live && Contains(Fullname(elements, live[k]), text) :: live[k] in r
    {
      set k | k in live && Contains(Fullname(elements, live[k]), text) :: live[k]
    }

    /** A longer search text finds a subset: every match of `text` is a match of any part of it. */
    lemma SearchNarrows(text: string, part: string)
      requires Valid() && AllRooted(State()) && Contains(text, part)
      ensures SearchElements(text) <= SearchElements(part)
    {
      forall h | h in SearchElements(text) ensures h in SearchElements(part) {
        var k :| k in live && live[k] == h && Contains(Fullname(elements, h), text);
        ContainsTransitive(Fullname(elements, h), text, part);
      }
    }

    /** The empty text finds every live element. */
    lemma SearchEverything()
      requires Valid() && AllRooted(State())
      ensures forall k | k in live :: live[k] in SearchElements("")
    {
      forall k | k in live ensures live[k] in SearchElements("") {
        assert OccursAt(Fullname(elements, live[k]), "", 0);
      }
    }

    /**
     * `FindElementByFullname`: some live element with that full name, or null.
     * The dictionary's enumeration order is not specified, so neither is
     * which of several such elements is returned.
     */
    method FindElementByFullname(fullname: string) returns (r: Option<Handle>)
      requires Valid() && AllRooted(State())
      ensures r.None? <==> forall k | k in live :: Fullname(elements, live[k]) != fullname
      ensures r.Some? ==> exists k | k in live :: live[k] == r.value && Fullname(elements, live[k]) == fullname
    {
      var keys := live.Keys;
      while keys != {}
        invariant keys <= live.Keys
        invariant forall k | k in live.Keys - keys :: Fullname(elements, live[k]) != fullname
        decreases keys
      {
        Inhabited(keys);
        var k :| k in keys;
        var name := GetFullname(elements, live[k]);
        if name == fullname {
          return Some(live[k]);
        }
        keys := keys - {k};
      }
      return None;
    }

    /**
     * The public `AddElement(name, type, parentId)`: looks the full name up
     * among the live elements and returns the element found; otherwise
     * raises the watermark and creates an element with the new id, order 0,
     * collapsed. The watermark goes up even when the parent id is not live
     * and nothing is created.
     */
    method AddElement(name: string, typeName: string, parentId: Option<int>) returns (r: Option<Handle>)
      requires Valid() && AllRooted(State())
      modifies this`elements, this`live, this`lastElementId
      ensures Valid()
      ensures var fullname := SearchedName(old(State()), name, parentId);
        if exists k | k in old(live) :: Fullname(old(elements), old(live)[k]) == fullname then
          && State() == old(State()) && lastElementId == old(lastElementId)
          && r.Some? && exists k | k in live :: live[k] == r.value && Fullname(elements, live[k]) == fullname
        else
          && lastElementId == old(lastElementId) + 1
          && Created(old(State()), State(), r, old(lastElementId) + 1, name, typeName, 0, false, parentId)
    {
      var fullname := name;
      if parentId.Some? && parentId.value in live {
        LiveRooted(State(), parentId.value);
        var parentName := GetFullname(elements, live[parentId.value]);
        fullname := JoinName(parentName, name);
      }
      r := FindElementByFullname(fullname);
      if r.None? {
        lastElementId := lastElementId + 1;
        r := AddElementWithId(lastElementId, name, typeName, 0, false, parentId);
      }
    }

    // -------------------------------------------------------------------------
    // Soft delete

    /** `RemoveElementFromParent`: `h` leaves its parent, which collapses when no visible child is left. */
    method RemoveElementFromParent(h: Handle)
      requires Valid() && 0 < h < |elements|
      modifies this`elements
      ensures Valid() && elements == Detached(old(elements), h)
    {
      ghost var s0 := State();
      ValidDetached(s0, h);
      var parent := elements[h].parent;
      if parent.Some? {
        var p := parent.value;
        RemoveChild(p, h);
        if |Children(elements, p)| == 0 {
          elements := elements[p := elements[p].(isExpanded := false)];
        }
      }
      assert State() == Registry(Detached(s0.elements, h), s0.live, s0.deleted);
    }

    /**
     * `UnregisterElement`: flags `h` as deleted, moves its id from the live
     * to the deleted dictionary, then unregisters each child visible at that
     * moment, one after the other.
     */
    method UnregisterElement(h: Handle)
      requires Valid() && 0 < h < |elements|
      modifies this`elements, this`live, this`deleted
      ensures Valid() && Unregistered(old(State()), State(), h)
      decreases 2 * |NonDeleted(elements)| + (if elements[h].isDeleted then 1 else 0)
    {
      ghost var s0 := State();
      UnregisterStart(s0, h);
      ValidUnregisterOne(s0, h);
      var id := elements[h].id;
      elements := elements[h := elements[h].(isDeleted := true)];
      deleted := deleted[id := h];
      live := live - {id};
      ghost var e1 := elements;
      var children := Children(elements, h);
      var i := 0;
      while i < |children|
        invariant 0 <= i <= |children|
        invariant Valid() && UnregisterStep(s0, State(), h)
        invariant OnlyDeletes(e1, elements)
        invariant DeletedUpTo(elements, children, i)
      {
        var c := children[i];
        ghost var sA := State();
        UnregisterLoopEntry(s0, sA, e1, h, children, i);
        UnregisterElement(c);
        UnregisterLoopStep(s0, sA, State(), e1, h, children, i);
        i := i + 1;
      }
      UnregisterFinish(e1, elements, h);
    }

    /**
     * `RemoveElement`: a live element is detached from its parent and then
     * unregistered together with its visible descendants; an id that is not
     * live changes nothing.
     */
    method RemoveElement(id: int)
      requires Valid()
      modifies this`elements, this`live, this`deleted
      ensures Valid()
      ensures id !in old(live) ==> State() == old(State())
      ensures id in old(live) ==>
        var h := LiveHandle(old(State()), id);
        Unregistered(Registry(Detached(old(elements), h), old(live), old(deleted)), State(), h)
    {
      if id in live {
        var h := live[id];
        ghost var checked := LiveHandle(State(), id);
        RemoveElementFromParent(h);
        UnregisterElement(h);
      }
    }

    // -------------------------------------------------------------------------
    // Restore

    /**
     * `ReregisterElement`: clears `h`'s deleted flag, registers it as live
     * and drops its id from the deleted dictionary, then does the same for
     * each visible child. Only `h`'s flag changes, as every child it walks to
     * is visible, hence not deleted.
     */
    method ReregisterElement(h: Handle, ghost d: nat)
      requires Valid() && 0 < h < |elements| && Finite(Undeleted(elements, h), h, d)
      modifies this`elements, this`live, this`deleted
      ensures Valid() && elements == Undeleted(old(elements), h)
      ensures live == RegisterAll(old(live), elements, PreOrder(elements, h, d))
      ensures deleted == old(deleted) - IdsOfSeq(elements, PreOrder(elements, h, d))
      decreases d
    {
      ghost var s0 := State();
      ReregisterStart(s0, h, d);
      var id := elements[h].id;
      elements := elements[h := elements[h].(isDeleted := false)];
      live := live[id := h];
      deleted := deleted - {id};
      ghost var e1 := elements;
      var children := Children(elements, h);
      ghost var w := [h];
      assert w == [h] + PreOrderAll(e1, children[..0], d - 1);
      var i := 0;
      while i < |children|
        invariant 0 <= i <= |children|
        invariant elements == e1 && Valid()
        invariant InBounds(e1, w) && w == [h] + PreOrderAll(e1, children[..i], d - 1)
        invariant live == RegisterAll(s0.live, e1, w)
        invariant deleted == s0.deleted - IdsOfSeq(e1, w)
      {
        var c := children[i];
        ghost var sA := State();
        ReregisterLoopEntry(sA, h, children, i, d);
        ReregisterElement(c, d - 1);
        ghost var t := PreOrder(e1, c, d - 1);
        RegisterAllAppend(s0.live, e1, w, t);
        UnregisteredIdsAppend(s0.deleted, e1, w, t);
        WalkExtend(e1, h, children, i, d - 1);
        w := w + t;
        i := i + 1;
      }
      WalkWhole(e1, h, d);
    }

    /**
     * `UnremoveElement`: a deleted element that still has a parent goes back
     * into the parent's `_children` and is re-registered with everything
     * visible below it.
     */
    method UnremoveElement(id: int)
      requires Valid() && RestoreTerminates(State(), id)
      modifies this`elements, this`live, this`deleted
      ensures Valid() && Restored(old(State()), State(), id)
    {
      if id in deleted {
        ghost var s0 := State();
        var h := deleted[id];
        ghost var checked := DeletedHandle(s0, id);
        var parent := elements[h].parent;
        if parent.Some? {
          AddChild(parent.value, h);
          ValidWithChild(s0, parent.value, h);
          ReregisterElement(h, |elements|);
        }
      }
    }

    // -------------------------------------------------------------------------
    // Ordering

    /**
     * The private `AssignElementOrder(element, ref order)`: numbers `h` and,
     * in turn, the walks of its visible children from `order + 1` on, and
     * returns the next free number.
     */
    method AssignOrderFrom(h: Handle, order: int, ghost d: nat) returns (next: int)
      requires h < |elements| && Finite(elements, h, d)
      modifies this`elements
      ensures elements == SetOrders(old(elements), PreOrder(old(elements), h, d), order)
      ensures next == order + |PreOrder(old(elements), h, d)|
      decreases d, 0
    {
      ghost var e0 := elements;
      OrderStart(e0, h, d, order);
      elements := elements[h := elements[h].(order := order)];
      next := order + 1;
      ghost var e1 := elements;
      next := AssignOrderAll(Children(elements, h), next, d - 1);
      OrderDone(e0, h, d, order, e1, elements);
    }

    /** The `foreach` over visible children shared by both `AssignElementOrder`s: each walk, in turn, is numbered from the next free number. */
    method AssignOrderAll(kids: seq<Handle>, order: int, ghost d: nat) returns (next: int)
      requires InBounds(elements, kids) && forall i | 0 <= i < |kids| :: Finite(elements, kids[i], d)
      modifies this`elements
      ensures elements == SetOrders(old(elements), PreOrderAll(old(elements), kids, d), order)
      ensures next == order + |PreOrderAll(old(elements), kids, d)|
      decreases d, 1
    {
      ghost var e0 := elements;
      ghost var w: seq<Handle> := [];
      next := order;
      var i := 0;
      OrderAllStart(e0, kids, d, order);
      while i < |kids|
        invariant 0 <= i <= |kids|
        invariant InBounds(e0, w) && w == PreOrderAll(e0, kids[..i], d)
        invariant elements == SetOrders(e0, w, order) && next == order + |w|
      {
        var c := kids[i];
        ghost var e1, n1 := elements, next;
        NumberedChild(e0, w, order, e1, c, d);
        next := AssignOrderFrom(c, next, d);
        ghost var t := PreOrder(e0, c, d);
        NumberedNext(e0, w, t, order, e1, n1, elements);
        PreOrderAllStep(e0, kids, i, d);
        w := w + t;
        i := i + 1;
      }
      SliceEnds(kids);
    }

    /** `AssignElementOrder`: the walks of the root's visible children are numbered 1, 2, ... */
    method AssignElementOrder()
      requires Valid() && OrderTerminates(elements)
      modifies this`elements
      ensures Valid() && elements == Renumbered(old(elements))
    {
      ghost var s0 := State();
      OrderRootStart(elements);
      var order := 1;
      order := AssignOrderAll(Children(elements, ROOT), order, |elements| - 1);
      ValidRenumbered(s0);
    }

    // -------------------------------------------------------------------------
    // Reordering and swapping

    /** The first loop of `ReorderChildren`: each visible child, in turn, is removed from `p`. */
    method RemoveVisibleChildren(p: Handle) returns (clonedChildren: seq<Handle>)
      requires Linked(elements) && p < |elements|
      modifies this`elements
      ensures clonedChildren == Children(old(elements), p)
      ensures elements == RemovedAll(old(elements), p, clonedChildren)
    {
      ghost var e0 := elements;
      clonedChildren := Children(elements, p);
      var i := 0;
      SliceEnds(clonedChildren);
      while i < |clonedChildren|
        invariant 0 <= i <= |clonedChildren|
        invariant InBounds(e0, clonedChildren[..i]) && elements == RemovedAll(e0, p, clonedChildren[..i])
      {
        var child := clonedChildren[i];
        RemovedAllNext(e0, p, clonedChildren, i);
        RemoveChild(p, child);
        i := i + 1;
      }
    }

    /** The second loop of `ReorderChildren`: the picked children are appended to `p` in the picked order. */
    method AppendPicked(p: Handle, clonedChildren: seq<Handle>, sigma: seq<int>)
      requires Linked(elements) && p < |elements| && InBounds(elements, clonedChildren) && IndicesIn(sigma, |clonedChildren|)
      modifies this`elements
      ensures InBounds(old(elements), Pick(clonedChildren, sigma))
      ensures elements == AddedAll(old(elements), p, Pick(clonedChildren, sigma))
    {
      ghost var e0 := elements;
      ghost var picked := Pick(clonedChildren, sigma);
      assert InBounds(e0, picked) by {
        assert forall i | 0 <= i < |picked| :: picked[i] in clonedChildren;
      }
      var i := 0;
      SliceEnds(picked);
      while i < |sigma|
        invariant 0 <= i <= |sigma|
        invariant InBounds(e0, picked[..i]) && elements == AddedAll(e0, p, picked[..i])
      {
        var child := clonedChildren[sigma[i]];
        AddedAllNext(e0, p, picked, i);
        AddChild(p, child);
        i := i + 1;
      }
    }

    /**
     * `ReorderChildren`: the visible children of `p` are removed and then
     * appended in the order the index sequence picks them; the orders are
     * then reassigned. An index outside the visible children throws in the
     * source and is excluded here.
     */
    method ReorderChildren(p: Handle, sigma: seq<int>)
      requires Valid() && p < |elements| && IndicesIn(sigma, |Children(elements, p)|)
      requires OrderTerminates(Reordered(elements, p, sigma))
      modifies this`elements
      ensures Valid() && elements == Renumbered(Reordered(old(elements), p, sigma))
    {
      ghost var s0 := State();
      ghost var e0 := elements;
      ValidReordered(s0, p, sigma);
      ReorderSteps(e0, p, sigma);
      var clonedChildren := RemoveVisibleChildren(p);
      AppendPicked(p, clonedChildren, sigma);
      assert State() == Registry(Reordered(e0, p, sigma), s0.live, s0.deleted);
      AssignElementOrder();
    }

    /**
     * `Swap`: two elements with the same parent that both occur in its
     * `_children` trade places there and the orders are reassigned;
     * otherwise nothing happens and the result is false.
     */
    method Swap(a: Handle, b: Handle) returns (swapped: bool)
      requires Valid() && a < |elements| && b < |elements|
      requires SwapApplies(elements, a, b) ==> OrderTerminates(elements)
      modifies this`elements
      ensures Valid()
      ensures swapped == SwapApplies(old(elements), a, b)
      ensures elements == if swapped then Renumbered(SwappedIn(old(elements), a, b)) else old(elements)
    {
      swapped := false;
      if elements[a].parent == elements[b].parent && elements[a].parent.Some? {
        var p := elements[a].parent.value;
        ghost var s0 := State();
        var done := SwapChildren(p, a, b);
        if done {
          ValidSwapped(s0, a, b);
          assert State() == Registry(SwappedIn(s0.elements, a, b), s0.live, s0.deleted);
          AssignElementOrder();
          swapped := true;
        }
      }
    }

    /** `NextSibling`: null for a null element, otherwise the element's next sibling. */
    function NextSibling(element: Option<Handle>): (r: Option<Handle>)
      reads this
      requires Valid() && (element.Some? ==> element.value < |elements|)
      ensures r.Some? ==> element.Some? && elements[element.value].parent.Some?
      ensures r.Some? ==> r.value in Children(elements, elements[element.value].parent.value)
    {
      if element.Some? then NextSiblingOf(elements, element.value) else None
    }

    /** `PreviousSibling`: null for a null element, otherwise the element's previous sibling. */
    function PreviousSibling(element: Option<Handle>): (r: Option<Handle>)
      reads this
      requires Valid() && (element.Some? ==> element.value < |elements|)
      ensures r.Some? ==> element.Some? && elements[element.value].parent.Some?
      ensures r.Some? ==> r.value in Children(elements, elements[element.value].parent.value)
    {
      if element.Some? then PreviousSiblingOf(elements, element.value) else None
    }
  }
}
