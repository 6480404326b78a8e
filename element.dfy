// One node of the DSM element hierarchy (DsmElement.cs), as a record stored in
// the arena of DsmElementModel. Object identity is the element's handle: its
// index in the arena. Child lists and the parent back-pointer hold handles.

module Wrappers {
  datatype Option<+T> = None | Some(value: T)
}

module Element {
  import opened Wrappers

  /** Index of an element object in the arena. */
  type Handle = nat

  /** The synthetic root created by the DsmElementModel constructor. */
  const ROOT: Handle := 0

  /** The C# `int` of the weight dictionaries. */
  newtype Int32 = x: int | -0x8000_0000 <= x < 0x8000_0000

  /** Unchecked 32-bit arithmetic: the result modulo 2^32, in the signed range. */
  function Wrap32(x: int): (r: Int32)
    ensures -0x8000_0000 <= x < 0x8000_0000 ==> r as int == x
    ensures (x - r as int) % 0x1_0000_0000 == 0
  {
    var m := (x + 0x8000_0000) % 0x1_0000_0000;
    assert x - (m - 0x8000_0000) == (x + 0x8000_0000) / 0x1_0000_0000 * 0x1_0000_0000;
    (m - 0x8000_0000) as Int32
  }

  datatype DsmElement = DsmElement(
    id: int,
    name: string,
    typeName: string,
    order: int,
    isExpanded: bool,
    isIncludedInTree: bool,
    isDeleted: bool,
    parent: Option<Handle>,
    children: seq<Handle>,
    weights: map<int, Int32>)

  /** The state a `new DsmElement(id, name, type) { Order = order, IsExpanded = expanded }` starts in. */
  function NewElement(id: int, name: string, typeName: string, order: int, isExpanded: bool): (r: DsmElement)
    ensures r.id == id && r.name == name && r.typeName == typeName && r.order == order && r.isExpanded == isExpanded
    ensures r.isIncludedInTree && !r.isDeleted && r.parent == None && r.children == [] && r.weights == map[]
    ensures IsVisible(r)
  {
    DsmElement(id, name, typeName, order, isExpanded, true, false, None, [], map[])
  }

  // ---------------------------------------------------------------------------
  // Arena well-formedness

  predicate InBounds(elts: seq<DsmElement>, s: seq<Handle>)
  {
    forall i | 0 <= i < |s| :: s[i] < |elts|
  }

  /** A non-empty list is its prefix followed by its last element. */
  lemma LastSplit(s: seq<Handle>)
    requires s != []
    ensures s == s[..|s| - 1] + [s[|s| - 1]]
    ensures forall x :: x in s <==> x in s[..|s| - 1] || x == s[|s| - 1]
  {
  }

  lemma InBoundsPrefix(elts: seq<DsmElement>, s: seq<Handle>, n: nat)
    requires InBounds(elts, s) && n <= |s|
    ensures InBounds(elts, s[..n])
  {
    assert forall i | 0 <= i < n :: s[..n][i] == s[i];
  }

  /** The empty prefix and the full suffix of a list. */
  lemma SliceEnds(v: seq<Handle>)
    ensures v[..0] == [] && v[0..] == v && v[..|v|] == v
  {
  }

  lemma InBoundsAppend(elts: seq<DsmElement>, s: seq<Handle>, t: seq<Handle>)
    requires InBounds(elts, s) && InBounds(elts, t)
    ensures InBounds(elts, s + t)
  {
    var st := s + t;
    forall i | 0 <= i < |st| ensures st[i] < |elts| {
      if i < |s| { assert st[i] == s[i]; } else { assert st[i] == t[i - |s|]; }
    }
  }

  /** Every parent and child handle refers to an element of the arena. */
  ghost predicate Linked(elts: seq<DsmElement>)
  {
    forall h | 0 <= h < |elts| ::
      (elts[h].parent.Some? ==> elts[h].parent.value < |elts|) && InBounds(elts, elts[h].children)
  }

  /** A new element without parent or children keeps the arena linked. */
  lemma LinkedAppend(elts: seq<DsmElement>, x: DsmElement)
    requires Linked(elts) && x.parent == None && x.children == []
    ensures Linked(elts + [x])
  {
    var e := elts + [x];
    forall h | 0 <= h < |e| ensures InBounds(e, e[h].children) {
      if h < |elts| {
        assert InBounds(elts, elts[h].children);
      }
    }
  }

  // ---------------------------------------------------------------------------
  // The visible child list (DsmElement.Children)

  predicate IsVisible(e: DsmElement)
  {
    !e.isDeleted && e.isIncludedInTree
  }

  /** Handle `c` names an element that is neither deleted nor excluded from the tree. */
  predicate Shown(elts: seq<DsmElement>, c: Handle)
  {
    c < |elts| && IsVisible(elts[c])
  }

  /** The elements of `s` that are neither deleted nor excluded from the tree, in their order. */
  function VisibleIn(elts: seq<DsmElement>, s: seq<Handle>): (r: seq<Handle>)
    ensures |r| <= |s| && InBounds(elts, r)
    ensures forall c :: c in r <==> c in s && Shown(elts, c)
  {
    if s == [] then []
    else (if Shown(elts, s[0]) then [s[0]] else []) + VisibleIn(elts, s[1..])
  }

  /** The elements of `s` that are deleted or excluded from the tree, in their order. */
  function HiddenIn(elts: seq<DsmElement>, s: seq<Handle>): (r: seq<Handle>)
    ensures |r| <= |s|
    ensures forall c :: c in r <==> c in s && !Shown(elts, c)
    ensures InBounds(elts, s) ==> InBounds(elts, r)
  {
    if s == [] then []
    else (if Shown(elts, s[0]) then [] else [s[0]]) + HiddenIn(elts, s[1..])
  }

  /** `Children`: the visible part of `_children`. */
  function Children(elts: seq<DsmElement>, h: Handle): seq<Handle>
    requires h < |elts|
  {
    VisibleIn(elts, elts[h].children)
  }

  /** `HasChildren`: some child in `_children` is visible. */
  predicate HasChildren(elts: seq<DsmElement>, h: Handle)
    requires h < |elts|
    ensures HasChildren(elts, h) <==> exists c :: c in elts[h].children && Shown(elts, c)
  {
    var r := Children(elts, h);
    assert r != [] ==> r[0] in r;
    |r| > 0
  }

  /** Filtering commutes with concatenation: the visible list keeps the relative order of `_children`. */
  lemma {:induction false} FilterAppend(elts: seq<DsmElement>, a: seq<Handle>, b: seq<Handle>)
    ensures VisibleIn(elts, a + b) == VisibleIn(elts, a) + VisibleIn(elts, b)
    ensures HiddenIn(elts, a + b) == HiddenIn(elts, a) + HiddenIn(elts, b)
  {
    VisibleAppend(elts, a, b);
    HiddenAppend(elts, a, b);
  }

  lemma {:induction false} VisibleAppend(elts: seq<DsmElement>, a: seq<Handle>, b: seq<Handle>)
    ensures VisibleIn(elts, a + b) == VisibleIn(elts, a) + VisibleIn(elts, b)
  {
    if a == [] {
      assert a + b == b;
    } else {
      var ab := a + b;
      assert ab[0] == a[0] && ab[1..] == a[1..] + b;
      VisibleAppend(elts, a[1..], b);
    }
  }

  lemma {:induction false} HiddenAppend(elts: seq<DsmElement>, a: seq<Handle>, b: seq<Handle>)
    ensures HiddenIn(elts, a + b) == HiddenIn(elts, a) + HiddenIn(elts, b)
  {
    if a == [] {
      assert a + b == b;
    } else {
      var ab := a + b;
      assert ab[0] == a[0] && ab[1..] == a[1..] + b;
      HiddenAppend(elts, a[1..], b);
    }
  }

  /** Every element of `_children` is either in the visible list or in the hidden one. */
  lemma {:induction false} FilterSplit(elts: seq<DsmElement>, s: seq<Handle>)
    ensures multiset(VisibleIn(elts, s)) + multiset(HiddenIn(elts, s)) == multiset(s)
    ensures |VisibleIn(elts, s)| + |HiddenIn(elts, s)| == |s|
  {
    if s != [] {
      FilterSplit(elts, s[1..]);
      assert s == [s[0]] + s[1..];
    }
  }

  /** A list with no visible element is its own hidden part. */
  lemma {:induction false} NoVisibleIsHidden(elts: seq<DsmElement>, s: seq<Handle>)
    requires VisibleIn(elts, s) == []
    ensures HiddenIn(elts, s) == s
  {
    if s != [] {
      assert !Shown(elts, s[0]);
      NoVisibleIsHidden(elts, s[1..]);
    }
  }

  // ---------------------------------------------------------------------------
  // First occurrence, removal, swap (List.IndexOf, List.Remove, DsmElement.Swap)

  /** `List.IndexOf`: the position of the first occurrence. */
  function IndexOf(s: seq<Handle>, x: Handle): (i: nat)
    requires x in s
    ensures i < |s| && s[i] == x && x !in s[..i]
  {
    if s[0] == x then 0 else 1 + IndexOf(s[1..], x)
  }

  /** In a list without repetitions the position of an element is its first occurrence. */
  lemma {:induction false} IndexOfUnique(s: seq<Handle>, i: nat)
    requires i < |s| && NoDuplicates(s)
    ensures IndexOf(s, s[i]) == i
  {
  }

  predicate NoDuplicates(s: seq<Handle>)
  {
    forall i, j | 0 <= i < j < |s| :: s[i] != s[j]
  }

  /** `List.Remove`: the list without the first occurrence of `x`, or unchanged when `x` is absent. */
  function RemoveFirst(s: seq<Handle>, x: Handle): (r: seq<Handle>)
    ensures x in s ==> r == s[..IndexOf(s, x)] + s[IndexOf(s, x) + 1..]
    ensures x !in s ==> r == s
  {
    if s == [] then []
    else if s[0] == x then s[1..]
    else
      var t := RemoveFirst(s[1..], x);
      if x in s then RemoveAfterHead(s, x); [s[0]] + t else [s[0]] + t
  }

  /** Cutting out the first occurrence of `x` behind a different head cuts it out of the tail. */
  lemma RemoveAfterHead(s: seq<Handle>, x: Handle)
    requires s != [] && s[0] != x && x in s
    ensures x in s[1..]
    ensures var i, j := IndexOf(s, x), IndexOf(s[1..], x);
      i == 1 + j && s[..i] + s[i + 1..] == [s[0]] + (s[1..][..j] + s[1..][j + 1..])
  {
    var j := IndexOf(s[1..], x);
    assert s[..j + 1] == [s[0]] + s[1..][..j];
    assert s[j + 2..] == s[1..][j + 1..];
  }

  /** Removing an element adds nothing to the list. */
  lemma {:induction false} RemoveFirstMembers(s: seq<Handle>, x: Handle)
    ensures forall y | y in RemoveFirst(s, x) :: y in s
  {
    if s != [] && s[0] != x {
      RemoveFirstMembers(s[1..], x);
    }
  }

  /** Removing the element just appended gives the list back. */
  lemma {:induction false} RemoveFirstAppended(s: seq<Handle>, x: Handle)
    requires x !in s
    ensures RemoveFirst(s + [x], x) == s
  {
    if s != [] {
      assert (s + [x])[1..] == s[1..] + [x];
      RemoveFirstAppended(s[1..], x);
    }
  }

  /** Removing the first visible element of a list drops it from the visible list and leaves the hidden list alone. */
  lemma {:induction false} RemoveFirstVisible(elts: seq<DsmElement>, s: seq<Handle>)
    requires VisibleIn(elts, s) != []
    ensures var x := VisibleIn(elts, s)[0];
      && VisibleIn(elts, RemoveFirst(s, x)) == VisibleIn(elts, s)[1..]
      && HiddenIn(elts, RemoveFirst(s, x)) == HiddenIn(elts, s)
  {
    var x := VisibleIn(elts, s)[0];
    assert x in VisibleIn(elts, s);
    if s[0] == x {
    } else {
      assert !Shown(elts, s[0]);
      assert VisibleIn(elts, s) == VisibleIn(elts, s[1..]);
      RemoveFirstVisible(elts, s[1..]);
      assert RemoveFirst(s, x) == [s[0]] + RemoveFirst(s[1..], x);
    }
  }

  /**
   * DsmElement.Swap on the child list: the element at the first position of `b` becomes `a`,
   * then the element at the first position of `a` becomes `b`.
   */
  function Swapped(s: seq<Handle>, a: Handle, b: Handle): (r: seq<Handle>)
    requires a in s && b in s
    ensures |r| == |s| && multiset(r) == multiset(s)
    ensures r[IndexOf(s, a)] == b && r[IndexOf(s, b)] == a
    ensures forall i | 0 <= i < |s| && i != IndexOf(s, a) && i != IndexOf(s, b) :: r[i] == s[i]
  {
    var index1 := IndexOf(s, a);
    var index2 := IndexOf(s, b);
    var r := s[index2 := a][index1 := b];
    r
  }

  /** Swapping the same two elements back restores a list without repetitions. */
  lemma SwapTwice(s: seq<Handle>, a: Handle, b: Handle)
    requires a in s && b in s && NoDuplicates(s)
    ensures NoDuplicates(Swapped(s, a, b))
    ensures Swapped(Swapped(s, a, b), b, a) == s
  {
    var r := Swapped(s, a, b);
    var i, j := IndexOf(s, a), IndexOf(s, b);
    assert NoDuplicates(r) by {
      forall x, y | 0 <= x < y < |r| ensures r[x] != r[y] {
        var sx := if x == i then j else if x == j then i else x;
        var sy := if y == i then j else if y == j then i else y;
        assert r[x] == s[sx] && r[y] == s[sy];
      }
    }
    IndexOfUnique(r, i);
    IndexOfUnique(r, j);
  }

  // ---------------------------------------------------------------------------
  // Child list edits (DsmElement.AddChild, RemoveChild, RemoveAllChildren)

  /** `p.AddChild(c)`: `c` is appended to `p`'s `_children` and its parent becomes `p`. */
  function WithChild(elts: seq<DsmElement>, p: Handle, c: Handle): (r: seq<DsmElement>)
    requires p < |elts| && c < |elts|
    ensures |r| == |elts|
    ensures r[p].children == elts[p].children + [c] && r[c].parent == Some(p)
  {
    var e1 := elts[p := elts[p].(children := elts[p].children + [c])];
    e1[c := e1[c].(parent := Some(p))]
  }

  /** `p.RemoveChild(c)`: the first occurrence of `c` leaves `p`'s `_children` and the parent of `c` is cleared. */
  function WithoutChild(elts: seq<DsmElement>, p: Handle, c: Handle): (r: seq<DsmElement>)
    requires p < |elts| && c < |elts|
    ensures |r| == |elts|
    ensures r[p].children == RemoveFirst(elts[p].children, c) && r[c].parent == None
  {
    var e1 := elts[p := elts[p].(children := RemoveFirst(elts[p].children, c))];
    e1[c := e1[c].(parent := None)]
  }

  /** Removing a child that was just added gives back the child list; the child is left without a parent. */
  lemma WithoutWithChild(elts: seq<DsmElement>, p: Handle, c: Handle)
    requires p < |elts| && c < |elts| && c !in elts[p].children
    ensures WithoutChild(WithChild(elts, p, c), p, c) == elts[c := elts[c].(parent := None)]
  {
    RemoveFirstAppended(elts[p].children, c);
  }

  /** `AddChild` keeps every handle inside the arena. */
  lemma WithChildLinked(elts: seq<DsmElement>, p: Handle, c: Handle)
    requires Linked(elts) && p < |elts| && c < |elts|
    ensures Linked(WithChild(elts, p, c))
  {
    var r := WithChild(elts, p, c);
    InBoundsAppend(elts, elts[p].children, [c]);
    forall h | 0 <= h < |r| ensures (r[h].parent.Some? ==> r[h].parent.value < |r|) && InBounds(r, r[h].children) {
      if h == p {
        assert r[h].children == elts[p].children + [c];
      }
    }
  }

  /** `RemoveChild` keeps every handle inside the arena. */
  lemma WithoutChildLinked(elts: seq<DsmElement>, p: Handle, c: Handle)
    requires Linked(elts) && p < |elts| && c < |elts|
    ensures Linked(WithoutChild(elts, p, c))
  {
    var r := WithoutChild(elts, p, c);
    var s := elts[p].children;
    var t := RemoveFirst(s, c);
    RemoveFirstMembers(s, c);
    assert InBounds(elts, t) by {
      forall i | 0 <= i < |t| ensures t[i] < |elts| {
        assert t[i] in s;
      }
    }
    forall h | 0 <= h < |r| ensures (r[h].parent.Some? ==> r[h].parent.value < |r|) && InBounds(r, r[h].children) {
      if h == p {
        assert r[h].children == t;
      }
    }
  }

  // ---------------------------------------------------------------------------
  // Full name (DsmElement.Fullname)

  /** Following parent pointers from `h` reaches an element without parent in at most `fuel` steps. */
  predicate ChainEnds(elts: seq<DsmElement>, h: Handle, fuel: nat)
    requires Linked(elts) && h < |elts|
    decreases fuel
  {
    elts[h].parent.None? || (fuel > 0 && ChainEnds(elts, elts[h].parent.value, fuel - 1))
  }

  /** The parent chain of `h` ends; without this the loop in `Fullname` never stops. */
  predicate Rooted(elts: seq<DsmElement>, h: Handle)
    requires Linked(elts) && h < |elts|
  {
    ChainEnds(elts, h, |elts|)
  }

  /** What `p` and its ancestors put in front of a descendant's name: each non-empty name followed by a dot, root-most first. */
  function Prefix(elts: seq<DsmElement>, p: Handle, fuel: nat): string
    requires Linked(elts) && p < |elts| && ChainEnds(elts, p, fuel)
    decreases fuel
  {
    (if elts[p].parent.Some? then Prefix(elts, elts[p].parent.value, fuel - 1) else "")
    + (if |elts[p].name| > 0 then elts[p].name + "." else "")
  }

  function Fullname(elts: seq<DsmElement>, h: Handle): string
    requires Linked(elts) && h < |elts| && Rooted(elts, h)
  {
    (if elts[h].parent.Some? then Prefix(elts, elts[h].parent.value, |elts| - 1) else "") + elts[h].name
  }

  /** More fuel changes neither the verdict of `ChainEnds` nor the prefix. */
  lemma {:induction false} PrefixFuel(elts: seq<DsmElement>, p: Handle, f: nat, g: nat)
    requires Linked(elts) && p < |elts| && ChainEnds(elts, p, f) && f <= g
    ensures ChainEnds(elts, p, g) && Prefix(elts, p, f) == Prefix(elts, p, g)
    decreases f
  {
    if elts[p].parent.Some? {
      PrefixFuel(elts, elts[p].parent.value, f - 1, g - 1);
    }
  }

  /** The full name of a child is its parent's full name, a dot when the parent's name is not empty, and its own name. */
  lemma FullnameOfChild(elts: seq<DsmElement>, c: Handle)
    requires Linked(elts) && c < |elts| && Rooted(elts, c) && elts[c].parent.Some?
    ensures Rooted(elts, elts[c].parent.value)
    ensures var p := elts[c].parent.value;
      Fullname(elts, c) == Fullname(elts, p) + (if |elts[p].name| > 0 then "." else "") + elts[c].name
  {
    var p := elts[c].parent.value;
    var n := |elts|;
    PrefixFuel(elts, p, n - 1, n);
    if elts[p].parent.Some? {
      PrefixFuel(elts, elts[p].parent.value, n - 2, n - 1);
    }
  }

  /** A root element (no parent) is named by its own name alone. */
  lemma FullnameOfTop(elts: seq<DsmElement>, h: Handle)
    requires Linked(elts) && h < |elts| && elts[h].parent.None?
    ensures Rooted(elts, h) && Fullname(elts, h) == elts[h].name
  {
  }

  lemma Associative(a: string, b: string, c: string)
    ensures a + (b + c) == (a + b) + c
  {
  }

  /** `Fullname`: the loop walks the parent chain and prefixes every non-empty ancestor name. */
  method GetFullname(elts: seq<DsmElement>, h: Handle) returns (fullname: string)
    requires Linked(elts) && h < |elts| && Rooted(elts, h)
    ensures fullname == Fullname(elts, h)
  {
    fullname := elts[h].name;
    var parent: Option<Handle> := elts[h].parent;
    ghost var fuel: nat := |elts| - 1;
    while parent.Some?
      invariant parent.Some? ==> parent.value < |elts| && ChainEnds(elts, parent.value, fuel)
      invariant (if parent.Some? then Prefix(elts, parent.value, fuel) else "") + fullname == Fullname(elts, h)
      decreases if parent.Some? then fuel + 1 else 0
    {
      var p := parent.value;
      ghost var rest := if elts[p].parent.Some? then Prefix(elts, elts[p].parent.value, fuel - 1) else "";
      ghost var own := if |elts[p].name| > 0 then elts[p].name + "." else "";
      assert Prefix(elts, p, fuel) == rest + own;
      ghost var tail := fullname;
      if |elts[p].name| > 0 {
        fullname := elts[p].name + "." + fullname;
      }
      assert fullname == own + tail;
      Associative(rest, own, tail);
      parent := elts[p].parent;
      fuel := if parent.Some? then fuel - 1 else 0;
    }
  }

  // ---------------------------------------------------------------------------
  // Weights (DsmElement.AddWeight, RemoveWeight)

  /** `AddWeight`: the entry for `provider` becomes its old value (0 when absent) plus `w`, in unchecked 32-bit arithmetic. */
  function AddedWeight(weights: map<int, Int32>, provider: int, w: Int32): (r: map<int, Int32>)
    ensures r.Keys == weights.Keys + {provider}
    ensures forall k | k in weights && k != provider :: r[k] == weights[k]
    ensures var before := if provider in weights then weights[provider] as int else 0;
      -0x8000_0000 <= before + w as int < 0x8000_0000 ==> r[provider] as int == before + w as int
    ensures var before := if provider in weights then weights[provider] as int else 0;
      (before + w as int - r[provider] as int) % 0x1_0000_0000 == 0
  {
    var current: Int32 := if provider in weights then weights[provider] else 0;
    weights[provider := Wrap32(current as int + w as int)]
  }

  /** `RemoveWeight`: subtracts `w` only when the current value is at least `w`; otherwise nothing changes. */
  function RemovedWeight(weights: map<int, Int32>, provider: int, w: Int32): (r: map<int, Int32>)
    requires provider in weights
    ensures r.Keys == weights.Keys
    ensures forall k | k in weights && k != provider :: r[k] == weights[k]
    ensures weights[provider] < w ==> r == weights
    ensures 0 <= w <= weights[provider] ==> 0 <= r[provider] <= weights[provider] && r[provider] as int == weights[provider] as int - w as int
    ensures w <= weights[provider] ==> (weights[provider] as int - w as int - r[provider] as int) % 0x1_0000_0000 == 0
  {
    var current := weights[provider];
    if current >= w then weights[provider := Wrap32(current as int - w as int)] else weights
  }

  /** Removing the weight just added restores the map, as long as the addition did not overflow. */
  lemma RemoveAfterAdd(weights: map<int, Int32>, provider: int, w: Int32)
    requires provider in weights && 0 <= weights[provider] && 0 <= w
    requires weights[provider] as int + w as int < 0x8000_0000
    ensures RemovedWeight(AddedWeight(weights, provider, w), provider, w) == weights
  {
  }
}
