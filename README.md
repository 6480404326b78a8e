# DSM viewer element hierarchy and action store, in Dafny

This project models the core of the DsmSuite DSM viewer's data model:

- `DsmElement`: one node of the element hierarchy. It owns an ordered child list (`_children`) and a parent back-pointer. Its `Children` view filters out deleted and hidden children. It also has a dotted `Fullname`, an in-place `Swap` of two children and a per-provider weight dictionary.
- `DsmElementModel`: the registry and editor of the hierarchy. It holds two id dictionaries, one for live elements and one for soft-deleted elements. It also holds the id watermark `_lastElementId` and a synthetic root. Its operations cover:
  - adding and importing elements;
  - renaming and changing the type of elements;
  - reparenting;
  - recursive soft delete and restore;
  - pre-order renumbering, reordering by an index sequence, and sibling swap;
  - lookups by id, by full name and by substring.
- `ActionStore`: the registry from action type tags to action types. `Load` replays the model's persisted action records into the action manager. `Save` writes the manager's history back as records numbered 1..n.

Files:

- `element.dfy` (modules `Wrappers` and `Element`):
  - the element record;
  - the visible/hidden filters;
  - `List.IndexOf`/`Remove` and the swap;
  - `AddChild`/`RemoveChild` as functions on the arena;
  - `Fullname`, both as a function and as the source's loop;
  - the weight dictionary with unchecked 32-bit arithmetic.
- `hierarchy.dfy` (module `Hierarchy`): the depth-first pre-order walk over visible children, with a depth bound `d`. Numbering a walk (`SetOrders`) is what `AssignElementOrder` does, and `Renumbered` is that numbering applied to the whole tree.
- `edits.dfy` (module `Edits`): specification functions for multi-step edits, with their lemmas:
  - reordering (`Reordered`), swapping (`SwappedIn`), detaching (`Detached`) and siblings;
  - the soft-delete bookkeeping (`UnregisterStep`, `Unregistered`);
  - re-registration (`RegisterAll`, `Undeleted`).
- `element_model.dfy` (module `ElementModel`):
  - the class `DsmElementModel` and its consistency predicate `ValidState`;
  - every public and private operation as a method, proved against the functions above;
  - the lemmas that relate operations to each other: remove then unremove, swap then swap back, and add then add again.
- `action_store.dfy` (module `Actions`): the class `ActionStore` with `RegisterActionTypes`, `Load` and `Save`, and the registry, replay and numbering lemmas.

Modelling choices:

- **Arena.** Objects are modelled as an arena `elements: seq<DsmElement>`. An element's object identity is its handle, which is its index in the arena. Handle 0 is `_root`. C# `List.Contains`, `IndexOf` and `Remove` compare references, so they compare handles here, never ids.
- **Dictionaries.** `_elementsById` and `_deletedElementsById` are `live` and `deleted`, each of type `map<int, Handle>`.
- **General graph.** The hierarchy is not assumed to be a tree. `ChangeElementParent` has no cycle check, and `UnremoveElement` of a deleted descendant appends it to a child list a second time. So `ValidState` only demands:
  - every handle is in bounds;
  - the root has no parent and is nobody's child;
  - each dictionary entry points at a non-root element with that id and the matching deleted flag.
- **Termination.** Where the source can loop forever on such a graph, the method requires that the walk stops: `Rooted` for `Fullname`, `OrderTerminates` or `Finite` for the recursive walks.
- **Factory.** In `ActionStore`, the `TypeName` constants of the action classes are a parameter `typeName`. The reflective `Activator.CreateInstance(type, model, data)` is a factory parameter `create` that may return `None`, which stands for the null the `as IAction` cast can give. The action manager's history and the model's action list are fields of the store.

## Model

Paths are relative to the repository root.

| member | source | states |
|---|---|---|
| Element.Wrap32 | DsmSuite.DsmViewer.Model/Core/DsmElement.cs:39 | C# unchecked `int` addition: the value is kept when it fits in 32 bits, and otherwise equals it modulo 2^32 |
| Element.NewElement | DsmSuite.DsmViewer.Model/Core/DsmElement.cs:19-27 | a new element has the given id, name, type, order and expansion; it is included in the tree, not deleted, and has no parent, no children and no weights |
| Element.VisibleIn | DsmSuite.DsmViewer.Model/Core/DsmElement.cs:123 | `Children`: an element is in the result iff it is listed and neither deleted nor excluded from the tree; the result is no longer than the list |
| Element.HiddenIn | DsmSuite.DsmViewer.Model/Core/DsmElement.cs:123 | the complement of `Children`: an element is in the result iff it is listed and is deleted or excluded |
| Element.HasChildren | DsmSuite.DsmViewer.Model/Core/DsmElement.cs:125-132 | `HasChildren` holds iff some listed child is visible |
| Element.FilterAppend | DsmSuite.DsmViewer.Model/Core/DsmElement.cs:123 | the filter commutes with concatenation, so `Children` keeps the relative order of `_children` |
| Element.FilterSplit | DsmSuite.DsmViewer.Model/Core/DsmElement.cs:123-127 | every element of `AllChildren` is either visible or hidden: the two multisets add up to `_children`, and so do the lengths |
| Element.NoVisibleIsHidden | DsmSuite.DsmViewer.Model/Core/DsmElement.cs:123 | a child list with no visible child is entirely hidden |
| Element.IndexOf | DsmSuite.DsmViewer.Model/Core/DsmElement.cs:173-174 | `List.IndexOf` returns the first occurrence: the element is at that index and not before it |
| Element.IndexOfUnique | DsmSuite.DsmViewer.Model/Core/DsmElement.cs:173-174 | in a list without repetitions, the first occurrence of `s[i]` is `i` |
| Element.RemoveFirst | DsmSuite.DsmViewer.Model/Core/DsmElement.cs:154 | `List.Remove` deletes exactly the first occurrence, and leaves the list alone when the element is absent |
| Element.RemoveFirstMembers | DsmSuite.DsmViewer.Model/Core/DsmElement.cs:154 | removing adds no element |
| Element.RemoveFirstAppended | DsmSuite.DsmViewer.Model/Core/DsmElement.cs:140-154 | removing an element that was just appended, and absent before, gives the list back |
| Element.RemoveFirstVisible | DsmSuite.DsmViewer.Model/Core/DsmElement.cs:123-154 | removing the first visible child drops it from `Children` and leaves the hidden children as they were |
| Element.Swapped | DsmSuite.DsmViewer.Model/Core/DsmElement.cs:171-179 | the two first occurrences exchange places; the length and multiset stay the same; every other position is unchanged |
| Element.SwapTwice | DsmSuite.DsmViewer.Model/Core/DsmElement.cs:167-183 | without repetitions, swapping back restores the list, and the swapped list still has no repetitions |
| Element.WithChild | DsmSuite.DsmViewer.Model/Core/DsmElement.cs:138-146 | `AddChild` appends the child after the earlier children and sets the child's parent to this element |
| Element.WithoutChild | DsmSuite.DsmViewer.Model/Core/DsmElement.cs:152-160 | `RemoveChild` removes the first occurrence from `_children` and sets the child's parent to null |
| Element.WithoutWithChild | DsmSuite.DsmViewer.Model/Core/DsmElement.cs:138-160 | `RemoveChild` after `AddChild` restores the child list and leaves the child without a parent |
| Element.WithChildLinked | DsmSuite.DsmViewer.Model/Core/DsmElement.cs:138-146 | `AddChild` keeps every parent and child reference inside the arena |
| Element.WithoutChildLinked | DsmSuite.DsmViewer.Model/Core/DsmElement.cs:152-160 | `RemoveChild` keeps every parent and child reference inside the arena |
| Element.GetFullname | DsmSuite.DsmViewer.Model/Core/DsmElement.cs:82-98 | the loop over the parent chain computes `Fullname`: each non-empty ancestor name and a dot in front, root-most first |
| Element.FullnameOfChild | DsmSuite.DsmViewer.Model/Core/DsmElement.cs:86-95 | a child's full name is its parent's full name, then a dot if the parent's name is not empty, then its own name |
| Element.FullnameOfTop | DsmSuite.DsmViewer.Model/Core/DsmElement.cs:86-88 | an element without a parent is named by its own name |
| Element.PrefixFuel | DsmSuite.DsmViewer.Model/Core/DsmElement.cs:88-95 | the name prefix of the parent chain does not depend on how many steps are allowed, once the chain has ended |
| Element.AddedWeight | DsmSuite.DsmViewer.Model/Core/DsmElement.cs:32-40 | the provider's weight becomes its old value (0 if absent) plus `w` in unchecked 32-bit arithmetic: the sum itself when it fits, and always congruent to the sum modulo 2^32; no other key changes; the key set gains the provider |
| Element.RemovedWeight | DsmSuite.DsmViewer.Model/Core/DsmElement.cs:42-49 | the key must be present; below `w`, nothing changes; at least `w` (a negative `w` included), the new value is the old value minus `w` modulo 2^32, exactly the difference and never negative when `w` is non-negative; no other key changes |
| Element.RemoveAfterAdd | DsmSuite.DsmViewer.Model/Core/DsmElement.cs:32-49 | `RemoveWeight` after `AddWeight` with the same non-negative weight restores the dictionary, provided the sum did not overflow |
| Hierarchy.VisibleInSame | DsmSuite.DsmViewer.Model/Core/DsmElement.cs:123 | `Children` depends only on the deleted and included flags |
| Hierarchy.FiniteSame | DsmSuite.DsmViewer.Model/Core/DsmElementModel.cs:294-301 | whether the recursive walk stops depends only on child lists and flags |
| Hierarchy.FiniteFewerEdges | DsmSuite.DsmViewer.Model/Core/DsmElementModel.cs:294-301 | removing visible edges keeps a stopping walk stopping |
| Hierarchy.PreOrder | DsmSuite.DsmViewer.Model/Core/DsmElementModel.cs:289-302 | the walk of `AssignElementOrder(element, ref order)` starts at the element and stays in the arena |
| Hierarchy.PreOrderMembers | DsmSuite.DsmViewer.Model/Core/DsmElementModel.cs:294 | apart from its start, the walk only visits visible elements that are listed as somebody's child |
| Hierarchy.PreOrderAllMembers | DsmSuite.DsmViewer.Model/Core/DsmElementModel.cs:155-162 | the walks of a list visit its elements and visible children only |
| Hierarchy.PreOrderSame | DsmSuite.DsmViewer.Model/Core/DsmElementModel.cs:289-302 | the walk reads only child lists and flags, so it is the same in arenas that agree on them |
| Hierarchy.PreOrderAllIntro | DsmSuite.DsmViewer.Model/Core/DsmElementModel.cs:294-301 | the `foreach` walks every listed child's subtree: whatever a child's walk visits, the loop visits |
| Hierarchy.PreOrderAllWitness | DsmSuite.DsmViewer.Model/Core/DsmElementModel.cs:294-301 | whatever the `foreach` visits, some listed child's walk visits |
| Hierarchy.PreOrderFewerEdges | DsmSuite.DsmViewer.Model/Core/DsmElementModel.cs:289-302 | with fewer visible edges a walk visits no new element |
| Hierarchy.ReachesStep | DsmSuite.DsmViewer.Model/Core/DsmElementModel.cs:289-302 | what a visible child's walk reaches, its parent's walk reaches |
| Hierarchy.ReachesFewerEdges | DsmSuite.DsmViewer.Model/Core/DsmElementModel.cs:289-302 | with fewer visible edges nothing new is reached |
| Hierarchy.ReachesClosed | DsmSuite.DsmViewer.Model/Core/DsmElementModel.cs:289-302 | a set holding `h` and every visible child of its members holds everything `h` reaches |
| Hierarchy.PreOrderAllStep | DsmSuite.DsmViewer.Model/Core/DsmElementModel.cs:294-301 | the `foreach` over children walks each child's subtree in turn |
| Hierarchy.WalkWhole | DsmSuite.DsmViewer.Model/Core/DsmElementModel.cs:289-302 | the walk of `h` is `h` followed by the walks of its visible children |
| Hierarchy.RootNotVisited | DsmSuite.DsmViewer.Model/Core/DsmElementModel.cs:155 | the root is nobody's child, so `AssignElementOrder` never renumbers it |
| Hierarchy.SetOrdersFrame | DsmSuite.DsmViewer.Model/Core/DsmElementModel.cs:291 | numbering changes nothing but `Order`, and only for the walked elements |
| Hierarchy.SetOrdersAppend | DsmSuite.DsmViewer.Model/Core/DsmElementModel.cs:291-292 | the `ref order` counter threads through: numbering `s + t` numbers `t` from where `s` stopped |
| Hierarchy.SetOrdersAt | DsmSuite.DsmViewer.Model/Core/DsmElementModel.cs:291-292 | without repeats, the i-th walked element gets order `k + i` |
| Hierarchy.RenumberedOrders | DsmSuite.DsmViewer.Model/Core/DsmElementModel.cs:150-163 | after `AssignElementOrder`, the i-th element of the root's pre-order walk has order i + 1 when the walk has no repeats; the root and unreached elements are untouched |
| Hierarchy.RenumberedSame | DsmSuite.DsmViewer.Model/Core/DsmElementModel.cs:150-163 | the renumbering walk is the same in arenas with the same links |
| Hierarchy.RootPreOrderFewerEdges | DsmSuite.DsmViewer.Model/Core/DsmElementModel.cs:150-163 | with fewer visible edges the renumbering walk visits no new element |
| Hierarchy.RenumberedOnlyOrders | DsmSuite.DsmViewer.Model/Core/DsmElementModel.cs:150-163 | renumbering changes only orders, and only of the elements the walk visits |
| Hierarchy.SetOrdersOverwrites | DsmSuite.DsmViewer.Model/Core/DsmElementModel.cs:289-302 | numbering overwrites: on arenas differing only in orders it gives the numbered elements the same value and keeps every other element |
| Edits.Pick | DsmSuite.DsmViewer.Model/Core/DsmElementModel.cs:206-209 | the i-th appended child is `clonedChildren[sequence.GetIndex(i)]` |
| Edits.PickMultiset | DsmSuite.DsmViewer.Model/Core/DsmElementModel.cs:206-209 | index sequences with the same multiset pick the same multiset of children |
| Edits.PickPermutation | DsmSuite.DsmViewer.Model/Core/DsmElementModel.cs:206-209 | picking by a permutation of 0..n-1 loses and adds no child |
| Edits.ReorderedAt | DsmSuite.DsmViewer.Model/Core/DsmElementModel.cs:199-209 | reordering edits only the parent's child list and the parents of its visible children |
| Edits.ReorderedLinks | DsmSuite.DsmViewer.Model/Core/DsmElementModel.cs:199-209 | field by field: the new child list is the hidden children followed by the picked ones; picked children get the parent, other visible children lose theirs |
| Edits.ReorderedRoot | DsmSuite.DsmViewer.Model/Core/DsmElementModel.cs:199-209 | reordering never gives the root a parent or makes it a child |
| Edits.ReorderedChildren | DsmSuite.DsmViewer.Model/Core/DsmElementModel.cs:199-209 | afterwards the visible children are exactly the picked ones in the picked order; the hidden ones stay in front, in their order |
| Edits.ReorderedPermutes | DsmSuite.DsmViewer.Model/Core/DsmElementModel.cs:199-209 | when the sequence is a permutation, the multiset of the parent's children is unchanged |
| Edits.ReorderedFewerEdges | DsmSuite.DsmViewer.Model/Core/DsmElementModel.cs:199-209 | reordering creates no new visible edge |
| Edits.WithoutChildShape | DsmSuite.DsmViewer.Model/Core/DsmElement.cs:152-160 | one `RemoveChild` changes only the parent's child list and the child's parent |
| Edits.WithChildShape | DsmSuite.DsmViewer.Model/Core/DsmElement.cs:138-146 | one `AddChild` changes only the parent's child list and the child's parent |
| Edits.RemovedAllShape | DsmSuite.DsmViewer.Model/Core/DsmElementModel.cs:201-204 | the removal loop clears exactly the removed children's parents and touches no other child list |
| Edits.RemovedAllNext | DsmSuite.DsmViewer.Model/Core/DsmElementModel.cs:201-204 | one round of the removal loop is one `RemoveChild` |
| Edits.AddedAllNext | DsmSuite.DsmViewer.Model/Core/DsmElementModel.cs:206-209 | one round of the append loop is one `AddChild` |
| Edits.RemovedAllVisible | DsmSuite.DsmViewer.Model/Core/DsmElementModel.cs:199-204 | removing the first visible children in order leaves the remaining visible children and all hidden ones |
| Edits.RemovedAllLast | DsmSuite.DsmViewer.Model/Core/DsmElementModel.cs:201-204 | the last round of the removal loop removes the last element |
| Edits.RemoveFirstVisibleHead | DsmSuite.DsmViewer.Model/Core/DsmElementModel.cs:203 | removing the first visible child leaves the later visible children and all hidden ones |
| Edits.AddedAllShape | DsmSuite.DsmViewer.Model/Core/DsmElementModel.cs:206-209 | the append loop extends the child list by exactly the picked children and sets exactly their parents |
| Edits.RemovedAllChildren | DsmSuite.DsmViewer.Model/Core/DsmElementModel.cs:199-204 | after the removal loop the parent keeps only its hidden children, and the removed children have no parent |
| Edits.ReorderSteps | DsmSuite.DsmViewer.Model/Core/DsmElementModel.cs:199-209 | the two loops together make exactly the edit `Reordered` describes |
| Edits.ParentsComposed | DsmSuite.DsmViewer.Model/Core/DsmElementModel.cs:199-209 | composing the two loops' effects on parents and child lists |
| Edits.ReorderedUnique | DsmSuite.DsmViewer.Model/Core/DsmElementModel.cs:199-209 | any relinking with the reordered child lists and parents is `Reordered` |
| Edits.RelinkedTrans | DsmSuite.DsmViewer.Model/Core/DsmElement.cs:138-160 | successive `AddChild`/`RemoveChild` edits only change links |
| Edits.RelinkedEqual | DsmSuite.DsmViewer.Model/Core/DsmElement.cs:138-160 | two relinkings of the same arena that agree on links are equal |
| Edits.SwappedIn | DsmSuite.DsmViewer.Model/Core/DsmElementModel.cs:218-223 | the arena after the parent's `Swap`, keeping its size |
| Edits.SwappedSameEdges | DsmSuite.DsmViewer.Model/Core/DsmElementModel.cs:214-232 | a swap keeps every visible edge, and only their order changes |
| Edits.SwappedInOrders | DsmSuite.DsmViewer.Model/Core/DsmElementModel.cs:218-223 | the parent's swap reads and changes no order, so it commutes with renumbering |
| Edits.NextSiblingOf | DsmSuite.DsmViewer.Model/Core/DsmElementModel.cs:234-242 | a next sibling is a visible child of the element's parent |
| Edits.PreviousSiblingOf | DsmSuite.DsmViewer.Model/Core/DsmElementModel.cs:244-252 | a previous sibling is a visible child of the element's parent |
| Edits.SiblingsInverse | DsmSuite.DsmViewer.Model/Core/DsmElementModel.cs:234-252 | among siblings listed once each, `n` is `h`'s next sibling iff `h` is `n`'s previous sibling |
| Edits.Detached | DsmSuite.DsmViewer.Model/Core/DsmElementModel.cs:304-316 | after `RemoveElementFromParent` the element has no parent |
| Edits.OnlyDeletesTrans | DsmSuite.DsmViewer.Model/Core/DsmElementModel.cs:323-334 | raising deleted flags composes |
| Edits.OnlyDeletesHides | DsmSuite.DsmViewer.Model/Core/DsmElementModel.cs:325-330 | after flags are raised, a visible child was a visible child before, and a childless element stays childless |
| Edits.IdsOfUnion | DsmSuite.DsmViewer.Model/Core/DsmElementModel.cs:326-327 | the ids of two sets of elements add up across flag raises |
| Edits.UnregisteredKeepsFlags | DsmSuite.DsmViewer.Model/Core/DsmElementModel.cs:330-333 | unregistering one child keeps earlier children deleted |
| Edits.UnregisterFinish | DsmSuite.DsmViewer.Model/Core/DsmElementModel.cs:330-333 | once each child visible at the start is deleted, no visible child is left |
| Edits.UnregisterStart | DsmSuite.DsmViewer.Model/Core/DsmElementModel.cs:325-327 | the first three statements of `UnregisterElement` satisfy the unregistration invariant for `h` alone |
| Edits.TouchedCompose | DsmSuite.DsmViewer.Model/Core/DsmElementModel.cs:330-333 | the elements deleted by the call on `h` are those deleted before the recursive call plus those deleted by it |
| Edits.ComposeClosure | DsmSuite.DsmViewer.Model/Core/DsmElementModel.cs:330-333 | after a recursive call, every deleted element other than `h` has no visible child |
| Edits.ComposeOrigin | DsmSuite.DsmViewer.Model/Core/DsmElementModel.cs:330-333 | every element deleted by the recursion was a visible child of a deleted element |
| Edits.ComposeIds | DsmSuite.DsmViewer.Model/Core/DsmElementModel.cs:326-327 | the dictionary moves of two successive unregistrations add up |
| Edits.UnregisterCompose | DsmSuite.DsmViewer.Model/Core/DsmElementModel.cs:330-333 | one more child unregistered keeps the invariant of the `foreach` |
| Edits.UnregisteredClosed | DsmSuite.DsmViewer.Model/Core/DsmElementModel.cs:323-334 | `UnregisterElement` deletes every visible descendant: each visible child of a deleted element is deleted too |
| Edits.ComposeReach | DsmSuite.DsmViewer.Model/Core/DsmElementModel.cs:330-333 | every element the recursive call on a visible child deletes lies below `h` over the visible edges at the start |
| Edits.UnregisteredExactly | DsmSuite.DsmViewer.Model/Core/DsmElementModel.cs:323-334 | `UnregisterElement(h)` deletes exactly `h` and the elements reached from it over visible edges before the call, and nothing else |
| Edits.Undeleted | DsmSuite.DsmViewer.Model/Core/DsmElementModel.cs:338 | `IsDeleted = false` clears the flag |
| Edits.RegisterAll | DsmSuite.DsmViewer.Model/Core/DsmElementModel.cs:339 | `RegisterElement` over a walk, each in turn |
| Edits.RegisterAllEntries | DsmSuite.DsmViewer.Model/Core/DsmElementModel.cs:339 | the walk's ids are added, each mapped to a walked element with that id, and every other entry is kept |
| Edits.IdsOfSeqAppend | DsmSuite.DsmViewer.Model/Core/DsmElementModel.cs:340 | the ids of a concatenated walk are the union of the two walks' ids |
| Edits.RegisterAllAppend | DsmSuite.DsmViewer.Model/Core/DsmElementModel.cs:343-346 | registering `s + t` is registering `s` then `t` |
| Edits.RestoreSkipsDeleted | DsmSuite.DsmViewer.Model/Core/DsmElementModel.cs:343-346 | a soft-deleted descendant is never visited by `ReregisterElement`, because `Children` hides it |
| Edits.RestoreVisitsUndeleted | DsmSuite.DsmViewer.Model/Core/DsmElementModel.cs:336-346 | every element the restore walks is not deleted |
| ElementModel.LiveHandle | DsmSuite.DsmViewer.Model/Core/DsmElementModel.cs:12 | a live id maps to a non-root element with that id that is not deleted |
| ElementModel.DeletedHandle | DsmSuite.DsmViewer.Model/Core/DsmElementModel.cs:13 | a deleted id maps to a non-root element with that id that is deleted |
| ElementModel.ValidReshaped | DsmSuite.DsmViewer.Model/Core/DsmElementModel.cs:12-15 | an edit that keeps ids, flags, links in bounds and a parentless root keeps the state consistent |
| ElementModel.ValidRelabelled | DsmSuite.DsmViewer.Model/Core/DsmElementModel.cs:72-88 | changing names, types, orders or expansion keeps the state consistent |
| ElementModel.ValidReordered | DsmSuite.DsmViewer.Model/Core/DsmElementModel.cs:194-212 | reordering keeps the state consistent |
| ElementModel.RelinkedIdentity | DsmSuite.DsmViewer.Model/Core/DsmElement.cs:138-160 | relinking keeps ids and deleted flags |
| ElementModel.ValidSwapped | DsmSuite.DsmViewer.Model/Core/DsmElementModel.cs:214-232 | swapping keeps the state consistent and the root's walk finite |
| ElementModel.ValidSwappedList | DsmSuite.DsmViewer.Model/Core/DsmElement.cs:167-183 | replacing a child list by a rearrangement of itself keeps the state consistent |
| ElementModel.UnregisterLoopEntry | DsmSuite.DsmViewer.Model/Core/DsmElementModel.cs:330-333 | the recursive call is on a live visible child, and the termination measure drops |
| ElementModel.UnregisterLoopStep | DsmSuite.DsmViewer.Model/Core/DsmElementModel.cs:330-333 | the `foreach` invariant is preserved |
| ElementModel.ReregisterStart | DsmSuite.DsmViewer.Model/Core/DsmElementModel.cs:338-340 | the first statements of `ReregisterElement` keep the state consistent and register `h` alone |
| ElementModel.OrderStart | DsmSuite.DsmViewer.Model/Core/DsmElementModel.cs:291-292 | numbering `h` alone changes no visible child list |
| ElementModel.OrderDone | DsmSuite.DsmViewer.Model/Core/DsmElementModel.cs:289-302 | `h` then its children's walks is the walk of `h` |
| ElementModel.OrderRootStart | DsmSuite.DsmViewer.Model/Core/DsmElementModel.cs:155-162 | every visible child of the root has a stopping walk |
| ElementModel.ValidRenumbered | DsmSuite.DsmViewer.Model/Core/DsmElementModel.cs:150-163 | renumbering keeps the state consistent |
| ElementModel.ReregisterLoopEntry | DsmSuite.DsmViewer.Model/Core/DsmElementModel.cs:343-346 | the recursive call is on a visible, hence not deleted, child |
| ElementModel.UnregisteredIdsAppend | DsmSuite.DsmViewer.Model/Core/DsmElementModel.cs:340 | removing ids in two steps removes the ids of the whole walk |
| ElementModel.ValidDetached | DsmSuite.DsmViewer.Model/Core/DsmElementModel.cs:304-316 | detaching a non-root element keeps the state consistent |
| ElementModel.ValidCollapsed | DsmSuite.DsmViewer.Model/Core/DsmElementModel.cs:304-316 | collapsing the former parent (`IsExpanded = false`) keeps the state consistent |
| ElementModel.ValidUnregisterOne | DsmSuite.DsmViewer.Model/Core/DsmElementModel.cs:325-327 | flagging `h` and moving its id to the deleted dictionary keeps the state consistent |
| ElementModel.ValidRegisterOne | DsmSuite.DsmViewer.Model/Core/DsmElementModel.cs:338-340 | clearing `h`'s flag and moving its id to the live dictionary keeps the state consistent |
| ElementModel.ValidWithChild | DsmSuite.DsmViewer.Model/Core/DsmElement.cs:138-146 | adding a non-root child keeps the state consistent |
| ElementModel.ValidCreated | DsmSuite.DsmViewer.Model/Core/DsmElementModel.cs:262-283 | appending a new element under a parent and registering it keeps the state consistent |
| ElementModel.ValidWithoutChild | DsmSuite.DsmViewer.Model/Core/DsmElement.cs:152-160 | removing a non-root child keeps the state consistent |
| ElementModel.LiveRooted | DsmSuite.DsmViewer.Model/Core/DsmElementModel.cs:174-175 | every live element's full name is defined |
| ElementModel.ContainsTransitive | DsmSuite.DsmViewer.Model/Core/DsmElementModel.cs:184 | `String.Contains` is transitive |
| ElementModel.PrefixExtends | DsmSuite.DsmViewer.Model/Core/DsmElement.cs:86-95 | growing the arena without changing parents or names keeps every name prefix |
| ElementModel.FullnameExtends | DsmSuite.DsmViewer.Model/Core/DsmElement.cs:82-98 | such growth keeps every full name |
| ElementModel.CreatedFullname | DsmSuite.DsmViewer.Model/Core/DsmElementModel.cs:254-287 | a created element's full name is its parent's full name, a dot if the parent's name is non-empty, and its own name; other full names are kept |
| ElementModel.MeasureDrops | DsmSuite.DsmViewer.Model/Core/DsmElementModel.cs:330-333 | `UnregisterElement` always terminates: the recursive call starts lower in `2 * |NonDeleted| + (1 if already deleted)` |
| ElementModel.RemovedStaysDetached | DsmSuite.DsmViewer.Model/Core/DsmElementModel.cs:105-131 | after `RemoveElement(id)` the element is deleted, has no parent, and its id is only in the deleted dictionary |
| ElementModel.DetachedKeepsIds | DsmSuite.DsmViewer.Model/Core/DsmElementModel.cs:304-316 | detaching changes no id |
| ElementModel.UnregisteredIds | DsmSuite.DsmViewer.Model/Core/DsmElementModel.cs:326-327 | every id the unregistration collected is deleted and not live |
| ElementModel.UnremoveAfterRemove | DsmSuite.DsmViewer.Model/Core/DsmElementModel.cs:120-133 | `UnremoveElement(id)` right after `RemoveElement(id)` is a no-op, because `RemoveChild` cleared the parent (DsmElement.cs line 158) |
| ElementModel.SwapRestores | DsmSuite.DsmViewer.Application.Test/Actions/Element/ElementMoveDownActionTest.cs:34-54 | on the parent's child list alone, move-down's undo (`Swap(next, element)` after `Swap(element, next)`) applies and restores the list, when the parent lists each child once |
| ElementModel.SwapBackRenumbered | DsmSuite.DsmViewer.Application.Test/Actions/Element/ElementMoveDownActionTest.cs:34-54 | move-down then its undo, each `Swap` renumbering as DsmElementModel.cs lines 218-227 do: the second swap applies, and the result is the arena renumbered once without moving anything, which is the arena itself when its orders already were the pre-order numbering |
| ElementModel.RenumberedOverwrites | DsmSuite.DsmViewer.Model/Core/DsmElementModel.cs:150-163 | renumbering ignores the orders it overwrites: arenas that differ only in the orders of walked elements renumber to the same arena |
| ElementModel.CreatedFindable | DsmSuite.DsmViewer.Model/Core/DsmElementModel.cs:47-70 | a created element has the full name `AddElement` looked up, so a second `AddElement` with the same arguments finds it (under a parent whose name is non-empty) |
| ElementModel.DsmElementModel.constructor | DsmSuite.DsmViewer.Model/Core/DsmElementModel.cs:20-26 | the root `DsmElement(0, "", "")`, both dictionaries empty, watermark 0 |
| ElementModel.DsmElementModel.Clear | DsmSuite.DsmViewer.Model/Core/DsmElementModel.cs:28-34 | both dictionaries are empty and the watermark is 0; the arena, including the root's real child list, is unchanged |
| ElementModel.DsmElementModel.AddChild | DsmSuite.DsmViewer.Model/Core/DsmElement.cs:138-146 | the arena becomes `WithChild` |
| ElementModel.DsmElementModel.RemoveChild | DsmSuite.DsmViewer.Model/Core/DsmElement.cs:152-160 | the arena becomes `WithoutChild` |
| ElementModel.DsmElementModel.RemoveAllChildren | DsmSuite.DsmViewer.Model/Core/DsmElement.cs:162-165 | the child list is emptied; former children keep their parent pointer |
| ElementModel.DsmElementModel.SwapChildren | DsmSuite.DsmViewer.Model/Core/DsmElement.cs:167-183 | the method returns true iff both elements are in `_children`; then the list becomes `Swapped`; otherwise nothing changes |
| ElementModel.DsmElementModel.AddWeight | DsmSuite.DsmViewer.Model/Core/DsmElement.cs:32-40 | the weights become `AddedWeight`, and nothing else changes |
| ElementModel.DsmElementModel.RemoveWeight | DsmSuite.DsmViewer.Model/Core/DsmElement.cs:42-49 | the weights become `RemovedWeight`, and nothing else changes |
| ElementModel.DsmElementModel.RegisterElement | DsmSuite.DsmViewer.Model/Core/DsmElementModel.cs:318-321 | the id maps to the element in the live dictionary |
| ElementModel.DsmElementModel.AddElementWithId | DsmSuite.DsmViewer.Model/Core/DsmElementModel.cs:254-287 | a parent id that is not live: null and no change; otherwise a new element under the parent (or the root) is registered live |
| ElementModel.DsmElementModel.ImportElement | DsmSuite.DsmViewer.Model/Core/DsmElementModel.cs:36-45 | the watermark becomes `max(old, id)`, then the element is created as above |
| ElementModel.DsmElementModel.EditElementName | DsmSuite.DsmViewer.Model/Core/DsmElementModel.cs:72-79 | only the name changes |
| ElementModel.DsmElementModel.EditElementType | DsmSuite.DsmViewer.Model/Core/DsmElementModel.cs:81-88 | only the type changes |
| ElementModel.DsmElementModel.ChangeElementParent | DsmSuite.DsmViewer.Model/Core/DsmElementModel.cs:90-103 | an element with a parent is removed from it and appended to the new parent, with no cycle check; otherwise nothing changes |
| ElementModel.DsmElementModel.FindElementById | DsmSuite.DsmViewer.Model/Core/DsmElementModel.cs:167-170 | the result is found iff the id is live, and is then a non-deleted element with that id |
| ElementModel.DsmElementModel.GetDeletedElementById | DsmSuite.DsmViewer.Model/Core/DsmElementModel.cs:188-192 | the result is found iff the id is soft-deleted, and is then a deleted element with that id |
| ElementModel.DsmElementModel.SearchElements | DsmSuite.DsmViewer.Model/Core/DsmElementModel.cs:181-186 | exactly the live elements whose full name contains the text |
| ElementModel.DsmElementModel.SearchNarrows | DsmSuite.DsmViewer.Model/Core/DsmElementModel.cs:181-186 | a longer text finds a subset of what any part of it finds |
| ElementModel.DsmElementModel.SearchEverything | DsmSuite.DsmViewer.Model/Core/DsmElementModel.cs:181-186 | the empty text finds every live element |
| ElementModel.DsmElementModel.FindElementByFullname | DsmSuite.DsmViewer.Model/Core/DsmElementModel.cs:172-179 | null iff no live element has that full name; otherwise a live element with it |
| ElementModel.DsmElementModel.AddElement | DsmSuite.DsmViewer.Model/Core/DsmElementModel.cs:47-70 | if a live element has the computed full name, it is returned and nothing changes; otherwise the watermark goes up by one, even when the parent is missing, and the element is created with the new id |
| ElementModel.DsmElementModel.RemoveElementFromParent | DsmSuite.DsmViewer.Model/Core/DsmElementModel.cs:304-316 | the arena becomes `Detached`: the parent loses the element and collapses when no visible child is left |
| ElementModel.DsmElementModel.UnregisterElement | DsmSuite.DsmViewer.Model/Core/DsmElementModel.cs:323-334 | exactly `h` and the elements it reaches over visible edges are flagged (with `UnregisteredExactly`); their ids leave the live dictionary and enter the deleted one |
| ElementModel.DsmElementModel.RemoveElement | DsmSuite.DsmViewer.Model/Core/DsmElementModel.cs:105-118 | an id that is not live changes nothing; otherwise the element is detached and then unregistered |
| ElementModel.DsmElementModel.ReregisterElement | DsmSuite.DsmViewer.Model/Core/DsmElementModel.cs:336-347 | only `h`'s flag clears; the ids on its visible walk become live and stop being deleted |
| ElementModel.DsmElementModel.UnremoveElement | DsmSuite.DsmViewer.Model/Core/DsmElementModel.cs:120-133 | a deleted element that still has a parent is appended to it again and re-registered; otherwise nothing changes |
| ElementModel.DsmElementModel.AssignOrderFrom | DsmSuite.DsmViewer.Model/Core/DsmElementModel.cs:289-302 | numbers the walk of `h` from `order` and returns the next free number |
| ElementModel.DsmElementModel.AssignOrderAll | DsmSuite.DsmViewer.Model/Core/DsmElementModel.cs:294-301 | numbers the walks of the listed children, one after the other |
| ElementModel.DsmElementModel.AssignElementOrder | DsmSuite.DsmViewer.Model/Core/DsmElementModel.cs:150-163 | the arena becomes `Renumbered`: the root's walk numbered from 1 |
| ElementModel.DsmElementModel.RemoveVisibleChildren | DsmSuite.DsmViewer.Model/Core/DsmElementModel.cs:199-204 | returns the visible children and removes each, in order |
| ElementModel.DsmElementModel.AppendPicked | DsmSuite.DsmViewer.Model/Core/DsmElementModel.cs:206-209 | appends the picked children in order |
| ElementModel.DsmElementModel.ReorderChildren | DsmSuite.DsmViewer.Model/Core/DsmElementModel.cs:194-212 | the arena becomes `Reordered`, then renumbered; only the walk of the reordered arena must stop |
| ElementModel.DsmElementModel.Swap | DsmSuite.DsmViewer.Model/Core/DsmElementModel.cs:214-232 | returns true iff the elements share a non-null parent that lists both; then the parent's list is swapped and renumbered; otherwise nothing changes, and no termination is needed |
| ElementModel.DsmElementModel.NextSibling | DsmSuite.DsmViewer.Model/Core/DsmElementModel.cs:234-242 | null for null; a found sibling is a visible child of the element's parent |
| ElementModel.DsmElementModel.PreviousSibling | DsmSuite.DsmViewer.Model/Core/DsmElementModel.cs:244-252 | null for null; a found sibling is a visible child of the element's parent |
| Actions.AllRegistered | DsmSuite.DsmViewer.Application/Actions/Management/ActionStore.cs:56-68 | every action type is among the thirteen registered |
| Actions.RegisteredUnrolled | DsmSuite.DsmViewer.Application/Actions/Management/ActionStore.cs:56-68 | the thirteen assignments are the registrations of the types in source order |
| Actions.RegisterTypesKeys | DsmSuite.DsmViewer.Application/Actions/Management/ActionStore.cs:56-68 | registering adds exactly the tags of the registered types |
| Actions.RegisterTypesConsistent | DsmSuite.DsmViewer.Application/Actions/Management/ActionStore.cs:56-68 | every tag maps to a type that carries that tag |
| Actions.RegisterTypesInverse | DsmSuite.DsmViewer.Application/Actions/Management/ActionStore.cs:56-68 | a type whose tag no other type shares is found under its tag |
| Actions.RegistryKeys | DsmSuite.DsmViewer.Application/Actions/Management/ActionStore.cs:54-69 | the registry holds exactly the thirteen types' tags |
| Actions.RegistryConsistent | DsmSuite.DsmViewer.Application/Actions/Management/ActionStore.cs:54-69 | each registered tag maps to a type carrying it |
| Actions.RegistryInverse | DsmSuite.DsmViewer.Application/Actions/Management/ActionStore.cs:54-69 | with distinct tags, each type is found under its own tag |
| Actions.Replayed | DsmSuite.DsmViewer.Application/Actions/Management/ActionStore.cs:28-41 | `Load` adds at most one action per record |
| Actions.ReplayedAppend | DsmSuite.DsmViewer.Application/Actions/Management/ActionStore.cs:28-41 | replay of concatenated records is the concatenation of replays: stored order is kept |
| Actions.ReplayedSkipsUnknown | DsmSuite.DsmViewer.Application/Actions/Management/ActionStore.cs:28-41 | `Load` adds nothing exactly when every record is skipped: its tag is not registered or construction yields null |
| Actions.ReplayedInOrder | DsmSuite.DsmViewer.Application/Actions/Management/ActionStore.cs:28-40 | with known tags and non-null construction, the i-th added action is built from the i-th record's type and data |
| Actions.Saved | DsmSuite.DsmViewer.Application/Actions/Management/ActionStore.cs:46-51 | `Save` writes one record per action |
| Actions.SavedAt | DsmSuite.DsmViewer.Application/Actions/Management/ActionStore.cs:46-51 | the i-th record has index i + 1 and the action's tag and data unchanged |
| Actions.SaveLoadRoundTrip | DsmSuite.DsmViewer.Application/Actions/Management/ActionStore.cs:26-52 | `Load` of what `Save` wrote gives the history back, when each tag is registered and rebuilding from tag and data gives the action back |
| Actions.ActionStore.constructor | DsmSuite.DsmViewer.Application/Actions/Management/ActionStore.cs:17-24 | the store starts with the registry of the thirteen types |
| Actions.ActionStore.RegisterActionTypes | DsmSuite.DsmViewer.Application/Actions/Management/ActionStore.cs:54-69 | the thirteen registrations are applied to the dictionary |
| Actions.ActionStore.Load | DsmSuite.DsmViewer.Application/Actions/Management/ActionStore.cs:26-42 | the history is extended by `Replayed` of the persisted records |
| Actions.ActionStore.Save | DsmSuite.DsmViewer.Application/Actions/Management/ActionStore.cs:44-52 | the persisted records are extended by `Saved` of the history |

## Left out

- Logger calls and the `ElementUnregistered`/`ElementReregistered` events are not modelled.
- ElementModel.DsmElementModel.ChangeElementParent: the log message evaluates `element.Parent.Fullname` and `parent.Fullname` before the null check. For an element without a parent the source throws, and when either parent chain is cyclic (which an earlier `ChangeElementParent` can make) it loops forever. The model does neither: it does nothing, or reparents.
- ElementModel.DsmElementModel.SearchElements: the source returns a deferred query over `_elementsById.Values`, evaluated in dictionary order against the state at the time it is enumerated. The model returns the set of matches at the time of the call, without an order.
- `TypeRegistration` is not part of this model, and `Type` is a plain string.
- `ElementName` is not part of this model. `JoinName` assumes `AddNamePart` appends after a dot, except to an empty name.
- `IDsmElement.NextSibling`/`PreviousSibling` are not part of this model. They are assumed to be the next and previous entries in the parent's visible `Children`.
- `IsMatch`, `DirectWeights`, `ChildCount`, `AllChildren`, `IsRoot`, `CompareTo` and the export accessors (`GetExportedRootElements`, `GetElements`, `GetExportedElementCount`, `TotalElementCount`) are plain accessors and are not modelled as members.
- ElementModel.DsmElementModel.ReorderChildren: an index from the sequence outside the visible children throws in the source. Here it is excluded by a precondition.
- ElementModel.DsmElementModel.AssignElementOrder, ReregisterElement and UnremoveElement require that the walk over visible children stops (`OrderTerminates`, `Finite`, `RestoreTerminates`). `ReorderChildren` requires it of the reordered arena, and `Swap` only when the swap applies, since only then does it renumber. The walk fails to stop only when a visible cycle hangs below where it starts, which `ChangeElementParent` can create; the source then recurses forever.
- ElementModel.DsmElementModel.FindElementByFullname, SearchElements and AddElement require `AllRooted`, so that every live element's parent chain ends. Otherwise `Fullname` loops forever.
- ElementModel.DsmElementModel.FindElementByFullname: the dictionary's enumeration order is not specified, so which of several elements with the same full name is returned is left open.
- ElementModel.DsmElementModel.ImportElement: the `deleted` argument is unused in the source as well.
- Ids, orders and `_lastElementId` are unbounded integers. C# `int` overflow of the watermark and of the order counter is not modelled. Weights do wrap, through `Wrap32`.
- The redundant second `ContainsKey` check and the `as DsmElement` casts in the private `AddElement` always succeed in this model.
- Actions.ActionStore: the action classes, their `TypeName` constants, `IActionManager` and `IDsmModel.AddAction` are not part of this model.
  - The tags are a parameter.
  - Construction is a factory parameter.
  - The manager's history and the model's action list are sequences held by the store.
- Actions.RegistryInverse: it states the lookup only for a type whose tag is unique, since the tag constants are not part of this model.
