// The store that persists the undo history (ActionStore.cs): a registry from
// type tags to action classes, Load (persisted records -> manager history) and
// Save (manager history -> numbered persisted records).

module Actions {
  import opened Wrappers

  /** The action classes the store knows, in registration order. */
  datatype ActionType =
    | ElementCreate | ElementDelete | ElementChangeName | ElementChangeType
    | ElementChangeParent | ElementMoveDown | ElementMoveUp | ElementPartition
    | RelationCreate | RelationChangeType | RelationChangeWeight | RelationDelete
    | MakeSnapshot

  const Registration: seq<ActionType> := [
    ElementCreate, ElementDelete, ElementChangeName, ElementChangeType,
    ElementChangeParent, ElementMoveDown, ElementMoveUp, ElementPartition,
    RelationCreate, RelationChangeType, RelationChangeWeight, RelationDelete,
    MakeSnapshot]

  type Data = map<string, string>

  /** An action instance held by the action manager: its type tag and its data. */
  datatype Action = Action(tag: string, data: Data)

  /** An action record of the model: sequence number, type tag and data. */
  datatype PersistedAction = PersistedAction(index: int, tag: string, data: Data)

  /** The registry the constructor builds: each type under its own tag; a later
    * registration overwrites an earlier one with the same tag. */
  ghost function Registry(typeName: ActionType -> string): map<string, ActionType>
  {
    Registered(map[], typeName)
  }

  /** `m` after the thirteen registrations. */
  ghost function Registered(m: map<string, ActionType>, typeName: ActionType -> string): map<string, ActionType>
  {
    m[typeName(ElementCreate) := ElementCreate]
         [typeName(ElementDelete) := ElementDelete]
         [typeName(ElementChangeName) := ElementChangeName]
         [typeName(ElementChangeType) := ElementChangeType]
         [typeName(ElementChangeParent) := ElementChangeParent]
         [typeName(ElementMoveDown) := ElementMoveDown]
         [typeName(ElementMoveUp) := ElementMoveUp]
         [typeName(ElementPartition) := ElementPartition]
         [typeName(RelationCreate) := RelationCreate]
         [typeName(RelationChangeType) := RelationChangeType]
         [typeName(RelationChangeWeight) := RelationChangeWeight]
         [typeName(RelationDelete) := RelationDelete]
         [typeName(MakeSnapshot) := MakeSnapshot]
  }

  /** Every action type is registered. */
  lemma AllRegistered(t: ActionType)
    ensures t in Registration
  {
  }

  /** `m` after registering each type of `ts` under its tag, in order. */
  ghost function RegisterTypes(m: map<string, ActionType>, typeName: ActionType -> string,
                             ts: seq<ActionType>): map<string, ActionType>
  {
    if ts == [] then m
    else RegisterTypes(m, typeName, ts[..|ts| - 1])[typeName(ts[|ts| - 1]) := ts[|ts| - 1]]
  }

  /** The thirteen registrations are the registrations of `Registration`, in order. */
  lemma RegisteredUnrolled(m: map<string, ActionType>, typeName: ActionType -> string)
    ensures Registered(m, typeName) == RegisterTypes(m, typeName, Registration)
  {
    var ts := Registration;
    assert ts[..1][..0] == ts[..0];
    assert RegisterTypes(m, typeName, ts[..1]) == RegisterTypes(m, typeName, ts[..0])[typeName(ts[0]) := ts[0]];
    assert ts[..2][..1] == ts[..1];
    assert RegisterTypes(m, typeName, ts[..2]) == RegisterTypes(m, typeName, ts[..1])[typeName(ts[1]) := ts[1]];
    assert ts[..3][..2] == ts[..2];
    assert RegisterTypes(m, typeName, ts[..3]) == RegisterTypes(m, typeName, ts[..2])[typeName(ts[2]) := ts[2]];
    assert ts[..4][..3] == ts[..3];
    assert RegisterTypes(m, typeName, ts[..4]) == RegisterTypes(m, typeName, ts[..3])[typeName(ts[3]) := ts[3]];
    assert ts[..5][..4] == ts[..4];
    assert RegisterTypes(m, typeName, ts[..5]) == RegisterTypes(m, typeName, ts[..4])[typeName(ts[4]) := ts[4]];
    assert ts[..6][..5] == ts[..5];
    assert RegisterTypes(m, typeName, ts[..6]) == RegisterTypes(m, typeName, ts[..5])[typeName(ts[5]) := ts[5]];
    assert ts[..7][..6] == ts[..6];
    assert RegisterTypes(m, typeName, ts[..7]) == RegisterTypes(m, typeName, ts[..6])[typeName(ts[6]) := ts[6]];
    assert ts[..8][..7] == ts[..7];
    assert RegisterTypes(m, typeName, ts[..8]) == RegisterTypes(m, typeName, ts[..7])[typeName(ts[7]) := ts[7]];
    assert ts[..9][..8] == ts[..8];
    assert RegisterTypes(m, typeName, ts[..9]) == RegisterTypes(m, typeName, ts[..8])[typeName(ts[8]) := ts[8]];
    assert ts[..10][..9] == ts[..9];
    assert RegisterTypes(m, typeName, ts[..10]) == RegisterTypes(m, typeName, ts[..9])[typeName(ts[9]) := ts[9]];
    assert ts[..11][..10] == ts[..10];
    assert RegisterTypes(m, typeName, ts[..11]) == RegisterTypes(m, typeName, ts[..10])[typeName(ts[10]) := ts[10]];
    assert ts[..12][..11] == ts[..11];
    assert RegisterTypes(m, typeName, ts[..12]) == RegisterTypes(m, typeName, ts[..11])[typeName(ts[11]) := ts[11]];
    assert ts[..13][..12] == ts[..12];
    assert RegisterTypes(m, typeName, ts[..13]) == RegisterTypes(m, typeName, ts[..12])[typeName(ts[12]) := ts[12]];
    assert ts[..13] == ts;
  }

  lemma {:induction false} RegisterTypesKeys(m: map<string, ActionType>, typeName: ActionType -> string,
                                           ts: seq<ActionType>)
    ensures RegisterTypes(m, typeName, ts).Keys == m.Keys + set t | t in ts :: typeName(t)
  {
    if ts != [] {
      var ts' := ts[..|ts| - 1];
      RegisterTypesKeys(m, typeName, ts');
      assert ts == ts' + [ts[|ts| - 1]];
      assert (set t | t in ts :: typeName(t)) == (set t | t in ts' :: typeName(t)) + {typeName(ts[|ts| - 1])};
    }
  }

  lemma {:induction false} RegisterTypesConsistent(m: map<string, ActionType>, typeName: ActionType -> string,
                                                 ts: seq<ActionType>, k: string)
    requires forall k' :: k' in m ==> typeName(m[k']) == k'
    requires k in RegisterTypes(m, typeName, ts)
    ensures typeName(RegisterTypes(m, typeName, ts)[k]) == k
  {
    if ts != [] {
      var ts' := ts[..|ts| - 1];
      if k != typeName(ts[|ts| - 1]) {
        RegisterTypesConsistent(m, typeName, ts', k);
      }
    }
  }

  lemma {:induction false} RegisterTypesInverse(m: map<string, ActionType>, typeName: ActionType -> string,
                                              ts: seq<ActionType>, t: ActionType)
    requires t in ts
    requires forall i :: 0 <= i < |ts| && ts[i] != t ==> typeName(ts[i]) != typeName(t)
    ensures typeName(t) in RegisterTypes(m, typeName, ts)
    ensures RegisterTypes(m, typeName, ts)[typeName(t)] == t
  {
    var ts' := ts[..|ts| - 1];
    if ts[|ts| - 1] != t {
      assert t in ts';
      RegisterTypesInverse(m, typeName, ts', t);
    }
  }

  /** The registry holds exactly the tags of the thirteen action types. */
  lemma RegistryKeys(typeName: ActionType -> string)
    ensures Registry(typeName).Keys == set t | t in Registration :: typeName(t)
  {
    RegisteredUnrolled(map[], typeName);
    RegisterTypesKeys(map[], typeName, Registration);
  }

  /** Every tag is mapped to a type that carries that tag. */
  lemma RegistryConsistent(typeName: ActionType -> string, k: string)
    requires k in Registry(typeName)
    ensures typeName(Registry(typeName)[k]) == k
  {
    RegisteredUnrolled(map[], typeName);
    RegisterTypesConsistent(map[], typeName, Registration, k);
  }

  /** A type whose tag no other type shares is found under its own tag. */
  lemma RegistryInverse(typeName: ActionType -> string, t: ActionType)
    requires forall t1 :: t1 != t ==> typeName(t1) != typeName(t)
    ensures typeName(t) in Registry(typeName)
    ensures Registry(typeName)[typeName(t)] == t
  {
    RegisteredUnrolled(map[], typeName);
    AllRegistered(t);
    RegisterTypesInverse(map[], typeName, Registration, t);
  }

  /** What Load contributes for one record: the constructed instance when the
    * tag is registered and construction does not yield null. */
  function Replay(types: map<string, ActionType>, create: (ActionType, Data) -> Option<Action>,
                  a: PersistedAction): seq<Action>
  {
    if a.tag in types then
      match create(types[a.tag], a.data)
      case Some(x) => [x]
      case None => []
    else []
  }

  /** The instances Load adds to the manager for the records `s`, in order. */
  function Replayed(types: map<string, ActionType>, create: (ActionType, Data) -> Option<Action>,
                    s: seq<PersistedAction>): (r: seq<Action>)
    ensures |r| <= |s|
  {
    if s == [] then [] else Replayed(types, create, s[..|s| - 1]) + Replay(types, create, s[|s| - 1])
  }

  lemma {:induction false} ReplayedAppend(types: map<string, ActionType>,
                                          create: (ActionType, Data) -> Option<Action>,
                                          s: seq<PersistedAction>, t: seq<PersistedAction>)
    ensures Replayed(types, create, s + t) == Replayed(types, create, s) + Replayed(types, create, t)
    decreases |t|
  {
    if t == [] {
      assert s + t == s;
    } else {
      var t' := t[..|t| - 1];
      assert (s + t)[..|s + t| - 1] == s + t';
      assert (s + t)[|s + t| - 1] == t[|t| - 1];
      ReplayedAppend(types, create, s, t');
    }
  }

  /** A record Load skips: its tag is not registered, or construction yields null. */
  predicate Skipped(types: map<string, ActionType>, create: (ActionType, Data) -> Option<Action>,
                    a: PersistedAction)
  {
    a.tag !in types || create(types[a.tag], a.data).None?
  }

  /** Load adds nothing exactly when it skips every record. */
  lemma {:induction false} ReplayedSkipsUnknown(types: map<string, ActionType>,
                                                create: (ActionType, Data) -> Option<Action>,
                                                s: seq<PersistedAction>)
    ensures Replayed(types, create, s) == [] <==> forall i :: 0 <= i < |s| ==> Skipped(types, create, s[i])
  {
    if s != [] {
      var s' := s[..|s| - 1];
      ReplayedSkipsUnknown(types, create, s');
      assert Replay(types, create, s[|s| - 1]) == [] <==> Skipped(types, create, s[|s| - 1]);
      assert forall i :: 0 <= i < |s'| ==> s'[i] == s[i];
      if forall i :: 0 <= i < |s| ==> Skipped(types, create, s[i]) {
        assert forall i :: 0 <= i < |s'| ==> Skipped(types, create, s'[i]);
      }
    }
  }

  /** When every tag is registered and every construction succeeds, Load adds
    * one instance per record, built from that record, in the stored order. */
  lemma {:induction false} ReplayedInOrder(types: map<string, ActionType>,
                                           create: (ActionType, Data) -> Option<Action>,
                                           s: seq<PersistedAction>)
    requires forall i :: 0 <= i < |s| ==> s[i].tag in types && create(types[s[i].tag], s[i].data).Some?
    ensures |Replayed(types, create, s)| == |s|
    ensures forall i :: 0 <= i < |s| ==>
      Replayed(types, create, s)[i] == create(types[s[i].tag], s[i].data).value
  {
    if s != [] {
      ReplayedInOrder(types, create, s[..|s| - 1]);
    }
  }

  /** The records Save writes for the history `h`, numbered from 1. */
  function Saved(h: seq<Action>): (r: seq<PersistedAction>)
    ensures |r| == |h|
  {
    if h == [] then [] else Saved(h[..|h| - 1]) + [PersistedAction(|h|, h[|h| - 1].tag, h[|h| - 1].data)]
  }

  /** Save writes record i + 1 for the i-th action, with its tag and data unchanged. */
  lemma {:induction false} SavedAt(h: seq<Action>)
    ensures forall i :: 0 <= i < |h| ==> Saved(h)[i] == PersistedAction(i + 1, h[i].tag, h[i].data)
  {
    if h != [] {
      SavedAt(h[..|h| - 1]);
    }
  }

  /** Loading what was saved gives back the history, provided each action's tag
    * is registered and rebuilding it from its tag and data gives it back. */
  lemma SaveLoadRoundTrip(types: map<string, ActionType>,
                                             create: (ActionType, Data) -> Option<Action>,
                                             h: seq<Action>)
    requires forall i :: 0 <= i < |h| ==> h[i].tag in types && create(types[h[i].tag], h[i].data) == Some(h[i])
    ensures Replayed(types, create, Saved(h)) == h
  {
    var sv := Saved(h);
    SavedAt(h);
    assert forall i :: 0 <= i < |sv| ==> sv[i].tag == h[i].tag && sv[i].data == h[i].data;
    ReplayedInOrder(types, create, sv);
  }

  /** The store, with the two collections it works between: the model's action
    * records and the action manager's chronological history. */
  class ActionStore {
    const typeName: ActionType -> string
    const create: (ActionType, Data) -> Option<Action>
    var types: map<string, ActionType>
    var persisted: seq<PersistedAction>
    var history: seq<Action>

    constructor(typeName: ActionType -> string, create: (ActionType, Data) -> Option<Action>,
                persisted: seq<PersistedAction>, history: seq<Action>)
      ensures this.typeName == typeName && this.create == create
      ensures this.persisted == persisted && this.history == history
      ensures types == Registry(typeName)
    {
      this.typeName := typeName;
      this.create := create;
      this.persisted := persisted;
      this.history := history;
      types := map[];
      new;
      RegisterActionTypes();
    }

    method RegisterActionTypes()
      modifies this`types
      ensures types == Registered(old(types), typeName)
    {
      types := types[typeName(ElementCreate) := ElementCreate];
      types := types[typeName(ElementDelete) := ElementDelete];
      types := types[typeName(ElementChangeName) := ElementChangeName];
      types := types[typeName(ElementChangeType) := ElementChangeType];
      types := types[typeName(ElementChangeParent) := ElementChangeParent];
      types := types[typeName(ElementMoveDown) := ElementMoveDown];
      types := types[typeName(ElementMoveUp) := ElementMoveUp];
      types := types[typeName(ElementPartition) := ElementPartition];
      types := types[typeName(RelationCreate) := RelationCreate];
      types := types[typeName(RelationChangeType) := RelationChangeType];
      types := types[typeName(RelationChangeWeight) := RelationChangeWeight];
      types := types[typeName(RelationDelete) := RelationDelete];
      types := types[typeName(MakeSnapshot) := MakeSnapshot];
    }

    /** Adds to the history an instance for each record, in stored order. */
    method Load()
      modifies this`history
      ensures history == old(history) + Replayed(types, create, persisted)
    {
      var i := 0;
      while i < |persisted|
        invariant 0 <= i <= |persisted|
        invariant history == old(history) + Replayed(types, create, persisted[..i])
      {
        var action := persisted[i];
        assert persisted[..i + 1][..i] == persisted[..i];
        if action.tag in types {
          var t := types[action.tag];
          var instance := create(t, action.data);
          if instance.Some? {
            history := history + [instance.value];
          }
        }
        i := i + 1;
      }
      assert persisted[..i] == persisted;
    }

    /** Appends a numbered record for each action of the history. */
    method Save()
      modifies this`persisted
      ensures persisted == old(persisted) + Saved(history)
    {
      var index := 0;
      while index < |history|
        invariant 0 <= index <= |history|
        invariant persisted == old(persisted) + Saved(history[..index])
      {
        var action := history[index];
        assert history[..index + 1][..index] == history[..index];
        index := index + 1;
        persisted := persisted + [PersistedAction(index, action.tag, action.data)];
      }
      assert history[..index] == history;
    }
  }
}
