/** The `persistState` configuration of the application bootstrap: which
    stores are written to storage, the slice kept of `gitlab-projects`, and
    the `preStoreUpdate` hook that runs on each store's state as it is read
    back. States are loosely typed JavaScript values. */
module PersistState {
  import opened Wrappers
  import opened JsValue

  /** The `include` list. */
  const PersistedStores: seq<string> := ["gitlab-config", "gitlab-projects", "UI/gitlab-projects"]

  /** `gitlabProjectsPersistFn`: only `entities` and `ids` are kept, in that
      order. */
  function GitlabProjectsPersistFn(state: Value): (r: Value)
    requires !state.Undefined? && !state.Null?
    ensures r.Object? && |r.props| == 2
    ensures Lookup(r.props, "entities") == Get(state, "entities")
    ensures Lookup(r.props, "ids") == Get(state, "ids")
    ensures forall k :: k != "entities" && k != "ids" ==> Lookup(r.props, k) == Undefined
  {
    var props := [Prop("entities", Get(state, "entities")), Prop("ids", Get(state, "ids"))];
    assert forall k :: k != "entities" && k != "ids" ==>
      Lookup(props, k) == Lookup(props[1..], k) == Lookup(props[1..][1..], k) == Lookup([], k);
    Object(props)
  }

  /** What is written for a store: nothing for a store outside `include`,
      the `select` slice for `gitlab-projects`, the whole state otherwise. */
  function PersistedSlice(storeName: string, state: Value): (r: Option<Value>)
    requires !state.Undefined? && !state.Null?
    ensures r.Some? <==> storeName in PersistedStores
    ensures storeName == "gitlab-projects" ==> r == Some(GitlabProjectsPersistFn(state))
  {
    if storeName !in PersistedStores then None
    else if storeName == "gitlab-projects" then Some(GitlabProjectsPersistFn(state))
    else Some(state)
  }

  /** The search selection of `gitlab-projects` is not persisted. */
  lemma SearchProjectsNotPersisted(state: Value)
    requires !state.Undefined? && !state.Null?
    ensures PersistedSlice("gitlab-projects", state).Some?
    ensures Get(PersistedSlice("gitlab-projects", state).value, "searchProjects") == Undefined
    ensures Get(PersistedSlice("gitlab-projects", state).value, "entities") == Get(state, "entities")
    ensures Get(PersistedSlice("gitlab-projects", state).value, "ids") == Get(state, "ids")
  {
  }

  // ---------------------------------------------------------------------
  // preStoreUpdate
  // ---------------------------------------------------------------------

  /** `entities[id].isLoading = false` on an entity whose `typeof` is
      "object" and which is not `null`. */
  function ClearLoading(entity: Value): (r: Value)
    ensures entity.Object? ==> r.Object? && Lookup(r.props, "isLoading") == Bool(false)
    ensures entity.Object? ==> forall k :: k != "isLoading" ==> Lookup(r.props, k) == Lookup(entity.props, k)
    ensures !entity.Object? ==> r == entity
  {
    if entity.Object? then Object(SetProp(entity.props, "isLoading", Bool(false))) else entity
  }

  /** The loop `for (const id in entities)` over an object's own
      properties. */
  function ClearEach(props: seq<Prop>): (r: seq<Prop>)
    ensures |r| == |props|
    ensures forall i :: 0 <= i < |props| ==> r[i] == Prop(props[i].key, ClearLoading(props[i].val))
  {
    if props == [] then [] else [Prop(props[0].key, ClearLoading(props[0].val))] + ClearEach(props[1..])
  }

  /** The same loop over an array's indices. */
  function ClearItems(items: seq<Value>): (r: seq<Value>)
    ensures |r| == |items|
    ensures forall i :: 0 <= i < |items| ==> r[i] == ClearLoading(items[i])
  {
    if items == [] then [] else [ClearLoading(items[0])] + ClearItems(items[1..])
  }

  /** The entities after the loop. Other values have no own enumerable
      properties that hold objects, so nothing changes. */
  function ClearEntities(entities: Value): (r: Value) {
    match entities
    case Object(props) => Object(ClearEach(props))
    case Array(items) => Array(ClearItems(items))
    case _ => entities
  }

  /** `state?.entities`. */
  function OptionalEntities(state: Value): Value {
    if state.Undefined? || state.Null? then Undefined else Get(state, "entities")
  }

  /** `preStoreUpdate(storeName, state)`: for `UI/gitlab-projects` with
      truthy `entities`, every entity that is an object gets `isLoading`
      false; the state is returned. */
  function PreStoreUpdate(storeName: string, state: Value): (r: Value)
    ensures storeName != "UI/gitlab-projects" ==> r == state
    ensures !Truthy(OptionalEntities(state)) ==> r == state
  {
    var entities := OptionalEntities(state);
    if storeName == "UI/gitlab-projects" && Truthy(entities) then
      Object(SetProp(state.props, "entities", ClearEntities(entities)))
    else state
  }

  /** Looking up any id in the cleared entities gives the cleared entity. */
  lemma {:induction false} ClearEachLookup(props: seq<Prop>, id: string)
    ensures Lookup(ClearEach(props), id) == ClearLoading(Lookup(props, id))
  {
    if props != [] {
      ClearEachLookup(props[1..], id);
      assert ClearEach(props)[1..] == ClearEach(props[1..]);
    }
  }

  /** On rehydrating `UI/gitlab-projects` with an object of entities, every
      entity that is an object has `isLoading` false and keeps its other
      fields; any other entity, `null` included, is left as it was (an
      array entity would gain an `isLoading` property, which this value
      model cannot hold). No other
      part of the state changes. */
  lemma RehydrationClearsLoading(state: Value, id: string)
    requires state.Object? && Get(state, "entities").Object?
    ensures var r := PreStoreUpdate("UI/gitlab-projects", state);
      var before := Lookup(Get(state, "entities").props, id);
      var after := Lookup(Get(r, "entities").props, id);
      r.Object? && Get(r, "entities").Object? &&
      (before.Object? ==> after.Object? && Lookup(after.props, "isLoading") == Bool(false)) &&
      (before.Object? ==> forall k :: k != "isLoading" ==> Lookup(after.props, k) == Lookup(before.props, k)) &&
      (!before.Object? ==> after == before)
    ensures forall k :: k != "entities" ==> Get(PreStoreUpdate("UI/gitlab-projects", state), k) == Get(state, k)
  {
    ClearEachLookup(Get(state, "entities").props, id);
  }
}
