/** The stored Nebula configurations and their activation
    (`api/config.py`), as transitions over the `nebula_configs` table. */
module ConfigStore {
  import opened Wrappers
  import opened Storage

  /** A row of the `nebula_configs` table. */
  datatype ConfigRow = ConfigRow(id: int, name: string, data: ConfigSlot, isActive: bool, createdBy: int)

  type Configs = map<int, ConfigRow>

  predicate KeysAreIds(t: Configs) {
    forall id :: id in t ==> t[id].id == id
  }

  /** The unique constraint of the `name` column. */
  predicate UniqueNames(t: Configs) {
    forall a, b :: a in t && b in t && t[a].name == t[b].name ==> a == b
  }

  /** At most one configuration is active. */
  predicate AtMostOneActive(t: Configs) {
    forall a, b :: a in t && b in t && t[a].isActive && t[b].isActive ==> a == b
  }

  predicate Valid(t: Configs) {
    KeysAreIds(t) && UniqueNames(t) && AtMostOneActive(t)
  }

  predicate NameTaken(t: Configs, name: string) {
    exists id :: id in t && t[id].name == name
  }

  /** The ids of the active configurations. */
  function Active(t: Configs): set<int> {
    set id | id in t && t[id].isActive
  }

  const NameExists := HttpError(BadRequest, "Configuration with this name already exists")
  const ConfigNotFound := HttpError(NotFound, "Configuration not found")

  /** `create_config` by user `userId`; `newId` is the id the database
      hands out. */
  function CreateConfig(t: Configs, newId: int, name: string, configData: string, userId: int): (r: Result<Configs>)
    requires newId !in t
    ensures NameTaken(t, name) ==> r == Err(NameExists)
    ensures r.Ok? <==> !NameTaken(t, name)
    ensures r.Ok? ==>
              && r.value.Keys == t.Keys + {newId}
              && (forall x :: x in t ==> r.value[x] == t[x])
              && var row := r.value[newId];
                 && row.name == name && !row.isActive && row.createdBy == userId
                 && row.data == SetConfigData(configData)
    ensures r.Ok? ==> Active(r.value) == Active(t)
    ensures r.Ok? && Valid(t) ==> Valid(r.value)
  {
    if NameTaken(t, name) then Err(NameExists)
    else Ok(t[newId := ConfigRow(newId, name, SetConfigData(configData), false, userId)])
  }

  /** `get_config`. */
  function GetConfig(t: Configs, id: int): (r: Result<ConfigRow>)
    requires KeysAreIds(t)
    ensures r.Ok? <==> id in t
    ensures r.Ok? ==> r.value.id == id && r.value in t.Values
    ensures r.Err? ==> r.error == ConfigNotFound
  {
    if id in t then Ok(t[id]) else Err(ConfigNotFound)
  }

  /** `activate_config`: every row is switched off, then the target on. */
  function ActivateConfig(t: Configs, id: int): (r: Result<Configs>)
    ensures id !in t ==> r == Err(ConfigNotFound)
    ensures r.Ok? <==> id in t
    ensures r.Ok? ==>
              && r.value.Keys == t.Keys
              && (forall x :: x in t ==> r.value[x] == t[x].(isActive := x == id))
              && Active(r.value) == {id}
    ensures r.Ok? && Valid(t) ==> Valid(r.value)
  {
    if id !in t then Err(ConfigNotFound)
    else
      var t' := map x | x in t :: t[x].(isActive := x == id);
      assert forall x :: x in t' && t'[x].isActive ==> x == id;
      Ok(t')
  }

  /** `deactivate_config`: only the target's flag is cleared. */
  function DeactivateConfig(t: Configs, id: int): (r: Result<Configs>)
    ensures id !in t ==> r == Err(ConfigNotFound)
    ensures r.Ok? <==> id in t
    ensures r.Ok? ==>
              && r.value.Keys == t.Keys
              && (forall x :: x in t && x != id ==> r.value[x] == t[x])
              && r.value[id] == t[id].(isActive := false)
              && Active(r.value) == Active(t) - {id}
    ensures r.Ok? && Valid(t) ==> Valid(r.value)
  {
    if id !in t then Err(ConfigNotFound)
    else Ok(t[id := t[id].(isActive := false)])
  }

  /** `delete_config`. */
  function DeleteConfig(t: Configs, id: int): (r: Result<Configs>)
    ensures id !in t ==> r == Err(ConfigNotFound)
    ensures r.Ok? <==> id in t
    ensures r.Ok? ==>
              && r.value.Keys == t.Keys - {id}
              && (forall x :: x in r.value ==> r.value[x] == t[x])
              && Active(r.value) == Active(t) - {id}
    ensures r.Ok? && Valid(t) ==> Valid(r.value)
  {
    if id !in t then Err(ConfigNotFound)
    else Ok(t - {id})
  }

  /** The invariant in terms of the active set: at most one id in it. */
  lemma AtMostOneActiveMeansSmallActiveSet(t: Configs)
    ensures AtMostOneActive(t) <==> |Active(t)| <= 1
  {
    var a := Active(t);
    if AtMostOneActive(t) {
      if exists x :: x in a {
        var x :| x in a;
        forall y | y in a
          ensures y == x
        {
          assert y in t && t[y].isActive && x in t && t[x].isActive;
        }
        assert a <= {x};
        SubsetCard(a, {x});
      } else {
        assert a == {};
      }
    }
    if !AtMostOneActive(t) {
      var x, y :| x in t && y in t && t[x].isActive && t[y].isActive && x != y;
      assert {x, y} <= a;
      assert |{x, y}| == 2;
      SubsetCard({x, y}, a);
    }
  }

  lemma SubsetCard(s: set<int>, u: set<int>)
    requires s <= u
    ensures |s| <= |u|
  {
    assert u == s + (u - s);
  }

  /** Activating twice is activating once. */
  lemma ActivateIdempotent(t: Configs, id: int)
    requires id in t
    ensures ActivateConfig(ActivateConfig(t, id).value, id) == ActivateConfig(t, id)
  {
    var t1 := ActivateConfig(t, id).value;
    var t2 := ActivateConfig(t1, id).value;
    assert forall x :: x in t1 ==> t2[x] == t1[x];
    assert t2 == t1;
  }

  /** Deactivating the configuration just activated leaves none active. */
  lemma ActivateThenDeactivate(t: Configs, id: int)
    requires id in t
    ensures Active(DeactivateConfig(ActivateConfig(t, id).value, id).value) == {}
  {
  }
}
