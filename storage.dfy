/**
  The objects of `entity_storage.h`: `ComponentStorage<T>` (one sparse set whose
  three vectors are updated in place), `StorageWrapper<T>` (the type-erased
  handle the registry keeps, through which it can only remove an entity) and
  `EntityStorage` (the id allocator plus one lazily created storage per
  component type key).
 */
module Storage {
  import opened Wrappers
  import opened SparseSet

  /** `ComponentStorage<T>`: the sparse set for one component type. */
  class ComponentStorage<T> {
    var sparse: seq<Uint32>
    var dense: seq<T>
    var entities: seq<EntityId>
    /** Each entity that has this component, mapped to its value. */
    ghost var Contents: map<EntityId, T>

    /** The three vectors as one value of the specification. */
    function Model(): (p: Pool<T>)
      reads this
    {
      Pool(sparse, dense, entities)
    }

    ghost predicate Valid()
      reads this
    {
      Model().Valid() && Contents == Model().Contents()
    }

    constructor ()
      ensures Valid() && Model() == Empty() && Contents == map[]
    {
      sparse, dense, entities, Contents := [], [], [], map[];
    }

    /**
      `add`: an entity without the component is appended to the packed vectors;
      one that has it gets its value overwritten in place.
     */
    method Add(entity: EntityId, component: T)
      requires Valid() && entity < InvalidMarker
      modifies this
      ensures Valid()
      ensures Model() == old(Model()).Add(entity, component)
      ensures Contents == old(Contents)[entity := component]
      ensures |dense| == if old(Model().Holds(entity)) then old(|dense|) else old(|dense|) + 1
    {
      Linked(Model());
      AddValid(Model(), entity, component);
      Contents := Contents[entity := component];
      if entity >= |sparse| {
        sparse := sparse + Fill(entity + 1 - |sparse|);
      }
      if sparse[entity] != InvalidMarker {
        // Already has this component: overwrite.
        dense := dense[sparse[entity] := component];
        return;
      }
      assert |dense| <= old(|sparse|) <= InvalidMarker;
      sparse := sparse[entity := |dense|];
      dense := dense + [component];
      entities := entities + [entity];
    }

    /**
      `remove`: a no-op for an entity without the component, otherwise a
      swap-remove that keeps the packed vectors gap-free.
     */
    method Remove(entity: EntityId)
      requires Valid()
      modifies this
      ensures Valid()
      ensures Model() == old(Model()).Remove(entity)
      ensures Contents == old(Contents) - {entity}
      ensures !Model().Holds(entity)
      ensures |dense| == if old(Model().Holds(entity)) then old(|dense|) - 1 else old(|dense|)
    {
      ghost var before := Model();
      if entity >= |sparse| || sparse[entity] == InvalidMarker {
        RemoveValid(before, entity);
        return;
      }
      var idx := sparse[entity];
      assert before.SlotLinked(entity);
      var last := |dense| - 1;
      assert before.OwnerLinked(last);
      // Swap-remove to keep dense packed.
      dense := dense[idx := dense[last]];
      entities := entities[idx := entities[last]];
      sparse := sparse[entities[idx] := idx];
      dense := dense[..last];
      entities := entities[..last];
      sparse := sparse[entity := InvalidMarker];
      assert Model() == before.Remove(entity);
      RemoveValid(before, entity);
      Contents := Contents - {entity};
    }

    /** `get`: the entity's component, or nothing (the null pointer) when it has none. */
    function Get(entity: EntityId): (r: Option<T>)
      reads this
      requires Valid()
      ensures r.Some? <==> entity in Contents
      ensures r.Some? ==> r.value == Contents[entity]
    {
      Linked(Model());
      if entity >= |sparse| || sparse[entity] == InvalidMarker then None
      else Some(dense[sparse[entity]])
    }

    /** `has`: whether the entity has the component, which is whether it is a packed owner. */
    function Has(entity: EntityId): (b: bool)
      reads this
      requires Valid()
      ensures b <==> entity in Contents
      ensures b <==> entity in entities
    {
      HoldsIffOwner(Model(), entity);
      entity < |sparse| && sparse[entity] != InvalidMarker
    }

    /** `size`: the packed length, which is the number of entities with the component. */
    function Size(): (n: nat)
      reads this
      requires Valid()
      ensures n == |Contents|
    {
      SizeIsCount(Model());
      |dense|
    }

    /**
      `for_each`: the calls `func(entities[i], dense[i])` it makes, in order.
      Every entity with the component is visited exactly once, with its value.
     */
    method ForEach() returns (visits: seq<(EntityId, T)>)
      requires Valid()
      ensures |visits| == |dense|
      ensures forall i :: 0 <= i < |visits| ==> visits[i] == (entities[i], dense[i])
      ensures |visits| == |Contents|
      ensures forall i :: 0 <= i < |visits| ==>
        visits[i].0 in Contents && Contents[visits[i].0] == visits[i].1
      ensures forall i, j :: 0 <= i < j < |visits| ==> visits[i].0 != visits[j].0
    {
      visits := [];
      var i := 0;
      while i < |dense|
        invariant 0 <= i <= |dense|
        invariant |visits| == i
        invariant forall j :: 0 <= j < i ==> visits[j] == (entities[j], dense[j])
      {
        visits := visits + [(entities[i], dense[i])];
        i := i + 1;
      }
      SizeIsCount(Model());
      Linked(Model());
      forall i | 0 <= i < |visits|
        ensures visits[i].0 in Contents && Contents[visits[i].0] == visits[i].1
      {
        assert sparse[entities[i]] == i;
      }
      forall i, j | 0 <= i < j < |visits|
        ensures visits[i].0 != visits[j].0
      {
        assert sparse[entities[i]] == i && sparse[entities[j]] == j;
      }
    }
  }

  /**
    `StorageWrapper<T>`: the handle the registry owns for one component type.
    Behind the type erasure of `IComponentStorage` the only thing it offers is
    removing an entity.
   */
  class StorageWrapper<T> {
    const storage: ComponentStorage<T>

    constructor ()
      ensures fresh(storage) && storage.Valid() && storage.Model() == Empty()
    {
      storage := new ComponentStorage();
    }

    method Remove(entity: EntityId)
      requires storage.Valid()
      modifies storage
      ensures storage.Valid()
      ensures storage.Model() == old(storage.Model()).Remove(entity)
      ensures storage.Contents == old(storage.Contents) - {entity}
    {
      storage.Remove(entity);
    }
  }

  /**
    `EntityStorage`: hands out entity ids and keeps one storage per component
    type. `K` stands for the per-type key (`typeid(T).hash_code()`), `V` for the
    component values.
   */
  class EntityStorage<K(==), V> {
    var nextId: EntityId
    var freeList: seq<EntityId>
    var storages: map<K, StorageWrapper<V>>
    /** The ids handed out and not destroyed since; bookkeeping of the model, not a field of the source. */
    ghost var Live: set<EntityId>
    /** The component storages the registry owns. */
    ghost var Repr: set<ComponentStorage<V>>

    /**
      The allocator's invariant: the ids issued so far, `1..nextId`, are each
      either live or on the free list, never both; no live id is 0 or above
      the counter; and the free list holds distinct, non-zero issued ids.
     */
    ghost predicate IdsValid()
      reads this`nextId, this`freeList, this`Live
    {
      && InvalidEntity !in Live
      && (forall x :: x in Live ==> x <= nextId)
      && (forall i :: 0 <= i < |freeList| ==> freeList[i] !in Live && InvalidEntity < freeList[i] <= nextId)
      && (forall i, j :: 0 <= i < j < |freeList| ==> freeList[i] != freeList[j])
      && (forall x: EntityId :: InvalidEntity < x <= nextId ==> x in Live || x in freeList)
    }

    /** Every registered storage is one the registry owns. */
    ghost predicate Owns()
      reads this`storages, this`Repr
    {
      forall k :: k in storages ==> storages[k].storage in Repr
    }

    /** Every owned storage is valid, and no two type keys share one. */
    ghost predicate StoragesValid()
      reads this`storages, this`Repr, Repr
    {
      && Owns()
      && (forall k :: k in storages ==> storages[k].storage.Valid())
      && (forall k, k' :: k in storages && k' in storages && k != k' ==>
            storages[k].storage != storages[k'].storage)
    }

    ghost predicate Valid()
      reads this, Repr
    {
      IdsValid() && StoragesValid()
    }

    constructor ()
      ensures Valid() && nextId == 0 && freeList == [] && storages == map[] && Live == {} && Repr == {}
    {
      nextId, freeList, storages, Live, Repr := 0, [], map[], {}, {};
    }

    /**
      `create_entity`: the most recently freed id if there is one (LIFO),
      otherwise the next value of the 32-bit counter. While the counter has
      not wrapped the id is not 0 and not live; `++next_id` at `UINT32_MAX`
      wraps to 0 and hands out `INVALID_ENTITY`, which breaks the invariant.
     */
    method CreateEntity() returns (id: EntityId)
      requires Valid()
      modifies this`nextId, this`freeList, this`Live
      ensures StoragesValid()
      ensures Live == old(Live) + {id}
      ensures old(freeList) != [] ==>
        && id == old(freeList)[|old(freeList)| - 1]
        && freeList == old(freeList)[..|old(freeList)| - 1]
        && nextId == old(nextId)
      ensures old(freeList) == [] ==>
        nextId == (old(nextId) + 1) % 0x1_0000_0000 && id == nextId && freeList == []
      ensures IdsValid() <==> old(freeList) != [] || old(nextId) < InvalidMarker
      ensures IdsValid() ==> id != InvalidEntity && id !in old(Live)
    {
      if freeList != [] {
        id := freeList[|freeList| - 1];
        freeList := freeList[..|freeList| - 1];
      } else {
        nextId := (nextId + 1) % 0x1_0000_0000;
        id := nextId;
      }
      Live := Live + {id};
    }

    /**
      `destroy_entity`: removes the entity from every registered storage,
      whether or not it has that component, then pushes it on the free list.
      Any id is accepted; the allocator's invariant survives exactly when the
      id was live, because an id that is not live (0, never issued, or already
      destroyed) either is not an issued id or would be on the free list twice.
     */
    method DestroyEntity(entity: EntityId)
      requires Valid()
      modifies this`freeList, this`Live, Repr
      ensures StoragesValid()
      ensures IdsValid() <==> old(entity in Live)
      ensures freeList == old(freeList) + [entity] && Live == old(Live) - {entity}
      ensures storages == old(storages) && nextId == old(nextId)
      ensures forall k :: k in storages ==>
        storages[k].storage.Model() == old(storages[k].storage.Model()).Remove(entity)
      ensures forall k :: k in storages ==>
        storages[k].storage.Contents == old(storages[k].storage.Contents) - {entity}
    {
      ghost var wasFree := freeList;
      RemoveEverywhere(entity);
      freeList := freeList + [entity];
      Live := Live - {entity};
      if entity !in old(Live) {
        var top := |freeList| - 1;
        if InvalidEntity < entity <= nextId {
          var i :| 0 <= i < |wasFree| && wasFree[i] == entity;
          assert freeList[i] == freeList[top];
        } else {
          assert !(InvalidEntity < freeList[top] <= nextId);
        }
      }
    }

    /** The loop of `destroy_entity`: `remove(entity)` on every registered storage. */
    method RemoveEverywhere(entity: EntityId)
      requires Valid()
      modifies Repr
      ensures Valid()
      ensures forall k :: k in storages ==>
        storages[k].storage.Model() == old(storages[k].storage.Model()).Remove(entity)
      ensures forall k :: k in storages ==>
        storages[k].storage.Contents == old(storages[k].storage.Contents) - {entity}
    {
      var keys := storages.Keys;
      while keys != {}
        invariant keys <= storages.Keys
        invariant StoragesValid()
        invariant forall k :: k in storages && k !in keys ==>
          storages[k].storage.Model() == old(storages[k].storage.Model()).Remove(entity)
        invariant forall k :: k in keys ==> storages[k].storage.Model() == old(storages[k].storage.Model())
        decreases keys
      {
        var k :| k in keys;
        SweepOne(k, entity);
        keys := keys - {k};
      }
      forall k | k in storages
        ensures storages[k].storage.Contents == old(storages[k].storage.Contents) - {entity}
      {
        RemoveValid(old(storages[k].storage.Model()), entity);
      }
    }

    /** One step of the loop of `destroy_entity`: the type-erased `remove` of one registered storage. */
    method SweepOne(key: K, entity: EntityId)
      requires StoragesValid() && key in storages
      modifies storages[key].storage
      ensures StoragesValid()
      ensures storages[key].storage.Model() == old(storages[key].storage.Model()).Remove(entity)
      ensures storages[key].storage.Contents == old(storages[key].storage.Contents) - {entity}
      ensures forall k :: k in storages && k != key ==>
        storages[k].storage.Model() == old(storages[k].storage.Model())
      ensures forall k :: k in storages && k != key ==>
        storages[k].storage.Contents == old(storages[k].storage.Contents)
    {
      storages[key].Remove(entity);
    }

    /** `find`: the storage registered for `key`, if any. Never creates one. */
    function Find(key: K): (r: Option<StorageWrapper<V>>)
      reads this, Repr
      requires StoragesValid()
      ensures r.Some? <==> key in storages
      ensures r.Some? ==> r.value == storages[key] && r.value.storage in Repr && r.value.storage.Valid()
    {
      if key in storages then Some(storages[key]) else None
    }

    /**
      `get_or_create`: the storage registered for `key`; a new empty one is
      created and registered only when there is none yet.
     */
    method GetOrCreate(key: K) returns (wrap: StorageWrapper<V>)
      requires Valid()
      modifies this`storages, this`Repr
      ensures Valid()
      ensures Repr == old(Repr) || (fresh(wrap.storage) && Repr == old(Repr) + {wrap.storage})
      ensures storages == old(storages)[key := wrap]
      ensures key in old(storages) ==> wrap == old(storages[key])
      ensures key !in old(storages) ==>
        && fresh(wrap) && fresh(wrap.storage)
        && wrap.storage.Model() == Empty() && wrap.storage.Contents == map[]
    {
      if key in storages {
        wrap := storages[key];
        return;
      }
      wrap := new StorageWrapper();
      storages := storages[key := wrap];
      Repr := Repr + {wrap.storage};
    }

    /**
      `add_component`: adds to or overwrites in the storage for `key`, which
      is created on first use and reused afterwards.
     */
    method AddComponent(key: K, entity: EntityId, component: V)
      requires Valid() && entity < InvalidMarker
      modifies this`storages, this`Repr, Repr
      ensures Valid()
      ensures key in storages && storages == old(storages)[key := storages[key]]
      ensures Repr == old(Repr) || (fresh(storages[key].storage) && Repr == old(Repr) + {storages[key].storage})
      ensures key in old(storages) ==> storages[key] == old(storages[key])
      ensures forall k :: k in old(storages) && k != key ==>
        storages[k].storage.Model() == old(storages[k].storage.Model())
      ensures forall k :: k in old(storages) && k != key ==>
        storages[k].storage.Contents == old(storages[k].storage.Contents)
      ensures storages[key].storage.Model() ==
        (if key in old(storages) then old(storages[key].storage.Model()) else Empty()).Add(entity, component)
      ensures storages[key].storage.Contents ==
        (if key in old(storages) then old(storages[key].storage.Contents) else map[])[entity := component]
    {
      var wrap := GetOrCreate(key);
      AddRegistered(key, wrap, entity, component);
    }

    /** The second half of `add_component`: adding through the storage now registered for `key`. */
    method AddRegistered(key: K, wrap: StorageWrapper<V>, entity: EntityId, component: V)
      requires Valid() && entity < InvalidMarker && key in storages && storages[key] == wrap
      modifies Repr
      ensures Valid()
      ensures storages[key].storage.Model() == old(storages[key].storage.Model()).Add(entity, component)
      ensures storages[key].storage.Contents == old(storages[key].storage.Contents)[entity := component]
      ensures forall k :: k in storages && k != key ==>
        storages[k].storage.Model() == old(storages[k].storage.Model())
      ensures forall k :: k in storages && k != key ==>
        storages[k].storage.Contents == old(storages[k].storage.Contents)
    {
      wrap.storage.Add(entity, component);
    }

    /** `get_component`: the entity's component of type `key`, or nothing. Never creates a storage. */
    function GetComponent(key: K, entity: EntityId): (r: Option<V>)
      reads this, Repr
      requires StoragesValid()
      ensures r.Some? <==> key in storages && entity in storages[key].storage.Contents
      ensures r.Some? ==> r.value == storages[key].storage.Contents[entity]
    {
      match Find(key)
      case None => None
      case Some(wrap) => wrap.storage.Get(entity)
    }

    /** `has_component`: false for a type key that was never registered. Never creates a storage. */
    function HasComponent(key: K, entity: EntityId): (b: bool)
      reads this, Repr
      requires StoragesValid()
      ensures b <==> key in storages && entity in storages[key].storage.Contents
    {
      match Find(key)
      case None => false
      case Some(wrap) => wrap.storage.Has(entity)
    }

    /** `remove_component`: removes from the storage for `key` if there is one. Never creates a storage. */
    method RemoveComponent(key: K, entity: EntityId)
      requires Valid()
      modifies Repr
      ensures Valid()
      ensures key in storages ==>
        storages[key].storage.Model() == old(storages[key].storage.Model()).Remove(entity)
      ensures key in storages ==>
        storages[key].storage.Contents == old(storages[key].storage.Contents) - {entity}
      ensures forall k :: k in storages && k != key ==>
        storages[k].storage.Model() == old(storages[k].storage.Model())
      ensures forall k :: k in storages && k != key ==>
        storages[k].storage.Contents == old(storages[k].storage.Contents)
    {
      var found := Find(key);
      if found.Some? {
        found.value.storage.Remove(entity);
      }
    }

    /**
      `for_each<T>`: the visits of the storage for `key`, in its packed order;
      none at all when no storage was ever created for `key`.
     */
    method ForEach(key: K) returns (visits: seq<(EntityId, V)>)
      requires StoragesValid()
      ensures key !in storages ==> visits == []
      ensures key in storages ==>
        && |visits| == |storages[key].storage.dense|
        && (forall i :: 0 <= i < |visits| ==>
              visits[i] == (storages[key].storage.entities[i], storages[key].storage.dense[i]))
      ensures key in storages ==>
        && |visits| == |storages[key].storage.Contents|
        && (forall i :: 0 <= i < |visits| ==>
              visits[i].0 in storages[key].storage.Contents
              && storages[key].storage.Contents[visits[i].0] == visits[i].1)
        && (forall i, j :: 0 <= i < j < |visits| ==> visits[i].0 != visits[j].0)
    {
      var found := Find(key);
      if found.None? {
        return [];
      }
      visits := found.value.storage.ForEach();
    }
  }

  /**
    The registry's life cycle on a registry of its own: create an entity, give
    it a component of a new type, destroy it. The storage stays registered,
    the entity no longer has the component and its id waits on the free list.
   */
  method CreateAddDestroy(key: int, value: int) returns (r: EntityStorage<int, int>, e: EntityId)
    ensures fresh(r) && r.Valid()
    ensures e != InvalidEntity && e !in r.Live && r.freeList == [e]
    ensures key in r.storages && !r.HasComponent(key, e)
  {
    r := new EntityStorage<int, int>();
    e := r.CreateEntity();
    r.AddComponent(key, e, value);
    assert r.HasComponent(key, e);
    r.DestroyEntity(e);
  }
}
