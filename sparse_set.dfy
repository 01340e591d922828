/**
  The value-level specification of one sparse-set component store: the three
  parallel vectors of `ComponentStorage<T>` as a datatype, the object invariant
  that ties them together, and the add / swap-remove transformations with the
  lemmas that they keep the invariant and do to the abstract entity -> value map
  exactly what the source promises.
 */
module SparseSet {

  /** `uint32_t`, the width of entity ids and of the sparse slots. */
  type Uint32 = x: int | 0 <= x < 0x1_0000_0000

  type EntityId = Uint32

  /** `INVALID_ENTITY`: never handed out by the id allocator. */
  const InvalidEntity: EntityId := 0

  /** `invalid_marker` (`UINT32_MAX`): a sparse slot with no dense index. */
  const InvalidMarker: Uint32 := 0xFFFF_FFFF

  /** `n` fresh sparse slots, as `std::vector::resize(n, invalid_marker)` appends them. */
  function Fill(n: nat): (s: seq<Uint32>)
    ensures |s| == n
    ensures forall i :: 0 <= i < n ==> s[i] == InvalidMarker
  {
    seq(n, _ => InvalidMarker)
  }

  /** The number of sparse slots that hold a dense index. */
  function CountPresent(s: seq<Uint32>): (n: nat)
    ensures n <= |s|
  {
    if s == [] then 0
    else CountPresent(s[..|s| - 1]) + (if s[|s| - 1] != InvalidMarker then 1 else 0)
  }

  lemma {:induction false} CountPresentUpdate(s: seq<Uint32>, i: nat, v: Uint32)
    requires i < |s|
    ensures CountPresent(s[i := v]) + (if s[i] != InvalidMarker then 1 else 0)
         == CountPresent(s) + (if v != InvalidMarker then 1 else 0)
  {
    var n := |s| - 1;
    if i < n {
      assert s[i := v][..n] == s[..n][i := v];
      CountPresentUpdate(s[..n], i, v);
    } else {
      assert s[i := v][..n] == s[..n];
    }
  }

  /** A sparse array with an empty slot has fewer occupied slots than slots. */
  lemma {:induction false} CountPresentWithGap(s: seq<Uint32>, i: nat)
    requires i < |s| && s[i] == InvalidMarker
    ensures CountPresent(s) < |s|
  {
    var n := |s| - 1;
    if i < n {
      CountPresentWithGap(s[..n], i);
    }
  }

  /** Growing the sparse array with empty slots occupies nothing. */
  lemma {:induction false} CountPresentFill(s: seq<Uint32>, n: nat)
    ensures CountPresent(s + Fill(n)) == CountPresent(s)
  {
    if n > 0 {
      var t := s + Fill(n);
      assert t[..|t| - 1] == s + Fill(n - 1);
      assert t[|t| - 1] == InvalidMarker;
      CountPresentFill(s, n - 1);
    } else {
      assert s + Fill(n) == s;
    }
  }

  /** The occupied slots among the first `n`. */
  ghost function PresentBelow(s: seq<Uint32>, n: nat): (present: set<EntityId>)
    requires n <= |s|
  {
    set e: EntityId | 0 <= e < n && s[e] != InvalidMarker
  }

  lemma {:induction false} PresentBelowCard(s: seq<Uint32>, n: nat)
    requires n <= |s| < 0x1_0000_0000
    ensures |PresentBelow(s, n)| == CountPresent(s[..n])
  {
    if n > 0 {
      PresentBelowCard(s, n - 1);
      assert s[..n][..n - 1] == s[..n - 1];
      if s[n - 1] != InvalidMarker {
        assert PresentBelow(s, n) == PresentBelow(s, n - 1) + {n - 1};
      } else {
        assert PresentBelow(s, n) == PresentBelow(s, n - 1);
      }
    }
  }

  /**
    The three parallel vectors of `ComponentStorage<T>`:
    `sparse` (entity -> dense index or `InvalidMarker`), `dense` (the packed
    component values) and `entities` (the packed owner ids).
   */
  datatype Pool<T> = Pool(sparse: seq<Uint32>, dense: seq<T>, entities: seq<EntityId>)
  {
    /**
      The sparse-set invariant: the packed vectors have the same length, every
      packed owner points back at its own slot, every occupied sparse slot
      points at a packed owner that is that entity, and exactly as many slots
      are occupied as there are owners. `|sparse| <= InvalidMarker` holds
      because `add` is only ever called with an entity below `UINT32_MAX`.
     */
    ghost predicate Valid() {
      && |dense| == |entities|
      && |sparse| <= InvalidMarker
      && (forall i :: 0 <= i < |entities| ==> OwnerLinked(i))
      && (forall e :: 0 <= e < |sparse| ==> SlotLinked(e))
      && CountPresent(sparse) == |entities|
    }

    /** The packed owner at `i` points back at its own slot. */
    ghost predicate OwnerLinked(i: int)
      requires 0 <= i < |entities|
    {
      entities[i] < |sparse| && sparse[entities[i]] == i
    }

    /** The sparse slot of `e` is empty, or points at a packed owner that is `e`. */
    ghost predicate SlotLinked(e: int)
      requires 0 <= e < |sparse|
    {
      sparse[e] != InvalidMarker ==> sparse[e] < |entities| && entities[sparse[e]] == e
    }

    /** True when `entity` has a component here: the guard shared by `has`, `get` and `remove`. */
    predicate Holds(entity: EntityId) {
      entity < |sparse| && sparse[entity] != InvalidMarker
    }

    /** The abstract store: each entity that has a component, mapped to its value. */
    ghost function Contents(): (m: map<EntityId, T>)
      requires Valid()
    {
      Linked(this);
      map e: EntityId | 0 <= e < |sparse| && sparse[e] != InvalidMarker :: dense[sparse[e]]
    }

    /** `add(entity, component)`: overwrite in place, or append to the packed vectors. */
    function Add(entity: EntityId, component: T): (q: Pool<T>)
      requires Valid() && entity < InvalidMarker
    {
      Linked(this);
      var s := if entity >= |sparse| then sparse + Fill(entity + 1 - |sparse|) else sparse;
      if s[entity] != InvalidMarker then
        Pool(s, dense[s[entity] := component], entities)
      else
        assert |dense| <= |sparse| <= InvalidMarker;
        Pool(s[entity := |dense|], dense + [component], entities + [entity])
    }

    /**
      `remove(entity)`: swap-remove. The last packed element moves into the
      vacated slot, its sparse back-reference is repaired, both packed vectors
      shrink by one and the removed entity's slot is cleared, in that order.
     */
    function Remove(entity: EntityId): (q: Pool<T>)
      requires Valid()
    {
      if !Holds(entity) then this
      else
        assert SlotLinked(entity) && OwnerLinked(|dense| - 1);
        var idx := sparse[entity];
        var last := |dense| - 1;
        var d := dense[idx := dense[last]];
        var en := entities[idx := entities[last]];
        var s := sparse[en[idx] := idx];
        Pool(s[entity := InvalidMarker], d[..last], en[..last])
    }
  }

  /** The two linking clauses of `Valid`, spelled out for every index. */
  lemma Linked<T>(p: Pool<T>)
    requires p.Valid()
    ensures forall i :: 0 <= i < |p.entities| ==> p.entities[i] < |p.sparse| && p.sparse[p.entities[i]] == i
    ensures forall e :: 0 <= e < |p.sparse| && p.sparse[e] != InvalidMarker ==>
      p.sparse[e] < |p.entities| && p.entities[p.sparse[e]] == e
  {
    forall i | 0 <= i < |p.entities|
      ensures p.entities[i] < |p.sparse| && p.sparse[p.entities[i]] == i
    {
      assert p.OwnerLinked(i);
    }
    forall e | 0 <= e < |p.sparse| && p.sparse[e] != InvalidMarker
      ensures p.sparse[e] < |p.entities| && p.entities[p.sparse[e]] == e
    {
      assert p.SlotLinked(e);
    }
  }

  /** The converse of `Linked`: the clauses for every index make the store valid. */
  lemma Link<T>(p: Pool<T>)
    requires |p.dense| == |p.entities| && |p.sparse| <= InvalidMarker && CountPresent(p.sparse) == |p.entities|
    requires forall i :: 0 <= i < |p.entities| ==> p.entities[i] < |p.sparse| && p.sparse[p.entities[i]] == i
    requires forall e :: 0 <= e < |p.sparse| && p.sparse[e] != InvalidMarker ==>
      p.sparse[e] < |p.entities| && p.entities[p.sparse[e]] == e
    ensures p.Valid()
  {
  }

  /** A freshly constructed store: valid and holding nothing. */
  function Empty<T>(): (p: Pool<T>)
    ensures p.Valid() && p.Contents() == map[]
  {
    Pool([], [], [])
  }

  /** An entity has a component exactly when it is one of the packed owners. */
  lemma HoldsIffOwner<T>(p: Pool<T>, entity: EntityId)
    requires p.Valid()
    ensures p.Holds(entity) <==> entity in p.entities
    ensures p.Holds(entity) <==> entity in p.Contents()
  {
    Linked(p);
    if entity in p.entities {
      var i :| 0 <= i < |p.entities| && p.entities[i] == entity;
      assert p.sparse[p.entities[i]] == i;
    }
  }

  /** `size()` (the packed length) is the number of entities that have a component. */
  lemma SizeIsCount<T>(p: Pool<T>)
    requires p.Valid()
    ensures |p.dense| == |p.Contents()|
  {
    PresentBelowCard(p.sparse, |p.sparse|);
    assert p.sparse[..|p.sparse|] == p.sparse;
    assert p.Contents().Keys == PresentBelow(p.sparse, |p.sparse|);
  }

  /** Growing `sparse` with empty slots, as `add` does first, changes nothing observable. */
  lemma GrowValid<T>(p: Pool<T>, n: nat)
    requires p.Valid() && |p.sparse| + n <= InvalidMarker
    ensures Pool(p.sparse + Fill(n), p.dense, p.entities).Valid()
    ensures Pool(p.sparse + Fill(n), p.dense, p.entities).Contents() == p.Contents()
  {
    Linked(p);
    CountPresentFill(p.sparse, n);
    var g := Pool(p.sparse + Fill(n), p.dense, p.entities);
    Link(g);
    assert g.Contents().Keys == p.Contents().Keys;
  }

  /** Appending a new owner: the branch of `add` for an entity without the component. */
  lemma AppendValid<T>(p: Pool<T>, entity: EntityId, component: T)
    requires p.Valid() && entity < |p.sparse| && p.sparse[entity] == InvalidMarker
    ensures |p.dense| < InvalidMarker
    ensures Pool(p.sparse[entity := |p.dense|], p.dense + [component], p.entities + [entity]).Valid()
    ensures Pool(p.sparse[entity := |p.dense|], p.dense + [component], p.entities + [entity]).Contents()
         == p.Contents()[entity := component]
  {
    Linked(p);
    CountPresentWithGap(p.sparse, entity);
    var q := Pool(p.sparse[entity := |p.dense|], p.dense + [component], p.entities + [entity]);
    assert q.Valid() by {
      CountPresentUpdate(p.sparse, entity, |p.dense|);
      forall i | 0 <= i < |q.entities|
        ensures q.entities[i] < |q.sparse| && q.sparse[q.entities[i]] == i
      {
        if i < |p.entities| {
          assert q.entities[i] == p.entities[i] && p.entities[i] != entity;
        }
      }
      forall e | 0 <= e < |q.sparse| && q.sparse[e] != InvalidMarker
        ensures q.sparse[e] < |q.entities| && q.entities[q.sparse[e]] == e
      {
        if e != entity {
          assert q.sparse[e] == p.sparse[e];
        }
      }
      Link(q);
    }
    AppendContents(p, q, entity, component);
  }

  lemma AppendContents<T>(p: Pool<T>, q: Pool<T>, entity: EntityId, component: T)
    requires p.Valid() && entity < |p.sparse| && p.sparse[entity] == InvalidMarker && |p.dense| < InvalidMarker
    requires q == Pool(p.sparse[entity := |p.dense|], p.dense + [component], p.entities + [entity])
    requires q.Valid()
    ensures q.Contents() == p.Contents()[entity := component]
  {
    Linked(p);
    Linked(q);
    var m := p.Contents()[entity := component];
    forall e | e in q.Contents() ensures e in m && q.Contents()[e] == m[e] {
      if e != entity {
        assert q.sparse[e] == p.sparse[e];
      }
    }
    forall e | e in m ensures e in q.Contents() {
      if e != entity {
        assert q.sparse[e] == p.sparse[e];
      }
    }
  }

  /** Overwriting in place: the branch of `add` for an entity that already has the component. */
  lemma OverwriteValid<T>(p: Pool<T>, entity: EntityId, component: T)
    requires p.Valid() && p.Holds(entity) && p.sparse[entity] < |p.dense|
    ensures Pool(p.sparse, p.dense[p.sparse[entity] := component], p.entities).Valid()
    ensures Pool(p.sparse, p.dense[p.sparse[entity] := component], p.entities).Contents()
         == p.Contents()[entity := component]
  {
    Linked(p);
    var q := Pool(p.sparse, p.dense[p.sparse[entity] := component], p.entities);
    Link(q);
    assert q.Contents().Keys == p.Contents().Keys;
    forall e | e in q.Contents()
      ensures q.Contents()[e] == p.Contents()[entity := component][e]
    {
      if e != entity {
        assert p.sparse[e] != p.sparse[entity];
      }
    }
  }

  /**
    `add` keeps the invariant and makes `entity` map to `component`, leaving
    every other entity's value alone. On a new entity it appends to both packed
    vectors (size grows by one, `sparse[entity]` is the old size); on an entity
    that already has the component it overwrites in place (owners, sparse and
    size unchanged).
   */
  lemma AddValid<T>(p: Pool<T>, entity: EntityId, component: T)
    requires p.Valid() && entity < InvalidMarker
    ensures p.Add(entity, component).Valid()
    ensures p.Add(entity, component).Contents() == p.Contents()[entity := component]
    ensures |p.Add(entity, component).sparse| == if entity < |p.sparse| then |p.sparse| else entity + 1
    ensures p.Holds(entity) ==>
      && p.Add(entity, component).entities == p.entities
      && p.Add(entity, component).sparse == p.sparse
      && |p.Add(entity, component).dense| == |p.dense|
    ensures !p.Holds(entity) ==>
      && p.Add(entity, component).sparse[entity] == |p.dense|
      && p.Add(entity, component).dense == p.dense + [component]
      && p.Add(entity, component).entities == p.entities + [entity]
  {
    var g := p;
    if entity >= |p.sparse| {
      GrowValid(p, entity + 1 - |p.sparse|);
      g := Pool(p.sparse + Fill(entity + 1 - |p.sparse|), p.dense, p.entities);
    }
    if g.sparse[entity] == InvalidMarker {
      AppendValid(g, entity, component);
    } else {
      Linked(g);
      OverwriteValid(g, entity, component);
    }
  }

  /** The invariant after a swap-remove of an entity that has the component. */
  lemma SwapRemoveValid<T>(p: Pool<T>, entity: EntityId)
    requires p.Valid() && p.Holds(entity)
    ensures p.Remove(entity).Valid()
    ensures |p.Remove(entity).sparse| == |p.sparse| && p.Remove(entity).sparse[entity] == InvalidMarker
    ensures !p.Remove(entity).Holds(entity)
  {
    Linked(p);
    var q := p.Remove(entity);
    var idx := p.sparse[entity];
    var last := |p.dense| - 1;
    var moved := p.entities[last];
    var s1 := p.sparse[moved := idx];
    assert q.sparse == s1[entity := InvalidMarker];
    // Repairing `moved` keeps an occupied slot occupied; clearing `entity` frees one.
    CountPresentUpdate(p.sparse, moved, idx);
    CountPresentUpdate(s1, entity, InvalidMarker);
    forall i | 0 <= i < |q.entities|
      ensures q.entities[i] < |q.sparse| && q.sparse[q.entities[i]] == i
    {
      if i == idx {
        assert q.entities[i] == moved && moved != entity;
      } else {
        assert q.entities[i] == p.entities[i];
        assert p.sparse[p.entities[i]] == i;
        assert p.entities[i] != entity && p.entities[i] != moved;
      }
    }
    forall e | 0 <= e < |q.sparse| && q.sparse[e] != InvalidMarker
      ensures q.sparse[e] < |q.entities| && q.entities[q.sparse[e]] == e
    {
      assert e != entity;
      if e == moved {
        assert idx < last;
      } else {
        assert p.sparse[e] != InvalidMarker && p.entities[p.sparse[e]] == e;
        assert p.sparse[e] != idx && p.sparse[e] != last;
      }
    }
    Link(q);
  }

  /** What a swap-remove does to the abstract store: it deletes `entity` and nothing else. */
  lemma SwapRemoveContents<T>(p: Pool<T>, entity: EntityId)
    requires p.Valid() && p.Holds(entity) && p.Remove(entity).Valid()
    ensures p.Remove(entity).Contents() == p.Contents() - {entity}
  {
    Linked(p);
    Linked(p.Remove(entity));
    var q := p.Remove(entity);
    var idx := p.sparse[entity];
    var last := |p.dense| - 1;
    var moved := p.entities[last];
    forall e | e in q.Contents()
      ensures e in p.Contents() && e != entity && q.Contents()[e] == p.Contents()[e]
    {
      if e == moved {
        assert q.dense[idx] == p.dense[last];
      } else {
        assert p.sparse[e] != idx && p.sparse[e] != last;
      }
    }
    forall e | e in p.Contents() && e != entity
      ensures e in q.Contents()
    {
      if e == moved {
        assert q.sparse[e] == idx;
      } else {
        assert q.sparse[e] == p.sparse[e];
      }
    }
  }

  /** The packed owners after a swap-remove: one occurrence of `entity` fewer. */
  lemma SwapRemoveOwners<T>(p: Pool<T>, entity: EntityId)
    requires p.Valid() && p.Holds(entity)
    ensures multiset(p.Remove(entity).entities) == multiset(p.entities) - multiset{entity}
  {
    Linked(p);
    var idx := p.sparse[entity];
    var last := |p.dense| - 1;
    var moved := p.entities[last];
    var en := p.entities[idx := moved];
    assert p.Remove(entity).entities == en[..last];
    assert p.entities[idx] == entity;
    assert en == en[..last] + [moved];
    assert multiset(en) == multiset(en[..last]) + multiset{moved};
    assert multiset(en) == multiset(p.entities) - multiset{entity} + multiset{moved};
    forall x ensures multiset(en[..last])[x] == (multiset(p.entities) - multiset{entity})[x] {
      assert multiset(en)[x] == multiset(en[..last])[x] + multiset{moved}[x];
    }
  }

  /** `remove` takes exactly one occurrence of `entity` out of the packed owners, if it was there. */
  lemma RemoveOwners<T>(p: Pool<T>, entity: EntityId)
    requires p.Valid()
    ensures multiset(p.Remove(entity).entities) == multiset(p.entities) - multiset{entity}
  {
    if p.Holds(entity) {
      SwapRemoveOwners(p, entity);
    } else {
      HoldsIffOwner(p, entity);
      assert entity !in multiset(p.entities);
    }
  }

  /**
    `remove` keeps the invariant and deletes exactly `entity` from the store:
    every other entity keeps the value it had, the packed size drops by one
    when `entity` had the component and nothing changes otherwise.
   */
  lemma RemoveValid<T>(p: Pool<T>, entity: EntityId)
    requires p.Valid()
    ensures p.Remove(entity).Valid()
    ensures p.Remove(entity).Contents() == p.Contents() - {entity}
    ensures !p.Remove(entity).Holds(entity)
    ensures |p.Remove(entity).dense| == if p.Holds(entity) then |p.dense| - 1 else |p.dense|
    ensures |p.Remove(entity).sparse| == |p.sparse|
    ensures !p.Holds(entity) ==> p.Remove(entity) == p
  {
    Linked(p);
    if p.Holds(entity) {
      SwapRemoveValid(p, entity);
      SwapRemoveContents(p, entity);
    } else {
      HoldsIffOwner(p, entity);
      assert p.Contents() - {entity} == p.Contents();
    }
  }
}
