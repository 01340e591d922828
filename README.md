# Entity storage and UI-window switch, modelled in Dafny

This project models two parts of the engine.

**The entity-component store** in `stdlib/entity_storage.h`:

- `ComponentStorage<T>` is a sparse set. It has a `sparse` vector from entity id to packed index, with `UINT32_MAX` marking "no component". It also has the packed vectors `dense` (values) and `entities` (owners). It supports add (overwrite or append), swap-remove, get, has, for_each and size.
- `StorageWrapper<T>` is the type-erased handle that the registry keeps per component type.
- `EntityStorage` hands out 32-bit entity ids from a counter and a LIFO free list. It creates one storage per component type on first use, and destroying an entity removes it from every storage.

**The configuration switch** of `vulkan/ui_window_manager.cpp` decides whether the separate UI windows are enabled:

- `toLower` lowercases ASCII letters.
- `readProjectConfig` scans the lines of `.project_config` (current directory, else the parent directory) for `enable_ui_windows=<value>`.
- `ui_manager_is_enabled` reads that configuration once and caches the result.
- The `g_uiManagerInitialized` guards of `ui_manager_init`, `ui_manager_shutdown` and the per-frame calls.

Layout:

- `sparse_set.dfy` (module `SparseSet`) is the value-level specification. It defines `Pool<T>`, the three vectors as one value, with:
  - its invariant: every owner points back at its slot, every occupied slot points at its owner, and there are as many occupied slots as owners;
  - the abstract store `Contents()`, a map from entity to value;
  - `Add` and `Remove` exactly as the source performs them;
  - the lemmas that connect them.

  Because occupied slots and owners are counted, the packed size that `add` casts to `uint32_t` and stores in `sparse` is always below the `UINT32_MAX` marker: the new entity's own slot is still empty when it is appended.
- `storage.dfy` (module `Storage`) contains the three classes.
  - Their fields are the source's vectors, counter, free list and map. The methods update them in place.
  - `ComponentStorage` has a ghost `Contents` map, kept equal to the abstract store of its vectors.
  - `EntityStorage` has a ghost `Live` set of ids handed out and not destroyed, and a ghost `Repr` set of the storages it owns.
- `ui_config.dfy` (module `UiConfig`) covers `toLower` and the line scan. Each has a loop method proved against a pure definition, plus lemmas about that definition.
- `ui_manager.dfy` (module `UiManager`) turns the three global flags into the fields of one object.

How the source's constructs are represented:

- A configuration file is the sequence of lines that `std::getline` would yield. A file that cannot be opened is `None`.
- The component type key `typeid(T).hash_code()` is an abstract key type `K`. All components of one registry share one value type `V`.
- `uint32_t` is the subset type `Uint32`. The counter's wrap-around at `UINT32_MAX` is written out.

## Model

| member | source | states |
|---|---|---|
| `SparseSet.Empty` | stdlib/entity_storage.h:71-75 | A storage with three empty vectors satisfies the sparse-set invariant and holds no entity. |
| `SparseSet.HoldsIffOwner` | stdlib/entity_storage.h:58-60 | The `has` test (index inside `sparse` and slot not the marker) holds exactly when the entity is one of the packed owners, and exactly when it has a value in the store. |
| `SparseSet.SizeIsCount` | stdlib/entity_storage.h:69 | `size()`, the packed length, equals the number of entities that have the component. |
| `SparseSet.GrowValid` | stdlib/entity_storage.h:21-23 | Resizing `sparse` with marker slots keeps the invariant and changes no entity's value. |
| `SparseSet.AppendValid` | stdlib/entity_storage.h:29-31 | Appending a new owner keeps the invariant and adds exactly that entity with that value. The old packed size is below the marker, so the `uint32_t` cast loses nothing. |
| `SparseSet.OverwriteValid` | stdlib/entity_storage.h:24-27 | Overwriting in place keeps the invariant and changes only that entity's value. |
| `SparseSet.AddValid` | stdlib/entity_storage.h:20-32 | `add` keeps the invariant. Afterwards the entity maps to the new value and every other entity keeps its value. A new entity is appended: size plus one, its slot holds the old size. An existing one is overwritten: owners, `sparse` and size unchanged. `sparse` grows to `entity + 1` only when too short. |
| `SparseSet.SwapRemoveValid` | stdlib/entity_storage.h:38-48 | A swap-remove of an entity that has the component keeps the invariant, with the moved last owner's back-reference repaired. The removed entity's slot is cleared to the marker, so `has` is false for it afterwards. |
| `SparseSet.SwapRemoveContents` | stdlib/entity_storage.h:38-48 | After a swap-remove the store is the old store without that entity. The moved entity keeps its value. |
| `SparseSet.SwapRemoveOwners` | stdlib/entity_storage.h:42-47 | After a swap-remove the packed owners are the old ones with exactly one occurrence of the entity taken out. |
| `SparseSet.RemoveOwners` | stdlib/entity_storage.h:34-49 | `remove` takes exactly one occurrence of the entity out of the packed owners, counted as a multiset. When the entity is absent the multiset of owners is unchanged. |
| `SparseSet.RemoveValid` | stdlib/entity_storage.h:34-49 | `remove` keeps the invariant and deletes exactly that entity from the store. Afterwards `has` is false. The size drops by one if the entity had the component. `sparse` keeps its length. For an entity without the component the three vectors are unchanged, so the `for_each` order is too. |
| `Storage.ComponentStorage.constructor` | stdlib/entity_storage.h:71-75 | A new storage is valid and empty. |
| `Storage.ComponentStorage.Add` | stdlib/entity_storage.h:20-32 | The in-place `add` leaves the three vectors equal to the specification's `Add`. It keeps the invariant and maps the entity to the component. The packed size grows exactly when the entity was new. |
| `Storage.ComponentStorage.Remove` | stdlib/entity_storage.h:34-49 | The in-place swap-remove, done in the source's order, leaves the vectors equal to the specification's `Remove`. It keeps the invariant and deletes exactly that entity, and afterwards `has` is false. The size drops by one exactly when the entity had the component. |
| `Storage.ComponentStorage.Get` | stdlib/entity_storage.h:51-56 | `get` returns a value exactly when the entity has the component, and that value is the stored one. Otherwise it returns nothing (the null pointer). |
| `Storage.ComponentStorage.Has` | stdlib/entity_storage.h:58-60 | `has` is true exactly when the entity has a value in the store, and exactly when it is one of the packed owners. |
| `Storage.ComponentStorage.Size` | stdlib/entity_storage.h:69 | `size` is the number of entities that have the component. |
| `Storage.ComponentStorage.ForEach` | stdlib/entity_storage.h:62-67 | `for_each` makes one call per packed index, in packed order. Every entity with the component is visited exactly once, with its own value. |
| `Storage.StorageWrapper.constructor` | stdlib/entity_storage.h:87-89 | A new wrapper owns a fresh, valid, empty storage. |
| `Storage.StorageWrapper.Remove` | stdlib/entity_storage.h:90 | The type-erased `remove` has exactly the effect of the storage's `remove`. |
| `Storage.EntityStorage.constructor` | stdlib/entity_storage.h:147-150 | A new registry has counter 0, an empty free list, no storages, no live ids, and owns no storage object. |
| `Storage.EntityStorage.CreateEntity` | stdlib/entity_storage.h:98-105 | With a non-empty free list, `create_entity` pops the most recently freed id (LIFO) and leaves the counter alone. Otherwise it returns the incremented 32-bit counter. The allocator invariant survives exactly when the counter did not wrap. While it holds, the new id is not 0 and not already live. |
| `Storage.EntityStorage.DestroyEntity` | stdlib/entity_storage.h:107-113 | `destroy_entity` applies the storage's `remove` to every registered storage: each one's vectors become exactly what `remove` makes of them, so a storage without the entity keeps its packed order. It deletes the entity from every store, pushes the id on the free list and registers no new storage. The allocator invariant survives exactly when the id was live: destroying an id twice, or destroying 0, breaks it. |
| `Storage.EntityStorage.RemoveEverywhere` | stdlib/entity_storage.h:108-111 | The loop over all storages calls the type-erased `remove(entity)` on each. Every storage's vectors end as `remove` leaves them, so every store loses exactly that entity, and one that never held it is left as it was. |
| `Storage.EntityStorage.SweepOne` | stdlib/entity_storage.h:110 | One step of that loop: the type-erased `remove` of one storage has the effect of `remove` on that storage's vectors and store. Every other storage keeps its vectors and store. |
| `Storage.EntityStorage.Find` | stdlib/entity_storage.h:165-171 | `find` returns the storage registered for the key when there is one, and nothing otherwise. It never creates one. |
| `Storage.EntityStorage.GetOrCreate` | stdlib/entity_storage.h:152-163 | `get_or_create` returns the storage registered for the key, which is the existing one if there was one. Otherwise a fresh, empty storage is registered under the key and nothing else changes. |
| `Storage.EntityStorage.AddComponent` | stdlib/entity_storage.h:115-119 | `add_component` registers the key's storage if needed, keeps every existing registration, and owns afterwards only what it owned before plus, at most, that newly allocated storage (the `make_unique` of `get_or_create`). It maps the entity to the component in that storage. That storage's vectors are what `add` makes of the old ones, or of empty vectors for a new storage. Every other type's storage keeps its vectors and so its `for_each` order. |
| `Storage.EntityStorage.AddRegistered` | stdlib/entity_storage.h:118 | Adding through the wrapper `get_or_create` returned changes that storage's vectors as `add` does, and so its store by exactly the one entry. Every other storage keeps its vectors. |
| `Storage.CreateAddDestroy` | stdlib/entity_storage.h:98-119 | On a newly constructed registry: `create_entity`, `add_component` of a new type, then `destroy_entity`. The registry stays valid and the type's storage stays registered. The entity no longer has the component, is not live, and is the one id on the free list. |
| `Storage.EntityStorage.GetComponent` | stdlib/entity_storage.h:121-126 | `get_component` returns a value exactly when a storage exists for the type and the entity has a value there, and returns that value. It is nothing for a type never registered. |
| `Storage.EntityStorage.HasComponent` | stdlib/entity_storage.h:128-132 | `has_component` is true exactly when a storage exists for the type and the entity has a value in it. |
| `Storage.EntityStorage.RemoveComponent` | stdlib/entity_storage.h:134-138 | `remove_component` deletes the entity from the type's storage if one exists. That storage's vectors are what `remove` makes of them. Other types' storages keep their vectors, and no storage is created. |
| `Storage.EntityStorage.ForEach` | stdlib/entity_storage.h:140-145 | `for_each<T>` makes no calls when the type was never registered. Otherwise it forwards to that storage's `for_each`: one visit `(entities[i], dense[i])` per packed index, in packed order. Each entity of that storage is visited exactly once, with its value. |
| `UiConfig.LoweredPointwise` | vulkan/ui_window_manager.cpp:55-63 | Lowercasing keeps the length and works character by character. |
| `UiConfig.LoweredLetters` | vulkan/ui_window_manager.cpp:55-63 | Each upper-case ASCII letter becomes its lower-case letter (code plus 32) and every other character is unchanged. The result holds no upper-case letter. |
| `UiConfig.LoweredIdempotent` | vulkan/ui_window_manager.cpp:55-63 | Lowercasing twice is the same as lowercasing once. |
| `UiConfig.ToLower` | vulkan/ui_window_manager.cpp:55-63 | The loop over the copy maps each 'A'..'Z' to the corresponding 'a'..'z' and leaves every other character. It keeps the length and equals the pure lowercasing. |
| `UiConfig.EffectOf` | vulkan/ui_window_manager.cpp:80-87 | A line affects the decision only if `enable_ui_windows=` occurs at position 0. It then switches on exactly when the lowercased value after those 18 characters is `true`, `1` or `yes`, and off exactly when it is `false`, `0` or `no`. |
| `UiConfig.ValueCaseInsensitive` | vulkan/ui_window_manager.cpp:79-82 | The value is compared without regard to case: a keyed line has the same effect as the same line with its value lowercased. |
| `UiConfig.FirstDecidingLineWins` | vulkan/ui_window_manager.cpp:78-88 | The first line that decides fixes the outcome, whatever lines follow it. |
| `UiConfig.NoDecidingLine` | vulkan/ui_window_manager.cpp:78-91 | When no line decides, the outcome is the compile-time default. |
| `UiConfig.IgnoredLineIrrelevant` | vulkan/ui_window_manager.cpp:78-89 | Inserting a line that does not decide (an unkeyed line, or a keyed one with another value) anywhere in the file never changes the outcome. |
| `UiConfig.ReadProjectConfig` | vulkan/ui_window_manager.cpp:66-92 | `readProjectConfig` uses the current directory's file if it opens, else the parent's, else the default. Its `getline` loop with early returns yields the first deciding line's verdict, or the default. |
| `UiManager.UiWindowManager.constructor` | vulkan/ui_window_manager.cpp:36-37 | At start the enabled flag is the compile-time default, the manager is not initialized, and the configuration has not been read. |
| `UiManager.UiWindowManager.IsEnabled` | vulkan/ui_window_manager.cpp:94-103 | The first call reads the configuration and caches it. Every later call returns the cached flag unchanged. Afterwards the configuration counts as read and the returned value is the flag. |
| `UiManager.UiWindowManager.Init` | vulkan/ui_window_manager.cpp:105-232 | When already initialized, `ui_manager_init` returns true with nothing changed. Otherwise it succeeds exactly when the (possibly cached) configuration enables, a backend is compiled in and the platform calls succeed. Without a backend an enabled manager is latched disabled. The result always equals the initialized flag, and the manager is initialized only while enabled. |
| `UiManager.UiWindowManager.FrameActive` | vulkan/ui_window_manager.cpp:236-238 | The guard of `ui_manager_update` and `ui_manager_render` (initialized and enabled) holds exactly when the manager is initialized. |
| `UiManager.UiWindowManager.Shutdown` | vulkan/ui_window_manager.cpp:348-400 | `ui_manager_shutdown` does nothing when not initialized, and otherwise ends uninitialized. It keeps the invariant. |
| `UiManager.CachedAfterFirstRead` | vulkan/ui_window_manager.cpp:94-103 | Two calls of `ui_manager_is_enabled` agree even when the configuration files differ between them. The first returns the cached flag if the configuration was already read, and otherwise what reading the files gives at that moment. |

## Left out

- `Storage.ComponentStorage.Add`: requires `entity < UINT32_MAX` (as do `SparseSet.AddValid` and `Storage.EntityStorage.AddComponent`).
  - For `entity == UINT32_MAX` the source computes `entity + 1` in 32 bits. That resizes `sparse` to size 0 and then indexes out of bounds, which is undefined behaviour and not modelled.
- `Storage.ComponentStorage.Get`: returns the value, not a pointer into `dense`.
  - Writes through the pointer that `get`/`get_component` return are not modelled.
  - Neither is the invalidation of such pointers by a later `add` or `remove`.
- `Storage.ComponentStorage.ForEach`: returns the sequence of `(entity, value)` calls instead of invoking a callback.
  - Callbacks that mutate the component through the reference are not modelled.
  - Neither is the undefined behaviour of adding or removing during the iteration.
- `Storage.EntityStorage.ForEach`: returns the visits like `ComponentStorage.ForEach`, so it leaves out the same callback effects.
- `Storage.EntityStorage.RemoveEverywhere`: the source visits the storages in `unordered_map` order. The model visits them in an arbitrary order, which cannot be observed since each removal touches one storage only.
- `Storage.EntityStorage.GetOrCreate`: `typeid(T).hash_code()` and the `static_cast` back to `StorageWrapper<T>` are replaced by an abstract key with a single value type.
  - Two distinct types whose hash codes collide are not modelled.
- The virtual destructor of `IComponentStorage` and the memory ownership of the `unique_ptr`s are not modelled.
- SDL3/SDL2 window, renderer and ImGui set-up, event polling, frame building, rendering and tear-down are not modelled. `ui_manager_init`'s platform calls are one boolean, "the platform calls succeed".
  - The `#ifdef USE_SDL3_UI` / `USE_SDL2_UI` choice is the constant `backendCompiled`, and `ENABLE_UI_WINDOWS` is `enabledByDefault`.
- Console output (`std::cout`/`std::cerr`) is not modelled.
- File opening and `std::getline` are replaced by the optional line sequences of the two files.
  - A `'\r'` that `getline` leaves at the end of a CRLF line is part of the line, so `enable_ui_windows=true\r` does not decide. The model follows the source here.
- `UiManager.UiWindowManager.IsEnabled`: the function-static `configRead` of the source becomes a field of the manager object. There is one manager, as there is one set of globals.
