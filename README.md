# Tundra scene core in Dafny

This project models the in-memory scene data model of the Tundra virtual-world
framework and proves properties of the model:

- **Entities** (`scene.dfy`, module `SceneModel`). An entity owns a map from
  component id to component, an id generator, a set of action names, a parent
  link and a list of children. Adding a component with id 0 probes the
  generator for a free id. The range it draws from depends on the component's
  replication and the scene's authority. An explicit id is refused when it is
  taken, and it fast-forwards the replicated counter. Components can be
  removed one by one, by type or all at once, and re-keyed. `SetParent`
  refuses self-parenting and cycles, and keeps the parent links and the child
  lists in agreement. Children are collected flat or recursively, skipping
  expired ones. Qt signals are recorded in a ghost event log per entity, in
  emission order (the dynamic component keeps one too).
- **The scene** (also `SceneModel`). The scene is an id-keyed ordered entity
  map with an authority flag and an id generator. It provides
  `HasEntity`/`EntityById`, the name-based `==`, `!=` and `<`, and
  `CreateEntity`, `RemoveEntity` and `ChangeEntityId`. `Scene.h` commits
  these three only to the next free id for id 0 and to the found-and-removed
  result; everything else their contracts state is a modelling assumption,
  listed under "## Left out".
- **The id generator** (`idgen.dfy`, module `IdGen`). One counter per id
  range (replicated, unacked, local), allocating by pre-increment.
- **Entity count packing** (`entityformat.dfy`, module `EntityFormat`). The
  16-bit halves of the component and child counts in an entity's binary form.
- **The dynamic component** (`dynamic.dfy`, module `DynamicModel`).
  `EC_DynamicComponent` keeps a vector of attribute objects with null holes.
  Its `DeserializeCommon` is a two-cursor merge of the current attributes and
  incoming descriptions, both sorted case-insensitively by id. The merge
  queues additions and removals and applies them after the walk. The model
  also covers attribute creation and removal, hole-skipping indexing,
  comparison, and the binary form (a `u8` count, then id/type/value string
  triples).
- **Scene import bookkeeping** (`scenedesc.dfy`, module `SceneDescModel`).
  `AssetDescCache` is an insert-once dictionary. `ParentingTracker` is the
  list of unacknowledged entity ids and the map of acknowledged ids. When the
  last id is acknowledged, it rewrites placeable parent references that still
  name old ids.
- **The input mapper** (`inputmapper.dfy`, module `InputMapperModel`).
  `EC_InputMapper`'s table from (key sequence, event type) to action, and the
  rule that turns a key event into at most one action invocation.
- **Support modules.** `text.dfy` (`Text`) holds case folding,
  case-insensitive order and decimal text. `hierarchy.dfy` (`Hierarchy`)
  holds acyclicity of parent maps. `ordered.dfy` (`Ordered`) holds ascending
  iteration over id sets. `wrappers.dfy` (`Wrappers`) holds `Option`.

Where the source mutates state, the model does too. Entities, scenes,
dynamic components, attributes, trackers, caches and input mappers are
classes whose methods modify their fields. Each method is proved against
functions of the state, and lemmas about those functions state the
properties. Pure decisions, such as the merge plan, key lookup and the wire
format, are functions with lemmas.

## Model

| member | source | states |
|---|---|---|
| Text.ITrichotomy | src/Core/TundraCore/Scene/EC_DynamicComponent.cpp:20-29 | the case-insensitive id order of the sort comparators is a strict total order up to case-insensitive equality |
| Text.ILessTransitive | src/Core/TundraCore/Scene/EC_DynamicComponent.cpp:20-29 | the comparator order is transitive |
| Text.IEqualsCompatible | src/Core/TundraCore/Scene/EC_DynamicComponent.cpp:20-29 | ids equal up to case compare alike with every other id |
| Text.ParseDecimal | src/Core/TundraCore/Scene/SceneDesc.cpp:110-116 | the decimal text written for a 32-bit id reads back as that id |
| IdGen.Allocate | src/Core/TundraCore/Scene/Entity.cpp:81-84 | an allocation returns the counter of its range plus one, inside the range; it advances that counter and leaves the other ranges alone |
| IdGen.ResetReplicatedId | src/Core/TundraCore/Scene/Entity.cpp:99-100 | resetting moves only the replicated counter, to the given value |
| IdGen.AllocateManyIncreasing | src/Core/TundraCore/Scene/Entity.cpp:79-88 | successive allocations from one range are consecutive, strictly increasing and inside the range |
| IdGen.LocalAllocationsDisjoint | src/Core/TundraCore/Scene/Entity.cpp:79-91 | no id a valid generator hands out from the local range equals one any valid generator hands out from the replicated or unacked range; only the local ones fail the id < FIRST_LOCAL_ID replication test |
| IdGen.AllocateFree | src/Core/TundraCore/Scene/Entity.cpp:79-88 | the probing loop ends on the first id past the counter that is not taken, inside the range, with only that range's counter moved |
| Hierarchy.ReparentAcyclic | src/Core/TundraCore/Scene/Entity.cpp:816-828 | re-parenting c under p keeps the parent links acyclic when c is not an ancestor-or-self of p, which is what the check loop tests |
| Hierarchy.ReparentToDescendantCycles | src/Core/TundraCore/Scene/Entity.cpp:816-828 | without the check, making a child the parent of its own parent yields a two-cycle |
| Hierarchy.AncestorStep | src/Core/TundraCore/Scene/Entity.cpp:819-826 | one step of the ancestor walk: x reaches a (x != a) exactly when x has a parent that reaches a |
| EntityFormat.PackCounts | src/Core/TundraCore/Scene/Entity.cpp:460-465 | the count word fits in a u32; for counts up to 0xFFFF its low half is the component count and its high half the child count |
| EntityFormat.UnpackCounts | src/Core/TundraCore/Scene/Entity.cpp:460-465 | splitting a u32 gives two 16-bit halves that pack back to the same word |
| EntityFormat.PackRoundTrip | src/Core/TundraCore/Scene/Entity.cpp:460-465 | counts up to 0xFFFF survive packing and splitting |
| EntityFormat.PackCollision | src/Core/TundraCore/Scene/Entity.cpp:460-465 | 0x10000 components and no children pack to the same word as no components and one child, the erroneous save the writer warns about |
| SceneModel.RangeForFlags | src/Core/TundraCore/Scene/Entity.cpp:79-84 | an id drawn for a component is replicated exactly when the component is, and in a scene without authority it is unacked exactly then |
| SceneModel.Entity.ComponentById | src/Core/TundraCore/Scene/Entity.cpp:368-372 | a component is found exactly when its id is a key; it is the stored component, with that id and this entity as parent |
| SceneModel.Entity.FirstMatching | src/Core/TundraCore/Scene/Entity.cpp:376-379 | the scan in ascending id order returns the matching component of smallest id, or nothing when none matches |
| SceneModel.Entity.ComponentMatching | src/Core/TundraCore/Scene/Entity.cpp:374-421 | the four Component lookups: the matching component of smallest id, by type name (with the EC_ prefix ensured) or type id, optionally with a name; nothing when none matches |
| SceneModel.Entity.AddComponent | src/Core/TundraCore/Scene/Entity.cpp:68-123 | a parented component is ignored; an explicit id in use leaves everything unchanged; an explicit id sets replicated to id < FIRST_LOCAL_ID and sets the replicated counter to max(id, old); id 0 yields the first free id past the range's counter; on success the map gains exactly that entry, parented to this entity, and the added signals are logged |
| SceneModel.Entity.RemoveEntry | src/Core/TundraCore/Scene/Entity.cpp:151-183 | the entry is erased, the returned component has no parent, and the removal signals are logged carrying the component while it is still parented to this entity |
| SceneModel.Entity.RemoveComponent | src/Core/TundraCore/Scene/Entity.cpp:125-139 | the component is removed exactly when it is stored under its id; otherwise nothing changes |
| SceneModel.Entity.RemoveComponentById | src/Core/TundraCore/Scene/Entity.cpp:186-191 | the map loses the id and only it; removal signals are logged only when the id was present |
| SceneModel.Entity.MatchingComponentIds | src/Core/TundraCore/Scene/Entity.cpp:196-198 | the collected ids are those of the matching components, in ascending id order |
| SceneModel.MatchingIdsComplete | src/Core/TundraCore/Scene/Entity.cpp:196-198 | every matching id is collected |
| SceneModel.MatchingIdsIncreasing | src/Core/TundraCore/Scene/Entity.cpp:196-198 | the collected ids are strictly increasing, as map iteration order is |
| SceneModel.MatchingIdsCount | src/Core/TundraCore/Scene/Entity.cpp:196-203 | the number collected is the number of matching components |
| SceneModel.Entity.RemoveIds | src/Core/TundraCore/Scene/Entity.cpp:200-201 | removing a list of distinct present ids erases exactly those keys, keeps every other entry, and logs their removals in list order |
| SceneModel.Entity.RemoveMatching | src/Core/TundraCore/Scene/Entity.cpp:193-217 | exactly the matching components are removed, the others are kept unchanged, the count returned is the number removed, and the removals are logged in ascending id order |
| SceneModel.Entity.RemoveComponents | src/Core/TundraCore/Scene/Entity.cpp:193-204 | exactly the components whose type name equals the argument are removed, the rest kept, and their number returned |
| SceneModel.Entity.RemoveComponentsOfType | src/Core/TundraCore/Scene/Entity.cpp:206-217 | the same by type id |
| SceneModel.Entity.RemoveAllComponents | src/Core/TundraCore/Scene/Entity.cpp:141-149 | the map ends empty, with the removals of all old components logged in ascending id order |
| SceneModel.Entity.ChangeComponentId | src/Core/TundraCore/Scene/Entity.cpp:43-61 | a no-op when the ids are equal or the old id is absent; otherwise the new id maps to the old component re-keyed, the old id is gone, and any occupant of the new id is purged with LocalOnly removal signals |
| SceneModel.Entity.CreateComponent | src/Core/TundraCore/Scene/Entity.cpp:273-287 | a factory failure changes nothing; otherwise the component gets the requested replication unless the change is Default and it asks not to be replicated, gets a fresh id in the range for that replication, and is added parented to this entity |
| SceneModel.Entity.GetOrCreateComponent | src/Core/TundraCore/Scene/Entity.cpp:227-261 | an existing match (smallest id) is returned with nothing changed; otherwise the result is exactly what CreateComponent gives: the factory's component with the replication rule applied, parented under a fresh id from its range, with its added events logged, or nothing changed when the factory makes none |
| SceneModel.Entity.CreateComponentWithId | src/Core/TundraCore/Scene/Entity.cpp:341-356 | the factory's component is returned; id 0 forces replication on and takes a free id from the replicated or unacked range; a free explicit id is used as given and moves the replicated counter to at least that id; either way the component is added and its events logged; a taken explicit id changes nothing and returns the unparented component |
| SceneModel.Entity.SetTemporary | src/Core/TundraCore/Scene/Entity.cpp:724-734 | the flag is set; the toggle signal is logged only when the flag changed and the change is not Disconnected, with Default turned into Replicate |
| SceneModel.Entity.EmitEntityRemoved | src/Core/TundraCore/Scene/Entity.cpp:705-712 | nothing is signalled for Disconnected, Default is signalled as Replicate |
| SceneModel.Entity.Action | src/Core/TundraCore/Scene/Entity.cpp:641-650 | the action returned equals the name case-insensitively; an existing one is returned with nothing added, otherwise the name is added |
| SceneModel.Entity.RemoveAction | src/Core/TundraCore/Scene/Entity.cpp:652-660 | the action of exactly that name is removed, if present |
| SceneModel.Entity.ReachesThis | src/Core/TundraCore/Scene/Entity.cpp:816-828 | the walk up the parent chain from the prospective parent meets this entity exactly when this entity is its ancestor-or-self |
| SceneModel.Entity.EraseChild | src/Core/TundraCore/Scene/Entity.cpp:831-842 | the first occurrence of the child leaves the list, the rest stays in order |
| SceneModel.Entity.SetParent | src/Core/TundraCore/Scene/Entity.cpp:803-860 | the same parent, self-parenting or a parent this entity is an ancestor of change no link, no child list and log nothing; otherwise the entity leaves the old parent's list, is appended to the new parent's, its parent is set, the parent map changes at this entity alone, the hierarchy stays valid and acyclic, and the signals are logged unless Disconnected |
| SceneModel.Entity.Reattach | src/Core/TundraCore/Scene/Entity.cpp:831-859 | the accepted case of SetParent: the moves between child lists, the new parent link and the signals, keeping the scene valid |
| SceneModel.RelinkKeepsValid | src/Core/TundraCore/Scene/Entity.cpp:831-848 | moving an entity between child lists and setting its parent keeps every listed child pointing back at its parent and the links acyclic |
| SceneModel.Entity.Child | src/Core/TundraCore/Scene/Entity.cpp:891-894 | a child is returned exactly when the index is in range and that child is still live |
| SceneModel.Entity.ChildIsParented | src/Core/TundraCore/Scene/Entity.cpp:891-894 | a child returned names this entity as its parent |
| SceneModel.Entity.CollectChildren | src/Core/TundraCore/Scene/Entity.cpp:936-949 | the accumulator is extended by the live children in list order, each followed by its own collection when recursive |
| SceneModel.CollectedFlat | src/Core/TundraCore/Scene/Entity.cpp:936-949 | the non-recursive collection is the live children in list order |
| SceneModel.CollectedDescendants | src/Core/TundraCore/Scene/Entity.cpp:936-949 | the recursive collection holds exactly the live proper descendants |
| SceneModel.Entity.Children | src/Core/TundraCore/Scene/Entity.cpp:918-923 | flat: the live children in order; recursive: exactly the live proper descendants |
| SceneModel.Entity.LiveParent | src/Core/TundraCore/Scene/Entity.cpp:805 | the parent link locks only while the parent is a live entity of the scene, and then it is the parent field |
| SceneModel.Entity.IsLocal | src/Core/TundraCore/Scene/Entity.cpp:855 | a local id is one no replicated or unacked allocation hands out |
| SceneModel.Entity.IsReplicated | src/Core/TundraCore/Scene/Entity.cpp:443 | an entity is replicated exactly when its id is 0 or in the replicated range |
| SceneModel.Entity.IsUnacked | src/Core/TundraCore/Scene/Entity.cpp:83-84 | an unacked id lies in the unacked range, which is inside the replicated ids |
| SceneModel.Entity.ShouldBeSerialized | src/Core/TundraCore/Scene/Entity.cpp:925-934 | serialized exactly when no flag excludes it: not temporary unless temporaries are wanted, not local unless locals are wanted, not parented unless children are wanted; always with all three flags |
| SceneModel.Entity.ChildrenNotSerializedAlone | src/Core/TundraCore/Scene/Entity.cpp:925-934 | a live child is never serialized when children are excluded, and always when everything is included |
| SceneModel.Scene.Equal | src/Core/TundraCore/Scene/Scene.h:70-71 | scenes are equal exactly when neither comes before the other by name |
| SceneModel.Scene.NotEqual | src/Core/TundraCore/Scene/Scene.h:73-74 | scenes differ exactly when one of them comes before the other |
| SceneModel.Scene.Before | src/Core/TundraCore/Scene/Scene.h:76-77 | a scene before another has a different name and does not also follow it |
| SceneModel.SceneOrder | src/Core/TundraCore/Scene/Scene.h:70-77 | != is the negation of ==, < is a strict total order on names, and equal scenes are not ordered |
| SceneModel.Scene.HasEntity | src/Core/TundraCore/Scene/Scene.h:325 | an id is present exactly when it keys an entity of the scene |
| SceneModel.Scene.HasEntityCarried | src/Core/TundraCore/Scene/Scene.h:325 | in a valid scene an id is present exactly when some entity of the scene carries that id |
| SceneModel.Scene.EntityById | src/Core/TundraCore/Scene/Scene.h:303-309 | an entity is returned exactly when HasEntity holds for the id, and it is in the scene |
| SceneModel.Scene.EntityByIdKeyed | src/Core/TundraCore/Scene/Scene.h:47 | the map is keyed by entity id: the entity found carries the id asked for, and every entity is found by its own id |
| SceneModel.Scene.Ids | src/Core/TundraCore/Scene/Scene.h:47 | iteration visits the ids of the entities, each once, in ascending order |
| SceneModel.Scene.CreateEntity | src/Core/TundraCore/Scene/Scene.h:245-259 | assuming the component id range has room (Room), a taken explicit id yields null with nothing changed; otherwise a fresh entity under the explicit id or a fresh id from the replicated or local range, with no parent, no children, the components the factory made, the requested temporary and replication flags, and unacked exactly when replicated in a scene without authority |
| SceneModel.Scene.RemoveEntity | src/Core/TundraCore/Scene/Scene.h:327-332 | found exactly when the id was present; afterwards the id is absent, the entity is detached from its parent's child list, its removal notification is logged (none when Disconnected), and no other link changes |
| SceneModel.Scene.ChangeEntityId | src/Core/TundraCore/Scene/Scene.h:83-87 | a no-op for equal ids or an absent old id; otherwise the entity moves to the new id, carries it, the old id is gone, and any entity under the new id is purged |
| DynamicModel.NonEmpty | src/Core/TundraCore/Scene/EC_DynamicComponent.cpp:68 | NonEmptyAttributes: every attribute kept is from the slots and every non-null slot is kept, so the result is no longer than the slots |
| DynamicModel.SortByKey | src/Core/TundraCore/Scene/EC_DynamicComponent.cpp:69-72 | the sort keeps the length; SortPermutes, SortSorted and SortStable state the permutation, the order and the stability |
| DynamicModel.SortStable | src/Core/TundraCore/Scene/EC_DynamicComponent.cpp:71-72 | std::stable_sort: for every key, the elements with that key keep their relative order |
| DynamicModel.SortPermutes | src/Core/TundraCore/Scene/EC_DynamicComponent.cpp:69-72 | sorting by key is a permutation |
| DynamicModel.SortSorted | src/Core/TundraCore/Scene/EC_DynamicComponent.cpp:69-72 | the sorted list is in ascending case-insensitive id order |
| DynamicModel.SortDistinct | src/Core/TundraCore/Scene/EC_DynamicComponent.cpp:69-72 | sorting keeps distinct keys distinct |
| DynamicModel.MergeAccounts | src/Core/TundraCore/Scene/EC_DynamicComponent.cpp:76-123 | the walk accounts for both lists under either "is new" test: each description is matched or queued for adding, each current attribute matched or queued for removal, and a match pairs equal ids case-insensitively |
| DynamicModel.MergeRemovals | src/Core/TundraCore/Scene/EC_DynamicComponent.cpp:80-123 | with the case-insensitive "is new" test, the removal queue holds exactly the current ids with no incoming id |
| DynamicModel.MergeAdditions | src/Core/TundraCore/Scene/EC_DynamicComponent.cpp:80-123 | every incoming id is current or queued for addition, and only incoming ids are queued |
| DynamicModel.MergeAdditionsFresh | src/Core/TundraCore/Scene/EC_DynamicComponent.cpp:111-116 | with the case-insensitive test, no current id is queued for addition |
| DynamicModel.MergeOutcome | src/Core/TundraCore/Scene/EC_DynamicComponent.cpp:67-134 | keeping the current ids, adding the queued and dropping the removed gives exactly the incoming ids |
| DynamicModel.AsWrittenDropsMatch | src/Core/TundraCore/Scene/EC_DynamicComponent.cpp:112 | with current ids "a", "C" and incoming "C", the case-sensitive test ends with no attribute; the case-insensitive one keeps "C" |
| DynamicModel.AsWrittenAgreesOnFolded | src/Core/TundraCore/Scene/EC_DynamicComponent.cpp:112 | when no id has an upper-case letter, the case-sensitive test as written makes the same plan as the corrected one |
| DynamicModel.IndexOfId | src/Core/TundraCore/Scene/EC_DynamicComponent.cpp:161-162 | the first non-null slot whose id equals the given one case-insensitively, or -1 when there is none |
| DynamicModel.ScanAsWritten | src/Core/TundraCore/Scene/EC_DynamicComponent.cpp:101-102 | the value-update scan as written ends on a match, on a null slot it dereferences, or finds nothing only when there are no holes |
| DynamicModel.ScanAsWrittenReadsHole | src/Core/TundraCore/Scene/EC_DynamicComponent.cpp:101-102 | on slots [null, a] the scan dereferences slot 0 although a is at slot 1 |
| DynamicModel.SameAttributesPairs | src/Core/TundraCore/Scene/EC_DynamicComponent.cpp:267-297 | agreeing components hold the same case-folded (id, type name) pairs, each as often; with case-insensitively distinct ids, holding the same pairs is also enough to agree |
| DynamicModel.SameAttributesKeys | src/Core/TundraCore/Scene/EC_DynamicComponent.cpp:267-297 | agreeing attribute sets are reflexive, symmetric and carry the same ids up to case |
| DynamicModel.Encode | src/Core/TundraCore/Scene/EC_DynamicComponent.cpp:323-338 | the write: the slot count modulo 256 (a u8), then three strings per non-null attribute that read back as their id, type and value |
| DynamicModel.Decode | src/Core/TundraCore/Scene/EC_DynamicComponent.cpp:340-352 | a successful read yields as many descriptions as the u8 count says (the count is a byte, 0 to 255) |
| DynamicModel.ReadDescriptions | src/Core/TundraCore/Scene/EC_DynamicComponent.cpp:342-352 | the reading loop computes Decode: count triples, or failure when the data runs out |
| DynamicModel.EncodeDecode | src/Core/TundraCore/Scene/EC_DynamicComponent.cpp:323-355 | without holes and with at most 255 attributes, reading what was written gives back every attribute's id, type and value |
| DynamicModel.HoleBreaksDecode | src/Core/TundraCore/Scene/EC_DynamicComponent.cpp:325 | for slots [null, a] the count says 2 but one triple follows, so the read fails |
| DynamicModel.CountWrapsAt256 | src/Core/TundraCore/Scene/EC_DynamicComponent.cpp:325 | 256 attributes are written with count 0 and read back as none |
| DynamicModel.EncodeWrittenDecode | src/Core/TundraCore/Scene/EC_DynamicComponent.cpp:325-337 | with the count of non-null slots, the write reads back as the non-null attributes whenever there are at most 255 |
| DynamicModel.DynamicComponent.constructor | src/Core/TundraCore/Scene/EC_DynamicComponent.cpp:33-36 | a new component has no attributes and no signals, and sits in a scene exactly when it is given one |
| DynamicModel.DynamicComponent.AttributeById | src/Core/TundraCore/Scene/EC_DynamicComponent.cpp:318-321 | an attribute is found exactly when its id, case-insensitively, is among the non-null slots, and it is such a slot |
| DynamicModel.DynamicComponent.ContainsAttribute | src/Core/TundraCore/Scene/EC_DynamicComponent.cpp:138 | an id is contained exactly when some non-null attribute has it, case-insensitively |
| DynamicModel.AddedSignals | src/Core/TundraCore/Scene/EC_DynamicComponent.cpp:150-155 | a new attribute's signals: the scene's re-emission when the component is in a scene, then AttributeAdded, then the change signal with the given change |
| DynamicModel.DynamicComponent.CreateAttribute | src/Core/TundraCore/Scene/EC_DynamicComponent.cpp:136-157 | an existing id returns that attribute with nothing changed or signalled; an unknown type returns null with nothing changed or signalled; otherwise a fresh attribute with the id, type and an empty value is appended and its added and changed signals are logged |
| DynamicModel.DynamicComponent.RemoveAttribute | src/Core/TundraCore/Scene/EC_DynamicComponent.cpp:159-167 | the first non-null slot with the id becomes a hole and nothing else changes; the id leaves the key set |
| DynamicModel.DynamicComponent.UpdateValue | src/Core/TundraCore/Scene/EC_DynamicComponent.cpp:101-106 | the attribute with the id, if any, receives the value; holes are skipped |
| DynamicModel.DynamicComponent.Walk | src/Core/TundraCore/Scene/EC_DynamicComponent.cpp:76-123 | the two-cursor loop builds exactly the addition and removal queues of the merge plan and gives every matched attribute the incoming value |
| DynamicModel.DynamicComponent.ApplyAdds | src/Core/TundraCore/Scene/EC_DynamicComponent.cpp:125-130 | the queued attributes of known type are appended after the existing slots, which stay as they were; fresh ones receive their values |
| DynamicModel.DynamicComponent.AddOne | src/Core/TundraCore/Scene/EC_DynamicComponent.cpp:126-129 | one queued addition: created and valued when the type is known and the id is new, the existing attribute valued when the id exists |
| DynamicModel.DynamicComponent.ApplyRemovals | src/Core/TundraCore/Scene/EC_DynamicComponent.cpp:132-133 | exactly the queued ids leave the key set, by turning their slots into holes, and every other attribute is found as before |
| DynamicModel.DynamicComponent.DeserializeCommon | src/Core/TundraCore/Scene/EC_DynamicComponent.cpp:67-134 | for the corrected walk (case-insensitive "is new" test, holes skipped): afterwards the ids are a subset of the incoming ids (equal to them when every type is known), shared ids keep their attribute objects, removed slots become holes, and with distinct incoming ids every surviving attribute holds its incoming value |
| DynamicModel.DynamicComponent.DeserializeFromBinary | src/Core/TundraCore/Scene/EC_DynamicComponent.cpp:340-355 | data that runs short changes nothing; otherwise the decoded descriptions are merged as DeserializeCommon states |
| DynamicModel.DynamicComponent.GetInternalAttributeIndex | src/Core/TundraCore/Scene/EC_DynamicComponent.cpp:178-192 | a result >= 0 exactly for an index below the non-null count: the raw slot, non-null, with exactly index non-null slots before it; -1 otherwise |
| DynamicModel.DynamicComponent.SetAttribute | src/Core/TundraCore/Scene/EC_DynamicComponent.cpp:222-232 | the index-th non-null attribute receives the value; an index out of range changes nothing |
| DynamicModel.DynamicComponent.ContainSameAttributes | src/Core/TundraCore/Scene/EC_DynamicComponent.cpp:267-297 | true exactly when the non-null counts agree and the id-sorted lists agree pairwise on id and type name, case-insensitively |
| DynamicModel.DynamicComponent.SameAttributesMeaning | src/Core/TundraCore/Scene/EC_DynamicComponent.cpp:267-297 | between valid components, ContainSameAttributes holds exactly when both hold the same case-folded (id, type name) pairs |
| DynamicModel.DynamicComponent.SerializeToBinary | src/Core/TundraCore/Scene/EC_DynamicComponent.cpp:323-338 | the output is the count of slots modulo 256, followed by one triple per non-null slot in slot order |
| SceneDescModel.AssetDescCache.constructor | src/Core/TundraCore/Scene/SceneDesc.cpp:22-43 | a new cache is empty |
| SceneDescModel.AssetDescCache.Fill | src/Core/TundraCore/Scene/SceneDesc.cpp:24-34 | found exactly when the reference is cached; then the source and destination are the cached ones, and otherwise the description is untouched |
| SceneDescModel.AssetDescCache.Add | src/Core/TundraCore/Scene/SceneDesc.cpp:36-43 | refused, with the cache unchanged, when the reference is cached or a field is empty; otherwise the entry is added, the old entries are untouched, and Fill then returns the stored fields |
| SceneDescModel.RemoveAll | src/Core/TundraCore/Scene/SceneDesc.cpp:66 | the ids left are exactly those other than the removed one, and the list shrinks when that id was present |
| SceneDescModel.FixRef | src/Core/TundraCore/Scene/SceneDesc.cpp:110-116 | a reference that is not a 32-bit number above zero, or names no acknowledged id, stays; otherwise it becomes the decimal text of the acknowledged id, which reads back as that id |
| SceneDescModel.Fixed | src/Core/TundraCore/Scene/SceneDesc.cpp:79-121 | the fix-up keeps the entity set; the reference of each entity under an acknowledged id is fixed, and every other reference stays |
| SceneDescModel.FixRefAcked | src/Core/TundraCore/Scene/SceneDesc.cpp:110-116 | a reference written as an acknowledged old id is rewritten to the decimal text of the new id |
| SceneDescModel.FixRefIdempotent | src/Core/TundraCore/Scene/SceneDesc.cpp:110-116 | when no new id is itself an old id, fixing a reference twice equals fixing it once |
| SceneDescModel.ParentingTracker.constructor | src/Core/TundraCore/Scene/SceneDesc.cpp:45-50 | a new tracker waits for nothing and records nothing |
| SceneDescModel.ParentingTracker.IsTracking | src/Core/TundraCore/Scene/SceneDesc.cpp:47-50 | tracking exactly while some id waits; when none waits, no acknowledged id is kept |
| SceneDescModel.ParentingTracker.Track | src/Core/TundraCore/Scene/SceneDesc.cpp:52-59 | a non-null entity's id is appended and the tracker is tracking; a null entity changes nothing |
| SceneDescModel.ParentingTracker.Ack | src/Core/TundraCore/Scene/SceneDesc.cpp:61-77 | an id not being waited for changes nothing; otherwise all its occurrences leave the list and old -> new is recorded, and when the list empties the parent references are fixed with every recorded id and the record is cleared |
| SceneDescModel.ParentingTracker.FixParenting | src/Core/TundraCore/Scene/SceneDesc.cpp:79-121 | every entity under an acknowledged id has its parent reference fixed, and every other reference is unchanged |
| InputMapperModel.LookupKey | src/Core/TundraCore/Input/EC_InputMapper.cpp:119-125 | the key looked up is key\|modifiers when modifiers are told apart and the event is not a release, the bare key otherwise |
| InputMapperModel.HandleKeyEvent | src/Core/TundraCore/Input/EC_InputMapper.cpp:111-151 | an action runs exactly when the mapper is enabled, the event is not an ignored repeat, the looked-up entry exists and there is a parent entity; it is the mapped name with its execution type, or the component's when that is 0; the event is suppressed exactly when an action ran and suppression is on |
| InputMapperModel.InputMapper.constructor | src/Core/TundraCore/Input/EC_InputMapper.cpp:20-32 | enabled, repeats trigger, modifiers told apart, execution type 1, no suppression, no mappings |
| InputMapperModel.InputMapper.RegisterMapping | src/Core/TundraCore/Input/EC_InputMapper.cpp:58-64 | the entry for (key, event type) is stored or overwritten, and no other entry changes |
| InputMapperModel.InputMapper.RegisterMappingFromText | src/Core/TundraCore/Input/EC_InputMapper.cpp:66-74 | an empty key sequence registers nothing; otherwise as RegisterMapping |
| InputMapperModel.InputMapper.RemoveMapping | src/Core/TundraCore/Input/EC_InputMapper.cpp:76-88 | exactly the (key, event type) entry is erased; an absent entry leaves the table unchanged |
| InputMapperModel.RegisteredInvoked | src/Core/TundraCore/Input/EC_InputMapper.cpp:136-141 | after registering the looked-up entry, an enabled non-repeat event with a parent runs that action, with the registered execution type or the default for 0 |
| InputMapperModel.RemovedNotInvoked | src/Core/TundraCore/Input/EC_InputMapper.cpp:126-127 | after removing the looked-up entry the event runs nothing and is not suppressed |
| InputMapperModel.ReleaseIgnoresModifiers | src/Core/TundraCore/Input/EC_InputMapper.cpp:119-125 | a release is handled the same whatever modifiers are held |
| InputMapperModel.ModifiersDisabledBareKey | src/Core/TundraCore/Input/EC_InputMapper.cpp:124-125 | with modifiers not told apart, every event is handled as its bare key |
| InputMapperModel.ModifiedPressMissesBareKey | src/Core/TundraCore/Input/EC_InputMapper.cpp:122-123 | with modifiers told apart, a modified press does not reach a mapping for the bare key alone |

## Left out

- Scene.cpp is not part of this model. `Scene.h` (245-259, 327-332) documents only that id 0 takes the next free id and that `RemoveEntity` reports whether the entity was found and removed. The contracts of `CreateEntity`, `RemoveEntity` and `ChangeEntityId` also state behaviour taken from the design of the entity lifecycle, as modelling assumptions:
  - `CreateEntity` with an explicit id that is taken returns null and changes nothing;
  - `CreateEntity` draws the component id range from `replicated` and the scene's authority, and forces each component's replication flag to `componentsReplicated`;
  - entity creation is recorded only as the pending "created this frame" list, which skips Disconnected creations; how the list is flushed as signals is not modelled;
  - `RemoveEntity` first detaches the entity from its parent silently, then emits the entity's removal notification (none when Disconnected), then erases it; its children are not removed, and every parent field is kept;
  - `ChangeEntityId` purges an occupant of the new id with Disconnected, so nothing is signalled.
- The bodies of UniqueIdGenerator and IComponent are not part of this model. The model assumes:
  - the generator is one counter per range, allocating by pre-increment, with the range start values FIRST_UNACKED_ID = 0x40000000 and FIRST_LOCAL_ID = 0x80000000;
  - ranges never run into each other, stated as the `Room` precondition;
  - `IComponent::AddAttribute` appends to the attribute vector;
  - `IComponent::RemoveAttribute` turns the slot into a hole;
  - `IComponent::AttributeById` finds the first non-null slot whose id matches case-insensitively;
  - `IComponent::ParentScene()` is the scene given to the constructor, fixed for the component's lifetime (the dynamic component's `inScene` flag).
- Component and attribute factories are inputs. An entity's `CreateComponent` takes the component the factory made, or none. The dynamic component takes the set of type names the factory can create.
- Qt signals are recorded in ghost event logs: the per-entity log and the log of signals the dynamic component's `CreateAttribute` emits. A signal's receivers, and the scene's re-emissions beyond the recorded events, are not modelled. The signals of `IAttribute::FromString`, `IComponent::RemoveAttribute` and `SetAttribute` belong to code that is not part of this model and are not logged.
- Every entity belongs to a scene: the model's `scene` field is a constant, non-null reference. The source's entity may have no scene. It then takes authority as true (Entity.cpp:75-77) and skips the scene's re-emission of added and removed components (Entity.cpp:120-121, 178-179) and of a parent change (Entity.cpp:857-858). These null-scene paths are not modelled.
- Text.Fold: case folding covers the ASCII letters only. QString's case-insensitive comparison (EC_DynamicComponent.cpp:20-29, 112, 162) folds all of Unicode, so ids that differ only in the case of a non-ASCII letter are distinct in the model and equal in the source.
- Text.Less: strings are compared by Unicode scalar value, while QString's `operator<` compares UTF-16 code units. The orders differ only when a character outside the Basic Multilingual Plane is compared with one from U+E000 to U+FFFF.
- DynamicModel.EncodeDecode: strings travel as character sequences read back exactly. The source converts them with `toStdString`/`fromStdString` (EC_DynamicComponent.cpp:332-334, 347-349), so the round trip holds there only for text that conversion keeps.
- SceneModel.Scene.CreateEntity: the component range of the new entity must have room for twice the number of components made (`Room(IdGen.Initial(), ...)`). This is the range assumption of the generator; the source has no such limit.
- The dynamic-property accessors of `AddComponent`/`RemoveComponent` are left out. They are convenience sugar over `QObject::setProperty`.
- The process is left out: logging, warnings, and deprecated or raw-pointer entry points (`RemoveComponentRaw`, `GetComponentsRaw`, `AddQVariantAttribute`).
- XML, cloning and the component payloads of `Entity::SerializeToBinary` are left out. Only its count-word packing is modelled.
- `ComponentsOfType` is the same ascending scan as `MatchingComponentIds` and returns components rather than ids. It has no member of its own.
- `AddChild`, `RemoveChild`, `DetachChild`, `CreateChild`, `CreateLocalChild` and `ChildByName` are left out. They are thin wrappers over `SetParent` and `RemoveEntity`, or name searches, which are not core.
- `EnterView`/`LeaveView` and `Exec` are left out. They only emit signals.
- Entity actions are modelled as a set of names. The `EntityAction` objects and their deferred deletion are not modelled.
- SceneModel.Entity.CreateComponent: the four overloads differ only in how the factory is asked, so the factory's result is a parameter.
- DynamicModel.DynamicComponent.CreateAttribute: a type's default value is modelled as the empty string, so a freshly created attribute of a type whose `ToString()` gives a non-empty default (an int attribute's "0", say) serialises differently in the source.
- DynamicModel.DynamicComponent.DeserializeCommon: the method runs the corrected walk of the first two findings below, with a case-insensitive "is new" test and a value scan that skips holes. The code as written can drop a matched attribute (ids "a", "C" against incoming "C" end with no attribute) and dereferences holes. The two agree when no id has an upper-case letter (AsWrittenAgreesOnFolded) and the slots have no holes.
- DynamicModel.DynamicComponent.DeserializeCommon: the value claim is stated only for distinct incoming ids. With duplicates, which value wins depends on the merge order.
- DynamicModel.DynamicComponent.DeserializeCommon: the signals of the attributes it creates are logged by `CreateAttribute` (with the Default change, taken as the default argument of the two-argument call at EC_DynamicComponent.cpp:127), but its contract does not state the resulting log.
- DynamicModel.DynamicComponent.DeserializeCommon: attribute values are their string form, so `FromString` parsing, and the signals it emits with the `change` argument, are not modelled.
- DynamicModel.DynamicComponent.ContainSameAttributes: the source sorts with `std::sort`, while the model sorts stably. The two agree whenever ids are distinct up to case.
- DynamicModel.DynamicComponent.DeserializeFromBinary: kNet's exception on short data is modelled as the result `false` with nothing changed.
- `RemoveAllAttributes`, `AttributeById(index)`, `SetAttribute(id)`, the QVariant accessors and XML `DeserializeFrom` are left out. They are thin wrappers or XML.
- `GetAttributeName`/`GetAttributeId` are left out. They index with the raw index rather than the translated one, and no hole-skipping behaviour is claimed for them.
- Attribute interpolation is left out because it is floating-point and timed.
- SceneDescModel.ParentingTracker.FixParenting: the scene is seen through `PlacementView`. That view maps entity ids to the parentRef text of their placeable component (type id 20), for entities that have one.
- SceneDescModel.ParentingTracker.FixParenting: the loop visits the set of acknowledged ids, so an id appearing twice among the map's values is visited once. The difference shows only when an acknowledged id is also an old id.
- SceneDescModel.FixRef: `QString::toUInt` is modelled as strict decimal digits within 32 bits. Its acceptance of surrounding whitespace, a sign or other bases is not modelled. `EntityReference::IsEmpty` is taken as empty text.
- SceneDescModel.ParentingTracker.Ack: the log lines and the replication change passed to `parentRef->Set` are not modelled.
- InputMapperModel.HandleKeyEvent: a key sequence is its integer key code, with 0 for the empty sequence, and `QKeySequence` parsing of text is a parameter. Only the three key event kinds are modelled, not the `int` cast of other values. The action string is returned unparsed; `ParseCommand` and `Exec` are not modelled.
- Mouse events, input-context creation and `AttributesChanged` of the input mapper are left out. They are I/O and wiring.

## Findings

| source | as written | input that shows it | evidently intended | confidence | as-written member | corrected member |
|---|---|---|---|---|---|---|
| src/Core/TundraCore/Scene/EC_DynamicComponent.cpp:112 | the "is new" test compares ids case-sensitively (`>`) while both lists are sorted case-insensitively | current ids "a", "C"; incoming "C" | the same case-insensitive order as the sort, so "C" is matched and kept | not executed; high | DynamicModel.AsWrittenDropsMatch (with DynamicModel.IncomingFirstAsWritten) | DynamicModel.MergeOutcome (with DynamicModel.IncomingFirst, used by DynamicModel.DynamicComponent.DeserializeCommon) |
| src/Core/TundraCore/Scene/EC_DynamicComponent.cpp:101-102 | the value-update scan dereferences every slot, including holes | slots [null, a], incoming a's id | skip null slots, as RemoveAttribute does at :162 | not executed; high | DynamicModel.ScanAsWrittenReadsHole (with DynamicModel.ScanAsWritten) | DynamicModel.DynamicComponent.UpdateValue |
| src/Core/TundraCore/Scene/EC_DynamicComponent.cpp:325 | the count written is the number of slots, holes included, but only non-null slots are written | slots [null, a] | the count of non-null attributes, so the read takes exactly the triples written | not executed; high | DynamicModel.HoleBreaksDecode (with DynamicModel.Encode) | DynamicModel.EncodeWrittenDecode (with DynamicModel.EncodeWritten) |
