# ComponentInfo prototype inheritance, modelled in Dafny

This project models the editor-side prototype-inheritance engine of the Unity package
ComponentInfo-Prototype.

A *record* (`ComponentInfoPrototype`) lives in an asset or in a component. It has four
parts:
- an optional reference to a prototype asset;
- a list of locally overridden property paths (`modifiedProperties`);
- a field tree (`defaults`);
- whether its owner is an asset or a component.

Every field that is not flagged as overridden is copied down from the prototype's record. A
change to a record is pushed to every record below it in the prototype hierarchy.

The model has three parts, following the three core source files.

- **Field-tree copy and property paths** (`Scripts/Editor/SerializedPropertyExtensions.cs`).
  - `PropertyValues` models a serialized property as a value: a leaf of a Unity property type,
    a nested record with named children, or an array.
    - `CopyPropertyTo` and `CopyPropertyValueTo` become the function `Copy`.
    - `Copy` is implemented by methods proved equal to it.
  - `ObjectPaths` models `GetParent`, both `GetValue` overloads and `GetField` over a small
    model of runtime objects:
    - an instance's fields are grouped by declaring type, own type first;
    - collections are sequences.
- **Override flags, prototype validation and resolution**
  (`Scripts/Editor/ComponentInfo/ComponentInfoPrototypeDrawer.cs`).
  - `Overrides` models the flat override list.
  - `PropertyPaths` models Unity's `propertyPath` strings and the `PrototypeProperty` rewrite.
  - `Resolution` models `UpdateLocalProperty`, the pre-order walk that copies every inherited
    field, as the functions `ResolveAt` and `ResolveChildren`, together with the recursive
    methods that compute them.
  - `PrototypeDrawer` holds the stored records in a class `RecordTable` and models:
    - `UpdateProperty`, which resolves one record and writes it back;
    - `IsValidParent`, the chain walk that rejects a prototype closing a cycle.
  - `PrototypeField` models the accept/revert branch of `OnGUI`.
- **The hierarchy index** (`Scripts/Editor/ComponentInfo/ComponentInfoHierarchy.cs`).
  - `Hierarchy` models the index as a value (`Links`), with the functions that specify its
    operations and the proofs about propagation down the hierarchy.
  - `HierarchyIndex` models the static index as a class `ComponentInfoHierarchy` with five fields:
    - the node table `nodes` (BaseNodes);
    - the root set `roots` (BaseNodeHierarchy);
    - the waiting map `waiting` (WaitingForParentNodes);
    - each node's `_parent` and `_children`, as the maps `parent` and `children`.
  - Record identities are natural numbers. A node is identified with its record.
  - Each method is proved against a function on a `Links` value: `UpdateParentSpec`,
    `Register` or `RegisterAll`.
  - The invariants are proved about these functions:
    - `Linked`: parent and children agree, and no node is its own child;
    - `Valid`: additionally, no registered record is still waited for.
  - `HierarchyRebuild` characterises the index that `RebuildNodes` leaves. `Built` says the
    links follow the records' prototypes. Every registration keeps it. The index after a
    rebuild is unique up to the order inside waiting lists, so the order of registration
    does not change the index. It does change the records' field values (`ResolvedInTurn`).
  - `Scenario` works one propagation through a three-record chain, where the middle record
    overrides the field that the root has just changed. It also shows a rebuild whose field
    values depend on the registration order.

## Model

| member | source | states |
|---|---|---|
| PropertyValues.CopyPropertyValueTo | Scripts/Editor/SerializedPropertyExtensions.cs:93-163 | a leaf of a handled type copied onto a leaf of the same type takes the source's value; a `Generic` (or other unhandled) source, or a target of another type, leaves the target as it was |
| PropertyValues.Resize | Scripts/Editor/SerializedPropertyExtensions.cs:72 | setting `arraySize` gives the source's length, keeps the target's existing elements and fills new slots with a duplicate of the last element (the source element when the target was empty) |
| PropertyValues.Copy | Scripts/Editor/SerializedPropertyExtensions.cs:68-91 | an array target ends with the source's length and element i is the copy of source element i onto the resized target's element i; a leaf is copied by the leaf copy; the target's shape and child names never change |
| PropertyValues.CopyNode | Scripts/Editor/SerializedPropertyExtensions.cs:78-85 | for nested records, every target child becomes the copy of the source child of the same relative name, and a target child with no such source child is left alone |
| PropertyValues.CopyWellFormed | Scripts/Editor/SerializedPropertyExtensions.cs:68-91 | copying between well-formed trees (unique child names) yields a well-formed tree |
| PropertyValues.CopyIdempotent | Scripts/Editor/SerializedPropertyExtensions.cs:68-91 | copying the same source a second time changes nothing |
| PropertyValues.CopySelf | Scripts/Editor/SerializedPropertyExtensions.cs:68-91 | copying a tree onto itself leaves it unchanged |
| PropertyValues.CopyDepth | Scripts/Editor/SerializedPropertyExtensions.cs:68-91 | the copy is no deeper than the deeper of source and target |
| PropertyValues.CopyPropertyTo | Scripts/Editor/SerializedPropertyExtensions.cs:68-91 | the in-place copy's result is exactly `Copy(source, target)` |
| PropertyValues.CopyArrayTo | Scripts/Editor/SerializedPropertyExtensions.cs:70-77 | the array branch (resize, then copy each index below the new size) computes `Copy` |
| PropertyValues.CopyChildrenTo | Scripts/Editor/SerializedPropertyExtensions.cs:78-86 | the nested branch (copy each source child into the target child found at its relative path) computes `Copy` |
| PropertyPaths.PrototypePath | Scripts/Editor/ComponentInfo/ComponentInfoPrototypeDrawer.cs:135-146 | there is no prototype path exactly when there is no prototype; otherwise the path is as long as the property path without the base path and its dot, plus `prototype.`; its content is stated for every field path by `PrototypePathOfField` |
| PropertyPaths.PrototypePathOfField | Scripts/Editor/ComponentInfo/ComponentInfoPrototypeDrawer.cs:141-145 | for a field reached by some steps below the base property, the rewritten path is the path of the same steps below the prototype asset's `prototype` field |
| PropertyPaths.ChildAt | Scripts/Editor/SerializedPropertyExtensions.cs:83 | a named child exists exactly when a nested record has a child of that name, an element exactly when the index is below the array's size, and the child is strictly shallower |
| PropertyPaths.LookupSnoc | Scripts/Editor/ComponentInfo/ComponentInfoPrototypeDrawer.cs:144-145 | finding a property by its whole path agrees with walking to its parent and then taking one child |
| Overrides.PropertyModifiedIndex | Scripts/Editor/ComponentInfo/ComponentInfoPrototypeDrawer.cs:192-201 | the result is the first index holding the path, or -1 exactly when the path is absent |
| Overrides.IsPropertyModified | Scripts/Editor/ComponentInfo/ComponentInfoPrototypeDrawer.cs:203-206 | holds exactly when the path occurs in the list |
| Overrides.SetModified | Scripts/Editor/ComponentInfo/ComponentInfoPrototypeDrawer.cs:208-224 | setting an absent path inserts it at index 0 ahead of the old list; clearing deletes the element at the first matching index; setting a flag to its current value changes nothing; no other path's membership changes; a list without duplicates stays so and then holds the path exactly when the flag is set |
| Overrides.SetPropertyModified | Scripts/Editor/ComponentInfo/ComponentInfoPrototypeDrawer.cs:208-224 | the in-place insert/delete yields `SetModified` |
| Overrides.SetThenClear | Scripts/Editor/ComponentInfo/ComponentInfoPrototypeDrawer.cs:208-224 | marking an absent path and then clearing it restores a duplicate-free list |
| Resolution.PrototypeProperty | Scripts/Editor/ComponentInfo/ComponentInfoPrototypeDrawer.cs:135-146 | there is no prototype property without a prototype, and a found one is well formed |
| Resolution.PrototypePropertySnoc | Scripts/Editor/ComponentInfo/ComponentInfoPrototypeDrawer.cs:142-145 | the prototype property of a child is the corresponding child of the parent's prototype property, and it is shallower |
| Resolution.ResolveAt | Scripts/Editor/ComponentInfo/ComponentInfoPrototypeDrawer.cs:167-185 | visiting a field keeps it well formed, of the same shape and with the same child names |
| Resolution.ResolveChildren | Scripts/Editor/ComponentInfo/ComponentInfoPrototypeDrawer.cs:181-184 | visiting every child keeps the tree well formed, the same shape, the same child names and the same array length |
| Resolution.Resolve | Scripts/Editor/ComponentInfo/ComponentInfoPrototypeDrawer.cs:159-165 | resolving a record's field tree keeps it well formed with the same top-level names |
| Resolution.NoPrototypeUnchanged | Scripts/Editor/ComponentInfo/ComponentInfoPrototypeDrawer.cs:170-179 | where the prototype has no such property (or there is no prototype), the field and everything below it are left as they are |
| Resolution.InheritedIsCopy | Scripts/Editor/ComponentInfo/ComponentInfoPrototypeDrawer.cs:169-184 | an unflagged field with a prototype property ends as the copy of that prototype property onto it |
| Resolution.OverriddenLeafKept | Scripts/Editor/ComponentInfo/ComponentInfoPrototypeDrawer.cs:169-179 | a flagged leaf keeps its own value; in the source this holds only for kinds without sub-properties (see "Left out") |
| Resolution.FlaggedArrayElements | Scripts/Editor/ComponentInfo/ComponentInfoPrototypeDrawer.cs:167-185 | in the model, a flagged array keeps its length; each element that the prototype's array also has and that is not flagged becomes the copy of the prototype's element onto it, and an element past the prototype's length keeps its value (the source differs, see below) |
| Resolution.CopyIsResolved | Scripts/Editor/ComponentInfo/ComponentInfoPrototypeDrawer.cs:178-184 | once a field has been copied from its prototype property, visiting its children changes nothing more |
| Resolution.ResolveIdempotent | Scripts/Editor/ComponentInfo/ComponentInfoPrototypeDrawer.cs:167-185 | visiting a field twice against the same prototype gives the same result as once |
| Resolution.ResolveChildrenIdempotent | Scripts/Editor/ComponentInfo/ComponentInfoPrototypeDrawer.cs:181-184 | visiting the children twice gives the same result as once |
| Resolution.ResolveSettles | Scripts/Editor/ComponentInfo/ComponentInfoPrototypeDrawer.cs:148-188 | resolving a resolved record again against the same prototype changes nothing |
| Resolution.ResolveWithoutPrototype | Scripts/Editor/ComponentInfo/ComponentInfoPrototypeDrawer.cs:138-139 | without a prototype no field is copied |
| Resolution.UpdateLocalProperty | Scripts/Editor/ComponentInfo/ComponentInfoPrototypeDrawer.cs:167-185 | the recursive visit computes `ResolveAt` and leaves the override list as it was (it only re-sets each flag to its current value) |
| Resolution.UpdateChildren | Scripts/Editor/ComponentInfo/ComponentInfoPrototypeDrawer.cs:181-184 | the loop over a property's children computes `ResolveChildren` and leaves the override list as it was |
| Resolution.UpdateFields | Scripts/Editor/ComponentInfo/ComponentInfoPrototypeDrawer.cs:159-165 | visiting each child of a nested record in order computes `ResolveChildren` and leaves the override list as it was |
| Resolution.UpdateElements | Scripts/Editor/ComponentInfo/ComponentInfoPrototypeDrawer.cs:181-184 | visiting each element of an array in order computes `ResolveChildren` and leaves the override list as it was |
| PrototypeDrawer.PrototypeOf | Scripts/ComponentInfo/ComponentInfoPrototype.cs:27 | a record's prototype is the record of the referenced asset exactly when the reference is set and the asset exists |
| PrototypeDrawer.Resolved | Scripts/Editor/ComponentInfo/ComponentInfoPrototypeDrawer.cs:148-188 | resolving a record changes only that record's field tree; a record that does not exist leaves the table as it is |
| PrototypeDrawer.ResolvedWithoutPrototype | Scripts/Editor/ComponentInfo/ComponentInfoPrototypeDrawer.cs:138-139 | a record without a prototype is left as it is |
| PrototypeDrawer.ResolvedSettles | Scripts/Editor/ComponentInfo/ComponentInfoPrototypeDrawer.cs:148-188 | after UpdateProperty a record whose prototype is another record is settled: resolving it again would change nothing |
| PrototypeDrawer.SettledFrame | Scripts/Editor/ComponentInfo/ComponentInfoPrototypeDrawer.cs:167-185 | whether a record is settled depends only on that record and its prototype's record |
| PrototypeDrawer.RecordTable.UpdateProperty | Scripts/Editor/ComponentInfo/ComponentInfoPrototypeDrawer.cs:148-188 | the stored records become `Resolved(old records, id)` |
| PrototypeDrawer.IsValidParent | Scripts/Editor/ComponentInfo/ComponentInfoPrototypeDrawer.cs:49-76 | accepts exactly when the record is owned by a component, or the candidate's prototype chain (candidate included) never reaches the record itself |
| PrototypeDrawer.AcceptedPrototypeKeepsAcyclic | Scripts/Editor/ComponentInfo/ComponentInfoPrototypeDrawer.cs:49-76 | writing a prototype the check accepts keeps every prototype chain finite |
| PrototypeDrawer.ChainNamesAssets | Scripts/ComponentInfo/ComponentInfoPrototype.cs:25-27 | when every live reference names an asset's record, so does every step of a chain that starts from such a reference |
| PrototypeDrawer.ComponentChoiceKeepsAcyclic | Scripts/Editor/ComponentInfo/ComponentInfoPrototypeDrawer.cs:51-54 | a component's record never lies on a chain that starts from an asset reference, so any asset it takes as prototype keeps every chain finite |
| PrototypeDrawer.PrototypeWriteNamesAssets | Scripts/ComponentInfo/ComponentInfoPrototype.cs:25 | writing a reference to an asset (or null) keeps every live reference naming an asset |
| PrototypeDrawer.ResolvedNamesAssets | Scripts/Editor/ComponentInfo/ComponentInfoPrototypeDrawer.cs:148-188 | resolving fields changes no owner and no reference |
| PrototypeDrawer.ResolvedKeepsAcyclic | Scripts/Editor/ComponentInfo/ComponentInfoPrototypeDrawer.cs:148-188 | resolving fields never changes a prototype chain |
| PrototypeField.ChangePrototype | Scripts/Editor/ComponentInfo/ComponentInfoPrototypeDrawer.cs:19-32 | a new prototype is accepted exactly as IsValidParent says; a rejected one leaves records and index unchanged; an accepted one is written to the record, which then goes through UpdateHierarchy; the index stays valid; every prototype chain stays finite, for an asset by the check and for a component because the field holds only assets, and every live reference still names an asset |
| Hierarchy.UpdateParentSpec | Scripts/Editor/ComponentInfo/ComponentInfoHierarchy.cs:42-78 | UpdateParent never adds or removes nodes or children entries. Its branches: nothing changes when the node is already linked to its registered prototype (`UpdateParentIdempotent`); otherwise it is relinked to that prototype, and a record naming itself gets a parent link but no child entry (`RelinkEffect`); with an unregistered prototype it is queued, with no duplicate check (`QueueEffect`, `QueueTwice`); without a prototype it is detached and becomes a root (`DetachEffect`) |
| Hierarchy.UpdateParentKeepsLinked | Scripts/Editor/ComponentInfo/ComponentInfoHierarchy.cs:42-78 | parent and children stay in agreement, no node becomes its own child, and a new waiting key is never a registered record |
| Hierarchy.RelinkEffect | Scripts/Editor/ComponentInfo/ComponentInfoHierarchy.cs:46-55 | relinking to a registered prototype sets the parent, puts the node in that node's children (unless it is itself) and in no other node's, takes it out of the roots, and leaves every other parent link and the waiting map alone |
| Hierarchy.DetachEffect | Scripts/Editor/ComponentInfo/ComponentInfoHierarchy.cs:72-77 | without a prototype the node leaves its parent's children, has no parent and becomes a root; no other parent link changes |
| Hierarchy.QueueEffect | Scripts/Editor/ComponentInfo/ComponentInfoHierarchy.cs:57-70 | with an unregistered prototype the node is appended to that key's waiting list (created if absent); parent links, children and roots are untouched |
| Hierarchy.UpdateParentIdempotent | Scripts/Editor/ComponentInfo/ComponentInfoHierarchy.cs:44-49 | with a registered prototype or none, a second UpdateParent changes nothing |
| Hierarchy.QueueTwice | Scripts/Editor/ComponentInfo/ComponentInfoHierarchy.cs:59-62 | a node queued twice waits twice, since there is no duplicate check |
| Hierarchy.Drain | Scripts/Editor/ComponentInfo/ComponentInfoHierarchy.cs:130-135 | relinking the waiting nodes in order keeps the links in agreement and the node table unchanged |
| Hierarchy.Created | Scripts/Editor/ComponentInfo/ComponentInfoHierarchy.cs:17-19 | a new node starts with an empty children set and no parent; no other node's parent and no root changes |
| Hierarchy.Registered | Scripts/Editor/ComponentInfo/ComponentInfoHierarchy.cs:127 | the new node is linked by its constructor, then entered in the node table, which gains exactly that record |
| Hierarchy.Register | Scripts/Editor/ComponentInfo/ComponentInfoHierarchy.cs:119-140 | UpdateHierarchy keeps the index valid and adds exactly the record; afterwards nothing waits for it |
| Hierarchy.Drained | Scripts/Editor/ComponentInfo/ComponentInfoHierarchy.cs:130-137 | after draining and removing the entry the index is valid and nothing waits for the record |
| Hierarchy.DrainSamePrototypes | Scripts/Editor/ComponentInfo/ComponentInfoHierarchy.cs:128-135 | resolving the new record before the drain does not affect how the waiting nodes are relinked |
| Hierarchy.RegisterAll | Scripts/Editor/ComponentInfo/ComponentInfoHierarchy.cs:167-176 | registering a sequence of records keeps the index valid; a record is registered afterwards exactly when it was before or is in the sequence; no record is added to or removed from the table |
| Hierarchy.SiblingsDisjoint | Scripts/Editor/ComponentInfo/ComponentInfoHierarchy.cs:80-87 | in an acyclic index the subtrees of two children of a node share no node |
| Hierarchy.PropagatedBelow | Scripts/Editor/ComponentInfo/ComponentInfoHierarchy.cs:80-87 | UpdateChildrenSerialization's promise holds exactly when only the records below the node change, and only in their field trees, and, when every record below it names its parent node as prototype, each of them ends as its tree before the call resolved once by UpdateProperty against its prototype's final record: a flagged field without sub-properties keeps its stored value and an inherited one takes the prototype's |
| Hierarchy.PropagateStep | Scripts/Editor/ComponentInfo/ComponentInfoHierarchy.cs:82-86 | one turn of the loop (UpdateProperty on a child, then the child's own propagation) adds the child and its subtree to the region whose records are their stored trees resolved once against their prototypes' final records, and changes nothing outside that region |
| Hierarchy.PropagatedSettles | Scripts/Editor/ComponentInfo/ComponentInfoHierarchy.cs:80-87 | after propagation every record below the node is settled: resolving it again would change nothing |
| HierarchyIndex.ComponentInfoHierarchy.constructor | Scripts/Editor/ComponentInfo/ComponentInfoHierarchy.cs:113-114 | the index starts empty |
| HierarchyIndex.ComponentInfoHierarchy.AddChild | Scripts/Editor/ComponentInfo/ComponentInfoHierarchy.cs:89-95 | a node is added to another node's children and never to its own |
| HierarchyIndex.ComponentInfoHierarchy.RemoveChild | Scripts/Editor/ComponentInfo/ComponentInfoHierarchy.cs:97-100 | the child leaves the node's children; nothing else changes |
| HierarchyIndex.ComponentInfoHierarchy.UpdateParent | Scripts/Editor/ComponentInfo/ComponentInfoHierarchy.cs:42-78 | the in-place update yields `UpdateParentSpec` of the old state and keeps the links in agreement |
| HierarchyIndex.ComponentInfoHierarchy.Relink | Scripts/Editor/ComponentInfo/ComponentInfoHierarchy.cs:50-55 | the node leaves its old parent's children, gets the new parent, joins its children (unless it is itself) and leaves the roots |
| HierarchyIndex.ComponentInfoHierarchy.Enqueue | Scripts/Editor/ComponentInfo/ComponentInfoHierarchy.cs:60-69 | the node is appended to the waiting list of the prototype, which is created when absent; nothing else changes |
| HierarchyIndex.ComponentInfoHierarchy.MakeRoot | Scripts/Editor/ComponentInfo/ComponentInfoHierarchy.cs:74-76 | the node leaves its parent's children, loses its parent and becomes a root |
| HierarchyIndex.ComponentInfoHierarchy.UpdateHierarchy | Scripts/Editor/ComponentInfo/ComponentInfoHierarchy.cs:119-140 | the index becomes `Register` of the old one; a new record is resolved once, and a known record's fields are untouched |
| HierarchyIndex.ComponentInfoHierarchy.CreateNode | Scripts/Editor/ComponentInfo/ComponentInfoHierarchy.cs:127 | creating, linking and entering the node yields `Registered` |
| HierarchyIndex.ComponentInfoHierarchy.RelinkWaiting | Scripts/Editor/ComponentInfo/ComponentInfoHierarchy.cs:130-137 | the loop over the waiting nodes and the removal yield `Drained` |
| HierarchyIndex.ComponentInfoHierarchy.RebuildNodes | Scripts/Editor/ComponentInfo/ComponentInfoHierarchy.cs:160-189 | after clearing everything and registering the given records in order, the index and the records are `RegisterAll` of an empty index, and the index is `Rebuilt`: built from the records' prototypes, as `RebuildLinks` spells out |
| HierarchyIndex.ComponentInfoHierarchy.RegisterEach | Scripts/Editor/ComponentInfo/ComponentInfoHierarchy.cs:171-176 | registering each record in turn through UpdateHierarchy yields `RegisterAll` of the index and records it started from |
| HierarchyRebuild.DrainEffect | Scripts/Editor/ComponentInfo/ComponentInfoHierarchy.cs:130-135 | relinking, in order, waiting nodes that name the new record as prototype gives each of them that record as parent and takes it out of the roots; no other parent link, no node and no waiting list changes |
| HierarchyRebuild.RegisteredEffect | Scripts/Editor/ComponentInfo/ComponentInfoHierarchy.cs:21-26 | a new record's constructor links it to its registered prototype, makes it a root without one, or queues it for an unregistered one (itself included); the node table gains exactly that record |
| HierarchyRebuild.RegisterBuilds | Scripts/Editor/ComponentInfo/ComponentInfoHierarchy.cs:119-140 | UpdateHierarchy keeps the index built from the records' prototypes: a record has a parent exactly when its prototype is registered, and it is that prototype; the roots are the registered records without a prototype; a record with an unregistered prototype waits for it, and waiting lists are nonempty and name only records of that prototype |
| HierarchyRebuild.RegisterAllBuilds | Scripts/Editor/ComponentInfo/ComponentInfoHierarchy.cs:171-176 | registering a sequence of records in order keeps the index built from the prototypes the loop started with |
| HierarchyRebuild.RebuildBuilt | Scripts/Editor/ComponentInfo/ComponentInfoHierarchy.cs:159-176 | a rebuild from an empty index registers exactly the given records and leaves the index built |
| HierarchyRebuild.Rebuilt | Scripts/Editor/ComponentInfo/ComponentInfoHierarchy.cs:159-176 | the index a rebuild leaves is built from the records' prototypes and holds exactly the given records |
| HierarchyRebuild.RebuildLinks | Scripts/Editor/ComponentInfo/ComponentInfoHierarchy.cs:42-78 | after a rebuild each registered record is a root exactly when it has no prototype; is the child of its prototype's node when that is registered (a record naming itself is its own parent but not its own child); and otherwise waits for its prototype |
| HierarchyRebuild.BuiltUnique | Scripts/Editor/ComponentInfo/ComponentInfoHierarchy.cs:42-78 | two indexes built over the same registered records have the same parents, children, roots and waiting keys, and the same members in each waiting list |
| HierarchyRebuild.RebuildOrderIrrelevant | Scripts/Editor/ComponentInfo/ComponentInfoHierarchy.cs:171-176 | the order in which the records are registered does not change the index, except for the order inside waiting lists: parents, children, roots, waiting keys and the members of each waiting list are the same (the field values can differ, see `Scenario.RebuildOrderMatters`) |
| HierarchyRebuild.ResolvedInTurn | Scripts/Editor/ComponentInfo/ComponentInfoHierarchy.cs:119-140 | resolving each newly registered record in turn keeps every record well formed and stores the same records (what it computes is tied to RebuildNodes by `RegisterAllRecords`, and shown to depend on order by `ForwardRecords` and `BackwardRecords`) |
| HierarchyRebuild.RegisterAllRecords | Scripts/Editor/ComponentInfo/ComponentInfoHierarchy.cs:130-137 | the records the registration loop leaves depend on the index only through the set of registered records: draining a waiting list resolves nothing |
| HierarchyRebuild.ForwardRecords | Scripts/Editor/ComponentInfo/ComponentInfoHierarchy.cs:127-128 | registering 0, 1, 2 when 0 has no prototype resolves record 2 against record 1 as just resolved |
| HierarchyRebuild.BackwardRecords | Scripts/Editor/ComponentInfo/ComponentInfoHierarchy.cs:127-135 | registering 2, 1, 0 resolves record 2 against the stored record 1, and nothing resolves it again |
| Scenario.ChainCoherent | Scripts/Editor/ComponentInfo/ComponentInfoHierarchy.cs:80-87 | in the chain R0 ← R1 ← R2 both R1 and R2 are below R0, and each names its parent node as prototype |
| Scenario.OverrideKept | Scripts/Editor/ComponentInfo/ComponentInfoPrototypeDrawer.cs:169-179 | R1's flagged `x` keeps its stored value whatever its prototype now holds |
| Scenario.InheritedFromR1 | Scripts/Editor/ComponentInfo/ComponentInfoPrototypeDrawer.cs:169-184 | R2's unflagged `x` is recomputed from R1's 99, replacing its stale 10; R0's value plays no part |
| Scenario.ChainPropagation | Scripts/Editor/ComponentInfo/ComponentInfoHierarchy.cs:80-87 | after propagation from R0, whose `x` changed to 20, R0 is untouched, R1 keeps its overridden 99, and R2's stale 10 becomes 99, read from R1 |
| Scenario.InheritX | Scripts/Editor/ComponentInfo/ComponentInfoPrototypeDrawer.cs:169-184 | a record that overrides nothing takes its prototype's `x`, whatever its own |
| Scenario.ForwardRebuild | Scripts/Editor/ComponentInfo/ComponentInfoHierarchy.cs:119-140 | registering the fresh chain R0, R1, R2 in this order leaves R2 with R0's value |
| Scenario.BackwardRebuild | Scripts/Editor/ComponentInfo/ComponentInfoHierarchy.cs:119-140 | registering it as R2, R1, R0 leaves R2 with R1's stored value |
| Scenario.RebuildOrderMatters | Scripts/Editor/ComponentInfo/ComponentInfoHierarchy.cs:159-176 | the two registration orders of the same records leave different field values |
| HierarchyIndex.ComponentInfoHierarchy.UpdateChildrenSerialization | Scripts/Editor/ComponentInfo/ComponentInfoHierarchy.cs:80-87 | the records end `Propagated` from the node (characterised by `PropagatedBelow`): only records below the node change, and only in their field trees; when every record below it names its parent node as prototype, each of them is its tree before the call resolved once against its prototype's final record |
| HierarchyIndex.ComponentInfoHierarchy.VisitChild | Scripts/Editor/ComponentInfo/ComponentInfoHierarchy.cs:82-86 | UpdateProperty on one child and then its own propagation: the region resolved from the stored trees grows by that child and its subtree, and nothing outside it changes (`PropagateStep`) |
| HierarchyIndex.ComponentInfoHierarchy.UpdateChildrenProperties | Scripts/Editor/ComponentInfo/ComponentInfoHierarchy.cs:142-148 | nothing happens for an unregistered record; otherwise the records end `Propagated` from its node, as `PropagatedBelow` characterises |
| ObjectPaths.GetField | Scripts/Editor/SerializedPropertyExtensions.cs:46-57 | the first type in the base-type chain that declares the name, or none exactly when no type declares it |
| ObjectPaths.GetValue | Scripts/Editor/SerializedPropertyExtensions.cs:34-44 | null for a null source or an undeclared field; otherwise the value held by the first declaration |
| ObjectPaths.GetValueAt | Scripts/Editor/SerializedPropertyExtensions.cs:59-66 | the enumerator advanced index+1 times yields the 0-based element at `index`, and nothing when the field is not a collection or the index is outside it |
| ObjectPaths.ReplaceWithoutBracket | Scripts/Editor/SerializedPropertyExtensions.cs:15 | a path without `[` is left as it is by the `.Array.data[` rewrite |
| ObjectPaths.Split | Scripts/Editor/SerializedPropertyExtensions.cs:17 | splitting gives at least one piece, and no piece contains the separator |
| ObjectPaths.JoinSplit | Scripts/Editor/SerializedPropertyExtensions.cs:17 | joining the pieces of a split gives back the path |
| ObjectPaths.SplitJoin | Scripts/Editor/SerializedPropertyExtensions.cs:17 | splitting a join of separator-free pieces gives back the pieces |
| ObjectPaths.ToInt32 | Scripts/Editor/SerializedPropertyExtensions.cs:23 | a converted value is within 32 bits, and every decimal numeral of a value within 32 bits converts to that value |
| ObjectPaths.ParseSegment | Scripts/Editor/SerializedPropertyExtensions.cs:20-23 | a segment without `[` is a plain name; an indexed segment's name is the text before its first `[` |
| ObjectPaths.ParseIndexedSegment | Scripts/Editor/SerializedPropertyExtensions.cs:20-23 | the segment `name[k]` parses back to the name and k |
| ObjectPaths.ParentSegments | Scripts/Editor/SerializedPropertyExtensions.cs:15-18 | the segments followed are the dot-free pieces of the normalised path, all but the last |
| ObjectPaths.GetParent | Scripts/Editor/SerializedPropertyExtensions.cs:13-32 | the loop's object is the walk from the target along all but the last segment, or nothing where a step would throw |
| ObjectPaths.ParentOfPlainPath | Scripts/Editor/SerializedPropertyExtensions.cs:15-18 | for a path of plain field names, the segments followed are exactly the names before the last |

## Left out

- UI layout is not modelled. This covers the rectangle and height arithmetic of `OnGUI`, `DrawProperty`, `GetPropertyHeight`, and the toggles, disabled groups and indent levels. Only the accept/revert decision of `OnGUI` is modelled.
- The flush at the end of `OnGUI`, which applies modified properties and then propagates, is not modelled as its own member. Its effect is `UpdateChildrenProperties`.
- The static delegates `OnUpdateHierarchy` and `UpdateChildrenProperties` are not modelled. They become direct calls.
- Host enumeration and Unity's lifecycle are not modelled: `AssetDatabase`, `FindObjectsOfType`, `OnEnable` and the scene hooks. `RebuildNodes` takes the records to register as a sequence: the assets in enumeration order, then the scene's components (`UpdateSceneNodes`).
- `RebuildNodes` builds fresh node objects, and the old ones become unreachable. The model empties the parent and children maps, which has the same effect.
- Debug logging, `PrintDebug`/`DebugNodes` and the `Stopwatch` are not modelled.
- Reflection is reduced to per-type field maps. Enumerators are reduced to sequences. A step that would throw, such as a non-collection, a bad index or a failed integer conversion, becomes `None`.
- Unity's cursor iteration (`GetChildren`, `Next`) is modelled as the direct children of a tree node, in order.
- Leaf payloads are opaque integers compared only by equality. Floats, colours, vectors and curves are not modelled.
- Resolution.OverriddenLeafKept: holds in the source only for kinds without sub-properties. Vector2, Vector3, Vector4, Vector2Int, Vector3Int, Rect, RectInt, Color, Quaternion, Bounds and BoundsInt are leaves in the model, but Unity's `Next(true)` enters their sub-properties (x, y, z, w; r, g, b, a; x, y, width, height; m_Center, m_Extent). `GetChildren` yields those, nothing flags them, and the walk copies each from the prototype. So in the source a flagged field of one of these kinds ends equal to its prototype's, while the model keeps its stored value.
- `SerializedObject.UpdateIfRequiredOrScript` is not modelled. The stored record is always current.
- Object identity is not modelled. Records are numbered, and an asset's number is the number of its record.
- PropertyValues.Copy: the source throws when a nested source child has no counterpart in the target, because `FindPropertyRelative` returns null. The model skips that child.
- PropertyValues.Copy: when the source is an array and the target is not, the target is left unchanged. This is what Unity does when `arraySize` is set on a non-array.
- PropertyValues.Resize: Unity's fill of new array slots is taken to duplicate the last element. An empty target takes the source element. The source does not show this behaviour.
- Resolution.ResolveChildren: `arraySize` and the `Array` property that Unity places between an array and its elements are not separate properties in the model. In the source, `GetChildren` yields that `Array` property as the array's only child. Nothing ever flags it, so the walk copies it from the prototype even when the array itself is flagged, and the copy replaces the array's length and all of its elements. The model visits the elements directly instead: a flagged array keeps its own length, and only its unflagged elements are copied (FlaggedArrayElements).
- ObjectPaths.ToInt32: surrounding whitespace, which `Convert.ToInt32` tolerates, is not modelled. Only the digit forms are characterised; other accepted inputs are left open.
- ObjectPaths.ParseSegment: only segments that came from `Array.data[k]` are characterised exactly (see ParseIndexedSegment). Stray brackets inside a name are not characterised further.
- ObjectPaths.ParentOfPlainPath: the end-to-end statement covers plain field names only. Indexed segments are covered separately by ParseIndexedSegment and GetValueAt.
- HierarchyIndex.ComponentInfoHierarchy.UpdateChildrenSerialization requires children links without a cycle, because the source recurses forever on one. A cycle is possible: a node can keep a stale parent while it waits for an unregistered prototype, and that parent can later take the node's record as its prototype. The method promises that each record below the node ends as its stored tree resolved once against its prototype's final record only when every record below the node names its parent node as prototype.
- HierarchyIndex.ComponentInfoHierarchy.UpdateChildrenProperties carries the same acyclicity requirement.
- PrototypeDrawer.IsValidParent requires what the source needs in order to stop: the candidate's chain reaches null or the record itself. Otherwise the source loops forever.
- PrototypeField.ChangePrototype promises finite chains for a component's record only when every live reference names an asset's record, the chosen one included (RefsNameAssets, NamesAsset). In the source this holds by the field's type, `ComponentInfoAsset<T>`, which the model does not have. The change keeps the property.
- The order in which the children set yields its elements is not modelled: `UpdateChildrenSerialization` visits them in any order.

Where the code differs from what one might expect, the model follows the code:
- When a node's prototype changes to one that is not registered, the node keeps its old parent and root status while it waits.
- A record whose prototype is itself gets `parent[n] == n` without a children link.
- Draining a waiting list only relinks the waiting nodes. It does not resolve them.
- A field that is inherited is overwritten as a whole, including any flagged fields below it (`InheritedIsCopy`). The later visit of those flagged fields does not restore their values.
- The field values a rebuild leaves depend on the order in which the records are enumerated. A new record is resolved against its prototype's record as it stands at that moment, and the drain of a waiting list relinks nodes without resolving them. Registering a chain from its root resolves every record against an already resolved prototype. Registering it from its leaf resolves the leaf against a prototype not yet resolved, and nothing resolves the leaf again (`ForwardRecords`, `BackwardRecords`, `Scenario.RebuildOrderMatters`).

Places where the model does not follow the code: in the source, overriding an array does not keep its elements. The walk reaches the array's `Array` property, which is never flagged, and copies it from the prototype, length included. The model keeps a flagged array's length and copies only its unflagged elements (see `FlaggedArrayElements` and "Left out"). The same mechanism applies to a flagged Vector, Rect, Color, Quaternion or Bounds field: the source overwrites it from its prototype through its unflagged sub-properties, while the model keeps it (see `OverriddenLeafKept` and "Left out").
