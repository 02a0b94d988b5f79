# Preflight checklists — a Dafny model of the data core

Preflight manages hierarchical checklists.
- A **workspace** holds **templates**.
- A template holds **checklist items** that form a forest through their `parentId` references.
- Starting a template creates a **record**, a timed run that owns an unchecked snapshot of the template's items.

This project models the logic behind those entities:

- **Check cascade** (`src/lib/utils/checkboxTree.ts`). It sets one item, forces every descendant to the same state, and walks up the parent chain recomputing each ancestor from its children. The project also models the recursive "indeterminate" predicate.
- **Tree builder** (`tree` in `src/lib/stores/items.svelte.ts`). It turns the flat item map into an ordered forest of `ViewItem`s.
- **Four stores** (workspaces, templates, items, records). They are classes over the four tables of the application database (`src/lib/db/index.ts`); each table is a map from primary key to row. Each store method states the complete new contents of the tables it may change.
- **Import validator** and the export document of `src/lib/utils/json.ts`.

## Properties proved

All lemmas with assumptions ("well-formed") carry them as `requires`.

- **Cascade, per toggle.** The target gets the new flag and stamp. Every descendant gets the same. Every ancestor ends up checked exactly when all its direct children are checked. Nothing else changes.
- **Cascade invariant.** "Checked iff all children checked" is preserved by every toggle.
- **Tree round-trip.** Flattening the built forest lists every item of the map exactly once with all its fields. Roots and each node's children are the right items, in non-decreasing `order`, with equal orders kept in input order.
- **Deletes.** An item delete removes exactly the item and its descendants. Template and workspace deletes leave no item whose template is gone.
- **Reorders.** A reorder gives the item (or workspace) at position `i` the order `i`.
- **Import.** Import succeeds exactly when the version is `"1.0"` and the required fields are present. Exporting and then importing gives back the exported data.

Module layout:

| file | module | source |
|---|---|---|
| types.dfy | `Types` | `src/lib/types/index.ts`, and the `reduce` maximum of the stores |
| db.dfy | `Database` | `src/lib/db/index.ts` and the table operations |
| hierarchy.dfy | `Hierarchy` | parent links, ancestor chains, descendants |
| checkbox_tree.dfy, checkbox_tree_lemmas.dfy | `CheckboxTree`, `CheckboxTreeLemmas` | `src/lib/utils/checkboxTree.ts` |
| item_tree.dfy | `ItemTree` | the `tree` derivation |
| items_store.dfy | `ItemStore` | `src/lib/stores/items.svelte.ts` |
| records_store.dfy | `RecordStore` | `src/lib/stores/records.svelte.ts` |
| templates_store.dfy | `TemplateStore` | `src/lib/stores/templates.svelte.ts` |
| workspace_store.dfy | `WorkspaceStore` | `src/lib/stores/workspace.svelte.ts` |
| json.dfy | `Json` | `src/lib/utils/json.ts` |

### Modelling conventions

**Parent links.** A parent reference is followed only when it is truthy and names an item of the same map. The builder (`item.parentId && itemMap[item.parentId]`) and the upward walk both follow it that way. Children are found by strict equality `parentId == Some(x)`, as the source's `===`.

**Acyclicity.** `Hierarchy.Acyclic` says every parent chain reaches a root within as many steps as there are items.
- `Forest`: the map is keyed by item id, the empty id is not a key, and the map is acyclic.
- `WellFormed`: `Forest`, and every truthy parent reference names an item.

**Iteration order.** `Object.values(this.items)` follows an engine-defined order. `ItemStore.Tree` takes that list as a parameter (`flat`), together with the requirement that it lists the map exactly.

**Missing fields.** `order ?? -1` makes a template's or a workspace's `order` an `Option<int>`. Optional fields (`completedAt`, `resumedAt`, `updatedAt`) are `Option<int>`.

**Re-toggles and the check invariant.**
- Re-toggling an item to its current state is not a no-op. Checking a checked item keeps every flag but refreshes the stamps (`CheckboxTreeLemmas.RecheckKeepsFlags`). Unchecking an unchecked item with a checked child unchecks the child (`CheckboxTreeLemmas.UncheckingUnchecksChildren`).
- After a toggle, every ancestor of the target is checked exactly when all its children are (`CheckboxTreeLemmas.ToggledAncestors`). Every other parent satisfies this only if it did before the toggle (`CheckboxTreeLemmas.ToggledKeepsInvariant`).

## Model

| member | source | states |
|---|---|---|
| Types.MaxOrder | src/lib/stores/items.svelte.ts:62 | the maximum seeded with -1: at least -1, no order exceeds it, and it is -1 or one of the orders |
| Types.NextOrder | src/lib/stores/workspace.svelte.ts:41-46 | the order of a new row is non-negative, above every existing order (a missing order counts as -1), and is 0 or one past an existing order |
| Database.Db.constructor | src/lib/db/index.ts:6-9 | the four tables start empty |
| Database.Db.Restore | src/lib/stores/workspace.svelte.ts:91-120 | an aborted transaction leaves every table exactly as it was when the transaction began |
| Database.WithoutComposes | src/lib/stores/workspace.svelte.ts:67-70 | deleting one key set and then another removes the same rows as one delete of both, which is what lets the per-template delete loop add up to one delete |
| Database.ItemsOfDeleted | src/lib/stores/templates.svelte.ts:59 | after deleting what `where('templateId')` selects, no item of those templates remains and every item of another template is still there, unchanged |
| Database.TemplatesOfDeleted | src/lib/stores/workspace.svelte.ts:71 | after deleting what `where('workspaceId')` selects, no template of that workspace remains and every template of another workspace is still there, unchanged |
| Database.PutAllSnoc | src/lib/stores/workspace.svelte.ts:113-115 | one more `put` in a sequence of puts overwrites the row's key with the row |
| Database.PutAllAt | src/lib/stores/workspace.svelte.ts:108-119 | after a sequence of puts a key holds the last row put under it, otherwise its old row, and no key appears from nowhere |
| Database.LastIndexOf | src/lib/stores/items.svelte.ts:98-104 | the last position of an id in a list, -1 exactly when absent, which is the position whose update survives in a loop of updates |
| Hierarchy.AncestorsStep | src/lib/utils/checkboxTree.ts:38-50 | the ancestor chain of an item is empty at a root and otherwise is its parent followed by the parent's chain, never longer than the map |
| Hierarchy.AncestorsNoDup | src/lib/utils/checkboxTree.ts:39-51 | an item and its ancestors are pairwise distinct, so the upward walk visits each ancestor once and stops |
| Hierarchy.AncestorsDisjointFromDescendants | src/lib/utils/checkboxTree.ts:22-51 | no ancestor of an item is the item or one of its descendants, so the downward and upward phases touch disjoint items |
| Hierarchy.ChildRank | src/lib/utils/checkboxTree.ts:31 | recursing from an item into a child decreases the measure, so the recursive descents terminate on an acyclic map |
| Hierarchy.UnderChildren | src/lib/utils/checkboxTree.ts:23-35 | the items reached by recursing from the children of an item are exactly its descendants |
| Hierarchy.SiblingsDisjoint | src/lib/stores/items.svelte.ts:84-91 | two different children of one item head disjoint subtrees |
| Hierarchy.DescendantParent | src/lib/utils/checkboxTree.ts:25 | the parent of a descendant of `x` is `x` or another descendant of `x` |
| CheckboxTree.Toggle | src/lib/utils/checkboxTree.ts:7-54 | the returned map is the target set, then its descendants forced, then its ancestors recomputed nearest first (`Toggled`) |
| CheckboxTree.CascadeDown | src/lib/utils/checkboxTree.ts:23-35 | the recursive descent sets exactly the descendants of the start item to the flag and stamp and changes nothing else |
| CheckboxTree.PropagateUp | src/lib/utils/checkboxTree.ts:37-51 | the `while (currentParentId)` walk recomputes each ancestor, nearest first, from its children as they stand after the previous levels |
| CheckboxTree.IsIndeterminate | src/lib/utils/checkboxTree.ts:59-72 | an item with no children is not indeterminate, and one whose children are partly checked is |
| CheckboxTree.MarkFirst | src/lib/utils/checkboxTree.ts:15-20 | setting the target changes only its flag and stamp; the parent structure is unchanged |
| CheckboxTree.DownDone | src/lib/utils/checkboxTree.ts:15-35 | after the first two phases exactly the target and its descendants carry the new flag and stamp, and the structure and ancestor chain are unchanged |
| CheckboxTree.UpStep | src/lib/utils/checkboxTree.ts:45-50 | one iteration of the upward walk is one more level of `Propagate` |
| CheckboxTree.WalkLinks | src/lib/utils/checkboxTree.ts:38-50 | reading `parentId` from the target onwards yields exactly the ancestor chain, and the walk's condition turns false exactly at its end |
| CheckboxTree.CascadeVisit | src/lib/utils/checkboxTree.ts:25-31 | marking one child and recursing into it extends the marked set by that child and its descendants |
| CheckboxTreeLemmas.PropagateShape | src/lib/utils/checkboxTree.ts:45-49 | the upward walk changes only flags and stamps |
| CheckboxTreeLemmas.PropagateAt | src/lib/utils/checkboxTree.ts:40-48 | an ancestor recomputed after all its children were settled ends checked exactly when all its children are, stamped accordingly |
| CheckboxTreeLemmas.ToggledShape | src/lib/utils/checkboxTree.ts:7-54 | a toggle keeps keys, ids, parents, texts and orders, and the map stays well formed |
| CheckboxTreeLemmas.ToggledFrame | src/lib/utils/checkboxTree.ts:7-54 | an item that is neither the target, nor below it, nor on its ancestor chain is unchanged |
| CheckboxTreeLemmas.ToggledTarget | src/lib/utils/checkboxTree.ts:15-20 | the target ends with the requested flag, stamped with `now` when checked and unstamped otherwise |
| CheckboxTreeLemmas.ToggledDescendants | src/lib/utils/checkboxTree.ts:22-35 | every transitive descendant ends with the target's flag and stamp |
| CheckboxTreeLemmas.ToggledAncestors | src/lib/utils/checkboxTree.ts:37-51 | every ancestor ends checked exactly when all its direct children are, stamped accordingly |
| CheckboxTreeLemmas.ToggledKeepsInvariant | src/lib/utils/checkboxTree.ts:7-54 | if every parent was checked exactly when all its children were, that still holds after the toggle |
| CheckboxTreeLemmas.CheckedBelow | src/lib/utils/checkboxTree.ts:41-48 | under that invariant every item below a checked item is checked |
| CheckboxTreeLemmas.RecheckKeepsFlags | src/lib/utils/checkboxTree.ts:7-54 | checking an already checked item changes no item's flag |
| CheckboxTreeLemmas.UncheckingUnchecksChildren | src/lib/utils/checkboxTree.ts:22-35 | a concrete well-formed map where unchecking an unchecked item unchecks its checked child |
| CheckboxTreeLemmas.IndeterminateStep | src/lib/utils/checkboxTree.ts:59-72 | indeterminate exactly when the children are partly checked or some child is indeterminate |
| CheckboxTreeLemmas.IndeterminateMeans | src/lib/utils/checkboxTree.ts:59-72 | indeterminate exactly when the children of the item, or of some item below it, are partly checked |
| CheckboxTreeLemmas.CheckedIsDeterminate | src/lib/utils/checkboxTree.ts:59-72 | under the invariant a checked item is never indeterminate |
| ItemTree.SortFacts | src/lib/stores/items.svelte.ts:26 | sorting by order yields a permutation of the list in non-decreasing order |
| ItemTree.SortStable | src/lib/stores/items.svelte.ts:26 | the sort is stable: for every order value, the items with that order come out in their input order |
| ItemTree.SelectSortCommute | src/lib/stores/items.svelte.ts:26-33 | filing from the sorted list under one parent gives the same list as sorting that parent's items taken in input order |
| ItemTree.NodeFrom | src/lib/stores/items.svelte.ts:22 | each node wraps its item and has one child per entry of the item's child list |
| ItemTree.SortedLists | src/lib/stores/items.svelte.ts:26 | the sorted list still lists every item exactly once |
| ItemTree.KidsFromSorted | src/lib/stores/items.svelte.ts:26-33 | filing the sorted items gives every item a child list holding once each exactly the items whose `parentId` is it |
| ItemTree.BuildRoots | src/lib/stores/items.svelte.ts:26-35 | the roots are exactly the items with no followed parent link, in non-decreasing order, and roots with equal order keep their input order |
| ItemTree.BuildChildren | src/lib/stores/items.svelte.ts:26-33 | each node carries its own item; its children are exactly the items whose `parentId` is it, in non-decreasing order, and children with equal order keep their input order |
| ItemTree.BuildListsItems | src/lib/stores/items.svelte.ts:15-36 | flattening the built forest lists every item of the map exactly once with all its fields (the round trip) |
| ItemStore.SiblingsElems | src/lib/stores/items.svelte.ts:61 | the sibling filter keeps exactly the items whose `parentId` equals the given one |
| ItemStore.NewItemOrder | src/lib/stores/items.svelte.ts:60-62 | a new item's order is non-negative, above every sibling's, and 0 or one past a sibling's |
| ItemStore.NewItemSortsLast | src/lib/stores/items.svelte.ts:61-71 | the item `add` builds sorts after every existing sibling, so sorting its sibling list with it appends it at the end |
| ItemStore.DeleteSetIsSubtree | src/lib/stores/items.svelte.ts:81-93 | the ids collected for deletion are exactly the item and its descendants |
| ItemStore.DeleteLeavesNoOrphans | src/lib/stores/items.svelte.ts:81-93 | no item left after the delete links to a deleted item |
| ItemStore.DeliveredItems | src/lib/stores/items.svelte.ts:44-48 | the map built from the delivered rows is keyed by item id and holds exactly the delivered ids |
| ItemStore.ReorderedItems | src/lib/stores/items.svelte.ts:96-106 | after a reorder the listed items take their position as order and the given parent, and all other items are unchanged |
| ItemStore.ReorderGivesPositions | src/lib/stores/items.svelte.ts:98-103 | with distinct ids the item at position `i` ends with order `i` |
| ItemStore.ReorderStep | src/lib/stores/items.svelte.ts:99-103 | one iteration of the reorder loop updates the next listed item, if stored |
| ItemStore.ItemStore.constructor | src/lib/stores/items.svelte.ts:11-12 | the store starts with no items and no template |
| ItemStore.ItemStore.Subscribe | src/lib/stores/items.svelte.ts:38-39 | subscribing records the template id |
| ItemStore.ItemStore.Deliver | src/lib/stores/items.svelte.ts:43-49 | a delivery replaces the item map with the rows keyed by id |
| ItemStore.ItemStore.MakeNodes | src/lib/stores/items.svelte.ts:20-23 | the first pass gives every item an empty child list |
| ItemStore.ItemStore.FileAll | src/lib/stores/items.svelte.ts:26-33 | the second pass files every sorted item under its parent, or as a root, in sorted order |
| ItemStore.ItemStore.Tree | src/lib/stores/items.svelte.ts:15-36 | the derived forest is `Build`, whose roots, children and round trip are proved above |
| ItemStore.ItemStore.Add | src/lib/stores/items.svelte.ts:55-75 | without a template nothing happens; a taken id is a constraint error; otherwise exactly the new item is added, with the next sibling order |
| ItemStore.ItemStore.FindChildren | src/lib/stores/items.svelte.ts:84-91 | the recursive search collects exactly the children of the item and everything below them |
| ItemStore.ItemStore.Delete | src/lib/stores/items.svelte.ts:81-94 | exactly the item and its descendants are removed from the items table |
| ItemStore.ItemStore.Reorder | src/lib/stores/items.svelte.ts:96-106 | the items table becomes the reordered table and no other table changes |
| RecordStore.SnapshotOnInsert | src/lib/stores/records.svelte.ts:34-36 | one iteration of the copy adds the item under its id, unchecked |
| RecordStore.Snapshot | src/lib/stores/records.svelte.ts:29-36 | the snapshot holds exactly the template's items, each unchecked and otherwise unchanged |
| RecordStore.SnapshotObeysInvariant | src/lib/stores/records.svelte.ts:33-36 | a fresh snapshot satisfies the check invariant and, unless empty, is not complete |
| RecordStore.NewRecord | src/lib/stores/records.svelte.ts:38-48 | the record's fields, with the pilot taken from the argument, else the template, else "Anonymous" |
| RecordStore.ToggledRecord | src/lib/stores/records.svelte.ts:59-69 | the item's flag is inverted through the cascade; the record is completed, at `now`, exactly when all its items are checked; only items, completion and update time change |
| RecordStore.ToggledRecordKeepsInvariant | src/lib/stores/records.svelte.ts:55-70 | toggling an item of a record keeps its items well formed, their shape, and the check invariant |
| RecordStore.CheckedFromRoot | src/lib/stores/records.svelte.ts:62 | under the invariant, if every root is checked then every item is |
| RecordStore.CompleteIffRootsChecked | src/lib/stores/records.svelte.ts:62-63 | under the invariant, a record is complete exactly when all its roots are checked |
| RecordStore.CopyTemplateItems | src/lib/stores/records.svelte.ts:33-36 | the copying loop yields the snapshot |
| RecordStore.ToggleRecord | src/lib/stores/records.svelte.ts:59-69 | computes the toggled record |
| RecordStore.RecordStore.constructor | src/lib/stores/records.svelte.ts:8-11 | no records mirrored and no active record |
| RecordStore.RecordStore.Start | src/lib/stores/records.svelte.ts:25-53 | an unknown template fails with "Template not found"; a taken id is a constraint error; otherwise exactly the new record is added and becomes active |
| RecordStore.RecordStore.ToggleItem | src/lib/stores/records.svelte.ts:55-70 | an unknown record is ignored; an unknown item fails; otherwise the record is replaced by the toggled record |
| RecordStore.RecordStore.UpdateTimer | src/lib/stores/records.svelte.ts:72-74 | a stored record gets the three timer fields; an unknown one is ignored |
| RecordStore.RecordStore.Delete | src/lib/stores/records.svelte.ts:76-78 | exactly that record is removed |
| TemplateStore.NewTemplate | src/lib/stores/templates.svelte.ts:38-50 | the new template's fields, with an order above every listed template's and 0 or one past one of them |
| TemplateStore.AfterTemplateDelete | src/lib/stores/templates.svelte.ts:56-60 | the template and exactly its items are gone, every other row unchanged |
| TemplateStore.TemplateDeleteLeavesNoOrphans | src/lib/stores/templates.svelte.ts:56-60 | if every item had a stored template before, it still has afterwards |
| TemplateStore.TemplateStore.constructor | src/lib/stores/templates.svelte.ts:8-10 | no templates mirrored |
| TemplateStore.TemplateStore.Refresh | src/lib/stores/templates.svelte.ts:13-31 | with an active workspace the mirror is the delivered list, otherwise empty |
| TemplateStore.TemplateStore.Create | src/lib/stores/templates.svelte.ts:33-54 | without an active workspace nothing happens; a taken id is a constraint error; otherwise exactly the new template is added |
| TemplateStore.TemplateStore.Delete | src/lib/stores/templates.svelte.ts:56-60 | the tables become `AfterTemplateDelete` of the old tables |
| WorkspaceStore.FirstOther | src/lib/stores/workspace.svelte.ts:75 | the position of the first listed workspace with another id, -1 exactly when none |
| WorkspaceStore.Successor | src/lib/stores/workspace.svelte.ts:75 | the next active id: the first other workspace's id unless that id is empty, never the deleted id |
| WorkspaceStore.TemplatesAfterDelete | src/lib/stores/workspace.svelte.ts:71 | exactly the templates of other workspaces remain, unchanged |
| WorkspaceStore.ItemsAfterDelete | src/lib/stores/workspace.svelte.ts:67-70 | exactly the items whose template id is not one of the workspace's template ids remain, unchanged |
| WorkspaceStore.AfterDelete | src/lib/stores/workspace.svelte.ts:65-72 | workspace, its templates and their items go; records stay |
| WorkspaceStore.DeleteLeavesNoOrphans | src/lib/stores/workspace.svelte.ts:65-72 | templates stay keyed by id and every remaining item still has a stored template |
| WorkspaceStore.Imported | src/lib/stores/workspace.svelte.ts:108-119 | imported templates, items and records are put over the current tables, templates and records re-attached to the target |
| WorkspaceStore.Retarget | src/lib/stores/workspace.svelte.ts:110 | re-attaching keeps every template's key, so the puts overwrite exactly the rows the imported ids name, and every put template belongs to the target |
| WorkspaceStore.Tagged | src/lib/stores/workspace.svelte.ts:118 | tagging keeps every record's key, so the puts overwrite exactly the rows the imported ids name, and every put record is tagged with the target |
| WorkspaceStore.ImportedItemsStored | src/lib/stores/workspace.svelte.ts:113-115 | an imported id holds an imported item with that id; any other key is untouched |
| WorkspaceStore.ImportedRecordsTagged | src/lib/stores/workspace.svelte.ts:117-119 | every imported record is stored under its id, tagged with the target |
| WorkspaceStore.ImportedTemplatesRetargeted | src/lib/stores/workspace.svelte.ts:108-111 | every imported template is stored under its id, belonging to the target |
| WorkspaceStore.ReorderedWorkspaces | src/lib/stores/workspace.svelte.ts:79-85 | the listed workspaces take their (last) position as order; others are unchanged |
| WorkspaceStore.ReorderGivesPositions | src/lib/stores/workspace.svelte.ts:81-83 | with distinct ids the workspace at position `i` ends with order `i` |
| WorkspaceStore.ReorderStep | src/lib/stores/workspace.svelte.ts:82 | one iteration of the reorder loop updates the next listed workspace, if stored |
| WorkspaceStore.WorkspaceStore.constructor | src/lib/stores/workspace.svelte.ts:7-10 | no active workspace and none mirrored |
| WorkspaceStore.WorkspaceStore.Deliver | src/lib/stores/workspace.svelte.ts:22-27 | the mirror becomes the delivered list, and the first workspace becomes active when none is |
| WorkspaceStore.WorkspaceStore.SetActive | src/lib/stores/workspace.svelte.ts:33-35 | the active id is set |
| WorkspaceStore.WorkspaceStore.Create | src/lib/stores/workspace.svelte.ts:37-59 | a taken id is a constraint error; otherwise exactly the new workspace is added with the next order and becomes active |
| WorkspaceStore.WorkspaceStore.Delete | src/lib/stores/workspace.svelte.ts:65-77 | the tables become `AfterDelete`, and a deleted active workspace hands over to its successor |
| WorkspaceStore.WorkspaceStore.Reorder | src/lib/stores/workspace.svelte.ts:79-85 | the workspaces table becomes the reordered table and no other table changes |
| WorkspaceStore.WorkspaceStore.ImportData | src/lib/stores/workspace.svelte.ts:87-121 | merge puts the data into the active workspace or fails without one; replace deletes the active workspace, adds the imported one and puts the data into it, failing with a taken id or an empty id; a failure leaves every table as before |
| Json.ImportFromJson | src/lib/utils/json.ts:40-63 | succeeds exactly when the version is "1.0" and workspace, templates and items are present; the version error comes first; the data is copied, with missing records read as empty |
| Json.ExportDocument | src/lib/utils/json.ts:17-35 | an exported document passes both import checks |
| Json.ExportImportRoundTrip | src/lib/utils/json.ts:17-63 | importing an exported document gives back exactly the exported data |
| Json.MissingRecordsDefaultToEmpty | src/lib/utils/json.ts:61 | a valid document without records imports with no records |

## Left out

- **Not modelled**
  - Reactive delivery: `liveQuery` subscriptions, `$effect`, unsubscription, and asynchronous scheduling. A delivery is a method call with the delivered rows (`Deliver`, `Refresh`).
  - Interleaving of concurrent asynchronous operations.
  - The Dexie query that sorts workspaces by `order`, with its fallback to an unsorted read. So are the index orderings of the other queries: the delivered order is whatever the caller passes.
  - Console logging.
  - `RecordStore.subscribe` (a query with no logic of its own).
  - The `update(id, partial)` operations of the workspace and item stores. They merge arbitrary partial objects, which need a representation of partial rows.
  - `src/lib/utils/fileActions.ts` (file download and file reading in the browser) is not part of this model.
  - `JSON.parse` and `JSON.stringify`: the import validator works on an already-decoded document with optional fields.
- **The environment becomes parameters**
  - Fresh identifiers (`crypto.randomUUID`), `Date.now()`, and the formatted date strings (`toLocaleString`, `toISOString`) are parameters of the operations. Each operation takes one `now`, although the source may read the clock several times.
  - `Object.values` order is a parameter, `flat`. It must list the item map, as that order is engine-defined.
- **Failure semantics**
  - A transaction is modelled as all-or-nothing on failure (`Db.Restore`). An individual Dexie write failing for storage reasons is not modelled. The only failures are a taken key on `add`, the thrown errors, and reading a missing record item.
- **Preconditions the source does not have**
  - CheckboxTree.Toggle, RecordStore.RecordStore.ToggleItem: require the item map to be well formed (acyclic, and every truthy `parentId` names an item). The source recurses or loops forever on a cycle, and writes a stub item for a dangling parent.
  - ItemStore.ItemStore.Tree: requires the item map to be acyclic, keyed by id, and without an empty id. The requirement comes from the model, because a `ViewItem` value cannot be cyclic. The source's two passes terminate on any map. On a cycle, the items of the cycle are pushed only into one another's `children`, never reach `rootItems`, and are missing from the forest; the model does not capture that.
  - ItemStore.ItemStore.FindChildren, ItemStore.ItemStore.Delete: require the item map to be acyclic, keyed by id, and without an empty id. The source's recursive `findChildren` does not terminate on a cycle.
  - CheckboxTree.IsIndeterminate: requires the item map to be acyclic (`Forest`). On a cycle, `getIndeterminateState` recurses through `children.some(...)` without end.
  - RecordStore.RecordStore.Start: requires the items table to be keyed by item id. That always holds for Dexie's primary key `id`.
- **Numbers**
  - Orders modelled as unbounded integers: `order` and every timestamp are `int`, while the source's `number` is a JavaScript double. As a result no fractional order is modelled (an imported item may carry one). No missing order is modelled on items either. In the source a missing order makes `a.order - b.order` NaN, which the sort treats as a tie, and makes the `Math.max` in `add` NaN. Rounding and overflow of large values are not modelled.
- **Trees**
  - ItemTree.NodeFrom: models each `ViewItem` as a value. The source shares one object per item between its parent's children list and the lookup map; here that sharing is the adjacency by id.
- **Weaker than the source**
  - CheckboxTreeLemmas.RecheckKeepsFlags: states flag idempotence only. Checking an already checked item refreshes the `completedAt` stamps of it, its descendants and its ancestors to `now`.
