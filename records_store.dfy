/**
 * The record store of src/lib/stores/records.svelte.ts: starting a run of a template as a snapshot
 * of its items, toggling an item of a run through the cascade, the timer, and deletion.
 */
module RecordStore {
  import opened Types
  import opened Hierarchy
  import opened Database
  import opened CheckboxTree
  import CheckboxTreeLemmas

  const TemplateNotFound: string := "Template not found"
  /** What reading `record.items[itemId].checked` throws when the record has no such item. */
  const MissingItem: string := "Cannot read properties of undefined (reading 'checked')"

  /** The items of the `forEach` over the first `K` template items: each copied with `checked: false`. */
  function SnapshotOn(items: map<string, ChecklistItem>, K: set<string>): (r: map<string, ChecklistItem>)
    ensures r.Keys == K * items.Keys
    ensures forall k | k in r :: r[k] == items[k].(checked := false)
  {
    map k | k in K && k in items :: items[k].(checked := false)
  }

  /** The `forEach` over one more template item. */
  lemma SnapshotOnInsert(items: map<string, ChecklistItem>, K: set<string>, k: string)
    requires KeysAreIds(items) && k in items
    ensures SnapshotOn(items, K + {k}) == SnapshotOn(items, K)[items[k].id := items[k].(checked := false)]
  {
  }

  /** The snapshot a new record owns: every item of the template, unchecked, all other fields copied. */
  function Snapshot(items: map<string, ChecklistItem>, templateId: string): (r: map<string, ChecklistItem>)
    ensures forall k :: k in r <==> k in items && items[k].templateId == templateId
    ensures forall k | k in r :: !r[k].checked && r[k] == items[k].(checked := false)
    ensures KeysAreIds(items) ==> KeysAreIds(r)
  {
    SnapshotOn(items, ItemsOf(items, {templateId}))
  }

  /** A fresh snapshot satisfies the cascade invariant: nothing is checked, so no parent is either. */
  lemma SnapshotObeysInvariant(items: map<string, ChecklistItem>, templateId: string)
    ensures CheckInvariant(Snapshot(items, templateId))
    ensures Snapshot(items, templateId) != map[] ==> !AllItemsChecked(Snapshot(items, templateId))
  {
    var s := Snapshot(items, templateId);
    forall n | n in s && HasChildren(s, n)
      ensures s[n].checked == AllChildrenChecked(s, n)
    {
      var c :| c in s && s[c].parentId == Some(n);
    }
    if s != map[] {
      var k :| k in s;
      assert !s[k].checked;
    }
  }

  /** `Object.values(items).every(item => item.checked)` */
  predicate AllItemsChecked(items: map<string, ChecklistItem>)
  {
    forall k | k in items :: items[k].checked
  }

  /** The record `start` adds; `stamp` is the formatted local date the name ends with. */
  function NewRecord(id: string, templateId: string, template: PreflightTemplate, pilot: Option<string>,
                     items: map<string, ChecklistItem>, now: int, stamp: string): (r: PreflightRecord)
    ensures r.id == id && r.templateId == templateId && r.name == template.name + " - " + stamp
    ensures Truthy(pilot) ==> r.pilot == pilot.value
    ensures !Truthy(pilot) && template.pilot != "" ==> r.pilot == template.pilot
    ensures !Truthy(pilot) && template.pilot == "" ==> r.pilot == "Anonymous"
    ensures r.createdAt == now && r.resumedAt == Some(now) && r.elapsedMs == 0 && !r.isPaused
    ensures r.completedAt == None && r.updatedAt == None && r.workspaceId == None
    ensures r.items == Snapshot(items, templateId)
  {
    PreflightRecord(id, templateId, template.name + " - " + stamp,
                    OrElse(pilot, OrElse(Some(template.pilot), "Anonymous")),
                    now, None, 0, false, Some(now), None, Snapshot(items, templateId), None)
  }

  /**
   * The record after `toggleItem(record.id, itemId)` at time `now`: the item flips, the cascade
   * runs, and the record is completed exactly when every item ends checked.
   */
  ghost function ToggledRecord(rec: PreflightRecord, itemId: string, now: int): (r: PreflightRecord)
    requires WellFormed(rec.items) && itemId in rec.items
    ensures r.items == Toggled(rec.items, itemId, !rec.items[itemId].checked, now)
    ensures r.completedAt.Some? <==> AllItemsChecked(r.items)
    ensures r.completedAt.Some? ==> r.completedAt == Some(now)
    ensures r.updatedAt == Some(now)
    ensures r.(items := rec.items, completedAt := rec.completedAt, updatedAt := rec.updatedAt) == rec
  {
    var items := Toggled(rec.items, itemId, !rec.items[itemId].checked, now);
    rec.(items := items, completedAt := if AllItemsChecked(items) then Some(now) else None, updatedAt := Some(now))
  }

  /** A toggle keeps a record's items well formed, of the same shape, and keeps the cascade invariant. */
  lemma ToggledRecordKeepsInvariant(rec: PreflightRecord, itemId: string, now: int)
    requires WellFormed(rec.items) && itemId in rec.items && CheckInvariant(rec.items)
    ensures var r := ToggledRecord(rec, itemId, now);
      WellFormed(r.items) && SameShape(rec.items, r.items) && CheckInvariant(r.items)
  {
    CheckboxTreeLemmas.ToggledShape(rec.items, itemId, !rec.items[itemId].checked, now);
    CheckboxTreeLemmas.ToggledKeepsInvariant(rec.items, itemId, !rec.items[itemId].checked, now);
  }

  /** An item without a followed parent link. */
  predicate IsRoot(items: map<string, ChecklistItem>, k: string)
    requires k in items
  {
    Link(Parents(items), k).None?
  }

  /** Under the cascade invariant, an item is checked when its root is: checks flow down every chain. */
  lemma {:induction false} CheckedFromRoot(items: map<string, ChecklistItem>, n: string)
    requires WellFormed(items) && CheckInvariant(items) && n in items
    requires forall k | k in items && IsRoot(items, k) :: items[k].checked
    ensures items[n].checked
    decreases |Ancestors(Parents(items), n)|
  {
    var P := Parents(items);
    AncestorsStep(P, n);
    if Link(P, n).Some? {
      var p := Link(P, n).value;
      CheckedFromRoot(items, p);
      assert items[n].parentId == Some(p);
      assert HasChildren(items, p);
    }
  }

  /** Under the invariant, a record is complete exactly when all of its root items are checked. */
  lemma CompleteIffRootsChecked(items: map<string, ChecklistItem>)
    requires WellFormed(items) && CheckInvariant(items)
    ensures AllItemsChecked(items) <==> forall k | k in items && IsRoot(items, k) :: items[k].checked
  {
    if forall k | k in items && IsRoot(items, k) :: items[k].checked {
      forall n | n in items
        ensures items[n].checked
      {
        CheckedFromRoot(items, n);
      }
    }
  }

  /** `items.forEach(item => itemsMap[item.id] = { ...item, checked: false })` over the template's items. */
  method CopyTemplateItems(items: map<string, ChecklistItem>, templateId: string)
    returns (itemsMap: map<string, ChecklistItem>)
    requires KeysAreIds(items)
    ensures itemsMap == Snapshot(items, templateId)
  {
    var templateItems := ItemsOf(items, {templateId});
    itemsMap := map[];
    var pending := templateItems;
    while pending != {}
      invariant pending <= templateItems
      invariant itemsMap == SnapshotOn(items, templateItems - pending)
      decreases |pending|
    {
      var k :| k in pending;
      var item := items[k];
      SnapshotOnInsert(items, templateItems - pending, k);
      itemsMap := itemsMap[item.id := item.(checked := false)];
      assert templateItems - (pending - {k}) == (templateItems - pending) + {k};
      pending := pending - {k};
    }
    assert templateItems - pending == templateItems;
  }

  /** The body of `toggleItem` on a found record and item: cascade, then the record's completion. */
  method ToggleRecord(record: PreflightRecord, itemId: string, now: int) returns (r: PreflightRecord)
    requires WellFormed(record.items) && itemId in record.items
    ensures r == ToggledRecord(record, itemId, now)
  {
    var isChecked := !record.items[itemId].checked;
    var updatedItems := Toggle(itemId, record.items, isChecked, now);
    var allCompleted := AllItemsChecked(updatedItems);
    var completedAt := if allCompleted then Some(now) else None;
    r := record.(items := updatedItems, completedAt := completedAt, updatedAt := Some(now));
  }

  class RecordStore {
    var records: seq<PreflightRecord>
    var activeRecordId: Option<string>
    const db: Db

    constructor(db: Db)
      ensures this.db == db && records == [] && activeRecordId == None
    {
      this.db := db;
      records := [];
      activeRecordId := None;
    }

    /**
     * `start(templateId, pilot)`: a new record owning an unchecked copy of the template's items, made
     * the active record. The items table itself is left as it was.
     */
    method Start(templateId: string, pilot: Option<string>, id: string, now: int, stamp: string)
      returns (r: Result<string>)
      requires KeysAreIds(db.items)
      modifies this, db
      ensures db.workspaces == old(db.workspaces) && db.templates == old(db.templates) && db.items == old(db.items)
      ensures records == old(records)
      ensures templateId !in old(db.templates) ==>
                r == Err(TemplateNotFound) && db.records == old(db.records) && activeRecordId == old(activeRecordId)
      ensures templateId in old(db.templates) && id in old(db.records) ==>
                r == Err(AddConflict) && db.records == old(db.records) && activeRecordId == old(activeRecordId)
      ensures templateId in old(db.templates) && id !in old(db.records) ==>
                && r == Ok(id) && activeRecordId == Some(id)
                && db.records == old(db.records)[id := NewRecord(id, templateId, old(db.templates)[templateId], pilot, old(db.items), now, stamp)]
    {
      if templateId !in db.templates {
        return Err(TemplateNotFound);
      }
      var template := db.templates[templateId];
      var itemsMap := CopyTemplateItems(db.items, templateId);
      var newRecord := PreflightRecord(id, templateId, template.name + " - " + stamp,
                                       OrElse(pilot, OrElse(Some(template.pilot), "Anonymous")),
                                       now, None, 0, false, Some(now), None, itemsMap, None);
      if id in db.records {
        return Err(AddConflict);
      }
      db.records := db.records[id := newRecord];
      activeRecordId := Some(id);
      return Ok(id);
    }

    /** `toggleItem(recordId, itemId)` at time `now`; a missing record is a no-op. */
    method ToggleItem(recordId: string, itemId: string, now: int) returns (r: Result<()>)
      requires recordId in db.records && itemId in db.records[recordId].items ==> WellFormed(db.records[recordId].items)
      modifies db
      ensures db.workspaces == old(db.workspaces) && db.templates == old(db.templates) && db.items == old(db.items)
      ensures recordId !in old(db.records) ==> r == Ok(()) && db.records == old(db.records)
      ensures recordId in old(db.records) && itemId !in old(db.records)[recordId].items ==>
                r == Err(MissingItem) && db.records == old(db.records)
      ensures recordId in old(db.records) && itemId in old(db.records)[recordId].items ==>
                r == Ok(()) && db.records == old(db.records)[recordId := ToggledRecord(old(db.records)[recordId], itemId, now)]
    {
      if recordId !in db.records {
        return Ok(());
      }
      var record := db.records[recordId];
      if itemId !in record.items {
        return Err(MissingItem);
      }
      var toggled := ToggleRecord(record, itemId, now);
      db.records := db.records[recordId := toggled];
      return Ok(());
    }

    /** `updateTimer`: only the three timer fields of an existing record change. */
    method UpdateTimer(recordId: string, elapsedMs: int, resumedAt: int, isPaused: bool)
      modifies db
      ensures db.workspaces == old(db.workspaces) && db.templates == old(db.templates) && db.items == old(db.items)
      ensures db.records == if recordId in old(db.records)
                            then old(db.records)[recordId := old(db.records)[recordId].(elapsedMs := elapsedMs, resumedAt := Some(resumedAt), isPaused := isPaused)]
                            else old(db.records)
    {
      if recordId in db.records {
        var rec := db.records[recordId];
        db.records := db.records[recordId := rec.(elapsedMs := elapsedMs, resumedAt := Some(resumedAt), isPaused := isPaused)];
      }
    }

    method Delete(id: string)
      modifies db
      ensures db.records == Without(old(db.records), {id})
      ensures db.workspaces == old(db.workspaces) && db.templates == old(db.templates) && db.items == old(db.items)
    {
      db.records := Without(db.records, {id});
    }
  }
}
