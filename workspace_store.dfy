/**
 * The workspace store of src/lib/stores/workspace.svelte.ts: the active workspace id, the mirrored
 * workspace list, and the operations that create, delete, reorder and import workspaces.
 */
module WorkspaceStore {
  import opened Types
  import opened Database
  import opened Json

  datatype ImportMode = Merge | Replace

  const NoActiveForImport: string := "No active workspace for import"

  function WorkspaceOrders(list: seq<Workspace>): (r: seq<Option<int>>)
    ensures |r| == |list|
    ensures forall i | 0 <= i < |list| :: r[i] == list[i].order
  {
    seq(|list|, i requires 0 <= i < |list| => list[i].order)
  }

  /** The position `list.find(w => w.id !== id)` stops at: the first workspace that is not `id` (`-1` if none). */
  function FirstOther(list: seq<Workspace>, id: string): (r: int)
    ensures -1 <= r < |list|
    ensures r == -1 <==> forall i | 0 <= i < |list| :: list[i].id == id
    ensures r >= 0 ==> list[r].id != id && forall j | 0 <= j < r :: list[j].id == id
    decreases |list|
  {
    if list == [] then -1
    else if list[0].id != id then 0
    else
      var rest := FirstOther(list[1..], id);
      if rest == -1 then -1 else rest + 1
  }

  /** `list.find(w => w.id !== id)?.id || null`: the id of that workspace, an empty id counting as none. */
  function Successor(list: seq<Workspace>, id: string): (r: Option<string>)
    ensures r.Some? <==> FirstOther(list, id) >= 0 && list[FirstOther(list, id)].id != ""
    ensures r.Some? ==> r.value == list[FirstOther(list, id)].id && r.value != id
  {
    var i := FirstOther(list, id);
    if i >= 0 && list[i].id != "" then Some(list[i].id) else None
  }

  /** The ids of the rows stored under the keys `K`. */
  function IdsAt(templates: map<string, PreflightTemplate>, K: set<string>): (r: set<string>)
    ensures forall t :: t in r <==> exists k | k in K && k in templates :: templates[k].id == t
  {
    set k | k in K && k in templates :: templates[k].id
  }

  /** The ids of the templates of workspace `w`. */
  function TemplateIdsOf(templates: map<string, PreflightTemplate>, w: string): (r: set<string>)
    ensures forall t :: t in r <==> exists k | k in templates :: templates[k].workspaceId == w && templates[k].id == t
  {
    IdsAt(templates, TemplatesOf(templates, w))
  }

  lemma IdsAtInsert(templates: map<string, PreflightTemplate>, K: set<string>, k: string)
    requires k in templates
    ensures IdsAt(templates, K + {k}) == IdsAt(templates, K) + {templates[k].id}
  {
  }

  /** Deleting the items of one more template, after those of `A`, is deleting the items of both. */
  lemma WithoutItemsStep(items: map<string, ChecklistItem>, A: set<string>, t: string)
    ensures var rest := Without(items, ItemsOf(items, A));
      Without(rest, ItemsOf(rest, {t})) == Without(items, ItemsOf(items, A + {t}))
  {
  }

  /** The template table once workspace `w` is deleted: its templates are gone, all others stay. */
  function TemplatesAfterDelete(templates: map<string, PreflightTemplate>, w: string): (r: map<string, PreflightTemplate>)
    ensures forall k :: k in r <==> k in templates && templates[k].workspaceId != w
    ensures forall k | k in r :: r[k] == templates[k]
  {
    Without(templates, TemplatesOf(templates, w))
  }

  /** The item table once workspace `w` is deleted: the items of its templates are gone, all others stay. */
  function ItemsAfterDelete(items: map<string, ChecklistItem>, templates: map<string, PreflightTemplate>, w: string)
    : (r: map<string, ChecklistItem>)
    ensures forall k :: k in r <==> k in items && items[k].templateId !in TemplateIdsOf(templates, w)
    ensures forall k | k in r :: r[k] == items[k]
  {
    Without(items, ItemsOf(items, TemplateIdsOf(templates, w)))
  }

  /** All four tables once workspace `w` and everything under it are deleted. */
  function AfterDelete(t: Tables, w: string): (r: Tables)
    ensures r.workspaces == Without(t.workspaces, {w}) && r.records == t.records
    ensures r.templates == TemplatesAfterDelete(t.templates, w)
    ensures r.items == ItemsAfterDelete(t.items, t.templates, w)
  {
    Tables(Without(t.workspaces, {w}), TemplatesAfterDelete(t.templates, w),
           ItemsAfterDelete(t.items, t.templates, w), t.records)
  }

  /** Deleting a workspace leaves no item whose template is gone. */
  lemma DeleteLeavesNoOrphans(t: Tables, w: string)
    requires TemplatesKeyed(t.templates) && ItemsHaveTemplates(t)
    ensures TemplatesKeyed(AfterDelete(t, w).templates) && ItemsHaveTemplates(AfterDelete(t, w))
  {
    var r := AfterDelete(t, w);
    forall k | k in r.items
      ensures r.items[k].templateId in r.templates
    {
      var tid := t.items[k].templateId;
      assert t.templates[tid].id == tid;
      assert t.templates[tid].workspaceId == w ==> tid in TemplateIdsOf(t.templates, w);
    }
  }

  /** The tables once an import into workspace `target` has put every row. */
  function Imported(t: Tables, data: ImportedData, target: string): (r: Tables)
    ensures r.workspaces == t.workspaces
    ensures r.templates == PutAll(t.templates, Retarget(data.templates, target), TemplateKey)
    ensures r.items == PutAll(t.items, data.items, ItemKey)
    ensures r.records == PutAll(t.records, Tagged(data.records, target), RecordKey)
  {
    Tables(t.workspaces, PutAll(t.templates, Retarget(data.templates, target), TemplateKey),
           PutAll(t.items, data.items, ItemKey), PutAll(t.records, Tagged(data.records, target), RecordKey))
  }

  /** `db.workspaces.update(ids[i], { order: i })` for every `i`: a later position wins. */
  function ReorderedWorkspaces(ws: map<string, Workspace>, ids: seq<string>): (r: map<string, Workspace>)
    ensures r.Keys == ws.Keys
    ensures forall k | k in ws :: r[k] == if k in ids then ws[k].(order := Some(LastIndexOf(ids, k))) else ws[k]
  {
    map k | k in ws :: if k in ids then ws[k].(order := Some(LastIndexOf(ids, k))) else ws[k]
  }

  /** With no repeated id, the workspace at position `i` gets order `i`. */
  lemma ReorderGivesPositions(ws: map<string, Workspace>, ids: seq<string>, i: nat)
    requires NoDup(ids) && i < |ids| && ids[i] in ws
    ensures ReorderedWorkspaces(ws, ids)[ids[i]] == ws[ids[i]].(order := Some(i))
  {
    var j := LastIndexOf(ids, ids[i]);
    assert j >= 0 && ids[j] == ids[i];
  }

  lemma ReorderStep(ws: map<string, Workspace>, ids: seq<string>, i: nat)
    requires i < |ids|
    ensures var before := ReorderedWorkspaces(ws, ids[..i]);
      ReorderedWorkspaces(ws, ids[..i + 1])
      == if ids[i] in before then before[ids[i] := before[ids[i]].(order := Some(i))] else before
  {
    var s := ids[..i + 1];
    assert s[..i] == ids[..i];
    forall k | k in ws
      ensures LastIndexOf(s, k) == if k == ids[i] then i else LastIndexOf(ids[..i], k)
      ensures (k in s) == (k == ids[i] || k in ids[..i])
    {
      assert s[|s| - 1] == ids[i];
    }
  }

  /** The imported templates, each re-attached to the import target. */
  function Retarget(templates: seq<PreflightTemplate>, target: string): (r: seq<PreflightTemplate>)
    ensures |r| == |templates|
    ensures forall i | 0 <= i < |r| :: r[i] == templates[i].(workspaceId := target)
    ensures Keys(r, TemplateKey) == Keys(templates, TemplateKey)
    ensures forall z | z in r :: z.workspaceId == target
  {
    seq(|templates|, i requires 0 <= i < |templates| => templates[i].(workspaceId := target))
  }

  /** The imported records, each tagged with the import target. */
  function Tagged(records: seq<PreflightRecord>, target: string): (r: seq<PreflightRecord>)
    ensures |r| == |records|
    ensures forall i | 0 <= i < |r| :: r[i] == records[i].(workspaceId := Some(target))
    ensures Keys(r, RecordKey) == Keys(records, RecordKey)
    ensures forall z | z in r :: z.workspaceId == Some(target)
  {
    seq(|records|, i requires 0 <= i < |records| => records[i].(workspaceId := Some(target)))
  }

  /** An imported item lands under its id as the last imported item with that id; other items stay. */
  lemma ImportedItemsStored(items: map<string, ChecklistItem>, imported: seq<ChecklistItem>, k: string)
    ensures var r := PutAll(items, imported, ItemKey);
      && (k in Keys(imported, ItemKey) ==> k in r && r[k].id == k && r[k] in imported)
      && (k !in Keys(imported, ItemKey) ==> (k in r <==> k in items) && (k in items ==> r[k] == items[k]))
  {
    PutAllAt(items, imported, ItemKey, k);
  }

  /** Every record an import stores is tagged with the target workspace. */
  lemma ImportedRecordsTagged(records: map<string, PreflightRecord>, imported: seq<PreflightRecord>,
                              target: string, k: string)
    requires k in Keys(imported, RecordKey)
    ensures var r := PutAll(records, Tagged(imported, target), RecordKey);
      k in r && r[k].workspaceId == Some(target) && r[k].id == k
  {
    var rows := Tagged(imported, target);
    assert Keys(rows, RecordKey) == Keys(imported, RecordKey);
    PutAllAt(records, rows, RecordKey, k);
  }

  /** Every template an import stores is attached to the target workspace. */
  lemma ImportedTemplatesRetargeted(templates: map<string, PreflightTemplate>, imported: seq<PreflightTemplate>,
                                    target: string, k: string)
    requires k in Keys(imported, TemplateKey)
    ensures var r := PutAll(templates, Retarget(imported, target), TemplateKey);
      k in r && r[k].workspaceId == target && r[k].id == k
  {
    var rows := Retarget(imported, target);
    assert Keys(rows, TemplateKey) == Keys(imported, TemplateKey);
    PutAllAt(templates, rows, TemplateKey, k);
  }

  class WorkspaceStore {
    var activeId: Option<string>
    var workspaces: seq<Workspace>
    const db: Db

    constructor(db: Db)
      ensures this.db == db && activeId == None && workspaces == []
    {
      this.db := db;
      activeId := None;
      workspaces := [];
    }

    /** The subscription callback: mirror the list, and default the active id to its first entry. */
    method Deliver(rows: seq<Workspace>)
      modifies this
      ensures workspaces == rows
      ensures activeId == if |rows| > 0 && !Truthy(old(activeId)) then Some(rows[0].id) else old(activeId)
    {
      workspaces := rows;
      if |rows| > 0 && !Truthy(activeId) {
        activeId := Some(rows[0].id);
      }
    }

    method SetActive(id: string)
      modifies this
      ensures activeId == Some(id) && workspaces == old(workspaces)
    {
      activeId := Some(id);
    }

    /** `create(name)` with the fresh id and the current time passed in. */
    method Create(name: string, id: string, now: int) returns (r: Result<string>)
      modifies this, db
      ensures workspaces == old(workspaces)
      ensures db.templates == old(db.templates) && db.items == old(db.items) && db.records == old(db.records)
      ensures id in old(db.workspaces) ==>
                r == Err(AddConflict) && db.workspaces == old(db.workspaces) && activeId == old(activeId)
      ensures id !in old(db.workspaces) ==>
                && r == Ok(id) && activeId == Some(id)
                && db.workspaces == old(db.workspaces)[id := Workspace(id, name, Some(NextOrder(WorkspaceOrders(old(workspaces)))), now, now)]
    {
      var newWs := Workspace(id, name, Some(NextOrder(WorkspaceOrders(workspaces))), now, now);
      if id in db.workspaces {
        return Err(AddConflict);
      }
      db.workspaces := db.workspaces[id := newWs];
      activeId := Some(id);
      return Ok(id);
    }

    /** `delete(id)`: the workspace, its templates and their items go; the active id moves on. */
    method Delete(id: string)
      modifies this, db
      ensures workspaces == old(workspaces)
      ensures db.State() == AfterDelete(old(db.State()), id)
      ensures activeId == if old(activeId) == Some(id) then Successor(old(workspaces), id) else old(activeId)
    {
      ghost var items0 := db.items;
      var templates := TemplatesOf(db.templates, id);
      var pending := templates;
      while pending != {}
        invariant pending <= templates
        invariant db.templates == old(db.templates) && db.workspaces == old(db.workspaces)
        invariant db.records == old(db.records) && activeId == old(activeId) && workspaces == old(workspaces)
        invariant db.items == Without(items0, ItemsOf(items0, IdsAt(db.templates, templates - pending)))
        decreases |pending|
      {
        var k :| k in pending;
        var t := db.templates[k];
        WithoutItemsStep(items0, IdsAt(db.templates, templates - pending), t.id);
        IdsAtInsert(db.templates, templates - pending, k);
        assert templates - (pending - {k}) == (templates - pending) + {k};
        db.items := Without(db.items, ItemsOf(db.items, {t.id}));
        pending := pending - {k};
      }
      assert templates - pending == templates;
      db.templates := Without(db.templates, TemplatesOf(db.templates, id));
      db.workspaces := Without(db.workspaces, {id});
      if activeId == Some(id) {
        var i := FirstOther(workspaces, id);
        activeId := if i >= 0 && workspaces[i].id != "" then Some(workspaces[i].id) else None;
      }
    }

    /** `reorder(orderedIds)`: the workspace at position `i` gets order `i`; absent ids are skipped. */
    method Reorder(orderedIds: seq<string>)
      modifies db
      ensures db.workspaces == ReorderedWorkspaces(old(db.workspaces), orderedIds)
      ensures db.templates == old(db.templates) && db.items == old(db.items) && db.records == old(db.records)
    {
      for i := 0 to |orderedIds|
        invariant db.workspaces == ReorderedWorkspaces(old(db.workspaces), orderedIds[..i])
        invariant db.templates == old(db.templates) && db.items == old(db.items) && db.records == old(db.records)
      {
        ReorderStep(old(db.workspaces), orderedIds, i);
        if orderedIds[i] in db.workspaces {
          db.workspaces := db.workspaces[orderedIds[i] := db.workspaces[orderedIds[i]].(order := Some(i))];
        }
      }
      assert orderedIds[..|orderedIds|] == orderedIds;
    }

    /**
     * `importData(data, mode)`, one transaction: in replace mode the active workspace is deleted and
     * the imported one added and made active; then every imported row is put, templates and records
     * re-attached to the target workspace. A failure puts all tables back, while the active id keeps
     * whatever the transaction had assigned to it.
     */
    method ImportData(data: ImportedData, mode: ImportMode) returns (r: Result<()>)
      modifies this, db
      ensures workspaces == old(workspaces)
      ensures r.Err? ==> db.State() == old(db.State())
      ensures mode == Merge ==> activeId == old(activeId)
      ensures mode == Merge && !Truthy(old(activeId)) ==> r == Err(NoActiveForImport)
      ensures mode == Merge && Truthy(old(activeId)) ==>
                r == Ok(()) && db.State() == Imported(old(db.State()), data, old(activeId).value)
      ensures mode == Replace ==>
                var cleared := if Truthy(old(activeId)) then AfterDelete(old(db.State()), old(activeId).value) else old(db.State());
                var w := data.workspace;
                && (w.id in cleared.workspaces ==>
                      && r == Err(AddConflict)
                      && activeId == if Truthy(old(activeId)) then Successor(old(workspaces), old(activeId).value) else old(activeId))
                && (w.id !in cleared.workspaces ==> activeId == Some(w.id))
                && (w.id !in cleared.workspaces && w.id == "" ==> r == Err(NoActiveForImport))
                && (w.id !in cleared.workspaces && w.id != "" ==>
                      r == Ok(()) && db.State() == Imported(cleared.(workspaces := cleared.workspaces[w.id := w]), data, w.id))
    {
      var saved := db.State();
      if mode == Replace {
        if Truthy(activeId) {
          Delete(activeId.value);
        }
        if data.workspace.id in db.workspaces {
          db.Restore(saved);
          return Err(AddConflict);
        }
        db.workspaces := db.workspaces[data.workspace.id := data.workspace];
        activeId := Some(data.workspace.id);
      }
      var target := if mode == Replace then Some(data.workspace.id) else activeId;
      if !Truthy(target) {
        db.Restore(saved);
        return Err(NoActiveForImport);
      }
      ghost var before := db.State();
      ghost var active := activeId;
      var templates := Retarget(data.templates, target.value);
      for i := 0 to |templates|
        invariant db.State() == before.(templates := PutAll(before.templates, templates[..i], TemplateKey))
        invariant activeId == active && workspaces == old(workspaces)
      {
        PutAllSnoc(before.templates, templates, TemplateKey, i);
        db.templates := db.templates[templates[i].id := templates[i]];
      }
      assert templates[..|templates|] == templates;
      for i := 0 to |data.items|
        invariant db.State() == before.(templates := PutAll(before.templates, templates, TemplateKey),
                                        items := PutAll(before.items, data.items[..i], ItemKey))
        invariant activeId == active && workspaces == old(workspaces)
      {
        PutAllSnoc(before.items, data.items, ItemKey, i);
        db.items := db.items[data.items[i].id := data.items[i]];
      }
      assert data.items[..|data.items|] == data.items;
      var records := Tagged(data.records, target.value);
      for i := 0 to |records|
        invariant db.State() == before.(templates := PutAll(before.templates, templates, TemplateKey),
                                        items := PutAll(before.items, data.items, ItemKey),
                                        records := PutAll(before.records, records[..i], RecordKey))
        invariant activeId == active && workspaces == old(workspaces)
      {
        PutAllSnoc(before.records, records, RecordKey, i);
        db.records := db.records[records[i].id := records[i]];
      }
      assert records[..|records|] == records;
      return Ok(());
    }
  }
}
