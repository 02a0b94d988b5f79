/**
 * The template store of src/lib/stores/templates.svelte.ts: the mirrored template list of the
 * active workspace, and template creation and deletion.
 */
module TemplateStore {
  import opened Types
  import opened Database
  import WorkspaceStore

  function TemplateOrders(list: seq<PreflightTemplate>): (r: seq<Option<int>>)
    ensures |r| == |list|
    ensures forall i | 0 <= i < |list| :: r[i] == list[i].order
  {
    seq(|list|, i requires 0 <= i < |list| => list[i].order)
  }

  /** The template `create` builds. */
  function NewTemplate(id: string, workspaceId: string, name: string, description: string,
                       list: seq<PreflightTemplate>, now: int): (t: PreflightTemplate)
    ensures t.id == id && t.workspaceId == workspaceId && t.name == name && t.description == description
    ensures t.pilot == "Anonymous" && t.itemIds == []
    ensures t.createdAt == now && t.updatedAt == now
    ensures t.order.Some? && forall i | 0 <= i < |list| :: OrderOrMinusOne(list[i].order) < t.order.value
    ensures t.order == Some(0) || exists i | 0 <= i < |list| :: list[i].order == Some(t.order.value - 1)
  {
    PreflightTemplate(id, workspaceId, name, Some(NextOrder(TemplateOrders(list))), "Anonymous",
                      description, now, now, [])
  }

  /** All four tables once template `id` and its items are deleted. */
  function AfterTemplateDelete(t: Tables, id: string): (r: Tables)
    ensures r.workspaces == t.workspaces && r.records == t.records
    ensures forall k :: k in r.templates <==> k in t.templates && k != id
    ensures forall k :: k in r.items <==> k in t.items && t.items[k].templateId != id
    ensures forall k | k in r.templates :: r.templates[k] == t.templates[k]
    ensures forall k | k in r.items :: r.items[k] == t.items[k]
  {
    t.(templates := Without(t.templates, {id}), items := Without(t.items, ItemsOf(t.items, {id})))
  }

  /** Deleting a template together with its items leaves no item whose template is gone. */
  lemma TemplateDeleteLeavesNoOrphans(t: Tables, id: string)
    requires ItemsHaveTemplates(t)
    ensures ItemsHaveTemplates(AfterTemplateDelete(t, id))
  {
  }

  class TemplateStore {
    var templates: seq<PreflightTemplate>
    const db: Db
    const workspaceStore: WorkspaceStore.WorkspaceStore

    constructor(db: Db, workspaceStore: WorkspaceStore.WorkspaceStore)
      ensures this.db == db && this.workspaceStore == workspaceStore && templates == []
    {
      this.db := db;
      this.workspaceStore := workspaceStore;
      templates := [];
    }

    /**
     * The subscription effect: with no active workspace the list is emptied; otherwise it mirrors
     * `rows`, the active workspace's templates as the query delivers them.
     */
    method Refresh(rows: seq<PreflightTemplate>)
      modifies this
      ensures templates == if Truthy(workspaceStore.activeId) then rows else []
    {
      if !Truthy(workspaceStore.activeId) {
        templates := [];
        return;
      }
      templates := rows;
    }

    /** `create(name, description)`: `Ok(None)` is the early return without an active workspace. */
    method Create(name: string, description: string, id: string, now: int) returns (r: Result<Option<string>>)
      modifies db
      ensures db.workspaces == old(db.workspaces) && db.items == old(db.items) && db.records == old(db.records)
      ensures !Truthy(workspaceStore.activeId) ==> r == Ok(None) && db.templates == old(db.templates)
      ensures Truthy(workspaceStore.activeId) && id in old(db.templates) ==>
                r == Err(AddConflict) && db.templates == old(db.templates)
      ensures Truthy(workspaceStore.activeId) && id !in old(db.templates) ==>
                && r == Ok(Some(id))
                && db.templates == old(db.templates)[id := NewTemplate(id, workspaceStore.activeId.value, name, description, templates, now)]
    {
      if !Truthy(workspaceStore.activeId) {
        return Ok(None);
      }
      var newTemplate := NewTemplate(id, workspaceStore.activeId.value, name, description, templates, now);
      if id in db.templates {
        return Err(AddConflict);
      }
      db.templates := db.templates[id := newTemplate];
      return Ok(Some(id));
    }

    /** `delete(id)`: the template and every item of it go; nothing else changes. */
    method Delete(id: string)
      modifies db
      ensures db.State() == AfterTemplateDelete(old(db.State()), id)
    {
      db.templates := Without(db.templates, {id});
      db.items := Without(db.items, ItemsOf(db.items, {id}));
    }
  }
}
