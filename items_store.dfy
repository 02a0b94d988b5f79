/**
 * The item store of src/lib/stores/items.svelte.ts: the mirrored items of one template, the forest
 * the view renders from them, and item creation, subtree deletion and reordering against the items
 * table.
 */
module ItemStore {
  import opened Types
  import opened Hierarchy
  import opened Database
  import opened ItemTree

  /** `flat.filter(i => i.parentId === parentId)`, in list order. */
  function Siblings(flat: seq<ChecklistItem>, parentId: Option<string>): (r: seq<ChecklistItem>)
    decreases |flat|
  {
    if flat == [] then []
    else Siblings(flat[..|flat| - 1], parentId) + if flat[|flat| - 1].parentId == parentId then [flat[|flat| - 1]] else []
  }

  lemma {:induction false} SiblingsElems(flat: seq<ChecklistItem>, parentId: Option<string>)
    ensures forall z :: z in Siblings(flat, parentId) <==> z in flat && z.parentId == parentId
    decreases |flat|
  {
    if flat != [] {
      var front := flat[..|flat| - 1];
      assert flat == front + [flat[|flat| - 1]];
      SiblingsElems(front, parentId);
    }
  }

  function Orders(s: seq<ChecklistItem>): (r: seq<int>)
    ensures |r| == |s| && forall i | 0 <= i < |s| :: r[i] == s[i].order
  {
    seq(|s|, i requires 0 <= i < |s| => s[i].order)
  }

  /**
   * The order `add` gives a new item: one more than the largest order among the items with exactly
   * the same parent reference, and 0 when no sibling has a non-negative order.
   */
  function NewItemOrder(flat: seq<ChecklistItem>, parentId: Option<string>): (r: int)
    ensures r >= 0
    ensures forall z | z in flat && z.parentId == parentId :: z.order < r
    ensures r == 0 || exists z | z in flat && z.parentId == parentId :: z.order == r - 1
  {
    var sibs := Siblings(flat, parentId);
    SiblingsElems(flat, parentId);
    var r := MaxOrder(Orders(sibs)) + 1;
    assert forall z | z in sibs :: z.order < r by {
      forall z | z in sibs
        ensures z.order < r
      {
        var i :| 0 <= i < |sibs| && sibs[i] == z;
        assert Orders(sibs)[i] == z.order;
      }
    }
    if r == 0 then r
    else
      var i :| 0 <= i < |sibs| && Orders(sibs)[i] == r - 1;
      assert sibs[i] in sibs;
      r
  }

  /** The item `add` builds: unchecked, not completed, under the given parent reference. */
  function NewItem(id: string, templateId: string, parentId: Option<string>, text: string, order: int): (it: ChecklistItem)
    ensures it.id == id && it.templateId == templateId && it.parentId == parentId && it.text == text
    ensures !it.checked && it.completedAt.None? && it.order == order
  {
    ChecklistItem(id, templateId, parentId, text, false, order, None)
  }

  /** The item `add` builds sorts after every existing sibling: it is appended to its sibling list. */
  lemma NewItemSortsLast(flat: seq<ChecklistItem>, id: string, templateId: string, parentId: Option<string>, text: string)
    ensures var it := NewItem(id, templateId, parentId, text, NewItemOrder(flat, parentId));
      var sibs := Siblings(flat, parentId);
      SortByOrder(sibs + [it]) == SortByOrder(sibs) + [it]
  {
    var it := NewItem(id, templateId, parentId, text, NewItemOrder(flat, parentId));
    var sibs := Siblings(flat, parentId);
    SiblingsElems(flat, parentId);
    SortFacts(sibs);
    assert (sibs + [it])[..|sibs|] == sibs;
    var ss := SortByOrder(sibs);
    if ss != [] {
      assert ss[|ss| - 1] in ss;
    }
    InsertAtEnd(it, ss);
  }

  /**
   * The ids `delete(id)` collects: `id` itself, every item whose `parentId` is exactly `id`, and
   * everything below those.
   */
  function DeleteSet(m: map<string, ChecklistItem>, id: string): set<string>
    requires Forest(m)
  {
    {id} + Under(Parents(m), ChildrenEq(Parents(m), id))
  }

  /** For an item of the map, the delete set is the item and its descendants. */
  lemma DeleteSetIsSubtree(m: map<string, ChecklistItem>, id: string)
    requires Forest(m) && id in m
    ensures DeleteSet(m, id) == {id} + Descendants(Parents(m), id)
  {
    UnderChildren(Parents(m), id);
  }

  /**
   * The delete set is closed downwards: no item that stays has its followed parent link into the
   * delete set, so the delete leaves no orphan behind in the map.
   */
  lemma DeleteLeavesNoOrphans(m: map<string, ChecklistItem>, id: string, k: string)
    requires Forest(m) && k in m && k !in DeleteSet(m, id)
    ensures Link(Parents(m), k).None? || Link(Parents(m), k).value !in DeleteSet(m, id)
  {
    var P := Parents(m);
    var C := ChildrenEq(P, id);
    AncestorsStep(P, k);
    if Link(P, k).Some? {
      var p := Link(P, k).value;
      assert p != id by {
        assert k !in C;
      }
      forall c | c in C
        ensures c != p && c !in Ancestors(P, p)
      {
        assert c !in Ancestors(P, k);
      }
    }
  }

  /** `Object.values(rows)` after `rows.forEach(item => next[item.id] = item)`: keyed by id. */
  lemma {:induction false} DeliveredItems(rows: seq<ChecklistItem>)
    ensures var r := PutAll(map[], rows, ItemKey);
      KeysAreIds(r) && forall k :: k in r <==> k in Ids(rows)
    decreases |rows|
  {
    if rows != [] {
      var front := rows[..|rows| - 1];
      DeliveredItems(front);
      assert rows == front + [rows[|rows| - 1]];
      IdsSnoc(front, rows[|rows| - 1]);
    }
  }

  /** `db.items.update(ids[i], { order: i, parentId })` for every `i`: a later position wins. */
  function ReorderedItems(items: map<string, ChecklistItem>, ids: seq<string>, parentId: Option<string>)
    : (r: map<string, ChecklistItem>)
    ensures r.Keys == items.Keys
    ensures forall k | k in items :: r[k] == if k in ids then items[k].(order := LastIndexOf(ids, k), parentId := parentId) else items[k]
  {
    map k | k in items :: if k in ids then items[k].(order := LastIndexOf(ids, k), parentId := parentId) else items[k]
  }

  /** With no repeated id, the item at position `i` gets order `i` and the new parent. */
  lemma ReorderGivesPositions(items: map<string, ChecklistItem>, ids: seq<string>, parentId: Option<string>, i: nat)
    requires NoDup(ids) && i < |ids| && ids[i] in items
    ensures ReorderedItems(items, ids, parentId)[ids[i]] == items[ids[i]].(order := i, parentId := parentId)
  {
    var j := LastIndexOf(ids, ids[i]);
    assert j >= 0 && ids[j] == ids[i];
  }

  lemma ReorderStep(items: map<string, ChecklistItem>, ids: seq<string>, parentId: Option<string>, i: nat)
    requires i < |ids|
    ensures var before := ReorderedItems(items, ids[..i], parentId);
      ReorderedItems(items, ids[..i + 1], parentId)
      == if ids[i] in before then before[ids[i] := before[ids[i]].(order := i, parentId := parentId)] else before
  {
    var s := ids[..i + 1];
    assert s[..i] == ids[..i];
    var before := ReorderedItems(items, ids[..i], parentId);
    var after := ReorderedItems(items, s, parentId);
    forall k | k in items
      ensures after[k] == if k == ids[i] then before[k].(order := i, parentId := parentId) else before[k]
    {
      assert s[i] == ids[i];
      if k == ids[i] {
        assert LastIndexOf(s, k) == i;
      } else {
        assert LastIndexOf(s, k) == LastIndexOf(ids[..i], k);
        assert k in s <==> k in ids[..i];
      }
    }
  }

  /** One visited child grows the collected set by that child and everything below it. */
  lemma FindVisit(P: ParentTable, pid: string, pending: set<string>, k: string, found: seq<string>, below: seq<string>)
    requires Acyclic(P) && "" !in P && k in pending && pending <= P.Keys && P[k] == Some(pid)
    requires Elems(found) == Under(P, ChildrenEq(P, pid) - pending) && Elems(below) == Under(P, ChildrenEq(P, k))
    ensures Elems(found + [k] + below) == Under(P, ChildrenEq(P, pid) - (pending - {k}))
  {
    assert ChildrenEq(P, pid) - (pending - {k}) == (ChildrenEq(P, pid) - pending) + {k};
    UnderInsert(P, ChildrenEq(P, pid) - pending, k);
    UnderChildren(P, k);
    ElemsConcat(found + [k], below);
    ElemsConcat(found, [k]);
  }

  lemma FindSkip(P: ParentTable, pid: string, pending: set<string>, k: string)
    requires k in P && P[k] != Some(pid)
    ensures ChildrenEq(P, pid) - (pending - {k}) == ChildrenEq(P, pid) - pending
  {
  }

  lemma ElemsConcat(a: seq<string>, b: seq<string>)
    ensures Elems(a + b) == Elems(a) + Elems(b)
  {
  }

  /** The second pass has filed the first `i` sorted items. */
  lemma FileStep(sorted: seq<ChecklistItem>, P: ParentTable, i: nat, under: Option<string>)
    requires i < |sorted|
    ensures Ids(SelectItems(sorted[..i + 1], P, under))
            == Ids(SelectItems(sorted[..i], P, under)) + if LinkVia(P, sorted[i].parentId) == under then [sorted[i].id] else []
  {
    assert sorted[..i + 1] == sorted[..i] + [sorted[i]];
    SelectSnoc(sorted[..i], sorted[i], P, under);
    IdsSnoc(SelectItems(sorted[..i], P, under), sorted[i]);
  }

  /** The first pass has made a node for the first `i` items. */
  lemma NodeStep(flat: seq<ChecklistItem>, i: nat)
    requires i < |flat|
    ensures Elems(Ids(flat[..i + 1])) == Elems(Ids(flat[..i])) + {flat[i].id}
  {
    assert flat[..i + 1] == flat[..i] + [flat[i]];
    IdsSnoc(flat[..i], flat[i]);
  }

  lemma ListedKeys(flat: seq<ChecklistItem>, m: map<string, ChecklistItem>)
    requires ListsItems(flat, m)
    ensures Elems(Ids(flat)) == m.Keys
  {
    forall k | k in m
      ensures k in Elems(Ids(flat))
    {
      var j :| 0 <= j < |flat| && flat[j].id == k;
      assert Ids(flat)[j] == k;
    }
  }

  /** After filing the first `i` sorted items: every node's children so far, and the roots so far. */
  ghost predicate Filed(m: map<string, ChecklistItem>, sorted: seq<ChecklistItem>, i: nat,
                        kids: map<string, seq<string>>, rootIds: seq<string>)
    requires i <= |sorted|
  {
    && kids.Keys == m.Keys
    && (forall k | k in m :: kids[k] == Ids(SelectItems(sorted[..i], Parents(m), Some(k))))
    && rootIds == Ids(SelectItems(sorted[..i], Parents(m), None))
  }

  /** The second pass appends the sorted item `i` to the children of the item it names. */
  lemma FileChild(m: map<string, ChecklistItem>, sorted: seq<ChecklistItem>, i: nat,
                  kids: map<string, seq<string>>, rootIds: seq<string>, p: string)
    requires i < |sorted| && Filed(m, sorted, i, kids, rootIds)
    requires LinkVia(Parents(m), sorted[i].parentId) == Some(p)
    ensures p in kids && Filed(m, sorted, i + 1, kids[p := kids[p] + [sorted[i].id]], rootIds)
  {
    FileStep(sorted, Parents(m), i, None);
    FileChildKids(m, sorted, i, kids, p);
  }

  lemma FileChildKids(m: map<string, ChecklistItem>, sorted: seq<ChecklistItem>, i: nat,
                      kids: map<string, seq<string>>, p: string)
    requires i < |sorted| && kids.Keys == m.Keys
    requires forall k | k in m :: kids[k] == Ids(SelectItems(sorted[..i], Parents(m), Some(k)))
    requires LinkVia(Parents(m), sorted[i].parentId) == Some(p)
    ensures forall k | k in m ::
      kids[p := kids[p] + [sorted[i].id]][k] == Ids(SelectItems(sorted[..i + 1], Parents(m), Some(k)))
  {
    forall k | k in m
      ensures kids[p := kids[p] + [sorted[i].id]][k] == Ids(SelectItems(sorted[..i + 1], Parents(m), Some(k)))
    {
      FileStep(sorted, Parents(m), i, Some(k));
    }
  }

  /** The second pass appends the sorted item `i` to the roots when its parent link is not followed. */
  lemma FileRoot(m: map<string, ChecklistItem>, sorted: seq<ChecklistItem>, i: nat,
                 kids: map<string, seq<string>>, rootIds: seq<string>)
    requires i < |sorted| && Filed(m, sorted, i, kids, rootIds)
    requires LinkVia(Parents(m), sorted[i].parentId) == None
    ensures Filed(m, sorted, i + 1, kids, rootIds + [sorted[i].id])
  {
    var P := Parents(m);
    FileStep(sorted, P, i, None);
    forall k | k in m
      ensures kids[k] == Ids(SelectItems(sorted[..i + 1], P, Some(k)))
    {
      FileStep(sorted, P, i, Some(k));
    }
  }

  class ItemStore {
    var items: map<string, ChecklistItem>
    var templateId: Option<string>
    const db: Db

    constructor(db: Db)
      ensures this.db == db && items == map[] && templateId == None
    {
      this.db := db;
      items := map[];
      templateId := None;
    }

    /** `subscribe(templateId)`: remember the template whose items the store mirrors. */
    method Subscribe(templateId: string)
      modifies this
      ensures this.templateId == Some(templateId) && items == old(items)
    {
      this.templateId := Some(templateId);
    }

    /** The subscription callback: the rows of the template, keyed by id (a later row wins). */
    method Deliver(rows: seq<ChecklistItem>)
      modifies this
      ensures items == PutAll(map[], rows, ItemKey) && templateId == old(templateId)
    {
      var next: map<string, ChecklistItem> := map[];
      for i := 0 to |rows|
        invariant next == PutAll(map[], rows[..i], ItemKey)
        invariant items == old(items) && templateId == old(templateId)
      {
        PutAllSnoc(map[], rows, ItemKey, i);
        next := next[rows[i].id := rows[i]];
      }
      assert rows[..|rows|] == rows;
      items := next;
    }

    /** The first pass of `tree`: an empty children list for every item. */
    method MakeNodes(flat: seq<ChecklistItem>) returns (kids: map<string, seq<string>>)
      requires ListsItems(flat, items)
      ensures kids.Keys == items.Keys && forall k | k in kids :: kids[k] == []
    {
      kids := map[];
      for i := 0 to |flat|
        invariant kids.Keys == Elems(Ids(flat[..i]))
        invariant forall k | k in kids :: kids[k] == []
      {
        NodeStep(flat, i);
        kids := kids[flat[i].id := []];
      }
      assert flat[..|flat|] == flat;
      ListedKeys(flat, items);
    }

    /**
     * The second pass of `tree`: over the sorted items, each is appended to its parent's children
     * when its `parentId` is truthy and names an item, and to the roots otherwise.
     */
    method FileAll(sorted: seq<ChecklistItem>, empty: map<string, seq<string>>)
      returns (kids: map<string, seq<string>>, rootIds: seq<string>)
      requires empty.Keys == items.Keys && forall k | k in empty :: empty[k] == []
      ensures kids == SpecKids(items, sorted) && rootIds == Ids(SelectItems(sorted, Parents(items), None))
    {
      kids := empty;
      rootIds := [];
      for i := 0 to |sorted|
        invariant Filed(items, sorted, i, kids, rootIds)
      {
        var item := sorted[i];
        if Truthy(item.parentId) && item.parentId.value in kids {
          var p := item.parentId.value;
          FileChild(items, sorted, i, kids, rootIds, p);
          kids := kids[p := kids[p] + [item.id]];
        } else {
          FileRoot(items, sorted, i, kids, rootIds);
          rootIds := rootIds + [item.id];
        }
      }
      assert sorted[..|sorted|] == sorted;
    }

    /**
     * `tree`: the forest the view renders, the stably sorted items filed under their parents.
     * `flat` is `Object.values(items)`.
     */
    method Tree(flat: seq<ChecklistItem>) returns (roots: seq<ViewItem>)
      requires Forest(items) && ListsItems(flat, items)
      ensures roots == Build(items, flat)
    {
      var empty := MakeNodes(flat);
      var sorted := SortByOrder(flat);
      var kids, rootIds := FileAll(sorted, empty);
      KidsFromSorted(items, flat);
      RootIdsReady(items, flat);
      roots := Nodes(items, kids, rootIds);
    }

    /**
     * `add(text, parentId)` with the fresh id passed in: `Ok(None)` is the early return without a
     * template; a key already in the table rejects the add.
     */
    method Add(text: string, parentId: Option<string>, id: string, flat: seq<ChecklistItem>)
      returns (r: Result<Option<string>>)
      requires ListsItems(flat, items)
      modifies db
      ensures db.templates == old(db.templates) && db.workspaces == old(db.workspaces) && db.records == old(db.records)
      ensures !Truthy(templateId) ==> r == Ok(None) && db.items == old(db.items)
      ensures Truthy(templateId) && id in old(db.items) ==> r == Err(AddConflict) && db.items == old(db.items)
      ensures Truthy(templateId) && id !in old(db.items) ==>
                && r == Ok(Some(id))
                && db.items == old(db.items)[id := NewItem(id, templateId.value, parentId, text, NewItemOrder(flat, parentId))]
    {
      if !Truthy(templateId) {
        return Ok(None);
      }
      var order := NewItemOrder(flat, parentId);
      if id in db.items {
        return Err(AddConflict);
      }
      db.items := db.items[id := NewItem(id, templateId.value, parentId, text, order)];
      return Ok(Some(id));
    }

    /** `findChildren(pid)`: every item whose `parentId` is exactly `pid`, each followed by its own. */
    method FindChildren(pid: string) returns (found: seq<string>)
      requires Forest(items)
      ensures Elems(found) == Under(Parents(items), ChildrenEq(Parents(items), pid))
      decreases Rank(Parents(items), pid)
    {
      ghost var P := Parents(items);
      ChildRank(P, pid);
      found := [];
      var pending := items.Keys;  // the snapshot `Object.values(this.items)` iterates over
      while pending != {}
        invariant pending <= items.Keys
        invariant Elems(found) == Under(P, ChildrenEq(P, pid) - pending)
        decreases |pending|
      {
        var k :| k in pending;
        var item := items[k];
        if item.parentId == Some(pid) {
          assert k in ChildrenEq(P, pid);
          var below := FindChildren(item.id);
          FindVisit(P, pid, pending, k, found, below);
          found := found + [item.id] + below;
        } else {
          FindSkip(P, pid, pending, k);
        }
        pending := pending - {k};
      }
      assert ChildrenEq(P, pid) - pending == ChildrenEq(P, pid);
    }

    /** `delete(id)`: `id` and everything `findChildren` collects go from the items table. */
    method Delete(id: string)
      requires Forest(items)
      modifies db
      ensures db.items == Without(old(db.items), DeleteSet(items, id))
      ensures db.templates == old(db.templates) && db.workspaces == old(db.workspaces) && db.records == old(db.records)
    {
      var below := FindChildren(id);
      var toDelete := [id] + below;
      ElemsConcat([id], below);
      db.items := Without(db.items, Elems(toDelete));
    }

    /** `reorder(ids, parentId)`, one transaction: the item at position `i` gets order `i` and the parent. */
    method Reorder(orderedIds: seq<string>, parentId: Option<string>)
      modifies db
      ensures db.items == ReorderedItems(old(db.items), orderedIds, parentId)
      ensures db.templates == old(db.templates) && db.workspaces == old(db.workspaces) && db.records == old(db.records)
    {
      for i := 0 to |orderedIds|
        invariant db.items == ReorderedItems(old(db.items), orderedIds[..i], parentId)
        invariant db.templates == old(db.templates) && db.workspaces == old(db.workspaces) && db.records == old(db.records)
      {
        ReorderStep(old(db.items), orderedIds, parentId, i);
        if orderedIds[i] in db.items {
          db.items := db.items[orderedIds[i] := db.items[orderedIds[i]].(order := i, parentId := parentId)];
        }
      }
      assert orderedIds[..|orderedIds|] == orderedIds;
    }
  }
}
