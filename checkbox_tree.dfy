/**
 * The check-state cascade engine of src/lib/utils/checkboxTree.ts: toggling one item forces its
 * descendants to the same state and recomputes its ancestors, nearest first, as "all direct
 * children checked"; and the indeterminate predicate.
 */
module CheckboxTree {
  import opened Types
  import opened Hierarchy

  /** The item maps the cascade is called on: a forest whose truthy parent references all resolve. */
  predicate WellFormed(m: map<string, ChecklistItem>)
  {
    Forest(m) && Closed(Parents(m))
  }

  /** `checked ? now : undefined` */
  function Stamp(checked: bool, now: int): Option<int>
  {
    if checked then Some(now) else None
  }

  /** Every field of an item except its check state. */
  function Unflagged(it: ChecklistItem): ChecklistItem
  {
    it.(checked := false, completedAt := None)
  }

  /** `a` and `b` hold the same items except, possibly, for their check state. */
  ghost predicate SameShape(a: map<string, ChecklistItem>, b: map<string, ChecklistItem>)
  {
    a.Keys == b.Keys && forall k | k in a :: Unflagged(a[k]) == Unflagged(b[k])
  }

  /** The items of `S` set to one check state. */
  ghost function Mark(m: map<string, ChecklistItem>, S: set<string>, checked: bool, stamp: Option<int>)
    : map<string, ChecklistItem>
  {
    map k | k in m :: if k in S then m[k].(checked := checked, completedAt := stamp) else m[k]
  }

  /** `items.filter(i => i.parentId === p).every(s => s.checked)` */
  predicate AllChildrenChecked(m: map<string, ChecklistItem>, p: string)
  {
    forall k | k in m && m[k].parentId == Some(p) :: m[k].checked
  }

  predicate HasChildren(m: map<string, ChecklistItem>, p: string)
  {
    exists k | k in m :: m[k].parentId == Some(p)
  }

  /** One step of the upward walk: `p` becomes checked iff all its direct children are. */
  ghost function Recompute(m: map<string, ChecklistItem>, p: string, now: int): map<string, ChecklistItem>
    requires p in m
  {
    var all := AllChildrenChecked(m, p);
    m[p := m[p].(checked := all, completedAt := Stamp(all, now))]
  }

  /** The upward walk over the items of `s`, first to last. */
  ghost function Propagate(m: map<string, ChecklistItem>, s: seq<string>, now: int): (r: map<string, ChecklistItem>)
    requires forall i | 0 <= i < |s| :: s[i] in m
    ensures r.Keys == m.Keys
    decreases |s|
  {
    if s == [] then m else Recompute(Propagate(m, s[..|s| - 1], now), s[|s| - 1], now)
  }

  /**
   * What toggling `x` to `checked` at time `now` yields: `x` and its descendants take the new
   * state, then the ancestors of `x` are recomputed nearest first.
   */
  ghost function Toggled(m: map<string, ChecklistItem>, x: string, checked: bool, now: int)
    : (r: map<string, ChecklistItem>)
    requires WellFormed(m) && x in m
    ensures r.Keys == m.Keys
  {
    var P := Parents(m);
    Propagate(Mark(m, {x} + Descendants(P, x), checked, Stamp(checked, now)), Ancestors(P, x), now)
  }

  /** Every non-leaf item is checked iff all its direct children are checked. */
  ghost predicate CheckInvariant(m: map<string, ChecklistItem>)
  {
    forall n | n in m && HasChildren(m, n) :: m[n].checked == AllChildrenChecked(m, n)
  }

  /** Some direct child of `p` is checked and some is not. */
  predicate Mixed(m: map<string, ChecklistItem>, p: string)
  {
    && (exists k | k in m && m[k].parentId == Some(p) :: m[k].checked)
    && (exists k | k in m && m[k].parentId == Some(p) :: !m[k].checked)
  }

  /**
   * `getIndeterminateState(itemId, items)`: an item is indeterminate when some but not all direct
   * children are checked, or a direct child is itself indeterminate; a leaf never is.
   */
  function IsIndeterminate(m: map<string, ChecklistItem>, x: string): (r: bool)
    requires Forest(m)
    ensures (forall k | k in m :: m[k].parentId != Some(x)) ==> !r
    ensures Mixed(m, x) ==> r
    decreases Rank(Parents(m), x)
  {
    var children := set k | k in m && m[k].parentId == Some(x);
    assert forall k | k in m && m[k].parentId == Some(x) :: k in children;
    if |children| == 0 then
      false
    else
      var checkedChildren := set k | k in children && m[k].checked;
      assert forall k | k in children && m[k].checked :: k in checkedChildren;
      var checkedCount := |checkedChildren|;
      var allChecked := forall k | k in children :: m[k].checked;
      ChildRank(Parents(m), x);
      var hasIndeterminateChild :=
        exists k | k in children :: assert k in ChildrenEq(Parents(m), x); IsIndeterminate(m, m[k].id);
      (checkedCount > 0 && !allChecked) || hasIndeterminateChild
  }

  // ---------------------------------------------------------------------------------------------
  // The cascade, as the source runs it: a copy of the map overwritten entry by entry.

  /**
   * `toggleItem(itemId, items, checked)` with `Date.now()` passed in as `now`. The input map is a
   * value, so it is not mutated.
   */
  method Toggle(itemId: string, items: map<string, ChecklistItem>, checked: bool, now: int)
    returns (updated: map<string, ChecklistItem>)
    requires WellFormed(items) && itemId in items
    ensures updated == Toggled(items, itemId, checked, now)
  {
    ghost var P := Parents(items);
    var stamp := Stamp(checked, now);
    // 1. Set this item
    updated := items[itemId := items[itemId].(checked := checked, completedAt := stamp)];
    MarkFirst(items, itemId, checked, stamp);
    // 2. Cascade down to all descendants
    updated := CascadeDown(updated, itemId, checked, stamp);
    DownDone(items, itemId, checked, stamp);
    // 3. Propagate up through ancestors
    updated := PropagateUp(items, itemId, updated, now);
  }

  /**
   * Step 3 of `toggleItem`: from the toggled item's parent, while the parent reference is truthy,
   * each ancestor becomes checked iff all its direct children are.
   */
  method PropagateUp(items: map<string, ChecklistItem>, itemId: string, down: map<string, ChecklistItem>, now: int)
    returns (updated: map<string, ChecklistItem>)
    requires WellFormed(items) && itemId in items && SameShape(items, down)
    requires forall i | 0 <= i < |Ancestors(Parents(items), itemId)| :: Ancestors(Parents(items), itemId)[i] in down
    ensures updated == Propagate(down, Ancestors(Parents(items), itemId), now)
  {
    ghost var chain := Ancestors(Parents(items), itemId);
    WalkLinks(items, itemId, 0);
    updated := down;
    var currentParentId := updated[itemId].parentId;
    ghost var i := 0;
    while Truthy(currentParentId)
      invariant 0 <= i <= |chain|
      invariant updated == Propagate(down, chain[..i], now)
      invariant SameShape(items, updated)
      invariant Truthy(currentParentId) <==> i < |chain|
      invariant i < |chain| ==> currentParentId == Some(chain[i])
      decreases |chain| - i
    {
      var p := currentParentId.value;
      var allChecked := AllChildrenChecked(updated, p);
      UpStep(down, chain, updated, i, now);
      RecomputeShape(items, updated, p, now);
      WalkLinks(items, itemId, i + 1);
      updated := updated[p := updated[p].(checked := allChecked, completedAt := Stamp(allChecked, now))];
      currentParentId := updated[p].parentId;
      i := i + 1;
    }
    assert chain[..i] == chain;
  }

  /** `cascadeDown(parentId)`: every item whose parentId is `parentId` takes the state, recursively. */
  method CascadeDown(updated: map<string, ChecklistItem>, parentId: string, checked: bool, stamp: Option<int>)
    returns (res: map<string, ChecklistItem>)
    requires Forest(updated) && parentId in updated
    ensures res == Mark(updated, Descendants(Parents(updated), parentId), checked, stamp)
    decreases Rank(Parents(updated), parentId)
  {
    ghost var P := Parents(updated);
    ChildRank(P, parentId);
    res := updated;
    var pending := updated.Keys;  // the snapshot `Object.values(updated)` iterates over
    while pending != {}
      invariant pending <= updated.Keys
      invariant res == Mark(updated, Under(P, ChildrenEq(P, parentId) - pending), checked, stamp)
      decreases |pending|
    {
      var k :| k in pending;
      var item := updated[k];
      if item.parentId == Some(parentId) {
        CascadeVisit(updated, parentId, pending, k, checked, stamp);
        res := res[item.id := res[item.id].(checked := checked, completedAt := stamp)];
        res := CascadeDown(res, item.id, checked, stamp);
      } else {
        CascadeSkip(updated, parentId, pending, k);
      }
      RemoveOne(pending, k);
      pending := pending - {k};
    }
    CascadeDone(updated, parentId, checked, stamp);
  }

  // ---------------------------------------------------------------------------------------------
  // Helper facts about Mark and shapes.

  /** Setting the toggled item first: a mark of one item, which keeps the shape. */
  lemma MarkFirst(items: map<string, ChecklistItem>, x: string, checked: bool, stamp: Option<int>)
    requires WellFormed(items) && x in items
    ensures var first := items[x := items[x].(checked := checked, completedAt := stamp)];
      && first == Mark(items, {x}, checked, stamp)
      && Forest(first) && Parents(first) == Parents(items) && x in first
  {
    MarkOne(items, x, checked, stamp);
    MarkShape(items, {x}, checked, stamp);
  }

  /** After the downward cascade: the toggled item and its descendants are marked. */
  lemma DownDone(items: map<string, ChecklistItem>, x: string, checked: bool, stamp: Option<int>)
    requires WellFormed(items) && x in items
    ensures var P := Parents(items);
      var down := Mark(Mark(items, {x}, checked, stamp), Descendants(P, x), checked, stamp);
      && down == Mark(items, {x} + Descendants(P, x), checked, stamp)
      && SameShape(items, down)
      && forall i | 0 <= i < |Ancestors(P, x)| :: Ancestors(P, x)[i] in down
  {
    var P := Parents(items);
    MarkThenMark(items, {x}, Descendants(P, x), checked, stamp);
    MarkShape(items, {x} + Descendants(P, x), checked, stamp);
  }

  /** One step of the upward walk extends the walk by the next ancestor. */
  lemma UpStep(down: map<string, ChecklistItem>, chain: seq<string>, updated: map<string, ChecklistItem>,
               i: nat, now: int)
    requires i < |chain|
    requires forall j | 0 <= j < |chain| :: chain[j] in down
    requires updated == Propagate(down, chain[..i], now)
    ensures chain[i] in updated
    ensures Recompute(updated, chain[i], now) == Propagate(down, chain[..i + 1], now)
  {
    assert chain[..i + 1][..i] == chain[..i];
  }

  /** Recomputing one item changes only its check state. */
  lemma RecomputeShape(items: map<string, ChecklistItem>, updated: map<string, ChecklistItem>, p: string, now: int)
    requires SameShape(items, updated) && p in items
    ensures SameShape(items, Recompute(updated, p, now))
    ensures Recompute(updated, p, now)[p].parentId == items[p].parentId
  {
    assert Unflagged(Recompute(updated, p, now)[p]) == Unflagged(updated[p]);
  }

  /** The walk stops exactly after the root: the parentId of each ancestor names the next one. */
  lemma WalkLinks(items: map<string, ChecklistItem>, x: string, i: nat)
    requires WellFormed(items) && x in items && i <= |Ancestors(Parents(items), x)|
    ensures var chain := Ancestors(Parents(items), x);
      var prev := if i == 0 then x else chain[i - 1];
      && prev in items
      && (Truthy(items[prev].parentId) <==> i < |chain|)
      && (i < |chain| ==> items[prev].parentId == Some(chain[i]))
  {
    var chain := Ancestors(Parents(items), x);
    var prev := if i == 0 then x else chain[i - 1];
    ChainLinks(Parents(items), x, i);
    assert ParentRef(Parents(items), prev) == items[prev].parentId;
  }

  /** What one visited child contributes to the downward cascade. */
  lemma CascadeVisit(m: map<string, ChecklistItem>, x: string, pending: set<string>, k: string,
                     checked: bool, stamp: Option<int>)
    requires Forest(m) && k in pending && pending <= m.Keys && m[k].parentId == Some(x)
    ensures var P := Parents(m);
      var before := Mark(m, Under(P, ChildrenEq(P, x) - pending), checked, stamp);
      var mid := before[k := before[k].(checked := checked, completedAt := stamp)];
      && m[k].id == k
      && Forest(mid) && Parents(mid) == P && k in mid
      && Mark(mid, Descendants(P, k), checked, stamp)
         == Mark(m, Under(P, ChildrenEq(P, x) - (pending - {k})), checked, stamp)
  {
    var P := Parents(m);
    var done := ChildrenEq(P, x) - pending;
    assert ChildrenEq(P, x) - (pending - {k}) == done + {k};
    var before := Mark(m, Under(P, done), checked, stamp);
    MarkOne(before, k, checked, stamp);
    MarkThenMark(m, Under(P, done), {k}, checked, stamp);
    MarkShape(m, Under(P, done) + {k}, checked, stamp);
    MarkThenMark(m, Under(P, done) + {k}, Descendants(P, k), checked, stamp);
    UnderInsert(P, done, k);
  }

  /** An item that is not a child of `x` contributes nothing. */
  lemma CascadeSkip(m: map<string, ChecklistItem>, x: string, pending: set<string>, k: string)
    requires k in m && m[k].parentId != Some(x)
    ensures ChildrenEq(Parents(m), x) - (pending - {k}) == ChildrenEq(Parents(m), x) - pending
  {
  }

  /** Once every item has been looked at, all the descendants are marked. */
  lemma CascadeDone(m: map<string, ChecklistItem>, x: string, checked: bool, stamp: Option<int>)
    requires Forest(m) && x in m
    ensures var P := Parents(m);
      Mark(m, Under(P, ChildrenEq(P, x) - {}), checked, stamp) == Mark(m, Descendants(P, x), checked, stamp)
  {
    var P := Parents(m);
    assert ChildrenEq(P, x) - {} == ChildrenEq(P, x);
    UnderChildren(P, x);
  }

  lemma RemoveOne(s: set<string>, k: string)
    requires k in s
    ensures |s - {k}| < |s|
  {
  }

  lemma ShapeParents(a: map<string, ChecklistItem>, b: map<string, ChecklistItem>)
    requires SameShape(a, b)
    ensures Parents(a) == Parents(b)
    ensures KeysAreIds(a) == KeysAreIds(b)
  {
    forall k | k in a
      ensures a[k].parentId == b[k].parentId && a[k].id == b[k].id
    {
      assert Unflagged(a[k]) == Unflagged(b[k]);
    }
  }

  lemma MarkShape(m: map<string, ChecklistItem>, S: set<string>, checked: bool, stamp: Option<int>)
    ensures SameShape(m, Mark(m, S, checked, stamp))
    ensures Parents(Mark(m, S, checked, stamp)) == Parents(m)
    ensures KeysAreIds(Mark(m, S, checked, stamp)) == KeysAreIds(m)
  {
    ShapeParents(m, Mark(m, S, checked, stamp));
  }

  lemma MarkOne(m: map<string, ChecklistItem>, k: string, checked: bool, stamp: Option<int>)
    requires k in m
    ensures m[k := m[k].(checked := checked, completedAt := stamp)] == Mark(m, {k}, checked, stamp)
  {
  }

  lemma MarkThenMark(m: map<string, ChecklistItem>, S: set<string>, T: set<string>, checked: bool, stamp: Option<int>)
    ensures Mark(Mark(m, S, checked, stamp), T, checked, stamp) == Mark(m, S + T, checked, stamp)
  {
  }
}
