/**
 * The forest the item store derives from its flat item map (the `tree` of
 * src/lib/stores/items.svelte.ts): every item becomes a node; sorted by `order`, each node is
 * appended to its parent's children when its parent reference is truthy and names an item, and to
 * the root list otherwise.
 */
module ItemTree {
  import opened Types
  import opened Hierarchy

  /** `interface ViewItem extends ChecklistItem { children: ViewItem[] }` */
  datatype ViewItem = ViewItem(item: ChecklistItem, children: seq<ViewItem>)

  /** Non-decreasing `order`. */
  predicate Sorted(s: seq<ChecklistItem>)
  {
    forall i, j | 0 <= i < j < |s| :: s[i].order <= s[j].order
  }

  lemma IdsSnoc(s: seq<ChecklistItem>, z: ChecklistItem)
    ensures Ids(s + [z]) == Ids(s) + [z.id]
  {
    assert (s + [z])[..|s|] == s;
  }

  lemma NoDupSnoc(s: seq<string>, x: string)
    ensures NoDup(s + [x]) <==> NoDup(s) && x !in s
  {
    if NoDup(s + [x]) {
      assert forall i | 0 <= i < |s| :: (s + [x])[i] == s[i];
      forall i | 0 <= i < |s|
        ensures s[i] != x
      {
        assert (s + [x])[i] == s[i] && (s + [x])[|s|] == x;
      }
    }
  }

  /** The id of every element of `s` occurs in the ids of `s`. */
  lemma InIds(s: seq<ChecklistItem>, z: ChecklistItem)
    requires z in s
    ensures z.id in Ids(s)
  {
    var i :| 0 <= i < |s| && s[i] == z;
    assert Ids(s)[i] == z.id;
  }

  /**
   * Inserting `x` after every element whose order is at most `x.order`: the step of a stable
   * insertion sort in which `x` comes later in the input than every element of `t`.
   */
  function Insert(x: ChecklistItem, t: seq<ChecklistItem>): (r: seq<ChecklistItem>)
    ensures |r| == |t| + 1
    decreases |t|
  {
    if t == [] || t[|t| - 1].order <= x.order then t + [x]
    else Insert(x, t[..|t| - 1]) + [t[|t| - 1]]
  }

  lemma InsertAtEnd(x: ChecklistItem, t: seq<ChecklistItem>)
    requires t == [] || t[|t| - 1].order <= x.order
    ensures Insert(x, t) == t + [x]
  {
  }

  /** Inserting adds exactly `x`. */
  lemma {:induction false} InsertElems(x: ChecklistItem, t: seq<ChecklistItem>)
    ensures multiset(Insert(x, t)) == multiset(t) + multiset{x}
    ensures forall z :: z in Insert(x, t) <==> z == x || z in t
    decreases |t|
  {
    if t != [] && t[|t| - 1].order > x.order {
      var front := t[..|t| - 1];
      assert t == front + [t[|t| - 1]];
      InsertElems(x, front);
    }
  }

  /** Inserting keeps a sorted list sorted. */
  lemma {:induction false} InsertSorted(x: ChecklistItem, t: seq<ChecklistItem>)
    requires Sorted(t)
    ensures Sorted(Insert(x, t))
    decreases |t|
  {
    if t != [] && t[|t| - 1].order > x.order {
      var front := t[..|t| - 1];
      var y := t[|t| - 1];
      assert t == front + [y];
      assert Sorted(front);
      InsertSorted(x, front);
      InsertElems(x, front);
      var ins := Insert(x, front);
      forall i | 0 <= i < |ins|
        ensures ins[i].order <= y.order
      {
        assert ins[i] in ins;
        if ins[i] != x {
          assert ins[i] in front;
          var j :| 0 <= j < |front| && front[j] == ins[i];
          assert t[j] == ins[i];
          SortedBelowLast(t, j);
        }
      }
      assert Sorted(ins + [y]);
    }
  }

  lemma {:induction false} InsertNoDup(x: ChecklistItem, t: seq<ChecklistItem>)
    requires NoDup(Ids(t)) && x.id !in Ids(t)
    ensures NoDup(Ids(Insert(x, t)))
    decreases |t|
  {
    if t == [] || t[|t| - 1].order <= x.order {
      IdsSnoc(t, x);
      NoDupSnoc(Ids(t), x.id);
    } else {
      var front := t[..|t| - 1];
      var y := t[|t| - 1];
      assert t == front + [y];
      IdsSnoc(front, y);
      NoDupSnoc(Ids(front), y.id);
      forall z | z in front
        ensures z.id in Ids(t)
      {
        InIds(t, z);
      }
      InsertNoDup(x, front);
      InsertElems(x, front);
      var ins := Insert(x, front);
      IdsSnoc(ins, y);
      NoDupSnoc(Ids(ins), y.id);
      forall i | 0 <= i < |ins|
        ensures Ids(ins)[i] != y.id
      {
        var z := ins[i];
        assert z in ins;
        if z in front {
          InIds(front, z);
        }
        InIds(t, y);
      }
    }
  }

  /** `flat.sort((a, b) => a.order - b.order)`: a stable sort, so equal orders keep their input order. */
  function SortByOrder(s: seq<ChecklistItem>): (r: seq<ChecklistItem>)
    ensures |r| == |s|
    decreases |s|
  {
    if s == [] then [] else Insert(s[|s| - 1], SortByOrder(s[..|s| - 1]))
  }

  /** The sort is a sorted permutation. */
  lemma {:induction false} SortFacts(s: seq<ChecklistItem>)
    ensures multiset(SortByOrder(s)) == multiset(s)
    ensures forall z :: z in SortByOrder(s) <==> z in s
    ensures Sorted(SortByOrder(s))
    decreases |s|
  {
    if s != [] {
      var front := s[..|s| - 1];
      assert s == front + [s[|s| - 1]];
      SortFacts(front);
      InsertElems(s[|s| - 1], SortByOrder(front));
      InsertSorted(s[|s| - 1], SortByOrder(front));
    }
  }

  lemma {:induction false} SortNoDup(s: seq<ChecklistItem>)
    requires NoDup(Ids(s))
    ensures NoDup(Ids(SortByOrder(s)))
    decreases |s|
  {
    if s != [] {
      var front := s[..|s| - 1];
      var x := s[|s| - 1];
      assert s == front + [x];
      IdsSnoc(front, x);
      NoDupSnoc(Ids(front), x.id);
      SortNoDup(front);
      SortFacts(front);
      var sf := SortByOrder(front);
      forall i | 0 <= i < |sf|
        ensures Ids(sf)[i] != x.id
      {
        assert sf[i] in sf;
        InIds(front, sf[i]);
      }
      InsertNoDup(x, sf);
    }
  }

  /** The elements of `s`, in order, whose `order` is `v`. */
  function WithOrder(s: seq<ChecklistItem>, v: int): seq<ChecklistItem>
    decreases |s|
  {
    if s == [] then [] else WithOrder(s[..|s| - 1], v) + if s[|s| - 1].order == v then [s[|s| - 1]] else []
  }

  lemma WithOrderSnoc(a: seq<ChecklistItem>, x: ChecklistItem, v: int)
    ensures WithOrder(a + [x], v) == WithOrder(a, v) + if x.order == v then [x] else []
  {
    assert (a + [x])[..|a|] == a;
  }

  /** Inserting `x` passes only elements with a larger order, so no element of `x`'s order. */
  lemma {:induction false} InsertWithOrder(x: ChecklistItem, t: seq<ChecklistItem>, v: int)
    ensures WithOrder(Insert(x, t), v) == WithOrder(t, v) + if x.order == v then [x] else []
    decreases |t|
  {
    if t == [] || t[|t| - 1].order <= x.order {
      InsertAtEnd(x, t);
      WithOrderSnoc(t, x, v);
    } else {
      InsertWithOrder(x, t[..|t| - 1], v);
      InsertWithOrderPast(x, t, v);
    }
  }

  /** The step of `InsertWithOrder` when `x` goes before the last element `y` of `t`. */
  lemma InsertWithOrderPast(x: ChecklistItem, t: seq<ChecklistItem>, v: int)
    requires t != [] && t[|t| - 1].order > x.order
    requires WithOrder(Insert(x, t[..|t| - 1]), v) == WithOrder(t[..|t| - 1], v) + if x.order == v then [x] else []
    ensures WithOrder(Insert(x, t), v) == WithOrder(t, v) + if x.order == v then [x] else []
  {
    var front := t[..|t| - 1];
    var y := t[|t| - 1];
    var ins := Insert(x, front);
    var X: seq<ChecklistItem> := if x.order == v then [x] else [];
    var Y: seq<ChecklistItem> := if y.order == v then [y] else [];
    assert Insert(x, t) == ins + [y];
    WithOrderSnoc(ins, y, v);
    assert WithOrder(Insert(x, t), v) == WithOrder(front, v) + X + Y;
    assert WithOrder(t, v) == WithOrder(front, v) + Y;
    assert X == [] || Y == [];
  }

  /** The sort is stable: the items of any one order come out in their input order. */
  lemma {:induction false} SortStable(s: seq<ChecklistItem>, v: int)
    ensures WithOrder(SortByOrder(s), v) == WithOrder(s, v)
    decreases |s|
  {
    if s != [] {
      var front := s[..|s| - 1];
      SortStable(front, v);
      InsertWithOrder(s[|s| - 1], SortByOrder(front), v);
    }
  }

  /** The elements of `s`, in order, whose followed parent link is `under` (`None`: the roots). */
  function SelectItems(s: seq<ChecklistItem>, P: ParentTable, under: Option<string>): (r: seq<ChecklistItem>)
    ensures |r| <= |s|
    decreases |s|
  {
    if s == [] then []
    else SelectItems(s[..|s| - 1], P, under) + if LinkVia(P, s[|s| - 1].parentId) == under then [s[|s| - 1]] else []
  }

  lemma SelectSnoc(s: seq<ChecklistItem>, z: ChecklistItem, P: ParentTable, under: Option<string>)
    ensures SelectItems(s + [z], P, under)
            == SelectItems(s, P, under) + if LinkVia(P, z.parentId) == under then [z] else []
  {
    assert (s + [z])[..|s|] == s;
  }

  /** The selection holds exactly the elements under `under`. */
  lemma {:induction false} SelectElems(s: seq<ChecklistItem>, P: ParentTable, under: Option<string>)
    ensures forall z :: z in SelectItems(s, P, under) <==> z in s && LinkVia(P, z.parentId) == under
    decreases |s|
  {
    if s != [] {
      var front := s[..|s| - 1];
      assert s == front + [s[|s| - 1]];
      SelectElems(front, P, under);
      SelectSnoc(front, s[|s| - 1], P, under);
    }
  }

  /** The selection of a sorted list is sorted. */
  lemma {:induction false} SelectSorted(s: seq<ChecklistItem>, P: ParentTable, under: Option<string>)
    requires Sorted(s)
    ensures Sorted(SelectItems(s, P, under))
    decreases |s|
  {
    if s != [] {
      var front := s[..|s| - 1];
      var z := s[|s| - 1];
      assert s == front + [z];
      assert Sorted(front);
      SelectSorted(front, P, under);
      SelectSnoc(front, z, P, under);
      if LinkVia(P, z.parentId) == under {
        SelectElems(front, P, under);
        var sf := SelectItems(front, P, under);
        forall i | 0 <= i < |sf|
          ensures sf[i].order <= z.order
        {
          assert sf[i] in sf;
          assert sf[i] in front;
          var j :| 0 <= j < |front| && front[j] == sf[i];
          assert s[j] == sf[i];
          SortedBelowLast(s, j);
        }
        assert Sorted(sf + [z]);
      }
    }
  }

  lemma {:induction false} SelectNoDup(s: seq<ChecklistItem>, P: ParentTable, under: Option<string>)
    requires NoDup(Ids(s))
    ensures NoDup(Ids(SelectItems(s, P, under)))
    decreases |s|
  {
    if s != [] {
      var front := s[..|s| - 1];
      var z := s[|s| - 1];
      assert s == front + [z];
      IdsSnoc(front, z);
      NoDupSnoc(Ids(front), z.id);
      SelectNoDup(front, P, under);
      SelectSnoc(front, z, P, under);
      if LinkVia(P, z.parentId) == under {
        var sel := SelectItems(front, P, under);
        SelectElems(front, P, under);
        IdsSnoc(sel, z);
        NoDupSnoc(Ids(sel), z.id);
        forall i | 0 <= i < |sel|
          ensures Ids(sel)[i] != z.id
        {
          assert sel[i] in sel;
          InIds(front, sel[i]);
        }
      }
    }
  }

  lemma SortedBelowLast(t: seq<ChecklistItem>, i: int)
    requires Sorted(t) && 0 <= i < |t|
    ensures t[i].order <= t[|t| - 1].order
  {
  }

  /** Appending an item that sorts last, then selecting, is inserting into the selection. */
  lemma SelectAppend(x: ChecklistItem, t: seq<ChecklistItem>, P: ParentTable, under: Option<string>)
    requires Sorted(t) && (t == [] || t[|t| - 1].order <= x.order)
    ensures SelectItems(t + [x], P, under)
            == if LinkVia(P, x.parentId) == under then Insert(x, SelectItems(t, P, under)) else SelectItems(t, P, under)
  {
    var sel := SelectItems(t, P, under);
    SelectSnoc(t, x, P, under);
    if LinkVia(P, x.parentId) == under && sel != [] {
      SelectElems(t, P, under);
      var last := sel[|sel| - 1];
      assert last in sel;
      var i :| 0 <= i < |t| && t[i] == last;
      SortedBelowLast(t, i);
    }
    if LinkVia(P, x.parentId) == under {
      InsertAtEnd(x, sel);
    }
  }

  /** Selecting after inserting into a sorted list is inserting into the selection. */
  lemma {:induction false} SelectInsert(x: ChecklistItem, t: seq<ChecklistItem>, P: ParentTable, under: Option<string>)
    requires Sorted(t)
    ensures SelectItems(Insert(x, t), P, under)
            == if LinkVia(P, x.parentId) == under then Insert(x, SelectItems(t, P, under)) else SelectItems(t, P, under)
    decreases |t|
  {
    if t == [] || t[|t| - 1].order <= x.order {
      InsertAtEnd(x, t);
      SelectAppend(x, t, P, under);
    } else {
      var front := t[..|t| - 1];
      assert Sorted(front);
      SelectInsert(x, front, P, under);
      SelectInsertPast(x, t, P, under);
    }
  }

  /** The step of `SelectInsert` when `x` goes before the last item `y` of `t`. */
  lemma SelectInsertPast(x: ChecklistItem, t: seq<ChecklistItem>, P: ParentTable, under: Option<string>)
    requires t != [] && t[|t| - 1].order > x.order
    requires var front := t[..|t| - 1];
      SelectItems(Insert(x, front), P, under)
      == if LinkVia(P, x.parentId) == under then Insert(x, SelectItems(front, P, under)) else SelectItems(front, P, under)
    ensures SelectItems(Insert(x, t), P, under)
            == if LinkVia(P, x.parentId) == under then Insert(x, SelectItems(t, P, under)) else SelectItems(t, P, under)
  {
    var front := t[..|t| - 1];
    var y := t[|t| - 1];
    assert t == front + [y];
    var ins := Insert(x, front);
    assert Insert(x, t) == ins + [y];
    SelectSnoc(ins, y, P, under);
    SelectSnoc(front, y, P, under);
    var sf := SelectItems(front, P, under);
    var sel := SelectItems(t, P, under);
    if LinkVia(P, y.parentId) == under {
      assert sel == sf + [y];
      if LinkVia(P, x.parentId) == under {
        assert (sf + [y])[..|sf|] == sf;
        assert Insert(x, sf + [y]) == Insert(x, sf) + [y];
        assert SelectItems(Insert(x, t), P, under) == Insert(x, sel);
      } else {
        assert SelectItems(Insert(x, t), P, under) == sel;
      }
    } else {
      assert sel == sf;
      assert SelectItems(Insert(x, t), P, under) == SelectItems(ins, P, under);
    }
  }

  /**
   * The sort is stable: the items under one parent, taken from the sorted list, are those items in
   * input order, sorted.
   */
  lemma {:induction false} SelectSortCommute(s: seq<ChecklistItem>, P: ParentTable, under: Option<string>)
    ensures SelectItems(SortByOrder(s), P, under) == SortByOrder(SelectItems(s, P, under))
    decreases |s|
  {
    if s != [] {
      var front := s[..|s| - 1];
      var x := s[|s| - 1];
      assert s == front + [x];
      SelectSortCommute(front, P, under);
      SortFacts(front);
      SelectInsert(x, SortByOrder(front), P, under);
      SelectSnoc(front, x, P, under);
      var sf := SelectItems(front, P, under);
      if LinkVia(P, x.parentId) == under {
        assert (sf + [x])[..|sf|] == sf;
        assert SortByOrder(sf + [x]) == Insert(x, SortByOrder(sf));
        assert SelectItems(s, P, under) == sf + [x];
      } else {
        assert SelectItems(s, P, under) == sf;
      }
    }
  }

  /** The distinct elements of a list. */
  function Elems(s: seq<string>): set<string>
  {
    set x | x in s
  }

  /**
   * `kids` is an adjacency of the items of `m`: each item's list holds, once each, exactly the
   * items whose `parentId` is that item.
   */
  ghost predicate KidsExact(m: map<string, ChecklistItem>, kids: map<string, seq<string>>)
  {
    && kids.Keys == m.Keys
    && (forall k | k in kids :: NoDup(kids[k]))
    && (forall k, c | k in kids :: c in kids[k] <==> c in m && m[c].parentId == Some(k))
  }

  /** The node of item `id` with, recursively, the nodes of its children in adjacency order. */
  function NodeFrom(m: map<string, ChecklistItem>, kids: map<string, seq<string>>, id: string): (n: ViewItem)
    requires Forest(m) && KidsExact(m, kids) && id in m
    ensures n.item == m[id] && |n.children| == |kids[id]|
    decreases Rank(Parents(m), id)
  {
    var cs := kids[id];
    ChildRank(Parents(m), id);
    ViewItem(m[id], seq(|cs|, j requires 0 <= j < |cs| =>
                          assert cs[j] in cs && cs[j] in ChildrenEq(Parents(m), id);
                          NodeFrom(m, kids, cs[j])))
  }

  /** The nodes of the items `cs`. */
  function Nodes(m: map<string, ChecklistItem>, kids: map<string, seq<string>>, cs: seq<string>): (ns: seq<ViewItem>)
    requires Forest(m) && KidsExact(m, kids) && forall j | 0 <= j < |cs| :: cs[j] in m
    ensures |ns| == |cs| && forall j | 0 <= j < |cs| :: ns[j] == NodeFrom(m, kids, cs[j])
  {
    seq(|cs|, j requires 0 <= j < |cs| => NodeFrom(m, kids, cs[j]))
  }

  /** The items of a forest in pre-order: each node, then its children's subtrees in order. */
  function Flatten(n: ViewItem): seq<ChecklistItem>
    decreases n, 1
  {
    [n.item] + FlattenForest(n.children)
  }

  function FlattenForest(ns: seq<ViewItem>): seq<ChecklistItem>
    decreases ns, 0
  {
    if ns == [] then [] else Flatten(ns[0]) + FlattenForest(ns[1..])
  }

  /** `f` lists, once each, exactly the items of `m` whose ids are in `S`, each with its fields. */
  ghost predicate Listed(f: seq<ChecklistItem>, m: map<string, ChecklistItem>, S: set<string>)
  {
    && NoDup(Ids(f))
    && (forall j | 0 <= j < |f| :: f[j].id in m && m[f[j].id] == f[j])
    && (forall k :: k in Ids(f) <==> k in S)
  }

  lemma {:induction false} IdsConcat(a: seq<ChecklistItem>, b: seq<ChecklistItem>)
    ensures Ids(a + b) == Ids(a) + Ids(b)
    decreases |b|
  {
    if b != [] {
      var front := b[..|b| - 1];
      assert b == front + [b[|b| - 1]];
      assert a + b == (a + front) + [b[|b| - 1]];
      IdsConcat(a, front);
      IdsSnoc(a + front, b[|b| - 1]);
      IdsSnoc(front, b[|b| - 1]);
    }
  }

  lemma NoDupConcat(a: seq<string>, b: seq<string>)
    requires NoDup(a) && NoDup(b) && forall i | 0 <= i < |a| :: a[i] !in b
    ensures NoDup(a + b)
  {
    forall i, j | 0 <= i < j < |a + b|
      ensures (a + b)[i] != (a + b)[j]
    {
      if j >= |a| && i < |a| {
        assert (a + b)[j] == b[j - |a|];
      }
    }
  }

  /** Two listings of disjoint id sets, one after the other, list their union. */
  lemma ListedConcat(a: seq<ChecklistItem>, b: seq<ChecklistItem>, m: map<string, ChecklistItem>, A: set<string>, B: set<string>)
    requires Listed(a, m, A) && Listed(b, m, B) && A * B == {}
    ensures Listed(a + b, m, A + B)
  {
    IdsConcat(a, b);
    forall i | 0 <= i < |Ids(a)|
      ensures Ids(a)[i] !in Ids(b)
    {
      assert Ids(a)[i] in Ids(a);
      assert Ids(a)[i] in A;
      assert Ids(a)[i] !in B by {
        assert Ids(a)[i] !in A * B;
      }
    }
    NoDupConcat(Ids(a), Ids(b));
    forall j | 0 <= j < |a + b|
      ensures (a + b)[j].id in m && m[(a + b)[j].id] == (a + b)[j]
    {
      if j >= |a| {
        assert (a + b)[j] == b[j - |a|];
      }
    }
  }

  /** The subtree of `id` lists `id` and its descendants, once each. */
  lemma {:induction false} SubtreeListed(m: map<string, ChecklistItem>, kids: map<string, seq<string>>, id: string)
    requires Forest(m) && KidsExact(m, kids) && id in m
    ensures Listed(Flatten(NodeFrom(m, kids, id)), m, {id} + Descendants(Parents(m), id))
    decreases Rank(Parents(m), id), 1
  {
    var P := Parents(m);
    var cs := kids[id];
    var n := NodeFrom(m, kids, id);
    assert n.children == Nodes(m, kids, cs);
    ChildRank(P, id);
    forall j | 0 <= j < |cs|
      ensures cs[j] in m && Link(P, cs[j]) == Some(id) && Rank(P, cs[j]) < Rank(P, id)
    {
      assert cs[j] in cs;
      assert cs[j] in ChildrenEq(P, id);
    }
    SiblingsListed(m, kids, cs, Some(id), Rank(P, id));
    assert Elems(cs) == ChildrenEq(P, id);
    UnderChildren(P, id);
    NotOwnAncestor(P, id);
    assert Listed([m[id]], m, {id});
    ListedConcat([m[id]], FlattenForest(n.children), m, {id}, Descendants(P, id));
  }

  /** The first of a list of distinct siblings heads a subtree apart from what is under the others. */
  lemma FirstSubtreeApart(P: ParentTable, cs: seq<string>, under: Option<string>)
    requires Acyclic(P) && NoDup(cs) && cs != []
    requires forall j | 0 <= j < |cs| :: cs[j] in P && Link(P, cs[j]) == under
    ensures ({cs[0]} + Descendants(P, cs[0])) * Under(P, Elems(cs[1..])) == {}
    ensures Under(P, Elems(cs)) == Under(P, Elems(cs[1..])) + {cs[0]} + Descendants(P, cs[0])
  {
    var rest := cs[1..];
    forall d | d in Under(P, Elems(rest))
      ensures d !in {cs[0]} + Descendants(P, cs[0])
    {
      var c2 :| c2 in Elems(rest) && (d == c2 || c2 in Ancestors(P, d));
      var j :| 0 <= j < |rest| && rest[j] == c2;
      assert cs[j + 1] == c2 && cs[0] != c2;
      SiblingsDisjoint(P, cs[0], c2);
      assert d in {c2} + Descendants(P, c2);
    }
    assert Elems(cs) == Elems(rest) + {cs[0]};
    UnderInsert(P, Elems(rest), cs[0]);
  }

  /** A list of distinct siblings: their subtrees, one after the other, list everything under them once. */
  lemma {:induction false} SiblingsListed(m: map<string, ChecklistItem>, kids: map<string, seq<string>>,
                                          cs: seq<string>, under: Option<string>, bound: nat)
    requires Forest(m) && KidsExact(m, kids) && NoDup(cs)
    requires forall j | 0 <= j < |cs| :: cs[j] in m && Link(Parents(m), cs[j]) == under && Rank(Parents(m), cs[j]) < bound
    ensures Listed(FlattenForest(Nodes(m, kids, cs)), m, Under(Parents(m), Elems(cs)))
    decreases bound, 0, |cs|
  {
    var P := Parents(m);
    if cs != [] {
      var ns := Nodes(m, kids, cs);
      var rest := cs[1..];
      assert ns[1..] == Nodes(m, kids, rest);
      SubtreeListed(m, kids, cs[0]);
      SiblingsListed(m, kids, rest, under, bound);
      var A := {cs[0]} + Descendants(P, cs[0]);
      var B := Under(P, Elems(rest));
      FirstSubtreeApart(P, cs, under);
      ListedConcat(Flatten(ns[0]), FlattenForest(ns[1..]), m, A, B);
    }
  }

  /** The items the nodes of `ns` carry. */
  function Items(ns: seq<ViewItem>): (r: seq<ChecklistItem>)
    ensures |r| == |ns| && forall j | 0 <= j < |ns| :: r[j] == ns[j].item
  {
    seq(|ns|, j requires 0 <= j < |ns| => ns[j].item)
  }

  /** The adjacency of the second pass: each item's children, in the order of the sorted list. */
  function SpecKids(m: map<string, ChecklistItem>, sorted: seq<ChecklistItem>): (kids: map<string, seq<string>>)
    ensures kids.Keys == m.Keys
  {
    map k | k in m :: Ids(SelectItems(sorted, Parents(m), Some(k)))
  }

  /** The sorted list still lists the items of the map. */
  lemma SortedLists(m: map<string, ChecklistItem>, flat: seq<ChecklistItem>)
    requires ListsItems(flat, m)
    ensures Lists(SortByOrder(flat), m)
  {
    SortFacts(flat);
    SortNoDup(flat);
    forall k | k in m
      ensures m[k] in flat
    {
      var i :| 0 <= i < |flat| && flat[i].id == k;
    }
  }

  /** `s` lists the items of `m`, once each. */
  ghost predicate Lists(s: seq<ChecklistItem>, m: map<string, ChecklistItem>)
  {
    && NoDup(Ids(s))
    && (forall z | z in s :: z.id in m && m[z.id] == z)
    && (forall k | k in m :: m[k] in s && m[k].id == k)
  }

  /** Selecting from a listing keeps the ids distinct and the items those of the map. */
  lemma SelectKeepsItems(s: seq<ChecklistItem>, m: map<string, ChecklistItem>, under: Option<string>)
    requires Lists(s, m)
    ensures var sel := SelectItems(s, Parents(m), under);
      && NoDup(Ids(sel))
      && (forall j | 0 <= j < |sel| :: sel[j].id in m && m[sel[j].id] == sel[j])
  {
    var sel := SelectItems(s, Parents(m), under);
    SelectElems(s, Parents(m), under);
    SelectNoDup(s, Parents(m), under);
    forall j | 0 <= j < |sel|
      ensures sel[j].id in m && m[sel[j].id] == sel[j]
    {
      assert sel[j] in sel;
    }
  }

  /** Selecting from a listing gives exactly the items of the map whose parent link is `under`. */
  lemma SelectExactIds(s: seq<ChecklistItem>, m: map<string, ChecklistItem>, under: Option<string>)
    requires Lists(s, m)
    ensures forall c :: c in Ids(SelectItems(s, Parents(m), under)) <==> c in m && LinkVia(Parents(m), m[c].parentId) == under
  {
    var sel := SelectItems(s, Parents(m), under);
    SelectElems(s, Parents(m), under);
    forall c | c in Ids(sel)
      ensures c in m && LinkVia(Parents(m), m[c].parentId) == under
    {
      var j :| 0 <= j < |sel| && Ids(sel)[j] == c;
      assert sel[j] in sel;
    }
    forall c | c in m && LinkVia(Parents(m), m[c].parentId) == under
      ensures c in Ids(sel)
    {
      assert m[c] in sel;
      InIds(sel, m[c]);
    }
  }

  /** The ids of the selected items of the sorted list are the ids of exactly those items of the map. */
  lemma SelectedIds(m: map<string, ChecklistItem>, flat: seq<ChecklistItem>, under: Option<string>)
    requires ListsItems(flat, m)
    ensures var sel := SelectItems(SortByOrder(flat), Parents(m), under);
      && NoDup(Ids(sel))
      && (forall j | 0 <= j < |sel| :: sel[j].id in m && m[sel[j].id] == sel[j])
      && (forall c :: c in Ids(sel) <==> c in m && LinkVia(Parents(m), m[c].parentId) == under)
  {
    SortedLists(m, flat);
    SelectKeepsItems(SortByOrder(flat), m, under);
    SelectExactIds(SortByOrder(flat), m, under);
  }

  /** The second pass's adjacency is exact. */
  lemma KidsFromSorted(m: map<string, ChecklistItem>, flat: seq<ChecklistItem>)
    requires Forest(m) && ListsItems(flat, m)
    ensures KidsExact(m, SpecKids(m, SortByOrder(flat)))
  {
    var P := Parents(m);
    var kids := SpecKids(m, SortByOrder(flat));
    forall k | k in kids
      ensures NoDup(kids[k])
      ensures forall c :: c in kids[k] <==> c in m && m[c].parentId == Some(k)
    {
      SelectedIds(m, flat, Some(k));
      forall c | c in m
        ensures LinkVia(P, m[c].parentId) == Some(k) <==> m[c].parentId == Some(k)
      {
        assert P[c] == m[c].parentId;
      }
    }
  }

  /** `tree`: the root nodes, built from the stably sorted items (`flat` is `Object.values(items)`). */
  function Build(m: map<string, ChecklistItem>, flat: seq<ChecklistItem>): (roots: seq<ViewItem>)
    requires Forest(m) && ListsItems(flat, m)
  {
    var sorted := SortByOrder(flat);
    KidsFromSorted(m, flat);
    SelectedIds(m, flat, None);
    var rootIds := Ids(SelectItems(sorted, Parents(m), None));
    assert forall j | 0 <= j < |rootIds| :: rootIds[j] in m by {
      forall j | 0 <= j < |rootIds|
        ensures rootIds[j] in m
      {
        assert rootIds[j] in rootIds;
      }
    }
    Nodes(m, SpecKids(m, sorted), rootIds)
  }

  /** Every item of a listing is a root or lies under one. */
  lemma RootsCoverAll(s: seq<ChecklistItem>, m: map<string, ChecklistItem>)
    requires Forest(m) && Lists(s, m)
    ensures Under(Parents(m), Elems(Ids(SelectItems(s, Parents(m), None)))) == m.Keys
  {
    var P := Parents(m);
    var rootIds := Ids(SelectItems(s, P, None));
    SelectExactIds(s, m, None);
    forall d | d in m
      ensures d in Under(P, Elems(rootIds))
    {
      var A := Ancestors(P, d);
      ChainLinks(P, d, |A|);
      if A == [] {
        assert P[d] == m[d].parentId;
        assert d in Elems(rootIds);
      } else {
        var r := A[|A| - 1];
        assert P[r] == m[r].parentId;
        assert r in Elems(rootIds) && r in A;
      }
    }
  }

  /** The root ids: distinct items without a followed parent link. */
  lemma RootIdsReady(m: map<string, ChecklistItem>, flat: seq<ChecklistItem>)
    requires Forest(m) && ListsItems(flat, m)
    ensures var rootIds := Ids(SelectItems(SortByOrder(flat), Parents(m), None));
      && NoDup(rootIds)
      && forall j | 0 <= j < |rootIds| ::
           rootIds[j] in m && Link(Parents(m), rootIds[j]) == None && Rank(Parents(m), rootIds[j]) < |Parents(m)| + 1
  {
    var P := Parents(m);
    var rootIds := Ids(SelectItems(SortByOrder(flat), P, None));
    SelectedIds(m, flat, None);
    forall j | 0 <= j < |rootIds|
      ensures rootIds[j] in m && Link(P, rootIds[j]) == None && Rank(P, rootIds[j]) < |P| + 1
    {
      assert rootIds[j] in rootIds;
      assert P[rootIds[j]] == m[rootIds[j]].parentId;
      AncestorsStep(P, rootIds[j]);
    }
  }

  /** Flattening the forest lists every item once, each node carrying its item. */
  lemma BuildListed(m: map<string, ChecklistItem>, flat: seq<ChecklistItem>)
    requires Forest(m) && ListsItems(flat, m)
    ensures Listed(FlattenForest(Build(m, flat)), m, m.Keys)
  {
    var sorted := SortByOrder(flat);
    KidsFromSorted(m, flat);
    RootIdsReady(m, flat);
    SiblingsListed(m, SpecKids(m, sorted), Ids(SelectItems(sorted, Parents(m), None)), None, |Parents(m)| + 1);
    SortedLists(m, flat);
    RootsCoverAll(sorted, m);
  }

  /** A list that holds every key's item once is a listing of the map. */
  lemma ListedIsListing(f: seq<ChecklistItem>, m: map<string, ChecklistItem>)
    requires Listed(f, m, m.Keys)
    ensures ListsItems(f, m)
  {
    assert Elems(Ids(f)) == m.Keys;
    NoDupCard(Ids(f));
    forall k | k in m
      ensures exists i | 0 <= i < |f| :: f[i].id == k
    {
      assert k in Ids(f);
      var i :| 0 <= i < |Ids(f)| && Ids(f)[i] == k;
    }
  }

  /** The round trip of the tree builder: flattening the forest gives back the listing of the map. */
  lemma BuildListsItems(m: map<string, ChecklistItem>, flat: seq<ChecklistItem>)
    requires Forest(m) && ListsItems(flat, m)
    ensures ListsItems(FlattenForest(Build(m, flat)), m)
  {
    BuildListed(m, flat);
    ListedIsListing(FlattenForest(Build(m, flat)), m);
  }

  lemma {:induction false} NoDupCard(s: seq<string>)
    requires NoDup(s)
    ensures |Elems(s)| == |s|
    decreases |s|
  {
    if s != [] {
      var front := s[..|s| - 1];
      assert s == front + [s[|s| - 1]];
      NoDupSnoc(front, s[|s| - 1]);
      NoDupCard(front);
      assert Elems(s) == Elems(front) + {s[|s| - 1]};
    }
  }

  /** The root list: the items without a followed parent link, in input order, stably sorted by `order`. */
  lemma BuildRoots(m: map<string, ChecklistItem>, flat: seq<ChecklistItem>)
    requires Forest(m) && ListsItems(flat, m)
    ensures Items(Build(m, flat)) == SortByOrder(SelectItems(flat, Parents(m), None))
    ensures forall z :: z in Items(Build(m, flat)) <==> z in flat && LinkVia(Parents(m), z.parentId) == None
    ensures Sorted(Items(Build(m, flat)))
    ensures forall v :: WithOrder(Items(Build(m, flat)), v) == WithOrder(SelectItems(flat, Parents(m), None), v)
  {
    var sel := SelectItems(SortByOrder(flat), Parents(m), None);
    SelectedIds(m, flat, None);
    assert Items(Build(m, flat)) == sel;
    SelectSortCommute(flat, Parents(m), None);
    SelectElems(flat, Parents(m), None);
    SortFacts(SelectItems(flat, Parents(m), None));
    forall v
      ensures WithOrder(Items(Build(m, flat)), v) == WithOrder(SelectItems(flat, Parents(m), None), v)
    {
      SortStable(SelectItems(flat, Parents(m), None), v);
    }
  }

  /**
   * The children of the node of an item: the items whose `parentId` is that item, in input order,
   * stably sorted by `order`.
   */
  lemma BuildChildren(m: map<string, ChecklistItem>, flat: seq<ChecklistItem>, id: string)
    requires Forest(m) && ListsItems(flat, m) && id in m
    ensures KidsExact(m, SpecKids(m, SortByOrder(flat)))
    ensures var node := NodeFrom(m, SpecKids(m, SortByOrder(flat)), id);
      && node.item == m[id]
      && Items(node.children) == SortByOrder(SelectItems(flat, Parents(m), Some(id)))
      && (forall z :: z in Items(node.children) <==> z in flat && z.parentId == Some(id))
      && Sorted(Items(node.children))
      && forall v :: WithOrder(Items(node.children), v) == WithOrder(SelectItems(flat, Parents(m), Some(id)), v)
  {
    var P := Parents(m);
    KidsFromSorted(m, flat);
    var sel := SelectItems(SortByOrder(flat), P, Some(id));
    SelectedIds(m, flat, Some(id));
    var node := NodeFrom(m, SpecKids(m, SortByOrder(flat)), id);
    assert Items(node.children) == sel;
    SelectSortCommute(flat, P, Some(id));
    SelectElems(flat, P, Some(id));
    SortFacts(SelectItems(flat, P, Some(id)));
    forall z | z in flat
      ensures LinkVia(P, z.parentId) == Some(id) <==> z.parentId == Some(id)
    {
    }
    forall v
      ensures WithOrder(Items(node.children), v) == WithOrder(SelectItems(flat, P, Some(id)), v)
    {
      SortStable(SelectItems(flat, P, Some(id)), v);
    }
  }
}
