/**
 * What toggling an item does to the whole map, proved about the specification `Toggled` that
 * `CheckboxTree.Toggle` computes, and what the indeterminate predicate means.
 */
module CheckboxTreeLemmas {
  import opened Types
  import opened Hierarchy
  import opened CheckboxTree

  // ---------------------------------------------------------------------------------------------
  // The upward walk in general.

  lemma {:induction false} PropagateShape(m: map<string, ChecklistItem>, s: seq<string>, now: int)
    requires forall i | 0 <= i < |s| :: s[i] in m
    ensures SameShape(m, Propagate(m, s, now))
    decreases |s|
  {
    if s != [] {
      var front := s[..|s| - 1];
      PropagateShape(m, front, now);
      RecomputeShape(m, Propagate(m, front, now), s[|s| - 1], now);
    }
  }

  /** An item that occurs nowhere after position `n` of the walk keeps the value it had there. */
  lemma {:induction false} PropagatePrefix(m: map<string, ChecklistItem>, s: seq<string>, now: int, n: nat, k: string)
    requires forall i | 0 <= i < |s| :: s[i] in m
    requires n <= |s| && k in m && k !in s[n..]
    ensures Propagate(m, s, now)[k] == Propagate(m, s[..n], now)[k]
    decreases |s| - n
  {
    if n < |s| {
      var front := s[..|s| - 1];
      assert front[..n] == s[..n];
      assert front[n..] == s[n..][..|s| - 1 - n];
      assert s[|s| - 1] == s[n..][|s| - 1 - n];
      PropagatePrefix(m, front, now, n, k);
    } else {
      assert s[..n] == s;
    }
  }

  /** Two maps with the same parent structure agree on "all children checked" when the children agree. */
  lemma ChildrenAgree(a: map<string, ChecklistItem>, b: map<string, ChecklistItem>, p: string)
    requires SameShape(a, b)
    requires forall k | k in a && a[k].parentId == Some(p) :: a[k].checked == b[k].checked
    ensures AllChildrenChecked(a, p) == AllChildrenChecked(b, p)
    ensures HasChildren(a, p) == HasChildren(b, p)
  {
    ShapeParents(a, b);
    forall k | k in a
      ensures a[k].parentId == b[k].parentId
    {
      assert Parents(a)[k] == Parents(b)[k];
    }
  }

  /**
   * After a walk over `s`, an item `s[i]` that is not visited again, and none of whose children is
   * visited from position `i` on, is checked iff all its children are, stamped to match.
   */
  lemma PropagateAt(m: map<string, ChecklistItem>, s: seq<string>, now: int, i: nat)
    requires forall j | 0 <= j < |s| :: s[j] in m
    requires i < |s|
    requires forall j | i < j < |s| :: s[j] != s[i]
    requires forall j | i <= j < |s| :: m[s[j]].parentId != Some(s[i])
    ensures var r := Propagate(m, s, now);
      && r[s[i]].checked == AllChildrenChecked(r, s[i])
      && r[s[i]].completedAt == Stamp(r[s[i]].checked, now)
  {
    var r := Propagate(m, s, now);
    var before := Propagate(m, s[..i], now);
    assert s[..i + 1][..i] == s[..i];
    assert s[i] !in s[i + 1..];
    PropagatePrefix(m, s, now, i + 1, s[i]);
    PropagateShape(m, s, now);
    PropagateShape(m, s[..i], now);
    ShapeParents(m, r);
    ShapeParents(m, before);
    forall k | k in before && before[k].parentId == Some(s[i])
      ensures before[k].checked == r[k].checked
    {
      assert Parents(before)[k] == Parents(m)[k];
      assert k !in s[i..];
      PropagatePrefix(m, s, now, i, k);
    }
    assert SameShape(before, r) by {
      forall k | k in before
        ensures Unflagged(before[k]) == Unflagged(r[k])
      {
        assert Unflagged(before[k]) == Unflagged(m[k]);
      }
    }
    ChildrenAgree(before, r, s[i]);
  }

  // ---------------------------------------------------------------------------------------------
  // The ancestor chain of a well-formed map.

  /** No ancestor is the child of itself or of an ancestor nearer to the item. */
  lemma ChainNoChild(m: map<string, ChecklistItem>, x: string)
    requires WellFormed(m) && x in m
    ensures var A := Ancestors(Parents(m), x);
      && NoDup(A)
      && (forall j | 0 <= j < |A| :: A[j] in m)
      && (forall i, j | 0 <= i <= j < |A| :: m[A[j]].parentId != Some(A[i]))
  {
    var P := Parents(m);
    var A := Ancestors(P, x);
    AncestorsNoDup(P, x);
    forall i, j | 0 <= i < j < |A|
      ensures A[i] != A[j]
    {
      assert ([x] + A)[i + 1] != ([x] + A)[j + 1];
    }
    forall i, j | 0 <= i <= j < |A|
      ensures m[A[j]].parentId != Some(A[i])
    {
      ChainLinks(P, x, j + 1);
      assert LinkVia(P, Some(A[i])) == Some(A[i]);
      if j + 1 < |A| {
        assert ([x] + A)[i + 1] != ([x] + A)[j + 2];
      }
      assert P[A[j]] == m[A[j]].parentId;
    }
  }

  /** A parent reference to an item of a map without an empty key is a link. */
  lemma ParentIsLink(m: map<string, ChecklistItem>, k: string, n: string)
    requires "" !in m && k in m && n in m && m[k].parentId == Some(n)
    ensures Link(Parents(m), k) == Some(n)
  {
    assert Parents(m)[k] == Some(n);
  }

  /**
   * The items a toggle of `x` may touch: `x`, its descendants and its ancestors. The parent of any
   * of them is again one of them.
   */
  ghost predicate InZone(m: map<string, ChecklistItem>, x: string, k: string)
    requires WellFormed(m) && x in m
  {
    k == x || k in Descendants(Parents(m), x) || k in Ancestors(Parents(m), x)
  }

  lemma ZoneUpClosed(m: map<string, ChecklistItem>, x: string, k: string, n: string)
    requires WellFormed(m) && x in m && k in m && n in m && m[k].parentId == Some(n)
    ensures InZone(m, x, k) ==> InZone(m, x, n)
  {
    var P := Parents(m);
    var A := Ancestors(P, x);
    ParentIsLink(m, k, n);
    if k == x {
      AncestorsStep(P, x);
    } else if k in Descendants(P, x) {
      DescendantParent(P, x, k);
    } else if k in A {
      var j :| 0 <= j < |A| && A[j] == k;
      ChainLinks(P, x, j + 1);
    }
  }

  /** A child of `x` or of a descendant of `x` is a descendant of `x`. */
  lemma ChildOfMarked(m: map<string, ChecklistItem>, x: string, k: string, n: string)
    requires WellFormed(m) && x in m && k in m && n in m && m[k].parentId == Some(n)
    requires n == x || n in Descendants(Parents(m), x)
    ensures k in Descendants(Parents(m), x)
  {
    ParentIsLink(m, k, n);
    AncestorsStep(Parents(m), k);
  }

  // ---------------------------------------------------------------------------------------------
  // What a toggle yields.

  /** The toggled map has the same items as the input, differing at most in check state. */
  lemma ToggledShape(m: map<string, ChecklistItem>, x: string, checked: bool, now: int)
    requires WellFormed(m) && x in m
    ensures SameShape(m, Toggled(m, x, checked, now))
    ensures Parents(Toggled(m, x, checked, now)) == Parents(m)
    ensures WellFormed(Toggled(m, x, checked, now))
  {
    var P := Parents(m);
    var down := Mark(m, {x} + Descendants(P, x), checked, Stamp(checked, now));
    var r := Toggled(m, x, checked, now);
    MarkShape(m, {x} + Descendants(P, x), checked, Stamp(checked, now));
    PropagateShape(down, Ancestors(P, x), now);
    assert SameShape(m, r) by {
      forall k | k in m
        ensures Unflagged(m[k]) == Unflagged(r[k])
      {
        assert Unflagged(m[k]) == Unflagged(down[k]);
      }
    }
    ShapeParents(m, r);
    assert Closed(Parents(r));
  }

  /** Items outside `x`, its descendants and its ancestors are unchanged. */
  lemma ToggledFrame(m: map<string, ChecklistItem>, x: string, checked: bool, now: int, k: string)
    requires WellFormed(m) && x in m && k in m && !InZone(m, x, k)
    ensures Toggled(m, x, checked, now)[k] == m[k]
  {
    var P := Parents(m);
    var down := Mark(m, {x} + Descendants(P, x), checked, Stamp(checked, now));
    assert Ancestors(P, x)[0..] == Ancestors(P, x);
    assert Ancestors(P, x)[..0] == [];
    PropagatePrefix(down, Ancestors(P, x), now, 0, k);
  }

  /** The toggled item takes the requested state, stamped with `now` when checked. */
  lemma ToggledTarget(m: map<string, ChecklistItem>, x: string, checked: bool, now: int)
    requires WellFormed(m) && x in m
    ensures Toggled(m, x, checked, now)[x] == m[x].(checked := checked, completedAt := Stamp(checked, now))
  {
    var P := Parents(m);
    var down := Mark(m, {x} + Descendants(P, x), checked, Stamp(checked, now));
    NotOwnAncestor(P, x);
    assert Ancestors(P, x)[0..] == Ancestors(P, x);
    assert Ancestors(P, x)[..0] == [];
    PropagatePrefix(down, Ancestors(P, x), now, 0, x);
  }

  /** Every descendant of the toggled item takes the same state and the same stamp. */
  lemma ToggledDescendants(m: map<string, ChecklistItem>, x: string, checked: bool, now: int, d: string)
    requires WellFormed(m) && x in m && d in Descendants(Parents(m), x)
    ensures Toggled(m, x, checked, now)[d] == m[d].(checked := checked, completedAt := Stamp(checked, now))
  {
    var P := Parents(m);
    var A := Ancestors(P, x);
    var down := Mark(m, {x} + Descendants(P, x), checked, Stamp(checked, now));
    forall i | 0 <= i < |A|
      ensures A[i] != d
    {
      AncestorsDisjointFromDescendants(P, x, A[i]);
    }
    assert A[0..] == A;
    assert A[..0] == [];
    PropagatePrefix(down, A, now, 0, d);
  }

  /** Each ancestor ends checked iff all its direct children are, stamped to match. */
  lemma ToggledAncestors(m: map<string, ChecklistItem>, x: string, checked: bool, now: int, i: nat)
    requires WellFormed(m) && x in m && i < |Ancestors(Parents(m), x)|
    ensures var r := Toggled(m, x, checked, now);
      var a := Ancestors(Parents(m), x)[i];
      && r[a].checked == AllChildrenChecked(r, a)
      && r[a].completedAt == Stamp(r[a].checked, now)
  {
    var P := Parents(m);
    var A := Ancestors(P, x);
    var down := Mark(m, {x} + Descendants(P, x), checked, Stamp(checked, now));
    ChainNoChild(m, x);
    forall j | i <= j < |A|
      ensures down[A[j]].parentId != Some(A[i])
    {
      assert down[A[j]].parentId == m[A[j]].parentId;
    }
    PropagateAt(down, A, now, i);
  }

  /** Toggling keeps "every non-leaf is checked iff all its direct children are checked". */
  lemma ToggledKeepsInvariant(m: map<string, ChecklistItem>, x: string, checked: bool, now: int)
    requires WellFormed(m) && x in m && CheckInvariant(m)
    ensures CheckInvariant(Toggled(m, x, checked, now))
  {
    var P := Parents(m);
    var A := Ancestors(P, x);
    var r := Toggled(m, x, checked, now);
    ToggledShape(m, x, checked, now);
    forall n | n in r && HasChildren(r, n)
      ensures r[n].checked == AllChildrenChecked(r, n)
    {
      if n in A {
        var i :| 0 <= i < |A| && A[i] == n;
        ToggledAncestors(m, x, checked, now, i);
      } else if n == x || n in Descendants(P, x) {
        MarkedNodeAgrees(m, x, checked, now, n);
      } else {
        OutsideNodeAgrees(m, x, checked, now, n);
      }
    }
  }

  /** A non-leaf `x` or descendant of `x`: it and all its children take the toggled state. */
  lemma MarkedNodeAgrees(m: map<string, ChecklistItem>, x: string, checked: bool, now: int, n: string)
    requires WellFormed(m) && x in m && n in m
    requires n == x || n in Descendants(Parents(m), x)
    requires HasChildren(Toggled(m, x, checked, now), n)
    ensures Toggled(m, x, checked, now)[n].checked == AllChildrenChecked(Toggled(m, x, checked, now), n)
  {
    var r := Toggled(m, x, checked, now);
    ToggledShape(m, x, checked, now);
    forall k | k in r && r[k].parentId == Some(n)
      ensures r[k].checked == checked
    {
      assert Parents(r)[k] == Parents(m)[k];
      ChildOfMarked(m, x, k, n);
      ToggledDescendants(m, x, checked, now, k);
    }
    if n == x {
      ToggledTarget(m, x, checked, now);
    } else {
      ToggledDescendants(m, x, checked, now, n);
    }
  }

  /** A non-leaf outside the touched items: it and all its children are unchanged. */
  lemma OutsideNodeAgrees(m: map<string, ChecklistItem>, x: string, checked: bool, now: int, n: string)
    requires WellFormed(m) && x in m && n in m && CheckInvariant(m) && !InZone(m, x, n)
    requires HasChildren(Toggled(m, x, checked, now), n)
    ensures Toggled(m, x, checked, now)[n].checked == AllChildrenChecked(Toggled(m, x, checked, now), n)
  {
    var r := Toggled(m, x, checked, now);
    ToggledShape(m, x, checked, now);
    forall k | k in m && m[k].parentId == Some(n)
      ensures m[k].checked == r[k].checked
    {
      ZoneUpClosed(m, x, k, n);
      ToggledFrame(m, x, checked, now, k);
    }
    ChildrenAgree(m, r, n);
    ToggledFrame(m, x, checked, now, n);
  }

  // ---------------------------------------------------------------------------------------------
  // Re-checking a checked item.

  /** Under the invariant, everything below a checked item is checked. */
  lemma {:induction false} CheckedBelow(m: map<string, ChecklistItem>, x: string, d: string)
    requires WellFormed(m) && x in m && CheckInvariant(m) && m[x].checked
    requires d in Descendants(Parents(m), x)
    ensures m[d].checked
    decreases |Ancestors(Parents(m), d)|
  {
    var P := Parents(m);
    DescendantParent(P, x, d);
    var q := Link(P, d).value;
    AncestorsStep(P, d);
    if q != x {
      CheckedBelow(m, x, q);
    }
    assert P[d] == m[d].parentId;
    assert HasChildren(m, q);
  }

  /** Under the invariant, re-checking a checked item leaves every ancestor's flag as it was. */
  lemma {:induction false} RecheckAncestors(m: map<string, ChecklistItem>, x: string, now: int, i: nat)
    requires WellFormed(m) && x in m && CheckInvariant(m) && m[x].checked
    requires i < |Ancestors(Parents(m), x)|
    ensures var a := Ancestors(Parents(m), x)[i]; Toggled(m, x, true, now)[a].checked == m[a].checked
    decreases i
  {
    var P := Parents(m);
    var A := Ancestors(P, x);
    var r := Toggled(m, x, true, now);
    var a := A[i];
    forall j | 0 <= j < i
      ensures r[A[j]].checked == m[A[j]].checked
    {
      RecheckAncestors(m, x, now, j);
    }
    ToggledShape(m, x, true, now);
    forall k | k in m && m[k].parentId == Some(a)
      ensures m[k].checked == r[k].checked
    {
      RecheckChild(m, x, now, i, k);
    }
    ChildrenAgree(m, r, a);
    ToggledAncestors(m, x, true, now, i);
    ChainLinks(P, x, i);
    var prev := if i == 0 then x else A[i - 1];
    assert P[prev] == m[prev].parentId;
    assert HasChildren(m, a);
    assert m[a].checked == AllChildrenChecked(m, a);
    assert r[a].checked == m[a].checked;
  }

  /** A child of the `i`-th ancestor keeps its flag when all nearer ancestors do. */
  lemma RecheckChild(m: map<string, ChecklistItem>, x: string, now: int, i: nat, k: string)
    requires WellFormed(m) && x in m && CheckInvariant(m) && m[x].checked
    requires i < |Ancestors(Parents(m), x)|
    requires var A := Ancestors(Parents(m), x);
      forall j | 0 <= j < i :: Toggled(m, x, true, now)[A[j]].checked == m[A[j]].checked
    requires k in m && m[k].parentId == Some(Ancestors(Parents(m), x)[i])
    ensures Toggled(m, x, true, now)[k].checked == m[k].checked
  {
    var P := Parents(m);
    var A := Ancestors(P, x);
    ChainNoChild(m, x);
    if k == x {
      ToggledTarget(m, x, true, now);
    } else if k in Descendants(P, x) {
      ToggledDescendants(m, x, true, now, k);
      CheckedBelow(m, x, k);
    } else if k in A {
      var j :| 0 <= j < |A| && A[j] == k;
      assert j < i;
    } else {
      ToggledFrame(m, x, true, now, k);
    }
  }

  /**
   * Toggling an already checked item to checked, while the invariant holds, changes no `checked`
   * flag; only the stamps of the item, its descendants and its ancestors are refreshed.
   */
  lemma RecheckKeepsFlags(m: map<string, ChecklistItem>, x: string, now: int)
    requires WellFormed(m) && x in m && CheckInvariant(m) && m[x].checked
    ensures forall k | k in m :: Toggled(m, x, true, now)[k].checked == m[k].checked
  {
    var P := Parents(m);
    var A := Ancestors(P, x);
    forall k | k in m
      ensures Toggled(m, x, true, now)[k].checked == m[k].checked
    {
      if k == x {
        ToggledTarget(m, x, true, now);
      } else if k in Descendants(P, x) {
        ToggledDescendants(m, x, true, now, k);
        CheckedBelow(m, x, k);
      } else if k in A {
        var j :| 0 <= j < |A| && A[j] == k;
        RecheckAncestors(m, x, now, j);
      } else {
        ToggledFrame(m, x, true, now, k);
      }
    }
  }

  /** A three-item checklist: an unchecked root `a` with a checked child `b` and an unchecked child `c`. */
  function SampleList(): map<string, ChecklistItem>
  {
    map[
      "a" := ChecklistItem("a", "t", None, "A", false, 0, None),
      "b" := ChecklistItem("b", "t", Some("a"), "B", true, 0, Some(5)),
      "c" := ChecklistItem("c", "t", Some("a"), "C", false, 1, None)]
  }

  /**
   * Unchecking an unchecked parent is not a no-op: it also unchecks its checked children, so the
   * idempotence of re-checking has no unchecking counterpart.
   */
  lemma UncheckingUnchecksChildren()
    ensures WellFormed(SampleList()) && CheckInvariant(SampleList())
    ensures !SampleList()["a"].checked && SampleList()["b"].checked
    ensures !Toggled(SampleList(), "a", false, 7)["b"].checked
  {
    SampleShape();
    SampleInvariant();
    ToggledDescendants(SampleList(), "a", false, 7, "b");
  }

  lemma SampleShape()
    ensures WellFormed(SampleList())
    ensures "b" in Descendants(Parents(SampleList()), "a")
  {
    var P := Parents(SampleList());
    assert P == map["a" := None, "b" := Some("a"), "c" := Some("a")];
    assert Link(P, "a") == None;
    assert |P| == 3;
    assert RootWithin(P, "a", 3) && RootWithin(P, "b", 3) && RootWithin(P, "c", 3);
    assert Acyclic(P);
    assert Closed(P);
    assert KeysAreIds(SampleList());
    AncestorsStep(P, "b");
  }

  lemma SampleInvariant()
    ensures CheckInvariant(SampleList())
  {
    var m := SampleList();
    assert !HasChildren(m, "b") && !HasChildren(m, "c");
    assert m["c"].parentId == Some("a") && !m["c"].checked;
    assert HasChildren(m, "a") && !AllChildrenChecked(m, "a");
  }

  // ---------------------------------------------------------------------------------------------
  // What the indeterminate predicate means.

  /** One level: indeterminate iff the item's children are mixed or one of them is indeterminate. */
  lemma IndeterminateStep(m: map<string, ChecklistItem>, x: string)
    requires Forest(m)
    ensures IsIndeterminate(m, x)
            <==> Mixed(m, x) || exists c | c in ChildrenEq(Parents(m), x) :: IsIndeterminate(m, c)
  {
    var P := Parents(m);
    var children := set k | k in m && m[k].parentId == Some(x);
    forall k | k in m
      ensures (k in children) == (k in ChildrenEq(P, x)) && m[k].id == k
    {
      assert P[k] == m[k].parentId;
    }
    if |children| != 0 {
      var checkedChildren := set k | k in children && m[k].checked;
      assert (|checkedChildren| > 0) == (exists k | k in m && m[k].parentId == Some(x) :: m[k].checked) by {
        if |checkedChildren| > 0 {
          var k :| k in checkedChildren;
        }
        if exists k | k in m && m[k].parentId == Some(x) :: m[k].checked {
          var k :| k in m && m[k].parentId == Some(x) && m[k].checked;
          assert k in checkedChildren;
        }
      }
    }
  }

  /**
   * An item is indeterminate iff it, or some item below one of its direct children, has some but
   * not all direct children checked.
   */
  lemma {:induction false} IndeterminateMeans(m: map<string, ChecklistItem>, x: string)
    requires Forest(m)
    ensures var P := Parents(m);
      IsIndeterminate(m, x)
      <==> Mixed(m, x) || exists n | n in Under(P, ChildrenEq(P, x)) :: Mixed(m, n)
    decreases Rank(Parents(m), x)
  {
    var P := Parents(m);
    var C := ChildrenEq(P, x);
    ChildRank(P, x);
    IndeterminateStep(m, x);
    forall c | c in C
      ensures IsIndeterminate(m, c) <==> Mixed(m, c) || exists n | n in Descendants(P, c) :: Mixed(m, n)
    {
      IndeterminateMeans(m, c);
      UnderChildren(P, c);
    }
    if IsIndeterminate(m, x) && !Mixed(m, x) {
      var c :| c in C && IsIndeterminate(m, c);
      if Mixed(m, c) {
        assert c in Under(P, C);
      } else {
        var n :| n in Descendants(P, c) && Mixed(m, n);
        assert n in Under(P, C);
      }
    }
    if exists n | n in Under(P, C) :: Mixed(m, n) {
      var n :| n in Under(P, C) && Mixed(m, n);
      if n in C {
        assert IsIndeterminate(m, n);
      } else {
        var c :| c in C && c in Ancestors(P, n);
        assert n in Descendants(P, c);
        assert IsIndeterminate(m, c);
      }
    }
  }

  /** Under the invariant, a checked item is never shown as indeterminate. */
  lemma CheckedIsDeterminate(m: map<string, ChecklistItem>, x: string)
    requires WellFormed(m) && x in m && CheckInvariant(m) && m[x].checked
    ensures !IsIndeterminate(m, x)
  {
    var P := Parents(m);
    IndeterminateMeans(m, x);
    UnderChildren(P, x);
    forall n | n == x || n in Descendants(P, x)
      ensures !Mixed(m, n)
    {
      forall k | k in m && m[k].parentId == Some(n)
        ensures m[k].checked
      {
        AncestorsStep(P, n);
        if n in Descendants(P, x) {
          assert n in m;
        }
        ChildOfMarked(m, x, k, n);
        CheckedBelow(m, x, k);
      }
    }
  }
}
