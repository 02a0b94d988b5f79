/**
 * The parent-reference structure of a flat item map: links, ancestor chains, acyclicity and
 * descendants. Everything here depends only on the table id -> parentId, so two maps that differ
 * only in check state have the same structure.
 */
module Hierarchy {
  import opened Types

  type ParentTable = map<string, Option<string>>

  function Parents(m: map<string, ChecklistItem>): ParentTable
  {
    map k | k in m :: m[k].parentId
  }

  /** A parent reference followed as the source follows it: only when truthy and naming a key. */
  function LinkVia(P: ParentTable, parent: Option<string>): Option<string>
  {
    if Truthy(parent) && parent.value in P then parent else None
  }

  function Link(P: ParentTable, k: string): Option<string>
    requires k in P
  {
    LinkVia(P, P[k])
  }

  /** From `k`, following links reaches an item without a link within `fuel` steps. */
  predicate RootWithin(P: ParentTable, k: string, fuel: nat)
    decreases fuel
  {
    k in P && (Link(P, k).None? || (fuel > 0 && RootWithin(P, Link(P, k).value, fuel - 1)))
  }

  /** No parent chain loops: every chain ends at a root within as many steps as there are items. */
  predicate Acyclic(P: ParentTable)
  {
    forall k {:trigger RootWithin(P, k, |P|)} | k in P :: RootWithin(P, k, |P|)
  }

  function ParentRef(P: ParentTable, k: string): Option<string>
    requires k in P
  {
    P[k]
  }

  /** Every truthy parent reference names an item of the table. */
  predicate Closed(P: ParentTable)
  {
    forall k {:trigger ParentRef(P, k)} | k in P && Truthy(ParentRef(P, k)) :: ParentRef(P, k).value in P
  }

  function Chain(P: ParentTable, k: string, fuel: nat): (r: seq<string>)
    requires RootWithin(P, k, fuel)
    ensures forall i | 0 <= i < |r| :: r[i] in P
    decreases fuel
  {
    if Link(P, k).None? then [] else [Link(P, k).value] + Chain(P, Link(P, k).value, fuel - 1)
  }

  /** The ancestors of `k`, nearest first, ending at its root. */
  function Ancestors(P: ParentTable, k: string): (r: seq<string>)
    requires Acyclic(P) && k in P
    ensures forall i | 0 <= i < |r| :: r[i] in P
  {
    Chain(P, k, |P|)
  }

  /** Items whose ancestor chain passes through `x`. */
  function Descendants(P: ParentTable, x: string): set<string>
    requires Acyclic(P)
  {
    set d | d in P && x in Ancestors(P, d)
  }

  /** Items whose parentId is exactly `x` (the source's `item.parentId === x`). */
  function ChildrenEq(P: ParentTable, x: string): set<string>
  {
    set c | c in P && P[c] == Some(x)
  }

  /** The items of `C` together with all items below one of them. */
  function Under(P: ParentTable, C: set<string>): set<string>
    requires Acyclic(P)
  {
    set d | d in P && (d in C || exists c | c in C :: c in Ancestors(P, d))
  }

  /** A termination measure that decreases from an item to each of its children. */
  function Rank(P: ParentTable, x: string): nat
    requires Acyclic(P)
  {
    if x in P then AncestorsStep(P, x); |P| - |Ancestors(P, x)| else |P| + 1
  }

  /** The item maps the stores walk recursively: keyed by id, no empty id, no cycle. */
  predicate Forest(m: map<string, ChecklistItem>)
  {
    KeysAreIds(m) && "" !in m && Acyclic(Parents(m))
  }

  lemma {:induction false} ChainLength(P: ParentTable, k: string, fuel: nat)
    requires RootWithin(P, k, fuel)
    ensures |Chain(P, k, fuel)| <= fuel
    decreases fuel
  {
    if Link(P, k).Some? {
      ChainLength(P, Link(P, k).value, fuel - 1);
    }
  }

  lemma {:induction false} ChainFuel(P: ParentTable, k: string, f1: nat, f2: nat)
    requires RootWithin(P, k, f1) && RootWithin(P, k, f2)
    ensures Chain(P, k, f1) == Chain(P, k, f2)
    decreases f1
  {
    if Link(P, k).Some? {
      ChainFuel(P, Link(P, k).value, f1 - 1, f2 - 1);
    }
  }

  /** The chain of `k` is its parent followed by the parent's chain; it is never longer than the table. */
  lemma AncestorsStep(P: ParentTable, k: string)
    requires Acyclic(P) && k in P
    ensures |Ancestors(P, k)| <= |P|
    ensures Link(P, k).None? ==> Ancestors(P, k) == []
    ensures Link(P, k).Some? ==>
              Link(P, k).value in P && Ancestors(P, k) == [Link(P, k).value] + Ancestors(P, Link(P, k).value)
  {
    ChainLength(P, k, |P|);
    if Link(P, k).Some? {
      var p := Link(P, k).value;
      ChainFuel(P, p, |P| - 1, |P|);
    }
  }

  /** Every element of a chain is an item whose own chain is the rest of the chain. */
  lemma {:induction false} AncestorsSuffix(P: ParentTable, k: string, i: nat)
    requires Acyclic(P) && k in P && i < |Ancestors(P, k)|
    ensures Ancestors(P, k)[i] in P
    ensures Ancestors(P, Ancestors(P, k)[i]) == Ancestors(P, k)[i + 1..]
    decreases i
  {
    AncestorsStep(P, k);
    var p := Link(P, k).value;
    if i > 0 {
      AncestorsSuffix(P, p, i - 1);
    }
  }

  /** Each element of [k] + chain links to the next one, and the last one links nowhere. */
  lemma ChainLinks(P: ParentTable, k: string, i: nat)
    requires Acyclic(P) && k in P && i <= |Ancestors(P, k)|
    ensures var prev := if i == 0 then k else Ancestors(P, k)[i - 1];
      prev in P && Link(P, prev) == if i < |Ancestors(P, k)| then Some(Ancestors(P, k)[i]) else None
  {
    var A := Ancestors(P, k);
    if i == 0 {
      AncestorsStep(P, k);
    } else {
      AncestorsSuffix(P, k, i - 1);
      AncestorsStep(P, A[i - 1]);
    }
  }

  /** An item, then its ancestors: no item occurs twice. */
  lemma AncestorsNoDup(P: ParentTable, k: string)
    requires Acyclic(P) && k in P
    ensures NoDup([k] + Ancestors(P, k))
  {
    var A := Ancestors(P, k);
    var s := [k] + A;
    forall i | 0 <= i < |s|
      ensures s[i] in P && |Ancestors(P, s[i])| == |A| - i
    {
      if i > 0 {
        AncestorsSuffix(P, k, i - 1);
      }
    }
  }

  /** Parents in a chain are never their own descendants. */
  lemma NotOwnAncestor(P: ParentTable, k: string)
    requires Acyclic(P) && k in P
    ensures k !in Ancestors(P, k)
    ensures k !in Descendants(P, k)
  {
    AncestorsNoDup(P, k);
    var A := Ancestors(P, k);
    forall j | 0 <= j < |A|
      ensures A[j] != k
    {
      assert ([k] + A)[0] != ([k] + A)[j + 1];
    }
  }

  /** A descendant's parent is the ancestor itself or another descendant. */
  lemma DescendantParent(P: ParentTable, x: string, d: string)
    requires Acyclic(P) && d in Descendants(P, x)
    ensures Link(P, d).Some?
    ensures Link(P, d).value == x || Link(P, d).value in Descendants(P, x)
  {
    AncestorsStep(P, d);
  }

  /** The ancestors of an item are not among its descendants. */
  lemma AncestorsDisjointFromDescendants(P: ParentTable, x: string, a: string)
    requires Acyclic(P) && x in P && a in Ancestors(P, x)
    ensures a != x && a !in Descendants(P, x)
  {
    NotOwnAncestor(P, x);
    var A := Ancestors(P, x);
    var i :| 0 <= i < |A| && A[i] == a;
    AncestorsSuffix(P, x, i);
    AncestorsNoDup(P, x);
  }

  /** A child of `x` is strictly lower than `x` in the termination measure. */
  lemma ChildRank(P: ParentTable, x: string)
    requires Acyclic(P) && "" !in P
    ensures forall c | c in ChildrenEq(P, x) :: Rank(P, c) < Rank(P, x)
  {
    forall c | c in ChildrenEq(P, x)
      ensures Rank(P, c) < Rank(P, x)
    {
      AncestorsStep(P, c);
      if x in P {
        assert Link(P, c) == Some(x);
        AncestorsStep(P, x);
      }
    }
  }

  /** For an item `x`, the items below the children of `x` are exactly the descendants of `x`. */
  lemma UnderChildren(P: ParentTable, x: string)
    requires Acyclic(P) && "" !in P && x in P
    ensures Under(P, ChildrenEq(P, x)) == Descendants(P, x)
  {
    var C := ChildrenEq(P, x);
    forall d | d in Under(P, C)
      ensures d in Descendants(P, x)
    {
      AncestorsStep(P, d);
      if d !in C {
        var c :| c in C && c in Ancestors(P, d);
        var A := Ancestors(P, d);
        var i :| 0 <= i < |A| && A[i] == c;
        AncestorsSuffix(P, d, i);
        AncestorsStep(P, c);
        assert A[i + 1] == x;
      }
    }
    forall d | d in Descendants(P, x)
      ensures d in Under(P, C)
    {
      var A := Ancestors(P, d);
      var i :| 0 <= i < |A| && A[i] == x;
      ChainLinks(P, d, i);
      if i > 0 {
        assert A[i - 1] in C;
      }
    }
  }

  /** Adding one child to a set of processed children adds that child and its descendants. */
  lemma UnderInsert(P: ParentTable, C: set<string>, k: string)
    requires Acyclic(P) && k in P
    ensures Under(P, C + {k}) == Under(P, C) + {k} + Descendants(P, k)
  {
  }

  /** Of two items with the same parent link, neither is an ancestor of the other. */
  lemma SiblingNotAncestor(P: ParentTable, c: string, c2: string)
    requires Acyclic(P) && c in P && c2 in P && Link(P, c) == Link(P, c2)
    ensures c2 !in Ancestors(P, c)
  {
    AncestorsStep(P, c);
    AncestorsStep(P, c2);
    NotOwnAncestor(P, c2);
  }

  /** Two different siblings head disjoint subtrees. */
  lemma SiblingsDisjoint(P: ParentTable, c: string, c2: string)
    requires Acyclic(P) && c in P && c2 in P && c != c2 && Link(P, c) == Link(P, c2)
    ensures ({c} + Descendants(P, c)) * ({c2} + Descendants(P, c2)) == {}
  {
    SiblingNotAncestor(P, c, c2);
    SiblingNotAncestor(P, c2, c);
    forall d | d in Descendants(P, c)
      ensures d !in Descendants(P, c2)
    {
      var A := Ancestors(P, d);
      var i :| 0 <= i < |A| && A[i] == c;
      AncestorsSuffix(P, d, i);
      forall i2 | 0 <= i2 < |A|
        ensures A[i2] != c2
      {
        if i2 < i {
          AncestorsSuffix(P, d, i2);
          assert A[i] in A[i2 + 1..];
        } else if i2 > i {
          assert A[i2] in A[i + 1..];
        }
      }
    }
  }
}
