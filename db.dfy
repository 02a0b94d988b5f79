/**
 * The four tables of the application database (src/lib/db/index.ts), each a map from primary key
 * to row, with the table operations the stores use.
 */
module Database {
  import opened Types

  /** What `table.add(row)` rejects a row with when its key is already stored. */
  const AddConflict: string := "ConstraintError"

  /** The contents of all four tables at one moment. */
  datatype Tables = Tables(
    workspaces: map<string, Workspace>,
    templates: map<string, PreflightTemplate>,
    items: map<string, ChecklistItem>,
    records: map<string, PreflightRecord>)

  class Db {
    var workspaces: map<string, Workspace>
    var templates: map<string, PreflightTemplate>
    var items: map<string, ChecklistItem>
    var records: map<string, PreflightRecord>

    constructor()
      ensures workspaces == map[] && templates == map[] && items == map[] && records == map[]
    {
      workspaces := map[];
      templates := map[];
      items := map[];
      records := map[];
    }

    function State(): Tables
      reads this
    {
      Tables(workspaces, templates, items, records)
    }

    /** A failed transaction: every table is put back as it was when the transaction began. */
    method Restore(saved: Tables)
      modifies this
      ensures State() == saved
    {
      workspaces := saved.workspaces;
      templates := saved.templates;
      items := saved.items;
      records := saved.records;
    }
  }

  /** Every template is stored under its own id. */
  predicate TemplatesKeyed(templates: map<string, PreflightTemplate>)
  {
    forall k | k in templates :: templates[k].id == k
  }

  /** Every item belongs to a template of the table. */
  predicate ItemsHaveTemplates(t: Tables)
  {
    forall k | k in t.items :: t.items[k].templateId in t.templates
  }

  /** The rows of `m` whose key is not in `gone`. */
  function Without<T>(m: map<string, T>, gone: set<string>): (r: map<string, T>)
    ensures r.Keys == m.Keys - gone
    ensures forall k | k in r :: r[k] == m[k]
  {
    map k | k in m && k !in gone :: m[k]
  }

  /** `table.where('templateId').equals(t)`: the keys of the items of template `t`. */
  function ItemsOf(items: map<string, ChecklistItem>, templateIds: set<string>): (r: set<string>)
    ensures forall k :: k in r <==> k in items && items[k].templateId in templateIds
  {
    set k | k in items && items[k].templateId in templateIds
  }

  /** `templates.where('workspaceId').equals(w)`: the keys of the templates of workspace `w`. */
  function TemplatesOf(templates: map<string, PreflightTemplate>, w: string): (r: set<string>)
    ensures forall k :: k in r <==> k in templates && templates[k].workspaceId == w
  {
    set k | k in templates && templates[k].workspaceId == w
  }

  /** Two deletes in a row remove the same rows as one delete of both key sets. */
  lemma WithoutComposes<T>(m: map<string, T>, A: set<string>, B: set<string>)
    ensures Without(Without(m, A), B) == Without(m, A + B)
  {
  }

  /**
   * Deleting the rows `where('templateId')` selects leaves no item of those templates, and every
   * item of any other template stays, unchanged.
   */
  lemma ItemsOfDeleted(items: map<string, ChecklistItem>, templateIds: set<string>)
    ensures var rest := Without(items, ItemsOf(items, templateIds));
      && ItemsOf(rest, templateIds) == {}
      && forall k | k in items && items[k].templateId !in templateIds :: k in rest && rest[k] == items[k]
  {
  }

  /**
   * Deleting the rows `where('workspaceId')` selects leaves no template of that workspace, and every
   * template of any other workspace stays, unchanged.
   */
  lemma TemplatesOfDeleted(templates: map<string, PreflightTemplate>, w: string)
    ensures var rest := Without(templates, TemplatesOf(templates, w));
      && TemplatesOf(rest, w) == {}
      && forall k | k in templates && templates[k].workspaceId != w :: k in rest && rest[k] == templates[k]
  {
  }

  /**
   * A loop of `table.put(row)` over `rows`, keyed by `key`: every row is stored under its key, and a
   * later row with the same key overwrites an earlier one.
   */
  function PutAll<T>(m: map<string, T>, rows: seq<T>, key: T -> string): (r: map<string, T>)
    decreases |rows|
  {
    if rows == [] then m else PutAll(m, rows[..|rows| - 1], key)[key(rows[|rows| - 1]) := rows[|rows| - 1]]
  }

  /** The primary keys of the tables: every row is stored under its `id`. */
  function TemplateKey(t: PreflightTemplate): string { t.id }
  function ItemKey(i: ChecklistItem): string { i.id }
  function RecordKey(r: PreflightRecord): string { r.id }

  /** One more `table.put(row)`. */
  lemma PutAllSnoc<T>(m: map<string, T>, rows: seq<T>, key: T -> string, i: nat)
    requires i < |rows|
    ensures PutAll(m, rows[..i + 1], key) == PutAll(m, rows[..i], key)[key(rows[i]) := rows[i]]
  {
    assert rows[..i + 1][..i] == rows[..i];
  }

  /** The last index at which `k` occurs in `s` (`-1` if nowhere). */
  function LastIndexOf(s: seq<string>, k: string): (r: int)
    ensures -1 <= r < |s|
    ensures r == -1 <==> k !in s
    ensures r >= 0 ==> s[r] == k && forall j | r < j < |s| :: s[j] != k
    decreases |s|
  {
    if s == [] then -1 else if s[|s| - 1] == k then |s| - 1 else LastIndexOf(s[..|s| - 1], k)
  }

  /** After putting `rows`, a key holds the last row with that key, or its old row if there is none. */
  lemma {:induction false} PutAllAt<T>(m: map<string, T>, rows: seq<T>, key: T -> string, k: string)
    ensures var r := PutAll(m, rows, key);
      var i := LastIndexOf(Keys(rows, key), k);
      && (k in r <==> k in m || i >= 0)
      && (i >= 0 ==> r[k] == rows[i])
      && (i < 0 && k in m ==> r[k] == m[k])
    decreases |rows|
  {
    if rows != [] {
      var front := rows[..|rows| - 1];
      assert Keys(front, key) == Keys(rows, key)[..|rows| - 1];
      PutAllAt(m, front, key, k);
    }
  }

  /** The keys of `rows`, in order. */
  function Keys<T>(rows: seq<T>, key: T -> string): (r: seq<string>)
    ensures |r| == |rows|
    ensures forall i | 0 <= i < |rows| :: r[i] == key(rows[i])
  {
    seq(|rows|, i requires 0 <= i < |rows| => key(rows[i]))
  }
}
