/** The records the checklist application stores, mirroring src/lib/types/index.ts. */
module Types {

  datatype Option<T> = None | Some(value: T)

  /** A result of an operation that may throw: the thrown error is reported as Err. */
  datatype Result<T> = Ok(value: T) | Err(message: string)

  /** JavaScript truthiness of an optional string: null, undefined and "" are all falsy. */
  predicate Truthy(s: Option<string>)
  {
    s.Some? && s.value != ""
  }

  /** `a || b` on optional strings: the first truthy operand, else the last one. */
  function OrElse(a: Option<string>, b: string): string
  {
    if Truthy(a) then a.value else b
  }

  /** One checklist node; `parentId == None` marks a root, `completedAt == None` an absent timestamp. */
  datatype ChecklistItem = ChecklistItem(
    id: string,
    templateId: string,
    parentId: Option<string>,
    text: string,
    checked: bool,
    order: int,
    completedAt: Option<int>)

  /** A reusable checklist definition. `order` is optional because legacy rows may lack it (`order ?? -1`). */
  datatype PreflightTemplate = PreflightTemplate(
    id: string,
    workspaceId: string,
    name: string,
    order: Option<int>,
    pilot: string,
    description: string,
    createdAt: int,
    updatedAt: int,
    itemIds: seq<string>)

  /**
   * One timed run of a template, owning a snapshot of the template's items.
   * `workspaceId` is not part of the declared interface; importing attaches it to every record.
   */
  datatype PreflightRecord = PreflightRecord(
    id: string,
    templateId: string,
    name: string,
    pilot: string,
    createdAt: int,
    completedAt: Option<int>,
    elapsedMs: int,
    isPaused: bool,
    resumedAt: Option<int>,
    updatedAt: Option<int>,
    items: map<string, ChecklistItem>,
    workspaceId: Option<string>)

  /** The top-level container of templates. `order` is optional for the same reason as a template's. */
  datatype Workspace = Workspace(
    id: string,
    name: string,
    order: Option<int>,
    createdAt: int,
    updatedAt: int)

  /** `o ?? -1` */
  function OrderOrMinusOne(o: Option<int>): int
  {
    if o.Some? then o.value else -1
  }

  function Max(a: int, b: int): int
  {
    if a < b then b else a
  }

  /**
   * `xs.reduce((max, x) => Math.max(max, x), acc)`: the largest of `acc` and the elements of `xs`.
   */
  function FoldMax(acc: int, xs: seq<int>): (r: int)
    ensures acc <= r
    ensures forall i | 0 <= i < |xs| :: xs[i] <= r
    ensures r == acc || exists i | 0 <= i < |xs| :: xs[i] == r
    decreases |xs|
  {
    if xs == [] then acc else FoldMax(Max(acc, xs[0]), xs[1..])
  }

  /** The maximum of a reduce seeded with -1, as all the stores use to append a sibling rank. */
  function MaxOrder(orders: seq<int>): (r: int)
    ensures r >= -1
    ensures forall i | 0 <= i < |orders| :: orders[i] <= r
    ensures r == -1 || exists i | 0 <= i < |orders| :: orders[i] == r
  {
    FoldMax(-1, orders)
  }

  /**
   * `list.reduce((max, x) => Math.max(max, x.order ?? -1), -1) + 1` over the orders of a list: one
   * more than every present order, 0 for a list without orders.
   */
  function NextOrder(orders: seq<Option<int>>): (r: int)
    ensures r >= 0
    ensures forall i | 0 <= i < |orders| :: OrderOrMinusOne(orders[i]) < r
    ensures r == 0 || exists i | 0 <= i < |orders| :: orders[i] == Some(r - 1)
  {
    var plain := seq(|orders|, i requires 0 <= i < |orders| => OrderOrMinusOne(orders[i]));
    var r := MaxOrder(plain) + 1;
    assert forall i | 0 <= i < |orders| :: OrderOrMinusOne(orders[i]) == plain[i];
    if r == 0 then r
    else
      var i :| 0 <= i < |plain| && plain[i] == r - 1;
      assert orders[i] == Some(r - 1);
      r
  }

  /** No string occurs twice. */
  ghost predicate NoDup(s: seq<string>)
  {
    forall i, j | 0 <= i < j < |s| :: s[i] != s[j]
  }

  /** Every key of the map is the id of the item it holds (Dexie's primary key is `id`). */
  predicate KeysAreIds(m: map<string, ChecklistItem>)
  {
    forall k | k in m :: m[k].id == k
  }

  function Ids(s: seq<ChecklistItem>): (r: seq<string>)
    ensures |r| == |s|
    ensures forall i | 0 <= i < |s| :: r[i] == s[i].id
  {
    if s == [] then [] else Ids(s[..|s| - 1]) + [s[|s| - 1].id]
  }

  /** `s` lists the values of `m`, each exactly once (as Object.values does). */
  ghost predicate ListsItems(s: seq<ChecklistItem>, m: map<string, ChecklistItem>)
  {
    && |s| == |m|
    && (forall i | 0 <= i < |s| :: s[i].id in m && m[s[i].id] == s[i])
    && (forall k | k in m :: exists i | 0 <= i < |s| :: s[i].id == k)
    && NoDup(Ids(s))
  }
}
