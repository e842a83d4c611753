/** `SELECT * FROM items WHERE list_id = ? ORDER BY <column> ASC|DESC`: the
    rows of one list, each exactly once, in the requested order. The order
    among rows with equal sort keys is the database's choice and is left
    unspecified. */
module Query {
  import opened Results
  import opened Store

  /** The columns the server names in an ORDER BY over `items`. */
  datatype SortColumn = UpdatedAt | CreatedAt {
    function Name(): string {
      match this
      case UpdatedAt => "updated_at"
      case CreatedAt => "created_at"
    }
  }

  /** Row `k` belongs to list `listId`. */
  ghost predicate InList(items: map<string, ItemRow>, listId: string, k: string) {
    k in items && items[k].listId == listId
  }

  /** The ids of the rows of list `listId`, each exactly once, in an order
      that is not specified. */
  ghost function ListItemIds(items: map<string, ItemRow>, listId: string): (ids: seq<string>)
    ensures forall k :: multiset(ids)[k] == if InList(items, listId, k) then 1 else 0
    decreases items.Keys
  {
    if items == map[] then []
    else
      var k :| k in items;
      var rest := ListItemIds(items - {k}, listId);
      if items[k].listId == listId then [k] + rest else rest
  }

  /** `ids` names every row of list `listId` exactly once, and nothing else. */
  ghost predicate EachRowOnce(ids: seq<string>, items: map<string, ItemRow>, listId: string) {
    && (forall k :: multiset(ids)[k] == if InList(items, listId, k) then 1 else 0)
    && (forall i :: 0 <= i < |ids| ==> InList(items, listId, ids[i]))
  }

  /** `a` may come before `b` in an ascending (or, with `desc`, descending)
      ORDER BY. */
  predicate Before(a: int, b: int, desc: bool) {
    if desc then a >= b else a <= b
  }

  ghost predicate AllRows(ids: seq<string>, items: map<string, ItemRow>) {
    forall i :: 0 <= i < |ids| ==> ids[i] in items
  }

  /** Neighbours are in order of `updated_at`. */
  ghost predicate Sorted(ids: seq<string>, items: map<string, ItemRow>, desc: bool) {
    && AllRows(ids, items)
    && forall i :: 0 <= i < |ids| - 1 ==>
         Before(items[ids[i]].updatedAt, items[ids[i + 1]].updatedAt, desc)
  }

  /** Every pair is in order of `updated_at`. */
  ghost predicate Ordered(ids: seq<string>, items: map<string, ItemRow>, desc: bool) {
    && AllRows(ids, items)
    && forall i, j :: 0 <= i < j < |ids| ==>
         Before(items[ids[i]].updatedAt, items[ids[j]].updatedAt, desc)
  }

  /** The tail of a sorted run is sorted. */
  lemma SortedTail(ids: seq<string>, items: map<string, ItemRow>, desc: bool)
    requires ids != [] && Sorted(ids, items, desc)
    ensures Sorted(ids[1..], items, desc)
  {
    var tail := ids[1..];
    forall i | 0 <= i < |tail| - 1
      ensures Before(items[tail[i]].updatedAt, items[tail[i + 1]].updatedAt, desc)
    {
      assert tail[i] == ids[i + 1] && tail[i + 1] == ids[i + 2];
    }
  }

  /** A row placed in order before a sorted run extends it. */
  lemma SortedCons(k: string, ids: seq<string>, items: map<string, ItemRow>, desc: bool)
    requires k in items && Sorted(ids, items, desc)
    requires ids != [] ==> Before(items[k].updatedAt, items[ids[0]].updatedAt, desc)
    ensures Sorted([k] + ids, items, desc)
  {
    var r := [k] + ids;
    forall i | 0 <= i < |r| - 1
      ensures Before(items[r[i]].updatedAt, items[r[i + 1]].updatedAt, desc)
    {
      if i > 0 {
        assert r[i] == ids[i - 1] && r[i + 1] == ids[i];
      }
    }
  }

  /** Insert one row id into an already sorted run. */
  function InsertSorted(k: string, ids: seq<string>, items: map<string, ItemRow>, desc: bool): (r: seq<string>)
    requires k in items && Sorted(ids, items, desc)
    ensures multiset(r) == multiset(ids) + multiset{k}
    ensures Sorted(r, items, desc)
    ensures r[0] == k || (|ids| > 0 && r[0] == ids[0])
  {
    if ids == [] || Before(items[k].updatedAt, items[ids[0]].updatedAt, desc) then
      SortedCons(k, ids, items, desc);
      [k] + ids
    else
      SortedTail(ids, items, desc);
      var rest := InsertSorted(k, ids[1..], items, desc);
      assert ids == [ids[0]] + ids[1..];
      SortedCons(ids[0], rest, items, desc);
      [ids[0]] + rest
  }

  /** Insertion sort of row ids on `updated_at`. */
  function SortIds(ids: seq<string>, items: map<string, ItemRow>, desc: bool): (r: seq<string>)
    requires AllRows(ids, items)
    ensures multiset(r) == multiset(ids)
    ensures Sorted(r, items, desc)
  {
    if ids == [] then []
    else
      assert ids == [ids[0]] + ids[1..];
      InsertSorted(ids[0], SortIds(ids[1..], items, desc), items, desc)
  }

  /** Ordering neighbours orders every pair, since `Before` is transitive. */
  lemma {:induction false} SortedIsOrdered(ids: seq<string>, items: map<string, ItemRow>, desc: bool)
    requires Sorted(ids, items, desc)
    ensures Ordered(ids, items, desc)
    decreases |ids|
  {
    if |ids| > 1 {
      var tail := ids[1..];
      SortedTail(ids, items, desc);
      SortedIsOrdered(tail, items, desc);
      forall i, j | 0 <= i < j < |ids|
        ensures Before(items[ids[i]].updatedAt, items[ids[j]].updatedAt, desc)
      {
        if 0 < i {
          assert ids[i] == tail[i - 1] && ids[j] == tail[j - 1];
        } else if 1 < j {
          assert ids[1] == tail[0] && ids[j] == tail[j - 1];
        }
      }
    }
  }

  /** The rows of one list ordered by `updated_at`, ties in unspecified order. */
  ghost function RowsByUpdate(db: Db, listId: string, desc: bool): (ids: seq<string>)
    ensures EachRowOnce(ids, db.items, listId)
    ensures Ordered(ids, db.items, desc)
  {
    var unsorted := ListItemIds(db.items, listId);
    assert AllRows(unsorted, db.items) by {
      forall i | 0 <= i < |unsorted| ensures unsorted[i] in db.items {
        assert unsorted[i] in multiset(unsorted);
      }
    }
    var ids := SortIds(unsorted, db.items, desc);
    SortedIsOrdered(ids, db.items, desc);
    assert forall i :: 0 <= i < |ids| ==> InList(db.items, listId, ids[i]) by {
      forall i | 0 <= i < |ids| ensures InList(db.items, listId, ids[i]) {
        assert ids[i] in multiset(ids);
      }
    }
    ids
  }

  /** A result row: the item id with the rest of the row. */
  type Row = (string, ItemRow)

  /** The rows of list `listId` ordered by `updated_at` (ascending, or
      descending with `desc`): each row of the list exactly once, as stored. */
  ghost function ListRows(db: Db, listId: string, desc: bool): (rows: seq<Row>)
    ensures EachRowOnce(KeysOf(rows), db.items, listId)
    ensures Ordered(KeysOf(rows), db.items, desc)
    ensures forall i :: 0 <= i < |rows| ==>
              InList(db.items, listId, rows[i].0) && db.items[rows[i].0] == rows[i].1
    ensures forall i, j :: 0 <= i < j < |rows| ==> Before(rows[i].1.updatedAt, rows[j].1.updatedAt, desc)
  {
    var ids := RowsByUpdate(db, listId, desc);
    var rows := RowsOf(ids, db.items);
    forall i, j | 0 <= i < j < |rows| ensures Before(rows[i].1.updatedAt, rows[j].1.updatedAt, desc) {
      assert rows[i].1 == db.items[ids[i]] && rows[j].1 == db.items[ids[j]];
    }
    rows
  }

  /** Each id paired with its stored row. */
  function RowsOf(ids: seq<string>, items: map<string, ItemRow>): (rows: seq<Row>)
    requires AllRows(ids, items)
    ensures |rows| == |ids|
    ensures KeysOf(rows) == ids
    ensures forall i :: 0 <= i < |ids| ==> rows[i] == (ids[i], items[ids[i]])
  {
    var rows := seq(|ids|, i requires 0 <= i < |ids| => (ids[i], items[ids[i]]));
    assert KeysOf(rows) == ids;
    rows
  }

  /** The item ids of a run of rows. */
  function KeysOf(rows: seq<Row>): (ks: seq<string>)
    ensures |ks| == |rows|
    ensures forall i :: 0 <= i < |rows| ==> ks[i] == rows[i].0
  {
    seq(|rows|, i requires 0 <= i < |rows| => rows[i].0)
  }

  /** The items query of the server: it fails when the ORDER BY column does
      not exist in `items`, and otherwise returns the list's rows in order. */
  ghost function SelectItems(db: Db, listId: string, orderBy: SortColumn, desc: bool): (r: Result<seq<Row>, DbError>)
    ensures r.Err? <==> orderBy.Name() !in ItemColumns
    ensures r.Err? ==> r.error == UnknownColumn(orderBy.Name())
    ensures r.Ok? ==> orderBy == UpdatedAt && r.value == ListRows(db, listId, desc)
  {
    if orderBy.Name() !in ItemColumns then Err(UnknownColumn(orderBy.Name()))
    else Ok(ListRows(db, listId, desc))
  }

  /** `created_at` is not a column of `items`, so ordering by it always
      fails; ordering by `updated_at` always succeeds. */
  lemma SelectByColumn(db: Db, listId: string, desc: bool)
    ensures SelectItems(db, listId, CreatedAt, desc) == Err(UnknownColumn("created_at"))
    ensures SelectItems(db, listId, UpdatedAt, desc).Ok?
  {
  }
}
