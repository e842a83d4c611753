/** The MySQL tables the server reads and writes, as immutable maps, and the
    statements it issues against them. Each statement either fails (and
    changes nothing) or applies its whole effect. */
module Store {
  import opened Results
  import opened Js

  /** A row of `lists`, keyed by its share id. */
  datatype ListRow = ListRow(name: string, createdAt: int, updatedAt: int)

  /** A row of `items`, keyed by the item id, which is the primary key of the
      whole table and not of one list. `checked` is the TINYINT written by the
      server; `addedBy` is the JSON document of the `added_by` column. */
  datatype ItemRow = ItemRow(
    listId: string,
    name: string,
    checked: int,
    category: Option<string>,
    addedBy: JsValue,
    updatedAt: int)

  /** A row of `list_members`, keyed by the unique pair (list id, user id).
      `rowId` is the row's own primary key. */
  datatype MemberRow = MemberRow(rowId: string, pseudo: Option<string>, joinedAt: int)

  datatype Db = Db(
    lists: map<string, ListRow>,
    items: map<string, ItemRow>,
    members: map<(string, string), MemberRow>)

  /** The columns of `items`, in declaration order. */
  const ItemColumns: seq<string> :=
    ["id", "list_id", "name", "checked", "category", "added_by", "updated_at"]

  /** What the schema guarantees of every state: foreign keys into `lists`,
      `checked` written as 0 or 1, and unique member row ids. */
  ghost predicate Wf(db: Db) {
    && (forall id :: id in db.items ==> db.items[id].listId in db.lists)
    && (forall id :: id in db.items ==> db.items[id].checked == 0 || db.items[id].checked == 1)
    && (forall p :: p in db.members ==> p.0 in db.lists)
    && (forall p, q :: p in db.members && q in db.members && p != q ==>
          db.members[p].rowId != db.members[q].rowId)
  }

  /** Why a statement failed. */
  datatype DbError =
    | BindUndefined          // mysql2 refuses `undefined` among the parameters
    | NotNull(column: string)
    | DuplicateKey(table: string)
    | ForeignKey
    | UnknownColumn(column: string)

  /** A bound statement parameter: SQL NULL or text. */
  datatype Param = SqlNull | SqlText(text: string)

  /** How the driver and the server turn a bound value that is neither a
      string nor nullish into the text of a text column (numbers, booleans,
      objects); supplied from outside. */
  type SqlText = JsValue -> string

  /** Binding one statement parameter. */
  function Bind(v: JsValue, toText: SqlText): (r: Result<Param, DbError>)
    ensures r.Err? <==> v.Undefined?
    ensures v.Null? ==> r == Ok(SqlNull)
    ensures v.Str? ==> r == Ok(SqlText(v.s))
  {
    match v
    case Undefined => Err(BindUndefined)
    case Null => Ok(SqlNull)
    case Str(s) => Ok(SqlText(s))
    case _ => Ok(SqlText(toText(v)))
  }

  /** `INSERT INTO lists (id, name, created_at, updated_at) VALUES (...)`. */
  function InsertList(db: Db, id: string, name: string, createdAt: int, updatedAt: int): (r: Result<Db, DbError>)
    ensures r.Err? <==> id in db.lists
    ensures r.Ok? ==> r.value.lists == db.lists[id := ListRow(name, createdAt, updatedAt)]
    ensures r.Ok? ==> r.value.items == db.items && r.value.members == db.members
    ensures Wf(db) && r.Ok? ==> Wf(r.value)
  {
    if id in db.lists then Err(DuplicateKey("lists"))
    else Ok(db.(lists := db.lists[id := ListRow(name, createdAt, updatedAt)]))
  }

  /** Some member row already uses this row id. */
  predicate RowIdTaken(db: Db, rowId: string) {
    exists p :: p in db.members && db.members[p].rowId == rowId
  }

  /** `INSERT IGNORE INTO list_members ...`: a row that would break the
      unique pair, the primary key or the foreign key is silently skipped. */
  function InsertIgnoreMember(db: Db, rowId: string, listId: string, userId: string,
                              pseudo: Option<string>, joinedAt: int): (r: Db)
    // idempotent on the unique pair (list_id, user_id)
    ensures (listId, userId) in db.members ==> r == db
    ensures r.lists == db.lists && r.items == db.items
    // at most the one pair is added, and no existing row changes
    ensures r.members.Keys <= db.members.Keys + {(listId, userId)}
    ensures forall p :: p in db.members ==> p in r.members && r.members[p] == db.members[p]
    // a new list with no member yet and a fresh row id does get its row
    ensures listId in db.lists && (listId, userId) !in db.members && !RowIdTaken(db, rowId) ==>
              (listId, userId) in r.members && r.members[(listId, userId)] == MemberRow(rowId, pseudo, joinedAt)
    ensures Wf(db) ==> Wf(r)
  {
    if (listId, userId) in db.members || listId !in db.lists || RowIdTaken(db, rowId) then db
    else db.(members := db.members[(listId, userId) := MemberRow(rowId, pseudo, joinedAt)])
  }

  /** `INSERT INTO items VALUES (?, ?, ?, ?, ?, ?, ?)` with already bound
      parameters. */
  function InsertItem(db: Db, id: Param, listId: Param, name: Param, checked: int,
                      category: Param, addedBy: JsValue, updatedAt: int): (r: Result<Db, DbError>)
    ensures r.Ok? <==>
              id.SqlText? && listId.SqlText? && name.SqlText?
              && id.text !in db.items && listId.text in db.lists
    ensures r.Ok? ==> r.value.lists == db.lists && r.value.members == db.members
    ensures r.Ok? ==> r.value.items == db.items[id.text := ItemRow(listId.text, name.text, checked,
                                                   if category.SqlText? then Some(category.text) else None,
                                                   addedBy, updatedAt)]
    ensures Wf(db) && r.Ok? && (checked == 0 || checked == 1) ==> Wf(r.value)
  {
    if id.SqlNull? then Err(NotNull("id"))
    else if listId.SqlNull? then Err(NotNull("list_id"))
    else if name.SqlNull? then Err(NotNull("name"))
    else if id.text in db.items then Err(DuplicateKey("items"))
    else if listId.text !in db.lists then Err(ForeignKey)
    else
      var cat := if category.SqlText? then Some(category.text) else None;
      Ok(db.(items := db.items[id.text := ItemRow(listId.text, name.text, checked, cat, addedBy, updatedAt)]))
  }

  /** `WHERE id = ? AND list_id = ?`: NULL parameters match nothing. */
  predicate RowMatches(db: Db, id: Param, listId: Param) {
    id.SqlText? && listId.SqlText? && id.text in db.items && db.items[id.text].listId == listId.text
  }

  /** `UPDATE items SET checked = ? WHERE id = ? AND list_id = ?`. */
  function UpdateChecked(db: Db, checked: int, id: Param, listId: Param): (r: Db)
    ensures r.lists == db.lists && r.members == db.members
    ensures r.items.Keys == db.items.Keys
    // the matched row changes in `checked` only
    ensures RowMatches(db, id, listId) ==> r.items[id.text] == db.items[id.text].(checked := checked)
    // every other row, and every row when none matched, is untouched
    ensures forall k :: k in db.items && !(RowMatches(db, id, listId) && k == id.text) ==>
              r.items[k] == db.items[k]
    ensures Wf(db) && (checked == 0 || checked == 1) ==> Wf(r)
  {
    if RowMatches(db, id, listId) then
      db.(items := db.items[id.text := db.items[id.text].(checked := checked)])
    else db
  }

  /** `DELETE FROM items WHERE id = ? AND list_id = ?`. */
  function DeleteItem(db: Db, id: Param, listId: Param): (r: Db)
    ensures r.lists == db.lists && r.members == db.members
    ensures RowMatches(db, id, listId) ==> r.items.Keys == db.items.Keys - {id.text}
    ensures !RowMatches(db, id, listId) ==> r.items == db.items
    ensures forall k :: k in r.items ==> k in db.items && r.items[k] == db.items[k]
    ensures Wf(db) ==> Wf(r)
  {
    if RowMatches(db, id, listId) then db.(items := db.items - {id.text}) else db
  }
}
