/** The socket handlers of server.js: `JOIN_LIST`, `ADD_ITEM`, `TOGGLE_ITEM`
    and `REMOVE_ITEM`. Each takes the current state and the raw payload the
    client sent and runs to completion atomically. */
module Sockets {
  import opened Results
  import opened Js
  import opened Text
  import opened Utils
  import opened Store
  import opened Query
  import opened Machine
  import Rooms

  /** The text a defined, non-null value is stored or compared as. */
  function ParamText(v: JsValue, env: Env): string {
    if v.Str? then v.s else env.sqlText(v)
  }

  /** The connections `io.to(shareId)` reaches. Rooms are only ever named by
      strings, so any other value reaches nobody. */
  function RoomAudience(s: State, shareId: JsValue): (a: Audience)
    ensures a.ToRoom? && a.room == shareId
    ensures shareId.Str? ==> a.recipients == Rooms.Members(s.rooms, shareId.s)
    ensures !shareId.Str? ==> a.recipients == {}
  {
    ToRoom(shareId, if shareId.Str? then Rooms.Members(s.rooms, shareId.s) else {})
  }

  // ---------------------------------------------------------------- JOIN_LIST

  /** The room a `JOIN_LIST` payload names once normalised, if it names one:
      destructuring a nullish payload and upper-casing a non-string both throw. */
  function JoinRoom(payload: JsValue): Option<string> {
    if Nullish(payload) then None
    else
      var shareId := Field(payload, "shareId");
      if shareId.Str? then Some(Upper(shareId.s)) else None
  }

  /** The handler's prologue: parse the payload and join the room, with no
      check of the list or of the caller. */
  function Enter(s: State, conn: Rooms.ConnId, payload: JsValue): (r: Result<(State, string), Fault>)
    ensures r.Ok? <==> JoinRoom(payload).Some?
    ensures r.Ok? ==> r.value.1 == JoinRoom(payload).value
    ensures r.Ok? ==> r.value.0 == s.(rooms := Rooms.Join(s.rooms, r.value.1, conn))
  {
    if Nullish(payload) then Err(TypeError("cannot destructure the payload"))
    else
      var shareId := Field(payload, "shareId");
      if !shareId.Str? then Err(TypeError("shareId.toUpperCase is not a function"))
      else
        var room := Upper(shareId.s);
        Ok((s.(rooms := Rooms.Join(s.rooms, room, conn)), room))
  }

  /** The object mysql2 hands back for one `items` row. */
  function RowObject(row: Row): JsValue {
    Obj(map[
      "id" := Str(row.0),
      "list_id" := Str(row.1.listId),
      "name" := Str(row.1.name),
      "checked" := Num(row.1.checked),
      "category" := (if row.1.category.Some? then Str(row.1.category.value) else Null),
      "added_by" := row.1.addedBy,
      "updated_at" := Num(row.1.updatedAt)])
  }

  /** One snapshot entry as the handler builds it: `addedBy` is read from
      the row's `addedBy` property and `JSON.parse`d when truthy. */
  function AsWrittenEntry(row: Row, parse: JsonParse): Result<SnapshotEntry, Fault> {
    var a := Field(RowObject(row), "addedBy");
    var entry := SnapshotEntry(row.0, row.1.name, row.1.checked != 0, row.1.category, Null);
    if Truthy(a) then
      match parse(a)
      case Some(v) => Ok(entry.(addedBy := v))
      case None => Err(JsonSyntax)
    else Ok(entry)
  }

  /** `rows.map(...)` over the whole result, failing if any entry throws. */
  function AsWrittenEntries(rows: seq<Row>, parse: JsonParse): (r: Result<seq<SnapshotEntry>, Fault>)
    // The property the row objects do not have is never truthy: nothing is
    // parsed, nothing throws, and every entry is unattributed.
    ensures r.Ok? && |r.value| == |rows|
    ensures forall i :: 0 <= i < |rows| ==>
              r.value[i] == SnapshotEntry(rows[i].0, rows[i].1.name, rows[i].1.checked != 0, rows[i].1.category, Null)
  {
    if rows == [] then Ok([])
    else
      match AsWrittenEntry(rows[0], parse)
      case Err(f) => Err(f)
      case Ok(e) =>
        match AsWrittenEntries(rows[1..], parse)
        case Err(f) => Err(f)
        case Ok(es) => Ok([e] + es)
  }

  /** `JOIN_LIST` as written: join the upper-cased room, select the list's
      items ordered by `created_at`, and send them to the joiner alone. */
  ghost function JoinList(s: State, conn: Rooms.ConnId, payload: JsValue, env: Env): (o: Outcome)
    ensures Disciplined(o)
    ensures o.state.db == s.db
    // a payload without a string `shareId` throws before anything happens
    ensures JoinRoom(payload).None? ==> o.state == s && o.trace == [] && o.fault.Some?
    // otherwise the connection joins the room whether or not the list exists ...
    ensures JoinRoom(payload).Some? ==>
              var room := JoinRoom(payload).value;
              o.state.rooms == Rooms.Join(s.rooms, room, conn) && conn in o.state.rooms[room]
    // ... and the query fails on the missing column, so no snapshot is sent
    ensures JoinRoom(payload).Some? ==>
              o.fault == Some(DbFailure(UnknownColumn("created_at")))
              && o.trace == [Subscribe(conn, JoinRoom(payload).value), Exec(SelectItemsStmt, false)]
  {
    match Enter(s, conn, payload)
    case Err(f) => Outcome(s, [], Some(f))
    case Ok((joined, room)) =>
      var sub := [Subscribe(conn, room)];
      match SelectItems(s.db, room, CreatedAt, false)
      case Err(e) => Outcome(joined, sub + [Exec(SelectItemsStmt, false)], Some(DbFailure(e)))
      case Ok(rows) =>
        match AsWrittenEntries(rows, env.parse)
        case Err(f) => Outcome(joined, sub + [Exec(SelectItemsStmt, true)], Some(f))
        case Ok(entries) =>
          Outcome(joined, sub + [Exec(SelectItemsStmt, true), Publish(ToSocket(conn), Snapshot(entries))], None)
  }

  /** A snapshot entry built from the stored row, attribution normalised. */
  function FixedEntry(row: Row, parse: JsonParse): SnapshotEntry {
    SnapshotEntry(row.0, row.1.name, row.1.checked != 0, row.1.category, ParseAddedBy(row.1.addedBy, parse))
  }

  /** `entries` is a snapshot of list `listId`: every stored row of the list
      exactly once, oldest update first, `checked` as a boolean and the
      attribution read back through `parseAddedBy`. */
  ghost predicate IsSnapshot(entries: seq<SnapshotEntry>, db: Db, listId: string, parse: JsonParse) {
    && EachRowOnce(EntryIds(entries), db.items, listId)
    && (forall i :: 0 <= i < |entries| ==> InList(db.items, listId, entries[i].id))
    && (forall i :: 0 <= i < |entries| ==>
          var row := db.items[entries[i].id];
          && entries[i].name == row.name
          && entries[i].checked == (row.checked != 0)
          && entries[i].category == row.category
          && entries[i].addedBy == ParseAddedBy(row.addedBy, parse))
    && Ordered(EntryIds(entries), db.items, false)
  }

  function EntryIds(entries: seq<SnapshotEntry>): (ids: seq<string>)
    ensures |ids| == |entries|
    ensures forall i :: 0 <= i < |entries| ==> ids[i] == entries[i].id
  {
    seq(|entries|, i requires 0 <= i < |entries| => entries[i].id)
  }

  /** The corrected snapshot of one list. */
  ghost function FixedSnapshot(rows: seq<Row>, parse: JsonParse): (entries: seq<SnapshotEntry>)
    ensures |entries| == |rows|
    ensures EntryIds(entries) == KeysOf(rows)
    ensures forall i :: 0 <= i < |rows| ==> entries[i] == FixedEntry(rows[i], parse)
  {
    var entries := seq(|rows|, i requires 0 <= i < |rows| => FixedEntry(rows[i], parse));
    assert EntryIds(entries) == KeysOf(rows);
    entries
  }

  /** Built from the ascending select, the corrected snapshot is a snapshot. */
  lemma FixedSnapshotIsSnapshot(db: Db, listId: string, parse: JsonParse)
    ensures IsSnapshot(FixedSnapshot(ListRows(db, listId, false), parse), db, listId, parse)
  {
    var rows := ListRows(db, listId, false);
    var entries := FixedSnapshot(rows, parse);
    assert EntryIds(entries) == KeysOf(rows);
  }

  /** The private event of the corrected handler. */
  ghost function FixedSnapshotEvent(db: Db, listId: string, parse: JsonParse): (e: Event)
    ensures e.Snapshot? && IsSnapshot(e.entries, db, listId, parse)
  {
    FixedSnapshotIsSnapshot(db, listId, parse);
    Snapshot(FixedSnapshot(ListRows(db, listId, false), parse))
  }

  /** What the corrected handler does once the socket is in the room: one
      select by `updated_at`, which cannot fail, then the snapshot to the
      joiner alone. */
  ghost function SendSnapshot(joined: State, conn: Rooms.ConnId, room: string, db: Db, parse: JsonParse): (o: Outcome)
    ensures Disciplined(o)
    ensures o.state == joined && o.fault.None?
    ensures |o.trace| == 3
    ensures o.trace[0] == Subscribe(conn, room) && o.trace[1] == Exec(SelectItemsStmt, true)
    ensures o.trace[2].Publish? && o.trace[2].to == ToSocket(conn)
    ensures o.trace[2].event.Snapshot? && IsSnapshot(o.trace[2].event.entries, db, room, parse)
  {
    SelectByColumn(db, room, false);
    var rows := SelectItems(db, room, UpdatedAt, false).value;
    var send := Publish(ToSocket(conn), FixedSnapshotEvent(db, room, parse));
    var o := Outcome(joined, [Subscribe(conn, room), Exec(SelectItemsStmt, true), send], None);
    JoinExecPublish(o);
    o
  }

  /** `JOIN_LIST` corrected: the same handler with the snapshot ordered by
      `updated_at`, oldest first, and the attribution read from `added_by`. */
  ghost function JoinListFixed(s: State, conn: Rooms.ConnId, payload: JsValue, env: Env): (o: Outcome)
    ensures Disciplined(o)
    ensures o.state.db == s.db
    ensures JoinRoom(payload).None? ==> o.state == s && o.trace == [] && o.fault.Some?
    ensures JoinRoom(payload).Some? ==>
              var room := JoinRoom(payload).value;
              && o.fault.None?
              && o.state.rooms == Rooms.Join(s.rooms, room, conn)
              && |o.trace| == 3
              && o.trace[0] == Subscribe(conn, room)
              && o.trace[1] == Exec(SelectItemsStmt, true)
              // the snapshot goes to the joiner only
              && o.trace[2].Publish? && o.trace[2].to == ToSocket(conn)
              && o.trace[2].event.Snapshot?
              && IsSnapshot(o.trace[2].event.entries, s.db, room, env.parse)
  {
    match Enter(s, conn, payload)
    case Err(f) => Outcome(s, [], Some(f))
    case Ok((joined, room)) => SendSnapshot(joined, conn, room, s.db, env.parse)
  }

  // ----------------------------------------------------------------- ADD_ITEM

  /** The client's item record, published as is. */
  function ClientItem(payload: JsValue): JsValue {
    Field(payload, "item")
  }

  /** The primary key the new row is stored under. */
  function ItemKey(payload: JsValue, env: Env): string {
    ParamText(Field(ClientItem(payload), "id"), env)
  }

  /** `ADD_ITEM` stores its row exactly when the payload and the item can be
      read, no bound parameter is `undefined`, the id, list id and name are
      not null, the id is new to the whole table and the list exists. */
  ghost predicate AddAccepted(s: State, payload: JsValue, env: Env) {
    var item := ClientItem(payload);
    && !Nullish(payload)
    && !Nullish(item)
    && !Nullish(Field(item, "id"))
    && !Nullish(Field(payload, "shareId"))
    && !Nullish(Field(item, "name"))
    && !Field(item, "category").Undefined?
    && ItemKey(payload, env) !in s.db.items
    && ParamText(Field(payload, "shareId"), env) in s.db.lists
  }

  /** The row `ADD_ITEM` writes: `checked` as 0 or 1, a missing attribution
      as JSON null, and the current time. */
  function StoredItem(payload: JsValue, env: Env, now: int): (row: ItemRow)
    ensures row.checked == 0 || row.checked == 1
    ensures row.checked == 1 <==> Truthy(Field(ClientItem(payload), "checked"))
    // the row belongs to the list the payload names and carries the item's name
    ensures row.listId == ParamText(Field(payload, "shareId"), env)
    ensures row.name == ParamText(Field(ClientItem(payload), "name"), env)
    // a null category is stored as NULL, any other as its text
    ensures Field(ClientItem(payload), "category").Null? ==> row.category == None
    ensures !Field(ClientItem(payload), "category").Null? ==>
              row.category == Some(ParamText(Field(ClientItem(payload), "category"), env))
    // a present attribution is stored as sent, a missing one as JSON null
    ensures !Nullish(Field(ClientItem(payload), "addedBy")) ==> row.addedBy == Field(ClientItem(payload), "addedBy")
    ensures Nullish(Field(ClientItem(payload), "addedBy")) ==> row.addedBy == Null
    ensures row.updatedAt == now
  {
    var item := ClientItem(payload);
    var category := Field(item, "category");
    ItemRow(
      ParamText(Field(payload, "shareId"), env),
      ParamText(Field(item, "name"), env),
      if Truthy(Field(item, "checked")) then 1 else 0,
      if category.Null? then None else Some(ParamText(category, env)),
      Coalesce(Field(item, "addedBy"), Null),
      now)
  }

  /** `ADD_ITEM`: insert the row, then broadcast the client's item to the
      room named by `shareId` exactly as sent. */
  function AddItem(s: State, payload: JsValue, env: Env, now: int): (o: Outcome)
    ensures Disciplined(o)
    ensures o.fault.None? <==> AddAccepted(s, payload, env)
    // a rejected insert leaves everything as it was and announces nothing
    ensures o.fault.Some? ==> o.state == s
    ensures o.fault.None? ==>
              && o.state.rooms == s.rooms
              && o.state.db == s.db.(items := s.db.items[ItemKey(payload, env) := StoredItem(payload, env, now)])
              && o.trace == [Exec(InsertItemStmt, true),
                             Publish(RoomAudience(s, Field(payload, "shareId")), ItemAdded(ClientItem(payload)))]
    ensures Machine.Wf(s) ==> Machine.Wf(o.state)
  {
    if Nullish(payload) then Outcome(s, [], Some(TypeError("cannot destructure the payload")))
    else
      var shareId := Field(payload, "shareId");
      var item := Field(payload, "item");
      if Nullish(item) then Outcome(s, [], Some(TypeError("cannot read item.id")))
      else
        var checked := if Truthy(Field(item, "checked")) then 1 else 0;
        var addedBy := Coalesce(Field(item, "addedBy"), Null);
        var id := Bind(Field(item, "id"), env.sqlText);
        var list := Bind(shareId, env.sqlText);
        var name := Bind(Field(item, "name"), env.sqlText);
        var category := Bind(Field(item, "category"), env.sqlText);
        if id.Err? || list.Err? || name.Err? || category.Err? then
          Outcome(s, [Exec(InsertItemStmt, false)], Some(DbFailure(BindUndefined)))
        else
          match InsertItem(s.db, id.value, list.value, name.value, checked, category.value, addedBy, now)
          case Err(e) => Outcome(s, [Exec(InsertItemStmt, false)], Some(DbFailure(e)))
          case Ok(db) =>
            var o := Outcome(s.(db := db), [Exec(InsertItemStmt, true), Publish(RoomAudience(s, shareId), ItemAdded(item))], None);
            ExecThenPublish(o);
            o
  }

  // ------------------------------------------------------ TOGGLE_ITEM / REMOVE_ITEM

  /** The row `WHERE id = ? AND list_id = ?` selects for a payload carrying
      `itemId` and `shareId`, if any. */
  function TargetRow(s: State, payload: JsValue, env: Env): (r: Option<string>)
    ensures r.Some? ==> r.value in s.db.items
  {
    var itemId := Field(payload, "itemId");
    var shareId := Field(payload, "shareId");
    if Nullish(itemId) || Nullish(shareId) then None
    else
      var k := ParamText(itemId, env);
      if k in s.db.items && s.db.items[k].listId == ParamText(shareId, env) then Some(k) else None
  }

  /** The handler throws before any statement runs: the payload cannot be
      destructured or a bound parameter is `undefined`. */
  predicate KeyedThrows(payload: JsValue) {
    Nullish(payload) || Field(payload, "itemId").Undefined? || Field(payload, "shareId").Undefined?
  }

  /** `TOGGLE_ITEM`: write the requested `checked` into the row matching both
      ids, then broadcast the request whether or not a row matched. */
  function ToggleItem(s: State, payload: JsValue, env: Env): (o: Outcome)
    ensures Disciplined(o)
    ensures o.fault.Some? <==> KeyedThrows(payload)
    ensures o.fault.Some? ==> o.state == s
    ensures o.fault.None? ==>
              o.trace == [Exec(UpdateCheckedStmt, true),
                          Publish(RoomAudience(s, Field(payload, "shareId")),
                                  ItemToggled(Field(payload, "itemId"), Field(payload, "checked")))]
    // nothing but the `checked` field of the one matching row changes
    ensures o.state.rooms == s.rooms
    ensures o.state.db.lists == s.db.lists && o.state.db.members == s.db.members
    ensures o.state.db.items.Keys == s.db.items.Keys
    ensures forall k :: k in s.db.items && TargetRow(s, payload, env) != Some(k) ==>
              o.state.db.items[k] == s.db.items[k]
    ensures o.fault.None? && TargetRow(s, payload, env).Some? ==>
              var k := TargetRow(s, payload, env).value;
              o.state.db.items[k] == s.db.items[k].(checked := if Truthy(Field(payload, "checked")) then 1 else 0)
    ensures Machine.Wf(s) ==> Machine.Wf(o.state)
  {
    if Nullish(payload) then Outcome(s, [], Some(TypeError("cannot destructure the payload")))
    else
      var shareId := Field(payload, "shareId");
      var itemId := Field(payload, "itemId");
      var checked := Field(payload, "checked");
      var id := Bind(itemId, env.sqlText);
      var list := Bind(shareId, env.sqlText);
      if id.Err? || list.Err? then Outcome(s, [Exec(UpdateCheckedStmt, false)], Some(DbFailure(BindUndefined)))
      else
        var db := UpdateChecked(s.db, if Truthy(checked) then 1 else 0, id.value, list.value);
        var send := Publish(RoomAudience(s, shareId), ItemToggled(itemId, checked));
        var o := Outcome(s.(db := db), [Exec(UpdateCheckedStmt, true), send], None);
        ExecThenPublish(o);
        o
  }

  /** `REMOVE_ITEM`: delete the row matching both ids, then broadcast the
      removal whether or not a row matched. */
  function RemoveItem(s: State, payload: JsValue, env: Env): (o: Outcome)
    ensures Disciplined(o)
    ensures o.fault.Some? <==> KeyedThrows(payload)
    ensures o.fault.Some? ==> o.state == s
    ensures o.fault.None? ==>
              o.trace == [Exec(DeleteItemStmt, true),
                          Publish(RoomAudience(s, Field(payload, "shareId")), ItemRemoved(Field(payload, "itemId")))]
    ensures o.state.rooms == s.rooms
    ensures o.state.db.lists == s.db.lists && o.state.db.members == s.db.members
    // at most the one matching row goes; every other row, of this list or
    // another, stays as it was
    ensures o.fault.None? && TargetRow(s, payload, env).Some? ==>
              o.state.db.items == s.db.items - {TargetRow(s, payload, env).value}
    ensures TargetRow(s, payload, env).None? ==> o.state.db.items == s.db.items
    ensures Machine.Wf(s) ==> Machine.Wf(o.state)
  {
    if Nullish(payload) then Outcome(s, [], Some(TypeError("cannot destructure the payload")))
    else
      var shareId := Field(payload, "shareId");
      var itemId := Field(payload, "itemId");
      var id := Bind(itemId, env.sqlText);
      var list := Bind(shareId, env.sqlText);
      if id.Err? || list.Err? then Outcome(s, [Exec(DeleteItemStmt, false)], Some(DbFailure(BindUndefined)))
      else
        var db := DeleteItem(s.db, id.value, list.value);
        var send := Publish(RoomAudience(s, shareId), ItemRemoved(itemId));
        var o := Outcome(s.(db := db), [Exec(DeleteItemStmt, true), send], None);
        ExecThenPublish(o);
        o
  }
}
