/** Properties that relate several handler runs: what a later fetch or join
    sees of an earlier add, how remove and toggle undo one another, and how
    the ids that are not upper-cased miss the joined rooms. */
module Properties {
  import opened Results
  import opened Js
  import opened Text
  import opened Utils
  import opened Store
  import opened Query
  import opened Machine
  import Rooms
  import opened Sockets
  import opened Rest

  /** A remove naming the added item's id and list undoes a successful add. */
  lemma {:induction false} AddThenRemoveRestores(s: State, payload: JsValue, env: Env, now: int)
    requires AddItem(s, payload, env, now).fault.None?
    ensures
      var added := AddItem(s, payload, env, now).state;
      var undo := Obj(map["shareId" := Field(payload, "shareId"),
                          "itemId" := Field(ClientItem(payload), "id")]);
      RemoveItem(added, undo, env).state == s
  {
    var added := AddItem(s, payload, env, now).state;
    var undo := Obj(map["shareId" := Field(payload, "shareId"),
                        "itemId" := Field(ClientItem(payload), "id")]);
    var k := ItemKey(payload, env);
    assert Field(undo, "itemId") == Field(ClientItem(payload), "id");
    assert Field(undo, "shareId") == Field(payload, "shareId");
    assert TargetRow(added, undo, env) == Some(k);
    assert added.db.items - {k} == s.db.items;
  }

  /** Toggling a row to the value it already holds changes nothing, so a
      repeated toggle is idempotent. */
  lemma {:induction false} ToggleIdempotent(s: State, payload: JsValue, env: Env)
    ensures
      var once := ToggleItem(s, payload, env).state;
      ToggleItem(once, payload, env).state == once
  {
    var once := ToggleItem(s, payload, env).state;
    var twice := ToggleItem(once, payload, env).state;
    if !KeyedThrows(payload) {
      var target := TargetRow(s, payload, env);
      assert TargetRow(once, payload, env) == target;
      if target.Some? {
        var k := target.value;
        assert twice.db.items[k] == once.db.items[k];
      }
      assert twice.db.items == once.db.items;
    }
  }

  /** A toggle broadcasts even when no row matches: a stale or foreign item
      id still yields `ITEM_TOGGLED` to the room, with the stored items
      untouched. */
  lemma ToggleWithoutRowStillPublishes(s: State, payload: JsValue, env: Env)
    requires !KeyedThrows(payload) && TargetRow(s, payload, env).None?
    ensures ToggleItem(s, payload, env).state == s
    ensures ToggleItem(s, payload, env).trace[1] ==
              Publish(RoomAudience(s, Field(payload, "shareId")),
                      ItemToggled(Field(payload, "itemId"), Field(payload, "checked")))
  {
    assert ToggleItem(s, payload, env).state.db.items == s.db.items;
  }

  /** After a successful add to an upper-case list id, fetching the list
      returns the item exactly once, with `checked` as a boolean and a
      structured attribution unchanged. */
  lemma {:induction false} AddThenFetch(s: State, payload: JsValue, env: Env, now: int)
    requires AddItem(s, payload, env, now).fault.None?
    requires Field(payload, "shareId").Str?
    requires Upper(Field(payload, "shareId").s) == Field(payload, "shareId").s
    ensures
      var listId := Field(payload, "shareId").s;
      var item := ClientItem(payload);
      var r := FetchList(AddItem(s, payload, env, now).state, listId, env);
      && r.Answer? && r.status == 200
      && multiset(ViewIds(r.body.items))[ItemKey(payload, env)] == 1
      && forall i :: 0 <= i < |r.body.items| && r.body.items[i].id == ItemKey(payload, env) ==>
           && r.body.items[i].checked == Truthy(Field(item, "checked"))
           && (Field(item, "addedBy").Obj? ==> r.body.items[i].addedBy == Field(item, "addedBy"))
           && (Nullish(Field(item, "addedBy")) ==> r.body.items[i].addedBy == Null)
  {
    var listId := Field(payload, "shareId").s;
    var st := AddItem(s, payload, env, now).state;
    var k := ItemKey(payload, env);
    assert ParamText(Field(payload, "shareId"), env) == listId;
    assert st.db.items[k] == StoredItem(payload, env, now);
    assert InList(st.db.items, listId, k);
    assert listId in st.db.lists;
    var r := FetchList(st, listId, env);
    ListingHasRow(r.body.items, st.db, listId, env.parse, k);
    AttributionRoundTrip(Field(ClientItem(payload), "addedBy"), env.parse);
  }

  /** A listing holds each row of its list once, as stored. */
  lemma ListingHasRow(views: seq<ItemView>, db: Db, listId: string, parse: JsonParse, k: string)
    requires IsListing(views, db, listId, parse)
    requires InList(db.items, listId, k)
    ensures multiset(ViewIds(views))[k] == 1
    ensures forall i :: 0 <= i < |views| && views[i].id == k ==>
              views[i].checked == (db.items[k].checked != 0)
              && views[i].addedBy == ParseAddedBy(db.items[k].addedBy, parse)
  {
  }

  /** A snapshot holds each row of its list once, as stored. */
  lemma SnapshotHasRow(entries: seq<SnapshotEntry>, db: Db, listId: string, parse: JsonParse, k: string)
    requires IsSnapshot(entries, db, listId, parse)
    requires InList(db.items, listId, k)
    ensures multiset(EntryIds(entries))[k] == 1
    ensures forall i :: 0 <= i < |entries| && entries[i].id == k ==>
              entries[i].checked == (db.items[k].checked != 0)
              && entries[i].addedBy == ParseAddedBy(db.items[k].addedBy, parse)
  {
  }

  /** The corrected join delivers an earlier add: the joiner's snapshot holds
      the item exactly once, with `checked` as a boolean and a structured
      attribution unchanged. */
  lemma {:induction false} AddThenJoinFixed(s: State, payload: JsValue, env: Env, now: int,
                                            conn: Rooms.ConnId)
    requires AddItem(s, payload, env, now).fault.None?
    requires Field(payload, "shareId").Str?
    requires Upper(Field(payload, "shareId").s) == Field(payload, "shareId").s
    ensures
      var listId := Field(payload, "shareId").s;
      var item := ClientItem(payload);
      var o := JoinListFixed(AddItem(s, payload, env, now).state, conn,
                             Obj(map["shareId" := Str(listId)]), env);
      && o.trace[2].to == ToSocket(conn)
      && multiset(EntryIds(o.trace[2].event.entries))[ItemKey(payload, env)] == 1
      && forall i :: 0 <= i < |o.trace[2].event.entries| && o.trace[2].event.entries[i].id == ItemKey(payload, env) ==>
           && o.trace[2].event.entries[i].checked == Truthy(Field(item, "checked"))
           && (Field(item, "addedBy").Obj? ==> o.trace[2].event.entries[i].addedBy == Field(item, "addedBy"))
  {
    var listId := Field(payload, "shareId").s;
    var st := AddItem(s, payload, env, now).state;
    var k := ItemKey(payload, env);
    var join := Obj(map["shareId" := Str(listId)]);
    assert Field(join, "shareId") == Str(listId);
    assert JoinRoom(join) == Some(listId);
    assert ParamText(Field(payload, "shareId"), env) == listId;
    var row := StoredItem(payload, env, now);
    assert st.db.items[k] == row;
    assert InList(st.db.items, listId, k);
    var o := JoinListFixed(st, conn, join, env);
    var entries := o.trace[2].event.entries;
    assert IsSnapshot(entries, st.db, listId, env.parse);
    SnapshotHasRow(entries, st.db, listId, env.parse, k);
    AttributionRoundTrip(Field(ClientItem(payload), "addedBy"), env.parse);
  }

  /** The handler as written never delivers an earlier add: the joiner is in
      the room, but the select fails and no snapshot is sent. */
  lemma AddThenJoinAsWritten(s: State, payload: JsValue, env: Env, now: int, conn: Rooms.ConnId)
    requires AddItem(s, payload, env, now).fault.None?
    requires Field(payload, "shareId").Str?
    ensures
      var listId := Field(payload, "shareId").s;
      var join := Obj(map["shareId" := Str(listId)]);
      var o := JoinList(AddItem(s, payload, env, now).state, conn, join, env);
      && conn in o.state.rooms[Upper(listId)]
      && o.fault == Some(DbFailure(UnknownColumn("created_at")))
      && forall i :: 0 <= i < |o.trace| ==> !o.trace[i].Publish?
  {
    var listId := Field(payload, "shareId").s;
    var join := Obj(map["shareId" := Str(listId)]);
    assert Field(join, "shareId") == Str(listId);
  }

  /** Even if the select succeeded, the entries built by the handler as
      written drop a stored attribution that the corrected entries keep. */
  lemma AttributionDroppedAsWritten(id: string, row: ItemRow, parse: JsonParse)
    requires row.addedBy.Obj?
    ensures AsWrittenEntries([(id, row)], parse).value[0].addedBy == Null
    ensures FixedEntry((id, row), parse).addedBy == row.addedBy
  {
  }

  /** `ADD_ITEM`, `TOGGLE_ITEM` and `REMOVE_ITEM` do not upper-case the id:
      a client that joined with "abc" sits in room "ABC", and a toggle sent
      with the same "abc" reaches none of the connections in the room. */
  lemma LowerCaseIdMissesJoiners(s: State, conn: Rooms.ConnId, id: string, join: JsValue, toggle: JsValue, env: Env)
    requires Upper(id) != id && id !in s.rooms
    requires Field(join, "shareId") == Str(id)
    requires Field(toggle, "shareId") == Str(id) && !KeyedThrows(toggle)
    ensures
      var joined := JoinListFixed(s, conn, join, env).state;
      && conn in joined.rooms[Upper(id)]
      && ToggleItem(joined, toggle, env).trace[1].to.recipients == {}
  {
    assert JoinRoom(join) == Some(Upper(id));
    var joined := JoinListFixed(s, conn, join, env).state;
    assert id !in joined.rooms;
  }

  /** Members-count sees a join at once under the upper-cased id: a
      connection new to the room adds one, and a room that did not exist
      counts the joiner alone. Asked with a raw id that upper-casing
      changes, it does not see the join and answers its default of 1. */
  lemma {:induction false} JoinThenCount(s: State, conn: Rooms.ConnId, join: JsValue, env: Env)
    requires JoinRoom(join).Some?
    ensures
      var room := JoinRoom(join).value;
      var joined := JoinListFixed(s, conn, join, env).state;
      MembersCount(joined, room).body.count ==
        |Rooms.Members(s.rooms, room)| + (if conn in Rooms.Members(s.rooms, room) then 0 else 1)
    ensures
      var room := JoinRoom(join).value;
      var raw := Field(join, "shareId").s;
      var joined := JoinListFixed(s, conn, join, env).state;
      raw != room && raw !in s.rooms ==> MembersCount(joined, raw).body.count == 1
  {
    var room := JoinRoom(join).value;
    var before := Rooms.Members(s.rooms, room);
    if conn !in before {
      assert |before + {conn}| == |before| + 1;
    } else {
      assert before + {conn} == before;
    }
  }
}
