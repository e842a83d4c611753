/** The HTTP routes of server.js: create a list, fetch a list with its
    items, and count the connections watching a list. */
module Rest {
  import opened Results
  import opened Js
  import opened Text
  import opened Utils
  import opened Store
  import opened Query
  import opened Machine
  import Rooms
  import Sockets

  /** An item as the fetch route returns it. */
  datatype ItemView = ItemView(
    id: string,
    name: string,
    checked: bool,
    category: Option<string>,
    addedBy: JsValue,
    updatedAt: int)

  /** Response bodies. */
  datatype Body =
    | Created(shareId: string)
    | Failed(error: string)
    | ListWithItems(id: string, list: ListRow, items: seq<ItemView>)
    | Count(count: int)

  /** A JSON response, or none at all when an async route rejects (Express
      does not answer for it). */
  datatype Reply = Answer(status: int, body: Body) | NoAnswer

  /** A route that writes: the state it leaves, the statements it ran and its
      reply. */
  datatype Served = Served(state: State, trace: seq<Effect>, reply: Reply)

  /** The name a list gets when the request's name is unusable. */
  const DefaultListName: string := "Liste partagée"

  /** The stored list name: the request's name made safe with a bound of 40,
      or the default when that leaves nothing. */
  function ListName(body: JsValue): (name: string)
    ensures name != ""
    // the request's name, made safe, whenever that leaves something ...
    ensures Safe(Field(body, "name"), 40) != "" ==> name == Safe(Field(body, "name"), 40)
    // ... and the default otherwise
    ensures Safe(Field(body, "name"), 40) == "" ==> name == DefaultListName
    ensures name == DefaultListName ||
              (Field(body, "name").Str? && |name| <= 40 && name <= Trim(Field(body, "name").s))
  {
    var n := Safe(Field(body, "name"), 40);
    if n == "" then DefaultListName else n
  }

  /** The member the request enrols, as (user id, pseudonym), if `user.id` is
      truthy. */
  function Enrolled(body: JsValue, env: Env): (r: Option<(string, Option<string>)>)
    ensures r.Some? <==> Truthy(Field(Field(body, "user"), "id"))
    // a string id and pseudonym are stored as given; a nullish pseudonym as NULL
    ensures r.Some? && Field(Field(body, "user"), "id").Str? ==> r.value.0 == Field(Field(body, "user"), "id").s
    ensures r.Some? && Nullish(Field(Field(body, "user"), "pseudo")) ==> r.value.1 == None
    ensures r.Some? && Field(Field(body, "user"), "pseudo").Str? ==> r.value.1 == Some(Field(Field(body, "user"), "pseudo").s)
  {
    var user := Field(body, "user");
    var uid := Field(user, "id");
    if !Truthy(uid) then None
    else
      var pseudo := Coalesce(Field(user, "pseudo"), Null);
      Some((Sockets.ParamText(uid, env), if pseudo.Null? then None else Some(Sockets.ParamText(pseudo, env))))
  }

  /** `POST /lists`. `rawId` is the `nanoid(7)` draw, `rowId` the `nanoid()`
      draw for the member row and `now` the clock. */
  function CreateList(s: State, body: JsValue, rawId: string, rowId: string, now: int, env: Env): (r: Served)
    // the id is the upper-cased draw: 7 characters from A-Z, 0-9, _ and -
    ensures IsNanoid(rawId, 7) ==>
              |Upper(rawId)| == 7 && forall i :: 0 <= i < 7 ==> IsShareIdChar(Upper(rawId)[i])
    // the insert fails exactly on a primary-key collision: 500, no change
    ensures r.reply == Answer(500, Failed("CREATE_LIST_FAILED")) <==> Upper(rawId) in s.db.lists
    ensures Upper(rawId) in s.db.lists ==> r.state == s && r.trace == [Exec(InsertListStmt, false)]
    ensures Upper(rawId) !in s.db.lists ==>
              var id := Upper(rawId);
              && r.reply == Answer(200, Created(id))
              && r.state.db.lists == s.db.lists[id := ListRow(ListName(body), now, now)]
              && r.state.db.lists[id].name != ""
              && r.state.db.lists[id].createdAt == r.state.db.lists[id].updatedAt
              // the list row is written first; a member row only for a truthy `user.id`
              && r.trace == [Exec(InsertListStmt, true)] + (if Enrolled(body, env).Some? then [Exec(InsertMemberStmt, true)] else [])
    ensures r.state.rooms == s.rooms && r.state.db.items == s.db.items
    // existing memberships are kept as they were; at most the creator's is added
    ensures forall p :: p in s.db.members ==> p in r.state.db.members && r.state.db.members[p] == s.db.members[p]
    ensures Enrolled(body, env).None? ==> r.state.db.members == s.db.members
    ensures Enrolled(body, env).Some? ==>
              r.state.db.members.Keys <= s.db.members.Keys + {(Upper(rawId), Enrolled(body, env).value.0)}
    // a truthy `user.id` enrols the creator in the new list, unless the
    // member row id drawn is already taken (then `INSERT IGNORE` skips it)
    ensures Upper(rawId) !in s.db.lists && Enrolled(body, env).Some? && Machine.Wf(s) && !RowIdTaken(s.db, rowId) ==>
              var member := (Upper(rawId), Enrolled(body, env).value.0);
              && member in r.state.db.members
              && r.state.db.members[member] == MemberRow(rowId, Enrolled(body, env).value.1, now)
    ensures Machine.Wf(s) ==> Machine.Wf(r.state)
  {
    var name := ListName(body);
    var shareId := Upper(rawId);
    match InsertList(s.db, shareId, name, now, now)
    case Err(_) => Served(s, [Exec(InsertListStmt, false)], Answer(500, Failed("CREATE_LIST_FAILED")))
    case Ok(db) =>
      match Enrolled(body, env)
      case None => Served(s.(db := db), [Exec(InsertListStmt, true)], Answer(200, Created(shareId)))
      case Some((userId, pseudo)) =>
        var db' := InsertIgnoreMember(db, rowId, shareId, userId, pseudo, now);
        Served(s.(db := db'), [Exec(InsertListStmt, true), Exec(InsertMemberStmt, true)], Answer(200, Created(shareId)))
  }

  /** One fetched item: `checked` as a boolean, attribution normalised. */
  function View(row: Row, parse: JsonParse): ItemView {
    ItemView(row.0, row.1.name, row.1.checked != 0, row.1.category, ParseAddedBy(row.1.addedBy, parse), row.1.updatedAt)
  }

  function ViewIds(views: seq<ItemView>): (ids: seq<string>)
    ensures |ids| == |views|
    ensures forall i :: 0 <= i < |views| ==> ids[i] == views[i].id
  {
    seq(|views|, i requires 0 <= i < |views| => views[i].id)
  }

  /** `views` lists list `listId`: every stored row exactly once, latest
      update first, each as stored with `checked` as a boolean and the
      attribution through `parseAddedBy`. */
  ghost predicate IsListing(views: seq<ItemView>, db: Db, listId: string, parse: JsonParse) {
    && EachRowOnce(ViewIds(views), db.items, listId)
    && (forall i :: 0 <= i < |views| ==> InList(db.items, listId, views[i].id))
    && (forall i :: 0 <= i < |views| ==>
          var row := db.items[views[i].id];
          && views[i].name == row.name
          && views[i].checked == (row.checked != 0)
          && views[i].category == row.category
          && views[i].addedBy == ParseAddedBy(row.addedBy, parse)
          && views[i].updatedAt == row.updatedAt)
    && Ordered(ViewIds(views), db.items, true)
  }

  /** The fetched items, one per result row and in the same order. */
  function Views(rows: seq<Row>, parse: JsonParse): (views: seq<ItemView>)
    ensures |views| == |rows|
    ensures ViewIds(views) == KeysOf(rows)
    ensures forall i :: 0 <= i < |rows| ==> views[i] == View(rows[i], parse)
  {
    var views := seq(|rows|, i requires 0 <= i < |rows| => View(rows[i], parse));
    assert ViewIds(views) == KeysOf(rows);
    views
  }

  /** The listing of one list, from the descending select. */
  ghost function Listing(db: Db, listId: string, parse: JsonParse): (views: seq<ItemView>)
    ensures IsListing(views, db, listId, parse)
  {
    var rows := ListRows(db, listId, true);
    var views := Views(rows, parse);
    assert ViewIds(views) == KeysOf(rows);
    views
  }

  /** `GET /lists/:shareId`: the id is upper-cased before the lookup. */
  ghost function FetchList(s: State, shareId: string, env: Env): (r: Reply)
    ensures Upper(shareId) !in s.db.lists ==> r == Answer(404, Failed("NOT_FOUND"))
    ensures Upper(shareId) in s.db.lists ==>
              && r.Answer? && r.status == 200 && r.body.ListWithItems?
              && r.body.id == Upper(shareId)
              && r.body.list == s.db.lists[Upper(shareId)]
              && IsListing(r.body.items, s.db, Upper(shareId), env.parse)
  {
    var id := Upper(shareId);
    if id !in s.db.lists then Answer(404, Failed("NOT_FOUND"))
    else
      match SelectItems(s.db, id, UpdatedAt, true)
      case Err(_) => NoAnswer
      case Ok(_) => Answer(200, ListWithItems(id, s.db.lists[id], Listing(s.db, id, env.parse)))
  }

  /** `GET /lists/:shareId/members-count`: the number of connections in the
      room named by the id exactly as given (not upper-cased), or 1 when there
      is no such room. */
  function MembersCount(s: State, shareId: string): (r: Reply)
    ensures r.Answer? && r.status == 200 && r.body.Count?
    ensures shareId in s.rooms ==> r.body.count == |s.rooms[shareId]|
    ensures shareId !in s.rooms ==> r.body.count == 1
    ensures Rooms.Wf(s.rooms) ==> r.body.count >= 1
  {
    var count := if shareId in s.rooms then |s.rooms[shareId]| else 1;
    Answer(200, Count(count))
  }
}
