# shopping-sync-backend: a Dafny model of the realtime list server

The server keeps shared shopping lists in MySQL and pushes every change to
the browsers watching a list over socket.io. This project models the logic of
`server.js` as a functional state machine:

- the state is the three tables (`lists`, `items`, `list_members`) as
  immutable maps, plus the socket.io room registry (room name to the set of
  joined connection ids);
- every socket handler, and the create route, is a pure function from the
  state and the raw request to the new state plus the ordered trace of its
  side effects: statements run, rooms joined, events published;
- the fetch and members-count routes only read: each is a function from the
  state and the request to the reply;
- `parseAddedBy` and `safe` are pure functions over a model of JavaScript
  values (`Js.JsValue`), so `undefined`, `null`, truthiness, `?.` and `??`
  behave as in the source.

Modules follow the source:

- `Js`: JavaScript values.
- `Text`: `trim`, `slice(0, n)`, `toUpperCase` and the `nanoid` alphabet.
- `Utils`: the two helpers.
- `Store`: the tables and the statements run against them.
- `Query`: the ordered selects.
- `Rooms`: the socket.io registry.
- `Machine`: the state, events, effects and the ordering discipline.
- `Sockets`: the `JOIN_LIST`, `ADD_ITEM`, `TOGGLE_ITEM` and `REMOVE_ITEM` handlers.
- `Rest`: create, fetch and members-count.
- `Properties`: facts that span several handler runs.

Things the model takes as parameters, because the server calls them but does
not define them:

- `nanoid(7)` and `nanoid()` draws and `Date.now()` are arguments.
- `JSON.parse` is `Env.parse`; `None` means it threw.
- The text that mysql2 and MySQL make of a bound number, boolean or object is
  `Env.sqlText`.

The order MySQL gives to rows with equal sort keys is left unspecified: it is
an arbitrary choice inside the ghost function `Query.ListItemIds`.

Some behaviours of the code that a reader might not expect:

- There is no access control. Bans, ownership, rename, member removal,
  `JOIN_DENIED` and `PRESENCE` do not exist in `server.js`.
- `ITEM_ADDED` carries the client's raw item, not the stored row.
- A toggle does not touch `updated_at`.
- Only `JOIN_LIST` and fetch upper-case the list id.
- Creating a list without a user is allowed.
- Members-count answers 1 for a room that does not exist.
- Fetch orders items newest first.

## Model

| member | source | states |
|---|---|---|
| Utils.ParseAddedBy | server.js:14-25 | Total and never throws: null for falsy input and for truthy input that is neither an object nor a string. Objects and arrays are returned unchanged. A non-empty string gives the parse result, or null when `JSON.parse` throws. |
| Utils.AttributionRoundTrip | server.js:14-25 | An attribution written as `item.addedBy ?? null` reads back through `parseAddedBy` as the same object, or as null when it was missing. |
| Utils.Safe | server.js:28-29 | "" for a non-string. Otherwise a prefix of the trimmed string whose length is the smaller of the bound and the trimmed length. Never longer than a non-negative bound. |
| Utils.SafeDefault | server.js:28-29 | With the default bound of 80 the result is a prefix of the trimmed string of at most 80 characters. |
| Utils.SafeStartsWithContent | server.js:28-29 | A non-empty result never begins with whitespace. |
| Utils.SafeNotIdempotent | server.js:28-29 | The cut can leave trailing whitespace, so a second `safe` can change the result: `safe("a b", 2)` is "a " and `safe("a ", 2)` is "a". |
| Text.Trim | server.js:29 | The result is the middle of a split of the input into leading whitespace, a core that neither starts nor ends with whitespace, and trailing whitespace. |
| Text.TrimUnique | server.js:29 | Any such split yields exactly the trimmed string, so the split characterises `trim`. |
| Text.TrimIdempotent | server.js:29 | Trimming twice is trimming once. |
| Text.SliceTo | server.js:29 | `slice(0, end)` is a prefix whose length is `end` clipped to the string length. A negative `end` counts from the back of the string. |
| Text.Upper | server.js:170 | Length is preserved, each character is mapped on its own, and the result has no lower-case ASCII letter. |
| Text.UpperIdempotent | server.js:197 | An id that is already upper case is unchanged by a second upper-casing. |
| Store.Bind | server.js:261-272 | A bound `undefined` is refused. `null` binds as SQL NULL and a string as itself. |
| Store.InsertList | server.js:173-177 | Fails exactly on a duplicate id. Otherwise adds the one list row and leaves items and members alone. |
| Store.InsertIgnoreMember | server.js:181-186 | `INSERT IGNORE` on the unique pair (list_id, user_id) is idempotent. A pair that already exists leaves the table unchanged. At most that one pair is added and no existing row changes. |
| Store.InsertItem | server.js:261-272 | Succeeds exactly when the id, list id and name are not NULL, the id is new to the whole table and the list exists. On success it adds the one row. |
| Store.UpdateChecked | server.js:278-281 | Only the row matching both the item id and the list id changes, and only in `checked`. With no match, nothing changes. |
| Store.DeleteItem | server.js:287-290 | Removes exactly the row matching both ids, if there is one. Every other row stays as stored. |
| Query.ListRows | server.js:205-208 | Every row of the list appears exactly once, as stored, ordered by `updated_at`. |
| Query.SortIds | server.js:206 | The result is a permutation of the input ids, ordered by `updated_at`. |
| Query.SortedIsOrdered | server.js:206 | Order between neighbours gives order between every pair. |
| Query.SelectItems | server.js:242-245 | The select fails with an unknown-column error exactly when the ORDER BY column is not a column of `items`. Otherwise it returns the list's rows. |
| Query.SelectByColumn | server.js:243 | Ordering by `created_at` always fails. Ordering by `updated_at` always succeeds. |
| Rooms.Join | server.js:240 | `socket.join` adds the connection to its room and changes no other room. Joining twice is idempotent, and rooms stay non-empty. |
| Sockets.Enter | server.js:238-240 | A nullish payload or a non-string `shareId` throws. Otherwise the socket joins the upper-cased room, whether or not the list exists and whoever the caller is. |
| Sockets.JoinList | server.js:238-258 | As written: the socket joins the upper-cased room, the select on the missing `created_at` column fails, and no snapshot is sent. The tables are unchanged. |
| Sockets.AsWrittenEntries | server.js:248-254 | Each entry has `checked` as a boolean. Its attribution is always null, because the row has no `addedBy` property. |
| Sockets.FixedSnapshotIsSnapshot | server.js:248-257 | The corrected entries hold every row of the list exactly once, oldest update first. Each entry has `checked` as a boolean and the attribution through `parseAddedBy`. |
| Sockets.JoinListFixed | server.js:238-258 | Corrected join: the room is joined, then one select runs, then the snapshot is sent to the joining socket alone. The tables are unchanged. |
| Sockets.RoomAudience | server.js:274 | A broadcast reaches exactly the connections in the room named by `shareId` as given. A non-string id reaches nobody. |
| Sockets.StoredItem | server.js:264-271 | The row belongs to the list `shareId` names and carries `item.name`. `checked` is 0 or 1 and follows the truthiness of `item.checked`. A null category is stored as NULL, any other as its text. A present attribution is stored as sent and a missing one as JSON null. `updated_at` is the clock. |
| Sockets.AddItem | server.js:260-275 | Persists before it publishes. The row is stored exactly when the insert is accepted, for example a new global id for an existing list. Only then is the raw client item broadcast to the room. A rejected insert changes nothing and publishes nothing. |
| Sockets.ToggleItem | server.js:277-284 | Only the `checked` field of the row matching both ids changes. `ITEM_TOGGLED` carries the requested value and is broadcast whether or not a row matched. It throws only on a nullish payload or an undefined id. |
| Sockets.RemoveItem | server.js:286-293 | Deletes at most the row matching both ids, leaving every other list's items untouched. `ITEM_REMOVED` is broadcast whether or not a row matched. |
| Rest.ListName | server.js:169 | The stored name is `safe(body.name, 40)` whenever that is non-empty, and the default "Liste partagée" otherwise. So it is never empty and is at most 40 characters of the trimmed request name. |
| Rest.Enrolled | server.js:179-180 | A member is enrolled exactly when `user.id` is truthy. A string id and pseudonym are kept as sent, and a nullish pseudonym becomes NULL. |
| Rest.CreateList | server.js:167-194 | The id is the upper-cased 7-character draw, and the name is never empty. `created_at == updated_at`. The list row is written before any member row, and a member row only for a truthy `user.id`. On a fresh id and an unused member row id, a truthy `user.id` enrols the creator with the pseudonym and the clock. A collision answers 500 and changes nothing. Existing members are kept, and no other pair is added. |
| Rest.Listing | server.js:205-220 | Every row of the list exactly once, newest update first. `checked` is a boolean and the attribution goes through `parseAddedBy`. |
| Rest.FetchList | server.js:196-221 | The id is upper-cased. An unknown list answers 404 NOT_FOUND. Otherwise the answer is the list row and its listing. |
| Rest.MembersCount | server.js:224-231 | The room's size for the id exactly as given, or 1 when no room exists. Never below 1. |
| Properties.JoinThenCount | server.js:224-240 | After a join, the count for the upper-cased id includes the joiner: one more than before for a new connection. Asked with a raw id that upper-casing changes, it misses the join and answers 1. |
| Properties.AddThenRemoveRestores | server.js:260-293 | A remove naming the added item's id and list id undoes a successful add exactly. |
| Properties.ToggleIdempotent | server.js:277-284 | Repeating the same toggle changes nothing further. |
| Properties.ToggleWithoutRowStillPublishes | server.js:277-284 | A toggle whose ids match no row leaves the state unchanged and still broadcasts `ITEM_TOGGLED`. |
| Properties.AddThenFetch | server.js:196-221 | After a successful add to an upper-case list id, a fetch returns the item exactly once. `checked` is a boolean and the structured attribution is unchanged. |
| Properties.SnapshotHasRow | server.js:248-257 | A snapshot holds each stored row of its list exactly once, with its stored flag and attribution. |
| Properties.AddThenJoinFixed | server.js:238-275 | With the corrected join, the joiner's snapshot holds an earlier-added item exactly once, with `checked` as a boolean and its attribution intact. |
| Properties.AddThenJoinAsWritten | server.js:238-245 | With the join as written, an earlier add is never delivered. The joiner is in the room but receives nothing. |
| Properties.AttributionDroppedAsWritten | server.js:253 | For a stored attribution object, the as-written entry carries null and the corrected entry carries the object. |
| Properties.LowerCaseIdMissesJoiners | server.js:277-283 | Take an id that upper-casing changes, such as "abc", and suppose no room is named by the id itself. A client that joined with the id sits in the upper-cased room. A toggle sent with the same id reaches no connection at all, so no joined client hears of it. |

## Findings

| source | as written | input that shows it | evidently intended | confidence | as-written member | corrected member |
|---|---|---|---|---|---|---|
| server.js:242-245 | The snapshot select orders by `created_at`, a column that the `items` table created at server.js:129-139 does not have. MySQL rejects the statement, the handler throws after `socket.join`, and no `SNAPSHOT` is ever sent (`Properties.AddThenJoinAsWritten`). | any `JOIN_LIST` with a string `shareId` | order by `updated_at` ascending, the only timestamp of an item | medium, not executed: a table created earlier with a `created_at` column would avoid the error, since the DDL is `CREATE TABLE IF NOT EXISTS` | Sockets.JoinList | Sockets.JoinListFixed |
| server.js:253 | The snapshot reads `row.addedBy`, but the column is `added_by`, so every snapshot entry's attribution is null (`Properties.AttributionDroppedAsWritten`). | a row stored with `addedBy: {"id": "u1"}` | `parseAddedBy(row.added_by)`, as the fetch route does at server.js:217 | high, not executed | Sockets.AsWrittenEntries | Sockets.FixedSnapshotIsSnapshot |

## Left out

- Process plumbing is not modelled: environment logging, the Express, CORS and socket.io setup, the pool configuration, `initDb` with its fatal exit, `server.listen`, and all of `db.js`. None of it holds logic of the core.
- Handlers are atomic. Async interleaving of concurrent requests and the socket transport are not modelled.
- A lost database connection and other server errors are not modelled. A statement fails only on a bound `undefined`, a constraint violation, or an ORDER BY column that `items` does not have (`Query.SelectItems`). The lookup of a list row by id never fails.
- What Node does with a handler's rejected promise is not modelled. Depending on its unhandled-rejection mode it logs or exits. The model records the fault and that nothing was published.
- Leaving rooms on disconnect and the per-socket room that socket.io creates are not modelled. The server code never acts on either.
- `io.to` given an array of room names is not modelled. A non-string id reaches nobody.
- Key comparison in the store is exact. MySQL's default collation compares case-insensitively, and it compares a text column with a numeric parameter as numbers. Neither is modelled.
- VARCHAR widths (16, 32, 50, 255) are not enforced. Whether an over-long value is an error or is truncated depends on the server's SQL mode.
- The JSON written to `added_by`, stored by MySQL and parsed back by mysql2 is taken to be the same value.
- Numbers are integers. Fractions, NaN and -0 are not modelled.
- Strings are sequences of Unicode scalar values, not UTF-16 code units, so a `slice` that would split a surrogate pair is not modelled.
- A pre-existing `items` table with columns other than those at server.js:129-139 is not modelled.
- Text.Upper: maps only ASCII letters, while `toUpperCase` also maps other letters and can lengthen a string (ß becomes SS). Ids drawn from `nanoid` are ASCII.
- Rest.FetchList: the answer for a failing select (no response at all, since the route has no `catch`) is present in the model but never reached.
