/** The server's state, the events it emits and the trace of side effects a
    handler produces, with the ordering discipline every handler keeps. */
module Machine {
  import opened Results
  import opened Js
  import Store
  import Rooms

  /** The persisted tables and the live room registry. */
  datatype State = State(db: Store.Db, rooms: Rooms.Registry)

  ghost predicate Wf(s: State) {
    Store.Wf(s.db) && Rooms.Wf(s.rooms)
  }

  /** Oracles the server calls but does not define: `JSON.parse` and the
      driver's text conversion of bound non-string values. */
  datatype Env = Env(parse: JsValue -> Option<JsValue>, sqlText: JsValue -> string)

  /** One entry of a `SNAPSHOT`. */
  datatype SnapshotEntry = SnapshotEntry(
    id: string,
    name: string,
    checked: bool,
    category: Option<string>,
    addedBy: JsValue)

  /** Server-to-client socket events. */
  datatype Event =
    | Snapshot(entries: seq<SnapshotEntry>)
    | ItemAdded(item: JsValue)
    | ItemToggled(itemId: JsValue, checked: JsValue)
    | ItemRemoved(itemId: JsValue)

  /** Who an emitted event reaches: the emitting socket alone
      (`socket.emit`), or every connection joined to a room at the moment of
      the broadcast (`io.to(room).emit`). */
  datatype Audience =
    | ToSocket(conn: Rooms.ConnId)
    | ToRoom(room: JsValue, recipients: set<Rooms.ConnId>)

  /** The statements the handlers issue. */
  datatype Stmt =
    | InsertListStmt
    | InsertMemberStmt
    | SelectListStmt
    | SelectItemsStmt
    | InsertItemStmt
    | UpdateCheckedStmt
    | DeleteItemStmt

  /** One observable side effect, in program order. */
  datatype Effect =
    | Exec(stmt: Stmt, ok: bool)
    | Subscribe(conn: Rooms.ConnId, room: string)
    | Publish(to: Audience, event: Event)

  /** Why a handler stopped with an uncaught exception. */
  datatype Fault =
    | TypeError(what: string)
    | DbFailure(error: Store.DbError)
    | JsonSyntax

  /** A socket handler's run: the state it leaves, its effects in order, and
      the exception it ended with, if any. */
  datatype Outcome = Outcome(state: State, trace: seq<Effect>, fault: Option<Fault>)

  /** No statement runs after anything has been published. */
  ghost predicate PersistBeforePublish(trace: seq<Effect>) {
    forall i, j :: 0 <= i < j < |trace| && trace[j].Exec? ==> !trace[i].Publish?
  }

  /** A failed statement ends the handler. */
  ghost predicate StopsAtFailure(trace: seq<Effect>) {
    forall i :: 0 <= i < |trace| && trace[i].Exec? && !trace[i].ok ==> i == |trace| - 1
  }

  ghost predicate Publishes(trace: seq<Effect>) {
    exists i :: 0 <= i < |trace| && trace[i].Publish?
  }

  /** The ordering discipline of every handler: statements before
      publication, nothing after a failed statement, and a run that ends in an
      exception has published nothing. */
  ghost predicate Disciplined(o: Outcome) {
    && PersistBeforePublish(o.trace)
    && StopsAtFailure(o.trace)
    && (o.fault.Some? ==> !Publishes(o.trace))
  }

  /** A run of one successful statement followed by one publication. */
  lemma ExecThenPublish(o: Outcome)
    requires |o.trace| == 2 && o.trace[0].Exec? && o.trace[0].ok && o.trace[1].Publish?
    requires o.fault.None?
    ensures Disciplined(o)
  {
  }

  /** A run that joins a room, runs one successful statement and then
      publishes once. */
  lemma JoinExecPublish(o: Outcome)
    requires |o.trace| == 3 && o.trace[0].Subscribe? && o.trace[1].Exec? && o.trace[1].ok && o.trace[2].Publish?
    requires o.fault.None?
    ensures Disciplined(o)
  {
  }
}
