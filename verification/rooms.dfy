/** The socket.io room registry: for each room name, the ids of the
    connections currently joined to it. socket.io drops a room when its last
    connection leaves, so a registered room is never empty. */
module Rooms {

  /** A socket (connection) id. */
  type ConnId = string

  type Registry = map<string, set<ConnId>>

  ghost predicate Wf(reg: Registry) {
    forall room :: room in reg ==> reg[room] != {}
  }

  /** The connections a broadcast to `room` reaches right now. */
  function Members(reg: Registry, room: string): (r: set<ConnId>)
    ensures room in reg ==> r == reg[room]
    ensures room !in reg ==> r == {}
  {
    if room in reg then reg[room] else {}
  }

  /** `socket.join(room)`: idempotent, and no other room changes. */
  function Join(reg: Registry, room: string, conn: ConnId): (r: Registry)
    ensures r.Keys == reg.Keys + {room}
    ensures r[room] == Members(reg, room) + {conn}
    ensures forall other :: other in reg && other != room ==> r[other] == reg[other]
    ensures conn in Members(reg, room) ==> r == reg
    ensures Wf(reg) ==> Wf(r)
  {
    var joined := Members(reg, room) + {conn};
    assert conn in Members(reg, room) ==> joined == reg[room] && reg[room := joined] == reg;
    reg[room := joined]
  }
}
