/**
 * The relay: a process-wide registry from room id to the strokes currently in
 * that room, and one handler per socket event. Rooms are an abstract
 * membership relation (which rooms each connection has joined); each handler
 * returns the messages it emits, each with the set of connections it reaches.
 */
module Relay {
  import opened Strokes

  type ConnId = string
  type RoomId = string

  /** The `sessions` map. */
  type Registry = map<RoomId, seq<Stroke>>

  /** The rooms each connected socket has joined. */
  type Membership = map<ConnId, set<RoomId>>

  datatype CursorPayload = CursorPayload(x: real, y: real, userId: string, name: Option<string>, color: Option<string>)

  datatype Event =
    | SessionData(strokes: seq<Stroke>)
    | UserJoined(socketId: ConnId)
    | UserLeft(socketId: ConnId)
    | DrawingAction(socketId: ConnId, stroke: Stroke)
    | RemoveStroke(socketId: ConnId, strokeId: string)
    | CursorMove(socketId: ConnId, payload: CursorPayload)
    | ClearSession

  /** One emission: the event and the connections that receive it. */
  datatype Message = Message(to: set<ConnId>, event: Event)

  /** `sessions.get(room) || []`. */
  function Stored(reg: Registry, room: RoomId): (r: seq<Stroke>)
    ensures room in reg ==> r == reg[room]
    ensures room !in reg ==> r == []
  {
    if room in reg then reg[room] else []
  }

  /** The registry after a draw event: the stroke is appended to the room's
      list unless a stroke with its id is already there; the room's entry is
      created if missing and no other room changes. */
  function Draw(reg: Registry, room: RoomId, s: Stroke): (r: Registry)
    ensures room in r && r - {room} == reg - {room}
    ensures HasId(r[room], s.id)
    ensures Stored(reg, room) <= r[room]
    ensures |r[room]| == |Stored(reg, room)| + (if HasId(Stored(reg, room), s.id) then 0 else 1)
    ensures !HasId(Stored(reg, room), s.id) ==> r[room] == Stored(reg, room) + [s]
  {
    reg[room := AppendIfAbsent(Stored(reg, room), s)]
  }

  /** The registry after a remove event: the room's list keeps exactly the
      strokes of other ids; no other room changes. */
  function Remove(reg: Registry, room: RoomId, id: string): (r: Registry)
    ensures room in r && r - {room} == reg - {room}
    ensures !HasId(r[room], id)
    ensures forall x :: x in r[room] <==> x in Stored(reg, room) && x.id != id
    ensures r[room] == Without(Stored(reg, room), id)
  {
    reg[room := Without(Stored(reg, room), id)]
  }

  /** The registry after a clear event. */
  function ClearRoom(reg: Registry, room: RoomId): (r: Registry)
    ensures room in r && r[room] == [] && r - {room} == reg - {room}
  {
    reg[room := []]
  }

  /** No room holds two strokes with the same id. */
  predicate RoomsUnique(reg: Registry)
  {
    forall room | room in reg :: UniqueIds(reg[room])
  }

  /** Every connection that has joined `room` (`io.to(room)`). */
  function Members(m: Membership, room: RoomId): (r: set<ConnId>)
    ensures forall c :: c in r <==> c in m && room in m[c]
  {
    set c | c in m && room in m[c]
  }

  /** Every connection that has joined `room` except the sender
      (`socket.to(room)`). */
  function Others(m: Membership, room: RoomId, sender: ConnId): (r: set<ConnId>)
    ensures sender !in r
    ensures forall c :: c in r <==> c in m && room in m[c] && c != sender
  {
    set c | c in m && room in m[c] && c != sender
  }

  /** Broadcasting to the others in a room differs from broadcasting to the
      whole room by the sender alone. */
  lemma OthersAreMembersButSender(m: Membership, room: RoomId, sender: ConnId)
    ensures Others(m, room, sender) == Members(m, room) - {sender}
  {
  }

  /** Drawing the same stroke twice is drawing it once. */
  lemma DrawIdempotent(reg: Registry, room: RoomId, s: Stroke)
    ensures Draw(Draw(reg, room, s), room, s) == Draw(reg, room, s)
  {
  }

  /** After a draw its room holds exactly one stroke of the drawn id,
      provided the room had no duplicate ids before (and by `DrawIdempotent`
      a repeated draw changes nothing more). */
  lemma DrawLeavesOneOfId(reg: Registry, room: RoomId, s: Stroke)
    requires RoomsUnique(reg)
    ensures RoomsUnique(Draw(reg, room, s))
    ensures |set i | 0 <= i < |Draw(reg, room, s)[room]| && Draw(reg, room, s)[room][i].id == s.id| == 1
  {
    var r := Draw(reg, room, s);
    AppendIfAbsentKeepsUnique(Stored(reg, room), s);
    var t := r[room];
    var y: Stroke :| y in t && y.id == s.id;
    var k :| 0 <= k < |t| && t[k] == y;
    var ix := set i | 0 <= i < |t| && t[i].id == s.id;
    assert ix == {k};
  }

  /** A remove keeps every room free of duplicate ids. */
  lemma RemoveKeepsUnique(reg: Registry, room: RoomId, id: string)
    requires RoomsUnique(reg)
    ensures RoomsUnique(Remove(reg, room, id))
  {
    WithoutKeepsUnique(Stored(reg, room), id);
  }

  /** Removing an id the room does not hold leaves its contents as they were,
      though an unknown room gets an empty entry. */
  lemma RemoveAbsent(reg: Registry, room: RoomId, id: string)
    requires !HasId(Stored(reg, room), id)
    ensures Remove(reg, room, id) == reg[room := Stored(reg, room)]
    ensures room !in reg ==> Remove(reg, room, id) == reg[room := []]
  {
    WithoutAbsent(Stored(reg, room), id);
  }

  /** A remove of a stroke's id right after its draw into a room that did not
      hold that id restores the room's contents: the relay's view of undo. */
  lemma DrawThenRemove(reg: Registry, room: RoomId, s: Stroke)
    requires !HasId(Stored(reg, room), s.id)
    ensures Remove(Draw(reg, room, s), room, s.id) == reg[room := Stored(reg, room)]
  {
    var before := Stored(reg, room);
    assert Stored(Draw(reg, room, s), room) == before + [s];
    WithoutConcat(before, [s], s.id);
    WithoutAbsent(before, s.id);
    assert [s][1..] == [];
    assert Without([s], s.id) == [];
    assert before + [] == before;
  }

  /** The snapshot a joining client receives, replayed stroke by stroke into
      its cleared store, reproduces the room's list exactly. */
  lemma SnapshotReplaysExactly(reg: Registry, room: RoomId)
    requires RoomsUnique(reg)
    ensures Dedup(Stored(reg, room)) == Stored(reg, room)
  {
    DedupOfUnique(Stored(reg, room));
  }

  class Server {
    var sessions: Registry
    var membership: Membership
    /** The `sessionId` each connection gave in its handshake query. */
    var handshake: map<ConnId, Option<RoomId>>

    ghost predicate Valid()
      reads this
    {
      RoomsUnique(sessions) && membership.Keys == handshake.Keys
    }

    constructor ()
      ensures Valid()
      ensures sessions == map[] && membership == map[] && handshake == map[]
    {
      sessions, membership, handshake := map[], map[], map[];
    }

    /** A new connection: with a handshake room, it joins that room and is
        sent the room's strokes. */
    method Connect(conn: ConnId, query: Option<RoomId>) returns (out: seq<Message>)
      requires Valid() && conn !in handshake
      modifies this
      ensures Valid()
      ensures sessions == old(sessions)
      ensures handshake == old(handshake)[conn := query]
      ensures membership == old(membership)[conn := if Truthy(query) then {query.value} else {}]
      ensures out == if Truthy(query) then [Message({conn}, SessionData(Stored(sessions, query.value)))] else []
    {
      handshake := handshake[conn := query];
      if query.Some? && query.value != "" {
        membership := membership[conn := {query.value}];
        out := [Message({conn}, SessionData(Stored(sessions, query.value)))];
      } else {
        membership := membership[conn := {}];
        out := [];
      }
    }

    method JoinSession(conn: ConnId, roomId: RoomId) returns (out: seq<Message>)
      requires Valid() && conn in handshake
      modifies this
      ensures Valid()
      ensures sessions == old(sessions) && handshake == old(handshake)
      ensures membership == old(membership)[conn := old(membership)[conn] + {roomId}]
      ensures out == [
        Message({conn}, SessionData(Stored(sessions, roomId))),
        Message(Others(membership, roomId, conn), UserJoined(conn))]
    {
      membership := membership[conn := membership[conn] + {roomId}];
      var existing := Stored(sessions, roomId);
      out := [Message({conn}, SessionData(existing))];
      out := out + [Message(Others(membership, roomId, conn), UserJoined(conn))];
    }

    method DrawingActionHandler(conn: ConnId, roomId: RoomId, stroke: Stroke) returns (out: seq<Message>)
      requires Valid() && conn in handshake
      modifies this
      ensures Valid()
      ensures sessions == Draw(old(sessions), roomId, stroke)
      ensures membership == old(membership) && handshake == old(handshake)
      ensures out == [Message(Others(membership, roomId, conn), DrawingAction(conn, stroke))]
    {
      var arr := Stored(sessions, roomId);
      if !HasId(arr, stroke.id) {
        arr := arr + [stroke];
      }
      DrawLeavesOneOfId(sessions, roomId, stroke);
      sessions := sessions[roomId := arr];
      out := [Message(Others(membership, roomId, conn), DrawingAction(conn, stroke))];
    }

    method RemoveStrokeHandler(conn: ConnId, roomId: RoomId, strokeId: string) returns (out: seq<Message>)
      requires Valid() && conn in handshake
      modifies this
      ensures Valid()
      ensures sessions == Remove(old(sessions), roomId, strokeId)
      ensures membership == old(membership) && handshake == old(handshake)
      ensures out == [Message(Others(membership, roomId, conn), RemoveStroke(conn, strokeId))]
    {
      var arr := Stored(sessions, roomId);
      var newArr := Without(arr, strokeId);
      RemoveKeepsUnique(sessions, roomId, strokeId);
      sessions := sessions[roomId := newArr];
      out := [Message(Others(membership, roomId, conn), RemoveStroke(conn, strokeId))];
    }

    method CursorMoveHandler(conn: ConnId, roomId: RoomId, payload: CursorPayload) returns (out: seq<Message>)
      requires Valid() && conn in handshake
      ensures out == [Message(Others(membership, roomId, conn), CursorMove(conn, payload))]
    {
      out := [Message(Others(membership, roomId, conn), CursorMove(conn, payload))];
    }

    method ClearSessionHandler(conn: ConnId, roomId: RoomId) returns (out: seq<Message>)
      requires Valid() && conn in handshake
      modifies this
      ensures Valid()
      ensures sessions == ClearRoom(old(sessions), roomId)
      ensures membership == old(membership) && handshake == old(handshake)
      ensures out == [Message(Members(membership, roomId), ClearSession)]
      ensures roomId in membership[conn] ==> conn in out[0].to
    {
      sessions := sessions[roomId := []];
      out := [Message(Members(membership, roomId), ClearSession)];
    }

    /** A dropped connection leaves every room; it announces its departure to
        its handshake room only, and only if it gave one. */
    method Disconnect(conn: ConnId) returns (out: seq<Message>)
      requires Valid() && conn in handshake
      modifies this
      ensures Valid()
      ensures sessions == old(sessions)
      ensures handshake == old(handshake) - {conn}
      ensures membership == old(membership) - {conn}
      ensures out == if Truthy(old(handshake)[conn])
                     then [Message(Others(old(membership), old(handshake)[conn].value, conn), UserLeft(conn))]
                     else []
    {
      var sessionId := handshake[conn];
      if sessionId.Some? && sessionId.value != "" {
        out := [Message(Others(membership, sessionId.value, conn), UserLeft(conn))];
      } else {
        out := [];
      }
      membership := membership - {conn};
      handshake := handshake - {conn};
    }
  }
}
