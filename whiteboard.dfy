/**
 * The whiteboard's glue between its stroke store and the relay: which event a
 * local undo and a local redo broadcast, and the end-to-end draw / undo / redo
 * exchange between two clients and the relay.
 */
module Whiteboard {
  import opened Strokes
  import opened UndoRedo
  import opened Relay

  /** The id the undo button sends in a `remove-stroke` event: the id undo
      returned, unless it is null or empty (`if (!strokeId) return;`). */
  function UndoBroadcast(undone: Option<string>): (r: Option<string>)
    ensures r.Some? <==> undone.Some? && undone.value != ""
    ensures r.Some? ==> r == undone
  {
    if Truthy(undone) then undone else None
  }

  /** What the redo button broadcasts as written: nothing for a null or empty
      id; otherwise the redone id is looked up in `rendered`, the visible
      strokes as they were before the redo. */
  function RedoBroadcastAsWritten(rendered: seq<Stroke>, redone: Option<string>): (r: Option<Stroke>)
    ensures r.Some? <==> Truthy(redone) && HasId(rendered, redone.value)
    ensures r.Some? ==> r.value in rendered && r.value.id == redone.value
  {
    if !Truthy(redone) then None else Find(rendered, redone.value)
  }

  /** What the redo button is meant to broadcast: the stroke the redo put
      back, under the same null-or-empty guard. */
  function RedoBroadcast(h: History): (r: Option<Stroke>)
    ensures r.Some? <==> Truthy(Redo(h).moved)
    ensures r.Some? ==> Redo(h).moved == Some(r.value.id) && Redo(h).after.strokes == h.strokes + [r.value]
  {
    if h.redoStack == [] || Last(h.redoStack).id == "" then None else Some(Last(h.redoStack))
  }

  /** As written, a redo straight after an undo never re-broadcasts: the undo
      filtered the stroke's id out of the very list the redo searches. */
  lemma UndoThenRedoNeverRebroadcasts(h: History)
    requires h.undoStack != []
    ensures
      var undone := Undo(h).after;
      && Redo(undone).moved == Some(Last(h.undoStack).id)
      && RedoBroadcastAsWritten(undone.strokes, Redo(undone).moved) == None
  {
  }

  /** As written, no redo from a coherent store re-broadcasts anything. */
  lemma CoherentRedoNeverRebroadcasts(h: History)
    requires Coherent(h)
    ensures RedoBroadcastAsWritten(h.strokes, Redo(h).moved) == None
  {
  }

  /** The relay registry and a peer's store after an optional `remove-stroke`. */
  function DeliverRemove(reg: Registry, peer: History, room: RoomId, sent: Option<string>): (Registry, History)
  {
    if sent.Some? then (Remove(reg, room, sent.value), RemoveById(peer, sent.value)) else (reg, peer)
  }

  /** The relay registry and a peer's store after an optional `drawing-action`. */
  function DeliverDraw(reg: Registry, peer: History, room: RoomId, sent: Option<Stroke>): (Registry, History)
  {
    if sent.Some? then (Draw(reg, room, sent.value), AddRemote(peer, sent.value)) else (reg, peer)
  }

  /** Two clients in one room. A draws `s`, undoes it, redoes it; each event A
      sends goes through the relay and is applied by B. A ends with `[s]`
      visible. With a non-empty id, undo reaches the relay and B, and as
      written the redo sends nothing, so both stay empty; with the intended
      broadcast all three end with exactly `[s]`. With an empty id neither
      undo nor redo sends anything, so the relay and B keep `[s]` throughout. */
  lemma DrawUndoRedoAcrossClients(s: Stroke, room: RoomId)
    ensures
      // A draws: its store, the relay and B all hold [s].
      var a1 := AddLocal(Empty, s);
      var reg1 := Draw(map[], room, s);
      var b1 := AddRemote(Empty, s);
      // A undoes and broadcasts a remove of the returned id, if truthy.
      var undo := Undo(a1);
      var after2 := DeliverRemove(reg1, b1, room, UndoBroadcast(undo.moved));
      // A redoes.
      var redo := Redo(undo.after);
      var asWritten := DeliverDraw(after2.0, after2.1, room, RedoBroadcastAsWritten(undo.after.strokes, redo.moved));
      var intended := DeliverDraw(after2.0, after2.1, room, RedoBroadcast(undo.after));
      && undo.moved == Some(s.id)
      && a1.strokes == reg1[room] == b1.strokes == [s]
      && undo.after.strokes == []
      && redo.after.strokes == [s]
      && (s.id != "" ==>
            && after2.0[room] == after2.1.strokes == []
            && asWritten.0[room] == asWritten.1.strokes == []
            && intended.0[room] == intended.1.strokes == [s])
      && (s.id == "" ==>
            && UndoBroadcast(undo.moved) == None
            && RedoBroadcast(undo.after) == None
            && after2.0[room] == after2.1.strokes == [s]
            && intended.0[room] == intended.1.strokes == [s])
  {
    var a1 := AddLocal(Empty, s);
    var undo := Undo(a1);
    assert undo.after == History([], [], [s]);
    var b1 := AddRemote(Empty, s);
    assert b1 == History([s], [s], []);
  }
}
