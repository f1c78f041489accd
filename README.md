# Collaborative whiteboard: stroke store and relay, in Dafny

This project models the state logic of a real-time shared whiteboard.

- **Stroke store** (`src/components/useUndoRedo.tsx`). Each client keeps three ordered stroke lists:
  - the visible `strokes`;
  - an `undoStack`;
  - a `redoStack`.

  It also has the operations that replace those lists. A local commit appends to `strokes` and `undoStack` and empties the redo stack. A remote stroke is appended to each list unless that list already holds its id. Remove-by-id filters all three lists. Undo moves the last undo entry to the redo stack and drops its id from `strokes`. Redo moves the last redo entry back to the undo stack and to the end of `strokes`. Clear empties all three lists.
- **Relay** (`server/src/index.ts`). A process-wide registry maps each room id to that room's stroke list. There is one handler per socket event: connection handshake, `join-session`, `drawing-action`, `remove-stroke`, `cursor-move`, `clear-session` and `disconnect`. Socket.io rooms are an abstract membership relation from each connection to the rooms it has joined. Each handler returns the messages it emits, and each message carries the set of connections it reaches.
- **Whiteboard glue** (`src/components/Whiteboard.tsx`). The snapshot handler clears the store and then applies every snapshot stroke as a remote stroke. The redo button chooses what to re-broadcast. The model also covers the end-to-end draw / undo / redo exchange between two clients and the relay.

Files:

- `strokes.dfy` (module `Strokes`): the stroke list operations. These are lookup by id (`find`), removal by id (`filter`), append-unless-present, and the replay of a snapshot.
- `undo_redo.dfy` (module `UndoRedo`): the store state as a value `History`, with its transitions and the lemmas about them. It also holds the class `StrokeStore`. That class has three `seq<Stroke>` fields, and each method's contract equates its new state with a transition of the old state.
- `relay.dfy` (module `Relay`): the registry functions, the recipient sets and their lemmas. It also holds the class `Server`. Its fields are `sessions`, `membership` and `handshake`, and it has one method per handler.
- `whiteboard.dfy` (module `Whiteboard`): what redo re-broadcasts, and the two-client scenario.

Throughout, every handler and every store operation is one atomic step.

## Model

| member | source | states |
|---|---|---|
| `Strokes.HasId` | src/components/useUndoRedo.tsx:26 | true exactly when some stroke of the list carries the id (the truthiness of `find`) |
| `Strokes.Find` | src/components/Whiteboard.tsx:126 | returns a stroke exactly when the id is present, and then it is the first member of the list carrying that id |
| `Strokes.Without` | src/components/useUndoRedo.tsx:36-38 | keeps exactly the members whose id differs; no stroke of that id remains; never longer than the input |
| `Strokes.AppendIfAbsent` | src/components/useUndoRedo.tsx:25-32 | the result extends the input by at most one stroke, the added stroke is the given one, it grows exactly when the id was absent, and afterwards the id is present |
| `Strokes.Dedup` | src/components/Whiteboard.tsx:48-51 | replaying a snapshot stroke by stroke yields a list with unique ids, drawn only from the snapshot, and holding every id in the snapshot |
| `Strokes.AppendIfAbsentKeepsUnique` | server/src/index.ts:57 | append-unless-present preserves uniqueness of ids |
| `Strokes.AppendIfAbsentIdempotent` | src/components/useUndoRedo.tsx:25-32 | appending the same stroke twice equals appending it once |
| `Strokes.WithoutConcat` | src/components/useUndoRedo.tsx:36 | filtering by id distributes over concatenation, so every kept stroke keeps its order relative to the others |
| `Strokes.WithoutAbsent` | src/components/useUndoRedo.tsx:35-39 | removing an id that is not present changes nothing |
| `Strokes.WithoutIdempotent` | src/components/useUndoRedo.tsx:35-39 | removing an id twice equals removing it once |
| `Strokes.WithoutKeepsUnique` | server/src/index.ts:64 | filtering preserves uniqueness of ids |
| `Strokes.DedupOfUnique` | src/components/Whiteboard.tsx:48-51 | replaying a list that already has unique ids reproduces it exactly |
| `UndoRedo.AddLocal` | src/components/useUndoRedo.tsx:18-22 | the stroke is appended to `strokes` and to `undoStack` with no id check, so it is the new top of the undo stack, and the redo stack becomes empty |
| `UndoRedo.AddRemote` | src/components/useUndoRedo.tsx:24-33 | `strokes` and `undoStack` are each left unchanged exactly when they already hold the id, and otherwise the stroke itself is appended at the end; afterwards both hold the id; `redoStack` is untouched |
| `UndoRedo.RemoveById` | src/components/useUndoRedo.tsx:35-39 | no entry of that id remains in any of the three lists; each list becomes its filter by id (`Without`), so every other entry stays, in its relative order (`WithoutConcat`) |
| `UndoRedo.Undo` | src/components/useUndoRedo.tsx:41-50 | on an empty undo stack it returns no id and leaves the state unchanged; otherwise it returns the last undo entry's id, the undo stack minus that entry plus that entry gives back the old stack, the redo stack gains the entry at its end, and `strokes` becomes its filter by that id, keeping exactly its strokes of other ids in order |
| `UndoRedo.Redo` | src/components/useUndoRedo.tsx:52-60 | on an empty redo stack it returns no id and leaves the state unchanged; otherwise it pops the last redo entry, appends it to the undo stack and to the end of `strokes`, and returns its id |
| `UndoRedo.UndoThenRedo` | src/components/useUndoRedo.tsx:41-60 | undo followed at once by redo restores both stacks exactly; `strokes` becomes the old `strokes` with that id filtered out and the stroke appended |
| `UndoRedo.UndoThenRedoPermutesStrokes` | src/components/useUndoRedo.tsx:41-60 | when visible ids were unique and the undone stroke was visible, undo then redo leaves `strokes` a permutation of what it was |
| `UndoRedo.WithoutUniqueMember` | src/components/useUndoRedo.tsx:48 | in a list with unique ids, filtering out a member's id removes exactly that one member (as a multiset) |
| `UndoRedo.UndoAfterAddLocal` | src/components/useUndoRedo.tsx:18-22 | undo right after a local commit of a fresh id brings `strokes` and `undoStack` back to their values before the commit, leaves just that stroke on the redo stack, and returns its id |
| `UndoRedo.RedoAfterAddLocalIsNoOp` | src/components/useUndoRedo.tsx:21 | a local commit invalidates redo: a redo right after it returns no id and changes nothing |
| `UndoRedo.AddRemoteIdempotent` | src/components/useUndoRedo.tsx:24-33 | applying a remote stroke twice equals applying it once |
| `UndoRedo.RemoveByIdAbsent` | src/components/useUndoRedo.tsx:35-39 | removing an id that none of the three lists holds leaves the state unchanged |
| `UndoRedo.RemoveByIdIdempotent` | src/components/useUndoRedo.tsx:35-39 | removing an id twice equals removing it once |
| `UndoRedo.RemoteRedrawThenRedoDuplicates` | src/components/useUndoRedo.tsx:24-33 | ids are deduplicated per list, not jointly. Commit, then undo, gives a coherent state. A remote re-draw of the same id, followed by redo, then shows that stroke twice in `strokes` |
| `UndoRedo.AddLocalKeepsCoherent` | src/components/useUndoRedo.tsx:18-22 | a local commit of an id absent from `strokes` and `undoStack` keeps ids unique per list and keeps redo ids out of `strokes` and `undoStack` |
| `UndoRedo.AddRemoteKeepsCoherent` | src/components/useUndoRedo.tsx:24-33 | a remote stroke whose id is not on the redo stack keeps the store coherent (the precondition cannot be dropped, see `RemoteRedrawThenRedoDuplicates`) |
| `UndoRedo.RemoveByIdKeepsCoherent` | src/components/useUndoRedo.tsx:35-39 | remove-by-id keeps the store coherent |
| `UndoRedo.UndoKeepsCoherent` | src/components/useUndoRedo.tsx:41-50 | undo keeps the store coherent |
| `UndoRedo.RedoKeepsCoherent` | src/components/useUndoRedo.tsx:52-60 | redo keeps the store coherent |
| `UndoRedo.StrokeStore.constructor` | src/components/useUndoRedo.tsx:14-16 | all three lists start empty |
| `UndoRedo.StrokeStore.AddStrokeLocal` | src/components/useUndoRedo.tsx:18-22 | the stroke is appended to `strokes` and `undoStack` with no id check, and `redoStack` becomes empty |
| `UndoRedo.StrokeStore.AddRemoteStroke` | src/components/useUndoRedo.tsx:24-33 | the new state is `AddRemote` of the old state |
| `UndoRedo.StrokeStore.RemoveStrokeById` | src/components/useUndoRedo.tsx:35-39 | the new state is `RemoveById` of the old state |
| `UndoRedo.StrokeStore.UndoLocal` | src/components/useUndoRedo.tsx:41-50 | the new state and the returned id (None for null) are `Undo` of the old state |
| `UndoRedo.StrokeStore.RedoLocal` | src/components/useUndoRedo.tsx:52-60 | the new state and the returned id are `Redo` of the old state |
| `UndoRedo.StrokeStore.ClearAll` | src/components/useUndoRedo.tsx:62-66 | all three lists become empty |
| `UndoRedo.StrokeStore.CanUndo` | src/components/useUndoRedo.tsx:76 | true exactly when an undo would move a stroke, that is, when the undo stack is non-empty |
| `UndoRedo.StrokeStore.CanRedo` | src/components/useUndoRedo.tsx:77 | true exactly when a redo would move a stroke, that is, when the redo stack is non-empty |
| `UndoRedo.StrokeStore.LoadSnapshot` | src/components/Whiteboard.tsx:48-51 | clear-all, then a remote apply of each snapshot stroke in order. `strokes` and `undoStack` both become the deduplicated replay of the snapshot, `redoStack` becomes empty, and the store is coherent (loop invariant: the replay of the prefix processed so far) |
| `Relay.Stored` | server/src/index.ts:44 | the room's stored list when the room has an entry, and the empty list otherwise (`get || []`) |
| `Relay.Draw` | server/src/index.ts:56-58 | the room's entry exists afterwards; every other room's entry is unchanged; the old list is a prefix of the new one, which grows exactly when the room held no stroke of that id, and then by the stroke itself at the end |
| `Relay.Remove` | server/src/index.ts:63-65 | the room's entry exists afterwards and is the old list filtered by id (`Without`): exactly its strokes of other ids, in their order; every other room's entry is unchanged |
| `Relay.ClearRoom` | server/src/index.ts:76 | the room's entry becomes empty; every other room's entry is unchanged |
| `Relay.Members` | server/src/index.ts:77 | the connections that have joined the room (`io.to`) |
| `Relay.Others` | server/src/index.ts:59 | the connections that have joined the room, except the sender (`socket.to`); the sender is never among them |
| `Relay.OthersAreMembersButSender` | server/src/index.ts:59 | `socket.to(room)` reaches exactly the recipients of `io.to(room)` minus the sender |
| `Relay.DrawIdempotent` | server/src/index.ts:56-58 | a draw applied twice equals a draw applied once |
| `Relay.DrawLeavesOneOfId` | server/src/index.ts:56-58 | from a registry with unique ids per room, a draw leaves it so and leaves exactly one stroke of the drawn id in that room |
| `Relay.RemoveKeepsUnique` | server/src/index.ts:63-65 | a remove keeps ids unique per room |
| `Relay.RemoveAbsent` | server/src/index.ts:63-65 | removing an absent id leaves the room's contents unchanged; an unknown room gets an empty entry |
| `Relay.DrawThenRemove` | server/src/index.ts:55-67 | a draw of a fresh id followed by a remove of that id restores the room's contents |
| `Relay.SnapshotReplaysExactly` | server/src/index.ts:49-51 | with unique ids per room, a joining client's replay of the snapshot equals the room's list |
| `Relay.Server.constructor` | server/src/index.ts:30 | the registry starts empty, with no connections |
| `Relay.Server.Connect` | server/src/index.ts:40-46 | records the handshake room. The registry does not change. If the handshake room is present and non-empty, the connection joins exactly that room and is sent exactly that room's strokes (empty if absent); otherwise it joins no room and nothing is sent |
| `Relay.Server.JoinSession` | server/src/index.ts:48-53 | adds the room to the connection's rooms. The registry does not change. The sender is sent exactly the room's strokes (empty if absent), then `user-joined` goes to the other members only |
| `Relay.Server.DrawingActionHandler` | server/src/index.ts:55-60 | the registry becomes `Draw` of the old one; the event goes to the room's members other than the sender; ids stay unique per room |
| `Relay.Server.RemoveStrokeHandler` | server/src/index.ts:62-67 | the registry becomes `Remove` of the old one; the event goes to the room's members other than the sender; ids stay unique per room |
| `Relay.Server.CursorMoveHandler` | server/src/index.ts:70-73 | changes nothing (no frame) and relays the payload to the room's members other than the sender |
| `Relay.Server.ClearSessionHandler` | server/src/index.ts:75-78 | the room's entry becomes empty and no other room changes. The clear goes to every member of the room, the sender included when it has joined |
| `Relay.Server.Disconnect` | server/src/index.ts:80-86 | the registry does not change. The connection leaves every room. `user-left` goes only to the other members of its handshake room, and only when that room was given and non-empty |
| `Whiteboard.UndoBroadcast` | src/components/Whiteboard.tsx:115-120 | a `remove-stroke` is sent exactly when undo returned an id that is non-null and non-empty (`if (!strokeId) return;`), and it carries that id |
| `Whiteboard.RedoBroadcastAsWritten` | src/components/Whiteboard.tsx:122-129 | as written, a stroke is broadcast exactly when redo returned a non-empty id and the visible list from before the redo holds that id; it is a member of that list with that id |
| `Whiteboard.RedoBroadcast` | src/components/Whiteboard.tsx:122-129 | a stroke is re-broadcast exactly when redo returned a non-null, non-empty id; it is the redone stroke, whose id redo returns and which redo appended to `strokes` |
| `Whiteboard.UndoThenRedoNeverRebroadcasts` | src/components/Whiteboard.tsx:122-129 | as written, a redo straight after an undo returns the undone id but finds nothing to broadcast |
| `Whiteboard.CoherentRedoNeverRebroadcasts` | src/components/Whiteboard.tsx:122-129 | as written, no redo from a coherent store broadcasts anything |
| `Whiteboard.DrawUndoRedoAcrossClients` | src/components/Whiteboard.tsx:102-129 | A draws a stroke, then undoes it, then redoes it, and the relay and client B apply each event A sends. With a non-empty id, the undo empties the relay's room and B; as written, redo sends nothing, so they stay empty; with the intended broadcast, A, B and the relay all end with exactly that one stroke. With an empty id, neither undo nor redo sends anything, so the relay and B keep the stroke throughout |

## Findings

| source | as written | input that shows it | evidently intended | confidence | as-written member | corrected member |
|---|---|---|---|---|---|---|
| src/components/Whiteboard.tsx:122-129 | after `redoLocal()`, the redone stroke is looked up in `strokes`, the visible list as it was before the redo; that list never holds it after an undo, so nothing is re-broadcast | draw stroke `s`, click undo, click redo: `undoLocal` removed `s.id` from `strokes`, so `strokes.find(... s.id)` is undefined and no `drawing-action` is sent; peers and the relay never get `s` back | broadcast the stroke that redo moved back, which is what the `emit("drawing-action", sessionId, added)` at lines 127-128 is there to do | high (not executed) | `Whiteboard.UndoThenRedoNeverRebroadcasts` | `Whiteboard.RedoBroadcast` |

## Left out

- Socket transport: Express/HTTP setup, CORS, `server.listen`, and logging are not modelled. Socket.io delivery is modelled only as recipient sets. Socket.io's own per-socket room, named after the socket id, is not modelled.
- Concurrency: message loss, reordering and the interleaving of clients are not modelled. Each handler and each store operation is one sequential atomic step. React's batched `setState` updates are modelled as applied in order. The closure reads of `undoStack` and `redoStack` in `undoLocal` and `redoLocal` are taken as the current state.
- Stroke ids are inputs chosen by the caller. The random `genId` is not modelled, and neither are React, Konva, mouse handling or PNG/PDF export.
- Other client components are not part of this model: the image classifier, the toolbar, the pages and routing, authentication, and the socket client singleton.
- Numbers: coordinates and sizes are `real`. No floating-point behaviour is modelled; the core never inspects these values.
- The handshake `sessionId` is an optional string. A repeated query parameter, which would make it an array, is not modelled.
- Aliasing: `drawing-action` pushes onto the array already stored in the map. The model rebinds the room's entry to an extended sequence instead. The two agree because the snapshot emit serialises the stored array when it is sent.
- `Relay.Server.Connect` requires a fresh connection id, and the other handlers require a connected one. Socket.io guarantees both, because handlers are registered only inside the connection callback.
