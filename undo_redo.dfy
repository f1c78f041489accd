/**
 * The client-side stroke store: the visible strokes plus the undo and redo
 * stacks, and the operations the whiteboard calls on them when the user draws,
 * undoes or redoes, and when draw, remove, clear and snapshot events arrive
 * from the relay.
 *
 * `History` is the store's state as a value and the functions below are its
 * transitions; `StrokeStore` is the stateful object whose methods replace its
 * three fields exactly as those transitions say.
 */
module UndoRedo {
  import opened Strokes

  datatype History = History(strokes: seq<Stroke>, undoStack: seq<Stroke>, redoStack: seq<Stroke>)

  /** The outcome of an undo or redo: the new state, and the id of the stroke
      that moved (None when the stack was empty). */
  datatype Step = Step(after: History, moved: Option<string>)

  const Empty: History := History([], [], [])

  function Last(s: seq<Stroke>): Stroke
    requires s != []
  {
    s[|s| - 1]
  }

  /** A stroke drawn on this client. */
  function AddLocal(h: History, s: Stroke): (r: History)
    ensures r.strokes == h.strokes + [s] && r.undoStack == h.undoStack + [s]
    ensures Last(r.undoStack) == s && r.redoStack == []
  {
    History(h.strokes + [s], h.undoStack + [s], [])
  }

  /** A stroke received from the relay: appended to the visible strokes and to
      the undo stack, each one separately, unless that sequence already holds
      its id. */
  function AddRemote(h: History, s: Stroke): (r: History)
    ensures HasId(r.strokes, s.id) && HasId(r.undoStack, s.id)
    ensures r.strokes == h.strokes <==> HasId(h.strokes, s.id)
    ensures r.undoStack == h.undoStack <==> HasId(h.undoStack, s.id)
    ensures h.strokes <= r.strokes && h.undoStack <= r.undoStack
    ensures !HasId(h.strokes, s.id) ==> r.strokes == h.strokes + [s]
    ensures !HasId(h.undoStack, s.id) ==> r.undoStack == h.undoStack + [s]
    ensures r.redoStack == h.redoStack
  {
    History(AppendIfAbsent(h.strokes, s), AppendIfAbsent(h.undoStack, s), h.redoStack)
  }

  /** A removal received from the relay. */
  function RemoveById(h: History, id: string): (r: History)
    ensures !HasId(r.strokes, id) && !HasId(r.undoStack, id) && !HasId(r.redoStack, id)
    ensures forall x :: x in r.strokes <==> x in h.strokes && x.id != id
    ensures forall x :: x in r.undoStack <==> x in h.undoStack && x.id != id
    ensures forall x :: x in r.redoStack <==> x in h.redoStack && x.id != id
    ensures r.strokes == Without(h.strokes, id) && r.undoStack == Without(h.undoStack, id)
    ensures r.redoStack == Without(h.redoStack, id)
  {
    History(Without(h.strokes, id), Without(h.undoStack, id), Without(h.redoStack, id))
  }

  /** Local undo: the last undo entry moves to the redo stack and every visible
      stroke with its id disappears. */
  function Undo(h: History): (r: Step)
    ensures h.undoStack == [] <==> r.moved == None
    ensures h.undoStack == [] ==> r.after == h
    ensures h.undoStack != [] ==>
      var u := Last(h.undoStack);
      && r.moved == Some(u.id)
      && r.after.undoStack + [u] == h.undoStack
      && r.after.redoStack == h.redoStack + [u]
      && !HasId(r.after.strokes, u.id)
      && (forall x :: x in r.after.strokes <==> x in h.strokes && x.id != u.id)
      && r.after.strokes == Without(h.strokes, u.id)
  {
    if h.undoStack == [] then Step(h, None)
    else
      var u := Last(h.undoStack);
      Step(History(Without(h.strokes, u.id), h.undoStack[..|h.undoStack| - 1], h.redoStack + [u]), Some(u.id))
  }

  /** Local redo: the last redo entry moves back to the undo stack and is drawn
      again on top of the visible strokes. */
  function Redo(h: History): (r: Step)
    ensures h.redoStack == [] <==> r.moved == None
    ensures h.redoStack == [] ==> r.after == h
    ensures h.redoStack != [] ==>
      var x := Last(h.redoStack);
      && r.moved == Some(x.id)
      && r.after.redoStack + [x] == h.redoStack
      && r.after.undoStack == h.undoStack + [x]
      && r.after.strokes == h.strokes + [x]
  {
    if h.redoStack == [] then Step(h, None)
    else
      var x := Last(h.redoStack);
      Step(History(h.strokes + [x], h.undoStack + [x], h.redoStack[..|h.redoStack| - 1]), Some(x.id))
  }

  /** Ids are unique within each sequence, and no id waiting on the redo stack
      is visible or on the undo stack. */
  predicate Coherent(h: History)
  {
    && UniqueIds(h.strokes)
    && UniqueIds(h.undoStack)
    && UniqueIds(h.redoStack)
    && forall x :: x in h.redoStack ==> !HasId(h.strokes, x.id) && !HasId(h.undoStack, x.id)
  }

  /** Undo followed at once by redo restores both stacks exactly; the stroke
      comes back at the end of the visible strokes, with every earlier stroke
      of its id filtered out. */
  lemma UndoThenRedo(h: History)
    requires h.undoStack != []
    ensures
      var u := Last(h.undoStack);
      Redo(Undo(h).after) == Step(History(Without(h.strokes, u.id) + [u], h.undoStack, h.redoStack), Some(u.id))
  {
  }

  /** When the undone stroke was visible and visible ids were unique, undo then
      redo leaves the visible strokes a permutation of what they were. */
  lemma UndoThenRedoPermutesStrokes(h: History)
    requires h.undoStack != [] && UniqueIds(h.strokes) && Last(h.undoStack) in h.strokes
    ensures multiset(Redo(Undo(h).after).after.strokes) == multiset(h.strokes)
  {
    var u := Last(h.undoStack);
    UndoThenRedo(h);
    WithoutUniqueMember(h.strokes, u);
  }

  /** Removing the id of a member of a list with unique ids takes out exactly
      that member. */
  lemma {:induction false} WithoutUniqueMember(s: seq<Stroke>, x: Stroke)
    requires UniqueIds(s) && x in s
    ensures multiset(Without(s, x.id)) + multiset{x} == multiset(s)
  {
    assert s == [s[0]] + s[1..];
    if s[0] == x {
      assert !HasId(s[1..], x.id) by {
        forall y | y in s[1..] ensures y.id != x.id {
          var k :| 0 <= k < |s[1..]| && s[1..][k] == y;
          assert s[k + 1] == y;
        }
      }
      WithoutAbsent(s[1..], x.id);
    } else {
      var k :| 0 <= k < |s| && s[k] == x;
      assert s[0].id != x.id;
      assert UniqueIds(s[1..]);
      assert x in s[1..];
      WithoutUniqueMember(s[1..], x);
    }
  }

  /** Undo straight after a local commit of a fresh id takes that stroke back:
      visible strokes and undo stack are as before the commit and the redo
      stack holds just that stroke. */
  lemma UndoAfterAddLocal(h: History, s: Stroke)
    requires !HasId(h.strokes, s.id)
    ensures Undo(AddLocal(h, s)) == Step(History(h.strokes, h.undoStack, [s]), Some(s.id))
  {
    WithoutConcat(h.strokes, [s], s.id);
    WithoutAbsent(h.strokes, s.id);
    assert (h.undoStack + [s])[..|h.undoStack|] == h.undoStack;
  }

  /** A local commit empties the redo stack, so a redo right after it does
      nothing. */
  lemma RedoAfterAddLocalIsNoOp(h: History, s: Stroke)
    ensures Redo(AddLocal(h, s)) == Step(AddLocal(h, s), None)
  {
  }

  /** Applying the same remote stroke twice is applying it once. */
  lemma AddRemoteIdempotent(h: History, s: Stroke)
    ensures AddRemote(AddRemote(h, s), s) == AddRemote(h, s)
  {
  }

  /** Removing an id that none of the three sequences holds changes nothing. */
  lemma RemoveByIdAbsent(h: History, id: string)
    requires !HasId(h.strokes, id) && !HasId(h.undoStack, id) && !HasId(h.redoStack, id)
    ensures RemoveById(h, id) == h
  {
    WithoutAbsent(h.strokes, id);
    WithoutAbsent(h.undoStack, id);
    WithoutAbsent(h.redoStack, id);
  }

  /** Removing twice is removing once. */
  lemma RemoveByIdIdempotent(h: History, id: string)
    ensures RemoveById(RemoveById(h, id), id) == RemoveById(h, id)
  {
    WithoutIdempotent(h.strokes, id);
    WithoutIdempotent(h.undoStack, id);
    WithoutIdempotent(h.redoStack, id);
  }

  /** Deduplication is per sequence: a remote stroke whose id was just undone
      locally is accepted again, and redoing then shows it twice. */
  lemma RemoteRedrawThenRedoDuplicates(s: Stroke)
    ensures
      var undone := Undo(AddLocal(Empty, s)).after;
      var h := Redo(AddRemote(undone, s)).after;
      && Coherent(undone)
      && h.strokes == [s, s]
      && !UniqueIds(h.strokes)
  {
    var undone := Undo(AddLocal(Empty, s)).after;
    assert undone == History([], [], [s]);
    var remote := AddRemote(undone, s);
    assert remote == History([s], [s], [s]);
    var h := Redo(remote).after;
    assert h.strokes == [s, s];
    assert h.strokes[0].id == h.strokes[1].id;
  }

  lemma AddLocalKeepsCoherent(h: History, s: Stroke)
    requires Coherent(h)
    requires !HasId(h.strokes, s.id) && !HasId(h.undoStack, s.id)
    ensures Coherent(AddLocal(h, s))
  {
  }

  lemma AddRemoteKeepsCoherent(h: History, s: Stroke)
    requires Coherent(h) && !HasId(h.redoStack, s.id)
    ensures Coherent(AddRemote(h, s))
  {
  }

  lemma RemoveByIdKeepsCoherent(h: History, id: string)
    requires Coherent(h)
    ensures Coherent(RemoveById(h, id))
  {
    WithoutKeepsUnique(h.strokes, id);
    WithoutKeepsUnique(h.undoStack, id);
    WithoutKeepsUnique(h.redoStack, id);
  }

  lemma UndoKeepsCoherent(h: History)
    requires Coherent(h)
    ensures Coherent(Undo(h).after)
  {
    if h.undoStack != [] {
      var u := Last(h.undoStack);
      var r := Undo(h).after;
      WithoutKeepsUnique(h.strokes, u.id);
      assert !HasId(r.undoStack, u.id) by {
        forall y | y in r.undoStack ensures y.id != u.id {
          var k :| 0 <= k < |r.undoStack| && r.undoStack[k] == y;
          assert h.undoStack[k] == y;
        }
      }
      assert !HasId(h.redoStack, u.id) by {
        forall y | y in h.redoStack ensures y.id != u.id {
          assert u in h.undoStack;
        }
      }
      AppendIfAbsentKeepsUnique(h.redoStack, u);
    }
  }

  lemma RedoKeepsCoherent(h: History)
    requires Coherent(h)
    ensures Coherent(Redo(h).after)
  {
  }

  /** The store as the whiteboard holds it: three sequences, each replaced
      wholesale by every operation. */
  class StrokeStore {
    var strokes: seq<Stroke>
    var undoStack: seq<Stroke>
    var redoStack: seq<Stroke>

    function Model(): History
      reads this
    {
      History(strokes, undoStack, redoStack)
    }

    constructor ()
      ensures Model() == Empty
    {
      strokes, undoStack, redoStack := [], [], [];
    }

    method AddStrokeLocal(stroke: Stroke)
      modifies this
      ensures Model() == AddLocal(old(Model()), stroke)
    {
      strokes := strokes + [stroke];
      undoStack := undoStack + [stroke];
      redoStack := [];
    }

    method AddRemoteStroke(stroke: Stroke)
      modifies this
      ensures Model() == AddRemote(old(Model()), stroke)
    {
      if !HasId(strokes, stroke.id) {
        strokes := strokes + [stroke];
      }
      if !HasId(undoStack, stroke.id) {
        undoStack := undoStack + [stroke];
      }
    }

    method RemoveStrokeById(id: string)
      modifies this
      ensures Model() == RemoveById(old(Model()), id)
    {
      strokes := Without(strokes, id);
      undoStack := Without(undoStack, id);
      redoStack := Without(redoStack, id);
    }

    method UndoLocal() returns (poppedId: Option<string>)
      modifies this
      ensures Step(Model(), poppedId) == Undo(old(Model()))
    {
      if |undoStack| == 0 {
        return None;
      }
      var newUndo := undoStack[..|undoStack| - 1];
      var popped := undoStack[|undoStack| - 1];
      undoStack := newUndo;
      redoStack := redoStack + [popped];
      strokes := Without(strokes, popped.id);
      poppedId := Some(popped.id);
    }

    method RedoLocal() returns (redoneId: Option<string>)
      modifies this
      ensures Step(Model(), redoneId) == Redo(old(Model()))
    {
      if |redoStack| == 0 {
        return None;
      }
      var newRedo := redoStack[..|redoStack| - 1];
      var stroke := redoStack[|redoStack| - 1];
      redoStack := newRedo;
      undoStack := undoStack + [stroke];
      strokes := strokes + [stroke];
      redoneId := Some(stroke.id);
    }

    method ClearAll()
      modifies this
      ensures Model() == Empty
    {
      strokes, undoStack, redoStack := [], [], [];
    }

    function CanUndo(): (b: bool)
      reads this
      ensures b <==> Undo(Model()).moved.Some?
    {
      |undoStack| > 0
    }

    function CanRedo(): (b: bool)
      reads this
      ensures b <==> Redo(Model()).moved.Some?
    {
      |redoStack| > 0
    }

    /** The snapshot handler: clear, then apply each snapshot stroke as a
        remote stroke, in order. */
    method LoadSnapshot(existing: seq<Stroke>)
      modifies this
      ensures Model() == History(Dedup(existing), Dedup(existing), [])
      ensures Coherent(Model())
    {
      ClearAll();
      var i := 0;
      while i < |existing|
        invariant 0 <= i <= |existing|
        invariant Model() == History(Dedup(existing[..i]), Dedup(existing[..i]), [])
      {
        assert existing[..i + 1][..i] == existing[..i];
        AddRemoteStroke(existing[i]);
        i := i + 1;
      }
      assert existing[..i] == existing;
    }
  }
}
