/** The change handler of lib/atom--paste-hex-with-hash.js: the earlier
    version, which prefixes every hex literal of length 3 or 6 whatever
    precedes it. */
module Legacy {
  import opened Editor
  import opened PasteHex

  /** The body of the handler's loop for one change: a change whose text is
      not a 3- or 6-digit hex literal is left alone; any other change gets a
      `#` at its new start, as one undoable step, and comes back with its new
      end moved past the `#`, where the editor's single cursor is then put. */
  method HandleOneChange(editor: TextEditor, change: Change, cursorPositions: seq<Point>)
    returns (updated: Change, positions: seq<Point>)
    requires editor.Valid()
    modifies editor
    ensures editor.Valid()
    ensures Qualifies(false, old(editor.lines), change) ==>
              && updated == ShiftEnd(change)
              && positions == cursorPositions + [updated.newEnd]
              && editor.lines == InsertAt(old(editor.lines), Clip(old(editor.lines), change.newStart), "#")
              && editor.cursors == [updated.newEnd]
              && editor.undoStack == old(editor.undoStack) + [old(editor.lines)]
    ensures !Qualifies(false, old(editor.lines), change) ==>
              && updated == change && positions == cursorPositions
              && editor.lines == old(editor.lines) && editor.cursors == old(editor.cursors)
              && editor.undoStack == old(editor.undoStack)
  {
    updated, positions := change, cursorPositions;
    if |change.newText| != 3 && |change.newText| != 6 {
      return;
    }
    if !IsHex(change.newText) {
      return;
    }
    editor.SetCursorBufferPosition(change.newStart);
    editor.InsertText("#");
    // the event's own change record has its end moved past the new `#`
    updated := change.(newEnd := Point(change.newEnd.row, change.newEnd.column + 1));
    editor.SetCursorBufferPosition(updated.newEnd);
    positions := cursorPositions + [updated.newEnd];
  }

  /** The handler's loop over the changes of one event, in order: each
      change goes through `HandleOneChange`, which writes its updated record
      back into the event and collects the recorded positions. */
  method PrefixHexChanges(editor: TextEditor, event: array<Change>) returns (cursorPositions: seq<Point>)
    requires editor.Valid()
    modifies editor, event
    ensures editor.Valid()
    ensures LoopState(false, old(editor.lines), old(event[..]), old(editor.cursors), old(editor.undoStack), event.Length,
                      editor.lines, editor.cursors, editor.undoStack, cursorPositions, event[..])
  {
    ghost var lines0, changes0 := editor.lines, event[..];
    ghost var cursors0, undo0 := editor.cursors, editor.undoStack;
    cursorPositions := [];
    for i := 0 to event.Length
      invariant editor.Valid()
      invariant forall k :: i <= k < event.Length ==> event[k] == changes0[k]
      invariant LoopState(false, lines0, changes0, cursors0, undo0, i, editor.lines, editor.cursors, editor.undoStack,
                          cursorPositions, event[..i])
    {
      ghost var lines, cursors, undoStack := editor.lines, editor.cursors, editor.undoStack;
      ghost var recorded, done := cursorPositions, event[..i];
      ghost var prefixed := Qualifies(false, lines, event[i]);
      var change;
      change, cursorPositions := HandleOneChange(editor, event[i], cursorPositions);
      LoopStep(false, lines0, changes0, cursors0, undo0, i, lines, cursors, undoStack, recorded, done,
               prefixed, change, editor.lines, editor.cursors, editor.undoStack, cursorPositions);
      event[i] := change;
      assert event[..i + 1] == done + [change];
    }
    assert event[..event.Length] == event[..];
  }

  /** Handles one buffer-change event as the prefix-aware version does, but
      without looking at the character before a change. */
  method HandleChange(editor: TextEditor, event: array<Change>)
    requires editor.Valid()
    modifies editor, event
    ensures editor.Valid()
    ensures var h := Process(false, old(editor.lines), old(event[..]));
            && editor.lines == h.lines
            && event[..] == h.changes
            && editor.cursors == (if h.recorded == [] then old(editor.cursors)
                                  else AddCursors([h.recorded[|h.recorded| - 1]], h.recorded))
            && editor.undoStack == (if h.recorded == [] then old(editor.undoStack)
                                    else old(editor.undoStack) + [old(editor.lines)])
  {
    ghost var lines0, changes0, cursors0, undo0 := editor.lines, event[..], editor.cursors, editor.undoStack;
    var undoCheckpoint := editor.CreateCheckpoint();
    var cursorPositions := PrefixHexChanges(editor, event);
    LoopStateAtEnd(false, lines0, changes0, cursors0, undo0, editor.lines, editor.cursors, editor.undoStack,
                   cursorPositions, event[..]);
    editor.GroupChangesSinceCheckpoint(undoCheckpoint);
    ResetCursors(editor, cursorPositions);
  }

  /** A change this version prefixes: its text is a hex literal of length 3
      or 6. */
  predicate IsHexPaste(c: Change)
  {
    (|c.newText| == 3 || |c.newText| == 6) && IsHex(c.newText)
  }

  /** The moved ends of the hex pastes of `changes`, in order. */
  function HexEnds(changes: seq<Change>): seq<Point>
    decreases |changes|
  {
    if changes == [] then []
    else
      var last := changes[|changes| - 1];
      HexEnds(changes[..|changes| - 1]) + (if IsHexPaste(last) then [ShiftEnd(last).newEnd] else [])
  }

  /** Without the prefix check the verdict on every change depends on its
      text alone, never on the buffer: each hex paste is moved and recorded,
      every other change is left as it was. */
  lemma {:induction false} TextAloneDecides(lines: seq<string>, changes: seq<Change>)
    requires |lines| > 0
    ensures var r := Process(false, lines, changes);
            && r.recorded == HexEnds(changes)
            && forall i :: 0 <= i < |changes| ==>
                 r.changes[i] == if IsHexPaste(changes[i]) then ShiftEnd(changes[i]) else changes[i]
    decreases |changes|
  {
    if changes != [] {
      var n := |changes|;
      var prev := Process(false, lines, changes[..n - 1]);
      TextAloneDecides(lines, changes[..n - 1]);
      var r := Process(false, lines, changes);
      var last := changes[n - 1];
      assert r == Step(false, prev, last);
      assert r.changes == prev.changes + [if IsHexPaste(last) then ShiftEnd(last) else last];
      forall i | 0 <= i < n
        ensures r.changes[i] == if IsHexPaste(changes[i]) then ShiftEnd(changes[i]) else changes[i]
      {
        if i < n - 1 {
          assert r.changes[i] == prev.changes[i] && changes[i] == changes[..n - 1][i];
        }
      }
    }
  }

  /** Two buffers, one event: the same changes are moved and the same
      positions recorded. */
  lemma {:induction false} BufferDoesNotMatter(lines1: seq<string>, lines2: seq<string>, changes: seq<Change>)
    requires |lines1| > 0 && |lines2| > 0
    ensures Process(false, lines1, changes).recorded == Process(false, lines2, changes).recorded
    ensures Process(false, lines1, changes).changes == Process(false, lines2, changes).changes
  {
    TextAloneDecides(lines1, changes);
    TextAloneDecides(lines2, changes);
  }

  /** The double prefix this version produces: `fff` pasted right after a
      `#` gets a second `#` (the prefix-aware version leaves it as it is). */
  lemma PrefixesTwice()
    ensures var c := Change(Point(0, 1), Point(0, 1), Point(0, 4), "fff");
            Process(false, ["#fff"], [c]) == Handled(["##fff"], [Point(0, 5)], [ShiftEnd(c)])
  {
    var c := Change(Point(0, 1), Point(0, 1), Point(0, 4), "fff");
    assert [c][..0] == [];
    IsHexExactly("fff");
    assert "#fff"[..1] + "#" + "#fff"[1..] == "##fff";
  }
}
