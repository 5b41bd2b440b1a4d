/** The change handler of lib/app.js: the prefix-aware version, which
    leaves a hex literal alone when a `#` already precedes it. */
module App {
  import opened Editor
  import opened PasteHex

  /** Whether the character just before `position` is `#`. A position is a
      value here, so the check cannot move the caller's position. */
  function IsPrefixed(editor: TextEditor, position: Point): (prefixed: bool)
    reads editor
    requires editor.Valid()
    ensures position.column == 0 ==> !prefixed
    ensures prefixed <==> PrecededByHash(editor.lines, position)
  {
    if position.column == 0 then false
    else editor.GetTextInBufferRange(Point(position.row, position.column - 1), position) == "#"
  }

  /** The body of the handler's loop for one change: a change that starts
      right after a `#`, or whose text is not a 3- or 6-digit hex literal, is
      left alone; any other change gets a `#` at its new start, as one
      undoable step, and comes back with its new end moved past the `#`,
      where the editor's single cursor is then put. */
  method HandleOneChange(editor: TextEditor, change: Change, cursorPositions: seq<Point>)
    returns (updated: Change, positions: seq<Point>)
    requires editor.Valid()
    modifies editor
    ensures editor.Valid()
    ensures Qualifies(true, old(editor.lines), change) ==>
              && updated == ShiftEnd(change)
              && positions == cursorPositions + [updated.newEnd]
              && editor.lines == InsertAt(old(editor.lines), Clip(old(editor.lines), change.newStart), "#")
              && editor.cursors == [updated.newEnd]
              && editor.undoStack == old(editor.undoStack) + [old(editor.lines)]
    ensures !Qualifies(true, old(editor.lines), change) ==>
              && updated == change && positions == cursorPositions
              && editor.lines == old(editor.lines) && editor.cursors == old(editor.cursors)
              && editor.undoStack == old(editor.undoStack)
  {
    updated, positions := change, cursorPositions;
    // already has a hash: no need to add another
    if IsPrefixed(editor, change.start) {
      return;
    }
    if |change.newText| != 3 && |change.newText| != 6 {
      return;
    }
    if !IsHex(change.newText) {
      return;
    }
    editor.SetCursorBufferPosition(change.newStart);
    editor.InsertText("#");
    // the event's own change record has its end moved past the new `#`
    updated := change.(newEnd := Point(change.newEnd.row, change.newEnd.column + 1));
    editor.SetCursorBufferPosition(updated.newEnd);
    positions := cursorPositions + [updated.newEnd];
  }

  /** The handler's loop over the changes of one event, in order: each
      change goes through `HandleOneChange`, which writes its updated record
      back into the event and collects the recorded positions. */
  method PrefixHexChanges(editor: TextEditor, event: array<Change>) returns (cursorPositions: seq<Point>)
    requires editor.Valid()
    modifies editor, event
    ensures editor.Valid()
    ensures LoopState(true, old(editor.lines), old(event[..]), old(editor.cursors), old(editor.undoStack), event.Length,
                      editor.lines, editor.cursors, editor.undoStack, cursorPositions, event[..])
  {
    ghost var lines0, changes0 := editor.lines, event[..];
    ghost var cursors0, undo0 := editor.cursors, editor.undoStack;
    cursorPositions := [];
    for i := 0 to event.Length
      invariant editor.Valid()
      invariant forall k :: i <= k < event.Length ==> event[k] == changes0[k]
      invariant LoopState(true, lines0, changes0, cursors0, undo0, i, editor.lines, editor.cursors, editor.undoStack,
                          cursorPositions, event[..i])
    {
      ghost var lines, cursors, undoStack := editor.lines, editor.cursors, editor.undoStack;
      ghost var recorded, done := cursorPositions, event[..i];
      ghost var prefixed := Qualifies(true, lines, event[i]);
      var change;
      change, cursorPositions := HandleOneChange(editor, event[i], cursorPositions);
      LoopStep(true, lines0, changes0, cursors0, undo0, i, lines, cursors, undoStack, recorded, done,
               prefixed, change, editor.lines, editor.cursors, editor.undoStack, cursorPositions);
      event[i] := change;
      assert event[..i + 1] == done + [change];
    }
    assert event[..event.Length] == event[..];
  }

  /** Handles one buffer-change event: every qualifying change gets a `#` at
      its new start and has its new end moved past it, all insertions form
      one undo step that restores the buffer as the handler found it, and
      the editor ends with a cursor at each recorded end. */
  method HandleChange(editor: TextEditor, event: array<Change>)
    requires editor.Valid()
    modifies editor, event
    ensures editor.Valid()
    ensures var h := Process(true, old(editor.lines), old(event[..]));
            && editor.lines == h.lines
            && event[..] == h.changes
            && editor.cursors == (if h.recorded == [] then old(editor.cursors)
                                  else AddCursors([h.recorded[|h.recorded| - 1]], h.recorded))
            && editor.undoStack == (if h.recorded == [] then old(editor.undoStack)
                                    else old(editor.undoStack) + [old(editor.lines)])
  {
    ghost var lines0, changes0, cursors0, undo0 := editor.lines, event[..], editor.cursors, editor.undoStack;
    var undoCheckpoint := editor.CreateCheckpoint();
    var cursorPositions := PrefixHexChanges(editor, event);
    LoopStateAtEnd(true, lines0, changes0, cursors0, undo0, editor.lines, editor.cursors, editor.undoStack,
                   cursorPositions, event[..]);
    editor.GroupChangesSinceCheckpoint(undoCheckpoint);
    ResetCursors(editor, cursorPositions);
  }

  /** What the undo grouping buys: handling an event and undoing once gives
      back the buffer and the undo history the handler started from. */
  method HandleChangeThenUndo(editor: TextEditor, event: array<Change>)
    requires editor.Valid()
    requires Process(true, editor.lines, event[..]).recorded != []
    modifies editor, event
    ensures editor.Valid()
    ensures editor.lines == old(editor.lines) && editor.undoStack == old(editor.undoStack)
  {
    HandleChange(editor, event);
    editor.Undo();
  }

  /** `fff` pasted at the start of row 2 becomes `#fff`, with a cursor at
      column 4 and the change's end moved there. */
  lemma PasteAtLineStart()
    ensures Process(true, ["", "", "fff"], [Change(Point(2, 0), Point(2, 0), Point(2, 3), "fff")])
            == Handled(["", "", "#fff"], [Point(2, 4)], [Change(Point(2, 0), Point(2, 0), Point(2, 4), "fff")])
  {
    IsHexExactly("fff");
    assert [Change(Point(2, 0), Point(2, 0), Point(2, 3), "fff")][..0] == [];
    assert "fff"[..0] + "#" + "fff"[0..] == "#fff";
    assert InsertAt(["", "", "fff"], Point(2, 0), "#") == ["", "", "#fff"];
  }

  /** `fff` pasted right after a `#` gets no second `#`. */
  lemma PasteAfterHash()
    ensures var c := Change(Point(0, 1), Point(0, 1), Point(0, 4), "fff");
            Process(true, ["#fff"], [c]) == Handled(["#fff"], [], [c])
  {
    var c := Change(Point(0, 1), Point(0, 1), Point(0, 4), "fff");
    assert [c][..0] == [];
    assert PrecededByHash(["#fff"], c.start);
  }

  /** `fff` and `000` pasted by two cursors both get a `#`. */
  lemma PasteByTwoCursors()
    ensures Process(true, ["fff", "000"], [Change(Point(0, 0), Point(0, 0), Point(0, 3), "fff"),
                                           Change(Point(1, 0), Point(1, 0), Point(1, 3), "000")])
            .lines == ["#fff", "#000"]
  {
    var c0 := Change(Point(0, 0), Point(0, 0), Point(0, 3), "fff");
    var c1 := Change(Point(1, 0), Point(1, 0), Point(1, 3), "000");
    ProcessSnoc(true, ["fff", "000"], [c0, c1], 1);
    assert [c0, c1][..1] == [c0] && [c0, c1][..2] == [c0, c1];
    var first := Process(true, ["fff", "000"], [c0]);
    FirstOfTwoPastes();
    IsHexExactly("000");
    assert Qualifies(true, first.lines, c1);
    assert "000"[..0] + "#" + "000"[0..] == "#000";
    assert InsertAt(["#fff", "000"], Point(1, 0), "#") == ["#fff", "#000"];
  }

  /** The first of the two pastes: `fff` on row 0 gets its `#`. */
  lemma FirstOfTwoPastes()
    ensures Process(true, ["fff", "000"], [Change(Point(0, 0), Point(0, 0), Point(0, 3), "fff")]).lines
            == ["#fff", "000"]
  {
    var c0 := Change(Point(0, 0), Point(0, 0), Point(0, 3), "fff");
    IsHexExactly("fff");
    assert [c0][..0] == [];
    assert Qualifies(true, ["fff", "000"], c0);
    assert "fff"[..0] + "#" + "fff"[0..] == "#fff";
    assert InsertAt(["fff", "000"], Point(0, 0), "#") == ["#fff", "000"];
  }

  /** The pattern accepts six hex digits in either case and refuses a
      non-hex letter. */
  lemma HexExamples()
    ensures IsHex("abcDEF") && IsHex("0aF") && !IsHex("abcdg") && !IsHex("abg")
  {
    IsHexExactly("abcDEF");
    IsHexExactly("0aF");
    IsHexExactly("abg");
  }
}
