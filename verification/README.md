# paste-hex-with-hash, modelled in Dafny

The Atom package `atom--paste-hex-with-hash` watches every text buffer. When
an edit pastes or types a three- or six-digit hexadecimal colour such as
`fff` or `00aaff`, it puts a `#` in front of the literal. It also moves the
edit's recorded end past the new `#`, leaves a cursor after every literal
it prefixed, and groups its insertions into one undo step. Two versions of
the change handler exist:

- `lib/app.js` is the current one. It leaves a literal alone when a `#`
  already precedes it.
- `lib/atom--paste-hex-with-hash.js` is the earlier one. It has no prefix
  check.

The model has four modules:

- `Editor` (editor.dfy) is an abstract Atom text editor: a buffer of lines,
  a list of cursors and an undo history of buffer snapshots. It provides
  the editor calls the handlers make: `getTextInBufferRange`,
  `setCursorBufferPosition`, `addCursorAtBufferPosition`, `insertText`,
  `createCheckpoint` and `groupChangesSinceCheckpoint`, plus `undo`.
  Positions outside the buffer are clipped where the editor reads or
  inserts text. A cursor added at a position that already holds one is
  merged with it, as the editor merges coinciding cursors.
- `PasteHex` (paste_hex.dfy) holds the parts the two versions share:
  - `isHex`, modelled on the structure of the pattern
    `^(?:[0-9a-f]{3}){1,2}$` with the case-insensitive flag;
  - the prefixing rule as pure functions, `Step` for one change and
    `Process` for a whole event, with a flag that switches the prefix
    check on;
  - `resetCursors`, as a method with a loop;
  - the lemmas about the rule.
- `App` (app.dfy) models `lib/app.js`: `isPrefixed` and the prefix-aware
  handler.
- `Legacy` (legacy.dfy) models `lib/atom--paste-hex-with-hash.js`: the
  handler without the prefix check.

Each handler is a method over the editor and the event's changes, an
`array<Change>` that it updates in place (`change.newEnd.column++`). Its
loop over the changes is a method of its own, `PrefixHexChanges`, and the
loop body another, `HandleOneChange`. The handler's
postcondition ties the new buffer, the updated changes, the cursors and the
undo history to `Process`. The lemmas then say what `Process` does.

Where a description of the package and its code differ, the model follows
the code:

- The `#` goes at the change's *new* start (`change.newStart`), while the
  prefix check reads before the change's `start`.
- When no change qualifies, the cursors are left exactly as they were,
  because the cursor reset then adds nothing.
- Positions are used as the event recorded them. A `#` inserted earlier on
  the same row is not accounted for, so the second of two literals pasted
  on one row gets its `#` one column too early
  (`PasteHex.SameRowPasteMisplacesSecondHash`).

## Model

| member | source | states |
|---|---|---|
| Editor.TextEditor.GetTextInBufferRange | lib/app.js:92-97 | for a one-row range inside the buffer with its ends in order, exactly the characters between the two columns; a row past the end of the buffer gives the empty text |
| Editor.TextEditor.SetCursorBufferPosition | lib/app.js:52 | afterwards the editor has exactly one cursor, at the given position; buffer and undo history unchanged |
| Editor.TextEditor.InsertText | lib/app.js:55 | the text is inserted at the (clipped) cursor, the cursor ends just after it, and the buffer as it was is pushed as one undo step |
| Editor.InsertAtChars | lib/app.js:55 | inserting text adds exactly the inserted characters to the buffer and removes none |
| Editor.RemoveUndoesInsert | lib/app.js:55 | removing the inserted characters at the same place gives the buffer back |
| Editor.TextEditor.CreateCheckpoint | lib/app.js:28 | the checkpoint records the depth of the undo history and the buffer at that moment |
| Editor.TextEditor.GroupChangesSinceCheckpoint | lib/app.js:68 | every undo step taken since the checkpoint is replaced by one step that restores the checkpoint's buffer; with none taken, nothing changes |
| Editor.TextEditor.Undo | lib/app.js:67-68 | one undo restores the buffer saved by the last step and drops that step |
| Editor.TextEditor.AddCursorAtBufferPosition | lib/app.js:129 | the position holds a cursor afterwards, the old cursors stay in front, and at most one cursor is added |
| PasteHex.IsHexExactly | lib/app.js:113-115 | the pattern accepts a string exactly when it has length 3 or 6 and every character is a hex digit of either case |
| PasteHex.IsHex | lib/app.js:113-115 | the anchored pattern accepts no string whose length is not 3 or 6 (the full characterisation is `IsHexExactly`) |
| PasteHex.GroupsExactly | lib/app.js:114 | `k` groups of three characters of the class exist exactly when the length is `3k` and every character is a hex digit |
| PasteHex.HexClassIsHexDigit | lib/app.js:114 | under the case-insensitive flag, a character is in `[0-9a-f]` exactly when it is a hex digit of either case |
| PasteHex.LengthGuardIsImpliedByPattern | lib/app.js:41-49 | the length guard never changes the outcome: the pattern only accepts lengths 3 and 6 |
| PasteHex.Qualifies | lib/app.js:36-49 | the three guards of the loop body together: a change qualifies exactly when the prefix check (if on) finds no `#` before its start and its text is hex; the length guard adds nothing (`LengthGuardIsImpliedByPattern`); what a qualifying or skipped change does is `QualifyingChangeInsertsOneHash` and `SkippedChangeChangesNothing` |
| PasteHex.ShiftEnd | lib/app.js:58 | the record's new end moves one column right on the same row; every other field stays as it was, and the record always differs from the one given |
| PasteHex.Step | lib/app.js:34-64 | one pass of the handler loop: the buffer keeps its rows, the change's record (as updated) is appended after the earlier ones, and at most its new end is appended to the recorded positions; the two versions' steps differ only by the prefix check (`PrefixCheckOnlySkips`) |
| PasteHex.Process | lib/app.js:33-65 | the handler loop over an event keeps the number of buffer rows, yields one change record per change, and records at most one position per change |
| PasteHex.SkippedChangeChangesNothing | lib/app.js:36-49 | a change that is prefixed (prefix-aware version), whose text length is not 3 or 6, or whose text is not hex leaves the buffer and the recorded positions unchanged and its record as it was |
| PasteHex.QualifyingChangeInsertsOneHash | lib/app.js:51-64 | a qualifying change gets one `#` at its new start (clipped only if outside the buffer); no other row changes; removing that `#` gives the old buffer; the recorded position is the new end with column plus one on the same row; the change record's end moves the same way |
| PasteHex.PrefixCheckOnlySkips | lib/app.js:36-39 | the prefix check is the only difference between the versions: a step of the prefix-aware loop is the legacy step unless a `#` precedes the change's start, in which case the change is skipped |
| PasteHex.ProcessAddsOnlyHashes | lib/app.js:33-65 | over a whole event the buffer gains exactly one `#` per recorded position and no other character |
| PasteHex.ProcessMovesOnlyHexChanges | lib/app.js:57-58 | every change record is either unchanged or has its end moved one column right, and only records whose text is hex of length 3 or 6 are moved |
| PasteHex.ProcessRecordsMovedEnds | lib/app.js:58-64 | the recorded positions are exactly the new ends of the moved change records, one per moved record, in event order |
| PasteHex.ShortTextsAreInert | lib/app.js:41-44 | an event with no text of length 3 or 6 changes nothing: same buffer, no recorded position, records unchanged |
| PasteHex.HashInsertionEventIsInert | lib/app.js:55 | the change event that inserting the `#` itself fires changes nothing |
| PasteHex.SameRowPasteMisplacesSecondHash | lib/app.js:51-61 | with positions used as recorded, `fff fff` pasted as two changes on one row becomes `#fff# fff`, in both versions |
| PasteHex.AddCursorsHolds | lib/app.js:122-131 | adding cursors keeps the old ones in front; afterwards a position holds a cursor exactly when it did before or is one of the added positions; cursors stay pairwise different; with all positions new and different, the added ones are appended in order |
| PasteHex.ResetCursors | lib/app.js:122-131 | the loop adds a cursor at each recorded position in order, as `AddCursors` describes, and touches neither buffer nor history |
| PasteHex.FinalCursorsAreRecorded | lib/app.js:61-71 | after the handler, the cursors are pairwise different and are exactly the recorded positions; when those are pairwise different there is one cursor per recorded position, the last one first and the rest in event order |
| App.IsPrefixed | lib/app.js:82-106 | false at column 0; otherwise true exactly when the character just before the position in the buffer is `#`; the position is a value, so the caller's copy cannot change |
| App.HandleOneChange | lib/app.js:34-64 | a change is prefixed exactly when it qualifies (no `#` before its start, text of length 3 or 6, hex); then the buffer gets the `#` at its new start as one undo step, its record's end moves one column right, the one cursor sits at that end and that end is appended to the recorded positions; otherwise editor, record and positions are left as they were |
| App.PrefixHexChanges | lib/app.js:33-65 | after the loop over all changes, the buffer, the recorded positions and the updated records are those of `Process` for the prefix-aware rule, each change having been handled in order on the buffer its predecessors left |
| App.HandleChange | lib/app.js:26-72 | after one event the buffer and the change records are what `Process` gives for the prefix-aware rule; the cursors are the recorded positions (the last one first), or unchanged when none; all insertions form one undo step that restores the buffer the handler started from, or the history is unchanged when nothing was inserted |
| App.HandleChangeThenUndo | lib/app.js:67-68 | when the handler inserts anything, handling the event and undoing once gives back the buffer and the undo history it started from |
| App.PasteAtLineStart | lib/app.js:51-64 | `fff` pasted at the start of row 2 becomes `#fff`, with the cursor position and the record's end at column 4 |
| App.PasteAfterHash | lib/app.js:36-39 | `fff` pasted right after a `#` is left alone |
| App.PasteByTwoCursors | lib/app.js:33-65 | `fff` and `000` pasted by two cursors on different rows both get a `#` |
| App.HexExamples | lib/app.js:113-115 | `abcDEF` and `0aF` are accepted, `abcdg` and `abg` refused |
| Legacy.HandleOneChange | lib/atom--paste-hex-with-hash.js:27-52 | a change is prefixed exactly when its text is hex of length 3 or 6, whatever precedes it; the effect on buffer, record, cursor, recorded positions and history is as in the current version |
| Legacy.PrefixHexChanges | lib/atom--paste-hex-with-hash.js:26-53 | after the loop over all changes, the buffer, the recorded positions and the updated records are those of `Process` without the prefix check |
| Legacy.HandleChange | lib/atom--paste-hex-with-hash.js:19-60 | after one event the buffer and the change records are what `Process` gives without the prefix check; the cursors and the single undo step are as in the current version |
| Legacy.TextAloneDecides | lib/atom--paste-hex-with-hash.js:29-52 | without the prefix check a change's text alone decides it: each hex paste of length 3 or 6 is moved and its moved end recorded, in event order, and every other record is left as it was |
| Legacy.BufferDoesNotMatter | lib/atom--paste-hex-with-hash.js:29-37 | two buffers and one event give the same records and the same recorded positions |
| Legacy.PrefixesTwice | lib/atom--paste-hex-with-hash.js:26-53 | `fff` pasted right after a `#` gets a second `#`: the buffer becomes `##fff` |

## Left out

- Subscription plumbing is not modelled: `activate`'s `observeTextEditors` and `onDidChange` registration, the `CompositeDisposable` and `deactivate`. They only deliver events to the handler.
- The intro notification, its buttons (`shell.openExternal`) and the `intro` configuration flag are not modelled: they are user interface and I/O.
- A regular-expression engine is not modelled. `isHex` is the structure of its one pattern, groups of three characters of the class, once or twice, with case folded as the flag prescribes.
- The Atom editor itself is not modelled beyond what the handlers call. Markers, selections, soft wrap, redo and the editor's time-based undo grouping are absent.
- Editor.TextEditor.InsertText: modelled for a single cursor only, because the handler always sets one cursor just before it.
- Editor.TextEditor.GetTextInBufferRange: modelled for one-row ranges only, because `isPrefixed` reads no other kind.
- Editor.TextEditor.SetCursorBufferPosition: keeps the position as given. The editor would clip it to the buffer; the model clips only where text is read or inserted.
- Aliasing is not modelled. In the source, `cursorPositions.push(change.newEnd)` stores the very point object held by the event, and `change.newEnd.column++` mutates that object. Here points are values, and the event's updated records are written back into the array.
- The change event that inserting `#` fires is not delivered in the middle of the loop. It is treated as a separate, later call of the handler, which `PasteHex.HashInsertionEventIsInert` shows does nothing.
- `isHex` (lib/atom--paste-hex-with-hash.js:69-71) and `resetCursors` (lib/atom--paste-hex-with-hash.js:78-87) in the earlier file are identical to those in lib/app.js. Each is modelled once, in `PasteHex`, so its table row cites lib/app.js.
