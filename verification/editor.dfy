/** An abstract model of the part of Atom's text editor that the package
    talks to: a buffer of lines, a list of cursors and an undo history.
    Positions outside the buffer are clipped the way the editor clips them. */
module Editor {

  /** A buffer position: zero-based row and column. */
  datatype Point = Point(row: nat, column: nat)

  /** One entry of a buffer-change event: the position the prefix check
      reads before (`start`), where the new text starts and ends, and the
      text. */
  datatype Change = Change(start: Point, newStart: Point, newEnd: Point, newText: string)

  /** An undo checkpoint: the depth of the undo history when it was taken
      and the buffer at that moment. */
  datatype Checkpoint = Checkpoint(depth: nat, snapshot: seq<string>)

  /** True when `p` names a place in `lines` where text can be inserted. */
  predicate ValidPoint(lines: seq<string>, p: Point)
  {
    p.row < |lines| && p.column <= |lines[p.row]|
  }

  function Min(a: nat, b: nat): nat
  {
    if a <= b then a else b
  }

  /** The editor's clipping of a position: a row past the end goes to the end
      of the buffer, a column past the end of its row to the end of the row. */
  function Clip(lines: seq<string>, p: Point): (q: Point)
    requires |lines| > 0
    ensures ValidPoint(lines, q)
    ensures ValidPoint(lines, p) ==> q == p
    ensures p.row < |lines| ==> q.row == p.row && q.column <= p.column
  {
    if p.row < |lines| then Point(p.row, Min(p.column, |lines[p.row]|))
    else Point(|lines| - 1, |lines[|lines| - 1]|)
  }

  /** True when `text` stays on one line. */
  predicate SingleLine(text: string)
  {
    forall i :: 0 <= i < |text| ==> text[i] != '\n'
  }

  /** The buffer with `text` inserted at `p`. */
  function InsertAt(lines: seq<string>, p: Point, text: string): (r: seq<string>)
    requires ValidPoint(lines, p)
    ensures |r| == |lines|
    ensures forall i :: 0 <= i < |lines| && i != p.row ==> r[i] == lines[i]
    ensures |r[p.row]| == |lines[p.row]| + |text|
    ensures r[p.row][p.column..p.column + |text|] == text
  {
    var line := lines[p.row];
    assert (line[..p.column] + text + line[p.column..])[p.column..p.column + |text|] == text;
    lines[p.row := line[..p.column] + text + line[p.column..]]
  }

  /** The buffer with `n` characters removed at `p`: the inverse of `InsertAt`. */
  function RemoveAt(lines: seq<string>, p: Point, n: nat): seq<string>
    requires p.row < |lines| && p.column + n <= |lines[p.row]|
  {
    var line := lines[p.row];
    lines[p.row := line[..p.column] + line[p.column + n..]]
  }

  lemma RemoveUndoesInsert(lines: seq<string>, p: Point, text: string)
    requires ValidPoint(lines, p)
    ensures RemoveAt(InsertAt(lines, p, text), p, |text|) == lines
  {
    var line := lines[p.row];
    var grown := line[..p.column] + text + line[p.column..];
    assert grown[..p.column] == line[..p.column];
    assert grown[p.column + |text|..] == line[p.column..];
    assert line[..p.column] + line[p.column..] == line;
  }

  /** Every character in the buffer, counted with multiplicity. */
  function Chars(lines: seq<string>): multiset<char>
  {
    if lines == [] then multiset{} else Chars(lines[..|lines| - 1]) + multiset(lines[|lines| - 1])
  }

  lemma {:induction false} CharsUpdate(lines: seq<string>, i: nat, s: string)
    requires i < |lines|
    ensures Chars(lines[i := s]) + multiset(lines[i]) == Chars(lines) + multiset(s)
  {
    var n := |lines|;
    var updated := lines[i := s];
    if i == n - 1 {
      assert updated[..n - 1] == lines[..n - 1];
    } else {
      assert updated[..n - 1] == lines[..n - 1][i := s];
      assert updated[n - 1] == lines[n - 1];
      assert lines[..n - 1][i] == lines[i];
      CharsUpdate(lines[..n - 1], i, s);
      var last := multiset(lines[n - 1]);
      calc {
        Chars(updated) + multiset(lines[i]);
        (Chars(updated[..n - 1]) + last) + multiset(lines[i]);
        (Chars(updated[..n - 1]) + multiset(lines[i])) + last;
        (Chars(lines[..n - 1]) + multiset(s)) + last;
        (Chars(lines[..n - 1]) + last) + multiset(s);
        Chars(lines) + multiset(s);
      }
    }
  }

  /** Inserting text adds exactly its characters to the buffer, and nothing else. */
  lemma InsertAtChars(lines: seq<string>, p: Point, text: string)
    requires ValidPoint(lines, p)
    ensures Chars(InsertAt(lines, p, text)) == Chars(lines) + multiset(text)
  {
    var line := lines[p.row];
    var before, after := line[..p.column], line[p.column..];
    var grown := before + text + after;
    assert InsertAt(lines, p, text) == lines[p.row := grown];
    CharsUpdate(lines, p.row, grown);
    assert line == before + after;
    assert multiset(grown) == multiset(line) + multiset(text);
    calc {
      Chars(lines[p.row := grown]);
      (Chars(lines[p.row := grown]) + multiset(line)) - multiset(line);
      (Chars(lines) + multiset(grown)) - multiset(line);
      (Chars(lines) + multiset(text) + multiset(line)) - multiset(line);
      Chars(lines) + multiset(text);
    }
  }

  /** The editor of one open buffer. */
  class TextEditor {
    var lines: seq<string>
    var cursors: seq<Point>
    /** One entry per undoable step: the buffer as it was before that step. */
    var undoStack: seq<seq<string>>

    /** The editor always holds at least one line and one cursor, and so
        does every buffer the undo history can restore. */
    ghost predicate Valid()
      reads this
    {
      && |lines| > 0 && |cursors| > 0
      && forall k :: 0 <= k < |undoStack| ==> |undoStack[k]| > 0
    }

    constructor (text: seq<string>)
      requires |text| > 0
      ensures Valid()
      ensures lines == text && cursors == [Point(0, 0)] && undoStack == []
    {
      lines := text;
      cursors := [Point(0, 0)];
      undoStack := [];
    }

    /** The text between two positions on one row, after clipping both. */
    function GetTextInBufferRange(start: Point, end: Point): (text: string)
      reads this
      requires Valid() && start.row == end.row
      ensures ValidPoint(lines, start) && ValidPoint(lines, end) && start.column <= end.column ==>
                text == lines[start.row][start.column..end.column]
      ensures start.row >= |lines| ==> text == ""
    {
      var a := Clip(lines, start);
      var b := Clip(lines, end);
      var line := lines[a.row];
      if a.column <= b.column then line[a.column..b.column] else line[b.column..a.column]
    }

    /** Replaces every cursor by one cursor at `p`. */
    method SetCursorBufferPosition(p: Point)
      requires Valid()
      modifies this
      ensures Valid()
      ensures cursors == [p]
      ensures lines == old(lines) && undoStack == old(undoStack)
    {
      cursors := [p];
    }

    /** Adds a cursor at `p`; a cursor already there is merged with it. */
    method AddCursorAtBufferPosition(p: Point)
      requires Valid()
      modifies this
      ensures Valid()
      ensures p in cursors && old(cursors) <= cursors && |cursors| <= |old(cursors)| + 1
      ensures cursors == if p in old(cursors) then old(cursors) else old(cursors) + [p]
      ensures lines == old(lines) && undoStack == old(undoStack)
    {
      if p !in cursors {
        cursors := cursors + [p];
      }
    }

    /** Types `text` at the (single) cursor as one undoable step; the cursor
        ends up just after the inserted text. */
    method InsertText(text: string)
      requires Valid() && |cursors| == 1 && SingleLine(text)
      modifies this
      ensures Valid()
      ensures var at := Clip(old(lines), old(cursors)[0]);
              && lines == InsertAt(old(lines), at, text)
              && cursors == [Point(at.row, at.column + |text|)]
      ensures undoStack == old(undoStack) + [old(lines)]
    {
      var at := Clip(lines, cursors[0]);
      undoStack := undoStack + [lines];
      lines := InsertAt(lines, at, text);
      cursors := [Point(at.row, at.column + |text|)];
    }

    /** Marks the current point of the undo history. */
    method CreateCheckpoint() returns (cp: Checkpoint)
      requires Valid()
      ensures cp.depth == |undoStack| && cp.snapshot == lines && |cp.snapshot| > 0
    {
      cp := Checkpoint(|undoStack|, lines);
    }

    /** Merges every undoable step taken since `cp` into one step that
        restores the buffer `cp` saw. Without such steps nothing changes. */
    method GroupChangesSinceCheckpoint(cp: Checkpoint)
      requires Valid() && |cp.snapshot| > 0
      modifies this
      ensures Valid()
      ensures undoStack == if cp.depth < |old(undoStack)|
                           then old(undoStack)[..cp.depth] + [cp.snapshot]
                           else old(undoStack)
      ensures lines == old(lines) && cursors == old(cursors)
    {
      if cp.depth < |undoStack| {
        undoStack := undoStack[..cp.depth] + [cp.snapshot];
      }
    }

    /** Reverts the most recent undoable step, if there is one. */
    method Undo()
      requires Valid()
      modifies this
      ensures Valid()
      ensures old(undoStack) == [] ==> lines == old(lines) && undoStack == []
      ensures old(undoStack) != [] ==> lines == old(undoStack)[|old(undoStack)| - 1]
                                       && undoStack == old(undoStack)[..|old(undoStack)| - 1]
      ensures cursors == old(cursors)
    {
      if undoStack != [] {
        lines := undoStack[|undoStack| - 1];
        undoStack := undoStack[..|undoStack| - 1];
      }
    }
  }
}
