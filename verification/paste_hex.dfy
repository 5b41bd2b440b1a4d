/** The hex-paste prefixing rule that both versions of the change handler
    apply, stated as pure functions over the buffer, and the cursor reset
    that both versions run after the loop. */
module PasteHex {
  import opened Editor

  // ---------------------------------------------------------------------
  // isHex: the pattern ^(?:[0-9a-f]{3}){1,2}$ with the case-insensitive flag
  // ---------------------------------------------------------------------

  /** The canonical form a case-insensitive pattern compares: ASCII letters
      in upper case, every other character as it is. */
  function Canonical(c: char): char
  {
    if 'a' <= c <= 'z' then (c as int - 32) as char else c
  }

  /** Membership in the class [0-9a-f] under the case-insensitive flag:
      canonicalised, the class is [0-9A-F]. */
  predicate InHexClass(c: char)
  {
    var u := Canonical(c);
    ('0' <= u <= '9') || ('A' <= u <= 'F')
  }

  /** `s` is exactly `k` consecutive groups of three class characters. */
  predicate Groups(s: string, k: nat)
    decreases k
  {
    if k == 0 then s == []
    else |s| >= 3 && InHexClass(s[0]) && InHexClass(s[1]) && InHexClass(s[2]) && Groups(s[3..], k - 1)
  }

  /** The whole string is one or two groups of three: the pattern, anchored.
      Anchored, it accepts nothing but strings of length 3 or 6. */
  predicate IsHex(s: string)
    ensures IsHex(s) ==> |s| == 3 || |s| == 6
  {
    Groups(s, 1) || Groups(s, 2)
  }

  predicate IsHexDigit(c: char)
  {
    ('0' <= c <= '9') || ('a' <= c <= 'f') || ('A' <= c <= 'F')
  }

  predicate AllHexDigits(s: string)
  {
    forall i :: 0 <= i < |s| ==> IsHexDigit(s[i])
  }

  lemma HexClassIsHexDigit(c: char)
    ensures InHexClass(c) <==> IsHexDigit(c)
  {
  }

  lemma {:induction false} GroupsExactly(s: string, k: nat)
    ensures Groups(s, k) <==> |s| == 3 * k && AllHexDigits(s)
    decreases k
  {
    if k > 0 && |s| >= 3 {
      GroupsExactly(s[3..], k - 1);
      HexClassIsHexDigit(s[0]);
      HexClassIsHexDigit(s[1]);
      HexClassIsHexDigit(s[2]);
      assert forall j :: 0 <= j < |s[3..]| ==> s[3..][j] == s[j + 3];
    }
  }

  /** The pattern accepts exactly the strings of three or six hexadecimal
      digits, in either case. */
  lemma IsHexExactly(s: string)
    ensures IsHex(s) <==> (|s| == 3 || |s| == 6) && AllHexDigits(s)
  {
    GroupsExactly(s, 1);
    GroupsExactly(s, 2);
  }

  /** The length guard in front of the pattern never changes a verdict:
      the pattern itself only accepts lengths 3 and 6. */
  lemma LengthGuardIsImpliedByPattern(s: string)
    ensures (|s| == 3 || |s| == 6) && IsHex(s) <==> IsHex(s)
  {
    IsHexExactly(s);
  }

  // ---------------------------------------------------------------------
  // The prefixing rule, one change at a time
  // ---------------------------------------------------------------------

  /** The character just before `p` exists and is `#`. */
  predicate PrecededByHash(lines: seq<string>, p: Point)
  {
    p.row < |lines| && 0 < p.column <= |lines[p.row]| && lines[p.row][p.column - 1] == '#'
  }

  /** A change passes every guard of the loop: (in the prefix-aware version)
      no `#` before its start, a text of length 3 or 6, and hex text. */
  predicate Qualifies(prefixAware: bool, lines: seq<string>, c: Change)
    ensures Qualifies(prefixAware, lines, c) <==> !(prefixAware && PrecededByHash(lines, c.start)) && IsHex(c.newText)
  {
    && !(prefixAware && PrecededByHash(lines, c.start))
    && (|c.newText| == 3 || |c.newText| == 6)
    && IsHex(c.newText)
  }

  /** The change with its end moved one column right, past the new `#`. */
  function ShiftEnd(c: Change): (r: Change)
    ensures r != c
    ensures r.newEnd.row == c.newEnd.row && r.newEnd.column == c.newEnd.column + 1
    ensures r.(newEnd := c.newEnd) == c
  {
    c.(newEnd := Point(c.newEnd.row, c.newEnd.column + 1))
  }

  /** The state the handler loop carries: the buffer, the recorded cursor
      positions, and the event's changes handled so far (as updated). */
  datatype Handled = Handled(lines: seq<string>, recorded: seq<Point>, changes: seq<Change>)

  /** One iteration of the handler loop: the change's record, as updated,
      is appended to the records, and at most its new end to the recorded
      positions; the buffer keeps its rows. */
  function Step(prefixAware: bool, h: Handled, c: Change): (r: Handled)
    requires |h.lines| > 0
    ensures |r.lines| == |h.lines| && |r.changes| == |h.changes| + 1 && r.changes[..|h.changes|] == h.changes
    ensures r.recorded == h.recorded || r.recorded == h.recorded + [r.changes[|h.changes|].newEnd]
  {
    if Qualifies(prefixAware, h.lines, c) then
      var shifted := ShiftEnd(c);
      Handled(InsertAt(h.lines, Clip(h.lines, c.newStart), "#"),
              h.recorded + [shifted.newEnd],
              h.changes + [shifted])
    else
      Handled(h.lines, h.recorded, h.changes + [c])
  }

  /** The handler loop over a whole event, changes taken in order. */
  function Process(prefixAware: bool, lines: seq<string>, changes: seq<Change>): (r: Handled)
    requires |lines| > 0
    ensures |r.lines| == |lines|
    ensures |r.changes| == |changes|
    ensures |r.recorded| <= |changes|
    decreases |changes|
  {
    if changes == [] then Handled(lines, [], [])
    else Step(prefixAware, Process(prefixAware, lines, changes[..|changes| - 1]), changes[|changes| - 1])
  }

  /** Handling one more change is one more step of the loop. */
  lemma ProcessSnoc(prefixAware: bool, lines: seq<string>, changes: seq<Change>, i: nat)
    requires |lines| > 0 && i < |changes|
    ensures Process(prefixAware, lines, changes[..i + 1])
            == Step(prefixAware, Process(prefixAware, lines, changes[..i]), changes[i])
  {
    assert changes[..i + 1][..i] == changes[..i];
  }

  /** The loop has handled the first `i` changes of the event: `lines`,
      `recorded` and `done` are what the rule gives for them. */
  predicate HandledPrefix(prefixAware: bool, lines0: seq<string>, changes0: seq<Change>, i: nat,
                          lines: seq<string>, recorded: seq<Point>, done: seq<Change>)
    requires |lines0| > 0 && i <= |changes0|
  {
    var h := Process(prefixAware, lines0, changes0[..i]);
    lines == h.lines && recorded == h.recorded && done == h.changes
  }

  /** Handling change `i` by the rule handles one change more. */
  lemma AdvanceOne(prefixAware: bool, lines0: seq<string>, changes0: seq<Change>, i: nat,
                   lines: seq<string>, recorded: seq<Point>, done: seq<Change>)
    requires |lines0| > 0 && i < |changes0|
    requires HandledPrefix(prefixAware, lines0, changes0, i, lines, recorded, done)
    ensures |lines| > 0
    ensures var c := changes0[i];
            if Qualifies(prefixAware, lines, c)
            then HandledPrefix(prefixAware, lines0, changes0, i + 1,
                               InsertAt(lines, Clip(lines, c.newStart), "#"), recorded + [ShiftEnd(c).newEnd], done + [ShiftEnd(c)])
            else HandledPrefix(prefixAware, lines0, changes0, i + 1, lines, recorded, done + [c])
  {
    ProcessSnoc(prefixAware, lines0, changes0, i);
  }

  /** What the loop keeps of the editor besides the buffer: until the
      first insertion, cursors, history and buffer are as the handler found
      them; after it, one cursor at the last recorded position, and the old
      history followed by entries the first of which is the old buffer. */
  ghost predicate EditorSoFar(lines0: seq<string>, cursors0: seq<Point>, undo0: seq<seq<string>>, recorded: seq<Point>,
                              lines: seq<string>, cursors: seq<Point>, undoStack: seq<seq<string>>)
  {
    && |undoStack| >= |undo0| && undoStack[..|undo0|] == undo0
    && (recorded == [] ==> cursors == cursors0 && |undoStack| == |undo0| && lines == lines0)
    && (recorded != [] ==> cursors == [recorded[|recorded| - 1]] && |undoStack| > |undo0| && undoStack[|undo0|] == lines0)
  }

  /** An insertion that pushes the buffer it changed and leaves one cursor
      at the newly recorded position keeps `EditorSoFar`. */
  lemma EditorAfterPrefix(lines0: seq<string>, cursors0: seq<Point>, undo0: seq<seq<string>>, recorded: seq<Point>,
                          lines: seq<string>, cursors: seq<Point>, undoStack: seq<seq<string>>, p: Point,
                          lines': seq<string>)
    requires EditorSoFar(lines0, cursors0, undo0, recorded, lines, cursors, undoStack)
    ensures EditorSoFar(lines0, cursors0, undo0, recorded + [p], lines', [p], undoStack + [lines])
  {
    assert (undoStack + [lines])[..|undo0|] == undoStack[..|undo0|];
  }

  /** Everything the handler loop keeps after `i` changes: the buffer, the
      recorded positions and the updated records are what the rule gives,
      and cursors and history are as `EditorSoFar` says. */
  ghost predicate LoopState(prefixAware: bool, lines0: seq<string>, changes0: seq<Change>, cursors0: seq<Point>,
                            undo0: seq<seq<string>>, i: nat, lines: seq<string>, cursors: seq<Point>,
                            undoStack: seq<seq<string>>, recorded: seq<Point>, done: seq<Change>)
    requires |lines0| > 0 && i <= |changes0|
  {
    && HandledPrefix(prefixAware, lines0, changes0, i, lines, recorded, done)
    && EditorSoFar(lines0, cursors0, undo0, recorded, lines, cursors, undoStack)
  }

  /** One pass of the loop body, with the effect the body has on the editor
      and on the change, keeps `LoopState` for one change more. */
  lemma LoopStep(prefixAware: bool, lines0: seq<string>, changes0: seq<Change>, cursors0: seq<Point>,
                 undo0: seq<seq<string>>, i: nat, lines: seq<string>, cursors: seq<Point>,
                 undoStack: seq<seq<string>>, recorded: seq<Point>, done: seq<Change>,
                 prefixed: bool, updated: Change, lines': seq<string>, cursors': seq<Point>,
                 undoStack': seq<seq<string>>, recorded': seq<Point>)
    requires |lines0| > 0 && i < |changes0| && |lines| > 0
    requires LoopState(prefixAware, lines0, changes0, cursors0, undo0, i, lines, cursors, undoStack, recorded, done)
    requires prefixed == Qualifies(prefixAware, lines, changes0[i])
    requires updated == if prefixed then ShiftEnd(changes0[i]) else changes0[i]
    requires prefixed ==> && lines' == InsertAt(lines, Clip(lines, changes0[i].newStart), "#")
                          && cursors' == [updated.newEnd] && undoStack' == undoStack + [lines]
                          && recorded' == recorded + [updated.newEnd]
    requires !prefixed ==> lines' == lines && cursors' == cursors && undoStack' == undoStack && recorded' == recorded
    ensures LoopState(prefixAware, lines0, changes0, cursors0, undo0, i + 1, lines', cursors', undoStack', recorded', done + [updated])
  {
    AdvanceOne(prefixAware, lines0, changes0, i, lines, recorded, done);
    if prefixed {
      EditorAfterPrefix(lines0, cursors0, undo0, recorded, lines, cursors, undoStack, updated.newEnd, lines');
    }
  }

  /** What the loop leaves once every change is handled: the rule's result,
      and cursors and history ready for grouping and the cursor reset. */
  lemma LoopStateAtEnd(prefixAware: bool, lines0: seq<string>, changes0: seq<Change>, cursors0: seq<Point>,
                       undo0: seq<seq<string>>, lines: seq<string>, cursors: seq<Point>,
                       undoStack: seq<seq<string>>, recorded: seq<Point>, done: seq<Change>)
    requires |lines0| > 0
    requires LoopState(prefixAware, lines0, changes0, cursors0, undo0, |changes0|, lines, cursors, undoStack, recorded, done)
    ensures var h := Process(prefixAware, lines0, changes0);
            lines == h.lines && recorded == h.recorded && done == h.changes
    ensures recorded == [] ==> cursors == cursors0 && undoStack == undo0
    ensures recorded != [] ==> && cursors == [recorded[|recorded| - 1]] && |undo0| < |undoStack|
                               && undoStack[..|undo0|] + [lines0] == undo0 + [lines0]
  {
    assert changes0[..|changes0|] == changes0;
  }

  /** A change that is already prefixed (prefix-aware version only), has a
      text whose length is not 3 or 6, or whose text is not hex, leaves the
      buffer and the recorded positions as they were. */
  lemma SkippedChangeChangesNothing(prefixAware: bool, h: Handled, c: Change)
    requires |h.lines| > 0
    requires || (prefixAware && PrecededByHash(h.lines, c.start))
             || (|c.newText| != 3 && |c.newText| != 6)
             || !IsHex(c.newText)
    ensures Step(prefixAware, h, c).lines == h.lines
    ensures Step(prefixAware, h, c).recorded == h.recorded
    ensures Step(prefixAware, h, c).changes == h.changes + [c]
  {
  }

  /** A qualifying change gets exactly one `#`, at its (clipped) new start,
      which is its new start itself when that lies in the buffer; no other
      text changes, and removing that one character gives the old buffer
      back. The recorded position is the change's new end one column right. */
  lemma QualifyingChangeInsertsOneHash(prefixAware: bool, h: Handled, c: Change)
    requires |h.lines| > 0
    requires Qualifies(prefixAware, h.lines, c)
    ensures var r := Step(prefixAware, h, c);
            var at := Clip(h.lines, c.newStart);
            && (ValidPoint(h.lines, c.newStart) ==> at == c.newStart)
            && |r.lines| == |h.lines|
            && (forall i :: 0 <= i < |h.lines| && i != at.row ==> r.lines[i] == h.lines[i])
            && at.column < |r.lines[at.row]| && r.lines[at.row][at.column] == '#'
            && RemoveAt(r.lines, at, 1) == h.lines
            && Chars(r.lines) == Chars(h.lines) + multiset{'#'}
            && r.recorded == h.recorded + [Point(c.newEnd.row, c.newEnd.column + 1)]
            && r.changes == h.changes + [c.(newEnd := Point(c.newEnd.row, c.newEnd.column + 1))]
  {
    var at := Clip(h.lines, c.newStart);
    var r := InsertAt(h.lines, at, "#");
    assert r[at.row][at.column..at.column + 1] == "#";
    assert r[at.row][at.column] == r[at.row][at.column..at.column + 1][0];
    RemoveUndoesInsert(h.lines, at, "#");
    InsertAtChars(h.lines, at, "#");
    assert multiset("#") == multiset{'#'};
  }

  /** The prefix check is the only difference between the two versions:
      one step of the prefix-aware loop does what the other does, except
      that it leaves alone a change whose start is preceded by `#`. */
  lemma PrefixCheckOnlySkips(h: Handled, c: Change)
    requires |h.lines| > 0
    ensures Step(true, h, c) == if PrecededByHash(h.lines, c.start) then Handled(h.lines, h.recorded, h.changes + [c])
                                 else Step(false, h, c)
    ensures !PrecededByHash(h.lines, c.start) ==> Qualifies(true, h.lines, c) == Qualifies(false, h.lines, c)
  {
  }

  /** `n` hash characters. */
  function Hashes(n: nat): string
  {
    if n == 0 then "" else Hashes(n - 1) + "#"
  }

  /** One iteration adds as many `#` characters as it records positions. */
  lemma StepAddsOnlyHashes(prefixAware: bool, h: Handled, c: Change, before: multiset<char>)
    requires |h.lines| > 0
    requires Chars(h.lines) == before + multiset(Hashes(|h.recorded|))
    ensures Chars(Step(prefixAware, h, c).lines) == before + multiset(Hashes(|Step(prefixAware, h, c).recorded|))
  {
    if Qualifies(prefixAware, h.lines, c) {
      var grown := InsertAt(h.lines, Clip(h.lines, c.newStart), "#");
      assert Step(prefixAware, h, c).lines == grown;
      assert |Step(prefixAware, h, c).recorded| == |h.recorded| + 1;
      InsertAtChars(h.lines, Clip(h.lines, c.newStart), "#");
      var hashes := Hashes(|h.recorded|);
      calc {
        Chars(grown);
        Chars(h.lines) + multiset{'#'};
        before + multiset(hashes) + multiset{'#'};
        { assert multiset(hashes + "#") == multiset(hashes) + multiset{'#'}; }
        before + multiset(Hashes(|h.recorded| + 1));
      }
    }
  }

  /** Over a whole event the buffer gains one `#` per recorded position and
      no other character. */
  lemma {:induction false} ProcessAddsOnlyHashes(prefixAware: bool, lines: seq<string>, changes: seq<Change>)
    requires |lines| > 0
    ensures Chars(Process(prefixAware, lines, changes).lines)
            == Chars(lines) + multiset(Hashes(|Process(prefixAware, lines, changes).recorded|))
    decreases |changes|
  {
    if changes != [] {
      var n := |changes|;
      ProcessAddsOnlyHashes(prefixAware, lines, changes[..n - 1]);
      StepAddsOnlyHashes(prefixAware, Process(prefixAware, lines, changes[..n - 1]), changes[n - 1], Chars(lines));
    }
  }

  /** The positions of the changes whose record was updated, taken in order:
      an independent way to read off what the loop records. */
  function UpdatedEnds(before: seq<Change>, after: seq<Change>): seq<Point>
    requires |before| == |after|
    decreases |before|
  {
    if before == [] then []
    else
      var n := |before|;
      UpdatedEnds(before[..n - 1], after[..n - 1])
        + (if after[n - 1] != before[n - 1] then [after[n - 1].newEnd] else [])
  }

  /** Every change of the event is either left as it was or has its new end
      moved one column right, and only changes with hex text of length 3 or
      6 are moved. */
  lemma {:induction false} ProcessMovesOnlyHexChanges(prefixAware: bool, lines: seq<string>, changes: seq<Change>)
    requires |lines| > 0
    ensures var r := Process(prefixAware, lines, changes);
            forall i :: 0 <= i < |changes| ==>
              || r.changes[i] == changes[i]
              || (r.changes[i] == ShiftEnd(changes[i]) && IsHex(changes[i].newText)
                  && (|changes[i].newText| == 3 || |changes[i].newText| == 6))
    decreases |changes|
  {
    if changes != [] {
      var n := |changes|;
      var prev := Process(prefixAware, lines, changes[..n - 1]);
      ProcessMovesOnlyHexChanges(prefixAware, lines, changes[..n - 1]);
      var r := Process(prefixAware, lines, changes);
      var last := changes[n - 1];
      assert r == Step(prefixAware, prev, last);
      assert r.changes == prev.changes + [if Qualifies(prefixAware, prev.lines, last) then ShiftEnd(last) else last];
      forall i | 0 <= i < n
        ensures || r.changes[i] == changes[i]
                || (r.changes[i] == ShiftEnd(changes[i]) && IsHex(changes[i].newText)
                    && (|changes[i].newText| == 3 || |changes[i].newText| == 6))
      {
        if i < n - 1 {
          assert r.changes[i] == prev.changes[i] && changes[i] == changes[..n - 1][i];
        }
      }
    }
  }

  /** The recorded positions are exactly the new ends of the moved changes,
      one per moved change, in the order of the event. */
  lemma {:induction false} ProcessRecordsMovedEnds(prefixAware: bool, lines: seq<string>, changes: seq<Change>)
    requires |lines| > 0
    ensures var r := Process(prefixAware, lines, changes);
            r.recorded == UpdatedEnds(changes, r.changes)
    decreases |changes|
  {
    if changes != [] {
      var n := |changes|;
      var prev := Process(prefixAware, lines, changes[..n - 1]);
      ProcessRecordsMovedEnds(prefixAware, lines, changes[..n - 1]);
      var r := Process(prefixAware, lines, changes);
      assert r == Step(prefixAware, prev, changes[n - 1]);
      assert r.changes[..n - 1] == prev.changes;
    }
  }

  /** An event none of whose changes has a text of length 3 or 6 does
      nothing: no `#`, no recorded position, no updated change. */
  lemma {:induction false} ShortTextsAreInert(prefixAware: bool, lines: seq<string>, changes: seq<Change>)
    requires |lines| > 0
    requires forall i :: 0 <= i < |changes| ==> |changes[i].newText| != 3 && |changes[i].newText| != 6
    ensures Process(prefixAware, lines, changes) == Handled(lines, [], changes)
    decreases |changes|
  {
    if changes != [] {
      var n := |changes|;
      ShortTextsAreInert(prefixAware, lines, changes[..n - 1]);
      assert changes[..n - 1] + [changes[n - 1]] == changes;
    }
  }

  /** The event that the handler's own `#` insertion at `q` fires is handled
      without effect: its text has length 1. */
  lemma HashInsertionEventIsInert(prefixAware: bool, lines: seq<string>, q: Point)
    requires |lines| > 0
    ensures var ev := [Change(q, q, Point(q.row, q.column + 1), "#")];
            Process(prefixAware, lines, ev) == Handled(lines, [], ev)
  {
    ShortTextsAreInert(prefixAware, lines, [Change(q, q, Point(q.row, q.column + 1), "#")]);
  }

  /** Neither version moves the positions of later changes past a `#` it
      has already inserted on the same row. Pasting `fff` over both words of
      `abc abc` gives `fff fff` and two changes; the first gets its `#` at
      column 0, and the second then gets its `#` at column 4, which by now
      is just after `fff` rather than just before the second `fff`. The
      prefix check, reading the original column 4 as well, does not catch
      it. */
  lemma SameRowPasteMisplacesSecondHash(prefixAware: bool)
    ensures var c0 := Change(Point(0, 0), Point(0, 0), Point(0, 3), "fff");
            var c1 := Change(Point(0, 4), Point(0, 4), Point(0, 7), "fff");
            Process(prefixAware, ["fff fff"], [c0, c1])
            == Handled(["#fff# fff"], [Point(0, 4), Point(0, 8)], [ShiftEnd(c0), ShiftEnd(c1)])
  {
    var c0 := Change(Point(0, 0), Point(0, 0), Point(0, 3), "fff");
    var c1 := Change(Point(0, 4), Point(0, 4), Point(0, 7), "fff");
    ProcessSnoc(prefixAware, ["fff fff"], [c0, c1], 0);
    ProcessSnoc(prefixAware, ["fff fff"], [c0, c1], 1);
    assert [c0, c1][..0] == [] && [c0, c1][..1] == [c0] && [c0, c1][..2] == [c0, c1];
    SameRowFirstHash(prefixAware, c0);
    SameRowSecondHash(prefixAware, Handled(["#fff fff"], [Point(0, 4)], [ShiftEnd(c0)]), c1);
  }

  lemma SameRowFirstHash(prefixAware: bool, c0: Change)
    requires c0 == Change(Point(0, 0), Point(0, 0), Point(0, 3), "fff")
    ensures Step(prefixAware, Handled(["fff fff"], [], []), c0) == Handled(["#fff fff"], [Point(0, 4)], [ShiftEnd(c0)])
  {
    IsHexExactly("fff");
    assert "fff fff"[..0] + "#" + "fff fff"[0..] == "#fff fff";
  }

  lemma SameRowSecondHash(prefixAware: bool, first: Handled, c1: Change)
    requires first.lines == ["#fff fff"]
    requires c1 == Change(Point(0, 4), Point(0, 4), Point(0, 7), "fff")
    ensures Step(prefixAware, first, c1) == Handled(["#fff# fff"], first.recorded + [Point(0, 8)], first.changes + [ShiftEnd(c1)])
  {
    IsHexExactly("fff");
    assert "#fff fff"[3] == 'f';
    assert "#fff fff"[..4] + "#" + "#fff fff"[4..] == "#fff# fff";
  }

  // ---------------------------------------------------------------------
  // resetCursors
  // ---------------------------------------------------------------------

  /** The cursor list after adding a cursor at each of `ps` in order; a
      cursor at a position already held is merged away. */
  function AddCursors(cursors: seq<Point>, ps: seq<Point>): seq<Point>
    decreases |ps|
  {
    if ps == [] then cursors
    else
      var prev := AddCursors(cursors, ps[..|ps| - 1]);
      var p := ps[|ps| - 1];
      if p in prev then prev else prev + [p]
  }

  predicate Distinct(s: seq<Point>)
  {
    forall i, j :: 0 <= i < j < |s| ==> s[i] != s[j]
  }

  /** Adding cursors keeps the old ones in front, adds exactly the given
      positions, never holds one position twice, and appends the positions
      in order when they are new and pairwise different. */
  lemma {:induction false} AddCursorsHolds(cursors: seq<Point>, ps: seq<Point>)
    ensures var r := AddCursors(cursors, ps);
            && cursors <= r
            && (forall p :: p in r <==> p in cursors || p in ps)
            && (Distinct(cursors) ==> Distinct(r))
            && (Distinct(cursors + ps) ==> r == cursors + ps)
    decreases |ps|
  {
    if ps != [] {
      var n := |ps|;
      var prev := AddCursors(cursors, ps[..n - 1]);
      AddCursorsHolds(cursors, ps[..n - 1]);
      assert ps == ps[..n - 1] + [ps[n - 1]];
      if Distinct(cursors + ps) {
        var whole := cursors + ps;
        var front := cursors + ps[..n - 1];
        assert front == whole[..|whole| - 1];
        assert whole[|whole| - 1] == ps[n - 1];
        forall i, j | 0 <= i < j < |front|
          ensures front[i] != front[j]
        {
          assert front[i] == whole[i] && front[j] == whole[j];
        }
        forall i | 0 <= i < |front|
          ensures front[i] != ps[n - 1]
        {
          assert front[i] == whole[i];
        }
        assert prev == front;
        assert whole == front + [ps[n - 1]];
      }
    }
  }

  /** After the loop the editor holds one cursor at the last recorded
      position, and the reset adds the others: every recorded position gets
      exactly one cursor and nothing else does, and when the positions are
      pairwise different there are as many cursors as positions, the last
      one first and the rest in the order of the event. */
  lemma FinalCursorsAreRecorded(ps: seq<Point>)
    requires ps != []
    ensures var r := AddCursors([ps[|ps| - 1]], ps);
            && Distinct(r)
            && (forall p :: p in r <==> p in ps)
            && (Distinct(ps) ==> r == [ps[|ps| - 1]] + ps[..|ps| - 1] && |r| == |ps|)
  {
    var n := |ps|;
    var last := ps[n - 1];
    AddCursorsHolds([last], ps);
    if Distinct(ps) {
      AddCursorsHolds([last], ps[..n - 1]);
      assert Distinct([last] + ps[..n - 1]);
      assert ps[..n] == ps;
      assert last in AddCursors([last], ps[..n - 1]);
    }
  }

  /** Adds a cursor at each recorded position, in order. */
  method ResetCursors(editor: TextEditor, cursorPositions: seq<Point>)
    requires editor.Valid()
    modifies editor
    ensures editor.Valid()
    ensures editor.cursors == AddCursors(old(editor.cursors), cursorPositions)
    ensures editor.lines == old(editor.lines) && editor.undoStack == old(editor.undoStack)
  {
    for i := 0 to |cursorPositions|
      invariant editor.Valid()
      invariant editor.cursors == AddCursors(old(editor.cursors), cursorPositions[..i])
      invariant editor.lines == old(editor.lines) && editor.undoStack == old(editor.undoStack)
    {
      editor.AddCursorAtBufferPosition(cursorPositions[i]);
      assert cursorPositions[..i + 1][..i] == cursorPositions[..i];
    }
    assert cursorPositions[..|cursorPositions|] == cursorPositions;
  }
}
