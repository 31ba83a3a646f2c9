/** Which styles the visible bytes are drawn in, and how the view follows the main cursor. */
module HexView {
  import opened Prelude
  import opened Region
  import opened Moves
  import opened Selections
  import Selection

  /** Styles are told apart only by what they stand for. */
  datatype Style = DefaultStyle | SelectionStyle(active: bool) | CaretStyle(active: bool)

  /** Style changes before a byte, between its two digits, and after it. */
  datatype Command = Command(start: Option<Style>, mid: Option<Style>, end: Option<Style>)

  const Plain: Command := Command(None, None, None)

  // ----- the style of one byte

  /** The region that holds an offset, if one does. */
  function RegionAt(rs: seq<Region>, p: nat): Option<Region> {
    if rs == [] then None
    else if rs[0].Holds(p) then Some(rs[0])
    else RegionAt(rs[1..], p)
  }

  /** The style of a byte that is not under a caret. */
  function BaseStyle(held: Option<Region>): Style {
    if held.Some? then SelectionStyle(held.value.main) else DefaultStyle
  }

  /** What a byte is marked with because of the region that holds it. */
  function RegionMark(r: Region, i: nat, halfCursor: bool): Command {
    var base, caret := SelectionStyle(r.main), CaretStyle(r.main);
    var begun := if r.Lo() == i then Plain.(start := Some(base)) else Plain;
    var withCaret :=
      if r.caret != i then begun
      else if !halfCursor then begun.(start := Some(caret), end := Some(base))
      else if i == r.Lo() then begun.(mid := Some(caret), end := Some(base))
      else begun.(start := Some(base), mid := Some(caret));
    if r.Hi() == i then withCaret.(end := Some(DefaultStyle)) else withCaret
  }

  /** Lines start in the style in force and end in the default style. */
  function LineMark(c: Command, i: nat, bytesPerLine: nat, base: Style): Command
    requires bytesPerLine > 0
  {
    if i % bytesPerLine == 0 && c.start.None? then c.(start := Some(base))
    else if (i + 1) % bytesPerLine == 0 then c.(end := Some(DefaultStyle))
    else c
  }

  /** The marks of a byte, from the selection alone. */
  function CommandAt(rs: seq<Region>, i: nat, bytesPerLine: nat, halfCursor: bool): Command
    requires bytesPerLine > 0
  {
    var held := RegionAt(rs, i);
    LineMark(if held.Some? then RegionMark(held.value, i, halfCursor) else Plain, i, bytesPerLine, BaseStyle(held))
  }

  // ----- the sweep over the visible bytes

  lemma {:induction false} RegionAtIntersecting(rs: seq<Region>, start: nat, end: nat, p: nat)
    requires start <= p <= end
    ensures RegionAt(Selection.Intersecting(rs, start, end), p) == RegionAt(rs, p)
  {
    if rs != [] {
      RegionAtIntersecting(rs[1..], start, end, p);
      if rs[0].Hi() >= start && rs[0].Lo() <= end {
        assert ([rs[0]] + Selection.Intersecting(rs[1..], start, end))[1..] == Selection.Intersecting(rs[1..], start, end);
      }
    }
  }

  lemma {:induction false} IntersectingForm(rs: seq<Region>, start: nat, end: nat)
    requires Sorted(rs)
    ensures var out := Selection.Intersecting(rs, start, end);
            && Sorted(out)
            && forall k :: 0 <= k < |out| ==> out[k].Hi() >= start && rs != [] && rs[0].Lo() <= out[k].Lo()
  {
    if rs != [] {
      IntersectingForm(rs[1..], start, end);
      assert |rs| > 1 ==> rs[1..][0] == rs[1] && rs[0].Hi() < rs[1].Lo();
    }
  }

  /** A sorted list whose first region starts later holds nothing yet. */
  lemma {:induction false} NothingYet(rs: seq<Region>, p: nat)
    requires Sorted(rs) && (rs != [] ==> p < rs[0].Lo())
    ensures RegionAt(rs, p) == None
  {
    if rs != [] {
      assert |rs| > 1 ==> rs[0].Hi() < rs[1].Lo() && rs[1..][0] == rs[1];
      NothingYet(rs[1..], p);
    }
  }

  /** The styles on the stack at offset i: the default one, and that of the region that has
      been opened before. */
  function StackAt(rs: seq<Region>, i: nat): seq<Style> {
    if rs != [] && rs[0].Lo() < i then [DefaultStyle, SelectionStyle(rs[0].main)] else [DefaultStyle]
  }

  /** The stack holds a selection style, over the default one, exactly at selected bytes. */
  lemma {:induction false} StackTellsSelection(selected: seq<Region>, i: nat)
    requires Sorted(selected) && forall k :: 0 <= k < |selected| ==> selected[k].Hi() >= i
    ensures |StackAt(selected, i + 1)| == (if Covers(selected, i) then 2 else 1)
    ensures RegionAt(selected, i).Some? <==> Covers(selected, i)
  {
    if selected != [] && selected[0].Lo() <= i {
      assert selected[0].Holds(i);
    } else {
      NothingYet(selected, i);
      forall k | 0 <= k < |selected| ensures !selected[k].Holds(i) {
        assert k > 0 ==> selected[0].Hi() < selected[k].Lo();
      }
    }
  }

  /** The marks of one byte: opens the region that starts here and draws the caret and the
      line ends. The stack is returned as it is before a region that ends here is closed. */
  method MarkByte(selected: seq<Region>, i: nat, bytesPerLine: nat, halfCursor: bool, stack: seq<Style>)
    returns (command: Command, stack': seq<Style>)
    requires Sorted(selected) && bytesPerLine > 0 && stack == StackAt(selected, i)
    requires forall k :: 0 <= k < |selected| ==> selected[k].Hi() >= i
    ensures command == CommandAt(selected, i, bytesPerLine, halfCursor)
    ensures stack' == StackAt(selected, i + 1)
  {
    command, stack' := Plain, stack;
    if selected != [] {
      var first := selected[0];
      if first.Lo() == i {
        stack' := stack' + [SelectionStyle(first.main)];
        command := command.(start := Some(stack'[|stack'| - 1]));
      }
      if first.caret == i {
        var base := stack'[|stack'| - 1];
        var caret := CaretStyle(first.main);
        if halfCursor {
          if i == first.Lo() {
            command := command.(mid := Some(caret), end := Some(base));
          } else {
            command := command.(start := Some(base), mid := Some(caret));
          }
        } else {
          command := command.(start := Some(caret), end := Some(base));
        }
      }
      if first.Hi() == i {
        command := command.(end := Some(stack'[|stack'| - 2]));
      }
    }
    if i % bytesPerLine == 0 && command.start.None? {
      command := command.(start := Some(stack'[|stack'| - 1]));
    } else if (i + 1) % bytesPerLine == 0 {
      command := command.(end := Some(DefaultStyle));
    }
    SweepMark(selected, i, bytesPerLine, halfCursor, command);
  }

  /** What one round of the sweep computes is what the selection gives. */
  lemma SweepMark(selected: seq<Region>, i: nat, bytesPerLine: nat, halfCursor: bool, command: Command)
    requires Sorted(selected) && bytesPerLine > 0
    requires forall k :: 0 <= k < |selected| ==> selected[k].Hi() >= i
    requires var held := selected != [] && selected[0].Lo() <= i;
             var c := if held then RegionMark(selected[0], i, halfCursor) else Plain;
             command == LineMark(c, i, bytesPerLine, if held then SelectionStyle(selected[0].main) else DefaultStyle)
    ensures command == CommandAt(selected, i, bytesPerLine, halfCursor)
  {
    if selected == [] || i < selected[0].Lo() {
      NothingYet(selected, i);
    }
  }

  /** Closing the first region, which ends at i, changes nothing for the offsets after i. */
  lemma CloseFirst(selected: seq<Region>, i: nat)
    requires Sorted(selected) && selected != [] && selected[0].Hi() == i
    ensures Sorted(selected[1..]) && forall k :: 0 <= k < |selected[1..]| ==> selected[1..][k].Lo() > i
    ensures forall p: nat :: i < p ==> RegionAt(selected[1..], p) == RegionAt(selected, p)
  {
  }

  /** Marks every visible byte. The style stack never loses its default entry, and the marks
      are those that the selection alone gives each byte. */
  method MarkCommands(sel: Selection.Selection, start: nat, end: nat, bytesPerLine: nat, halfCursor: bool)
    returns (marks: seq<Command>)
    requires Sorted(sel.regions) && sel.regions != [] && start <= end && bytesPerLine > 0
    ensures |marks| == end - start
    ensures forall k :: 0 <= k < end - start ==> marks[k] == CommandAt(sel.regions, start + k, bytesPerLine, halfCursor)
  {
    ghost var rs := sel.regions;
    var commands := new Command[end - start](_ => Plain);
    var selected := sel.RegionsInRange(start, end);
    SweepStart(rs, start, end);
    var stack := [DefaultStyle];
    if selected != [] && selected[0].Lo() < start {
      stack := stack + [SelectionStyle(selected[0].main)];
    }
    for i := start to end
      invariant SweepState(rs, selected, i, end)
      invariant stack == StackAt(selected, i)
      invariant forall k :: 0 <= k < i - start ==> commands[k] == CommandAt(rs, start + k, bytesPerLine, halfCursor)
    {
      var command;
      command, stack := MarkByte(selected, i, bytesPerLine, halfCursor, stack);
      commands[i - start] := command;
      SweepNext(rs, selected, i, end, bytesPerLine, halfCursor);
      if selected != [] && selected[0].Hi() == i {
        stack := stack[..|stack| - 1];
        selected := selected[1..];
      }
    }
    marks := commands[..];
  }

  /** The regions that are left hold what the selection holds from offset i on. */
  ghost predicate SweepState(rs: seq<Region>, selected: seq<Region>, i: nat, end: nat) {
    && Sorted(selected) && (forall k :: 0 <= k < |selected| ==> selected[k].Hi() >= i)
    && forall p :: i <= p <= end ==> RegionAt(selected, p) == RegionAt(rs, p)
  }

  lemma {:induction false} SweepStart(rs: seq<Region>, start: nat, end: nat)
    requires Sorted(rs) && start <= end
    ensures SweepState(rs, Selection.Intersecting(rs, start, end), start, end)
  {
    IntersectingForm(rs, start, end);
    forall p | start <= p <= end ensures RegionAt(Selection.Intersecting(rs, start, end), p) == RegionAt(rs, p) {
      RegionAtIntersecting(rs, start, end, p);
    }
  }

  /** One byte further: a region that ends here is done with. */
  lemma {:induction false} SweepNext(rs: seq<Region>, selected: seq<Region>, i: nat, end: nat, bytesPerLine: nat, halfCursor: bool)
    requires i < end && bytesPerLine > 0 && SweepState(rs, selected, i, end)
    ensures CommandAt(selected, i, bytesPerLine, halfCursor) == CommandAt(rs, i, bytesPerLine, halfCursor)
    ensures if selected != [] && selected[0].Hi() == i
            then SweepState(rs, selected[1..], i + 1, end) && StackAt(selected[1..], i + 1) == [DefaultStyle]
            else SweepState(rs, selected, i + 1, end)
  {
    assert RegionAt(selected, i) == RegionAt(rs, i);
    if selected != [] && selected[0].Hi() == i {
      CloseFirst(selected, i);
    } else {
      forall k | 0 <= k < |selected| ensures selected[k].Hi() >= i + 1 {
        assert k > 0 ==> selected[0].Hi() < selected[k].Lo();
      }
    }
  }

  // ----- what the marks show

  /** The styles in force while a byte is drawn: at its upper digit, at its lower one, and
      after it. */
  datatype Shown = Shown(upper: Style, lower: Style, after: Style)

  /** A mark changes the style, no mark leaves the one in force. */
  function Show(c: Command, before: Style): Shown {
    var upper := if c.start.Some? then c.start.value else before;
    var lower := if c.mid.Some? then c.mid.value else upper;
    Shown(upper, lower, if c.end.Some? then c.end.value else lower)
  }

  /** Draws the bytes of one line, from the style in force before it. */
  method DrawHexRow(marks: seq<Command>, before: Style) returns (shown: seq<Shown>)
    ensures shown == ShowRow(marks, before)
  {
    shown := [];
    var style := before;
    for i := 0 to |marks|
      invariant style == StyleAfter(marks[..i], before)
      invariant shown == ShowRow(marks[..i], before)
    {
      var s := Show(marks[i], style);
      assert marks[..i + 1][..i] == marks[..i];
      shown := shown + [s];
      style := s.after;
    }
    assert marks[..|marks|] == marks;
  }

  /** The style in force after the marks. */
  function StyleAfter(marks: seq<Command>, before: Style): Style {
    if marks == [] then before else Show(marks[|marks| - 1], StyleAfter(marks[..|marks| - 1], before)).after
  }

  function ShowRow(marks: seq<Command>, before: Style): (shown: seq<Shown>)
    ensures |shown| == |marks|
  {
    if marks == [] then []
    else
      var init := marks[..|marks| - 1];
      ShowRow(init, before) + [Show(marks[|marks| - 1], StyleAfter(init, before))]
  }

  /** The styles that the selection calls for: a digit of a selected byte has the selection
      style of its region, but the digits of the byte at the caret have the caret style, only
      the lower one if the cursor is halved. */
  function DigitStyle(rs: seq<Region>, i: nat, halfCursor: bool, upper: bool): Style {
    match RegionAt(rs, i)
    case None => DefaultStyle
    case Some(r) =>
      if r.caret == i && !(halfCursor && upper) then CaretStyle(r.main) else SelectionStyle(r.main)
  }

  /** The style between byte i and the next one: the selection style inside a region. */
  function StyleBetween(rs: seq<Region>, i: nat): Style {
    match RegionAt(rs, i)
    case None => DefaultStyle
    case Some(r) => if i < r.Hi() then SelectionStyle(r.main) else DefaultStyle
  }

  lemma {:induction false} RegionAtHolds(rs: seq<Region>, p: nat)
    ensures RegionAt(rs, p).Some? ==> RegionAt(rs, p).value in rs && RegionAt(rs, p).value.Holds(p)
    ensures RegionAt(rs, p).None? ==> !Covers(rs, p)
  {
    if rs != [] {
      RegionAtHolds(rs[1..], p);
      if RegionAt(rs, p).None? {
        forall i | 0 <= i < |rs| ensures !rs[i].Holds(p) {
          assert i > 0 ==> rs[i] == rs[1..][i - 1];
        }
      }
    }
  }

  /** A region that goes on is the one that holds the next byte. */
  lemma {:induction false} RegionGoesOn(rs: seq<Region>, p: nat)
    requires Sorted(rs)
    ensures RegionAt(rs, p + 1).Some? && RegionAt(rs, p + 1).value.Lo() <= p ==> RegionAt(rs, p) == RegionAt(rs, p + 1)
    ensures RegionAt(rs, p).Some? && p < RegionAt(rs, p).value.Hi() ==> RegionAt(rs, p + 1) == RegionAt(rs, p)
  {
    if rs != [] {
      RegionGoesOn(rs[1..], p);
      RegionAtHolds(rs[1..], p);
      RegionAtHolds(rs[1..], p + 1);
      forall r | r in rs[1..] ensures rs[0].Hi() < r.Lo() {
        var k :| 0 <= k < |rs[1..]| && rs[1..][k] == r;
        assert rs[k + 1] == r;
      }
    }
  }

  /** One byte: drawn in the style between the last byte and it, or at the start of a line in
      any style, its digits have the styles that the selection calls for. */
  lemma {:induction false} ByteShown(rs: seq<Region>, i: nat, bytesPerLine: nat, halfCursor: bool, before: Style)
    requires Sorted(rs) && bytesPerLine > 0
    requires i % bytesPerLine != 0 ==> i > 0 && before == StyleBetween(rs, i - 1)
    ensures var s := Show(CommandAt(rs, i, bytesPerLine, halfCursor), before);
            && s.upper == DigitStyle(rs, i, halfCursor, true) && s.lower == DigitStyle(rs, i, halfCursor, false)
            && ((i + 1) % bytesPerLine != 0 ==> s.after == StyleBetween(rs, i))
  {
    RegionAtHolds(rs, i);
    if i > 0 {
      RegionGoesOn(rs, i - 1);
    }
  }

  /** The same for the character of the byte, which is drawn without the mark in the middle. */
  lemma {:induction false} CharacterShown(rs: seq<Region>, i: nat, bytesPerLine: nat, halfCursor: bool, before: Style)
    requires Sorted(rs) && bytesPerLine > 0
    requires i % bytesPerLine != 0 ==> i > 0 && before == StyleBetween(rs, i - 1)
    ensures var s := Show(CommandAt(rs, i, bytesPerLine, halfCursor).(mid := None), before);
            && s.upper == DigitStyle(rs, i, halfCursor, true)
            && ((i + 1) % bytesPerLine != 0 ==> s.after == StyleBetween(rs, i))
  {
    RegionAtHolds(rs, i);
    if i > 0 {
      RegionGoesOn(rs, i - 1);
    }
  }

  /** A line ends in the default style, unless it has one byte only and that lies strictly
      inside a region: then the selection style is left in force. */
  lemma {:induction false} LineEnds(rs: seq<Region>, i: nat, bytesPerLine: nat, halfCursor: bool, before: Style)
    requires Sorted(rs) && bytesPerLine > 0 && (i + 1) % bytesPerLine == 0
    requires i % bytesPerLine != 0 ==> i > 0 && before == StyleBetween(rs, i - 1)
    ensures var s, held := Show(CommandAt(rs, i, bytesPerLine, halfCursor), before), RegionAt(rs, i);
            s.after == DefaultStyle <==> !(bytesPerLine == 1 && held.Some? && held.value.Lo() < i < held.value.Hi())
  {
    RegionAtHolds(rs, i);
    if bytesPerLine > 1 {
      NotBoth(i, bytesPerLine);
    }
  }

  lemma NotBoth(i: nat, bytesPerLine: nat)
    requires bytesPerLine > 1 && (i + 1) % bytesPerLine == 0
    ensures i % bytesPerLine != 0
  {
    if i % bytesPerLine == 0 {
      OffsetIs(i, i / bytesPerLine, 0, bytesPerLine);
      OffsetIs(i + 1, i / bytesPerLine, 1, bytesPerLine);
    }
  }

  /** The marks of a line that starts at offset `start`. */
  ghost predicate LineMarks(rs: seq<Region>, start: nat, bytesPerLine: nat, halfCursor: bool, marks: seq<Command>)
    requires bytesPerLine > 0
  {
    && start % bytesPerLine == 0 && |marks| <= bytesPerLine
    && forall k: nat :: k < |marks| ==> marks[k] == CommandAt(rs, start + k, bytesPerLine, halfCursor)
  }

  lemma InLine(start: nat, k: nat, bytesPerLine: nat)
    requires bytesPerLine > 0 && start % bytesPerLine == 0 && k < bytesPerLine
    ensures (start + k) % bytesPerLine == k
  {
    OffsetIs(start, start / bytesPerLine, 0, bytesPerLine);
    OffsetIs(start + k, start / bytesPerLine, k, bytesPerLine);
  }

  /** Whatever style is in force before a line, its digits are drawn in the styles that the
      selection calls for. */
  lemma {:induction false} RowShown(rs: seq<Region>, start: nat, bytesPerLine: nat, halfCursor: bool, marks: seq<Command>, before: Style)
    requires Sorted(rs) && bytesPerLine > 0 && LineMarks(rs, start, bytesPerLine, halfCursor, marks)
    ensures forall k: nat :: k < |marks| ==>
              && ShowRow(marks, before)[k].upper == DigitStyle(rs, start + k, halfCursor, true)
              && ShowRow(marks, before)[k].lower == DigitStyle(rs, start + k, halfCursor, false)
    ensures 0 < |marks| < bytesPerLine ==> StyleAfter(marks, before) == StyleBetween(rs, start + |marks| - 1)
    decreases |marks|
  {
    if marks != [] {
      var k, init := |marks| - 1, marks[..|marks| - 1];
      RowShown(rs, start, bytesPerLine, halfCursor, init, before);
      InLine(start, k, bytesPerLine);
      if k + 1 < bytesPerLine {
        InLine(start, k + 1, bytesPerLine);
      }
      ByteShown(rs, start + k, bytesPerLine, halfCursor, StyleAfter(init, before));
    }
  }

  /** Draws the hex digits of the visible bytes up to `textEnd`, line by line; `before` is the
      style that the rest of the screen leaves in force. */
  method DrawVisible(sel: Selection.Selection, start: nat, end: nat, textEnd: nat, bytesPerLine: nat, halfCursor: bool, before: Style)
    returns (shown: seq<Shown>)
    requires Sorted(sel.regions) && sel.regions != [] && start <= textEnd <= end && bytesPerLine > 0 && start % bytesPerLine == 0
    ensures |shown| == textEnd - start
    ensures forall k: nat :: k < |shown| ==>
              && shown[k].upper == DigitStyle(sel.regions, start + k, halfCursor, true)
              && shown[k].lower == DigitStyle(sel.regions, start + k, halfCursor, false)
  {
    var marks := MarkCommands(sel, start, end, bytesPerLine, halfCursor);
    shown := [];
    var i := start;
    while i < textEnd
      invariant start <= i && |shown| == Min(i, textEnd) - start && i % bytesPerLine == 0
      invariant forall k: nat :: k < |shown| ==>
                  && shown[k].upper == DigitStyle(sel.regions, start + k, halfCursor, true)
                  && shown[k].lower == DigitStyle(sel.regions, start + k, halfCursor, false)
    {
      var rowEnd := Min(textEnd, i + bytesPerLine);
      var row := marks[i - start..rowEnd - start];
      RowShown(sel.regions, i, bytesPerLine, halfCursor, row, before);
      var digits := DrawHexRow(row, before);
      shown := shown + digits;
      NextLine(i, bytesPerLine);
      i := i + bytesPerLine;
    }
  }

  lemma NextLine(i: nat, bytesPerLine: nat)
    requires bytesPerLine > 0 && i % bytesPerLine == 0
    ensures (i + bytesPerLine) % bytesPerLine == 0
  {
    OffsetIs(i, i / bytesPerLine, 0, bytesPerLine);
    LinesAdd(i / bytesPerLine, 1, bytesPerLine);
    OffsetIs(i + bytesPerLine, i / bytesPerLine + 1, 0, bytesPerLine);
  }

  // ----- following the main cursor

  /** The first and the last visible offset plus one: the overflow position can be visible. */
  function VisibleEnd(startOffset: nat, len: nat, rows: nat, bytesPerLine: nat): nat
    requires rows > 0
  {
    Min(len + 1, startOffset + (rows - 1) * bytesPerLine)
  }

  /** `maybe_update_offset_and_draw`: where the view starts so that the cursor can be seen. */
  function FollowCursor(startOffset: nat, cursor: nat, len: nat, rows: nat, bytesPerLine: nat): nat
    requires rows > 0 && bytesPerLine > 0
  {
    if cursor < startOffset then cursor - cursor % bytesPerLine
    else if cursor >= VisibleEnd(startOffset, len, rows, bytesPerLine) then
      Max(0, cursor - cursor % bytesPerLine + bytesPerLine - (rows - 1) * bytesPerLine)
    else startOffset
  }

  lemma LinesFit(rows: nat, bytesPerLine: nat)
    requires rows > 1 && bytesPerLine > 0
    ensures (rows - 1) * bytesPerLine >= bytesPerLine
  {
    assert (rows - 1) * bytesPerLine == (rows - 2) * bytesPerLine + bytesPerLine;
  }

  /** After the view has followed it, the main cursor is visible, unless the terminal has
      room for the status line only. */
  lemma CursorBecomesVisible(startOffset: nat, cursor: nat, len: nat, rows: nat, bytesPerLine: nat)
    requires rows > 0 && bytesPerLine > 0 && cursor <= len
    ensures var start := FollowCursor(startOffset, cursor, len, rows, bytesPerLine);
            start <= cursor < VisibleEnd(start, len, rows, bytesPerLine) <==> rows > 1
  {
    var screen := (rows - 1) * bytesPerLine;
    if rows > 1 {
      LinesFit(rows, bytesPerLine);
    } else {
      assert screen == 0;
    }
  }

  /** The line that a view of so many rows starts with if the given line is its last one. */
  lemma LastLine(line: nat, rows: nat, bytesPerLine: nat)
    requires rows > 0 && bytesPerLine > 0
    ensures var top := OffsetOf(line, 0, bytesPerLine) + bytesPerLine - (rows - 1) * bytesPerLine;
            if line + 2 >= rows then top == OffsetOf(line + 2 - rows, 0, bytesPerLine) else top < 0
  {
    LinesAdd(line, 1, bytesPerLine);
    if line + 2 >= rows {
      LinesAdd(line + 2 - rows, rows - 1, bytesPerLine);
    } else {
      Spread(line + 1, rows - 1, bytesPerLine);
    }
  }

  /** Where the view starts, in lines. */
  lemma {:induction false} FollowedLine(startOffset: nat, cursor: nat, len: nat, rows: nat, bytesPerLine: nat)
    requires rows > 0 && bytesPerLine > 0
    ensures var start, line := FollowCursor(startOffset, cursor, len, rows, bytesPerLine), cursor / bytesPerLine;
            if cursor < startOffset then start == OffsetOf(line, 0, bytesPerLine)
            else if cursor < VisibleEnd(startOffset, len, rows, bytesPerLine) then start == startOffset
            else start == if line + 2 >= rows then OffsetOf(line + 2 - rows, 0, bytesPerLine) else 0
  {
    var line := cursor / bytesPerLine;
    OffsetIs(cursor, line, cursor % bytesPerLine, bytesPerLine);
    assert cursor - cursor % bytesPerLine == OffsetOf(line, 0, bytesPerLine);
    LastLine(line, rows, bytesPerLine);
  }

  /** If the view started at a line it still does, and it does not move while the cursor is
      visible. */
  lemma {:induction false} FollowsByLines(startOffset: nat, cursor: nat, len: nat, rows: nat, bytesPerLine: nat)
    requires rows > 0 && bytesPerLine > 0 && startOffset % bytesPerLine == 0
    ensures var start := FollowCursor(startOffset, cursor, len, rows, bytesPerLine);
            && start % bytesPerLine == 0
            && (startOffset <= cursor < VisibleEnd(startOffset, len, rows, bytesPerLine) ==> start == startOffset)
  {
    var start, line := FollowCursor(startOffset, cursor, len, rows, bytesPerLine), cursor / bytesPerLine;
    FollowedLine(startOffset, cursor, len, rows, bytesPerLine);
    OffsetIs(start, line, 0, bytesPerLine);
    if line + 2 >= rows {
      OffsetIs(start, line + 2 - rows, 0, bytesPerLine);
    }
  }

  /** Otherwise it moves just so far that the cursor is in its first line or, unless that
      would be before the start, in its last one. */
  lemma {:induction false} ScrollsToCursor(startOffset: nat, cursor: nat, len: nat, rows: nat, bytesPerLine: nat)
    requires rows > 1 && bytesPerLine > 0
    ensures var start, line := FollowCursor(startOffset, cursor, len, rows, bytesPerLine), cursor / bytesPerLine;
            && (cursor < startOffset ==> start / bytesPerLine == line)
            && (startOffset <= cursor && cursor >= VisibleEnd(startOffset, len, rows, bytesPerLine) ==>
                  if line >= rows - 2 then start / bytesPerLine + (rows - 2) == line else start == 0)
  {
    var start, line := FollowCursor(startOffset, cursor, len, rows, bytesPerLine), cursor / bytesPerLine;
    FollowedLine(startOffset, cursor, len, rows, bytesPerLine);
    OffsetIs(start, line, 0, bytesPerLine);
    if line + 2 >= rows {
      OffsetIs(start, line + 2 - rows, 0, bytesPerLine);
    }
  }

  /** The part of the view that scrolls. */
  class Screen {
    var startOffset: nat
    const rows: nat
    const bytesPerLine: nat

    constructor (rows: nat, bytesPerLine: nat)
      ensures startOffset == 0 && this.rows == rows && this.bytesPerLine == bytesPerLine
    {
      startOffset := 0;
      this.rows, this.bytesPerLine := rows, bytesPerLine;
    }

    /** Scrolls, if need be, so that the main cursor can be seen. */
    method FollowMainCursor(sel: Selection.Selection, len: nat)
      requires rows > 0 && bytesPerLine > 0 && sel.mainSelection < |sel.regions|
      modifies this`startOffset
      ensures startOffset == FollowCursor(old(startOffset), sel.regions[sel.mainSelection].caret, len, rows, bytesPerLine)
    {
      var cursor := sel.regions[sel.mainSelection].caret;
      if cursor < startOffset {
        startOffset := cursor - cursor % bytesPerLine;
      } else if cursor >= VisibleEnd(startOffset, len, rows, bytesPerLine) {
        var bytesPerScreen := (rows - 1) * bytesPerLine;
        startOffset := Max(0, cursor - cursor % bytesPerLine + bytesPerLine - bytesPerScreen);
      }
    }
  }
}
