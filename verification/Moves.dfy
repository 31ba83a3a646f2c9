/** How far a caret moves, in lines and columns. */
module Moves {
  import opened Region

  /** The offset in the given line and column. */
  function OffsetOf(line: nat, column: nat, bytesPerLine: nat): nat {
    line * bytesPerLine + column
  }

  /** Where a move by `count` leads from an offset of a document of n bytes. Left and right go
      by that many bytes, up and down by that many lines in the same column, and no move goes
      past either end. */
  ghost predicate Reaches(from: nat, direction: Direction, bytesPerLine: nat, n: nat, count: nat, to: nat)
    requires bytesPerLine > 0
  {
    match direction
    case Left => if count <= from then to + count == from else to == 0
    case Right => if from + count <= n then to == from + count else to == n
    case Up =>
      if count <= from / bytesPerLine
      then to / bytesPerLine + count == from / bytesPerLine && to % bytesPerLine == from % bytesPerLine
      else to == 0
    case Down =>
      if OffsetOf(from / bytesPerLine + count, from % bytesPerLine, bytesPerLine) <= n
      then to / bytesPerLine == from / bytesPerLine + count && to % bytesPerLine == from % bytesPerLine
      else to == n
  }

  /** An offset is told by its line and its column. */
  lemma OffsetIs(p: nat, line: nat, column: nat, bytesPerLine: nat)
    requires column < bytesPerLine
    ensures p == OffsetOf(line, column, bytesPerLine) <==> p / bytesPerLine == line && p % bytesPerLine == column
  {
    var q := p / bytesPerLine;
    assert p == q * bytesPerLine + p % bytesPerLine;
    if p == OffsetOf(line, column, bytesPerLine) {
      if q < line {
        Spread(q, line, bytesPerLine);
      } else if line < q {
        Spread(line, q, bytesPerLine);
      }
    }
  }

  /** Different lines are at least a line apart. */
  lemma Spread(a: nat, b: nat, bytesPerLine: nat)
    requires a < b
    ensures a * bytesPerLine + bytesPerLine <= b * bytesPerLine
  {
    assert b * bytesPerLine == a * bytesPerLine + (b - a) * bytesPerLine;
    assert (b - a) * bytesPerLine == (b - a - 1) * bytesPerLine + bytesPerLine;
  }

  lemma LinesAdd(a: nat, b: nat, bytesPerLine: nat)
    ensures (a + b) * bytesPerLine == a * bytesPerLine + bytesPerLine * b
  {
  }

  /** The caret moves exactly that far. */
  lemma {:induction false} MovedCaretReaches(r: Region, direction: Direction, bytesPerLine: nat, n: nat, count: nat, to: nat)
    requires bytesPerLine > 0
    ensures Reaches(r.caret, direction, bytesPerLine, n, count, to) <==>
            to == r.MovedCaret(direction, bytesPerLine, n, count)
  {
    var line, column := r.caret / bytesPerLine, r.caret % bytesPerLine;
    OffsetIs(r.caret, line, column, bytesPerLine);
    match direction
    case Left =>
    case Right =>
    case Down =>
      LinesAdd(line, count, bytesPerLine);
      OffsetIs(to, line + count, column, bytesPerLine);
    case Up =>
      if count <= line {
        LinesAdd(line - count, count, bytesPerLine);
        OffsetIs(to, line - count, column, bytesPerLine);
      } else {
        Spread(line, count, bytesPerLine);
        LinesAdd(0, count, bytesPerLine);
      }
  }
}
