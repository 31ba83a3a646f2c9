/** Directed regions of a selection, with both ends included. */
module Region {
  import opened Prelude

  datatype Direction = Up | Down | Left | Right

  datatype Region = Region(caret: nat, tail: nat, main: bool) {

    function Hi(): nat {
      if caret >= tail then caret else tail
    }

    function Lo(): nat {
      if caret <= tail then caret else tail
    }

    function Len(): nat {
      Hi() - Lo() + 1
    }

    /** A position is selected by this region. */
    predicate Holds(p: int) {
      Lo() <= p <= Hi()
    }

    predicate Forward() {
      caret >= tail
    }

    predicate Backward() {
      caret <= tail
    }

    predicate Overlaps(other: Region) {
      Hi() >= other.Lo()
    }

    function ToBackward(): Region {
      At(Lo(), Hi())
    }

    function ToForward(): Region {
      At(Hi(), Lo())
    }

    function WithDirection(backward: bool): Region {
      if backward then At(Lo(), Hi()) else At(Hi(), Lo())
    }

    function InheritDirection(parent: Region): Region {
      if parent.Forward() then ToForward() else ToBackward()
    }

    function SwapCaret(): Region {
      At(tail, caret)
    }

    function Collapse(): Region {
      At(caret, caret)
    }

    function Merge(other: Region): Outcome<Region> {
      var bothForward := Forward() && other.Forward();
      var bothBackward := Backward() && other.Backward();
      var merged :=
        if bothForward && bothBackward then
          if caret == other.caret then Ok(this) else Panic
        else if bothForward then
          Ok(At(Max(caret, other.caret), Min(tail, other.tail)))
        else if bothBackward then
          Ok(At(Min(caret, other.caret), Max(tail, other.tail)))
        else Panic;
      if merged.Ok? && (main || other.main) then Ok(merged.value.(main := true)) else merged
    }

    /** Where a move by `count` steps takes the caret. */
    function MovedCaret(direction: Direction, bytesPerLine: nat, maxSize: nat, count: nat): nat {
      match direction
      case Up => Max(0, caret - bytesPerLine * count)
      case Down => Min(maxSize, caret + bytesPerLine * count)
      case Left => Max(0, caret - count)
      case Right => Min(maxSize, caret + count)
    }

    function SimpleMove(direction: Direction, bytesPerLine: nat, maxSize: nat, count: nat): Region {
      if maxSize == 0 then this
      else
        var location := MovedCaret(direction, bytesPerLine, maxSize, count);
        At(location, location)
    }

    function SimpleExtend(direction: Direction, bytesPerLine: nat, maxSize: nat, count: nat): Region {
      if maxSize == 0 then this
      else At(MovedCaret(direction, bytesPerLine, maxSize, count), tail)
    }

    /** What is left of the region before and after the closed range start..end. */
    function SplitAtRegion(start: nat, end: nat): (Option<Region>, Option<Region>) {
      if start <= Lo() then
        if end >= Hi() then (None, None)
        else (None, Some(At(end + 1, Hi()).InheritDirection(this)))
      else if end >= Hi() then
        (Some(At(Lo(), start - 1).InheritDirection(this)), None)
      else
        (Some(At(Lo(), start - 1)), Some(At(end + 1, Hi())))
    }
  }

  /** `SelRegion::new`: a region that is not the main one. */
  function At(caret: nat, tail: nat): Region {
    Region(caret, tail, false)
  }

  /** Two overlapping regions, the first starting no later, refuse to merge exactly when
      they point in opposite directions. */
  lemma MergePanics(a: Region, b: Region)
    requires a.Lo() <= b.Lo() && a.Overlaps(b)
    ensures a.Merge(b).Panic? <==> (a.Forward() != b.Forward() && a.Backward() != b.Backward())
  {
  }

  /** A merged region selects exactly what the two regions select, keeps their direction
      and is the main one if either was. */
  lemma MergeMeaning(a: Region, b: Region)
    requires a.Lo() <= b.Lo() && a.Overlaps(b)
    requires a.Merge(b).Ok?
    ensures var m := a.Merge(b).value;
            && m.Lo() == a.Lo() && m.Hi() == Max(a.Hi(), b.Hi())
            && (m.Forward() <==> a.Forward() && b.Forward())
            && (m.Backward() <==> a.Backward() && b.Backward())
            && (m.main <==> a.main || b.main)
            && forall p :: m.Holds(p) <==> a.Holds(p) || b.Holds(p)
  {
  }
}
