/** The handlers of normal and insert mode, which update the buffer in place. */
module Transitions {
  import opened Prelude
  import opened Characters
  import opened Builder
  import opened Region
  import opened Selections
  import opened SelectionLaws
  import opened Transport
  import opened Operations
  import opened ChangeLaws
  import opened HexTyping
  import opened DeletePaste
  import opened Timeline
  import opened Modes
  import opened ModeLaws
  import opened Search
  import opened WidthSplit
  import opened SplitMode
  import opened CurrentBuffer
  import Selection

  lemma {:induction false} RunOne(b: Buffer, e: Effect)
    ensures AdmissibleRun(b, [e]) <==> Admissible(b, e)
    ensures Admissible(b, e) ==> RunBuffer(b, [e]) == Perform(b, e)
  {
    assert [e][1..] == [];
    if Admissible(b, e) {
      match Perform(b, e)
      case Ok(b') => assert RunBuffer(b', []) == Ok(b');
      case Panic =>
    }
  }

  /** Inserts or overwrites with the bytes of a character; false is a panic. */
  method TransitionAsciiInsertion(ch: char, buf: CurrentBuffer, how: InsertionMode) returns (ok: bool)
    requires WellPlaced(buf.Value().view)
    requires Admissible(buf.Value(), TextEffect(buf.Value().view, how, Encode(ch)))
    modifies buf, buf.selection, buf.history
    ensures var r := Perform(old(buf.Value()), TextEffect(old(buf.Value()).view, how, Encode(ch)));
            && (ok <==> r.Ok?) && (ok ==> r == Ok(buf.Value()))
    ensures ok ==> buf.registers == old(buf.registers)
  {
    var bytes := Encode(ch);
    if how == Overwrite {
      var d := Operations.Change(buf.data, buf.selection.regions, bytes);
      ok := buf.ApplyIncompleteDelta(d);
    } else {
      var d := InsertText(buf.data, buf.selection.regions, bytes);
      ok := buf.ApplyIncompleteDelta(d);
    }
  }

  /** Enters one hex digit: the first half of a byte or its second. */
  method TransitionHexInsertion(digit: Byte, buf: CurrentBuffer, how: InsertionMode, half: Option<Byte>)
    returns (ok: bool, next: Option<Byte>)
    requires WellPlaced(buf.Value().view)
    requires Admissible(buf.Value(), HexEffect(buf.Value().view, how, half, digit))
    modifies buf, buf.selection, buf.history
    ensures var r := Perform(old(buf.Value()), HexEffect(old(buf.Value()).view, how, half, digit));
            && (ok <==> r.Ok?) && (ok ==> r == Ok(buf.Value()))
    ensures next == if half.Some? then None else Some(digit << 4)
    ensures ok ==> buf.registers == old(buf.registers)
  {
    var toInsert := if half.Some? then half.value | digit else digit << 4;
    if half.None? {
      if how == Overwrite {
        var d := OverwriteHalf(buf.data, buf.selection.regions, toInsert);
        ok := buf.ApplyIncompleteDeltaOffsetCarets(d, -1, 0);
      } else {
        var d := InsertText(buf.data, buf.selection.regions, [toInsert]);
        ok := buf.ApplyIncompleteDeltaOffsetCarets(d, -1, 0);
      }
      next := Some(toInsert);
    } else {
      var d := Operations.Change(buf.data, buf.selection.regions, [toInsert]);
      ok := buf.ApplyIncompleteDelta(d);
      next := None;
    }
  }

  /** A key in insert mode. */
  method InsertTransition(mode: Mode, key: Key, buf: CurrentBuffer, bytesPerLine: nat) returns (ok: bool, next: Mode)
    requires mode.Inserting? && WellPlaced(buf.Value().view)
    requires AdmissibleRun(buf.Value(), InsertEffects(buf.Value().view, mode, key, bytesPerLine))
    modifies buf, buf.selection, buf.history
    ensures var r := RunBuffer(old(buf.Value()), InsertEffects(old(buf.Value()).view, mode, key, bytesPerLine));
            && (ok <==> r.Ok?) && (ok ==> r == Ok(buf.Value()))
    ensures next == InsertNext(old(buf.Value()).view, mode, key)
    ensures ok ==> buf.registers == old(buf.registers)
  {
    ghost var b := buf.Value();
    ok, next := true, mode;
    if key.Exit? {
      RunOne(b, Commit);
      buf.CommitDelta();
      next := Normal;
    } else if key.InsertNull? {
      RunOne(b, PartialEdit(b.view, InsertEdits(b.view.selection.regions, [0]), 0));
      var d := InsertText(buf.data, buf.selection.regions, [0]);
      ok := buf.ApplyIncompleteDelta(d);
      next := mode.(half := None);
    } else if key.SwitchInputMode? {
      next := Inserting(mode.how, !mode.hex, None);
    } else if key.RemoveLast? || key.RemoveThis? {
      ok, next := EraseTransition(mode, key, buf, bytesPerLine);
    } else if key.MoveCaret? {
      next := mode.(half := None);
      if mode.half.Some? {
        var changed;
        ok, changed := MoveFromHalf(mode, key.direction, buf, bytesPerLine);
      } else {
        RunOne(b, Select(Singles(CaretMoved(buf.selection.regions, key.direction, bytesPerLine, |buf.data|, false))));
        var changed;
        ok, changed := CaretTransition(key, buf, bytesPerLine);
      }
    } else if key.TypeChar? {
      ok, next := TypeTransition(mode, key.ch, buf, bytesPerLine);
    } else if key.ScrollUp? {
      RunOne(b, Select(Singles(Moved(buf.selection.regions, Up, bytesPerLine, |buf.data|, 1))));
      var changed;
      ok, changed := CaretTransition(key, buf, bytesPerLine);
    }
  }

  /** A typed character: its bytes, or a hex digit if it is one. */
  method TypeTransition(mode: Mode, ch: char, buf: CurrentBuffer, bytesPerLine: nat) returns (ok: bool, next: Mode)
    requires mode.Inserting? && WellPlaced(buf.Value().view)
    requires AdmissibleRun(buf.Value(), InsertEffects(buf.Value().view, mode, TypeChar(ch), bytesPerLine))
    modifies buf, buf.selection, buf.history
    ensures var r := RunBuffer(old(buf.Value()), InsertEffects(old(buf.Value()).view, mode, TypeChar(ch), bytesPerLine));
            && (ok <==> r.Ok?) && (ok ==> r == Ok(buf.Value()))
    ensures next == InsertNext(old(buf.Value()).view, mode, TypeChar(ch))
    ensures ok ==> buf.registers == old(buf.registers)
  {
    ghost var b := buf.Value();
    ok, next := true, mode;
    if !mode.hex {
      RunOne(b, TextEffect(b.view, mode.how, Encode(ch)));
      ok := TransitionAsciiInsertion(ch, buf, mode.how);
    } else if HexDigit(ch).Some? {
      RunOne(b, HexEffect(b.view, mode.how, mode.half, HexDigit(ch).value));
      var half;
      ok, half := TransitionHexInsertion(HexDigit(ch).value, buf, mode.how, mode.half);
      next := mode.(half := half);
    }
  }

  /** Backspace and Delete: both take back a half-typed byte. */
  method EraseTransition(mode: Mode, key: Key, buf: CurrentBuffer, bytesPerLine: nat) returns (ok: bool, next: Mode)
    requires mode.Inserting? && WellPlaced(buf.Value().view) && (key.RemoveLast? || key.RemoveThis?)
    requires AdmissibleRun(buf.Value(), InsertEffects(buf.Value().view, mode, key, bytesPerLine))
    modifies buf, buf.selection, buf.history
    ensures var r := RunBuffer(old(buf.Value()), InsertEffects(old(buf.Value()).view, mode, key, bytesPerLine));
            && (ok <==> r.Ok?) && (ok ==> r == Ok(buf.Value()))
    ensures next == InsertNext(old(buf.Value()).view, mode, key)
    ensures ok ==> buf.registers == old(buf.registers)
  {
    if buf.data == [] {
      return true, mode;
    }
    ghost var b := buf.Value();
    RunOne(b, InsertEffects(b.view, mode, key, bytesPerLine)[0]);
    var d;
    if key.RemoveLast? && mode.half.None? {
      d := Backspace(buf.data, buf.selection.regions);
    } else {
      d := DeleteCursor(buf.data, buf.selection.regions);
    }
    ok := buf.ApplyIncompleteDelta(d);
    next := mode.(half := None);
  }

  /** Replaces the regions one by one. */
  method MoveSelections(rs: seq<Region>, buf: CurrentBuffer) returns (ok: bool, changed: seq<Interval>)
    requires |rs| == |buf.selection.regions|
    modifies buf.selection
    ensures var r := Perform(old(buf.Value()), Select(Singles(rs)));
            && (ok <==> r.Ok?) && (ok ==> r == Ok(buf.Value()))
    ensures ok && old(buf.selection.mainSelection) < |rs| && StartsAscend(rs) ==>
              && Complete(old(buf.selection.Value()), buf.selection.Value(), changed)
              && ReportsBoth(old(buf.selection.regions), buf.selection.regions, changed)
  {
    ghost var before, main := buf.selection.regions, buf.selection.mainSelection;
    FlattenSingles(rs);
    ok, changed := buf.MapSelections(Singles(rs));
    if ok && main < |rs| && StartsAscend(rs) {
      MapCanonical(Singles(rs), main);
    }
  }

  /** Exactly the positions of the old regions and of the new ones are reported. */
  ghost predicate ReportsBoth(before: seq<Region>, after: seq<Region>, changed: seq<Interval>) {
    forall p :: Reported(changed, p) <==> Covers(before, p) || Covers(after, p)
  }

  /** The keys of insert mode that only move the carets. */
  method CaretTransition(key: Key, buf: CurrentBuffer, bytesPerLine: nat) returns (ok: bool, changed: seq<Interval>)
    requires WellPlaced(buf.Value().view) && (key.MoveCaret? || key.ScrollUp?)
    modifies buf.selection
    ensures var v := old(buf.Value()).view;
            var rs := if key.MoveCaret? then CaretMoved(v.selection.regions, key.direction, bytesPerLine, |v.data|, false)
                      else Moved(v.selection.regions, Up, bytesPerLine, |v.data|, 1);
            var r := Perform(old(buf.Value()), Select(Singles(rs)));
            && (ok <==> r.Ok?) && (ok ==> r == Ok(buf.Value()))
    ensures ok ==> Complete(old(buf.selection.Value()), buf.selection.Value(), changed)
  {
    if key.MoveCaret? {
      CaretMoveInOrder(buf.Value().view, key.direction, bytesPerLine, false);
      ok, changed := MoveSelections(CaretMoved(buf.selection.regions, key.direction, bytesPerLine, |buf.data|, false), buf);
    } else {
      MoveInOrder(buf.Value().view, Up, bytesPerLine, 1);
      ok, changed := MoveSelections(Moved(buf.selection.regions, Up, bytesPerLine, |buf.data|, 1), buf);
    }
  }

  /** The regions `mid` are those between two steps of which only the second is reported.
      What the first step deselected is missed, unless the second selects it again. */
  ghost predicate StaysReported(before: seq<Region>, mid: seq<Region>, after: seq<Region>) {
    forall p :: Covers(before, p) ==> Covers(mid, p) || Covers(after, p)
  }

  lemma {:induction false} SecondReport(before: Sel, mid: seq<Region>, after: Sel, changed: seq<Interval>)
    requires ReportsBoth(mid, after.regions, changed)
    ensures Complete(before, after, changed) <==> StaysReported(before.regions, mid, after.regions)
  {
    if StaysReported(before.regions, mid, after.regions) {
      CompleteIf(before, after, changed);
    }
    if Complete(before, after, changed) {
      forall p | Covers(before.regions, p) ensures Covers(mid, p) || Covers(after.regions, p) {
        assert !Covers(after.regions, p) ==> Redrawn(before, after, p);
      }
    }
  }

  /** The view after a half-typed byte has been completed with a zero digit. */
  function Completed(v: View, mode: Mode): Outcome<View>
    requires WellPlaced(v) && mode.Inserting? && mode.half.Some?
  {
    HexEffectFits(v, mode.how, mode.half, 0);
    EditView(v, HexEffect(v, mode.how, mode.half, 0).delta, 0, 0)
  }

  /** Completes a half-typed byte with a zero digit and then moves. Only the move is reported. */
  method MoveFromHalf(mode: Mode, direction: Direction, buf: CurrentBuffer, bytesPerLine: nat)
    returns (ok: bool, changed: seq<Interval>)
    requires mode.Inserting? && mode.half.Some? && WellPlaced(buf.Value().view)
    requires AdmissibleRun(buf.Value(), CompleteAndMove(buf.Value().view, mode, direction, bytesPerLine))
    modifies buf, buf.selection, buf.history
    ensures var r := RunBuffer(old(buf.Value()), CompleteAndMove(old(buf.Value()).view, mode, direction, bytesPerLine));
            && (ok <==> r.Ok?) && (ok ==> r == Ok(buf.Value()))
    ensures ok ==> buf.registers == old(buf.registers)
    ensures ok ==>
              var v, mid := old(buf.Value()).view, Completed(old(buf.Value()).view, mode);
              && mid.Ok?
              && (Complete(v.selection, buf.selection.Value(), changed) <==>
                  StaysReported(v.selection.regions, mid.value.selection.regions, buf.selection.regions))
  {
    changed := [];
    ghost var b := buf.Value();
    ghost var es := CompleteAndMove(b.view, mode, direction, bytesPerLine);
    ghost var complete := HexEffect(b.view, mode.how, mode.half, 0);
    RunOne(b, complete);
    assert es[0] == complete;
    var next;
    ok, next := TransitionHexInsertion(0, buf, mode.how, mode.half);
    if ok {
      assert es[1..] == [es[1]];
      RunOne(buf.Value(), es[1]);
      ghost var mid := buf.selection.regions;
      HexSound(b.view, mode.how, mode.half, 0);
      CaretMoveInOrder(buf.Value().view, direction, bytesPerLine, true);
      ok, changed := MoveSelections(CaretMoved(buf.selection.regions, direction, bytesPerLine, |buf.data|, true), buf);
      if ok {
        SecondReport(b.view.selection, mid, buf.selection.Value(), changed);
      }
    }
  }

  /** Where completing the byte takes a single region on it. */
  lemma {:induction false} CompletedOne(v: View, mode: Mode, c: nat)
    requires mode.Inserting? && mode.half.Some? && c + 1 < |v.data| && v.selection == Sel([Region(c, c + 1, true)], 0)
    ensures var mid := Completed(v, mode);
            mid.Ok? && |mid.value.data| == |v.data| && mid.value.selection == Sel([Region(c + 1, c + 1, true)], 0)
  {
    var hs, n, b := v.selection.regions, |v.data|, mode.half.value | 0;
    var es := ChangeEdits(hs, [b]);
    ChangeOrdered(hs, [b], n);
    ChangeMeaning(v.data, hs, [b]);
    BuildApplies(es, v.data);
    ChangedEnds(hs, b, n, 0);
    var out := [At(c + 1, c + 1)];
    assert CarryRegions(Build(es, n), n, hs, 0, 0) == out;
    MapSinglesApart(out, 0);
    assert Flagged(out, 0) == [Region(c + 1, c + 1, true)];
  }

  /** Moving right from a half-typed byte, with more bytes after it, deselects it unreported. */
  lemma {:induction false} HalfMoveMisses(v: View, mode: Mode, bytesPerLine: nat, c: nat)
    requires mode.Inserting? && mode.half.Some? && c + 1 < |v.data| && v.selection == Sel([Region(c, c + 1, true)], 0)
    ensures var mid := Completed(v, mode);
            && mid.Ok?
            && var rs := mid.value.selection.regions;
            && var after := SelectView(mid.value, Singles(CaretMoved(rs, Right, bytesPerLine, |mid.value.data|, true)));
            && after.Ok? && !StaysReported(v.selection.regions, rs, after.value.selection.regions)
  {
    CompletedOne(v, mode, c);
    var here := [Region(c + 1, c + 1, true)];
    var out := [At(c + 1, c + 1)];
    assert CaretMoved(here, Right, bytesPerLine, |v.data|, true) == out;
    MapSinglesApart(out, 0);
    assert Flagged(out, 0) == here;
    assert v.selection.regions[0].Holds(c) && !Covers(here, c);
  }

  /** The keys that map every region to another one. */
  method ReshapeTransition(key: Key, buf: CurrentBuffer, bytesPerLine: nat) returns (ok: bool, changed: seq<Interval>)
    requires WellPlaced(buf.Value().view) && Reshaped(buf.Value().view, key, bytesPerLine).Some?
    modifies buf.selection
    ensures var r := Perform(old(buf.Value()), Select(Singles(Reshaped(old(buf.Value()).view, key, bytesPerLine).value)));
            && (ok <==> r.Ok?) && (ok ==> r == Ok(buf.Value()))
    ensures ok ==> Complete(old(buf.selection.Value()), buf.selection.Value(), changed)
  {
    ReshapedAscends(buf.Value().view, key, bytesPerLine);
    var rs, n := buf.selection.regions, |buf.data|;
    var out := rs;
    match key {
      case Move(direction, count) => out := Moved(rs, direction, bytesPerLine, n, count);
      case Extend(direction, count) => out := Extended(rs, direction, bytesPerLine, n, count);
      case SwapCaret => out := Swapped(rs);
      case CollapseSelection => out := Collapsed(rs);
      case JumpTo(offset) => out := JumpedTo(rs, offset);
      case ExtendTo(offset) => out := ExtendedTo(rs, offset);
      case StartInsert(_) => out := AllBackward(rs);
      case StartAppend(_) => out := Appending(rs, bytesPerLine, n);
      case ScrollUp => out := Moved(rs, Up, bytesPerLine, n, 1);
    }
    ok, changed := MoveSelections(out, buf);
  }

  /** The keys that choose another main region or take regions away. Selecting everything
      misses the overflow position in its report; the other reports are complete. */
  method ReselectTransition(key: Key, buf: CurrentBuffer) returns (changed: seq<Interval>)
    requires WellPlaced(buf.Value().view) && Reselects(key)
    modifies buf.selection
    ensures buf.Value() == Perform(old(buf.Value()), Reselect(Reselected(old(buf.Value()).view, key))).value
    ensures Complete(old(buf.selection.Value()), buf.selection.Value(), changed) <==> !Misses(old(buf.Value()).view, key)
  {
    ghost var s := buf.selection.Value();
    if key.NextMain? || key.PreviousMain? {
      changed := MainTransition(key.count, key.NextMain?, buf);
    } else if key.SelectAll? {
      buf.selection.SelectAll(|buf.data|);
      changed := [Interval(0, |buf.data|)];
      AllSelectedReport(s, |buf.data|);
    } else {
      changed := CountTransition(key.count, key.RetainMain?, buf);
    }
  }

  /** Makes a later or an earlier region the main one. */
  method MainTransition(count: nat, next: bool, buf: CurrentBuffer) returns (changed: seq<Interval>)
    requires WellPlaced(buf.Value().view)
    modifies buf.selection
    ensures var s := old(buf.Value()).view.selection;
            var main := Selection.Around(if next then s.main + count else s.main - count, |s.regions|);
            buf.Value() == Perform(old(buf.Value()), Reselect(Selection.MainMoved(s, main))).value
    ensures Complete(old(buf.selection.Value()), buf.selection.Value(), changed)
  {
    ghost var s := buf.selection.Value();
    if next {
      changed := buf.SelectNext(count);
    } else {
      changed := buf.SelectPrev(count);
    }
    MainMovedReport(s, buf.selection.mainSelection);
  }

  lemma {:induction false} MainMovedReport(s: Sel, main: nat)
    requires WellFormed(s) && main < |s.regions|
    ensures Complete(s, Selection.MainMoved(s, main), [Span(s.regions[s.main]), Span(s.regions[main])])
  {
    var s' := Selection.MainMoved(s, main);
    Selection.MainMovedForm(s, main);
    assert |s'.regions| == |s.regions| && forall i :: 0 <= i < |s.regions| ==>
      s'.regions[i].caret == s.regions[i].caret && s'.regions[i].tail == s.regions[i].tail;
    forall p ensures Covers(s'.regions, p) <==> Covers(s.regions, p) {
      SameCover(s.regions, s'.regions, p);
    }
    assert Span(s'.regions[s'.main]) == Span(s.regions[main]);
    MainSpansComplete(s, s');
  }

  lemma SameCover(a: seq<Region>, b: seq<Region>, p: int)
    requires |a| == |b| && forall i :: 0 <= i < |a| ==> a[i].caret == b[i].caret && a[i].tail == b[i].tail
    ensures Covers(a, p) <==> Covers(b, p)
  {
    if i :| 0 <= i < |a| && a[i].Holds(p) {
      assert b[i].Holds(p);
    }
    if i :| 0 <= i < |b| && b[i].Holds(p) {
      assert a[i].Holds(p);
    }
  }

  /** Keeps or removes the region that a count means. */
  method CountTransition(count: nat, retain: bool, buf: CurrentBuffer) returns (changed: seq<Interval>)
    requires WellPlaced(buf.Value().view)
    modifies buf.selection
    ensures var s := old(buf.Value()).view.selection;
            var s' := if retain then Selection.Retained(s, Counted(s, count)) else Selection.Removed(s, Counted(s, count));
            buf.Value() == Perform(old(buf.Value()), Reselect(s')).value
    ensures Complete(old(buf.selection.Value()), buf.selection.Value(), changed)
  {
    ghost var s := buf.selection.Value();
    var index := if count > 0 then count - 1 else buf.selection.mainSelection;
    AroundInside(buf.selection.mainSelection, |buf.selection.regions|);
    if retain {
      changed := buf.RetainSelection(index);
    } else {
      changed := buf.RemoveSelection(index);
    }
    FewerReport(s, Counted(s, count), retain);
  }

  lemma {:induction false} FewerReport(s: Sel, index: nat, retain: bool)
    requires WellFormed(s) && index < |s.regions|
    ensures var s' := if retain then Selection.Retained(s, index) else Selection.Removed(s, index);
            Complete(s, s', Spans(s.regions))
  {
    var s' := if retain then Selection.Retained(s, index) else Selection.Removed(s, index);
    forall p | Covers(s'.regions, p) ensures Covers(s.regions, p) {
      if retain {
        assert s.regions[index].Holds(p);
      } else {
        RemovedCover(s, index, p);
      }
    }
    SpansComplete(s, s');
  }

  lemma {:induction false} RemovedCover(s: Sel, index: nat, p: int)
    requires WellFormed(s) && index < |s.regions| && Covers(Selection.Removed(s, index).regions, p)
    ensures Covers(s.regions, p)
  {
    if |s.regions| > 1 {
      var out := Selection.Removed(s, index).regions;
      var i :| 0 <= i < |out| && out[i].Holds(p);
      RemovedEnd(s, index, i);
      assert s.regions[if i < index then i else i + 1].Holds(p);
    }
  }

  lemma {:induction false} RemovedEnd(s: Sel, index: nat, i: nat)
    requires WellFormed(s) && index < |s.regions| && |s.regions| > 1 && i < |Selection.Removed(s, index).regions|
    ensures |Selection.Removed(s, index).regions| == |s.regions| - 1
    ensures var r, r' := s.regions[if i < index then i else i + 1], Selection.Removed(s, index).regions[i];
            r'.Lo() == r.Lo() && r'.Hi() == r.Hi()
  {
    Selection.RemovedAt(s, index);
  }

  lemma AroundInside(i: nat, n: nat)
    requires i < n
    ensures Selection.Around(i, n) == i
  {
  }

  /** Selecting everything with a region that reaches the overflow position. */
  predicate Misses(v: View, key: Key) {
    key.SelectAll? && v.data != [] && Covers(v.selection.regions, |v.data|)
  }

  /** The keys that change which regions there are. */
  method RegionTransition(key: Key, buf: CurrentBuffer) returns (ok: bool, changed: seq<Interval>)
    requires WellPlaced(buf.Value().view)
    modifies buf.selection
    ensures var es := RegionEffects(old(buf.Value()).view, key);
            if es == [] then ok && buf.Value() == old(buf.Value())
            else |es| == 1 && Admissible(old(buf.Value()), es[0])
                 && var r := Perform(old(buf.Value()), es[0]);
                 (ok <==> r.Ok?) && (ok ==> r == Ok(buf.Value()))
    ensures ok ==> (Complete(old(buf.selection.Value()), buf.selection.Value(), changed) <==> !Misses(old(buf.Value()).view, key))
  {
    ok, changed := true, [];
    if key.SplitWidth? {
      if key.step == 0 {
        return false, [];
      }
      WidthKeeps(buf.selection.Value(), key.step);
      ok, changed := buf.MapSelections(WidthOutputs(buf.selection.regions, key.step));
      CompleteIf(old(buf.selection.Value()), buf.selection.Value(), changed);
    } else if key.SplitAt? {
      ok, changed := SplitTransition(key.pattern, buf);
    } else if key.CollapseTo? {
      ok, changed := CollapseTransition(key.pattern, buf);
    } else if Reselects(key) {
      changed := ReselectTransition(key, buf);
    }
  }

  method SplitTransition(pattern: Doc, buf: CurrentBuffer) returns (ok: bool, changed: seq<Interval>)
    requires WellPlaced(buf.Value().view)
    modifies buf.selection
    ensures var es := SplitEffects(old(buf.Value()).view, pattern);
            if es == [] then ok && buf.Value() == old(buf.Value())
            else |es| == 1 && Admissible(old(buf.Value()), es[0])
                 && var r := Perform(old(buf.Value()), es[0]);
                 (ok <==> r.Ok?) && (ok ==> r == Ok(buf.Value()))
    ensures ok ==> Complete(old(buf.selection.Value()), buf.selection.Value(), changed)
  {
    var ms, refused;
    ms, refused, ok, changed := SplitBySearch(pattern, buf);
    if pattern != [] {
      MatchesUnique(old(buf.data), pattern, old(buf.selection.regions), ms);
    }
    if refused {
      ok := true;
    }
  }

  method CollapseTransition(pattern: Doc, buf: CurrentBuffer) returns (ok: bool, changed: seq<Interval>)
    requires WellPlaced(buf.Value().view)
    modifies buf.selection
    ensures var es := CollapseEffects(old(buf.Value()).view, pattern);
            if es == [] then ok && buf.Value() == old(buf.Value())
            else |es| == 1 && Admissible(old(buf.Value()), es[0])
                 && var r := Perform(old(buf.Value()), es[0]);
                 (ok <==> r.Ok?) && (ok ==> r == Ok(buf.Value()))
    ensures ok ==> Complete(old(buf.selection.Value()), buf.selection.Value(), changed)
  {
    var ms, refused;
    ms, refused, ok, changed := CollapseBySearch(pattern, buf);
    if pattern != [] {
      MatchesUnique(old(buf.data), pattern, old(buf.selection.regions), ms);
    }
    if refused {
      ok := true;
    }
  }

  /** The keys that change the document. */
  method EditTransition(key: Key, buf: CurrentBuffer) returns (ok: bool)
    requires EditorInv(Editor(buf.Value(), buf.registers, Normal)) && EditsText(key)
    requires AdmissibleRun(buf.Value(), EditEffects(buf.Value().view, buf.registers, key))
    modifies buf, buf.selection, buf.history
    ensures var ed := Editor(old(buf.Value()), old(buf.registers), Normal);
            var r := RunBuffer(old(buf.Value()), EditEffects(old(buf.Value()).view, old(buf.registers), key));
            && (ok <==> r.Ok?) && (ok ==> r == Ok(buf.Value()) && buf.registers == RegistersAfter(ed, key))
  {
    ghost var b := buf.Value();
    ghost var es := EditEffects(b.view, buf.registers, key);
    if es != [] {
      RunOne(b, es[0]);
    }
    ok := true;
    if key.Delete? || key.Change? {
      ok := YankAndDelete(key.register, buf);
    } else if key.Paste? {
      ok := PasteFrom(key.register, key.after, key.count, buf);
    } else if key.UndoKey? {
      var _ := buf.PerformUndo();
    } else {
      var _ := buf.PerformRedo();
    }
  }

  /** A key in normal mode. */
  method NormalTransition(key: Key, buf: CurrentBuffer, bytesPerLine: nat) returns (ok: bool, next: Mode)
    requires EditorInv(Editor(buf.Value(), buf.registers, Normal))
    requires AdmissibleRun(buf.Value(), NormalEffects(buf.Value().view, buf.registers, key, bytesPerLine))
    modifies buf, buf.selection, buf.history
    ensures var ed := Editor(old(buf.Value()), old(buf.registers), Normal);
            var r := RunBuffer(old(buf.Value()), NormalEffects(old(buf.Value()).view, old(buf.registers), key, bytesPerLine));
            && (ok <==> r.Ok?) && (ok ==> r == Ok(buf.Value()) && buf.registers == RegistersAfter(ed, key))
    ensures next == NormalNext(key)
  {
    next := ModeAfter(key);
    if EditsText(key) {
      ok := EditTransition(key, buf);
    } else {
      var changed;
      ok, changed := SelectionTransition(key, buf, bytesPerLine);
      if key.Yank? {
        buf.YankSelections(key.register);
      }
    }
  }

  /** A key that changes the selection only. Its report is complete, but for selecting
      everything while a region reaches the overflow position. */
  method SelectionTransition(key: Key, buf: CurrentBuffer, bytesPerLine: nat) returns (ok: bool, changed: seq<Interval>)
    requires WellPlaced(buf.Value().view)
    modifies buf.selection
    ensures AdmissibleRun(old(buf.Value()), SelectionEffects(old(buf.Value()).view, key, bytesPerLine))
    ensures var r := RunBuffer(old(buf.Value()), SelectionEffects(old(buf.Value()).view, key, bytesPerLine));
            && (ok <==> r.Ok?) && (ok ==> r == Ok(buf.Value()))
    ensures key.Yank? ==> ok && buf.Value() == old(buf.Value())
    ensures ok ==> (Complete(old(buf.selection.Value()), buf.selection.Value(), changed) <==> !Misses(old(buf.Value()).view, key))
  {
    ghost var b := buf.Value();
    if Reshaped(buf.Value().view, key, bytesPerLine).Some? {
      RunOne(b, Select(Singles(Reshaped(b.view, key, bytesPerLine).value)));
      ok, changed := ReshapeTransition(key, buf, bytesPerLine);
    } else {
      ghost var es := RegionEffects(b.view, key);
      ok, changed := RegionTransition(key, buf);
      if es != [] {
        RunOne(b, es[0]);
        assert es == [es[0]];
      }
    }
  }

  method ModeAfter(key: Key) returns (next: Mode)
    ensures next == NormalNext(key)
  {
    next := Normal;
    if key.StartInsert? || key.Change? {
      next := Inserting(InsertionMode.Insert, key.hex, None);
    } else if key.StartAppend? {
      next := Inserting(Append, key.hex, None);
    } else if key.StartOverwrite? {
      next := Inserting(Overwrite, key.hex, None);
    }
  }

  /** Pastes a register, or nothing if it was never filled. */
  method PasteFrom(name: char, after: bool, count: nat, buf: CurrentBuffer) returns (ok: bool)
    requires WellPlaced(buf.Value().view) && RegistersFilled(buf.registers)
    requires Admissible(buf.Value(), FinalEdit(buf.Value().view,
               PasteEdits(buf.selection.regions, 0, Register(buf.registers, name), after, count, |buf.data|)))
    modifies buf, buf.selection, buf.history
    ensures var v := old(buf.Value()).view;
            var es := PasteEdits(v.selection.regions, 0, Register(old(buf.registers), name), after, count, |v.data|);
            var r := Perform(old(buf.Value()), FinalEdit(v, es));
            (ok <==> r.Ok?) && (ok ==> r == Ok(buf.Value()) && buf.registers == old(buf.registers))
  {
    var entries := if name in buf.registers then buf.registers[name] else [[]];
    var d := Operations.Paste(buf.data, buf.selection.regions, entries, after, count);
    ok := buf.ApplyDelta(d);
  }

  /** Copies the regions into a register and, unless the document is empty, deletes them. */
  method YankAndDelete(register: char, buf: CurrentBuffer) returns (ok: bool)
    requires WellPlaced(buf.Value().view)
    requires buf.data != [] ==> Admissible(buf.Value(), FinalEdit(buf.Value().view, DeletionEdits(buf.selection.regions)))
    modifies buf, buf.selection, buf.history
    ensures old(buf.data) == [] ==> ok && buf.Value() == old(buf.Value())
    ensures old(buf.data) != [] ==>
              var r := Perform(old(buf.Value()), FinalEdit(old(buf.Value()).view, DeletionEdits(old(buf.selection.regions))));
              (ok <==> r.Ok?) && (ok ==> r == Ok(buf.Value()))
    ensures ok ==> buf.registers == old(buf.registers)[register := Yanked(old(buf.data), old(buf.selection.regions))]
  {
    buf.YankSelections(register);
    if buf.data == [] {
      return true;
    }
    var d := Deletion(buf.data, buf.selection.regions);
    ok := buf.ApplyDelta(d);
  }
}
