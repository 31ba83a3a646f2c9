/** What every run of key presses keeps. */
module ModeLaws {
  import opened Prelude
  import opened Characters
  import opened Delta
  import opened Builder
  import opened Region
  import opened Selections
  import opened SelectionLaws
  import opened Transport
  import opened Operations
  import opened HexTyping
  import opened History
  import opened Timeline
  import opened Split
  import opened WidthSplit
  import opened Modes
  import Selection

  // ----- edits keep the view well placed

  /** The carets may be shifted back by one, if none is carried to the very start. */
  ghost predicate ShiftFits(v: View, d: Delta, shift: int) {
    && WellPlaced(v) && ValidOn(d, v.data) && -1 <= shift <= 0
    && (shift < 0 ==> forall i :: 0 <= i < |v.selection.regions| ==>
                        TransformEls(d.els, v.selection.regions[i].caret, true) > 0)
  }

  lemma {:induction false} ShiftedAt(v: View, d: Delta, shift: int, i: nat)
    requires ShiftFits(v, d, shift) && i < |v.selection.regions|
    ensures var r, out := v.selection.regions[i], CarryRegions(d, |v.data|, v.selection.regions, shift, 0)[i];
            && out.Hi() <= NewLen(d) && !out.main
            && out.caret == TransformEls(d.els, r.caret, true) + shift && out.tail == TransformEls(d.els, r.tail, true)
  {
    CarryPlain(d, v.selection.regions[i].caret);
    CarryPlain(d, v.selection.regions[i].tail);
  }

  /** Regions carried that way start in order and stay in bounds. */
  lemma {:induction false} ShiftedInOrder(v: View, d: Delta, shift: int)
    requires ShiftFits(v, d, shift)
    ensures var out := CarryRegions(d, |v.data|, v.selection.regions, shift, 0);
            StartsAscend(out) && InBounds(out, NewLen(d)) && Unflagged(out)
  {
    var rs, out := v.selection.regions, CarryRegions(d, |v.data|, v.selection.regions, shift, 0);
    forall i | 0 <= i < |rs| ensures out[i].Hi() <= NewLen(d) && !out[i].main {
      ShiftedAt(v, d, shift, i);
    }
    forall i, j | 0 <= i < j < |rs| ensures out[i].Lo() <= out[j].Lo() {
      ShiftedAt(v, d, shift, i);
      ShiftedAt(v, d, shift, j);
      TransformMonotone(d.els, rs[i].caret, rs[j].caret);
      TransformMonotone(d.els, rs[i].caret, rs[j].tail);
    }
  }

  /** An edit panics exactly if it makes regions clash, and else leaves the view well placed. */
  lemma {:induction false} ShiftedCarry(v: View, d: Delta, shift: int)
    requires ShiftFits(v, d, shift)
    ensures var r := EditView(v, d, shift, 0);
            && (r.Panic? <==> Clash(CarryRegions(d, |v.data|, v.selection.regions, shift, 0)))
            && (r.Ok? ==> WellPlaced(r.value))
  {
    ApplyElsLength(d.els, 0, v.data);
    var out, main := CarryRegions(d, |v.data|, v.selection.regions, shift, 0), v.selection.main;
    ShiftedInOrder(v, d, shift);
    if NewLen(d) == 0 {
      CursorsNoClash(out);
    } else {
      FlattenSingles(out);
      FlattenSinglesPrefix(out, main + 1);
      MapCanonical(Singles(out), main);
      if MapSelections(Singles(out), main).Ok? {
        CoverInBounds(MapSelections(Singles(out), main).value.regions, out, NewLen(d));
      }
    }
  }

  lemma CursorsNoClash(rs: seq<Region>)
    requires InBounds(rs, 0)
    ensures !Clash(rs)
  {
  }

  /** A caret at or after an edit that inserts something is not carried to the very start. */
  lemma {:induction false} CaretPastText(es: seq<Edit>, n: nat, x: nat)
    requires Ordered(es, 0, n) && es != [] && es[0].text != [] && es[0].beg <= x
    ensures TransformEls(Build(es, n).els, x, true) > 0
  {
    BuildTransform(es, 0, n, x);
    ShiftedNat(es[1..], es[0].end, n, Max(x, es[0].end));
  }

  /** An edit of ours: it fits the document and leaves the view well placed. */
  ghost predicate Sound(v: View, e: Effect) {
    && e.Edit? && ValidOn(e.delta, v.data)
    && var r := EditView(v, e.delta, e.caretShift, e.tailShift);
       r.Ok? ==> WellPlaced(r.value)
  }

  lemma {:induction false} OrderedSound(v: View, es: seq<Edit>, final: bool)
    requires WellPlaced(v) && Ordered(es, 0, |v.data|)
    ensures Sound(v, Effect.Edit(Build(es, |v.data|), 0, 0, final))
  {
    BuildApplies(es, v.data);
    ShiftedCarry(v, Build(es, |v.data|), 0);
  }

  /** An edit that leaves the carets where they are carried to: when it panics. */
  lemma {:induction false} OrderedPanics(v: View, es: seq<Edit>)
    requires WellPlaced(v) && Ordered(es, 0, |v.data|)
    ensures ValidOn(Build(es, |v.data|), v.data)
    ensures EditView(v, Build(es, |v.data|), 0, 0).Panic? <==>
            Clash(CarryRegions(Build(es, |v.data|), |v.data|, v.selection.regions, 0, 0))
  {
    BuildApplies(es, v.data);
    ShiftedCarry(v, Build(es, |v.data|), 0);
  }

  lemma {:induction false} FirstDigitFits(v: View, how: InsertionMode, digit: Byte)
    requires WellPlaced(v)
    ensures ShiftFits(v, HexEffect(v, how, None, digit).delta, -1)
  {
    var rs, n := v.selection.regions, |v.data|;
    HexEffectFits(v, how, None, digit);
    var es := if how == Overwrite then OverwriteHalfEdits(v.data, rs, digit << 4) else InsertEdits(rs, [digit << 4]);
    OverwriteHalfOrdered(v.data, rs, digit << 4);
    InsertOrdered(rs, [digit << 4], n);
    forall i | 0 <= i < |rs| ensures TransformEls(Build(es, n).els, rs[i].caret, true) > 0 {
      assert i > 0 ==> rs[0].Hi() < rs[i].Lo();
      CaretPastText(es, n, rs[i].caret);
    }
  }

  lemma {:induction false} HexSound(v: View, how: InsertionMode, half: Option<Byte>, digit: Byte)
    requires WellPlaced(v)
    ensures Sound(v, HexEffect(v, how, half, digit))
  {
    var rs, n := v.selection.regions, |v.data|;
    HexEffectFits(v, how, half, digit);
    var d := HexEffect(v, how, half, digit).delta;
    if half.None? {
      FirstDigitFits(v, how, digit);
      ShiftedCarry(v, d, -1);
    } else {
      ShiftedCarry(v, d, 0);
    }
  }

  lemma {:induction false} TextSound(v: View, how: InsertionMode, bytes: Doc)
    requires WellPlaced(v)
    ensures Sound(v, TextEffect(v, how, bytes))
  {
    var rs, n := v.selection.regions, |v.data|;
    ChangeOrdered(rs, bytes, n);
    InsertOrdered(rs, bytes, n);
    OrderedSound(v, if how == Overwrite then ChangeEdits(rs, bytes) else InsertEdits(rs, bytes), false);
  }

  // ----- selections stay well placed

  /** New regions in order and in bounds, one for each old one. */
  predicate InOrder(v: View, rs: seq<Region>) {
    && |rs| == |v.selection.regions|
    && StartsAscend(rs) && InBounds(rs, |v.data|)
    && (Unflagged(rs) || rs == v.selection.regions)
  }

  lemma {:induction false} SelectSound(v: View, rs: seq<Region>)
    requires WellPlaced(v) && InOrder(v, rs)
    ensures var r := SelectView(v, Singles(rs));
            && (r.Panic? <==> Clash(rs))
            && (r.Ok? ==> WellPlaced(r.value))
  {
    var main := v.selection.main;
    FlattenSingles(rs);
    FlattenSinglesPrefix(rs, main + 1);
    MapCanonical(Singles(rs), main);
    if MapSelections(Singles(rs), main).Ok? {
      CoverInBounds(MapSelections(Singles(rs), main).value.regions, rs, |v.data|);
      if rs == v.selection.regions {
        MapSinglesApart(rs, main);
        assert Flagged(rs, main) == rs;
      }
    }
  }

  lemma MovedCaretMonotone(a: Region, b: Region, direction: Direction, bytesPerLine: nat, n: nat, count: nat)
    requires a.caret <= b.caret <= n
    ensures a.MovedCaret(direction, bytesPerLine, n, count) <= b.MovedCaret(direction, bytesPerLine, n, count) <= n
  {
    var step := bytesPerLine * count;
  }

  /** A simple move produces cursors that stand in order. */
  lemma {:induction false} MoveInOrder(v: View, direction: Direction, bytesPerLine: nat, count: nat)
    requires WellPlaced(v)
    ensures InOrder(v, Moved(v.selection.regions, direction, bytesPerLine, |v.data|, count))
  {
    var rs, n := v.selection.regions, |v.data|;
    if n == 0 {
      assert Moved(rs, direction, bytesPerLine, n, count) == rs;
    } else {
      forall i, j | 0 <= i <= j < |rs|
        ensures rs[i].MovedCaret(direction, bytesPerLine, n, count) <= rs[j].MovedCaret(direction, bytesPerLine, n, count) <= n {
        assert i < j ==> rs[i].Hi() < rs[j].Lo();
        MovedCaretMonotone(rs[i], rs[j], direction, bytesPerLine, n, count);
      }
    }
  }

  /** A simple extension produces regions that start in order. */
  lemma {:induction false} ExtendInOrder(v: View, direction: Direction, bytesPerLine: nat, count: nat)
    requires WellPlaced(v)
    ensures InOrder(v, Extended(v.selection.regions, direction, bytesPerLine, |v.data|, count))
  {
    var rs, n := v.selection.regions, |v.data|;
    if n == 0 {
      assert Extended(rs, direction, bytesPerLine, n, count) == rs;
    } else {
      forall i, j | 0 <= i <= j < |rs|
        ensures rs[i].MovedCaret(direction, bytesPerLine, n, count) <= rs[j].MovedCaret(direction, bytesPerLine, n, count) <= n
        ensures rs[i].tail <= rs[j].tail {
        assert i < j ==> rs[i].Hi() < rs[j].Lo();
        MovedCaretMonotone(rs[i], rs[j], direction, bytesPerLine, n, count);
      }
    }
  }

  /** The other keys that change the selection produce regions in order too. */
  lemma {:induction false} KeysInOrder(v: View, bytesPerLine: nat)
    requires WellPlaced(v)
    ensures InOrder(v, Swapped(v.selection.regions))
    ensures InOrder(v, Collapsed(v.selection.regions))
    ensures InOrder(v, AllBackward(v.selection.regions))
    ensures InOrder(v, Appending(v.selection.regions, bytesPerLine, |v.data|))
  {
    var rs := v.selection.regions;
    assert forall i, j :: 0 <= i < j < |rs| ==> rs[i].Hi() < rs[j].Lo();
  }

  lemma {:induction false} CaretMoveInOrder(v: View, direction: Direction, bytesPerLine: nat, wasHalf: bool)
    requires WellPlaced(v)
    ensures InOrder(v, CaretMoved(v.selection.regions, direction, bytesPerLine, |v.data|, wasHalf))
  {
    var rs, n := v.selection.regions, |v.data|;
    MoveInOrder(v, direction, bytesPerLine, 1);
    var once := Moved(rs, direction, bytesPerLine, n, 1);
    var twice := Moved(once, Left, bytesPerLine, n, 1);
    if n == 0 {
      assert once == rs && twice == rs;
    } else {
      assert forall i :: 0 <= i < |rs| ==> once[i].caret == once[i].tail <= n;
    }
  }

  // ----- one key press

  /** What holds of the editor between key presses. */
  predicate EditorInv(ed: Editor) {
    && WellPlaced(ed.buffer.view)
    && RegistersFilled(ed.registers)
    && (ed.buffer.history.partial.Some? ==> ed.mode.Inserting?)
  }

  /** Every view that undo and redo can bring back is well placed. */
  predicate Placed(t: Timeline) {
    && WellPlaced(t.now)
    && (forall i :: 0 <= i < |t.past| ==> WellPlaced(t.past[i]))
    && (forall i :: 0 <= i < |t.future| ==> WellPlaced(t.future[i]))
    && (t.pending.Some? ==> WellPlaced(t.pending.value))
  }

  /** A step that may be taken now and leaves the view well placed. */
  ghost predicate Good(t: Timeline, e: Effect) {
    && Timely(t, e)
    && (e.Edit? ==> Sound(t.now, e))
    && (e.Select? ==> SelectView(t.now, e.outputs).Ok? ==> WellPlaced(SelectView(t.now, e.outputs).value))
    && (e.Reselect? ==> WellPlaced(t.now.(selection := e.selection)))
  }

  lemma {:induction false} GoodKeepsPlaced(t: Timeline, e: Effect)
    requires Placed(t) && Good(t, e)
    ensures Advance(t, e).Ok? ==> Placed(Advance(t, e).value)
  {
  }

  lemma {:induction false} OneEffect(t: Timeline, e: Effect)
    requires Placed(t) && Good(t, e)
    ensures TimelyRun(t, [e]) && RunTimeline(t, [e]) == Advance(t, e)
    ensures RunTimeline(t, [e]).Ok? ==> Placed(RunTimeline(t, [e]).value)
  {
    assert [e][1..] == [];
    GoodKeepsPlaced(t, e);
    match Advance(t, e)
    case Ok(t') => assert RunTimeline(t', []) == Ok(t');
    case Panic =>
  }

  lemma {:induction false} SelectGood(t: Timeline, rs: seq<Region>)
    requires Placed(t) && InOrder(t.now, rs)
    ensures Good(t, Select(Singles(rs)))
  {
    SelectSound(t.now, rs);
  }

  /** Jumping and extending to an offset do not clamp it, so it has to lie in the document. A
      region that is removed must not stand before the main one, unless that is the last. */
  predicate InReach(v: View, key: Key) {
    var s := v.selection;
    && (key.JumpTo? || key.ExtendTo? ==> key.offset <= |v.data|)
    && (key.RemoveMain? && s.main + 1 < |s.regions| ==> s.main <= Counted(s, key.count))
  }

  predicate KeyInside(ed: Editor, key: Key) {
    ed.mode.Normal? ==> InReach(ed.buffer.view, key)
  }

  lemma {:induction false} OffsetInOrder(v: View, offset: nat)
    requires WellPlaced(v) && offset <= |v.data|
    ensures InOrder(v, JumpedTo(v.selection.regions, offset))
    ensures InOrder(v, ExtendedTo(v.selection.regions, offset))
  {
    var rs := v.selection.regions;
    assert forall i, j :: 0 <= i < j < |rs| ==> rs[i].Hi() < rs[j].Lo();
  }

  /** A map whose result is well formed and selects nothing new is good. */
  lemma {:induction false} PiecesGood(t: Timeline, outputs: seq<seq<Region>>)
    requires Placed(t)
    requires SelectView(t.now, outputs).Ok? ==>
               var s := SelectView(t.now, outputs).value.selection;
               WellFormed(s) && forall p :: Covers(s.regions, p) ==> Covers(t.now.selection.regions, p)
    ensures Good(t, Select(outputs))
  {
    if SelectView(t.now, outputs).Ok? {
      CoverInBounds(SelectView(t.now, outputs).value.selection.regions, t.now.selection.regions, |t.now.data|);
    }
  }

  lemma {:induction false} WidthGood(t: Timeline, step: nat)
    requires Placed(t)
    ensures Good(t, WidthEffect(t.now, step))
  {
    if step > 0 {
      WidthKeeps(t.now.selection, step);
      PiecesGood(t, WidthOutputs(t.now.selection.regions, step));
    }
  }

  lemma {:induction false} SplitGood(t: Timeline, pattern: Doc)
    requires Placed(t)
    ensures forall e :: e in SplitEffects(t.now, pattern) ==> Good(t, e)
    ensures |SplitEffects(t.now, pattern)| <= 1
  {
    if pattern != [] {
      var s, ms := t.now.selection, MatchesIn(t.now, pattern);
      SplitOutcome(s, ms);
      if ApplySplit(s, ms).Mapped? {
        PiecesGood(t, SplitOutputs(s.regions, ms));
      }
    }
  }

  lemma {:induction false} CollapseGood(t: Timeline, pattern: Doc)
    requires Placed(t)
    ensures forall e :: e in CollapseEffects(t.now, pattern) ==> Good(t, e)
    ensures |CollapseEffects(t.now, pattern)| <= 1
  {
    if pattern != [] {
      var s, ms := t.now.selection, MatchesIn(t.now, pattern);
      CollapseOutcome(s, ms);
      if ApplyCollapse(s, ms).Mapped? {
        forall p | Matched(ms, p) ensures Covers(s.regions, p) {
          MatchedCovered(s.regions, ms, p);
        }
        PiecesGood(t, CollapseOutputs(s.regions, ms));
      }
    }
  }

  lemma {:induction false} ReselectGood(t: Timeline, key: Key)
    requires Placed(t) && Reselects(key) && InReach(t.now, key)
    ensures Good(t, Reselect(Reselected(t.now, key)))
  {
    ReselectedFits(t.now, key);
  }

  predicate Fits(s: Sel, n: nat) {
    WellFormed(s) && InBounds(s.regions, n)
  }

  lemma {:induction false} ReselectedFits(v: View, key: Key)
    requires WellPlaced(v) && Reselects(key) && InReach(v, key)
    ensures Fits(Reselected(v, key), |v.data|)
  {
    var s, n, m := v.selection, |v.data|, |v.selection.regions|;
    if key.NextMain? || key.PreviousMain? {
      var main := Selection.Around(if key.NextMain? then s.main + key.count else s.main - key.count, m);
      MainMovedFits(s, main, n);
      assert Reselected(v, key) == Selection.MainMoved(s, main);
    } else if key.RetainMain? {
      RetainedFits(s, Counted(s, key.count), n);
      assert Reselected(v, key) == Selection.Retained(s, Counted(s, key.count));
    } else if key.RemoveMain? {
      RemovedFits(s, Counted(s, key.count), n);
      assert Reselected(v, key) == Selection.Removed(s, Counted(s, key.count));
    } else {
      AllFits(n);
      assert Reselected(v, key) == Selection.AllSelected(n);
    }
  }

  lemma AllFits(n: nat)
    ensures Fits(Selection.AllSelected(n), n)
  {
    Selection.AllSelectedForm(n);
  }

  lemma MainMovedFits(s: Sel, main: nat, n: nat)
    requires Fits(s, n) && main < |s.regions|
    ensures Fits(Selection.MainMoved(s, main), n)
  {
    Selection.MainMovedForm(s, main);
  }

  lemma RetainedFits(s: Sel, index: nat, n: nat)
    requires Fits(s, n) && index < |s.regions|
    ensures Fits(Selection.Retained(s, index), n)
  {
    Selection.RetainedForm(s, index, n);
  }

  lemma RemovedFits(s: Sel, index: nat, n: nat)
    requires Fits(s, n) && index < |s.regions|
    ensures Fits(Selection.Removed(s, index), n) <==> s.main <= index || s.main == |s.regions| - 1
  {
    Selection.RemovedForm(s, index);
    Selection.RemovedInBounds(s, index, n);
  }

  /** Those bounds are exact: a key that breaks them, and does not panic, leaves a selection
      that is out of bounds or has no single main region. */
  lemma {:induction false} InReachIff(v: View, key: Key)
    requires WellPlaced(v) && (key.JumpTo? || key.ExtendTo? || key.RemoveMain?)
    ensures var r := if key.RemoveMain? then Ok(v.(selection := Reselected(v, key)))
                     else SelectView(v, Singles(Reshaped(v, key, 0).value));
            r.Ok? ==> (WellPlaced(r.value) <==> InReach(v, key))
  {
    if key.RemoveMain? {
      RemovedFits(v.selection, Counted(v.selection, key.count), |v.data|);
    } else if key.offset <= |v.data| {
      OffsetInOrder(v, key.offset);
      SelectSound(v, Reshaped(v, key, 0).value);
    } else {
      var rs := v.selection.regions;
      assert forall i, j :: 0 <= i < j < |rs| ==> rs[i].Hi() < rs[j].Lo();
      OffsetOutside(v, Reshaped(v, key, 0).value, key.offset);
    }
  }

  lemma {:induction false} OffsetOutside(v: View, rs: seq<Region>, offset: nat)
    requires WellPlaced(v) && offset > |v.data| && |rs| == |v.selection.regions|
    requires forall i :: 0 <= i < |rs| ==> rs[i].caret == offset
    requires StartsAscend(rs)
    ensures var r := SelectView(v, Singles(rs));
            r.Ok? ==> !WellPlaced(r.value)
  {
    var main := v.selection.main;
    FlattenSingles(rs);
    MapCanonical(Singles(rs), main);
    match MapSelections(Singles(rs), main)
    case Panic =>
    case Ok(s) =>
      assert rs[0].Holds(offset);
      assert Covers(s.regions, offset);
      var i :| 0 <= i < |s.regions| && s.regions[i].Holds(offset);
      assert s.regions[i].Hi() > |v.data|;
  }

  /** Every key that reshapes the regions one by one leaves them in order. */
  lemma {:induction false} ReshapedInOrder(v: View, key: Key, bytesPerLine: nat)
    requires WellPlaced(v) && InReach(v, key)
    ensures Reshaped(v, key, bytesPerLine).Some? ==> InOrder(v, Reshaped(v, key, bytesPerLine).value)
  {
    if key.Move? {
      MoveInOrder(v, key.direction, bytesPerLine, key.count);
    } else if key.Extend? {
      ExtendInOrder(v, key.direction, bytesPerLine, key.count);
    } else if key.JumpTo? || key.ExtendTo? {
      OffsetInOrder(v, key.offset);
    } else if key.ScrollUp? {
      MoveInOrder(v, Up, bytesPerLine, 1);
    } else {
      KeysInOrder(v, bytesPerLine);
    }
  }

  /** They start in order wherever an offset lies. */
  lemma {:induction false} ReshapedAscends(v: View, key: Key, bytesPerLine: nat)
    requires WellPlaced(v)
    ensures Reshaped(v, key, bytesPerLine).Some? ==> StartsAscend(Reshaped(v, key, bytesPerLine).value)
  {
    if key.JumpTo? || key.ExtendTo? {
      var rs := v.selection.regions;
      assert forall i, j :: 0 <= i < j < |rs| ==> rs[i].Hi() < rs[j].Lo();
    } else if !key.RemoveMain? {
      ReshapedInOrder(v, key, bytesPerLine);
    }
  }

  lemma {:induction false} RegionEffectsGood(t: Timeline, key: Key)
    requires Placed(t) && InReach(t.now, key)
    ensures forall e :: e in RegionEffects(t.now, key) ==> Good(t, e)
    ensures |RegionEffects(t.now, key)| <= 1
  {
    if key.SplitWidth? {
      WidthGood(t, key.step);
    } else if key.SplitAt? {
      SplitGood(t, key.pattern);
    } else if key.CollapseTo? {
      CollapseGood(t, key.pattern);
    } else if Reselects(key) {
      ReselectGood(t, key);
    }
  }

  lemma {:induction false} EditKeyGood(t: Timeline, registers: Registers, key: Key)
    requires Placed(t) && t.pending.None? && RegistersFilled(registers) && EditsText(key)
    ensures forall e :: e in EditEffects(t.now, registers, key) ==> Good(t, e)
    ensures |EditEffects(t.now, registers, key)| <= 1
  {
    var v := t.now;
    var rs, n := v.selection.regions, |v.data|;
    if key.Paste? {
      PasteOrdered(rs, Register(registers, key.register), key.after, key.count, n);
      OrderedSound(v, PasteEdits(rs, 0, Register(registers, key.register), key.after, key.count, n), true);
    } else if key.Delete? || key.Change? {
      DeletionOrdered(rs, n);
      OrderedSound(v, DeletionEdits(rs), true);
    }
  }

  lemma {:induction false} NormalKeyGood(t: Timeline, registers: Registers, key: Key, bytesPerLine: nat)
    requires Placed(t) && t.pending.None? && RegistersFilled(registers) && InReach(t.now, key)
    ensures forall e :: e in NormalEffects(t.now, registers, key, bytesPerLine) ==> Good(t, e)
    ensures |NormalEffects(t.now, registers, key, bytesPerLine)| <= 1
  {
    var v := t.now;
    if Reshaped(v, key, bytesPerLine).Some? {
      ReshapedInOrder(v, key, bytesPerLine);
      SelectGood(t, Reshaped(v, key, bytesPerLine).value);
    } else if EditsText(key) {
      EditKeyGood(t, registers, key);
    } else {
      RegionEffectsGood(t, key);
    }
  }

  lemma {:induction false} InsertKeyGood(t: Timeline, mode: Mode, key: Key, bytesPerLine: nat)
    requires Placed(t) && mode.Inserting? && !(key.MoveCaret? && mode.half.Some?)
    ensures forall e :: e in InsertEffects(t.now, mode, key, bytesPerLine) ==> Good(t, e)
    ensures |InsertEffects(t.now, mode, key, bytesPerLine)| <= 1
  {
    var v := t.now;
    var rs, n := v.selection.regions, |v.data|;
    if key.InsertNull? {
      InsertOrdered(rs, [0], n);
      OrderedSound(v, InsertEdits(rs, [0]), false);
    } else if key.RemoveLast? || key.RemoveThis? {
      BackspaceOrdered(rs, 0, n);
      DeleteCursorOrdered(rs, 0, n);
      OrderedSound(v, BackspaceEdits(rs), false);
      OrderedSound(v, DeleteCursorEdits(rs, n), false);
    } else if key.MoveCaret? {
      CaretMoveInOrder(v, key.direction, bytesPerLine, false);
      SelectGood(t, CaretMoved(rs, key.direction, bytesPerLine, n, false));
    } else if key.TypeChar? && !mode.hex {
      TextSound(v, mode.how, Encode(key.ch));
    } else if key.TypeChar? && HexDigit(key.ch).Some? {
      HexSound(v, mode.how, mode.half, HexDigit(key.ch).value);
    } else if key.ScrollUp? {
      MoveInOrder(v, Up, bytesPerLine, 1);
      SelectGood(t, Moved(rs, Up, bytesPerLine, n, 1));
    }
  }

  /** Completing a half-typed byte and moving on: two steps, both good. */
  lemma {:induction false} CompleteAndMoveKeeps(t: Timeline, mode: Mode, direction: Direction, bytesPerLine: nat)
    requires Placed(t) && mode.Inserting?
    ensures var es := CompleteAndMove(t.now, mode, direction, bytesPerLine);
            && TimelyRun(t, es)
            && (RunTimeline(t, es).Ok? ==> Placed(RunTimeline(t, es).value))
  {
    HexSound(t.now, mode.how, mode.half, 0);
    var complete := HexEffect(t.now, mode.how, mode.half, 0);
    OneEffect(t, complete);
    if Advance(t, complete).Ok? {
      var t' := Advance(t, complete).value;
      var v := t'.now;
      var rs := CaretMoved(v.selection.regions, direction, bytesPerLine, |v.data|, true);
      CaretMoveInOrder(v, direction, bytesPerLine, true);
      SelectGood(t', rs);
      OneEffect(t', Select(Singles(rs)));
      RunConcat(t, [complete], [Select(Singles(rs))]);
      assert [complete] + [Select(Singles(rs))] == [complete, Select(Singles(rs))];
    }
  }

  /** The effects may all be taken, one after the other, and leave every view well placed;
      an action is pending afterwards only if the next mode is insert mode. */
  ghost predicate KeyDone(t: Timeline, es: seq<Effect>, next: Mode) {
    && TimelyRun(t, es)
    && var r := RunTimeline(t, es);
       r.Ok? ==> Placed(r.value) && (r.value.pending.Some? ==> next.Inserting?)
  }

  /** In normal mode edits are final. */
  lemma NormalEditsFinal(v: View, registers: Registers, key: Key, bytesPerLine: nat)
    requires RegistersFilled(registers) && WellPlaced(v)
    ensures forall e :: e in NormalEffects(v, registers, key, bytesPerLine) ==> e.Edit? ==> e.final
  {
  }

  lemma {:induction false} NormalKeyKeeps(t: Timeline, registers: Registers, key: Key, bytesPerLine: nat)
    requires Placed(t) && t.pending.None? && RegistersFilled(registers) && InReach(t.now, key)
    ensures KeyDone(t, NormalEffects(t.now, registers, key, bytesPerLine), NormalNext(key))
  {
    var es := NormalEffects(t.now, registers, key, bytesPerLine);
    NormalKeyGood(t, registers, key, bytesPerLine);
    NormalEditsFinal(t.now, registers, key, bytesPerLine);
    FinalDone(t, es, NormalNext(key));
  }

  lemma {:induction false} FinalDone(t: Timeline, es: seq<Effect>, next: Mode)
    requires Placed(t) && t.pending.None? && |es| <= 1
    requires forall e :: e in es ==> Good(t, e) && (e.Edit? ==> e.final)
    ensures KeyDone(t, es, next)
  {
    if es != [] {
      assert es[0] in es && es == [es[0]];
      OneEffect(t, es[0]);
    }
  }

  lemma {:induction false} InsertKeyKeeps(t: Timeline, mode: Mode, key: Key, bytesPerLine: nat)
    requires Placed(t) && mode.Inserting?
    ensures KeyDone(t, InsertEffects(t.now, mode, key, bytesPerLine), InsertNext(t.now, mode, key))
  {
    var es := InsertEffects(t.now, mode, key, bytesPerLine);
    if key.MoveCaret? && mode.half.Some? {
      CompleteAndMoveKeeps(t, mode, key.direction, bytesPerLine);
    } else {
      InsertKeyGood(t, mode, key, bytesPerLine);
      if es != [] {
        assert es[0] in es && es == [es[0]];
        OneEffect(t, es[0]);
      }
    }
  }

  lemma {:induction false} KeyKeeps(ed: Editor, t: Timeline, key: Key, bytesPerLine: nat)
    requires EditorInv(ed) && Agree(ed.buffer, t) && Placed(t) && KeyInside(ed, key)
    ensures KeyDone(t, Effects(ed, key, bytesPerLine), NextMode(ed, key))
  {
    if ed.mode.Normal? {
      NormalKeyKeeps(t, ed.registers, key, bytesPerLine);
    } else {
      InsertKeyKeeps(t, ed.mode, key, bytesPerLine);
    }
  }

  // ----- runs of key presses

  /** The editor after one key press. */
  function Press(ed: Editor, key: Key, bytesPerLine: nat): Outcome<Editor>
    requires EditorInv(ed) && AdmissibleRun(ed.buffer, Effects(ed, key, bytesPerLine))
  {
    match RunBuffer(ed.buffer, Effects(ed, key, bytesPerLine))
    case Panic => Panic
    case Ok(buffer) => Ok(Editor(buffer, RegistersAfter(ed, key), NextMode(ed, key)))
  }

  /** No key press of the run meets an editor that is not ready for it. */
  predicate KeysReady(ed: Editor, keys: seq<Key>, bytesPerLine: nat)
    decreases |keys|
  {
    keys == [] ||
    (&& EditorInv(ed)
     && AdmissibleRun(ed.buffer, Effects(ed, keys[0], bytesPerLine))
     && (Press(ed, keys[0], bytesPerLine).Ok? ==> KeysReady(Press(ed, keys[0], bytesPerLine).value, keys[1..], bytesPerLine)))
  }

  /** Every key of the run is inside the bounds above when it is pressed. */
  predicate KeysInside(ed: Editor, keys: seq<Key>, bytesPerLine: nat)
    decreases |keys|
  {
    keys == [] ||
    (&& KeyInside(ed, keys[0])
     && (EditorInv(ed) && AdmissibleRun(ed.buffer, Effects(ed, keys[0], bytesPerLine))
         && Press(ed, keys[0], bytesPerLine).Ok? ==>
           KeysInside(Press(ed, keys[0], bytesPerLine).value, keys[1..], bytesPerLine)))
  }

  function PressAll(ed: Editor, keys: seq<Key>, bytesPerLine: nat): Outcome<Editor>
    requires KeysReady(ed, keys, bytesPerLine)
    decreases |keys|
  {
    if keys == [] then Ok(ed)
    else match Press(ed, keys[0], bytesPerLine)
      case Panic => Panic
      case Ok(ed') => PressAll(ed', keys[1..], bytesPerLine)
  }

  /** All that a run of key presses does to the buffer. */
  function AllEffects(ed: Editor, keys: seq<Key>, bytesPerLine: nat): seq<Effect>
    requires KeysReady(ed, keys, bytesPerLine)
    decreases |keys|
  {
    if keys == [] then []
    else
      Effects(ed, keys[0], bytesPerLine)
      + match Press(ed, keys[0], bytesPerLine)
        case Panic => []
        case Ok(ed') => AllEffects(ed', keys[1..], bytesPerLine)
  }

  lemma StillFilled(ed: Editor, key: Key)
    requires EditorInv(ed)
    ensures RegistersFilled(RegistersAfter(ed, key))
  {
    assert |ed.buffer.view.selection.regions| > 0;
  }

  lemma {:induction false} DoneKeeps(b: Buffer, t: Timeline, es: seq<Effect>, next: Mode)
    requires Agree(b, t) && KeyDone(t, es, next)
    ensures AdmissibleRun(b, es) && TimelyRun(t, es)
    ensures var r, b' := RunTimeline(t, es), RunBuffer(b, es);
            && (b'.Panic? <==> r.Panic?)
            && (r.Ok? ==>
                  && Agree(b'.value, r.value) && Placed(r.value)
                  && WellPlaced(b'.value.view) && (b'.value.history.partial.Some? ==> next.Inserting?))
  {
    RunAgrees(b, t, es);
  }

  lemma {:induction false} PressKeeps(ed: Editor, t: Timeline, key: Key, bytesPerLine: nat)
    requires EditorInv(ed) && Agree(ed.buffer, t) && Placed(t) && KeyInside(ed, key)
    ensures AdmissibleRun(ed.buffer, Effects(ed, key, bytesPerLine)) && TimelyRun(t, Effects(ed, key, bytesPerLine))
    ensures var r := RunTimeline(t, Effects(ed, key, bytesPerLine));
            && (Press(ed, key, bytesPerLine).Panic? <==> r.Panic?)
            && (r.Ok? ==>
                  && EditorInv(Press(ed, key, bytesPerLine).value)
                  && Agree(Press(ed, key, bytesPerLine).value.buffer, r.value)
                  && Placed(r.value))
  {
    KeyKeeps(ed, t, key, bytesPerLine);
    DoneKeeps(ed.buffer, t, Effects(ed, key, bytesPerLine), NextMode(ed, key));
    StillFilled(ed, key);
  }

  /** A key press panics exactly when its effects on the snapshots do. */
  lemma {:induction false} PressOutcome(ed: Editor, t: Timeline, key: Key, bytesPerLine: nat)
    requires EditorInv(ed) && Agree(ed.buffer, t) && Placed(t) && KeyInside(ed, key)
    ensures AdmissibleRun(ed.buffer, Effects(ed, key, bytesPerLine)) && TimelyRun(t, Effects(ed, key, bytesPerLine))
    ensures Press(ed, key, bytesPerLine).Panic? <==> RunTimeline(t, Effects(ed, key, bytesPerLine)).Panic?
  {
    PressKeeps(ed, t, key, bytesPerLine);
  }

  /** Over every run of key presses, up to a panic if there is one: the selection stays
      sorted, disjoint and in bounds, an action is pending only in insert mode, and the
      buffer shows what the snapshots of the same run show. */
  lemma {:induction false} KeysKeep(ed: Editor, t: Timeline, keys: seq<Key>, bytesPerLine: nat)
    requires EditorInv(ed) && Agree(ed.buffer, t) && Placed(t) && KeysInside(ed, keys, bytesPerLine)
    ensures KeysReady(ed, keys, bytesPerLine) && TimelyRun(t, AllEffects(ed, keys, bytesPerLine))
    ensures var r := RunTimeline(t, AllEffects(ed, keys, bytesPerLine));
            && (PressAll(ed, keys, bytesPerLine).Panic? <==> r.Panic?)
            && (r.Ok? ==>
                  && EditorInv(PressAll(ed, keys, bytesPerLine).value)
                  && Agree(PressAll(ed, keys, bytesPerLine).value.buffer, r.value)
                  && Placed(r.value))
    decreases |keys|
  {
    if keys != [] {
      PressKeeps(ed, t, keys[0], bytesPerLine);
      var es, r := Effects(ed, keys[0], bytesPerLine), RunTimeline(t, Effects(ed, keys[0], bytesPerLine));
      if r.Ok? {
        var ed' := Press(ed, keys[0], bytesPerLine).value;
        KeysKeep(ed', r.value, keys[1..], bytesPerLine);
        RunConcat(t, es, AllEffects(ed', keys[1..], bytesPerLine));
      } else {
        assert es + [] == es;
      }
    }
  }

  /** An editor that has just opened a document, and its timeline. */
  function Opened(doc: Doc): Editor {
    Editor(Buffer(View(doc, Cleared), Empty), map[], Normal)
  }

  function OpenedTimeline(doc: Doc): Timeline {
    Timeline([], View(doc, Cleared), [], None)
  }
}
