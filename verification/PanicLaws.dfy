/** Exactly which key presses make the editor panic, in any state that keeps the invariant of
    the runs. The keys are those of the model. */
module PanicLaws {
  import opened Prelude
  import opened Characters
  import opened Delta
  import opened Region
  import opened Selections
  import opened SelectionLaws
  import opened Operations
  import opened HexTyping
  import opened Timeline
  import opened Split
  import opened WidthSplit
  import opened Modes
  import opened ModeLaws
  import opened EditingLaws
  import opened ClashLaws
  import opened OverwriteClash

  // ----- the conditions

  /** Some tail lies before the offset and another one after it. */
  ghost predicate TailsAround(rs: seq<Region>, offset: nat) {
    exists i, j :: 0 <= i < j < |rs| && rs[i].tail < offset < rs[j].tail
  }

  /** Every region up to the main one is fully matched, but not every region is. */
  ghost predicate SplitTrips(v: View, pattern: Doc)
    requires WellPlaced(v) && pattern != []
  {
    var rs, ms := v.selection.regions, MatchesIn(v, pattern);
    && (forall i :: 0 <= i <= v.selection.main ==> FullyMatched(rs, ms, i))
    && !(forall i :: 0 <= i < |rs| ==> FullyMatched(rs, ms, i))
  }

  /** No region up to the main one has a match, but some region has. */
  ghost predicate CollapseTrips(v: View, pattern: Doc)
    requires WellPlaced(v) && pattern != []
  {
    var ms := MatchesIn(v, pattern);
    && (forall i :: 0 <= i <= v.selection.main ==> ms[i] == [])
    && !(forall i :: 0 <= i < |ms| ==> ms[i] == [])
  }

  ghost predicate NormalTrips(v: View, key: Key)
    requires WellPlaced(v)
  {
    || (key.ExtendTo? && TailsAround(v.selection.regions, key.offset))
    || (key.SplitWidth? && key.step == 0)
    || (key.SplitAt? && key.pattern != [] && SplitTrips(v, key.pattern))
    || (key.CollapseTo? && key.pattern != [] && CollapseTrips(v, key.pattern))
  }

  ghost predicate DigitTrips(rs: seq<Region>, mode: Mode)
    requires mode.Inserting?
  {
    if mode.half.Some? then CaretTrips(rs) else mode.how == Overwrite && HalfTrips(rs)
  }

  ghost predicate InsertTrips(rs: seq<Region>, mode: Mode, key: Key)
    requires mode.Inserting?
  {
    || (key.RemoveLast? && if mode.half.Some? then CaretTrips(rs) else BackTrips(rs))
    || (key.RemoveThis? && CaretTrips(rs))
    || (key.MoveCaret? && mode.half.Some? && CaretTrips(rs))
    || (key.TypeChar? && !mode.hex && mode.how == Overwrite && CaretTrips(rs))
    || (key.TypeChar? && mode.hex && HexDigit(key.ch).Some? && DigitTrips(rs, mode))
  }

  /** The condition on the view and the mode before a key press. */
  ghost predicate Trips(v: View, mode: Mode, key: Key)
    requires WellPlaced(v)
  {
    if mode.Normal? then NormalTrips(v, key) else InsertTrips(v.selection.regions, mode, key)
  }

  // ----- one effect

  ghost predicate Panics(v: View, e: Effect) {
    match e
    case Edit(d, caretShift, tailShift, _) => ValidOn(d, v.data) && EditView(v, d, caretShift, tailShift).Panic?
    case Select(outputs) => SelectView(v, outputs).Panic?
    case Abort => true
    case _ => false
  }

  /** At most one effect, which panics exactly under the condition. */
  ghost predicate PanicsIff(v: View, es: seq<Effect>, condition: bool) {
    |es| <= 1 && (condition <==> es != [] && Panics(v, es[0]))
  }

  lemma {:induction false} RunPanics(t: Timeline, es: seq<Effect>, condition: bool)
    requires PanicsIff(t.now, es, condition) && TimelyRun(t, es)
    ensures RunTimeline(t, es).Panic? <==> condition
  {
    if es != [] {
      assert es[1..] == [];
      match Advance(t, es[0])
      case Ok(t') => assert RunTimeline(t', es[1..]) == Ok(t');
      case Panic =>
    }
  }

  // ----- regions that are mapped one by one

  lemma {:induction false} SelectCalm(v: View, rs: seq<Region>, backward: bool)
    requires WellPlaced(v) && InOrder(v, rs) && SameWay(rs, backward)
    ensures !Panics(v, Select(Singles(rs)))
  {
    SelectSound(v, rs);
    SameWayNoClash(rs, backward);
  }

  lemma {:induction false} MoveCalm(v: View, direction: Direction, bytesPerLine: nat, count: nat)
    requires WellPlaced(v)
    ensures !Panics(v, Select(Singles(Moved(v.selection.regions, direction, bytesPerLine, |v.data|, count))))
  {
    var rs := Moved(v.selection.regions, direction, bytesPerLine, |v.data|, count);
    MoveInOrder(v, direction, bytesPerLine, count);
    assert SameWay(rs, false) by {
      forall i | 0 <= i < |rs| ensures Along(rs[i], false) {
      }
    }
    SelectCalm(v, rs, false);
  }

  lemma {:induction false} SwapCalm(v: View)
    requires WellPlaced(v)
    ensures !Panics(v, Select(Singles(Swapped(v.selection.regions))))
  {
    var rs, out := v.selection.regions, Swapped(v.selection.regions);
    assert forall i :: 0 <= i < |rs| ==> out[i].Lo() == rs[i].Lo() && out[i].Hi() == rs[i].Hi();
    MapSinglesApart(out, v.selection.main);
  }

  lemma {:induction false} StartCalm(v: View, bytesPerLine: nat)
    requires WellPlaced(v)
    ensures !Panics(v, Select(Singles(Collapsed(v.selection.regions))))
    ensures !Panics(v, Select(Singles(AllBackward(v.selection.regions))))
    ensures !Panics(v, Select(Singles(Appending(v.selection.regions, bytesPerLine, |v.data|))))
  {
    var rs := v.selection.regions;
    KeysInOrder(v, bytesPerLine);
    SelectCalm(v, Collapsed(rs), false);
    SelectCalm(v, AllBackward(rs), true);
    SelectCalm(v, Appending(rs, bytesPerLine, |v.data|), false);
  }

  // ----- extending

  predicate Rightward(direction: Direction) {
    direction.Down? || direction.Right?
  }

  /** The region points away from where its caret was moved, and is no cursor. */
  predicate Against(r: Region, direction: Direction) {
    if Rightward(direction) then !r.Forward() else !r.Backward()
  }

  /** A region that still points the other way has not reached its neighbours. */
  lemma NextApart(a: Region, b: Region, direction: Direction, bytesPerLine: nat, n: nat, count: nat)
    requires a.Hi() < b.Lo() && b.Hi() <= n
    ensures var a', b' := At(a.MovedCaret(direction, bytesPerLine, n, count), a.tail),
                          At(b.MovedCaret(direction, bytesPerLine, n, count), b.tail);
            && a'.Hi() <= b'.Hi()
            && (Against(a', direction) || Against(b', direction) ==> !a'.Overlaps(b'))
  {
    var step := bytesPerLine * count;
  }

  /** Regions that overlap only with neighbours that can be read the same way do not clash. */
  lemma {:induction false} NoClashAlong(rs: seq<Region>, direction: Direction)
    requires EndsAscend(rs)
    requires forall k :: 0 < k < |rs| && OverlapsPrevious(rs, k) ==>
               !Against(rs[k - 1], direction) && !Against(rs[k], direction)
    ensures !Clash(rs)
  {
    ClashChain(rs);
    forall i: nat, j: nat | i < j < |rs| && Opposed(rs[i], rs[j]) ensures !Chained(rs, i, j) {
      var k := if Against(rs[i], direction) then i + 1 else j;
      assert !OverlapsPrevious(rs, k);
    }
  }

  /** Extending a well-formed selection never panics. */
  lemma {:induction false} ExtendCalm(v: View, direction: Direction, bytesPerLine: nat, count: nat)
    requires WellPlaced(v)
    ensures SelectView(v, Singles(Extended(v.selection.regions, direction, bytesPerLine, |v.data|, count))).Ok?
  {
    var rs, n := v.selection.regions, |v.data|;
    var out := Extended(rs, direction, bytesPerLine, n, count);
    ExtendInOrder(v, direction, bytesPerLine, count);
    SelectSound(v, out);
    forall k | 0 < k < |rs|
      ensures out[k - 1].Hi() <= out[k].Hi()
      ensures OverlapsPrevious(out, k) ==> !Against(out[k - 1], direction) && !Against(out[k], direction) {
      assert rs[k - 1].Hi() < rs[k].Lo();
      NextApart(rs[k - 1], rs[k], direction, bytesPerLine, n, count);
    }
    NoClashAlong(out, direction);
  }

  lemma ExtendedPair(a: Region, b: Region, offset: nat)
    requires a.Hi() < b.Lo()
    ensures var a', b' := At(offset, a.tail), At(offset, b.tail);
            && a'.Hi() <= b'.Hi() && a'.Overlaps(b')
            && (Opposed(a', b') <==> a.tail < offset < b.tail)
  {
  }

  lemma AllChained(rs: seq<Region>)
    requires forall i: nat, j: nat :: i < j < |rs| ==> rs[i].Overlaps(rs[j])
    ensures forall i: nat, j: nat :: i < j < |rs| ==> Chained(rs, i, j)
  {
  }

  lemma {:induction false} ExtendToClash(rs: seq<Region>, offset: nat)
    requires Sorted(rs)
    ensures Clash(ExtendedTo(rs, offset)) <==> TailsAround(rs, offset)
  {
    var out := ExtendedTo(rs, offset);
    forall i: nat, j: nat | i < j < |rs|
      ensures out[i].Hi() <= out[j].Hi() && out[i].Overlaps(out[j])
      ensures Opposed(out[i], out[j]) <==> rs[i].tail < offset < rs[j].tail {
      assert rs[i].Hi() < rs[j].Lo();
      ExtendedPair(rs[i], rs[j], offset);
    }
    AllChained(out);
    ClashChain(out);
  }

  /** Extending to an offset panics exactly if it lies between two tails. */
  lemma {:induction false} ExtendToPanics(v: View, offset: nat)
    requires WellPlaced(v) && offset <= |v.data|
    ensures SelectView(v, Singles(ExtendedTo(v.selection.regions, offset))).Panic?
       <==> TailsAround(v.selection.regions, offset)
  {
    OffsetInOrder(v, offset);
    SelectSound(v, ExtendedTo(v.selection.regions, offset));
    ExtendToClash(v.selection.regions, offset);
  }

  lemma {:induction false} JumpCalm(v: View, offset: nat)
    requires WellPlaced(v) && offset <= |v.data|
    ensures !Panics(v, Select(Singles(JumpedTo(v.selection.regions, offset))))
  {
    OffsetInOrder(v, offset);
    SelectCalm(v, JumpedTo(v.selection.regions, offset), false);
  }

  lemma {:induction false} ReshapedPanics(v: View, key: Key, bytesPerLine: nat)
    requires WellPlaced(v) && InReach(v, key)
    requires Reshaped(v, key, bytesPerLine).Some?
    ensures Panics(v, Select(Singles(Reshaped(v, key, bytesPerLine).value))) <==> NormalTrips(v, key)
  {
    if key.Move? {
      MoveCalm(v, key.direction, bytesPerLine, key.count);
    } else if key.Extend? {
      ExtendCalm(v, key.direction, bytesPerLine, key.count);
    } else if key.SwapCaret? {
      SwapCalm(v);
    } else if key.JumpTo? {
      JumpCalm(v, key.offset);
    } else if key.ExtendTo? {
      ExtendToPanics(v, key.offset);
    } else if key.ScrollUp? {
      MoveCalm(v, Up, bytesPerLine, 1);
    } else {
      StartCalm(v, bytesPerLine);
    }
  }

  // ----- regions that are split

  lemma {:induction false} SplitPanics(v: View, pattern: Doc)
    requires WellPlaced(v)
    ensures PanicsIff(v, SplitEffects(v, pattern), pattern != [] && SplitTrips(v, pattern))
  {
    if pattern != [] {
      SplitOutcome(v.selection, MatchesIn(v, pattern));
    }
  }

  lemma {:induction false} CollapsePanics(v: View, pattern: Doc)
    requires WellPlaced(v)
    ensures PanicsIff(v, CollapseEffects(v, pattern), pattern != [] && CollapseTrips(v, pattern))
  {
    if pattern != [] {
      CollapseOutcome(v.selection, MatchesIn(v, pattern));
    }
  }

  lemma {:induction false} RegionEffectsPanic(v: View, key: Key)
    requires WellPlaced(v) && !key.ExtendTo?
    ensures PanicsIff(v, RegionEffects(v, key), NormalTrips(v, key))
  {
    if key.SplitAt? {
      SplitPanics(v, key.pattern);
    } else if key.CollapseTo? {
      CollapsePanics(v, key.pattern);
    } else if key.SplitWidth? && key.step > 0 {
      WidthKeeps(v.selection, key.step);
    }
  }

  lemma {:induction false} EditCalm(v: View, registers: Registers, key: Key)
    requires WellPlaced(v) && RegistersFilled(registers) && EditsText(key)
    ensures PanicsIff(v, EditEffects(v, registers, key), false)
  {
    if key.Paste? {
      PasteCalm(v, Register(registers, key.register), key.after, key.count);
    } else if key.Delete? || key.Change? {
      DeletionCalm(v);
    }
  }

  lemma {:induction false} NormalPanics(v: View, registers: Registers, key: Key, bytesPerLine: nat)
    requires WellPlaced(v) && RegistersFilled(registers) && InReach(v, key)
    ensures PanicsIff(v, NormalEffects(v, registers, key, bytesPerLine), NormalTrips(v, key))
  {
    if Reshaped(v, key, bytesPerLine).Some? {
      ReshapedPanics(v, key, bytesPerLine);
    } else if EditsText(key) {
      EditCalm(v, registers, key);
    } else {
      RegionEffectsPanic(v, key);
    }
  }

  // ----- insert mode

  lemma {:induction false} ChangePanics(v: View, text: Doc)
    requires WellPlaced(v)
    ensures Panics(v, PartialEdit(v, ChangeEdits(v.selection.regions, text), 0)) <==> CaretTrips(v.selection.regions)
  {
    ChangeOrdered(v.selection.regions, text, |v.data|);
    OrderedPanics(v, ChangeEdits(v.selection.regions, text));
    ChangeClashes(v.selection.regions, text, |v.data|);
  }

  lemma {:induction false} DeleteCursorPanics(v: View)
    requires WellPlaced(v)
    ensures Panics(v, PartialEdit(v, DeleteCursorEdits(v.selection.regions, |v.data|), 0))
       <==> CaretTrips(v.selection.regions)
  {
    DeleteCursorOrdered(v.selection.regions, 0, |v.data|);
    OrderedPanics(v, DeleteCursorEdits(v.selection.regions, |v.data|));
    DeleteCursorClashes(v.selection.regions, |v.data|);
  }

  lemma {:induction false} BackspacePanics(v: View)
    requires WellPlaced(v)
    ensures Panics(v, PartialEdit(v, BackspaceEdits(v.selection.regions), 0)) <==> BackTrips(v.selection.regions)
  {
    BackspaceOrdered(v.selection.regions, 0, |v.data|);
    OrderedPanics(v, BackspaceEdits(v.selection.regions));
    BackspaceClashes(v.selection.regions, |v.data|);
  }

  lemma {:induction false} DigitPanics(v: View, mode: Mode, digit: Byte)
    requires WellPlaced(v) && mode.Inserting?
    ensures Panics(v, HexEffect(v, mode.how, mode.half, digit)) <==> DigitTrips(v.selection.regions, mode)
  {
    if mode.half.Some? {
      ChangePanics(v, [mode.half.value | digit]);
    } else if mode.how == Overwrite {
      FirstDigitFits(v, mode.how, digit);
      ShiftedCarry(v, HexEffect(v, mode.how, None, digit).delta, -1);
      OverwriteClashes(v.data, v.selection.regions, digit << 4);
    } else {
      FirstDigitCalm(v, mode.how, digit);
    }
  }

  lemma {:induction false} TextPanics(v: View, how: InsertionMode, text: Doc)
    requires WellPlaced(v)
    ensures Panics(v, TextEffect(v, how, text)) <==> how == Overwrite && CaretTrips(v.selection.regions)
  {
    if how == Overwrite {
      ChangePanics(v, text);
    } else {
      InsertTextCalm(v, text);
    }
  }

  /** An empty document has one cursor, which nothing can make clash. */
  lemma EmptyTripsNot(rs: seq<Region>)
    requires InBounds(rs, 0)
    ensures !CaretTrips(rs) && !BackTrips(rs)
  {
  }

  lemma {:induction false} ErasePanics(v: View, mode: Mode, key: Key, bytesPerLine: nat)
    requires WellPlaced(v) && mode.Inserting? && (key.RemoveLast? || key.RemoveThis?)
    ensures PanicsIff(v, InsertEffects(v, mode, key, bytesPerLine), InsertTrips(v.selection.regions, mode, key))
  {
    if v.data == [] {
      EmptyTripsNot(v.selection.regions);
    } else {
      BackspacePanics(v);
      DeleteCursorPanics(v);
    }
  }

  lemma {:induction false} InsertPanics(v: View, mode: Mode, key: Key, bytesPerLine: nat)
    requires WellPlaced(v) && mode.Inserting? && !(key.MoveCaret? && mode.half.Some?)
    ensures PanicsIff(v, InsertEffects(v, mode, key, bytesPerLine), InsertTrips(v.selection.regions, mode, key))
  {
    if key.RemoveLast? || key.RemoveThis? {
      ErasePanics(v, mode, key, bytesPerLine);
    } else if key.InsertNull? {
      InsertTextCalm(v, [0]);
    } else if key.MoveCaret? {
      MoveCalm(v, key.direction, bytesPerLine, 1);
    } else if key.TypeChar? && !mode.hex {
      TextPanics(v, mode.how, Encode(key.ch));
    } else if key.TypeChar? && HexDigit(key.ch).Some? {
      DigitPanics(v, mode, HexDigit(key.ch).value);
    } else if key.ScrollUp? {
      MoveCalm(v, Up, bytesPerLine, 1);
    }
  }

  /** Completing a half-typed byte may panic; moving on from there does not. */
  lemma {:induction false} MovePanics(t: Timeline, mode: Mode, direction: Direction, bytesPerLine: nat)
    requires Placed(t) && mode.Inserting? && mode.half.Some?
    ensures var es := CompleteAndMove(t.now, mode, direction, bytesPerLine);
            TimelyRun(t, es) && (RunTimeline(t, es).Panic? <==> CaretTrips(t.now.selection.regions))
  {
    var es := CompleteAndMove(t.now, mode, direction, bytesPerLine);
    CompleteAndMoveKeeps(t, mode, direction, bytesPerLine);
    DigitPanics(t.now, mode, 0);
    HexSound(t.now, mode.how, mode.half, 0);
    if Advance(t, es[0]).Ok? {
      var t' := Advance(t, es[0]).value;
      CaretMoveCalm(t'.now, direction, bytesPerLine);
      assert es == [es[0], es[1]] && es[1..] == [es[1]] && es[1..][1..] == [];
      assert Advance(t', es[1]).Ok?;
      assert RunTimeline(Advance(t', es[1]).value, []).Ok?;
    }
  }

  lemma {:induction false} CaretMoveCalm(v: View, direction: Direction, bytesPerLine: nat)
    requires WellPlaced(v)
    ensures !Panics(v, Select(Singles(CaretMoved(v.selection.regions, direction, bytesPerLine, |v.data|, true))))
  {
    var rs := CaretMoved(v.selection.regions, direction, bytesPerLine, |v.data|, true);
    CaretMoveInOrder(v, direction, bytesPerLine, true);
    assert SameWay(rs, false) by {
      forall i | 0 <= i < |rs| ensures Along(rs[i], false) {
      }
    }
    SelectCalm(v, rs, false);
  }

  // ----- every key

  /** In every state that keeps the invariant, a key press panics exactly if the regions
      before it meet the condition for its mode and key. */
  lemma {:induction false} PressPanicsIff(ed: Editor, t: Timeline, key: Key, bytesPerLine: nat)
    requires Reached(ed, t) && KeyInside(ed, key)
    ensures AdmissibleRun(ed.buffer, Effects(ed, key, bytesPerLine))
    ensures Press(ed, key, bytesPerLine).Panic? <==> Trips(ed.buffer.view, ed.mode, key)
  {
    PressOutcome(ed, t, key, bytesPerLine);
    if ed.mode.Normal? {
      NormalPanics(t.now, ed.registers, key, bytesPerLine);
      RunPanics(t, Effects(ed, key, bytesPerLine), NormalTrips(t.now, key));
    } else {
      InsertRunPanics(t, ed.mode, key, bytesPerLine);
    }
  }

  lemma {:induction false} InsertRunPanics(t: Timeline, mode: Mode, key: Key, bytesPerLine: nat)
    requires Placed(t) && mode.Inserting? && TimelyRun(t, InsertEffects(t.now, mode, key, bytesPerLine))
    ensures RunTimeline(t, InsertEffects(t.now, mode, key, bytesPerLine)).Panic?
       <==> InsertTrips(t.now.selection.regions, mode, key)
  {
    if key.MoveCaret? && mode.half.Some? {
      MovePanics(t, mode, key.direction, bytesPerLine);
    } else {
      InsertPanics(t.now, mode, key, bytesPerLine);
      RunPanics(t, InsertEffects(t.now, mode, key, bytesPerLine), InsertTrips(t.now.selection.regions, mode, key));
    }
  }
}
