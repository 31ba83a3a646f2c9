/** Runs of key presses from an opened document: one that leads to many regions, two that lead
    to a panic, and one that leaves a byte half typed. */
module PanicRun {
  import opened Prelude
  import opened Bits
  import opened Characters
  import opened Delta
  import opened Builder
  import opened Region
  import opened Selections
  import opened SelectionLaws
  import opened Transport
  import opened Operations
  import opened HexTyping
  import opened Timeline
  import opened WidthSplit
  import opened Modes
  import opened ModeLaws
  import opened EditingLaws
  import opened ClashLaws
  import opened ChangeLaws
  import opened OverwriteClash
  import opened OverwriteTyping
  import opened PanicLaws
  import Selection

  // ----- steps

  /** A key press leads from one reached state to another. */
  ghost predicate StepsTo(ed: Editor, t: Timeline, key: Key, bytesPerLine: nat, ed': Editor, t': Timeline) {
    && Reached(ed, t) && KeyInside(ed, key)
    && AdmissibleRun(ed.buffer, Effects(ed, key, bytesPerLine))
    && Press(ed, key, bytesPerLine) == Ok(ed') && Reached(ed', t')
  }

  lemma {:induction false} PressCons(ed: Editor, t: Timeline, key: Key, bytesPerLine: nat, ed': Editor, t': Timeline, rest: seq<Key>)
    requires StepsTo(ed, t, key, bytesPerLine, ed', t')
    requires KeysInside(ed', rest, bytesPerLine) && KeysReady(ed', rest, bytesPerLine)
    ensures KeysInside(ed, [key] + rest, bytesPerLine) && KeysReady(ed, [key] + rest, bytesPerLine)
    ensures PressAll(ed, [key] + rest, bytesPerLine) == PressAll(ed', rest, bytesPerLine)
  {
    assert ([key] + rest)[1..] == rest;
  }

  lemma {:induction false} OneStep(ed: Editor, t: Timeline, key: Key, bytesPerLine: nat, e: Effect) returns (ed': Editor, t': Timeline)
    requires Reached(ed, t) && KeyInside(ed, key) && Effects(ed, key, bytesPerLine) == [e]
    requires Timely(t, e) && Advance(t, e).Ok?
    ensures StepsTo(ed, t, key, bytesPerLine, ed', t') && Advance(t, e) == Ok(t')
    ensures ed'.buffer.view == t'.now && ed'.mode == NextMode(ed, key)
  {
    PressSingle(ed, t, key, bytesPerLine, e);
    ed', t' := Press(ed, key, bytesPerLine).value, Advance(t, e).value;
  }

  lemma {:induction false} ReshapeEffects(ed: Editor, t: Timeline, key: Key, bytesPerLine: nat, out: seq<Region>)
    requires Reached(ed, t) && ed.mode.Normal?
    requires Reshaped(ed.buffer.view, key, bytesPerLine) == Some(out)
    ensures Effects(ed, key, bytesPerLine) == [Select(Singles(out))] && |out| == |ed.buffer.view.selection.regions|
  {
  }

  /** A key that maps the regions to others that do not overlap. */
  lemma {:induction false} ReshapeStep(ed: Editor, t: Timeline, key: Key, bytesPerLine: nat, out: seq<Region>) returns (ed': Editor, t': Timeline)
    requires Reached(ed, t) && KeyInside(ed, key) && ed.mode.Normal?
    requires Reshaped(ed.buffer.view, key, bytesPerLine) == Some(out) && Sorted(out)
    ensures StepsTo(ed, t, key, bytesPerLine, ed', t') && ed'.mode == NextMode(ed, key)
    ensures var s := ed.buffer.view.selection;
            |out| == |s.regions| && ed'.buffer.view == View(ed.buffer.view.data, Sel(Flagged(out, s.main), s.main))
  {
    ReshapeEffects(ed, t, key, bytesPerLine, out);
    MapSinglesApart(out, ed.buffer.view.selection.main);
    ed', t' := OneStep(ed, t, key, bytesPerLine, Select(Singles(out)));
  }

  // ----- many regions

  lemma {:induction false} OpenedReached(doc: Doc)
    ensures Reached(Opened(doc), OpenedTimeline(doc))
  {
  }

  lemma {:induction false} SelectAllStep(doc: Doc, bytesPerLine: nat) returns (ed': Editor, t': Timeline)
    ensures StepsTo(Opened(doc), OpenedTimeline(doc), Key.SelectAll, bytesPerLine, ed', t')
    ensures ed'.mode.Normal? && ed'.buffer.view == View(doc, Selection.AllSelected(|doc|))
  {
    OpenedReached(doc);
    ed', t' := OneStep(Opened(doc), OpenedTimeline(doc), Key.SelectAll, bytesPerLine, Reselect(Selection.AllSelected(|doc|)));
  }

  lemma {:induction false} SplitStep(ed: Editor, t: Timeline, step: nat, bytesPerLine: nat) returns (ed': Editor, t': Timeline)
    requires Reached(ed, t) && ed.mode.Normal? && step > 0
    ensures StepsTo(ed, t, SplitWidth(step), bytesPerLine, ed', t') && ed'.mode.Normal?
    ensures var s := ed.buffer.view.selection;
            Ok(ed'.buffer.view.selection) == MapSelections(WidthOutputs(s.regions, step), s.main)
    ensures ed'.buffer.view.data == ed.buffer.view.data
  {
    WidthKeeps(ed.buffer.view.selection, step);
    ed', t' := OneStep(ed, t, SplitWidth(step), bytesPerLine, Select(WidthOutputs(ed.buffer.view.selection.regions, step)));
  }

  lemma {:induction false} WidthCount(r: Region, pos: nat, step: nat)
    requires step > 0 && r.Lo() <= pos <= r.Hi()
    ensures var k := |WidthFrom(r, pos, step)|;
            k >= 1 && (k - 1) * step < r.Hi() + 1 - pos <= k * step
    decreases r.Hi() - pos
  {
    var k := |WidthFrom(r, pos, step)|;
    if pos + step <= r.Hi() {
      WidthCount(r, pos + step, step);
      assert |WidthFrom(r, pos + step, step)| == k - 1;
      OneMore(k - 1, step);
      OneMore(k - 2, step);
    } else {
      assert WidthFrom(r, pos + step, step) == [];
    }
  }

  lemma OneMore(k: int, step: nat)
    ensures (k + 1) * step == k * step + step
  {
  }

  /** Pieces of the given width, the last one possibly shorter, fill n places. */
  predicate Fills(pieces: int, step: nat, n: nat) {
    (pieces - 1) * step < n <= pieces * step
  }

  lemma {:induction false} PieceCount(n: nat, step: nat)
    requires step > 0 && n > 0
    ensures var s := Selection.AllSelected(n);
            var r := MapSelections(WidthOutputs(s.regions, step), s.main);
            r.Ok? && Fills(|r.value.regions|, step, n)
  {
    var s := Selection.AllSelected(n);
    WidthKeeps(s, step);
    WidthCount(s.regions[0], 0, step);
    var outputs := WidthOutputs(s.regions, step);
    assert outputs == [outputs[0]] && outputs[1..] == [];
    assert Flatten(outputs) == outputs[0] + Flatten([]);
  }

  lemma {:induction false} SplitWhole(doc: Doc, step: nat, bytesPerLine: nat) returns (ed: Editor)
    requires step > 0 && doc != []
    ensures var keys := [Key.SelectAll] + ([SplitWidth(step)] + []);
            && KeysInside(Opened(doc), keys, bytesPerLine) && KeysReady(Opened(doc), keys, bytesPerLine)
            && PressAll(Opened(doc), keys, bytesPerLine) == Ok(ed)
    ensures Fills(|ed.buffer.view.selection.regions|, step, |doc|)
  {
    var a, ta := SelectAllStep(doc, bytesPerLine);
    var b, tb := SplitStep(a, ta, step, bytesPerLine);
    PieceCount(|doc|, step);
    PressCons(a, ta, SplitWidth(step), bytesPerLine, b, tb, []);
    PressCons(Opened(doc), OpenedTimeline(doc), Key.SelectAll, bytesPerLine, a, ta, [SplitWidth(step)] + []);
    ed := b;
  }

  /** Two key presses lead from an opened document to as many regions as it has pieces of
      the given width. */
  lemma {:induction false} ManyRegions(doc: Doc, step: nat, bytesPerLine: nat)
    requires step > 0 && doc != []
    ensures var keys := [Key.SelectAll, SplitWidth(step)];
            && KeysInside(Opened(doc), keys, bytesPerLine) && KeysReady(Opened(doc), keys, bytesPerLine)
            && var r := PressAll(Opened(doc), keys, bytesPerLine);
               r.Ok? && Fills(|r.value.buffer.view.selection.regions|, step, |doc|)
  {
    var ed := SplitWhole(doc, step, bytesPerLine);
    assert [Key.SelectAll] + ([SplitWidth(step)] + []) == [Key.SelectAll, SplitWidth(step)];
  }

  // ----- a panic

  /** What the keys do from one state, the rest of them does from another. */
  ghost predicate Continues(ed: Editor, keys: seq<Key>, ed': Editor, rest: seq<Key>, bytesPerLine: nat) {
    KeysInside(ed', rest, bytesPerLine) && KeysReady(ed', rest, bytesPerLine) ==>
      && KeysInside(ed, keys, bytesPerLine) && KeysReady(ed, keys, bytesPerLine)
      && PressAll(ed, keys, bytesPerLine) == PressAll(ed', rest, bytesPerLine)
  }

  lemma {:induction false} ContinueOne(ed: Editor, t: Timeline, key: Key, bytesPerLine: nat, ed': Editor, t': Timeline, rest: seq<Key>)
    requires StepsTo(ed, t, key, bytesPerLine, ed', t')
    ensures Continues(ed, [key] + rest, ed', rest, bytesPerLine)
  {
    if KeysInside(ed', rest, bytesPerLine) && KeysReady(ed', rest, bytesPerLine) {
      PressCons(ed, t, key, bytesPerLine, ed', t', rest);
    }
  }

  lemma {:induction false} ContinueMore(ed: Editor, keys: seq<Key>, mid: Editor, more: seq<Key>, ed': Editor, rest: seq<Key>, bytesPerLine: nat)
    requires Continues(ed, keys, mid, more, bytesPerLine) && Continues(mid, more, ed', rest, bytesPerLine)
    ensures Continues(ed, keys, ed', rest, bytesPerLine)
  {
  }

  lemma {:induction false} TwoPieces(n: nat, step: nat)
    requires step < n <= 2 * step
    ensures MapSelections(WidthOutputs([Region(n - 1, 0, true)], step), 0)
         == Ok(Sel([At(step - 1, 0), Region(n - 1, step, true)], 1))
  {
    var r := Region(n - 1, 0, true);
    var pieces := [At(step - 1, 0), At(n - 1, step)];
    assert WidthFrom(r, step + step, step) == [];
    assert WidthFrom(r, step, step) == [At(n - 1, step)];
    assert WidthFrom(r, 0, step) == [At(step - 1, 0)] + [At(n - 1, step)];
    var outputs := WidthOutputs([r], step);
    assert outputs[0] == pieces;
    assert outputs[..0 + 1] == outputs && outputs[1..] == [];
    assert Flatten(outputs) == outputs[0] + Flatten([]);
    assert Flatten(outputs) == pieces;
    MapApart(outputs, 0);
    assert Flagged(pieces, 1) == [At(step - 1, 0), Region(n - 1, step, true)];
  }

  /** Two forward regions, the first of the given width. */
  lemma {:induction false} Halved(doc: Doc, step: nat, bytesPerLine: nat, rest: seq<Key>) returns (ed: Editor, t: Timeline)
    requires step < |doc| <= 2 * step
    ensures Reached(ed, t) && ed.mode.Normal?
    ensures ed.buffer.view == View(doc, Sel([At(step - 1, 0), Region(|doc| - 1, step, true)], 1))
    ensures Continues(Opened(doc), [Key.SelectAll] + ([SplitWidth(step)] + rest), ed, rest, bytesPerLine)
  {
    var a, ta := SelectAllStep(doc, bytesPerLine);
    ed, t := SplitStep(a, ta, step, bytesPerLine);
    TwoPieces(|doc|, step);
    ContinueTwo(Opened(doc), OpenedTimeline(doc), Key.SelectAll, a, ta, SplitWidth(step), ed, t, rest, bytesPerLine);
  }

  lemma {:induction false} ContinueTwo(ed: Editor, t: Timeline, key: Key, mid: Editor, tm: Timeline, next: Key,
                                       ed': Editor, t': Timeline, rest: seq<Key>, bytesPerLine: nat)
    requires StepsTo(ed, t, key, bytesPerLine, mid, tm) && StepsTo(mid, tm, next, bytesPerLine, ed', t')
    ensures Continues(ed, [key] + ([next] + rest), ed', rest, bytesPerLine)
  {
    ContinueOne(ed, t, key, bytesPerLine, mid, tm, [next] + rest);
    ContinueOne(mid, tm, next, bytesPerLine, ed', t', rest);
    ContinueMore(ed, [key] + ([next] + rest), mid, [next] + rest, ed', rest, bytesPerLine);
  }

  /** A key that leads from the regions a0, a1 to b0, b1, the second being the main one. */
  lemma {:induction false} PairStep(ed: Editor, t: Timeline, key: Key, bytesPerLine: nat,
                                    a0: Region, a1: Region, b0: Region, b1: Region, rest: seq<Key>)
    returns (ed': Editor, t': Timeline)
    requires Reached(ed, t) && ed.mode.Normal? && KeyInside(ed, key)
    requires ed.buffer.view.selection == Sel([a0, a1.(main := true)], 1)
    requires var out := Reshaped(ed.buffer.view, key, bytesPerLine);
             out.Some? && out.value[0] == b0 && out.value[1] == b1 && b0.Hi() < b1.Lo()
    ensures Reached(ed', t') && ed'.mode == NextMode(ed, key)
    ensures ed'.buffer.view == View(ed.buffer.view.data, Sel([b0, b1.(main := true)], 1))
    ensures Continues(ed, [key] + rest, ed', rest, bytesPerLine)
  {
    assert Reshaped(ed.buffer.view, key, bytesPerLine).value == [b0, b1];
    ed', t' := ReshapeStep(ed, t, key, bytesPerLine, [b0, b1]);
    assert Flagged([b0, b1], 1) == [b0, b1.(main := true)];
    ContinueOne(ed, t, key, bytesPerLine, ed', t', rest);
  }

  /** The two halves become cursors, one place further. */
  lemma {:induction false} Collapse(ed: Editor, t: Timeline, bytesPerLine: nat, rest: seq<Key>) returns (ed': Editor, t': Timeline)
    requires Reached(ed, t) && ed.mode.Normal? && |ed.buffer.view.data| == 8
    requires ed.buffer.view.selection == Sel([At(3, 0), Region(7, 4, true)], 1)
    ensures Reached(ed', t') && ed'.mode.Normal?
    ensures ed'.buffer.view == View(ed.buffer.view.data, Sel([At(4, 4), Region(8, 8, true)], 1))
    ensures Continues(ed, [CollapseSelection] + ([Move(Right, 1)] + rest), ed', rest, bytesPerLine)
  {
    var k2 := [Move(Right, 1)] + rest;
    var a, ta := PairStep(ed, t, CollapseSelection, bytesPerLine, At(3, 0), At(7, 4), At(3, 3), At(7, 7), k2);
    ed', t' := PairStep(a, ta, Move(Right, 1), bytesPerLine, At(3, 3), At(7, 7), At(4, 4), At(8, 8), rest);
    ContinueMore(ed, [CollapseSelection] + k2, a, k2, ed', rest, bytesPerLine);
  }

  lemma {:induction false} Appended(ed: Editor, t: Timeline, bytesPerLine: nat, rest: seq<Key>) returns (ed': Editor, t': Timeline)
    requires Reached(ed, t) && ed.mode.Normal? && |ed.buffer.view.data| == 8
    requires ed.buffer.view.selection == Sel([At(6, 4), Region(8, 8, true)], 1)
    ensures Reached(ed', t') && ed'.mode == Inserting(Append, true, None)
    ensures ed'.buffer.view == View(ed.buffer.view.data, Sel([At(7, 4), Region(8, 8, true)], 1))
    ensures Continues(ed, [StartAppend(true)] + rest, ed', rest, bytesPerLine)
  {
    ed', t' := PairStep(ed, t, StartAppend(true), bytesPerLine, At(6, 4), At(8, 8), At(7, 4), At(8, 8), rest);
  }

  /** A region of three bytes to append to, and right after it a cursor at the end. */
  lemma {:induction false} Spread(ed: Editor, t: Timeline, bytesPerLine: nat, rest: seq<Key>) returns (ed': Editor, t': Timeline)
    requires Reached(ed, t) && ed.mode.Normal? && |ed.buffer.view.data| == 8
    requires ed.buffer.view.selection == Sel([At(4, 4), Region(8, 8, true)], 1)
    ensures Reached(ed', t') && ed'.mode == Inserting(Append, true, None)
    ensures ed'.buffer.view == View(ed.buffer.view.data, Sel([At(7, 4), Region(8, 8, true)], 1))
    ensures Continues(ed, [Extend(Right, 2)] + ([StartAppend(true)] + rest), ed', rest, bytesPerLine)
  {
    var k2 := [StartAppend(true)] + rest;
    var a, ta := PairStep(ed, t, Extend(Right, 2), bytesPerLine, At(4, 4), At(8, 8), At(6, 4), At(8, 8), k2);
    ed', t' := Appended(a, ta, bytesPerLine, rest);
    ContinueMore(ed, [Extend(Right, 2)] + k2, a, k2, ed', rest, bytesPerLine);
  }

  lemma {:induction false} QuietStep(ed: Editor, t: Timeline, key: Key, bytesPerLine: nat, rest: seq<Key>) returns (ed': Editor)
    requires Reached(ed, t) && KeyInside(ed, key) && Effects(ed, key, bytesPerLine) == []
    ensures Reached(ed', t) && ed'.buffer == ed.buffer && ed'.mode == NextMode(ed, key)
    ensures Continues(ed, [key] + rest, ed', rest, bytesPerLine)
  {
    PressKeeps(ed, t, key, bytesPerLine);
    ed' := Press(ed, key, bytesPerLine).value;
    ContinueOne(ed, t, key, bytesPerLine, ed', t, rest);
  }

  lemma {:induction false} FirstDigitAt(v: View, digit: Byte)
    requires WellPlaced(v) && |v.data| == 8 && v.selection == Sel([At(7, 4), Region(8, 8, true)], 1)
    ensures var e := HexEffect(v, Append, None, digit);
            && ValidOn(e.delta, v.data)
            && var r := EditView(v, e.delta, e.caretShift, e.tailShift);
            && r.Ok? && |r.value.data| == 10 && r.value.selection == Sel([At(7, 4), Region(9, 10, true)], 1)
  {
    HexEffectFits(v, Append, None, digit);
    HalfView(v, digit << 4);
    var r := Edited(v, InsertEdits(v.selection.regions, [digit << 4]), -1).value;
    assert r.selection.regions == [At(7, 4), Region(9, 10, true)];
  }

  lemma {:induction false} DigitStep(ed: Editor, t: Timeline, bytesPerLine: nat, rest: seq<Key>) returns (ed': Editor, t': Timeline)
    requires Reached(ed, t) && ed.mode == Inserting(Append, true, None) && |ed.buffer.view.data| == 8
    requires ed.buffer.view.selection == Sel([At(7, 4), Region(8, 8, true)], 1)
    ensures Reached(ed', t') && ed'.mode.Inserting? && ed'.mode.how == Append && ed'.mode.hex
    ensures |ed'.buffer.view.data| == 10 && ed'.buffer.view.selection == Sel([At(7, 4), Region(9, 10, true)], 1)
    ensures Continues(ed, [TypeChar('a')] + rest, ed', rest, bytesPerLine)
  {
    FirstDigitAt(ed.buffer.view, 10);
    DigitKey(ed.mode, 'a', bytesPerLine);
    DigitA();
    ed', t' := OneStep(ed, t, TypeChar('a'), bytesPerLine, HexEffect(ed.buffer.view, Append, None, 10));
    ContinueOne(ed, t, TypeChar('a'), bytesPerLine, ed', t', rest);
  }

  /** The first digit turns the cursor at the end into a backward region. Switching to text
      input leaves it like that. */
  lemma {:induction false} Typed(ed: Editor, t: Timeline, bytesPerLine: nat, rest: seq<Key>) returns (ed': Editor, t': Timeline)
    requires Reached(ed, t) && ed.mode == Inserting(Append, true, None) && |ed.buffer.view.data| == 8
    requires ed.buffer.view.selection == Sel([At(7, 4), Region(8, 8, true)], 1)
    ensures Reached(ed', t') && ed'.mode == Inserting(Append, false, None)
    ensures |ed'.buffer.view.data| == 10 && ed'.buffer.view.selection == Sel([At(7, 4), Region(9, 10, true)], 1)
    ensures Continues(ed, [TypeChar('a')] + ([SwitchInputMode] + rest), ed', rest, bytesPerLine)
  {
    var a, ta := DigitStep(ed, t, bytesPerLine, [SwitchInputMode] + rest);
    ed' := QuietStep(a, ta, SwitchInputMode, bytesPerLine, rest);
    t' := ta;
    ContinueMore(ed, [TypeChar('a')] + ([SwitchInputMode] + rest), a, [SwitchInputMode] + rest, ed', rest, bytesPerLine);
  }

  /** Where one Backspace takes those regions. */
  lemma {:induction false} BackspaceOnce(rs: seq<Region>)
    requires rs == [At(7, 4), Region(9, 10, true)]
    ensures BackspaceEdits(rs) == [Edit.Edit(6, 7, []), Edit.Edit(8, 9, [])]
    ensures Ordered(BackspaceEdits(rs), 0, 10) && NewLen(Build(BackspaceEdits(rs), 10)) == 8
    ensures CarryRegions(Build(BackspaceEdits(rs), 10), 10, rs, 0, 0) == [At(6, 4), At(7, 8)]
  {
    var es := BackspaceEdits(rs);
    assert rs[1..] == [Region(9, 10, true)] && rs[1..][1..] == [];
    assert BackspaceEdits(rs[1..]) == [Edit.Edit(8, 9, [])] + BackspaceEdits([]);
    assert es == [Edit.Edit(6, 7, [])] + [Edit.Edit(8, 9, [])];
    var tail: seq<Edit> := [Edit.Edit(8, 9, [])];
    assert es[1..] == tail && tail[1..] == [];
    assert OneByte(es);
    assert Shifted(tail, 7, 10, 7) == 0 && Shifted(tail, 7, 10, 9) == 1 && Shifted(tail, 7, 10, 10) == 2;
    assert Shifted(es, 0, 10, 4) == 4 && Shifted(es, 0, 10, 7) == 6 && Shifted(es, 0, 10, 9) == 7 && Shifted(es, 0, 10, 10) == 8;
    CarriedAt(es, rs, 10, 0);
    CarriedAt(es, rs, 10, 1);
    BuildApplies(es, Fill(0, 10));
    TransformEnd(Build(es, 10).els, 0, 10);
    BuildTransform(es, 0, 10, 10);
  }

  lemma {:induction false} ErasedView(v: View)
    requires |v.data| == 10 && v.selection == Sel([At(7, 4), Region(9, 10, true)], 1)
    ensures var e := PartialEdit(v, BackspaceEdits(v.selection.regions), 0);
            && ValidOn(e.delta, v.data)
            && var r := EditView(v, e.delta, e.caretShift, e.tailShift);
               r.Ok? && r.value.selection == Sel([At(6, 4), Region(7, 8, true)], 1)
  {
    var rs := v.selection.regions;
    BackspaceOnce(rs);
    BuildApplies(BackspaceEdits(rs), v.data);
    var out := [At(6, 4), At(7, 8)];
    MapSinglesApart(out, 1);
    assert Flagged(out, 1) == [At(6, 4), Region(7, 8, true)];
  }

  lemma {:induction false} Erased(ed: Editor, t: Timeline, bytesPerLine: nat, rest: seq<Key>) returns (ed': Editor, t': Timeline)
    requires Reached(ed, t) && ed.mode == Inserting(Append, false, None) && |ed.buffer.view.data| == 10
    requires ed.buffer.view.selection == Sel([At(7, 4), Region(9, 10, true)], 1)
    ensures Reached(ed', t') && ed'.mode == Inserting(Append, false, None)
    ensures ed'.buffer.view.selection == Sel([At(6, 4), Region(7, 8, true)], 1)
    ensures Continues(ed, [RemoveLast] + rest, ed', rest, bytesPerLine)
  {
    var v := ed.buffer.view;
    var rs := v.selection.regions;
    ErasedView(v);
    ed', t' := OneStep(ed, t, RemoveLast, bytesPerLine, PartialEdit(v, BackspaceEdits(rs), 0));
    ContinueOne(ed, t, RemoveLast, bytesPerLine, ed', t', rest);
  }

  /** Another Backspace makes the two regions meet. */
  lemma {:induction false} EraseWitness(ed: Editor, t: Timeline, bytesPerLine: nat)
    requires Reached(ed, t) && ed.mode == Inserting(Append, false, None)
    requires ed.buffer.view.selection == Sel([At(6, 4), Region(7, 8, true)], 1)
    ensures AdmissibleRun(ed.buffer, Effects(ed, RemoveLast, bytesPerLine)) && Press(ed, RemoveLast, bytesPerLine).Panic?
  {
    var rs := ed.buffer.view.selection.regions;
    assert rs[0].caret >= rs[0].tail + 2 && StrictlyBackward(rs[1]) && BackMeets(rs, 1);
    assert BackTrips(rs);
    PressPanicsIff(ed, t, RemoveLast, bytesPerLine);
  }

  function ErasingKeys(): seq<Key> {
    [TypeChar('a')] + ([SwitchInputMode] + ([RemoveLast] + [RemoveLast]))
  }

  function SpreadingKeys(): seq<Key> {
    [CollapseSelection] + ([Move(Right, 1)] + ([Extend(Right, 2)] + ([StartAppend(true)] + ErasingKeys())))
  }

  /** Ten key presses. */
  function PanicKeys(): seq<Key> {
    [Key.SelectAll] + ([SplitWidth(4)] + SpreadingKeys())
  }

  lemma {:induction false} ErasingPanics(ed: Editor, t: Timeline, bytesPerLine: nat)
    requires Reached(ed, t) && ed.mode == Inserting(Append, true, None) && |ed.buffer.view.data| == 8
    requires ed.buffer.view.selection == Sel([At(7, 4), Region(8, 8, true)], 1)
    ensures KeysInside(ed, ErasingKeys(), bytesPerLine) && KeysReady(ed, ErasingKeys(), bytesPerLine)
    ensures PressAll(ed, ErasingKeys(), bytesPerLine).Panic?
  {
    var k2 := [RemoveLast];
    var k1 := [RemoveLast] + k2;
    var a, ta := Typed(ed, t, bytesPerLine, k1);
    var b, tb := Erased(a, ta, bytesPerLine, k2);
    ContinueMore(ed, ErasingKeys(), a, k1, b, k2, bytesPerLine);
    EraseWitness(b, tb, bytesPerLine);
    assert k2[1..] == [];
  }

  /** After opening any document of eight bytes, they make the editor panic. */
  lemma {:induction false} PanicReached(doc: Doc, bytesPerLine: nat)
    requires |doc| == 8
    ensures KeysInside(Opened(doc), PanicKeys(), bytesPerLine) && KeysReady(Opened(doc), PanicKeys(), bytesPerLine)
    ensures PressAll(Opened(doc), PanicKeys(), bytesPerLine).Panic?
  {
    var k1, k3 := SpreadingKeys(), ErasingKeys();
    var k2 := [Extend(Right, 2)] + ([StartAppend(true)] + k3);
    var a, ta := Halved(doc, 4, bytesPerLine, k1);
    var b, tb := Collapse(a, ta, bytesPerLine, k2);
    ContinueMore(Opened(doc), PanicKeys(), a, k1, b, k2, bytesPerLine);
    var c, tc := Spread(b, tb, bytesPerLine, k3);
    ContinueMore(Opened(doc), PanicKeys(), b, k2, c, k3, bytesPerLine);
    ErasingPanics(c, tc, bytesPerLine);
  }

  // ----- overwrite mode

  /** The two pieces, in overwrite mode with hex input. */
  lemma {:induction false} Overwriting(doc: Doc, step: nat, bytesPerLine: nat, rest: seq<Key>) returns (ed: Editor, t: Timeline)
    requires step < |doc| <= 2 * step
    ensures Reached(ed, t) && ed.mode == Inserting(Overwrite, true, None)
    ensures ed.buffer.view == View(doc, Sel([At(step - 1, 0), Region(|doc| - 1, step, true)], 1))
    ensures Continues(Opened(doc), OverwriteKeys(step) + rest, ed, rest, bytesPerLine)
  {
    var k := [StartOverwrite(true)] + rest;
    var a, ta := Halved(doc, step, bytesPerLine, k);
    ed := QuietStep(a, ta, StartOverwrite(true), bytesPerLine, rest);
    t := ta;
    ContinueMore(Opened(doc), [Key.SelectAll] + ([SplitWidth(step)] + k), a, k, ed, rest, bytesPerLine);
    assert OverwriteKeys(step) + rest == [Key.SelectAll] + ([SplitWidth(step)] + k);
  }

  function OverwriteKeys(step: nat): seq<Key> {
    [Key.SelectAll, SplitWidth(step), StartOverwrite(true)]
  }

  /** After opening any document of three bytes, a first digit in overwrite mode makes the
      editor panic as soon as the document has been split into two bytes and one. */
  lemma {:induction false} OverwritePanicReached(doc: Doc, bytesPerLine: nat)
    requires |doc| == 3
    ensures var keys := OverwriteKeys(2) + [TypeChar('a')];
            && KeysInside(Opened(doc), keys, bytesPerLine) && KeysReady(Opened(doc), keys, bytesPerLine)
            && PressAll(Opened(doc), keys, bytesPerLine).Panic?
  {
    var digit := [TypeChar('a')];
    var ed, t := Overwriting(doc, 2, bytesPerLine, digit);
    OverwriteWitness(ed, t, bytesPerLine);
    assert digit[1..] == [];
  }

  /** A region of two bytes and a cursor right after it trip over the first digit. */
  lemma {:induction false} OverwriteWitness(ed: Editor, t: Timeline, bytesPerLine: nat)
    requires Reached(ed, t) && ed.mode == Inserting(Overwrite, true, None)
    requires ed.buffer.view.selection.regions == [At(1, 0), Region(2, 2, true)]
    ensures AdmissibleRun(ed.buffer, Effects(ed, TypeChar('a'), bytesPerLine)) && Press(ed, TypeChar('a'), bytesPerLine).Panic?
  {
    assert HalfMeets(ed.buffer.view.selection.regions, 1);
    DigitA();
    PressPanicsIff(ed, t, TypeChar('a'), bytesPerLine);
  }

  lemma NeighbourCursors(rs: seq<Region>)
    requires rs == [At(0, 0), Region(1, 1, true)]
    ensures CaretAt(rs, 0) && CaretAt(rs, 1) && !CaretAt(rs, 2) && !HalfTrips(rs)
  {
    assert rs[0].caret == 0 && rs[1].caret == 1;
  }

  lemma {:induction false} NeighbourBytes(doc: Doc, rs: seq<Region>, top: Byte, whole: Byte, out: Doc)
    requires |doc| == 2 && rs == [At(0, 0), Region(1, 1, true)] && TypedOver(doc, rs, top, whole, out)
    ensures out == [(doc[0] & 0x0F) | top, whole]
  {
    NeighbourCursors(rs);
    assert out[0] == TypedByte(doc, rs, top, whole, 0) && out[1] == TypedByte(doc, rs, top, whole, 1);
  }

  /** Two digits on two neighbouring bytes. */
  lemma {:induction false} NeighbourTyped(ed: Editor, t: Timeline, a: char, h: nat, b: char, l: nat, bytesPerLine: nat)
    requires Reached(ed, t) && ed.mode == Inserting(Overwrite, true, None) && |ed.buffer.view.data| == 2
    requires ed.buffer.view.selection.regions == [At(0, 0), Region(1, 1, true)]
    requires h < 16 && l < 16 && NamesDigit(a, h) && NamesDigit(b, l)
    ensures KeysReady(ed, [TypeChar(a), TypeChar(b)], bytesPerLine)
    ensures var r := PressAll(ed, [TypeChar(a), TypeChar(b)], bytesPerLine);
            r.Ok? && r.value.buffer.view.data == [(ed.buffer.view.data[0] & 0x0F) | (ToByte(h) << 4), ByteOf(h, l)]
  {
    var rs := ed.buffer.view.selection.regions;
    OverwritingTwoDigits(ed, t, a, h, b, l, bytesPerLine);
    NeighbourCursors(rs);
    NeighbourBytes(ed.buffer.view.data, rs, ToByte(h) << 4, ByteOf(h, l),
                   PressAll(ed, [TypeChar(a), TypeChar(b)], bytesPerLine).value.buffer.view.data);
  }

  /** After opening any document of two bytes, typing two digits over both of them at once
      leaves the lower digit of the first byte as it was. */
  lemma {:induction false} OverwriteDiffers(doc: Doc, a: char, h: nat, b: char, l: nat, bytesPerLine: nat)
    requires |doc| == 2 && h < 16 && l < 16 && NamesDigit(a, h) && NamesDigit(b, l)
    ensures var keys := OverwriteKeys(1) + [TypeChar(a), TypeChar(b)];
            && KeysReady(Opened(doc), keys, bytesPerLine)
            && var r := PressAll(Opened(doc), keys, bytesPerLine);
               r.Ok? && r.value.buffer.view.data == [(doc[0] & 0x0F) | (ToByte(h) << 4), ByteOf(h, l)]
  {
    var digits := [TypeChar(a), TypeChar(b)];
    var ed, t := Overwriting(doc, 1, bytesPerLine, digits);
    SessionInside(ed, digits, bytesPerLine);
    NeighbourTyped(ed, t, a, h, b, l, bytesPerLine);
  }

  /** One change would have written the whole byte twice. */
  lemma {:induction false} OneChangeWrites(doc: Doc, rs: seq<Region>, whole: Byte)
    requires |doc| == 2 && rs == [At(0, 0), Region(1, 1, true)]
    ensures Ordered(ChangeEdits(rs, [whole]), 0, 2) && Splice(doc, ChangeEdits(rs, [whole]), 0) == [whole, whole]
  {
    ChangedOnce(doc, rs, whole);
    NeighbourCursors(rs);
    var out := Splice(doc, ChangeEdits(rs, [whole]), 0);
    assert !CaretAt(rs, |doc|);
    assert out[rs[0].caret] == Fill(whole, 2)[0] && out[rs[1].caret] == Fill(whole, 2)[1];
  }
}
