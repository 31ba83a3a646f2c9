/** What the user sees after a key. */
module KeyLaws {
  import opened Prelude
  import opened Characters
  import opened Delta
  import opened Builder
  import opened Region
  import opened Moves
  import opened Selections
  import opened SelectionLaws
  import opened Absorption
  import opened Operations
  import opened OperationLaws
  import opened ChangeLaws
  import opened HexTyping
  import opened ClashLaws
  import opened DeletePaste
  import opened Timeline
  import opened Search
  import opened Split
  import opened WidthSplit
  import opened Modes
  import opened ModeLaws
  import opened EditingLaws
  import opened PanicLaws
  import Selection

  /** A key whose only effect is to map the selection. */
  lemma {:induction false} PressSelect(ed: Editor, t: Timeline, key: Key, bytesPerLine: nat, outputs: seq<seq<Region>>)
    requires Reached(ed, t) && KeyInside(ed, key) && Effects(ed, key, bytesPerLine) == [Select(outputs)]
    ensures AdmissibleRun(ed.buffer, Effects(ed, key, bytesPerLine))
    ensures var v, r := SelectView(ed.buffer.view, outputs), Press(ed, key, bytesPerLine);
            && (v.Panic? <==> r.Panic?)
            && (v.Ok? ==> r.value.buffer.view == v.value && r.value.mode == NextMode(ed, key))
  {
    PressSingle(ed, t, key, bytesPerLine, Select(outputs));
  }

  // ----- moving

  /** Offset p is where some caret leads. */
  ghost predicate Lands(rs: seq<Region>, direction: Direction, bytesPerLine: nat, n: nat, count: nat, p: nat)
    requires bytesPerLine > 0
  {
    exists i :: 0 <= i < |rs| && Reaches(rs[i].caret, direction, bytesPerLine, n, count, p)
  }

  /** There are cursors exactly where the carets lead, and the main one is where the main
      caret leads. */
  ghost predicate MovedTo(before: Sel, after: Sel, direction: Direction, bytesPerLine: nat, n: nat, count: nat)
    requires bytesPerLine > 0
  {
    && AllCursors(after.regions)
    && (forall p: nat :: CaretAt(after.regions, p) <==> Lands(before.regions, direction, bytesPerLine, n, count, p))
    && before.main < |before.regions| && after.main < |after.regions|
    && Reaches(before.regions[before.main].caret, direction, bytesPerLine, n, count, after.regions[after.main].caret)
  }

  lemma CursorCarets(rs: seq<Region>, p: int)
    requires AllCursors(rs)
    ensures CaretAt(rs, p) <==> Covers(rs, p)
  {
    if i :| 0 <= i < |rs| && rs[i].caret == p {
      assert rs[i].Holds(p);
    }
    if i :| 0 <= i < |rs| && rs[i].Holds(p) {
      assert IsCursor(rs[i]);
    }
  }

  lemma {:induction false} MovedLands(rs: seq<Region>, direction: Direction, bytesPerLine: nat, n: nat, count: nat, p: nat)
    requires bytesPerLine > 0 && n > 0
    ensures CaretAt(Moved(rs, direction, bytesPerLine, n, count), p) <==> Lands(rs, direction, bytesPerLine, n, count, p)
  {
    var out := Moved(rs, direction, bytesPerLine, n, count);
    forall i | 0 <= i < |rs|
      ensures out[i].caret == p <==> Reaches(rs[i].caret, direction, bytesPerLine, n, count, p) {
      MovedCaretReaches(rs[i], direction, bytesPerLine, n, count, p);
    }
    if i :| 0 <= i < |out| && out[i].caret == p {
      assert Reaches(rs[i].caret, direction, bytesPerLine, n, count, p);
    }
    if i :| 0 <= i < |rs| && Reaches(rs[i].caret, direction, bytesPerLine, n, count, p) {
      assert out[i].caret == p;
    }
  }

  /** Cursors that are mapped one by one: they stay where they are, and equal ones are merged. */
  lemma {:induction false} CursorsMapped(v: View, out: seq<Region>)
    requires WellPlaced(v) && InOrder(v, out) && AllCursors(out) && Unflagged(out)
    ensures var r := SelectView(v, Singles(out));
            && r.Ok? && r.value.data == v.data && WellFormed(r.value.selection) && AllCursors(r.value.selection.regions)
            && (forall p: nat :: CaretAt(r.value.selection.regions, p) <==> CaretAt(out, p))
            && r.value.selection.main < |r.value.selection.regions|
            && r.value.selection.regions[r.value.selection.main].caret == out[v.selection.main].caret
  {
    var main := v.selection.main;
    CursorsBothWays(out);
    MapSinglesSameWay(out, main, false, |v.data|);
    CursorsStay(out, main);
    var s := MapSelections(Singles(out), main).value;
    forall p: nat ensures CaretAt(s.regions, p) <==> CaretAt(out, p) {
      CursorCarets(s.regions, p);
      CursorCarets(out, p);
    }
    assert IsCursor(s.regions[s.main]) && IsCursor(out[main]);
  }

  lemma {:induction false} MovedSelection(v: View, direction: Direction, bytesPerLine: nat, count: nat)
    requires WellPlaced(v) && bytesPerLine > 0 && v.data != []
    ensures var r := SelectView(v, Singles(Moved(v.selection.regions, direction, bytesPerLine, |v.data|, count)));
            && r.Ok? && r.value.data == v.data
            && MovedTo(v.selection, r.value.selection, direction, bytesPerLine, |v.data|, count)
  {
    var rs, n := v.selection.regions, |v.data|;
    var out := Moved(rs, direction, bytesPerLine, n, count);
    MoveInOrder(v, direction, bytesPerLine, count);
    CursorsMapped(v, out);
    var s := SelectView(v, Singles(out)).value.selection;
    forall p: nat ensures CaretAt(s.regions, p) <==> Lands(rs, direction, bytesPerLine, n, count, p) {
      MovedLands(rs, direction, bytesPerLine, n, count, p);
    }
    MovedCaretReaches(rs[v.selection.main], direction, bytesPerLine, n, count, s.regions[s.main].caret);
  }

  predicate Moving(mode: Mode, key: Key, direction: Direction, count: nat) {
    || (mode.Normal? && key == Move(direction, count))
    || (mode.Inserting? && mode.half.None? && key == MoveCaret(direction) && count == 1)
    || (key.ScrollUp? && direction.Up? && count == 1)
  }

  lemma {:induction false} MovingEffects(ed: Editor, key: Key, direction: Direction, count: nat, bytesPerLine: nat)
    requires EditorInv(ed) && Moving(ed.mode, key, direction, count)
    ensures KeyInside(ed, key) && NextMode(ed, key) == ed.mode
    ensures var v := ed.buffer.view;
            Effects(ed, key, bytesPerLine)
            == [Select(Singles(Moved(v.selection.regions, direction, bytesPerLine, |v.data|, count)))]
  {
  }

  /** The keys that move, in any mode: every caret goes exactly as far as its key says. */
  lemma {:induction false} MoveKeys(ed: Editor, t: Timeline, key: Key, direction: Direction, count: nat, bytesPerLine: nat)
    requires Reached(ed, t) && Moving(ed.mode, key, direction, count) && bytesPerLine > 0 && ed.buffer.view.data != []
    ensures AdmissibleRun(ed.buffer, Effects(ed, key, bytesPerLine))
    ensures var v, r := ed.buffer.view, Press(ed, key, bytesPerLine);
            && r.Ok? && r.value.mode == ed.mode && r.value.buffer.view.data == v.data
            && MovedTo(v.selection, r.value.buffer.view.selection, direction, bytesPerLine, |v.data|, count)
  {
    var v := ed.buffer.view;
    MovingEffects(ed, key, direction, count, bytesPerLine);
    MovedSelection(v, direction, bytesPerLine, count);
    PressSelect(ed, t, key, bytesPerLine, Singles(Moved(v.selection.regions, direction, bytesPerLine, |v.data|, count)));
  }

  /** In an empty document there is one cursor, and nothing moves or extends it. */
  lemma {:induction false} EmptyStays(ed: Editor, t: Timeline, key: Key, direction: Direction, count: nat, bytesPerLine: nat)
    requires Reached(ed, t) && ed.buffer.view.data == []
    requires Moving(ed.mode, key, direction, count) || (ed.mode.Normal? && key == Extend(direction, count))
    ensures AdmissibleRun(ed.buffer, Effects(ed, key, bytesPerLine))
    ensures var r := Press(ed, key, bytesPerLine);
            r.Ok? && r.value.mode == ed.mode && r.value.buffer.view == ed.buffer.view
  {
    MappedToItself(ed.buffer.view);
    EmptyEffects(ed, key, direction, count, bytesPerLine);
    PressSelect(ed, t, key, bytesPerLine, Singles(ed.buffer.view.selection.regions));
  }

  lemma {:induction false} MappedToItself(v: View)
    requires WellPlaced(v)
    ensures SelectView(v, Singles(v.selection.regions)) == Ok(v)
  {
    var rs, main := v.selection.regions, v.selection.main;
    MapSinglesApart(rs, main);
    assert Flagged(rs, main) == rs;
  }

  lemma UnmovedRegions(rs: seq<Region>, direction: Direction, bytesPerLine: nat, count: nat)
    ensures Moved(rs, direction, bytesPerLine, 0, count) == rs && Extended(rs, direction, bytesPerLine, 0, count) == rs
  {
  }

  lemma {:induction false} EmptyEffects(ed: Editor, key: Key, direction: Direction, count: nat, bytesPerLine: nat)
    requires EditorInv(ed) && ed.buffer.view.data == []
    requires Moving(ed.mode, key, direction, count) || (ed.mode.Normal? && key == Extend(direction, count))
    ensures Effects(ed, key, bytesPerLine) == [Select(Singles(ed.buffer.view.selection.regions))]
    ensures KeyInside(ed, key) && NextMode(ed, key) == ed.mode
  {
    UnmovedRegions(ed.buffer.view.selection.regions, direction, bytesPerLine, count);
    if Moving(ed.mode, key, direction, count) {
      MovingEffects(ed, key, direction, count, bytesPerLine);
    }
  }

  // ----- extending

  /** Position p lies between the tail of some region and where its caret leads. */
  ghost predicate Spanned(rs: seq<Region>, direction: Direction, bytesPerLine: nat, n: nat, count: nat, p: int)
    requires bytesPerLine > 0
  {
    exists i, to: nat ::
      && 0 <= i < |rs| && Reaches(rs[i].caret, direction, bytesPerLine, n, count, to)
      && Min(rs[i].tail, to) <= p <= Max(rs[i].tail, to)
  }

  /** Exactly those positions are selected. Regions that stay apart keep their tails, and
      their carets go where they lead. */
  ghost predicate ExtendedBy(before: Sel, after: Sel, direction: Direction, bytesPerLine: nat, n: nat, count: nat)
    requires bytesPerLine > 0
  {
    && (forall p :: Covers(after.regions, p) <==> Spanned(before.regions, direction, bytesPerLine, n, count, p))
    && (|after.regions| == |before.regions| ==>
          && after.main == before.main
          && forall i :: 0 <= i < |after.regions| ==>
               && after.regions[i].tail == before.regions[i].tail
               && Reaches(before.regions[i].caret, direction, bytesPerLine, n, count, after.regions[i].caret))
  }

  lemma {:induction false} ExtendedSpans(rs: seq<Region>, direction: Direction, bytesPerLine: nat, n: nat, count: nat, p: int)
    requires bytesPerLine > 0 && n > 0
    ensures Covers(Extended(rs, direction, bytesPerLine, n, count), p) <==> Spanned(rs, direction, bytesPerLine, n, count, p)
  {
    var out := Extended(rs, direction, bytesPerLine, n, count);
    if i :| 0 <= i < |out| && out[i].Holds(p) {
      MovedCaretReaches(rs[i], direction, bytesPerLine, n, count, out[i].caret);
    }
    if i, to: nat :| 0 <= i < |rs| && Reaches(rs[i].caret, direction, bytesPerLine, n, count, to)
                     && Min(rs[i].tail, to) <= p <= Max(rs[i].tail, to) {
      MovedCaretReaches(rs[i], direction, bytesPerLine, n, count, to);
      assert out[i].Holds(p);
    }
  }

  lemma {:induction false} NoMeetings(rs: seq<Region>, k: nat, j: nat)
    requires Meetings(rs, k) == 0 && k <= j < |rs| && j > 0
    ensures rs[j - 1].Hi() < rs[j].Lo()
    decreases j - k
  {
    if k < j {
      NoMeetings(rs, k + 1, j);
    }
  }

  lemma {:induction false} StepsSort(rs: seq<Region>, i: nat, j: nat)
    requires i < j < |rs| && forall k :: 0 < k < |rs| ==> StepsUp(rs, k)
    ensures rs[i].Hi() < rs[j].Lo()
    decreases j - i
  {
    assert StepsUp(rs, j);
    if i < j - 1 {
      StepsSort(rs, i, j - 1);
    }
  }

  predicate StepsUp(rs: seq<Region>, k: nat)
    requires 0 < k < |rs|
  {
    rs[k - 1].Hi() < rs[k].Lo()
  }

  /** As many regions as before: none has been merged. */
  lemma {:induction false} NoneMerged(rs: seq<Region>, main: nat)
    requires MapSelections(Singles(rs), main).Ok? && |MapSelections(Singles(rs), main).value.regions| == |rs|
    ensures Sorted(rs)
  {
    MergingCounts(rs, main, 0, [], 0);
    forall k | 0 < k < |rs| ensures StepsUp(rs, k) {
      NoMeetings(rs, 0, k);
    }
    forall i, j | 0 <= i < j < |rs| ensures rs[i].Hi() < rs[j].Lo() {
      StepsSort(rs, i, j);
    }
  }

  /** Regions mapped one by one: the same positions are selected, and if none is merged the
      regions are taken over. */
  lemma {:induction false} SinglesMapped(v: View, out: seq<Region>)
    requires WellPlaced(v) && InOrder(v, out) && SelectView(v, Singles(out)).Ok?
    ensures var r := SelectView(v, Singles(out)).value;
            && r.data == v.data
            && (forall p :: Covers(r.selection.regions, p) <==> Covers(out, p))
            && (|r.selection.regions| == |out| ==>
                  r.selection.main == v.selection.main && SameEnds(r.selection.regions, out))
  {
    var main := v.selection.main;
    FlattenSingles(out);
    FlattenSinglesPrefix(out, main + 1);
    MapCanonical(Singles(out), main);
    var s := MapSelections(Singles(out), main).value;
    if |s.regions| == |out| {
      NoneMerged(out, main);
      MapSinglesApart(out, main);
    }
  }

  predicate SameEnds(a: seq<Region>, b: seq<Region>) {
    |a| == |b| && forall i :: 0 <= i < |a| ==> a[i].caret == b[i].caret && a[i].tail == b[i].tail
  }

  lemma {:induction false} ExtendedSelection(v: View, direction: Direction, bytesPerLine: nat, count: nat)
    requires WellPlaced(v) && bytesPerLine > 0 && v.data != []
    ensures var r := SelectView(v, Singles(Extended(v.selection.regions, direction, bytesPerLine, |v.data|, count)));
            && r.Ok? && r.value.data == v.data
            && ExtendedBy(v.selection, r.value.selection, direction, bytesPerLine, |v.data|, count)
  {
    var rs, n := v.selection.regions, |v.data|;
    var out := Extended(rs, direction, bytesPerLine, n, count);
    ExtendInOrder(v, direction, bytesPerLine, count);
    ExtendCalm(v, direction, bytesPerLine, count);
    SinglesMapped(v, out);
    forall p ensures Covers(out, p) <==> Spanned(rs, direction, bytesPerLine, n, count, p) {
      ExtendedSpans(rs, direction, bytesPerLine, n, count, p);
    }
    forall i | 0 <= i < |rs| ensures Reaches(rs[i].caret, direction, bytesPerLine, n, count, out[i].caret) {
      MovedCaretReaches(rs[i], direction, bytesPerLine, n, count, out[i].caret);
    }
  }

  lemma {:induction false} ExtendKey(ed: Editor, t: Timeline, direction: Direction, count: nat, bytesPerLine: nat)
    requires Reached(ed, t) && ed.mode.Normal? && bytesPerLine > 0 && ed.buffer.view.data != []
    ensures AdmissibleRun(ed.buffer, Effects(ed, Extend(direction, count), bytesPerLine))
    ensures var v, r := ed.buffer.view, Press(ed, Extend(direction, count), bytesPerLine);
            && r.Ok? && r.value.mode.Normal? && r.value.buffer.view.data == v.data
            && ExtendedBy(v.selection, r.value.buffer.view.selection, direction, bytesPerLine, |v.data|, count)
  {
    var v := ed.buffer.view;
    ExtendedSelection(v, direction, bytesPerLine, count);
    PressSelect(ed, t, Extend(direction, count), bytesPerLine,
                Singles(Extended(v.selection.regions, direction, bytesPerLine, |v.data|, count)));
  }

  // ----- the other keys that map every region

  lemma {:induction false} ReshapeKey(ed: Editor, t: Timeline, key: Key, bytesPerLine: nat, out: seq<Region>)
    requires Reached(ed, t) && ed.mode.Normal? && KeyInside(ed, key) && Reshaped(ed.buffer.view, key, bytesPerLine) == Some(out)
    ensures AdmissibleRun(ed.buffer, Effects(ed, key, bytesPerLine))
    ensures var v, r := SelectView(ed.buffer.view, Singles(out)), Press(ed, key, bytesPerLine);
            && (v.Panic? <==> r.Panic?)
            && (v.Ok? ==> r.value.buffer.view == v.value && r.value.mode == NormalNext(key))
  {
    assert Effects(ed, key, bytesPerLine) == [Select(Singles(out))];
    PressSelect(ed, t, key, bytesPerLine, Singles(out));
  }

  /** Jumping leaves one cursor, at the offset. */
  lemma {:induction false} JumpKey(ed: Editor, t: Timeline, offset: nat, bytesPerLine: nat)
    requires Reached(ed, t) && ed.mode.Normal? && offset <= |ed.buffer.view.data|
    ensures AdmissibleRun(ed.buffer, Effects(ed, JumpTo(offset), bytesPerLine))
    ensures var r := Press(ed, JumpTo(offset), bytesPerLine);
            && r.Ok? && r.value.mode.Normal?
            && r.value.buffer.view == View(ed.buffer.view.data, Sel([Region(offset, offset, true)], 0))
  {
    var v := ed.buffer.view;
    var out := JumpedTo(v.selection.regions, offset);
    OffsetInOrder(v, offset);
    CursorsMapped(v, out);
    ReshapeKey(ed, t, JumpTo(offset), bytesPerLine, out);
    OneCursor(SelectView(v, Singles(out)).value, offset);
  }

  lemma {:induction false} OneCursor(v: View, offset: nat)
    requires WellFormed(v.selection) && AllCursors(v.selection.regions)
    requires forall p: nat :: CaretAt(v.selection.regions, p) ==> p == offset
    ensures v.selection == Sel([Region(offset, offset, true)], 0)
  {
    var rs := v.selection.regions;
    forall i | 0 <= i < |rs| ensures rs[i].caret == offset && rs[i].tail == offset {
      assert CaretAt(rs, rs[i].caret) && IsCursor(rs[i]);
    }
    assert |rs| > 1 ==> rs[0].Hi() < rs[1].Lo();
  }

  /** Regions that keep their places are taken over one by one. */
  lemma {:induction false} PlacesKept(v: View, out: seq<Region>)
    requires WellPlaced(v) && |out| == |v.selection.regions|
    requires forall i :: 0 <= i < |out| ==> Within(out[i], v.selection.regions[i])
    ensures var r := SelectView(v, Singles(out));
            && r.Ok? && r.value.data == v.data && r.value.selection.main == v.selection.main
            && SameEnds(r.value.selection.regions, out)
  {
    var rs := v.selection.regions;
    forall i, j | 0 <= i < j < |out| ensures out[i].Hi() < out[j].Lo() {
      assert Within(out[i], rs[i]) && Within(out[j], rs[j]) && rs[i].Hi() < rs[j].Lo();
    }
    MapSinglesApart(out, v.selection.main);
  }

  /** What a key makes of one region, for the keys that keep it in its place: swapping puts the
      caret where the tail was, collapsing the tail where the caret is, and inserting starts
      at the first position with the caret. */
  ghost predicate Turned(key: Key, r: Region, r': Region) {
    || (key.SwapCaret? && r'.caret == r.tail && r'.tail == r.caret)
    || (key.CollapseSelection? && r'.caret == r.caret && r'.tail == r.caret)
    || (key.StartInsert? && r'.caret <= r'.tail && (forall p :: r'.Holds(p) <==> r.Holds(p)))
  }

  predicate Turns(key: Key) {
    key.SwapCaret? || key.CollapseSelection? || key.StartInsert?
  }

  lemma {:induction false} TurnedOutputs(v: View, key: Key, bytesPerLine: nat)
    requires WellPlaced(v) && Turns(key)
    ensures var out := Reshaped(v, key, bytesPerLine);
            && out.Some?
            && forall i :: 0 <= i < |v.selection.regions| ==>
                 Within(out.value[i], v.selection.regions[i]) && Turned(key, v.selection.regions[i], out.value[i])
  {
    var rs, out := v.selection.regions, Reshaped(v, key, bytesPerLine).value;
    forall i | 0 <= i < |rs| ensures Within(out[i], rs[i]) && Turned(key, rs[i], out[i]) {
      assert out[i].Lo() >= rs[i].Lo() && out[i].Hi() <= rs[i].Hi();
    }
  }

  lemma {:induction false} TurnKeys(ed: Editor, t: Timeline, key: Key, bytesPerLine: nat)
    requires Reached(ed, t) && ed.mode.Normal? && Turns(key)
    ensures AdmissibleRun(ed.buffer, Effects(ed, key, bytesPerLine))
    ensures var s, r := ed.buffer.view.selection, Press(ed, key, bytesPerLine);
            && r.Ok? && r.value.buffer.view.data == ed.buffer.view.data
            && r.value.mode == (if key.StartInsert? then Inserting(InsertionMode.Insert, key.hex, None) else Normal)
            && var s' := r.value.buffer.view.selection;
            && s'.main == s.main && |s'.regions| == |s.regions|
            && forall i :: 0 <= i < |s.regions| ==> Turned(key, s.regions[i], s'.regions[i])
  {
    var v := ed.buffer.view;
    TurnedOutputs(v, key, bytesPerLine);
    var out := Reshaped(v, key, bytesPerLine).value;
    PlacesKept(v, out);
    ReshapeKey(ed, t, key, bytesPerLine, out);
    var s' := Press(ed, key, bytesPerLine).value.buffer.view.selection;
    forall i | 0 <= i < |out| ensures Turned(key, v.selection.regions[i], s'.regions[i]) {
      assert forall p :: s'.regions[i].Holds(p) <==> out[i].Holds(p);
    }
  }

  /** The selection that append mode starts with: every region points forward and is longer
      by one position, as long as there is one; regions that meet are joined. */
  ghost predicate Appended(before: Sel, after: Sel, n: nat) {
    && SameWay(after.regions, false)
    && forall p :: Covers(after.regions, p) <==> Covers(before.regions, p) || (p <= n && Covers(before.regions, p - 1))
  }

  lemma {:induction false} AppendSelection(v: View, bytesPerLine: nat)
    requires WellPlaced(v)
    ensures var r := SelectView(v, Singles(Appending(v.selection.regions, bytesPerLine, |v.data|)));
            r.Ok? && r.value.data == v.data && Appended(v.selection, r.value.selection, |v.data|)
  {
    var rs, out := v.selection.regions, Appending(v.selection.regions, bytesPerLine, |v.data|);
    KeysInOrder(v, bytesPerLine);
    StartCalm(v, bytesPerLine);
    SinglesMapped(v, out);
    WayStays(out, v.selection.main, 0, [], 0, false);
    forall p ensures Covers(out, p) <==> Covers(rs, p) || (p <= |v.data| && Covers(rs, p - 1)) {
      AppendingCovers(rs, bytesPerLine, |v.data|, p);
    }
  }

  lemma {:induction false} AppendKey(ed: Editor, t: Timeline, hex: bool, bytesPerLine: nat)
    requires Reached(ed, t) && ed.mode.Normal?
    ensures AdmissibleRun(ed.buffer, Effects(ed, StartAppend(hex), bytesPerLine))
    ensures var v, r := ed.buffer.view, Press(ed, StartAppend(hex), bytesPerLine);
            && r.Ok? && r.value.buffer.view.data == v.data && r.value.mode == Inserting(Append, hex, None)
            && Appended(v.selection, r.value.buffer.view.selection, |v.data|)
  {
    var v := ed.buffer.view;
    AppendSelection(v, bytesPerLine);
    ReshapeKey(ed, t, StartAppend(hex), bytesPerLine, Appending(v.selection.regions, bytesPerLine, |v.data|));
  }

  lemma {:induction false} AppendingCovers(rs: seq<Region>, bytesPerLine: nat, n: nat, p: int)
    requires InBounds(rs, n)
    ensures Covers(Appending(rs, bytesPerLine, n), p) <==> Covers(rs, p) || (p <= n && Covers(rs, p - 1))
  {
    var out := Appending(rs, bytesPerLine, n);
    forall i | 0 <= i < |rs| ensures out[i].Holds(p) <==> rs[i].Holds(p) || (p <= n && rs[i].Holds(p - 1)) {
    }
    if i :| 0 <= i < |out| && out[i].Holds(p) {
      assert rs[i].Holds(p) || rs[i].Holds(p - 1);
    }
    if i :| 0 <= i < |rs| && rs[i].Holds(p) {
      assert out[i].Holds(p);
    }
    if p <= n {
      if i :| 0 <= i < |rs| && rs[i].Holds(p - 1) {
        assert out[i].Holds(p);
      }
    }
  }

  // ----- moving away from a half-typed byte

  /** Offset p is where some caret leads, one byte further left. */
  ghost predicate LandsLeft(rs: seq<Region>, direction: Direction, bytesPerLine: nat, n: nat, p: nat)
    requires bytesPerLine > 0
  {
    exists m: nat :: Lands(rs, direction, bytesPerLine, n, 1, m) && Reaches(m, Left, bytesPerLine, n, 1, p)
  }

  lemma {:induction false} HalfMoveLands(rs: seq<Region>, direction: Direction, bytesPerLine: nat, n: nat, p: nat)
    requires bytesPerLine > 0 && n > 0
    ensures CaretAt(CaretMoved(rs, direction, bytesPerLine, n, true), p) <==> LandsLeft(rs, direction, bytesPerLine, n, p)
  {
    var once := Moved(rs, direction, bytesPerLine, n, 1);
    MovedLands(once, Left, bytesPerLine, n, 1, p);
    if i :| 0 <= i < |once| && Reaches(once[i].caret, Left, bytesPerLine, n, 1, p) {
      assert CaretAt(once, once[i].caret);
      MovedLands(rs, direction, bytesPerLine, n, 1, once[i].caret);
    }
    if m: nat :| Lands(rs, direction, bytesPerLine, n, 1, m) && Reaches(m, Left, bytesPerLine, n, 1, p) {
      MovedLands(rs, direction, bytesPerLine, n, 1, m);
      var i :| 0 <= i < |once| && once[i].caret == m;
      assert Reaches(once[i].caret, Left, bytesPerLine, n, 1, p);
    }
  }

  /** After the byte has been completed, cursors are left one byte before where the carets
      lead: on the byte that was typed, if the move is to the right. */
  lemma {:induction false} HalfMoveSelection(v: View, direction: Direction, bytesPerLine: nat)
    requires WellPlaced(v) && bytesPerLine > 0 && v.data != []
    ensures var r := SelectView(v, Singles(CaretMoved(v.selection.regions, direction, bytesPerLine, |v.data|, true)));
            && r.Ok? && r.value.data == v.data && AllCursors(r.value.selection.regions)
            && forall p: nat :: CaretAt(r.value.selection.regions, p) <==>
                                LandsLeft(v.selection.regions, direction, bytesPerLine, |v.data|, p)
  {
    var rs, n := v.selection.regions, |v.data|;
    var out := CaretMoved(rs, direction, bytesPerLine, n, true);
    CaretMoveInOrder(v, direction, bytesPerLine, true);
    CursorsMapped(v, out);
    forall p: nat ensures CaretAt(out, p) <==> LandsLeft(rs, direction, bytesPerLine, n, p) {
      HalfMoveLands(rs, direction, bytesPerLine, n, p);
    }
  }

  /** From `mid`, where the byte is complete, to `after`. */
  ghost predicate MovedOn(mid: View, after: View, direction: Direction, bytesPerLine: nat)
    requires bytesPerLine > 0
  {
    && after.data == mid.data && AllCursors(after.selection.regions)
    && forall p: nat :: CaretAt(after.selection.regions, p) <==>
                        LandsLeft(mid.selection.regions, direction, bytesPerLine, |mid.data|, p)
  }

  /** The two steps: `mid` is what the first one leaves, if it does not panic. */
  ghost predicate MovesOver(v: View, es: seq<Effect>, half: Byte, direction: Direction, bytesPerLine: nat) {
    && Ordered(ChangeEdits(v.selection.regions, [half]), 0, |v.data|)
    && es != [] && es[0] == PartialEdit(v, ChangeEdits(v.selection.regions, [half]), 0) && ValidOn(es[0].delta, v.data)
    && var mid := Edited(v, ChangeEdits(v.selection.regions, [half]), 0);
    && EditView(v, es[0].delta, 0, 0) == mid
    && if mid.Panic? then |es| == 1
       else
         && |es| == 2
         && es[1] == Select(Singles(CaretMoved(mid.value.selection.regions, direction, bytesPerLine, |mid.value.data|, true)))
  }

  lemma {:induction false} HalfMoveEffects(v: View, mode: Mode, direction: Direction, bytesPerLine: nat, half: Byte)
    requires WellPlaced(v) && mode.Inserting? && mode.half == Some(half)
    ensures MovesOver(v, CompleteAndMove(v, mode, direction, bytesPerLine), half, direction, bytesPerLine)
  {
    ChangeOrdered(v.selection.regions, [half], |v.data|);
    BuildApplies(ChangeEdits(v.selection.regions, [half]), v.data);
    assert HexEffect(v, mode.how, mode.half, 0) == PartialEdit(v, ChangeEdits(v.selection.regions, [half]), 0) by {
      NoMoreBits(half);
    }
  }

  lemma {:induction false} HalfMoveRun(t: Timeline, mode: Mode, direction: Direction, bytesPerLine: nat, half: Byte)
    requires Placed(t) && mode.Inserting? && mode.half == Some(half) && bytesPerLine > 0
    ensures Ordered(ChangeEdits(t.now.selection.regions, [half]), 0, |t.now.data|)
    ensures TimelyRun(t, CompleteAndMove(t.now, mode, direction, bytesPerLine))
    ensures var mid := Edited(t.now, ChangeEdits(t.now.selection.regions, [half]), 0);
            var r := RunTimeline(t, CompleteAndMove(t.now, mode, direction, bytesPerLine));
            && (r.Panic? <==> mid.Panic?)
            && (r.Ok? ==> MovedOn(mid.value, r.value.now, direction, bytesPerLine))
  {
    var v := t.now;
    var es := CompleteAndMove(v, mode, direction, bytesPerLine);
    HalfMoveEffects(v, mode, direction, bytesPerLine, half);
    CompleteAndMoveKeeps(t, mode, direction, bytesPerLine);
    match Edited(v, ChangeEdits(v.selection.regions, [half]), 0)
    case Panic => assert Advance(t, es[0]).Panic?;
    case Ok(mid) =>
      MidSound(v, half, mid);
      HalfMoveSelection(mid, direction, bytesPerLine);
      TwoSteps(t, es, mid, es[1].outputs);
  }

  lemma {:induction false} MidSound(v: View, half: Byte, mid: View)
    requires WellPlaced(v) && Ordered(ChangeEdits(v.selection.regions, [half]), 0, |v.data|)
    requires Edited(v, ChangeEdits(v.selection.regions, [half]), 0) == Ok(mid)
    ensures WellPlaced(mid) && mid.data != []
  {
    OrderedSound(v, ChangeEdits(v.selection.regions, [half]), false);
    ChangeMeaning(v.data, v.selection.regions, [half]);
    CompletedNotEmpty(v, half, mid);
  }

  /** Moving away from a half-typed byte completes it with a zero digit first, which is one
      change of the bytes under the carets, and may panic as that does. */
  lemma {:induction false} HalfMoveKey(ed: Editor, t: Timeline, direction: Direction, bytesPerLine: nat, half: Byte)
    requires Reached(ed, t) && ed.mode.Inserting? && ed.mode.half == Some(half) && bytesPerLine > 0
    ensures AdmissibleRun(ed.buffer, Effects(ed, MoveCaret(direction), bytesPerLine))
    ensures Ordered(ChangeEdits(ed.buffer.view.selection.regions, [half]), 0, |ed.buffer.view.data|)
    ensures var v, r := ed.buffer.view, Press(ed, MoveCaret(direction), bytesPerLine);
            var mid := Edited(v, ChangeEdits(v.selection.regions, [half]), 0);
            && (r.Panic? <==> mid.Panic?)
            && (r.Ok? ==> r.value.mode == ed.mode.(half := None)
                          && MovedOn(mid.value, r.value.buffer.view, direction, bytesPerLine))
  {
    HalfMoveRun(t, ed.mode, direction, bytesPerLine, half);
    MoveCaretEffects(ed, direction, bytesPerLine);
    PressKeeps(ed, t, MoveCaret(direction), bytesPerLine);
  }

  lemma MoveCaretEffects(ed: Editor, direction: Direction, bytesPerLine: nat)
    requires EditorInv(ed) && ed.mode.Inserting? && ed.mode.half.Some?
    ensures Effects(ed, MoveCaret(direction), bytesPerLine) == CompleteAndMove(ed.buffer.view, ed.mode, direction, bytesPerLine)
    ensures NextMode(ed, MoveCaret(direction)) == ed.mode.(half := None) && KeyInside(ed, MoveCaret(direction))
  {
  }

  lemma NoMoreBits(half: Byte)
    ensures half | 0 == half
  {
  }

  lemma {:induction false} CompletedNotEmpty(v: View, half: Byte, mid: View)
    requires WellPlaced(v) && ChangedTo(v.data, v.selection.regions, [half], mid.data)
    ensures mid.data != []
  {
    assert StandsAt(mid.data, v.selection.regions[0].caret + 0 * 0, [half]);
  }

  lemma {:induction false} TwoSteps(t: Timeline, es: seq<Effect>, mid: View, outputs: seq<seq<Region>>)
    requires |es| == 2 && es[0].Edit? && !es[0].final && es[1] == Select(outputs) && TimelyRun(t, es)
    requires ValidOn(es[0].delta, t.now.data)
    requires EditView(t.now, es[0].delta, es[0].caretShift, es[0].tailShift) == Ok(mid)
    requires SelectView(mid, outputs).Ok?
    ensures RunTimeline(t, es).Ok? && RunTimeline(t, es).value.now == SelectView(mid, outputs).value
  {
    var t' := Advance(t, es[0]).value;
    assert es[1..][1..] == [] && es[1..][0] == es[1];
    var t'' := Advance(t', es[1]).value;
    assert RunTimeline(t'', []) == Ok(t'');
  }

  // ----- text

  /** The character's encoding has been inserted before every caret. */
  ghost predicate TextInserted(doc: Doc, rs: seq<Region>, ch: char, out: Doc) {
    exists es: seq<Edit> ::
      && InsertedInto(doc, es, out) && |es| == |rs|
      && forall k :: 0 <= k < |rs| ==> es[k].beg == rs[k].caret && Decode(es[k].text) == Some(ch)
  }

  /** It has been written over the byte under every caret. */
  ghost predicate TextWritten(doc: Doc, rs: seq<Region>, ch: char, out: Doc) {
    exists text :: Decode(text) == Some(ch) && ChangedTo(doc, rs, text, out)
  }

  lemma {:induction false} TextDone(v: View, how: InsertionMode, text: Doc, ch: char)
    requires WellPlaced(v) && Decode(text) == Some(ch)
    ensures var d := TextEffect(v, how, text).delta;
            && ValidOn(d, v.data)
            && if how == Overwrite then TextWritten(v.data, v.selection.regions, ch, Apply(d, v.data))
               else TextInserted(v.data, v.selection.regions, ch, Apply(d, v.data))
  {
    var rs := v.selection.regions;
    if how == Overwrite {
      ChangeMeaning(v.data, rs, text);
    } else {
      InsertMeaning(v.data, rs, text);
      assert InsertedInto(v.data, InsertEdits(rs, text), Apply(Build(InsertEdits(rs, text), |v.data|), v.data));
    }
  }

  /** Typing a character as text: it goes in front of every caret, or in overwrite mode in
      place of the byte under it, and reads back as that character. */
  lemma {:induction false} TextKey(ed: Editor, t: Timeline, ch: char, bytesPerLine: nat)
    requires Reached(ed, t) && ed.mode.Inserting? && !ed.mode.hex
    ensures AdmissibleRun(ed.buffer, Effects(ed, TypeChar(ch), bytesPerLine))
    ensures var v, r := ed.buffer.view, Press(ed, TypeChar(ch), bytesPerLine);
            && (r.Panic? <==> ed.mode.how == Overwrite && CaretTrips(v.selection.regions))
            && (r.Ok? ==>
                  && r.value.mode == ed.mode
                  && if ed.mode.how == Overwrite then TextWritten(v.data, v.selection.regions, ch, r.value.buffer.view.data)
                     else TextInserted(v.data, v.selection.regions, ch, r.value.buffer.view.data))
  {
    var v, text := ed.buffer.view, Encode(ch);
    DecodesIff(text, ch);
    TextPanics(v, ed.mode.how, text);
    TextDone(v, ed.mode.how, text, ch);
    TextEffects(ed, ch, bytesPerLine);
    PressEdit(ed, t, TypeChar(ch), bytesPerLine, TextEffect(v, ed.mode.how, text));
  }

  lemma TextEffects(ed: Editor, ch: char, bytesPerLine: nat)
    requires EditorInv(ed) && ed.mode.Inserting?
    ensures !ed.mode.hex ==>
              && Effects(ed, TypeChar(ch), bytesPerLine) == [TextEffect(ed.buffer.view, ed.mode.how, Encode(ch))]
              && NextMode(ed, TypeChar(ch)) == ed.mode && KeyInside(ed, TypeChar(ch))
    ensures Effects(ed, InsertNull, bytesPerLine) == [TextEffect(ed.buffer.view, InsertionMode.Insert, [0])]
    ensures NextMode(ed, InsertNull) == ed.mode.(half := None) && KeyInside(ed, InsertNull)
  {
  }

  /** The key for a null byte inserts one before every caret, whatever the mode. */
  lemma {:induction false} NullKey(ed: Editor, t: Timeline, bytesPerLine: nat)
    requires Reached(ed, t) && ed.mode.Inserting?
    ensures AdmissibleRun(ed.buffer, Effects(ed, InsertNull, bytesPerLine))
    ensures var v, r := ed.buffer.view, Press(ed, InsertNull, bytesPerLine);
            && r.Ok? && r.value.mode == ed.mode.(half := None)
            && TextInserted(v.data, v.selection.regions, 0 as char, r.value.buffer.view.data)
  {
    var v := ed.buffer.view;
    NullDecodes();
    InsertTextCalm(v, [0]);
    TextDone(v, InsertionMode.Insert, [0], 0 as char);
    TextEffects(ed, 'a', bytesPerLine);
    PressEdit(ed, t, InsertNull, bytesPerLine, TextEffect(v, InsertionMode.Insert, [0]));
  }

  lemma NullDecodes()
    ensures Decode([0]) == Some(0 as char)
  {
    DecodesIff([0], 0 as char);
  }

  // ----- registers

  /** Deleting, changing and yanking fill the register they name; no other key changes one. */
  lemma {:induction false} RegistersTold(ed: Editor, key: Key)
    requires EditorInv(ed)
    ensures if ed.mode.Normal? && (key.Delete? || key.Change? || key.Yank?)
            then HoldsTexts(ed.registers, RegistersAfter(ed, key), key.register, ed.buffer.view)
            else RegistersAfter(ed, key) == ed.registers
  {
  }

  /** Yanking changes nothing else. */
  lemma {:induction false} YankKey(ed: Editor, t: Timeline, name: char, bytesPerLine: nat)
    requires Reached(ed, t) && ed.mode.Normal?
    ensures AdmissibleRun(ed.buffer, Effects(ed, Yank(name), bytesPerLine))
    ensures var v, r := ed.buffer.view, Press(ed, Yank(name), bytesPerLine);
            && r.Ok? && r.value.mode.Normal? && r.value.buffer == ed.buffer
            && HoldsTexts(ed.registers, r.value.registers, name, v)
  {
    RegistersTold(ed, Yank(name));
    assert Effects(ed, Yank(name), bytesPerLine) == [];
  }

  /** The register holds, in order, what the regions select of the document; the others are
      as before. */
  ghost predicate HoldsTexts(before: Registers, after: Registers, name: char, v: View)
    requires InBounds(v.selection.regions, |v.data|)
  {
    && name in after && |after[name]| == |v.selection.regions|
    && (forall i :: 0 <= i < |v.selection.regions| ==> TextOf(v.data, v.selection.regions[i], after[name][i]))
    && (forall other :: other != name ==> (other in after <==> other in before))
    && (forall other :: other != name && other in before ==> after[other] == before[other])
  }

  /** The text is the bytes of the document at the positions of the region. */
  ghost predicate TextOf(doc: Doc, r: Region, text: Doc) {
    && r.Lo() + |text| <= |doc| && text == doc[r.Lo()..r.Lo() + |text|]
    && forall p :: r.Lo() <= p < |doc| ==> (r.Holds(p) <==> p < r.Lo() + |text|)
  }

  // ----- pasting

  /** So many copies of the text, one after the other. */
  lemma {:induction false} RepeatMeaning(text: Doc, count: nat, i: nat)
    requires i < |Repeat(text, count)|
    ensures |text| > 0 && Repeat(text, count)[i] == text[i % |text|]
    decreases count
  {
    var rest := Repeat(text, count - 1);
    assert Repeat(text, count) == text + rest;
    if i >= |text| {
      RepeatMeaning(text, count - 1, i - |text|);
      OneLess(i, |text|);
    } else {
      Short(i, |text|);
    }
  }

  lemma Short(i: nat, m: nat)
    requires i < m
    ensures i % m == i
  {
  }

  lemma {:induction false} RepeatLength(text: Doc, count: nat)
    ensures |Repeat(text, count)| == count * |text|
  {
    if count > 0 {
      RepeatLength(text, count - 1);
      LinesAdd(count - 1, 1, |text|);
    }
  }

  lemma OneLess(i: nat, m: nat)
    requires i >= m > 0
    ensures (i - m) % m == i % m
  {
    OffsetIs(i, i / m, i % m, m);
    LinesAdd(i / m - 1, 1, m);
    OffsetIs(i - m, i / m - 1, i % m, m);
  }

  /** Copies of register entry k, or of the last one, are inserted at region k: right before
      its first position, or right after its last one but not past the end. */
  ghost predicate Pasted(v: View, register: seq<Doc>, after: bool, count: nat, out: Doc)
    requires register != []
  {
    exists es: seq<Edit> ::
      && InsertedInto(v.data, es, out) && |es| == |v.selection.regions|
      && forall k: nat :: k < |es| ==> PastesInto(v.selection.regions[k], EntryFor(register, k), after, count, |v.data|, es[k])
  }

  function EntryFor(register: seq<Doc>, k: nat): Doc
    requires register != []
  {
    if k < |register| then register[k] else register[|register| - 1]
  }

  ghost predicate PastesInto(r: Region, entry: Doc, after: bool, count: nat, n: nat, e: Edit) {
    PastedAt(r, after, n, e.beg) && Copies(entry, count, e.text)
  }

  lemma {:induction false} PasteInto(r: Region, entry: Doc, after: bool, count: nat, n: nat, e: Edit)
    requires r.Hi() <= n && e.beg == PastePosition(r, after, n) && e.text == Repeat(entry, count)
    ensures PastesInto(r, entry, after, count, n, e)
  {
    CopiesRepeat(entry, count);
  }

  ghost predicate PastedAt(r: Region, after: bool, n: nat, at: nat) {
    if !after then r.Holds(at) && !r.Holds(at - 1)
    else if r.Holds(n) then at == n
    else r.Holds(at - 1) && !r.Holds(at)
  }

  ghost predicate Copies(text: Doc, count: nat, out: Doc) {
    |out| == count * |text| && forall i :: 0 <= i < |out| && |text| > 0 ==> out[i] == text[i % |text|]
  }

  lemma {:induction false} CopiesRepeat(text: Doc, count: nat)
    ensures Copies(text, count, Repeat(text, count))
  {
    RepeatLength(text, count);
    forall i | 0 <= i < |Repeat(text, count)| && |text| > 0 ensures Repeat(text, count)[i] == text[i % |text|] {
      RepeatMeaning(text, count, i);
    }
  }

  lemma {:induction false} PastedEdits(v: View, register: seq<Doc>, after: bool, count: nat)
    requires WellPlaced(v) && register != []
    ensures var d := Build(PasteEdits(v.selection.regions, 0, register, after, count, |v.data|), |v.data|);
            ValidOn(d, v.data) && Pasted(v, register, after, count, Apply(d, v.data))
  {
    var rs, n := v.selection.regions, |v.data|;
    var es := PasteEdits(rs, 0, register, after, count, n);
    PasteMeaning(v.data, rs, register, after, count);
    forall k: nat | k < |es| ensures PastesInto(rs[k], EntryFor(register, k), after, count, n, es[k]) {
      PasteInto(rs[k], EntryFor(register, k), after, count, n, es[k]);
    }
    assert InsertedInto(v.data, es, Apply(Build(es, n), v.data));
  }

  lemma {:induction false} PasteKey(ed: Editor, t: Timeline, after: bool, name: char, count: nat, bytesPerLine: nat)
    requires Reached(ed, t) && ed.mode.Normal?
    ensures AdmissibleRun(ed.buffer, Effects(ed, Paste(after, name, count), bytesPerLine))
    ensures var v, r := ed.buffer.view, Press(ed, Paste(after, name, count), bytesPerLine);
            && r.Ok? && r.value.mode.Normal? && r.value.registers == ed.registers
            && Pasted(v, if name in ed.registers then ed.registers[name] else [[]], after, count, r.value.buffer.view.data)
  {
    var v, texts := ed.buffer.view, Register(ed.registers, name);
    PasteCalm(v, texts, after, count);
    PastedEdits(v, texts, after, count);
    PasteEffects(ed, after, name, count, bytesPerLine);
    PressEdit(ed, t, Paste(after, name, count), bytesPerLine,
              FinalEdit(v, PasteEdits(v.selection.regions, 0, texts, after, count, |v.data|)));
  }

  lemma PasteEffects(ed: Editor, after: bool, name: char, count: nat, bytesPerLine: nat)
    requires EditorInv(ed) && ed.mode.Normal?
    ensures var v, key := ed.buffer.view, Paste(after, name, count);
            var es := PasteEdits(v.selection.regions, 0, Register(ed.registers, name), after, count, |v.data|);
            && Effects(ed, key, bytesPerLine) == [FinalEdit(v, es)] && KeyInside(ed, key)
            && NextMode(ed, key) == Normal && RegistersAfter(ed, key) == ed.registers
  {
  }

  // ----- choosing and dropping regions

  lemma {:induction false} ReselectKey(ed: Editor, t: Timeline, key: Key, bytesPerLine: nat)
    requires Reached(ed, t) && ed.mode.Normal? && Reselects(key) && KeyInside(ed, key)
    ensures AdmissibleRun(ed.buffer, Effects(ed, key, bytesPerLine))
    ensures var r := Press(ed, key, bytesPerLine);
            && r.Ok? && r.value.mode.Normal?
            && r.value.buffer.view == View(ed.buffer.view.data, Reselected(ed.buffer.view, key))
  {
    assert Effects(ed, key, bytesPerLine) == [Reselect(Reselected(ed.buffer.view, key))];
    PressSingle(ed, t, key, bytesPerLine, Reselect(Reselected(ed.buffer.view, key)));
  }

  /** Going on by `count` from a in a circle of n leads to b; back if negative. */
  ghost predicate Circles(a: nat, count: int, n: nat, b: nat) {
    b < n && exists rounds: int :: a + count == rounds * n + b
  }

  function Signed(count: nat, positive: bool): int {
    if positive then count else 0 - count
  }

  /** The keys for the next and the previous region move the main flag around the circle of
      regions and leave the regions as they are. */
  lemma {:induction false} MainKeys(ed: Editor, t: Timeline, next: bool, count: nat, bytesPerLine: nat)
    requires Reached(ed, t) && ed.mode.Normal?
    ensures var key := if next then NextMain(count) else PreviousMain(count);
            && AdmissibleRun(ed.buffer, Effects(ed, key, bytesPerLine))
            && var s, r := ed.buffer.view.selection, Press(ed, key, bytesPerLine);
            && r.Ok? && r.value.mode.Normal? && r.value.buffer.view.data == ed.buffer.view.data
            && var s' := r.value.buffer.view.selection;
               SameEnds(s'.regions, s.regions) && Circles(s.main, Signed(count, next), |s.regions|, s'.main)
  {
    var key := if next then NextMain(count) else PreviousMain(count);
    ReselectKey(ed, t, key, bytesPerLine);
    MainChosen(ed.buffer.view, next, count);
  }

  lemma {:induction false} MainChosen(v: View, next: bool, count: nat)
    requires WellPlaced(v)
    ensures var s, s' := v.selection, Reselected(v, if next then NextMain(count) else PreviousMain(count));
            SameEnds(s'.regions, s.regions) && Circles(s.main, Signed(count, next), |s.regions|, s'.main)
  {
    var s := v.selection;
    var i := s.main + Signed(count, next);
    Selection.AroundIs(i, |s.regions|);
    Selection.MainMovedForm(s, Selection.Around(i, |s.regions|));
  }

  /** Selecting everything leaves one region, over all bytes, with the caret on the last. */
  lemma {:induction false} SelectAllKey(ed: Editor, t: Timeline, bytesPerLine: nat)
    requires Reached(ed, t) && ed.mode.Normal?
    ensures AdmissibleRun(ed.buffer, Effects(ed, Key.SelectAll, bytesPerLine))
    ensures var n, r := |ed.buffer.view.data|, Press(ed, Key.SelectAll, bytesPerLine);
            && r.Ok? && r.value.mode.Normal? && r.value.buffer.view.data == ed.buffer.view.data
            && var rs := r.value.buffer.view.selection.regions;
               |rs| == 1 && rs[0].Forward() && (n > 0 ==> forall p :: Covers(rs, p) <==> 0 <= p < n)
  {
    Selection.AllSelectedForm(|ed.buffer.view.data|);
    ReselectKey(ed, t, Key.SelectAll, bytesPerLine);
  }

  /** The region that a count means: counted from one around the circle, or the main one. */
  ghost predicate Means(s: Sel, count: nat, index: nat) {
    if count == 0 then index == s.main else Circles(0, count - 1, |s.regions|, index)
  }

  lemma {:induction false} CountedMeans(s: Sel, count: nat)
    requires s.main < |s.regions|
    ensures Means(s, count, Counted(s, count))
  {
    if count > 0 {
      Selection.AroundIs(count - 1, |s.regions|);
    }
  }

  /** Retaining keeps the region that the count means, and it alone. */
  lemma {:induction false} RetainKey(ed: Editor, t: Timeline, count: nat, bytesPerLine: nat)
    requires Reached(ed, t) && ed.mode.Normal?
    ensures AdmissibleRun(ed.buffer, Effects(ed, RetainMain(count), bytesPerLine))
    ensures var s, r := ed.buffer.view.selection, Press(ed, RetainMain(count), bytesPerLine);
            && r.Ok? && r.value.buffer.view.data == ed.buffer.view.data
            && exists i: nat :: i < |s.regions| && Means(s, count, i)
                                && SameEnds(r.value.buffer.view.selection.regions, [s.regions[i]])
  {
    var s := ed.buffer.view.selection;
    var i := Counted(s, count);
    CountedMeans(s, count);
    Selection.RetainedForm(s, i, |ed.buffer.view.data|);
    ReselectKey(ed, t, RetainMain(count), bytesPerLine);
    assert SameEnds(Selection.Retained(s, i).regions, [s.regions[i]]);
  }

  /** Removing takes that region away and leaves the others, unless it is the only one. */
  lemma {:induction false} RemoveKey(ed: Editor, t: Timeline, count: nat, bytesPerLine: nat)
    requires Reached(ed, t) && ed.mode.Normal? && KeyInside(ed, RemoveMain(count))
    ensures AdmissibleRun(ed.buffer, Effects(ed, RemoveMain(count), bytesPerLine))
    ensures var s, r := ed.buffer.view.selection, Press(ed, RemoveMain(count), bytesPerLine);
            && r.Ok? && r.value.buffer.view.data == ed.buffer.view.data
            && exists i: nat :: i < |s.regions| && Means(s, count, i)
                                && SameEnds(r.value.buffer.view.selection.regions,
                                            if |s.regions| == 1 then s.regions else Without(s.regions, i))
  {
    var s := ed.buffer.view.selection;
    var i := Counted(s, count);
    CountedMeans(s, count);
    RemovedEnds(s, i);
    ReselectKey(ed, t, RemoveMain(count), bytesPerLine);
  }

  lemma {:induction false} RemovedEnds(s: Sel, i: nat)
    requires WellFormed(s) && i < |s.regions|
    ensures SameEnds(Selection.Removed(s, i).regions, if |s.regions| == 1 then s.regions else Without(s.regions, i))
  {
    if |s.regions| > 1 {
      Selection.RemovedAt(s, i);
      var out, rest := Selection.Removed(s, i).regions, Without(s.regions, i);
      assert forall j :: 0 <= j < |rest| ==> rest[j] == s.regions[if j < i then j else j + 1];
    }
  }

  // ----- splitting and collapsing

  /** What a search makes of the selection: nothing if it is refused. */
  ghost predicate Searched(v: View, result: SearchResult, after: View) {
    if result.Refused? then after == v else result.result.Ok? && after == v.(selection := result.result.value)
  }

  /** Splitting and collapsing by a pattern do with its greedy matches what is said of them:
      the key panics exactly if the map does. */
  lemma {:induction false} SearchKeys(ed: Editor, t: Timeline, pattern: Doc, split: bool, bytesPerLine: nat)
    requires Reached(ed, t) && ed.mode.Normal? && pattern != []
    ensures var key := if split then SplitAt(pattern) else CollapseTo(pattern);
            && AdmissibleRun(ed.buffer, Effects(ed, key, bytesPerLine))
            && var v, r := ed.buffer.view, Press(ed, key, bytesPerLine);
            && exists ms ::
                 && MatchesOf(v.data, pattern, v.selection.regions, ms) && LaidAll(v.selection.regions, ms)
                 && var result := if split then ApplySplit(v.selection, ms) else ApplyCollapse(v.selection, ms);
                 && (r.Panic? <==> result == Mapped(Panic))
                 && (r.Ok? ==> r.value.mode.Normal? && Searched(v, result, r.value.buffer.view))
  {
    var v := ed.buffer.view;
    var ms := MatchesIn(v, pattern);
    MatchesUnique(v.data, pattern, v.selection.regions, ms);
    if split {
      SplitPress(ed, t, pattern, bytesPerLine, ms);
    } else {
      CollapsePress(ed, t, pattern, bytesPerLine, ms);
    }
  }

  lemma {:induction false} SplitPress(ed: Editor, t: Timeline, pattern: Doc, bytesPerLine: nat, ms: seq<seq<Range>>)
    requires Reached(ed, t) && ed.mode.Normal? && pattern != [] && ms == MatchesIn(ed.buffer.view, pattern)
    ensures AdmissibleRun(ed.buffer, Effects(ed, SplitAt(pattern), bytesPerLine))
    ensures var v, r := ed.buffer.view, Press(ed, SplitAt(pattern), bytesPerLine);
            var result := ApplySplit(v.selection, ms);
            && (r.Panic? <==> result == Mapped(Panic))
            && (r.Ok? ==> r.value.mode.Normal? && Searched(v, result, r.value.buffer.view))
  {
    var v := ed.buffer.view;
    if ApplySplit(v.selection, ms).Refused? {
      assert Effects(ed, SplitAt(pattern), bytesPerLine) == [];
    } else {
      PressSelect(ed, t, SplitAt(pattern), bytesPerLine, SplitOutputs(v.selection.regions, ms));
    }
  }

  lemma {:induction false} CollapsePress(ed: Editor, t: Timeline, pattern: Doc, bytesPerLine: nat, ms: seq<seq<Range>>)
    requires Reached(ed, t) && ed.mode.Normal? && pattern != [] && ms == MatchesIn(ed.buffer.view, pattern)
    ensures AdmissibleRun(ed.buffer, Effects(ed, CollapseTo(pattern), bytesPerLine))
    ensures var v, r := ed.buffer.view, Press(ed, CollapseTo(pattern), bytesPerLine);
            var result := ApplyCollapse(v.selection, ms);
            && (r.Panic? <==> result == Mapped(Panic))
            && (r.Ok? ==> r.value.mode.Normal? && Searched(v, result, r.value.buffer.view))
  {
    var v := ed.buffer.view;
    if ApplyCollapse(v.selection, ms).Refused? {
      assert Effects(ed, CollapseTo(pattern), bytesPerLine) == [];
    } else {
      PressSelect(ed, t, CollapseTo(pattern), bytesPerLine, CollapseOutputs(v.selection.regions, ms));
    }
  }

  /** Splitting by a width cuts every region into pieces of that width. */
  lemma {:induction false} WidthKey(ed: Editor, t: Timeline, step: nat, bytesPerLine: nat)
    requires Reached(ed, t) && ed.mode.Normal?
    ensures AdmissibleRun(ed.buffer, Effects(ed, SplitWidth(step), bytesPerLine))
    ensures var v, r := ed.buffer.view, Press(ed, SplitWidth(step), bytesPerLine);
            && (r.Panic? <==> SplitByWidth(v.selection, step, 1).Panic?)
            && (r.Ok? ==> r.value.mode.Normal?
                          && Ok(r.value.buffer.view) == OfSelection(v, SplitByWidth(v.selection, step, 1)))
  {
    var v := ed.buffer.view;
    assert step * 1 == step;
    if step == 0 {
      PressSingle(ed, t, SplitWidth(step), bytesPerLine, Abort);
    } else {
      PressSelect(ed, t, SplitWidth(step), bytesPerLine, WidthOutputs(v.selection.regions, step));
    }
  }

  function OfSelection(v: View, s: Outcome<Sel>): Outcome<View> {
    match s
    case Ok(s) => Ok(v.(selection := s))
    case Panic => Panic
  }

  /** Extending to an offset, unless it panics, selects from every tail to it. */
  lemma {:induction false} ExtendToKey(ed: Editor, t: Timeline, offset: nat, bytesPerLine: nat)
    requires Reached(ed, t) && ed.mode.Normal? && offset <= |ed.buffer.view.data|
    ensures AdmissibleRun(ed.buffer, Effects(ed, ExtendTo(offset), bytesPerLine))
    ensures var rs, r := ed.buffer.view.selection.regions, Press(ed, ExtendTo(offset), bytesPerLine);
            && (r.Panic? <==> TailsAround(rs, offset))
            && (r.Ok? ==>
                  && r.value.mode.Normal? && r.value.buffer.view.data == ed.buffer.view.data
                  && forall p :: Covers(r.value.buffer.view.selection.regions, p) <==> FromTail(rs, offset, p))
  {
    var v := ed.buffer.view;
    var rs, out := v.selection.regions, ExtendedTo(v.selection.regions, offset);
    OffsetInOrder(v, offset);
    ExtendToPanics(v, offset);
    ReshapeKey(ed, t, ExtendTo(offset), bytesPerLine, out);
    if SelectView(v, Singles(out)).Ok? {
      SinglesMapped(v, out);
      forall p ensures Covers(out, p) <==> FromTail(rs, offset, p) {
        ExtendedToCovers(rs, offset, p);
      }
    }
  }

  /** Position p lies between some tail and the offset. */
  ghost predicate FromTail(rs: seq<Region>, offset: nat, p: int) {
    exists i :: 0 <= i < |rs| && Min(rs[i].tail, offset) <= p <= Max(rs[i].tail, offset)
  }

  lemma ExtendedToCovers(rs: seq<Region>, offset: nat, p: int)
    ensures Covers(ExtendedTo(rs, offset), p) <==> FromTail(rs, offset, p)
  {
    var out := ExtendedTo(rs, offset);
    if i :| 0 <= i < |out| && out[i].Holds(p) {
      assert Min(rs[i].tail, offset) <= p <= Max(rs[i].tail, offset);
    }
    if i :| 0 <= i < |rs| && Min(rs[i].tail, offset) <= p <= Max(rs[i].tail, offset) {
      assert out[i].Holds(p);
    }
  }

  // ----- modes

  /** Which mode a key of normal mode leads to. */
  ghost predicate LeavesNormal(key: Key, next: Mode) {
    && (next.Inserting? <==> key.StartInsert? || key.StartAppend? || key.StartOverwrite? || key.Change?)
    && (next.Inserting? ==> next.half == None && next.hex == key.hex)
    && (next.Inserting? && next.how == Append <==> key.StartAppend?)
    && (next.Inserting? && next.how == Overwrite <==> key.StartOverwrite?)
  }

  /** In insert mode Escape alone leads back; the way of inserting stays, the kind of input is
      switched by its key only, and a byte is half typed after its first digit, and stays so
      if the key does nothing or only moves the selection with the screen. */
  ghost predicate StaysInserting(v: View, mode: Mode, key: Key, next: Mode)
    requires mode.Inserting?
  {
    && (next.Normal? <==> key.Exit?)
    && (next.Inserting? ==>
          && next.how == mode.how && (next.hex == mode.hex <==> !key.SwitchInputMode?)
          && (Digit(mode, key) ==> (next.half.Some? <==> mode.half.None?))
          && (!Digit(mode, key) ==> next.half == if Settles(v, key) then None else mode.half))
  }

  predicate Digit(mode: Mode, key: Key)
    requires mode.Inserting?
  {
    mode.hex && key.TypeChar? && IsHexDigit(key.ch)
  }

  /** Keys after which no byte is half typed. */
  predicate Settles(v: View, key: Key) {
    || key.InsertNull? || key.SwitchInputMode? || key.MoveCaret?
    || ((key.RemoveLast? || key.RemoveThis?) && v.data != [])
  }

  lemma {:induction false} ModesTold(ed: Editor, key: Key)
    ensures if ed.mode.Normal? then LeavesNormal(key, NextMode(ed, key))
            else StaysInserting(ed.buffer.view, ed.mode, key, NextMode(ed, key))
  {
  }
}
