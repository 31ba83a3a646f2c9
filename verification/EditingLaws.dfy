/** End-to-end claims about short and long sequences of key presses. */
module EditingLaws {
  import opened Prelude
  import opened Bits
  import opened Characters
  import opened Delta
  import opened Builder
  import opened Selections
  import opened SelectionLaws
  import opened Transport
  import opened Operations
  import opened OperationLaws
  import opened HexTyping
  import opened DeletePaste
  import opened OverflowCursor
  import opened History
  import opened Timeline
  import opened Modes
  import opened ModeLaws

  // ----- edits that never panic

  /** Both ends of a deleted region go to the same offset, so only cursors are left. */
  lemma {:induction false} DeletionCalm(v: View)
    requires WellPlaced(v)
    ensures ValidOn(Build(DeletionEdits(v.selection.regions), |v.data|), v.data)
    ensures EditView(v, Build(DeletionEdits(v.selection.regions), |v.data|), 0, 0).Ok?
  {
    var rs, n := v.selection.regions, |v.data|;
    var es := DeletionEdits(rs);
    var d := Build(es, n);
    DeletionOrdered(rs, n);
    BuildApplies(es, v.data);
    CarryOutcome(v.selection, d, v.data);
    var out := CarryRegions(d, n, rs, 0, 0);
    forall i | 0 <= i < |rs| ensures Along(out[i], false) {
      DeletedOffset(v.data, rs, i, rs[i].caret);
      DeletedOffset(v.data, rs, i, rs[i].tail);
    }
    SameWayNoClash(out, false);
  }

  lemma {:induction false} InsertsSpread(es: seq<Edit>, last: nat, n: nat, x: nat)
    requires Ordered(es, last, n) && OnlyInserts(es) && last <= x <= n
    ensures Shifted(es, last, n, x) == x - last + TextLenUpTo(es, x)
  {
    if es != [] && x >= es[0].beg {
      InsertsSpread(es[1..], es[0].end, n, x);
    }
  }

  lemma {:induction false} TextLenMonotone(es: seq<Edit>, x: nat, y: nat)
    requires x <= y
    ensures TextLenUpTo(es, x) <= TextLenUpTo(es, y)
  {
    if es != [] {
      TextLenMonotone(es[1..], x, y);
    }
  }

  /** Insertions only push regions apart. */
  lemma {:induction false} InsertsCalm(v: View, es: seq<Edit>)
    requires WellPlaced(v) && Ordered(es, 0, |v.data|) && OnlyInserts(es)
    ensures ValidOn(Build(es, |v.data|), v.data) && EditView(v, Build(es, |v.data|), 0, 0).Ok?
  {
    var rs, n := v.selection.regions, |v.data|;
    var d := Build(es, n);
    BuildApplies(es, v.data);
    var out := CarryRegions(d, n, rs, 0, 0);
    forall i, j | 0 <= i <= j < |rs| ensures i < j ==> out[i].Hi() < out[j].Lo() {
      forall x | x in {rs[i].caret, rs[i].tail, rs[j].caret, rs[j].tail}
        ensures CarryOffset(d, n, x, 0) == x + TextLenUpTo(es, x) {
        CarryPlain(d, x);
        BuildTransform(es, 0, n, x);
        InsertsSpread(es, 0, n, x);
      }
      if i < j {
        assert rs[i].Hi() < rs[j].Lo();
        TextLenMonotone(es, rs[i].caret, rs[j].caret);
        TextLenMonotone(es, rs[i].caret, rs[j].tail);
        TextLenMonotone(es, rs[i].tail, rs[j].caret);
        TextLenMonotone(es, rs[i].tail, rs[j].tail);
      }
    }
    if NewLen(d) != 0 {
      MapSinglesApart(out, v.selection.main);
    }
  }

  lemma {:induction false} InsertTextCalm(v: View, text: Doc)
    requires WellPlaced(v)
    ensures ValidOn(Build(InsertEdits(v.selection.regions, text), |v.data|), v.data)
    ensures EditView(v, Build(InsertEdits(v.selection.regions, text), |v.data|), 0, 0).Ok?
  {
    InsertOrdered(v.selection.regions, text, |v.data|);
    InsertEditsAt(v.selection.regions, text);
    InsertsCalm(v, InsertEdits(v.selection.regions, text));
  }

  lemma {:induction false} PasteCalm(v: View, register: seq<Doc>, after: bool, count: nat)
    requires WellPlaced(v) && register != []
    ensures var d := Build(PasteEdits(v.selection.regions, 0, register, after, count, |v.data|), |v.data|);
            ValidOn(d, v.data) && EditView(v, d, 0, 0).Ok?
  {
    PasteOrdered(v.selection.regions, register, after, count, |v.data|);
    PasteEditsAt(v.selection.regions, 0, register, after, count, |v.data|);
    InsertsCalm(v, PasteEdits(v.selection.regions, 0, register, after, count, |v.data|));
  }

  lemma {:induction false} FirstDigitCalm(v: View, how: InsertionMode, digit: Byte)
    requires WellPlaced(v) && how != Overwrite
    ensures ValidOn(HexEffect(v, how, None, digit).delta, v.data)
    ensures EditView(v, HexEffect(v, how, None, digit).delta, -1, 0).Ok?
  {
    HalfView(v, digit << 4);
    HexEffectFits(v, how, None, digit);
  }

  // ----- key presses

  /** An editor that keeps the invariant, with the timeline it stands for. Every state that key
      presses lead to does, by `KeysKeep`; so may others. */
  ghost predicate Reached(ed: Editor, t: Timeline) {
    EditorInv(ed) && Agree(ed.buffer, t) && Placed(t)
  }

  /** After a key press the editor is in such a state again. */
  lemma {:induction false} StillReached(ed: Editor, t: Timeline, key: Key, bytesPerLine: nat)
    requires Reached(ed, t) && KeyInside(ed, key)
    ensures AdmissibleRun(ed.buffer, Effects(ed, key, bytesPerLine)) && TimelyRun(t, Effects(ed, key, bytesPerLine))
    ensures Press(ed, key, bytesPerLine).Ok? ==>
              && RunTimeline(t, Effects(ed, key, bytesPerLine)).Ok?
              && Reached(Press(ed, key, bytesPerLine).value, RunTimeline(t, Effects(ed, key, bytesPerLine)).value)
  {
    PressKeeps(ed, t, key, bytesPerLine);
  }

  lemma {:induction false} TwoInside(ed: Editor, a: Key, b: Key, bytesPerLine: nat, ed': Editor)
    requires EditorInv(ed) && AdmissibleRun(ed.buffer, Effects(ed, a, bytesPerLine))
    requires Press(ed, a, bytesPerLine) == Ok(ed') && KeyInside(ed, a) && KeyInside(ed', b)
    ensures KeysInside(ed, [a, b], bytesPerLine)
  {
    assert [a, b][1..] == [b] && [b][1..] == [];
    assert forall ed'' :: KeysInside(ed'', [], bytesPerLine);
    assert KeysInside(ed', [b], bytesPerLine);
  }

  lemma {:induction false} PressTwo(ed: Editor, t: Timeline, a: Key, b: Key, bytesPerLine: nat, ed': Editor)
    requires Reached(ed, t) && AdmissibleRun(ed.buffer, Effects(ed, a, bytesPerLine))
    requires Press(ed, a, bytesPerLine) == Ok(ed') && KeyInside(ed, a) && KeyInside(ed', b)
    ensures EditorInv(ed') && AdmissibleRun(ed'.buffer, Effects(ed', b, bytesPerLine))
    ensures KeysReady(ed, [a, b], bytesPerLine)
    ensures PressAll(ed, [a, b], bytesPerLine) == Press(ed', b, bytesPerLine)
  {
    assert KeysInside(ed, [a, b], bytesPerLine) by {
      TwoInside(ed, a, b, bytesPerLine, ed');
    }
    KeysKeep(ed, t, [a, b], bytesPerLine);
    StillReached(ed, t, a, bytesPerLine);
    StillReached(ed', RunTimeline(t, Effects(ed, a, bytesPerLine)).value, b, bytesPerLine);
    assert [a, b][1..] == [b] && [b][1..] == [];
    match Press(ed', b, bytesPerLine)
    case Ok(ed'') => assert PressAll(ed'', [], bytesPerLine) == Ok(ed'');
    case Panic =>
  }

  /** A key with a single edit as its effect shows what the edit shows. */
  lemma {:induction false} PressEdit(ed: Editor, t: Timeline, key: Key, bytesPerLine: nat, e: Effect)
    requires Reached(ed, t) && KeyInside(ed, key) && Effects(ed, key, bytesPerLine) == [e] && e.Edit?
    ensures AdmissibleRun(ed.buffer, [e]) && ValidOn(e.delta, ed.buffer.view.data)
    ensures var v := EditView(ed.buffer.view, e.delta, e.caretShift, e.tailShift);
            var r := Press(ed, key, bytesPerLine);
            && (v.Panic? <==> r.Panic?)
            && (v.Ok? ==> r.value.buffer.view == v.value && r.value.mode == NextMode(ed, key)
                          && r.value.registers == RegistersAfter(ed, key))
  {
    PressKeeps(ed, t, key, bytesPerLine);
    assert [e][1..] == [];
    match Perform(ed.buffer, e)
    case Ok(b) => assert RunBuffer(b, []) == Ok(b);
    case Panic =>
  }

  /** Two keys in insert mode, each with one edit as its effect. */
  lemma {:induction false} TwoEdits(ed: Editor, t: Timeline, a: Key, b: Key, bytesPerLine: nat,
                                    first: Effect, v: View, second: Effect)
    requires Reached(ed, t) && ed.mode.Inserting? && NextMode(ed, a).Inserting?
    requires Effects(ed, a, bytesPerLine) == [first] && first.Edit? && ValidOn(first.delta, ed.buffer.view.data)
    requires EditView(ed.buffer.view, first.delta, first.caretShift, first.tailShift) == Ok(v) && WellPlaced(v)
    requires InsertEffects(v, NextMode(ed, a), b, bytesPerLine) == [second] && second.Edit?
    requires ValidOn(second.delta, v.data)
    requires EditView(v, second.delta, second.caretShift, second.tailShift).Ok?
    ensures KeysReady(ed, [a, b], bytesPerLine)
    ensures var r := PressAll(ed, [a, b], bytesPerLine);
            && r.Ok? && r.value.mode == InsertNext(v, NextMode(ed, a), b)
            && Ok(r.value.buffer.view) == EditView(v, second.delta, second.caretShift, second.tailShift)
  {
    PressEdit(ed, t, a, bytesPerLine, first);
    StillReached(ed, t, a, bytesPerLine);
    var ed' := Press(ed, a, bytesPerLine).value;
    PressEdit(ed', RunTimeline(t, Effects(ed, a, bytesPerLine)).value, b, bytesPerLine, second);
    PressTwo(ed, t, a, b, bytesPerLine, ed');
  }

  // ----- hex digits

  /** The two steps of typing a byte, as the user sees them. */
  lemma {:induction false} TwoDigitViews(v: View, how: InsertionMode, h: Byte, l: Byte, whole: Byte)
    requires WellPlaced(v) && how != Overwrite && whole == (h << 4) | l
    ensures Ordered(InsertEdits(v.selection.regions, [whole]), 0, |v.data|)
    ensures var first := HexEffect(v, how, None, h);
            && ValidOn(first.delta, v.data)
            && var r := EditView(v, first.delta, first.caretShift, first.tailShift);
            && r.Ok? && WellPlaced(r.value)
            && var second := HexEffect(r.value, how, Some(h << 4), l);
            && ValidOn(second.delta, r.value.data)
            && EditView(r.value, second.delta, second.caretShift, second.tailShift).Ok?
            && EditView(r.value, second.delta, second.caretShift, second.tailShift)
               == Edited(v, InsertEdits(v.selection.regions, [whole]), 0)
  {
    var half := h << 4;
    TwoDigitsAreOneByte(v, half, whole);
    HalfView(v, half);
    HexEffectFits(v, how, None, h);
    var v' := Edited(v, InsertEdits(v.selection.regions, [half]), -1).value;
    HexEffectFits(v', how, Some(half), l);
  }

  /** Typing a digit and erasing it again, as the user sees it. */
  lemma {:induction false} ErasedDigitView(v: View, how: InsertionMode, h: Byte)
    requires WellPlaced(v) && how != Overwrite
    ensures var first := HexEffect(v, how, None, h);
            && ValidOn(first.delta, v.data)
            && var r := EditView(v, first.delta, first.caretShift, first.tailShift);
            && r.Ok? && WellPlaced(r.value) && r.value.data != []
            && var second := PartialEdit(r.value, DeleteCursorEdits(r.value.selection.regions, |r.value.data|), 0);
            && ValidOn(second.delta, r.value.data)
            && EditView(r.value, second.delta, 0, 0) == Ok(v)
  {
    var half := h << 4;
    ErasingFirstDigitRestores(v, half);
    HalfView(v, half);
    HexEffectFits(v, how, None, h);
    var v' := Edited(v, InsertEdits(v.selection.regions, [half]), -1).value;
    BuildApplies(DeleteCursorEdits(v'.selection.regions, |v'.data|), v'.data);
  }

  /** A key that types the given hex digit. */
  ghost predicate TypesDigit(mode: Mode, key: Key, digit: Byte, bytesPerLine: nat)
    requires mode.Inserting?
  {
    forall v :: WellPlaced(v) ==>
      && InsertEffects(v, mode, key, bytesPerLine) == [HexEffect(v, mode.how, mode.half, digit)]
      && InsertNext(v, mode, key) == mode.(half := if mode.half.Some? then None else Some(digit << 4))
  }

  lemma DigitKey(mode: Mode, ch: char, bytesPerLine: nat)
    requires mode.Inserting? && mode.hex && HexDigit(ch).Some?
    ensures TypesDigit(mode, TypeChar(ch), HexDigit(ch).value, bytesPerLine)
  {
  }

  lemma {:induction false} DigitPair(ed: Editor, t: Timeline, a: Key, b: Key, h: Byte, l: Byte, whole: Byte, bytesPerLine: nat)
    requires Reached(ed, t) && whole == (h << 4) | l
    requires ed.mode.Inserting? && ed.mode.half.None? && ed.mode.how != Overwrite
    requires TypesDigit(ed.mode, a, h, bytesPerLine) && TypesDigit(ed.mode.(half := Some(h << 4)), b, l, bytesPerLine)
    ensures KeysReady(ed, [a, b], bytesPerLine)
    ensures Ordered(InsertEdits(ed.buffer.view.selection.regions, [whole]), 0, |ed.buffer.view.data|)
    ensures var r := PressAll(ed, [a, b], bytesPerLine);
            && r.Ok? && r.value.mode == ed.mode
            && Ok(r.value.buffer.view) == Edited(ed.buffer.view, InsertEdits(ed.buffer.view.selection.regions, [whole]), 0)
  {
    var v, how := ed.buffer.view, ed.mode.how;
    TwoDigitViews(v, how, h, l, whole);
    var first := HexEffect(v, how, None, h);
    var v' := EditView(v, first.delta, first.caretShift, first.tailShift).value;
    TwoEdits(ed, t, a, b, bytesPerLine, first, v', HexEffect(v', how, Some(h << 4), l));
  }

  /** Typing the digits h and l in insert or append mode leaves the same bytes and selection
      as inserting the byte 16 * h + l at every caret. */
  lemma {:induction false} TypingTwoDigits(ed: Editor, t: Timeline, a: char, h: nat, b: char, l: nat, bytesPerLine: nat)
    requires Reached(ed, t) && h < 16 && l < 16 && NamesDigit(a, h) && NamesDigit(b, l)
    requires ed.mode.Inserting? && ed.mode.hex && ed.mode.half.None? && ed.mode.how != Overwrite
    ensures KeysReady(ed, [TypeChar(a), TypeChar(b)], bytesPerLine)
    ensures Ordered(InsertEdits(ed.buffer.view.selection.regions, [ByteOf(h, l)]), 0, |ed.buffer.view.data|)
    ensures var r := PressAll(ed, [TypeChar(a), TypeChar(b)], bytesPerLine);
            && r.Ok? && r.value.mode == ed.mode
            && Ok(r.value.buffer.view)
               == Edited(ed.buffer.view, InsertEdits(ed.buffer.view.selection.regions, [ByteOf(h, l)]), 0)
  {
    var half := Some(ToByte(h) << 4);
    HexDigitIs(a, h);
    HexDigitIs(b, l);
    DigitsMakeByte(h, l);
    DigitKey(ed.mode, a, bytesPerLine);
    DigitKey(ed.mode.(half := half), b, bytesPerLine);
    DigitPair(ed, t, TypeChar(a), TypeChar(b), ToByte(h), ToByte(l), ByteOf(h, l), bytesPerLine);
  }

  /** Typing the first hex digit in insert or append mode and then Backspace or Delete
      restores the bytes, the selection and the mode. */
  lemma {:induction false} TakingBackADigit(ed: Editor, t: Timeline, h: char, erase: Key, bytesPerLine: nat)
    requires Reached(ed, t) && HexDigit(h).Some? && (erase.RemoveLast? || erase.RemoveThis?)
    requires ed.mode.Inserting? && ed.mode.hex && ed.mode.half.None? && ed.mode.how != Overwrite
    ensures KeysReady(ed, [TypeChar(h), erase], bytesPerLine)
    ensures var r := PressAll(ed, [TypeChar(h), erase], bytesPerLine);
            r.Ok? && r.value.mode == ed.mode && r.value.buffer.view == ed.buffer.view
  {
    DigitKey(ed.mode, h, bytesPerLine);
    EraseKey(ed.mode.(half := Some(HexDigit(h).value << 4)), erase, bytesPerLine);
    DigitErased(ed, t, TypeChar(h), erase, HexDigit(h).value, bytesPerLine);
  }

  /** A key that erases the half-typed bytes. */
  ghost predicate ErasesHalf(mode: Mode, key: Key, bytesPerLine: nat)
    requires mode.Inserting?
  {
    forall v :: WellPlaced(v) && v.data != [] ==>
      && InsertEffects(v, mode, key, bytesPerLine)
         == [PartialEdit(v, DeleteCursorEdits(v.selection.regions, |v.data|), 0)]
      && InsertNext(v, mode, key) == mode.(half := None)
  }

  lemma EraseKey(mode: Mode, key: Key, bytesPerLine: nat)
    requires mode.Inserting? && mode.half.Some? && (key.RemoveLast? || key.RemoveThis?)
    ensures ErasesHalf(mode, key, bytesPerLine)
  {
  }

  lemma {:induction false} DigitErased(ed: Editor, t: Timeline, a: Key, erase: Key, h: Byte, bytesPerLine: nat)
    requires Reached(ed, t)
    requires ed.mode.Inserting? && ed.mode.half.None? && ed.mode.how != Overwrite
    requires TypesDigit(ed.mode, a, h, bytesPerLine) && ErasesHalf(ed.mode.(half := Some(h << 4)), erase, bytesPerLine)
    ensures KeysReady(ed, [a, erase], bytesPerLine)
    ensures var r := PressAll(ed, [a, erase], bytesPerLine);
            r.Ok? && r.value.mode == ed.mode && r.value.buffer.view == ed.buffer.view
  {
    var v, how := ed.buffer.view, ed.mode.how;
    ErasedDigitView(v, how, h);
    var first := HexEffect(v, how, None, h);
    var v' := EditView(v, first.delta, first.caretShift, first.tailShift).value;
    TwoEdits(ed, t, a, erase, bytesPerLine,
             first, v', PartialEdit(v', DeleteCursorEdits(v'.selection.regions, |v'.data|), 0));
  }

  // ----- deleting and pasting back

  /** After a deletion the register holds what was deleted. */
  lemma {:induction false} DeleteKeyLeaves(ed: Editor, t: Timeline, register: char, bytesPerLine: nat)
    requires Reached(ed, t) && ed.mode.Normal? && ed.buffer.view.data != []
    ensures AdmissibleRun(ed.buffer, Effects(ed, Delete(register), bytesPerLine))
    ensures var v := ed.buffer.view;
            var d := Build(DeletionEdits(v.selection.regions), |v.data|);
            var r := Press(ed, Delete(register), bytesPerLine);
            && ValidOn(d, v.data) && r.Ok? && r.value.mode.Normal?
            && Ok(r.value.buffer.view) == EditView(v, d, 0, 0)
            && Register(r.value.registers, register) == Yanked(v.data, v.selection.regions)
  {
    var v := ed.buffer.view;
    DeletionCalm(v);
    PressEdit(ed, t, Delete(register), bytesPerLine, FinalEdit(v, DeletionEdits(v.selection.regions)));
  }

  /** Pasting puts the register's texts before the cursors. */
  lemma {:induction false} PasteKeyLeaves(ed: Editor, t: Timeline, register: char, bytesPerLine: nat)
    requires Reached(ed, t) && ed.mode.Normal?
    ensures AdmissibleRun(ed.buffer, Effects(ed, Paste(false, register, 1), bytesPerLine))
    ensures var v := ed.buffer.view;
            var d := Build(PasteEdits(v.selection.regions, 0, Register(ed.registers, register), false, 1, |v.data|), |v.data|);
            var r := Press(ed, Paste(false, register, 1), bytesPerLine);
            ValidOn(d, v.data) && r.Ok? && r.value.buffer.view.data == Apply(d, v.data)
  {
    var v, texts := ed.buffer.view, Register(ed.registers, register);
    PasteCalm(v, texts, false, 1);
    PressEdit(ed, t, Paste(false, register, 1), bytesPerLine,
              FinalEdit(v, PasteEdits(v.selection.regions, 0, texts, false, 1, |v.data|)));
  }

  /** On an empty document only the register changes. */
  lemma {:induction false} EmptyDeleteLeaves(ed: Editor, t: Timeline, register: char, bytesPerLine: nat)
    requires Reached(ed, t) && ed.mode.Normal? && ed.buffer.view.data == []
    ensures AdmissibleRun(ed.buffer, Effects(ed, Delete(register), bytesPerLine))
    ensures var v := ed.buffer.view;
            var r := Press(ed, Delete(register), bytesPerLine);
            && r.Ok? && r.value.mode.Normal? && r.value.buffer == ed.buffer
            && Register(r.value.registers, register) == Yanked(v.data, v.selection.regions)
  {
    assert Effects(ed, Delete(register), bytesPerLine) == [];
  }

  /** What the two keys leave is what the edits leave. */
  lemma {:induction false} DeleteThenPasteLeaves(ed: Editor, t: Timeline, register: char, bytesPerLine: nat)
    requires Reached(ed, t) && ed.mode.Normal?
    ensures KeysReady(ed, [Delete(register), Paste(false, register, 1)], bytesPerLine)
    ensures var r := PressAll(ed, [Delete(register), Paste(false, register, 1)], bytesPerLine);
            r.Ok? && DeleteThenPaste(ed.buffer.view.data, ed.buffer.view.selection) == Ok(r.value.buffer.view.data)
  {
    var v := ed.buffer.view;
    if v.data == [] {
      EmptyDeleteLeaves(ed, t, register, bytesPerLine);
      EmptyDocSelection(v.selection);
      DeletionOrdered(v.selection.regions, 0);
      BuildApplies(DeletionEdits(v.selection.regions), v.data);
    } else {
      DeleteKeyLeaves(ed, t, register, bytesPerLine);
    }
    StillReached(ed, t, Delete(register), bytesPerLine);
    var ed' := Press(ed, Delete(register), bytesPerLine).value;
    PasteKeyLeaves(ed', RunTimeline(t, Effects(ed, Delete(register), bytesPerLine)).value, register, bytesPerLine);
    PressTwo(ed, t, Delete(register), Paste(false, register, 1), bytesPerLine, ed');
  }

  /** Deleting into a register and pasting it once before the cursors restores the document
      exactly if no two regions touch, or the texts that are pasted late happen to fit. */
  lemma {:induction false} DeleteThenPasteKeys(ed: Editor, t: Timeline, register: char, bytesPerLine: nat)
    requires Reached(ed, t) && ed.mode.Normal?
    ensures KeysReady(ed, [Delete(register), Paste(false, register, 1)], bytesPerLine)
    ensures var r := PressAll(ed, [Delete(register), Paste(false, register, 1)], bytesPerLine);
            && r.Ok?
            && (r.value.buffer.view.data == ed.buffer.view.data <==>
                ComesBack(ed.buffer.view.data, ed.buffer.view.selection.regions))
  {
    DeleteThenPasteLeaves(ed, t, register, bytesPerLine);
    DeletePasteRestoresIff(ed.buffer.view.data, ed.buffer.view.selection);
  }

  // ----- sessions in insert mode

  /** In insert mode every key but Escape only adds to the pending action or moves the
      selection, and stays in insert mode. */
  lemma {:induction false} InsertKeysInSession(v: View, mode: Mode, key: Key, bytesPerLine: nat)
    requires WellPlaced(v) && mode.Inserting? && key != Exit
    ensures forall i :: 0 <= i < |InsertEffects(v, mode, key, bytesPerLine)| ==>
              InSession(InsertEffects(v, mode, key, bytesPerLine)[i])
    ensures InsertNext(v, mode, key).Inserting?
  {
  }

  /** In a session nothing jumps. */
  lemma {:induction false} SessionInside(ed: Editor, keys: seq<Key>, bytesPerLine: nat)
    requires ed.mode.Inserting? && Exit !in keys
    ensures KeysInside(ed, keys, bytesPerLine)
    decreases |keys|
  {
    if keys != [] && EditorInv(ed) && AdmissibleRun(ed.buffer, Effects(ed, keys[0], bytesPerLine))
       && Press(ed, keys[0], bytesPerLine).Ok? {
      assert keys[0] in keys;
      SessionInside(Press(ed, keys[0], bytesPerLine).value, keys[1..], bytesPerLine);
    }
  }

  lemma {:induction false} SessionEffects(ed: Editor, t: Timeline, keys: seq<Key>, bytesPerLine: nat)
    requires Reached(ed, t) && ed.mode.Inserting? && Exit !in keys
    ensures KeysReady(ed, keys, bytesPerLine)
    ensures forall i :: 0 <= i < |AllEffects(ed, keys, bytesPerLine)| ==> InSession(AllEffects(ed, keys, bytesPerLine)[i])
    ensures PressAll(ed, keys, bytesPerLine).Ok? ==> PressAll(ed, keys, bytesPerLine).value.mode.Inserting?
    decreases |keys|
  {
    SessionInside(ed, keys, bytesPerLine);
    KeysKeep(ed, t, keys, bytesPerLine);
    if keys != [] {
      assert keys[0] in keys;
      InsertKeysInSession(ed.buffer.view, ed.mode, keys[0], bytesPerLine);
      StillReached(ed, t, keys[0], bytesPerLine);
      if Press(ed, keys[0], bytesPerLine).Ok? {
        SessionEffects(Press(ed, keys[0], bytesPerLine).value,
                       RunTimeline(t, Effects(ed, keys[0], bytesPerLine)).value, keys[1..], bytesPerLine);
      }
    }
  }

  /** After a session that begins with an edit, the pending action leads back to the view
      in which it began. */
  lemma {:induction false} SessionRemembers(ed: Editor, t: Timeline, keys: seq<Key>, bytesPerLine: nat)
    requires Reached(ed, t) && ed.mode.Inserting? && t.pending.None? && keys != [] && Exit !in keys
    requires Effects(ed, keys[0], bytesPerLine) != [] && Effects(ed, keys[0], bytesPerLine)[0].Edit?
    ensures KeysReady(ed, keys, bytesPerLine) && TimelyRun(t, AllEffects(ed, keys, bytesPerLine))
    ensures RunTimeline(t, AllEffects(ed, keys, bytesPerLine)).Ok? ==>
              RunTimeline(t, AllEffects(ed, keys, bytesPerLine)).value.pending == Some(t.now)
  {
    SessionInside(ed, keys, bytesPerLine);
    KeysKeep(ed, t, keys, bytesPerLine);
    SessionEffects(ed, t, keys, bytesPerLine);
    var es := AllEffects(ed, keys, bytesPerLine);
    assert es[0] == Effects(ed, keys[0], bytesPerLine)[0] && InSession(es[0]);
    if Advance(t, es[0]).Ok? {
      SessionPending(Advance(t, es[0]).value, es[1..]);
    }
  }

  /** However much is typed in insert mode, Escape and one undo restore the bytes and the
      selection from before the first edit. */
  lemma {:induction false} SessionUndone(ed: Editor, t: Timeline, keys: seq<Key>, bytesPerLine: nat)
    requires Reached(ed, t) && ed.mode.Inserting? && t.pending.None? && keys != [] && Exit !in keys
    requires Effects(ed, keys[0], bytesPerLine) != [] && Effects(ed, keys[0], bytesPerLine)[0].Edit?
    ensures KeysReady(ed, keys, bytesPerLine)
    ensures var r := PressAll(ed, keys, bytesPerLine);
            r.Ok? ==>
              && KeysReady(r.value, [Exit, UndoKey], bytesPerLine)
              && var u := PressAll(r.value, [Exit, UndoKey], bytesPerLine);
              u.Ok? && u.value.mode == Normal && u.value.buffer.view == ed.buffer.view
  {
    SessionInside(ed, keys, bytesPerLine);
    KeysKeep(ed, t, keys, bytesPerLine);
    SessionRemembers(ed, t, keys, bytesPerLine);
    SessionEffects(ed, t, keys, bytesPerLine);
    if PressAll(ed, keys, bytesPerLine).Ok? {
      var typed, tt := PressAll(ed, keys, bytesPerLine).value, RunTimeline(t, AllEffects(ed, keys, bytesPerLine)).value;
      CommitAndUndo(typed, tt, bytesPerLine);
    }
  }

  lemma {:induction false} CommitAndUndo(ed: Editor, t: Timeline, bytesPerLine: nat)
    requires Reached(ed, t) && ed.mode.Inserting? && t.pending.Some?
    ensures KeysReady(ed, [Exit, UndoKey], bytesPerLine)
    ensures var u := PressAll(ed, [Exit, UndoKey], bytesPerLine);
            u.Ok? && u.value.mode == Normal && u.value.buffer.view == t.pending.value
  {
    PressSingle(ed, t, Exit, bytesPerLine, Commit);
    var ed', t' := Press(ed, Exit, bytesPerLine).value, Advance(t, Commit).value;
    UndoStep(ed', t', bytesPerLine);
    PressTwo(ed, t, Exit, UndoKey, bytesPerLine, ed');
  }

  lemma {:induction false} UndoStep(ed: Editor, t: Timeline, bytesPerLine: nat)
    requires Reached(ed, t) && ed.mode.Normal? && t.past != []
    ensures AdmissibleRun(ed.buffer, Effects(ed, UndoKey, bytesPerLine))
    ensures var u := Press(ed, UndoKey, bytesPerLine);
            u.Ok? && u.value.mode == Normal && u.value.buffer.view == Last(t.past)
  {
    PressSingle(ed, t, UndoKey, bytesPerLine, Undo);
  }

  /** A key with a single effect takes the same step as the snapshots. */
  lemma {:induction false} PressSingle(ed: Editor, t: Timeline, key: Key, bytesPerLine: nat, e: Effect)
    requires Reached(ed, t) && KeyInside(ed, key) && Effects(ed, key, bytesPerLine) == [e]
    ensures Timely(t, e) && AdmissibleRun(ed.buffer, Effects(ed, key, bytesPerLine))
    ensures Press(ed, key, bytesPerLine).Panic? <==> Advance(t, e).Panic?
    ensures Advance(t, e).Ok? ==>
              && Reached(Press(ed, key, bytesPerLine).value, Advance(t, e).value)
              && Press(ed, key, bytesPerLine).value.mode == NextMode(ed, key)
  {
    PressKeeps(ed, t, key, bytesPerLine);
    assert [e][1..] == [];
    match Advance(t, e)
    case Ok(t') => assert RunTimeline(t', []) == Ok(t');
    case Panic =>
  }

  // ----- undo and redo

  /** k presses of the undo key and j of the redo key. */
  function Rewinding(k: nat, j: nat): seq<Key> {
    seq(k, _ => UndoKey) + seq(j, _ => RedoKey)
  }

  predicate Rewinder(key: Key) {
    key.UndoKey? || key.RedoKey?
  }

  /** What presses of those two keys do, one after the other. */
  function StepEffects(keys: seq<Key>): (es: seq<Effect>)
    ensures |es| == |keys| && forall i :: 0 <= i < |keys| ==> es[i] == StepEffect(keys[i])
  {
    seq(|keys|, i requires 0 <= i < |keys| => StepEffect(keys[i]))
  }

  function StepEffect(key: Key): Effect {
    if key.UndoKey? then Undo else Redo
  }

  lemma {:induction false} StepPress(ed: Editor, t: Timeline, key: Key, bytesPerLine: nat)
    requires Reached(ed, t) && ed.mode.Normal? && Rewinder(key)
    ensures KeyInside(ed, key) && Effects(ed, key, bytesPerLine) == [StepEffect(key)]
    ensures AdmissibleRun(ed.buffer, [StepEffect(key)]) && Advance(t, StepEffect(key)).Ok?
    ensures var r := Press(ed, key, bytesPerLine);
            r.Ok? && r.value.mode.Normal? && Reached(r.value, Advance(t, StepEffect(key)).value)
  {
    PressSingle(ed, t, key, bytesPerLine, StepEffect(key));
  }

  /** Presses of those keys never panic and have these effects. */
  ghost predicate StepsThrough(ed: Editor, keys: seq<Key>, bytesPerLine: nat) {
    && KeysInside(ed, keys, bytesPerLine) && KeysReady(ed, keys, bytesPerLine)
    && AllEffects(ed, keys, bytesPerLine) == StepEffects(keys)
    && PressAll(ed, keys, bytesPerLine).Ok? && PressAll(ed, keys, bytesPerLine).value.mode.Normal?
  }

  lemma {:induction false} StepsCons(ed: Editor, keys: seq<Key>, bytesPerLine: nat)
    requires keys != [] && EditorInv(ed) && KeyInside(ed, keys[0])
    requires AdmissibleRun(ed.buffer, Effects(ed, keys[0], bytesPerLine)) && Press(ed, keys[0], bytesPerLine).Ok?
    requires Effects(ed, keys[0], bytesPerLine) == [StepEffect(keys[0])]
    requires StepsThrough(Press(ed, keys[0], bytesPerLine).value, keys[1..], bytesPerLine)
    ensures StepsThrough(ed, keys, bytesPerLine)
  {
    assert StepEffects(keys) == [StepEffect(keys[0])] + StepEffects(keys[1..]);
  }

  lemma {:induction false} StepsRun(ed: Editor, t: Timeline, keys: seq<Key>, bytesPerLine: nat)
    requires Reached(ed, t) && ed.mode.Normal? && forall i :: 0 <= i < |keys| ==> Rewinder(keys[i])
    ensures StepsThrough(ed, keys, bytesPerLine)
    decreases |keys|
  {
    if keys != [] {
      StepPress(ed, t, keys[0], bytesPerLine);
      StepsRun(Press(ed, keys[0], bytesPerLine).value, Advance(t, StepEffect(keys[0])).value, keys[1..], bytesPerLine);
      StepsCons(ed, keys, bytesPerLine);
    }
  }

  /** k presses of undo and j of redo show the bytes and the selection from k - j actions ago. */
  ghost predicate KeysRewind(ed: Editor, t: Timeline, k: nat, j: nat, bytesPerLine: nat)
    requires j <= k <= |t.past|
  {
    && KeysReady(ed, Rewinding(k, j), bytesPerLine)
    && var r := PressAll(ed, Rewinding(k, j), bytesPerLine);
    && r.Ok? && r.value.mode.Normal?
    && r.value.buffer.view == if j == k then ed.buffer.view else t.past[|t.past| - (k - j)]
  }

  lemma {:induction false} RewindsTo(t: Timeline, k: nat, j: nat)
    requires t.pending.None? && j <= k <= |t.past|
    ensures TimelyRun(t, Times(Undo, k) + Times(Redo, j))
    ensures var r := RunTimeline(t, Times(Undo, k) + Times(Redo, j));
            r.Ok? && r.value.now == if j == k then t.now else t.past[|t.past| - (k - j)]
  {
    UndoRedoSome(t, k, j);
    UndoMany(t, k - j);
  }

  lemma {:induction false} UndoKeysRestore(ed: Editor, t: Timeline, k: nat, j: nat, bytesPerLine: nat)
    requires Reached(ed, t) && ed.mode.Normal? && j <= k <= |t.past|
    ensures KeysRewind(ed, t, k, j, bytesPerLine)
  {
    var keys := Rewinding(k, j);
    StepsRun(ed, t, keys, bytesPerLine);
    KeysKeep(ed, t, keys, bytesPerLine);
    RewindEffects(k, j);
    RewindsTo(t, k, j);
  }

  lemma RewindEffects(k: nat, j: nat)
    ensures StepEffects(Rewinding(k, j)) == Times(Undo, k) + Times(Redo, j)
  {
  }

  /** Whatever was typed since a document was opened: k presses of undo show the bytes and
      selection from k actions ago, and j presses of redo after that those from k - j actions
      ago. */
  lemma {:induction false} UndoAfterAnyKeys(doc: Doc, keys: seq<Key>, bytesPerLine: nat, k: nat, j: nat)
    requires KeysInside(Opened(doc), keys, bytesPerLine)
    ensures KeysReady(Opened(doc), keys, bytesPerLine)
    ensures TimelyRun(OpenedTimeline(doc), AllEffects(Opened(doc), keys, bytesPerLine))
    ensures var r := PressAll(Opened(doc), keys, bytesPerLine);
            var past := RunTimeline(OpenedTimeline(doc), AllEffects(Opened(doc), keys, bytesPerLine));
            r.Ok? && r.value.mode.Normal? ==>
              && past.Ok?
              && (j <= k <= |past.value.past| ==> KeysRewind(r.value, past.value, k, j, bytesPerLine))
  {
    KeysKeep(Opened(doc), OpenedTimeline(doc), keys, bytesPerLine);
    var r := PressAll(Opened(doc), keys, bytesPerLine);
    if r.Ok? && r.value.mode.Normal? {
      var t := RunTimeline(OpenedTimeline(doc), AllEffects(Opened(doc), keys, bytesPerLine)).value;
      if j <= k <= |t.past| {
        UndoKeysRestore(r.value, t, k, j, bytesPerLine);
      }
    }
  }
}
