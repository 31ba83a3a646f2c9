/** Entering insert mode and typing text. */
module TextEntry {
  import opened Prelude
  import opened Characters
  import opened Delta
  import opened Builder
  import opened Region
  import opened Moves
  import opened Selections
  import opened Transport
  import opened Operations
  import opened OperationLaws
  import opened HexTyping
  import opened DeletePaste
  import opened Timeline
  import opened Modes
  import opened ModeLaws
  import opened EditingLaws
  import opened KeyLaws

  // ----- putting a text in place of every region

  /** The document from `last` on, with the text in place of every region. */
  function Substituted(doc: Doc, rs: seq<Region>, text: Doc, last: nat): Doc
    requires Sorted(rs) && InBounds(rs, |doc|) && (rs != [] ==> last <= rs[0].Lo())
  {
    if rs == [] then From(doc, last)
    else
      SortedTail(rs);
      doc[last..rs[0].Lo()] + text + Substituted(doc, rs[1..], text, rs[0].Hi() + 1)
  }

  /** From `from` on, `left` is what deleting the regions leaves of the document from `last`
      on, and the cursors stand where they were. */
  ghost predicate DeletedFrom(doc: Doc, rs: seq<Region>, last: nat, removed: nat, left: Doc, cs: seq<Region>, from: nat) {
    && Sorted(rs) && InBounds(rs, |doc|) && from == last - removed
    && LeftFrom(doc, DeletionEdits(rs), last, left, from) && CursorsOf(cs, rs, removed)
  }

  lemma {:induction false} DeletedNext(doc: Doc, rs: seq<Region>, last: nat, removed: nat, left: Doc, cs: seq<Region>, from: nat, at: nat)
    requires rs != [] && DeletedFrom(doc, rs, last, removed, left, cs, from) && at == from + (rs[0].Lo() - last)
    ensures last <= rs[0].Lo() && from <= at <= |left| && left[from..at] == doc[last..rs[0].Lo()] && cs[0].caret == at
    ensures DeletedFrom(doc, rs[1..], rs[0].Hi() + 1, removed + rs[0].Len(), left, cs[1..], at)
  {
    SortedTail(rs);
    LeftHead(doc, DeletionEdits(rs), last, left, from, at);
    CursorsStep(cs, rs, removed);
  }

  lemma CursorsStep(cs: seq<Region>, rs: seq<Region>, removed: nat)
    requires CursorsOf(cs, rs, removed) && rs != []
    ensures cs[0].caret == rs[0].Lo() - removed && CursorsOf(cs[1..], rs[1..], removed + rs[0].Len())
  {
    forall m | 0 <= m < |rs| - 1
      ensures cs[1..][m].caret == cs[1..][m].tail == CollapsedTo(rs[1..], removed + rs[0].Len(), m) {
      assert cs[1..][m] == cs[m + 1];
    }
  }

  lemma {:induction false} TextHead(left: Doc, cs: seq<Region>, text: Doc, from: nat, at: nat)
    requires cs != [] && cs[0].caret == at && from <= at <= |left| && Ordered(InsertEdits(cs[1..], text), at, |left|)
    ensures Ordered(InsertEdits(cs, text), from, |left|)
    ensures Splice(left, InsertEdits(cs, text), from) == left[from..at] + text + Splice(left, InsertEdits(cs[1..], text), at)
  {
    var head, rest := Edit.Edit(at, at, text), InsertEdits(cs[1..], text);
    assert InsertEdits(cs, text) == [head] + rest;
    SpliceCons(left, head, rest, from);
  }

  lemma {:induction false} SubstituteFrom(doc: Doc, rs: seq<Region>, text: Doc, last: nat, removed: nat, left: Doc, cs: seq<Region>, from: nat)
    requires DeletedFrom(doc, rs, last, removed, left, cs, from)
    ensures Ordered(InsertEdits(cs, text), from, |left|) && (rs != [] ==> last <= rs[0].Lo())
    ensures Splice(left, InsertEdits(cs, text), from) == Substituted(doc, rs, text, last)
    decreases |rs|
  {
    if rs != [] {
      var at := from + (rs[0].Lo() - last);
      DeletedNext(doc, rs, last, removed, left, cs, from, at);
      SubstituteFrom(doc, rs[1..], text, rs[0].Hi() + 1, removed + rs[0].Len(), left, cs[1..], at);
      TextHead(left, cs, text, from, at);
    }
  }

  /** Deleting regions that do not touch and inserting a text at the cursors puts the text in
      the place of every region. */
  lemma {:induction false} DeleteThenInsert(doc: Doc, s: Sel, text: Doc)
    requires WellFormed(s) && InBounds(s.regions, |doc|) && Apart(s.regions)
    ensures var d := Build(DeletionEdits(s.regions), |doc|);
            && ValidOn(d, doc) && Carry(s, d, |doc|).Ok?
            && var left, cs := Apply(d, doc), Carry(s, d, |doc|).value.regions;
            && var e := Build(InsertEdits(cs, text), |left|);
               ValidOn(e, left) && Apply(e, left) == Substituted(doc, s.regions, text, 0)
  {
    var rs := s.regions;
    DeletionOrdered(rs, |doc|);
    BuildApplies(DeletionEdits(rs), doc);
    DeletionLeavesCursors(doc, s);
    var d := Build(DeletionEdits(rs), |doc|);
    var left, cs := Apply(d, doc), Carry(s, d, |doc|).value.regions;
    assert DeletedFrom(doc, rs, 0, 0, left, cs, 0) by {
      DeletionEditsAt(rs);
      assert left[0..] == left;
    }
    SubstituteFrom(doc, rs, text, 0, 0, left, cs, 0);
    BuildApplies(InsertEdits(cs, text), left);
  }

  // ----- touching regions get one text between them

  lemma {:induction false} SubstitutedLength(doc: Doc, rs: seq<Region>, text: Doc, last: nat)
    requires Sorted(rs) && InBounds(rs, |doc|) && Ordered(DeletionEdits(rs), last, |doc|)
    ensures rs != [] ==> last <= rs[0].Lo()
    ensures |Substituted(doc, rs, text, last)| == |Splice(doc, DeletionEdits(rs), last)| + |rs| * |text|
    decreases |rs|
  {
    if rs != [] {
      SortedTail(rs);
      DeletedHead(doc, rs, last);
      SubstitutedLength(doc, rs[1..], text, rs[0].Hi() + 1);
      LinesAdd(|rs| - 1, 1, |text|);
    }
  }

  lemma {:induction false} InsertedLengths(doc: Doc, rs: seq<Region>, text: Doc)
    requires Sorted(rs) && InBounds(rs, |doc|)
    ensures ValidOn(Build(InsertEdits(rs, text), |doc|), doc)
    ensures |Apply(Build(InsertEdits(rs, text), |doc|), doc)| == |doc| + |rs| * |text|
  {
    InsertMeaning(doc, rs, text);
    TextLenSum(rs, text);
  }

  lemma {:induction false} TextLenSum(rs: seq<Region>, text: Doc)
    ensures TextLen(InsertEdits(rs, text)) == |rs| * |text|
  {
    if rs != [] {
      TextLenSum(rs[1..], text);
    }
  }

  /** After deleting the regions, a text at every cursor stands in the place of every region
      exactly if no two regions touch. */
  lemma {:induction false} ChangedExactly(doc: Doc, s: Sel, text: Doc)
    requires WellFormed(s) && InBounds(s.regions, |doc|) && text != []
    requires Carry(s, Build(DeletionEdits(s.regions), |doc|), |doc|).Ok?
    ensures var d := Build(DeletionEdits(s.regions), |doc|);
            && ValidOn(d, doc)
            && var left, cs := Apply(d, doc), Carry(s, d, |doc|).value.regions;
            && var e := Build(InsertEdits(cs, text), |left|);
            && ValidOn(e, left)
            && (Apply(e, left) == Substituted(doc, s.regions, text, 0) <==> Apart(s.regions))
  {
    var rs := s.regions;
    var d := Build(DeletionEdits(rs), |doc|);
    DeletionOrdered(rs, |doc|);
    BuildApplies(DeletionEdits(rs), doc);
    CarryOutcome(s, d, doc);
    var left, cs := Apply(d, doc), Carry(s, d, |doc|).value.regions;
    if Apart(rs) {
      DeleteThenInsert(doc, s, text);
    } else {
      TouchingMerge(doc, s);
      InsertedLengths(left, cs, text);
      SubstitutedLength(doc, rs, text, 0);
      Spread(|cs|, |rs|, |text|);
    }
  }

  // ----- the keys

  /** The view after the deletion that a change begins with. */
  function AfterDeletion(v: View): Outcome<View>
    requires WellPlaced(v)
  {
    if v.data == [] then Ok(v)
    else
      DeletionOrdered(v.selection.regions, |v.data|);
      BuildApplies(DeletionEdits(v.selection.regions), v.data);
      EditView(v, Build(DeletionEdits(v.selection.regions), |v.data|), 0, 0)
  }

  lemma ChangeEffects(ed: Editor, hex: bool, name: char, bytesPerLine: nat)
    requires EditorInv(ed) && ed.mode.Normal?
    ensures var v, key := ed.buffer.view, Change(hex, name);
            && Effects(ed, key, bytesPerLine)
               == (if v.data == [] then [] else [FinalEdit(v, DeletionEdits(v.selection.regions))])
            && KeyInside(ed, key) && NextMode(ed, key) == Inserting(InsertionMode.Insert, hex, None)
  {
  }

  /** Changing yanks and deletes the selection and leads to insert mode. */
  lemma {:induction false} ChangeKey(ed: Editor, t: Timeline, hex: bool, name: char, bytesPerLine: nat)
    requires Reached(ed, t) && ed.mode.Normal?
    ensures AdmissibleRun(ed.buffer, Effects(ed, Change(hex, name), bytesPerLine))
    ensures var v, r := ed.buffer.view, Press(ed, Change(hex, name), bytesPerLine);
            && r.Ok? && r.value.mode == Inserting(InsertionMode.Insert, hex, None)
            && HoldsTexts(ed.registers, r.value.registers, name, v) && Ok(r.value.buffer.view) == AfterDeletion(v)
  {
    var v := ed.buffer.view;
    ChangeEffects(ed, hex, name, bytesPerLine);
    RegistersTold(ed, Change(hex, name));
    if v.data != [] {
      DeletionCalm(v);
      PressEdit(ed, t, Change(hex, name), bytesPerLine, FinalEdit(v, DeletionEdits(v.selection.regions)));
    }
  }

  /** What a text typed after the deletion makes of the document. */
  lemma {:induction false} TypedAfterDeletion(v: View, v': View, text: Doc)
    requires WellPlaced(v) && AfterDeletion(v) == Ok(v') && WellPlaced(v') && text != []
    ensures var e := Build(InsertEdits(v'.selection.regions, text), |v'.data|);
            && ValidOn(e, v'.data)
            && (Apply(e, v'.data) == Substituted(v.data, v.selection.regions, text, 0) <==> Apart(v.selection.regions))
  {
    if v.data == [] {
      EmptyDocSelection(v.selection);
      InsertOrdered(v'.selection.regions, text, 0);
      BuildApplies(InsertEdits(v'.selection.regions, text), []);
      assert v.selection.regions[1..] == [];
      assert InsertEdits([], text) == [];
    } else {
      ChangedExactly(v.data, v.selection, text);
    }
  }

  /** Changing the selection and typing a character puts its encoding in the place of every
      region exactly if no two regions touch. */
  lemma {:induction false} ChangeThenText(ed: Editor, t: Timeline, name: char, ch: char, bytesPerLine: nat)
    requires Reached(ed, t) && ed.mode.Normal?
    ensures KeysReady(ed, [Change(false, name), TypeChar(ch)], bytesPerLine)
    ensures var v, r := ed.buffer.view, PressAll(ed, [Change(false, name), TypeChar(ch)], bytesPerLine);
            && r.Ok? && Decode(Encode(ch)) == Some(ch)
            && (r.value.buffer.view.data == Substituted(v.data, v.selection.regions, Encode(ch), 0) <==>
                Apart(v.selection.regions))
  {
    var v := ed.buffer.view;
    DecodesIff(Encode(ch), ch);
    ChangeKey(ed, t, false, name, bytesPerLine);
    ChangeEffects(ed, false, name, bytesPerLine);
    StillReached(ed, t, Change(false, name), bytesPerLine);
    var ed' := Press(ed, Change(false, name), bytesPerLine).value;
    var t' := RunTimeline(t, Effects(ed, Change(false, name), bytesPerLine)).value;
    TypedAfterDeletion(v, ed'.buffer.view, Encode(ch));
    TextLeaves(ed', t', ch, bytesPerLine);
    PressTwo(ed, t, Change(false, name), TypeChar(ch), bytesPerLine, ed');
  }

  /** The document after a character typed in insert or append mode. */
  lemma {:induction false} TextLeaves(ed: Editor, t: Timeline, ch: char, bytesPerLine: nat)
    requires Reached(ed, t) && ed.mode.Inserting? && !ed.mode.hex && ed.mode.how != Overwrite
    ensures AdmissibleRun(ed.buffer, Effects(ed, TypeChar(ch), bytesPerLine)) && KeyInside(ed, TypeChar(ch))
    ensures var v, r := ed.buffer.view, Press(ed, TypeChar(ch), bytesPerLine);
            && ValidOn(Build(InsertEdits(v.selection.regions, Encode(ch)), |v.data|), v.data)
            && r.Ok? && r.value.buffer.view.data == Apply(Build(InsertEdits(v.selection.regions, Encode(ch)), |v.data|), v.data)
  {
    var v := ed.buffer.view;
    TextEffects(ed, ch, bytesPerLine);
    InsertTextCalm(v, Encode(ch));
    PressEdit(ed, t, TypeChar(ch), bytesPerLine, TextEffect(v, ed.mode.how, Encode(ch)));
  }

  /** Starting to insert and typing a character puts its encoding right before every region. */
  lemma {:induction false} InsertThenText(ed: Editor, t: Timeline, ch: char, bytesPerLine: nat)
    requires Reached(ed, t) && ed.mode.Normal?
    ensures KeysReady(ed, [StartInsert(false), TypeChar(ch)], bytesPerLine)
    ensures var v, r := ed.buffer.view, PressAll(ed, [StartInsert(false), TypeChar(ch)], bytesPerLine);
            r.Ok? && TextBefore(v.data, v.selection.regions, ch, r.value.buffer.view.data)
  {
    var v := ed.buffer.view;
    TurnKeys(ed, t, StartInsert(false), bytesPerLine);
    StillReached(ed, t, StartInsert(false), bytesPerLine);
    var ed' := Press(ed, StartInsert(false), bytesPerLine).value;
    var t' := RunTimeline(t, Effects(ed, StartInsert(false), bytesPerLine)).value;
    TextKey(ed', t', ch, bytesPerLine);
    PressTwo(ed, t, StartInsert(false), TypeChar(ch), bytesPerLine, ed');
    StartsKept(v.selection.regions, ed'.buffer.view.selection.regions, ch, v.data,
               Press(ed', TypeChar(ch), bytesPerLine).value.buffer.view.data);
  }

  ghost predicate TextBefore(doc: Doc, rs: seq<Region>, ch: char, out: Doc) {
    exists es: seq<Edit> ::
      && InsertedInto(doc, es, out) && |es| == |rs|
      && forall k :: 0 <= k < |rs| ==> es[k].beg == rs[k].Lo() && Decode(es[k].text) == Some(ch)
  }

  lemma {:induction false} StartsKept(rs: seq<Region>, rs': seq<Region>, ch: char, doc: Doc, out: Doc)
    requires |rs'| == |rs| && TextInserted(doc, rs', ch, out)
    requires forall i :: 0 <= i < |rs| ==> Turned(StartInsert(false), rs[i], rs'[i])
    ensures TextBefore(doc, rs, ch, out)
  {
    var es: seq<Edit> :|
      && InsertedInto(doc, es, out) && |es| == |rs'|
      && forall k :: 0 <= k < |rs'| ==> es[k].beg == rs'[k].caret && Decode(es[k].text) == Some(ch);
    forall k | 0 <= k < |rs| ensures rs'[k].caret == rs[k].Lo() {
      assert rs'[k].Holds(rs'[k].Lo()) && rs[k].Holds(rs[k].Lo());
    }
  }
}
