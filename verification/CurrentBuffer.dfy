/** The buffer object: document, selection, registers and history, updated in place. */
module CurrentBuffer {
  import opened Prelude
  import opened Delta
  import opened Region
  import opened Selections
  import opened SelectionLaws
  import opened HexTyping
  import opened DeletePaste
  import opened Timeline
  import Selection
  import History

  // ----- dirty intervals

  /** The offsets from `start` up to, not including, `end`. */
  datatype Interval = Interval(start: nat, end: nat) {
    predicate Contains(p: int) {
      start <= p < end
    }

    function Union(other: Interval): Interval {
      if start >= end then other
      else if other.start >= other.end then this
      else Interval(Min(start, other.start), Max(end, other.end))
    }
  }

  function Span(r: Region): Interval {
    Interval(r.Lo(), r.Hi() + 1)
  }

  function Spans(rs: seq<Region>): seq<Interval> {
    seq(|rs|, i requires 0 <= i < |rs| => Span(rs[i]))
  }

  predicate Reported(xs: seq<Interval>, p: int) {
    exists i :: 0 <= i < |xs| && xs[i].Contains(p)
  }

  predicate AllNonempty(xs: seq<Interval>) {
    forall i :: 0 <= i < |xs| ==> xs[i].start < xs[i].end
  }

  predicate ByStart(xs: seq<Interval>) {
    forall i, j :: 0 <= i < j < |xs| ==> xs[i].start <= xs[j].start
  }

  predicate Separate(xs: seq<Interval>) {
    forall i, j :: 0 <= i < j < |xs| ==> xs[i].end <= xs[j].start
  }

  /** The stable sort of the standard library. */
  function InsertByStart(xs: seq<Interval>, x: Interval): seq<Interval> {
    if xs == [] || x.start < xs[0].start then [x] + xs
    else [xs[0]] + InsertByStart(xs[1..], x)
  }

  function SortByStart(xs: seq<Interval>): seq<Interval> {
    if xs == [] then [] else InsertByStart(SortByStart(xs[..|xs| - 1]), xs[|xs| - 1])
  }

  lemma {:induction false} InsertByStartElements(xs: seq<Interval>, x: Interval)
    ensures multiset(InsertByStart(xs, x)) == multiset(xs) + multiset{x}
  {
    if xs != [] && xs[0].start <= x.start {
      InsertByStartElements(xs[1..], x);
      assert xs == [xs[0]] + xs[1..];
    }
  }

  lemma ByStartCons(x: Interval, xs: seq<Interval>)
    requires ByStart(xs) && (xs != [] ==> x.start <= xs[0].start)
    ensures ByStart([x] + xs)
  {
    forall j | 0 <= j < |xs| ensures x.start <= xs[j].start {
      assert j > 0 ==> xs[0].start <= xs[j].start;
    }
  }

  lemma {:induction false} InsertByStartForm(xs: seq<Interval>, x: Interval)
    requires ByStart(xs) && AllNonempty(xs) && x.start < x.end
    ensures ByStart(InsertByStart(xs, x)) && AllNonempty(InsertByStart(xs, x))
    ensures InsertByStart(xs, x) != []
    ensures InsertByStart(xs, x)[0].start == if xs == [] then x.start else Min(x.start, xs[0].start)
  {
    if xs == [] || x.start < xs[0].start {
      ByStartCons(x, xs);
    } else {
      assert ByStart(xs[1..]) && AllNonempty(xs[1..]);
      assert |xs| > 1 ==> xs[1..][0] == xs[1] && xs[0].start <= xs[1].start;
      InsertByStartForm(xs[1..], x);
      ByStartCons(xs[0], InsertByStart(xs[1..], x));
    }
  }

  lemma {:induction false} SortByStartForm(xs: seq<Interval>)
    requires AllNonempty(xs)
    ensures ByStart(SortByStart(xs)) && AllNonempty(SortByStart(xs)) && multiset(SortByStart(xs)) == multiset(xs)
  {
    if xs != [] {
      var init, last := xs[..|xs| - 1], xs[|xs| - 1];
      assert xs == init + [last];
      SortByStartForm(init);
      InsertByStartForm(SortByStart(init), last);
      InsertByStartElements(SortByStart(init), last);
    }
  }

  lemma SameReports(xs: seq<Interval>, ys: seq<Interval>, p: int)
    requires multiset(xs) == multiset(ys)
    ensures Reported(xs, p) <==> Reported(ys, p)
  {
    if i :| 0 <= i < |xs| && xs[i].Contains(p) {
      assert xs[i] in multiset(ys);
    }
    if i :| 0 <= i < |ys| && ys[i].Contains(p) {
      assert ys[i] in multiset(xs);
    }
  }

  /** Joins overlapping intervals: the result is sorted and disjoint and reports exactly the
      same positions. */
  method Coalesce(xs: seq<Interval>) returns (out: seq<Interval>)
    requires ByStart(xs) && AllNonempty(xs)
    ensures Separate(out) && AllNonempty(out)
    ensures forall p :: Reported(out, p) <==> Reported(xs, p)
  {
    out := [];
    for i := 0 to |xs|
      invariant Separate(out) && AllNonempty(out)
      invariant forall p :: Reported(out, p) <==> Reported(xs[..i], p)
      invariant out == [] <==> i == 0
      invariant out != [] ==> out[|out| - 1].start <= xs[i - 1].start
    {
      var r := xs[i];
      ghost var before := out;
      if out == [] {
        out := out + [r];
      } else {
        var last := out[|out| - 1];
        if last.Contains(r.start) {
          out := out[..|out| - 1] + [last.Union(r)];
        } else {
          out := out + [r];
        }
      }
      CoalesceStep(before, r, out);
      assert xs[..i + 1] == xs[..i] + [r];
      forall p ensures Reported(out, p) <==> Reported(xs[..i + 1], p) {
        ReportedPush(xs[..i], r, p);
      }
    }
    assert xs[..|xs|] == xs;
  }

  lemma ReportedPush(xs: seq<Interval>, r: Interval, p: int)
    ensures Reported(xs + [r], p) <==> Reported(xs, p) || r.Contains(p)
  {
    var all := xs + [r];
    if i :| 0 <= i < |xs| && xs[i].Contains(p) {
      assert all[i].Contains(p);
    }
    if r.Contains(p) {
      assert all[|xs|].Contains(p);
    }
  }

  /** What one round adds to the report. */
  lemma CoalesceStep(before: seq<Interval>, r: Interval, out: seq<Interval>)
    requires AllNonempty(before) && r.start < r.end
    requires if before != [] && before[|before| - 1].Contains(r.start)
             then out == before[..|before| - 1] + [before[|before| - 1].Union(r)]
             else out == before + [r]
    ensures forall p :: Reported(out, p) <==> Reported(before, p) || r.Contains(p)
  {
    forall p ensures Reported(out, p) <==> Reported(before, p) || r.Contains(p) {
      if before != [] && before[|before| - 1].Contains(r.start) {
        var init, last := before[..|before| - 1], before[|before| - 1];
        assert before == init + [last];
        ReportedPush(init, last, p);
        ReportedPush(init, last.Union(r), p);
      } else {
        ReportedPush(before, r, p);
      }
    }
  }

  lemma CoversPush(rs: seq<Region>, r: Region, p: int)
    ensures Covers(rs + [r], p) <==> Covers(rs, p) || r.Holds(p)
  {
    CoversConcat(rs, [r], p);
    assert [r][0] == r;
  }

  /** What is reported after region i and the regions produced for it have been added. */
  lemma ReportedRound(rs: seq<Region>, outputs: seq<seq<Region>>, i: nat, p: int)
    requires i < |rs| == |outputs|
    ensures Covers(rs[..i + 1], p) || Covers(Flatten(outputs[..i + 1]), p) <==>
            Covers(rs[..i], p) || Covers(Flatten(outputs[..i]), p) || rs[i].Holds(p) || Covers(outputs[i], p)
  {
    assert rs[..i + 1] == rs[..i] + [rs[i]];
    CoversPush(rs[..i], rs[i], p);
    FlattenAt(outputs, i);
    CoversConcat(Flatten(outputs[..i]), outputs[i], p);
  }

  /** The spans of all regions and of what was produced for them. */
  method InvalidatedRanges(rs: seq<Region>, outputs: seq<seq<Region>>) returns (xs: seq<Interval>)
    requires |rs| == |outputs|
    ensures AllNonempty(xs)
    ensures forall p :: Reported(xs, p) <==> Covers(rs, p) || Covers(Flatten(outputs), p)
  {
    xs := [];
    for i := 0 to |rs|
      invariant AllNonempty(xs)
      invariant forall p :: Reported(xs, p) <==> Covers(rs[..i], p) || Covers(Flatten(outputs[..i]), p)
    {
      ghost var before := xs;
      xs := xs + [Span(rs[i])];
      forall p ensures Reported(xs, p) <==> Reported(before, p) || rs[i].Holds(p) {
        ReportedPush(before, Span(rs[i]), p);
      }
      for j := 0 to |outputs[i]|
        invariant AllNonempty(xs)
        invariant forall p :: Reported(xs, p) <==> Reported(before, p) || rs[i].Holds(p) || Covers(outputs[i][..j], p)
      {
        ghost var added := xs;
        xs := xs + [Span(outputs[i][j])];
        assert outputs[i][..j + 1] == outputs[i][..j] + [outputs[i][j]];
        forall p ensures Reported(xs, p) <==> Reported(added, p) || outputs[i][j].Holds(p)
                 ensures Covers(outputs[i][..j + 1], p) <==> Covers(outputs[i][..j], p) || outputs[i][j].Holds(p) {
          ReportedPush(added, Span(outputs[i][j]), p);
          CoversPush(outputs[i][..j], outputs[i][j], p);
        }
      }
      assert outputs[i][..|outputs[i]|] == outputs[i];
      forall p ensures Reported(xs, p) <==> Covers(rs[..i + 1], p) || Covers(Flatten(outputs[..i + 1]), p) {
        ReportedRound(rs, outputs, i, p);
      }
    }
    assert rs[..|rs|] == rs && outputs[..|outputs|] == outputs;
  }

  // ----- complete reports

  predicate MainHolds(s: Sel, p: int) {
    s.main < |s.regions| && s.regions[s.main].Holds(p)
  }

  /** Whether position p has to be drawn differently. */
  ghost predicate Redrawn(before: Sel, after: Sel, p: int) {
    Covers(before.regions, p) != Covers(after.regions, p) || MainHolds(before, p) != MainHolds(after, p)
  }

  /** Every position that is selected or deselected, or that enters or leaves the main region,
      is reported. */
  ghost predicate Complete(before: Sel, after: Sel, changed: seq<Interval>) {
    forall p :: Redrawn(before, after, p) ==> Reported(changed, p)
  }

  lemma CompleteIf(before: Sel, after: Sel, changed: seq<Interval>)
    requires forall p :: Covers(before.regions, p) || Covers(after.regions, p) ==> Reported(changed, p)
    ensures Complete(before, after, changed)
  {
    forall p | Redrawn(before, after, p) ensures Reported(changed, p) {
      assert MainHolds(before, p) ==> Covers(before.regions, p);
      assert MainHolds(after, p) ==> Covers(after.regions, p);
    }
  }

  lemma SpansReport(rs: seq<Region>, p: int)
    ensures Reported(Spans(rs), p) <==> Covers(rs, p)
  {
    if i :| 0 <= i < |rs| && rs[i].Holds(p) {
      assert Spans(rs)[i].Contains(p);
    }
    if i :| 0 <= i < |rs| && Spans(rs)[i].Contains(p) {
      assert rs[i].Holds(p);
    }
  }

  /** The spans of all the old regions are enough if nothing else is selected afterwards. */
  lemma SpansComplete(before: Sel, after: Sel)
    requires forall p :: Covers(after.regions, p) ==> Covers(before.regions, p)
    ensures Complete(before, after, Spans(before.regions))
  {
    forall p | Covers(before.regions, p) || Covers(after.regions, p) ensures Reported(Spans(before.regions), p) {
      SpansReport(before.regions, p);
    }
    CompleteIf(before, after, Spans(before.regions));
  }

  /** The old and the new main region are enough if only the main flag moves. */
  lemma MainSpansComplete(before: Sel, after: Sel)
    requires before.main < |before.regions| && after.main < |after.regions|
    requires forall p :: Covers(after.regions, p) <==> Covers(before.regions, p)
    ensures Complete(before, after, [Span(before.regions[before.main]), Span(after.regions[after.main])])
  {
    var changed := [Span(before.regions[before.main]), Span(after.regions[after.main])];
    forall p | Redrawn(before, after, p) ensures Reported(changed, p) {
      assert changed[0].Contains(p) || changed[1].Contains(p);
    }
  }

  /** Selecting everything reports the bytes of the document. That misses a position exactly
      if a region reached the overflow position. */
  lemma {:induction false} AllSelectedReport(before: Sel, n: nat)
    requires WellFormed(before) && InBounds(before.regions, n)
    ensures Complete(before, Selection.AllSelected(n), [Interval(0, n)]) <==> n == 0 || !Covers(before.regions, n)
  {
    var after, changed := Selection.AllSelected(n), [Interval(0, n)];
    assert forall p :: Reported(changed, p) <==> changed[0].Contains(p);
    if n == 0 {
      EmptyDocSelection(before);
    } else {
      assert forall p :: Covers(after.regions, p) <==> after.regions[0].Holds(p);
      if Covers(before.regions, n) {
        assert Redrawn(before, after, n) && !Reported(changed, n);
      } else {
        forall p | Covers(before.regions, p) || Covers(after.regions, p) ensures Reported(changed, p) {
          CoveredInside(before.regions, n, p);
        }
        CompleteIf(before, after, changed);
      }
    }
  }

  lemma CoveredInside(rs: seq<Region>, n: nat, p: int)
    requires InBounds(rs, n)
    ensures Covers(rs, p) ==> 0 <= p <= n
  {
  }

  // ----- the buffer

  class CurrentBuffer {
    var data: Doc
    const selection: Selection.Selection
    var registers: map<char, seq<Doc>>
    var dirty: bool
    const history: History.History

    function Value(): Buffer
      reads this, selection, history
    {
      Buffer(View(data, selection.Value()), history.Value())
    }

    constructor (bytes: Doc)
      ensures fresh(selection) && fresh(history)
      ensures Value() == Buffer(View(bytes, Cleared), History.Empty)
      ensures registers == map[] && !dirty
    {
      data := bytes;
      selection := new Selection.Selection();
      registers := map[];
      dirty := false;
      history := new History.History();
    }

    /** Changes the selection and reports what has to be drawn again: the old regions and
        the ones that were produced. */
    method MapSelections(outputs: seq<seq<Region>>) returns (ok: bool, changed: seq<Interval>)
      requires |outputs| == |selection.regions|
      modifies selection
      ensures ok <==> Perform(old(Value()), Select(outputs)).Ok?
      ensures ok ==> Value() == Perform(old(Value()), Select(outputs)).value
      ensures ok ==> Separate(changed)
      ensures ok ==> forall p ::
                Reported(changed, p) <==> Covers(old(selection.regions), p) || Covers(Flatten(outputs), p)
      ensures ok && old(selection.mainSelection) < |outputs| && StartsAscend(Flatten(outputs)) ==>
                Complete(old(selection.Value()), selection.Value(), changed)
    {
      ghost var regions, main, before := selection.regions, selection.mainSelection, selection.Value();
      var invalidated := InvalidatedRanges(selection.regions, outputs);
      ok := selection.MapSelections(outputs);
      if !ok {
        return false, [];
      }
      var ordered := SortByStart(invalidated);
      SortByStartForm(invalidated);
      changed := Coalesce(ordered);
      forall p ensures Reported(changed, p) <==> Covers(regions, p) || Covers(Flatten(outputs), p) {
        SameReports(ordered, invalidated, p);
      }
      if main < |outputs| && StartsAscend(Flatten(outputs)) {
        MapCanonical(outputs, main);
        CompleteIf(before, selection.Value(), changed);
      }
    }

    /** Takes a region away, counted around the end, and reports all the old ones. */
    method RemoveSelection(index: nat) returns (changed: seq<Interval>)
      requires selection.regions != []
      modifies selection
      ensures var s := old(selection.Value());
              Value() == Perform(old(Value()), Reselect(Selection.Removed(s, Selection.Around(index, |s.regions|)))).value
      ensures changed == Spans(old(selection.regions))
    {
      changed := Spans(selection.regions);
      selection.Remove(Selection.Around(index, |selection.regions|));
    }

    /** Keeps one region only, counted around the end, and reports all the old ones. */
    method RetainSelection(index: nat) returns (changed: seq<Interval>)
      requires selection.regions != []
      modifies selection
      ensures var s := old(selection.Value());
              Value() == Perform(old(Value()), Reselect(Selection.Retained(s, Selection.Around(index, |s.regions|)))).value
      ensures changed == Spans(old(selection.regions))
    {
      changed := Spans(selection.regions);
      selection.Retain(Selection.Around(index, |selection.regions|));
    }

    /** Makes a later region the main one and reports it and the old one. */
    method SelectNext(count: nat) returns (changed: seq<Interval>)
      requires selection.mainSelection < |selection.regions|
      modifies selection
      ensures var s := old(selection.Value());
              var next := Selection.Around(s.main + count, |s.regions|);
              && Value() == Perform(old(Value()), Reselect(Selection.MainMoved(s, next))).value
              && changed == [Span(s.regions[s.main]), Span(s.regions[next])]
    {
      var before := Span(selection.regions[selection.mainSelection]);
      selection.SelectNext(count);
      changed := [before, Span(selection.regions[selection.mainSelection])];
    }

    method SelectPrev(count: nat) returns (changed: seq<Interval>)
      requires selection.mainSelection < |selection.regions|
      modifies selection
      ensures var s := old(selection.Value());
              var next := Selection.Around(s.main - count, |s.regions|);
              && Value() == Perform(old(Value()), Reselect(Selection.MainMoved(s, next))).value
              && changed == [Span(s.regions[s.main]), Span(s.regions[next])]
    {
      var before := Span(selection.regions[selection.mainSelection]);
      selection.SelectPrev(count);
      changed := [before, Span(selection.regions[selection.mainSelection])];
    }

    method ApplyDeltaToCurrentBuffer(d: Delta, isFinal: bool)
      requires ValidOn(d, data)
      requires history.partial.Some? ==> ValidOn(history.partial.value.action, data)
      modifies this, history
      ensures data == Apply(d, old(data)) && dirty && registers == old(registers)
      ensures history.Value() ==
              if isFinal then History.PerformFinal(old(history.Value()), old(data), d, selection.Value())
              else History.PerformPartial(old(history.Value()), old(data), d, selection.Value())
    {
      var nextData := Apply(d, data);
      if isFinal {
        history.Final(data, d, selection.Value());
      } else {
        history.Partial(data, d, selection.Value());
      }
      data := nextData;
      dirty := true;
    }

    /** An edit that is an action of its own; false is a panic. */
    method ApplyDelta(d: Delta) returns (ok: bool)
      requires Admissible(Value(), Edit(d, 0, 0, true))
      modifies this, selection, history
      ensures ok <==> Perform(old(Value()), Edit(d, 0, 0, true)).Ok?
      ensures ok ==> Value() == Perform(old(Value()), Edit(d, 0, 0, true)).value && dirty && registers == old(registers)
    {
      var maxLen := |data|;
      ApplyDeltaToCurrentBuffer(d, true);
      ok := selection.ApplyDelta(d, maxLen);
    }

    method ApplyDeltaOffsetCarets(d: Delta, caretOffset: int, tailOffset: int) returns (ok: bool)
      requires Admissible(Value(), Edit(d, caretOffset, tailOffset, true))
      modifies this, selection, history
      ensures ok <==> Perform(old(Value()), Edit(d, caretOffset, tailOffset, true)).Ok?
      ensures ok ==> Value() == Perform(old(Value()), Edit(d, caretOffset, tailOffset, true)).value
      ensures ok ==> dirty && registers == old(registers)
    {
      var maxLen := |data|;
      ApplyDeltaToCurrentBuffer(d, true);
      ok := selection.ApplyDeltaOffsetCarets(d, caretOffset, tailOffset, maxLen);
    }

    /** An edit that joins the pending action. */
    method ApplyIncompleteDelta(d: Delta) returns (ok: bool)
      requires Admissible(Value(), Edit(d, 0, 0, false))
      modifies this, selection, history
      ensures ok <==> Perform(old(Value()), Edit(d, 0, 0, false)).Ok?
      ensures ok ==> Value() == Perform(old(Value()), Edit(d, 0, 0, false)).value && dirty && registers == old(registers)
    {
      var maxLen := |data|;
      ApplyDeltaToCurrentBuffer(d, false);
      ok := selection.ApplyDelta(d, maxLen);
    }

    method ApplyIncompleteDeltaOffsetCarets(d: Delta, caretOffset: int, tailOffset: int) returns (ok: bool)
      requires Admissible(Value(), Edit(d, caretOffset, tailOffset, false))
      modifies this, selection, history
      ensures ok <==> Perform(old(Value()), Edit(d, caretOffset, tailOffset, false)).Ok?
      ensures ok ==> Value() == Perform(old(Value()), Edit(d, caretOffset, tailOffset, false)).value
      ensures ok ==> dirty && registers == old(registers)
    {
      var maxLen := |data|;
      ApplyDeltaToCurrentBuffer(d, false);
      ok := selection.ApplyDeltaOffsetCarets(d, caretOffset, tailOffset, maxLen);
    }

    method CommitDelta()
      modifies history
      ensures Value() == Perform(old(Value()), Commit).value
    {
      history.Commit();
    }

    method PerformUndo() returns (undone: bool)
      requires Admissible(Value(), Undo)
      modifies this, selection, history
      ensures Value() == Perform(old(Value()), Undo).value
      ensures undone <==> old(history.undo) != []
      ensures registers == old(registers) && dirty == (old(dirty) || undone)
    {
      var taken := history.Undo(data, selection.Value());
      if taken.None? {
        return false;
      }
      selection.Assign(taken.value.selection);
      data := Apply(taken.value.action, data);
      dirty := true;
      undone := true;
    }

    method PerformRedo() returns (redone: bool)
      requires Admissible(Value(), Redo)
      modifies this, selection, history
      ensures Value() == Perform(old(Value()), Redo).value
      ensures redone <==> old(history.redo) != []
      ensures registers == old(registers) && dirty == (old(dirty) || redone)
    {
      var taken := history.Redo(data, selection.Value());
      if taken.None? {
        return false;
      }
      selection.Assign(taken.value.selection);
      data := Apply(taken.value.action, data);
      dirty := true;
      redone := true;
    }

    /** Copies the bytes of every region into a register. */
    method YankSelections(reg: char)
      requires InBounds(selection.regions, |data|)
      modifies this
      ensures Value() == old(Value()) && dirty == old(dirty)
      ensures registers == old(registers)[reg := Yanked(data, selection.regions)]
    {
      if data == [] {
        var entries := seq(|selection.regions|, _ => []);
        assert entries == Yanked(data, selection.regions);
        registers := registers[reg := entries];
        return;
      }
      var selections: seq<Doc> := [];
      for i := 0 to |selection.regions|
        invariant selections == Yanked(data, selection.regions)[..i]
      {
        var region := selection.regions[i];
        selections := selections + [RegionText(data, region)];
      }
      assert selections == Yanked(data, selection.regions);
      registers := registers[reg := selections];
    }
  }
}
