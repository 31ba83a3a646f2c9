/** Exactly when deleting the selections and pasting them back restores the document. What is
    not obvious is a cursor at the overflow position, where there is no byte to delete. */
module OverflowCursor {
  import opened Prelude
  import opened Delta
  import opened Builder
  import opened Region
  import opened Selections
  import opened SelectionLaws
  import opened Transport
  import opened Operations
  import opened DeletePaste
  import opened Absorption

  // ----- the condition

  predicate Touches(rs: seq<Region>, i: nat) {
    i + 1 < |rs| && rs[i].Hi() + 1 == rs[i + 1].Lo()
  }

  /** Regions i and i + 1 touch, and no other two do. */
  ghost predicate TouchOnly(rs: seq<Region>, i: nat) {
    Touches(rs, i) && forall j: nat :: Touches(rs, j) ==> j == i
  }

  /** The bytes between region j and the next one. */
  function Gap(doc: Doc, rs: seq<Region>, j: nat): Doc
    requires Sorted(rs) && InBounds(rs, |doc|) && j + 1 < |rs|
  {
    assert rs[j].Hi() < rs[j + 1].Lo();
    doc[rs[j].Hi() + 1..rs[j + 1].Lo()]
  }

  /** Swapping the bytes of region j with those after it makes no difference. */
  predicate Swappable(doc: Doc, rs: seq<Region>, j: nat)
    requires Sorted(rs) && InBounds(rs, |doc|) && j + 1 < |rs|
  {
    RegionText(doc, rs[j]) + Gap(doc, rs, j) == Gap(doc, rs, j) + RegionText(doc, rs[j])
  }

  /** From region j on the regions can be swapped with the bytes after them. */
  ghost predicate SwappableFrom(doc: Doc, rs: seq<Region>, j: nat)
    requires Sorted(rs) && InBounds(rs, |doc|)
  {
    forall k: nat :: j <= k && k + 1 < |rs| ==> Swappable(doc, rs, k)
  }

  /** No two regions touch; or the last one is a cursor at the overflow position, only
      regions i and i + 1 touch, and from region i + 1 on the regions can be swapped with the
      bytes after them. */
  ghost predicate ComesBack(doc: Doc, rs: seq<Region>)
    requires Sorted(rs) && InBounds(rs, |doc|)
  {
    || Apart(rs)
    || exists i: nat ::
         TouchOnly(rs, i) && rs[|rs| - 1].Lo() == |doc| && SwappableFrom(doc, rs, i + 1)
  }

  // ----- the cursors that are left

  lemma {:induction false} CollapsedStep(rs: seq<Region>, removed: nat, i: nat)
    requires i + 1 < |rs|
    ensures CollapsedTo(rs, removed, i + 1) == CollapsedTo(rs, removed, i) + (rs[i + 1].Lo() - rs[i].Hi() - 1)
  {
    if i > 0 {
      CollapsedStep(rs[1..], removed + rs[0].Len(), i - 1);
    }
  }

  /** Regions collapse in order, and to the same offset exactly if all between them touch. */
  lemma {:induction false} CollapsedInOrder(rs: seq<Region>, i: nat, j: nat)
    requires Sorted(rs) && i < j < |rs|
    ensures CollapsedTo(rs, 0, i) <= CollapsedTo(rs, 0, j)
    ensures forall k: nat :: i <= k < j && !Touches(rs, k) ==> CollapsedTo(rs, 0, i) < CollapsedTo(rs, 0, j)
    decreases j - i
  {
    CollapsedStep(rs, 0, j - 1);
    assert rs[j - 1].Hi() < rs[j].Lo();
    if i < j - 1 {
      CollapsedInOrder(rs, i, j - 1);
    }
  }

  /** Cursors where the regions collapse to; regions i and i + 1 share one. */
  predicate CursorsBut(cursors: seq<Region>, rs: seq<Region>, removed: nat, i: nat) {
    && |cursors| + 1 == |rs|
    && forall m :: 0 <= m < |cursors| ==>
         cursors[m].caret == cursors[m].tail == CollapsedTo(rs, removed, if m <= i then m else m + 1)
  }

  lemma {:induction false} CarriedCursor(doc: Doc, rs: seq<Region>, j: nat)
    requires Sorted(rs) && InBounds(rs, |doc|) && j < |rs|
    ensures 0 <= CollapsedTo(rs, 0, j) <= NewLen(Build(DeletionEdits(rs), |doc|))
    ensures CarryRegions(Build(DeletionEdits(rs), |doc|), |doc|, rs, 0, 0)[j]
         == At(CollapsedTo(rs, 0, j), CollapsedTo(rs, 0, j))
  {
    DeletedOffset(doc, rs, j, rs[j].caret);
    DeletedOffset(doc, rs, j, rs[j].tail);
    DeletionOrdered(rs, |doc|);
    BuildApplies(DeletionEdits(rs), doc);
    CarryPlain(Build(DeletionEdits(rs), |doc|), rs[j].caret);
  }

  /** The cursors before the shared one is merged. */
  ghost predicate Collapsed(out: seq<Region>, rs: seq<Region>) {
    && |out| == |rs|
    && forall j: nat :: j < |rs| ==> CollapsedTo(rs, 0, j) >= 0 && out[j] == At(CollapsedTo(rs, 0, j), CollapsedTo(rs, 0, j))
  }

  lemma {:induction false} CollapsedForm(rs: seq<Region>, out: seq<Region>, i: nat)
    requires Sorted(rs) && Collapsed(out, rs) && TouchOnly(rs, i)
    ensures StartsAscend(out) && Swallowed(out[i], out[i + 1])
    ensures Sorted(Without(out, i)) && CursorsBut(Without(out, i), rs, 0, i)
  {
    CollapsedStep(rs, 0, i);
    forall a, b | 0 <= a < b < |out| ensures out[a].Lo() <= out[b].Lo() {
      CollapsedInOrder(rs, a, b);
    }
    var cs := Without(out, i);
    forall m | 0 <= m < |cs|
      ensures cs[m].caret == cs[m].tail == CollapsedTo(rs, 0, if m <= i then m else m + 1) {
    }
    forall a, b | 0 <= a < b < |cs| ensures cs[a].Hi() < cs[b].Lo() {
      var x, y := if a <= i then a else a + 1, if b <= i then b else b + 1;
      CollapsedInOrder(rs, x, y);
      assert x != i ==> !Touches(rs, x);
      assert x == i ==> !Touches(rs, x + 1);
    }
  }

  lemma {:induction false} AllCollapse(doc: Doc, rs: seq<Region>)
    requires Sorted(rs) && InBounds(rs, |doc|)
    ensures Collapsed(CarryRegions(Build(DeletionEdits(rs), |doc|), |doc|, rs, 0, 0), rs)
    ensures forall j: nat :: j < |rs| ==> CollapsedTo(rs, 0, j) <= NewLen(Build(DeletionEdits(rs), |doc|))
  {
    forall j: nat | j < |rs|
      ensures 0 <= CollapsedTo(rs, 0, j) <= NewLen(Build(DeletionEdits(rs), |doc|))
      ensures CarryRegions(Build(DeletionEdits(rs), |doc|), |doc|, rs, 0, 0)[j]
           == At(CollapsedTo(rs, 0, j), CollapsedTo(rs, 0, j)) {
      CarriedCursor(doc, rs, j);
    }
  }

  lemma {:induction false} MergedCursors(rs: seq<Region>, out: seq<Region>, i: nat, main: nat)
    requires Sorted(rs) && Collapsed(out, rs) && TouchOnly(rs, i) && main < |rs|
    ensures var r := MapSelections(Singles(out), main);
            r.Ok? && CursorsBut(r.value.regions, rs, 0, i)
  {
    CollapsedForm(rs, out, i);
    SwallowedLeftOut(out, main, i);
    var cs, m := Without(out, i), MainWithout(main, i);
    MapSinglesApart(cs, m);
    assert forall k :: 0 <= k < |cs| ==> Flagged(cs, m)[k].caret == cs[k].caret && Flagged(cs, m)[k].tail == cs[k].tail;
  }

  lemma {:induction false} OnePairCursors(doc: Doc, s: Sel, i: nat)
    requires WellFormed(s) && InBounds(s.regions, |doc|) && TouchOnly(s.regions, i)
    ensures var r := Carry(s, Build(DeletionEdits(s.regions), |doc|), |doc|);
            r.Ok? && CursorsBut(r.value.regions, s.regions, 0, i)
  {
    var rs := s.regions;
    var d := Build(DeletionEdits(rs), |doc|);
    var out := CarryRegions(d, |doc|, rs, 0, 0);
    AllCollapse(doc, rs);
    if NewLen(d) == 0 {
      ClearedCursor(rs, out, i);
    } else {
      MergedCursors(rs, out, i, s.main);
    }
  }

  /** If nothing is left there is one cursor, at the start. */
  lemma {:induction false} ClearedCursor(rs: seq<Region>, out: seq<Region>, i: nat)
    requires Sorted(rs) && Collapsed(out, rs) && TouchOnly(rs, i) && forall j: nat :: j < |rs| ==> CollapsedTo(rs, 0, j) <= 0
    ensures CursorsBut(Cleared.regions, rs, 0, i)
  {
    CollapsedForm(rs, out, i);
    var cs := Without(out, i);
    assert |cs| > 1 ==> cs[0].Hi() < cs[1].Lo();
  }

  // ----- what is left between the cursors

  lemma {:induction false} LeftGap(doc: Doc, rs: seq<Region>, last: nat, removed: nat, left: Doc, from: nat, j: nat, a: int, b: int)
    requires Sorted(rs) && LeftFrom(doc, DeletionEdits(rs), last, left, from) && from == last - removed && j + 1 < |rs|
    requires a == CollapsedTo(rs, removed, j) && b == CollapsedTo(rs, removed, j + 1)
    ensures 0 <= a <= b <= |left| && rs[j].Hi() + 1 <= rs[j + 1].Lo() <= |doc|
    ensures left[a..b] == doc[rs[j].Hi() + 1..rs[j + 1].Lo()]
    decreases j
  {
    var at, next := from + (rs[0].Lo() - last), rs[0].Hi() + 1;
    LeftHead(doc, DeletionEdits(rs), last, left, from, at);
    if j == 0 {
      FirstGap(doc, rs[1..], next, left, at, b);
    } else {
      SortedTail(rs);
      LeftGap(doc, rs[1..], next, removed + rs[0].Len(), left, at, j - 1, a, b);
    }
  }

  lemma {:induction false} FirstGap(doc: Doc, rs: seq<Region>, last: nat, left: Doc, from: nat, at: int)
    requires rs != [] && LeftFrom(doc, DeletionEdits(rs), last, left, from) && at - from == rs[0].Lo() - last
    ensures from <= at <= |left| && last <= rs[0].Lo() <= |doc| && left[from..at] == doc[last..rs[0].Lo()]
  {
    LeftHead(doc, DeletionEdits(rs), last, left, from, at);
  }

  /** A cursor at the overflow position goes to the end of what is left. */
  lemma {:induction false} LeftEnd(doc: Doc, rs: seq<Region>, last: nat, removed: nat, left: Doc, from: nat, j: nat)
    requires Sorted(rs) && LeftFrom(doc, DeletionEdits(rs), last, left, from) && from == last - removed
    requires j + 1 == |rs| && rs[j].Lo() == |doc|
    ensures CollapsedTo(rs, removed, j) == |left|
    decreases j
  {
    var at, next := from + (rs[0].Lo() - last), rs[0].Hi() + 1;
    LeftHead(doc, DeletionEdits(rs), last, left, from, at);
    if j == 0 {
      assert rs[1..] == [] && left[at..] == Splice(doc, [], next);
    } else {
      SortedTail(rs);
      LeftEnd(doc, rs[1..], next, removed + rs[0].Len(), left, at, j - 1);
    }
  }

  /** Where region j collapses to. */
  function Spot(rs: seq<Region>, j: nat): int
    requires j < |rs|
  {
    CollapsedTo(rs, 0, j)
  }

  ghost predicate GapLeft(doc: Doc, rs: seq<Region>, left: Doc, j: nat)
    requires Sorted(rs) && InBounds(rs, |doc|) && j + 1 < |rs|
  {
    0 <= Spot(rs, j) <= Spot(rs, j + 1) <= |left| && left[Spot(rs, j)..Spot(rs, j + 1)] == Gap(doc, rs, j)
  }

  /** What is left is the bytes before the first region and those between the regions. */
  ghost predicate Leaves(doc: Doc, rs: seq<Region>, left: Doc) {
    && Sorted(rs) && InBounds(rs, |doc|) && rs != [] && rs[|rs| - 1].Lo() == |doc| && Spot(rs, |rs| - 1) == |left|
    && 0 <= Spot(rs, 0) <= |left| && left[0..Spot(rs, 0)] == doc[0..rs[0].Lo()]
    && forall j: nat :: j + 1 < |rs| ==> GapLeft(doc, rs, left, j)
  }

  lemma {:induction false} DeletionLeaves(doc: Doc, rs: seq<Region>, left: Doc)
    requires Sorted(rs) && InBounds(rs, |doc|) && rs != [] && rs[|rs| - 1].Lo() == |doc|
    requires Ordered(DeletionEdits(rs), 0, |doc|) && left == Splice(doc, DeletionEdits(rs), 0)
    ensures Leaves(doc, rs, left)
  {
    assert LeftFrom(doc, DeletionEdits(rs), 0, left, 0) by {
      DeletionEditsAt(rs);
      assert left[0..] == left;
    }
    LeftEnd(doc, rs, 0, 0, left, 0, |rs| - 1);
    LeftHead(doc, DeletionEdits(rs), 0, left, 0, rs[0].Lo());
    forall j: nat | j + 1 < |rs| ensures GapLeft(doc, rs, left, j) {
      LeftGap(doc, rs, 0, 0, left, 0, j, Spot(rs, j), Spot(rs, j + 1));
    }
  }

  // ----- pasting

  /** Pasting at the cursors from the k-th on makes `result` of what is left from `from` on. */
  ghost predicate Gives(left: Doc, cs: seq<Region>, k: nat, register: seq<Doc>, from: int, result: Doc)
    requires k <= |cs|
  {
    && register != [] && from >= 0
    && Ordered(PasteEdits(cs[k..], k, register, false, 1, |left|), from, |left|)
    && Splice(left, PasteEdits(cs[k..], k, register, false, 1, |left|), from) == result
  }

  lemma {:induction false} GivesMore(left: Doc, cs: seq<Region>, k: nat, register: seq<Doc>, from: int, at: int, rest: Doc)
    requires k < |cs| && cs[k].caret == cs[k].tail == at && 0 <= from <= at <= |left| && k < |register|
    requires Gives(left, cs, k + 1, register, at, rest)
    ensures Gives(left, cs, k, register, from, left[from..at] + register[k] + rest)
  {
    RepeatOnce(register[k]);
    assert cs[k..][0] == cs[k] && cs[k..][1..] == cs[k + 1..];
    var head, tail := Edit.Edit(at, at, register[k]), PasteEdits(cs[k + 1..], k + 1, register, false, 1, |left|);
    assert PasteEdits(cs[k..], k, register, false, 1, |left|) == [head] + tail;
    SpliceCons(left, head, tail, from);
  }

  lemma {:induction false} GivesNothing(left: Doc, cs: seq<Region>, register: seq<Doc>)
    requires register != []
    ensures Gives(left, cs, |cs|, register, |left|, [])
  {
    assert cs[|cs|..] == [];
  }

  /** The bytes from where region j collapsed on, if every region's bytes come after the gap
      that followed them. */
  function Late(doc: Doc, rs: seq<Region>, j: nat): Doc
    requires Sorted(rs) && InBounds(rs, |doc|)
    decreases |rs| - j
  {
    if j + 1 >= |rs| then [] else Gap(doc, rs, j) + RegionText(doc, rs[j]) + Late(doc, rs, j + 1)
  }

  /** The cursor of region j + 1 receives the bytes of region j. */
  ghost predicate ReceivesLate(doc: Doc, rs: seq<Region>, left: Doc, cs: seq<Region>, register: seq<Doc>, j: nat)
    requires Sorted(rs) && InBounds(rs, |doc|) && j + 1 < |rs|
  {
    && j < |cs| && j < |register| && GapLeft(doc, rs, left, j)
    && cs[j].caret == cs[j].tail == Spot(rs, j + 1) && register[j] == RegionText(doc, rs[j])
  }

  lemma {:induction false} LateMore(doc: Doc, rs: seq<Region>, left: Doc, cs: seq<Region>, register: seq<Doc>, j: nat)
    requires Sorted(rs) && InBounds(rs, |doc|) && j + 1 < |rs| && ReceivesLate(doc, rs, left, cs, register, j)
    requires Gives(left, cs, j + 1, register, Spot(rs, j + 1), Late(doc, rs, j + 1))
    ensures Gives(left, cs, j, register, Spot(rs, j), Late(doc, rs, j))
  {
    GivesMore(left, cs, j, register, Spot(rs, j), Spot(rs, j + 1), Late(doc, rs, j + 1));
  }

  lemma {:induction false} LateRuns(doc: Doc, rs: seq<Region>, left: Doc, cs: seq<Region>, register: seq<Doc>, j: nat)
    requires Sorted(rs) && InBounds(rs, |doc|) && j < |rs| && |cs| + 1 == |rs| && register != []
    requires Spot(rs, |rs| - 1) == |left|
    requires forall k: nat :: j <= k && k + 1 < |rs| ==> ReceivesLate(doc, rs, left, cs, register, k)
    ensures Gives(left, cs, j, register, Spot(rs, j), Late(doc, rs, j))
    decreases |rs| - j
  {
    if j + 1 == |rs| {
      GivesNothing(left, cs, register);
    } else {
      LateRuns(doc, rs, left, cs, register, j + 1);
      LateMore(doc, rs, left, cs, register, j);
    }
  }

  lemma {:induction false} LatePaste(doc: Doc, rs: seq<Region>, left: Doc, cs: seq<Region>, register: seq<Doc>, i: nat, j: nat)
    requires Leaves(doc, rs, left) && CursorsBut(cs, rs, 0, i) && register == Yanked(doc, rs) && i < j < |rs|
    ensures Gives(left, cs, j, register, Spot(rs, j), Late(doc, rs, j))
  {
    forall k: nat | j <= k && k + 1 < |rs| ensures ReceivesLate(doc, rs, left, cs, register, k) {
      assert GapLeft(doc, rs, left, k);
    }
    LateRuns(doc, rs, left, cs, register, j);
  }

  /** Where region j - 1 collapsed to, and where it ended. */
  function SpotBefore(rs: seq<Region>, j: nat): int
    requires j <= |rs|
  {
    if j == 0 then 0 else Spot(rs, j - 1)
  }

  function EndBefore(rs: seq<Region>, j: nat): nat
    requires j <= |rs|
  {
    if j == 0 then 0 else rs[j - 1].Hi() + 1
  }

  lemma Regroup(doc: Doc, last: nat, lo: nat, next: nat, end: nat, late: Doc)
    requires last <= lo <= next <= end <= |doc|
    ensures doc[last..lo] + doc[lo..next] + (doc[next..end] + late) == doc[last..end] + late
  {
  }

  /** The cursor of region j receives the bytes of region j, after what was left before it. */
  ghost predicate ReceivesOwn(doc: Doc, rs: seq<Region>, left: Doc, cs: seq<Region>, register: seq<Doc>, j: nat)
    requires j < |rs|
  {
    && j < |cs| && j < |register| && cs[j].caret == cs[j].tail == Spot(rs, j)
    && 0 <= SpotBefore(rs, j) <= Spot(rs, j) <= |left| && EndBefore(rs, j) <= rs[j].Lo() <= rs[j].Hi() + 1 <= |doc|
    && left[SpotBefore(rs, j)..Spot(rs, j)] == doc[EndBefore(rs, j)..rs[j].Lo()]
    && register[j] == doc[rs[j].Lo()..rs[j].Hi() + 1]
  }

  lemma {:induction false} OwnReceived(doc: Doc, rs: seq<Region>, left: Doc, cs: seq<Region>, register: seq<Doc>, i: nat, j: nat)
    requires Leaves(doc, rs, left) && CursorsBut(cs, rs, 0, i) && register == Yanked(doc, rs) && j <= i && j + 1 < |rs|
    ensures ReceivesOwn(doc, rs, left, cs, register, j)
  {
    assert rs[j].Hi() < rs[j + 1].Lo();
    assert GapLeft(doc, rs, left, j);
    if j > 0 {
      assert GapLeft(doc, rs, left, j - 1);
      assert rs[j - 1].Hi() < rs[j].Lo();
    }
  }

  lemma {:induction false} OwnMore(doc: Doc, rs: seq<Region>, left: Doc, cs: seq<Region>, register: seq<Doc>, j: nat, end: nat, late: Doc)
    requires j < |rs| && ReceivesOwn(doc, rs, left, cs, register, j) && rs[j].Hi() + 1 <= end <= |doc|
    requires Gives(left, cs, j + 1, register, Spot(rs, j), doc[rs[j].Hi() + 1..end] + late)
    ensures Gives(left, cs, j, register, SpotBefore(rs, j), doc[EndBefore(rs, j)..end] + late)
  {
    GivesMore(left, cs, j, register, SpotBefore(rs, j), Spot(rs, j), doc[rs[j].Hi() + 1..end] + late);
    Regroup(doc, EndBefore(rs, j), rs[j].Lo(), rs[j].Hi() + 1, end, late);
  }

  lemma {:induction false} OwnRuns(doc: Doc, rs: seq<Region>, left: Doc, cs: seq<Region>, register: seq<Doc>,
                                   i: nat, j: nat, end: nat, late: Doc)
    requires j <= i < |rs| && end == rs[i].Hi() + 1
    requires forall k: nat :: j <= k <= i ==> ReceivesOwn(doc, rs, left, cs, register, k)
    requires i < |cs| && Gives(left, cs, i + 1, register, Spot(rs, i), late)
    ensures EndBefore(rs, j) <= end <= |doc|
    ensures Gives(left, cs, j, register, SpotBefore(rs, j), doc[EndBefore(rs, j)..end] + late)
    decreases i - j
  {
    assert ReceivesOwn(doc, rs, left, cs, register, j);
    if j == i {
      assert doc[end..end] + late == late;
    } else {
      OwnRuns(doc, rs, left, cs, register, i, j + 1, end, late);
    }
    OwnMore(doc, rs, left, cs, register, j, end, late);
  }

  /** Up to the shared cursor everything is back in its place, then come the late texts. */
  lemma {:induction false} SharedPaste(doc: Doc, rs: seq<Region>, left: Doc, cs: seq<Region>, register: seq<Doc>, i: nat, end: nat)
    requires Leaves(doc, rs, left) && CursorsBut(cs, rs, 0, i) && register == Yanked(doc, rs)
    requires Touches(rs, i) && end == rs[i].Hi() + 1
    ensures end <= |doc| && Gives(left, cs, 0, register, 0, doc[0..end] + Late(doc, rs, i + 1))
  {
    forall k: nat | 0 <= k <= i ensures ReceivesOwn(doc, rs, left, cs, register, k) {
      OwnReceived(doc, rs, left, cs, register, i, k);
    }
    LatePaste(doc, rs, left, cs, register, i, i + 1);
    CollapsedStep(rs, 0, i);
    OwnRuns(doc, rs, left, cs, register, i, 0, end, Late(doc, rs, i + 1));
  }

  // ----- when that is the document

  lemma SameBlocks(a: Doc, b: Doc, x: Doc, y: Doc)
    requires |a| == |b|
    ensures a + x == b + y <==> a == b && x == y
  {
    if a + x == b + y {
      assert a == (a + x)[..|a|] && b == (b + y)[..|a|];
      assert x == (a + x)[|a|..] && y == (b + y)[|a|..];
    }
  }

  /** The document from the start of region j on. */
  function Onward(doc: Doc, rs: seq<Region>, j: nat): Doc
    requires InBounds(rs, |doc|) && j < |rs|
  {
    doc[rs[j].Lo()..]
  }

  lemma {:induction false} OnwardParts(doc: Doc, rs: seq<Region>, j: nat)
    requires Sorted(rs) && InBounds(rs, |doc|) && j + 1 < |rs|
    ensures Onward(doc, rs, j) == RegionText(doc, rs[j]) + Gap(doc, rs, j) + Onward(doc, rs, j + 1)
  {
    assert rs[j].Hi() < rs[j + 1].Lo();
    ThreeParts(doc, rs[j].Lo(), rs[j].Hi() + 1, rs[j + 1].Lo());
  }

  lemma ThreeParts(doc: Doc, a: nat, b: nat, c: nat)
    requires a <= b <= c <= |doc|
    ensures doc[a..] == doc[a..b] + doc[b..c] + doc[c..]
  {
  }

  lemma {:induction false} LateStep(doc: Doc, rs: seq<Region>, j: nat)
    requires Sorted(rs) && InBounds(rs, |doc|) && j + 1 < |rs|
    ensures Late(doc, rs, j) == Onward(doc, rs, j) <==>
            Swappable(doc, rs, j) && Late(doc, rs, j + 1) == Onward(doc, rs, j + 1)
  {
    OnwardParts(doc, rs, j);
    var text, gap := RegionText(doc, rs[j]), Gap(doc, rs, j);
    SameBlocks(gap + text, text + gap, Late(doc, rs, j + 1), Onward(doc, rs, j + 1));
  }

  lemma {:induction false} LateComes(doc: Doc, rs: seq<Region>, j: nat)
    requires Sorted(rs) && InBounds(rs, |doc|) && j < |rs| && rs[|rs| - 1].Lo() == |doc| && SwappableFrom(doc, rs, j)
    ensures Late(doc, rs, j) == Onward(doc, rs, j)
    decreases |rs| - j
  {
    if j + 1 == |rs| {
      NothingLate(doc, rs, j);
    } else {
      LateComes(doc, rs, j + 1);
      LateStep(doc, rs, j);
    }
  }

  lemma NothingLate(doc: Doc, rs: seq<Region>, j: nat)
    requires Sorted(rs) && InBounds(rs, |doc|) && j + 1 == |rs| && rs[j].Lo() == |doc|
    ensures Late(doc, rs, j) == Onward(doc, rs, j)
  {
  }

  lemma {:induction false} LateTells(doc: Doc, rs: seq<Region>, j: nat, k: nat)
    requires Sorted(rs) && InBounds(rs, |doc|) && j <= k && k + 1 < |rs| && Late(doc, rs, j) == Onward(doc, rs, j)
    ensures Swappable(doc, rs, k)
    decreases k - j
  {
    LateStep(doc, rs, j);
    if j < k {
      LateTells(doc, rs, j + 1, k);
    }
  }

  lemma {:induction false} LateIs(doc: Doc, rs: seq<Region>, j: nat)
    requires Sorted(rs) && InBounds(rs, |doc|) && j < |rs| && rs[|rs| - 1].Lo() == |doc|
    ensures Late(doc, rs, j) == Onward(doc, rs, j) <==> SwappableFrom(doc, rs, j)
  {
    if SwappableFrom(doc, rs, j) {
      LateComes(doc, rs, j);
    }
    if Late(doc, rs, j) == Onward(doc, rs, j) {
      forall k: nat | j <= k && k + 1 < |rs| ensures Swappable(doc, rs, k) {
        LateTells(doc, rs, j, k);
      }
    }
  }

  // ----- main results

  /** With one touching pair and a cursor at the overflow position, the texts of the regions
      from the second of the pair on are pasted one region late. */
  lemma {:induction false} PastedLate(doc: Doc, rs: seq<Region>, left: Doc, cs: seq<Region>, i: nat, end: nat)
    requires Sorted(rs) && InBounds(rs, |doc|) && Touches(rs, i) && rs[|rs| - 1].Lo() == |doc| && end == rs[i].Hi() + 1
    requires Ordered(DeletionEdits(rs), 0, |doc|) && left == Splice(doc, DeletionEdits(rs), 0) && CursorsBut(cs, rs, 0, i)
    ensures var pasting := Build(PasteEdits(cs, 0, Yanked(doc, rs), false, 1, |left|), |left|);
            end <= |doc| && ValidOn(pasting, left) && Apply(pasting, left) == doc[0..end] + Late(doc, rs, i + 1)
  {
    DeletionLeaves(doc, rs, left);
    SharedPaste(doc, rs, left, cs, Yanked(doc, rs), i, end);
    assert cs[0..] == cs;
    BuildApplies(PasteEdits(cs, 0, Yanked(doc, rs), false, 1, |left|), left);
  }

  lemma {:induction false} OnePairPasted(doc: Doc, s: Sel, rs: seq<Region>, i: nat, end: nat)
    requires WellFormed(s) && rs == s.regions && InBounds(rs, |doc|)
    requires Touches(rs, i) && rs[|rs| - 1].Lo() == |doc| && end == rs[i].Hi() + 1
    requires var r := Carry(s, Build(DeletionEdits(rs), |doc|), |doc|);
             r.Ok? && CursorsBut(r.value.regions, rs, 0, i)
    ensures end <= |doc| && DeleteThenPaste(doc, s) == Ok(doc[0..end] + Late(doc, rs, i + 1))
  {
    var d := Build(DeletionEdits(rs), |doc|);
    DeletionOrdered(rs, |doc|);
    BuildApplies(DeletionEdits(rs), doc);
    PastedLate(doc, rs, Apply(d, doc), Carry(s, d, |doc|).value.regions, i, end);
  }

  lemma SameRest(doc: Doc, end: nat, late: Doc)
    requires end <= |doc|
    ensures doc[0..end] + late == doc <==> late == doc[end..]
  {
    assert doc == doc[0..end] + doc[end..];
    SameBlocks(doc[0..end], doc[0..end], late, doc[end..]);
  }

  lemma {:induction false} SharedIs(doc: Doc, rs: seq<Region>, i: nat, end: nat)
    requires Sorted(rs) && InBounds(rs, |doc|) && Touches(rs, i) && rs[|rs| - 1].Lo() == |doc|
    requires end == rs[i].Hi() + 1 && end <= |doc|
    ensures doc[0..end] + Late(doc, rs, i + 1) == doc <==> SwappableFrom(doc, rs, i + 1)
  {
    SameRest(doc, end, Late(doc, rs, i + 1));
    LateIs(doc, rs, i + 1);
  }

  lemma {:induction false} OnePairRestoresIff(doc: Doc, s: Sel, rs: seq<Region>, i: nat)
    requires WellFormed(s) && rs == s.regions && InBounds(rs, |doc|) && TouchOnly(rs, i) && rs[|rs| - 1].Lo() == |doc|
    ensures DeleteThenPaste(doc, s) == Ok(doc) <==> SwappableFrom(doc, rs, i + 1)
  {
    var end := rs[i].Hi() + 1;
    OnePairCursors(doc, s, i);
    OnePairPasted(doc, s, rs, i, end);
    SharedIs(doc, rs, i, end);
  }

  lemma {:induction false} SumLenDrops(texts: seq<Doc>, m: nat)
    requires m + 2 <= |texts| && forall i :: 0 <= i < |texts| - 1 ==> texts[i] != []
    ensures SumLen(texts[..m]) < SumLen(texts)
  {
    assert texts[0] != [];
    if m > 0 {
      assert texts[..m][1..] == texts[1..][..m - 1];
      SumLenDrops(texts[1..], m - 1);
    }
  }

  lemma {:induction false} TextsBeforeLast(doc: Doc, rs: seq<Region>)
    requires Sorted(rs) && InBounds(rs, |doc|)
    ensures forall k :: 0 <= k < |rs| - 1 ==> Yanked(doc, rs)[k] != []
  {
    forall k | 0 <= k < |rs| - 1 ensures Yanked(doc, rs)[k] != [] {
      assert rs[k].Hi() < rs[|rs| - 1].Lo();
    }
  }

  /** With two touching pairs the document never comes back, cursor or not. */
  lemma {:induction false} TwoTouchesLose(doc: Doc, s: Sel, i: nat, j: nat)
    requires WellFormed(s) && InBounds(s.regions, |doc|) && i < j && j + 1 < |s.regions|
    requires s.regions[i].Hi() + 1 == s.regions[i + 1].Lo() && s.regions[j].Hi() + 1 == s.regions[j + 1].Lo()
    ensures DeleteThenPaste(doc, s) != Ok(doc)
  {
    var rs := s.regions;
    var r := Carry(s, Build(DeletionEdits(rs), |doc|), |doc|);
    TouchingTwice(doc, s, i, j);
    if r.Ok? {
      TextsBeforeLast(doc, rs);
      SumLenDrops(Yanked(doc, rs), |r.value.regions|);
    }
    TooShortLoses(doc, s);
  }

  lemma {:induction false} ComesBackIff(doc: Doc, rs: seq<Region>, i: nat)
    requires Sorted(rs) && InBounds(rs, |doc|) && Touches(rs, i)
    ensures ComesBack(doc, rs) <==> TouchOnly(rs, i) && rs[|rs| - 1].Lo() == |doc| && SwappableFrom(doc, rs, i + 1)
  {
    assert !Apart(rs);
    if ComesBack(doc, rs) {
      var k: nat :| TouchOnly(rs, k) && rs[|rs| - 1].Lo() == |doc| && SwappableFrom(doc, rs, k + 1);
      assert k == i;
    }
  }

  /** Deleting the selections and pasting them back restores the document exactly on the
      condition above. */
  lemma {:induction false} DeletePasteRestoresIff(doc: Doc, s: Sel)
    requires WellFormed(s) && InBounds(s.regions, |doc|)
    ensures DeleteThenPaste(doc, s) == Ok(doc) <==> ComesBack(doc, s.regions)
  {
    var rs := s.regions;
    if Apart(rs) {
      DeletePasteRestores(doc, s);
    } else {
      var i := TouchingPair(rs);
      ComesBackIff(doc, rs, i);
      if TouchOnly(rs, i) && rs[|rs| - 1].Lo() == |doc| {
        OnePairRestoresIff(doc, s, rs, i);
      } else {
        TouchingLoses(doc, s, i);
      }
    }
  }

  lemma {:induction false} TouchingLoses(doc: Doc, s: Sel, i: nat)
    requires WellFormed(s) && InBounds(s.regions, |doc|) && Touches(s.regions, i)
    requires !TouchOnly(s.regions, i) || s.regions[|s.regions| - 1].Lo() != |doc|
    ensures DeleteThenPaste(doc, s) != Ok(doc)
  {
    if !TouchOnly(s.regions, i) {
      var j: nat :| Touches(s.regions, j) && j != i;
      if i < j {
        TwoTouchesLose(doc, s, i, j);
      } else {
        TwoTouchesLose(doc, s, j, i);
      }
    } else {
      AllHoldBytes(s.regions, |doc|);
      TouchingBytesLose(doc, s);
    }
  }

  lemma AllHoldBytes(rs: seq<Region>, n: nat)
    requires Sorted(rs) && InBounds(rs, n) && rs != [] && rs[|rs| - 1].Lo() != n
    ensures forall k :: 0 <= k < |rs| ==> rs[k].Lo() < n
  {
    forall k | 0 <= k < |rs| ensures rs[k].Lo() < n {
      assert k < |rs| - 1 ==> rs[k].Hi() < rs[|rs| - 1].Lo();
    }
  }

  /** In particular, if a cursor at the overflow position touches the region before it, the
      document comes back exactly if no other two regions touch. */
  lemma {:induction false} OverflowRestoresIff(doc: Doc, s: Sel, i: nat)
    requires WellFormed(s) && InBounds(s.regions, |doc|) && i + 2 == |s.regions|
    requires Touches(s.regions, i) && s.regions[i + 1].Lo() == |doc|
    ensures DeleteThenPaste(doc, s) == Ok(doc) <==> TouchOnly(s.regions, i)
  {
    DeletePasteRestoresIff(doc, s);
    ComesBackIff(doc, s.regions, i);
  }
}
