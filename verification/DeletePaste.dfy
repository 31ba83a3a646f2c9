/** Deleting the selections and pasting them back. */
module DeletePaste {
  import opened Prelude
  import opened Delta
  import opened Builder
  import opened Region
  import opened Selections
  import opened SelectionLaws
  import opened Transport
  import opened Operations
  import opened OperationLaws
  import opened Absorption

  /** The bytes of a region; the overflow position holds none. */
  function RegionText(doc: Doc, r: Region): Doc
    requires r.Hi() <= |doc|
  {
    doc[r.Lo()..Min(r.Hi() + 1, |doc|)]
  }

  /** `yank_selections` on a document that is not empty. */
  function Yanked(doc: Doc, rs: seq<Region>): (reg: seq<Doc>)
    requires InBounds(rs, |doc|)
    ensures |reg| == |rs|
    ensures forall i :: 0 <= i < |rs| ==> reg[i] == RegionText(doc, rs[i])
  {
    seq(|rs|, i requires 0 <= i < |rs| => RegionText(doc, rs[i]))
  }

  /** The document after deleting the selections, yanked, and pasting once before the
      selections that are left. */
  function DeleteThenPaste(doc: Doc, s: Sel): Outcome<Doc>
    requires WellFormed(s) && InBounds(s.regions, |doc|)
  {
    var deletion := Build(DeletionEdits(s.regions), |doc|);
    DeletionOrdered(s.regions, |doc|);
    BuildApplies(DeletionEdits(s.regions), doc);
    CarryOutcome(s, deletion, doc);
    match Carry(s, deletion, |doc|)
    case Panic => Panic
    case Ok(cursors) =>
      var left := Apply(deletion, doc);
      var pasting := PasteEdits(cursors.regions, 0, Yanked(doc, s.regions), false, 1, |left|);
      PasteOrdered(cursors.regions, Yanked(doc, s.regions), false, 1, |left|);
      BuildApplies(pasting, left);
      Ok(Apply(Build(pasting, |left|), left))
  }

  /** No two regions overlap or touch. */
  predicate Apart(rs: seq<Region>) {
    forall i, j :: 0 <= i < j < |rs| ==> rs[i].Hi() + 1 < rs[j].Lo()
  }

  // ----- where the regions go

  /** The offset that region i collapses to when `removed` bytes before offset `last` are gone. */
  function CollapsedTo(rs: seq<Region>, removed: nat, i: nat): int
    requires i < |rs|
  {
    if i == 0 then rs[0].Lo() - removed
    else CollapsedTo(rs[1..], removed + rs[0].Len(), i - 1)
  }

  lemma {:induction false} DeletionsStart(rs: seq<Region>, last: nat, n: nat)
    requires Ordered(DeletionEdits(rs), last, n)
    ensures Shifted(DeletionEdits(rs), last, n, last) == 0
  {
    if rs != [] && rs[0].Lo() == last {
      DeletionsStart(rs[1..], rs[0].Hi() + 1, n);
    }
  }

  /** Both ends of a deleted region go to the same offset. */
  lemma {:induction false} DeletedEnds(rs: seq<Region>, last: nat, removed: nat, n: nat, i: nat, x: nat)
    requires Sorted(rs) && i < |rs| && rs[i].Lo() <= x <= rs[i].Hi()
    requires Ordered(DeletionEdits(rs), last, n)
    ensures Shifted(DeletionEdits(rs), last, n, x) + last - removed == CollapsedTo(rs, removed, i)
  {
    SortedTail(rs);
    var next := rs[0].Hi() + 1;
    if i == 0 {
      DeletionsStart(rs[1..], next, n);
    } else {
      assert rs[1..][i - 1] == rs[i];
      DeletedEnds(rs[1..], next, removed + rs[0].Len(), n, i - 1, x);
    }
  }

  /** Regions that do not touch collapse to different offsets. */
  lemma {:induction false} CollapsedApart(rs: seq<Region>, removed: nat, i: nat, j: nat)
    requires Apart(rs) && i < j < |rs|
    ensures CollapsedTo(rs, removed, i) < CollapsedTo(rs, removed, j)
  {
    if i > 0 {
      CollapsedApart(rs[1..], removed + rs[0].Len(), i - 1, j - 1);
    } else {
      assert CollapsedTo(rs, removed, 0) < CollapsedTo(rs[1..], removed + rs[0].Len(), 0);
      if j > 1 {
        CollapsedApart(rs[1..], removed + rs[0].Len(), 0, j - 1);
      }
    }
  }

  // ----- putting the bytes back

  /** Cursors at the offsets that the regions collapse to. */
  predicate CursorsOf(cursors: seq<Region>, rs: seq<Region>, removed: nat) {
    && |cursors| == |rs|
    && forall i :: 0 <= i < |rs| ==> cursors[i].caret == cursors[i].tail == CollapsedTo(rs, removed, i)
  }

  /** The insertions that put back what the deletions `es` take out. */
  function PutBack(doc: Doc, es: seq<Edit>, last: nat, removed: nat): seq<Edit>
    requires Ordered(es, last, |doc|) && removed <= last
  {
    if es == [] then []
    else
      var at, gone := es[0].beg - removed, es[0].end - es[0].beg;
      [Edit(at, at, doc[es[0].beg..Min(es[0].end, |doc|)])] + PutBack(doc, es[1..], es[0].end, removed + gone)
  }

  lemma {:induction false} PutBackHead(doc: Doc, es: seq<Edit>, last: nat, removed: nat, left: Doc)
    requires es != [] && Ordered(es, last, |doc|) && removed <= last && es[0].beg - removed <= |left|
    requires Ordered(PutBack(doc, es[1..], es[0].end, removed + (es[0].end - es[0].beg)), es[0].beg - removed, |left|)
    ensures Ordered(PutBack(doc, es, last, removed), last - removed, |left|)
    ensures Splice(left, PutBack(doc, es, last, removed), last - removed)
         == left[last - removed..es[0].beg - removed] + doc[es[0].beg..Min(es[0].end, |doc|)]
            + Splice(left, PutBack(doc, es[1..], es[0].end, removed + (es[0].end - es[0].beg)), es[0].beg - removed)
  {
    var at := es[0].beg - removed;
    var head := Edit(at, at, doc[es[0].beg..Min(es[0].end, |doc|)]);
    var rest := PutBack(doc, es[1..], es[0].end, removed + (es[0].end - es[0].beg));
    assert PutBack(doc, es, last, removed) == [head] + rest;
    SpliceCons(left, head, rest, last - removed);
  }

  /** The document from an offset on, which may lie past its end. */
  function From(doc: Doc, last: nat): Doc {
    if last < |doc| then doc[last..] else []
  }

  /** From offset `from` on, `left` is what the deletions `es` leave of the document from
      offset `last` on. */
  ghost predicate LeftFrom(doc: Doc, es: seq<Edit>, last: nat, left: Doc, from: nat) {
    && Ordered(es, last, |doc|) && (forall i :: 0 <= i < |es| ==> es[i].text == [])
    && from <= |left| && left[from..] == Splice(doc, es, last)
  }

  /** What is left agrees with the document up to the first deletion. */
  lemma {:induction false} LeftHead(doc: Doc, es: seq<Edit>, last: nat, left: Doc, from: nat, at: nat)
    requires es != [] && LeftFrom(doc, es, last, left, from) && at - from == es[0].beg - last
    ensures from <= at <= |left| && left[from..at] == doc[last..es[0].beg]
    ensures LeftFrom(doc, es[1..], es[0].end, left, at)
  {
    DropPrefix(left, from, doc[last..es[0].beg], Splice(doc, es[1..], es[0].end));
  }

  lemma {:induction false} PutBackJoin(doc: Doc, es: seq<Edit>, last: nat, removed: nat, left: Doc)
    requires es != [] && Ordered(es, last, |doc|) && removed <= last && es[0].beg - removed <= |left|
    requires Ordered(PutBack(doc, es[1..], es[0].end, removed + (es[0].end - es[0].beg)), es[0].beg - removed, |left|)
    requires left[last - removed..es[0].beg - removed] == doc[last..es[0].beg]
    requires Splice(left, PutBack(doc, es[1..], es[0].end, removed + (es[0].end - es[0].beg)), es[0].beg - removed)
          == From(doc, es[0].end)
    ensures Ordered(PutBack(doc, es, last, removed), last - removed, |left|)
    ensures Splice(left, PutBack(doc, es, last, removed), last - removed) == From(doc, last)
  {
    PutBackHead(doc, es, last, removed, left);
    Rejoin(doc, last, es[0].beg, es[0].end);
  }

  lemma {:induction false} PutBackRestores(doc: Doc, es: seq<Edit>, last: nat, removed: nat, left: Doc)
    requires 0 <= last - removed && LeftFrom(doc, es, last, left, last - removed)
    ensures Ordered(PutBack(doc, es, last, removed), last - removed, |left|)
    ensures Splice(left, PutBack(doc, es, last, removed), last - removed) == From(doc, last)
  {
    if es != [] {
      var beg, end := es[0].beg, es[0].end;
      LeftHead(doc, es, last, left, last - removed, beg - removed);
      PutBackRestores(doc, es[1..], end, removed + (end - beg), left);
      PutBackJoin(doc, es, last, removed, left);
    }
  }

  lemma DropPrefix(left: Doc, p: nat, a: Doc, rest: Doc)
    requires p <= |left| && left[p..] == a + [] + rest
    ensures p + |a| <= |left| && left[p..p + |a|] == a && left[p + |a|..] == rest
  {
    assert a + [] == a;
    assert left[p..p + |a|] == left[p..][..|a|];
    assert left[p + |a|..] == left[p..][|a|..];
  }

  lemma Rejoin(doc: Doc, last: nat, beg: nat, end: nat)
    requires last <= beg <= end && beg <= |doc|
    ensures doc[last..beg] + doc[beg..Min(end, |doc|)] + From(doc, end) == From(doc, last)
  {
  }

  /** Pasting the yanked texts at the cursors is putting back what was deleted. */
  lemma {:induction false} PasteIsPutBack(doc: Doc, rs: seq<Region>, last: nat, removed: nat,
                                          cursors: seq<Region>, k: nat, register: seq<Doc>, n: nat)
    requires Sorted(rs) && InBounds(rs, |doc|) && Ordered(DeletionEdits(rs), last, |doc|) && removed <= last
    requires CursorsOf(cursors, rs, removed) && |register| >= k + |rs| && register != []
    requires forall i :: 0 <= i < |rs| ==> register[k + i] == RegionText(doc, rs[i])
    ensures PasteEdits(cursors, k, register, false, 1, n) == PutBack(doc, DeletionEdits(rs), last, removed)
  {
    if rs != [] {
      SortedTail(rs);
      forall i | 0 <= i < |rs| - 1
        ensures cursors[1..][i].caret == cursors[1..][i].tail == CollapsedTo(rs[1..], removed + rs[0].Len(), i) {
        assert cursors[1..][i] == cursors[i + 1];
      }
      forall i | 0 <= i < |rs| - 1 ensures register[k + 1 + i] == RegionText(doc, rs[1..][i]) {
        assert register[k + (i + 1)] == RegionText(doc, rs[i + 1]);
      }
      assert register[k + 0] == RegionText(doc, rs[0]);
      RepeatOnce(register[k]);
      PasteIsPutBack(doc, rs[1..], rs[0].Hi() + 1, removed + rs[0].Len(), cursors[1..], k + 1, register, n);
    }
  }

  lemma RepeatOnce(text: Doc)
    ensures Repeat(text, 1) == text
  {
    assert Repeat(text, 0) == [];
  }

  // ----- the regions that are left

  lemma {:induction false} DeletedOffset(doc: Doc, rs: seq<Region>, i: nat, x: nat)
    requires Sorted(rs) && InBounds(rs, |doc|) && i < |rs| && rs[i].Lo() <= x <= rs[i].Hi()
    ensures CarryOffset(Build(DeletionEdits(rs), |doc|), |doc|, x, 0) == CollapsedTo(rs, 0, i)
  {
    DeletionOrdered(rs, |doc|);
    BuildApplies(DeletionEdits(rs), doc);
    CarryPlain(Build(DeletionEdits(rs), |doc|), x);
    BuildTransform(DeletionEdits(rs), 0, |doc|, x);
    DeletedEnds(rs, 0, 0, |doc|, i, x);
  }

  /** Regions that do not touch become cursors, one for each, at the offsets they collapse to. */
  lemma DeletionLeavesCursors(doc: Doc, s: Sel)
    requires WellFormed(s) && InBounds(s.regions, |doc|) && Apart(s.regions)
    ensures var r := Carry(s, Build(DeletionEdits(s.regions), |doc|), |doc|);
            r.Ok? && r.value.main == s.main && CursorsOf(r.value.regions, s.regions, 0)
  {
    var rs, n := s.regions, |doc|;
    var d := Build(DeletionEdits(rs), n);
    DeletionOrdered(rs, n);
    BuildApplies(DeletionEdits(rs), doc);
    if NewLen(d) == 0 {
      LeftBetween(doc, rs);
    } else {
      var out := CarryRegions(d, n, rs, 0, 0);
      forall i | 0 <= i < |rs| ensures out[i].caret == out[i].tail == CollapsedTo(rs, 0, i) {
        DeletedOffset(doc, rs, i, rs[i].caret);
        DeletedOffset(doc, rs, i, rs[i].tail);
      }
      forall i, j | 0 <= i < j < |out| ensures out[i].Hi() < out[j].Lo() {
        CollapsedApart(rs, 0, i, j);
      }
      MapSinglesApart(out, s.main);
    }
  }

  /** The bytes before the first region and between the first two are left. */
  lemma LeftBetween(doc: Doc, rs: seq<Region>)
    requires Sorted(rs) && InBounds(rs, |doc|) && rs != [] && Ordered(DeletionEdits(rs), 0, |doc|)
    ensures |Splice(doc, DeletionEdits(rs), 0)| >=
            rs[0].Lo() + if |rs| > 1 then rs[1].Lo() - (rs[0].Hi() + 1) else 0
  {
    if |rs| > 1 {
      assert rs[1..][0] == rs[1];
      assert |Splice(doc, DeletionEdits(rs[1..]), rs[0].Hi() + 1)| >= rs[1].Lo() - (rs[0].Hi() + 1);
    }
  }

  /** Pasting the texts of the regions at the cursors they became gives back the document. */
  lemma {:induction false} PastedBack(doc: Doc, rs: seq<Region>, cursors: seq<Region>, register: seq<Doc>, left: Doc)
    requires Sorted(rs) && InBounds(rs, |doc|) && rs != [] && CursorsOf(cursors, rs, 0)
    requires Ordered(DeletionEdits(rs), 0, |doc|) && left == Splice(doc, DeletionEdits(rs), 0)
    requires |register| >= |rs| && forall i :: 0 <= i < |rs| ==> register[i] == RegionText(doc, rs[i])
    ensures var pasting := Build(PasteEdits(cursors, 0, register, false, 1, |left|), |left|);
            ValidOn(pasting, left) && Apply(pasting, left) == doc
  {
    DeletionEditsAt(rs);
    PutBackRestores(doc, DeletionEdits(rs), 0, 0, left);
    PasteIsPutBack(doc, rs, 0, 0, cursors, 0, register, |left|);
    BuildApplies(PasteEdits(cursors, 0, register, false, 1, |left|), left);
  }

  /** Deleting the selections and pasting them back restores the document, if no two of
      them touch. */
  lemma DeletePasteRestores(doc: Doc, s: Sel)
    requires WellFormed(s) && InBounds(s.regions, |doc|) && Apart(s.regions)
    ensures DeleteThenPaste(doc, s) == Ok(doc)
  {
    var rs := s.regions;
    var d := Build(DeletionEdits(rs), |doc|);
    DeletionOrdered(rs, |doc|);
    BuildApplies(DeletionEdits(rs), doc);
    DeletionLeavesCursors(doc, s);
    PastedBack(doc, rs, Carry(s, d, |doc|).value.regions, Yanked(doc, rs), Apply(d, doc));
  }

  // ----- touching regions lose bytes

  function SumLen(texts: seq<Doc>): nat {
    if texts == [] then 0 else |texts[0]| + SumLen(texts[1..])
  }

  lemma {:induction false} SumLenShorter(texts: seq<Doc>, m: nat)
    requires m < |texts| && forall i :: 0 <= i < |texts| ==> texts[i] != []
    ensures SumLen(texts[..m]) < SumLen(texts)
  {
    assert texts[0] != [];
    if m > 0 {
      assert texts[..m][1..] == texts[1..][..m - 1];
      SumLenShorter(texts[1..], m - 1);
    }
  }

  lemma {:induction false} PastedLength(cursors: seq<Region>, k: nat, register: seq<Doc>, n: nat)
    requires k + |cursors| <= |register| && register != []
    ensures TextLen(PasteEdits(cursors, k, register, false, 1, n)) == SumLen(register[k..k + |cursors|])
  {
    if cursors != [] {
      RepeatOnce(register[k]);
      PastedLength(cursors[1..], k + 1, register, n);
      assert register[k..k + |cursors|] == [register[k]] + register[k + 1..k + |cursors|];
    }
  }

  lemma {:induction false} YankedHead(doc: Doc, rs: seq<Region>)
    requires InBounds(rs, |doc|) && rs != []
    ensures SumLen(Yanked(doc, rs)) == |RegionText(doc, rs[0])| + SumLen(Yanked(doc, rs[1..]))
  {
    assert Yanked(doc, rs)[1..] == Yanked(doc, rs[1..]);
  }

  lemma {:induction false} DeletedHead(doc: Doc, rs: seq<Region>, last: nat)
    requires rs != [] && Ordered(DeletionEdits(rs), last, |doc|)
    ensures Ordered(DeletionEdits(rs[1..]), rs[0].Hi() + 1, |doc|) && last <= rs[0].Lo() <= |doc|
    ensures |Splice(doc, DeletionEdits(rs), last)|
         == rs[0].Lo() - last + |Splice(doc, DeletionEdits(rs[1..]), rs[0].Hi() + 1)|
  {
    DeletionHead(doc, rs, last);
  }

  lemma {:induction false} DeletedLength(doc: Doc, rs: seq<Region>, last: nat)
    requires InBounds(rs, |doc|) && Ordered(DeletionEdits(rs), last, |doc|)
    ensures |Splice(doc, DeletionEdits(rs), last)| + SumLen(Yanked(doc, rs)) == Max(0, |doc| - last)
  {
    if rs != [] {
      DeletedHead(doc, rs, last);
      YankedHead(doc, rs);
      DeletedLength(doc, rs[1..], rs[0].Hi() + 1);
    }
  }

  /** The end of a region and the start of one that touches it go to the same offset. */
  lemma {:induction false} TouchingMeet(rs: seq<Region>, last: nat, n: nat, i: nat)
    requires Sorted(rs) && i + 1 < |rs| && rs[i].Hi() + 1 == rs[i + 1].Lo()
    requires Ordered(DeletionEdits(rs), last, n)
    ensures Shifted(DeletionEdits(rs), last, n, rs[i].Hi()) == Shifted(DeletionEdits(rs), last, n, rs[i + 1].Lo())
  {
    if i > 0 {
      SortedTail(rs);
      assert rs[1..][i - 1] == rs[i] && rs[1..][i] == rs[i + 1];
      TouchingMeet(rs[1..], rs[0].Hi() + 1, n, i - 1);
    }
  }

  /** How many of the regions from k on overlap the one before them. */
  function Meetings(rs: seq<Region>, k: nat): nat
    decreases |rs| - k
  {
    if k >= |rs| then 0
    else (if k > 0 && rs[k - 1].Overlaps(rs[k]) then 1 else 0) + Meetings(rs, k + 1)
  }

  lemma {:induction false} MeetingCounts(rs: seq<Region>, k: nat, j: nat)
    requires k <= j < |rs| && j > 0 && rs[j - 1].Overlaps(rs[j])
    ensures Meetings(rs, k) >= 1 + Meetings(rs, j + 1)
    decreases j - k
  {
    if k < j {
      MeetingCounts(rs, k + 1, j);
    }
  }

  lemma {:induction false} TwoMeetings(rs: seq<Region>, i: nat, j: nat)
    requires i < j && j + 1 < |rs| && rs[i].Overlaps(rs[i + 1]) && rs[j].Overlaps(rs[j + 1])
    ensures Meetings(rs, 0) >= 2
  {
    MeetingCounts(rs, 0, i + 1);
    MeetingCounts(rs, i + 2, j + 1);
  }

  /** Each output that overlaps the one before it leaves one region fewer. */
  lemma {:induction false} MergingCounts(rs: seq<Region>, main: nat, k: nat, out: seq<Region>, newMain: nat)
    requires k <= |rs| && MapFrom(Singles(rs), main, k, out, newMain).Ok?
    requires k > 0 ==> out != [] && out[|out| - 1].Hi() >= rs[k - 1].Hi()
    ensures |MapFrom(Singles(rs), main, k, out, newMain).value.regions| + Meetings(rs, k) <= |out| + |rs| - k
    decreases |rs| - k
  {
    if k < |rs| {
      PushOne(out, rs[k]);
      var out' := PushAll(out, [rs[k]]).value;
      if k == main {
        MergingCounts(rs, main, k + 1, FlagLast(out'), |out'| - 1);
      } else {
        MergingCounts(rs, main, k + 1, out', newMain);
      }
    }
  }

  lemma CarriedEnds(d: Delta, n: nat, rs: seq<Region>, i: nat)
    requires Sorted(rs) && InBounds(rs, n) && i < |rs| && Ordered(DeletionEdits(rs), 0, n)
    requires d == Build(DeletionEdits(rs), n) && Valid(d)
    ensures var out := CarryRegions(d, n, rs, 0, 0);
            && out[i].Lo() == Shifted(DeletionEdits(rs), 0, n, rs[i].Lo())
            && out[i].Hi() == Shifted(DeletionEdits(rs), 0, n, rs[i].Hi())
  {
    CarryPlain(d, rs[i].Lo());
    CarryPlain(d, rs[i].Hi());
    CarryMonotone(d, rs[i].Lo(), rs[i].Hi());
    BuildTransform(DeletionEdits(rs), 0, n, rs[i].Lo());
    BuildTransform(DeletionEdits(rs), 0, n, rs[i].Hi());
  }

  lemma {:induction false} TouchingPair(rs: seq<Region>) returns (i: nat)
    requires Sorted(rs) && !Apart(rs)
    ensures i + 1 < |rs| && rs[i].Hi() + 1 == rs[i + 1].Lo()
  {
    var a, b :| 0 <= a < b < |rs| && rs[a].Hi() + 1 >= rs[b].Lo();
    assert rs[a].Hi() < rs[a + 1].Lo() <= rs[b].Lo();
    i := a;
  }

  lemma {:induction false} TouchingOverlap(doc: Doc, rs: seq<Region>, i: nat)
    requires Sorted(rs) && InBounds(rs, |doc|) && i + 1 < |rs| && rs[i].Hi() + 1 == rs[i + 1].Lo()
    ensures var out := CarryRegions(Build(DeletionEdits(rs), |doc|), |doc|, rs, 0, 0);
            out[i].Overlaps(out[i + 1])
  {
    var n := |doc|;
    DeletionOrdered(rs, n);
    BuildApplies(DeletionEdits(rs), doc);
    CarriedEnds(Build(DeletionEdits(rs), n), n, rs, i);
    CarriedEnds(Build(DeletionEdits(rs), n), n, rs, i + 1);
    TouchingMeet(rs, 0, n, i);
  }

  /** Touching regions are merged into one cursor. */
  lemma {:induction false} TouchingMerge(doc: Doc, s: Sel)
    requires WellFormed(s) && InBounds(s.regions, |doc|) && !Apart(s.regions)
    ensures var r := Carry(s, Build(DeletionEdits(s.regions), |doc|), |doc|);
            r.Ok? ==> |r.value.regions| < |s.regions|
  {
    var rs, n := s.regions, |doc|;
    var d := Build(DeletionEdits(rs), n);
    var i := TouchingPair(rs);
    if NewLen(d) != 0 && Carry(s, d, n).Ok? {
      var out := CarryRegions(d, n, rs, 0, 0);
      TouchingOverlap(doc, rs, i);
      MeetingCounts(out, 0, i + 1);
      MergingCounts(out, s.main, 0, [], 0);
    }
  }

  /** Two touching pairs cost two cursors. */
  lemma {:induction false} TouchingTwice(doc: Doc, s: Sel, i: nat, j: nat)
    requires WellFormed(s) && InBounds(s.regions, |doc|) && i < j && j + 1 < |s.regions|
    requires s.regions[i].Hi() + 1 == s.regions[i + 1].Lo() && s.regions[j].Hi() + 1 == s.regions[j + 1].Lo()
    ensures var r := Carry(s, Build(DeletionEdits(s.regions), |doc|), |doc|);
            r.Ok? ==> |r.value.regions| + 2 <= |s.regions|
  {
    var rs, n := s.regions, |doc|;
    var d := Build(DeletionEdits(rs), n);
    if NewLen(d) != 0 && Carry(s, d, n).Ok? {
      var out := CarryRegions(d, n, rs, 0, 0);
      assert Meetings(out, 0) >= 2 by {
        TouchingOverlap(doc, rs, i);
        TouchingOverlap(doc, rs, j);
        TwoMeetings(out, i, j);
      }
      MergingCounts(out, s.main, 0, [], 0);
    }
  }

  /** Pasting at so few cursors that some of the text is left out. */
  lemma {:induction false} PastedTooShort(doc: Doc, rs: seq<Region>, left: Doc, cursors: seq<Region>)
    requires Sorted(rs) && InBounds(rs, |doc|) && rs != []
    requires Ordered(DeletionEdits(rs), 0, |doc|) && left == Splice(doc, DeletionEdits(rs), 0)
    requires Sorted(cursors) && InBounds(cursors, |left|) && |cursors| < |rs|
    requires SumLen(Yanked(doc, rs)[..|cursors|]) < SumLen(Yanked(doc, rs))
    ensures var pasting := Build(PasteEdits(cursors, 0, Yanked(doc, rs), false, 1, |left|), |left|);
            ValidOn(pasting, left) && |Apply(pasting, left)| < |doc|
  {
    var register := Yanked(doc, rs);
    PasteMeaning(left, cursors, register, false, 1);
    PastedLength(cursors, 0, register, |left|);
    DeletedLength(doc, rs, 0);
    assert register[0..|cursors|] == register[..|cursors|];
  }

  /** Then the document does not come back. */
  lemma {:induction false} TooShortLoses(doc: Doc, s: Sel)
    requires WellFormed(s) && InBounds(s.regions, |doc|)
    requires var r := Carry(s, Build(DeletionEdits(s.regions), |doc|), |doc|);
             r.Ok? ==> |r.value.regions| < |s.regions|
                       && SumLen(Yanked(doc, s.regions)[..|r.value.regions|]) < SumLen(Yanked(doc, s.regions))
    ensures DeleteThenPaste(doc, s) != Ok(doc)
  {
    var d := Build(DeletionEdits(s.regions), |doc|);
    DeletionOrdered(s.regions, |doc|);
    BuildApplies(DeletionEdits(s.regions), doc);
    CarryOutcome(s, d, doc);
    if Carry(s, d, |doc|).Ok? {
      PastedTooShort(doc, s.regions, Apply(d, doc), Carry(s, d, |doc|).value.regions);
    }
  }

  /** If every region holds a byte, touching regions share a cursor, so some text is lost. */
  lemma {:induction false} TouchingBytesLose(doc: Doc, s: Sel)
    requires WellFormed(s) && InBounds(s.regions, |doc|) && !Apart(s.regions)
    requires forall i :: 0 <= i < |s.regions| ==> s.regions[i].Lo() < |doc|
    ensures DeleteThenPaste(doc, s) != Ok(doc)
  {
    var rs := s.regions;
    var r := Carry(s, Build(DeletionEdits(rs), |doc|), |doc|);
    TouchingMerge(doc, s);
    if r.Ok? {
      SumLenShorter(Yanked(doc, rs), |r.value.regions|);
    }
    TooShortLoses(doc, s);
  }
}
