/** Splitting a selection at the matches of a pattern, and collapsing it to them. */
module Split {
  import opened Prelude
  import opened Region
  import opened Selections
  import opened SelectionLaws
  import opened Search

  // ----- one region

  /** What is left of a region when the ranges are cut out, from left to right. */
  function SplitPieces(base: Region, ranges: seq<Range>): seq<Region>
    requires forall i :: 0 <= i < |ranges| ==> ranges[i].start < ranges[i].end
    decreases |ranges|
  {
    if ranges == [] then [base]
    else
      var (left, right) := base.SplitAtRegion(ranges[0].start, ranges[0].end - 1);
      Prepend(left, if right.Some? then SplitPieces(right.value, ranges[1..]) else [])
  }

  function Prepend(left: Option<Region>, rest: seq<Region>): seq<Region> {
    if left.Some? then [left.value] + rest else rest
  }

  /** The loop that cuts the ranges out of one region. */
  method SplitRegion(region: Region, ranges: seq<Range>) returns (out: seq<Region>)
    requires forall i :: 0 <= i < |ranges| ==> ranges[i].start < ranges[i].end
    ensures out == SplitPieces(region, ranges)
  {
    out := [];
    var base, remaining := region, true;
    assert ranges[0..] == ranges;
    for i := 0 to |ranges|
      invariant remaining
      invariant out + SplitPieces(base, ranges[i..]) == SplitPieces(region, ranges)
    {
      var range := ranges[i];
      var (left, right) := base.SplitAtRegion(range.start, range.end - 1);
      SplitRound(out, base, ranges, i);
      if left.Some? {
        out := out + [left.value];
      }
      if right.Some? {
        base := right.value;
      } else {
        remaining := false;
        break;
      }
    }
    if remaining {
      out := out + [base];
    }
  }

  lemma {:induction false} SplitRound(out: seq<Region>, base: Region, ranges: seq<Range>, i: nat)
    requires i < |ranges| && forall k :: 0 <= k < |ranges| ==> ranges[k].start < ranges[k].end
    ensures var (left, right) := base.SplitAtRegion(ranges[i].start, ranges[i].end - 1);
            var rest := if right.Some? then SplitPieces(right.value, ranges[i + 1..]) else [];
            out + SplitPieces(base, ranges[i..]) == (if left.Some? then out + [left.value] else out) + rest
  {
    assert ranges[i..][0] == ranges[i] && ranges[i..][1..] == ranges[i + 1..];
  }

  /** The regions that a match is collapsed to. */
  function CollapsePieces(base: Region, ranges: seq<Range>): (out: seq<Region>)
    requires forall i :: 0 <= i < |ranges| ==> ranges[i].start < ranges[i].end
    ensures |out| == |ranges|
    ensures forall i :: 0 <= i < |ranges| ==> out[i] == At(ranges[i].start, ranges[i].end - 1).InheritDirection(base)
  {
    seq(|ranges|, i requires 0 <= i < |ranges| => At(ranges[i].start, ranges[i].end - 1).InheritDirection(base))
  }

  predicate InRanges(ranges: seq<Range>, p: int) {
    exists i :: 0 <= i < |ranges| && ranges[i].Holds(p)
  }

  /** Pieces in order, each of them inside the region. */
  predicate Inside(pieces: seq<Region>, r: Region) {
    Sorted(pieces) && forall i :: 0 <= i < |pieces| ==> Within(pieces[i], r)
  }

  function SumRegions(rs: seq<Region>): nat {
    if rs == [] then 0 else rs[0].Len() + SumRegions(rs[1..])
  }

  function SumRanges(ranges: seq<Range>): nat
    requires forall i :: 0 <= i < |ranges| ==> ranges[i].start < ranges[i].end
  {
    if ranges == [] then 0 else ranges[0].end - ranges[0].start + SumRanges(ranges[1..])
  }

  lemma InRangesTail(ranges: seq<Range>, p: int)
    requires ranges != []
    ensures InRanges(ranges, p) <==> ranges[0].Holds(p) || InRanges(ranges[1..], p)
  {
    if i :| 0 <= i < |ranges| && ranges[i].Holds(p) {
      assert i > 0 ==> ranges[1..][i - 1].Holds(p);
    }
    if i :| 0 <= i < |ranges[1..]| && ranges[1..][i].Holds(p) {
      assert ranges[i + 1].Holds(p);
    }
  }

  /** Cutting out the first range. */
  lemma SplitStep(base: Region, r: Range)
    requires base.Lo() <= r.start < r.end <= base.Hi() + 1
    ensures var (left, right) := base.SplitAtRegion(r.start, r.end - 1);
            && (left.Some? <==> base.Lo() < r.start) && (right.Some? <==> r.end <= base.Hi())
            && (left.Some? ==> left.value.Lo() == base.Lo() && left.value.Hi() == r.start - 1 && !left.value.main)
            && (right.Some? ==> right.value.Lo() == r.end && right.value.Hi() == base.Hi() && !right.value.main)
  {
  }

  /** What the first range leaves to be split further. */
  lemma LaidTail(base: Region, ranges: seq<Range>)
    requires ranges != [] && Laid(ranges, base.Lo(), base.Hi() + 1)
    ensures var (_, right) := base.SplitAtRegion(ranges[0].start, ranges[0].end - 1);
            if right.Some? then Laid(ranges[1..], right.value.Lo(), right.value.Hi() + 1) else ranges[1..] == []
  {
    SplitStep(base, ranges[0]);
    assert |ranges| > 1 ==> ranges[0].end <= ranges[1].start < ranges[1].end;
    assert forall i :: 0 <= i < |ranges[1..]| ==> ranges[1..][i] == ranges[i + 1];
  }

  lemma CoversPrepend(left: Option<Region>, rest: seq<Region>, p: int)
    ensures Covers(Prepend(left, rest), p) <==> (left.Some? && left.value.Holds(p)) || Covers(rest, p)
  {
    if left.Some? {
      CoversConcat([left.value], rest, p);
      assert [left.value][0] == left.value;
    }
  }

  /** The pieces select exactly the unmatched positions of the region. */
  lemma {:induction false} SplitCovers(base: Region, ranges: seq<Range>, p: int)
    requires Laid(ranges, base.Lo(), base.Hi() + 1)
    ensures Covers(SplitPieces(base, ranges), p) <==> base.Holds(p) && !InRanges(ranges, p)
    decreases |ranges|
  {
    if ranges == [] {
      assert [base][0] == base;
    } else {
      SplitStep(base, ranges[0]);
      LaidTail(base, ranges);
      InRangesTail(ranges, p);
      var (left, right) := base.SplitAtRegion(ranges[0].start, ranges[0].end - 1);
      CoversPrepend(left, if right.Some? then SplitPieces(right.value, ranges[1..]) else [], p);
      if right.Some? {
        SplitCovers(right.value, ranges[1..], p);
      }
      assert p < ranges[0].end ==> !InRanges(ranges[1..], p);
    }
  }

  /** The pieces are in order and inside the region. */
  lemma {:induction false} SplitInside(base: Region, ranges: seq<Range>)
    requires Laid(ranges, base.Lo(), base.Hi() + 1)
    ensures Inside(SplitPieces(base, ranges), base)
    ensures ranges != [] ==> Unflagged(SplitPieces(base, ranges))
    decreases |ranges|
  {
    if ranges != [] {
      SplitStep(base, ranges[0]);
      LaidTail(base, ranges);
      var (left, right) := base.SplitAtRegion(ranges[0].start, ranges[0].end - 1);
      if right.Some? {
        SplitInside(right.value, ranges[1..]);
        assert ranges[1..] == [] ==> SplitPieces(right.value, ranges[1..]) == [right.value];
      }
    }
  }

  /** Between two pieces there is always a match, so that no piece could be longer. */
  lemma {:induction false} SplitApart(base: Region, ranges: seq<Range>)
    requires Laid(ranges, base.Lo(), base.Hi() + 1)
    ensures forall i, j :: 0 <= i < j < |SplitPieces(base, ranges)| ==>
              SplitPieces(base, ranges)[i].Hi() + 1 < SplitPieces(base, ranges)[j].Lo()
    decreases |ranges|
  {
    if ranges != [] {
      SplitStep(base, ranges[0]);
      LaidTail(base, ranges);
      var (left, right) := base.SplitAtRegion(ranges[0].start, ranges[0].end - 1);
      if right.Some? {
        SplitApart(right.value, ranges[1..]);
        SplitInside(right.value, ranges[1..]);
        var rest := SplitPieces(right.value, ranges[1..]);
        assert forall j :: 0 <= j < |rest| ==> Within(rest[j], right.value);
      }
    }
  }

  /** Matches and pieces together have the length of the region. */
  lemma {:induction false} SplitLength(base: Region, ranges: seq<Range>)
    requires Laid(ranges, base.Lo(), base.Hi() + 1)
    ensures SumRegions(SplitPieces(base, ranges)) + SumRanges(ranges) == base.Len()
    decreases |ranges|
  {
    if ranges == [] {
      assert SumRegions([base][1..]) == 0;
    } else {
      SplitStep(base, ranges[0]);
      LaidTail(base, ranges);
      var (left, right) := base.SplitAtRegion(ranges[0].start, ranges[0].end - 1);
      var rest := if right.Some? then SplitPieces(right.value, ranges[1..]) else [];
      if right.Some? {
        SplitLength(right.value, ranges[1..]);
      }
      assert SumRegions(Prepend(left, rest)) == (if left.Some? then left.value.Len() else 0) + SumRegions(rest) by {
        assert left.Some? ==> ([left.value] + rest)[1..] == rest;
      }
    }
  }

  // ----- which way the pieces point

  /** The piece points the way the region does; a cursor counts as forward. */
  predicate PointsAs(piece: Region, base: Region) {
    if base.Forward() then piece.Forward() else piece.Backward()
  }

  /** Some match has an unmatched position of the region before it and does not end the
      region: there it is cut in the middle. */
  ghost predicate CutInside(base: Region, ranges: seq<Range>) {
    exists k, p: nat ::
      && 0 <= k < |ranges| && ranges[k].end <= base.Hi()
      && base.Lo() <= p < ranges[k].start && !InRanges(ranges, p)
  }

  /** A cut in the middle forgets the direction, and all pieces point backward. Otherwise
      there is at most one piece, which points as the region did. */
  ghost predicate PiecesPoint(pieces: seq<Region>, base: Region, ranges: seq<Range>) {
    if CutInside(base, ranges) then forall i :: 0 <= i < |pieces| ==> pieces[i].Backward()
    else |pieces| <= 1 && forall i :: 0 <= i < |pieces| ==> PointsAs(pieces[i], base)
  }

  lemma {:induction false} BackwardStays(base: Region, ranges: seq<Range>)
    requires Laid(ranges, base.Lo(), base.Hi() + 1) && base.Backward()
    ensures forall i :: 0 <= i < |SplitPieces(base, ranges)| ==> SplitPieces(base, ranges)[i].Backward()
    decreases |ranges|
  {
    if ranges != [] {
      var (left, right) := base.SplitAtRegion(ranges[0].start, ranges[0].end - 1);
      SplitStep(base, ranges[0]);
      LaidTail(base, ranges);
      if right.Some? {
        BackwardStays(right.value, ranges[1..]);
      }
    }
  }

  /** The first match is at the start of the region: what is left is split further. */
  lemma {:induction false} StartCut(base: Region, right: Region, ranges: seq<Range>)
    requires ranges != [] && Laid(ranges, base.Lo(), base.Hi() + 1) && ranges[0].start == base.Lo()
    requires right.Lo() == ranges[0].end && right.Hi() == base.Hi()
    ensures CutInside(base, ranges) <==> CutInside(right, ranges[1..])
  {
    if CutInside(base, ranges) {
      var k, p: nat :|
        && 0 <= k < |ranges| && ranges[k].end <= base.Hi()
        && base.Lo() <= p < ranges[k].start && !InRanges(ranges, p);
      assert !ranges[0].Holds(p);
      assert k > 0 && ranges[1..][k - 1] == ranges[k];
      InRangesTail(ranges, p);
    }
    if CutInside(right, ranges[1..]) {
      var k, p: nat :|
        && 0 <= k < |ranges[1..]| && ranges[1..][k].end <= right.Hi()
        && right.Lo() <= p < ranges[1..][k].start && !InRanges(ranges[1..], p);
      assert ranges[k + 1] == ranges[1..][k];
      InRangesTail(ranges, p);
    }
  }

  /** The first match leaves something before it. */
  lemma {:induction false} LaterCut(base: Region, ranges: seq<Range>)
    requires ranges != [] && Laid(ranges, base.Lo(), base.Hi() + 1) && base.Lo() < ranges[0].start
    ensures CutInside(base, ranges) <==> ranges[0].end <= base.Hi()
  {
    assert !InRanges(ranges, base.Lo()) by {
      forall k | 0 <= k < |ranges| ensures !ranges[k].Holds(base.Lo()) {
        assert k > 0 ==> ranges[0].end <= ranges[k].start;
      }
    }
    forall k | 0 <= k < |ranges| ensures ranges[0].end <= ranges[k].end {
      assert k > 0 ==> ranges[0].end <= ranges[k].start < ranges[k].end;
    }
  }

  lemma {:induction false} SplitDirections(base: Region, ranges: seq<Range>)
    requires Laid(ranges, base.Lo(), base.Hi() + 1)
    ensures PiecesPoint(SplitPieces(base, ranges), base, ranges)
    decreases |ranges|
  {
    if ranges != [] {
      var (left, right) := base.SplitAtRegion(ranges[0].start, ranges[0].end - 1);
      SplitStep(base, ranges[0]);
      LaidTail(base, ranges);
      if base.Lo() < ranges[0].start {
        LaterCut(base, ranges);
        if right.Some? {
          BackwardStays(right.value, ranges[1..]);
        }
      } else if right.Some? {
        StartCut(base, right.value, ranges);
        SplitDirections(right.value, ranges[1..]);
      } else {
        NoCut(base, ranges);
      }
    }
  }

  lemma NoCut(base: Region, ranges: seq<Range>)
    requires |ranges| == 1 && ranges[0].end > base.Hi()
    ensures !CutInside(base, ranges)
  {
  }

  // ----- the whole selection

  /** Matches that lie in their regions, region by region. */
  predicate LaidAll(rs: seq<Region>, ms: seq<seq<Range>>) {
    |ms| == |rs| && forall i :: 0 <= i < |rs| ==> Laid(ms[i], rs[i].Lo(), rs[i].Hi() + 1)
  }

  predicate Matched(ms: seq<seq<Range>>, p: int) {
    exists i :: 0 <= i < |ms| && InRanges(ms[i], p)
  }

  lemma MatchesLaid(doc: Doc, pat: Doc, rs: seq<Region>, ms: seq<seq<Range>>)
    requires pat != [] && MatchesOf(doc, pat, rs, ms)
    ensures LaidAll(rs, ms)
  {
    forall i | 0 <= i < |rs| ensures Laid(ms[i], rs[i].Lo(), rs[i].Hi() + 1) {
      GreedyLaid(doc, pat, rs[i].Lo(), TextEnd(doc, rs[i]), ms[i]);
    }
  }

  function SplitOutputs(rs: seq<Region>, ms: seq<seq<Range>>): (outputs: seq<seq<Region>>)
    requires LaidAll(rs, ms)
    ensures |outputs| == |rs| && forall i :: 0 <= i < |rs| ==> outputs[i] == SplitPieces(rs[i], ms[i])
  {
    seq(|rs|, i requires 0 <= i < |rs| => SplitPieces(rs[i], ms[i]))
  }

  function CollapseOutputs(rs: seq<Region>, ms: seq<seq<Range>>): (outputs: seq<seq<Region>>)
    requires LaidAll(rs, ms)
    ensures |outputs| == |rs| && forall i :: 0 <= i < |rs| ==> outputs[i] == CollapsePieces(rs[i], ms[i])
  {
    seq(|rs|, i requires 0 <= i < |rs| => CollapsePieces(rs[i], ms[i]))
  }

  function MatchedLen(ms: seq<seq<Range>>): nat
    requires forall i, j :: 0 <= i < |ms| && 0 <= j < |ms[i]| ==> ms[i][j].start < ms[i][j].end
  {
    if ms == [] then 0 else SumRanges(ms[0]) + MatchedLen(ms[1..])
  }

  /** A search is refused, or the selection is mapped. */
  datatype SearchResult = Refused | Mapped(result: Outcome<Sel>)

  function ApplySplit(s: Sel, ms: seq<seq<Range>>): SearchResult
    requires LaidAll(s.regions, ms)
  {
    if MatchedLen(ms) == SumRegions(s.regions) then Refused
    else Mapped(MapSelections(SplitOutputs(s.regions, ms), s.main))
  }

  function ApplyCollapse(s: Sel, ms: seq<seq<Range>>): SearchResult
    requires LaidAll(s.regions, ms)
  {
    if MatchedLen(ms) == 0 then Refused
    else Mapped(MapSelections(CollapseOutputs(s.regions, ms), s.main))
  }

  // ----- outputs that stay inside their regions

  predicate InsideAll(outputs: seq<seq<Region>>, rs: seq<Region>) {
    |outputs| == |rs| && forall i :: 0 <= i < |rs| ==> Inside(outputs[i], rs[i])
  }

  /** Pieces of sorted regions, put together, are sorted. */
  lemma {:induction false} FlattenInside(outputs: seq<seq<Region>>, rs: seq<Region>)
    requires InsideAll(outputs, rs) && Sorted(rs)
    ensures Sorted(Flatten(outputs))
    ensures forall k :: 0 <= k < |Flatten(outputs)| ==> rs != [] && rs[0].Lo() <= Flatten(outputs)[k].Lo()
    decreases |outputs|
  {
    if outputs != [] {
      assert forall i :: 0 <= i < |rs| - 1 ==> rs[1..][i] == rs[i + 1] && outputs[1..][i] == outputs[i + 1];
      FlattenInside(outputs[1..], rs[1..]);
      JoinPieces(outputs[0], Flatten(outputs[1..]), rs);
    }
  }

  lemma {:induction false} JoinPieces(first: seq<Region>, rest: seq<Region>, rs: seq<Region>)
    requires rs != [] && Sorted(rs) && Inside(first, rs[0]) && Sorted(rest)
    requires forall k :: 0 <= k < |rest| ==> |rs| > 1 && rs[1].Lo() <= rest[k].Lo()
    ensures Sorted(first + rest)
    ensures forall k :: 0 <= k < |first + rest| ==> rs[0].Lo() <= (first + rest)[k].Lo()
  {
    var all := first + rest;
    forall k | 0 <= k < |first| ensures rs[0].Lo() <= all[k].Lo() && all[k].Hi() <= rs[0].Hi() {
      assert Within(first[k], rs[0]);
    }
    forall k | |first| <= k < |all| ensures all[k] == rest[k - |first|] && rs[0].Hi() < all[k].Lo() {
      var r := rest[k - |first|];
      assert rs[0].Hi() < rs[1].Lo() <= r.Lo();
    }
  }

  lemma {:induction false} FlattenCovers(outputs: seq<seq<Region>>, p: int)
    ensures Covers(Flatten(outputs), p) <==> exists i :: 0 <= i < |outputs| && Covers(outputs[i], p)
    decreases |outputs|
  {
    if outputs != [] {
      FlattenCovers(outputs[1..], p);
      CoversConcat(outputs[0], Flatten(outputs[1..]), p);
      if i :| 0 <= i < |outputs[1..]| && Covers(outputs[1..][i], p) {
        assert Covers(outputs[i + 1], p);
      }
      if i :| 0 <= i < |outputs| && Covers(outputs[i], p) {
        assert i > 0 ==> Covers(outputs[1..][i - 1], p);
      }
    }
  }

  lemma {:induction false} FlattenEmpty(outputs: seq<seq<Region>>)
    ensures Flatten(outputs) == [] <==> forall i :: 0 <= i < |outputs| ==> outputs[i] == []
  {
    if outputs != [] {
      FlattenEmpty(outputs[1..]);
      assert forall i :: 0 < i < |outputs| ==> outputs[i] == outputs[1..][i - 1];
    }
  }

  lemma {:induction false} FlattenUnflagged(outputs: seq<seq<Region>>)
    requires forall i :: 0 <= i < |outputs| ==> Unflagged(outputs[i])
    ensures Unflagged(Flatten(outputs))
  {
    if outputs != [] {
      FlattenUnflagged(outputs[1..]);
      assert Unflagged(outputs[0]);
    }
  }

  /** Only the main region may pass on its main flag, and only if it is left whole. */
  predicate FlagsPassedOn(outputs: seq<seq<Region>>, main: nat) {
    forall i :: 0 <= i < |outputs| ==> Unflagged(outputs[i]) || (i == main && |outputs[i]| == 1)
  }

  lemma {:induction false} PassedOnFlags(outputs: seq<seq<Region>>, main: nat)
    requires main < |outputs| && FlagsPassedOn(outputs, main) && Flatten(outputs[..main + 1]) != []
    ensures var m := |Flatten(outputs[..main + 1])| - 1;
            m < |Flatten(outputs)| && MainFlagged(Sel(Flagged(Flatten(outputs), m), m))
  {
    var before, after := Flatten(outputs[..main]), Flatten(outputs[main + 1..]);
    FlattenAt(outputs, main);
    assert forall i :: 0 <= i < main ==> outputs[..main][i] == outputs[i];
    FlattenUnflagged(outputs[..main]);
    var rest := outputs[main + 1..];
    forall i | 0 <= i < |rest| ensures Unflagged(rest[i]) {
      assert rest[i] == outputs[main + 1 + i];
    }
    FlattenUnflagged(outputs[main + 1..]);
    var flat, m := before + outputs[main] + after, |before + outputs[main]| - 1;
    assert Unflagged(outputs[main]) || |outputs[main]| == 1;
    forall k | 0 <= k < |flat| && k != m ensures !flat[k].main {
      if k < |before| {
        assert flat[k] == before[k];
      } else if k < |before + outputs[main]| {
        assert flat[k] == outputs[main][k - |before|];
      } else {
        assert flat[k] == after[k - |before + outputs[main]|];
      }
    }
  }

  /** Mapping a selection to pieces of its own regions merges nothing: it panics exactly if
      there is no piece up to the main region, and otherwise selects exactly the pieces. */
  lemma {:induction false} MapPieces(s: Sel, outputs: seq<seq<Region>>)
    requires WellFormed(s) && InsideAll(outputs, s.regions) && FlagsPassedOn(outputs, s.main)
    ensures var r := MapSelections(outputs, s.main);
            && (r.Panic? <==> forall i :: 0 <= i <= s.main ==> outputs[i] == [])
            && (r.Ok? ==> WellFormed(r.value) && |r.value.regions| == |Flatten(outputs)|
                          && forall p :: Covers(r.value.regions, p) <==> exists i :: 0 <= i < |outputs| && Covers(outputs[i], p))
  {
    var upTo := outputs[..s.main + 1];
    FlattenEmpty(upTo);
    assert forall i :: 0 <= i <= s.main ==> upTo[i] == outputs[i];
    FlattenInside(outputs, s.regions);
    SortedStarts(Flatten(outputs));
    MapCanonical(outputs, s.main);
    if Flatten(upTo) != [] {
      MapPiecesOk(s, outputs);
    }
  }

  lemma SortedStarts(rs: seq<Region>)
    requires Sorted(rs)
    ensures StartsAscend(rs)
  {
  }

  lemma {:induction false} MapPiecesOk(s: Sel, outputs: seq<seq<Region>>)
    requires WellFormed(s) && |outputs| == |s.regions| && FlagsPassedOn(outputs, s.main)
    requires Sorted(Flatten(outputs)) && Flatten(outputs[..s.main + 1]) != []
    ensures var r := MapSelections(outputs, s.main);
            && r.Ok? && WellFormed(r.value) && |r.value.regions| == |Flatten(outputs)|
            && forall p :: Covers(r.value.regions, p) <==> exists i :: 0 <= i < |outputs| && Covers(outputs[i], p)
  {
    MapPiecesForm(s, outputs);
    var r := MapSelections(outputs, s.main).value;
    forall p ensures Covers(r.regions, p) <==> exists i :: 0 <= i < |outputs| && Covers(outputs[i], p) {
      FlattenCovers(outputs, p);
    }
  }

  lemma {:induction false} MapPiecesForm(s: Sel, outputs: seq<seq<Region>>)
    requires WellFormed(s) && |outputs| == |s.regions| && FlagsPassedOn(outputs, s.main)
    requires Sorted(Flatten(outputs)) && Flatten(outputs[..s.main + 1]) != []
    ensures var r := MapSelections(outputs, s.main);
            && r.Ok? && WellFormed(r.value) && |r.value.regions| == |Flatten(outputs)|
            && forall p :: Covers(r.value.regions, p) <==> Covers(Flatten(outputs), p)
  {
    MapApart(outputs, s.main);
    PassedOnFlags(outputs, s.main);
    SortedStarts(Flatten(outputs));
    MapCanonical(outputs, s.main);
  }

  lemma {:induction false} FlattenMember(outputs: seq<seq<Region>>, j: nat) returns (i: nat, k: nat)
    requires j < |Flatten(outputs)|
    ensures i < |outputs| && k < |outputs[i]| && Flatten(outputs)[j] == outputs[i][k]
    decreases |outputs|
  {
    if j < |outputs[0]| {
      i, k := 0, j;
    } else {
      i, k := FlattenMember(outputs[1..], j - |outputs[0]|);
      i := i + 1;
    }
  }

  lemma OnlyIn(rs: seq<Region>, r: Region, i: nat, j: nat)
    requires Sorted(rs) && i < |rs| && j < |rs| && Within(r, rs[i]) && Within(r, rs[j])
    ensures i == j
  {
  }

  /** The pieces are taken over, but for the main flag. */
  lemma {:induction false} PiecesTaken(s: Sel, outputs: seq<seq<Region>>)
    requires WellFormed(s) && InsideAll(outputs, s.regions) && MapSelections(outputs, s.main).Ok?
    ensures var result, flat := MapSelections(outputs, s.main).value.regions, Flatten(outputs);
            && |result| == |flat|
            && forall j :: 0 <= j < |flat| ==> result[j].caret == flat[j].caret && result[j].tail == flat[j].tail
  {
    FlattenInside(outputs, s.regions);
    SortedStarts(Flatten(outputs));
    MapCanonical(outputs, s.main);
    MapApart(outputs, s.main);
  }

  /** A region of the result lies in one region only, and is one of its pieces. */
  lemma {:induction false} PieceOf(s: Sel, outputs: seq<seq<Region>>, j: nat, i: nat) returns (k: nat)
    requires WellFormed(s) && InsideAll(outputs, s.regions)
    requires MapSelections(outputs, s.main).Ok? && j < |MapSelections(outputs, s.main).value.regions|
    requires i < |s.regions| && Within(MapSelections(outputs, s.main).value.regions[j], s.regions[i])
    ensures k < |outputs[i]|
    ensures var r := MapSelections(outputs, s.main).value.regions[j];
            r.caret == outputs[i][k].caret && r.tail == outputs[i][k].tail
  {
    PiecesTaken(s, outputs);
    var i', k' := FlattenMember(outputs, j);
    assert Within(outputs[i'][k'], s.regions[i']);
    OnlyIn(s.regions, outputs[i'][k'], i', i);
    k := k';
  }

  // ----- splitting

  /** Every region of the result points as the pieces of the region that it lies in. */
  ghost predicate SplitPoints(result: seq<Region>, rs: seq<Region>, ms: seq<seq<Range>>)
    requires |ms| == |rs|
  {
    forall j, i :: 0 <= j < |result| && 0 <= i < |rs| && Within(result[j], rs[i]) ==>
      if CutInside(rs[i], ms[i]) then result[j].Backward() else PointsAs(result[j], rs[i])
  }

  lemma {:induction false} SplitResultPoints(s: Sel, ms: seq<seq<Range>>)
    requires WellFormed(s) && LaidAll(s.regions, ms) && MapSelections(SplitOutputs(s.regions, ms), s.main).Ok?
    ensures SplitPoints(MapSelections(SplitOutputs(s.regions, ms), s.main).value.regions, s.regions, ms)
  {
    var rs, outputs := s.regions, SplitOutputs(s.regions, ms);
    var result := MapSelections(outputs, s.main).value.regions;
    SplitOutputsForm(s, ms);
    forall j: nat, i: nat | j < |result| && i < |rs| && Within(result[j], rs[i])
      ensures if CutInside(rs[i], ms[i]) then result[j].Backward() else PointsAs(result[j], rs[i]) {
      var k := PieceOf(s, outputs, j, i);
      SplitDirections(rs[i], ms[i]);
    }
  }

  lemma {:induction false} SplitOutputsForm(s: Sel, ms: seq<seq<Range>>)
    requires WellFormed(s) && LaidAll(s.regions, ms)
    ensures InsideAll(SplitOutputs(s.regions, ms), s.regions)
    ensures FlagsPassedOn(SplitOutputs(s.regions, ms), s.main)
  {
    forall i | 0 <= i < |s.regions|
      ensures Inside(SplitPieces(s.regions[i], ms[i]), s.regions[i])
      ensures var pieces := SplitPieces(s.regions[i], ms[i]); Unflagged(pieces) || (i == s.main && |pieces| == 1) {
      SplitInside(s.regions[i], ms[i]);
    }
  }

  /** The lengths of the matches and of the pieces add up to that of the selection. */
  lemma {:induction false} SplitLengths(rs: seq<Region>, ms: seq<seq<Range>>)
    requires LaidAll(rs, ms)
    ensures MatchedLen(ms) + SumRegions(Flatten(SplitOutputs(rs, ms))) == SumRegions(rs)
    decreases |rs|
  {
    var outputs := SplitOutputs(rs, ms);
    if rs != [] {
      assert LaidAll(rs[1..], ms[1..]);
      SplitLengths(rs[1..], ms[1..]);
      SplitLength(rs[0], ms[0]);
      assert outputs[1..] == SplitOutputs(rs[1..], ms[1..]);
      SumConcat(outputs[0], Flatten(outputs[1..]));
    }
  }

  lemma {:induction false} SumConcat(a: seq<Region>, b: seq<Region>)
    ensures SumRegions(a + b) == SumRegions(a) + SumRegions(b)
  {
    if a == [] {
      assert a + b == b;
    } else {
      assert (a + b)[1..] == a[1..] + b;
      SumConcat(a[1..], b);
    }
  }

  /** A region of which every position is matched leaves no pieces. */
  lemma {:induction false} NoPieces(base: Region, ranges: seq<Range>)
    requires Laid(ranges, base.Lo(), base.Hi() + 1)
    ensures SplitPieces(base, ranges) == [] <==> forall p :: base.Holds(p) ==> InRanges(ranges, p)
  {
    var pieces := SplitPieces(base, ranges);
    if pieces == [] {
      forall p | base.Holds(p) ensures InRanges(ranges, p) {
        SplitCovers(base, ranges, p);
      }
    } else {
      assert pieces[0].Holds(pieces[0].Lo());
      SplitCovers(base, ranges, pieces[0].Lo());
    }
  }

  /** Every position of region i is matched. */
  predicate FullyMatched(rs: seq<Region>, ms: seq<seq<Range>>, i: nat)
    requires i < |rs| == |ms|
  {
    forall p :: rs[i].Lo() <= p <= rs[i].Hi() ==> InRanges(ms[i], p)
  }

  /** Matches of one region do not reach into another. */
  lemma MatchedIn(rs: seq<Region>, ms: seq<seq<Range>>, i: nat, p: int)
    requires Sorted(rs) && LaidAll(rs, ms) && i < |rs| && rs[i].Holds(p)
    ensures Matched(ms, p) <==> InRanges(ms[i], p)
  {
    if j :| 0 <= j < |ms| && InRanges(ms[j], p) {
      var k :| 0 <= k < |ms[j]| && ms[j][k].Holds(p);
      assert rs[j].Holds(p);
      assert i < j ==> rs[i].Hi() < rs[j].Lo();
      assert j < i ==> rs[j].Hi() < rs[i].Lo();
    }
  }

  /** Splitting is refused exactly when everything selected is matched; it panics exactly
      when that is so of every region up to the main one only; otherwise it selects exactly
      the selected positions outside all matches, and a region that is cut in the middle
      becomes backward ones. */
  lemma {:induction false} SplitOutcome(s: Sel, ms: seq<seq<Range>>)
    requires WellFormed(s) && LaidAll(s.regions, ms)
    ensures var r := ApplySplit(s, ms);
            && (r.Refused? <==> forall i :: 0 <= i < |s.regions| ==> FullyMatched(s.regions, ms, i))
            && (r.Mapped? ==>
                  && (r.result.Panic? <==> forall i :: 0 <= i <= s.main ==> FullyMatched(s.regions, ms, i))
                  && (r.result.Ok? ==>
                        && WellFormed(r.result.value)
                        && (forall p :: Covers(r.result.value.regions, p) <==> Covers(s.regions, p) && !Matched(ms, p))
                        && SplitPoints(r.result.value.regions, s.regions, ms)))
  {
    SplitRefused(s, ms);
    SplitMapped(s, ms);
    if ApplySplit(s, ms).Mapped? && ApplySplit(s, ms).result.Ok? {
      SplitResultPoints(s, ms);
    }
  }

  /** Comparing lengths tells whether everything is matched. */
  lemma {:induction false} SplitRefused(s: Sel, ms: seq<seq<Range>>)
    requires WellFormed(s) && LaidAll(s.regions, ms)
    ensures MatchedLen(ms) == SumRegions(s.regions) <==> forall i :: 0 <= i < |s.regions| ==> FullyMatched(s.regions, ms, i)
  {
    var rs, outputs := s.regions, SplitOutputs(s.regions, ms);
    SplitLengths(rs, ms);
    FlattenEmpty(outputs);
    forall i | 0 <= i < |rs| ensures outputs[i] == [] <==> FullyMatched(rs, ms, i) {
      NoPieces(rs[i], ms[i]);
    }
    assert SumRegions(Flatten(outputs)) == 0 <==> Flatten(outputs) == [];
  }

  lemma {:induction false} SplitMapped(s: Sel, ms: seq<seq<Range>>)
    requires WellFormed(s) && LaidAll(s.regions, ms)
    ensures var r := MapSelections(SplitOutputs(s.regions, ms), s.main);
            && (r.Panic? <==> forall i :: 0 <= i <= s.main ==> FullyMatched(s.regions, ms, i))
            && (r.Ok? ==>
                  && WellFormed(r.value)
                  && forall p :: Covers(r.value.regions, p) <==> Covers(s.regions, p) && !Matched(ms, p))
  {
    var rs, outputs := s.regions, SplitOutputs(s.regions, ms);
    SplitOutputsForm(s, ms);
    MapPieces(s, outputs);
    forall i | 0 <= i < |rs| ensures outputs[i] == [] <==> FullyMatched(rs, ms, i) {
      NoPieces(rs[i], ms[i]);
    }
    forall p ensures (exists i :: 0 <= i < |outputs| && Covers(outputs[i], p)) <==> Covers(rs, p) && !Matched(ms, p) {
      SplitPositions(rs, ms, p);
    }
  }

  lemma {:induction false} SplitPositions(rs: seq<Region>, ms: seq<seq<Range>>, p: int)
    requires Sorted(rs) && LaidAll(rs, ms)
    ensures (exists i :: 0 <= i < |rs| && Covers(SplitOutputs(rs, ms)[i], p)) <==> Covers(rs, p) && !Matched(ms, p)
  {
    forall i | 0 <= i < |rs| ensures Covers(SplitOutputs(rs, ms)[i], p) <==> rs[i].Holds(p) && !Matched(ms, p) {
      SplitCovers(rs[i], ms[i], p);
      if rs[i].Holds(p) {
        MatchedIn(rs, ms, i, p);
      }
    }
    if Covers(rs, p) && !Matched(ms, p) {
      var i :| 0 <= i < |rs| && rs[i].Holds(p);
      assert Covers(SplitOutputs(rs, ms)[i], p);
    }
  }

  // ----- collapsing

  lemma {:induction false} CollapseInside(base: Region, ranges: seq<Range>)
    requires Laid(ranges, base.Lo(), base.Hi() + 1)
    ensures Inside(CollapsePieces(base, ranges), base) && Unflagged(CollapsePieces(base, ranges))
    ensures forall p :: Covers(CollapsePieces(base, ranges), p) <==> InRanges(ranges, p)
  {
    var pieces := CollapsePieces(base, ranges);
    forall i | 0 <= i < |ranges|
      ensures pieces[i].Lo() == ranges[i].start && pieces[i].Hi() == ranges[i].end - 1 && !pieces[i].main {
    }
    forall p ensures Covers(pieces, p) <==> InRanges(ranges, p) {
      if i :| 0 <= i < |pieces| && pieces[i].Holds(p) {
        assert ranges[i].Holds(p);
      }
      if i :| 0 <= i < |ranges| && ranges[i].Holds(p) {
        assert pieces[i].Holds(p);
      }
    }
  }

  lemma {:induction false} NoMatches(ms: seq<seq<Range>>)
    requires forall i, j :: 0 <= i < |ms| && 0 <= j < |ms[i]| ==> ms[i][j].start < ms[i][j].end
    ensures MatchedLen(ms) == 0 <==> forall i :: 0 <= i < |ms| ==> ms[i] == []
  {
    if ms != [] {
      NoMatches(ms[1..]);
      assert forall i :: 0 < i < |ms| ==> ms[i] == ms[1..][i - 1];
    }
  }

  /** Collapsing is refused exactly when nothing is matched; it panics exactly when that is
      so of every region up to the main one only; otherwise it selects exactly the matches,
      which point as their regions did. */
  lemma {:induction false} CollapseOutcome(s: Sel, ms: seq<seq<Range>>)
    requires WellFormed(s) && LaidAll(s.regions, ms)
    ensures var r := ApplyCollapse(s, ms);
            && (r.Refused? <==> forall i :: 0 <= i < |ms| ==> ms[i] == [])
            && (r.Mapped? ==>
                  && (r.result.Panic? <==> forall i :: 0 <= i <= s.main ==> ms[i] == [])
                  && (r.result.Ok? ==>
                        && WellFormed(r.result.value)
                        && (forall p :: Covers(r.result.value.regions, p) <==> Matched(ms, p))
                        && CollapsePoints(r.result.value.regions, s.regions)))
  {
    var rs, outputs := s.regions, CollapseOutputs(s.regions, ms);
    NoMatches(ms);
    forall i | 0 <= i < |rs|
      ensures Inside(outputs[i], rs[i]) && Unflagged(outputs[i]) && (outputs[i] == [] <==> ms[i] == [])
      ensures forall p :: Covers(outputs[i], p) <==> InRanges(ms[i], p) {
      CollapseInside(rs[i], ms[i]);
    }
    MapPieces(s, outputs);
    if MapSelections(outputs, s.main).Ok? {
      CollapseResultPoints(s, ms);
    }
  }

  ghost predicate CollapsePoints(result: seq<Region>, rs: seq<Region>) {
    forall j, i :: 0 <= j < |result| && 0 <= i < |rs| && Within(result[j], rs[i]) ==> PointsAs(result[j], rs[i])
  }

  lemma {:induction false} CollapseResultPoints(s: Sel, ms: seq<seq<Range>>)
    requires WellFormed(s) && LaidAll(s.regions, ms) && MapSelections(CollapseOutputs(s.regions, ms), s.main).Ok?
    ensures CollapsePoints(MapSelections(CollapseOutputs(s.regions, ms), s.main).value.regions, s.regions)
  {
    var rs, outputs := s.regions, CollapseOutputs(s.regions, ms);
    var result := MapSelections(outputs, s.main).value.regions;
    forall i | 0 <= i < |rs| ensures Inside(outputs[i], rs[i]) && Unflagged(outputs[i]) {
      CollapseInside(rs[i], ms[i]);
    }
    forall j: nat, i: nat | j < |result| && i < |rs| && Within(result[j], rs[i]) ensures PointsAs(result[j], rs[i]) {
      var k := PieceOf(s, outputs, j, i);
      assert PointsAs(outputs[i][k], rs[i]);
    }
  }

  lemma MatchedCovered(rs: seq<Region>, ms: seq<seq<Range>>, p: int)
    requires LaidAll(rs, ms) && Matched(ms, p)
    ensures Covers(rs, p)
  {
    var i :| 0 <= i < |ms| && InRanges(ms[i], p);
    var k :| 0 <= k < |ms[i]| && ms[i][k].Holds(p);
    assert rs[i].Holds(p);
  }

  /** Whenever both succeed, splitting and collapsing divide the selection between them. */
  lemma {:induction false} SplitAndCollapsePartition(s: Sel, ms: seq<seq<Range>>, p: int)
    requires WellFormed(s) && LaidAll(s.regions, ms)
    requires ApplySplit(s, ms).Mapped? && ApplySplit(s, ms).result.Ok?
    requires ApplyCollapse(s, ms).Mapped? && ApplyCollapse(s, ms).result.Ok?
    ensures var outside, inside := ApplySplit(s, ms).result.value.regions, ApplyCollapse(s, ms).result.value.regions;
            && (Covers(s.regions, p) <==> Covers(outside, p) || Covers(inside, p))
            && !(Covers(outside, p) && Covers(inside, p))
  {
    SplitOutcome(s, ms);
    CollapseOutcome(s, ms);
    if Matched(ms, p) {
      MatchedCovered(s.regions, ms, p);
    }
  }

  /** Splitting can panic although not everything selected is matched: here the main region
      is, and the region after it is not. */
  lemma SplitPanicExample()
    ensures var doc: Doc, pat: Doc := [0, 1, 1], [0];
            var s := Sel([Region(0, 0, true), At(2, 2)], 0);
            var ms: seq<seq<Range>> := [[Range(0, 1)], []];
            && WellFormed(s) && InBounds(s.regions, |doc|)
            && MatchesOf(doc, pat, s.regions, ms) && LaidAll(s.regions, ms)
            && ApplySplit(s, ms) == Mapped(Panic)
  {
    var s := Sel([Region(0, 0, true), At(2, 2)], 0);
    var ms: seq<seq<Range>> := [[Range(0, 1)], []];
    ExampleMatches();
    MatchesLaid([0, 1, 1], [0], s.regions, ms);
    SplitOutcome(s, ms);
    assert FullyMatched(s.regions, ms, 0) by {
      assert ms[0][0].Holds(0);
    }
    assert !FullyMatched(s.regions, ms, 1) by {
      assert !InRanges(ms[1], 2);
    }
  }

  lemma ExampleMatches()
    ensures var doc: Doc, pat: Doc := [0, 1, 1], [0];
            MatchesOf(doc, pat, [Region(0, 0, true), At(2, 2)], [[Range(0, 1)], []])
  {
    var doc: Doc, pat: Doc := [0, 1, 1], [0];
    var first: seq<Range> := [Range(0, 1)];
    assert first[1..] == [];
    assert Greedy(doc, pat, 1, 1, []);
    assert FirstMatch(doc, pat, 0, 1, Range(0, 1)) by {
      assert doc[0] == pat[0];
    }
    assert Greedy(doc, pat, 0, 1, first);
    assert !Occurs(doc, pat, 2) by {
      assert doc[2 + 0] != pat[0];
    }
    assert Greedy(doc, pat, 2, 3, []);
  }
}
