/** The handlers of split and collapse mode. */
module SplitMode {
  import opened Prelude
  import opened Region
  import opened Selections
  import opened HexTyping
  import opened Search
  import opened Split
  import opened CurrentBuffer

  // ----- splitting at matches and collapsing to them

  /** The total length of the matches. */
  method TotalMatched(ms: seq<seq<Range>>) returns (total: nat)
    requires forall i, j :: 0 <= i < |ms| && 0 <= j < |ms[i]| ==> ms[i][j].start < ms[i][j].end
    ensures total == MatchedLen(ms)
  {
    total := 0;
    for i := 0 to |ms|
      invariant total + MatchedLen(ms[i..]) == MatchedLen(ms)
    {
      assert ms[i..][1..] == ms[i + 1..];
      for j := 0 to |ms[i]|
        invariant total + SumRanges(ms[i][j..]) + MatchedLen(ms[i + 1..]) == MatchedLen(ms)
      {
        assert ms[i][j..][1..] == ms[i][j + 1..];
        total := total + (ms[i][j].end - ms[i][j].start);
      }
    }
  }

  /** `len_bytes` */
  method TotalSelected(rs: seq<Region>) returns (total: nat)
    ensures total == SumRegions(rs)
  {
    total := 0;
    for i := 0 to |rs|
      invariant total + SumRegions(rs[i..]) == SumRegions(rs)
    {
      assert rs[i..][1..] == rs[i + 1..];
      total := total + rs[i].Len();
    }
  }

  /** The pieces of every region. */
  method SplitAll(regions: seq<Region>, ms: seq<seq<Range>>) returns (outputs: seq<seq<Region>>)
    requires LaidAll(regions, ms)
    ensures outputs == SplitOutputs(regions, ms)
  {
    outputs := [];
    for i := 0 to |regions|
      invariant outputs == SplitOutputs(regions, ms)[..i]
    {
      var pieces := SplitRegion(regions[i], ms[i]);
      outputs := outputs + [pieces];
    }
  }

  /** Splits the selection at the matches of a literal pattern. */
  method SplitBySearch(pat: Doc, buf: CurrentBuffer)
    returns (ms: seq<seq<Range>>, refused: bool, ok: bool, changed: seq<Interval>)
    requires WellPlaced(buf.Value().view)
    modifies buf.selection
    ensures pat == [] ==> refused
    ensures refused ==> buf.Value() == old(buf.Value())
    ensures pat != [] ==>
              var s := old(buf.selection.Value());
              && MatchesOf(buf.data, pat, s.regions, ms) && LaidAll(s.regions, ms)
              && var r := ApplySplit(s, ms);
              && (refused <==> r.Refused?)
              && (r.Mapped? ==> (ok <==> r.result.Ok?) && (ok ==> r.result == Ok(buf.selection.Value())))
    ensures refused || ok ==> Complete(old(buf.selection.Value()), buf.selection.Value(), changed)
  {
    ms, refused, ok, changed := [], true, true, [];
    if pat == [] {
      return;
    }
    ms := MapSelectionsToMatches(buf.data, buf.selection.regions, pat);
    MatchesLaid(buf.data, pat, buf.selection.regions, ms);
    var matchedLen := TotalMatched(ms);
    var selectedLen := TotalSelected(buf.selection.regions);
    if matchedLen == selectedLen {
      return;
    }
    refused := false;
    var outputs := SplitAll(buf.selection.regions, ms);
    SplitOutcome(buf.selection.Value(), ms);
    ok, changed := buf.MapSelections(outputs);
    if ok {
      CompleteIf(old(buf.selection.Value()), buf.selection.Value(), changed);
    }
  }

  /** Collapses the selection to the matches of a literal pattern. */
  method CollapseBySearch(pat: Doc, buf: CurrentBuffer)
    returns (ms: seq<seq<Range>>, refused: bool, ok: bool, changed: seq<Interval>)
    requires WellPlaced(buf.Value().view)
    modifies buf.selection
    ensures pat == [] ==> refused
    ensures refused ==> buf.Value() == old(buf.Value())
    ensures pat != [] ==>
              var s := old(buf.selection.Value());
              && MatchesOf(buf.data, pat, s.regions, ms) && LaidAll(s.regions, ms)
              && var r := ApplyCollapse(s, ms);
              && (refused <==> r.Refused?)
              && (r.Mapped? ==> (ok <==> r.result.Ok?) && (ok ==> r.result == Ok(buf.selection.Value())))
    ensures refused || ok ==> Complete(old(buf.selection.Value()), buf.selection.Value(), changed)
  {
    ms, refused, ok, changed := [], true, true, [];
    if pat == [] {
      return;
    }
    ms := MapSelectionsToMatches(buf.data, buf.selection.regions, pat);
    MatchesLaid(buf.data, pat, buf.selection.regions, ms);
    var matchedLen := TotalMatched(ms);
    if matchedLen == 0 {
      return;
    }
    refused := false;
    CollapseOutcome(buf.selection.Value(), ms);
    ok, changed := buf.MapSelections(CollapseOutputs(buf.selection.regions, ms));
    if ok {
      ghost var s := old(buf.selection.Value());
      forall p | Covers(buf.selection.regions, p) ensures Covers(s.regions, p) {
        MatchedCovered(s.regions, ms, p);
      }
      CompleteIf(s, buf.selection.Value(), changed);
    }
  }
}
