/** Finding a literal pattern inside the regions of a selection. */
module Search {
  import opened Prelude
  import opened Region
  import opened Selections

  /** The offsets from `start` up to, not including, `end`. */
  datatype Range = Range(start: nat, end: nat) {
    predicate Holds(p: int) {
      start <= p < end
    }
  }

  predicate Occurs(data: Doc, pat: Doc, p: nat) {
    p + |pat| <= |data| && forall k :: 0 <= k < |pat| ==> data[p + k] == pat[k]
  }

  /** The first occurrence of a pattern, if there is one. */
  function FindFirst(data: Doc, pat: Doc): (r: Option<nat>)
    ensures r.Some? ==> Occurs(data, pat, r.value)
    ensures r.Some? ==> forall p: nat :: p < r.value ==> !Occurs(data, pat, p)
    ensures r.None? ==> forall p: nat :: !Occurs(data, pat, p)
  {
    FindFrom(data, pat, 0)
  }

  function FindFrom(data: Doc, pat: Doc, from: nat): (r: Option<nat>)
    requires forall p: nat :: p < from ==> !Occurs(data, pat, p)
    ensures r.Some? ==> Occurs(data, pat, r.value)
    ensures r.Some? ==> forall p: nat :: p < r.value ==> !Occurs(data, pat, p)
    ensures r.None? ==> forall p: nat :: !Occurs(data, pat, p)
    decreases |data| - from
  {
    if from > |data| then None
    else if Occurs(data, pat, from) then Some(from)
    else FindFrom(data, pat, from + 1)
  }

  /** No occurrence starts in from..to and ends by `end`. */
  ghost predicate NoneBetween(doc: Doc, pat: Doc, from: nat, to: nat, end: nat) {
    forall p: nat :: from <= p < to && p + |pat| <= end ==> !Occurs(doc, pat, p)
  }

  /** The first occurrence at or after `from` that ends by `end`. */
  ghost predicate FirstMatch(doc: Doc, pat: Doc, from: nat, end: nat, r: Range) {
    && from <= r.start && r.end == r.start + |pat| <= end
    && Occurs(doc, pat, r.start)
    && NoneBetween(doc, pat, from, r.start, end)
  }

  /** Each match is the first occurrence at or after the end of the match before it, inside
      lo..end, and there is none after the last. */
  ghost predicate Greedy(doc: Doc, pat: Doc, lo: nat, end: nat, ranges: seq<Range>)
    decreases |ranges|
  {
    if ranges == [] then lo <= end && NoneBetween(doc, pat, lo, end, end)
    else FirstMatch(doc, pat, lo, end, ranges[0]) && Greedy(doc, pat, ranges[0].end, end, ranges[1..])
  }

  /** The matches up to `next`, where the search goes on. */
  ghost predicate GreedyUpTo(doc: Doc, pat: Doc, lo: nat, end: nat, ranges: seq<Range>, next: nat)
    decreases |ranges|
  {
    if ranges == [] then next == lo
    else FirstMatch(doc, pat, lo, end, ranges[0]) && GreedyUpTo(doc, pat, ranges[0].end, end, ranges[1..], next)
  }

  lemma {:induction false} GreedyPush(doc: Doc, pat: Doc, lo: nat, end: nat, ranges: seq<Range>, next: nat, r: Range)
    requires GreedyUpTo(doc, pat, lo, end, ranges, next) && FirstMatch(doc, pat, next, end, r)
    ensures GreedyUpTo(doc, pat, lo, end, ranges + [r], r.end)
    decreases |ranges|
  {
    if ranges == [] {
      assert (ranges + [r])[1..] == [];
    } else {
      assert (ranges + [r])[1..] == ranges[1..] + [r];
      GreedyPush(doc, pat, ranges[0].end, end, ranges[1..], next, r);
    }
  }

  lemma {:induction false} GreedyDone(doc: Doc, pat: Doc, lo: nat, end: nat, ranges: seq<Range>, next: nat)
    requires GreedyUpTo(doc, pat, lo, end, ranges, next) && next <= end && NoneBetween(doc, pat, next, end, end)
    ensures Greedy(doc, pat, lo, end, ranges)
    decreases |ranges|
  {
    if ranges != [] {
      GreedyDone(doc, pat, ranges[0].end, end, ranges[1..], next);
    }
  }

  lemma OccursInSlice(doc: Doc, pat: Doc, lo: nat, end: nat, p: nat)
    requires lo <= end <= |doc|
    ensures Occurs(doc[lo..end], pat, p) <==> lo + p + |pat| <= end && Occurs(doc, pat, lo + p)
  {
    if lo + p + |pat| <= end {
      forall k | 0 <= k < |pat| ensures doc[lo..end][p + k] == pat[k] <==> doc[lo + p + k] == pat[k] {
      }
    }
  }

  /** The end of the bytes of a region. */
  function TextEnd(doc: Doc, r: Region): nat {
    Min(r.Hi() + 1, |doc|)
  }

  /** All matches in one region, from left to right. */
  method MatchesInRegion(doc: Doc, r: Region, pat: Doc) returns (ranges: seq<Range>)
    requires pat != [] && r.Hi() <= |doc|
    ensures Greedy(doc, pat, r.Lo(), TextEnd(doc, r), ranges)
  {
    var base, sliceBase := r.Lo(), 0;
    ghost var lo, end := r.Lo(), TextEnd(doc, r);
    var data := doc[r.Lo()..Min(r.Hi() + 1, |doc|)];
    ranges := [];
    var found := FindFirst(data[sliceBase..], pat);
    while found.Some?
      invariant sliceBase <= |data| && base == lo + sliceBase
      invariant found == FindFirst(data[sliceBase..], pat)
      invariant GreedyUpTo(doc, pat, lo, end, ranges, base)
      decreases |data| - sliceBase
    {
      var start := found.value;
      var hit := Range(base + start, base + start + |pat|);
      MatchRound(doc, pat, lo, end, ranges, base, hit, sliceBase, start);
      ranges := ranges + [hit];
      base := hit.end;
      sliceBase := sliceBase + start + |pat|;
      found := FindFirst(data[sliceBase..], pat);
    }
    MatchesEnd(doc, pat, lo, end, ranges, sliceBase);
  }

  lemma {:induction false} MatchRound(doc: Doc, pat: Doc, lo: nat, end: nat, ranges: seq<Range>, base: nat, hit: Range,
                                      sliceBase: nat, start: nat)
    requires lo <= end <= |doc| && sliceBase <= end - lo && base == lo + sliceBase
    requires GreedyUpTo(doc, pat, lo, end, ranges, base)
    requires FindFirst(doc[lo..end][sliceBase..], pat) == Some(start) && hit == Range(base + start, base + start + |pat|)
    ensures hit.end <= end && GreedyUpTo(doc, pat, lo, end, ranges + [hit], hit.end)
  {
    FirstInSlice(doc, pat, lo, end, sliceBase, start);
    GreedyPush(doc, pat, lo, end, ranges, base, hit);
  }

  lemma {:induction false} MatchesEnd(doc: Doc, pat: Doc, lo: nat, end: nat, ranges: seq<Range>, sliceBase: nat)
    requires lo <= end <= |doc| && sliceBase <= end - lo && GreedyUpTo(doc, pat, lo, end, ranges, lo + sliceBase)
    requires FindFirst(doc[lo..end][sliceBase..], pat).None?
    ensures Greedy(doc, pat, lo, end, ranges)
  {
    NoneInSlice(doc, pat, lo, end, sliceBase);
    GreedyDone(doc, pat, lo, end, ranges, lo + sliceBase);
  }

  /** The first occurrence in the rest of the slice is the first one in the document. */
  lemma FirstInSlice(doc: Doc, pat: Doc, lo: nat, end: nat, sliceBase: nat, start: nat)
    requires lo <= end <= |doc| && sliceBase <= end - lo
    requires FindFirst(doc[lo..end][sliceBase..], pat) == Some(start)
    ensures lo + sliceBase + start + |pat| <= end && Occurs(doc, pat, lo + sliceBase + start)
    ensures NoneBetween(doc, pat, lo + sliceBase, lo + sliceBase + start, end)
  {
    var from := lo + sliceBase;
    assert doc[lo..end][sliceBase..] == doc[from..end];
    OccursInSlice(doc, pat, from, end, start);
    forall p: nat | from <= p < from + start && p + |pat| <= end ensures !Occurs(doc, pat, p) {
      OccursInSlice(doc, pat, from, end, p - from);
    }
  }

  lemma NoneInSlice(doc: Doc, pat: Doc, lo: nat, end: nat, sliceBase: nat)
    requires lo <= end <= |doc| && sliceBase <= end - lo
    requires FindFirst(doc[lo..end][sliceBase..], pat).None?
    ensures NoneBetween(doc, pat, lo + sliceBase, end, end)
  {
    var from := lo + sliceBase;
    assert doc[lo..end][sliceBase..] == doc[from..end];
    forall p: nat | from <= p < end && p + |pat| <= end ensures !Occurs(doc, pat, p) {
      OccursInSlice(doc, pat, from, end, p - from);
    }
  }

  /** Matches are inside the region, ascend and do not overlap. */
  predicate Laid(ranges: seq<Range>, lo: nat, end: nat) {
    && (forall i :: 0 <= i < |ranges| ==> lo <= ranges[i].start < ranges[i].end <= end)
    && (forall i, j :: 0 <= i < j < |ranges| ==> ranges[i].end <= ranges[j].start)
  }

  lemma {:induction false} GreedyLaid(doc: Doc, pat: Doc, lo: nat, end: nat, ranges: seq<Range>)
    requires pat != [] && Greedy(doc, pat, lo, end, ranges)
    ensures Laid(ranges, lo, end)
    decreases |ranges|
  {
    if ranges != [] {
      GreedyLaid(doc, pat, ranges[0].end, end, ranges[1..]);
      assert forall i :: 0 < i < |ranges| ==> ranges[i] == ranges[1..][i - 1];
    }
  }

  /** Every occurrence inside the region meets some match: none lies wholly in a gap. */
  lemma {:induction false} NothingMissed(doc: Doc, pat: Doc, lo: nat, end: nat, ranges: seq<Range>, p: nat)
    requires pat != [] && Greedy(doc, pat, lo, end, ranges)
    requires lo <= p && p + |pat| <= end && Occurs(doc, pat, p)
    ensures exists i :: 0 <= i < |ranges| && ranges[i].start < p + |pat| && p < ranges[i].end
    decreases |ranges|
  {
    if ranges != [] && ranges[0].end <= p {
      NothingMissed(doc, pat, ranges[0].end, end, ranges[1..], p);
      var i :| 0 <= i < |ranges[1..]| && ranges[1..][i].start < p + |pat| && p < ranges[1..][i].end;
      assert ranges[i + 1].start < p + |pat| && p < ranges[i + 1].end;
    } else if ranges != [] {
      assert NoneBetween(doc, pat, lo, ranges[0].start, end);
      assert ranges[0].start < p + |pat| && p < ranges[0].end;
    }
  }

  /** The greedy matches are determined by the document, the region and the pattern. */
  lemma {:induction false} GreedyUnique(doc: Doc, pat: Doc, lo: nat, end: nat, a: seq<Range>, b: seq<Range>)
    requires pat != [] && Greedy(doc, pat, lo, end, a) && Greedy(doc, pat, lo, end, b)
    ensures a == b
    decreases |a|
  {
    if a != [] && b != [] {
      assert a[0] == b[0];
      GreedyUnique(doc, pat, a[0].end, end, a[1..], b[1..]);
      assert a == [a[0]] + a[1..] && b == [b[0]] + b[1..];
    }
  }

  /** `ms[i]` are the matches in region i. */
  ghost predicate MatchesOf(doc: Doc, pat: Doc, rs: seq<Region>, ms: seq<seq<Range>>) {
    && |ms| == |rs|
    && forall i :: 0 <= i < |rs| ==> Greedy(doc, pat, rs[i].Lo(), TextEnd(doc, rs[i]), ms[i])
  }

  /** The matches of a literal pattern, region by region. */
  method MapSelectionsToMatches(doc: Doc, rs: seq<Region>, pat: Doc) returns (ms: seq<seq<Range>>)
    requires pat != [] && InBounds(rs, |doc|)
    ensures MatchesOf(doc, pat, rs, ms)
  {
    ms := [];
    for i := 0 to |rs|
      invariant |ms| == i
      invariant forall k :: 0 <= k < i ==> Greedy(doc, pat, rs[k].Lo(), TextEnd(doc, rs[k]), ms[k])
    {
      var ranges := MatchesInRegion(doc, rs[i], pat);
      ms := ms + [ranges];
    }
  }

  // ----- the matches as a function

  lemma {:induction false} FirstFound(doc: Doc, pat: Doc, lo: nat, end: nat)
    requires pat != [] && lo <= end <= |doc|
    ensures match FindFirst(doc[lo..end], pat)
            case None => NoneBetween(doc, pat, lo, end, end)
            case Some(p) => FirstMatch(doc, pat, lo, end, Range(lo + p, lo + p + |pat|))
  {
    assert doc[lo..end][0..] == doc[lo..end];
    match FindFirst(doc[lo..end], pat)
    case None => NoneInSlice(doc, pat, lo, end, 0);
    case Some(p) => FirstInSlice(doc, pat, lo, end, 0, p);
  }

  /** The first match at or after `lo` that ends by `end`. */
  function NextMatch(doc: Doc, pat: Doc, lo: nat, end: nat): (r: Option<Range>)
    requires pat != [] && lo <= end <= |doc|
    ensures r.Some? ==> FirstMatch(doc, pat, lo, end, r.value)
    ensures r.None? ==> NoneBetween(doc, pat, lo, end, end)
  {
    FirstFound(doc, pat, lo, end);
    match FindFirst(doc[lo..end], pat)
    case None => None
    case Some(p) => Some(Range(lo + p, lo + p + |pat|))
  }

  /** The matches from `lo` on, up to `end`. */
  function GreedyFrom(doc: Doc, pat: Doc, lo: nat, end: nat): seq<Range>
    requires pat != [] && lo <= end <= |doc|
    decreases end - lo
  {
    match NextMatch(doc, pat, lo, end)
    case None => []
    case Some(r) => [r] + GreedyFrom(doc, pat, r.end, end)
  }

  lemma GreedyCons(doc: Doc, pat: Doc, lo: nat, end: nat, r: Range, rest: seq<Range>)
    requires FirstMatch(doc, pat, lo, end, r) && Greedy(doc, pat, r.end, end, rest)
    ensures Greedy(doc, pat, lo, end, [r] + rest)
  {
    assert ([r] + rest)[1..] == rest;
  }

  lemma {:induction false} GreedyFromForm(doc: Doc, pat: Doc, lo: nat, end: nat)
    requires pat != [] && lo <= end <= |doc|
    ensures Greedy(doc, pat, lo, end, GreedyFrom(doc, pat, lo, end))
    decreases end - lo
  {
    match NextMatch(doc, pat, lo, end)
    case None =>
    case Some(r) =>
      GreedyFromForm(doc, pat, r.end, end);
      GreedyCons(doc, pat, lo, end, r, GreedyFrom(doc, pat, r.end, end));
  }

  function Matches(doc: Doc, pat: Doc, rs: seq<Region>): seq<seq<Range>>
    requires pat != [] && InBounds(rs, |doc|)
  {
    seq(|rs|, i requires 0 <= i < |rs| => GreedyFrom(doc, pat, rs[i].Lo(), TextEnd(doc, rs[i])))
  }

  /** They are the matches that the search finds, and there are no others. */
  lemma {:induction false} MatchesUnique(doc: Doc, pat: Doc, rs: seq<Region>, ms: seq<seq<Range>>)
    requires pat != [] && InBounds(rs, |doc|)
    ensures MatchesOf(doc, pat, rs, ms) <==> ms == Matches(doc, pat, rs)
  {
    forall i | 0 <= i < |rs|
      ensures Greedy(doc, pat, rs[i].Lo(), TextEnd(doc, rs[i]), Matches(doc, pat, rs)[i]) {
      GreedyFromForm(doc, pat, rs[i].Lo(), TextEnd(doc, rs[i]));
    }
    if MatchesOf(doc, pat, rs, ms) {
      forall i | 0 <= i < |rs| ensures ms[i] == Matches(doc, pat, rs)[i] {
        GreedyUnique(doc, pat, rs[i].Lo(), TextEnd(doc, rs[i]), ms[i], Matches(doc, pat, rs)[i]);
      }
    }
  }
}
