/** Selections: sorted, non-overlapping regions of which one is the main one. */
module Selections {
  import opened Prelude
  import opened Region

  /** The value of a selection. */
  datatype Sel = Sel(regions: seq<Region>, main: nat)

  /** Regions in order of position; no two of them overlap. */
  predicate Sorted(rs: seq<Region>) {
    forall i, j :: 0 <= i < j < |rs| ==> rs[i].Hi() < rs[j].Lo()
  }

  /** Exactly the region at `main` carries the main flag. */
  predicate MainFlagged(s: Sel) {
    s.main < |s.regions| && forall i :: 0 <= i < |s.regions| ==> (s.regions[i].main <==> i == s.main)
  }

  predicate WellFormed(s: Sel) {
    Sorted(s.regions) && MainFlagged(s)
  }

  /** No region reaches past the overflow position, one past the last byte. */
  predicate InBounds(rs: seq<Region>, n: nat) {
    forall i :: 0 <= i < |rs| ==> rs[i].Hi() <= n
  }

  predicate Covers(rs: seq<Region>, p: int) {
    exists i :: 0 <= i < |rs| && rs[i].Holds(p)
  }

  predicate StartsAscend(rs: seq<Region>) {
    forall i, j :: 0 <= i < j < |rs| ==> rs[i].Lo() <= rs[j].Lo()
  }

  predicate Along(r: Region, backward: bool) {
    if backward then r.Backward() else r.Forward()
  }

  /** Every region can be read in the given direction. */
  predicate SameWay(rs: seq<Region>, backward: bool) {
    forall i :: 0 <= i < |rs| ==> Along(rs[i], backward)
  }

  predicate Unflagged(rs: seq<Region>) {
    forall i :: 0 <= i < |rs| ==> !rs[i].main
  }

  // ----- mapping a selection

  /** Adds one produced region, merging it into the last one if they overlap. */
  function Push(out: seq<Region>, r: Region): Outcome<seq<Region>> {
    if out == [] || !out[|out| - 1].Overlaps(r) then Ok(out + [r])
    else match out[|out| - 1].Merge(r)
      case Ok(merged) => Ok(out[..|out| - 1] + [merged])
      case Panic => Panic
  }

  function PushAll(out: seq<Region>, rs: seq<Region>): Outcome<seq<Region>>
    decreases |rs|
  {
    if rs == [] then Ok(out)
    else match Push(out, rs[0])
      case Ok(out') => PushAll(out', rs[1..])
      case Panic => Panic
  }

  function FlagLast(out: seq<Region>): seq<Region>
    requires out != []
  {
    out[..|out| - 1] + [out[|out| - 1].(main := true)]
  }

  /** The regions produced for the k-th and later regions, added to `out`. */
  function MapFrom(outputs: seq<seq<Region>>, main: nat, k: nat, out: seq<Region>, newMain: nat): Outcome<Sel>
    requires k <= |outputs|
    decreases |outputs| - k
  {
    if k == |outputs| then Ok(Sel(out, newMain))
    else match PushAll(out, outputs[k])
      case Panic => Panic
      case Ok(out') =>
        if k != main then MapFrom(outputs, main, k + 1, out', newMain)
        else if out' == [] then Panic
        else MapFrom(outputs, main, k + 1, FlagLast(out'), |out'| - 1)
  }

  /** Replaces the k-th region by the regions `outputs[k]`. */
  function MapSelections(outputs: seq<seq<Region>>, main: nat): Outcome<Sel> {
    MapFrom(outputs, main, 0, [], 0)
  }

  function Flatten(outputs: seq<seq<Region>>): seq<Region> {
    if outputs == [] then [] else outputs[0] + Flatten(outputs[1..])
  }

  /** One region for each region. */
  function Singles(rs: seq<Region>): (outputs: seq<seq<Region>>)
    ensures |outputs| == |rs|
    ensures forall i :: 0 <= i < |rs| ==> outputs[i] == [rs[i]]
  {
    seq(|rs|, i requires 0 <= i < |rs| => [rs[i]])
  }

  /** `clear` */
  const Cleared: Sel := Sel([Region(0, 0, true)], 0)

}
