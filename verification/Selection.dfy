/** The selection as an object that the editor updates in place. */
module Selection {
  import opened Prelude
  import opened Delta
  import opened Region
  import opened Selections
  import opened SelectionLaws
  import opened Transport

  // ----- what the updates compute

  function Retained(s: Sel, index: nat): Sel
    requires index < |s.regions|
  {
    Sel([s.regions[index].(main := true)], 0)
  }

  function Removed(s: Sel, index: nat): Sel
    requires index < |s.regions|
  {
    if |s.regions| == 1 then s
    else
      var rest := s.regions[..index] + s.regions[index + 1..];
      var main := Min(|rest| - 1, s.main);
      Sel(Flagged(rest, main), main)
  }

  function AllSelected(size: nat): Sel {
    if size == 0 then Cleared else Sel([Region(size - 1, 0, true)], 0)
  }

  /** Counts around the end of n regions, or around the start. */
  function Around(i: int, n: nat): (k: nat)
    requires n > 0
    ensures k < n
  {
    i % n
  }

  /** Moves the main flag to another region. */
  function MainMoved(s: Sel, main: nat): Sel
    requires s.main < |s.regions| && main < |s.regions|
  {
    Sel(Flagged(s.regions[s.main := s.regions[s.main].(main := false)], main), main)
  }

  /** The regions that meet the closed range, in order. */
  function Intersecting(rs: seq<Region>, start: nat, end: nat): seq<Region> {
    if rs == [] then []
    else if rs[0].Hi() >= start && rs[0].Lo() <= end then [rs[0]] + Intersecting(rs[1..], start, end)
    else Intersecting(rs[1..], start, end)
  }

  class Selection {
    var regions: seq<Region>
    var mainSelection: nat

    function Value(): Sel
      reads this
    {
      Sel(regions, mainSelection)
    }

    constructor ()
      ensures Value() == Cleared
    {
      regions, mainSelection := [Region(0, 0, true)], 0;
    }

    method Assign(s: Sel)
      modifies this
      ensures Value() == s
    {
      regions, mainSelection := s.regions, s.main;
    }

    method Clear()
      modifies this
      ensures Value() == Cleared
    {
      regions := [At(0, 0)];
      regions := regions[0 := regions[0].(main := true)];
      mainSelection := 0;
    }

    method Retain(index: nat)
      requires index < |regions|
      modifies this
      ensures Value() == Retained(old(Value()), index)
    {
      var main := regions[index];
      mainSelection := 0;
      main := main.(main := true);
      regions := [main];
    }

    method Remove(index: nat)
      requires index < |regions|
      modifies this
      ensures Value() == Removed(old(Value()), index)
    {
      if |regions| == 1 {
        return;
      }
      regions := regions[..index] + regions[index + 1..];
      mainSelection := Min(|regions| - 1, mainSelection);
      regions := regions[mainSelection := regions[mainSelection].(main := true)];
    }

    method SelectAll(size: nat)
      modifies this
      ensures Value() == AllSelected(size)
    {
      Clear();
      if size == 0 {
        return;
      }
      regions := [regions[0].(tail := 0, caret := size - 1)];
    }

    method SelectNext(count: nat)
      requires mainSelection < |regions|
      modifies this
      ensures Value() == MainMoved(old(Value()), (old(mainSelection) + count) % |old(regions)|)
    {
      regions := regions[mainSelection := regions[mainSelection].(main := false)];
      mainSelection := (mainSelection + count) % |regions|;
      regions := regions[mainSelection := regions[mainSelection].(main := true)];
    }

    method SelectPrev(count: nat)
      requires mainSelection < |regions|
      modifies this
      ensures Value() == MainMoved(old(Value()), (old(mainSelection) - count) % |old(regions)|)
    {
      PrevMod(mainSelection, |regions|, count);
      regions := regions[mainSelection := regions[mainSelection].(main := false)];
      mainSelection := (mainSelection + |regions| - count % |regions|) % |regions|;
      regions := regions[mainSelection := regions[mainSelection].(main := true)];
    }

    /** Replaces every region by the regions that were produced for it; false is a panic. */
    method MapSelections(outputs: seq<seq<Region>>) returns (ok: bool)
      requires |outputs| == |regions|
      modifies this
      ensures ok <==> Selections.MapSelections(outputs, old(mainSelection)).Ok?
      ensures ok ==> Value() == Selections.MapSelections(outputs, old(mainSelection)).value
      ensures !ok ==> Value() == old(Value())
    {
      ghost var whole := Selections.MapSelections(outputs, mainSelection);
      var regionsOut: seq<Region> := [];
      var newMain := 0;
      for i := 0 to |regions|
        invariant whole == MapFrom(outputs, mainSelection, i, regionsOut, newMain)
        invariant Value() == old(Value())
      {
        ghost var before := regionsOut;
        for j := 0 to |outputs[i]|
          invariant PushAll(before, outputs[i]) == PushAll(regionsOut, outputs[i][j..])
          invariant Value() == old(Value())
        {
          var newRegion := outputs[i][j];
          assert outputs[i][j..][1..] == outputs[i][j + 1..];
          if regionsOut == [] || !regionsOut[|regionsOut| - 1].Overlaps(newRegion) {
            regionsOut := regionsOut + [newRegion];
          } else {
            var last := regionsOut[|regionsOut| - 1];
            regionsOut := regionsOut[..|regionsOut| - 1];
            var merged := last.Merge(newRegion);
            if merged.Panic? {
              return false;
            }
            regionsOut := regionsOut + [merged.value];
          }
        }
        if i == mainSelection {
          if regionsOut == [] {
            return false;
          }
          newMain := |regionsOut| - 1;
          regionsOut := regionsOut[..newMain] + [regionsOut[newMain].(main := true)];
        }
      }
      regions := regionsOut;
      mainSelection := newMain;
      ok := true;
    }

    method ApplyDelta(d: Delta, maxLen: nat) returns (ok: bool)
      modifies this
      ensures ok <==> Carry(old(Value()), d, maxLen).Ok?
      ensures ok ==> Value() == Carry(old(Value()), d, maxLen).value
    {
      ok := ApplyDeltaOffsetCarets(d, 0, 0, maxLen);
    }

    method ApplyDeltaOffsetCarets(d: Delta, caretOffset: int, tailOffset: int, maxLen: nat) returns (ok: bool)
      modifies this
      ensures ok <==> CarryShifted(old(Value()), d, caretOffset, tailOffset, maxLen).Ok?
      ensures ok ==> Value() == CarryShifted(old(Value()), d, caretOffset, tailOffset, maxLen).value
    {
      if NewLen(d) == 0 {
        Clear();
        return true;
      }
      ok := MapSelections(Singles(CarryRegions(d, maxLen, regions, caretOffset, tailOffset)));
    }

    /** The standard binary search for a region whose end is `offset`: where it is, or where
        it would have to be. */
    method BinarySearch(offset: nat) returns (found: bool, k: nat)
      requires Sorted(regions)
      ensures k <= |regions|
      ensures found ==> k < |regions| && regions[k].Hi() == offset
      ensures !found ==> forall i :: 0 <= i < |regions| ==> regions[i].Hi() != offset
      ensures forall i :: 0 <= i < k ==> regions[i].Hi() < offset
      ensures forall i :: k <= i < |regions| ==> regions[i].Hi() >= offset
    {
      var left, right := 0, |regions|;
      while left < right
        invariant 0 <= left <= right <= |regions|
        invariant forall i :: 0 <= i < left ==> regions[i].Hi() < offset
        invariant forall i :: right <= i < |regions| ==> regions[i].Hi() > offset
      {
        var mid := left + (right - left) / 2;
        forall i | 0 <= i < |regions|
          ensures i < mid ==> regions[i].Hi() < regions[mid].Hi()
          ensures mid < i ==> regions[mid].Hi() < regions[i].Hi() {
        }
        if regions[mid].Hi() < offset {
          left := mid + 1;
        } else if regions[mid].Hi() > offset {
          right := mid;
        } else {
          return true, mid;
        }
      }
      return false, left;
    }

    method Search(offset: nat) returns (k: nat)
      requires Sorted(regions) && regions != []
      ensures k <= |regions|
      ensures forall i :: 0 <= i < k ==> regions[i].Hi() < offset
      ensures forall i :: k <= i < |regions| ==> regions[i].Hi() >= offset
    {
      if offset > regions[|regions| - 1].Hi() {
        forall i | 0 <= i < |regions| ensures regions[i].Hi() < offset {
          assert i < |regions| - 1 ==> regions[i].Hi() < regions[|regions| - 1].Lo();
        }
        return |regions|;
      }
      var _, index := BinarySearch(offset);
      k := index;
    }

    /** The binary search finds exactly the regions that a scan would find. */
    method RegionsInRange(start: nat, end: nat) returns (rs: seq<Region>)
      requires Sorted(regions) && regions != [] && start <= end
      ensures rs == Intersecting(regions, start, end)
    {
      var first := Search(start);
      var last := Search(end);
      if last < |regions| && regions[last].Lo() <= end {
        last := last + 1;
      }
      forall i | 0 <= i < |regions|
        ensures first <= i < last <==> regions[i].Hi() >= start && regions[i].Lo() <= end {
        assert forall j :: 0 <= j < i ==> regions[j].Hi() < regions[i].Lo();
        assert forall j :: i < j < |regions| ==> regions[i].Hi() < regions[j].Lo();
      }
      assert first <= last;
      IntersectingSlice(regions, start, end, first, last);
      rs := regions[first..last];
    }
  }

  lemma PrevMod(main: nat, n: nat, count: nat)
    requires main < n
    ensures (main + n - count % n) % n == (main - count) % n
  {
    var a, b := main + n - count % n, main - count;
    assert count == n * (count / n) + count % n;
    assert b == n * (b / n) + b % n;
    var q := 1 + count / n + b / n;
    assert n * q == n + n * (count / n) + n * (b / n);
    ModUnique(a, q, b % n, n);
  }

  lemma ModUnique(a: int, q: int, r: nat, n: nat)
    requires r < n && a == n * q + r
    ensures a % n == r
  {
    var k := a / n - q;
    assert a == n * (a / n) + a % n;
    assert n * k == n * (a / n) - n * q;
    MulAtLeast(n, k);
  }

  lemma MulAtLeast(n: nat, k: int)
    ensures k >= 1 ==> n * k >= n
    ensures k <= -1 ==> n * k <= 0 - n
  {
  }

  /** The regions that meet the range are those from `first` up to `last`. */
  ghost predicate MeetBetween(rs: seq<Region>, start: nat, end: nat, first: nat, last: nat) {
    && first <= last <= |rs|
    && forall i :: 0 <= i < |rs| ==> (first <= i < last <==> rs[i].Hi() >= start && rs[i].Lo() <= end)
  }

  lemma {:induction false} MeetTail(rs: seq<Region>, start: nat, end: nat, first: nat, last: nat)
    requires rs != [] && MeetBetween(rs, start, end, first, last)
    ensures rs[0].Hi() >= start && rs[0].Lo() <= end <==> first == 0 < last
    ensures MeetBetween(rs[1..], start, end, if first > 0 then first - 1 else 0, if last > 0 then last - 1 else 0)
  {
    forall i | 0 <= i < |rs| - 1 ensures rs[1..][i] == rs[i + 1] {
    }
  }

  lemma {:induction false} IntersectingSlice(rs: seq<Region>, start: nat, end: nat, first: nat, last: nat)
    requires MeetBetween(rs, start, end, first, last)
    ensures Intersecting(rs, start, end) == rs[first..last]
  {
    if rs != [] {
      var from, to := if first > 0 then first - 1 else 0, if last > 0 then last - 1 else 0;
      MeetTail(rs, start, end, first, last);
      IntersectingSlice(rs[1..], start, end, from, to);
      if first == 0 < last {
        assert rs[first..last] == [rs[0]] + rs[1..][from..to];
      } else {
        assert rs[first..last] == rs[1..][from..to];
      }
    }
  }

  // ----- what the updates keep

  /** Removing a region keeps the others sorted. It keeps a single main flag exactly when
      the removed region is not before the main one or the main one is the last. */
  lemma RemovedForm(s: Sel, index: nat)
    requires WellFormed(s) && index < |s.regions|
    ensures Sorted(Removed(s, index).regions)
    ensures WellFormed(Removed(s, index)) <==>
            |s.regions| == 1 || s.main <= index || s.main == |s.regions| - 1
  {
    if |s.regions| > 1 {
      var out := Removed(s, index);
      RemovedAt(s, index);
      if index < s.main < |s.regions| - 1 {
        assert out.regions[s.main - 1].main && out.main == s.main;
      } else {
        assert forall i :: 0 <= i < |out.regions| ==> (out.regions[i].main <==> i == out.main);
      }
    }
  }

  lemma RemovedAt(s: Sel, index: nat)
    requires WellFormed(s) && index < |s.regions| && |s.regions| > 1
    ensures var out := Removed(s, index);
            && |out.regions| == |s.regions| - 1 && out.main == Min(|s.regions| - 2, s.main)
            && forall i :: 0 <= i < |out.regions| ==>
                 var r := s.regions[if i < index then i else i + 1];
                 && out.regions[i].caret == r.caret && out.regions[i].tail == r.tail
                 && (out.regions[i].main <==> r.main || i == out.main)
  {
    var rest := s.regions[..index] + s.regions[index + 1..];
    assert forall i :: 0 <= i < |rest| ==> rest[i] == s.regions[if i < index then i else i + 1];
  }

  /** Removing the first of three regions while the second is the main one leaves two main
      regions. */
  lemma RemoveBeforeMain()
    ensures exists s: Sel, index: nat ::
              && index < |s.regions| && WellFormed(s)
              && |Removed(s, index).regions| == 2
              && Removed(s, index).regions[0].main && Removed(s, index).regions[1].main
  {
    var s := Sel([At(0, 0), Region(2, 2, true), At(4, 4)], 1);
    assert WellFormed(s);
    assert s.regions[..0] + s.regions[0 + 1..] == [Region(2, 2, true), At(4, 4)];
    assert Removed(s, 0).regions == [Region(2, 2, true), Region(4, 4, true)];
  }

  lemma RemovedInBounds(s: Sel, index: nat, n: nat)
    requires WellFormed(s) && index < |s.regions| && InBounds(s.regions, n)
    ensures InBounds(Removed(s, index).regions, n)
  {
    if |s.regions| > 1 {
      RemovedAt(s, index);
    }
  }

  /** Keeping one region, or selecting everything, leaves one main region in bounds. */
  lemma RetainedForm(s: Sel, index: nat, n: nat)
    requires WellFormed(s) && index < |s.regions| && InBounds(s.regions, n)
    ensures var r := Retained(s, index);
            && WellFormed(r) && InBounds(r.regions, n)
            && |r.regions| == 1 && r.regions[0].caret == s.regions[index].caret && r.regions[0].tail == s.regions[index].tail
            && forall p :: Covers(r.regions, p) <==> s.regions[index].Holds(p)
  {
    var r := Retained(s, index).regions;
    assert forall p :: r[0].Holds(p) <==> s.regions[index].Holds(p);
  }

  lemma AllSelectedForm(size: nat)
    ensures var r := AllSelected(size);
            && WellFormed(r) && InBounds(r.regions, size) && |r.regions| == 1 && r.regions[0].Forward()
            && (size > 0 ==> forall p :: Covers(r.regions, p) <==> 0 <= p < size)
  {
    if size > 0 {
      var r := AllSelected(size).regions;
      assert forall p :: 0 <= p < size <==> r[0].Holds(p);
    }
  }

  lemma MainMovedForm(s: Sel, main: nat)
    requires WellFormed(s) && main < |s.regions|
    ensures WellFormed(MainMoved(s, main)) && MainMoved(s, main).main == main && |MainMoved(s, main).regions| == |s.regions|
    ensures forall i :: 0 <= i < |s.regions| ==>
              MainMoved(s, main).regions[i].caret == s.regions[i].caret && MainMoved(s, main).regions[i].tail == s.regions[i].tail
    ensures forall n :: InBounds(s.regions, n) ==> InBounds(MainMoved(s, main).regions, n)
    ensures MainMoved(MainMoved(s, main), s.main) == s
  {
    var out := MainMoved(s, main);
    assert forall i :: 0 <= i < |s.regions| ==>
      out.regions[i].caret == s.regions[i].caret && out.regions[i].tail == s.regions[i].tail;
    assert MainMoved(out, s.main).regions == s.regions;
  }

  /** Counting around leaves out whole rounds only. */
  lemma {:induction false} AroundIs(i: int, n: nat)
    requires n > 0
    ensures exists rounds: int :: i == rounds * n + Around(i, n)
  {
    assert i == (i / n) * n + Around(i, n);
  }

  /** Going on to a later main region and back by the same count changes nothing. */
  lemma PrevUndoesNext(s: Sel, count: nat)
    requires WellFormed(s)
    ensures var n := |s.regions|;
            var next := (s.main + count) % n;
            MainMoved(MainMoved(s, next), (next - count) % n) == s
  {
    var n := |s.regions|;
    var x := s.main + count;
    var next := x % n;
    assert x == n * (x / n) + next;
    assert next - count == n * (-(x / n)) + s.main;
    ModUnique(next - count, -(x / n), s.main, n);
    MainMovedForm(s, next);
  }
}
