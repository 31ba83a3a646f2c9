/** A produced region that the next one swallows may as well be left out. */
module Absorption {
  import opened Prelude
  import opened Region
  import opened Selections

  lemma PushOne(out: seq<Region>, r: Region)
    ensures PushAll(out, [r]) == Push(out, r)
    ensures Push(out, r).Ok? ==>
              var out' := Push(out, r).value;
              && out' != [] && out'[|out'| - 1].Hi() >= r.Hi()
              && |out'| == if out != [] && out[|out| - 1].Overlaps(r) then |out| else |out| + 1
  {
    assert [r][1..] == [];
    match Push(out, r)
    case Ok(out') => assert PushAll(out', []) == Ok(out');
    case Panic =>
  }

  /** Both are read backward from the same caret, and the second reaches as far as the first. */
  predicate Swallowed(a: Region, b: Region) {
    !a.main && !b.main && a.caret == b.caret <= a.tail <= b.tail
  }

  function Without(rs: seq<Region>, k: nat): seq<Region>
    requires k < |rs|
  {
    rs[..k] + rs[k + 1..]
  }

  /** The last region, if there is one, starts no later than r. */
  predicate StartsBy(out: seq<Region>, r: Region) {
    out == [] || out[|out| - 1].Lo() <= r.Lo()
  }

  /** What pushing r does, flagged if r is the main region. */
  function PushFlagged(out: seq<Region>, r: Region, flag: bool): Outcome<seq<Region>> {
    match Push(out, r)
    case Panic => Panic
    case Ok(out') => if flag && out' != [] then Ok(FlagLast(out')) else Ok(out')
  }

  lemma PushStart(out: seq<Region>, r: Region, flag: bool)
    requires StartsBy(out, r)
    ensures PushFlagged(out, r, flag).Ok? ==> StartsBy(PushFlagged(out, r, flag).value, r)
  {
  }

  function FlagIf(r: Region, flag: bool): Region {
    if flag then r.(main := true) else r
  }

  lemma MergeSwallowed(o: Region, a: Region, b: Region, flagA: bool)
    requires o.Lo() <= a.Lo() && o.Overlaps(a) && Swallowed(a, b)
    ensures match o.Merge(a)
            case Panic => o.Merge(b).Panic?
            case Ok(m) =>
              && FlagIf(m, flagA).Overlaps(b)
              && FlagIf(m, flagA).Merge(b).Panic? == o.Merge(b).Panic?
              && (o.Merge(b).Ok? ==> FlagIf(m, flagA).Merge(b).value == FlagIf(o.Merge(b).value, flagA))
  {
  }

  /** Pushing onto a known last region. */
  lemma PushOnto(front: seq<Region>, o: Region, r: Region, flag: bool)
    ensures PushFlagged(front + [o], r, flag)
         == if !o.Overlaps(r) then Ok(front + [o] + [FlagIf(r, flag)])
            else match o.Merge(r)
              case Panic => Panic
              case Ok(m) => Ok(front + [FlagIf(m, flag)])
  {
    assert (front + [o])[..|front|] == front;
    assert forall x: Region :: (front + [x])[..|front|] == front;
    assert forall x: Region :: (front + [o] + [x])[..|front| + 1] == front + [o];
  }

  lemma PushFirst(r: Region, flag: bool)
    ensures PushFlagged([], r, flag) == Ok([FlagIf(r, flag)])
  {
    assert [] + [r] == [r] && [r][..0] == [];
    assert FlagLast([r]) == [r.(main := true)];
  }

  /** What pushing a, then b, and pushing b alone give. */
  ghost predicate SamePush(out: seq<Region>, a: Region, b: Region, flagA: bool, flagB: bool) {
    match PushFlagged(out, a, flagA)
    case Panic => PushFlagged(out, b, flagA || flagB).Panic?
    case Ok(out') =>
      && PushFlagged(out', b, flagB) == PushFlagged(out, b, flagA || flagB)
      && (PushFlagged(out', b, flagB).Ok? ==> |PushFlagged(out', b, flagB).value| == |out'|)
  }

  lemma {:induction false} PushSwallowed(out: seq<Region>, a: Region, b: Region, flagA: bool, flagB: bool)
    requires StartsBy(out, a) && Swallowed(a, b)
    ensures SamePush(out, a, b, flagA, flagB)
  {
    assert FlagIf(a, flagA).Merge(b) == Ok(FlagIf(b, flagA));
    if out == [] {
      PushFirst(a, flagA);
      PushFirst(b, flagA || flagB);
      PushOnto([], FlagIf(a, flagA), b, flagB);
      assert [] + [FlagIf(a, flagA)] == [FlagIf(a, flagA)];
    } else {
      var front, o := out[..|out| - 1], out[|out| - 1];
      assert out == front + [o];
      PushOnto(front, o, a, flagA);
      PushOnto(front, o, b, flagA || flagB);
      if !o.Overlaps(a) {
        PushOnto(out, FlagIf(a, flagA), b, flagB);
      } else {
        MergeSwallowed(o, a, b, flagA);
        if o.Merge(a).Ok? {
          PushOnto(front, FlagIf(o.Merge(a).value, flagA), b, flagB);
        }
      }
    }
  }

  /** One step of mapping regions one to one. */
  lemma {:induction false} MapStep(rs: seq<Region>, main: nat, j: nat, out: seq<Region>, newMain: nat)
    requires j < |rs|
    ensures MapFrom(Singles(rs), main, j, out, newMain)
         == match PushFlagged(out, rs[j], j == main)
            case Panic => Panic
            case Ok(out') => MapFrom(Singles(rs), main, j + 1, out', if j == main then |out'| - 1 else newMain)
  {
    PushOne(out, rs[j]);
  }

  /** Where the main region is once region k is left out; the next one stands in for it. */
  function MainWithout(main: nat, k: nat): nat {
    if main <= k then main else main - 1
  }

  lemma {:induction false} MapAfter(rs: seq<Region>, main: nat, k: nat, j: nat, out: seq<Region>, newMain: nat)
    requires k + 1 < j < |rs| && main < |rs|
    ensures MapFrom(Singles(rs), main, j, out, newMain)
         == MapFrom(Singles(Without(rs, k)), MainWithout(main, k), j - 1, out, newMain)
    decreases |rs| - j
  {
    assert Without(rs, k)[j - 1] == rs[j];
    MapStep(rs, main, j, out, newMain);
    MapStep(Without(rs, k), MainWithout(main, k), j - 1, out, newMain);
    match PushFlagged(out, rs[j], j == main)
    case Panic =>
    case Ok(out') =>
      if j + 1 < |rs| {
        MapAfter(rs, main, k, j + 1, out', if j == main then |out'| - 1 else newMain);
      }
  }

  lemma {:induction false} MapFromWithout(rs: seq<Region>, main: nat, k: nat, j: nat, out: seq<Region>, newMain: nat)
    requires j <= k && k + 1 < |rs| && main < |rs|
    requires StartsAscend(rs) && Swallowed(rs[k], rs[k + 1]) && StartsBy(out, rs[j])
    ensures MapFrom(Singles(rs), main, j, out, newMain)
         == MapFrom(Singles(Without(rs, k)), MainWithout(main, k), j, out, newMain)
    decreases k - j
  {
    if j == k {
      MapSwallowed(rs, main, k, out, newMain);
    } else {
      MapStep(rs, main, j, out, newMain);
      MapStep(Without(rs, k), MainWithout(main, k), j, out, newMain);
      PushStart(out, rs[j], j == main);
      assert Without(rs, k)[j] == rs[j];
      match PushFlagged(out, rs[j], j == main)
      case Panic =>
      case Ok(out') =>
        assert rs[j].Lo() <= rs[j + 1].Lo();
        MapFromWithout(rs, main, k, j + 1, out', if j == main then |out'| - 1 else newMain);
    }
  }

  lemma {:induction false} MapSwallowed(rs: seq<Region>, main: nat, k: nat, out: seq<Region>, newMain: nat)
    requires k + 1 < |rs| && main < |rs| && Swallowed(rs[k], rs[k + 1]) && StartsBy(out, rs[k])
    ensures MapFrom(Singles(rs), main, k, out, newMain)
         == MapFrom(Singles(Without(rs, k)), MainWithout(main, k), k, out, newMain)
  {
    MapStep(rs, main, k, out, newMain);
    MapStep(Without(rs, k), MainWithout(main, k), k, out, newMain);
    assert Without(rs, k)[k] == rs[k + 1];
    PushSwallowed(out, rs[k], rs[k + 1], k == main, k + 1 == main);
    match PushFlagged(out, rs[k], k == main)
    case Panic =>
    case Ok(out') => SwallowStep(rs, main, k, out', if k == main then |out'| - 1 else newMain);
  }

  lemma {:induction false} SwallowStep(rs: seq<Region>, main: nat, k: nat, out: seq<Region>, newMain: nat)
    requires k + 1 < |rs| && main < |rs|
    ensures MapFrom(Singles(rs), main, k + 1, out, newMain)
         == match PushFlagged(out, rs[k + 1], k + 1 == main)
            case Panic => Panic
            case Ok(out') =>
              MapFrom(Singles(Without(rs, k)), MainWithout(main, k), k + 1, out', if k + 1 == main then |out'| - 1 else newMain)
  {
    MapStep(rs, main, k + 1, out, newMain);
    match PushFlagged(out, rs[k + 1], k + 1 == main)
    case Panic =>
    case Ok(out') =>
      if k + 2 < |rs| {
        MapAfter(rs, main, k, k + 2, out', if k + 1 == main then |out'| - 1 else newMain);
      }
  }

  /** The next region stands in for one that it swallows. */
  lemma {:induction false} SwallowedLeftOut(rs: seq<Region>, main: nat, k: nat)
    requires k + 1 < |rs| && main < |rs| && StartsAscend(rs) && Swallowed(rs[k], rs[k + 1])
    ensures MapSelections(Singles(rs), main) == MapSelections(Singles(Without(rs, k)), MainWithout(main, k))
  {
    MapFromWithout(rs, main, k, 0, [], 0);
  }

  // ----- cursors

  predicate IsCursor(r: Region) {
    r.caret == r.tail
  }

  ghost predicate AllCursors(rs: seq<Region>) {
    forall i :: 0 <= i < |rs| ==> IsCursor(rs[i])
  }

  lemma PushAlong(out: seq<Region>, r: Region, flag: bool, backward: bool)
    requires SameWay(out, backward) && Along(r, backward)
    ensures PushFlagged(out, r, flag).Ok? ==> SameWay(PushFlagged(out, r, flag).value, backward)
  {
  }

  /** Regions that point one way are only ever merged into regions that do. */
  lemma {:induction false} WayStays(rs: seq<Region>, main: nat, j: nat, out: seq<Region>, newMain: nat, backward: bool)
    requires SameWay(rs, backward) && SameWay(out, backward) && j <= |rs|
    ensures var r := MapFrom(Singles(rs), main, j, out, newMain);
            r.Ok? ==> SameWay(r.value.regions, backward)
    decreases |rs| - j
  {
    if j < |rs| {
      MapStep(rs, main, j, out, newMain);
      PushAlong(out, rs[j], j == main, backward);
      match PushFlagged(out, rs[j], j == main)
      case Panic =>
      case Ok(out') => WayStays(rs, main, j + 1, out', if j == main then |out'| - 1 else newMain, backward);
    }
  }

  lemma CursorsBothWays(rs: seq<Region>)
    ensures AllCursors(rs) <==> SameWay(rs, false) && SameWay(rs, true)
  {
    if SameWay(rs, false) && SameWay(rs, true) {
      forall i | 0 <= i < |rs| ensures IsCursor(rs[i]) {
        assert Along(rs[i], false) && Along(rs[i], true);
      }
    }
  }

  /** Cursors are only ever merged into cursors. */
  lemma {:induction false} CursorsStay(rs: seq<Region>, main: nat)
    requires AllCursors(rs)
    ensures var r := MapSelections(Singles(rs), main);
            r.Ok? ==> AllCursors(r.value.regions)
  {
    CursorsBothWays(rs);
    WayStays(rs, main, 0, [], 0, false);
    WayStays(rs, main, 0, [], 0, true);
    if MapSelections(Singles(rs), main).Ok? {
      CursorsBothWays(MapSelections(Singles(rs), main).value.regions);
    }
  }
}
