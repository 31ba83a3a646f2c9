/** Typing a byte as two hex digits in overwrite mode. */
module OverwriteTyping {
  import opened Prelude
  import opened Bits
  import opened Characters
  import opened Delta
  import opened Builder
  import opened Region
  import opened Selections
  import opened SelectionLaws
  import opened Transport
  import opened Operations
  import opened ChangeLaws
  import opened HexTyping
  import opened Timeline
  import opened Modes
  import opened ModeLaws
  import opened EditingLaws
  import opened ClashLaws
  import opened OverwriteClash
  import opened Absorption

  // ----- carets next to each other

  /** The next caret stands right after this one. */
  predicate Adjoins(rs: seq<Region>, k: nat) {
    k + 1 < |rs| && rs[k + 1].caret == rs[k].caret + 1
  }

  /** Unless the first digit panics, only a cursor has another caret right after it. */
  lemma {:induction false} AdjoinForm(rs: seq<Region>, k: nat)
    requires Sorted(rs) && Adjoins(rs, k) && !HalfTrips(rs)
    ensures IsCursor(rs[k]) && rs[k + 1].Backward() && BackMeets(rs, k + 1)
  {
    assert rs[k].Hi() < rs[k + 1].Lo();
    assert !HalfMeets(rs, k + 1);
  }

  /** A cursor with no caret right after it does not touch the next region. */
  lemma {:induction false} LoneCursor(rs: seq<Region>, k: nat)
    requires Sorted(rs) && k + 1 < |rs| && IsCursor(rs[k]) && !Adjoins(rs, k) && !HalfTrips(rs)
    ensures rs[k].caret + 1 < rs[k + 1].Lo()
  {
    assert rs[k].Hi() < rs[k + 1].Lo();
    assert !HalfMeets(rs, k + 1);
  }

  /** The last of the carets that stand one after the other from caret k on. */
  function ChainEnd(rs: seq<Region>, k: nat): nat
    requires k < |rs|
    decreases |rs| - k
  {
    if Adjoins(rs, k) then ChainEnd(rs, k + 1) else rs[k].caret
  }

  lemma {:induction false} GoesToEnd(es: seq<Edit>, rs: seq<Region>, n: nat, k: nat)
    requires Sorted(rs) && InBounds(rs, n) && ReplacesAtCarets(es, rs, n) && k < |rs| && !HalfTrips(rs)
    ensures Goes(es, rs, n, k) == ChainEnd(rs, k) + 1
    decreases |rs| - k
  {
    GoesOn(es, rs, n, k);
    if Adjoins(rs, k) {
      AdjoinForm(rs, k);
      GoesToEnd(es, rs, n, k + 1);
    }
  }

  /** The regions after the first digit, before any are merged. */
  function HalfSpots(rs: seq<Region>): (out: seq<Region>)
    ensures |out| == |rs|
    ensures forall k :: 0 <= k < |rs| ==>
              out[k] == At(ChainEnd(rs, k), if IsCursor(rs[k]) then ChainEnd(rs, k) + 1 else rs[k].tail)
  {
    seq(|rs|, k requires 0 <= k < |rs| => At(ChainEnd(rs, k), if IsCursor(rs[k]) then ChainEnd(rs, k) + 1 else rs[k].tail))
  }

  /** The regions after the bytes under the carets were changed in one step. */
  function WholeSpots(rs: seq<Region>): (out: seq<Region>)
    ensures |out| == |rs|
    ensures forall k :: 0 <= k < |rs| ==>
              out[k] == At(ChainEnd(rs, k) + 1, if IsCursor(rs[k]) then ChainEnd(rs, k) + 1 else rs[k].tail)
  {
    seq(|rs|, k requires 0 <= k < |rs| => At(ChainEnd(rs, k) + 1, if IsCursor(rs[k]) then ChainEnd(rs, k) + 1 else rs[k].tail))
  }

  lemma {:induction false} HalfCarried(es: seq<Edit>, rs: seq<Region>, n: nat)
    requires Sorted(rs) && InBounds(rs, n) && ReplacesAtCarets(es, rs, n) && !HalfTrips(rs)
    ensures CarryRegions(Build(es, n), n, rs, -1, 0) == HalfSpots(rs)
  {
    var out := CarryRegions(Build(es, n), n, rs, -1, 0);
    forall k | 0 <= k < |rs| ensures out[k] == HalfSpots(rs)[k] {
      HalfRegion(es, rs, n, k);
      GoesToEnd(es, rs, n, k);
    }
  }

  lemma {:induction false} WholeRegion(es: seq<Edit>, rs: seq<Region>, n: nat, k: nat)
    requires Sorted(rs) && InBounds(rs, n) && ReplacesAtCarets(es, rs, n) && k < |rs|
    ensures var out, to := CarryRegions(Build(es, n), n, rs, 0, 0)[k], Goes(es, rs, n, k);
            && to >= 0 && out.caret == to
            && out.tail == if IsCursor(rs[k]) then to else rs[k].tail
  {
    var d := Build(es, n);
    BuildApplies(es, Fill(0, n));
    CarryPlain(d, rs[k].caret);
    CarryPlain(d, rs[k].tail);
    BuildTransform(es, 0, n, rs[k].caret);
    BuildTransform(es, 0, n, rs[k].tail);
    if !IsCursor(rs[k]) {
      OwnCaret(rs, k, rs[k].tail);
      FixedShift(es, 0, n, rs[k].tail);
    }
  }

  lemma {:induction false} WholeCarried(es: seq<Edit>, rs: seq<Region>, n: nat)
    requires Sorted(rs) && InBounds(rs, n) && ReplacesAtCarets(es, rs, n) && !HalfTrips(rs)
    ensures CarryRegions(Build(es, n), n, rs, 0, 0) == WholeSpots(rs)
  {
    var out := CarryRegions(Build(es, n), n, rs, 0, 0);
    forall k | 0 <= k < |rs| ensures out[k] == WholeSpots(rs)[k] {
      WholeRegion(es, rs, n, k);
      GoesToEnd(es, rs, n, k);
    }
  }

  // ----- the regions that stay

  /** The elements of `out` that belong to regions with no caret right after theirs. */
  function Kept(rs: seq<Region>, out: seq<Region>): seq<Region>
    requires |out| == |rs|
  {
    if rs == [] then []
    else if Adjoins(rs, 0) then Kept(rs[1..], out[1..])
    else [out[0]] + Kept(rs[1..], out[1..])
  }

  /** How many of the regions before the k-th are kept. */
  function KeptBefore(rs: seq<Region>, k: nat): nat
    requires k <= |rs|
  {
    if k == 0 then 0 else (if Adjoins(rs, 0) then 0 else 1) + KeptBefore(rs[1..], k - 1)
  }

  /** The index of the i-th region that is kept. */
  function Origin(rs: seq<Region>, i: nat): nat {
    if rs == [] then i
    else if Adjoins(rs, 0) then 1 + Origin(rs[1..], i)
    else if i == 0 then 0
    else 1 + Origin(rs[1..], i - 1)
  }

  lemma AdjoinsTail(rs: seq<Region>, k: nat)
    requires rs != []
    ensures Adjoins(rs[1..], k) <==> Adjoins(rs, k + 1)
  {
  }

  lemma {:induction false} KeptAt(rs: seq<Region>, out: seq<Region>, i: nat)
    requires |out| == |rs| && i < |Kept(rs, out)|
    ensures var k := Origin(rs, i);
            k < |rs| && !Adjoins(rs, k) && Kept(rs, out)[i] == out[k]
  {
    if Adjoins(rs, 0) {
      KeptAt(rs[1..], out[1..], i);
      AdjoinsTail(rs, Origin(rs[1..], i));
    } else if i > 0 {
      KeptAt(rs[1..], out[1..], i - 1);
      AdjoinsTail(rs, Origin(rs[1..], i - 1));
    }
  }

  lemma {:induction false} OriginAscends(rs: seq<Region>, i: nat, j: nat)
    requires i < j
    ensures Origin(rs, i) < Origin(rs, j)
  {
    if rs != [] {
      if Adjoins(rs, 0) {
        OriginAscends(rs[1..], i, j);
      } else if i > 0 {
        OriginAscends(rs[1..], i - 1, j - 1);
      }
    }
  }

  lemma {:induction false} KeptIndex(rs: seq<Region>, out: seq<Region>, k: nat)
    requires |out| == |rs| && k < |rs| && !Adjoins(rs, k)
    ensures KeptBefore(rs, k) < |Kept(rs, out)| && Origin(rs, KeptBefore(rs, k)) == k
  {
    if k > 0 {
      AdjoinsTail(rs, k - 1);
      KeptIndex(rs[1..], out[1..], k - 1);
    }
  }

  lemma {:induction false} KeptLength(rs: seq<Region>, a: seq<Region>, b: seq<Region>, k: nat)
    requires |a| == |b| == |rs| && k < |rs|
    ensures |Kept(rs, a)| == |Kept(rs, b)| && KeptBefore(rs, k) < |Kept(rs, a)|
    decreases |rs|
  {
    if |rs| > 1 {
      KeptLength(rs[1..], a[1..], b[1..], if k > 0 then k - 1 else 0);
    }
  }

  // ----- merging takes out the others

  /** Every region with a caret right after it is swallowed by the next one. */
  ghost predicate SwallowsChains(rs: seq<Region>, out: seq<Region>) {
    |out| == |rs| && forall k: nat :: k < |rs| && Adjoins(rs, k) ==> Swallowed(out[k], out[k + 1])
  }

  lemma {:induction false} SwallowsTail(rs: seq<Region>, out: seq<Region>)
    requires rs != [] && SwallowsChains(rs, out)
    ensures SwallowsChains(rs[1..], out[1..])
  {
    forall k: nat | k < |rs| - 1 && Adjoins(rs[1..], k) ensures Swallowed(out[1..][k], out[1..][k + 1]) {
      AdjoinsTail(rs, k);
      assert Adjoins(rs, k + 1);
    }
  }

  /** Where the main region is among `front` regions and those kept of `rs`. */
  function KeptMain(front: nat, rs: seq<Region>, main: nat): nat
    requires main <= front + |rs|
  {
    if main < front then main else front + KeptBefore(rs, main - front)
  }

  lemma {:induction false} KeptMaps(front: seq<Region>, rs: seq<Region>, out: seq<Region>, main: nat)
    requires |out| == |rs| && StartsAscend(front + out) && SwallowsChains(rs, out) && main < |front| + |out|
    ensures MapSelections(Singles(front + out), main)
         == MapSelections(Singles(front + Kept(rs, out)), KeptMain(|front|, rs, main))
    decreases |rs|
  {
    if rs != [] {
      SwallowsTail(rs, out);
      if Adjoins(rs, 0) {
        LeaveOne(front, rs, out, main);
        KeptMaps(front, rs[1..], out[1..], MainWithout(main, |front|));
      } else {
        KeepOne(front, rs, out, main);
        KeptMaps(front + [out[0]], rs[1..], out[1..], main);
      }
    }
  }

  lemma {:induction false} LeaveOne(front: seq<Region>, rs: seq<Region>, out: seq<Region>, main: nat)
    requires |out| == |rs| && StartsAscend(front + out) && SwallowsChains(rs, out) && main < |front| + |out| && Adjoins(rs, 0)
    ensures MapSelections(Singles(front + out), main)
         == MapSelections(Singles(front + out[1..]), MainWithout(main, |front|))
    ensures StartsAscend(front + out[1..]) && Kept(rs, out) == Kept(rs[1..], out[1..])
    ensures KeptMain(|front|, rs, main) == KeptMain(|front|, rs[1..], MainWithout(main, |front|))
  {
    var all := front + out;
    assert all[|front|] == out[0] && all[|front| + 1] == out[1];
    SwallowedLeftOut(all, main, |front|);
    assert Without(all, |front|) == front + out[1..];
    LeftOutAscends(all, |front|);
  }

  lemma {:induction false} KeepOne(front: seq<Region>, rs: seq<Region>, out: seq<Region>, main: nat)
    requires |out| == |rs| && rs != [] && main < |front| + |out| && !Adjoins(rs, 0)
    ensures front + out == front + [out[0]] + out[1..]
    ensures front + Kept(rs, out) == front + [out[0]] + Kept(rs[1..], out[1..])
    ensures KeptMain(|front|, rs, main) == KeptMain(|front| + 1, rs[1..], main)
  {
    assert out == [out[0]] + out[1..];
    Together(front, [out[0]], out[1..]);
    Together(front, [out[0]], Kept(rs[1..], out[1..]));
  }

  lemma Together(a: seq<Region>, b: seq<Region>, c: seq<Region>)
    ensures a + (b + c) == a + b + c
  {
  }

  lemma LeftOutAscends(rs: seq<Region>, k: nat)
    requires StartsAscend(rs) && k < |rs|
    ensures StartsAscend(Without(rs, k))
  {
  }

  lemma {:induction false} MapsToKept(rs: seq<Region>, out: seq<Region>, main: nat)
    requires |out| == |rs| && StartsAscend(out) && SwallowsChains(rs, out) && main < |out|
    ensures MapSelections(Singles(out), main) == MapSelections(Singles(Kept(rs, out)), KeptBefore(rs, main))
  {
    assert [] + out == out && [] + Kept(rs, out) == Kept(rs, out);
    KeptMaps([], rs, out, main);
  }

  // ----- the merged regions

  lemma {:induction false} ChainEndFrom(rs: seq<Region>, k: nat)
    requires k < |rs|
    ensures ChainEnd(rs, k) >= rs[k].caret
    decreases |rs| - k
  {
    if Adjoins(rs, k) {
      ChainEndFrom(rs, k + 1);
    }
  }

  /** Only cursors go further than to their own caret. */
  lemma {:induction false} OwnEnd(rs: seq<Region>, k: nat)
    requires Sorted(rs) && k < |rs| && !HalfTrips(rs)
    ensures !IsCursor(rs[k]) ==> !Adjoins(rs, k) && ChainEnd(rs, k) == rs[k].caret
  {
    if Adjoins(rs, k) {
      AdjoinForm(rs, k);
    }
  }

  lemma {:induction false} SpotsSwallow(rs: seq<Region>)
    requires Sorted(rs) && !HalfTrips(rs)
    ensures SwallowsChains(rs, HalfSpots(rs)) && SwallowsChains(rs, WholeSpots(rs))
  {
    forall k: nat | k < |rs| && Adjoins(rs, k)
      ensures Swallowed(HalfSpots(rs)[k], HalfSpots(rs)[k + 1]) && Swallowed(WholeSpots(rs)[k], WholeSpots(rs)[k + 1]) {
      AdjoinForm(rs, k);
      OwnEnd(rs, k + 1);
    }
  }

  lemma {:induction false} SpotsStep(rs: seq<Region>, k: nat)
    requires Sorted(rs) && !HalfTrips(rs) && k + 1 < |rs|
    ensures HalfSpots(rs)[k].Lo() <= HalfSpots(rs)[k + 1].Lo()
    ensures WholeSpots(rs)[k].Lo() <= WholeSpots(rs)[k + 1].Lo()
  {
    assert rs[k].Hi() < rs[k + 1].Lo();
    ChainEndFrom(rs, k + 1);
    OwnEnd(rs, k);
    OwnEnd(rs, k + 1);
    if Adjoins(rs, k) {
      AdjoinForm(rs, k);
    }
  }

  lemma {:induction false} StepsAscend(rs: seq<Region>)
    requires forall k: nat :: k + 1 < |rs| ==> rs[k].Lo() <= rs[k + 1].Lo()
    ensures StartsAscend(rs)
  {
    forall i: nat, j: nat | i < j < |rs| ensures rs[i].Lo() <= rs[j].Lo() {
      StepsReach(rs, i, j);
    }
  }

  lemma {:induction false} StepsReach(rs: seq<Region>, i: nat, j: nat)
    requires i <= j < |rs| && forall k: nat :: k + 1 < |rs| ==> rs[k].Lo() <= rs[k + 1].Lo()
    ensures rs[i].Lo() <= rs[j].Lo()
    decreases j - i
  {
    if i < j {
      StepsReach(rs, i, j - 1);
      assert rs[j - 1].Lo() <= rs[j - 1 + 1].Lo();
    }
  }

  lemma {:induction false} SpotsAscend(rs: seq<Region>)
    requires Sorted(rs) && !HalfTrips(rs)
    ensures StartsAscend(HalfSpots(rs)) && StartsAscend(WholeSpots(rs))
  {
    forall k: nat | k + 1 < |rs|
      ensures HalfSpots(rs)[k].Lo() <= HalfSpots(rs)[k + 1].Lo()
      ensures WholeSpots(rs)[k].Lo() <= WholeSpots(rs)[k + 1].Lo() {
      SpotsStep(rs, k);
    }
    StepsAscend(HalfSpots(rs));
    StepsAscend(WholeSpots(rs));
  }

  /** The regions after the first digit. */
  function Halved(rs: seq<Region>): seq<Region> {
    Kept(rs, HalfSpots(rs))
  }

  /** A region whose caret has been drawn back onto the half-typed byte. */
  function HalfAt(r: Region): Region {
    At(r.caret, if IsCursor(r) then r.caret + 1 else r.tail)
  }

  lemma {:induction false} HalvedAt(rs: seq<Region>, i: nat)
    requires i < |Halved(rs)|
    ensures var k := Origin(rs, i);
            k < |rs| && !Adjoins(rs, k) && Halved(rs)[i] == HalfAt(rs[k])
  {
    KeptAt(rs, HalfSpots(rs), i);
  }

  lemma {:induction false} KeptPair(rs: seq<Region>, k: nat, m: nat)
    requires Sorted(rs) && !HalfTrips(rs) && k < m < |rs| && !Adjoins(rs, k)
    ensures HalfAt(rs[k]).Hi() < HalfAt(rs[m]).Lo() && rs[k].caret + 1 < rs[m].caret
  {
    assert rs[k].Hi() < rs[k + 1].Lo() <= rs[m].Lo() by {
      assert k + 1 < m ==> rs[k + 1].Hi() < rs[m].Lo();
    }
    if IsCursor(rs[k]) {
      LoneCursor(rs, k);
    }
    if k + 1 < m {
      assert rs[k + 1].Hi() < rs[m].Lo();
    }
  }

  lemma {:induction false} HalvedPair(rs: seq<Region>, i: nat, j: nat)
    requires Sorted(rs) && !HalfTrips(rs) && i < j < |Halved(rs)|
    ensures Halved(rs)[i].Hi() < Halved(rs)[j].Lo() && Halved(rs)[i].caret + 1 < Halved(rs)[j].caret
  {
    HalvedAt(rs, i);
    HalvedAt(rs, j);
    OriginAscends(rs, i, j);
    KeptPair(rs, Origin(rs, i), Origin(rs, j));
  }

  lemma {:induction false} HalvedForm(rs: seq<Region>, n: nat, m: nat)
    requires Sorted(rs) && InBounds(rs, n) && !HalfTrips(rs) && m == n + (if CaretAt(rs, n) then 1 else 0)
    ensures Sorted(Halved(rs)) && InBounds(Halved(rs), m)
    ensures forall i, j :: 0 <= i < j < |Halved(rs)| ==> Halved(rs)[i].caret + 1 < Halved(rs)[j].caret
    ensures forall i :: 0 <= i < |Halved(rs)| ==> Halved(rs)[i].caret < m
  {
    forall i, j | 0 <= i < j < |Halved(rs)|
      ensures Halved(rs)[i].Hi() < Halved(rs)[j].Lo() && Halved(rs)[i].caret + 1 < Halved(rs)[j].caret {
      HalvedPair(rs, i, j);
    }
    forall i | 0 <= i < |Halved(rs)| ensures Halved(rs)[i].caret < m && Halved(rs)[i].Hi() <= m {
      HalvedAt(rs, i);
      var k := Origin(rs, i);
      assert rs[k].caret == n ==> CaretAt(rs, n);
    }
  }

  /** Its carets are those with no caret right after them. */
  lemma {:induction false} HalvedCarets(rs: seq<Region>, p: int)
    requires Sorted(rs)
    ensures CaretAt(Halved(rs), p) <==> CaretAt(rs, p) && !CaretAt(rs, p + 1)
  {
    if CaretAt(Halved(rs), p) {
      CaretStays(rs, p);
    }
    if CaretAt(rs, p) && !CaretAt(rs, p + 1) {
      CaretFound(rs, p);
    }
  }

  lemma {:induction false} CaretStays(rs: seq<Region>, p: int)
    requires Sorted(rs) && CaretAt(Halved(rs), p)
    ensures CaretAt(rs, p) && !CaretAt(rs, p + 1)
  {
    var i :| 0 <= i < |Halved(rs)| && Halved(rs)[i].caret == p;
    HalvedAt(rs, i);
    var k := Origin(rs, i);
    assert rs[k].caret == p;
    LastOfChain(rs, k);
  }

  lemma {:induction false} CaretFound(rs: seq<Region>, p: int)
    requires Sorted(rs) && CaretAt(rs, p) && !CaretAt(rs, p + 1)
    ensures CaretAt(Halved(rs), p)
  {
    var k :| 0 <= k < |rs| && rs[k].caret == p;
    LastOfChain(rs, k);
    KeptIndex(rs, HalfSpots(rs), k);
    var i := KeptBefore(rs, k);
    HalvedAt(rs, i);
    assert Halved(rs)[i].caret == p;
  }

  lemma {:induction false} LastOfChain(rs: seq<Region>, k: nat)
    requires Sorted(rs) && k < |rs|
    ensures Adjoins(rs, k) <==> CaretAt(rs, rs[k].caret + 1)
  {
    if j :| 0 <= j < |rs| && rs[j].caret == rs[k].caret + 1 {
      if j < k {
        assert rs[j].Hi() < rs[k].Lo();
      } else if j > k + 1 {
        assert rs[k].Hi() < rs[k + 1].Lo() && rs[k + 1].Hi() < rs[j].Lo();
      }
    }
  }

  /** Regions at the places of those after the first digit. */
  ghost predicate StandHalved(hs: seq<Region>, rs: seq<Region>) {
    && |hs| == |Halved(rs)|
    && forall i :: 0 <= i < |hs| ==> hs[i].caret == Halved(rs)[i].caret && hs[i].tail == Halved(rs)[i].tail
  }

  lemma {:induction false} StandForm(rs: seq<Region>, n: nat, m: nat, hs: seq<Region>)
    requires Sorted(rs) && InBounds(rs, n) && !HalfTrips(rs) && m == n + (if CaretAt(rs, n) then 1 else 0)
    requires StandHalved(hs, rs)
    ensures Sorted(hs) && InBounds(hs, m)
    ensures forall i, j :: 0 <= i < j < |hs| ==> hs[i].caret + 1 < hs[j].caret
    ensures forall i :: 0 <= i < |hs| ==> hs[i].caret < m
  {
    HalvedForm(rs, n, m);
    var out := Halved(rs);
    forall i | 0 <= i < |hs| ensures hs[i].Lo() == out[i].Lo() && hs[i].Hi() == out[i].Hi() {
    }
  }

  lemma {:induction false} ChangedSpot(rs: seq<Region>, m: nat, hs: seq<Region>, whole: Byte, i: nat)
    requires Sorted(hs) && InBounds(hs, m) && StandHalved(hs, rs) && i < |hs| && i < |Kept(rs, WholeSpots(rs))|
    requires forall i, j :: 0 <= i < j < |hs| ==> hs[i].caret + 1 < hs[j].caret
    requires forall i :: 0 <= i < |hs| ==> hs[i].caret < m
    ensures CarryRegion(Build(ChangeEdits(hs, [whole]), m), m, hs[i], 0, 0) == Kept(rs, WholeSpots(rs))[i]
  {
    HalvedAt(rs, i);
    KeptAt(rs, WholeSpots(rs), i);
    TailsElsewhere(hs, i);
    ChangedEnds(hs, whole, m, i);
  }

  /** The second digit takes them where one change takes the regions at once. */
  lemma {:induction false} HalvedChanged(rs: seq<Region>, n: nat, m: nat, hs: seq<Region>, whole: Byte)
    requires Sorted(rs) && InBounds(rs, n) && !HalfTrips(rs) && m == n + (if CaretAt(rs, n) then 1 else 0)
    requires StandHalved(hs, rs)
    ensures CarryRegions(Build(ChangeEdits(hs, [whole]), m), m, hs, 0, 0) == Kept(rs, WholeSpots(rs))
  {
    StandForm(rs, n, m, hs);
    var out := CarryRegions(Build(ChangeEdits(hs, [whole]), m), m, hs, 0, 0);
    assert |hs| == |Kept(rs, WholeSpots(rs))| by {
      if rs != [] {
        KeptLength(rs, HalfSpots(rs), WholeSpots(rs), 0);
      }
    }
    forall i | 0 <= i < |hs| ensures out[i] == Kept(rs, WholeSpots(rs))[i] {
      ChangedSpot(rs, m, hs, whole, i);
    }
  }

  lemma TailsElsewhere(hs: seq<Region>, i: nat)
    requires Sorted(hs) && i < |hs| && hs[i].caret != hs[i].tail
    ensures forall j :: 0 <= j < |hs| ==> hs[j].caret != hs[i].tail
  {
    forall j | 0 <= j < |hs| ensures hs[j].caret != hs[i].tail {
      if j < i {
        assert hs[j].Hi() < hs[i].Lo();
      } else if j > i {
        assert hs[i].Hi() < hs[j].Lo();
      }
    }
  }

  // ----- bytes

  /** What two digits leave at offset p: under a caret with another one right after it only
      the upper half of the byte is new, because the two carets meet on the second byte. */
  function TypedByte(doc: Doc, rs: seq<Region>, top: Byte, whole: Byte, p: nat): Byte
    requires p < |doc| || CaretAt(rs, p)
  {
    if !CaretAt(rs, p) then doc[p] else if CaretAt(rs, p + 1) then HalfByte(doc, p, top) else whole
  }

  ghost predicate TypedOver(doc: Doc, rs: seq<Region>, top: Byte, whole: Byte, out: Doc) {
    && |out| == |doc| + (if CaretAt(rs, |doc|) then 1 else 0)
    && forall p: nat :: p < |out| ==> out[p] == TypedByte(doc, rs, top, whole, p)
  }

  /** Every byte under a caret with another caret right after it has the given lower digit. */
  ghost predicate LowDigitsFit(doc: Doc, rs: seq<Region>, low: Byte) {
    forall p: nat :: p < |doc| && CaretAt(rs, p) && CaretAt(rs, p + 1) ==> doc[p] & 0x0F == low
  }

  lemma {:induction false} ChangedOnce(doc: Doc, rs: seq<Region>, whole: Byte)
    requires Sorted(rs) && InBounds(rs, |doc|)
    ensures Ordered(ChangeEdits(rs, [whole]), 0, |doc|)
    ensures ChangedAtCarets(doc, rs, Fill(whole, |rs|), Splice(doc, ChangeEdits(rs, [whole]), 0))
    ensures ReplacesAtCarets(ChangeEdits(rs, [whole]), rs, |doc|)
  {
    ChangeOrdered(rs, [whole], |doc|);
    ChangeEditsAt(rs, [whole]);
    EditsAtCarets(ChangeEdits(rs, [whole]), rs, |doc|);
    OneForOneMeaning(doc, rs, ChangeEdits(rs, [whole]), Fill(whole, |rs|));
  }

  lemma {:induction false} HalvedOnce(doc: Doc, rs: seq<Region>, top: Byte)
    requires Sorted(rs) && InBounds(rs, |doc|)
    ensures Ordered(OverwriteHalfEdits(doc, rs, top), 0, |doc|)
    ensures ChangedAtCarets(doc, rs, Halves(doc, rs, top), Splice(doc, OverwriteHalfEdits(doc, rs, top), 0))
    ensures ReplacesAtCarets(OverwriteHalfEdits(doc, rs, top), rs, |doc|)
  {
    OverwriteHalfOrdered(doc, rs, top);
    OverwriteHalfEditsAt(doc, rs, top);
    EditsAtCarets(OverwriteHalfEdits(doc, rs, top), rs, |doc|);
    OneForOneMeaning(doc, rs, OverwriteHalfEdits(doc, rs, top), Halves(doc, rs, top));
  }

  lemma {:induction false} ByteAt(doc: Doc, rs: seq<Region>, bytes: Doc, out: Doc, p: nat, b: Byte)
    requires |bytes| == |rs| && ChangedAtCarets(doc, rs, bytes, out) && CaretAt(rs, p)
    requires forall i :: 0 <= i < |rs| && rs[i].caret == p ==> bytes[i] == b
    ensures p < |out| && out[p] == b
  {
    var i :| 0 <= i < |rs| && rs[i].caret == p;
  }

  lemma {:induction false} BytesTyped(doc: Doc, rs: seq<Region>, top: Byte, whole: Byte, first: Doc, hs: seq<Region>, second: Doc)
    requires ChangedAtCarets(doc, rs, Halves(doc, rs, top), first)
    requires ChangedAtCarets(first, hs, Fill(whole, |hs|), second) && !CaretAt(hs, |first|)
    requires forall p :: CaretAt(hs, p) <==> CaretAt(rs, p) && !CaretAt(rs, p + 1)
    ensures TypedOver(doc, rs, top, whole, second)
  {
    forall p: nat | p < |second| ensures second[p] == TypedByte(doc, rs, top, whole, p) {
      assert CaretAt(hs, p) <==> CaretAt(rs, p) && !CaretAt(rs, p + 1);
      if CaretAt(hs, p) {
        ByteAt(first, hs, Fill(whole, |hs|), second, p, whole);
      } else if CaretAt(rs, p) {
        ByteAt(doc, rs, Halves(doc, rs, top), first, p, HalfByte(doc, p, top));
        assert second[p] == first[p];
      } else {
        assert p < |doc| && first[p] == doc[p] && second[p] == first[p];
      }
    }
  }

  lemma DigitsJoin(was: Byte, h: Byte, l: Byte)
    requires h < 16 && l < 16
    ensures (was & 0x0F) | (h << 4) == (h << 4) | l <==> was & 0x0F == l
  {
  }

  lemma {:induction false} BytesAgree(doc: Doc, rs: seq<Region>, h: Byte, l: Byte, whole: Byte, typed: Doc, once: Doc)
    requires h < 16 && l < 16 && whole == (h << 4) | l && InBounds(rs, |doc|)
    requires TypedOver(doc, rs, h << 4, whole, typed)
    requires ChangedAtCarets(doc, rs, Fill(whole, |rs|), once)
    ensures typed == once <==> LowDigitsFit(doc, rs, l)
  {
    forall p: nat | p < |once| ensures once[p] == if CaretAt(rs, p) then whole else doc[p] {
      if CaretAt(rs, p) {
        ByteAt(doc, rs, Fill(whole, |rs|), once, p, whole);
      }
    }
    forall p: nat | p < |doc| && CaretAt(rs, p) && CaretAt(rs, p + 1)
      ensures typed[p] == once[p] <==> doc[p] & 0x0F == l {
      DigitsJoin(doc[p], h, l);
    }
    if LowDigitsFit(doc, rs, l) {
      forall p: nat | p < |typed| ensures typed[p] == once[p] {
        if CaretAt(rs, p + 1) {
          CaretInside(rs, |doc|, p + 1);
        }
      }
    }
  }

  lemma CaretInside(rs: seq<Region>, n: nat, p: nat)
    requires InBounds(rs, n) && CaretAt(rs, p)
    ensures p <= n
  {
  }

  // ----- main results

  lemma {:induction false} HalfMapped(rs: seq<Region>, n: nat, main: nat)
    requires Sorted(rs) && InBounds(rs, n) && !HalfTrips(rs) && main < |rs|
    ensures var r := MapSelections(Singles(HalfSpots(rs)), main);
            && r.Ok? && WellFormed(r.value) && StandHalved(r.value.regions, rs) && r.value.main == KeptBefore(rs, main)
  {
    SpotsSwallow(rs);
    SpotsAscend(rs);
    MapsToKept(rs, HalfSpots(rs), main);
    KeptLength(rs, HalfSpots(rs), HalfSpots(rs), main);
    HalvedForm(rs, n, n + (if CaretAt(rs, n) then 1 else 0));
    MapSinglesApart(Halved(rs), KeptBefore(rs, main));
    FlaggedForm(rs, KeptBefore(rs, main));
  }

  lemma {:induction false} FlaggedForm(rs: seq<Region>, m: nat)
    requires Sorted(Halved(rs)) && m < |Halved(rs)|
    ensures WellFormed(Sel(Flagged(Halved(rs), m), m)) && StandHalved(Flagged(Halved(rs), m), rs)
  {
    var out, hs := Halved(rs), Flagged(Halved(rs), m);
    forall i | 0 <= i < |hs| ensures hs[i].Lo() == out[i].Lo() && hs[i].Hi() == out[i].Hi() && !out[i].main {
      HalvedAt(rs, i);
    }
  }

  lemma {:induction false} WholeMapped(rs: seq<Region>, main: nat)
    requires Sorted(rs) && !HalfTrips(rs) && main < |rs|
    ensures MapSelections(Singles(WholeSpots(rs)), main)
         == MapSelections(Singles(Kept(rs, WholeSpots(rs))), KeptBefore(rs, main))
  {
    SpotsSwallow(rs);
    SpotsAscend(rs);
    MapsToKept(rs, WholeSpots(rs), main);
  }

  /** Unless the first digit panics, the carets that have another one right after them are
      gone after it. */
  lemma {:induction false} FirstDigitView(v: View, top: Byte)
    requires WellPlaced(v) && !HalfTrips(v.selection.regions)
    ensures Ordered(OverwriteHalfEdits(v.data, v.selection.regions, top), 0, |v.data|)
    ensures var rs := v.selection.regions;
            var r := Edited(v, OverwriteHalfEdits(v.data, rs, top), -1);
            && r.Ok? && WellFormed(r.value.selection) && StandHalved(r.value.selection.regions, rs)
            && r.value.selection.main == KeptBefore(rs, v.selection.main)
            && ChangedAtCarets(v.data, rs, Halves(v.data, rs, top), r.value.data)
  {
    var rs := v.selection.regions;
    var es := OverwriteHalfEdits(v.data, rs, top);
    HalvedOnce(v.data, rs, top);
    BuildApplies(es, v.data);
    HalfCarried(es, rs, |v.data|);
    HalfMapped(rs, |v.data|, v.selection.main);
  }

  /** One change to the whole byte. */
  lemma {:induction false} OneChangeView(v: View, whole: Byte)
    requires WellPlaced(v) && !HalfTrips(v.selection.regions)
    ensures Ordered(ChangeEdits(v.selection.regions, [whole]), 0, |v.data|)
    ensures var rs := v.selection.regions;
            var es := ChangeEdits(rs, [whole]);
            var s := MapSelections(Singles(Kept(rs, WholeSpots(rs))), KeptBefore(rs, v.selection.main));
            && ChangedAtCarets(v.data, rs, Fill(whole, |rs|), Splice(v.data, es, 0))
            && Edited(v, es, 0) == if s.Ok? then Ok(View(Splice(v.data, es, 0), s.value)) else Panic
  {
    var rs := v.selection.regions;
    var es := ChangeEdits(rs, [whole]);
    ChangedOnce(v.data, rs, whole);
    BuildApplies(es, v.data);
    WholeCarried(es, rs, |v.data|);
    WholeMapped(rs, v.selection.main);
  }

  /** The second digit, from where the first one leads. */
  lemma {:induction false} SecondDigitView(v: View, top: Byte, whole: Byte, first: View)
    requires WellPlaced(v) && !HalfTrips(v.selection.regions)
    requires WellFormed(first.selection) && StandHalved(first.selection.regions, v.selection.regions)
    requires first.selection.main == KeptBefore(v.selection.regions, v.selection.main)
    requires ChangedAtCarets(v.data, v.selection.regions, Halves(v.data, v.selection.regions, top), first.data)
    ensures WellPlaced(first) && Ordered(ChangeEdits(first.selection.regions, [whole]), 0, |first.data|)
    ensures var rs, es := v.selection.regions, ChangeEdits(first.selection.regions, [whole]);
            var s := MapSelections(Singles(Kept(rs, WholeSpots(rs))), KeptBefore(rs, v.selection.main));
            && TypedOver(v.data, rs, top, whole, Splice(first.data, es, 0))
            && Edited(first, es, 0) == if s.Ok? then Ok(View(Splice(first.data, es, 0), s.value)) else Panic
  {
    var rs, hs := v.selection.regions, first.selection.regions;
    var es := ChangeEdits(hs, [whole]);
    StandForm(rs, |v.data|, |first.data|, hs);
    ChangedOnce(first.data, hs, whole);
    BuildApplies(es, first.data);
    HalvedChanged(rs, |v.data|, |first.data|, hs, whole);
    assert TypedOver(v.data, rs, top, whole, Splice(first.data, es, 0)) by {
      StandCarets(hs, rs);
      BytesTyped(v.data, rs, top, whole, first.data, hs, Splice(first.data, es, 0));
    }
  }

  lemma {:induction false} StandCarets(hs: seq<Region>, rs: seq<Region>)
    requires Sorted(rs) && StandHalved(hs, rs)
    ensures forall p :: CaretAt(hs, p) <==> CaretAt(rs, p) && !CaretAt(rs, p + 1)
  {
    forall p ensures CaretAt(hs, p) <==> CaretAt(rs, p) && !CaretAt(rs, p + 1) {
      HalvedCarets(rs, p);
      assert CaretAt(hs, p) <==> CaretAt(Halved(rs), p) by {
        if i :| 0 <= i < |hs| && hs[i].caret == p {
          assert Halved(rs)[i].caret == p;
        }
        if i :| 0 <= i < |hs| && Halved(rs)[i].caret == p {
          assert hs[i].caret == p;
        }
      }
    }
  }

  /** A change that panics would have panicked at the first digit. */
  lemma {:induction false} CaretTripsEarly(rs: seq<Region>)
    requires CaretTrips(rs)
    ensures HalfTrips(rs)
  {
    var i: nat, j: nat :|
      && i < j < |rs| && StrictlyForward(rs[i]) && rs[j].tail >= rs[j].caret + 2
      && forall k :: i < k <= j ==> CaretMeets(rs, k);
    var a, b := TurnsInwards(rs, i, j);
    assert CaretMeets(rs, b) && HalfMeets(rs, b);
  }

  lemma {:induction false} TurnsInwards(rs: seq<Region>, i: nat, j: nat) returns (a: nat, b: nat)
    requires i < j < |rs| && StrictlyForward(rs[i]) && !StrictlyForward(rs[j])
    ensures i <= a && b == a + 1 <= j && StrictlyForward(rs[a]) && !StrictlyForward(rs[b])
    decreases j - i
  {
    if StrictlyForward(rs[i + 1]) {
      a, b := TurnsInwards(rs, i + 1, j);
    } else {
      a, b := i, i + 1;
    }
  }

  lemma {:induction false} FirstDigitPanics(v: View, digit: Byte)
    requires WellPlaced(v)
    ensures Ordered(OverwriteHalfEdits(v.data, v.selection.regions, digit << 4), 0, |v.data|)
    ensures Edited(v, OverwriteHalfEdits(v.data, v.selection.regions, digit << 4), -1).Panic? <==> HalfTrips(v.selection.regions)
  {
    var rs := v.selection.regions;
    OverwriteHalfOrdered(v.data, rs, digit << 4);
    FirstDigitFits(v, Overwrite, digit);
    ShiftedCarry(v, HexEffect(v, Overwrite, None, digit).delta, -1);
    OverwriteClashes(v.data, rs, digit << 4);
  }

  lemma {:induction false} OneChangePanics(v: View, text: Doc)
    requires WellPlaced(v)
    ensures Ordered(ChangeEdits(v.selection.regions, text), 0, |v.data|)
    ensures Edited(v, ChangeEdits(v.selection.regions, text), 0).Panic? <==> CaretTrips(v.selection.regions)
  {
    ChangeOrdered(v.selection.regions, text, |v.data|);
    OrderedPanics(v, ChangeEdits(v.selection.regions, text));
    ChangeClashes(v.selection.regions, text, |v.data|);
  }

  /** After the first digit, which does not panic: the second one does not either, and leaves
      the selection that one change to the whole byte leaves. The bytes are those of one change
      exactly if the condition on the lower digits holds. */
  ghost predicate SecondDigit(v: View, first: View, top: Byte, low: Byte, whole: Byte, once: Outcome<View>) {
    && WellPlaced(first) && Ordered(ChangeEdits(first.selection.regions, [whole]), 0, |first.data|)
    && var second := Edited(first, ChangeEdits(first.selection.regions, [whole]), 0);
    && second.Ok? && once.Ok? && second.value.selection == once.value.selection
    && TypedOver(v.data, v.selection.regions, top, whole, second.value.data)
    && (second == once <==> LowDigitsFit(v.data, v.selection.regions, low))
  }

  lemma {:induction false} TwoDigitsOverwrite(v: View, h: Byte, l: Byte, whole: Byte)
    requires WellPlaced(v) && h < 16 && l < 16 && whole == (h << 4) | l
    ensures Ordered(OverwriteHalfEdits(v.data, v.selection.regions, h << 4), 0, |v.data|)
    ensures Ordered(ChangeEdits(v.selection.regions, [whole]), 0, |v.data|)
    ensures var rs := v.selection.regions;
            var first, once := Edited(v, OverwriteHalfEdits(v.data, rs, h << 4), -1), Edited(v, ChangeEdits(rs, [whole]), 0);
            && (first.Panic? <==> HalfTrips(rs)) && (once.Panic? <==> CaretTrips(rs))
            && (first.Ok? ==> SecondDigit(v, first.value, h << 4, l, whole, once))
  {
    var rs := v.selection.regions;
    FirstDigitPanics(v, h);
    OneChangePanics(v, [whole]);
    if !HalfTrips(rs) {
      if CaretTrips(rs) {
        CaretTripsEarly(rs);
      }
      FirstDigitView(v, h << 4);
      OneChangeView(v, whole);
      var first := Edited(v, OverwriteHalfEdits(v.data, rs, h << 4), -1).value;
      SecondDigitView(v, h << 4, whole, first);
      BytesAgree(v.data, rs, h, l, whole,
                 Splice(first.data, ChangeEdits(first.selection.regions, [whole]), 0), Splice(v.data, ChangeEdits(rs, [whole]), 0));
    }
  }

  // ----- key presses

  /** A key in insert mode whose only effect is an edit that panics. */
  lemma {:induction false} PanicFirst(ed: Editor, t: Timeline, a: Key, b: Key, bytesPerLine: nat, first: Effect)
    requires Reached(ed, t) && ed.mode.Inserting? && a != Exit && b != Exit
    requires Effects(ed, a, bytesPerLine) == [first] && first.Edit? && ValidOn(first.delta, ed.buffer.view.data)
    requires EditView(ed.buffer.view, first.delta, first.caretShift, first.tailShift).Panic?
    ensures KeysReady(ed, [a, b], bytesPerLine) && PressAll(ed, [a, b], bytesPerLine).Panic?
  {
    SessionInside(ed, [a, b], bytesPerLine);
    KeysKeep(ed, t, [a, b], bytesPerLine);
    PressEdit(ed, t, a, bytesPerLine, first);
  }

  /** The outcome of two digits, compared with one change to the byte they name. */
  ghost predicate TypesOver(ed: Editor, r: Outcome<Editor>, h: Byte, l: Byte, whole: Byte)
    requires Ordered(ChangeEdits(ed.buffer.view.selection.regions, [whole]), 0, |ed.buffer.view.data|)
  {
    var v, rs := ed.buffer.view, ed.buffer.view.selection.regions;
    var once := Edited(v, ChangeEdits(rs, [whole]), 0);
    && (r.Panic? <==> HalfTrips(rs))
    && (r.Ok? ==>
          && r.value.mode == ed.mode && once.Ok? && r.value.buffer.view.selection == once.value.selection
          && TypedOver(v.data, rs, h << 4, whole, r.value.buffer.view.data)
          && (r.value.buffer.view == once.value <==> LowDigitsFit(v.data, rs, l)))
  }

  lemma {:induction false} DigitsOver(ed: Editor, t: Timeline, a: Key, b: Key, h: Byte, l: Byte, whole: Byte, bytesPerLine: nat)
    requires Reached(ed, t) && h < 16 && l < 16 && whole == (h << 4) | l && a != Exit && b != Exit
    requires ed.mode.Inserting? && ed.mode.half.None? && ed.mode.how == Overwrite
    requires TypesDigit(ed.mode, a, h, bytesPerLine) && TypesDigit(ed.mode.(half := Some(h << 4)), b, l, bytesPerLine)
    ensures KeysReady(ed, [a, b], bytesPerLine)
    ensures Ordered(ChangeEdits(ed.buffer.view.selection.regions, [whole]), 0, |ed.buffer.view.data|)
    ensures TypesOver(ed, PressAll(ed, [a, b], bytesPerLine), h, l, whole)
  {
    var v := ed.buffer.view;
    TwoDigitsOverwrite(v, h, l, whole);
    match Edited(v, OverwriteHalfEdits(v.data, v.selection.regions, h << 4), -1)
    case Panic => FirstOver(ed, t, a, b, h, bytesPerLine);
    case Ok(v') => SecondOver(ed, t, a, b, h, l, whole, bytesPerLine, v');
  }

  lemma {:induction false} FirstOver(ed: Editor, t: Timeline, a: Key, b: Key, h: Byte, bytesPerLine: nat)
    requires Reached(ed, t) && a != Exit && b != Exit
    requires ed.mode.Inserting? && ed.mode.half.None? && ed.mode.how == Overwrite && TypesDigit(ed.mode, a, h, bytesPerLine)
    requires Ordered(OverwriteHalfEdits(ed.buffer.view.data, ed.buffer.view.selection.regions, h << 4), 0, |ed.buffer.view.data|)
    requires Edited(ed.buffer.view, OverwriteHalfEdits(ed.buffer.view.data, ed.buffer.view.selection.regions, h << 4), -1).Panic?
    ensures KeysReady(ed, [a, b], bytesPerLine) && PressAll(ed, [a, b], bytesPerLine).Panic?
  {
    HexEffectFits(ed.buffer.view, Overwrite, None, h);
    PanicFirst(ed, t, a, b, bytesPerLine, HexEffect(ed.buffer.view, Overwrite, None, h));
  }

  lemma {:induction false} SecondOver(ed: Editor, t: Timeline, a: Key, b: Key, h: Byte, l: Byte, whole: Byte, bytesPerLine: nat,
                                      v': View)
    requires Reached(ed, t) && whole == (h << 4) | l
    requires ed.mode.Inserting? && ed.mode.half.None? && ed.mode.how == Overwrite
    requires TypesDigit(ed.mode, a, h, bytesPerLine) && TypesDigit(ed.mode.(half := Some(h << 4)), b, l, bytesPerLine)
    requires Ordered(OverwriteHalfEdits(ed.buffer.view.data, ed.buffer.view.selection.regions, h << 4), 0, |ed.buffer.view.data|)
    requires Edited(ed.buffer.view, OverwriteHalfEdits(ed.buffer.view.data, ed.buffer.view.selection.regions, h << 4), -1) == Ok(v')
    requires WellPlaced(v') && Ordered(ChangeEdits(v'.selection.regions, [whole]), 0, |v'.data|)
    requires Edited(v', ChangeEdits(v'.selection.regions, [whole]), 0).Ok?
    ensures KeysReady(ed, [a, b], bytesPerLine)
    ensures var r := PressAll(ed, [a, b], bytesPerLine);
            && r.Ok? && r.value.mode == ed.mode
            && Ok(r.value.buffer.view) == Edited(v', ChangeEdits(v'.selection.regions, [whole]), 0)
  {
    var first, second := HexEffect(ed.buffer.view, Overwrite, None, h), HexEffect(v', Overwrite, Some(h << 4), l);
    OverEffects(ed.buffer.view, v', h, l, whole);
    assert NextMode(ed, a) == ed.mode.(half := Some(h << 4));
    assert InsertEffects(v', NextMode(ed, a), b, bytesPerLine) == [second];
    TwoEdits(ed, t, a, b, bytesPerLine, first, v', second);
  }

  /** The two edits, as the user sees them. */
  lemma {:induction false} OverEffects(v: View, v': View, h: Byte, l: Byte, whole: Byte)
    requires WellPlaced(v) && WellPlaced(v') && whole == (h << 4) | l
    requires Ordered(OverwriteHalfEdits(v.data, v.selection.regions, h << 4), 0, |v.data|)
    requires Edited(v, OverwriteHalfEdits(v.data, v.selection.regions, h << 4), -1) == Ok(v')
    requires Ordered(ChangeEdits(v'.selection.regions, [whole]), 0, |v'.data|)
    ensures var first, second := HexEffect(v, Overwrite, None, h), HexEffect(v', Overwrite, Some(h << 4), l);
            && first.Edit? && ValidOn(first.delta, v.data)
            && EditView(v, first.delta, first.caretShift, first.tailShift) == Ok(v')
            && second.Edit? && ValidOn(second.delta, v'.data)
            && EditView(v', second.delta, second.caretShift, second.tailShift) == Edited(v', ChangeEdits(v'.selection.regions, [whole]), 0)
  {
    HexEffectFits(v, Overwrite, None, h);
    HexEffectFits(v', Overwrite, Some(h << 4), l);
  }

  /** Typing two hex digits in overwrite mode panics exactly on the condition for the first
      digit. Otherwise the selection is the one that changing the bytes under the carets to
      the byte they name leaves; the bytes are the same exactly if each byte under a caret
      with another caret right after it already had the second digit as its lower half. */
  lemma {:induction false} OverwritingTwoDigits(ed: Editor, t: Timeline, a: char, h: nat, b: char, l: nat, bytesPerLine: nat)
    requires Reached(ed, t) && h < 16 && l < 16 && NamesDigit(a, h) && NamesDigit(b, l)
    requires ed.mode.Inserting? && ed.mode.hex && ed.mode.half.None? && ed.mode.how == Overwrite
    ensures KeysReady(ed, [TypeChar(a), TypeChar(b)], bytesPerLine)
    ensures Ordered(ChangeEdits(ed.buffer.view.selection.regions, [ByteOf(h, l)]), 0, |ed.buffer.view.data|)
    ensures TypesOver(ed, PressAll(ed, [TypeChar(a), TypeChar(b)], bytesPerLine), ToByte(h), ToByte(l), ByteOf(h, l))
  {
    HexDigitIs(a, h);
    HexDigitIs(b, l);
    DigitsMakeByte(h, l);
    DigitKey(ed.mode, a, bytesPerLine);
    DigitKey(ed.mode.(half := Some(ToByte(h) << 4)), b, bytesPerLine);
    DigitsOver(ed, t, TypeChar(a), TypeChar(b), ToByte(h), ToByte(l), ByteOf(h, l), bytesPerLine);
  }
}
