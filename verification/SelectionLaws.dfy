/** Mapping a selection makes it canonical: what is kept, and exactly when it panics. */
module SelectionLaws {
  import opened Prelude
  import opened Region
  import opened Selections

  /** Two regions that point in opposite directions; a cursor is opposed to nothing. */
  predicate Opposed(a: Region, b: Region) {
    a.Forward() != b.Forward() && a.Backward() != b.Backward()
  }

  /** The k-th region touches the ground covered by the ones before it. */
  ghost predicate Joins(rs: seq<Region>, k: nat)
    requires k < |rs|
  {
    exists m :: 0 <= m < k && rs[m].Overlaps(rs[k])
  }

  /** The regions i to j end up in one merged region. */
  ghost predicate Linked(rs: seq<Region>, i: nat, j: nat)
    requires i <= j < |rs|
  {
    forall k :: i < k <= j ==> Joins(rs, k)
  }

  /** Some two regions that would be merged point in opposite directions. */
  ghost predicate Clash(rs: seq<Region>) {
    exists i: nat, j: nat :: i < j < |rs| && Opposed(rs[i], rs[j]) && Linked(rs, i, j)
  }

  /** `out` is the canonical form of the regions in `done`. */
  ghost predicate Built(done: seq<Region>, out: seq<Region>) {
    && Sorted(out)
    && (done == [] <==> out == [])
    && (forall p :: Covers(out, p) <==> Covers(done, p))
    && !Clash(done)
    && (done != [] ==> Within(done[|done| - 1], out[|out| - 1]) && Directed(done, out[|out| - 1]))
  }

  /** `big` selects everything that `small` does. */
  predicate Within(small: Region, big: Region) {
    big.Lo() <= small.Lo() && small.Hi() <= big.Hi()
  }

  /** `last` points the way in which everything merged into it can be read. */
  ghost predicate Directed(done: seq<Region>, last: Region)
    requires done != []
  {
    && (last.Forward() <==> forall i :: 0 <= i < |done| && Linked(done, i, |done| - 1) ==> done[i].Forward())
    && (last.Backward() <==> forall i :: 0 <= i < |done| && Linked(done, i, |done| - 1) ==> done[i].Backward())
  }

  /** Adding a region keeps the earlier regions in place and lets at most the last one grow. */
  predicate Grows(out: seq<Region>, out': seq<Region>) {
    && |out| <= |out'|
    && forall i :: 0 <= i < |out| ==> Within(out[i], out'[i]) && (out[i].main ==> out'[i].main)
  }

  lemma JoinsLast(done: seq<Region>, out: seq<Region>, r: Region)
    requires Built(done, out) && out != []
    ensures Joins(done + [r], |done|) <==> out[|out| - 1].Overlaps(r)
  {
    var last, all := out[|out| - 1], done + [r];
    if last.Overlaps(r) {
      assert Covers(out, last.Hi());
      var m :| 0 <= m < |done| && done[m].Holds(last.Hi());
      assert all[m].Overlaps(all[|done|]);
    }
    if Joins(all, |done|) {
      var m :| 0 <= m < |done| && all[m].Overlaps(all[|done|]);
      assert done[m].Holds(done[m].Hi());
      assert Covers(done, done[m].Hi());
      var i :| 0 <= i < |out| && out[i].Holds(done[m].Hi());
      assert i < |out| - 1 ==> out[i].Hi() < last.Lo();
    }
  }

  lemma LinkedExtend(done: seq<Region>, r: Region, i: nat)
    requires i < |done|
    ensures Linked(done + [r], i, |done|) <==> Linked(done, i, |done| - 1) && Joins(done + [r], |done|)
  {
    forall k: nat | k < |done| ensures Joins(done + [r], k) <==> Joins(done, k) {
      assert forall m :: 0 <= m <= k ==> (done + [r])[m] == done[m];
    }
  }

  lemma ClashExtend(done: seq<Region>, r: Region)
    ensures Clash(done + [r]) <==>
            || Clash(done)
            || exists i: nat :: i < |done| && Opposed(done[i], r) && Linked(done + [r], i, |done|)
  {
    var all := done + [r];
    forall k: nat | k < |done| ensures Joins(all, k) <==> Joins(done, k) {
      assert forall m :: 0 <= m <= k ==> all[m] == done[m];
    }
    if Clash(done) {
      var i: nat, j: nat :| i < j < |done| && Opposed(done[i], done[j]) && Linked(done, i, j);
      assert Opposed(all[i], all[j]) && Linked(all, i, j);
    }
    if i: nat :| i < |done| && Opposed(done[i], r) && Linked(all, i, |done|) {
      assert Opposed(all[i], all[|done|]);
    }
    if Clash(all) {
      var i: nat, j: nat :| i < j < |all| && Opposed(all[i], all[j]) && Linked(all, i, j);
      if j < |done| {
        assert Opposed(done[i], done[j]) && Linked(done, i, j);
      }
    }
  }

  /** A push panics exactly when the new region joins a region that points the other way. */
  lemma PushPanics(done: seq<Region>, out: seq<Region>, r: Region)
    requires Built(done, out) && StartsAscend(done + [r])
    ensures Push(out, r).Panic? <==> Clash(done + [r])
  {
    ClashExtend(done, r);
    if done != [] {
      var all, last := done + [r], out[|out| - 1];
      assert all[|done| - 1].Lo() <= all[|done|].Lo();
      JoinsLast(done, out, r);
      forall i: nat | i < |done| ensures Linked(all, i, |done|) <==> Linked(done, i, |done| - 1) && Joins(all, |done|) {
        LinkedExtend(done, r, i);
      }
      if last.Overlaps(r) {
        MergePanics(last, r);
        if Opposed(last, r) {
          var i: nat :| i < |done| && Linked(done, i, |done| - 1)
                        && (if last.Forward() then !done[i].Backward() else !done[i].Forward());
          assert Opposed(done[i], r) && Linked(all, i, |done|);
        }
      }
    }
  }

  lemma CoversConcat(a: seq<Region>, b: seq<Region>, p: int)
    ensures Covers(a + b, p) <==> Covers(a, p) || Covers(b, p)
  {
    var all := a + b;
    if i :| 0 <= i < |a| && a[i].Holds(p) {
      assert all[i].Holds(p);
    }
    if i :| 0 <= i < |b| && b[i].Holds(p) {
      assert all[|a| + i].Holds(p);
    }
    if i :| 0 <= i < |all| && all[i].Holds(p) {
      assert if i < |a| then a[i].Holds(p) else b[i - |a|].Holds(p);
    }
  }

  /** A push that merges: the regions before the last one stay, the last one takes in `r`. */
  lemma PushMerged(out: seq<Region>, r: Region)
    requires Sorted(out) && out != [] && out[|out| - 1].Overlaps(r) && out[|out| - 1].Lo() <= r.Lo()
    requires Push(out, r).Ok?
    ensures Sorted(Push(out, r).value)
    ensures forall p :: Covers(Push(out, r).value, p) <==> Covers(out, p) || r.Holds(p)
  {
    var last, keep := out[|out| - 1], out[..|out| - 1];
    MergeMeaning(last, r);
    var merged := last.Merge(r).value;
    assert out == keep + [last];
    forall p ensures Covers(keep + [merged], p) <==> Covers(out, p) || r.Holds(p) {
      CoversConcat(keep, [merged], p);
      CoversConcat(keep, [last], p);
      assert Covers([merged], p) <==> merged.Holds(p) by { assert [merged][0] == merged; }
      assert Covers([last], p) <==> last.Holds(p) by { assert [last][0] == last; }
    }
  }

  lemma PushApart(out: seq<Region>, r: Region)
    requires Sorted(out) && (out == [] || !out[|out| - 1].Overlaps(r))
    ensures Sorted(out + [r])
    ensures forall p :: Covers(out + [r], p) <==> Covers(out, p) || r.Holds(p)
  {
    forall p ensures Covers(out + [r], p) <==> Covers(out, p) || r.Holds(p) {
      CoversConcat(out, [r], p);
      assert Covers([r], p) <==> r.Holds(p) by { assert [r][0] == r; }
    }
  }

  /** The direction of the last region tells the directions of everything merged into it. */
  lemma PushDirection(done: seq<Region>, out: seq<Region>, r: Region)
    requires Built(done, out) && StartsAscend(done + [r]) && Push(out, r).Ok?
    ensures var all, out' := done + [r], Push(out, r).value;
            out' != [] && Directed(all, out'[|out'| - 1])
  {
    var all, out' := done + [r], Push(out, r).value;
    assert all[|done|] == r && Linked(all, |done|, |all| - 1);
    if done != [] {
      assert all[|done| - 1].Lo() <= all[|done|].Lo();
      JoinsLast(done, out, r);
      forall i: nat | i < |done| ensures Linked(all, i, |done|) <==> Linked(done, i, |done| - 1) && Joins(all, |done|) {
        LinkedExtend(done, r, i);
      }
      if out[|out| - 1].Overlaps(r) {
        MergeMeaning(out[|out| - 1], r);
        assert forall i :: 0 <= i < |done| ==> all[i] == done[i];
      }
    }
  }

  lemma PushCovers(done: seq<Region>, out: seq<Region>, r: Region)
    requires Sorted(out) && (out != [] ==> out[|out| - 1].Lo() <= r.Lo()) && Push(out, r).Ok?
    requires forall p :: Covers(out, p) <==> Covers(done, p)
    ensures Sorted(Push(out, r).value)
    ensures forall p :: Covers(Push(out, r).value, p) <==> Covers(done + [r], p)
  {
    if out == [] || !out[|out| - 1].Overlaps(r) {
      PushApart(out, r);
    } else {
      PushMerged(out, r);
    }
    forall p ensures Covers(Push(out, r).value, p) <==> Covers(done + [r], p) {
      CoversConcat(done, [r], p);
      assert Covers([r], p) <==> r.Holds(p) by { assert [r][0] == r; }
    }
  }

  lemma PushGrows(out: seq<Region>, r: Region)
    requires (out != [] ==> out[|out| - 1].Lo() <= r.Lo()) && Push(out, r).Ok?
    ensures var out' := Push(out, r).value;
            Grows(out, out') && out' != [] && Within(r, out'[|out'| - 1])
  {
    if out != [] && out[|out| - 1].Overlaps(r) {
      MergeMeaning(out[|out| - 1], r);
    }
  }

  lemma PushBuilt(done: seq<Region>, out: seq<Region>, r: Region)
    requires Built(done, out) && StartsAscend(done + [r]) && Push(out, r).Ok?
    ensures Built(done + [r], Push(out, r).value)
    ensures Grows(out, Push(out, r).value)
  {
    if done != [] {
      assert (done + [r])[|done| - 1].Lo() <= (done + [r])[|done|].Lo();
    }
    PushPanics(done, out, r);
    PushDirection(done, out, r);
    PushCovers(done, out, r);
    PushGrows(out, r);
  }

  lemma {:induction false} ClashPrefix(a: seq<Region>, b: seq<Region>)
    ensures Clash(a) ==> Clash(a + b)
    decreases |b|
  {
    if b == [] {
      assert a + b == a;
    } else {
      ClashExtend(a, b[0]);
      assert a + b == a + [b[0]] + b[1..];
      ClashPrefix(a + [b[0]], b[1..]);
    }
  }

  /** Exactly the region `m` carries the main flag, once there is a main region. */
  predicate FlagsAt(out: seq<Region>, marked: bool, m: nat) {
    && (marked ==> m < |out|)
    && forall i :: 0 <= i < |out| ==> (out[i].main <==> marked && i == m)
  }

  lemma {:induction false} PushAllBuilt(done: seq<Region>, out: seq<Region>, rs: seq<Region>)
    requires Built(done, out) && StartsAscend(done + rs)
    ensures PushAll(out, rs).Panic? <==> Clash(done + rs)
    ensures PushAll(out, rs).Ok? ==> Built(done + rs, PushAll(out, rs).value) && Grows(out, PushAll(out, rs).value)
    decreases |rs|
  {
    if rs == [] {
      assert done + rs == done;
    } else {
      var all := done + [rs[0]];
      assert all + rs[1..] == done + rs;
      assert StartsAscend(all) by {
        assert forall i :: 0 <= i < |all| ==> all[i] == (done + rs)[i];
      }
      PushPanics(done, out, rs[0]);
      if Push(out, rs[0]).Panic? {
        ClashPrefix(all, rs[1..]);
      } else {
        PushBuilt(done, out, rs[0]);
        PushAllBuilt(all, Push(out, rs[0]).value, rs[1..]);
      }
    }
  }

  lemma {:induction false} PushAllFlags(out: seq<Region>, rs: seq<Region>, marked: bool, m: nat)
    requires Unflagged(rs) && FlagsAt(out, marked, m)
    requires PushAll(out, rs).Ok?
    ensures FlagsAt(PushAll(out, rs).value, marked, m)
    decreases |rs|
  {
    if rs != [] {
      assert !rs[0].main && Unflagged(rs[1..]);
      PushAllFlags(Push(out, rs[0]).value, rs[1..], marked, m);
    }
  }

  lemma {:induction false} FlattenConcat(a: seq<seq<Region>>, b: seq<seq<Region>>)
    ensures Flatten(a + b) == Flatten(a) + Flatten(b)
  {
    if a == [] {
      assert a + b == b;
    } else {
      assert (a + b)[1..] == a[1..] + b;
      FlattenConcat(a[1..], b);
    }
  }

  /** What is produced for the first k regions, for the next one, and for the rest. */
  lemma {:induction false} FlattenAt(outputs: seq<seq<Region>>, k: nat)
    requires k < |outputs|
    ensures Flatten(outputs[..k + 1]) == Flatten(outputs[..k]) + outputs[k]
    ensures Flatten(outputs) == Flatten(outputs[..k + 1]) + Flatten(outputs[k + 1..])
  {
    assert outputs[..k + 1] == outputs[..k] + [outputs[k]];
    assert outputs == outputs[..k + 1] + outputs[k + 1..];
    FlattenConcat(outputs[..k], [outputs[k]]);
    FlattenConcat(outputs[..k + 1], outputs[k + 1..]);
    assert Flatten([outputs[k]]) == outputs[k] + Flatten([]);
  }

  lemma BuiltFlagLast(done: seq<Region>, out: seq<Region>)
    requires Built(done, out) && out != []
    ensures Built(done, FlagLast(out)) && Grows(out, FlagLast(out))
  {
    var out' := FlagLast(out);
    assert forall i :: 0 <= i < |out| ==> out'[i].Lo() == out[i].Lo() && out'[i].Hi() == out[i].Hi();
    forall p ensures Covers(out', p) <==> Covers(out, p) {
      if i :| 0 <= i < |out| && out[i].Holds(p) {
        assert out'[i].Holds(p);
      }
    }
  }

  /** The last region produced for the regions up to the main one. */
  function MainOutput(outputs: seq<seq<Region>>, main: nat): Region
    requires main < |outputs| && Flatten(outputs[..main + 1]) != []
  {
    var f := Flatten(outputs[..main + 1]);
    f[|f| - 1]
  }

  lemma StartsAscendPrefix(a: seq<Region>, b: seq<Region>)
    requires StartsAscend(a + b)
    ensures StartsAscend(a)
  {
    assert forall i :: 0 <= i < |a| ==> (a + b)[i] == a[i];
  }

  lemma UnflaggedMiddle(a: seq<Region>, b: seq<Region>, c: seq<Region>)
    requires Unflagged(a + b + c)
    ensures Unflagged(b)
  {
    forall i | 0 <= i < |b| ensures !b[i].main {
      assert (a + b + c)[|a| + i] == b[i];
    }
  }

  /** One round of the mapping loop. */
  lemma {:induction false} MapRound(outputs: seq<seq<Region>>, k: nat, out: seq<Region>)
    requires k < |outputs|
    requires StartsAscend(Flatten(outputs)) && Built(Flatten(outputs[..k]), out)
    ensures PushAll(out, outputs[k]).Panic? ==> Clash(Flatten(outputs))
    ensures PushAll(out, outputs[k]).Ok? ==>
              Built(Flatten(outputs[..k + 1]), PushAll(out, outputs[k]).value) && Grows(out, PushAll(out, outputs[k]).value)
  {
    var done, now, later := Flatten(outputs[..k]), outputs[k], Flatten(outputs[k + 1..]);
    FlattenAt(outputs, k);
    StartsAscendPrefix(done + now, later);
    PushAllBuilt(done, out, now);
    ClashPrefix(done + now, later);
  }

  lemma {:induction false} MapRoundFlags(outputs: seq<seq<Region>>, k: nat, out: seq<Region>, marked: bool, m: nat)
    requires k < |outputs| && PushAll(out, outputs[k]).Ok?
    requires Unflagged(Flatten(outputs)) && FlagsAt(out, marked, m)
    ensures FlagsAt(PushAll(out, outputs[k]).value, marked, m)
  {
    FlattenAt(outputs, k);
    UnflaggedMiddle(Flatten(outputs[..k]), outputs[k], Flatten(outputs[k + 1..]));
    PushAllFlags(out, outputs[k], marked, m);
  }

  /** Where the mapping loop stands before region k. */
  ghost predicate MapState(outputs: seq<seq<Region>>, main: nat, k: nat, out: seq<Region>, newMain: nat)
    requires main < |outputs| && k <= |outputs|
  {
    && Built(Flatten(outputs[..k]), out)
    && (Unflagged(Flatten(outputs)) ==> FlagsAt(out, k > main, newMain))
    && (k > main ==>
          && Flatten(outputs[..main + 1]) != []
          && newMain < |out| && Within(MainOutput(outputs, main), out[newMain]))
  }

  lemma {:induction false} MapStepOther(outputs: seq<seq<Region>>, main: nat, k: nat, out: seq<Region>, newMain: nat)
    requires main < |outputs| && k < |outputs| && k != main
    requires StartsAscend(Flatten(outputs)) && MapState(outputs, main, k, out, newMain) && PushAll(out, outputs[k]).Ok?
    ensures MapState(outputs, main, k + 1, PushAll(out, outputs[k]).value, newMain)
  {
    MapRound(outputs, k, out);
    if Unflagged(Flatten(outputs)) {
      MapRoundFlags(outputs, k, out, k > main, newMain);
    }
  }

  lemma {:induction false} MapStepMain(outputs: seq<seq<Region>>, main: nat, out: seq<Region>, newMain: nat)
    requires main < |outputs| && StartsAscend(Flatten(outputs)) && MapState(outputs, main, main, out, newMain)
    requires PushAll(out, outputs[main]).Ok? && PushAll(out, outputs[main]).value != []
    ensures var out' := PushAll(out, outputs[main]).value;
            MapState(outputs, main, main + 1, FlagLast(out'), |out'| - 1)
  {
    MapRound(outputs, main, out);
    if Unflagged(Flatten(outputs)) {
      MapRoundFlags(outputs, main, out, false, newMain);
    }
    BuiltFlagLast(Flatten(outputs[..main + 1]), PushAll(out, outputs[main]).value);
  }

  /** Panics in round k are clashes, and nothing is left over only if nothing was produced. */
  lemma {:induction false} MapPanics(outputs: seq<seq<Region>>, k: nat, out: seq<Region>)
    requires k < |outputs| && StartsAscend(Flatten(outputs)) && Built(Flatten(outputs[..k]), out)
    ensures PushAll(out, outputs[k]).Panic? ==> Clash(Flatten(outputs))
    ensures PushAll(out, outputs[k]) == Ok([]) ==> Flatten(outputs[..k + 1]) == []
  {
    MapRound(outputs, k, out);
  }

  /** The result of a map is sorted, covers exactly what was produced, and its main region
      is the one that holds the last output of the old main region. */
  ghost predicate Canonical(outputs: seq<seq<Region>>, main: nat, s: Sel)
    requires main < |outputs|
  {
    && Sorted(s.regions)
    && (forall p :: Covers(s.regions, p) <==> Covers(Flatten(outputs), p))
    && Flatten(outputs[..main + 1]) != []
    && s.main < |s.regions| && Within(MainOutput(outputs, main), s.regions[s.main])
    && (Unflagged(Flatten(outputs)) ==> MainFlagged(s))
  }

  ghost predicate MapResult(outputs: seq<seq<Region>>, main: nat, r: Outcome<Sel>)
    requires main < |outputs|
  {
    && (r.Panic? <==> Clash(Flatten(outputs)) || Flatten(outputs[..main + 1]) == [])
    && (r.Ok? ==> Canonical(outputs, main, r.value))
  }

  lemma {:induction false} MapDone(outputs: seq<seq<Region>>, main: nat, out: seq<Region>, newMain: nat)
    requires main < |outputs| && MapState(outputs, main, |outputs|, out, newMain)
    ensures MapResult(outputs, main, Ok(Sel(out, newMain)))
  {
    assert outputs[..|outputs|] == outputs;
  }

  lemma {:induction false} MapFromBuilt(outputs: seq<seq<Region>>, main: nat, k: nat, out: seq<Region>, newMain: nat)
    requires main < |outputs| && k <= |outputs|
    requires StartsAscend(Flatten(outputs)) && MapState(outputs, main, k, out, newMain)
    ensures MapResult(outputs, main, MapFrom(outputs, main, k, out, newMain))
    decreases |outputs| - k
  {
    if k == |outputs| {
      MapDone(outputs, main, out, newMain);
    } else {
      match PushAll(out, outputs[k])
      case Panic =>
        MapPanics(outputs, k, out);
      case Ok(out') =>
        if k != main {
          MapStepOther(outputs, main, k, out, newMain);
          MapFromBuilt(outputs, main, k + 1, out', newMain);
        } else if out' != [] {
          MapStepMain(outputs, main, out, newMain);
          MapFromBuilt(outputs, main, k + 1, FlagLast(out'), |out'| - 1);
        } else {
          MapPanics(outputs, k, out);
        }
    }
  }

  /** Mapping a selection whose outputs start in order panics exactly when two opposed
      regions would be merged or the main region comes before any output; otherwise the
      result is canonical. */
  lemma MapCanonical(outputs: seq<seq<Region>>, main: nat)
    requires main < |outputs| && StartsAscend(Flatten(outputs))
    ensures MapSelections(outputs, main).Panic? <==>
            Clash(Flatten(outputs)) || Flatten(outputs[..main + 1]) == []
    ensures MapSelections(outputs, main).Ok? ==> Canonical(outputs, main, MapSelections(outputs, main).value)
  {
    assert outputs[..0] == [];
    assert Built([], []);
    MapFromBuilt(outputs, main, 0, [], 0);
  }

  /** Regions that all point one way never clash. */
  lemma SameWayNoClash(rs: seq<Region>, backward: bool)
    requires SameWay(rs, backward)
    ensures !Clash(rs)
  {
    forall i: nat, j: nat | i < j < |rs| ensures !Opposed(rs[i], rs[j]) {
      assert Along(rs[i], backward) && Along(rs[j], backward);
    }
  }

  // ----- consequences

  lemma {:induction false} FlattenSingles(rs: seq<Region>)
    ensures Flatten(Singles(rs)) == rs
  {
    if rs != [] {
      assert Singles(rs)[1..] == Singles(rs[1..]);
      FlattenSingles(rs[1..]);
    }
  }

  lemma FlattenSinglesPrefix(rs: seq<Region>, k: nat)
    requires k <= |rs|
    ensures Flatten(Singles(rs)[..k]) == rs[..k]
  {
    assert Singles(rs)[..k] == Singles(rs[..k]);
    FlattenSingles(rs[..k]);
  }

  /** A canonical selection reaches no further than the regions it was made from. */
  lemma CoverInBounds(rs: seq<Region>, from: seq<Region>, n: nat)
    requires InBounds(from, n)
    requires forall p :: Covers(rs, p) ==> Covers(from, p)
    ensures InBounds(rs, n)
  {
    forall i | 0 <= i < |rs| ensures rs[i].Hi() <= n {
      assert rs[i].Holds(rs[i].Hi());
      assert Covers(rs, rs[i].Hi());
      var j :| 0 <= j < |from| && from[j].Holds(rs[i].Hi());
    }
  }

  /** Mapping every region to one region that points the same way as the others. */
  lemma MapSinglesSameWay(rs: seq<Region>, main: nat, backward: bool, n: nat)
    requires main < |rs| && StartsAscend(rs) && SameWay(rs, backward) && Unflagged(rs) && InBounds(rs, n)
    ensures var r := MapSelections(Singles(rs), main);
            && r.Ok? && WellFormed(r.value) && InBounds(r.value.regions, n)
            && (forall p :: Covers(r.value.regions, p) <==> Covers(rs, p))
            && Within(rs[main], r.value.regions[r.value.main])
  {
    FlattenSingles(rs);
    FlattenSinglesPrefix(rs, main + 1);
    SameWayNoClash(rs, backward);
    MapCanonical(Singles(rs), main);
    CoverInBounds(MapSelections(Singles(rs), main).value.regions, rs, n);
  }

  // ----- outputs that do not overlap

  function Flagged(rs: seq<Region>, m: nat): seq<Region>
    requires m < |rs|
  {
    rs[m := rs[m].(main := true)]
  }

  lemma {:induction false} PushAllApart(out: seq<Region>, rs: seq<Region>)
    requires Sorted(out + rs)
    ensures PushAll(out, rs) == Ok(out + rs)
    decreases |rs|
  {
    if rs == [] {
      assert out + rs == out;
    } else {
      assert out + rs == out + [rs[0]] + rs[1..];
      if out != [] {
        assert (out + rs)[|out| - 1].Hi() < (out + rs)[|out|].Lo();
      }
      PushAllApart(out + [rs[0]], rs[1..]);
    }
  }

  lemma SortedPrefix(out: seq<Region>, now: seq<Region>, done: seq<Region>, rest: seq<Region>)
    requires Sorted(done + now + rest) && |out| == |done|
    requires forall i :: 0 <= i < |out| ==> out[i].Lo() == done[i].Lo() && out[i].Hi() == done[i].Hi()
    ensures Sorted(out + now)
  {
    var all := done + now + rest;
    forall i | 0 <= i < |out + now| ensures (out + now)[i].Lo() == all[i].Lo() && (out + now)[i].Hi() == all[i].Hi() {
    }
  }

  /** Where the mapping loop stands before region k if nothing is merged. */
  ghost predicate ApartState(outputs: seq<seq<Region>>, main: nat, k: nat, out: seq<Region>, newMain: nat)
    requires main < |outputs| && k <= |outputs| && Flatten(outputs[..main + 1]) != []
  {
    var done, m := Flatten(outputs[..k]), |Flatten(outputs[..main + 1])| - 1;
    if k <= main then out == done else m < |done| && out == Flagged(done, m) && newMain == m
  }

  lemma {:induction false} MapFromApart(outputs: seq<seq<Region>>, main: nat, k: nat, out: seq<Region>, newMain: nat)
    requires main < |outputs| && k <= |outputs|
    requires Sorted(Flatten(outputs)) && Flatten(outputs[..main + 1]) != []
    requires ApartState(outputs, main, k, out, newMain)
    ensures var m := |Flatten(outputs[..main + 1])| - 1;
            m < |Flatten(outputs)|
            && MapFrom(outputs, main, k, out, newMain) == Ok(Sel(Flagged(Flatten(outputs), m), m))
    decreases |outputs| - k
  {
    if k == |outputs| {
      assert outputs[..k] == outputs;
    } else {
      ApartStep(outputs, main, k, out, newMain);
      if k != main {
        MapFromApart(outputs, main, k + 1, out + outputs[k], newMain);
      } else {
        MapFromApart(outputs, main, k + 1, FlagLast(out + outputs[k]), |out + outputs[k]| - 1);
      }
    }
  }

  lemma {:induction false} ApartStep(outputs: seq<seq<Region>>, main: nat, k: nat, out: seq<Region>, newMain: nat)
    requires main < |outputs| && k < |outputs|
    requires Sorted(Flatten(outputs)) && Flatten(outputs[..main + 1]) != []
    requires ApartState(outputs, main, k, out, newMain)
    ensures PushAll(out, outputs[k]) == Ok(out + outputs[k])
    ensures k != main ==> ApartState(outputs, main, k + 1, out + outputs[k], newMain)
    ensures k == main ==> out + outputs[k] != []
                          && ApartState(outputs, main, k + 1, FlagLast(out + outputs[k]), |out + outputs[k]| - 1)
  {
    var done, now, m := Flatten(outputs[..k]), outputs[k], |Flatten(outputs[..main + 1])| - 1;
    FlattenAt(outputs, k);
    SortedPrefix(out, now, done, Flatten(outputs[k + 1..]));
    PushAllApart(out, now);
    if k > main {
      assert out + now == Flagged(done + now, m);
    } else if k == main {
      assert FlagLast(out + now) == Flagged(done + now, m);
    }
  }

  /** Outputs that do not overlap are taken over one by one; nothing is merged. */
  lemma MapApart(outputs: seq<seq<Region>>, main: nat)
    requires main < |outputs| && Sorted(Flatten(outputs)) && Flatten(outputs[..main + 1]) != []
    ensures var m := |Flatten(outputs[..main + 1])| - 1;
            m < |Flatten(outputs)| && MapSelections(outputs, main) == Ok(Sel(Flagged(Flatten(outputs), m), m))
  {
    assert outputs[..0] == [];
    MapFromApart(outputs, main, 0, [], 0);
  }

  lemma MapSinglesApart(rs: seq<Region>, main: nat)
    requires main < |rs| && Sorted(rs)
    ensures MapSelections(Singles(rs), main) == Ok(Sel(Flagged(rs, main), main))
  {
    FlattenSingles(rs);
    FlattenSinglesPrefix(rs, main + 1);
    MapApart(Singles(rs), main);
  }
}
