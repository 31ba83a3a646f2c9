/** When edits at the carets bring regions together that point in opposite directions. */
module ClashLaws {
  import opened Prelude
  import opened Builder
  import opened Region
  import opened Selections
  import opened SelectionLaws
  import opened Transport
  import opened Operations
  import opened ChangeLaws

  predicate StrictlyForward(r: Region) {
    r.caret > r.tail
  }

  predicate StrictlyBackward(r: Region) {
    r.caret < r.tail
  }

  predicate Touch(a: Region, b: Region) {
    a.Hi() + 1 == b.Lo()
  }

  // ----- chains of overlapping regions

  ghost predicate EndsAscend(rs: seq<Region>) {
    forall k :: 0 < k < |rs| ==> rs[k - 1].Hi() <= rs[k].Hi()
  }

  predicate OverlapsPrevious(rs: seq<Region>, k: nat)
    requires 0 < k < |rs|
  {
    rs[k - 1].Overlaps(rs[k])
  }

  /** From i to j, each region overlaps the next. */
  ghost predicate Chained(rs: seq<Region>, i: nat, j: nat)
    requires i <= j < |rs|
  {
    forall k :: i < k <= j ==> OverlapsPrevious(rs, k)
  }

  lemma {:induction false} EndsInOrder(rs: seq<Region>, i: nat, j: nat)
    requires i <= j < |rs| && EndsAscend(rs)
    ensures rs[i].Hi() <= rs[j].Hi()
  {
    if i < j {
      EndsInOrder(rs, i, j - 1);
      assert rs[j - 1].Hi() <= rs[j].Hi();
    }
  }

  /** If the ends ascend, a region that joins any earlier one overlaps the one before it. */
  lemma {:induction false} JoinsPrevious(rs: seq<Region>, k: nat)
    requires k < |rs| && EndsAscend(rs)
    ensures Joins(rs, k) <==> k > 0 && OverlapsPrevious(rs, k)
  {
    if Joins(rs, k) {
      var m :| 0 <= m < k && rs[m].Overlaps(rs[k]);
      EndsInOrder(rs, m, k - 1);
    }
  }

  /** Then regions clash exactly if a chain of neighbours has opposed ends. */
  lemma {:induction false} ClashChain(rs: seq<Region>)
    requires EndsAscend(rs)
    ensures Clash(rs) <==> exists i: nat, j: nat :: i < j < |rs| && Opposed(rs[i], rs[j]) && Chained(rs, i, j)
  {
    forall k: nat | k < |rs| ensures Joins(rs, k) <==> k > 0 && OverlapsPrevious(rs, k) {
      JoinsPrevious(rs, k);
    }
    forall i: nat, j: nat | i < j < |rs| ensures Linked(rs, i, j) <==> Chained(rs, i, j) {
      if Linked(rs, i, j) {
        forall k | i < k <= j ensures OverlapsPrevious(rs, k) {
          assert Joins(rs, k);
        }
      }
    }
  }

  // ----- edits that take one byte out each

  predicate OneByte(es: seq<Edit>) {
    forall i :: 0 <= i < |es| ==> es[i].end == es[i].beg + 1
  }

  predicate Cuts(es: seq<Edit>, p: int) {
    exists i :: 0 <= i < |es| && es[i].beg == p
  }

  lemma {:induction false} CutsTail(es: seq<Edit>, p: int)
    requires es != []
    ensures Cuts(es, p) <==> es[0].beg == p || Cuts(es[1..], p)
  {
    if i :| 0 <= i < |es| && es[i].beg == p {
      assert i > 0 ==> es[1..][i - 1].beg == p;
    }
    if i :| 0 <= i < |es| - 1 && es[1..][i].beg == p {
      assert es[i + 1].beg == p;
    }
  }

  /** An offset goes where the next one goes exactly if the byte between them is cut out. */
  lemma {:induction false} ShiftStep(es: seq<Edit>, last: nat, n: nat, p: nat)
    requires Ordered(es, last, n) && OneByte(es) && last <= p < n
    ensures Shifted(es, last, n, p) <= Shifted(es, last, n, p + 1)
    ensures Shifted(es, last, n, p) == Shifted(es, last, n, p + 1) <==> Cuts(es, p)
  {
    if es != [] {
      CutsTail(es, p);
      if p > es[0].beg {
        ShiftStep(es[1..], es[0].end, n, p);
      } else {
        ShiftedNat(es[1..], es[0].end, n, es[0].end);
        NoEarlierCut(es[1..], es[0].end, n, p);
      }
    }
  }

  lemma {:induction false} NoEarlierCut(es: seq<Edit>, last: nat, n: nat, p: nat)
    requires Ordered(es, last, n) && p < last
    ensures !Cuts(es, p)
  {
    if es != [] {
      CutsTail(es, p);
      NoEarlierCut(es[1..], es[0].end, n, p);
    }
  }

  lemma {:induction false} ShiftAscends(es: seq<Edit>, n: nat, x: nat, y: nat)
    requires Ordered(es, 0, n) && OneByte(es) && x <= y <= n
    ensures Shifted(es, 0, n, x) <= Shifted(es, 0, n, y)
    decreases y - x
  {
    if x < y {
      ShiftAscends(es, n, x, y - 1);
      ShiftStep(es, 0, n, y - 1);
    }
  }

  /** Two offsets with a byte between them that stays do not meet. */
  lemma {:induction false} ShiftApart(es: seq<Edit>, n: nat, x: nat, p: nat, y: nat)
    requires Ordered(es, 0, n) && OneByte(es) && x <= p < y <= n && !Cuts(es, p)
    ensures Shifted(es, 0, n, x) < Shifted(es, 0, n, y)
  {
    ShiftAscends(es, n, x, p);
    ShiftStep(es, 0, n, p);
    ShiftAscends(es, n, p + 1, y);
  }

  /** Where a region goes, from the edits alone. */
  lemma {:induction false} CarriedAt(es: seq<Edit>, rs: seq<Region>, n: nat, i: nat)
    requires Ordered(es, 0, n) && OneByte(es) && InBounds(rs, n) && i < |rs|
    ensures Shifted(es, 0, n, rs[i].caret) >= 0 && Shifted(es, 0, n, rs[i].tail) >= 0
    ensures var out := CarryRegions(Build(es, n), n, rs, 0, 0)[i];
            && out == At(Shifted(es, 0, n, rs[i].caret), Shifted(es, 0, n, rs[i].tail))
            && out.Lo() == Shifted(es, 0, n, rs[i].Lo()) && out.Hi() == Shifted(es, 0, n, rs[i].Hi())
  {
    BuildApplies(es, Fill(0, n));
    CarryPlain(Build(es, n), rs[i].caret);
    CarryPlain(Build(es, n), rs[i].tail);
    BuildTransform(es, 0, n, rs[i].caret);
    BuildTransform(es, 0, n, rs[i].tail);
    ShiftAscends(es, n, rs[i].Lo(), rs[i].Hi());
  }

  lemma {:induction false} CarriedSpan(es: seq<Edit>, rs: seq<Region>, n: nat, i: nat)
    requires Ordered(es, 0, n) && OneByte(es) && InBounds(rs, n) && i < |rs|
    ensures var out := CarryRegions(Build(es, n), n, rs, 0, 0)[i];
            && out.Lo() == Shifted(es, 0, n, rs[i].Lo()) && out.Hi() == Shifted(es, 0, n, rs[i].Hi())
            && out.Lo() <= out.Hi()
  {
    CarriedAt(es, rs, n, i);
  }

  lemma {:induction false} CarriedPair(es: seq<Edit>, rs: seq<Region>, n: nat, k: nat, x: int, y: int)
    requires Ordered(es, 0, n) && OneByte(es) && InBounds(rs, n) && 0 < k < |rs|
    requires x == Shifted(es, 0, n, rs[k - 1].Hi()) && y == Shifted(es, 0, n, rs[k].Lo())
    ensures var out := CarryRegions(Build(es, n), n, rs, 0, 0);
            out[k - 1].Hi() == x && out[k].Lo() == y
  {
    CarriedSpan(es, rs, n, k - 1);
    CarriedSpan(es, rs, n, k);
  }

  lemma GapOverlap(out: seq<Region>, k: nat, x: int, y: int, meets: bool)
    requires 0 < k < |out| && out[k - 1].Hi() == x && out[k].Lo() == y
    requires x <= y && (x == y <==> meets)
    ensures out[k - 1].Hi() <= out[k].Hi() && (OverlapsPrevious(out, k) <==> meets)
  {
  }

  // ----- carets in a sorted selection

  lemma {:induction false} OwnCaret(rs: seq<Region>, i: nat, p: int)
    requires Sorted(rs) && i < |rs| && rs[i].Lo() <= p <= rs[i].Hi()
    ensures CaretAt(rs, p) <==> rs[i].caret == p
  {
    forall j | 0 <= j < |rs| && j != i ensures rs[j].caret != p {
      if j < i {
        assert rs[j].Hi() < rs[i].Lo();
      } else {
        assert rs[i].Hi() < rs[j].Lo();
      }
    }
  }

  lemma {:induction false} NoCaretBetween(rs: seq<Region>, k: nat, p: int)
    requires Sorted(rs) && 0 < k < |rs| && rs[k - 1].Hi() < p < rs[k].Lo()
    ensures !CaretAt(rs, p)
  {
    forall j | 0 <= j < |rs| ensures rs[j].caret != p {
      if j < k - 1 {
        assert rs[j].Hi() < rs[k - 1].Lo();
      } else if j > k {
        assert rs[k].Hi() < rs[j].Lo();
      }
    }
  }

  /** The edits cut out the byte `before` places ahead of every caret. */
  ghost predicate CutsAtCarets(es: seq<Edit>, rs: seq<Region>, n: nat, before: nat) {
    && Ordered(es, 0, n) && OneByte(es)
    && forall p :: 0 <= p < n ==> (Cuts(es, p) <==> CaretAt(rs, p + before))
  }

  // ----- the byte before every caret

  /** A forward region of at least three positions and, after it, a strictly backward one;
      from the first to the second each region touches the one before it and has its caret
      at its start. */
  ghost predicate BackTrips(rs: seq<Region>) {
    exists i: nat, j: nat ::
      && i < j < |rs| && rs[i].caret >= rs[i].tail + 2 && StrictlyBackward(rs[j])
      && forall k :: i < k <= j ==> BackMeets(rs, k)
  }

  predicate BackMeets(rs: seq<Region>, k: nat)
    requires 0 < k < |rs|
  {
    Touch(rs[k - 1], rs[k]) && rs[k].Backward()
  }

  lemma {:induction false} BackRegion(es: seq<Edit>, rs: seq<Region>, n: nat, i: nat)
    requires Sorted(rs) && InBounds(rs, n) && CutsAtCarets(es, rs, n, 1) && i < |rs|
    ensures var out := CarryRegions(Build(es, n), n, rs, 0, 0)[i];
            && (StrictlyForward(out) <==> rs[i].caret >= rs[i].tail + 2)
            && (StrictlyBackward(out) <==> StrictlyBackward(rs[i]))
  {
    var c, t := rs[i].caret, rs[i].tail;
    CarriedAt(es, rs, n, i);
    if t < c {
      OwnCaret(rs, i, t + 1);
      if t + 1 == c {
        ShiftStep(es, 0, n, t);
      } else {
        ShiftApart(es, n, t, t, c);
      }
    } else if c < t {
      OwnCaret(rs, i, c + 1);
      ShiftApart(es, n, c, c, t);
    }
  }

  lemma {:induction false} BackGap(es: seq<Edit>, rs: seq<Region>, n: nat, k: nat)
    requires Sorted(rs) && InBounds(rs, n) && CutsAtCarets(es, rs, n, 1) && 0 < k < |rs|
    ensures Shifted(es, 0, n, rs[k - 1].Hi()) <= Shifted(es, 0, n, rs[k].Lo())
    ensures Shifted(es, 0, n, rs[k - 1].Hi()) == Shifted(es, 0, n, rs[k].Lo()) <==> BackMeets(rs, k)
  {
    var x, y := rs[k - 1].Hi(), rs[k].Lo();
    assert x < y;
    if x + 1 == y {
      OwnCaret(rs, k, y);
      ShiftStep(es, 0, n, x);
    } else {
      NoCaretBetween(rs, k, x + 1);
      ShiftApart(es, n, x, x, y);
    }
  }

  lemma {:induction false} BackPair(es: seq<Edit>, rs: seq<Region>, n: nat, k: nat)
    requires Sorted(rs) && InBounds(rs, n) && CutsAtCarets(es, rs, n, 1) && 0 < k < |rs|
    ensures var out := CarryRegions(Build(es, n), n, rs, 0, 0);
            && out[k - 1].Hi() <= out[k].Hi()
            && (OverlapsPrevious(out, k) <==> BackMeets(rs, k))
  {
    var out := CarryRegions(Build(es, n), n, rs, 0, 0);
    var x, y := Shifted(es, 0, n, rs[k - 1].Hi()), Shifted(es, 0, n, rs[k].Lo());
    CarriedPair(es, rs, n, k, x, y);
    BackGap(es, rs, n, k);
    GapOverlap(out, k, x, y, BackMeets(rs, k));
  }

  lemma {:induction false} BackClash(es: seq<Edit>, rs: seq<Region>, n: nat)
    requires Sorted(rs) && InBounds(rs, n) && CutsAtCarets(es, rs, n, 1)
    ensures Clash(CarryRegions(Build(es, n), n, rs, 0, 0)) <==> BackTrips(rs)
  {
    var out := CarryRegions(Build(es, n), n, rs, 0, 0);
    forall k | 0 < k < |rs|
      ensures out[k - 1].Hi() <= out[k].Hi()
      ensures OverlapsPrevious(out, k) <==> BackMeets(rs, k) {
      BackPair(es, rs, n, k);
    }
    ClashChain(out);
    forall i | 0 <= i < |rs|
      ensures StrictlyForward(out[i]) <==> rs[i].caret >= rs[i].tail + 2
      ensures StrictlyBackward(out[i]) <==> StrictlyBackward(rs[i]) {
      BackRegion(es, rs, n, i);
    }
    BackChains(rs, out);
  }

  lemma {:induction false} BackChains(rs: seq<Region>, out: seq<Region>)
    requires |out| == |rs|
    requires forall k :: 0 < k < |rs| ==> (OverlapsPrevious(out, k) <==> BackMeets(rs, k))
    requires forall i :: 0 <= i < |rs| ==> (StrictlyForward(out[i]) <==> rs[i].caret >= rs[i].tail + 2)
    requires forall i :: 0 <= i < |rs| ==> (StrictlyBackward(out[i]) <==> StrictlyBackward(rs[i]))
    ensures (exists i: nat, j: nat :: i < j < |rs| && Opposed(out[i], out[j]) && Chained(out, i, j)) <==> BackTrips(rs)
  {
    if i: nat, j: nat :| i < j < |rs| && Opposed(out[i], out[j]) && Chained(out, i, j) {
      forall k | i < k <= j ensures BackMeets(rs, k) {
        assert OverlapsPrevious(out, k);
      }
      assert BackMeets(rs, j);
    }
    if i: nat, j: nat :| i < j < |rs| && rs[i].caret >= rs[i].tail + 2 && StrictlyBackward(rs[j])
                         && forall k :: i < k <= j ==> BackMeets(rs, k) {
      assert Opposed(out[i], out[j]);
      forall k | i < k <= j ensures OverlapsPrevious(out, k) {
        assert BackMeets(rs, k);
      }
      assert Chained(out, i, j);
    }
  }

  // ----- the byte under every caret

  /** A strictly forward region and, after it, a backward one of at least three positions;
      from the first to the second each region but the last has its caret at its end and
      touches the next. */
  ghost predicate CaretTrips(rs: seq<Region>) {
    exists i: nat, j: nat ::
      && i < j < |rs| && StrictlyForward(rs[i]) && rs[j].tail >= rs[j].caret + 2
      && forall k :: i < k <= j ==> CaretMeets(rs, k)
  }

  predicate CaretMeets(rs: seq<Region>, k: nat)
    requires 0 < k < |rs|
  {
    Touch(rs[k - 1], rs[k]) && rs[k - 1].Forward()
  }

  lemma {:induction false} CaretRegion(es: seq<Edit>, rs: seq<Region>, n: nat, i: nat)
    requires Sorted(rs) && InBounds(rs, n) && CutsAtCarets(es, rs, n, 0) && i < |rs|
    ensures var out := CarryRegions(Build(es, n), n, rs, 0, 0)[i];
            && (StrictlyForward(out) <==> StrictlyForward(rs[i]))
            && (StrictlyBackward(out) <==> rs[i].tail >= rs[i].caret + 2)
  {
    var c, t := rs[i].caret, rs[i].tail;
    CarriedAt(es, rs, n, i);
    if t < c {
      OwnCaret(rs, i, t);
      ShiftApart(es, n, t, t, c);
    } else if c + 1 == t {
      OwnCaret(rs, i, c);
      ShiftStep(es, 0, n, c);
    } else if c < t {
      OwnCaret(rs, i, c + 1);
      ShiftApart(es, n, c, c + 1, t);
    }
  }

  lemma {:induction false} CaretGap(es: seq<Edit>, rs: seq<Region>, n: nat, k: nat)
    requires Sorted(rs) && InBounds(rs, n) && CutsAtCarets(es, rs, n, 0) && 0 < k < |rs|
    ensures Shifted(es, 0, n, rs[k - 1].Hi()) <= Shifted(es, 0, n, rs[k].Lo())
    ensures Shifted(es, 0, n, rs[k - 1].Hi()) == Shifted(es, 0, n, rs[k].Lo()) <==> CaretMeets(rs, k)
  {
    var x, y := rs[k - 1].Hi(), rs[k].Lo();
    assert x < y;
    if x + 1 == y {
      OwnCaret(rs, k - 1, x);
      ShiftStep(es, 0, n, x);
    } else {
      NoCaretBetween(rs, k, x + 1);
      ShiftApart(es, n, x, x + 1, y);
    }
  }

  lemma {:induction false} CaretPair(es: seq<Edit>, rs: seq<Region>, n: nat, k: nat)
    requires Sorted(rs) && InBounds(rs, n) && CutsAtCarets(es, rs, n, 0) && 0 < k < |rs|
    ensures var out := CarryRegions(Build(es, n), n, rs, 0, 0);
            && out[k - 1].Hi() <= out[k].Hi()
            && (OverlapsPrevious(out, k) <==> CaretMeets(rs, k))
  {
    var out := CarryRegions(Build(es, n), n, rs, 0, 0);
    var x, y := Shifted(es, 0, n, rs[k - 1].Hi()), Shifted(es, 0, n, rs[k].Lo());
    CarriedPair(es, rs, n, k, x, y);
    CaretGap(es, rs, n, k);
    GapOverlap(out, k, x, y, CaretMeets(rs, k));
  }

  lemma {:induction false} CaretClash(es: seq<Edit>, rs: seq<Region>, n: nat)
    requires Sorted(rs) && InBounds(rs, n) && CutsAtCarets(es, rs, n, 0)
    ensures Clash(CarryRegions(Build(es, n), n, rs, 0, 0)) <==> CaretTrips(rs)
  {
    var out := CarryRegions(Build(es, n), n, rs, 0, 0);
    forall k | 0 < k < |rs|
      ensures out[k - 1].Hi() <= out[k].Hi()
      ensures OverlapsPrevious(out, k) <==> CaretMeets(rs, k) {
      CaretPair(es, rs, n, k);
    }
    ClashChain(out);
    forall i | 0 <= i < |rs|
      ensures StrictlyForward(out[i]) <==> StrictlyForward(rs[i])
      ensures StrictlyBackward(out[i]) <==> rs[i].tail >= rs[i].caret + 2 {
      CaretRegion(es, rs, n, i);
    }
    CaretChains(rs, out);
  }

  lemma {:induction false} CaretChains(rs: seq<Region>, out: seq<Region>)
    requires |out| == |rs|
    requires forall k :: 0 < k < |rs| ==> (OverlapsPrevious(out, k) <==> CaretMeets(rs, k))
    requires forall i :: 0 <= i < |rs| ==> (StrictlyForward(out[i]) <==> StrictlyForward(rs[i]))
    requires forall i :: 0 <= i < |rs| ==> (StrictlyBackward(out[i]) <==> rs[i].tail >= rs[i].caret + 2)
    ensures (exists i: nat, j: nat :: i < j < |rs| && Opposed(out[i], out[j]) && Chained(out, i, j)) <==> CaretTrips(rs)
  {
    if i: nat, j: nat :| i < j < |rs| && Opposed(out[i], out[j]) && Chained(out, i, j) {
      forall k | i < k <= j ensures CaretMeets(rs, k) {
        assert OverlapsPrevious(out, k);
      }
      assert CaretMeets(rs, i + 1);
    }
    if i: nat, j: nat :| i < j < |rs| && StrictlyForward(rs[i]) && rs[j].tail >= rs[j].caret + 2
                         && forall k :: i < k <= j ==> CaretMeets(rs, k) {
      assert Opposed(out[i], out[j]);
      forall k | i < k <= j ensures OverlapsPrevious(out, k) {
        assert CaretMeets(rs, k);
      }
      assert Chained(out, i, j);
    }
  }

  // ----- which edits these are

  lemma {:induction false} BackspaceCutsAt(rs: seq<Region>, p: nat)
    ensures Cuts(BackspaceEdits(rs), p) <==> CaretAt(rs, p + 1)
    ensures OneByte(BackspaceEdits(rs))
  {
    if rs != [] {
      BackspaceCutsAt(rs[1..], p);
      CaretAtTail(rs, p + 1);
      if rs[0].caret > 0 {
        var es := BackspaceEdits(rs);
        assert es[1..] == BackspaceEdits(rs[1..]);
        CutsTail(es, p);
        assert forall i :: 0 < i < |es| ==> es[i] == es[1..][i - 1];
      }
    }
  }

  lemma {:induction false} CaretAtTail(rs: seq<Region>, p: int)
    requires rs != []
    ensures CaretAt(rs, p) <==> rs[0].caret == p || CaretAt(rs[1..], p)
  {
    if i :| 0 <= i < |rs| && rs[i].caret == p {
      assert i > 0 ==> rs[1..][i - 1].caret == p;
    }
    if i :| 0 <= i < |rs| - 1 && rs[1..][i].caret == p {
      assert rs[i + 1].caret == p;
    }
  }

  lemma {:induction false} DeleteCursorCutsAt(rs: seq<Region>, n: nat, p: nat)
    requires p < n
    ensures Cuts(DeleteCursorEdits(rs, n), p) <==> CaretAt(rs, p)
    ensures OneByte(DeleteCursorEdits(rs, n))
  {
    if rs != [] {
      DeleteCursorCutsAt(rs[1..], n, p);
      CaretAtTail(rs, p);
      if rs[0].caret < n {
        var es := DeleteCursorEdits(rs, n);
        assert es[1..] == DeleteCursorEdits(rs[1..], n);
        CutsTail(es, p);
        assert forall i :: 0 < i < |es| ==> es[i] == es[1..][i - 1];
      }
    }
  }

  lemma {:induction false} CutsByIndex(es: seq<Edit>, rs: seq<Region>, p: int)
    requires |es| == |rs| && forall i :: 0 <= i < |rs| ==> es[i].beg == rs[i].caret
    ensures Cuts(es, p) <==> CaretAt(rs, p)
  {
    if i :| 0 <= i < |es| && es[i].beg == p {
      assert rs[i].caret == p;
    }
    if i :| 0 <= i < |rs| && rs[i].caret == p {
      assert es[i].beg == p;
    }
  }

  /** Backspace clashes exactly on this condition on the regions before it. */
  lemma {:induction false} BackspaceClashes(rs: seq<Region>, n: nat)
    requires Sorted(rs) && InBounds(rs, n)
    ensures Clash(CarryRegions(Build(BackspaceEdits(rs), n), n, rs, 0, 0)) <==> BackTrips(rs)
  {
    BackspaceOrdered(rs, 0, n);
    forall p | 0 <= p < n ensures Cuts(BackspaceEdits(rs), p) <==> CaretAt(rs, p + 1) {
      BackspaceCutsAt(rs, p);
    }
    BackspaceCutsAt(rs, 0);
    BackClash(BackspaceEdits(rs), rs, n);
  }

  /** So does deleting under the carets, */
  lemma {:induction false} DeleteCursorClashes(rs: seq<Region>, n: nat)
    requires Sorted(rs) && InBounds(rs, n)
    ensures Clash(CarryRegions(Build(DeleteCursorEdits(rs, n), n), n, rs, 0, 0)) <==> CaretTrips(rs)
  {
    DeleteCursorOrdered(rs, 0, n);
    forall p | 0 <= p < n ensures Cuts(DeleteCursorEdits(rs, n), p) <==> CaretAt(rs, p) {
      DeleteCursorCutsAt(rs, n, p);
    }
    DeleteCursorOneByte(rs, n);
    CaretClash(DeleteCursorEdits(rs, n), rs, n);
  }

  lemma {:induction false} DeleteCursorOneByte(rs: seq<Region>, n: nat)
    ensures OneByte(DeleteCursorEdits(rs, n))
  {
    if rs != [] {
      DeleteCursorOneByte(rs[1..], n);
    }
  }

  /** and changing the bytes under the carets, whatever they are changed to. */
  lemma {:induction false} ChangeClashes(rs: seq<Region>, text: Doc, n: nat)
    requires Sorted(rs) && InBounds(rs, n)
    ensures Clash(CarryRegions(Build(ChangeEdits(rs, text), n), n, rs, 0, 0)) <==> CaretTrips(rs)
  {
    ChangeOrdered(rs, text, n);
    ChangeEditsAt(rs, text);
    forall p ensures Cuts(ChangeEdits(rs, text), p) <==> CaretAt(rs, p) {
      CutsByIndex(ChangeEdits(rs, text), rs, p);
    }
    CaretClash(ChangeEdits(rs, text), rs, n);
  }
}
