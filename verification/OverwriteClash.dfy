/** When the first digit of a byte, typed in overwrite mode, brings regions together that
    point in opposite directions. */
module OverwriteClash {
  import opened Prelude
  import opened Builder
  import opened Region
  import opened Selections
  import opened SelectionLaws
  import opened Transport
  import opened Operations
  import opened ChangeLaws
  import opened ClashLaws
  import opened Absorption

  /** Two regions that touch, the first strictly forward and the second not, or the first a
      cursor and the second strictly forward. */
  predicate HalfMeets(rs: seq<Region>, k: nat)
    requires 0 < k < |rs|
  {
    && Touch(rs[k - 1], rs[k])
    && if StrictlyForward(rs[k]) then IsCursor(rs[k - 1]) else StrictlyForward(rs[k - 1])
  }

  predicate HalfTrips(rs: seq<Region>) {
    exists k :: 0 < k < |rs| && HalfMeets(rs, k)
  }

  // ----- where offsets go if every byte is replaced by one byte

  lemma {:induction false} FixedShift(es: seq<Edit>, last: nat, n: nat, x: nat)
    requires Ordered(es, last, n) && OneForOne(es) && last <= x <= n && !Cuts(es, x)
    ensures Shifted(es, last, n, x) == x - last
  {
    if es != [] {
      CutsTail(es, x);
      if x > es[0].beg {
        FixedShift(es[1..], es[0].end, n, x);
      }
    }
  }

  lemma {:induction false} EndShift(es: seq<Edit>, last: nat, n: nat)
    requires Ordered(es, last, n) && OneForOne(es) && last <= n && Cuts(es, n)
    ensures Shifted(es, last, n, n) == n + 1 - last
  {
    CutsTail(es, n);
    if es[0].beg < n {
      EndShift(es[1..], es[0].end, n);
    } else {
      PastEnd(es[1..], n);
    }
  }

  lemma PastEnd(es: seq<Edit>, n: nat)
    requires Ordered(es, n + 1, n)
    ensures Shifted(es, n + 1, n, n + 1) == 0
  {
  }

  /** The edits replace the byte under every caret by one byte. */
  ghost predicate ReplacesAtCarets(es: seq<Edit>, rs: seq<Region>, n: nat) {
    && Ordered(es, 0, n) && OneForOne(es)
    && forall p :: Cuts(es, p) <==> CaretAt(rs, p)
  }

  lemma {:induction false} EditsAtCarets(es: seq<Edit>, rs: seq<Region>, n: nat)
    requires Ordered(es, 0, n) && OneForOne(es) && |es| == |rs|
    requires forall i :: 0 <= i < |rs| ==> es[i].beg == rs[i].caret
    ensures ReplacesAtCarets(es, rs, n)
  {
    forall p ensures Cuts(es, p) <==> CaretAt(rs, p) {
      CutsByIndex(es, rs, p);
    }
  }

  /** Where caret k goes. */
  function Goes(es: seq<Edit>, rs: seq<Region>, n: nat, k: nat): int
    requires k < |rs| && Ordered(es, 0, n)
  {
    Shifted(es, 0, n, rs[k].caret)
  }

  /** The offset after a caret: that of the next one, if it stands right there. */
  lemma {:induction false} GoesOn(es: seq<Edit>, rs: seq<Region>, n: nat, k: nat)
    requires Sorted(rs) && InBounds(rs, n) && ReplacesAtCarets(es, rs, n) && k < |rs|
    ensures Goes(es, rs, n, k) >= rs[k].caret + 1
    ensures StrictlyBackward(rs[k]) ==> Goes(es, rs, n, k) == rs[k].caret + 1
    ensures rs[k].Forward() ==>
              Goes(es, rs, n, k) == if k + 1 < |rs| && BackMeets(rs, k + 1) then Goes(es, rs, n, k + 1) else rs[k].caret + 1
    decreases |rs| - k
  {
    var c := rs[k].caret;
    OwnCaret(rs, k, c);
    BeforeEnd(rs, n, k);
    if c == n {
      EndShift(es, 0, n);
    } else {
      ShiftStep(es, 0, n, c);
      if StrictlyBackward(rs[k]) {
        OwnCaret(rs, k, c + 1);
        FixedShift(es, 0, n, c + 1);
      } else if k + 1 < |rs| && BackMeets(rs, k + 1) {
        GoesOn(es, rs, n, k + 1);
      } else {
        NoCaretAfter(rs, k);
        FixedShift(es, 0, n, c + 1);
      }
    }
  }

  lemma BeforeEnd(rs: seq<Region>, n: nat, k: nat)
    requires Sorted(rs) && InBounds(rs, n) && k < |rs|
    ensures k + 1 < |rs| ==> rs[k].caret < n
  {
    if k + 1 < |rs| {
      assert rs[k].Hi() < rs[k + 1].Lo();
    }
  }

  lemma {:induction false} NoCaretAfter(rs: seq<Region>, k: nat)
    requires Sorted(rs) && k < |rs| && rs[k].Forward() && !(k + 1 < |rs| && BackMeets(rs, k + 1))
    ensures !CaretAt(rs, rs[k].caret + 1)
  {
    forall j | 0 <= j < |rs| ensures rs[j].caret != rs[k].caret + 1 {
      if j < k {
        assert rs[j].Hi() < rs[k].Lo();
      } else if j > k + 1 {
        assert rs[k].Hi() < rs[k + 1].Lo() && rs[k + 1].Hi() < rs[j].Lo();
      } else if j == k + 1 {
        assert rs[k].Hi() < rs[j].Lo() && !BackMeets(rs, j);
      }
    }
  }

  /** The regions after the digit: a caret is drawn back onto its half-typed byte. */
  lemma {:induction false} HalfRegion(es: seq<Edit>, rs: seq<Region>, n: nat, k: nat)
    requires Sorted(rs) && InBounds(rs, n) && ReplacesAtCarets(es, rs, n) && k < |rs|
    ensures var out, to := CarryRegions(Build(es, n), n, rs, -1, 0)[k], Goes(es, rs, n, k);
            && to >= rs[k].caret + 1 && out.caret == to - 1
            && out.tail == if IsCursor(rs[k]) then to else rs[k].tail
  {
    var d := Build(es, n);
    BuildApplies(es, Fill(0, n));
    CarryPlain(d, rs[k].caret);
    CarryPlain(d, rs[k].tail);
    BuildTransform(es, 0, n, rs[k].caret);
    BuildTransform(es, 0, n, rs[k].tail);
    TransformEnd(d.els, 0, n);
    GoesOn(es, rs, n, k);
    if !IsCursor(rs[k]) {
      OwnCaret(rs, k, rs[k].tail);
      FixedShift(es, 0, n, rs[k].tail);
    }
  }

  predicate HalfReaches(rs: seq<Region>, k: nat)
    requires 0 < k < |rs|
  {
    Touch(rs[k - 1], rs[k]) && (IsCursor(rs[k - 1]) || (StrictlyForward(rs[k - 1]) && rs[k].Backward()))
  }

  lemma {:induction false} HalfPair(es: seq<Edit>, rs: seq<Region>, n: nat, k: nat)
    requires Sorted(rs) && InBounds(rs, n) && ReplacesAtCarets(es, rs, n) && 0 < k < |rs|
    ensures var out := CarryRegions(Build(es, n), n, rs, -1, 0);
            && out[k - 1].Hi() <= out[k].Hi()
            && (OverlapsPrevious(out, k) <==> HalfReaches(rs, k))
  {
    assert rs[k - 1].Hi() < rs[k].Lo();
    HalfRegion(es, rs, n, k - 1);
    HalfRegion(es, rs, n, k);
    GoesOn(es, rs, n, k - 1);
    GoesOn(es, rs, n, k);
  }

  lemma {:induction false} Flip(rs: seq<Region>, i: nat, j: nat) returns (k: nat)
    requires i < j < |rs| && StrictlyForward(rs[i]) != StrictlyForward(rs[j])
    ensures i < k <= j && StrictlyForward(rs[k - 1]) != StrictlyForward(rs[k])
  {
    if StrictlyForward(rs[j - 1]) != StrictlyForward(rs[j]) {
      k := j;
    } else {
      k := Flip(rs, i, j - 1);
    }
  }

  lemma {:induction false} HalfChains(rs: seq<Region>, out: seq<Region>)
    requires |out| == |rs|
    requires forall k :: 0 < k < |rs| ==> (OverlapsPrevious(out, k) <==> HalfReaches(rs, k))
    requires forall k :: 0 <= k < |rs| ==> (StrictlyForward(out[k]) <==> StrictlyForward(rs[k]))
    requires forall k :: 0 <= k < |rs| ==> StrictlyForward(out[k]) || StrictlyBackward(out[k])
    ensures (exists i: nat, j: nat :: i < j < |rs| && Opposed(out[i], out[j]) && Chained(out, i, j)) <==> HalfTrips(rs)
  {
    if i: nat, j: nat :| i < j < |rs| && Opposed(out[i], out[j]) && Chained(out, i, j) {
      var k := Flip(rs, i, j);
      assert OverlapsPrevious(out, k);
      assert HalfMeets(rs, k);
    }
    if k :| 0 < k < |rs| && HalfMeets(rs, k) {
      assert OverlapsPrevious(out, k);
      assert Opposed(out[k - 1], out[k]) && Chained(out, k - 1, k);
    }
  }

  lemma {:induction false} HalfDirection(es: seq<Edit>, rs: seq<Region>, n: nat, k: nat)
    requires Sorted(rs) && InBounds(rs, n) && ReplacesAtCarets(es, rs, n) && k < |rs|
    ensures var out := CarryRegions(Build(es, n), n, rs, -1, 0)[k];
            if StrictlyForward(rs[k]) then StrictlyForward(out) else StrictlyBackward(out)
  {
    HalfRegion(es, rs, n, k);
    GoesOn(es, rs, n, k);
  }

  lemma {:induction false} HalfClash(es: seq<Edit>, rs: seq<Region>, n: nat)
    requires Sorted(rs) && InBounds(rs, n) && ReplacesAtCarets(es, rs, n)
    ensures Clash(CarryRegions(Build(es, n), n, rs, -1, 0)) <==> HalfTrips(rs)
  {
    var out := CarryRegions(Build(es, n), n, rs, -1, 0);
    forall k | 0 < k < |rs|
      ensures out[k - 1].Hi() <= out[k].Hi()
      ensures OverlapsPrevious(out, k) <==> HalfReaches(rs, k) {
      HalfPair(es, rs, n, k);
    }
    ClashChain(out);
    forall k | 0 <= k < |rs|
      ensures if StrictlyForward(rs[k]) then StrictlyForward(out[k]) else StrictlyBackward(out[k]) {
      HalfDirection(es, rs, n, k);
    }
    HalfChains(rs, out);
  }

  /** The first digit in overwrite mode clashes exactly on this condition. */
  lemma {:induction false} OverwriteClashes(doc: Doc, rs: seq<Region>, top: Byte)
    requires Sorted(rs) && InBounds(rs, |doc|)
    ensures Clash(CarryRegions(Build(OverwriteHalfEdits(doc, rs, top), |doc|), |doc|, rs, -1, 0)) <==> HalfTrips(rs)
  {
    var es := OverwriteHalfEdits(doc, rs, top);
    OverwriteHalfOrdered(doc, rs, top);
    OverwriteHalfEditsAt(doc, rs, top);
    EditsAtCarets(es, rs, |doc|);
    HalfClash(es, rs, |doc|);
  }
}
