/** Carrying a selection through a delta. */
module Transport {
  import opened Prelude
  import opened Delta
  import opened Region
  import opened Selections
  import opened SelectionLaws

  /** An offset that went below zero wraps around, as in a cast to an unsigned word. */
  function AsUnsigned(x: int): nat {
    if x < 0 then x % 0x1_0000_0000_0000_0000 else x
  }

  /** Where one end of a region goes: the overflow position stays the overflow position,
      any other offset follows its byte; the result is shifted by `shift` and clamped. */
  function CarryOffset(d: Delta, maxLen: nat, offset: nat, shift: int): nat {
    var newLen := NewLen(d);
    if maxLen == offset then AsUnsigned(newLen + shift)
    else Min(newLen, AsUnsigned(Transform(d, offset, true) + shift))
  }

  function CarryRegion(d: Delta, maxLen: nat, r: Region, caretShift: int, tailShift: int): Region {
    At(CarryOffset(d, maxLen, r.caret, caretShift), CarryOffset(d, maxLen, r.tail, tailShift))
  }

  function CarryRegions(d: Delta, maxLen: nat, rs: seq<Region>, caretShift: int, tailShift: int): (out: seq<Region>)
    ensures |out| == |rs|
    ensures forall i :: 0 <= i < |rs| ==> out[i] == CarryRegion(d, maxLen, rs[i], caretShift, tailShift)
  {
    seq(|rs|, i requires 0 <= i < |rs| => CarryRegion(d, maxLen, rs[i], caretShift, tailShift))
  }

  /** `apply_delta_offset_carets` */
  function CarryShifted(s: Sel, d: Delta, caretShift: int, tailShift: int, maxLen: nat): Outcome<Sel> {
    if NewLen(d) == 0 then Ok(Cleared)
    else MapSelections(Singles(CarryRegions(d, maxLen, s.regions, caretShift, tailShift)), s.main)
  }

  /** `apply_delta` */
  function Carry(s: Sel, d: Delta, maxLen: nat): Outcome<Sel> {
    CarryShifted(s, d, 0, 0, maxLen)
  }

  // ----- offsets

  lemma {:induction false} TransformBound(els: seq<Element>, ix: nat)
    ensures TransformEls(els, ix, true) <= NewLenEls(els)
  {
    if els != [] {
      TransformBound(els[1..], ix);
    }
  }

  lemma {:induction false} TransformMonotone(els: seq<Element>, i: nat, j: nat)
    requires i <= j
    ensures TransformEls(els, i, true) <= TransformEls(els, j, true)
  {
    if els != [] {
      TransformMonotone(els[1..], i, j);
    }
  }

  /** The end of the document goes to the end of the new document. */
  lemma {:induction false} TransformEnd(els: seq<Element>, from: nat, n: nat)
    requires ValidEls(els, from, n)
    ensures TransformEls(els, n, true) == NewLenEls(els)
  {
    if els != [] {
      TransformEnd(els[1..], if els[0].Copy? then els[0].end else from, n);
    }
  }

  /** The byte at offset i of the base is copied by the delta. */
  predicate Survives(els: seq<Element>, i: nat) {
    exists k :: 0 <= k < |els| && els[k].Copy? && els[k].beg <= i < els[k].end
  }

  /** A surviving byte is found at its transformed offset, and offsets after it stay after it. */
  lemma {:induction false} TransformSurvivor(els: seq<Element>, from: nat, base: Doc, i: nat)
    requires ValidEls(els, from, |base|) && Survives(els, i)
    ensures from <= i < |base|
    ensures TransformEls(els, i, true) < |ApplyEls(els, from, base)|
    ensures ApplyEls(els, from, base)[TransformEls(els, i, true)] == base[i]
    ensures forall j: nat :: i < j ==> TransformEls(els, i, true) < TransformEls(els, j, true)
  {
    var k :| 0 <= k < |els| && els[k].Copy? && els[k].beg <= i < els[k].end;
    if k == 0 {
      FirstCopySurvives(els, from, base, i);
    } else {
      assert els[1..][k - 1] == els[k];
      assert Survives(els[1..], i);
      TransformSurvivor(els[1..], if els[0].Copy? then els[0].end else from, base, i);
      LaterSurvivor(els, from, base, i);
    }
  }

  lemma {:induction false} FirstCopySurvives(els: seq<Element>, from: nat, base: Doc, i: nat)
    requires ValidEls(els, from, |base|) && els != [] && els[0].Copy? && els[0].beg <= i < els[0].end
    ensures from <= i < |base| && TransformEls(els, i, true) == i - els[0].beg
    ensures i - els[0].beg < |ApplyEls(els, from, base)| && ApplyEls(els, from, base)[i - els[0].beg] == base[i]
    ensures forall j: nat :: i < j ==> TransformEls(els, i, true) < TransformEls(els, j, true)
  {
    var b, e := els[0].beg, els[0].end;
    var copied, rest := base[b..e], ApplyEls(els[1..], e, base);
    assert ApplyEls(els, from, base) == copied + rest && copied[i - b] == base[i];
    forall j: nat | i < j ensures TransformEls(els, i, true) < TransformEls(els, j, true) {
    }
  }

  lemma {:induction false} LaterSurvivor(els: seq<Element>, from: nat, base: Doc, i: nat)
    requires ValidEls(els, from, |base|) && els != []
    requires var next := if els[0].Copy? then els[0].end else from;
             && next <= i < |base| && TransformEls(els[1..], i, true) < |ApplyEls(els[1..], next, base)|
             && ApplyEls(els[1..], next, base)[TransformEls(els[1..], i, true)] == base[i]
    requires forall j: nat :: i < j ==> TransformEls(els[1..], i, true) < TransformEls(els[1..], j, true)
    ensures TransformEls(els, i, true) < |ApplyEls(els, from, base)|
    ensures ApplyEls(els, from, base)[TransformEls(els, i, true)] == base[i]
    ensures forall j: nat :: i < j ==> TransformEls(els, i, true) < TransformEls(els, j, true)
  {
    var next := if els[0].Copy? then els[0].end else from;
    var head := if els[0].Copy? then base[els[0].beg..els[0].end] else els[0].text;
    assert ApplyEls(els, from, base) == head + ApplyEls(els[1..], next, base);
    forall j: nat | i <= j ensures TransformEls(els, j, true) == |head| + TransformEls(els[1..], j, true) {
    }
  }

  // ----- regions

  /** On offsets of the document both special cases agree with the plain transformation. */
  lemma CarryPlain(d: Delta, ix: nat)
    requires Valid(d) && ix <= d.baseLen
    ensures CarryOffset(d, d.baseLen, ix, 0) == TransformEls(d.els, ix, true) <= NewLen(d)
  {
    TransformBound(d.els, ix);
    TransformEnd(d.els, 0, d.baseLen);
  }

  lemma CarryMonotone(d: Delta, i: nat, j: nat)
    requires Valid(d) && i <= j <= d.baseLen
    ensures CarryOffset(d, d.baseLen, i, 0) <= CarryOffset(d, d.baseLen, j, 0) <= NewLen(d)
  {
    CarryPlain(d, i);
    CarryPlain(d, j);
    TransformMonotone(d.els, i, j);
  }

  /** Before merging, each end of a region that stands on a surviving byte moves to that
      byte's new offset, and the regions stay in order, in bounds and on their side. */
  lemma CarriedRegions(rs: seq<Region>, d: Delta, base: Doc)
    requires ValidOn(d, base) && Sorted(rs) && InBounds(rs, |base|)
    ensures var out := CarryRegions(d, |base|, rs, 0, 0);
            && StartsAscend(out) && Unflagged(out) && InBounds(out, NewLen(d))
            && (forall i :: 0 <= i < |rs| ==>
                  && (rs[i].Forward() ==> out[i].Forward())
                  && (rs[i].Backward() ==> out[i].Backward())
                  && (Survives(d.els, rs[i].caret) ==> SameByte(d, base, rs[i].caret, out[i].caret))
                  && (Survives(d.els, rs[i].tail) ==> SameByte(d, base, rs[i].tail, out[i].tail)))
  {
    var n, out := |base|, CarryRegions(d, |base|, rs, 0, 0);
    forall i | 0 <= i < |rs|
      ensures out[i].Lo() == CarryOffset(d, n, rs[i].Lo(), 0) && out[i].Hi() == CarryOffset(d, n, rs[i].Hi(), 0)
      ensures rs[i].Forward() ==> out[i].Forward()
      ensures rs[i].Backward() ==> out[i].Backward()
      ensures Survives(d.els, rs[i].caret) ==> SameByte(d, base, rs[i].caret, out[i].caret)
      ensures Survives(d.els, rs[i].tail) ==> SameByte(d, base, rs[i].tail, out[i].tail)
      ensures out[i].Hi() <= NewLen(d)
    {
      CarryMonotone(d, rs[i].Lo(), rs[i].Hi());
      SurvivorCarried(d, base, rs[i].caret);
      SurvivorCarried(d, base, rs[i].tail);
    }
    forall i, j | 0 <= i < j < |rs| ensures out[i].Lo() <= out[j].Lo() {
      CarryMonotone(d, rs[i].Lo(), rs[j].Lo());
    }
  }

  /** Offset `to` of the new document holds the byte that was at offset `from`. */
  ghost predicate SameByte(d: Delta, base: Doc, from: nat, to: nat)
    requires ValidOn(d, base)
  {
    from < |base| && to < |Apply(d, base)| && Apply(d, base)[to] == base[from]
  }

  lemma SurvivorCarried(d: Delta, base: Doc, ix: nat)
    requires ValidOn(d, base) && ix <= |base|
    ensures Survives(d.els, ix) ==> SameByte(d, base, ix, CarryOffset(d, |base|, ix, 0))
  {
    CarryPlain(d, ix);
    if Survives(d.els, ix) {
      TransformSurvivor(d.els, 0, base, ix);
    }
  }

  /** A selection that points one way is carried through any delta to a sorted, disjoint,
      in-bounds selection. */
  lemma CarryKeepsForm(s: Sel, d: Delta, base: Doc, backward: bool)
    requires ValidOn(d, base)
    requires WellFormed(s) && InBounds(s.regions, |base|) && SameWay(s.regions, backward)
    ensures var r := Carry(s, d, |base|);
            r.Ok? && WellFormed(r.value) && InBounds(r.value.regions, |Apply(d, base)|)
  {
    ApplyElsLength(d.els, 0, base);
    if NewLen(d) != 0 {
      var out := CarryRegions(d, |base|, s.regions, 0, 0);
      CarriedRegions(s.regions, d, base);
      assert SameWay(out, backward) by {
        forall i | 0 <= i < |out| ensures Along(out[i], backward) {
          assert Along(s.regions[i], backward);
        }
      }
      MapSinglesSameWay(out, s.main, backward, NewLen(d));
    }
  }

  /** Without a common direction it is well-formed too, unless the delta brings two regions
      together that still point against each other: exactly then the editor panics. */
  lemma CarryOutcome(s: Sel, d: Delta, base: Doc)
    requires ValidOn(d, base) && WellFormed(s) && InBounds(s.regions, |base|)
    ensures var r := Carry(s, d, |base|);
            && (r.Panic? <==> Apply(d, base) != [] && Clash(CarryRegions(d, |base|, s.regions, 0, 0)))
            && (r.Ok? ==> WellFormed(r.value) && InBounds(r.value.regions, |Apply(d, base)|))
  {
    ApplyElsLength(d.els, 0, base);
    if NewLen(d) != 0 {
      var out := CarryRegions(d, |base|, s.regions, 0, 0);
      CarriedRegions(s.regions, d, base);
      FlattenSingles(out);
      FlattenSinglesPrefix(out, s.main + 1);
      MapCanonical(Singles(out), s.main);
      if Carry(s, d, |base|).Ok? {
        CoverInBounds(Carry(s, d, |base|).value.regions, out, NewLen(d));
      }
    }
  }
}
