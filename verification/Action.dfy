/**
 Undoable actions: inverting a delta, and fusing two consecutive deltas into one by
 rebasing both onto one union string.
 */
module Action {
  import opened Prelude
  import opened Subset
  import opened Delta
  import opened DeltaLaws

  /** The delta that leads back from the edited document to `base`. */
  function Invert(d: Delta, base: Doc): Delta
    requires ValidOn(d, base)
  {
    FactorMeaning(d, base);
    var (inserts, deletions) := Factor(d);
    var inserted := InsertedSubset(inserts);
    var deletedNow := DeleteFrom(Complement(deletions), base);
    var deletionsFromBase := TransformExpand(deletions, inserted);
    Synthesize(deletedNow, deletionsFromBase, inserted)
  }

  /** The insertions and deletions of both deltas, read in the string that holds every byte
      of either, and the insertions of both read in the text before the second deletion. */
  function SubsetsForChain(first: Delta, next: Delta): (r: (Subset, Subset, Subset))
    requires Valid(first) && Valid(next) && next.baseLen == NewLen(first)
    ensures |r.0| == |r.1|
    ensures |r.2| == |Factor(next).0|
  {
    FactorLength(first);
    FactorLength(next);
    var (ins1, del1) := Factor(first);
    var (ins2, del2) := Factor(next);

    var insertsInMidUnion := InsertedSubset(ins1);
    var deletesFromMidUnion := TransformExpand(del1, InsertedSubset(ins1));

    var unionIns := TransformExpandInsert(ins2, deletesFromMidUnion);
    var newInserts := InsertedSubset(unionIns);
    ExpandedInsertLength(ins2, deletesFromMidUnion);
    var preExpand := TransformExpand(del2, deletesFromMidUnion);
    EmptyExpand(preExpand, newInserts);
    var newDeletes :=
      if true !in newInserts then preExpand else TransformExpand(preExpand, newInserts);
    var rebasedDeletes := TransformExpand(deletesFromMidUnion, newInserts);
    var deletesFromUnion := Union(rebasedDeletes, newDeletes);

    var rebasedInserts := TransformExpand(insertsInMidUnion, newInserts);
    var insertsInUnion := Union(rebasedInserts, newInserts);

    var insertsInMidText := TransformShrink(insertsInMidUnion, deletesFromMidUnion);
    var insertsInPrefinal := TransformUnion(insertsInMidText, InsertedSubset(ins2));
    (insertsInUnion, deletesFromUnion, insertsInPrefinal)
  }

  /** One delta with the effect of `first` followed by `next`; `mid` is the text between them. */
  function Chain(first: Delta, mid: Doc, next: Delta): Delta
    requires Valid(first) && |mid| == NewLen(first) && ValidOn(next, mid)
  {
    FactorMeaning(next, mid);
    var prefinal := ApplyInsert(Factor(next).0, mid);
    var (inserted, deleted, insertsInPrefinal) := SubsetsForChain(first, next);
    var tombstones := DeleteFrom(Complement(insertsInPrefinal), prefinal);
    ChainTombstones(first, mid, next);
    Synthesize(tombstones, inserted, deleted)
  }

  // ----- shape

  lemma {:induction false} FactorLength(d: Delta)
    requires Valid(d)
    ensures var (ins, del) := Factor(d);
            && |del| == d.baseLen == CountZero(InsertedSubset(ins))
            && CountZero(TransformExpand(del, InsertedSubset(ins))) == NewLen(d)
  {
    var base: Doc := seq(d.baseLen, _ => 0);
    FactorMeaning(d, base);
    ApplyElsLength(d.els, 0, base);
  }

  lemma {:induction false} ExpandedInsertLength(ins: InsertDelta, over: Subset)
    requires CountZero(InsertedSubset(ins)) == CountZero(over)
    ensures CountZero(InsertedSubset(TransformExpandInsert(ins, over))) == |over|
    decreases |ins| + |over|
  {
    if over != [] && over[0] {
      ExpandedInsertLength(ins, over[1..]);
    } else if ins != [] {
      ExpandedInsertLength(ins[1..], if ins[0].Base? then over[1..] else over);
    } else {
      assert over == [];
    }
  }

  /** Expanding around nothing changes nothing, so the shortcut for it is sound. */
  lemma {:induction false} EmptyExpand(s: Subset, over: Subset)
    requires |s| == CountZero(over)
    ensures true !in over ==> |over| == |s| && TransformExpand(s, over) == s
  {
    if over != [] {
      assert over == [over[0]] + over[1..];
      EmptyExpand(if over[0] then s else s[1..], over[1..]);
    }
  }

  // ----- rebasing the second delta

  /** The text before the second deletion is the union string without what the first
      deletion hides. */
  lemma {:induction false} RebasedInsert(ins: InsertDelta, over: Subset, text: Doc)
    requires CountZero(InsertedSubset(ins)) == CountZero(over) && |over| == |text|
    requires CountZero(InsertedSubset(TransformExpandInsert(ins, over))) == |over|
    ensures var expanded := TransformExpandInsert(ins, over);
            DeleteFrom(TransformExpand(over, InsertedSubset(expanded)), ApplyInsert(expanded, text))
            == ApplyInsert(ins, DeleteFrom(over, text))
    decreases |ins| + |over|
  {
    if over != [] && over[0] {
      ExpandedInsertLength(ins, over[1..]);
      RebasedInsert(ins, over[1..], text[1..]);
    } else if ins == [] {
      assert over == [];
    } else if ins[0].Base? {
      ExpandedInsertLength(ins[1..], over[1..]);
      RebasedInsert(ins[1..], over[1..], text[1..]);
    } else {
      ExpandedInsertLength(ins[1..], over);
      RebasedInsert(ins[1..], over, text);
    }
  }

  /** The same for a subset of the text that the first deletion works on. */
  lemma {:induction false} RebasedSubset(ins: InsertDelta, over: Subset, s: Subset, fill: bool)
    requires CountZero(InsertedSubset(ins)) == CountZero(over) && |over| == |s|
    requires CountZero(InsertedSubset(TransformExpandInsert(ins, over))) == |over|
    ensures var added := InsertedSubset(TransformExpandInsert(ins, over));
            TransformShrink(Spread(s, added, fill), TransformExpand(over, added))
            == Spread(TransformShrink(s, over), InsertedSubset(ins), fill)
    decreases |ins| + |over|
  {
    if over != [] && over[0] {
      ExpandedInsertLength(ins, over[1..]);
      RebasedSubset(ins, over[1..], s[1..], fill);
    } else if ins == [] {
      assert over == [];
    } else if ins[0].Base? {
      ExpandedInsertLength(ins[1..], over[1..]);
      RebasedSubset(ins[1..], over[1..], s[1..], fill);
    } else {
      ExpandedInsertLength(ins[1..], over);
      RebasedSubset(ins[1..], over, s, fill);
    }
  }

  /** Every byte of the base, of the text in between and of the final text. */
  function UnionText(first: Delta, base: Doc, next: Delta): Doc
    requires ValidOn(first, base) && Valid(next) && next.baseLen == NewLen(first)
  {
    FactorLength(first);
    FactorLength(next);
    var (ins1, del1) := Factor(first);
    var hidden := TransformExpand(del1, InsertedSubset(ins1));
    ExpandedInsertLength(Factor(next).0, hidden);
    ApplyInsert(TransformExpandInsert(Factor(next).0, hidden), ApplyInsert(ins1, base))
  }

  /** Without the insertions of either delta, the union string is the base. */
  lemma {:induction false} UnionWithoutInserts(first: Delta, base: Doc, next: Delta)
    requires ValidOn(first, base) && Valid(next) && next.baseLen == NewLen(first)
    ensures var (inserted, _, _) := SubsetsForChain(first, next);
            && |UnionText(first, base, next)| == |inserted|
            && DeleteFrom(inserted, UnionText(first, base, next)) == base
  {
    FactorMeaning(first, base);
    FactorLength(first);
    FactorLength(next);
    var (ins1, del1) := Factor(first);
    var hidden := TransformExpand(del1, InsertedSubset(ins1));
    var union := TransformExpandInsert(Factor(next).0, hidden);
    ExpandedInsertLength(Factor(next).0, hidden);
    ExpandThenUnion(InsertedSubset(ins1), InsertedSubset(union));
    DeleteInSteps(InsertedSubset(ins1), InsertedSubset(union), UnionText(first, base, next));
    UninsertedIsBase(union, ApplyInsert(ins1, base));
  }

  /** Without the deletions of either delta, the union string is the final text. */
  lemma {:induction false} UnionWithoutDeletes(first: Delta, base: Doc, next: Delta)
    requires ValidOn(first, base) && ValidOn(next, Apply(first, base)) && next.baseLen == NewLen(first)
    ensures var (_, deleted, _) := SubsetsForChain(first, next);
            && |UnionText(first, base, next)| == |deleted|
            && DeleteFrom(deleted, UnionText(first, base, next)) == Apply(next, Apply(first, base))
  {
    FactorMeaning(first, base);
    FactorMeaning(next, Apply(first, base));
    FactorLength(first);
    FactorLength(next);
    var (ins1, del1) := Factor(first);
    var (ins2, del2) := Factor(next);
    var hidden := TransformExpand(del1, InsertedSubset(ins1));
    ExpandedInsertLength(ins2, hidden);
    var added := InsertedSubset(TransformExpandInsert(ins2, hidden));
    EmptyExpand(TransformExpand(del2, hidden), added);
    RebasedInsert(ins2, hidden, ApplyInsert(ins1, base));
    RebasedSubset(ins2, hidden, TransformExpand(del2, hidden), false);
    ShrinkOfExpand(del2, hidden, false);
    DeleteUnion(TransformExpand(hidden, added), TransformExpand(TransformExpand(del2, hidden), added),
                UnionText(first, base, next));
  }

  /** The inserted bytes come out of the text before the second deletion in the order in
      which the union string holds them: the first delta deletes none of its own insertions. */
  lemma {:induction false} UnionInserts(first: Delta, base: Doc, next: Delta)
    requires ValidOn(first, base) && ValidOn(next, Apply(first, base)) && next.baseLen == NewLen(first)
    ensures var (inserted, _, insertsInPrefinal) := SubsetsForChain(first, next);
            && |UnionText(first, base, next)| == |inserted|
            && CountZero(InsertedSubset(Factor(next).0)) == |Apply(first, base)|
            && Extract(inserted, UnionText(first, base, next))
            == Extract(insertsInPrefinal, ApplyInsert(Factor(next).0, Apply(first, base)))
  {
    FactorMeaning(first, base);
    FactorMeaning(next, Apply(first, base));
    FactorLength(first);
    FactorLength(next);
    var (ins1, del1) := Factor(first);
    var (ins2, del2) := Factor(next);
    var hidden := TransformExpand(del1, InsertedSubset(ins1));
    ExpandedInsertLength(ins2, hidden);
    var added := InsertedSubset(TransformExpandInsert(ins2, hidden));
    var inserted := TransformUnion(InsertedSubset(ins1), added);
    ExpandThenUnion(InsertedSubset(ins1), added);
    RebasedInsert(ins2, hidden, ApplyInsert(ins1, base));
    RebasedSubset(ins2, hidden, InsertedSubset(ins1), true);
    ExpandIsDisjoint(del1, InsertedSubset(ins1));
    SpreadDisjoint(InsertedSubset(ins1), hidden, added);
    ExtractSurvivors(inserted, TransformExpand(hidden, added), UnionText(first, base, next));
  }

  lemma {:induction false} SpreadDisjoint(s: Subset, t: Subset, over: Subset)
    requires |s| == |t| == CountZero(over)
    requires Disjoint(s, t)
    ensures Disjoint(TransformUnion(s, over), TransformExpand(t, over))
  {
    if over != [] {
      var s', t' := if over[0] then s else s[1..], if over[0] then t else t[1..];
      assert Disjoint(s', t');
      SpreadDisjoint(s', t', over[1..]);
      var a, b := TransformUnion(s, over), TransformExpand(t, over);
      forall i | 0 <= i < |over| ensures !(a[i] && b[i]) {
        if i == 0 {
          assert over[0] || !(s[0] && t[0]);
        } else {
          assert a[i] == TransformUnion(s', over[1..])[i - 1] && b[i] == TransformExpand(t', over[1..])[i - 1];
        }
      }
    }
  }

  lemma {:induction false} ChainTombstones(first: Delta, mid: Doc, next: Delta)
    requires Valid(first) && |mid| == NewLen(first) && ValidOn(next, mid)
    ensures var (inserted, _, insertsInPrefinal) := SubsetsForChain(first, next);
            CountZero(Complement(insertsInPrefinal)) == CountZero(Complement(inserted))
  {
    var base: Doc := seq(first.baseLen, _ => 0);
    ApplyElsLength(first.els, 0, base);
    UnionInserts(first, base, next);
  }

  // ----- main results

  /** Applying a delta and then its inverse gives back the base. */
  lemma {:induction false} InvertUndoes(d: Delta, base: Doc)
    requires ValidOn(d, base)
    ensures ValidOn(Invert(d, base), Apply(d, base))
    ensures Apply(Invert(d, base), Apply(d, base)) == base
  {
    FactorMeaning(d, base);
    var (ins, del) := Factor(d);
    SynthesizeMeaning(ApplyInsert(ins, base), TransformExpand(del, InsertedSubset(ins)), InsertedSubset(ins));
  }

  /** The chained delta has the effect of the two deltas in order. */
  lemma {:induction false} ChainComposes(first: Delta, base: Doc, next: Delta)
    requires ValidOn(first, base) && ValidOn(next, Apply(first, base))
    ensures |Apply(first, base)| == NewLen(first)
    ensures var chained := Chain(first, Apply(first, base), next);
            && ValidOn(chained, base)
            && Apply(chained, base) == Apply(next, Apply(first, base))
  {
    ApplyElsLength(first.els, 0, base);
    UnionWithoutInserts(first, base, next);
    UnionWithoutDeletes(first, base, next);
    UnionInserts(first, base, next);
    var (inserted, deleted, _) := SubsetsForChain(first, next);
    SynthesizeMeaning(UnionText(first, base, next), inserted, deleted);
  }

  // ----- chaining does not depend on the base

  /** Two insertions, one after the other, as one. */
  function ComposeInserts(ins: InsertDelta, later: InsertDelta): (r: InsertDelta)
    requires CountZero(InsertedSubset(later)) == |ins|
    ensures |r| == |later|
  {
    if later == [] then []
    else if later[0].New? then [later[0]] + ComposeInserts(ins, later[1..])
    else [ins[0]] + ComposeInserts(ins[1..], later[1..])
  }

  lemma {:induction false} ComposedInserts(ins: InsertDelta, later: InsertDelta, base: Doc)
    requires CountZero(InsertedSubset(later)) == |ins| && CountZero(InsertedSubset(ins)) == |base|
    ensures InsertedSubset(ComposeInserts(ins, later)) == TransformUnion(InsertedSubset(ins), InsertedSubset(later))
    ensures CountZero(InsertedSubset(ComposeInserts(ins, later))) == |base|
    ensures ApplyInsert(ComposeInserts(ins, later), base) == ApplyInsert(later, ApplyInsert(ins, base))
  {
    if later == [] {
    } else if later[0].New? {
      ComposedInserts(ins, later[1..], base);
    } else {
      ComposedInserts(ins[1..], later[1..], if ins[0].Base? then base[1..] else base);
    }
  }

  /** The bytes that two deltas insert do not depend on the document they are applied to. */
  lemma {:induction false} UnionInsertsText(first: Delta, base: Doc, other: Doc, next: Delta)
    requires ValidOn(first, base) && ValidOn(first, other) && Valid(next) && next.baseLen == NewLen(first)
    ensures var (inserted, _, _) := SubsetsForChain(first, next);
            && |UnionText(first, base, next)| == |UnionText(first, other, next)| == |inserted|
            && Extract(inserted, UnionText(first, base, next)) == Extract(inserted, UnionText(first, other, next))
  {
    FactorLength(first);
    FactorLength(next);
    var (ins1, del1) := Factor(first);
    var hidden := TransformExpand(del1, InsertedSubset(ins1));
    var union := TransformExpandInsert(Factor(next).0, hidden);
    ExpandedInsertLength(Factor(next).0, hidden);
    ExpandThenUnion(InsertedSubset(ins1), InsertedSubset(union));
    ComposedInserts(ins1, union, base);
    ComposedInserts(ins1, union, other);
    ExtractInserted(ComposeInserts(ins1, union), base);
    ExtractInserted(ComposeInserts(ins1, union), other);
  }

  /** The chained delta is one edit in its own right: built while editing one document, it
      has the effect of the two deltas on every document of the right length. */
  lemma {:induction false} ChainComposesEverywhere(first: Delta, base: Doc, next: Delta, other: Doc)
    requires ValidOn(first, base) && ValidOn(next, Apply(first, base)) && ValidOn(first, other)
    ensures |Apply(first, base)| == NewLen(first) == |Apply(first, other)|
    ensures var chained := Chain(first, Apply(first, base), next);
            && ValidOn(chained, other)
            && Apply(chained, other) == Apply(next, Apply(first, other))
  {
    ApplyElsLength(first.els, 0, base);
    ApplyElsLength(first.els, 0, other);
    ChainComposes(first, other, next);
    UnionInserts(first, base, next);
    UnionInserts(first, other, next);
    UnionInsertsText(first, base, other, next);
    assert Chain(first, Apply(first, base), next) == Chain(first, Apply(first, other), next);
  }

  // ----- inverting twice

  /** Equal up to the bytes that are inserted. */
  predicate SameShape(a: seq<Element>, b: seq<Element>) {
    && |a| == |b|
    && forall i :: 0 <= i < |a| ==> if a[i].Copy? then b[i] == a[i] else b[i].Insert? && |b[i].text| == |a[i].text|
  }

  lemma {:induction false} ShapeFactors(a: seq<Element>, b: seq<Element>, from: nat, n: nat)
    requires SameShape(a, b) && ValidEls(a, from, n)
    ensures ValidEls(b, from, n)
    ensures FactorDeletes(a, from, n) == FactorDeletes(b, from, n)
    ensures InsertedSubset(FactorInserts(a, from, n)) == InsertedSubset(FactorInserts(b, from, n))
  {
    if a != [] {
      assert if a[0].Copy? then b[0] == a[0] else b[0].Insert? && |b[0].text| == |a[0].text|;
      assert SameShape(a[1..], b[1..]);
      if a[0].Copy? {
        ShapeFactors(a[1..], b[1..], a[0].end, n);
        var skip := Bases(a[0].end - from);
        InsertedSubsetConcat(skip, FactorInserts(a[1..], a[0].end, n));
        InsertedSubsetConcat(skip, FactorInserts(b[1..], a[0].end, n));
      } else {
        ShapeFactors(a[1..], b[1..], from, n);
        NewsInsert(a[0].text);
        NewsInsert(b[0].text);
        InsertedSubsetConcat(News(a[0].text), FactorInserts(a[1..], from, n));
        InsertedSubsetConcat(News(b[0].text), FactorInserts(b[1..], from, n));
      }
    }
  }

  lemma {:induction false} SynthesizeShape(t: Doc, t': Doc, fromDels: Subset, toDels: Subset, x: nat)
    requires |fromDels| == |toDels|
    requires |t| == |t'| == CountZero(Complement(fromDels))
    ensures SameShape(SynthesizeEls(t, fromDels, toDels, x), SynthesizeEls(t', fromDels, toDels, x))
    decreases |fromDels|
  {
    if fromDels != [] {
      if fromDels[0] {
        SynthesizeShape(t[1..], t'[1..], fromDels[1..], toDels[1..], x);
      } else {
        SynthesizeShape(t, t', fromDels[1..], toDels[1..], x + 1);
      }
    }
  }

  /** Starting one byte earlier deletes that byte. */
  lemma {:induction false} FactorDeletesEarlier(els: seq<Element>, from: nat, n: nat)
    requires ValidEls(els, from + 1, n)
    ensures ValidEls(els, from, n)
    ensures FactorDeletes(els, from, n) == [true] + FactorDeletes(els, from + 1, n)
  {
    ValidElsBound(els, from + 1, n);
    if els != [] && els[0].Insert? {
      FactorDeletesEarlier(els[1..], from, n);
    }
  }

  /** A synthesized delta deletes what the old text holds and the new text does not. */
  lemma {:induction false} SynthesizeDeletes(t: Doc, fromDels: Subset, toDels: Subset, x: nat)
    requires |fromDels| == |toDels|
    requires |t| == CountZero(Complement(fromDels))
    ensures ValidEls(SynthesizeEls(t, fromDels, toDels, x), x, x + CountZero(fromDels))
    ensures FactorDeletes(SynthesizeEls(t, fromDels, toDels, x), x, x + CountZero(fromDels))
         == TransformShrink(toDels, fromDels)
    decreases |fromDels|
  {
    if fromDels != [] {
      var n := x + CountZero(fromDels);
      if fromDels[0] {
        SynthesizeDeletes(t[1..], fromDels[1..], toDels[1..], x);
      } else {
        SynthesizeDeletes(t, fromDels[1..], toDels[1..], x + 1);
        var rest := SynthesizeEls(t, fromDels[1..], toDels[1..], x + 1);
        if toDels[0] {
          FactorDeletesEarlier(rest, x, n);
        } else {
          assert ([Copy(x, x + 1)] + rest)[1..] == rest;
          assert Flags(0, true) + Flags(1, false) == [false];
        }
      }
    }
  }

  /** What an inverse deletes is exactly the text that the delta inserted. */
  lemma {:induction false} InverseDeletesInserted(d: Delta, base: Doc)
    requires ValidOn(d, base)
    ensures ValidOn(Invert(d, base), Apply(d, base))
    ensures |Factor(Invert(d, base)).1| == |Apply(d, base)|
    ensures Extract(Factor(Invert(d, base)).1, Apply(d, base)) == InsertedText(Factor(d).0)
  {
    InvertUndoes(d, base);
    FactorMeaning(d, base);
    var (ins, del) := Factor(d);
    var inserted, gone := InsertedSubset(ins), TransformExpand(del, InsertedSubset(ins));
    SynthesizeDeletes(Extract(del, base), gone, inserted, 0);
    ExpandIsDisjoint(del, inserted);
    ExtractSurvivors(inserted, gone, ApplyInsert(ins, base));
    ExtractInserted(ins, base);
  }

  /** The inverse of the inverse has the effect of the original delta, on every document
      of the right length and not only on the one that was edited. */
  lemma {:induction false} InvertTwice(d: Delta, base: Doc, other: Doc)
    requires ValidOn(d, base) && ValidOn(d, other)
    ensures ValidOn(Invert(d, base), Apply(d, base))
    ensures var again := Invert(Invert(d, base), Apply(d, base));
            ValidOn(again, other) && Apply(again, other) == Apply(d, other)
  {
    InvertUndoes(d, base);
    InvertUndoes(d, other);
    InvertUndoes(Invert(d, other), Apply(d, other));
    var inv, inv' := Invert(d, base), Invert(d, other);
    FactorMeaning(d, base);
    FactorMeaning(d, other);
    var (ins, del) := Factor(d);
    SynthesizeShape(Extract(del, base), Extract(del, other),
                    TransformExpand(del, InsertedSubset(ins)), InsertedSubset(ins), 0);
    ShapeFactors(inv.els, inv'.els, 0, inv.baseLen);
    InverseDeletesInserted(d, base);
    InverseDeletesInserted(d, other);
    assert Invert(inv, Apply(d, base)) == Invert(inv', Apply(d, other));
  }
}
