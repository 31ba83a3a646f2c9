/**
 Deltas: edits of a document, as lists of copied ranges and inserted text.
 A delta factors into an insertion and a deletion that meet in a "union string",
 which holds every byte of the old and of the new document.
 */
module Delta {
  import opened Prelude
  import opened Subset

  datatype Element = Copy(beg: nat, end: nat) | Insert(text: Doc) {
    function Len(): nat {
      match this
      case Copy(b, e) => if b <= e then e - b else 0
      case Insert(t) => |t|
    }
  }

  datatype Delta = Delta(els: seq<Element>, baseLen: nat)

  /** Copies are nonempty, ascending and inside the base document. */
  predicate ValidEls(els: seq<Element>, from: nat, n: nat) {
    if els == [] then from <= n
    else match els[0]
      case Copy(b, e) => from <= b < e <= n && ValidEls(els[1..], e, n)
      case Insert(_) => ValidEls(els[1..], from, n)
  }

  predicate Valid(d: Delta) {
    ValidEls(d.els, 0, d.baseLen)
  }

  predicate ValidOn(d: Delta, doc: Doc) {
    Valid(d) && d.baseLen == |doc|
  }

  lemma {:induction false} ValidElsBound(els: seq<Element>, from: nat, n: nat)
    requires ValidEls(els, from, n)
    ensures from <= n
  {
    if els != [] {
      ValidElsBound(els[1..], if els[0].Copy? then els[0].end else from, n);
    }
  }

  function ApplyEls(els: seq<Element>, from: nat, base: Doc): Doc
    requires ValidEls(els, from, |base|)
  {
    if els == [] then []
    else match els[0]
      case Copy(b, e) => base[b..e] + ApplyEls(els[1..], e, base)
      case Insert(t) => t + ApplyEls(els[1..], from, base)
  }

  function Apply(d: Delta, base: Doc): Doc
    requires ValidOn(d, base)
  {
    ApplyEls(d.els, 0, base)
  }

  /** `new_document_len` */
  function NewLenEls(els: seq<Element>): nat {
    if els == [] then 0 else els[0].Len() + NewLenEls(els[1..])
  }

  function NewLen(d: Delta): nat {
    NewLenEls(d.els)
  }

  lemma {:induction false} ApplyElsLength(els: seq<Element>, from: nat, base: Doc)
    requires ValidEls(els, from, |base|)
    ensures |ApplyEls(els, from, base)| == NewLenEls(els)
  {
    if els != [] {
      ApplyElsLength(els[1..], if els[0].Copy? then els[0].end else from, base);
    }
  }

  // ----- carrying offsets through a delta

  function TransformEls(els: seq<Element>, ix: nat, after: bool): nat {
    if els == [] then 0
    else if els[0].Copy? && ix <= els[0].beg then 0
    else if els[0].Copy? && (ix < els[0].end || (ix == els[0].end && !after)) then ix - els[0].beg
    else els[0].Len() + TransformEls(els[1..], ix, after)
  }

  /** Where the delta takes an offset; one at an insertion goes after it if `after` is set. */
  function Transform(d: Delta, ix: nat, after: bool): nat {
    if ix == 0 && !after then 0 else TransformEls(d.els, ix, after)
  }

  // ----- insertions

  /** One position of the union string: the next base byte, or a byte that is inserted. */
  datatype Slot = Base | New(byte: Byte)

  /** A delta that only inserts. */
  type InsertDelta = seq<Slot>

  function InsertedSubset(ins: InsertDelta): (r: Subset)
    ensures |r| == |ins|
  {
    if ins == [] then [] else [ins[0].New?] + InsertedSubset(ins[1..])
  }

  function ApplyInsert(ins: InsertDelta, base: Doc): (r: Doc)
    requires CountZero(InsertedSubset(ins)) == |base|
    ensures |r| == |ins|
  {
    if ins == [] then []
    else match ins[0]
      case Base => [base[0]] + ApplyInsert(ins[1..], base[1..])
      case New(b) => [b] + ApplyInsert(ins[1..], base)
  }

  /** The inserted bytes, in order. */
  function InsertedText(ins: InsertDelta): Doc {
    if ins == [] then []
    else (if ins[0].New? then [ins[0].byte] else []) + InsertedText(ins[1..])
  }

  /** Re-reads an insertion into the text outside `over` as an insertion into the whole text.
      An insertion at a place where text is hidden goes after the hidden text. */
  function TransformExpandInsert(ins: InsertDelta, over: Subset): (r: InsertDelta)
    requires CountZero(InsertedSubset(ins)) == CountZero(over)
    decreases |ins| + |over|
  {
    if over != [] && over[0] then [Base] + TransformExpandInsert(ins, over[1..])
    else if ins == [] then []
    else match ins[0]
      case Base => [Base] + TransformExpandInsert(ins[1..], over[1..])
      case New(b) => [New(b)] + TransformExpandInsert(ins[1..], over)
  }

  function Bases(n: nat): (r: InsertDelta)
    ensures |r| == n
  {
    if n == 0 then [] else [Base] + Bases(n - 1)
  }

  function News(text: Doc): (r: InsertDelta)
    ensures |r| == |text|
  {
    if text == [] then [] else [New(text[0])] + News(text[1..])
  }

  // ----- factoring

  function FactorInserts(els: seq<Element>, from: nat, n: nat): InsertDelta
    requires ValidEls(els, from, n)
  {
    if els == [] then Bases(n - from)
    else match els[0]
      case Copy(b, e) => Bases(e - from) + FactorInserts(els[1..], e, n)
      case Insert(t) => News(t) + FactorInserts(els[1..], from, n)
  }

  function FactorDeletes(els: seq<Element>, from: nat, n: nat): Subset
    requires ValidEls(els, from, n)
  {
    if els == [] then Flags(n - from, true)
    else match els[0]
      case Copy(b, e) => Flags(b - from, true) + Flags(e - b, false) + FactorDeletes(els[1..], e, n)
      case Insert(t) => FactorDeletes(els[1..], from, n)
  }

  /** Splits a delta into its insertions, made first, and its deletions from the base. */
  function Factor(d: Delta): (InsertDelta, Subset)
    requires Valid(d)
  {
    (FactorInserts(d.els, 0, d.baseLen), FactorDeletes(d.els, 0, d.baseLen))
  }

  // ----- synthesis

  /** The delta from (union - fromDels) to (union - toDels), where `tombstones` is the
      text of the union string at `fromDels`. `x` is the next position of the old text. */
  function SynthesizeEls(tombstones: Doc, fromDels: Subset, toDels: Subset, x: nat): seq<Element>
    requires |fromDels| == |toDels|
    requires |tombstones| == CountZero(Complement(fromDels))
    decreases |fromDels|
  {
    if fromDels == [] then []
    else if fromDels[0] then
      var rest := SynthesizeEls(tombstones[1..], fromDels[1..], toDels[1..], x);
      if toDels[0] then rest else [Insert([tombstones[0]])] + rest
    else
      var rest := SynthesizeEls(tombstones, fromDels[1..], toDels[1..], x + 1);
      if toDels[0] then rest else [Copy(x, x + 1)] + rest
  }

  function Synthesize(tombstones: Doc, fromDels: Subset, toDels: Subset): Delta
    requires |fromDels| == |toDels|
    requires |tombstones| == CountZero(Complement(fromDels))
  {
    Delta(SynthesizeEls(tombstones, fromDels, toDels, 0), CountZero(fromDels))
  }
}

/** What factoring and synthesis promise about the documents they stand for. */
module DeltaLaws {
  import opened Prelude
  import opened Subset
  import opened Delta

  // ----- insertions

  lemma {:induction false} InsertedSubsetConcat(a: InsertDelta, b: InsertDelta)
    ensures InsertedSubset(a + b) == InsertedSubset(a) + InsertedSubset(b)
  {
    if a == [] {
      assert a + b == b;
    } else {
      assert (a + b)[1..] == a[1..] + b;
      InsertedSubsetConcat(a[1..], b);
    }
  }

  lemma {:induction false} ApplyInsertConcat(a: InsertDelta, b: InsertDelta, x: Doc, y: Doc)
    requires CountZero(InsertedSubset(a)) == |x| && CountZero(InsertedSubset(b)) == |y|
    ensures CountZero(InsertedSubset(a + b)) == |x + y|
    ensures ApplyInsert(a + b, x + y) == ApplyInsert(a, x) + ApplyInsert(b, y)
  {
    InsertedSubsetConcat(a, b);
    CountZeroConcat(InsertedSubset(a), InsertedSubset(b));
    if a == [] {
      assert a + b == b && x + y == y;
    } else {
      assert (a + b)[1..] == a[1..] + b;
      if a[0].Base? {
        assert (x + y)[1..] == x[1..] + y;
        ApplyInsertConcat(a[1..], b, x[1..], y);
      } else {
        ApplyInsertConcat(a[1..], b, x, y);
      }
    }
  }

  lemma {:induction false} BasesCopy(x: Doc)
    ensures InsertedSubset(Bases(|x|)) == Flags(|x|, false)
    ensures CountZero(InsertedSubset(Bases(|x|))) == |x|
    ensures ApplyInsert(Bases(|x|), x) == x
  {
    if x != [] {
      BasesCopy(x[1..]);
    }
  }

  lemma {:induction false} NewsInsert(t: Doc)
    ensures InsertedSubset(News(t)) == Flags(|t|, true)
    ensures CountZero(InsertedSubset(News(t))) == 0
    ensures ApplyInsert(News(t), []) == t
  {
    if t != [] {
      NewsInsert(t[1..]);
    }
  }

  /** Deleting what was inserted gives back the base. */
  lemma {:induction false} UninsertedIsBase(ins: InsertDelta, base: Doc)
    requires CountZero(InsertedSubset(ins)) == |base|
    ensures DeleteFrom(InsertedSubset(ins), ApplyInsert(ins, base)) == base
  {
    if ins == [] {
    } else if ins[0].Base? {
      UninsertedIsBase(ins[1..], base[1..]);
      assert base == [base[0]] + base[1..];
    } else {
      UninsertedIsBase(ins[1..], base);
    }
  }

  /** What was inserted does not depend on where it went. */
  lemma {:induction false} ExtractInserted(ins: InsertDelta, base: Doc)
    requires CountZero(InsertedSubset(ins)) == |base|
    ensures Extract(InsertedSubset(ins), ApplyInsert(ins, base)) == InsertedText(ins)
  {
    if ins == [] {
    } else if ins[0].Base? {
      ExtractInserted(ins[1..], base[1..]);
    } else {
      ExtractInserted(ins[1..], base);
    }
  }

  // ----- factoring

  /** The shape of a factored delta: both parts speak about the same base document. */
  lemma {:induction false} FactorShape(els: seq<Element>, from: nat, n: nat)
    requires ValidEls(els, from, n)
    ensures from <= n
    ensures |FactorDeletes(els, from, n)| == n - from
    ensures CountZero(InsertedSubset(FactorInserts(els, from, n))) == n - from
  {
    ValidElsBound(els, from, n);
    if els == [] {
      BasesCopy(seq(n - from, _ => 0));
    } else {
      match els[0]
      case Copy(b, e) =>
        FactorShape(els[1..], e, n);
        var rest := FactorInserts(els[1..], e, n);
        BasesCopy(seq(e - from, _ => 0));
        InsertedSubsetConcat(Bases(e - from), rest);
        CountZeroConcat(InsertedSubset(Bases(e - from)), InsertedSubset(rest));
      case Insert(t) =>
        FactorShape(els[1..], from, n);
        var rest := FactorInserts(els[1..], from, n);
        NewsInsert(t);
        InsertedSubsetConcat(News(t), rest);
        CountZeroConcat(InsertedSubset(News(t)), InsertedSubset(rest));
    }
  }

  /** The new document, as the union string without the deletions. */
  function FactorResult(ins: InsertDelta, del: Subset, base: Doc): Doc
    requires |del| == |base| == CountZero(InsertedSubset(ins))
  {
    DeleteFrom(TransformExpand(del, InsertedSubset(ins)), ApplyInsert(ins, base))
  }

  lemma {:induction false} FactorResultConcat(ins: InsertDelta, del: Subset, base: Doc,
                           ins': InsertDelta, del': Subset, base': Doc)
    requires |del| == |base| == CountZero(InsertedSubset(ins))
    requires |del'| == |base'| == CountZero(InsertedSubset(ins'))
    ensures |del + del'| == |base + base'| == CountZero(InsertedSubset(ins + ins'))
    ensures FactorResult(ins + ins', del + del', base + base')
         == FactorResult(ins, del, base) + FactorResult(ins', del', base')
  {
    ApplyInsertConcat(ins, ins', base, base');
    InsertedSubsetConcat(ins, ins');
    SpreadConcat(del, del', InsertedSubset(ins), InsertedSubset(ins'), false);
    DeleteFromConcat(TransformExpand(del, InsertedSubset(ins)), TransformExpand(del', InsertedSubset(ins')),
                     ApplyInsert(ins, base), ApplyInsert(ins', base'));
  }

  /** A copied range, with the text that is skipped before it. */
  lemma {:induction false} FactorResultCopy(skipped: Doc, copied: Doc)
    ensures CountZero(InsertedSubset(Bases(|skipped + copied|))) == |skipped + copied|
    ensures FactorResult(Bases(|skipped + copied|), Flags(|skipped|, true) + Flags(|copied|, false), skipped + copied)
         == copied
  {
    var flags, text := Flags(|skipped|, true) + Flags(|copied|, false), skipped + copied;
    BasesCopy(text);
    SpreadFlags(flags, false);
    assert FactorResult(Bases(|text|), flags, text) == DeleteFrom(flags, text);
    DeleteFromConcat(Flags(|skipped|, true), Flags(|copied|, false), skipped, copied);
    FlagsDelete(|skipped|, true, skipped);
    FlagsDelete(|copied|, false, copied);
  }

  lemma {:induction false} FactorResultInsert(t: Doc)
    ensures CountZero(InsertedSubset(News(t))) == 0
    ensures FactorResult(News(t), [], []) == t
  {
    NewsInsert(t);
    SpreadNothing(|t|);
    FlagsDelete(|t|, false, t);
  }

  /** Inserting first and deleting afterwards is the delta itself. */
  lemma {:induction false} FactorMeaningEls(els: seq<Element>, from: nat, base: Doc)
    requires ValidEls(els, from, |base|)
    ensures from <= |base|
    ensures |FactorDeletes(els, from, |base|)| == |base| - from
    ensures CountZero(InsertedSubset(FactorInserts(els, from, |base|))) == |base| - from
    ensures FactorResult(FactorInserts(els, from, |base|), FactorDeletes(els, from, |base|), base[from..])
         == ApplyEls(els, from, base)
  {
    FactorShape(els, from, |base|);
    if els == [] {
      FactorResultCopy(base[from..], []);
      assert base[from..] + [] == base[from..];
      assert Flags(|base| - from, true) + Flags(0, false) == Flags(|base| - from, true);
    } else if els[0].Copy? {
      FactorMeaningEls(els[1..], els[0].end, base);
      FactorMeaningCopy(els, from, base);
    } else {
      FactorMeaningEls(els[1..], from, base);
      FactorMeaningInsert(els, from, base);
    }
  }

  lemma {:induction false} FactorMeaningCopy(els: seq<Element>, from: nat, base: Doc)
    requires ValidEls(els, from, |base|) && els != [] && els[0].Copy?
    requires var ins, del := FactorInserts(els[1..], els[0].end, |base|), FactorDeletes(els[1..], els[0].end, |base|);
             && |del| == |base| - els[0].end == CountZero(InsertedSubset(ins))
             && FactorResult(ins, del, base[els[0].end..]) == ApplyEls(els[1..], els[0].end, base)
    ensures var ins, del := FactorInserts(els, from, |base|), FactorDeletes(els, from, |base|);
            && |del| == |base| - from == CountZero(InsertedSubset(ins))
            && FactorResult(ins, del, base[from..]) == ApplyEls(els, from, base)
  {
    var b, e := els[0].beg, els[0].end;
    FactorCopied(base, from, b, e);
    FactorResultConcat(Bases(e - from), Flags(b - from, true) + Flags(e - b, false), base[from..e],
                       FactorInserts(els[1..], e, |base|), FactorDeletes(els[1..], e, |base|), base[e..]);
    SliceJoin(base, from, e);
  }

  lemma SliceJoin(base: Doc, from: nat, mid: nat)
    requires from <= mid <= |base|
    ensures base[from..] == base[from..mid] + base[mid..]
  {
  }

  lemma {:induction false} FactorCopied(base: Doc, from: nat, b: nat, e: nat)
    requires from <= b <= e <= |base|
    ensures CountZero(InsertedSubset(Bases(e - from))) == e - from
    ensures FactorResult(Bases(e - from), Flags(b - from, true) + Flags(e - b, false), base[from..e]) == base[b..e]
  {
    assert base[from..e] == base[from..b] + base[b..e];
    FactorResultCopy(base[from..b], base[b..e]);
  }

  lemma {:induction false} FactorMeaningInsert(els: seq<Element>, from: nat, base: Doc)
    requires ValidEls(els, from, |base|) && els != [] && els[0].Insert? && from <= |base|
    requires var ins, del := FactorInserts(els[1..], from, |base|), FactorDeletes(els[1..], from, |base|);
             && |del| == |base| - from == CountZero(InsertedSubset(ins))
             && FactorResult(ins, del, base[from..]) == ApplyEls(els[1..], from, base)
    ensures var ins, del := FactorInserts(els, from, |base|), FactorDeletes(els, from, |base|);
            && |del| == |base| - from == CountZero(InsertedSubset(ins))
            && FactorResult(ins, del, base[from..]) == ApplyEls(els, from, base)
  {
    var ins, del := FactorInserts(els[1..], from, |base|), FactorDeletes(els[1..], from, |base|);
    FactorResultInsert(els[0].text);
    FactorResultConcat(News(els[0].text), [], [], ins, del, base[from..]);
    assert [] + base[from..] == base[from..] && [] + del == del;
  }

  lemma {:induction false} SpreadNothing(n: nat)
    ensures CountZero(Flags(n, true)) == 0
    ensures Spread([], Flags(n, true), false) == Flags(n, false)
  {
    if n > 0 {
      SpreadNothing(n - 1);
    }
  }

  /** The factors of a delta, the union string they build on a base, and its two readings:
      without the insertions it is the base, without the deletions it is the new document. */
  lemma FactorMeaning(d: Delta, base: Doc)
    requires ValidOn(d, base)
    ensures var (ins, del) := Factor(d);
            && |del| == |base| == CountZero(InsertedSubset(ins))
            && DeleteFrom(InsertedSubset(ins), ApplyInsert(ins, base)) == base
            && DeleteFrom(TransformExpand(del, InsertedSubset(ins)), ApplyInsert(ins, base)) == Apply(d, base)
            && Extract(TransformExpand(del, InsertedSubset(ins)), ApplyInsert(ins, base)) == Extract(del, base)
  {
    FactorMeaningEls(d.els, 0, base);
    assert base[0..] == base;
    var (ins, del) := Factor(d);
    var added, union := InsertedSubset(ins), ApplyInsert(ins, base);
    UninsertedIsBase(ins, base);
    ExpandIsDisjoint(del, added);
    ExtractSurvivors(TransformExpand(del, added), added, union);
    ShrinkOfExpand(del, added, false);
  }

  // ----- synthesis

  lemma {:induction false} SynthesizeElsMeaning(union: Doc, fromDels: Subset, toDels: Subset, before: Doc)
    requires |union| == |fromDels| == |toDels|
    ensures var els := SynthesizeEls(Extract(fromDels, union), fromDels, toDels, |before|);
            var base := before + DeleteFrom(fromDels, union);
            && ValidEls(els, |before|, |base|)
            && ApplyEls(els, |before|, base) == DeleteFrom(toDels, union)
    decreases |union|
  {
    if union != [] {
      var base := before + DeleteFrom(fromDels, union);
      if fromDels[0] {
        SynthesizeElsMeaning(union[1..], fromDels[1..], toDels[1..], before);
        var rest := SynthesizeEls(Extract(fromDels[1..], union[1..]), fromDels[1..], toDels[1..], |before|);
        ConsEls(Insert([union[0]]), rest, |before|, base);
      } else {
        SynthesizeElsMeaning(union[1..], fromDels[1..], toDels[1..], before + [union[0]]);
        var rest := SynthesizeEls(Extract(fromDels[1..], union[1..]), fromDels[1..], toDels[1..], |before| + 1);
        assert base == before + [union[0]] + DeleteFrom(fromDels[1..], union[1..]);
        if toDels[0] {
          WeakerStart(rest, |before|, |before| + 1, base);
        } else {
          assert base[|before|..|before| + 1] == [union[0]];
          ConsEls(Copy(|before|, |before| + 1), rest, |before|, base);
        }
      }
    }
  }

  lemma ConsEls(el: Element, rest: seq<Element>, from: nat, base: Doc)
    requires el.Copy? ==> from <= el.beg < el.end <= |base|
    requires ValidEls(rest, if el.Copy? then el.end else from, |base|)
    ensures ValidEls([el] + rest, from, |base|)
    ensures ApplyEls([el] + rest, from, base)
         == (if el.Copy? then base[el.beg..el.end] else el.text)
            + ApplyEls(rest, if el.Copy? then el.end else from, base)
  {
    assert ([el] + rest)[1..] == rest;
  }

  /** Starting earlier only widens what a delta may copy. */
  lemma {:induction false} WeakerStart(els: seq<Element>, lo: nat, hi: nat, base: Doc)
    requires lo <= hi && ValidEls(els, hi, |base|)
    ensures ValidEls(els, lo, |base|)
    ensures ApplyEls(els, lo, base) == ApplyEls(els, hi, base)
  {
    if els != [] && els[0].Insert? {
      WeakerStart(els[1..], lo, hi, base);
    }
  }

  /** A synthesized delta leads from one reading of the union string to the other. */
  lemma SynthesizeMeaning(union: Doc, fromDels: Subset, toDels: Subset)
    requires |union| == |fromDels| == |toDels|
    ensures var d := Synthesize(Extract(fromDels, union), fromDels, toDels);
            && ValidOn(d, DeleteFrom(fromDels, union))
            && Apply(d, DeleteFrom(fromDels, union)) == DeleteFrom(toDels, union)
  {
    SynthesizeElsMeaning(union, fromDels, toDels, []);
    assert [] + DeleteFrom(fromDels, union) == DeleteFrom(fromDels, union);
  }
}
