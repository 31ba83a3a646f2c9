/** Building a delta from a list of replacements in ascending order. */
module Builder {
  import opened Prelude
  import opened Delta
  import opened DeltaLaws

  /** Replace the bytes from `beg` up to `end` by `text`. */
  datatype Edit = Edit(beg: nat, end: nat, text: Doc)

  /** Each edit starts inside the document and no earlier than the one before it ended.
      Only the last one may reach past the end, by the overflow position. */
  predicate Ordered(edits: seq<Edit>, last: nat, n: nat) {
    edits == [] ||
    (last <= edits[0].beg <= n && edits[0].beg <= edits[0].end && Ordered(edits[1..], edits[0].end, n))
  }

  /** The elements the builder adds for the edits that follow offset `last`. */
  function BuildEls(edits: seq<Edit>, last: nat, n: nat): seq<Element> {
    if edits == [] then Gap(last, n, [])
    else Gap(last, edits[0].beg, Text(edits[0].text, BuildEls(edits[1..], edits[0].end, n)))
  }

  /** Copies what lies between two edits, if anything does. */
  function Gap(last: nat, beg: nat, rest: seq<Element>): seq<Element> {
    if beg > last then [Copy(last, beg)] + rest else rest
  }

  function Text(text: Doc, rest: seq<Element>): seq<Element> {
    if text != [] then [Insert(text)] + rest else rest
  }

  function Build(edits: seq<Edit>, n: nat): Delta {
    Delta(BuildEls(edits, 0, n), n)
  }

  /** The elements of the edits themselves, without what follows the last one. */
  function PartialEls(edits: seq<Edit>, last: nat): seq<Element> {
    if edits == [] then []
    else Gap(last, edits[0].beg, Text(edits[0].text, PartialEls(edits[1..], edits[0].end)))
  }

  function EndOf(edits: seq<Edit>, last: nat): nat {
    if edits == [] then last else edits[|edits| - 1].end
  }

  lemma {:induction false} PartialAppend(edits: seq<Edit>, e: Edit, last: nat)
    ensures PartialEls(edits + [e], last) == PartialEls(edits, last) + Gap(EndOf(edits, last), e.beg, Text(e.text, []))
  {
    if edits == [] {
      assert edits + [e] == [e] && [e][1..] == [];
      assert PartialEls([e], last) == Gap(last, e.beg, Text(e.text, []));
    } else {
      assert (edits + [e])[1..] == edits[1..] + [e];
      PartialAppend(edits[1..], e, edits[0].end);
      Reassociate(last, edits[0], PartialEls(edits[1..], edits[0].end), Gap(EndOf(edits, last), e.beg, Text(e.text, [])));
    }
  }

  lemma {:induction false} PartialFinish(edits: seq<Edit>, last: nat, n: nat)
    ensures BuildEls(edits, last, n) == PartialEls(edits, last) + Gap(EndOf(edits, last), n, [])
  {
    if edits != [] {
      PartialFinish(edits[1..], edits[0].end, n);
      Reassociate(last, edits[0], PartialEls(edits[1..], edits[0].end), Gap(EndOf(edits, last), n, []));
    }
  }

  lemma Reassociate(last: nat, e: Edit, a: seq<Element>, b: seq<Element>)
    ensures Gap(last, e.beg, Text(e.text, a + b)) == Gap(last, e.beg, Text(e.text, a)) + b
  {
    var text := Text(e.text, a);
    assert Text(e.text, a + b) == text + b by {
      assert [Insert(e.text)] + (a + b) == [Insert(e.text)] + a + b;
    }
    assert [Copy(last, e.beg)] + (text + b) == [Copy(last, e.beg)] + text + b;
  }

  /** The builder itself. It refuses intervals that do not come in ascending order. */
  class DeltaBuilder {
    var els: seq<Element>
    var lastOffset: nat
    const baseLen: nat
    ghost var edits: seq<Edit>

    ghost predicate Valid()
      reads this
    {
      els == PartialEls(edits, 0) && lastOffset == EndOf(edits, 0)
    }

    constructor (n: nat)
      ensures Valid() && edits == [] && baseLen == n && lastOffset == 0
    {
      els := [];
      lastOffset := 0;
      baseLen := n;
      edits := [];
    }

    method Delete(beg: nat, end: nat)
      requires Valid() && lastOffset <= beg <= end
      modifies this
      ensures Valid() && edits == old(edits) + [Edit(beg, end, [])] && lastOffset == end
    {
      PartialAppend(edits, Edit(beg, end, []), 0);
      edits := edits + [Edit(beg, end, [])];
      if beg > lastOffset {
        els := els + [Copy(lastOffset, beg)];
      }
      lastOffset := end;
    }

    method Replace(beg: nat, end: nat, text: Doc)
      requires Valid() && lastOffset <= beg <= end
      modifies this
      ensures Valid() && edits == old(edits) + [Edit(beg, end, text)] && lastOffset == end
    {
      PartialAppend(edits, Edit(beg, end, []), 0);
      PartialAppend(edits, Edit(beg, end, text), 0);
      ghost var before := edits;
      Delete(beg, end);
      if text != [] {
        els := els + [Insert(text)];
      }
      edits := before + [Edit(beg, end, text)];
    }

    method Finish() returns (d: Delta)
      requires Valid()
      modifies this
      ensures d == Build(old(edits), baseLen)
    {
      PartialFinish(edits, 0, baseLen);
      if lastOffset < baseLen {
        els := els + [Copy(lastOffset, baseLen)];
      }
      d := Delta(els, baseLen);
    }
  }

  // ----- the document that results

  /** The document after the edits, from offset `last` of the old one on. */
  function Splice(doc: Doc, edits: seq<Edit>, last: nat): Doc
    requires Ordered(edits, last, |doc|)
  {
    if edits == [] then
      if last < |doc| then doc[last..] else []
    else
      doc[last..edits[0].beg] + edits[0].text + Splice(doc, edits[1..], edits[0].end)
  }

  lemma SpliceCons(doc: Doc, e: Edit, rest: seq<Edit>, last: nat)
    requires last <= e.beg <= |doc| && e.beg <= e.end && Ordered(rest, e.end, |doc|)
    ensures Ordered([e] + rest, last, |doc|)
    ensures Splice(doc, [e] + rest, last) == doc[last..e.beg] + e.text + Splice(doc, rest, e.end)
  {
    assert ([e] + rest)[1..] == rest;
  }

  lemma {:induction false} BuildMeaning(edits: seq<Edit>, last: nat, doc: Doc)
    requires Ordered(edits, last, |doc|)
    ensures ValidEls(BuildEls(edits, last, |doc|), Min(last, |doc|), |doc|)
    ensures ApplyEls(BuildEls(edits, last, |doc|), Min(last, |doc|), doc) == Splice(doc, edits, last)
  {
    if edits == [] {
      if last < |doc| {
        GapMeaning(last, |doc|, [], doc);
      }
    } else {
      var e := edits[0];
      var rest := BuildEls(edits[1..], e.end, |doc|);
      BuildMeaning(edits[1..], e.end, doc);
      WeakerStart(rest, e.beg, Min(e.end, |doc|), doc);
      TextMeaning(e.text, rest, e.beg, doc);
      GapMeaning(last, e.beg, Text(e.text, rest), doc);
    }
  }

  lemma GapMeaning(last: nat, beg: nat, rest: seq<Element>, doc: Doc)
    requires last <= beg <= |doc| && ValidEls(rest, beg, |doc|)
    ensures ValidEls(Gap(last, beg, rest), last, |doc|)
    ensures ApplyEls(Gap(last, beg, rest), last, doc) == doc[last..beg] + ApplyEls(rest, beg, doc)
  {
    if beg > last {
      ConsEls(Copy(last, beg), rest, last, doc);
    }
  }

  lemma TextMeaning(text: Doc, rest: seq<Element>, from: nat, doc: Doc)
    requires ValidEls(rest, from, |doc|)
    ensures ValidEls(Text(text, rest), from, |doc|)
    ensures ApplyEls(Text(text, rest), from, doc) == text + ApplyEls(rest, from, doc)
  {
    if text != [] {
      ConsEls(Insert(text), rest, from, doc);
    }
  }

  /** The built delta is valid, and its effect is to splice the edits into the document. */
  lemma BuildApplies(edits: seq<Edit>, doc: Doc)
    requires Ordered(edits, 0, |doc|)
    ensures ValidOn(Build(edits, |doc|), doc)
    ensures Apply(Build(edits, |doc|), doc) == Splice(doc, edits, 0)
    ensures NewLen(Build(edits, |doc|)) == |Splice(doc, edits, 0)|
  {
    BuildMeaning(edits, 0, doc);
    ApplyElsLength(BuildEls(edits, 0, |doc|), 0, doc);
  }

  // ----- where offsets go

  /** The new offset of `x`, counted from where `last` goes. An offset inside a replaced
      range goes behind the replacement. */
  function Shifted(edits: seq<Edit>, last: nat, n: nat, x: nat): int {
    if edits == [] then Max(0, Min(x, n) - last)
    else if x < edits[0].beg then x - last
    else edits[0].beg - last + |edits[0].text| + Shifted(edits[1..], edits[0].end, n, Max(x, edits[0].end))
  }

  lemma {:induction false} ShiftedNat(es: seq<Edit>, last: nat, n: nat, x: nat)
    requires Ordered(es, last, n) && last <= x
    ensures Shifted(es, last, n, x) >= 0
  {
    if es != [] {
      ShiftedNat(es[1..], es[0].end, n, Max(x, es[0].end));
    }
  }

  lemma {:induction false} BuildTransform(edits: seq<Edit>, last: nat, n: nat, x: nat)
    requires Ordered(edits, last, n) && last <= x
    ensures TransformEls(BuildEls(edits, last, n), x, true) == Shifted(edits, last, n, x)
  {
    if edits == [] {
      GapTransform(last, n, [], x);
    } else {
      var e := edits[0];
      var rest := BuildEls(edits[1..], e.end, n);
      GapTransform(last, e.beg, Text(e.text, rest), x);
      TextTransform(e.text, rest, x);
      if x >= e.beg {
        BuildTransform(edits[1..], e.end, n, Max(x, e.end));
        if x < e.end {
          SkipDeleted(edits[1..], e.end, n, x);
        }
      }
    }
  }

  lemma GapTransform(last: nat, beg: nat, rest: seq<Element>, x: nat)
    ensures TransformEls(Gap(last, beg, rest), x, true) ==
            if beg <= last then TransformEls(rest, x, true)
            else if x <= last then 0
            else if x < beg then x - last
            else beg - last + TransformEls(rest, x, true)
  {
    assert beg > last ==> ([Copy(last, beg)] + rest)[1..] == rest;
  }

  lemma TextTransform(text: Doc, rest: seq<Element>, x: nat)
    ensures TransformEls(Text(text, rest), x, true) == |text| + TransformEls(rest, x, true)
  {
    assert text != [] ==> ([Insert(text)] + rest)[1..] == rest;
  }

  /** Offsets before the first byte that can be copied all go to the same place. */
  lemma {:induction false} SkipDeleted(edits: seq<Edit>, last: nat, n: nat, x: nat)
    requires Ordered(edits, last, n) && x < last
    ensures TransformEls(BuildEls(edits, last, n), x, true) == TransformEls(BuildEls(edits, last, n), last, true)
  {
    if edits == [] {
      GapTransform(last, n, [], x);
      GapTransform(last, n, [], last);
    } else {
      var e := edits[0];
      var rest := BuildEls(edits[1..], e.end, n);
      forall y | y in {x, last} ensures TransformEls(BuildEls(edits, last, n), y, true) ==
                                        if e.beg > last then 0 else |e.text| + TransformEls(rest, y, true) {
        GapTransform(last, e.beg, Text(e.text, rest), y);
        TextTransform(e.text, rest, y);
      }
      if e.beg == last {
        SkipDeleted(edits[1..], e.end, n, x);
        if last < e.end {
          SkipDeleted(edits[1..], e.end, n, last);
        }
      }
    }
  }
}
