/** What the edits do, byte by byte. */
module OperationLaws {
  import opened Prelude
  import opened Subset
  import opened Delta
  import opened DeltaLaws
  import opened Builder
  import opened Region
  import opened Selections
  import opened Operations

  // ----- deletion

  /** For each byte of the document, whether it is selected. */
  function SelectedFlags(rs: seq<Region>, n: nat): (flags: Subset)
    ensures |flags| == n
    ensures forall p :: 0 <= p < n ==> flags[p] == Covers(rs, p)
  {
    seq(n, p => Covers(rs, p))
  }

  lemma CoversTail(rs: seq<Region>, p: int)
    requires Sorted(rs) && rs != []
    ensures Covers(rs, p) <==> rs[0].Holds(p) || Covers(rs[1..], p)
    ensures p <= rs[0].Hi() ==> !Covers(rs[1..], p)
  {
    if i :| 0 <= i < |rs| && rs[i].Holds(p) {
      assert i > 0 ==> rs[1..][i - 1].Holds(p);
    }
    if i :| 0 <= i < |rs[1..]| && rs[1..][i].Holds(p) {
      assert rs[i + 1].Holds(p) && rs[0].Hi() < rs[i + 1].Lo();
    }
  }

  lemma CoversTails(rs: seq<Region>)
    requires Sorted(rs) && rs != []
    ensures forall p :: Covers(rs, p) <==> rs[0].Holds(p) || Covers(rs[1..], p)
    ensures forall p :: p <= rs[0].Hi() ==> !Covers(rs[1..], p)
  {
    forall p ensures Covers(rs, p) <==> rs[0].Holds(p) || Covers(rs[1..], p)
             ensures p <= rs[0].Hi() ==> !Covers(rs[1..], p) {
      CoversTail(rs, p);
    }
  }

  lemma {:induction false} DeleteNone(flags: Subset, text: Doc)
    requires |flags| == |text| && forall i :: 0 <= i < |flags| ==> !flags[i]
    ensures DeleteFrom(flags, text) == text
  {
    assert flags == Flags(|text|, false);
    FlagsDelete(|text|, false, text);
  }

  lemma {:induction false} DeleteAll(flags: Subset, text: Doc)
    requires |flags| == |text| && forall i :: 0 <= i < |flags| ==> flags[i]
    ensures DeleteFrom(flags, text) == []
  {
    assert flags == Flags(|text|, true);
    FlagsDelete(|text|, true, text);
  }

  lemma {:induction false} DeleteAt(flags: Subset, doc: Doc, from: nat, mid: nat)
    requires |flags| == |doc| && from <= mid <= |doc|
    ensures DeleteFrom(flags[from..], doc[from..])
         == DeleteFrom(flags[from..mid], doc[from..mid]) + DeleteFrom(flags[mid..], doc[mid..])
  {
    assert flags[from..] == flags[from..mid] + flags[mid..];
    SliceJoin(doc, from, mid);
    DeleteFromConcat(flags[from..mid], flags[mid..], doc[from..mid], doc[mid..]);
  }

  /** Bytes that are kept up to `lo` and deleted up to `cut`. */
  lemma {:induction false} DeleteCut(flags: Subset, doc: Doc, last: nat, lo: nat, cut: nat)
    requires |flags| == |doc| && last <= lo <= cut <= |doc|
    requires forall p :: last <= p < lo ==> !flags[p]
    requires forall p :: lo <= p < cut ==> flags[p]
    ensures DeleteFrom(flags[last..], doc[last..]) == doc[last..lo] + DeleteFrom(flags[cut..], doc[cut..])
  {
    assert DeleteFrom(flags[last..lo], doc[last..lo]) == doc[last..lo] by {
      DeleteNone(flags[last..lo], doc[last..lo]);
    }
    assert DeleteFrom(flags[lo..cut], doc[lo..cut]) == [] by {
      DeleteAll(flags[lo..cut], doc[lo..cut]);
    }
    DeleteAt(flags, doc, last, lo);
    DeleteAt(flags, doc, lo, cut);
  }

  lemma {:induction false} DeletionFrom(doc: Doc, rs: seq<Region>, last: nat, flags: Subset)
    requires Sorted(rs) && InBounds(rs, |doc|) && last <= |doc| == |flags|
    requires Ordered(DeletionEdits(rs), last, |doc|)
    requires forall p :: last <= p < |doc| ==> flags[p] == Covers(rs, p)
    ensures Splice(doc, DeletionEdits(rs), last) == DeleteFrom(flags[last..], doc[last..])
  {
    var n := |doc|;
    if rs == [] {
      DeleteNone(flags[last..], doc[last..]);
    } else {
      var cut := Min(rs[0].Hi() + 1, n);
      SortedTail(rs);
      CoversTails(rs);
      DeleteCut(flags, doc, last, rs[0].Lo(), cut);
      DeletionHead(doc, rs, last);
      if rs[0].Hi() < n {
        DeletionFrom(doc, rs[1..], cut, flags);
      } else {
        assert rs[1..] == [];
      }
    }
  }

  lemma {:induction false} DeletionHead(doc: Doc, rs: seq<Region>, last: nat)
    requires rs != [] && Ordered(DeletionEdits(rs), last, |doc|)
    ensures Ordered(DeletionEdits(rs[1..]), rs[0].Hi() + 1, |doc|) && last <= rs[0].Lo() <= |doc|
    ensures Splice(doc, DeletionEdits(rs), last)
         == doc[last..rs[0].Lo()] + Splice(doc, DeletionEdits(rs[1..]), rs[0].Hi() + 1)
  {
    var e := Edit(rs[0].Lo(), rs[0].Hi() + 1, []);
    assert DeletionEdits(rs) == [e] + DeletionEdits(rs[1..]) && DeletionEdits(rs)[1..] == DeletionEdits(rs[1..]);
    SpliceCons(doc, e, DeletionEdits(rs[1..]), last);
  }

  /** Deletion keeps exactly the bytes that are not selected. */
  lemma DeletionKeepsUnselected(doc: Doc, rs: seq<Region>)
    requires Sorted(rs) && InBounds(rs, |doc|)
    ensures ValidOn(Build(DeletionEdits(rs), |doc|), doc)
    ensures Apply(Build(DeletionEdits(rs), |doc|), doc) == DeleteFrom(SelectedFlags(rs, |doc|), doc)
  {
    var flags := SelectedFlags(rs, |doc|);
    DeletionOrdered(rs, |doc|);
    DeletionFrom(doc, rs, 0, flags);
    assert flags[0..] == flags && doc[0..] == doc;
    BuildApplies(DeletionEdits(rs), doc);
  }

  // ----- replacement

  /** `out` is the document from offset `last` on, with `ch` at the selected positions. */
  ghost predicate Replaced(doc: Doc, rs: seq<Region>, ch: Byte, last: nat, out: Doc) {
    && |out| == Max(0, |doc| - last) + (if last <= |doc| && Covers(rs, |doc|) then 1 else 0)
    && forall k :: 0 <= k < |out| ==> out[k] == if Covers(rs, last + k) || last + k >= |doc| then ch else doc[last + k]
  }

  lemma {:induction false} ReplaceFrom(doc: Doc, rs: seq<Region>, ch: Byte, last: nat)
    requires Sorted(rs) && InBounds(rs, |doc|)
    requires Ordered(ReplaceEdits(rs, ch), last, |doc|)
    ensures Replaced(doc, rs, ch, last, Splice(doc, ReplaceEdits(rs, ch), last))
  {
    if rs != [] {
      var e := Edit(rs[0].Lo(), rs[0].Hi() + 1, Fill(ch, rs[0].Len()));
      var rest := ReplaceEdits(rs[1..], ch);
      assert ReplaceEdits(rs, ch) == [e] + rest && ReplaceEdits(rs, ch)[1..] == rest;
      SpliceCons(doc, e, rest, last);
      SortedTail(rs);
      ReplaceFrom(doc, rs[1..], ch, e.end);
      ReplacedCons(doc, rs, ch, last, Splice(doc, rest, e.end));
    }
  }

  lemma {:induction false} ReplacedCons(doc: Doc, rs: seq<Region>, ch: Byte, last: nat, rest: Doc)
    requires Sorted(rs) && InBounds(rs, |doc|) && rs != [] && last <= rs[0].Lo()
    requires Replaced(doc, rs[1..], ch, rs[0].Hi() + 1, rest)
    ensures Replaced(doc, rs, ch, last, doc[last..rs[0].Lo()] + Fill(ch, rs[0].Len()) + rest)
  {
    var n, lo, next := |doc|, rs[0].Lo(), rs[0].Hi() + 1;
    var out := doc[last..lo] + Fill(ch, rs[0].Len()) + rest;
    CoversTails(rs);
    forall k | 0 <= k < |out|
      ensures out[k] == if Covers(rs, last + k) || last + k >= n then ch else doc[last + k] {
      if last + k >= next {
        assert out[k] == rest[k - (next - last)];
      }
    }
  }

  /** Replacing writes the byte at every selected position and nowhere else; the document
      keeps its length unless a region reaches the overflow position, which adds one byte. */
  lemma ReplaceMeaning(doc: Doc, rs: seq<Region>, ch: Byte)
    requires Sorted(rs) && InBounds(rs, |doc|)
    ensures ValidOn(Build(ReplaceEdits(rs, ch), |doc|), doc)
    ensures var out := Apply(Build(ReplaceEdits(rs, ch), |doc|), doc);
            && |out| == |doc| + (if Covers(rs, |doc|) then 1 else 0)
            && forall p :: 0 <= p < |out| ==> out[p] == if Covers(rs, p) then ch else doc[p]
  {
    ReplaceOrdered(rs, ch, |doc|);
    ReplaceFrom(doc, rs, ch, 0);
    BuildApplies(ReplaceEdits(rs, ch), doc);
  }

  // ----- insertion

  /** The total length of the inserted texts. */
  function TextLen(es: seq<Edit>): nat {
    if es == [] then 0 else |es[0].text| + TextLen(es[1..])
  }

  /** The length of the texts that go before offset x or right at it. */
  function TextLenUpTo(es: seq<Edit>, x: nat): nat {
    if es == [] || x < es[0].beg then 0 else |es[0].text| + TextLenUpTo(es[1..], x)
  }

  predicate OnlyInserts(es: seq<Edit>) {
    forall i :: 0 <= i < |es| ==> es[i].beg == es[i].end
  }

  /** Byte x of the document is found in `out`, shifted by the texts before it. */
  ghost predicate KeepsByte(doc: Doc, es: seq<Edit>, last: nat, out: Doc, x: nat)
    requires last <= x < |doc|
  {
    var at := x - last + TextLenUpTo(es, x);
    at < |out| && out[at] == doc[x]
  }

  /** The k-th text is found in `out` at its own position, shifted by the texts before it. */
  ghost predicate HoldsText(es: seq<Edit>, last: nat, out: Doc, k: nat)
    requires k < |es| && last <= es[k].beg
  {
    var at := es[k].beg - last + TextLen(es[..k]);
    at + |es[k].text| <= |out| && out[at..at + |es[k].text|] == es[k].text
  }

  lemma {:induction false} InsertsLength(doc: Doc, es: seq<Edit>, last: nat)
    requires Ordered(es, last, |doc|) && OnlyInserts(es) && last <= |doc|
    ensures |Splice(doc, es, last)| == |doc| - last + TextLen(es)
  {
    if es != [] {
      InsertsLength(doc, es[1..], es[0].end);
    }
  }

  lemma {:induction false} InsertsKeepBytes(doc: Doc, es: seq<Edit>, last: nat, x: nat)
    requires Ordered(es, last, |doc|) && OnlyInserts(es) && last <= x < |doc|
    ensures KeepsByte(doc, es, last, Splice(doc, es, last), x)
  {
    if es != [] && es[0].beg <= x {
      InsertsKeepBytes(doc, es[1..], es[0].end, x);
    }
  }

  lemma {:induction false} InsertsPlaceText(doc: Doc, es: seq<Edit>, last: nat, k: nat)
    requires Ordered(es, last, |doc|) && OnlyInserts(es) && last <= |doc| && k < |es|
    ensures last <= es[k].beg && HoldsText(es, last, Splice(doc, es, last), k)
  {
    var gap, rest := doc[last..es[0].beg], Splice(doc, es[1..], es[0].end);
    if k == 0 {
      assert Splice(doc, es, last)[|gap|..|gap| + |es[0].text|] == es[0].text;
    } else {
      InsertsPlaceText(doc, es[1..], es[0].end, k - 1);
      TextFurther(es, last, gap, rest, k);
    }
  }

  lemma {:induction false} TextFurther(es: seq<Edit>, last: nat, gap: Doc, rest: Doc, k: nat)
    requires 0 < k < |es| && last <= es[0].beg == es[0].end <= es[k].beg && |gap| == es[0].beg - last
    requires HoldsText(es[1..], es[0].end, rest, k - 1)
    ensures HoldsText(es, last, gap + es[0].text + rest, k)
  {
    assert es[..k][1..] == es[1..][..k - 1];
    var out := gap + es[0].text + rest;
    var at := es[k].beg - es[0].end + TextLen(es[1..][..k - 1]);
    var skip := |gap| + |es[0].text|;
    assert out[skip + at..skip + at + |es[k].text|] == rest[at..at + |es[k].text|];
  }

  /** `out` keeps every byte of the document in order and holds every text in its place. */
  ghost predicate InsertedInto(doc: Doc, es: seq<Edit>, out: Doc) {
    && |out| == |doc| + TextLen(es)
    && (forall x: nat :: x < |doc| ==> KeepsByte(doc, es, 0, out, x))
    && (forall k: nat :: k < |es| ==> HoldsText(es, 0, out, k))
  }

  lemma {:induction false} InsertsMeaning(doc: Doc, es: seq<Edit>)
    requires Ordered(es, 0, |doc|) && OnlyInserts(es)
    ensures ValidOn(Build(es, |doc|), doc)
    ensures InsertedInto(doc, es, Apply(Build(es, |doc|), doc))
  {
    BuildApplies(es, doc);
    InsertsLength(doc, es, 0);
    forall x: nat | x < |doc| ensures KeepsByte(doc, es, 0, Splice(doc, es, 0), x) {
      InsertsKeepBytes(doc, es, 0, x);
    }
    forall k: nat | k < |es| ensures HoldsText(es, 0, Splice(doc, es, 0), k) {
      InsertsPlaceText(doc, es, 0, k);
    }
  }

  /** Pasting keeps every byte of the document, and region k receives register entry
      min(k, last) repeated `count` times, right where it was to be pasted. */
  lemma {:induction false} PasteMeaning(doc: Doc, rs: seq<Region>, register: seq<Doc>, after: bool, count: nat)
    requires Sorted(rs) && InBounds(rs, |doc|) && register != []
    ensures var es := PasteEdits(rs, 0, register, after, count, |doc|);
            && ValidOn(Build(es, |doc|), doc)
            && InsertedInto(doc, es, Apply(Build(es, |doc|), doc))
            && |es| == |rs|
            && forall k :: 0 <= k < |rs| ==>
                 && es[k].beg == PastePosition(rs[k], after, |doc|)
                 && es[k].text == Repeat(register[Min(k, |register| - 1)], count)
  {
    PasteOrdered(rs, register, after, count, |doc|);
    PasteEditsAt(rs, 0, register, after, count, |doc|);
    InsertsMeaning(doc, PasteEdits(rs, 0, register, after, count, |doc|));
  }

  /** Inserting puts the text before every caret and keeps every byte of the document. */
  lemma {:induction false} InsertMeaning(doc: Doc, rs: seq<Region>, text: Doc)
    requires Sorted(rs) && InBounds(rs, |doc|)
    ensures var es := InsertEdits(rs, text);
            && ValidOn(Build(es, |doc|), doc)
            && InsertedInto(doc, es, Apply(Build(es, |doc|), doc))
            && |es| == |rs|
            && forall k :: 0 <= k < |rs| ==> es[k].beg == rs[k].caret && es[k].text == text
  {
    InsertOrdered(rs, text, |doc|);
    InsertEditsAt(rs, text);
    InsertsMeaning(doc, InsertEdits(rs, text));
  }
}
