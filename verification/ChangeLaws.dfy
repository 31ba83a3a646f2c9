/** What the edits at the carets do to each byte of the document. */
module ChangeLaws {
  import opened Prelude
  import opened Subset
  import opened Delta
  import opened Builder
  import opened Region
  import opened Selections
  import opened Operations
  import opened OperationLaws

  // ----- one byte for another

  predicate OneForOne(es: seq<Edit>) {
    forall i :: 0 <= i < |es| ==> es[i].end == es[i].beg + 1 && |es[i].text| == 1
  }

  lemma {:induction false} OneForOneLength(doc: Doc, es: seq<Edit>, last: nat)
    requires Ordered(es, last, |doc|) && OneForOne(es)
    ensures |Splice(doc, es, last)| == Max(|doc|, EndOf(es, last)) - last
  {
    if es != [] {
      OneForOneLength(doc, es[1..], es[0].end);
    }
  }

  lemma {:induction false} OneForOneChanged(doc: Doc, es: seq<Edit>, last: nat, k: nat)
    requires Ordered(es, last, |doc|) && OneForOne(es) && k < |es|
    ensures 0 <= es[k].beg - last < |Splice(doc, es, last)|
    ensures Splice(doc, es, last)[es[k].beg - last] == es[k].text[0]
  {
    if k > 0 {
      OneForOneChanged(doc, es[1..], es[0].end, k - 1);
    }
  }

  lemma {:induction false} OneForOneKept(doc: Doc, es: seq<Edit>, last: nat, x: nat)
    requires Ordered(es, last, |doc|) && OneForOne(es) && last <= x < |doc|
    requires forall i :: 0 <= i < |es| ==> es[i].beg != x
    ensures x - last < |Splice(doc, es, last)| && Splice(doc, es, last)[x - last] == doc[x]
  {
    if es != [] && es[0].beg < x {
      OneForOneKept(doc, es[1..], es[0].end, x);
    }
  }

  /** Whether a caret stands at offset p. */
  predicate CaretAt(rs: seq<Region>, p: int) {
    exists i :: 0 <= i < |rs| && rs[i].caret == p
  }

  /** `out` is the document with byte `bytes[i]` under caret i and no other byte changed; a
      caret at the overflow position adds its byte at the end. */
  ghost predicate ChangedAtCarets(doc: Doc, rs: seq<Region>, bytes: Doc, out: Doc)
    requires |bytes| == |rs|
  {
    && |out| == |doc| + (if CaretAt(rs, |doc|) then 1 else 0)
    && (forall i :: 0 <= i < |rs| ==> rs[i].caret < |out| && out[rs[i].caret] == bytes[i])
    && (forall p :: 0 <= p < |doc| && !CaretAt(rs, p) ==> out[p] == doc[p])
  }

  /** Edit i replaces the byte under caret i by the i-th byte. */
  ghost predicate BytesAtCarets(doc: Doc, rs: seq<Region>, es: seq<Edit>, bytes: Doc) {
    && Sorted(rs) && InBounds(rs, |doc|) && Ordered(es, 0, |doc|) && |es| == |rs| == |bytes|
    && forall i :: 0 <= i < |rs| ==> es[i] == Edit(rs[i].caret, rs[i].caret + 1, [bytes[i]])
  }

  lemma {:induction false} LastCaret(rs: seq<Region>, n: nat)
    requires Sorted(rs) && InBounds(rs, n) && rs != []
    ensures CaretAt(rs, n) <==> rs[|rs| - 1].caret == n
  {
    forall i | 0 <= i < |rs| - 1 ensures rs[i].caret < n {
      assert rs[i].Hi() < rs[|rs| - 1].Lo();
    }
  }

  lemma {:induction false} BytesLength(doc: Doc, rs: seq<Region>, es: seq<Edit>, bytes: Doc)
    requires BytesAtCarets(doc, rs, es, bytes)
    ensures |Splice(doc, es, 0)| == |doc| + (if CaretAt(rs, |doc|) then 1 else 0)
  {
    OneForOneLength(doc, es, 0);
    if rs != [] {
      LastCaret(rs, |doc|);
    }
  }

  lemma {:induction false} BytesChanged(doc: Doc, rs: seq<Region>, es: seq<Edit>, bytes: Doc, i: nat)
    requires BytesAtCarets(doc, rs, es, bytes) && i < |rs|
    ensures rs[i].caret < |Splice(doc, es, 0)| && Splice(doc, es, 0)[rs[i].caret] == bytes[i]
  {
    OneForOneChanged(doc, es, 0, i);
  }

  lemma {:induction false} BytesKept(doc: Doc, rs: seq<Region>, es: seq<Edit>, bytes: Doc, p: nat)
    requires BytesAtCarets(doc, rs, es, bytes) && p < |doc| && !CaretAt(rs, p)
    ensures p < |Splice(doc, es, 0)| && Splice(doc, es, 0)[p] == doc[p]
  {
    OneForOneKept(doc, es, 0, p);
  }

  lemma {:induction false} OneForOneMeaning(doc: Doc, rs: seq<Region>, es: seq<Edit>, bytes: Doc)
    requires BytesAtCarets(doc, rs, es, bytes)
    ensures ChangedAtCarets(doc, rs, bytes, Splice(doc, es, 0))
  {
    var out := Splice(doc, es, 0);
    BytesLength(doc, rs, es, bytes);
    forall i | 0 <= i < |rs| ensures rs[i].caret < |out| && out[rs[i].caret] == bytes[i] {
      BytesChanged(doc, rs, es, bytes, i);
    }
    forall p | 0 <= p < |doc| && !CaretAt(rs, p) ensures out[p] == doc[p] {
      BytesKept(doc, rs, es, bytes, p);
    }
  }

  // ----- one byte for a text

  /** By how much k carets move what follows them, if each changes one byte to a text. */
  function Growth(k: nat, text: Doc): int {
    if k == 0 then 0 else |text| - 1 + Growth(k - 1, text)
  }

  lemma {:induction false} GrowthIs(k: nat, text: Doc)
    ensures Growth(k, text) == k * (|text| - 1)
  {
    if k > 0 {
      GrowthIs(k - 1, text);
    }
  }

  /** How many carets stand before x. */
  function CaretsBefore(rs: seq<Region>, x: nat): nat {
    if rs == [] || x <= rs[0].caret then 0 else 1 + CaretsBefore(rs[1..], x)
  }

  /** It counts the regions whose caret is before x. */
  lemma {:induction false} CaretsBeforeIs(rs: seq<Region>, x: nat)
    requires Sorted(rs)
    ensures CaretsBefore(rs, x) <= |rs|
    ensures forall i :: 0 <= i < |rs| ==> (rs[i].caret < x <==> i < CaretsBefore(rs, x))
  {
    if rs != [] {
      SortedTail(rs);
      CaretsBeforeIs(rs[1..], x);
      forall i | 0 <= i < |rs| ensures rs[i].caret < x <==> i < CaretsBefore(rs, x) {
        if i > 0 {
          assert rs[0].Hi() < rs[i].Lo() && rs[i] == rs[1..][i - 1];
        }
      }
    }
  }

  lemma {:induction false} ChangeSplice(doc: Doc, rs: seq<Region>, text: Doc, last: nat)
    requires rs != [] && Ordered(ChangeEdits(rs, text), last, |doc|)
    ensures last <= rs[0].caret <= |doc| && Ordered(ChangeEdits(rs[1..], text), rs[0].caret + 1, |doc|)
    ensures Splice(doc, ChangeEdits(rs, text), last)
         == doc[last..rs[0].caret] + text + Splice(doc, ChangeEdits(rs[1..], text), rs[0].caret + 1)
  {
    var head, rest := Edit(rs[0].caret, rs[0].caret + 1, text), ChangeEdits(rs[1..], text);
    assert ChangeEdits(rs, text) == [head] + rest && ChangeEdits(rs, text)[1..] == rest;
    SpliceCons(doc, head, rest, last);
  }

  function EndAfter(rs: seq<Region>, last: nat): nat {
    if rs == [] then last else rs[|rs| - 1].caret + 1
  }

  lemma {:induction false} ChangeLength(doc: Doc, rs: seq<Region>, text: Doc, last: nat)
    requires Ordered(ChangeEdits(rs, text), last, |doc|)
    ensures |Splice(doc, ChangeEdits(rs, text), last)| == Max(|doc|, EndAfter(rs, last)) - last + Growth(|rs|, text)
  {
    if rs != [] {
      ChangeSplice(doc, rs, text, last);
      ChangeLength(doc, rs[1..], text, rs[0].caret + 1);
    }
  }

  /** The text stands in `out` at the given place. */
  predicate StandsAt(out: Doc, at: int, text: Doc) {
    0 <= at && at + |text| <= |out| && out[at..at + |text|] == text
  }

  lemma StandsLater(front: Doc, out: Doc, at: int, text: Doc)
    requires StandsAt(out, at, text)
    ensures StandsAt(front + out, |front| + at, text)
  {
    assert (front + out)[|front| + at..|front| + at + |text|] == out[at..at + |text|];
  }

  lemma StandsFirst(gap: Doc, text: Doc, rest: Doc)
    ensures StandsAt(gap + text + rest, |gap|, text)
  {
  }

  /** What stands in the rest stands in the whole, behind the first text. */
  lemma {:induction false} ChangeLater(doc: Doc, rs: seq<Region>, text: Doc, last: nat, at: int, what: Doc, to: int)
    requires rs != [] && Ordered(ChangeEdits(rs, text), last, |doc|) && to == rs[0].caret - last + |text| + at
    requires Ordered(ChangeEdits(rs[1..], text), rs[0].caret + 1, |doc|)
    requires StandsAt(Splice(doc, ChangeEdits(rs[1..], text), rs[0].caret + 1), at, what)
    ensures StandsAt(Splice(doc, ChangeEdits(rs, text), last), to, what)
  {
    ChangeSplice(doc, rs, text, last);
    StandsLater(doc[last..rs[0].caret] + text, Splice(doc, ChangeEdits(rs[1..], text), rs[0].caret + 1), at, what);
  }

  lemma {:induction false} ChangeFirst(doc: Doc, rs: seq<Region>, text: Doc, last: nat)
    requires rs != [] && Ordered(ChangeEdits(rs, text), last, |doc|)
    ensures StandsAt(Splice(doc, ChangeEdits(rs, text), last), rs[0].caret - last, text)
    ensures forall x: nat :: last <= x < rs[0].caret && x < |doc| ==>
              StandsAt(Splice(doc, ChangeEdits(rs, text), last), x - last, [doc[x]])
  {
    ChangeSplice(doc, rs, text, last);
    var gap, rest := doc[last..rs[0].caret], Splice(doc, ChangeEdits(rs[1..], text), rs[0].caret + 1);
    StandsFirst(gap, text, rest);
    forall x: nat | last <= x < rs[0].caret && x < |doc| ensures StandsAt(gap + text + rest, x - last, [doc[x]]) {
      assert (gap + text + rest)[x - last] == doc[x];
    }
  }

  lemma {:induction false} ChangeOrderedTail(rs: seq<Region>, text: Doc, last: nat, n: nat)
    requires rs != [] && Ordered(ChangeEdits(rs, text), last, n)
    ensures Ordered(ChangeEdits(rs[1..], text), rs[0].caret + 1, n)
  {
    assert ChangeEdits(rs, text)[1..] == ChangeEdits(rs[1..], text);
  }

  lemma {:induction false} ChangePlaces(doc: Doc, rs: seq<Region>, text: Doc, last: nat, k: nat, at: int)
    requires Ordered(ChangeEdits(rs, text), last, |doc|) && k < |rs| && at == rs[k].caret - last + Growth(k, text)
    ensures StandsAt(Splice(doc, ChangeEdits(rs, text), last), at, text)
  {
    if k == 0 {
      ChangeFirst(doc, rs, text, last);
    } else {
      var next := at - (rs[0].caret - last + |text|);
      ChangeOrderedTail(rs, text, last, |doc|);
      ChangePlaces(doc, rs[1..], text, rs[0].caret + 1, k - 1, next);
      ChangeLater(doc, rs, text, last, next, text, at);
    }
  }

  lemma {:induction false} ChangeKeeps(doc: Doc, rs: seq<Region>, text: Doc, last: nat, x: nat, at: int)
    requires Ordered(ChangeEdits(rs, text), last, |doc|) && last <= x < |doc|
    requires at == x - last + Growth(CaretsBefore(rs, x), text) && !CaretAt(rs, x)
    ensures StandsAt(Splice(doc, ChangeEdits(rs, text), last), at, [doc[x]])
  {
    if rs == [] {
      assert doc[last..][x - last] == doc[x];
    } else {
      assert rs[0].caret != x;
      if x < rs[0].caret {
        ChangeFirst(doc, rs, text, last);
      } else {
        var next := at - (rs[0].caret - last + |text|);
        ChangeOrderedTail(rs, text, last, |doc|);
        NoCaretInTail(rs, x);
        ChangeKeeps(doc, rs[1..], text, rs[0].caret + 1, x, next);
        ChangeLater(doc, rs, text, last, next, [doc[x]], at);
      }
    }
  }

  lemma NoCaretInTail(rs: seq<Region>, x: int)
    requires rs != [] && !CaretAt(rs, x)
    ensures !CaretAt(rs[1..], x)
  {
    assert forall i :: 0 <= i < |rs| - 1 ==> rs[1..][i] == rs[i + 1];
  }

  /** `out` is the document with the text in place of the byte under every caret; the other
      bytes are moved by the carets before them. A caret at the overflow position has no byte
      to replace. */
  ghost predicate ChangedTo(doc: Doc, rs: seq<Region>, text: Doc, out: Doc) {
    && |out| == |doc| + |rs| * (|text| - 1) + (if CaretAt(rs, |doc|) then 1 else 0)
    && (forall k: nat :: k < |rs| ==> StandsAt(out, rs[k].caret + k * (|text| - 1), text))
    && (forall x: nat :: x < |doc| && !CaretAt(rs, x) ==>
          StandsAt(out, x + CaretsBefore(rs, x) * (|text| - 1), [doc[x]]))
  }

  /** Changing, to any text, replaces the byte under every caret and keeps the others. */
  lemma {:induction false} ChangeMeaning(doc: Doc, rs: seq<Region>, text: Doc)
    requires Sorted(rs) && InBounds(rs, |doc|)
    ensures ValidOn(Build(ChangeEdits(rs, text), |doc|), doc)
    ensures ChangedTo(doc, rs, text, Apply(Build(ChangeEdits(rs, text), |doc|), doc))
  {
    ChangeOrdered(rs, text, |doc|);
    var out := Splice(doc, ChangeEdits(rs, text), 0);
    BuildApplies(ChangeEdits(rs, text), doc);
    ChangeTotal(doc, rs, text);
    forall k: nat | k < |rs| ensures StandsAt(out, rs[k].caret + k * (|text| - 1), text) {
      GrowthIs(k, text);
      ChangePlaces(doc, rs, text, 0, k, rs[k].caret + k * (|text| - 1));
    }
    forall x: nat | x < |doc| && !CaretAt(rs, x)
      ensures StandsAt(out, x + CaretsBefore(rs, x) * (|text| - 1), [doc[x]]) {
      GrowthIs(CaretsBefore(rs, x), text);
      ChangeKeeps(doc, rs, text, 0, x, x + CaretsBefore(rs, x) * (|text| - 1));
    }
  }

  lemma {:induction false} ChangeTotal(doc: Doc, rs: seq<Region>, text: Doc)
    requires Sorted(rs) && InBounds(rs, |doc|) && Ordered(ChangeEdits(rs, text), 0, |doc|)
    ensures |Splice(doc, ChangeEdits(rs, text), 0)|
         == |doc| + |rs| * (|text| - 1) + (if CaretAt(rs, |doc|) then 1 else 0)
  {
    ChangeLength(doc, rs, text, 0);
    GrowthIs(|rs|, text);
    if rs != [] {
      LastCaret(rs, |doc|);
    }
  }

  // ----- half a byte

  /** The bytes under the carets, their upper halves replaced. */
  function Halves(doc: Doc, rs: seq<Region>, top: Byte): (bytes: Doc)
    ensures |bytes| == |rs| && forall i :: 0 <= i < |rs| ==> bytes[i] == HalfByte(doc, rs[i].caret, top)
  {
    seq(|rs|, i requires 0 <= i < |rs| => HalfByte(doc, rs[i].caret, top))
  }

  /** Such a byte has the new digit above and the old one below, or zero past the end. */
  lemma HalfByteMeaning(doc: Doc, caret: nat, digit: Byte)
    requires digit < 16
    ensures HalfByte(doc, caret, digit << 4) >> 4 == digit
    ensures HalfByte(doc, caret, digit << 4) & 0x0F == if caret < |doc| then doc[caret] & 0x0F else 0
  {
    JoinHalves(if caret < |doc| then doc[caret] else 0, digit);
  }

  lemma JoinHalves(was: Byte, digit: Byte)
    requires digit < 16
    ensures ((was & 0x0F) | (digit << 4)) >> 4 == digit
    ensures ((was & 0x0F) | (digit << 4)) & 0x0F == was & 0x0F
  {
  }

  /** Overwriting with a first digit rewrites the upper half of the byte under every caret
      and changes nothing else. */
  lemma {:induction false} OverwriteHalfMeaning(doc: Doc, rs: seq<Region>, top: Byte)
    requires Sorted(rs) && InBounds(rs, |doc|)
    ensures ValidOn(Build(OverwriteHalfEdits(doc, rs, top), |doc|), doc)
    ensures ChangedAtCarets(doc, rs, Halves(doc, rs, top), Apply(Build(OverwriteHalfEdits(doc, rs, top), |doc|), doc))
  {
    OverwriteHalfOrdered(doc, rs, top);
    OverwriteHalfEditsAt(doc, rs, top);
    BuildApplies(OverwriteHalfEdits(doc, rs, top), doc);
    OneForOneMeaning(doc, rs, OverwriteHalfEdits(doc, rs, top), Halves(doc, rs, top));
  }

  // ----- bytes erased at the carets

  /** Marks the bytes that lie `before` offsets ahead of a caret. */
  function CaretFlags(rs: seq<Region>, n: nat, before: nat): (flags: Subset)
    ensures |flags| == n && forall p :: 0 <= p < n ==> flags[p] == CaretAt(rs, p + before)
  {
    seq(n, p requires 0 <= p < n => CaretAt(rs, p + before))
  }

  /** One-byte regions, `before` bytes ahead of the carets, where the document has a byte. */
  function CaretCells(rs: seq<Region>, n: nat, before: nat): seq<Region> {
    if rs == [] then []
    else if before <= rs[0].caret < n + before then
      [At(rs[0].caret - before, rs[0].caret - before)] + CaretCells(rs[1..], n, before)
    else CaretCells(rs[1..], n, before)
  }

  /** Sorted regions in bounds that start at `from` or later. */
  predicate CellsFrom(cells: seq<Region>, n: nat, from: int) {
    Sorted(cells) && InBounds(cells, n) && forall i :: 0 <= i < |cells| ==> from <= cells[i].Lo()
  }

  lemma {:induction false} CaretCellsForm(rs: seq<Region>, n: nat, before: nat, from: int)
    requires Sorted(rs) && (rs != [] ==> from <= rs[0].Lo() - before)
    ensures CellsFrom(CaretCells(rs, n, before), n, from)
  {
    if rs != [] {
      var r := rs[0];
      SortedTail(rs);
      CaretCellsForm(rs[1..], n, before, r.Hi() - before + 1);
      CellCons(r.caret - before, CaretCells(rs[1..], n, before), n, r.Hi() - before + 1, from);
    }
  }

  lemma CellCons(p: int, rest: seq<Region>, n: nat, next: int, from: int)
    requires CellsFrom(rest, n, next) && from <= p < next
    ensures CellsFrom(rest, n, from)
    ensures 0 <= p <= n ==> CellsFrom([At(p, p)] + rest, n, from)
  {
    if 0 <= p <= n {
      var cells := [At(p, p)] + rest;
      assert forall i :: 0 < i < |cells| ==> cells[i] == rest[i - 1];
    }
  }

  lemma {:induction false} CaretCellsCover(rs: seq<Region>, n: nat, before: nat, p: nat)
    requires p < n
    ensures Covers(CaretCells(rs, n, before), p) <==> CaretAt(rs, p + before)
  {
    if rs != [] {
      CaretCellsCover(rs[1..], n, before, p);
      CellStep(rs, n, before, p);
    }
  }

  lemma {:induction false} CellStep(rs: seq<Region>, n: nat, before: nat, p: nat)
    requires rs != [] && p < n
    requires Covers(CaretCells(rs[1..], n, before), p) <==> CaretAt(rs[1..], p + before)
    ensures Covers(CaretCells(rs, n, before), p) <==> CaretAt(rs, p + before)
  {
    var cells, rest := CaretCells(rs, n, before), CaretCells(rs[1..], n, before);
    if CaretAt(rs[1..], p + before) {
      var i :| 0 <= i < |rs| - 1 && rs[1..][i].caret == p + before;
      assert rs[i + 1].caret == p + before;
      var j :| 0 <= j < |rest| && rest[j].Holds(p);
      assert if cells == rest then cells[j].Holds(p) else cells[j + 1] == rest[j];
    }
    if rs[0].caret == p + before {
      assert cells[0].Holds(p);
    }
    if i :| 0 <= i < |rs| && rs[i].caret == p + before {
      assert i > 0 ==> rs[1..][i - 1].caret == p + before;
    }
    if j :| 0 <= j < |cells| && cells[j].Holds(p) {
      if cells == rest {
        assert Covers(rest, p);
      } else {
        assert j > 0 ==> rest[j - 1].Holds(p);
      }
    }
  }

  lemma {:induction false} CellsErased(doc: Doc, rs: seq<Region>, before: nat)
    requires Sorted(rs)
    ensures var es := DeletionEdits(CaretCells(rs, |doc|, before));
            && ValidOn(Build(es, |doc|), doc)
            && Apply(Build(es, |doc|), doc) == DeleteFrom(CaretFlags(rs, |doc|, before), doc)
  {
    var cells := CaretCells(rs, |doc|, before);
    CaretCellsForm(rs, |doc|, before, if rs == [] then 0 else rs[0].Lo() - before);
    DeletionKeepsUnselected(doc, cells);
    assert SelectedFlags(cells, |doc|) == CaretFlags(rs, |doc|, before) by {
      forall p: nat | p < |doc| ensures Covers(cells, p) <==> CaretAt(rs, p + before) {
        CaretCellsCover(rs, |doc|, before, p);
      }
    }
  }

  lemma {:induction false} DeleteCursorCells(rs: seq<Region>, n: nat)
    ensures DeleteCursorEdits(rs, n) == DeletionEdits(CaretCells(rs, n, 0))
  {
    if rs != [] {
      DeleteCursorCells(rs[1..], n);
    }
  }

  lemma {:induction false} BackspaceCells(rs: seq<Region>, n: nat)
    requires InBounds(rs, n)
    ensures BackspaceEdits(rs) == DeletionEdits(CaretCells(rs, n, 1))
  {
    if rs != [] {
      BackspaceCells(rs[1..], n);
    }
  }

  /** Delete removes exactly the bytes under the carets. */
  lemma {:induction false} DeleteCursorMeaning(doc: Doc, rs: seq<Region>)
    requires Sorted(rs) && InBounds(rs, |doc|)
    ensures var d := Build(DeleteCursorEdits(rs, |doc|), |doc|);
            ValidOn(d, doc) && Apply(d, doc) == DeleteFrom(CaretFlags(rs, |doc|, 0), doc)
  {
    DeleteCursorCells(rs, |doc|);
    CellsErased(doc, rs, 0);
  }

  /** Backspace removes exactly the bytes right before the carets. */
  lemma {:induction false} BackspaceMeaning(doc: Doc, rs: seq<Region>)
    requires Sorted(rs) && InBounds(rs, |doc|)
    ensures var d := Build(BackspaceEdits(rs), |doc|);
            ValidOn(d, doc) && Apply(d, doc) == DeleteFrom(CaretFlags(rs, |doc|, 1), doc)
  {
    BackspaceCells(rs, |doc|);
    CellsErased(doc, rs, 1);
  }
}
