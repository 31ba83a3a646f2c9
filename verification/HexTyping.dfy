/** Typing a byte as two hex digits, or taking back the first of them. */
module HexTyping {
  import opened Prelude
  import opened Delta
  import opened DeltaLaws
  import opened Builder
  import opened Region
  import opened Selections
  import opened SelectionLaws
  import opened Transport
  import opened Operations
  import opened OperationLaws
  import opened ChangeLaws

  /** Carets of a sorted selection ascend. */
  predicate CaretsAscend(rs: seq<Region>) {
    forall i, j :: 0 <= i < j < |rs| ==> rs[i].caret < rs[j].caret
  }

  /** The carets of `hs` are those of `rs`, each shifted by the bytes inserted before it. */
  predicate HalfCarets(hs: seq<Region>, rs: seq<Region>, k: nat) {
    |hs| == |rs| && forall i :: 0 <= i < |rs| ==> hs[i].caret == rs[i].caret + k + i
  }

  // ----- where offsets go

  /** How many carets are at or before x. */
  function CountUpTo(rs: seq<Region>, x: nat): nat {
    if rs == [] || x < rs[0].caret then 0 else 1 + CountUpTo(rs[1..], x)
  }

  lemma {:induction false} CountUpToIs(rs: seq<Region>, x: nat, i: nat)
    requires CaretsAscend(rs) && i <= |rs|
    requires (i > 0 ==> rs[i - 1].caret <= x) && (i < |rs| ==> x < rs[i].caret)
    ensures CountUpTo(rs, x) == i
  {
    if i > 0 {
      assert rs[0].caret <= rs[i - 1].caret;
      assert i > 1 ==> rs[1..][i - 2] == rs[i - 1];
      CountUpToIs(rs[1..], x, i - 1);
    }
  }

  /** Inserting a byte at every caret moves an offset by the carets up to it. */
  lemma {:induction false} InsertShift(rs: seq<Region>, b: Byte, last: nat, n: nat, x: nat)
    requires CaretsAscend(rs) && Ordered(InsertEdits(rs, [b]), last, n) && last <= x <= n
    ensures Shifted(InsertEdits(rs, [b]), last, n, x) == x - last + CountUpTo(rs, x)
  {
    if rs != [] && x >= rs[0].caret {
      InsertShift(rs[1..], b, rs[0].caret, n, x);
    }
  }

  /** Changing the byte under every caret moves the carets one further and nothing else,
      if no two carets are next to each other. */
  lemma {:induction false} ChangeShift(hs: seq<Region>, b: Byte, last: nat, n: nat, x: nat)
    requires CaretsAscend(hs) && Ordered(ChangeEdits(hs, [b]), last, n) && last <= x <= n
    requires forall i, j :: 0 <= i < j < |hs| ==> hs[i].caret + 1 < hs[j].caret
    requires forall i :: 0 <= i < |hs| ==> hs[i].caret < n
    ensures Shifted(ChangeEdits(hs, [b]), last, n, x)
         == x - last + if exists i :: 0 <= i < |hs| && hs[i].caret == x then 1 else 0
  {
    if hs != [] && x >= hs[0].caret {
      var y := Max(x, hs[0].caret + 1);
      ChangeShift(hs[1..], b, hs[0].caret + 1, n, y);
      assert forall i :: 0 <= i < |hs| - 1 ==> hs[1..][i] == hs[i + 1];
      if x > hs[0].caret {
        if i :| 0 <= i < |hs| && hs[i].caret == x {
          assert hs[1..][i - 1].caret == x;
        }
      }
    }
  }

  /** Deleting the byte under every caret moves an offset back by the carets before it. */
  lemma {:induction false} DeleteShift(hs: seq<Region>, last: nat, n: nat, x: nat)
    requires CaretsAscend(hs) && Ordered(DeleteCursorEdits(hs, n), last, n) && last <= x <= n
    requires forall i :: 0 <= i < |hs| ==> last <= hs[i].caret < n
    ensures Shifted(DeleteCursorEdits(hs, n), last, n, x) == x - last - CaretsBefore(hs, x)
  {
    if hs != [] && x >= hs[0].caret {
      DeleteShift(hs[1..], hs[0].caret + 1, n, Max(x, hs[0].caret + 1));
    }
  }

  // ----- documents

  /** Splits a known suffix into the part up to the next caret, the byte there and the rest. */
  lemma DropCaret(doc: Doc, p: nat, gap: Doc, b: Byte, rest: Doc)
    requires p <= |doc| && doc[p..] == gap + [b] + rest
    ensures p + |gap| + 1 <= |doc| && doc[p..p + |gap|] == gap && doc[p + |gap| + 1..] == rest
  {
    assert doc[p..p + |gap|] == doc[p..][..|gap|];
    assert doc[p + |gap| + 1..] == doc[p..][|gap| + 1..];
  }

  /** What a caret shift by one region leaves for the others. */
  lemma HalfCaretsTail(hs: seq<Region>, rs: seq<Region>, k: nat)
    requires HalfCarets(hs, rs, k) && rs != []
    ensures hs[0].caret == rs[0].caret + k && HalfCarets(hs[1..], rs[1..], k + 1)
  {
    forall i | 0 <= i < |rs| - 1 ensures hs[1..][i].caret == rs[1..][i].caret + (k + 1) + i {
      assert hs[1..][i] == hs[i + 1] && rs[1..][i] == rs[i + 1];
    }
  }

  lemma {:induction false} InsertHead(doc: Doc, rs: seq<Region>, b: Byte, last: nat)
    requires rs != [] && Ordered(InsertEdits(rs, [b]), last, |doc|)
    ensures last <= rs[0].caret <= |doc| && Ordered(InsertEdits(rs[1..], [b]), rs[0].caret, |doc|)
    ensures Splice(doc, InsertEdits(rs, [b]), last)
         == doc[last..rs[0].caret] + [b] + Splice(doc, InsertEdits(rs[1..], [b]), rs[0].caret)
  {
    var head, rest := Edit(rs[0].caret, rs[0].caret, [b]), InsertEdits(rs[1..], [b]);
    assert InsertEdits(rs, [b]) == [head] + rest && InsertEdits(rs, [b])[1..] == rest;
    SpliceCons(doc, head, rest, last);
  }

  lemma {:induction false} ChangeHead(doc: Doc, hs: seq<Region>, b: Byte, last: nat)
    requires hs != [] && last <= hs[0].caret <= |doc| && Ordered(ChangeEdits(hs[1..], [b]), hs[0].caret + 1, |doc|)
    ensures Ordered(ChangeEdits(hs, [b]), last, |doc|)
    ensures Splice(doc, ChangeEdits(hs, [b]), last)
         == doc[last..hs[0].caret] + [b] + Splice(doc, ChangeEdits(hs[1..], [b]), hs[0].caret + 1)
  {
    var head, rest := Edit(hs[0].caret, hs[0].caret + 1, [b]), ChangeEdits(hs[1..], [b]);
    assert ChangeEdits(hs, [b]) == [head] + rest;
    SpliceCons(doc, head, rest, last);
  }

  lemma {:induction false} EraseHead(doc: Doc, hs: seq<Region>, last: nat)
    requires hs != [] && last <= hs[0].caret < |doc|
    requires Ordered(DeleteCursorEdits(hs[1..], |doc|), hs[0].caret + 1, |doc|)
    ensures Ordered(DeleteCursorEdits(hs, |doc|), last, |doc|)
    ensures Splice(doc, DeleteCursorEdits(hs, |doc|), last)
         == doc[last..hs[0].caret] + Splice(doc, DeleteCursorEdits(hs[1..], |doc|), hs[0].caret + 1)
  {
    var head, rest := Edit(hs[0].caret, hs[0].caret + 1, []), DeleteCursorEdits(hs[1..], |doc|);
    assert DeleteCursorEdits(hs, |doc|) == [head] + rest;
    SpliceCons(doc, head, rest, last);
  }

  /** From offset `from` on, `typed` is what typing `half` at the regions `rs` makes of the
      document from offset `last` on; the carets of `hs` stand on the half-typed bytes. */
  ghost predicate TypedFrom(doc: Doc, rs: seq<Region>, half: Byte, last: nat, typed: Doc, hs: seq<Region>, from: nat) {
    && Ordered(InsertEdits(rs, [half]), last, |doc|)
    && last <= |doc| && last <= from <= |typed|
    && typed[from..] == Splice(doc, InsertEdits(rs, [half]), last)
    && HalfCarets(hs, rs, from - last)
  }

  /** The typed document agrees with the old one up to the first caret, has the half-typed
      byte there, and goes on with what was typed at the other carets. */
  lemma {:induction false} TypedHead(doc: Doc, rs: seq<Region>, half: Byte, last: nat, typed: Doc, hs: seq<Region>, from: nat)
    requires rs != [] && TypedFrom(doc, rs, half, last, typed, hs, from)
    ensures |hs| == |rs| && last <= rs[0].caret <= |doc| && from <= hs[0].caret < |typed|
    ensures typed[from..hs[0].caret] == doc[last..rs[0].caret]
    ensures TypedFrom(doc, rs[1..], half, rs[0].caret, typed, hs[1..], hs[0].caret + 1)
  {
    HalfCaretsTail(hs, rs, from - last);
    InsertHead(doc, rs, half, last);
    DropCaret(typed, from, doc[last..rs[0].caret], half, Splice(doc, InsertEdits(rs[1..], [half]), rs[0].caret));
  }

  lemma {:induction false} ChangeJoin(doc: Doc, rs: seq<Region>, whole: Byte, last: nat,
                                      typed: Doc, hs: seq<Region>, from: nat, rest: Doc)
    requires rs != [] && hs != [] && Ordered(InsertEdits(rs, [whole]), last, |doc|)
    requires last <= rs[0].caret <= |doc| && from <= hs[0].caret < |typed|
    requires typed[from..hs[0].caret] == doc[last..rs[0].caret]
    requires Ordered(InsertEdits(rs[1..], [whole]), rs[0].caret, |doc|)
    requires Splice(doc, InsertEdits(rs[1..], [whole]), rs[0].caret) == rest
    requires Ordered(ChangeEdits(hs[1..], [whole]), hs[0].caret + 1, |typed|)
    requires Splice(typed, ChangeEdits(hs[1..], [whole]), hs[0].caret + 1) == rest
    ensures Ordered(ChangeEdits(hs, [whole]), from, |typed|)
    ensures Splice(typed, ChangeEdits(hs, [whole]), from) == Splice(doc, InsertEdits(rs, [whole]), last)
  {
    InsertHead(doc, rs, whole, last);
    ChangeHead(typed, hs, whole, from);
  }

  /** Changing the half-typed bytes gives the document with the whole byte inserted. */
  lemma {:induction false} ChangeTyped(doc: Doc, rs: seq<Region>, half: Byte, whole: Byte,
                                       last: nat, typed: Doc, hs: seq<Region>, from: nat)
    requires TypedFrom(doc, rs, half, last, typed, hs, from) && Ordered(InsertEdits(rs, [whole]), last, |doc|)
    ensures Ordered(ChangeEdits(hs, [whole]), from, |typed|)
    ensures Splice(typed, ChangeEdits(hs, [whole]), from) == Splice(doc, InsertEdits(rs, [whole]), last)
  {
    if rs != [] {
      var c, h := rs[0].caret, hs[0].caret;
      TypedHead(doc, rs, half, last, typed, hs, from);
      assert Ordered(InsertEdits(rs[1..], [whole]), c, |doc|) by {
        InsertHead(doc, rs, whole, last);
      }
      ChangeTyped(doc, rs[1..], half, whole, c, typed, hs[1..], h + 1);
      ChangeJoin(doc, rs, whole, last, typed, hs, from, Splice(doc, InsertEdits(rs[1..], [whole]), c));
    }
  }

  /** Deleting under the carets from `from` on gives the rest of the document back. */
  ghost predicate ErasedBack(doc: Doc, last: nat, typed: Doc, hs: seq<Region>, from: nat) {
    && last <= |doc| && from <= |typed|
    && Ordered(DeleteCursorEdits(hs, |typed|), from, |typed|)
    && Splice(typed, DeleteCursorEdits(hs, |typed|), from) == doc[last..]
  }

  lemma {:induction false} EraseJoin(doc: Doc, c: nat, last: nat, typed: Doc, hs: seq<Region>, from: nat)
    requires hs != [] && last <= c <= |doc| && from <= hs[0].caret < |typed|
    requires typed[from..hs[0].caret] == doc[last..c]
    requires ErasedBack(doc, c, typed, hs[1..], hs[0].caret + 1)
    ensures ErasedBack(doc, last, typed, hs, from)
  {
    EraseHead(typed, hs, from);
    SliceJoin(doc, last, c);
  }

  /** Deleting the half-typed bytes gives back the document. */
  lemma {:induction false} DeleteTyped(doc: Doc, rs: seq<Region>, half: Byte,
                                       last: nat, typed: Doc, hs: seq<Region>, from: nat)
    requires TypedFrom(doc, rs, half, last, typed, hs, from)
    ensures ErasedBack(doc, last, typed, hs, from)
  {
    if rs != [] {
      TypedHead(doc, rs, half, last, typed, hs, from);
      DeleteTyped(doc, rs[1..], half, rs[0].caret, typed, hs[1..], hs[0].caret + 1);
      EraseJoin(doc, rs[0].caret, last, typed, hs, from);
    }
  }

  // ----- selections

  /** The tail of region i after a byte has been inserted at every caret. */
  function ShiftedTail(rs: seq<Region>, i: nat): nat
    requires i < |rs|
  {
    rs[i].tail + if rs[i].tail < rs[i].caret then i else i + 1
  }

  lemma SortedCarets(rs: seq<Region>)
    requires Sorted(rs)
    ensures CaretsAscend(rs)
  {
  }

  /** The delta that types a byte, and where it takes an offset with i carets up to it. */
  lemma {:induction false} InsertedOffset(rs: seq<Region>, b: Byte, n: nat, x: nat, i: nat)
    requires Sorted(rs) && InBounds(rs, n) && x <= n && i <= |rs|
    requires (i > 0 ==> rs[i - 1].caret <= x) && (i < |rs| ==> x < rs[i].caret)
    ensures TransformEls(Build(InsertEdits(rs, [b]), n).els, x, true) == x + i
  {
    SortedCarets(rs);
    CountUpToIs(rs, x, i);
    InsertOrdered(rs, [b], n);
    InsertShift(rs, b, 0, n, x);
    BuildTransform(InsertEdits(rs, [b]), 0, n, x);
  }

  lemma {:induction false} InsertedOffsets(rs: seq<Region>, b: Byte, n: nat, i: nat)
    requires Sorted(rs) && InBounds(rs, n) && i < |rs|
    ensures TransformEls(Build(InsertEdits(rs, [b]), n).els, rs[i].caret, true) == rs[i].caret + i + 1
    ensures TransformEls(Build(InsertEdits(rs, [b]), n).els, rs[i].tail, true) == ShiftedTail(rs, i)
  {
    assert i > 0 ==> rs[i - 1].Hi() < rs[i].Lo();
    assert i + 1 < |rs| ==> rs[i].Hi() < rs[i + 1].Lo();
    InsertedOffset(rs, b, n, rs[i].caret, i + 1);
    InsertedOffset(rs, b, n, rs[i].tail, if rs[i].tail < rs[i].caret then i else i + 1);
  }

  lemma {:induction false} TextLenInserts(rs: seq<Region>, b: Byte)
    ensures TextLen(InsertEdits(rs, [b])) == |rs|
  {
    if rs != [] {
      TextLenInserts(rs[1..], b);
    }
  }

  lemma {:induction false} InsertedLength(rs: seq<Region>, b: Byte, n: nat)
    requires Sorted(rs) && InBounds(rs, n)
    ensures Valid(Build(InsertEdits(rs, [b]), n)) && NewLen(Build(InsertEdits(rs, [b]), n)) == n + |rs|
  {
    var doc := Fill(0, n);
    InsertMeaning(doc, rs, [b]);
    TextLenInserts(rs, b);
    InsertOrdered(rs, [b], n);
    BuildApplies(InsertEdits(rs, [b]), doc);
  }

  /** Typing a whole byte: the byte goes before every caret, and carets and tails follow
      their bytes. */
  lemma {:induction false} WholeRegions(rs: seq<Region>, b: Byte, n: nat)
    requires Sorted(rs) && InBounds(rs, n)
    ensures var out := CarryRegions(Build(InsertEdits(rs, [b]), n), n, rs, 0, 0);
            && Sorted(out)
            && forall i :: 0 <= i < |rs| ==> out[i] == At(rs[i].caret + i + 1, ShiftedTail(rs, i))
  {
    var d := Build(InsertEdits(rs, [b]), n);
    var out := CarryRegions(d, n, rs, 0, 0);
    InsertedLength(rs, b, n);
    forall i | 0 <= i < |rs| ensures out[i] == At(rs[i].caret + i + 1, ShiftedTail(rs, i)) {
      InsertedOffsets(rs, b, n, i);
      CarryPlain(d, rs[i].caret);
      CarryPlain(d, rs[i].tail);
    }
  }

  /** Typing the first digit: the caret stays on the half-typed byte. */
  lemma {:induction false} HalfRegions(rs: seq<Region>, b: Byte, n: nat)
    requires Sorted(rs) && InBounds(rs, n)
    ensures var out := CarryRegions(Build(InsertEdits(rs, [b]), n), n, rs, -1, 0);
            && Sorted(out)
            && forall i :: 0 <= i < |rs| ==> out[i] == At(rs[i].caret + i, ShiftedTail(rs, i))
  {
    var d := Build(InsertEdits(rs, [b]), n);
    var out := CarryRegions(d, n, rs, -1, 0);
    InsertedLength(rs, b, n);
    forall i | 0 <= i < |rs| ensures out[i] == At(rs[i].caret + i, ShiftedTail(rs, i)) {
      InsertedOffsets(rs, b, n, i);
      CarryPlain(d, rs[i].caret);
      CarryPlain(d, rs[i].tail);
    }
  }

  /** The regions `hs` after the first digit has been typed at the regions `rs`. */
  predicate HalfTyped(hs: seq<Region>, rs: seq<Region>) {
    && |hs| == |rs|
    && forall i :: 0 <= i < |rs| ==> hs[i].caret == rs[i].caret + i && hs[i].tail == ShiftedTail(rs, i)
  }

  /** Half-typed bytes are inside the document, no two of them are next to each other, and
      no tail stands on one. */
  lemma {:induction false} HalfTypedForm(hs: seq<Region>, rs: seq<Region>, n: nat)
    requires Sorted(rs) && InBounds(rs, n) && HalfTyped(hs, rs)
    ensures Sorted(hs) && InBounds(hs, n + |rs|) && CaretsAscend(hs) && HalfCarets(hs, rs, 0)
    ensures forall i :: 0 <= i < |hs| ==> hs[i].caret < n + |rs|
    ensures forall i, j :: 0 <= i < j < |hs| ==> hs[i].caret + 1 < hs[j].caret
    ensures forall i, j :: 0 <= i < |hs| && 0 <= j < |hs| ==> hs[j].caret != hs[i].tail
  {
    forall i, j | 0 <= i < j < |rs|
      ensures hs[i].Hi() < hs[j].Lo() && hs[i].caret + 1 < hs[j].caret
      ensures hs[j].caret != hs[i].tail && hs[i].caret != hs[j].tail {
      assert rs[i].Hi() < rs[j].Lo();
    }
  }

  lemma {:induction false} ChangedOffset(hs: seq<Region>, b: Byte, m: nat, x: nat)
    requires Sorted(hs) && InBounds(hs, m) && x <= m
    requires forall i, j :: 0 <= i < j < |hs| ==> hs[i].caret + 1 < hs[j].caret
    requires forall i :: 0 <= i < |hs| ==> hs[i].caret < m
    ensures CarryOffset(Build(ChangeEdits(hs, [b]), m), m, x, 0)
         == x + if exists i :: 0 <= i < |hs| && hs[i].caret == x then 1 else 0
  {
    var es, d := ChangeEdits(hs, [b]), Build(ChangeEdits(hs, [b]), m);
    ChangeOrdered(hs, [b], m);
    BuildApplies(es, Fill(0, m));
    CarryPlain(d, x);
    BuildTransform(es, 0, m, x);
    SortedCarets(hs);
    ChangeShift(hs, b, 0, m, x);
  }

  /** The caret on a changed byte goes one further, a tail on another byte stays. */
  lemma {:induction false} ChangedEnds(hs: seq<Region>, b: Byte, m: nat, i: nat)
    requires Sorted(hs) && InBounds(hs, m) && i < |hs|
    requires forall i, j :: 0 <= i < j < |hs| ==> hs[i].caret + 1 < hs[j].caret
    requires forall i :: 0 <= i < |hs| ==> hs[i].caret < m
    requires forall j :: 0 <= j < |hs| ==> hs[j].caret != hs[i].tail
    ensures CarryRegion(Build(ChangeEdits(hs, [b]), m), m, hs[i], 0, 0) == At(hs[i].caret + 1, hs[i].tail)
  {
    ChangedOffset(hs, b, m, hs[i].caret);
    ChangedOffset(hs, b, m, hs[i].tail);
  }

  lemma {:induction false} ChangedRegions(rs: seq<Region>, hs: seq<Region>, b: Byte, n: nat)
    requires Sorted(rs) && InBounds(rs, n) && HalfTyped(hs, rs)
    ensures var out := CarryRegions(Build(ChangeEdits(hs, [b]), n + |rs|), n + |rs|, hs, 0, 0);
            forall i :: 0 <= i < |rs| ==> out[i] == At(rs[i].caret + i + 1, ShiftedTail(rs, i))
  {
    var m := n + |rs|;
    HalfTypedForm(hs, rs, n);
    forall i | 0 <= i < |rs|
      ensures CarryRegion(Build(ChangeEdits(hs, [b]), m), m, hs[i], 0, 0) == At(rs[i].caret + i + 1, ShiftedTail(rs, i)) {
      ChangedEnds(hs, b, m, i);
    }
  }

  lemma {:induction false} ErasedOffset(hs: seq<Region>, m: nat, x: nat, i: nat)
    requires Sorted(hs) && InBounds(hs, m) && (forall j :: 0 <= j < |hs| ==> hs[j].caret < m)
    requires x <= m && i <= |hs| && (i > 0 ==> hs[i - 1].caret < x) && (i < |hs| ==> x <= hs[i].caret)
    ensures CarryOffset(Build(DeleteCursorEdits(hs, m), m), m, x, 0) == x - i
  {
    var es, d := DeleteCursorEdits(hs, m), Build(DeleteCursorEdits(hs, m), m);
    DeleteCursorOrdered(hs, 0, m);
    BuildApplies(es, Fill(0, m));
    CarryPlain(d, x);
    BuildTransform(es, 0, m, x);
    SortedCarets(hs);
    CaretsBeforeIs(hs, x);
    DeleteShift(hs, 0, m, x);
  }

  lemma {:induction false} ErasedCaret(rs: seq<Region>, hs: seq<Region>, m: nat, i: nat)
    requires HalfTyped(hs, rs) && i < |rs|
    requires Sorted(hs) && InBounds(hs, m) && forall j :: 0 <= j < |hs| ==> hs[j].caret < m
    ensures CarryOffset(Build(DeleteCursorEdits(hs, m), m), m, hs[i].caret, 0) == rs[i].caret
  {
    if i > 0 {
      assert hs[i - 1].Hi() < hs[i].Lo();
    }
    ErasedOffset(hs, m, hs[i].caret, i);
  }

  lemma {:induction false} ErasedTail(rs: seq<Region>, hs: seq<Region>, m: nat, i: nat)
    requires HalfTyped(hs, rs) && i < |rs|
    requires Sorted(hs) && InBounds(hs, m) && forall j :: 0 <= j < |hs| ==> hs[j].caret < m
    ensures CarryOffset(Build(DeleteCursorEdits(hs, m), m), m, hs[i].tail, 0) == rs[i].tail
  {
    if rs[i].tail < rs[i].caret {
      if i > 0 {
        assert hs[i - 1].Hi() < hs[i].Lo();
      }
      ErasedOffset(hs, m, hs[i].tail, i);
    } else {
      if i + 1 < |hs| {
        assert hs[i].Hi() < hs[i + 1].Lo();
      }
      ErasedOffset(hs, m, hs[i].tail, i + 1);
    }
  }

  lemma {:induction false} ErasedRegions(rs: seq<Region>, hs: seq<Region>, n: nat)
    requires Sorted(rs) && InBounds(rs, n) && HalfTyped(hs, rs)
    ensures var out := CarryRegions(Build(DeleteCursorEdits(hs, n + |rs|), n + |rs|), n + |rs|, hs, 0, 0);
            forall i :: 0 <= i < |rs| ==> out[i] == At(rs[i].caret, rs[i].tail)
  {
    var m := n + |rs|;
    HalfTypedForm(hs, rs, n);
    forall i | 0 <= i < |rs|
      ensures CarryRegion(Build(DeleteCursorEdits(hs, m), m), m, hs[i], 0, 0) == At(rs[i].caret, rs[i].tail) {
      ErasedCaret(rs, hs, m, i);
      ErasedTail(rs, hs, m, i);
    }
  }

  // ----- main results

  /** The document and selection that the user sees. */
  datatype View = View(data: Doc, selection: Sel)

  /** Applies edits to the document and carries the selection along, its carets shifted. */
  function Edited(v: View, es: seq<Edit>, caretShift: int): Outcome<View>
    requires Ordered(es, 0, |v.data|)
  {
    BuildApplies(es, v.data);
    var d := Build(es, |v.data|);
    match CarryShifted(v.selection, d, caretShift, 0, |v.data|)
    case Ok(s) => Ok(View(Apply(d, v.data), s))
    case Panic => Panic
  }

  predicate WellPlaced(v: View) {
    WellFormed(v.selection) && InBounds(v.selection.regions, |v.data|)
  }

  /** What typing the first digit leaves. */
  lemma {:induction false} HalfView(v: View, half: Byte)
    requires WellPlaced(v)
    ensures Ordered(InsertEdits(v.selection.regions, [half]), 0, |v.data|)
    ensures var r := Edited(v, InsertEdits(v.selection.regions, [half]), -1);
            && r.Ok? && WellPlaced(r.value)
            && r.value.data == Splice(v.data, InsertEdits(v.selection.regions, [half]), 0)
            && |r.value.data| == |v.data| + |v.selection.regions|
            && r.value.selection.main == v.selection.main
            && HalfTyped(r.value.selection.regions, v.selection.regions)
  {
    var rs, n := v.selection.regions, |v.data|;
    InsertOrdered(rs, [half], n);
    BuildApplies(InsertEdits(rs, [half]), v.data);
    InsertedLength(rs, half, n);
    HalfRegions(rs, half, n);
    var out := CarryRegions(Build(InsertEdits(rs, [half]), n), n, rs, -1, 0);
    MapSinglesApart(out, v.selection.main);
    HalfTypedForm(Flagged(out, v.selection.main), rs, n);
  }

  /** Typing two digits leaves the same bytes and the same selection as inserting the
      whole byte at every caret. */
  lemma {:induction false} TwoDigitsAreOneByte(v: View, half: Byte, whole: Byte)
    requires WellPlaced(v)
    ensures Ordered(InsertEdits(v.selection.regions, [half]), 0, |v.data|)
    ensures Ordered(InsertEdits(v.selection.regions, [whole]), 0, |v.data|)
    ensures var first := Edited(v, InsertEdits(v.selection.regions, [half]), -1);
            && first.Ok?
            && Ordered(ChangeEdits(first.value.selection.regions, [whole]), 0, |first.value.data|)
            && var second := Edited(first.value, ChangeEdits(first.value.selection.regions, [whole]), 0);
            && second.Ok?
            && second == Edited(v, InsertEdits(v.selection.regions, [whole]), 0)
  {
    HalfView(v, half);
    var rs, n, main := v.selection.regions, |v.data|, v.selection.main;
    var first := Edited(v, InsertEdits(rs, [half]), -1).value;
    var hs, typed := first.selection.regions, first.data;
    InsertOrdered(rs, [whole], n);
    assert typed[0..] == typed;
    ChangeTyped(v.data, rs, half, whole, 0, typed, hs, 0);
    BuildApplies(ChangeEdits(hs, [whole]), typed);
    BuildApplies(InsertEdits(rs, [whole]), v.data);
    InsertedLength(rs, whole, n);
    ChangedRegions(rs, hs, whole, n);
    WholeRegions(rs, whole, n);
    var out := CarryRegions(Build(InsertEdits(rs, [whole]), n), n, rs, 0, 0);
    assert CarryRegions(Build(ChangeEdits(hs, [whole]), |typed|), |typed|, hs, 0, 0) == out;
    MapSinglesApart(out, main);
  }

  /** Typing the first digit and then deleting under the carets restores the bytes and the
      selection exactly. */
  lemma {:induction false} ErasingFirstDigitRestores(v: View, half: Byte)
    requires WellPlaced(v)
    ensures Ordered(InsertEdits(v.selection.regions, [half]), 0, |v.data|)
    ensures var first := Edited(v, InsertEdits(v.selection.regions, [half]), -1);
            && first.Ok? && first.value.data != []
            && var es := DeleteCursorEdits(first.value.selection.regions, |first.value.data|);
            && Ordered(es, 0, |first.value.data|)
            && Edited(first.value, es, 0) == Ok(v)
  {
    HalfView(v, half);
    var rs, n, main := v.selection.regions, |v.data|, v.selection.main;
    var first := Edited(v, InsertEdits(rs, [half]), -1).value;
    var hs, typed := first.selection.regions, first.data;
    var es := DeleteCursorEdits(hs, |typed|);
    assert typed[0..] == typed && v.data[0..] == v.data;
    DeleteTyped(v.data, rs, half, 0, typed, hs, 0);
    BuildApplies(es, typed);
    ErasedSelection(v.selection, hs, n);
  }

  lemma {:induction false} ErasedSelection(s: Sel, hs: seq<Region>, n: nat)
    requires WellFormed(s) && InBounds(s.regions, n) && HalfTyped(hs, s.regions)
    requires NewLen(Build(DeleteCursorEdits(hs, n + |hs|), n + |hs|)) == n
    ensures Carry(Sel(hs, s.main), Build(DeleteCursorEdits(hs, n + |hs|), n + |hs|), n + |hs|) == Ok(s)
  {
    if n == 0 {
      EmptyDocSelection(s);
    } else {
      ErasedRegions(s.regions, hs, n);
      Reflagged(CarryRegions(Build(DeleteCursorEdits(hs, n + |hs|), n + |hs|), n + |hs|, hs, 0, 0), s);
    }
  }

  /** In an empty document there is only one selection. */
  lemma EmptyDocSelection(s: Sel)
    requires WellFormed(s) && InBounds(s.regions, 0)
    ensures s == Cleared
  {
    assert |s.regions| > 1 ==> s.regions[0].Hi() < s.regions[1].Lo() <= s.regions[1].Hi();
  }

  /** Regions that stay where they are give the selection they came from. */
  lemma Reflagged(out: seq<Region>, s: Sel)
    requires WellFormed(s) && |out| == |s.regions|
    requires forall i :: 0 <= i < |out| ==> out[i] == At(s.regions[i].caret, s.regions[i].tail)
    ensures MapSelections(Singles(out), s.main) == Ok(s)
  {
    assert forall i :: 0 <= i < |out| ==> out[i].Lo() == s.regions[i].Lo() && out[i].Hi() == s.regions[i].Hi();
    MapSinglesApart(out, s.main);
    assert Flagged(out, s.main) == s.regions;
  }
}
