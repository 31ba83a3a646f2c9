/** The edits a selection gives rise to, and the loops that feed them to the delta builder. */
module Operations {
  import opened Prelude
  import opened Delta
  import opened Builder
  import opened Region
  import opened Selections

  // ----- the edits, region by region

  function DeletionEdits(rs: seq<Region>): seq<Edit> {
    if rs == [] then [] else [Edit(rs[0].Lo(), rs[0].Hi() + 1, [])] + DeletionEdits(rs[1..])
  }

  /** A caret at the very start has nothing before it. */
  function BackspaceEdits(rs: seq<Region>): seq<Edit> {
    if rs == [] then []
    else if rs[0].caret == 0 then BackspaceEdits(rs[1..])
    else [Edit(rs[0].caret - 1, rs[0].caret, [])] + BackspaceEdits(rs[1..])
  }

  /** A caret at the overflow position has nothing under it. */
  function DeleteCursorEdits(rs: seq<Region>, n: nat): seq<Edit> {
    if rs == [] then []
    else
      var end := Min(n, rs[0].caret + 1);
      if end <= rs[0].caret then DeleteCursorEdits(rs[1..], n)
      else [Edit(rs[0].caret, end, [])] + DeleteCursorEdits(rs[1..], n)
  }

  function InsertEdits(rs: seq<Region>, text: Doc): seq<Edit> {
    if rs == [] then [] else [Edit(rs[0].caret, rs[0].caret, text)] + InsertEdits(rs[1..], text)
  }

  function ChangeEdits(rs: seq<Region>, text: Doc): seq<Edit> {
    if rs == [] then [] else [Edit(rs[0].caret, rs[0].caret + 1, text)] + ChangeEdits(rs[1..], text)
  }

  /** The byte under the caret with its upper half replaced. */
  function HalfByte(doc: Doc, caret: nat, top: Byte): Byte {
    (if |doc| > caret then doc[caret] & 0x0F else 0) | top
  }

  function OverwriteHalfEdits(doc: Doc, rs: seq<Region>, top: Byte): seq<Edit> {
    if rs == [] then []
    else [Edit(rs[0].caret, rs[0].caret + 1, [HalfByte(doc, rs[0].caret, top)])] + OverwriteHalfEdits(doc, rs[1..], top)
  }

  function Fill(ch: Byte, len: nat): (r: Doc)
    ensures |r| == len && forall i :: 0 <= i < len ==> r[i] == ch
  {
    seq(len, _ => ch)
  }

  function ReplaceEdits(rs: seq<Region>, ch: Byte): seq<Edit> {
    if rs == [] then []
    else [Edit(rs[0].Lo(), rs[0].Hi() + 1, Fill(ch, rs[0].Hi() - rs[0].Lo() + 1))] + ReplaceEdits(rs[1..], ch)
  }

  function Repeat(text: Doc, count: nat): Doc {
    if count == 0 then [] else text + Repeat(text, count - 1)
  }

  function PastePosition(r: Region, after: bool, n: nat): nat {
    if after then Min(n, r.Hi() + 1) else r.Lo()
  }

  /** Region number k + i pastes register entry k + i, or the last one if there are fewer. */
  function PasteEdits(rs: seq<Region>, k: nat, register: seq<Doc>, after: bool, count: nat, n: nat): seq<Edit>
    requires register != []
  {
    if rs == [] then []
    else
      var pos := PastePosition(rs[0], after, n);
      [Edit(pos, pos, Repeat(register[Min(k, |register| - 1)], count))]
      + PasteEdits(rs[1..], k + 1, register, after, count, n)
  }

  // ----- the i-th edit belongs to the i-th region

  lemma {:induction false} DeletionEditsAt(rs: seq<Region>)
    ensures |DeletionEdits(rs)| == |rs| && forall i :: 0 <= i < |rs| ==> DeletionEdits(rs)[i] == Edit(rs[i].Lo(), rs[i].Hi() + 1, [])
  {
    if rs != [] {
      DeletionEditsAt(rs[1..]);
    }
  }

  lemma {:induction false} InsertEditsAt(rs: seq<Region>, text: Doc)
    ensures |InsertEdits(rs, text)| == |rs| && forall i :: 0 <= i < |rs| ==> InsertEdits(rs, text)[i] == Edit(rs[i].caret, rs[i].caret, text)
  {
    if rs != [] {
      InsertEditsAt(rs[1..], text);
    }
  }

  lemma {:induction false} ChangeEditsAt(rs: seq<Region>, text: Doc)
    ensures |ChangeEdits(rs, text)| == |rs| && forall i :: 0 <= i < |rs| ==> ChangeEdits(rs, text)[i] == Edit(rs[i].caret, rs[i].caret + 1, text)
  {
    if rs != [] {
      ChangeEditsAt(rs[1..], text);
    }
  }

  lemma {:induction false} OverwriteHalfEditsAt(doc: Doc, rs: seq<Region>, top: Byte)
    ensures |OverwriteHalfEdits(doc, rs, top)| == |rs|
    ensures forall i :: 0 <= i < |rs| ==> OverwriteHalfEdits(doc, rs, top)[i] == Edit(rs[i].caret, rs[i].caret + 1, [HalfByte(doc, rs[i].caret, top)])
  {
    if rs != [] {
      OverwriteHalfEditsAt(doc, rs[1..], top);
    }
  }

  lemma {:induction false} ReplaceEditsAt(rs: seq<Region>, ch: Byte)
    ensures |ReplaceEdits(rs, ch)| == |rs|
    ensures forall i :: 0 <= i < |rs| ==> ReplaceEdits(rs, ch)[i] == Edit(rs[i].Lo(), rs[i].Hi() + 1, Fill(ch, rs[i].Len()))
  {
    if rs != [] {
      ReplaceEditsAt(rs[1..], ch);
    }
  }

  /** Region number k + i pastes register entry k + i, or the last one if there are fewer. */
  lemma {:induction false} PasteEditsAt(rs: seq<Region>, k: nat, register: seq<Doc>, after: bool, count: nat, n: nat)
    requires register != []
    ensures |PasteEdits(rs, k, register, after, count, n)| == |rs|
    ensures forall i :: 0 <= i < |rs| ==>
              var pos := PastePosition(rs[i], after, n);
              PasteEdits(rs, k, register, after, count, n)[i] == Edit(pos, pos, Repeat(register[Min(k + i, |register| - 1)], count))
  {
    if rs != [] {
      PasteEditsAt(rs[1..], k + 1, register, after, count, n);
    }
  }

  // ----- the builders accept the edits

  /** Edits that follow each other are what the delta builder demands. */
  lemma {:induction false} OrderedByIndex(es: seq<Edit>, last: nat, n: nat)
    requires forall i :: 0 <= i < |es| ==> last <= es[i].beg <= n && es[i].beg <= es[i].end
    requires forall i, j :: 0 <= i < j < |es| ==> es[i].end <= es[j].beg
    ensures Ordered(es, last, n)
  {
    if es != [] {
      assert forall i, j :: 0 <= i < j < |es| - 1 ==> es[1..][i].end <= es[1..][j].beg;
      OrderedByIndex(es[1..], es[0].end, n);
    }
  }

  lemma SortedTail(rs: seq<Region>)
    requires Sorted(rs) && rs != []
    ensures Sorted(rs[1..])
    ensures forall i :: 0 <= i < |rs| - 1 ==> rs[0].Hi() < rs[1..][i].Lo()
  {
  }

  lemma {:induction false} BackspaceOrdered(rs: seq<Region>, last: nat, n: nat)
    requires Sorted(rs) && InBounds(rs, n)
    requires forall i :: 0 <= i < |rs| ==> rs[i].caret == 0 || last < rs[i].caret
    ensures Ordered(BackspaceEdits(rs), last, n)
  {
    if rs != [] {
      SortedTail(rs);
      BackspaceOrdered(rs[1..], if rs[0].caret == 0 then last else rs[0].caret, n);
    }
  }

  lemma {:induction false} DeleteCursorOrdered(rs: seq<Region>, last: nat, n: nat)
    requires Sorted(rs) && InBounds(rs, n)
    requires forall i :: 0 <= i < |rs| ==> last <= rs[i].caret
    ensures Ordered(DeleteCursorEdits(rs, n), last, n)
  {
    if rs != [] {
      SortedTail(rs);
      DeleteCursorOrdered(rs[1..], if rs[0].caret < n then rs[0].caret + 1 else last, n);
    }
  }

  lemma {:induction false} DeletionOrdered(rs: seq<Region>, n: nat)
    requires Sorted(rs) && InBounds(rs, n)
    ensures Ordered(DeletionEdits(rs), 0, n)
  {
    DeletionEditsAt(rs);
    OrderedByIndex(DeletionEdits(rs), 0, n);
  }

  lemma {:induction false} InsertOrdered(rs: seq<Region>, text: Doc, n: nat)
    requires Sorted(rs) && InBounds(rs, n)
    ensures Ordered(InsertEdits(rs, text), 0, n)
  {
    InsertEditsAt(rs, text);
    OrderedByIndex(InsertEdits(rs, text), 0, n);
  }

  lemma {:induction false} ChangeOrdered(rs: seq<Region>, text: Doc, n: nat)
    requires Sorted(rs) && InBounds(rs, n)
    ensures Ordered(ChangeEdits(rs, text), 0, n)
  {
    ChangeEditsAt(rs, text);
    OrderedByIndex(ChangeEdits(rs, text), 0, n);
  }

  lemma {:induction false} OverwriteHalfOrdered(doc: Doc, rs: seq<Region>, top: Byte)
    requires Sorted(rs) && InBounds(rs, |doc|)
    ensures Ordered(OverwriteHalfEdits(doc, rs, top), 0, |doc|)
  {
    OverwriteHalfEditsAt(doc, rs, top);
    OrderedByIndex(OverwriteHalfEdits(doc, rs, top), 0, |doc|);
  }

  lemma {:induction false} ReplaceOrdered(rs: seq<Region>, ch: Byte, n: nat)
    requires Sorted(rs) && InBounds(rs, n)
    ensures Ordered(ReplaceEdits(rs, ch), 0, n)
  {
    ReplaceEditsAt(rs, ch);
    OrderedByIndex(ReplaceEdits(rs, ch), 0, n);
  }

  lemma {:induction false} PasteOrdered(rs: seq<Region>, register: seq<Doc>, after: bool, count: nat, n: nat)
    requires Sorted(rs) && InBounds(rs, n) && register != []
    ensures Ordered(PasteEdits(rs, 0, register, after, count, n), 0, n)
  {
    PasteEditsAt(rs, 0, register, after, count, n);
    OrderedByIndex(PasteEdits(rs, 0, register, after, count, n), 0, n);
  }

  // ----- the loops

  lemma TakeNext(all: seq<Edit>, i: nat)
    requires i < |all|
    ensures all[..i + 1] == all[..i] + [all[i]]
  {
  }

  lemma Reassociated(done: seq<Edit>, e: Edit, rest: seq<Edit>)
    ensures done + [e] + rest == done + ([e] + rest)
  {
  }

  method Deletion(base: Doc, rs: seq<Region>) returns (d: Delta)
    requires Sorted(rs) && InBounds(rs, |base|)
    ensures d == Build(DeletionEdits(rs), |base|)
  {
    var builder := new DeltaBuilder(|base|);
    ghost var all := DeletionEdits(rs);
    assert |all| == |rs| by {
      DeletionEditsAt(rs);
    }
    for i := 0 to |rs|
      invariant builder.Valid() && builder.baseLen == |base|
      invariant builder.lastOffset == if i == 0 then 0 else rs[i - 1].Hi() + 1
      invariant builder.edits == all[..i]
    {
      TakeNext(all, i);
      assert i > 0 ==> rs[i - 1].Hi() < rs[i].Lo();
      assert all[i] == Edit(rs[i].Lo(), rs[i].Hi() + 1, []) by {
        DeletionEditsAt(rs);
      }
      builder.Delete(rs[i].Lo(), rs[i].Hi() + 1);
    }
    assert builder.edits == all;
    d := builder.Finish();
  }

  /** What the loop of `Backspace` has added and has still to add. */
  ghost predicate BackspaceTodo(done: seq<Edit>, last: nat, rs: seq<Region>, i: nat)
    requires i <= |rs|
  {
    && done + BackspaceEdits(rs[i..]) == BackspaceEdits(rs)
    && last <= if i == 0 then 0 else rs[i - 1].caret
  }

  lemma {:induction false} BackspaceNext(done: seq<Edit>, last: nat, rs: seq<Region>, i: nat, caret: nat)
    requires Sorted(rs) && i < |rs| && BackspaceTodo(done, last, rs, i) && caret == rs[i].caret
    ensures if caret > 0 then last < caret && BackspaceTodo(done + [Edit(caret - 1, caret, [])], caret, rs, i + 1)
            else BackspaceTodo(done, last, rs, i + 1)
  {
    assert rs[i..][1..] == rs[i + 1..];
    assert i > 0 ==> rs[i - 1].Hi() < rs[i].Lo();
    if caret > 0 {
      var e := Edit(caret - 1, caret, []);
      assert BackspaceEdits(rs[i..]) == [e] + BackspaceEdits(rs[i + 1..]);
      Reassociated(done, e, BackspaceEdits(rs[i + 1..]));
    }
  }

  lemma BackspaceAll(done: seq<Edit>, last: nat, rs: seq<Region>)
    ensures BackspaceTodo([], 0, rs, 0)
    ensures BackspaceTodo(done, last, rs, |rs|) ==> done == BackspaceEdits(rs)
  {
    assert rs[0..] == rs && rs[|rs|..] == [];
    assert done + BackspaceEdits([]) == done && [] + BackspaceEdits(rs) == BackspaceEdits(rs);
  }

  method Backspace(base: Doc, rs: seq<Region>) returns (d: Delta)
    requires Sorted(rs) && InBounds(rs, |base|)
    ensures d == Build(BackspaceEdits(rs), |base|)
  {
    var builder := new DeltaBuilder(|base|);
    BackspaceAll([], 0, rs);
    for i := 0 to |rs|
      invariant builder.Valid() && builder.baseLen == |base|
      invariant BackspaceTodo(builder.edits, builder.lastOffset, rs, i)
    {
      var caret := rs[i].caret;
      BackspaceNext(builder.edits, builder.lastOffset, rs, i, caret);
      if caret != 0 {
        builder.Delete(caret - 1, caret);
      }
    }
    BackspaceAll(builder.edits, builder.lastOffset, rs);
    d := builder.Finish();
  }

  /** The same for the loop of `DeleteCursor`. */
  ghost predicate DeleteCursorTodo(done: seq<Edit>, rs: seq<Region>, n: nat, i: nat)
    requires i <= |rs|
  {
    done + DeleteCursorEdits(rs[i..], n) == DeleteCursorEdits(rs, n)
  }

  lemma {:induction false} DeleteCursorNext(done: seq<Edit>, rs: seq<Region>, n: nat, i: nat)
    requires i < |rs| && DeleteCursorTodo(done, rs, n, i)
    ensures var end := Min(n, rs[i].caret + 1);
            if end > rs[i].caret then DeleteCursorTodo(done + [Edit(rs[i].caret, end, [])], rs, n, i + 1)
            else DeleteCursorTodo(done, rs, n, i + 1)
  {
    assert rs[i..][1..] == rs[i + 1..];
    var end := Min(n, rs[i].caret + 1);
    if end > rs[i].caret {
      var e := Edit(rs[i].caret, end, []);
      assert DeleteCursorEdits(rs[i..], n) == [e] + DeleteCursorEdits(rs[i + 1..], n);
      Reassociated(done, e, DeleteCursorEdits(rs[i + 1..], n));
    }
  }

  lemma DeleteCursorAll(done: seq<Edit>, rs: seq<Region>, n: nat)
    ensures DeleteCursorTodo([], rs, n, 0)
    ensures DeleteCursorTodo(done, rs, n, |rs|) ==> done == DeleteCursorEdits(rs, n)
  {
    assert rs[0..] == rs && rs[|rs|..] == [];
    assert done + DeleteCursorEdits([], n) == done && [] + DeleteCursorEdits(rs, n) == DeleteCursorEdits(rs, n);
  }

  method DeleteCursor(base: Doc, rs: seq<Region>) returns (d: Delta)
    requires Sorted(rs) && InBounds(rs, |base|)
    ensures d == Build(DeleteCursorEdits(rs, |base|), |base|)
  {
    var builder := new DeltaBuilder(|base|);
    DeleteCursorAll([], rs, |base|);
    for i := 0 to |rs|
      invariant builder.Valid() && builder.baseLen == |base|
      invariant builder.lastOffset <= if i == 0 then 0 else rs[i - 1].caret + 1
      invariant DeleteCursorTodo(builder.edits, rs, |base|, i)
    {
      DeleteCursorNext(builder.edits, rs, |base|, i);
      assert i > 0 ==> rs[i - 1].Hi() < rs[i].Lo();
      var end := Min(|base|, rs[i].caret + 1);
      if end > rs[i].caret {
        builder.Delete(rs[i].caret, end);
      }
    }
    DeleteCursorAll(builder.edits, rs, |base|);
    d := builder.Finish();
  }

  method InsertText(base: Doc, rs: seq<Region>, text: Doc) returns (d: Delta)
    requires Sorted(rs) && InBounds(rs, |base|)
    ensures d == Build(InsertEdits(rs, text), |base|)
  {
    var builder := new DeltaBuilder(|base|);
    ghost var all := InsertEdits(rs, text);
    assert |all| == |rs| by {
      InsertEditsAt(rs, text);
    }
    for i := 0 to |rs|
      invariant builder.Valid() && builder.baseLen == |base|
      invariant builder.lastOffset == if i == 0 then 0 else rs[i - 1].caret
      invariant builder.edits == all[..i]
    {
      TakeNext(all, i);
      assert i > 0 ==> rs[i - 1].Hi() < rs[i].Lo();
      assert all[i] == Edit(rs[i].caret, rs[i].caret, text) by {
        InsertEditsAt(rs, text);
      }
      builder.Replace(rs[i].caret, rs[i].caret, text);
    }
    assert builder.edits == all;
    d := builder.Finish();
  }

  method Paste(base: Doc, rs: seq<Region>, register: seq<Doc>, after: bool, count: nat) returns (d: Delta)
    requires Sorted(rs) && InBounds(rs, |base|) && register != []
    ensures d == Build(PasteEdits(rs, 0, register, after, count, |base|), |base|)
  {
    var builder := new DeltaBuilder(|base|);
    ghost var all := PasteEdits(rs, 0, register, after, count, |base|);
    assert |all| == |rs| by {
      PasteEditsAt(rs, 0, register, after, count, |base|);
    }
    for i := 0 to |rs|
      invariant builder.Valid() && builder.baseLen == |base|
      invariant builder.lastOffset == if i == 0 then 0 else PastePosition(rs[i - 1], after, |base|)
      invariant builder.edits == all[..i]
    {
      TakeNext(all, i);
      var insertPos := if after then Min(|base|, rs[i].Hi() + 1) else rs[i].Lo();
      assert i > 0 ==> PastePosition(rs[i - 1], after, |base|) <= insertPos by {
        assert i > 0 ==> rs[i - 1].Hi() < rs[i].Lo();
      }
      var pasted := if i < |register| then register[i] else register[|register| - 1];
      assert all[i] == Edit(insertPos, insertPos, Repeat(pasted, count)) by {
        PasteEditsAt(rs, 0, register, after, count, |base|);
      }
      builder.Replace(insertPos, insertPos, Repeat(pasted, count));
    }
    assert builder.edits == all;
    d := builder.Finish();
  }

  method Change(base: Doc, rs: seq<Region>, text: Doc) returns (d: Delta)
    requires Sorted(rs) && InBounds(rs, |base|)
    ensures d == Build(ChangeEdits(rs, text), |base|)
  {
    var builder := new DeltaBuilder(|base|);
    ghost var all := ChangeEdits(rs, text);
    assert |all| == |rs| by {
      ChangeEditsAt(rs, text);
    }
    for i := 0 to |rs|
      invariant builder.Valid() && builder.baseLen == |base|
      invariant builder.lastOffset == if i == 0 then 0 else rs[i - 1].caret + 1
      invariant builder.edits == all[..i]
    {
      TakeNext(all, i);
      assert i > 0 ==> rs[i - 1].Hi() < rs[i].Lo();
      assert all[i] == Edit(rs[i].caret, rs[i].caret + 1, text) by {
        ChangeEditsAt(rs, text);
      }
      builder.Replace(rs[i].caret, rs[i].caret + 1, text);
    }
    assert builder.edits == all;
    d := builder.Finish();
  }

  method OverwriteHalf(base: Doc, rs: seq<Region>, top: Byte) returns (d: Delta)
    requires Sorted(rs) && InBounds(rs, |base|)
    ensures d == Build(OverwriteHalfEdits(base, rs, top), |base|)
  {
    var builder := new DeltaBuilder(|base|);
    ghost var all := OverwriteHalfEdits(base, rs, top);
    assert |all| == |rs| by {
      OverwriteHalfEditsAt(base, rs, top);
    }
    for i := 0 to |rs|
      invariant builder.Valid() && builder.baseLen == |base|
      invariant builder.lastOffset == if i == 0 then 0 else rs[i - 1].caret + 1
      invariant builder.edits == all[..i]
    {
      TakeNext(all, i);
      assert i > 0 ==> rs[i - 1].Hi() < rs[i].Lo();
      assert all[i] == Edit(rs[i].caret, rs[i].caret + 1, [HalfByte(base, rs[i].caret, top)]) by {
        OverwriteHalfEditsAt(base, rs, top);
      }
      builder.Replace(rs[i].caret, rs[i].caret + 1, [HalfByte(base, rs[i].caret, top)]);
    }
    assert builder.edits == all;
    d := builder.Finish();
  }

  method Replace(base: Doc, rs: seq<Region>, ch: Byte) returns (d: Delta)
    requires Sorted(rs) && InBounds(rs, |base|)
    ensures d == Build(ReplaceEdits(rs, ch), |base|)
  {
    var builder := new DeltaBuilder(|base|);
    ghost var all := ReplaceEdits(rs, ch);
    assert |all| == |rs| by {
      ReplaceEditsAt(rs, ch);
    }
    for i := 0 to |rs|
      invariant builder.Valid() && builder.baseLen == |base|
      invariant builder.lastOffset == if i == 0 then 0 else rs[i - 1].Hi() + 1
      invariant builder.edits == all[..i]
    {
      TakeNext(all, i);
      assert i > 0 ==> rs[i - 1].Hi() < rs[i].Lo();
      assert all[i] == Edit(rs[i].Lo(), rs[i].Hi() + 1, Fill(ch, rs[i].Hi() - rs[i].Lo() + 1)) by {
        ReplaceEditsAt(rs, ch);
      }
      builder.Replace(rs[i].Lo(), rs[i].Hi() + 1, Fill(ch, rs[i].Hi() - rs[i].Lo() + 1));
    }
    assert builder.edits == all;
    d := builder.Finish();
  }
}
