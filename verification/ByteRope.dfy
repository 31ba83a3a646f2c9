/** The byte rope: its leaves, read from left to right, and the cursor over them. */
module ByteRope {
  import opened Prelude

  const MAX_LEAF: nat := 1024

  /** The leaves of a rope's tree, in order. */
  type Leaves = seq<Doc>

  function Contents(leaves: Leaves): Doc {
    if leaves == [] then [] else leaves[0] + Contents(leaves[1..])
  }

  predicate LeavesFit(leaves: Leaves) {
    forall i :: 0 <= i < |leaves| ==> 0 < |leaves[i]| <= MAX_LEAF
  }

  lemma {:induction false} ContentsConcat(a: Leaves, b: Leaves)
    ensures Contents(a + b) == Contents(a) + Contents(b)
  {
    if a == [] {
      assert a + b == b;
    } else {
      assert (a + b)[1..] == a[1..] + b;
      ContentsConcat(a[1..], b);
      assert a[0] + (Contents(a[1..]) + Contents(b)) == a[0] + Contents(a[1..]) + Contents(b);
    }
  }

  /** Adds a part of another leaf to a leaf; what does not fit becomes a leaf of its own. */
  method PushMaybeSplit(leaf: Doc, other: Doc, start: nat, end: nat) returns (grown: Doc, right: Option<Doc>)
    requires |leaf| <= MAX_LEAF && |other| <= MAX_LEAF && start <= end <= |other|
    ensures grown + (if right.Some? then right.value else []) == leaf + other[start..end]
    ensures |grown| <= MAX_LEAF && (right.Some? ==> |grown| == MAX_LEAF && 0 < |right.value| <= MAX_LEAF)
    ensures right.Some? <==> |leaf| + (end - start) > MAX_LEAF
  {
    grown := leaf + other[start..end];
    if |grown| <= MAX_LEAF {
      right := None;
    } else {
      right := Some(grown[MAX_LEAF..]);
      grown := grown[..MAX_LEAF];
    }
  }

  /** Cuts a byte vector into leaves. */
  method FromBytes(bytes: Doc) returns (leaves: Leaves)
    ensures Contents(leaves) == bytes && LeavesFit(leaves)
    ensures forall i :: 0 <= i < |leaves| - 1 ==> |leaves[i]| == MAX_LEAF
  {
    leaves := [];
    if |bytes| <= MAX_LEAF {
      if bytes != [] {
        leaves := [bytes];
        assert leaves[1..] == [];
      }
      return;
    }
    var source := bytes;
    while source != []
      invariant Contents(leaves) + source == bytes && LeavesFit(leaves)
      invariant source != [] ==> forall i :: 0 <= i < |leaves| ==> |leaves[i]| == MAX_LEAF
      invariant forall i :: 0 <= i < |leaves| - 1 ==> |leaves[i]| == MAX_LEAF
      decreases |source|
    {
      var splitPoint := Min(|source|, MAX_LEAF);
      var piece, rest := source[..splitPoint], source[splitPoint..];
      ContentsConcat(leaves, [piece]);
      assert [piece][1..] == [] && Contents([piece]) == piece;
      assert Contents(leaves) + source == Contents(leaves) + piece + rest;
      leaves := leaves + [piece];
      source := rest;
    }
  }

  /** Walks over the leaves from `start` up to, not including, `end`. The cursor stands in
      leaf `index`, at byte `offset` of it. */
  class ChunkIter {
    const leaves: Leaves
    const end: nat
    var index: nat
    var offset: nat

    /** The offset of the cursor in the whole rope. */
    ghost function Pos(): nat
      reads this
      requires index <= |leaves|
    {
      |Contents(leaves[..index])| + offset
    }

    ghost predicate Valid()
      reads this
    {
      && index <= |leaves|
      && (if index < |leaves| then offset <= |leaves[index]| else offset == 0)
    }

    /** The bytes that are still to come. */
    ghost function Remaining(): Doc
      reads this
      requires Valid()
    {
      Between(leaves, Pos(), end)
    }

    constructor (bytes: Leaves, start: nat, stop: nat)
      requires LeavesFit(bytes) && start <= |Contents(bytes)|
      ensures Valid() && leaves == bytes && end == stop && Remaining() == Between(bytes, start, stop)
    {
      leaves, end := bytes, stop;
      index, offset := 0, start;
      new;
      assert leaves[..0] == [];
      while index + 1 < |leaves| && offset >= |leaves[index]|
        invariant index <= |leaves| && leaves == bytes && end == stop
        invariant |Contents(leaves[..index])| + offset == start
        invariant index == 0 || index < |leaves|
        decreases |leaves| - index
      {
        PrefixLength(leaves, index);
        offset := offset - |leaves[index]|;
        index := index + 1;
      }
      if index < |leaves| {
        PrefixLength(leaves, index);
        ContentsSplit(leaves, index + 1);
        assert index + 1 == |leaves| ==> leaves[..index + 1] == leaves;
      }
    }

    /** The next chunk; the chunks of a walk are the wanted bytes, in order. */
    method Next() returns (chunk: Option<Doc>)
      requires Valid()
      modifies this
      ensures Valid()
      ensures chunk.None? ==> old(Remaining()) == [] && index == old(index)
      ensures chunk.Some? ==> old(Remaining()) == chunk.value + Remaining() && index == old(index) + 1
    {
      var pos := PrefixLen(leaves, index) + offset;
      if pos >= end {
        return None;
      }
      if index < |leaves| {
        var leaf := leaves[index];
        var len := Min(end - pos, |leaf| - offset);
        ChunkStep(leaves, index, offset, end);
        chunk := Some(leaf[offset..offset + len]);
        index, offset := index + 1, 0;
      } else {
        assert leaves[..index] == leaves;
        chunk := None;
      }
    }
  }

  function PrefixLen(leaves: Leaves, k: nat): (n: nat)
    requires k <= |leaves|
    ensures n == |Contents(leaves[..k])|
  {
    if k == 0 then
      assert leaves[..0] == [];
      0
    else
      PrefixLength(leaves, k - 1);
      PrefixLen(leaves, k - 1) + |leaves[k - 1]|
  }

  lemma PrefixLength(leaves: Leaves, k: nat)
    requires k < |leaves|
    ensures Contents(leaves[..k + 1]) == Contents(leaves[..k]) + leaves[k]
  {
    assert leaves[..k + 1] == leaves[..k] + [leaves[k]];
    ContentsConcat(leaves[..k], [leaves[k]]);
    assert [leaves[k]][1..] == [] && Contents([leaves[k]]) == leaves[k];
  }

  lemma ContentsSplit(leaves: Leaves, k: nat)
    requires k <= |leaves|
    ensures Contents(leaves) == Contents(leaves[..k]) + Contents(leaves[k..])
  {
    assert leaves == leaves[..k] + leaves[k..];
    ContentsConcat(leaves[..k], leaves[k..]);
  }

  /** The bytes in a range, which may reach past the end. */
  function Clipped(all: Doc, start: nat, end: nat): Doc {
    if start <= Min(end, |all|) then all[start..Min(end, |all|)] else []
  }

  function Between(leaves: Leaves, start: nat, end: nat): Doc {
    Clipped(Contents(leaves), start, end)
  }

  /** The rest of a leaf, up to `end`, is what comes next. */
  lemma ChunkStep(leaves: Leaves, index: nat, offset: nat, end: nat)
    requires index < |leaves| && offset <= |leaves[index]|
    requires |Contents(leaves[..index])| + offset < end
    ensures var pos := |Contents(leaves[..index])| + offset;
            var len := Min(end - pos, |leaves[index]| - offset);
            && Between(leaves, pos, end)
               == leaves[index][offset..offset + len] + Between(leaves, |Contents(leaves[..index + 1])|, end)
  {
    var before, leaf, after := Contents(leaves[..index]), leaves[index], Contents(leaves[index + 1..]);
    PrefixLength(leaves, index);
    ContentsSplit(leaves, index + 1);
    SliceAcross(before, leaf, after, Contents(leaves), offset, end);
  }

  lemma {:induction false} SliceAcross(before: Doc, leaf: Doc, after: Doc, all: Doc, offset: nat, end: nat)
    requires all == before + leaf + after && offset <= |leaf| && |before| + offset < end
    ensures var pos := |before| + offset;
            var len := Min(end - pos, |leaf| - offset);
            Clipped(all, pos, end) == leaf[offset..offset + len] + Clipped(all, |before| + |leaf|, end)
  {
    var pos, stop := |before| + offset, Min(end, |all|);
    var len := Min(end - pos, |leaf| - offset);
    assert all[pos..pos + len] == leaf[offset..offset + len];
    assert all[pos..stop] == all[pos..pos + len] + all[pos + len..stop];
  }

  /** Collects a range of a rope, chunk by chunk. */
  method SliceToBytes(leaves: Leaves, start: nat, end: nat) returns (bytes: Doc)
    requires LeavesFit(leaves) && start <= |Contents(leaves)|
    ensures bytes == Between(leaves, start, end)
  {
    ghost var wanted := Between(leaves, start, end);
    var iter := new ChunkIter(leaves, start, end);
    var first := iter.Next();
    if first.None? {
      return [];
    }
    var second := iter.Next();
    if second.None? {
      return first.value;
    }
    bytes := first.value + second.value;
    Regroup(first.value, second.value, iter.Remaining());
    var chunk := iter.Next();
    while chunk.Some?
      invariant iter.Valid() && iter.leaves == leaves
      invariant bytes + (if chunk.Some? then chunk.value + iter.Remaining() else []) == wanted
      decreases |leaves| - iter.index, if chunk.Some? then 1 else 0
    {
      Regroup(bytes, chunk.value, iter.Remaining());
      bytes := bytes + chunk.value;
      chunk := iter.Next();
    }
  }

  lemma Regroup(a: Doc, b: Doc, c: Doc)
    ensures a + (b + c) == a + b + c
  {
  }
}
