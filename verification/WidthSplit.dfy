/** Splitting a selection into pieces of a given width. */
module WidthSplit {
  import opened Prelude
  import opened Region
  import opened Selections
  import opened SelectionLaws
  import opened Split

  /** Pieces of `step` positions, from `pos` to the end of the region. */
  function WidthFrom(r: Region, pos: nat, step: nat): seq<Region>
    requires step > 0
    decreases r.Hi() + 1 - pos
  {
    if pos > r.Hi() then []
    else [At(pos, Min(r.Hi(), pos + step - 1)).WithDirection(r.Backward())] + WidthFrom(r, pos + step, step)
  }

  function WidthOutputs(rs: seq<Region>, step: nat): (outputs: seq<seq<Region>>)
    requires step > 0
    ensures |outputs| == |rs| && forall i :: 0 <= i < |rs| ==> outputs[i] == WidthFrom(rs[i], rs[i].Lo(), step)
  {
    seq(|rs|, i requires 0 <= i < |rs| => WidthFrom(rs[i], rs[i].Lo(), step))
  }

  /** Splits every region into pieces of width * count positions; a count of zero panics. */
  function SplitByWidth(s: Sel, width: nat, count: nat): Outcome<Sel> {
    if width * count == 0 then Panic
    else MapSelections(WidthOutputs(s.regions, width * count), s.main)
  }

  /** The pieces follow each other without a gap from `pos` to the end of the region, and
      all but the last have exactly `step` positions. */
  ghost predicate Tiles(pieces: seq<Region>, r: Region, pos: nat, step: nat) {
    && pieces != []
    && pieces[0].Lo() == pos && pieces[|pieces| - 1].Hi() == r.Hi() && pieces[|pieces| - 1].Len() <= step
    && (forall i :: 0 <= i < |pieces| - 1 ==> pieces[i].Len() == step)
    && (forall i, j :: 0 <= i < |pieces| && j == i + 1 < |pieces| ==> pieces[j].Lo() == pieces[i].Hi() + 1)
    && (forall i :: 0 <= i < |pieces| ==> !pieces[i].main && Within(pieces[i], r) && Along(pieces[i], r.Backward()))
    && Sorted(pieces)
    && (forall p :: Covers(pieces, p) <==> pos <= p <= r.Hi())
  }

  lemma {:induction false} WidthTiles(r: Region, pos: nat, step: nat)
    requires step > 0 && r.Lo() <= pos <= r.Hi()
    ensures Tiles(WidthFrom(r, pos, step), r, pos, step)
    decreases r.Hi() - pos
  {
    var head := At(pos, Min(r.Hi(), pos + step - 1)).WithDirection(r.Backward());
    var rest := WidthFrom(r, pos + step, step);
    assert head.Lo() == pos && head.Hi() == Min(r.Hi(), pos + step - 1);
    if pos + step <= r.Hi() {
      WidthTiles(r, pos + step, step);
      TilesCons(head, rest, r, pos, step);
    } else {
      assert WidthFrom(r, pos, step) == [head];
      assert forall p :: Covers([head], p) <==> head.Holds(p) by {
        assert [head][0] == head;
      }
    }
  }

  lemma {:induction false} TilesCons(head: Region, rest: seq<Region>, r: Region, pos: nat, step: nat)
    requires step > 0 && r.Lo() <= pos && pos + step <= r.Hi() && Tiles(rest, r, pos + step, step)
    requires !head.main && head.Lo() == pos && head.Hi() == pos + step - 1 && Along(head, r.Backward())
    ensures Tiles([head] + rest, r, pos, step)
  {
    var all := [head] + rest;
    assert forall i :: 0 < i < |all| ==> all[i] == rest[i - 1];
    TilesConsSorted(head, rest);
    TilesConsCovers(head, rest, r, pos, step);
  }

  lemma {:induction false} TilesConsSorted(head: Region, rest: seq<Region>)
    requires Sorted(rest) && rest != [] && head.Hi() < rest[0].Lo()
    ensures Sorted([head] + rest)
  {
    forall i | 0 <= i < |rest| ensures head.Hi() < rest[i].Lo() {
      assert i > 0 ==> rest[0].Hi() < rest[i].Lo();
    }
  }

  lemma {:induction false} TilesConsCovers(head: Region, rest: seq<Region>, r: Region, pos: nat, step: nat)
    requires head.Lo() == pos && head.Hi() == pos + step - 1 && pos + step <= r.Hi()
    requires forall p :: Covers(rest, p) <==> pos + step <= p <= r.Hi()
    ensures forall p :: Covers([head] + rest, p) <==> pos <= p <= r.Hi()
  {
    forall p ensures Covers([head] + rest, p) <==> pos <= p <= r.Hi() {
      CoversConcat([head], rest, p);
      assert [head][0] == head;
    }
  }

  lemma {:induction false} WidthForm(rs: seq<Region>, step: nat, main: nat)
    requires step > 0
    ensures InsideAll(WidthOutputs(rs, step), rs) && FlagsPassedOn(WidthOutputs(rs, step), main)
    ensures forall i :: 0 <= i < |rs| ==> Tiles(WidthOutputs(rs, step)[i], rs[i], rs[i].Lo(), step)
  {
    forall i | 0 <= i < |rs| ensures Tiles(WidthOutputs(rs, step)[i], rs[i], rs[i].Lo(), step) {
      WidthTiles(rs[i], rs[i].Lo(), step);
    }
  }

  /** Splitting by width panics exactly for a zero width; otherwise every region becomes a
      row of pieces of that width, nothing is merged, the same positions stay selected, and
      the main region is the last piece of the old one. */
  lemma {:induction false} WidthSplitMeaning(s: Sel, width: nat, count: nat)
    requires WellFormed(s)
    ensures SplitByWidth(s, width, count).Panic? <==> width * count == 0
    ensures SplitByWidth(s, width, count).Ok? ==>
              var step, r := width * count, SplitByWidth(s, width, count).value;
              && (forall i :: 0 <= i < |s.regions| ==> Tiles(WidthOutputs(s.regions, step)[i], s.regions[i], s.regions[i].Lo(), step))
              && WellFormed(r) && |r.regions| == |Flatten(WidthOutputs(s.regions, step))|
              && (forall p :: Covers(r.regions, p) <==> Covers(s.regions, p))
              && r.regions[r.main].Hi() == s.regions[s.main].Hi()
  {
    var step := width * count;
    if step > 0 {
      var rs, outputs := s.regions, WidthOutputs(s.regions, step);
      WidthForm(rs, step, s.main);
      assert Tiles(outputs[s.main], rs[s.main], rs[s.main].Lo(), step);
      MapPieces(s, outputs);
      FlattenInside(outputs, rs);
      WidthMain(outputs, s.main);
      forall p ensures (exists i :: 0 <= i < |outputs| && Covers(outputs[i], p)) <==> Covers(rs, p) {
        WidthCovers(rs, outputs, step, p);
      }
    }
  }

  lemma {:induction false} WidthKeeps(s: Sel, step: nat)
    requires WellFormed(s) && step > 0
    ensures var r := MapSelections(WidthOutputs(s.regions, step), s.main);
            && r.Ok? && WellFormed(r.value) && |r.value.regions| == |Flatten(WidthOutputs(s.regions, step))|
            && forall p :: Covers(r.value.regions, p) <==> Covers(s.regions, p)
  {
    WidthSplitMeaning(s, step, 1);
    assert step * 1 == step;
  }

  lemma {:induction false} WidthCovers(rs: seq<Region>, outputs: seq<seq<Region>>, step: nat, p: int)
    requires |outputs| == |rs| && forall i :: 0 <= i < |rs| ==> Tiles(outputs[i], rs[i], rs[i].Lo(), step)
    ensures (exists i :: 0 <= i < |outputs| && Covers(outputs[i], p)) <==> Covers(rs, p)
  {
    if i :| 0 <= i < |outputs| && Covers(outputs[i], p) {
      assert Tiles(outputs[i], rs[i], rs[i].Lo(), step);
      assert rs[i].Holds(p);
    }
    if i :| 0 <= i < |rs| && rs[i].Holds(p) {
      assert Tiles(outputs[i], rs[i], rs[i].Lo(), step);
      assert Covers(outputs[i], p);
    }
  }

  lemma {:induction false} WidthMain(outputs: seq<seq<Region>>, main: nat)
    requires main < |outputs| && Sorted(Flatten(outputs)) && outputs[main] != []
    ensures var r := MapSelections(outputs, main);
            && r.Ok? && r.value.main < |r.value.regions|
            && r.value.regions[r.value.main].Hi() == outputs[main][|outputs[main]| - 1].Hi()
  {
    FlattenAt(outputs, main);
    MapApart(outputs, main);
    var upTo := Flatten(outputs[..main + 1]);
    assert upTo[|upTo| - 1] == outputs[main][|outputs[main]| - 1];
    assert Flatten(outputs)[|upTo| - 1] == upTo[|upTo| - 1];
  }
}
