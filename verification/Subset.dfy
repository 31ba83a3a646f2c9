/**
 Subsets of the positions of a string, one flag per position. A flag that is set marks a
 position that belongs to the subset, which in this editor is always "inserted" or "deleted".
 The operations are those of the rope library that history.rs relies on.
 */
module Subset {

  type Subset = seq<bool>

  /** How many positions are left when the subset is deleted. */
  function CountZero(s: Subset): nat {
    if s == [] then 0 else (if s[0] then 0 else 1) + CountZero(s[1..])
  }

  function Complement(s: Subset): (r: Subset)
    ensures |r| == |s|
  {
    if s == [] then [] else [!s[0]] + Complement(s[1..])
  }

  /** The text that remains when the subset's positions are removed. */
  function DeleteFrom<T>(s: Subset, text: seq<T>): (r: seq<T>)
    requires |s| == |text|
    ensures |r| == CountZero(s)
  {
    if s == [] then []
    else if s[0] then DeleteFrom(s[1..], text[1..])
    else [text[0]] + DeleteFrom(s[1..], text[1..])
  }

  /** The text at the subset's positions. */
  function Extract<T>(s: Subset, text: seq<T>): (r: seq<T>)
    requires |s| == |text|
    ensures |r| == CountZero(Complement(s))
  {
    DeleteFrom(Complement(s), text)
  }

  function Union(s: Subset, t: Subset): (r: Subset)
    requires |s| == |t|
    ensures |r| == |s|
  {
    if s == [] then [] else [s[0] || t[0]] + Union(s[1..], t[1..])
  }

  /** Re-reads a subset of the positions outside `over` as a subset of all positions;
      the positions in `over` get the flag `fill`. */
  function Spread(s: Subset, over: Subset, fill: bool): (r: Subset)
    requires |s| == CountZero(over)
    ensures |r| == |over|
  {
    if over == [] then []
    else if over[0] then [fill] + Spread(s, over[1..], fill)
    else [s[0]] + Spread(s[1..], over[1..], fill)
  }

  function TransformExpand(s: Subset, over: Subset): (r: Subset)
    requires |s| == CountZero(over)
    ensures |r| == |over|
  {
    Spread(s, over, false)
  }

  function TransformUnion(s: Subset, over: Subset): (r: Subset)
    requires |s| == CountZero(over)
    ensures |r| == |over|
  {
    Spread(s, over, true)
  }

  /** Restricts a subset to the positions outside `over`. */
  function TransformShrink(s: Subset, over: Subset): (r: Subset)
    requires |s| == |over|
    ensures |r| == CountZero(over)
  {
    DeleteFrom(over, s)
  }

  predicate Disjoint(s: Subset, t: Subset)
    requires |s| == |t|
  {
    forall i :: 0 <= i < |s| ==> !(s[i] && t[i])
  }

  function Flags(n: nat, flag: bool): (r: Subset)
    ensures |r| == n
    ensures forall i :: 0 <= i < n ==> r[i] == flag
  {
    if n == 0 then [] else [flag] + Flags(n - 1, flag)
  }

  // ----- laws of concatenation

  lemma {:induction false} CountZeroConcat(s: Subset, t: Subset)
    ensures CountZero(s + t) == CountZero(s) + CountZero(t)
  {
    if s == [] {
      assert s + t == t;
    } else {
      assert (s + t)[1..] == s[1..] + t;
      CountZeroConcat(s[1..], t);
    }
  }

  lemma {:induction false} DeleteFromConcat<T>(s: Subset, t: Subset, x: seq<T>, y: seq<T>)
    requires |s| == |x| && |t| == |y|
    ensures DeleteFrom(s + t, x + y) == DeleteFrom(s, x) + DeleteFrom(t, y)
  {
    if s == [] {
      assert s + t == t && x + y == y;
    } else {
      assert (s + t)[1..] == s[1..] + t && (x + y)[1..] == x[1..] + y;
      DeleteFromConcat(s[1..], t, x[1..], y);
    }
  }

  lemma {:induction false} SpreadConcat(s: Subset, t: Subset, over: Subset, over': Subset, fill: bool)
    requires |s| == CountZero(over) && |t| == CountZero(over')
    ensures CountZero(over + over') == |s + t|
    ensures Spread(s + t, over + over', fill) == Spread(s, over, fill) + Spread(t, over', fill)
  {
    if over == [] {
      assert over + over' == over' && s + t == t;
    } else {
      var s' := if over[0] then s else s[1..];
      SpreadConcat(s', t, over[1..], over', fill);
      SpreadJoin(s, s', t, over[0], over[1..], over', fill);
      assert over == [over[0]] + over[1..] && over + over' == [over[0]] + (over[1..] + over');
    }
  }

  lemma {:induction false} SpreadJoin(s: Subset, s': Subset, t: Subset, head: bool, over: Subset, over': Subset, fill: bool)
    requires |s| == CountZero([head] + over) && |s'| == CountZero(over) && |t| == CountZero(over')
    requires if head then s' == s else |s| > 0 && s' == s[1..]
    requires |s' + t| == CountZero(over + over')
    requires Spread(s' + t, over + over', fill) == Spread(s', over, fill) + Spread(t, over', fill)
    ensures |s + t| == CountZero([head] + (over + over'))
    ensures Spread(s + t, [head] + (over + over'), fill) == Spread(s, [head] + over, fill) + Spread(t, over', fill)
  {
    assert ([head] + (over + over'))[1..] == over + over';
    SpreadCons(s, head, over, fill);
    SpreadCons(s + t, head, over + over', fill);
    assert !head ==> (s + t)[1..] == s' + t;
  }

  lemma SpreadCons(s: Subset, head: bool, over: Subset, fill: bool)
    requires |s| == CountZero([head] + over)
    ensures if head then |s| == CountZero(over) && Spread(s, [head] + over, fill) == [fill] + Spread(s, over, fill)
            else
              && |s| == CountZero(over) + 1
              && Spread(s, [head] + over, fill) == [s[0]] + Spread(s[1..], over, fill)
  {
    assert ([head] + over)[1..] == over;
  }

  lemma {:induction false} FlagsDelete<T>(n: nat, flag: bool, x: seq<T>)
    requires |x| == n
    ensures CountZero(Flags(n, flag)) == if flag then 0 else n
    ensures DeleteFrom(Flags(n, flag), x) == if flag then [] else x
  {
    if n > 0 {
      FlagsDelete(n - 1, flag, x[1..]);
    }
  }

  lemma {:induction false} SpreadFlags(s: Subset, fill: bool)
    ensures CountZero(Flags(|s|, false)) == |s|
    ensures Spread(s, Flags(|s|, false), fill) == s
  {
    if s != [] {
      SpreadFlags(s[1..], fill);
    }
  }

  // ----- laws of deletion

  /** Deleting in two steps is deleting the union, read in the larger string. */
  lemma {:induction false} DeleteInSteps<T>(s: Subset, over: Subset, text: seq<T>)
    requires |over| == |text| && |s| == CountZero(over)
    ensures DeleteFrom(TransformUnion(s, over), text) == DeleteFrom(s, DeleteFrom(over, text))
  {
    if over == [] {
    } else if over[0] {
      DeleteInSteps(s, over[1..], text[1..]);
    } else {
      DeleteInSteps(s[1..], over[1..], text[1..]);
    }
  }

  /** Expanding and then joining with `over` is the same as `transform_union`. */
  lemma {:induction false} ExpandThenUnion(s: Subset, over: Subset)
    requires |s| == CountZero(over)
    ensures Union(TransformExpand(s, over), over) == TransformUnion(s, over)
  {
    if over == [] {
    } else if over[0] {
      ExpandThenUnion(s, over[1..]);
    } else {
      ExpandThenUnion(s[1..], over[1..]);
    }
  }

  lemma {:induction false} ShrinkOfExpand(s: Subset, over: Subset, fill: bool)
    requires |s| == CountZero(over)
    ensures TransformShrink(Spread(s, over, fill), over) == s
  {
    if over == [] {
    } else if over[0] {
      ShrinkOfExpand(s, over[1..], fill);
    } else {
      ShrinkOfExpand(s[1..], over[1..], fill);
    }
  }

  /** Deleting a union is deleting one part and then what is left of the other. */
  lemma {:induction false} DeleteUnion<T>(s: Subset, t: Subset, text: seq<T>)
    requires |s| == |t| == |text|
    ensures DeleteFrom(Union(s, t), text) == DeleteFrom(TransformShrink(t, s), DeleteFrom(s, text))
  {
    if s != [] {
      DeleteUnion(s[1..], t[1..], text[1..]);
    }
  }

  /** Positions outside `gone` can be extracted before or after `gone` is deleted. */
  lemma {:induction false} ExtractSurvivors<T>(s: Subset, gone: Subset, text: seq<T>)
    requires |s| == |gone| == |text|
    requires Disjoint(s, gone)
    ensures Extract(s, text) == Extract(TransformShrink(s, gone), DeleteFrom(gone, text))
  {
    if s != [] {
      assert !(s[0] && gone[0]);
      assert forall i :: 0 <= i < |s| - 1 ==> s[1..][i] == s[i + 1] && gone[1..][i] == gone[i + 1];
      ExtractSurvivors(s[1..], gone[1..], text[1..]);
    }
  }

  lemma {:induction false} ExpandIsDisjoint(s: Subset, over: Subset)
    requires |s| == CountZero(over)
    ensures Disjoint(TransformExpand(s, over), over)
  {
    if over == [] {
    } else {
      ExpandIsDisjoint(if over[0] then s else s[1..], over[1..]);
      forall i | 0 <= i < |over| ensures !(TransformExpand(s, over)[i] && over[i]) {
        if i > 0 {
          assert over[i] == over[1..][i - 1];
          assert TransformExpand(s, over)[i] == TransformExpand(if over[0] then s else s[1..], over[1..])[i - 1];
        }
      }
    }
  }
}
