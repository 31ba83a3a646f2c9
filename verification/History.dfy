/** Undo and redo stacks of deltas, and a pending action that grows by chaining. */
module History {
  import opened Prelude
  import opened Delta
  import opened Action
  import opened Selections

  /** An action that leads to another document, and the selection to restore with it. */
  datatype Entry = Entry(action: Delta, selection: Sel)

  /** The value of a history; the last entry of a stack is its top. */
  datatype Hist = Hist(partial: Option<Entry>, undo: seq<Entry>, redo: seq<Entry>)

  const Empty: Hist := Hist(None, [], [])

  function Last<T>(s: seq<T>): T
    requires s != []
  {
    s[|s| - 1]
  }

  function Init<T>(s: seq<T>): seq<T>
    requires s != []
  {
    s[..|s| - 1]
  }

  lemma InverseFits(d: Delta, current: Doc)
    requires ValidOn(d, current)
    ensures ValidOn(Invert(d, current), Apply(d, current))
    ensures NewLen(Invert(d, current)) == |current|
  {
    InvertUndoes(d, current);
    ApplyElsLength(Invert(d, current).els, 0, Apply(d, current));
  }

  function PerformFinal(h: Hist, current: Doc, d: Delta, s: Sel): Hist
    requires ValidOn(d, current)
  {
    h.(undo := h.undo + [Entry(Invert(d, current), s)], redo := [])
  }

  /** The pending action leads back to where it began: this step is undone first. */
  function PerformPartial(h: Hist, current: Doc, d: Delta, s: Sel): Hist
    requires ValidOn(d, current) && (h.partial.Some? ==> ValidOn(h.partial.value.action, current))
  {
    InverseFits(d, current);
    var inversion := Invert(d, current);
    match h.partial
    case None => h.(partial := Some(Entry(inversion, s)))
    case Some(entry) => h.(partial := Some(Entry(Chain(inversion, current, entry.action), entry.selection)))
  }

  function CommitPartial(h: Hist): Hist {
    match h.partial
    case None => h
    case Some(entry) => Hist(None, h.undo + [entry], [])
  }

  /** Takes back the last action; nothing happens if there is none. */
  function UndoTop(h: Hist, current: Doc, s: Sel): (Hist, Option<Entry>)
    requires h.undo != [] ==> ValidOn(Last(h.undo).action, current)
  {
    if h.undo == [] then (h, None)
    else
      var entry := Last(h.undo);
      (h.(undo := Init(h.undo), redo := h.redo + [Entry(Invert(entry.action, current), s)]), Some(entry))
  }

  function RedoTop(h: Hist, current: Doc, s: Sel): (Hist, Option<Entry>)
    requires h.redo != [] ==> ValidOn(Last(h.redo).action, current)
  {
    if h.redo == [] then (h, None)
    else
      var entry := Last(h.redo);
      (h.(redo := Init(h.redo), undo := h.undo + [Entry(Invert(entry.action, current), s)]), Some(entry))
  }

  class History {
    var partial: Option<Entry>
    var undo: seq<Entry>
    var redo: seq<Entry>

    function Value(): Hist
      reads this
    {
      Hist(partial, undo, redo)
    }

    constructor ()
      ensures Value() == Empty
    {
      partial, undo, redo := None, [], [];
    }

    method Final(current: Doc, d: Delta, s: Sel)
      requires ValidOn(d, current)
      modifies this
      ensures Value() == PerformFinal(old(Value()), current, d, s)
    {
      undo := undo + [Entry(Invert(d, current), s)];
      redo := [];
    }

    method Partial(current: Doc, d: Delta, s: Sel)
      requires ValidOn(d, current) && (partial.Some? ==> ValidOn(partial.value.action, current))
      modifies this
      ensures Value() == PerformPartial(old(Value()), current, d, s)
    {
      InverseFits(d, current);
      var inversion := Invert(d, current);
      var taken := partial;
      partial := None;
      var replaced;
      if taken.None? {
        replaced := Entry(inversion, s);
      } else {
        replaced := Entry(Chain(inversion, current, taken.value.action), taken.value.selection);
      }
      partial := Some(replaced);
    }

    method Commit()
      modifies this
      ensures Value() == CommitPartial(old(Value()))
    {
      if partial.Some? {
        undo := undo + [partial.value];
        partial := None;
        redo := [];
      }
    }

    method Undo(current: Doc, s: Sel) returns (taken: Option<Entry>)
      requires undo != [] ==> ValidOn(Last(undo).action, current)
      modifies this
      ensures (Value(), taken) == UndoTop(old(Value()), current, s)
    {
      if undo == [] {
        return None;
      }
      var entry := Last(undo);
      undo := Init(undo);
      redo := redo + [Entry(Invert(entry.action, current), s)];
      taken := Some(entry);
    }

    method Redo(current: Doc, s: Sel) returns (taken: Option<Entry>)
      requires redo != [] ==> ValidOn(Last(redo).action, current)
      modifies this
      ensures (Value(), taken) == RedoTop(old(Value()), current, s)
    {
      if redo == [] {
        return None;
      }
      var entry := Last(redo);
      redo := Init(redo);
      undo := undo + [Entry(Invert(entry.action, current), s)];
      taken := Some(entry);
    }
  }
}
