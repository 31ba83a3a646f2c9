/**
 A buffer that keeps deltas behaves like one that keeps whole snapshots: the first is how
 the editor works, the second is what undo and redo mean.
 */
module Timeline {
  import opened Prelude
  import opened Delta
  import opened Action
  import opened Selections
  import opened Transport
  import opened HexTyping
  import opened History
  import opened Region

  /** What the operations of a buffer do to its document, selection and history. An edit
      changes the bytes and carries the selection along, `Select` maps it, `Reselect` puts
      another one in its place, and `Abort` is a panic before anything has changed. */
  datatype Effect =
    | Edit(delta: Delta, caretShift: int, tailShift: int, final: bool)
    | Select(outputs: seq<seq<Region>>)
    | Reselect(selection: Sel)
    | Abort
    | Commit
    | Undo
    | Redo

  /** A buffer as the editor keeps it. */
  datatype Buffer = Buffer(view: View, history: Hist)

  /** A buffer as the user thinks of it: the views before and after the present one, and
      the view from before a pending action. */
  datatype Timeline = Timeline(past: seq<View>, now: View, future: seq<View>, pending: Option<View>)

  // ----- the editor's buffer

  /** The editor's own conditions: a delta fits the document, and neither undo, redo nor a
      final edit comes while an action is pending. */
  predicate Admissible(b: Buffer, e: Effect) {
    match e
    case Edit(d, _, _, final) =>
      && ValidOn(d, b.view.data)
      && (final ==> b.history.partial.None?)
      && (b.history.partial.Some? ==> ValidOn(b.history.partial.value.action, b.view.data))
    case Undo => b.history.partial.None? && (b.history.undo != [] ==> ValidOn(Last(b.history.undo).action, b.view.data))
    case Redo => b.history.partial.None? && (b.history.redo != [] ==> ValidOn(Last(b.history.redo).action, b.view.data))
    case _ => true
  }

  /** The view after an edit: the delta applied and the selection carried along. */
  function EditView(v: View, d: Delta, caretShift: int, tailShift: int): Outcome<View>
    requires ValidOn(d, v.data)
  {
    match CarryShifted(v.selection, d, caretShift, tailShift, |v.data|)
    case Ok(s) => Ok(View(Apply(d, v.data), s))
    case Panic => Panic
  }

  function SelectView(v: View, outputs: seq<seq<Region>>): Outcome<View> {
    match MapSelections(outputs, v.selection.main)
    case Ok(s) => Ok(v.(selection := s))
    case Panic => Panic
  }

  function Perform(b: Buffer, e: Effect): Outcome<Buffer>
    requires Admissible(b, e)
  {
    var Buffer(view, history) := b;
    match e
    case Edit(d, caretShift, tailShift, final) =>
      (match EditView(view, d, caretShift, tailShift)
       case Panic => Panic
       case Ok(view') =>
         var history' := if final then PerformFinal(history, view.data, d, view.selection)
                         else PerformPartial(history, view.data, d, view.selection);
         Ok(Buffer(view', history')))
    case Select(outputs) =>
      (match SelectView(view, outputs)
       case Panic => Panic
       case Ok(view') => Ok(b.(view := view')))
    case Reselect(s) => Ok(b.(view := view.(selection := s)))
    case Abort => Panic
    case Commit => Ok(b.(history := CommitPartial(history)))
    case Undo =>
      (match UndoTop(history, view.data, view.selection)
       case (_, None) => Ok(b)
       case (history', Some(entry)) => Ok(Buffer(View(Apply(entry.action, view.data), entry.selection), history')))
    case Redo =>
      (match RedoTop(history, view.data, view.selection)
       case (_, None) => Ok(b)
       case (history', Some(entry)) => Ok(Buffer(View(Apply(entry.action, view.data), entry.selection), history')))
  }

  // ----- the snapshots

  predicate Timely(t: Timeline, e: Effect) {
    match e
    case Edit(d, _, _, final) => ValidOn(d, t.now.data) && (final ==> t.pending.None?)
    case Undo => t.pending.None?
    case Redo => t.pending.None?
    case _ => true
  }

  function Advance(t: Timeline, e: Effect): Outcome<Timeline>
    requires Timely(t, e)
  {
    match e
    case Edit(d, caretShift, tailShift, final) =>
      (match EditView(t.now, d, caretShift, tailShift)
       case Panic => Panic
       case Ok(now') =>
         if final then Ok(Timeline(t.past + [t.now], now', [], None))
         else Ok(t.(now := now', pending := Some(if t.pending.Some? then t.pending.value else t.now))))
    case Select(outputs) =>
      (match SelectView(t.now, outputs)
       case Panic => Panic
       case Ok(now') => Ok(t.(now := now')))
    case Reselect(s) => Ok(t.(now := t.now.(selection := s)))
    case Abort => Panic
    case Commit =>
      if t.pending.None? then Ok(t) else Ok(Timeline(t.past + [t.pending.value], t.now, [], None))
    case Undo =>
      if t.past == [] then Ok(t) else Ok(Timeline(Init(t.past), Last(t.past), t.future + [t.now], None))
    case Redo =>
      if t.future == [] then Ok(t) else Ok(Timeline(t.past + [t.now], Last(t.future), Init(t.future), None))
  }

  // ----- how they correspond

  /** From `doc`, the actions on a stack lead to the recorded views, one after the other. */
  predicate Leads(stack: seq<Entry>, views: seq<View>, doc: Doc) {
    && |stack| == |views|
    && (stack != [] ==>
          && ValidOn(Last(stack).action, doc)
          && Apply(Last(stack).action, doc) == Last(views).data
          && Last(stack).selection == Last(views).selection
          && Leads(Init(stack), Init(views), Last(views).data))
  }

  predicate Agree(b: Buffer, t: Timeline) {
    var h := b.history;
    var anchor := if t.pending.Some? then t.pending.value.data else t.now.data;
    && b.view == t.now
    && Leads(h.undo, t.past, anchor)
    && Leads(h.redo, t.future, anchor)
    && (h.partial.Some? <==> t.pending.Some?)
    && (h.partial.Some? ==>
          && ValidOn(h.partial.value.action, t.now.data)
          && Apply(h.partial.value.action, t.now.data) == t.pending.value.data
          && h.partial.value.selection == t.pending.value.selection)
  }

  lemma LeadsPush(stack: seq<Entry>, views: seq<View>, doc: Doc, entry: Entry, doc': Doc)
    requires Leads(stack, views, doc) && ValidOn(entry.action, doc') && Apply(entry.action, doc') == doc
    ensures Leads(stack + [entry], views + [View(doc, entry.selection)], doc')
  {
    var stack', views' := stack + [entry], views + [View(doc, entry.selection)];
    assert Init(stack') == stack && Init(views') == views;
  }

  /** A pending action that grows still leads back to where it began. */
  lemma PartialGrows(d: Delta, doc: Doc, back: Delta)
    requires ValidOn(d, doc) && ValidOn(back, doc)
    ensures ValidOn(Invert(d, doc), Apply(d, doc)) && NewLen(Invert(d, doc)) == |doc|
    ensures var grown := Chain(Invert(d, doc), doc, back);
            ValidOn(grown, Apply(d, doc)) && Apply(grown, Apply(d, doc)) == Apply(back, doc)
  {
    InverseFits(d, doc);
    InvertUndoes(d, doc);
    ChainComposes(Invert(d, doc), Apply(d, doc), back);
  }

  lemma StepAllowed(b: Buffer, t: Timeline, e: Effect)
    requires Agree(b, t)
    ensures Admissible(b, e) <==> Timely(t, e)
  {
  }

  lemma EditAgrees(b: Buffer, t: Timeline, e: Effect)
    requires Agree(b, t) && e.Edit? && Admissible(b, e) && Timely(t, e)
    ensures Perform(b, e).Panic? <==> Advance(t, e).Panic?
    ensures Perform(b, e).Ok? ==> Agree(Perform(b, e).value, Advance(t, e).value)
  {
    var doc := t.now.data;
    if EditView(t.now, e.delta, e.caretShift, e.tailShift).Ok? {
      InvertUndoes(e.delta, doc);
      if e.final {
        LeadsPush(b.history.undo, t.past, doc, Entry(Invert(e.delta, doc), t.now.selection), Apply(e.delta, doc));
      } else if t.pending.Some? {
        PartialGrows(e.delta, doc, b.history.partial.value.action);
      }
    }
  }

  lemma CommitAgrees(b: Buffer, t: Timeline)
    requires Agree(b, t)
    ensures Agree(Perform(b, Commit).value, Advance(t, Commit).value)
  {
    if t.pending.Some? {
      LeadsPush(b.history.undo, t.past, t.pending.value.data, b.history.partial.value, t.now.data);
    }
  }

  lemma UndoAgrees(b: Buffer, t: Timeline)
    requires Agree(b, t) && t.pending.None? && t.past != []
    ensures Admissible(b, Undo) && Agree(Perform(b, Undo).value, Advance(t, Undo).value)
  {
    var entry, doc := Last(b.history.undo), t.now.data;
    InvertUndoes(entry.action, doc);
    LeadsPush(b.history.redo, t.future, doc, Entry(Invert(entry.action, doc), t.now.selection), Last(t.past).data);
  }

  lemma RedoAgrees(b: Buffer, t: Timeline)
    requires Agree(b, t) && t.pending.None? && t.future != []
    ensures Admissible(b, Redo) && Agree(Perform(b, Redo).value, Advance(t, Redo).value)
  {
    var entry, doc := Last(b.history.redo), t.now.data;
    InvertUndoes(entry.action, doc);
    LeadsPush(b.history.undo, t.past, doc, Entry(Invert(entry.action, doc), t.now.selection), Last(t.future).data);
  }

  /** One step of the editor's buffer is the same step of the snapshots. */
  lemma StepAgrees(b: Buffer, t: Timeline, e: Effect)
    requires Agree(b, t) && Timely(t, e)
    ensures Admissible(b, e)
    ensures Perform(b, e).Panic? <==> Advance(t, e).Panic?
    ensures Perform(b, e).Ok? ==> Agree(Perform(b, e).value, Advance(t, e).value)
  {
    StepAllowed(b, t, e);
    match e
    case Edit(_, _, _, _) => EditAgrees(b, t, e);
    case Select(_) =>
    case Reselect(_) =>
    case Abort =>
    case Commit => CommitAgrees(b, t);
    case Undo => if t.past != [] { UndoAgrees(b, t); }
    case Redo => if t.future != [] { RedoAgrees(b, t); }
  }

  // ----- runs

  predicate TimelyRun(t: Timeline, es: seq<Effect>)
    decreases |es|
  {
    es == [] ||
    (Timely(t, es[0]) && (Advance(t, es[0]).Ok? ==> TimelyRun(Advance(t, es[0]).value, es[1..])))
  }

  function RunTimeline(t: Timeline, es: seq<Effect>): Outcome<Timeline>
    requires TimelyRun(t, es)
    decreases |es|
  {
    if es == [] then Ok(t)
    else match Advance(t, es[0])
      case Ok(t') => RunTimeline(t', es[1..])
      case Panic => Panic
  }

  predicate AdmissibleRun(b: Buffer, es: seq<Effect>)
    decreases |es|
  {
    es == [] ||
    (Admissible(b, es[0]) && (Perform(b, es[0]).Ok? ==> AdmissibleRun(Perform(b, es[0]).value, es[1..])))
  }

  function RunBuffer(b: Buffer, es: seq<Effect>): Outcome<Buffer>
    requires AdmissibleRun(b, es)
    decreases |es|
  {
    if es == [] then Ok(b)
    else match Perform(b, es[0])
      case Ok(b') => RunBuffer(b', es[1..])
      case Panic => Panic
  }

  /** Over every run, the buffer that keeps deltas shows what the snapshots show. */
  lemma {:induction false} RunAgrees(b: Buffer, t: Timeline, es: seq<Effect>)
    requires Agree(b, t) && TimelyRun(t, es)
    ensures AdmissibleRun(b, es)
    ensures RunBuffer(b, es).Panic? <==> RunTimeline(t, es).Panic?
    ensures RunBuffer(b, es).Ok? ==> Agree(RunBuffer(b, es).value, RunTimeline(t, es).value)
    decreases |es|
  {
    if es != [] {
      StepAgrees(b, t, es[0]);
      if Perform(b, es[0]).Ok? {
        RunAgrees(Perform(b, es[0]).value, Advance(t, es[0]).value, es[1..]);
      }
    }
  }

  lemma {:induction false} RunConcat(t: Timeline, a: seq<Effect>, c: seq<Effect>)
    requires TimelyRun(t, a) && (RunTimeline(t, a).Ok? ==> TimelyRun(RunTimeline(t, a).value, c))
    ensures TimelyRun(t, a + c)
    ensures RunTimeline(t, a + c) ==
            if RunTimeline(t, a).Ok? then RunTimeline(RunTimeline(t, a).value, c) else Panic
    decreases |a|
  {
    if a == [] {
      assert a + c == c;
    } else {
      assert (a + c)[0] == a[0] && (a + c)[1..] == a[1..] + c;
      if Advance(t, a[0]).Ok? {
        RunConcat(Advance(t, a[0]).value, a[1..], c);
      }
    }
  }

  // ----- undo and redo

  function Times(e: Effect, k: nat): (es: seq<Effect>)
    ensures |es| == k && forall i :: 0 <= i < k ==> es[i] == e
  {
    seq(k, _ => e)
  }

  /** k undos show the view from k actions ago. */
  lemma {:induction false} UndoMany(t: Timeline, k: nat)
    requires t.pending.None? && k <= |t.past|
    ensures TimelyRun(t, Times(Undo, k)) && RunTimeline(t, Times(Undo, k)).Ok?
    ensures var t' := RunTimeline(t, Times(Undo, k)).value;
            && t'.pending.None? && t'.past == t.past[..|t.past| - k]
            && t'.now == if k == 0 then t.now else t.past[|t.past| - k]
    decreases k
  {
    if k > 0 {
      assert Times(Undo, k)[1..] == Times(Undo, k - 1);
      UndoMany(Advance(t, Undo).value, k - 1);
    }
  }

  lemma RedoUndoes(t: Timeline)
    requires t.pending.None? && t.past != []
    ensures Advance(Advance(t, Undo).value, Redo) == Ok(t)
  {
    assert Init(t.past) + [Last(t.past)] == t.past;
    assert Init(t.future + [t.now]) == t.future;
  }

  /** k undos and then k redos lead back to the same timeline. */
  lemma {:induction false} UndoRedoMany(t: Timeline, k: nat)
    requires t.pending.None? && k <= |t.past|
    ensures TimelyRun(t, Times(Undo, k) + Times(Redo, k))
    ensures RunTimeline(t, Times(Undo, k) + Times(Redo, k)) == Ok(t)
    decreases k
  {
    if k == 0 {
      assert Times(Undo, k) + Times(Redo, k) == [];
    } else {
      var t' := Advance(t, Undo).value;
      var inner := Times(Undo, k - 1) + Times(Redo, k - 1);
      UndoRedoMany(t', k - 1);
      RedoUndoes(t);
      assert [Redo][1..] == [];
      assert TimelyRun(t', [Redo]) && RunTimeline(t', [Redo]) == Ok(t);
      RunConcat(t', inner, [Redo]);
      assert (Times(Undo, k) + Times(Redo, k))[1..] == inner + [Redo];
    }
  }

  /** k undos and then j redos show what k - j undos show. */
  lemma UndoRedoSome(t: Timeline, k: nat, j: nat)
    requires t.pending.None? && j <= k <= |t.past|
    ensures TimelyRun(t, Times(Undo, k - j)) && TimelyRun(t, Times(Undo, k) + Times(Redo, j))
    ensures RunTimeline(t, Times(Undo, k) + Times(Redo, j)) == RunTimeline(t, Times(Undo, k - j))
  {
    UndoMany(t, k - j);
    var t' := RunTimeline(t, Times(Undo, k - j)).value;
    UndoRedoMany(t', j);
    RunConcat(t, Times(Undo, k - j), Times(Undo, j) + Times(Redo, j));
    assert Times(Undo, k) + Times(Redo, j) == Times(Undo, k - j) + (Times(Undo, j) + Times(Redo, j));
  }

  /** k undos and then j redos show the bytes and the selection from k - j actions ago. */
  ghost predicate Rewinds(b: Buffer, t: Timeline, k: nat, j: nat)
    requires j <= k <= |t.past|
  {
    && AdmissibleRun(b, Times(Undo, k) + Times(Redo, j))
    && var r := RunBuffer(b, Times(Undo, k) + Times(Redo, j));
    && r.Ok?
    && r.value.view == if j == k then b.view else t.past[|t.past| - (k - j)]
  }

  /** For every buffer that agrees with its snapshots: k undos restore the bytes and the selection from k actions
      ago, and j redos after that bring back those from k - j actions ago. */
  lemma UndoRestores(b: Buffer, t: Timeline, k: nat, j: nat)
    requires Agree(b, t) && t.pending.None? && j <= k <= |t.past|
    ensures Rewinds(b, t, k, j)
  {
    UndoRedoSome(t, k, j);
    UndoMany(t, k - j);
    RunAgrees(b, t, Times(Undo, k) + Times(Redo, j));
  }

  // ----- insert sessions

  /** Edits that belong to one pending action, with changes of the selection in between. */
  predicate InSession(e: Effect) {
    e.Select? || (e.Edit? && !e.final)
  }

  lemma {:induction false} SessionPending(t: Timeline, es: seq<Effect>)
    requires t.pending.Some? && TimelyRun(t, es) && forall i :: 0 <= i < |es| ==> InSession(es[i])
    ensures RunTimeline(t, es).Ok? ==>
              var t' := RunTimeline(t, es).value;
              t'.pending == t.pending && t'.past == t.past
    decreases |es|
  {
    if es != [] {
      assert InSession(es[0]);
      if Advance(t, es[0]).Ok? {
        SessionPending(Advance(t, es[0]).value, es[1..]);
      }
    }
  }

  /** Committing and undoing a pending action leads back to where it began. */
  lemma {:induction false} CommitThenUndo(t: Timeline)
    requires t.pending.Some?
    ensures TimelyRun(t, [Commit, Undo]) && RunTimeline(t, [Commit, Undo]).Ok?
    ensures var t' := RunTimeline(t, [Commit, Undo]).value;
            t'.now == t.pending.value && t'.past == t.past
  {
    var committed := Advance(t, Commit).value;
    var undone := Advance(committed, Undo).value;
    assert [Commit, Undo][1..] == [Undo] && [Undo][1..] == [];
    assert RunTimeline(undone, []) == Ok(undone);
    assert TimelyRun(committed, [Undo]) && RunTimeline(committed, [Undo]) == Ok(undone);
    assert Last(committed.past) == t.pending.value && Init(committed.past) == t.past;
  }

  /** A session of any number of partial edits, once committed, is one action: a single undo
      restores the bytes and the selection from before its first edit. */
  lemma SessionIsOneAction(b: Buffer, t: Timeline, es: seq<Effect>)
    requires Agree(b, t) && t.pending.None? && TimelyRun(t, es)
    requires es != [] && es[0].Edit? && forall i :: 0 <= i < |es| ==> InSession(es[i])
    requires RunTimeline(t, es).Ok?
    ensures AdmissibleRun(b, es + [Commit, Undo]) && RunBuffer(b, es + [Commit, Undo]).Ok?
    ensures RunBuffer(b, es + [Commit, Undo]).value.view == b.view
    ensures TimelyRun(t, es + [Commit, Undo]) && RunTimeline(t, es + [Commit, Undo]).Ok?
    ensures RunTimeline(t, es + [Commit, Undo]).value.past == t.past
  {
    assert InSession(es[0]);
    SessionPending(Advance(t, es[0]).value, es[1..]);
    CommitThenUndo(RunTimeline(t, es).value);
    RunConcat(t, es, [Commit, Undo]);
    RunAgrees(b, t, es + [Commit, Undo]);
  }
}
