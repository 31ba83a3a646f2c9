/** A buffer object that is driven by key presses. */
module Session {
  import opened Prelude
  import opened Timeline
  import opened Modes
  import opened ModeLaws
  import opened EditingLaws
  import opened CurrentBuffer
  import opened Transitions

  /** The editor that a buffer object and a mode stand for. */
  function EditorOf(buf: CurrentBuffer, mode: Mode): Editor
    reads buf, buf.selection, buf.history
  {
    Editor(buf.Value(), buf.registers, mode)
  }

  /** One key press; false is a panic. */
  method PressKey(mode: Mode, key: Key, buf: CurrentBuffer, bytesPerLine: nat, ghost t: Timeline)
    returns (ok: bool, next: Mode, ghost t': Timeline)
    requires Reached(EditorOf(buf, mode), t) && KeyInside(EditorOf(buf, mode), key)
    modifies buf, buf.selection, buf.history
    ensures AdmissibleRun(old(buf.Value()), Effects(old(EditorOf(buf, mode)), key, bytesPerLine))
    ensures var r := Press(old(EditorOf(buf, mode)), key, bytesPerLine);
            (ok <==> r.Ok?) && (ok ==> r == Ok(EditorOf(buf, next)) && Reached(EditorOf(buf, next), t'))
  {
    ghost var ed := EditorOf(buf, mode);
    StillReached(ed, t, key, bytesPerLine);
    if mode.Normal? {
      ok, next := NormalTransition(key, buf, bytesPerLine);
    } else {
      ok, next := InsertTransition(mode, key, buf, bytesPerLine);
    }
    t' := t;
    if ok {
      t' := RunTimeline(t, Effects(ed, key, bytesPerLine)).value;
    }
  }

  /** A run of key presses, up to a panic if there is one. */
  method PressKeys(start: Mode, keys: seq<Key>, buf: CurrentBuffer, bytesPerLine: nat, ghost t: Timeline)
    returns (ok: bool, mode: Mode)
    requires Reached(EditorOf(buf, start), t) && KeysInside(EditorOf(buf, start), keys, bytesPerLine)
    modifies buf, buf.selection, buf.history
    ensures KeysReady(old(EditorOf(buf, start)), keys, bytesPerLine)
    ensures var r := PressAll(old(EditorOf(buf, start)), keys, bytesPerLine);
            (ok <==> r.Ok?) && (ok ==> r == Ok(EditorOf(buf, mode)))
  {
    ghost var first := EditorOf(buf, start);
    ghost var now := t;
    KeysKeep(first, t, keys, bytesPerLine);
    mode := start;
    assert keys[0..] == keys;
    for i := 0 to |keys|
      invariant Reached(EditorOf(buf, mode), now)
      invariant Remaining(first, keys, EditorOf(buf, mode), i, bytesPerLine)
    {
      NextKey(first, keys, EditorOf(buf, mode), i, bytesPerLine);
      ok, mode, now := PressKey(mode, keys[i], buf, bytesPerLine, now);
      if !ok {
        return;
      }
    }
    assert keys[|keys|..] == [];
    ok := true;
  }

  /** After the first i keys the others do what all of them do from the start. */
  ghost predicate Remaining(first: Editor, keys: seq<Key>, ed: Editor, i: nat, bytesPerLine: nat)
    requires i <= |keys|
  {
    && KeysInside(ed, keys[i..], bytesPerLine) && KeysReady(ed, keys[i..], bytesPerLine)
    && KeysReady(first, keys, bytesPerLine)
    && PressAll(first, keys, bytesPerLine) == PressAll(ed, keys[i..], bytesPerLine)
  }

  lemma {:induction false} NextKey(first: Editor, keys: seq<Key>, ed: Editor, i: nat, bytesPerLine: nat)
    requires i < |keys| && Remaining(first, keys, ed, i, bytesPerLine)
    ensures KeyInside(ed, keys[i]) && EditorInv(ed) && AdmissibleRun(ed.buffer, Effects(ed, keys[i], bytesPerLine))
    ensures match Press(ed, keys[i], bytesPerLine)
            case Panic => PressAll(first, keys, bytesPerLine).Panic?
            case Ok(ed') => Remaining(first, keys, ed', i + 1, bytesPerLine)
  {
    assert keys[i..][0] == keys[i] && keys[i..][1..] == keys[i + 1..];
  }

  /** Opens a document and presses the keys. */
  method OpenAndPress(doc: Doc, keys: seq<Key>, bytesPerLine: nat) returns (buf: CurrentBuffer, ok: bool, mode: Mode)
    requires KeysInside(Opened(doc), keys, bytesPerLine)
    ensures fresh(buf) && fresh(buf.selection) && fresh(buf.history)
    ensures KeysReady(Opened(doc), keys, bytesPerLine)
    ensures var r := PressAll(Opened(doc), keys, bytesPerLine);
            (ok <==> r.Ok?) && (ok ==> r == Ok(EditorOf(buf, mode)))
  {
    buf := new CurrentBuffer(doc);
    ok, mode := PressKeys(Normal, keys, buf, bytesPerLine, OpenedTimeline(doc));
  }
}
